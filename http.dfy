/** Status and JSON body written by a handler. */
module Http {
  import opened Entities

  datatype Body =
    | Message(message: string)
    | Session(user: PublicUser, token: string)
    | Saved(message: string, url: string)
    | Images(images: seq<Image>)

  datatype Response = Response(status: int, body: Body)

  const ServerError := "Server error"
}
