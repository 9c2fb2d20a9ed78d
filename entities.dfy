/** The two stored entities and the user fields that may leave the server. */
module Entities {

  /** A `user` row; `password` holds the password hash. */
  datatype User = User(id: int, name: string, email: string, password: string)

  /** What a response may carry about a user: no password hash. */
  datatype PublicUser = PublicUser(id: int, name: string, email: string)

  /** An `image` row; `owner` is the id of the owning user. */
  datatype Image = Image(id: int, url: string, owner: int, createdAt: int)

  function Public(u: User): PublicUser {
    PublicUser(u.id, u.name, u.email)
  }
}
