/**
 * `authMiddleware`: resolves the bearer token to a stored user, sets
 * `req.user` and passes the request on, or answers 401.
 */
module AuthMiddleware {
  import opened Wrappers
  import opened Entities
  import opened Http
  import opened Crypto
  import opened Users
  import opened JsString
  import opened Headers
  import AuthController

  const TokenRequired := "Authorization token required"
  const UserNotFound := "User not found"
  const InvalidOrExpired := "Invalid or expired token"

  /** The middleware's verdict: hand the request on with a user, or answer. */
  datatype Decision = Admit(user: User) | Reject(response: Response)

  /** The decision for an `Authorization` header; `lookupThrows` is the database failing. */
  function Authorize(rows: seq<User>, p: Primitives, authorization: Option<string>, lookupThrows: bool): Decision
  {
    var token := TokenFromHeader(authorization);
    if !Truthy(token) then Reject(Response(401, Message(TokenRequired)))
    else match p.verify(token.value)
      case None => Reject(Response(401, Message(InvalidOrExpired)))
      case Some(claims) =>
        if lookupThrows then Reject(Response(401, Message(InvalidOrExpired)))
        else if claims.userId.None? then Reject(Response(401, Message(UserNotFound)))
        else match FindById(rows, claims.userId.value)
          case None => Reject(Response(401, Message(UserNotFound)))
          case Some(user) => Admit(user)
  }

  /** One request passing through the middleware. */
  class Exchange {
    const authorization: Option<string>
    var user: Option<User>
    var response: Option<Response>
    var nextCalls: nat

    constructor (authorization: Option<string>)
      ensures this.authorization == authorization
      ensures user == None && response == None && nextCalls == 0
    {
      this.authorization := authorization;
      user := None;
      response := None;
      nextCalls := 0;
    }
  }

  /**
   * Either `req.user` is set and `next` is called once, or a 401 is
   * written and `next` is not called; the user table is only read.
   */
  method Run(ex: Exchange, repo: UserRepository, p: Primitives, lookupThrows: bool)
    modifies ex
    ensures match Authorize(repo.rows, p, ex.authorization, lookupThrows)
      case Admit(u) =>
        ex.user == Some(u) && ex.nextCalls == old(ex.nextCalls) + 1 && ex.response == old(ex.response)
      case Reject(r) =>
        ex.response == Some(r) && ex.nextCalls == old(ex.nextCalls) && ex.user == old(ex.user)
  {
    var token := TokenFromHeader(ex.authorization);
    if !Truthy(token) {
      ex.response := Some(Response(401, Message(TokenRequired)));
      return;
    }
    var decoded := p.verify(token.value);
    if decoded.None? || lookupThrows {
      ex.response := Some(Response(401, Message(InvalidOrExpired)));
      return;
    }
    if decoded.value.userId.None? {
      ex.response := Some(Response(401, Message(UserNotFound)));
      return;
    }
    var user := repo.FindOneById(decoded.value.userId.value);
    if user.None? {
      ex.response := Some(Response(401, Message(UserNotFound)));
      return;
    }
    ex.user := user;
    ex.nextCalls := ex.nextCalls + 1;
  }

  /** The three rejections, each with its message; every rejection is a 401. */
  lemma AuthorizeRejections(rows: seq<User>, p: Primitives, authorization: Option<string>, lookupThrows: bool)
    ensures var token := TokenFromHeader(authorization);
      !Truthy(token) ==> Authorize(rows, p, authorization, lookupThrows) == Reject(Response(401, Message(TokenRequired)))
    ensures var token := TokenFromHeader(authorization);
      Truthy(token) && (p.verify(token.value).None? || lookupThrows) ==>
        Authorize(rows, p, authorization, lookupThrows) == Reject(Response(401, Message(InvalidOrExpired)))
    ensures var token := TokenFromHeader(authorization);
      Truthy(token) && p.verify(token.value).Some? && !lookupThrows
      && (p.verify(token.value).value.userId.None?
          || forall k :: 0 <= k < |rows| ==> rows[k].id != p.verify(token.value).value.userId.value) ==>
        Authorize(rows, p, authorization, lookupThrows) == Reject(Response(401, Message(UserNotFound)))
    ensures Authorize(rows, p, authorization, lookupThrows).Reject? ==>
      Authorize(rows, p, authorization, lookupThrows).response.status == 401
  {
  }

  /** An admitted request carries the stored user whose id the token names, and only then. */
  lemma AuthorizeAdmits(rows: seq<User>, p: Primitives, authorization: Option<string>, lookupThrows: bool)
    ensures Authorize(rows, p, authorization, lookupThrows).Admit? <==>
      var token := TokenFromHeader(authorization);
      && Truthy(token) && !lookupThrows
      && p.verify(token.value).Some? && p.verify(token.value).value.userId.Some?
      && exists k :: 0 <= k < |rows| && rows[k].id == p.verify(token.value).value.userId.value
    ensures Authorize(rows, p, authorization, lookupThrows).Admit? ==>
      var u := Authorize(rows, p, authorization, lookupThrows).user;
      u in rows && p.verify(TokenFromHeader(authorization).value) == Some(Claims(Some(u.id)))
  {
    var d := Authorize(rows, p, authorization, lookupThrows);
    var token := TokenFromHeader(authorization);
    if Truthy(token) && !lookupThrows && p.verify(token.value).Some? && p.verify(token.value).value.userId.Some? {
      var id := p.verify(token.value).value.userId.value;
      if exists k :: 0 <= k < |rows| && rows[k].id == id {
        var k :| 0 <= k < |rows| && rows[k].id == id;
        assert FindById(rows, id).Some?;
      }
    }
  }

  /**
   * `checkStatus` answers 200 for exactly the requests the middleware
   * admits, with the admitted user and a fresh token for it.
   */
  lemma CheckStatusAgreesWithAuthorize(rows: seq<User>, p: Primitives, authorization: Option<string>, lookupThrows: bool)
    ensures var res := AuthController.CheckStatusOutcome(rows, p, authorization, lookupThrows);
      var d := Authorize(rows, p, authorization, lookupThrows);
      (res.status == 200 <==> d.Admit?)
      && (d.Admit? ==> res.body == Session(Public(d.user), p.sign(d.user.id)))
  {
  }
}
