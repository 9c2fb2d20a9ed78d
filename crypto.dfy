/**
 * Password hashing and session tokens, left abstract: bcrypt and JWT are
 * foreign code, so each handler receives them as functions.
 */
module Crypto {
  import opened Wrappers

  /** The payload `verify` decodes; `userId` is absent when the payload has none. */
  datatype Claims = Claims(userId: Option<int>)

  /**
   * `hash` and `compare` stand for bcrypt; `sign` for `generateToken`;
   * `verify` for `verifyToken`, with `None` when it throws (bad signature,
   * expired, malformed).
   */
  datatype Primitives = Primitives(
    hash: string -> string,
    compare: (string, string) -> bool,
    sign: int -> string,
    verify: string -> Option<Claims>)

  /**
   * What the handlers rely on: a token verifies to the id it was signed
   * for, is one non-empty word, and a password matches its own hash.
   */
  ghost predicate Sound(p: Primitives) {
    && (forall id :: p.verify(p.sign(id)) == Some(Claims(Some(id))))
    && (forall id :: p.sign(id) != "" && ' ' !in p.sign(id))
    && (forall pw :: p.compare(pw, p.hash(pw)))
  }
}
