/** How the handlers compose: a session issued at sign-up opens the protected routes. */
module Flows {
  import opened Wrappers
  import opened Entities
  import opened Http
  import opened Crypto
  import opened Users
  import opened Headers
  import opened AuthController
  import opened AuthMiddleware

  /** A new email is found at its new row. */
  lemma {:induction false} FindByEmailAppended(rows: seq<User>, u: User)
    requires forall k :: 0 <= k < |rows| ==> rows[k].email != u.email
    ensures FindByEmail(rows + [u], u.email) == Some(u)
  {
    if rows != [] {
      assert (rows + [u])[1..] == rows[1..] + [u];
      FindByEmailAppended(rows[1..], u);
    } else {
      assert rows + [u] == [u];
    }
  }

  /** The header a client sends with a token. */
  function BearerHeader(token: string): Option<string> {
    Some("Bearer " + token)
  }

  /** Any stored user's token opens the middleware for that user. */
  lemma IssuedTokenAdmits(rows: seq<User>, p: Primitives, k: nat)
    requires Sound(p) && DenseIds(rows) && k < |rows|
    ensures Authorize(rows, p, BearerHeader(p.sign(rows[k].id)), false) == Admit(rows[k])
    ensures AuthController.CheckStatusOutcome(rows, p, BearerHeader(p.sign(rows[k].id)), false)
      == Response(200, Session(Public(rows[k]), p.sign(rows[k].id)))
  {
    var token := p.sign(rows[k].id);
    TokenOfScheme("Bearer", token);
    assert "Bearer" + " " + token == "Bearer " + token;
    FindByIdDense(rows, rows[k].id);
  }

  /**
   * After a successful sign-up, signing in with the same credentials
   * answers with the same user and token, and that token opens the
   * protected routes for the new user.
   */
  lemma SignUpThenSignIn(rows: seq<User>, p: Primitives, body: SignUpBody)
    requires Sound(p) && DenseIds(rows)
    requires SignUpOutcome(rows, p, body, NoFault).1.status == 201
    ensures var (rows', res) := SignUpOutcome(rows, p, body, NoFault);
      && SignInOutcome(rows', p, SignInBody(body.email, body.password), NoFault) == Response(200, res.body)
      && Authorize(rows', p, BearerHeader(res.body.token), false) == Admit(rows'[|rows|])
      && rows'[|rows|].password == p.hash(body.password.value)
  {
    SignUpSuccess(rows, p, body, NoFault);
    var (rows', res) := SignUpOutcome(rows, p, body, NoFault);
    var u := rows'[|rows|];
    assert rows' == rows + [u];
    FindByEmailAppended(rows, u);
    assert p.compare(body.password.value, p.hash(body.password.value));
    assert DenseIds(rows') by {
      forall j | 0 <= j < |rows'| ensures rows'[j].id == j + 1 {
        if j < |rows| { assert rows'[j] == rows[j]; }
      }
    }
    IssuedTokenAdmits(rows', p, |rows|);
  }
}
