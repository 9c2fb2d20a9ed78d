/**
 * The sign-up, sign-in and status-check handlers: input validation, then
 * a lookup in the user table, then either an error response or a session
 * (public user fields plus a freshly signed token).
 */
module AuthController {
  import opened Wrappers
  import opened JsString
  import opened Entities
  import opened Http
  import opened Crypto
  import opened Users
  import opened Headers

  const FieldsRequired := "Name, email, and password are required"
  const CredentialsRequired := "Email and password are required"
  const InvalidEmailFormat := "Invalid email format"
  const PasswordTooShort := "Password must be at least 6 characters long"
  const UserExists := "User already exists"
  const InvalidEmail := "Invalid email"
  const InvalidPassword := "Invalid password"
  const NoTokenProvided := "No token provided"
  const InvalidToken := "Invalid token"

  const MinPasswordLength := 6

  // ------------------------------------------------------------ email pattern

  /** `[^\s@]`: a character of one of the three parts of an address. */
  predicate IsPartChar(c: char) {
    !IsWhiteSpace(c) && c != '@'
  }

  predicate AllPart(s: string) {
    forall i :: 0 <= i < |s| ==> IsPartChar(s[i])
  }

  /**
   * What `/^[^\s@]+@[^\s@]+\.[^\s@]+$/` matches, part by part: a local part,
   * `@`, a first domain part, a literal `.`, a last domain part, none empty.
   */
  ghost predicate MatchesEmailPattern(s: string) {
    exists i, j :: 0 < i && i + 1 < j && j + 1 < |s| && s[i] == '@' && s[j] == '.'
      && AllPart(s[..i]) && AllPart(s[i + 1..j]) && AllPart(s[j + 1..])
  }

  /** After the `@`: part characters only, with a `.` that is neither first nor last. */
  function DomainOk(d: string): bool {
    AllPart(d) && |d| >= 3 && '.' in d[1..|d| - 1]
  }

  /** `emailRegex.test(email)`, computed from the first `@`. */
  function TestEmail(s: string): bool {
    match IndexOf(s, '@')
    case None => false
    case Some(i) => 0 < i && AllPart(s[..i]) && DomainOk(s[i + 1..])
  }

  /** The test accepts exactly the strings the pattern matches. */
  lemma TestEmailMatchesPattern(s: string)
    ensures TestEmail(s) <==> MatchesEmailPattern(s)
  {
    if TestEmail(s) {
      TestEmailSound(s);
    }
    if MatchesEmailPattern(s) {
      var i, j :| 0 < i && i + 1 < j && j + 1 < |s| && s[i] == '@' && s[j] == '.'
        && AllPart(s[..i]) && AllPart(s[i + 1..j]) && AllPart(s[j + 1..]);
      TestEmailComplete(s, i, j);
    }
  }

  lemma TestEmailSound(s: string)
    requires TestEmail(s)
    ensures MatchesEmailPattern(s)
  {
    var i := IndexOf(s, '@').value;
    var d := s[i + 1..];
    var k :| 0 <= k < |d[1..|d| - 1]| && d[1..|d| - 1][k] == '.';
    var j := i + 2 + k;
    assert s[j] == '.' by { assert s[j] == d[1..|d| - 1][k]; }
    var first, last := s[i + 1..j], s[j + 1..];
    forall t | 0 <= t < |first| ensures IsPartChar(first[t]) { assert first[t] == d[t]; }
    forall t | 0 <= t < |last| ensures IsPartChar(last[t]) { assert last[t] == d[k + 2 + t]; }
  }

  lemma TestEmailComplete(s: string, i: int, j: int)
    requires 0 < i && i + 1 < j && j + 1 < |s| && s[i] == '@' && s[j] == '.'
    requires AllPart(s[..i]) && AllPart(s[i + 1..j]) && AllPart(s[j + 1..])
    ensures TestEmail(s)
  {
    var f := IndexOf(s, '@').value;
    forall t | 0 <= t < i ensures s[t] != '@' { assert s[t] == s[..i][t]; }
    forall t | 0 <= t < f ensures s[t] != '@' { assert s[t] == s[..f][t]; }
    assert f == i;
    var d := s[i + 1..];
    assert AllPart(d) by {
      forall t | 0 <= t < |d| ensures IsPartChar(d[t]) {
        if t < j - i - 1 { assert d[t] == s[i + 1..j][t]; }
        else if t == j - i - 1 { assert d[t] == s[j]; }
        else { assert d[t] == s[j + 1..][t - (j - i)]; }
      }
    }
    assert d[1..|d| - 1][j - i - 2] == '.';
  }

  /** An address that passes has an `@` and no white space anywhere. */
  lemma TestEmailExcludes(s: string)
    requires TestEmail(s)
    ensures '@' in s && NoWhiteSpace(s)
  {
    var i := IndexOf(s, '@').value;
    var d := s[i + 1..];
    forall w | 0 <= w < |s| ensures !IsWhiteSpace(s[w]) {
      if w < i { assert s[w] == s[..i][w]; }
      else if w > i { assert s[w] == d[w - i - 1]; }
    }
  }

  // ------------------------------------------------------------- validation

  datatype ValidationError = ValidationError(status: int, message: string)

  /**
   * `validateEmailAndPassword`: the email is checked first; null (here
   * `None`) exactly when both checks pass.
   */
  function ValidateEmailAndPassword(email: string, password: string): (r: Option<ValidationError>)
    ensures r.None? <==> MatchesEmailPattern(email) && Utf16Length(password) >= MinPasswordLength
    ensures !MatchesEmailPattern(email) ==> r == Some(ValidationError(400, InvalidEmailFormat))
    ensures MatchesEmailPattern(email) && Utf16Length(password) < MinPasswordLength ==>
      r == Some(ValidationError(400, PasswordTooShort))
  {
    TestEmailMatchesPattern(email);
    if !TestEmail(email) then Some(ValidationError(400, InvalidEmailFormat))
    else if Utf16Length(password) < MinPasswordLength then Some(ValidationError(400, PasswordTooShort))
    else None
  }

  // --------------------------------------------------------------- requests

  datatype SignUpBody = SignUpBody(name: Option<string>, email: Option<string>, password: Option<string>)

  datatype SignInBody = SignInBody(email: Option<string>, password: Option<string>)

  /**
   * Which call inside a handler's `try` block throws, if any: the email
   * lookup, or a later call (hashing, saving, comparing).
   */
  datatype StoreFault = NoFault | LookupThrows | LaterThrows

  // ----------------------------------------------------------------- signUp

  /** What `signUp` does to the table and what it answers. */
  function SignUpOutcome(rows: seq<User>, p: Primitives, body: SignUpBody, fault: StoreFault): (seq<User>, Response)
  {
    if !Truthy(body.name) || !Truthy(body.email) || !Truthy(body.password) then
      (rows, Response(400, Message(FieldsRequired)))
    else
      var name, email, password := body.name.value, body.email.value, body.password.value;
      match ValidateEmailAndPassword(email, password)
      case Some(e) => (rows, Response(e.status, Message(e.message)))
      case None =>
        if fault == LookupThrows then (rows, Response(500, Message(ServerError)))
        else if FindByEmail(rows, email).Some? then (rows, Response(400, Message(UserExists)))
        else if fault == LaterThrows then (rows, Response(500, Message(ServerError)))
        else
          var u := User(|rows| + 1, name, email, p.hash(password));
          (rows + [u], Response(201, Session(Public(u), p.sign(u.id))))
  }

  method SignUp(repo: UserRepository, p: Primitives, body: SignUpBody, fault: StoreFault) returns (res: Response)
    modifies repo
    ensures (repo.rows, res) == SignUpOutcome(old(repo.rows), p, body, fault)
  {
    if !Truthy(body.name) || !Truthy(body.email) || !Truthy(body.password) {
      return Response(400, Message(FieldsRequired));
    }
    var name, email, password := body.name.value, body.email.value, body.password.value;
    var validationError := ValidateEmailAndPassword(email, password);
    if validationError.Some? {
      return Response(validationError.value.status, Message(validationError.value.message));
    }
    if fault == LookupThrows {
      return Response(500, Message(ServerError));
    }
    var existingUser := repo.FindOneByEmail(email);
    if existingUser.Some? {
      return Response(400, Message(UserExists));
    }
    if fault == LaterThrows {
      return Response(500, Message(ServerError));
    }
    var hashedPassword := p.hash(password);
    var newUser := repo.Save(name, email, hashedPassword);
    var token := p.sign(newUser.id);
    res := Response(201, Session(Public(newUser), token));
  }

  /** Any missing or empty field: 400, and the table is untouched. */
  lemma SignUpRequiresAllFields(rows: seq<User>, p: Primitives, body: SignUpBody, fault: StoreFault)
    requires !Truthy(body.name) || !Truthy(body.email) || !Truthy(body.password)
    ensures SignUpOutcome(rows, p, body, fault) == (rows, Response(400, Message(FieldsRequired)))
  {
  }

  /**
   * A malformed email is reported whatever the password, and a short
   * password only after the email passed; neither touches the table.
   */
  lemma SignUpValidationOrder(rows: seq<User>, p: Primitives, body: SignUpBody, fault: StoreFault)
    requires Truthy(body.name) && Truthy(body.email) && Truthy(body.password)
    ensures !TestEmail(body.email.value) ==>
      SignUpOutcome(rows, p, body, fault) == (rows, Response(400, Message(InvalidEmailFormat)))
    ensures TestEmail(body.email.value) && Utf16Length(body.password.value) < MinPasswordLength ==>
      SignUpOutcome(rows, p, body, fault) == (rows, Response(400, Message(PasswordTooShort)))
  {
    TestEmailMatchesPattern(body.email.value);
  }

  /** An email already in the table: 400 "User already exists", nothing added. */
  lemma SignUpRejectsDuplicate(rows: seq<User>, p: Primitives, body: SignUpBody, fault: StoreFault, k: nat)
    requires Truthy(body.name) && Truthy(body.password)
    requires k < |rows| && body.email == Some(rows[k].email)
    requires ValidateEmailAndPassword(rows[k].email, body.password.value).None?
    requires fault != LookupThrows
    ensures SignUpOutcome(rows, p, body, fault) == (rows, Response(400, Message(UserExists)))
  {
    assert FindByEmail(rows, rows[k].email).Some?;
  }

  /**
   * Success exactly when every check passes and nothing throws; then one
   * row is appended holding the hash of the password, and the answer is
   * 201 with that row's public fields and a token for its id.
   */
  lemma SignUpSuccess(rows: seq<User>, p: Primitives, body: SignUpBody, fault: StoreFault)
    ensures var (rows', res) := SignUpOutcome(rows, p, body, fault);
      res.status == 201 <==>
        && Truthy(body.name) && Truthy(body.email) && Truthy(body.password)
        && MatchesEmailPattern(body.email.value)
        && Utf16Length(body.password.value) >= MinPasswordLength
        && (forall k :: 0 <= k < |rows| ==> rows[k].email != body.email.value)
        && fault == NoFault
    ensures var (rows', res) := SignUpOutcome(rows, p, body, fault);
      res.status == 201 ==>
        var u := User(|rows| + 1, body.name.value, body.email.value, p.hash(body.password.value));
        && rows' == rows + [u]
        && res.body == Session(PublicUser(u.id, u.name, u.email), p.sign(u.id))
    ensures var (rows', res) := SignUpOutcome(rows, p, body, fault);
      res.status != 201 ==> rows' == rows && res.body.Message?
  {
  }

  /** The table's invariants (auto-increment ids, unique emails) survive every sign-up. */
  lemma SignUpPreservesInvariants(rows: seq<User>, p: Primitives, body: SignUpBody, fault: StoreFault)
    requires DenseIds(rows) && UniqueEmails(rows)
    ensures DenseIds(SignUpOutcome(rows, p, body, fault).0)
    ensures UniqueEmails(SignUpOutcome(rows, p, body, fault).0)
  {
    var rows' := SignUpOutcome(rows, p, body, fault).0;
    if rows' != rows {
      var u := rows'[|rows|];
      assert rows' == rows + [u];
      assert FindByEmail(rows, u.email).None?;
      forall a, b | 0 <= a < b < |rows'| ensures rows'[a].email != rows'[b].email {
        if b == |rows| { assert rows[a].email != u.email; }
      }
    }
  }

  /** Sign-ups applied one after another. */
  function SignUpRun(rows: seq<User>, p: Primitives, requests: seq<(SignUpBody, StoreFault)>): seq<User>
    decreases |requests|
  {
    if requests == [] then rows
    else SignUpRun(SignUpOutcome(rows, p, requests[0].0, requests[0].1).0, p, requests[1..])
  }

  /**
   * Any sequential run of sign-ups, starting from a table with auto-increment
   * ids and unique emails (an empty one included), keeps both: no two users
   * ever share an email.
   */
  lemma {:induction false} SignUpRunUniqueEmails(rows: seq<User>, p: Primitives, requests: seq<(SignUpBody, StoreFault)>)
    requires DenseIds(rows) && UniqueEmails(rows)
    ensures DenseIds(SignUpRun(rows, p, requests)) && UniqueEmails(SignUpRun(rows, p, requests))
    decreases |requests|
  {
    if requests != [] {
      SignUpPreservesInvariants(rows, p, requests[0].0, requests[0].1);
      SignUpRunUniqueEmails(SignUpOutcome(rows, p, requests[0].0, requests[0].1).0, p, requests[1..]);
    }
  }

  // ----------------------------------------------------------------- signIn

  /** What `signIn` answers; it never writes to the table. */
  function SignInOutcome(rows: seq<User>, p: Primitives, body: SignInBody, fault: StoreFault): Response
  {
    if !Truthy(body.email) || !Truthy(body.password) then Response(400, Message(CredentialsRequired))
    else
      var email, password := body.email.value, body.password.value;
      match ValidateEmailAndPassword(email, password)
      case Some(e) => Response(e.status, Message(e.message))
      case None =>
        if fault == LookupThrows then Response(500, Message(ServerError))
        else match FindByEmail(rows, email)
          case None => Response(400, Message(InvalidEmail))
          case Some(user) =>
            if fault == LaterThrows then Response(500, Message(ServerError))
            else if !p.compare(password, user.password) then Response(400, Message(InvalidPassword))
            else Response(200, Session(Public(user), p.sign(user.id)))
  }

  method SignIn(repo: UserRepository, p: Primitives, body: SignInBody, fault: StoreFault) returns (res: Response)
    ensures res == SignInOutcome(repo.rows, p, body, fault)
  {
    if !Truthy(body.email) || !Truthy(body.password) {
      return Response(400, Message(CredentialsRequired));
    }
    var email, password := body.email.value, body.password.value;
    var validationError := ValidateEmailAndPassword(email, password);
    if validationError.Some? {
      return Response(validationError.value.status, Message(validationError.value.message));
    }
    if fault == LookupThrows {
      return Response(500, Message(ServerError));
    }
    var user := repo.FindOneByEmail(email);
    if user.None? {
      return Response(400, Message(InvalidEmail));
    }
    if fault == LaterThrows {
      return Response(500, Message(ServerError));
    }
    var isPasswordValid := p.compare(password, user.value.password);
    if !isPasswordValid {
      return Response(400, Message(InvalidPassword));
    }
    var token := p.sign(user.value.id);
    res := Response(200, Session(Public(user.value), token));
  }

  /**
   * Sign-in errors: an unknown email and a wrong password are told apart;
   * success is 200 with the stored user's public fields and a token for its id.
   */
  lemma SignInCases(rows: seq<User>, p: Primitives, body: SignInBody)
    requires Truthy(body.email) && Truthy(body.password)
    requires ValidateEmailAndPassword(body.email.value, body.password.value).None?
    ensures (forall k :: 0 <= k < |rows| ==> rows[k].email != body.email.value) ==>
      SignInOutcome(rows, p, body, NoFault) == Response(400, Message(InvalidEmail))
    ensures forall k :: 0 <= k < |rows| && UniqueEmails(rows) && rows[k].email == body.email.value ==>
      SignInOutcome(rows, p, body, NoFault) ==
        if p.compare(body.password.value, rows[k].password)
        then Response(200, Session(PublicUser(rows[k].id, rows[k].name, rows[k].email), p.sign(rows[k].id)))
        else Response(400, Message(InvalidPassword))
  {
    forall k | 0 <= k < |rows| && UniqueEmails(rows) && rows[k].email == body.email.value
      ensures FindByEmail(rows, body.email.value) == Some(rows[k])
    {
      FindByEmailUnique(rows, k);
    }
  }

  /** A 200 from sign-in is always for a stored user whose hash matched the password. */
  lemma SignInSuccessIsStoredUser(rows: seq<User>, p: Primitives, body: SignInBody, fault: StoreFault)
    requires SignInOutcome(rows, p, body, fault).status == 200
    ensures Truthy(body.email) && Truthy(body.password)
    ensures exists k :: (0 <= k < |rows| && rows[k].email == body.email.value
      && p.compare(body.password.value, rows[k].password)
      && SignInOutcome(rows, p, body, fault).body == Session(Public(rows[k]), p.sign(rows[k].id)))
  {
    var u := FindByEmail(rows, body.email.value).value;
    var k :| 0 <= k < |rows| && rows[k] == u;
  }

  // ------------------------------------------------------------ checkStatus

  /** What `checkStatus` answers; `lookupThrows` is the database failing. */
  function CheckStatusOutcome(rows: seq<User>, p: Primitives, authorization: Option<string>, lookupThrows: bool): Response
  {
    var token := TokenFromHeader(authorization);
    if !Truthy(token) then Response(401, Message(NoTokenProvided))
    else match p.verify(token.value)
      case None => Response(401, Message(InvalidToken))
      case Some(claims) =>
        if lookupThrows || claims.userId.None? then Response(401, Message(InvalidToken))
        else match FindById(rows, claims.userId.value)
          case None => Response(401, Message(InvalidToken))
          case Some(user) => Response(200, Session(Public(user), p.sign(user.id)))
  }

  method CheckStatus(repo: UserRepository, p: Primitives, authorization: Option<string>, lookupThrows: bool)
    returns (res: Response)
    ensures res == CheckStatusOutcome(repo.rows, p, authorization, lookupThrows)
  {
    var token := TokenFromHeader(authorization);
    if !Truthy(token) {
      return Response(401, Message(NoTokenProvided));
    }
    var decoded := p.verify(token.value);
    if decoded.None? || lookupThrows || decoded.value.userId.None? {
      return Response(401, Message(InvalidToken));
    }
    var user := repo.FindOneById(decoded.value.userId.value);
    if user.None? {
      return Response(401, Message(InvalidToken));
    }
    var newToken := p.sign(user.value.id);
    res := Response(200, Session(Public(user.value), newToken));
  }

  /**
   * 401 exactly when the token is missing, fails to verify, carries no
   * user id, or names no stored user (or the lookup throws); otherwise 200
   * with a fresh token for that same id.
   */
  lemma CheckStatusCases(rows: seq<User>, p: Primitives, authorization: Option<string>, lookupThrows: bool)
    ensures var res := CheckStatusOutcome(rows, p, authorization, lookupThrows);
      var token := TokenFromHeader(authorization);
      res.status == 401 <==>
        !Truthy(token) || p.verify(token.value).None? || lookupThrows
        || p.verify(token.value).value.userId.None?
        || (forall k :: 0 <= k < |rows| ==> rows[k].id != p.verify(token.value).value.userId.value)
    ensures var res := CheckStatusOutcome(rows, p, authorization, lookupThrows);
      res.status == 200 ==>
        var id := p.verify(TokenFromHeader(authorization).value).value.userId.value;
        exists k :: 0 <= k < |rows| && rows[k].id == id && res.body == Session(Public(rows[k]), p.sign(id))
    ensures CheckStatusOutcome(rows, p, authorization, lookupThrows).status in {200, 401}
  {
    var res := CheckStatusOutcome(rows, p, authorization, lookupThrows);
    if res.status == 200 {
      var u := FindById(rows, p.verify(TokenFromHeader(authorization).value).value.userId.value).value;
      var k :| 0 <= k < |rows| && rows[k] == u;
    }
  }
}
