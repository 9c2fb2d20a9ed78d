/** Reading the session token out of an `Authorization` header. */
module Headers {
  import opened Wrappers
  import opened JsString

  /** `header?.split(' ')[1]`: `None` stands for `undefined`. */
  function TokenFromHeader(header: Option<string>): (t: Option<string>)
    ensures header.None? ==> t.None?
    ensures t.Some? ==> ' ' !in t.value
  {
    match header
    case None => None
    case Some(h) =>
      var pieces := Split(h, ' ');
      if |pieces| >= 2 then Some(pieces[1]) else None
  }

  /** The second piece is the text between the first space and the next space (or the end). */
  lemma TokenFromHeaderAt(h: string)
    ensures ' ' !in h ==> TokenFromHeader(Some(h)) == None
    ensures ' ' in h ==>
      var i := IndexOf(h, ' ').value;
      var rest := h[i + 1..];
      TokenFromHeader(Some(h)) == Some(if ' ' in rest then rest[..IndexOf(rest, ' ').value] else rest)
  {
    if ' ' in h {
      var i := IndexOf(h, ' ').value;
      var rest := h[i + 1..];
      assert Split(h, ' ') == [h[..i]] + Split(rest, ' ');
      if ' ' in rest {
        var j := IndexOf(rest, ' ').value;
        assert Split(rest, ' ') == [rest[..j]] + Split(rest[j + 1..], ' ');
      } else {
        assert Split(rest, ' ') == [rest];
      }
    }
  }

  /** "Bearer abc" gives "abc": the token after any one-word scheme. */
  lemma TokenOfScheme(scheme: string, token: string)
    requires ' ' !in scheme && ' ' !in token
    ensures TokenFromHeader(Some(scheme + " " + token)) == Some(token)
  {
    var h := scheme + " " + token;
    SplitJoin([scheme, token], ' ');
    assert Join([scheme, token], ' ') == h;
  }

  /**
   * The middleware and `checkStatus` see no token exactly when the header is
   * missing, has no space, or has nothing but another space (or the end)
   * right after its first space.
   */
  lemma {:induction false} TokenMissingIff(header: Option<string>)
    ensures !Truthy(TokenFromHeader(header)) <==>
      (header.None? || ' ' !in header.value ||
       var i := IndexOf(header.value, ' ').value;
       i + 1 == |header.value| || header.value[i + 1] == ' ')
  {
    if header.Some? {
      var h := header.value;
      TokenFromHeaderAt(h);
      if ' ' in h {
        var i := IndexOf(h, ' ').value;
        var rest := h[i + 1..];
        if rest != [] {
          assert rest[0] == h[i + 1];
          if rest[0] == ' ' {
            assert IndexOf(rest, ' ') == Some(0);
          } else if ' ' in rest {
            assert IndexOf(rest, ' ').value != 0;
          }
        }
      }
    }
  }
}
