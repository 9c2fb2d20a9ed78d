/**
 * The parts of JavaScript's string semantics the backend relies on:
 * the `\s` character class (also the set `parseInt` trims), `String.length`
 * in UTF-16 code units, `String.prototype.split` on one character, and
 * the global `parseInt` with no radix (section 19.2.5 of ECMA-262).
 */
module JsString {
  import opened Wrappers

  /** WhiteSpace and LineTerminator code points of ECMA-262 (the `\s` class). */
  predicate IsWhiteSpace(c: char) {
    var n := c as int;
    (0x09 <= n <= 0x0D) || n == 0x20 || n == 0xA0 || n == 0x1680
    || (0x2000 <= n <= 0x200A) || n == 0x2028 || n == 0x2029 || n == 0x202F
    || n == 0x205F || n == 0x3000 || n == 0xFEFF
  }

  predicate NoWhiteSpace(s: string) {
    forall i :: 0 <= i < |s| ==> !IsWhiteSpace(s[i])
  }

  /** JavaScript truthiness of a string that may be `undefined`: defined and not "". */
  predicate Truthy(s: Option<string>) {
    s.Some? && s.value != ""
  }

  /** `s.length`: astral characters occupy two UTF-16 code units. */
  function Utf16Length(s: string): (n: nat)
    ensures n >= |s|
    ensures n <= 2 * |s|
  {
    if s == [] then 0
    else (if s[0] as int > 0xFFFF then 2 else 1) + Utf16Length(s[1..])
  }

  /** The index of the first occurrence of `c` in `s`, if any. */
  function IndexOf(s: string, c: char): (r: Option<nat>)
    ensures r.None? <==> c !in s
    ensures r.Some? ==> r.value < |s| && s[r.value] == c && c !in s[..r.value]
  {
    if s == [] then None
    else if s[0] == c then Some(0)
    else match IndexOf(s[1..], c)
      case None => None
      case Some(i) =>
        assert s[1..][..i] == s[1..i + 1];
        assert s[..i + 1] == [s[0]] + s[1..i + 1];
        Some(i + 1)
  }

  /** `s.split(sep)` for a one-character separator. */
  function Split(s: string, sep: char): (pieces: seq<string>)
    ensures |pieces| >= 1
    ensures forall k :: 0 <= k < |pieces| ==> sep !in pieces[k]
    decreases |s|
  {
    match IndexOf(s, sep)
    case None => [s]
    case Some(i) => [s[..i]] + Split(s[i + 1..], sep)
  }

  /** `pieces.join(sep)`, the inverse of `Split`. */
  function Join(pieces: seq<string>, sep: char): string
    requires |pieces| >= 1
  {
    if |pieces| == 1 then pieces[0] else pieces[0] + [sep] + Join(pieces[1..], sep)
  }

  /** Splitting loses nothing: joining the pieces gives the string back. */
  lemma {:induction false} JoinSplit(s: string, sep: char)
    ensures Join(Split(s, sep), sep) == s
    decreases |s|
  {
    match IndexOf(s, sep)
    case None =>
    case Some(i) =>
      var rest := Split(s[i + 1..], sep);
      assert Split(s, sep) == [s[..i]] + rest;
      JoinSplit(s[i + 1..], sep);
      JoinCons(s[..i], rest, sep);
      Reassemble(s, i);
  }

  /** A string is the text before position `i`, the character there, and the text after. */
  lemma Reassemble(s: string, i: nat)
    requires i < |s|
    ensures s[..i] + [s[i]] + s[i + 1..] == s
  {
  }

  /** Joining a first piece in front of at least one more puts a separator between. */
  lemma JoinCons(first: string, rest: seq<string>, sep: char)
    requires |rest| >= 1
    ensures Join([first] + rest, sep) == first + [sep] + Join(rest, sep)
  {
    assert ([first] + rest)[1..] == rest;
  }

  /** The first occurrence is the one with no occurrence before it. */
  lemma {:induction false} IndexOfAt(s: string, c: char, i: nat)
    requires i < |s| && s[i] == c
    requires forall k :: 0 <= k < i ==> s[k] != c
    ensures IndexOf(s, c) == Some(i)
  {
    if i > 0 {
      assert s[0] != c;
      forall k | 0 <= k < i - 1 ensures s[1..][k] != c {
        assert s[1..][k] == s[k + 1];
      }
      IndexOfAt(s[1..], c, i - 1);
    }
  }

  /** A separator-free first piece is split off whole. */
  lemma SplitCons(first: string, sep: char, rest: string)
    requires sep !in first
    ensures Split(first + [sep] + rest, sep) == [first] + Split(rest, sep)
  {
    var s := first + [sep] + rest;
    forall k | 0 <= k < |first| ensures s[k] != sep {
      assert s[k] == first[k];
    }
    IndexOfAt(s, sep, |first|);
    assert s[..|first|] == first;
    assert s[|first| + 1..] == rest;
  }

  /** Splitting a join of separator-free pieces gives the pieces back. */
  lemma {:induction false} SplitJoin(pieces: seq<string>, sep: char)
    requires |pieces| >= 1
    requires forall k :: 0 <= k < |pieces| ==> sep !in pieces[k]
    ensures Split(Join(pieces, sep), sep) == pieces
  {
    if |pieces| == 1 {
      assert IndexOf(pieces[0], sep).None?;
    } else {
      assert sep !in pieces[0];
      SplitCons(pieces[0], sep, Join(pieces[1..], sep));
      SplitJoin(pieces[1..], sep);
      assert pieces == [pieces[0]] + pieces[1..];
    }
  }

  // ---------------------------------------------------------------- parseInt

  predicate IsDecimalDigit(c: char) { '0' <= c <= '9' }

  predicate IsHexDigit(c: char) {
    IsDecimalDigit(c) || ('a' <= c <= 'f') || ('A' <= c <= 'F')
  }

  function DigitValue(c: char): (d: nat)
    requires IsHexDigit(c)
    ensures d < 16
    ensures IsDecimalDigit(c) ==> d < 10
  {
    if IsDecimalDigit(c) then c as int - '0' as int
    else if 'a' <= c <= 'f' then c as int - 'a' as int + 10
    else c as int - 'A' as int + 10
  }

  predicate IsRadixDigit(c: char, radix: nat) {
    if radix == 16 then IsHexDigit(c) else IsDecimalDigit(c)
  }

  /** Drops leading white space, as `TrimString(..., start)` does. */
  function TrimStart(s: string): (t: string)
    ensures |t| <= |s| && t == s[|s| - |t|..]
    ensures t != [] ==> !IsWhiteSpace(t[0])
  {
    if s != [] && IsWhiteSpace(s[0]) then TrimStart(s[1..]) else s
  }

  /** The longest prefix of `s` made of digits of `radix`. */
  function DigitPrefix(s: string, radix: nat): (z: string)
    ensures z <= s
    ensures forall i :: 0 <= i < |z| ==> IsRadixDigit(z[i], radix)
    ensures |z| < |s| ==> !IsRadixDigit(s[|z|], radix)
  {
    if s != [] && IsRadixDigit(s[0], radix) then [s[0]] + DigitPrefix(s[1..], radix) else []
  }

  /** The value of a digit string, most significant digit first. */
  function DigitsValue(z: string, radix: nat): nat
    requires radix == 10 || radix == 16
    requires forall i :: 0 <= i < |z| ==> IsRadixDigit(z[i], radix)
  {
    if z == [] then 0
    else
      assert IsRadixDigit(z[|z| - 1], radix);
      DigitsValue(z[..|z| - 1], radix) * radix + DigitValue(z[|z| - 1])
  }

  /** The digits after the sign: a "0x"/"0X" prefix selects radix 16. */
  function ParseMagnitude(u: string): (r: Option<nat>)
  {
    var hex := |u| >= 2 && u[0] == '0' && (u[1] == 'x' || u[1] == 'X');
    var radix := if hex then 16 else 10;
    var z := DigitPrefix(if hex then u[2..] else u, radix);
    if z == [] then None else Some(DigitsValue(z, radix))
  }

  /**
   * `parseInt(s)`: `None` is NaN. Negative zero is returned as 0; every
   * comparison the backend makes treats the two alike. Numbers beyond
   * 2^53 are not rounded to doubles here.
   */
  function ParseInt(s: string): (r: Option<int>)
  {
    var t := TrimStart(s);
    if t != [] && t[0] == '-' then Signed(ParseMagnitude(t[1..]), true)
    else if t != [] && t[0] == '+' then Signed(ParseMagnitude(t[1..]), false)
    else Signed(ParseMagnitude(t), false)
  }

  /** Applies the sign to a magnitude; NaN stays NaN. */
  function Signed(m: Option<nat>, negative: bool): (r: Option<int>)
  {
    match m
    case None => None
    case Some(v) => Some(if negative then -(v as int) else v as int)
  }

  /** `parseInt(field)` where an absent field is `undefined`, which converts to "undefined". */
  function ParseIntField(field: Option<string>): Option<int> {
    ParseInt(if field.None? then "undefined" else field.value)
  }

  /** The decimal rendering of a natural number (`String(n)`). */
  function DecimalString(n: nat): (s: string)
    ensures s != []
    ensures forall i :: 0 <= i < |s| ==> IsDecimalDigit(s[i])
    ensures n > 0 ==> s[0] != '0'
  {
    if n < 10 then [('0' as int + n) as char]
    else DecimalString(n / 10) + [('0' as int + n % 10) as char]
  }

  lemma {:induction false} DecimalStringValue(n: nat)
    ensures DigitsValue(DecimalString(n), 10) == n
  {
    var s := DecimalString(n);
    if n >= 10 {
      DecimalStringValue(n / 10);
      assert s[..|s| - 1] == DecimalString(n / 10);
    }
  }

  /** A digit string followed by anything but a digit parses to its own value. */
  lemma {:induction false} DigitPrefixOfDigits(z: string, rest: string, radix: nat)
    requires forall i :: 0 <= i < |z| ==> IsRadixDigit(z[i], radix)
    requires rest == [] || !IsRadixDigit(rest[0], radix)
    ensures DigitPrefix(z + rest, radix) == z
    decreases |z|
  {
    var s := z + rest;
    if z == [] {
      assert s == rest;
    } else {
      assert s[0] == z[0] && IsRadixDigit(s[0], radix);
      assert s[1..] == z[1..] + rest;
      forall i | 0 <= i < |z[1..]| ensures IsRadixDigit(z[1..][i], radix) {
        assert z[1..][i] == z[i + 1];
      }
      DigitPrefixOfDigits(z[1..], rest, radix);
      assert DigitPrefix(s, radix) == [z[0]] + z[1..];
      assert [z[0]] + z[1..] == z;
    }
  }

  /** A digit string in front of a non-digit is read whole, in radix 10. */
  lemma ParseMagnitudeDecimal(d: string, rest: string)
    requires d != [] && forall i :: 0 <= i < |d| ==> IsDecimalDigit(d[i])
    requires |d| >= 2 ==> d[0] != '0'
    requires rest == [] || (!IsDecimalDigit(rest[0]) && (d == "0" ==> rest[0] != 'x' && rest[0] != 'X'))
    ensures ParseMagnitude(d + rest) == Some(DigitsValue(d, 10))
  {
    var u := d + rest;
    assert u[0] == d[0];
    assert !(|u| >= 2 && u[0] == '0' && (u[1] == 'x' || u[1] == 'X')) by {
      if |u| >= 2 && u[0] == '0' {
        assert |d| == 1;
        assert d == "0";
        assert u[1] == rest[0];
      }
    }
    DigitPrefixOfDigits(d, rest, 10);
  }

  /** Unsigned input: `parseInt` reads the magnitude. */
  lemma ParseIntUnsigned(u: string)
    requires u != [] && IsDecimalDigit(u[0])
    ensures ParseInt(u) == Signed(ParseMagnitude(u), false)
  {
    TrimStartStops(u);
  }

  /** Input starting with "-": `parseInt` negates the magnitude after it. */
  lemma ParseIntMinus(u: string, v: nat)
    requires ParseMagnitude(u) == Some(v)
    ensures ParseInt("-" + u) == Some(-(v as int))
  {
    var s := "-" + u;
    assert s[0] == '-';
    assert s[1..] == u;
    TrimStartStops(s);
  }

  /**
   * `parseInt` reads back what `String` writes for a natural number, and
   * ignores trailing text that does not start with a digit ("12px", "5x").
   * The exception is "0" before an "x" or "X", which starts a hexadecimal number.
   */
  lemma ParseIntDecimal(m: nat, rest: string)
    requires rest == [] || (!IsDecimalDigit(rest[0]) && (m == 0 ==> rest[0] != 'x' && rest[0] != 'X'))
    ensures ParseInt(DecimalString(m) + rest) == Some(m)
  {
    var d := DecimalString(m);
    var u := d + rest;
    DecimalMagnitude(m, rest);
    assert u[0] == d[0];
    ParseIntUnsigned(u);
  }

  /** The same for a negative number written with a leading "-". */
  lemma ParseIntNegativeDecimal(m: nat, rest: string)
    requires rest == [] || (!IsDecimalDigit(rest[0]) && (m == 0 ==> rest[0] != 'x' && rest[0] != 'X'))
    ensures ParseInt("-" + (DecimalString(m) + rest)) == Some(-(m as int))
  {
    DecimalMagnitude(m, rest);
    ParseIntMinus(DecimalString(m) + rest, m);
  }

  /** The digits `String(m)` writes, before text that stops them, read back as `m`. */
  lemma DecimalMagnitude(m: nat, rest: string)
    requires rest == [] || (!IsDecimalDigit(rest[0]) && (m == 0 ==> rest[0] != 'x' && rest[0] != 'X'))
    ensures ParseMagnitude(DecimalString(m) + rest) == Some(m)
  {
    DecimalStringZero(m);
    ParseMagnitudeDecimal(DecimalString(m), rest);
    DecimalStringValue(m);
  }

  /** Only zero is written as the single digit "0". */
  lemma DecimalStringZero(m: nat)
    ensures DecimalString(m) == "0" <==> m == 0
  {
    if m >= 10 {
      assert |DecimalString(m)| == |DecimalString(m / 10)| + 1;
    }
  }

  lemma TrimStartStops(s: string)
    requires s != [] && !IsWhiteSpace(s[0])
    ensures TrimStart(s) == s
  {
  }

  /** `parseInt` of a string with no digit in front is NaN (an absent field included). */
  lemma ParseIntNaN(s: string)
    requires s != [] && !IsWhiteSpace(s[0]) && !IsDecimalDigit(s[0]) && s[0] != '-' && s[0] != '+'
    ensures ParseInt(s) == None
  {
  }
}
