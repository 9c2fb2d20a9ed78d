/** Node's POSIX `path.extname`. */
module NodePath {

  /** The index of the last occurrence of `c` in `s`, or -1. */
  function LastIndexOf(s: string, c: char): (i: int)
    ensures -1 <= i < |s|
    ensures i >= 0 ==> s[i] == c
    ensures forall k :: i < k < |s| ==> s[k] != c
  {
    if s == [] then -1
    else if s[|s| - 1] == c then |s| - 1
    else LastIndexOf(s[..|s| - 1], c)
  }

  /** Drops trailing `/` characters. */
  function TrimTrailingSlashes(p: string): (q: string)
    ensures q <= p
    ensures q == [] || q[|q| - 1] != '/'
  {
    if p != [] && p[|p| - 1] == '/' then TrimTrailingSlashes(p[..|p| - 1]) else p
  }

  /** The last path component, ignoring trailing slashes. */
  function BaseName(p: string): (b: string)
    ensures '/' !in b
  {
    var q := TrimTrailingSlashes(p);
    var i := LastIndexOf(q, '/');
    var b := q[i + 1..];
    assert forall k :: 0 <= k < |b| ==> b[k] == q[i + 1 + k];
    b
  }

  /**
   * `path.extname(p)`: from the last `.` of the last component to its end;
   * empty when that component has no `.`, starts with its only `.` run
   * there (".profile"), or is "..".
   */
  function ExtName(p: string): (e: string)
  {
    var b := BaseName(p);
    var d := LastIndexOf(b, '.');
    if d <= 0 || b == ".." then "" else b[d..]
  }

  /** An extension is empty or a `.` followed by text with neither `.` nor `/`. */
  lemma ExtNameShape(p: string)
    ensures ExtName(p) == "" || (ExtName(p)[0] == '.' && '.' !in ExtName(p)[1..] && '/' !in ExtName(p))
  {
    var b := BaseName(p);
    var d := LastIndexOf(b, '.');
    if !(d <= 0 || b == "..") {
      var e := b[d..];
      assert forall k :: 1 <= k < |e| ==> e[k] == b[d + k];
      assert forall k :: 0 <= k < |e| ==> e[k] == b[d + k];
    }
  }

  /** A name without `/` is its own last component. */
  lemma BaseNameOfPlainName(n: string)
    requires '/' !in n
    ensures BaseName(n) == n
  {
    if n != [] { assert n[|n| - 1] != '/'; }
    assert TrimTrailingSlashes(n) == n;
    assert LastIndexOf(n, '/') == -1;
  }

  /** In `stem + e`, where the only `.` after `stem` is `e`'s first character. */
  lemma LastDotOfFreshName(stem: string, e: string)
    requires '.' !in stem
    requires e != [] && e[0] == '.' && '.' !in e[1..]
    ensures LastIndexOf(stem + e, '.') == |stem|
  {
    var n := stem + e;
    var d := LastIndexOf(n, '.');
    assert n[|stem|] == '.';
    forall k | |stem| < k < |n| ensures n[k] != '.' {
      assert n[k] == e[1..][k - |stem| - 1];
    }
    if d < |stem| {
      assert false;
    }
  }

  /**
   * A name with no `.` and no `/` followed by an extension has that
   * extension: the file written for an upload keeps the upload's type.
   */
  lemma ExtNameOfFreshName(stem: string, p: string)
    requires stem != [] && '.' !in stem && '/' !in stem
    ensures ExtName(stem + ExtName(p)) == ExtName(p)
  {
    var e := ExtName(p);
    ExtNameShape(p);
    var n := stem + e;
    assert '/' !in n by {
      forall k | 0 <= k < |n| ensures n[k] != '/' {
        if k < |stem| { assert n[k] == stem[k]; } else { assert n[k] == e[k - |stem|]; }
      }
    }
    BaseNameOfPlainName(n);
    if e == "" {
      assert n == stem;
      assert LastIndexOf(n, '.') == -1;
    } else {
      LastDotOfFreshName(stem, e);
      assert n[0] == stem[0];
      assert n[|stem|..] == e;
    }
  }
}
