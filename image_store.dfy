/** The two `image` table queries, both ordered by `created_at` descending. */
module ImageStore {
  import opened Entities

  /** Auto-increment ids: the k-th row inserted has id k + 1. */
  ghost predicate DenseImageIds(rows: seq<Image>) {
    forall k :: 0 <= k < |rows| ==> rows[k].id == k + 1
  }

  lemma AppendKeepsImageIds(rows: seq<Image>, row: Image)
    requires DenseImageIds(rows) && row.id == |rows| + 1
    ensures DenseImageIds(rows + [row])
  {
    var r := rows + [row];
    forall k | 0 <= k < |r| ensures r[k].id == k + 1 {
      if k < |rows| { assert r[k] == rows[k]; }
    }
  }

  ghost predicate NewestFirst(s: seq<Image>) {
    forall i, j :: 0 <= i < j < |s| ==> s[i].createdAt >= s[j].createdAt
  }

  /** Places `x` before the first row that is not newer than it. */
  function InsertNewestFirst(x: Image, s: seq<Image>): (r: seq<Image>)
    requires NewestFirst(s)
    ensures NewestFirst(r)
    ensures multiset(r) == multiset(s) + multiset{x}
    ensures |r| == |s| + 1
  {
    if s == [] || s[0].createdAt <= x.createdAt then
      HeadOnNewestFirst(x, s);
      [x] + s
    else
      var rest := InsertNewestFirst(x, s[1..]);
      InsertBehindHead(x, s, rest);
      [s[0]] + rest
  }

  /** A row no older than every row of a sorted listing may go in front of it. */
  lemma HeadOnNewestFirst(y: Image, rest: seq<Image>)
    requires NewestFirst(rest)
    requires rest == [] || y.createdAt >= rest[0].createdAt
    ensures NewestFirst([y] + rest)
  {
    var r := [y] + rest;
    forall i, j | 0 <= i < j < |r| ensures r[i].createdAt >= r[j].createdAt {
      assert r[j] == rest[j - 1];
      if i > 0 { assert r[i] == rest[i - 1]; }
    }
  }

  /** The head of a sorted listing stays in front when a row older than it is inserted behind it. */
  lemma InsertBehindHead(x: Image, s: seq<Image>, rest: seq<Image>)
    requires NewestFirst(s) && s != [] && s[0].createdAt > x.createdAt
    requires NewestFirst(rest) && multiset(rest) == multiset(s[1..]) + multiset{x}
    ensures NewestFirst([s[0]] + rest)
    ensures multiset([s[0]] + rest) == multiset(s) + multiset{x}
  {
    assert s == [s[0]] + s[1..];
    if rest != [] {
      var y := rest[0];
      assert y in multiset(rest);
      if y != x {
        assert y in multiset(s[1..]);
        var i :| 0 <= i < |s[1..]| && s[1..][i] == y;
        assert s[i + 1] == y;
      }
    }
    HeadOnNewestFirst(s[0], rest);
  }

  /**
   * `order: { created_at: 'DESC' }`: newest first, the same rows. Rows
   * with equal timestamps come out in an order the database chooses; this
   * one is a choice too.
   */
  function SortNewestFirst(s: seq<Image>): (r: seq<Image>)
    ensures NewestFirst(r)
    ensures multiset(r) == multiset(s)
  {
    if s == [] then []
    else
      assert s == [s[0]] + s[1..];
      InsertNewestFirst(s[0], SortNewestFirst(s[1..]))
  }

  /** `where: { user: { id: owner } }`. */
  function OwnedBy(rows: seq<Image>, owner: int): (r: seq<Image>)
    ensures forall x :: multiset(r)[x] == if x.owner == owner then multiset(rows)[x] else 0
  {
    if rows == [] then []
    else
      assert rows == [rows[0]] + rows[1..];
      (if rows[0].owner == owner then [rows[0]] else []) + OwnedBy(rows[1..], owner)
  }

  /** `getImagesByUser`'s query. */
  function ImagesOfUser(rows: seq<Image>, owner: int): seq<Image> {
    SortNewestFirst(OwnedBy(rows, owner))
  }

  /** `getAllImages`'s query. */
  function AllImages(rows: seq<Image>): seq<Image> {
    SortNewestFirst(rows)
  }

  /**
   * The caller's listing holds each of the caller's rows, as often as it is
   * stored, and nothing else, newest first.
   */
  lemma ImagesOfUserExact(rows: seq<Image>, owner: int)
    ensures NewestFirst(ImagesOfUser(rows, owner))
    ensures forall x :: multiset(ImagesOfUser(rows, owner))[x] == if x.owner == owner then multiset(rows)[x] else 0
    ensures forall x :: x in ImagesOfUser(rows, owner) <==> x in rows && x.owner == owner
  {
    var r := ImagesOfUser(rows, owner);
    forall x ensures x in r <==> x in rows && x.owner == owner {
      assert x in r <==> multiset(r)[x] > 0;
      assert x in rows <==> multiset(rows)[x] > 0;
    }
  }

  /** The global listing is every row, newest first. */
  lemma AllImagesExact(rows: seq<Image>)
    ensures NewestFirst(AllImages(rows))
    ensures multiset(AllImages(rows)) == multiset(rows)
    ensures |AllImages(rows)| == |rows|
  {
    assert |multiset(AllImages(rows))| == |multiset(rows)|;
  }

  /** The caller's listing is the global one without other users' rows. */
  lemma ImagesOfUserWithinAll(rows: seq<Image>, owner: int)
    ensures forall x :: x in ImagesOfUser(rows, owner) ==> x in AllImages(rows) && x.owner == owner
  {
    ImagesOfUserExact(rows, owner);
    forall x | x in rows ensures x in AllImages(rows) {
      assert multiset(AllImages(rows))[x] == multiset(rows)[x];
    }
  }
}
