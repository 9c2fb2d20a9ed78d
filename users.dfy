/** The `user` table and the repository calls the auth code makes on it. */
module Users {
  import opened Wrappers
  import opened Entities

  /** `findOneBy({ email })`: the first row with that email. */
  function FindByEmail(rows: seq<User>, email: string): (r: Option<User>)
    ensures r.Some? ==> r.value in rows && r.value.email == email
    ensures r.None? <==> forall k :: 0 <= k < |rows| ==> rows[k].email != email
  {
    if rows == [] then None
    else if rows[0].email == email then Some(rows[0])
    else FindByEmail(rows[1..], email)
  }

  /** `findOneBy({ id })`: the first row with that id. */
  function FindById(rows: seq<User>, id: int): (r: Option<User>)
    ensures r.Some? ==> r.value in rows && r.value.id == id
    ensures r.None? <==> forall k :: 0 <= k < |rows| ==> rows[k].id != id
  {
    if rows == [] then None
    else if rows[0].id == id then Some(rows[0])
    else FindById(rows[1..], id)
  }

  /** Auto-increment ids: the k-th row inserted has id k + 1. */
  ghost predicate DenseIds(rows: seq<User>) {
    forall k :: 0 <= k < |rows| ==> rows[k].id == k + 1
  }

  /** No two rows share an email. */
  ghost predicate UniqueEmails(rows: seq<User>) {
    forall a, b :: 0 <= a < b < |rows| ==> rows[a].email != rows[b].email
  }

  /** With unique emails the lookup returns the one row that has the email. */
  lemma {:induction false} FindByEmailUnique(rows: seq<User>, k: nat)
    requires UniqueEmails(rows) && k < |rows|
    ensures FindByEmail(rows, rows[k].email) == Some(rows[k])
  {
    if k > 0 {
      assert rows[0].email != rows[k].email;
      assert UniqueEmails(rows[1..]) by {
        forall a, b | 0 <= a < b < |rows| - 1 ensures rows[1..][a].email != rows[1..][b].email {
          assert rows[1..][a] == rows[a + 1] && rows[1..][b] == rows[b + 1];
        }
      }
      FindByEmailUnique(rows[1..], k - 1);
    }
  }

  /** With auto-increment ids, looking up an id is indexing. */
  lemma FindByIdDense(rows: seq<User>, id: int)
    requires DenseIds(rows)
    ensures FindById(rows, id) == if 1 <= id <= |rows| then Some(rows[id - 1]) else None
  {
    if 1 <= id <= |rows| {
      FindByIdFirst(rows, id - 1);
    }
  }

  lemma {:induction false} FindByIdFirst(rows: seq<User>, k: nat)
    requires k < |rows|
    requires forall j :: 0 <= j < k ==> rows[j].id != rows[k].id
    ensures FindById(rows, rows[k].id) == Some(rows[k])
  {
    if k > 0 {
      assert rows[0].id != rows[k].id;
      forall j | 0 <= j < k - 1 ensures rows[1..][j].id != rows[1..][k - 1].id {
        assert rows[1..][j] == rows[j + 1];
      }
      FindByIdFirst(rows[1..], k - 1);
    }
  }

  /** The user repository: the table's rows in insertion order. */
  class UserRepository {
    var rows: seq<User>

    constructor ()
      ensures rows == []
    {
      rows := [];
    }

    method FindOneByEmail(email: string) returns (r: Option<User>)
      ensures r == FindByEmail(rows, email)
    {
      var i := 0;
      while i < |rows|
        invariant 0 <= i <= |rows|
        invariant FindByEmail(rows[i..], email) == FindByEmail(rows, email)
      {
        if rows[i].email == email {
          return Some(rows[i]);
        }
        assert rows[i..][1..] == rows[i + 1..];
        i := i + 1;
      }
      return None;
    }

    method FindOneById(id: int) returns (r: Option<User>)
      ensures r == FindById(rows, id)
    {
      var i := 0;
      while i < |rows|
        invariant 0 <= i <= |rows|
        invariant FindById(rows[i..], id) == FindById(rows, id)
      {
        if rows[i].id == id {
          return Some(rows[i]);
        }
        assert rows[i..][1..] == rows[i + 1..];
        i := i + 1;
      }
      return None;
    }

    /** `create` then `save`: the database assigns the next id. */
    method Save(name: string, email: string, password: string) returns (u: User)
      modifies this
      ensures u == User(|old(rows)| + 1, name, email, password)
      ensures rows == old(rows) + [u]
    {
      u := User(|rows| + 1, name, email, password);
      rows := rows + [u];
    }
  }
}
