/** The user table behind UserRepository: the rows in table order and the
    identity counter that hands out user_id values. The queries are functions
    of the table; save and the deletes change it in place. */
module UserTable {
  import opened Optional
  import opened Strings
  import opened UserModel

  /** The rows that keep accepts, in table order. */
  function Filter(s: seq<UserRecord>, keep: UserRecord -> bool): (r: seq<UserRecord>)
    ensures |r| <= |s|
    ensures forall x :: x in r <==> x in s && keep(x)
  {
    if s == [] then []
    else if keep(s[0]) then [s[0]] + Filter(s[1..], keep)
    else Filter(s[1..], keep)
  }

  /** Filter keeps every accepted row as often as it occurs and drops every
      other row entirely. */
  lemma {:induction false} FilterCount(s: seq<UserRecord>, keep: UserRecord -> bool, x: UserRecord)
    ensures multiset(Filter(s, keep))[x] == if keep(x) then multiset(s)[x] else 0
  {
    if s != [] {
      FilterCount(s[1..], keep, x);
      assert s == [s[0]] + s[1..];
      assert multiset(s) == multiset{s[0]} + multiset(s[1..]);
    }
  }

  /** The first row, in table order, that p accepts. */
  function First(s: seq<UserRecord>, p: UserRecord -> bool): (r: Option<UserRecord>)
    ensures r.Some? ==> r.value in s && p(r.value)
    ensures r.None? <==> forall x: UserRecord | x in s :: !p(x)
  {
    if s == [] then None
    else if p(s[0]) then Some(s[0])
    else First(s[1..], p)
  }

  /** No two rows share an id. */
  predicate DistinctIds(s: seq<UserRecord>) {
    forall i, j | 0 <= i < j < |s| :: s[i].id != s[j].id
  }

  /** Filtering a table with unique ids leaves the ids unique. */
  lemma {:induction false} FilterDistinctIds(s: seq<UserRecord>, keep: UserRecord -> bool)
    requires DistinctIds(s)
    ensures DistinctIds(Filter(s, keep))
  {
    if s != [] {
      FilterDistinctIds(s[1..], keep);
      var rest := Filter(s[1..], keep);
      if keep(s[0]) {
        var r := [s[0]] + rest;
        forall i, j | 0 <= i < j < |r| ensures r[i].id != r[j].id {
          if i == 0 {
            assert r[j] in s[1..];
            var k :| 0 <= k < |s[1..]| && s[1..][k] == r[j];
            assert s[k + 1] == r[j];
          } else {
            assert r[i] == rest[i - 1] && r[j] == rest[j - 1];
          }
        }
      }
    }
  }

  /** In a table whose ids are assigned and unique, every row occurs once. */
  lemma {:induction false} OccursOnce(s: seq<UserRecord>, k: nat)
    requires k < |s| && DistinctIds(s)
    ensures multiset(s)[s[k]] == 1
  {
    assert s == [s[0]] + s[1..];
    assert multiset(s) == multiset{s[0]} + multiset(s[1..]);
    if k == 0 {
      assert s[0] !in s[1..];
    } else {
      assert s[0] != s[k] by { assert s[0].id != s[k].id; }
      assert s[1..][k - 1] == s[k];
      OccursOnce(s[1..], k - 1);
    }
  }

  /** Rows with the id of u take u's place; all other rows stay. */
  function Replace(s: seq<UserRecord>, u: UserRecord): (r: seq<UserRecord>)
    ensures |r| == |s|
    ensures forall i | 0 <= i < |s| :: r[i] == if s[i].id == u.id then u else s[i]
  {
    if s == [] then []
    else [if s[0].id == u.id then u else s[0]] + Replace(s[1..], u)
  }

  /** The pattern query: the row's user name or its email contains pattern.
      A null column matches nothing. */
  predicate MatchesPattern(x: UserRecord, pattern: string): (b: bool)
    ensures pattern == [] ==> (b <==> x.userName.Some? || x.email.Some?)
  {
    || (x.userName.Some? && Contains(x.userName.value, pattern))
    || (x.email.Some? && Contains(x.email.value, pattern))
  }

  datatype Table = Table(rows: seq<UserRecord>, nextId: nat) {

    /** Every row has an id below the identity counter, and no two rows
        share one. */
    predicate Valid() {
      && (forall x: UserRecord | x in rows :: x.id.Some? && x.id.value < nextId)
      && DistinctIds(rows)
    }

    /** findAll: the stored rows. */
    function FindAll(): (r: seq<UserRecord>)
      ensures |r| == |rows|
      ensures forall x :: x in r <==> x in rows
    {
      rows
    }

    /** findById: the row with that id, or empty. */
    function FindById(id: nat): (r: Option<UserRecord>)
      ensures r.Some? ==> r.value in rows && r.value.id == Some(id)
      ensures r.None? <==> forall x: UserRecord | x in rows :: x.id != Some(id)
    {
      First(rows, (x: UserRecord) => x.id == Some(id))
    }

    /** findByEmail: a row with that email, or empty. */
    function FindByEmail(email: Option<string>): (r: Option<UserRecord>)
      ensures r.Some? ==> r.value in rows && r.value.email == email
      ensures r.None? <==> forall x: UserRecord | x in rows :: x.email != email
    {
      First(rows, (x: UserRecord) => x.email == email)
    }

    /** findByPartOfUsernameOrEmail: the rows whose user name or email
        contains the pattern. */
    function FindByPartOfUsernameOrEmail(pattern: string): (r: seq<UserRecord>)
      ensures forall x :: x in r <==> x in rows && MatchesPattern(x, pattern)
    {
      Filter(rows, (x: UserRecord) => MatchesPattern(x, pattern))
    }

    /** save: a record whose id is held by a row replaces that row; any
        other record is inserted under a fresh id from the identity counter.
        The result pairs the new table with the stored record. */
    function Save(u: UserRecord): (res: (Table, UserRecord))
      ensures res.1.userName == u.userName && res.1.email == u.email && res.1.password == u.password
      ensures res.1.id.Some? && res.1 in res.0.rows
    {
      if u.id.Some? && FindById(u.id.value).Some? then
        (Table(Replace(rows, u), nextId), u)
      else
        var saved := u.(id := Some(nextId));
        (Table(rows + [saved], nextId + 1), saved)
    }

    /** deleteById: drop the row with that id, if any. */
    function DeleteById(id: nat): (t: Table)
      ensures t.nextId == nextId
      ensures forall x :: x in t.rows <==> x in rows && x.id != Some(id)
    {
      Table(Filter(rows, (x: UserRecord) => x.id != Some(id)), nextId)
    }

    /** deleteByEmail: drop every row with that email. */
    function DeleteByEmail(email: Option<string>): (t: Table)
      ensures t.nextId == nextId
      ensures forall x :: x in t.rows <==> x in rows && x.email != email
    {
      Table(Filter(rows, (x: UserRecord) => x.email != email), nextId)
    }

    /** delete: a record without an id is ignored; otherwise the row with
        its id is dropped. */
    function Delete(u: UserRecord): (t: Table)
      ensures t.nextId == nextId
      ensures forall x :: x in t.rows <==> x in rows && (u.id.None? || x.id != u.id)
    {
      if u.id.None? then this else DeleteById(u.id.value)
    }
  }

  /** findAll returns every stored row exactly once. */
  lemma FindAllExactlyOnce(t: Table)
    requires t.Valid()
    ensures forall x: UserRecord | x in t.rows :: multiset(t.FindAll())[x] == 1
  {
    forall x: UserRecord | x in t.rows ensures multiset(t.FindAll())[x] == 1 {
      var k :| 0 <= k < |t.rows| && t.rows[k] == x;
      OccursOnce(t.rows, k);
    }
  }

  /** In a valid table, findById finds the one row holding the id. */
  lemma FindByIdFinds(t: Table, x: UserRecord)
    requires t.Valid() && x in t.rows
    ensures t.FindById(x.id.value) == Some(x)
  {
    var r := t.FindById(x.id.value);
    var i :| 0 <= i < |t.rows| && t.rows[i] == x;
    var j :| 0 <= j < |t.rows| && t.rows[j] == r.value;
    assert i == j;
  }

  /** save of a record without a held id appends it under an id that no
      stored row has. */
  lemma SaveAssignsFreshId(t: Table, u: UserRecord)
    requires t.Valid()
    requires u.id.None? || t.FindById(u.id.value).None?
    ensures var (t', saved) := t.Save(u);
      && saved == u.(id := Some(t.nextId))
      && (forall x: UserRecord | x in t.rows :: x.id != saved.id)
      && t'.rows == t.rows + [saved]
  {
  }

  /** save of a record whose id is held replaces that row in place and
      leaves every other row as it was. */
  lemma SaveReplacesHeldId(t: Table, u: UserRecord)
    requires t.Valid() && u.id.Some? && t.FindById(u.id.value).Some?
    ensures var (t', saved) := t.Save(u);
      && saved == u
      && |t'.rows| == |t.rows|
      && (forall i | 0 <= i < |t.rows| :: t'.rows[i] == if t.rows[i].id == u.id then u else t.rows[i])
      && t'.nextId == t.nextId
  {
  }

  /** save keeps the ids assigned, unique and below the counter. */
  lemma SavePreservesValid(t: Table, u: UserRecord)
    requires t.Valid()
    ensures t.Save(u).0.Valid()
  {
    var (t', saved) := t.Save(u);
    if u.id.Some? && t.FindById(u.id.value).Some? {
      assert forall i | 0 <= i < |t.rows| :: t'.rows[i].id == t.rows[i].id;
      forall x: UserRecord | x in t'.rows ensures x.id.Some? && x.id.value < t'.nextId {
        var i :| 0 <= i < |t'.rows| && t'.rows[i] == x;
        assert t.rows[i] in t.rows;
      }
    } else {
      forall i, j | 0 <= i < j < |t'.rows| ensures t'.rows[i].id != t'.rows[j].id {
        if j < |t.rows| {
          assert t'.rows[i] == t.rows[i] && t'.rows[j] == t.rows[j];
        } else {
          assert t'.rows[i] in t.rows;
        }
      }
    }
  }

  /** The deletes keep the table valid. */
  lemma FilterPreservesValid(t: Table, keep: UserRecord -> bool)
    requires t.Valid()
    ensures Table(Filter(t.rows, keep), t.nextId).Valid()
  {
    FilterDistinctIds(t.rows, keep);
  }

  lemma DeletesPreserveValid(t: Table, id: nat, email: Option<string>, u: UserRecord)
    requires t.Valid()
    ensures t.DeleteById(id).Valid() && t.DeleteByEmail(email).Valid() && t.Delete(u).Valid()
  {
    FilterPreservesValid(t, (x: UserRecord) => x.id != Some(id));
    FilterPreservesValid(t, (x: UserRecord) => x.email != email);
    if u.id.Some? {
      FilterPreservesValid(t, (x: UserRecord) => x.id != Some(u.id.value));
    }
  }

  /** deleteByEmail removes every row with that email and leaves every other
      row, with its multiplicity, in place. */
  lemma DeleteByEmailExact(t: Table, email: Option<string>)
    ensures forall x: UserRecord | x.email == email :: x !in t.DeleteByEmail(email).rows
    ensures forall x: UserRecord | x.email != email :: multiset(t.DeleteByEmail(email).rows)[x] == multiset(t.rows)[x]
  {
    forall x: UserRecord | x.email != email ensures multiset(t.DeleteByEmail(email).rows)[x] == multiset(t.rows)[x] {
      FilterCount(t.rows, (y: UserRecord) => y.email != email, x);
    }
  }

  /** deleteById removes only the row with that id. */
  lemma DeleteByIdExact(t: Table, id: nat)
    ensures forall x: UserRecord | x.id == Some(id) :: x !in t.DeleteById(id).rows
    ensures forall x: UserRecord | x.id != Some(id) :: multiset(t.DeleteById(id).rows)[x] == multiset(t.rows)[x]
  {
    forall x: UserRecord | x.id != Some(id) ensures multiset(t.DeleteById(id).rows)[x] == multiset(t.rows)[x] {
      FilterCount(t.rows, (y: UserRecord) => y.id != Some(id), x);
    }
  }

  /** In a valid table, deleteById of a held id shrinks the table by one. */
  lemma DeleteByIdRemovesOne(t: Table, x: UserRecord)
    requires t.Valid() && x in t.rows
    ensures multiset(t.DeleteById(x.id.value).rows) == multiset(t.rows) - multiset{x}
  {
    var id := x.id.value;
    var k :| 0 <= k < |t.rows| && t.rows[k] == x;
    OccursOnce(t.rows, k);
    forall y ensures multiset(t.DeleteById(id).rows)[y] == (multiset(t.rows) - multiset{x})[y] {
      FilterCount(t.rows, (z: UserRecord) => z.id != Some(id), y);
    }
  }

  /** delete(u) removes only the row with u's id, and nothing when u has no id. */
  lemma DeleteExact(t: Table, u: UserRecord)
    ensures u.id.None? ==> t.Delete(u) == t
    ensures forall x: UserRecord | u.id.Some? && x.id == u.id :: x !in t.Delete(u).rows
    ensures forall x: UserRecord | x.id != u.id :: multiset(t.Delete(u).rows)[x] == multiset(t.rows)[x]
  {
    if u.id.Some? {
      DeleteByIdExact(t, u.id.value);
    }
  }

  /** The in-place table. */
  class UserRepository {
    var rows: seq<UserRecord>
    var nextId: nat

    /** The table this repository currently holds. */
    function Contents(): Table
      reads this
    {
      Table(rows, nextId)
    }

    ghost predicate Valid()
      reads this
    {
      Contents().Valid()
    }

    /** An empty table whose identity counter starts at 1. */
    constructor ()
      ensures Valid() && Contents() == Table([], 1)
    {
      rows, nextId := [], 1;
    }

    method Save(u: UserRecord) returns (saved: UserRecord)
      requires Valid()
      modifies this
      ensures Valid()
      ensures (Contents(), saved) == old(Contents()).Save(u)
    {
      SavePreservesValid(Contents(), u);
      var (t, s) := Contents().Save(u);
      rows, nextId, saved := t.rows, t.nextId, s;
    }

    method DeleteById(id: nat)
      requires Valid()
      modifies this
      ensures Valid()
      ensures Contents() == old(Contents()).DeleteById(id)
    {
      DeletesPreserveValid(Contents(), id, None, UserRecord(None, None, None, None));
      rows := Contents().DeleteById(id).rows;
    }

    method DeleteByEmail(email: Option<string>)
      requires Valid()
      modifies this
      ensures Valid()
      ensures Contents() == old(Contents()).DeleteByEmail(email)
    {
      DeletesPreserveValid(Contents(), 0, email, UserRecord(None, None, None, None));
      rows := Contents().DeleteByEmail(email).rows;
    }

    method Delete(u: UserRecord)
      requires Valid()
      modifies this
      ensures Valid()
      ensures Contents() == old(Contents()).Delete(u)
    {
      DeletesPreserveValid(Contents(), 0, None, u);
      if u.id.Some? {
        DeleteById(u.id.value);
      }
    }
  }

}
