/** The `WaitlistEntry` table that every route reads, and the ascending
    `createdAt` ordering that `findMany({ orderBy: { createdAt: "asc" } })`
    gives. Timestamps are milliseconds since the epoch. */
module Entries {
  import opened Wrappers

  datatype Entry = Entry(id: nat, email: string, createdAt: int, isAdmin: bool)

  /** The table: its rows in insertion order and the next autoincrement id. */
  datatype Table = Table(rows: seq<Entry>, nextId: nat)

  /** The storage-layer unique constraint on `email`. */
  datatype DbError = UniqueViolation

  predicate UniqueEmails(rows: seq<Entry>) {
    forall i, j :: 0 <= i < j < |rows| ==> rows[i].email != rows[j].email
  }

  /** Ids are assigned in increasing order and are all below the next one. */
  predicate IdsIncreasing(rows: seq<Entry>, nextId: nat) {
    && (forall i, j :: 0 <= i < j < |rows| ==> rows[i].id < rows[j].id)
    && (forall i :: 0 <= i < |rows| ==> rows[i].id < nextId)
  }

  predicate ValidTable(t: Table) {
    UniqueEmails(t.rows) && IdsIncreasing(t.rows, t.nextId)
  }

  predicate HasEmail(rows: seq<Entry>, email: string) {
    exists i :: 0 <= i < |rows| && rows[i].email == email
  }

  /** `findUnique({ where: { email } })`. */
  function FindByEmail(rows: seq<Entry>, email: string): (r: Option<Entry>)
    ensures r.Some? <==> HasEmail(rows, email)
    ensures r.Some? ==> r.value in rows && r.value.email == email
  {
    if |rows| == 0 then None
    else if rows[0].email == email then Some(rows[0])
    else
      var r := FindByEmail(rows[1..], email);
      assert HasEmail(rows, email) ==> HasEmail(rows[1..], email) by {
        if HasEmail(rows, email) {
          var i :| 0 <= i < |rows| && rows[i].email == email;
          assert rows[1..][i - 1].email == email;
        }
      }
      assert r.Some? ==> HasEmail(rows, email) by {
        if r.Some? {
          var i :| 0 <= i < |rows[1..]| && rows[1..][i].email == email;
          assert rows[i + 1].email == email;
        }
      }
      r
  }

  /** With unique emails, the entry found is the only one with that email. */
  lemma FindByEmailUnique(rows: seq<Entry>, email: string, i: int)
    requires UniqueEmails(rows)
    requires 0 <= i < |rows| && rows[i].email == email
    ensures FindByEmail(rows, email) == Some(rows[i])
  {
    var e := FindByEmail(rows, email).value;
    var k :| 0 <= k < |rows| && rows[k] == e;
    assert k == i;
  }

  /** `create({ data: { email } })`: a new row with the next id, the current
      time as `createdAt` and `isAdmin` false, refused by the unique constraint
      when the email is already present. */
  function Create(t: Table, email: string, now: int): (r: (Result<Entry, DbError>, Table))
    ensures r.0.Err? <==> HasEmail(t.rows, email)
    ensures r.0.Err? ==> r.1 == t
    ensures r.0.Ok? ==> r.1.rows == t.rows + [r.0.value] && r.1.nextId == t.nextId + 1
    ensures r.0.Ok? ==> r.0.value == Entry(t.nextId, email, now, false)
  {
    if FindByEmail(t.rows, email).Some? then (Err(UniqueViolation), t)
    else
      var e := Entry(t.nextId, email, now, false);
      (Ok(e), Table(t.rows + [e], t.nextId + 1))
  }

  /** Creating a row keeps every email unique and every id fresh. */
  lemma CreatePreservesValid(t: Table, email: string, now: int)
    requires ValidTable(t)
    ensures ValidTable(Create(t, email, now).1)
  {
    var (r, t') := Create(t, email, now);
    if r.Ok? {
      var rows := t'.rows;
      forall i, j | 0 <= i < j < |rows| ensures rows[i].email != rows[j].email {
        if j == |rows| - 1 {
          assert rows[j].email == email && rows[i] == t.rows[i];
          assert !HasEmail(t.rows, email);
        }
      }
    }
  }

  /** The table as the source keeps it: a class whose rows the routes create. */
  class WaitlistStore {
    var rows: seq<Entry>
    var nextId: nat

    function Snapshot(): Table
      reads this
    {
      Table(rows, nextId)
    }

    ghost predicate Valid()
      reads this
    {
      ValidTable(Snapshot())
    }

    constructor ()
      ensures Valid() && rows == [] && nextId == 1
    {
      rows := [];
      nextId := 1;
    }

    /** Inserts a row, or reports the unique-constraint violation. */
    method Insert(email: string, now: int) returns (r: Result<Entry, DbError>)
      requires Valid()
      modifies this
      ensures Valid()
      ensures (r, Snapshot()) == Create(old(Snapshot()), email, now)
    {
      CreatePreservesValid(Snapshot(), email, now);
      if FindByEmail(rows, email).Some? {
        return Err(UniqueViolation);
      }
      var e := Entry(nextId, email, now, false);
      rows := rows + [e];
      nextId := nextId + 1;
      r := Ok(e);
    }
  }

  // Ordering by creation time.

  predicate SortedByCreatedAt(s: seq<Entry>) {
    forall i, j :: 0 <= i < j < |s| ==> s[i].createdAt <= s[j].createdAt
  }

  /** A lower bound on `createdAt` carries over to a permutation. */
  lemma NoEarlierThan(a: seq<Entry>, b: seq<Entry>, lo: int)
    requires multiset(a) == multiset(b)
    requires forall k :: 0 <= k < |b| ==> lo <= b[k].createdAt
    ensures forall k :: 0 <= k < |a| ==> lo <= a[k].createdAt
  {
    forall k | 0 <= k < |a| ensures lo <= a[k].createdAt {
      assert a[k] in multiset(b);
      var m :| 0 <= m < |b| && b[m] == a[k];
    }
  }

  /** An entry no later than every entry of a sorted list can go in front. */
  lemma SortedCons(x: Entry, s: seq<Entry>)
    requires SortedByCreatedAt(s)
    requires forall k :: 0 <= k < |s| ==> x.createdAt <= s[k].createdAt
    ensures SortedByCreatedAt([x] + s)
  {
    var r := [x] + s;
    forall i, j | 0 <= i < j < |r| ensures r[i].createdAt <= r[j].createdAt {
      assert r[j] == s[j - 1];
      if i > 0 {
        assert r[i] == s[i - 1];
      }
    }
  }

  /** Places `e` after every entry of `s` created no later than it. */
  function InsertByCreatedAt(s: seq<Entry>, e: Entry): (r: seq<Entry>)
    ensures |r| == |s| + 1
  {
    if |s| == 0 then [e]
    else if e.createdAt < s[0].createdAt then [e] + s
    else [s[0]] + InsertByCreatedAt(s[1..], e)
  }

  /** Insertion adds exactly `e`. */
  lemma {:induction false} InsertPermutes(s: seq<Entry>, e: Entry)
    ensures multiset(InsertByCreatedAt(s, e)) == multiset(s) + multiset{e}
  {
    if |s| > 0 && s[0].createdAt <= e.createdAt {
      InsertPermutes(s[1..], e);
      assert s == [s[0]] + s[1..];
    }
  }

  /** Insertion into a sorted list keeps it sorted. */
  lemma {:induction false} InsertSorted(s: seq<Entry>, e: Entry)
    requires SortedByCreatedAt(s)
    ensures SortedByCreatedAt(InsertByCreatedAt(s, e))
  {
    if |s| == 0 {
    } else if e.createdAt < s[0].createdAt {
      forall k | 0 <= k < |s| ensures e.createdAt <= s[k].createdAt {
        assert k == 0 || s[0].createdAt <= s[k].createdAt;
      }
      SortedCons(e, s);
    } else {
      var rest := s[1..];
      var tail := InsertByCreatedAt(rest, e);
      InsertSorted(rest, e);
      InsertPermutes(rest, e);
      assert multiset(tail) == multiset(rest + [e]);
      forall k | 0 <= k < |rest + [e]| ensures s[0].createdAt <= (rest + [e])[k].createdAt {
        if k < |rest| {
          assert (rest + [e])[k] == s[k + 1];
        }
      }
      NoEarlierThan(tail, rest + [e], s[0].createdAt);
      SortedCons(s[0], tail);
    }
  }

  /** The rows ordered by ascending `createdAt`; rows created at the same
      millisecond keep their insertion order. */
  function OrderByCreatedAt(s: seq<Entry>): (r: seq<Entry>)
    ensures SortedByCreatedAt(r)
    ensures multiset(r) == multiset(s)
    ensures |r| == |s|
  {
    if |s| == 0 then []
    else
      var init := OrderByCreatedAt(s[..|s| - 1]);
      assert s == s[..|s| - 1] + [s[|s| - 1]];
      InsertSorted(init, s[|s| - 1]);
      InsertPermutes(init, s[|s| - 1]);
      InsertByCreatedAt(init, s[|s| - 1])
  }

  lemma {:induction false} InsertAfterAll(s: seq<Entry>, e: Entry)
    requires SortedByCreatedAt(s)
    requires forall k :: 0 <= k < |s| ==> s[k].createdAt <= e.createdAt
    ensures InsertByCreatedAt(s, e) == s + [e]
  {
    if |s| > 0 {
      InsertAfterAll(s[1..], e);
      assert [s[0]] + (s[1..] + [e]) == s + [e];
    }
  }

  /** Rows already in creation order come back unchanged. */
  lemma {:induction false} OrderOfSorted(s: seq<Entry>)
    requires SortedByCreatedAt(s)
    ensures OrderByCreatedAt(s) == s
  {
    if |s| > 0 {
      var init := s[..|s| - 1];
      OrderOfSorted(init);
      InsertAfterAll(init, s[|s| - 1]);
      assert init + [s[|s| - 1]] == s;
    }
  }

  /** Every row appears in the ordered list, and nothing else does. */
  lemma OrderedSameRows(s: seq<Entry>, e: Entry)
    ensures e in OrderByCreatedAt(s) <==> e in s
  {
    assert e in OrderByCreatedAt(s) <==> e in multiset(OrderByCreatedAt(s));
  }
}
