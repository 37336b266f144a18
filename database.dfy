/** The pallets table of backend/database.js and the SQL statements the server and
    the maintenance scripts run against it. The table is a sequence of rows in
    storage (rowid) order; `local_id` is its primary key, so no two rows share one.
    A SQL NULL is `None`. */
module Database {
  import opened Text

  datatype Option<T> = None | Some(value: T)

  /** JavaScript truthiness of an optional string property: present and not "". */
  predicate Truthy(v: Option<string>) {
    v.Some? && v.value != ""
  }

  /** `v || d` for a string-valued property, as the statements bind it. */
  function OrText(v: Option<string>, d: string): string {
    if Truthy(v) then v.value else d
  }

  const InStock := "IN_STOCK"
  const Returned := "RETURNED"

  /** One row of `pallets`. `firm_name` and `pallet_type` are NOT NULL columns and
      `local_id` is the key; `status` is never written NULL by any statement of the
      model, so these four are plain strings. `return_date` is the later column the
      cleanup script reads. */
  datatype Pallet = Pallet(
    localId: string,
    firmName: string,
    palletType: string,
    boxCount: Option<int>,
    vehiclePlate: Option<string>,
    entryDate: Option<string>,
    note: Option<string>,
    status: string,
    isSynced: int,
    temperature: Option<string>,
    entryTime: Option<string>,
    returnDate: Option<string>)

  /** The keys present in the table. */
  function Ids(rows: seq<Pallet>): set<string> {
    set p | p in rows :: p.localId
  }

  /** The primary-key constraint. */
  predicate UniqueIds(rows: seq<Pallet>) {
    forall i, j :: 0 <= i < j < |rows| ==> rows[i].localId != rows[j].localId
  }

  /** In a table with unique keys a row is determined by its key. */
  lemma {:induction false} SameIdSameRow(rows: seq<Pallet>, p: Pallet, q: Pallet)
    requires UniqueIds(rows) && p in rows && q in rows && p.localId == q.localId
    ensures p == q
  {
    var i :| 0 <= i < |rows| && rows[i] == p;
    var j :| 0 <= j < |rows| && rows[j] == q;
    assert !(i < j) && !(j < i);
  }

  /** A statement that rewrites rows in place without touching their keys keeps the
      set of keys and the key constraint. */
  lemma SameKeysPointwise(rows: seq<Pallet>, r: seq<Pallet>)
    requires |r| == |rows|
    requires forall i :: 0 <= i < |rows| ==> r[i].localId == rows[i].localId
    ensures Ids(r) == Ids(rows)
    ensures UniqueIds(rows) ==> UniqueIds(r)
  {
    forall id | id in Ids(rows) ensures id in Ids(r) {
      var i :| 0 <= i < |rows| && rows[i].localId == id;
      assert r[i] in r;
    }
    forall id | id in Ids(r) ensures id in Ids(rows) {
      var i :| 0 <= i < |r| && r[i].localId == id;
      assert rows[i] in rows;
    }
  }

  /** The rows of `s` that satisfy `keep`, in their order: what a `WHERE` clause or
      JavaScript's `Array.prototype.filter` keeps. */
  function Filter<T(!new)>(s: seq<T>, keep: T -> bool): (r: seq<T>)
    ensures |r| <= |s|
    ensures forall x :: x in r <==> x in s && keep(x)
  {
    if s == [] then [] else (if keep(s[0]) then [s[0]] else []) + Filter(s[1..], keep)
  }

  /** Filtering a concatenation filters each part and keeps their order. */
  lemma {:induction false} FilterConcat<T(!new)>(a: seq<T>, b: seq<T>, keep: T -> bool)
    ensures Filter(a + b, keep) == Filter(a, keep) + Filter(b, keep)
  {
    if a == [] {
      assert a + b == b;
    } else {
      assert (a + b)[0] == a[0] && (a + b)[1..] == a[1..] + b;
      FilterConcat(a[1..], b, keep);
    }
  }

  /** Every row is kept exactly when all rows satisfy the filter. */
  lemma {:induction false} FilterAll<T(!new)>(s: seq<T>, keep: T -> bool)
    requires forall x :: x in s ==> keep(x)
    ensures Filter(s, keep) == s
  {
    if s != [] {
      FilterAll(s[1..], keep);
    }
  }

  /** Removing rows never breaks the key constraint. */
  lemma {:induction false} FilterUnique(rows: seq<Pallet>, keep: Pallet -> bool)
    ensures UniqueIds(rows) ==> UniqueIds(Filter(rows, keep))
  {
    if rows != [] && UniqueIds(rows) {
      FilterUnique(rows[1..], keep);
      var tail := Filter(rows[1..], keep);
      assert rows[0].localId !in Ids(rows[1..]);
      assert forall q :: q in tail ==> q in rows[1..];
    }
  }

  /** `DELETE FROM pallets WHERE local_id = ?`. */
  function DeleteById(rows: seq<Pallet>, id: string): (r: seq<Pallet>)
    ensures forall p :: p in r <==> p in rows && p.localId != id
    ensures Ids(r) == Ids(rows) - {id}
    ensures UniqueIds(rows) ==> UniqueIds(r)
    ensures UniqueIds(rows) && id in Ids(rows) ==> |r| == |rows| - 1
    ensures id !in Ids(rows) ==> r == rows
  {
    DeleteByIdFacts(rows, id);
    Filter(rows, (p: Pallet) => p.localId != id)
  }

  lemma DeleteByIdFacts(rows: seq<Pallet>, id: string)
    ensures var r := Filter(rows, (p: Pallet) => p.localId != id);
      (UniqueIds(rows) ==> UniqueIds(r)) &&
      (UniqueIds(rows) && id in Ids(rows) ==> |r| == |rows| - 1) &&
      (id !in Ids(rows) ==> r == rows)
  {
    if UniqueIds(rows) {
      FilterUnique(rows, (p: Pallet) => p.localId != id);
      if id in Ids(rows) {
        DeleteOneCount(rows, id);
      }
    }
    if id !in Ids(rows) {
      FilterAll(rows, (p: Pallet) => p.localId != id);
    }
  }

  lemma {:induction false} DeleteOneCount(rows: seq<Pallet>, id: string)
    requires UniqueIds(rows) && id in Ids(rows)
    ensures |Filter(rows, (p: Pallet) => p.localId != id)| == |rows| - 1
  {
    var keep := (p: Pallet) => p.localId != id;
    if rows[0].localId == id {
      assert id !in Ids(rows[1..]);
      FilterAll(rows[1..], keep);
    } else {
      assert id in Ids(rows[1..]);
      DeleteOneCount(rows[1..], id);
    }
  }

  /** `DELETE FROM pallets WHERE entry_date = ?`. A row whose `entry_date` is NULL
      never matches `= ?`. */
  function DeleteByEntryDate(rows: seq<Pallet>, date: string): (r: seq<Pallet>)
    ensures forall p :: p in r <==> p in rows && p.entryDate != Some(date)
    ensures UniqueIds(rows) ==> UniqueIds(r)
  {
    FilterUnique(rows, (p: Pallet) => p.entryDate != Some(date));
    Filter(rows, (p: Pallet) => p.entryDate != Some(date))
  }

  /** `INSERT OR IGNORE`: a row whose key is already present is dropped and the
      stored row is left as it is; otherwise the row is appended. */
  function InsertOrIgnore(rows: seq<Pallet>, p: Pallet): (r: seq<Pallet>)
    ensures |r| >= |rows| && r[..|rows|] == rows
    ensures Ids(r) == Ids(rows) + {p.localId}
    ensures p.localId in Ids(rows) ==> r == rows
    ensures p.localId !in Ids(rows) ==> r[|rows|..] == [p]
    ensures UniqueIds(rows) ==> UniqueIds(r)
  {
    if p.localId in Ids(rows) then rows else rows + [p]
  }

  /** `INSERT OR REPLACE`: SQLite deletes the row holding the same key, if any, and
      appends the new row. */
  function InsertOrReplace(rows: seq<Pallet>, p: Pallet): (r: seq<Pallet>)
    ensures |r| > 0 && r[|r| - 1] == p
    ensures forall q :: q in r <==> q == p || (q in rows && q.localId != p.localId)
    ensures Ids(r) == Ids(rows) + {p.localId}
    ensures UniqueIds(rows) ==> UniqueIds(r)
  {
    var kept := DeleteById(rows, p.localId);
    assert forall q :: q in kept ==> q.localId != p.localId;
    kept + [p]
  }

  /** A stored row survives `INSERT OR REPLACE` of a row with another key. */
  lemma InsertOrReplaceKeeps(rows: seq<Pallet>, p: Pallet, q: Pallet)
    requires q in rows && q.localId != p.localId
    ensures q in InsertOrReplace(rows, p)
  {
  }

  /** The database connection: one table, updated in place by each statement. */
  class Db {
    var rows: seq<Pallet>

    ghost predicate Valid()
      reads this
    {
      UniqueIds(rows)
    }

    constructor (initial: seq<Pallet>)
      requires UniqueIds(initial)
      ensures Valid() && rows == initial
    {
      rows := initial;
    }
  }
}
