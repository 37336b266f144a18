/** The pallet handlers of backend/server.js: `POST /api/sync`, `GET /api/pallets`,
    `POST /api/return`, `DELETE /api/pallets/:id` and `PUT /api/pallets/:id`, each run
    as one sequential step against the table. */
module Server {
  import opened Text
  import opened Database

  /** `v || d` for a number-valued property (0 is falsy). */
  function OrNumber(v: Option<int>, d: int): int {
    if v.Some? && v.value != 0 then v.value else d
  }

  // ---------------------------------------------------------------------------
  // POST /api/sync

  /** A pallet record as a client posts it; an absent JSON property is None. */
  datatype SyncItem = SyncItem(
    localId: string,
    firmName: Option<string>,
    palletType: Option<string>,
    boxCount: Option<int>,
    vehiclePlate: Option<string>,
    entryDate: Option<string>,
    note: Option<string>,
    status: Option<string>)

  /** The request body: one object or an array of them. */
  datatype SyncBody = Single(item: SyncItem) | Batch(items: seq<SyncItem>)

  /** A driver error reported for one item of the batch. */
  datatype SyncError = SyncError(id: string, error: string)

  datatype SyncResponse =
    | NoData                                                    // 400
    | Processed(received: nat, inserted: nat, errors: seq<SyncError>)

  /** `Array.isArray(data) ? data : [data]`. */
  function Items(body: SyncBody): seq<SyncItem> {
    match body
    case Single(item) => [item]
    case Batch(items) => items
  }

  /** The row the prepared `INSERT OR IGNORE` binds for an item, with the handler's
      defaults filled in, or None when `firm_name` or `pallet_type` is absent: binding
      NULL to a NOT NULL column is a conflict that OR IGNORE resolves by skipping the
      row, without an error. The statement names no `temperature`, `entry_time` or
      `return_date`, so a new row has them NULL. */
  function SyncRow(item: SyncItem): (r: Option<Pallet>)
    ensures r.Some? <==> item.firmName.Some? && item.palletType.Some?
    ensures r.Some? ==> r.value.localId == item.localId && r.value.isSynced == 1
  {
    if item.firmName.None? || item.palletType.None? then None
    else Some(Pallet(
      item.localId, item.firmName.value, item.palletType.value,
      Some(OrNumber(item.boxCount, 0)), Some(OrText(item.vehiclePlate, "")),
      item.entryDate, Some(OrText(item.note, "")), OrText(item.status, InStock),
      1, None, None, None))
  }

  /** The defaults: an item that leaves the optional properties out (or falsy) gets
      `box_count` 0, `vehicle_plate` '', `note` '' and `status` IN_STOCK; a truthy value
      is stored as sent. `is_synced` is always 1. */
  lemma SyncRowDefaults(item: SyncItem)
    requires item.firmName.Some? && item.palletType.Some?
    ensures var p := SyncRow(item).value;
      p.firmName == item.firmName.value && p.palletType == item.palletType.value &&
      p.entryDate == item.entryDate && p.isSynced == 1 &&
      p.temperature == None && p.entryTime == None && p.returnDate == None &&
      p.boxCount == Some(if item.boxCount.Some? && item.boxCount.value != 0 then item.boxCount.value else 0) &&
      p.vehiclePlate == Some(if Truthy(item.vehiclePlate) then item.vehiclePlate.value else "") &&
      p.note == Some(if Truthy(item.note) then item.note.value else "") &&
      p.status == (if Truthy(item.status) then item.status.value else InStock)
  {
  }

  /** One statement of the batch. `failure` is what the driver reports for it: Some
      message on an error, in which case nothing is written. */
  function SyncStep(rows: seq<Pallet>, item: SyncItem, failure: Option<string>): seq<Pallet> {
    if failure.Some? then rows
    else match SyncRow(item)
      case None => rows
      case Some(p) => InsertOrIgnore(rows, p)
  }

  /** The table after the statements for `items`, run in order. */
  function SyncTable(rows: seq<Pallet>, items: seq<SyncItem>, failures: seq<Option<string>>): seq<Pallet>
    requires |failures| == |items|
    decreases |items|
  {
    if items == [] then rows
    else SyncStep(SyncTable(rows, items[..|items| - 1], failures[..|items| - 1]), items[|items| - 1], failures[|items| - 1])
  }

  /** The items whose statement succeeded (`successCount`). */
  function SuccessCount(failures: seq<Option<string>>): nat
    decreases |failures|
  {
    if failures == [] then 0
    else SuccessCount(failures[..|failures| - 1]) + (if failures[|failures| - 1].None? then 1 else 0)
  }

  /** The `errors` array: one entry per failed statement, in item order. */
  function SyncErrors(items: seq<SyncItem>, failures: seq<Option<string>>): seq<SyncError>
    requires |failures| == |items|
    decreases |items|
  {
    if items == [] then []
    else
      var n := |items| - 1;
      SyncErrors(items[..n], failures[..n]) +
      (if failures[n].Some? then [SyncError(items[n].localId, failures[n].value)] else [])
  }

  /** Every item is counted once: as a success or as an error. */
  lemma {:induction false} SyncCounts(items: seq<SyncItem>, failures: seq<Option<string>>)
    requires |failures| == |items|
    ensures SuccessCount(failures) + |SyncErrors(items, failures)| == |items|
    decreases |items|
  {
    if items != [] {
      SyncCounts(items[..|items| - 1], failures[..|items| - 1]);
    }
  }

  /** Sync never replaces, reorders or removes a stored row: the old table is a prefix
      of the new one, and the key constraint still holds. */
  lemma {:induction false} SyncKeepsRows(rows: seq<Pallet>, items: seq<SyncItem>, failures: seq<Option<string>>)
    requires |failures| == |items|
    ensures var r := SyncTable(rows, items, failures);
      |r| >= |rows| && r[..|rows|] == rows && (UniqueIds(rows) ==> UniqueIds(r))
    decreases |items|
  {
    if items != [] {
      var n := |items| - 1;
      var before := SyncTable(rows, items[..n], failures[..n]);
      SyncKeepsRows(rows, items[..n], failures[..n]);
      var after := SyncTable(rows, items, failures);
      assert after == SyncStep(before, items[n], failures[n]);
      assert |after| >= |before| && after[..|before|] == before;
      assert after[..|rows|] == after[..|before|][..|rows|];
    }
  }

  /** An item is written when the driver reports no error and both NOT NULL
      columns are present. */
  predicate Written(item: SyncItem, failure: Option<string>) {
    failure.None? && SyncRow(item).Some?
  }

  /** The keys of the written items. */
  function WrittenIds(items: seq<SyncItem>, failures: seq<Option<string>>): set<string>
    requires |failures| == |items|
  {
    set k | 0 <= k < |items| && Written(items[k], failures[k]) :: items[k].localId
  }

  lemma WrittenIdsSnoc(items: seq<SyncItem>, failures: seq<Option<string>>)
    requires |failures| == |items| && items != []
    ensures var n := |items| - 1;
      WrittenIds(items, failures) ==
      WrittenIds(items[..n], failures[..n]) + (if Written(items[n], failures[n]) then {items[n].localId} else {})
  {
    var n := |items| - 1;
    var whole := WrittenIds(items, failures);
    var prefix := WrittenIds(items[..n], failures[..n]);
    var last: set<string> := if Written(items[n], failures[n]) then {items[n].localId} else {};
    forall id | id in whole ensures id in prefix + last {
      var k :| 0 <= k < |items| && Written(items[k], failures[k]) && items[k].localId == id;
      if k < n {
        assert items[..n][k] == items[k] && failures[..n][k] == failures[k];
      }
    }
    forall id | id in prefix + last ensures id in whole {
      if id in prefix {
        var k :| 0 <= k < n && Written(items[..n][k], failures[..n][k]) && items[..n][k].localId == id;
        assert items[..n][k] == items[k] && failures[..n][k] == failures[k];
      }
    }
  }

  /** The keys after a sync: the old keys plus those of the written items. */
  lemma {:induction false} SyncIds(rows: seq<Pallet>, items: seq<SyncItem>, failures: seq<Option<string>>)
    requires |failures| == |items|
    ensures Ids(SyncTable(rows, items, failures)) == Ids(rows) + WrittenIds(items, failures)
    decreases |items|
  {
    if items != [] {
      var n := |items| - 1;
      SyncIds(rows, items[..n], failures[..n]);
      WrittenIdsSnoc(items, failures);
    }
  }

  /** Statements whose keys are all stored already change nothing: each one is
      skipped, fails, or meets its key under OR IGNORE. */
  lemma {:induction false} SyncStoredNoChange(rows: seq<Pallet>, items: seq<SyncItem>, failures: seq<Option<string>>)
    requires |failures| == |items|
    requires forall k :: 0 <= k < |items| && Written(items[k], failures[k]) ==> items[k].localId in Ids(rows)
    ensures SyncTable(rows, items, failures) == rows
    decreases |items|
  {
    if items != [] {
      var n := |items| - 1;
      forall k | 0 <= k < n && Written(items[..n][k], failures[..n][k])
        ensures items[..n][k].localId in Ids(rows)
      {
        assert items[..n][k] == items[k] && failures[..n][k] == failures[k];
      }
      SyncStoredNoChange(rows, items[..n], failures[..n]);
    }
  }

  /** Sync is idempotent under the `local_id` key: posting a batch again, where every
      statement that fails now also failed the first time, leaves the table as the
      first post left it. In particular a batch that went through without errors can
      be resent with any outcome. */
  lemma SyncIdempotent(rows: seq<Pallet>, items: seq<SyncItem>, first: seq<Option<string>>, again: seq<Option<string>>)
    requires |first| == |items| && |again| == |items|
    requires forall k :: 0 <= k < |items| && first[k].Some? ==> again[k].Some?
    ensures var once := SyncTable(rows, items, first);
      SyncTable(once, items, again) == once
  {
    var once := SyncTable(rows, items, first);
    SyncIds(rows, items, first);
    forall k | 0 <= k < |items| && Written(items[k], again[k])
      ensures items[k].localId in Ids(once)
    {
      assert items[k].localId in WrittenIds(items, first);
    }
    SyncStoredNoChange(once, items, again);
  }

  /** The round trip: an item that is written, whose key was not stored before and
      that no earlier written item of the batch shares, is in the table afterwards
      exactly as `SyncRow` built it. */
  lemma {:induction false} SyncStoresItem(rows: seq<Pallet>, items: seq<SyncItem>, failures: seq<Option<string>>, k: nat)
    requires |failures| == |items| && k < |items|
    requires Written(items[k], failures[k])
    requires items[k].localId !in Ids(rows)
    requires forall j :: 0 <= j < k && Written(items[j], failures[j]) ==> items[j].localId != items[k].localId
    ensures SyncRow(items[k]).value in SyncTable(rows, items, failures)
    decreases |items|
  {
    var n := |items| - 1;
    var before := SyncTable(rows, items[..n], failures[..n]);
    if k == n {
      SyncIds(rows, items[..n], failures[..n]);
      assert items[k].localId !in WrittenIds(items[..n], failures[..n]);
      assert items[k].localId !in Ids(before);
    } else {
      SyncStoresItem(rows, items[..n], failures[..n], k);
      var p := SyncRow(items[k]).value;
      assert p in before;
      SyncKeepsRows(before, [items[n]], [failures[n]]);
      assert SyncTable(before, [items[n]], [failures[n]]) == SyncStep(before, items[n], failures[n]) by {
        assert [items[n]][..0] == [] && [failures[n]][..0] == [];
      }
    }
  }

  /** One more item of the batch is one more step of each fold. */
  lemma SyncSnoc(rows: seq<Pallet>, items: seq<SyncItem>, failures: seq<Option<string>>, i: nat)
    requires |failures| == |items| && i < |items|
    ensures SyncTable(rows, items[..i + 1], failures[..i + 1]) ==
      SyncStep(SyncTable(rows, items[..i], failures[..i]), items[i], failures[i])
    ensures SuccessCount(failures[..i + 1]) == SuccessCount(failures[..i]) + (if failures[i].None? then 1 else 0)
    ensures SyncErrors(items[..i + 1], failures[..i + 1]) ==
      SyncErrors(items[..i], failures[..i]) + (if failures[i].Some? then [SyncError(items[i].localId, failures[i].value)] else [])
  {
    assert items[..i + 1][..i] == items[..i] && failures[..i + 1][..i] == failures[..i];
  }

  /** `stmt.run(...)` for one item: the driver either reports `failure` and writes
      nothing, or runs the `INSERT OR IGNORE`. */
  method RunInsert(db: Db, item: SyncItem, failure: Option<string>)
    requires db.Valid()
    modifies db
    ensures db.Valid()
    ensures db.rows == SyncStep(old(db.rows), item, failure)
  {
    if failure.None? {
      var row := SyncRow(item);
      if row.Some? {
        db.rows := InsertOrIgnore(db.rows, row.value);
      }
    }
  }

  /** `items.forEach(...)` inside the transaction: one statement per item, counting
      the successes and collecting the errors. */
  method RunBatch(db: Db, items: seq<SyncItem>, failures: seq<Option<string>>) returns (successCount: nat, errors: seq<SyncError>)
    requires db.Valid() && |failures| == |items|
    modifies db
    ensures db.Valid()
    ensures successCount == SuccessCount(failures)
    ensures errors == SyncErrors(items, failures)
    ensures db.rows == SyncTable(old(db.rows), items, failures)
  {
    ghost var start := db.rows;
    successCount := 0;
    errors := [];
    var i := 0;
    while i < |items|
      invariant 0 <= i <= |items|
      invariant successCount == SuccessCount(failures[..i])
      invariant errors == SyncErrors(items[..i], failures[..i])
      invariant db.rows == SyncTable(start, items[..i], failures[..i])
      invariant db.Valid()
    {
      SyncSnoc(start, items, failures, i);
      var item := items[i];
      RunInsert(db, item, failures[i]);
      if failures[i].Some? {
        errors := errors + [SyncError(item.localId, failures[i].value)];
      } else {
        successCount := successCount + 1;
      }
      i := i + 1;
    }
    assert items[..i] == items && failures[..i] == failures;
  }

  /** The sync handler. `failures[i]` is the driver's verdict on the statement for
      the i-th item. */
  method Sync(db: Db, body: SyncBody, failures: seq<Option<string>>) returns (r: SyncResponse)
    requires db.Valid() && |failures| == |Items(body)|
    modifies db
    ensures db.Valid()
    ensures Items(body) == [] ==> r == NoData && db.rows == old(db.rows)
    ensures Items(body) != [] ==>
      r == Processed(|Items(body)|, SuccessCount(failures), SyncErrors(Items(body), failures)) &&
      db.rows == SyncTable(old(db.rows), Items(body), failures)
  {
    var items := Items(body);
    if |items| == 0 {
      return NoData;
    }
    var successCount, errors := RunBatch(db, items, failures);
    r := Processed(|items|, successCount, errors);
  }

  // ---------------------------------------------------------------------------
  // GET /api/pallets

  /** `a` may come before `b` under `ORDER BY entry_date DESC`; NULL is the smallest
      value in SQLite, so it sorts last. */
  predicate EntryDateAtLeast(a: Option<string>, b: Option<string>) {
    b.None? || (a.Some? && LexLeq(b.value, a.value))
  }

  lemma EntryDateAtLeastTotal(a: Option<string>, b: Option<string>)
    ensures EntryDateAtLeast(a, b) || EntryDateAtLeast(b, a)
  {
    if a.Some? && b.Some? {
      LexLeqTotal(a.value, b.value);
    }
  }

  lemma EntryDateAtLeastTransitive(a: Option<string>, b: Option<string>, c: Option<string>)
    requires EntryDateAtLeast(a, b) && EntryDateAtLeast(b, c)
    ensures EntryDateAtLeast(a, c)
  {
    if c.Some? {
      LexLeqTransitive(c.value, b.value, a.value);
    }
  }

  predicate SortedByEntryDateDesc(rows: seq<Pallet>) {
    forall i, j :: 0 <= i < j < |rows| ==> EntryDateAtLeast(rows[i].entryDate, rows[j].entryDate)
  }

  /** Places `p` into a sorted sequence: after every row with a later or equal date. */
  function InsertByEntryDate(p: Pallet, sorted: seq<Pallet>): (r: seq<Pallet>)
    requires SortedByEntryDateDesc(sorted)
    ensures SortedByEntryDateDesc(r)
    ensures multiset(r) == multiset(sorted) + multiset{p}
  {
    if sorted == [] then [p]
    else if !EntryDateAtLeast(sorted[0].entryDate, p.entryDate) then
      EntryDateAtLeastTotal(sorted[0].entryDate, p.entryDate);
      InsertHeadSorted(p, sorted);
      [p] + sorted
    else
      var rest := InsertByEntryDate(p, sorted[1..]);
      InsertTailSorted(p, sorted, rest);
      [sorted[0]] + rest
  }

  lemma InsertTailSorted(p: Pallet, sorted: seq<Pallet>, rest: seq<Pallet>)
    requires sorted != [] && SortedByEntryDateDesc(sorted) && SortedByEntryDateDesc(rest)
    requires EntryDateAtLeast(sorted[0].entryDate, p.entryDate)
    requires multiset(rest) == multiset(sorted[1..]) + multiset{p}
    ensures SortedByEntryDateDesc([sorted[0]] + rest)
    ensures multiset([sorted[0]] + rest) == multiset(sorted) + multiset{p}
  {
    assert sorted == [sorted[0]] + sorted[1..];
    forall j | 0 <= j < |rest| ensures EntryDateAtLeast(sorted[0].entryDate, rest[j].entryDate) {
      assert rest[j] in multiset(rest);
      if rest[j] != p {
        assert rest[j] in multiset(sorted[1..]);
        var k :| 0 <= k < |sorted[1..]| && sorted[1..][k] == rest[j];
        assert sorted[k + 1] == rest[j];
      }
    }
    var r := [sorted[0]] + rest;
    forall i, j | 0 <= i < j < |r| ensures EntryDateAtLeast(r[i].entryDate, r[j].entryDate) {
      if i > 0 {
        assert r[i] == rest[i - 1] && r[j] == rest[j - 1];
      } else {
        assert r[j] == rest[j - 1];
      }
    }
  }

  lemma InsertHeadSorted(p: Pallet, sorted: seq<Pallet>)
    requires SortedByEntryDateDesc(sorted) && sorted != []
    requires EntryDateAtLeast(p.entryDate, sorted[0].entryDate)
    ensures SortedByEntryDateDesc([p] + sorted)
  {
    var r := [p] + sorted;
    forall i, j | 0 <= i < j < |r| ensures EntryDateAtLeast(r[i].entryDate, r[j].entryDate) {
      if i == 0 && j > 1 {
        EntryDateAtLeastTransitive(p.entryDate, sorted[0].entryDate, sorted[j - 1].entryDate);
      }
    }
  }

  /** An ordering of the table by `entry_date`, latest first. Equal dates come out in
      reverse storage order here; SQLite leaves their order unspecified. */
  function SortByEntryDateDesc(rows: seq<Pallet>): (r: seq<Pallet>)
    ensures SortedByEntryDateDesc(r)
    ensures multiset(r) == multiset(rows)
  {
    if rows == [] then []
    else
      assert rows == [rows[0]] + rows[1..];
      InsertByEntryDate(rows[0], SortByEntryDateDesc(rows[1..]))
  }

  datatype ListResponse = ListResponse(count: nat, data: seq<Pallet>)

  /** `SELECT * FROM pallets ORDER BY entry_date DESC`: every row once, latest entry
      date first, and `count` is their number. */
  function ListPallets(rows: seq<Pallet>): (r: ListResponse)
    ensures multiset(r.data) == multiset(rows)
    ensures SortedByEntryDateDesc(r.data)
    ensures r.count == |r.data| == |rows|
  {
    var data := SortByEntryDateDesc(rows);
    assert |data| == |multiset(data)| == |multiset(rows)| == |rows|;
    ListResponse(|data|, data)
  }

  // ---------------------------------------------------------------------------
  // POST /api/return

  datatype ReturnRequest = ReturnRequest(firmName: Option<string>, count: Option<nat>, palletType: Option<string>)

  datatype ReturnResponse =
    | MissingParameters                                  // 400
    | NotEnoughStock(requested: nat, available: nat)     // 400
    | PalletsReturned(returnedCount: nat)

  /** `!firm_name || !count || !pallet_type` is false. */
  predicate HasReturnParameters(req: ReturnRequest) {
    Truthy(req.firmName) && req.count.Some? && req.count.value != 0 && Truthy(req.palletType)
  }

  /** The `WHERE` clause of the candidate query. */
  predicate InStockOf(p: Pallet, firm: string, palletType: string) {
    p.firmName == firm && p.palletType == palletType && p.status == InStock
  }

  /** The keys of the rows the candidate query can return. */
  function AvailableIds(rows: seq<Pallet>, firm: string, palletType: string): set<string> {
    set p | p in rows && InStockOf(p, firm, palletType) :: p.localId
  }

  /** `UPDATE pallets SET status = 'RETURNED' WHERE local_id IN (...)`. */
  function MarkReturned(rows: seq<Pallet>, picked: set<string>): seq<Pallet> {
    seq(|rows|, i requires 0 <= i < |rows| =>
      if rows[i].localId in picked then rows[i].(status := Returned) else rows[i])
  }

  /** `this.changes` of that update: the number of rows whose key is in the list. */
  function CountMatching(rows: seq<Pallet>, picked: set<string>): nat {
    if rows == [] then 0
    else (if rows[0].localId in picked then 1 else 0) + CountMatching(rows[1..], picked)
  }

  /** With unique keys, the update touches one row per picked key that is stored. */
  lemma {:induction false} CountMatchingKeys(rows: seq<Pallet>, picked: set<string>)
    requires UniqueIds(rows)
    ensures CountMatching(rows, picked) == |picked * Ids(rows)|
  {
    if rows != [] {
      UniqueTail(rows);
      CountMatchingKeys(rows[1..], picked);
      IntersectOneMore(picked, Ids(rows), Ids(rows[1..]), rows[0].localId);
    }
  }

  /** Adding a new element to a set adds one to its intersection with `picked` when
      `picked` holds that element, and nothing otherwise. */
  lemma IntersectOneMore(picked: set<string>, all: set<string>, rest: set<string>, id: string)
    requires all == {id} + rest && id !in rest
    ensures |picked * all| == |picked * rest| + (if id in picked then 1 else 0)
  {
    if id in picked {
      assert picked * all == {id} + picked * rest;
    } else {
      assert picked * all == picked * rest;
    }
  }

  /** The first key of a table with unique keys is not among the other keys. */
  lemma UniqueTail(rows: seq<Pallet>)
    requires UniqueIds(rows) && rows != []
    ensures UniqueIds(rows[1..])
    ensures Ids(rows) == {rows[0].localId} + Ids(rows[1..])
    ensures rows[0].localId !in Ids(rows[1..])
  {
    assert rows == [rows[0]] + rows[1..];
    forall q | q in rows[1..] ensures q.localId != rows[0].localId {
      var j :| 0 <= j < |rows[1..]| && rows[1..][j] == q;
      assert rows[j + 1] == q;
    }
  }

  /** What a successful return does, for a picked set of in-stock keys: those rows
      change from IN_STOCK to RETURNED and in no other field; every other row is as it
      was; the picked pallets leave the stock of their firm and type, which shrinks by
      exactly their number; the update reports one change per picked key. */
  lemma ReturnEffect(rows: seq<Pallet>, firm: string, palletType: string, picked: set<string>)
    requires UniqueIds(rows)
    requires picked <= AvailableIds(rows, firm, palletType)
    ensures var r := MarkReturned(rows, picked);
      |r| == |rows| && UniqueIds(r) && Ids(r) == Ids(rows) &&
      (forall i :: 0 <= i < |rows| && rows[i].localId in picked ==>
        rows[i].status == InStock && r[i].status == Returned && r[i].(status := InStock) == rows[i]) &&
      (forall i :: 0 <= i < |rows| && rows[i].localId !in picked ==> r[i] == rows[i]) &&
      AvailableIds(r, firm, palletType) == AvailableIds(rows, firm, palletType) - picked &&
      |AvailableIds(r, firm, palletType)| == |AvailableIds(rows, firm, palletType)| - |picked| &&
      CountMatching(rows, picked) == |picked|
  {
    MarkReturnedRows(rows, firm, palletType, picked);
    MarkReturnedStock(rows, firm, palletType, picked);
    ReturnCounts(rows, firm, palletType, picked);
  }

  /** The rows of a return, one by one. */
  lemma MarkReturnedRows(rows: seq<Pallet>, firm: string, palletType: string, picked: set<string>)
    requires UniqueIds(rows)
    requires picked <= AvailableIds(rows, firm, palletType)
    ensures var r := MarkReturned(rows, picked);
      |r| == |rows| && UniqueIds(r) && Ids(r) == Ids(rows) &&
      (forall i :: 0 <= i < |rows| && rows[i].localId in picked ==>
        rows[i].status == InStock && r[i].status == Returned && r[i].(status := InStock) == rows[i]) &&
      (forall i :: 0 <= i < |rows| && rows[i].localId !in picked ==> r[i] == rows[i])
  {
    PickedRowsInStock(rows, firm, palletType, picked);
    SameKeysPointwise(rows, MarkReturned(rows, picked));
  }

  /** The counts of a return: the stock shrinks by the number picked, and the update
      changes that many rows. */
  lemma ReturnCounts(rows: seq<Pallet>, firm: string, palletType: string, picked: set<string>)
    requires UniqueIds(rows)
    requires picked <= AvailableIds(rows, firm, palletType)
    ensures |AvailableIds(rows, firm, palletType) - picked| == |AvailableIds(rows, firm, palletType)| - |picked|
    ensures CountMatching(rows, picked) == |picked|
  {
    var stock := AvailableIds(rows, firm, palletType);
    assert stock == (stock - picked) + picked;
    PickedRowsInStock(rows, firm, palletType, picked);
    assert picked * Ids(rows) == picked;
    CountMatchingKeys(rows, picked);
  }

  /** A picked key names an in-stock row of the requested firm and type. */
  lemma PickedRowsInStock(rows: seq<Pallet>, firm: string, palletType: string, picked: set<string>)
    requires UniqueIds(rows)
    requires picked <= AvailableIds(rows, firm, palletType)
    ensures forall i :: 0 <= i < |rows| && rows[i].localId in picked ==> InStockOf(rows[i], firm, palletType)
    ensures picked <= Ids(rows)
  {
    forall i | 0 <= i < |rows| && rows[i].localId in picked
      ensures InStockOf(rows[i], firm, palletType)
    {
      var p :| p in rows && InStockOf(p, firm, palletType) && p.localId == rows[i].localId;
      SameIdSameRow(rows, p, rows[i]);
    }
  }

  lemma MarkReturnedStock(rows: seq<Pallet>, firm: string, palletType: string, picked: set<string>)
    ensures AvailableIds(MarkReturned(rows, picked), firm, palletType) == AvailableIds(rows, firm, palletType) - picked
  {
    var r := MarkReturned(rows, picked);
    forall id | id in AvailableIds(r, firm, palletType)
      ensures id in AvailableIds(rows, firm, palletType) - picked
    {
      var i :| 0 <= i < |r| && InStockOf(r[i], firm, palletType) && r[i].localId == id;
      assert rows[i] in rows;
    }
    forall id | id in AvailableIds(rows, firm, palletType) - picked
      ensures id in AvailableIds(r, firm, palletType)
    {
      var i :| 0 <= i < |rows| && InStockOf(rows[i], firm, palletType) && rows[i].localId == id;
      assert r[i] in r;
    }
  }

  /** The stock of every other firm and type is untouched by a return. */
  lemma ReturnLeavesOtherStock(rows: seq<Pallet>, firm: string, palletType: string, picked: set<string>,
                               otherFirm: string, otherType: string)
    requires UniqueIds(rows)
    requires picked <= AvailableIds(rows, firm, palletType)
    requires otherFirm != firm || otherType != palletType
    ensures AvailableIds(MarkReturned(rows, picked), otherFirm, otherType) == AvailableIds(rows, otherFirm, otherType)
  {
    var r := MarkReturned(rows, picked);
    PickedRowsInStock(rows, firm, palletType, picked);
    forall id | id in AvailableIds(r, otherFirm, otherType)
      ensures id in AvailableIds(rows, otherFirm, otherType)
    {
      var i :| 0 <= i < |r| && InStockOf(r[i], otherFirm, otherType) && r[i].localId == id;
      assert rows[i] in rows;
    }
    forall id | id in AvailableIds(rows, otherFirm, otherType)
      ensures id in AvailableIds(r, otherFirm, otherType)
    {
      var i :| 0 <= i < |rows| && InStockOf(rows[i], otherFirm, otherType) && rows[i].localId == id;
      assert r[i] in r;
    }
  }

  /** A set has subsets of every smaller size. */
  lemma {:induction false} SubsetOfSize(s: set<string>, n: nat)
    requires n <= |s|
    ensures exists t :: t <= s && |t| == n
  {
    if n == 0 {
      var none: set<string> := {};
      assert none <= s && |none| == 0;
    } else {
      var x :| x in s;
      SubsetOfSize(s - {x}, n - 1);
      var t :| t <= s - {x} && |t| == n - 1;
      var w := t + {x};
      assert w <= s && |w| == n;
    }
  }

  /** The return handler. The candidate query has no `ORDER BY`, so any `count` of the
      in-stock rows of that firm and type may be the ones returned. */
  method ReturnPallets(db: Db, req: ReturnRequest) returns (r: ReturnResponse)
    requires db.Valid()
    modifies db
    ensures db.Valid()
    ensures r.MissingParameters? <==> !HasReturnParameters(req)
    ensures !r.PalletsReturned? ==> db.rows == old(db.rows)
    ensures HasReturnParameters(req) ==>
      var stock := AvailableIds(old(db.rows), req.firmName.value, req.palletType.value);
      var count := req.count.value;
      (r.NotEnoughStock? <==> |stock| < count) &&
      (r.NotEnoughStock? ==> r.requested == count && r.available == |stock|) &&
      (r.PalletsReturned? ==> (r.returnedCount == count &&
        exists picked :: picked <= stock && |picked| == count && db.rows == MarkReturned(old(db.rows), picked)))
  {
    if !HasReturnParameters(req) {
      return MissingParameters;
    }
    var firm, palletType, count := req.firmName.value, req.palletType.value, req.count.value;
    var stock := AvailableIds(db.rows, firm, palletType);
    if |stock| < count {
      return NotEnoughStock(count, |stock|);
    }
    SubsetOfSize(stock, count);
    var picked :| picked <= stock && |picked| == count;
    ReturnEffect(db.rows, firm, palletType, picked);
    var changes := CountMatching(db.rows, picked);
    db.rows := MarkReturned(db.rows, picked);
    r := PalletsReturned(changes);
  }

  // ---------------------------------------------------------------------------
  // DELETE /api/pallets/:id

  datatype DeleteResponse = Deleted(id: string) | DeleteNotFound   // DeleteNotFound is 404

  method DeletePallet(db: Db, id: string) returns (r: DeleteResponse)
    requires db.Valid()
    modifies db
    ensures db.Valid()
    ensures db.rows == DeleteById(old(db.rows), id)
    ensures r == if id in Ids(old(db.rows)) then Deleted(id) else DeleteNotFound
  {
    var changes := |db.rows| - |DeleteById(db.rows, id)|;
    db.rows := DeleteById(db.rows, id);
    if changes == 0 {
      return DeleteNotFound;
    }
    r := Deleted(id);
  }

  // ---------------------------------------------------------------------------
  // PUT /api/pallets/:id

  /** The body fields the update binds; an absent property binds NULL. */
  datatype UpdateBody = UpdateBody(
    firmName: Option<string>,
    palletType: Option<string>,
    boxCount: Option<int>,
    vehiclePlate: Option<string>,
    note: Option<string>)

  datatype UpdateResponse =
    | Updated(id: string)
    | UpdateNotFound                   // 404
    | NotNullFailed(column: string)    // 500: NOT NULL constraint failed: pallets.<column>

  /** `UPDATE pallets SET firm_name = ?, pallet_type = ?, box_count = ?, vehicle_plate = ?,
      note = ? WHERE local_id = ?`, once its NOT NULL columns are bound. */
  function UpdateById(rows: seq<Pallet>, id: string, firm: string, palletType: string, body: UpdateBody): seq<Pallet> {
    seq(|rows|, i requires 0 <= i < |rows| =>
      if rows[i].localId == id
      then rows[i].(firmName := firm, palletType := palletType, boxCount := body.boxCount,
                    vehiclePlate := body.vehiclePlate, note := body.note)
      else rows[i])
  }

  /** The update writes exactly the five body fields of the row with that key; its
      key, `entry_date`, `status`, `temperature`, `entry_time`, `return_date` and
      `is_synced` stay, and every other row is as it was. */
  lemma UpdateEffect(rows: seq<Pallet>, id: string, firm: string, palletType: string, body: UpdateBody)
    requires UniqueIds(rows)
    ensures var r := UpdateById(rows, id, firm, palletType, body);
      |r| == |rows| && UniqueIds(r) && Ids(r) == Ids(rows) &&
      (forall i :: 0 <= i < |rows| && rows[i].localId != id ==> r[i] == rows[i]) &&
      (forall i :: 0 <= i < |rows| && rows[i].localId == id ==>
        r[i].firmName == firm && r[i].palletType == palletType && r[i].boxCount == body.boxCount &&
        r[i].vehiclePlate == body.vehiclePlate && r[i].note == body.note &&
        r[i].localId == rows[i].localId && r[i].entryDate == rows[i].entryDate &&
        r[i].status == rows[i].status && r[i].temperature == rows[i].temperature &&
        r[i].entryTime == rows[i].entryTime && r[i].returnDate == rows[i].returnDate &&
        r[i].isSynced == rows[i].isSynced)
  {
    SameKeysPointwise(rows, UpdateById(rows, id, firm, palletType, body));
  }

  /** The update handler. SQLite checks NOT NULL only on a row it is changing, so an
      unknown key is a 404 whatever the body holds, while an absent `firm_name` or
      `pallet_type` on a stored key fails the statement (columns in table order). */
  method UpdatePallet(db: Db, id: string, body: UpdateBody) returns (r: UpdateResponse)
    requires db.Valid()
    modifies db
    ensures db.Valid()
    ensures id !in Ids(old(db.rows)) ==> r == UpdateNotFound && db.rows == old(db.rows)
    ensures id in Ids(old(db.rows)) && body.firmName.None? ==> r == NotNullFailed("firm_name") && db.rows == old(db.rows)
    ensures id in Ids(old(db.rows)) && body.firmName.Some? && body.palletType.None? ==>
      r == NotNullFailed("pallet_type") && db.rows == old(db.rows)
    ensures id in Ids(old(db.rows)) && body.firmName.Some? && body.palletType.Some? ==>
      r == Updated(id) && db.rows == UpdateById(old(db.rows), id, body.firmName.value, body.palletType.value, body)
  {
    if id !in Ids(db.rows) {
      return UpdateNotFound;
    }
    if body.firmName.None? {
      return NotNullFailed("firm_name");
    }
    if body.palletType.None? {
      return NotNullFailed("pallet_type");
    }
    UpdateEffect(db.rows, id, body.firmName.value, body.palletType.value, body);
    db.rows := UpdateById(db.rows, id, body.firmName.value, body.palletType.value, body);
    r := Updated(id);
  }
}
