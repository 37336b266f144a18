/** backend/import_data.js: re-imports the pallets of one day from a JSON dump. It
    keeps the records of that day, deletes the stored rows of that day, shuffles the
    record indices to pick up to five records for a temperature reading, gives every
    record a random entry time between 06:45 and 07:47, and writes each record with
    `INSERT OR REPLACE`. The random draws and the formatted temperature readings are
    inputs. */
module Import {
  import opened Text
  import opened Database

  /** The day the script imports. */
  const ImportDate := "2025-12-23"
  /** `validIndices.slice(0, 5)`. */
  const TempSampleSize := 5
  /** 06:45 as a minute count. */
  const FirstMinute := 405
  /** The bound of `random.nextInt(63)`. */
  const MinuteSpread := 63

  /** One record of the dump; every property is present except possibly `note`. */
  datatype ImportRecord = ImportRecord(
    localId: string,
    firmName: string,
    palletType: string,
    boxCount: int,
    vehiclePlate: string,
    entryDate: string,
    note: Option<string>,
    status: string,
    isSynced: int)  // carried by the dump but never read: the import binds 1

  // ---------------------------------------------------------------------------
  // The date filter

  /** `jsonData.data.filter(d => d.entry_date === '2025-12-23')`. */
  function Filtered(data: seq<ImportRecord>): (r: seq<ImportRecord>)
    ensures forall d :: d in r <==> d in data && d.entryDate == ImportDate
  {
    Filter(data, (d: ImportRecord) => d.entryDate == ImportDate)
  }

  /** The filter keeps the original order: filtering a concatenation filters each
      part, and a single record is kept exactly when it is of the import date. */
  lemma FilteredInOrder(a: seq<ImportRecord>, b: seq<ImportRecord>, d: ImportRecord)
    ensures Filtered(a + b) == Filtered(a) + Filtered(b)
    ensures Filtered([d]) == if d.entryDate == ImportDate then [d] else []
  {
    FilterConcat(a, b, (x: ImportRecord) => x.entryDate == ImportDate);
    assert [d][1..] == [];
  }

  // ---------------------------------------------------------------------------
  // The index shuffle

  /** `Array.from({ length: n }, (_, i) => i)`. */
  function Iota(n: nat): (r: seq<nat>)
    ensures |r| == n && forall i :: 0 <= i < n ==> r[i] == i
  {
    seq(n, i => i)
  }

  /** A sequence holding each of 0..n-1 exactly once. */
  predicate IndexPermutation(s: seq<nat>, n: nat) {
    |s| == n &&
    (forall k :: 0 <= k < n ==> s[k] < n) &&
    (forall a, b :: 0 <= a < b < n ==> s[a] != s[b])
  }

  /** The draws `Math.floor(Math.random() * (i + 1))` of the shuffle, indexed by `i`:
      each lies in 0..i (the entry for 0 is never used). */
  predicate ValidSwapDraws(n: nat, draws: seq<nat>) {
    |draws| == n && forall i :: 0 < i < n ==> draws[i] <= i
  }

  function Swap(s: seq<nat>, i: nat, j: nat): seq<nat>
    requires i < |s| && j < |s|
  {
    s[i := s[j]][j := s[i]]
  }

  /** The swaps for i, i-1, ..., 1, applied to `s`. */
  function ShuffleFrom(s: seq<nat>, draws: seq<nat>, i: nat): seq<nat>
    requires i < |s| && ValidSwapDraws(|s|, draws)
    decreases i
  {
    if i == 0 then s else ShuffleFrom(Swap(s, i, draws[i]), draws, i - 1)
  }

  /** `validIndices` after the loop. */
  function Shuffle(n: nat, draws: seq<nat>): seq<nat>
    requires ValidSwapDraws(n, draws)
  {
    if n == 0 then [] else ShuffleFrom(Iota(n), draws, n - 1)
  }

  lemma SwapKeepsPermutation(s: seq<nat>, n: nat, i: nat, j: nat)
    requires IndexPermutation(s, n) && i < n && j < n
    ensures IndexPermutation(Swap(s, i, j), n)
    ensures multiset(Swap(s, i, j)) == multiset(s)
  {
    var t := Swap(s, i, j);
    forall a, b | 0 <= a < b < n ensures t[a] != t[b] {
      var a' := if a == i then j else if a == j then i else a;
      var b' := if b == i then j else if b == j then i else b;
      assert t[a] == s[a'] && t[b] == s[b'] && a' != b';
    }
  }

  /** Every swap only exchanges two entries, so the shuffle yields a permutation of
      what it started from. */
  lemma {:induction false} ShuffleFromPermutation(s: seq<nat>, draws: seq<nat>, i: nat)
    requires i < |s| && ValidSwapDraws(|s|, draws) && IndexPermutation(s, |s|)
    ensures IndexPermutation(ShuffleFrom(s, draws, i), |s|)
    ensures multiset(ShuffleFrom(s, draws, i)) == multiset(s)
    decreases i
  {
    if i > 0 {
      SwapKeepsPermutation(s, |s|, i, draws[i]);
      ShuffleFromPermutation(Swap(s, i, draws[i]), draws, i - 1);
    }
  }

  /** The indices after the shuffle are a permutation of 0..n-1. */
  lemma ShufflePermutation(n: nat, draws: seq<nat>)
    requires ValidSwapDraws(n, draws)
    ensures IndexPermutation(Shuffle(n, draws), n)
    ensures multiset(Shuffle(n, draws)) == multiset(Iota(n))
  {
    if n > 0 {
      ShuffleFromPermutation(Iota(n), draws, n - 1);
    }
  }

  /** The shuffle of lines 67-72, in place on the array. */
  method ShuffledIndices(n: nat, draws: seq<nat>) returns (validIndices: array<nat>)
    requires ValidSwapDraws(n, draws)
    ensures validIndices.Length == n
    ensures validIndices[..] == Shuffle(n, draws)
    ensures multiset(validIndices[..]) == multiset(Iota(n))
    ensures IndexPermutation(validIndices[..], n)
  {
    validIndices := new nat[n](k => k);
    assert validIndices[..] == Iota(n);
    if n == 0 {
      return;
    }
    var i: nat := n - 1;
    while i > 0
      invariant i < n && validIndices.Length == n
      invariant ShuffleFrom(validIndices[..], draws, i) == Shuffle(n, draws)
      invariant IndexPermutation(validIndices[..], n)
      invariant multiset(validIndices[..]) == multiset(Iota(n))
    {
      var j := draws[i];
      ghost var before := validIndices[..];
      SwapKeepsPermutation(before, n, i, j);
      validIndices[i], validIndices[j] := validIndices[j], validIndices[i];
      assert validIndices[..] == Swap(before, i, j);
      i := i - 1;
    }
  }

  // ---------------------------------------------------------------------------
  // The temperature sample

  /** The distinct values of a sequence. */
  function Elements(s: seq<nat>): set<nat> {
    set x | x in s
  }

  /** `new Set(validIndices.slice(0, 5))`. */
  function SelectForTemp(validIndices: seq<nat>): set<nat> {
    Elements(validIndices[..Min(TempSampleSize, |validIndices|)])
  }

  /** A sequence without repeats has as many distinct elements as entries. */
  lemma {:induction false} DistinctCard(s: seq<nat>)
    requires forall a, b :: 0 <= a < b < |s| ==> s[a] != s[b]
    ensures |Elements(s)| == |s|
  {
    if s != [] {
      var n := |s| - 1;
      var init := s[..n];
      assert forall a, b :: 0 <= a < b < |init| ==> init[a] != init[b] by {
        forall a, b | 0 <= a < b < |init| ensures init[a] != init[b] {
          assert init[a] == s[a] && init[b] == s[b];
        }
      }
      DistinctCard(init);
      assert s[n] !in Elements(init) by {
        forall k | 0 <= k < n ensures init[k] != s[n] {
          assert init[k] == s[k];
        }
      }
      assert Elements(s) == Elements(init) + {s[n]} by {
        assert s == init + [s[n]];
      }
    }
  }

  /** The sample holds min(5, n) distinct indices, all in 0..n-1. */
  lemma SelectForTempSize(n: nat, draws: seq<nat>)
    requires ValidSwapDraws(n, draws)
    ensures var selected := SelectForTemp(Shuffle(n, draws));
      |selected| == Min(TempSampleSize, n) && forall k :: k in selected ==> k < n
  {
    var s := Shuffle(n, draws);
    ShufflePermutation(n, draws);
    var m := Min(TempSampleSize, n);
    var prefix := s[..m];
    assert forall a, b :: 0 <= a < b < |prefix| ==> prefix[a] == s[a] && prefix[b] == s[b];
    DistinctCard(prefix);
    forall x | x in prefix ensures x < n {
      var k :| 0 <= k < m && prefix[k] == x;
      assert s[k] == x;
    }
  }

  // ---------------------------------------------------------------------------
  // The entry time

  /** `405 + random.nextInt(63)`. */
  function TotalMinutes(draw: nat): nat
    requires draw < MinuteSpread
  {
    FirstMinute + draw
  }

  /** The entry time is a well-formed `HH:MM` string whose reading is the minute
      count, which lies between 06:45 and 07:47 (the source comment's 07:48 is the
      exclusive bound). */
  lemma EntryTimeWindow(draw: nat)
    requires draw < MinuteSpread
    ensures var t := TotalMinutes(draw);
      var s := FormatTime(t);
      405 <= t <= 467 && IsClock(s) && ParseTime(s) == t
  {
    FormatTimeRoundTrip(TotalMinutes(draw));
  }

  lemma NatToStringTwoDigits(n: nat)
    requires 10 <= n < 100
    ensures NatToString(n) == [DigitChar(n / 10), DigitChar(n % 10)]
  {
    assert NatToString(n / 10) == [DigitChar(n / 10)];
  }

  lemma PadOneDigit(d: nat)
    requires d < 10
    ensures PadStart2(NatToString(d)) == ['0', DigitChar(d)]
  {
    assert NatToString(d) == [DigitChar(d)];
  }

  /** The clock string of a time before 10:00 whose minutes have two digits. */
  lemma MorningClock(t: nat, h: nat, m: nat)
    requires t == 60 * h + m && h < 10 && 10 <= m < 60
    ensures FormatTime(t) == ['0', DigitChar(h), ':', DigitChar(m / 10), DigitChar(m % 10)]
  {
    assert t / 60 == h && t % 60 == m;
    PadOneDigit(h);
    NatToStringTwoDigits(m);
  }

  /** The first and the last minute of the window. */
  lemma EntryTimeBounds()
    ensures FormatTime(TotalMinutes(0)) == "06:45"
    ensures FormatTime(TotalMinutes(MinuteSpread - 1)) == "07:47"
  {
    MorningClock(TotalMinutes(0), 6, 45);
    MorningClock(TotalMinutes(MinuteSpread - 1), 7, 47);
    assert DigitChar(6) == '6' && DigitChar(7) == '7' && DigitChar(4) == '4';
    assert DigitChar(5) == '5';
  }

  // ---------------------------------------------------------------------------
  // The written rows

  /** The row the prepared `INSERT OR REPLACE` binds for a record. The statement names
      no `return_date`, and REPLACE writes a fresh row, so that column is NULL. */
  function ImportRow(r: ImportRecord, temp: string, timeStr: string): Pallet {
    Pallet(r.localId, r.firmName, r.palletType, Some(r.boxCount), Some(r.vehiclePlate),
           Some(r.entryDate), Some(OrText(r.note, "")), r.status, 1, Some(temp), Some(timeStr), None)
  }

  /** The random inputs of the `forEach` for `n` filtered records: one minute draw
      per record, and one formatted reading per record (`toFixed(1)` never yields ""),
      used only for the sampled records. */
  predicate RecordDraws(n: nat, minuteDraws: seq<nat>, readings: seq<string>) {
    |minuteDraws| == n && (forall k :: 0 <= k < n ==> minuteDraws[k] < MinuteSpread) &&
    |readings| == n && (forall k :: 0 <= k < n ==> readings[k] != "")
  }

  /** All random inputs of the script: the shuffle draws and the record draws. */
  predicate ValidDraws(n: nat, swapDraws: seq<nat>, minuteDraws: seq<nat>, readings: seq<string>) {
    ValidSwapDraws(n, swapDraws) && RecordDraws(n, minuteDraws, readings)
  }

  /** The temperature of each record: its reading when its index was sampled, ""
      otherwise. */
  function Temperatures(selected: set<nat>, readings: seq<string>): (temps: seq<string>)
    ensures |temps| == |readings|
  {
    seq(|readings|, k requires 0 <= k < |readings| => if k in selected then readings[k] else "")
  }

  /** The entry time of each record: the clock string of its drawn minute. */
  function EntryTimes(minuteDraws: seq<nat>): (times: seq<string>)
    requires forall k :: 0 <= k < |minuteDraws| ==> minuteDraws[k] < MinuteSpread
    ensures |times| == |minuteDraws|
  {
    seq(|minuteDraws|, k requires 0 <= k < |minuteDraws| => FormatTime(TotalMinutes(minuteDraws[k])))
  }

  /** The rows the `forEach` writes, in order, given each record's temperature and
      entry time. */
  function ImportRows(filtered: seq<ImportRecord>, temps: seq<string>, times: seq<string>): (rows: seq<Pallet>)
    requires |temps| == |filtered| && |times| == |filtered|
    ensures |rows| == |filtered|
  {
    seq(|filtered|, k requires 0 <= k < |filtered| => ImportRow(filtered[k], temps[k], times[k]))
  }

  /** `row` is what the statement writes for record `r`: its values, `is_synced` 1,
      no `return_date`, the record's note when it is truthy and '' otherwise, the
      reading as temperature when the record was sampled and '' otherwise, and a
      well-formed entry time whose reading is the drawn minute (which, by
      `ParseTimeInjective`, fixes the string). */
  predicate WrittenFrom(row: Pallet, r: ImportRecord, sampled: bool, reading: string, draw: nat)
    requires draw < MinuteSpread
  {
    row.localId == r.localId && row.firmName == r.firmName && row.palletType == r.palletType &&
    row.boxCount == Some(r.boxCount) && row.vehiclePlate == Some(r.vehiclePlate) &&
    row.entryDate == Some(r.entryDate) && row.status == r.status && row.isSynced == 1 &&
    row.returnDate == None &&
    (Truthy(r.note) ==> row.note == r.note) &&
    (!Truthy(r.note) ==> row.note == Some("")) &&
    (sampled ==> row.temperature == Some(reading)) &&
    (!sampled ==> row.temperature == Some("")) &&
    row.entryTime.Some? && IsClock(row.entryTime.value) &&
    ParseTime(row.entryTime.value) == TotalMinutes(draw)
  }

  lemma RowWritten(filtered: seq<ImportRecord>, selected: set<nat>, minuteDraws: seq<nat>,
                   readings: seq<string>, i: nat)
    requires RecordDraws(|filtered|, minuteDraws, readings) && i < |filtered|
    ensures WrittenFrom(ImportRows(filtered, Temperatures(selected, readings), EntryTimes(minuteDraws))[i],
                        filtered[i], i in selected, readings[i], minuteDraws[i])
  {
    EntryTimeWindow(minuteDraws[i]);
  }

  /** Every written row is [WrittenFrom] its record. */
  lemma ImportRowsFacts(filtered: seq<ImportRecord>, selected: set<nat>, minuteDraws: seq<nat>, readings: seq<string>)
    requires RecordDraws(|filtered|, minuteDraws, readings)
    ensures var rows := ImportRows(filtered, Temperatures(selected, readings), EntryTimes(minuteDraws));
      forall i :: 0 <= i < |filtered| ==> WrittenFrom(rows[i], filtered[i], i in selected, readings[i], minuteDraws[i])
  {
    forall i | 0 <= i < |filtered| {
      RowWritten(filtered, selected, minuteDraws, readings, i);
    }
  }

  /** `INSERT OR REPLACE` of each row in turn. */
  function ReplaceAll(rows: seq<Pallet>, ps: seq<Pallet>): seq<Pallet>
    decreases |ps|
  {
    if ps == [] then rows else InsertOrReplace(ReplaceAll(rows, ps[..|ps| - 1]), ps[|ps| - 1])
  }

  lemma IdsSnoc(ps: seq<Pallet>)
    requires ps != []
    ensures Ids(ps) == Ids(ps[..|ps| - 1]) + {ps[|ps| - 1].localId}
  {
    assert ps == ps[..|ps| - 1] + [ps[|ps| - 1]];
  }

  /** Writing rows with `INSERT OR REPLACE` keeps the key constraint and stores only
      written rows and old rows whose key no written row uses. */
  lemma {:induction false} ReplaceAllOnly(rows: seq<Pallet>, ps: seq<Pallet>)
    requires UniqueIds(rows)
    ensures var r := ReplaceAll(rows, ps);
      UniqueIds(r) && forall q :: q in r ==> q in ps || (q in rows && q.localId !in Ids(ps))
    decreases |ps|
  {
    if ps != [] {
      var n := |ps| - 1;
      ReplaceAllOnly(rows, ps[..n]);
      IdsSnoc(ps);
      assert forall q :: q in ps[..n] ==> q in ps;
    }
  }

  /** An old row whose key no written row uses is still stored. */
  lemma {:induction false} ReplaceAllKeeps(rows: seq<Pallet>, ps: seq<Pallet>)
    ensures forall q :: q in rows && q.localId !in Ids(ps) ==> q in ReplaceAll(rows, ps)
    decreases |ps|
  {
    if ps != [] {
      ReplaceAllKeeps(rows, ps[..|ps| - 1]);
      IdsSnoc(ps);
    }
  }

  /** A written row whose key no later written row reuses is stored as written. */
  lemma {:induction false} ReplaceAllStores(rows: seq<Pallet>, ps: seq<Pallet>, k: nat)
    requires k < |ps|
    requires forall j :: k < j < |ps| ==> ps[j].localId != ps[k].localId
    ensures ps[k] in ReplaceAll(rows, ps)
    decreases |ps|
  {
    var n := |ps| - 1;
    if k == n {
      ReplaceAllLast(rows, ps);
    } else {
      var init := ps[..n];
      forall j | k < j < n ensures init[j].localId != init[k].localId {
        assert init[j] == ps[j] && init[k] == ps[k];
      }
      ReplaceAllStores(rows, init, k);
      ReplaceAllStep(rows, ps, k);
    }
  }

  lemma ReplaceAllLast(rows: seq<Pallet>, ps: seq<Pallet>)
    requires ps != []
    ensures ps[|ps| - 1] in ReplaceAll(rows, ps)
  {
  }

  lemma ReplaceAllStep(rows: seq<Pallet>, ps: seq<Pallet>, k: nat)
    requires k < |ps| - 1
    requires ps[k] in ReplaceAll(rows, ps[..|ps| - 1])
    requires ps[|ps| - 1].localId != ps[k].localId
    ensures ps[k] in ReplaceAll(rows, ps)
  {
    InsertOrReplaceKeeps(ReplaceAll(rows, ps[..|ps| - 1]), ps[|ps| - 1], ps[k]);
  }

  /** What a run of `INSERT OR REPLACE` leaves: every written row that no later row
      replaces, the old rows whose keys were not written, and nothing else. */
  lemma ReplaceAllEffect(rows: seq<Pallet>, ps: seq<Pallet>)
    requires UniqueIds(rows)
    ensures var r := ReplaceAll(rows, ps);
      UniqueIds(r) &&
      (forall k :: 0 <= k < |ps| && (forall j :: k < j < |ps| ==> ps[j].localId != ps[k].localId) ==> ps[k] in r) &&
      (forall q :: q in rows && q.localId !in Ids(ps) ==> q in r) &&
      (forall q :: q in r ==> q in ps || (q in rows && q.localId !in Ids(ps)))
  {
    ReplaceAllOnly(rows, ps);
    ReplaceAllKeeps(rows, ps);
    forall k | 0 <= k < |ps| && (forall j :: k < j < |ps| ==> ps[j].localId != ps[k].localId)
      ensures ps[k] in ReplaceAll(rows, ps)
    {
      ReplaceAllStores(rows, ps, k);
    }
  }

  /** The table after the script, for the filtered records with their temperatures
      and entry times. */
  function ImportTable(rows: seq<Pallet>, filtered: seq<ImportRecord>, temps: seq<string>, times: seq<string>): seq<Pallet>
    requires |temps| == |filtered| && |times| == |filtered|
  {
    ReplaceAll(DeleteByEntryDate(rows, ImportDate), ImportRows(filtered, temps, times))
  }

  /** What the import leaves: every filtered record whose key no later filtered record
      reuses is stored as its written row; a stored row of another day with a key
      outside the written rows is unchanged; every other row is gone. */
  lemma ImportEffect(rows: seq<Pallet>, filtered: seq<ImportRecord>, temps: seq<string>, times: seq<string>)
    requires UniqueIds(rows)
    requires |temps| == |filtered| && |times| == |filtered|
    ensures var written := ImportRows(filtered, temps, times);
      var r := ImportTable(rows, filtered, temps, times);
      UniqueIds(r) &&
      (forall k :: 0 <= k < |filtered| && (forall j :: k < j < |filtered| ==> filtered[j].localId != filtered[k].localId) ==>
        written[k].localId == filtered[k].localId && written[k] in r) &&
      (forall q :: q in rows && q.entryDate != Some(ImportDate) && q.localId !in Ids(written) ==> q in r) &&
      (forall q :: q in r ==> q in written || (q in rows && q.entryDate != Some(ImportDate) && q.localId !in Ids(written)))
  {
    var written := ImportRows(filtered, temps, times);
    ReplaceAllEffect(DeleteByEntryDate(rows, ImportDate), written);
  }

  /** Writing record `i` is one more `INSERT OR REPLACE`. */
  lemma ImportStep(kept: seq<Pallet>, filtered: seq<ImportRecord>, temps: seq<string>, times: seq<string>, i: nat)
    requires |temps| == |filtered| && |times| == |filtered| && i < |filtered|
    ensures var written := ImportRows(filtered, temps, times);
      ReplaceAll(kept, written[..i + 1]) == InsertOrReplace(ReplaceAll(kept, written[..i]), written[i])
  {
    var written := ImportRows(filtered, temps, times);
    assert written[..i + 1][..i] == written[..i];
  }

  /** The `forEach` callback for the record at index `i`: builds the entry time and
      the temperature and runs the prepared statement. */
  method WriteRecord(db: Db, filtered: seq<ImportRecord>, selectedForTemp: set<nat>,
                     minuteDraws: seq<nat>, readings: seq<string>, i: nat)
    requires db.Valid() && RecordDraws(|filtered|, minuteDraws, readings) && i < |filtered|
    modifies db
    ensures db.Valid()
    ensures db.rows == InsertOrReplace(old(db.rows),
      ImportRows(filtered, Temperatures(selectedForTemp, readings), EntryTimes(minuteDraws))[i])
  {
    var totalMinutes := TotalMinutes(minuteDraws[i]);
    var timeStr := FormatTime(totalMinutes);
    var temp := "";
    if i in selectedForTemp {
      temp := readings[i];
    }
    db.rows := InsertOrReplace(db.rows, ImportRow(filtered[i], temp, timeStr));
  }

  /** `filtered.forEach(...)`: writes every record in order. */
  method WriteRecords(db: Db, filtered: seq<ImportRecord>, selectedForTemp: set<nat>,
                      minuteDraws: seq<nat>, readings: seq<string>)
    requires db.Valid() && RecordDraws(|filtered|, minuteDraws, readings)
    modifies db
    ensures db.Valid()
    ensures db.rows == ReplaceAll(old(db.rows),
      ImportRows(filtered, Temperatures(selectedForTemp, readings), EntryTimes(minuteDraws)))
  {
    ghost var kept := db.rows;
    ghost var temps := Temperatures(selectedForTemp, readings);
    ghost var times := EntryTimes(minuteDraws);
    ghost var written := ImportRows(filtered, temps, times);
    var i := 0;
    while i < |filtered|
      invariant 0 <= i <= |filtered|
      invariant db.Valid() && db.rows == ReplaceAll(kept, written[..i])
    {
      ImportStep(kept, filtered, temps, times, i);
      WriteRecord(db, filtered, selectedForTemp, minuteDraws, readings, i);
      i := i + 1;
    }
    assert written[..i] == written;
  }

  /** The script, for the records of the dump. */
  method ImportDay(db: Db, data: seq<ImportRecord>, swapDraws: seq<nat>, minuteDraws: seq<nat>, readings: seq<string>)
    requires db.Valid()
    requires ValidDraws(|Filtered(data)|, swapDraws, minuteDraws, readings)
    modifies db
    ensures db.Valid()
    ensures db.rows == ImportTable(old(db.rows), Filtered(data),
      Temperatures(SelectForTemp(Shuffle(|Filtered(data)|, swapDraws)), readings), EntryTimes(minuteDraws))
  {
    var filtered := Filtered(data);
    db.rows := DeleteByEntryDate(db.rows, ImportDate);
    var validIndices := ShuffledIndices(|filtered|, swapDraws);
    var selectedForTemp := SelectForTemp(validIndices[..]);
    WriteRecords(db, filtered, selectedForTemp, minuteDraws, readings);
  }
}
