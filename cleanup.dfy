/** backend/cleanup_today.js: undoes one day's work on the table. It first deletes the
    pallets entered that day, then puts the pallets returned that day back in stock. */
module Cleanup {
  import opened Database

  /** The day the script is written for. */
  const Today := "2026-01-06"

  /** `UPDATE pallets SET status = 'IN_STOCK', return_date = NULL, note = NULL
      WHERE return_date = ?`. */
  function ResetByReturnDate(rows: seq<Pallet>, date: string): seq<Pallet> {
    seq(|rows|, i requires 0 <= i < |rows| =>
      if rows[i].returnDate == Some(date)
      then rows[i].(status := InStock, returnDate := None, note := None)
      else rows[i])
  }

  /** After the reset no row has that `return_date`; each row that had it is
      IN_STOCK with NULL `return_date` and `note` and is otherwise unchanged; every
      other row is untouched; the keys stay. */
  lemma ResetEffect(rows: seq<Pallet>, date: string)
    ensures var r := ResetByReturnDate(rows, date);
      |r| == |rows| && Ids(r) == Ids(rows) && (UniqueIds(rows) ==> UniqueIds(r)) &&
      (forall p :: p in r ==> p.returnDate != Some(date)) &&
      (forall i :: 0 <= i < |rows| && rows[i].returnDate == Some(date) ==>
        r[i].status == InStock && r[i].returnDate == None && r[i].note == None &&
        r[i].(status := rows[i].status, returnDate := rows[i].returnDate, note := rows[i].note) == rows[i]) &&
      (forall i :: 0 <= i < |rows| && rows[i].returnDate != Some(date) ==> r[i] == rows[i])
  {
    SameKeysPointwise(rows, ResetByReturnDate(rows, date));
  }

  /** The table after both statements, in the order the script runs them. */
  function CleanupTable(rows: seq<Pallet>, date: string): seq<Pallet> {
    ResetByReturnDate(DeleteByEntryDate(rows, date), date)
  }

  /** What the cleanup leaves: no row entered or returned on that date; a row entered
      on another date is still there, reset if it was returned on that date and
      unchanged otherwise. Because the delete runs first, a pallet entered and returned
      on that date is gone rather than reset. */
  lemma CleanupEffect(rows: seq<Pallet>, date: string)
    requires UniqueIds(rows)
    ensures var r := CleanupTable(rows, date);
      UniqueIds(r) &&
      (forall p :: p in r ==> p.entryDate != Some(date) && p.returnDate != Some(date)) &&
      (forall p :: p in rows && p.entryDate == Some(date) ==> p.localId !in Ids(r)) &&
      (forall p :: p in rows && p.entryDate != Some(date) && p.returnDate != Some(date) ==> p in r) &&
      (forall p :: p in rows && p.entryDate != Some(date) && p.returnDate == Some(date) ==>
        p.(status := InStock, returnDate := None, note := None) in r)
  {
    var kept := DeleteByEntryDate(rows, date);
    var r := CleanupTable(rows, date);
    ResetEffect(kept, date);
    CleanupClearsDate(rows, date);
    forall p | p in rows && p.entryDate == Some(date) ensures p.localId !in Ids(r) {
      forall q | q in kept ensures q.localId != p.localId {
        if q.localId == p.localId {
          SameIdSameRow(rows, p, q);
        }
      }
    }
    forall p | p in rows && p.entryDate != Some(date)
      ensures p.returnDate != Some(date) ==> p in r
      ensures p.returnDate == Some(date) ==> p.(status := InStock, returnDate := None, note := None) in r
    {
      assert p in kept;
      var i :| 0 <= i < |kept| && kept[i] == p;
      assert r[i] in r;
    }
  }

  /** No row left by the cleanup was entered or returned on that date. */
  lemma CleanupClearsDate(rows: seq<Pallet>, date: string)
    ensures forall p :: p in CleanupTable(rows, date) ==> p.entryDate != Some(date) && p.returnDate != Some(date)
  {
    var kept := DeleteByEntryDate(rows, date);
    var r := CleanupTable(rows, date);
    ResetEffect(kept, date);
    forall p | p in r ensures p.entryDate != Some(date) {
      var i :| 0 <= i < |r| && r[i] == p;
      assert kept[i] in kept;
    }
  }

  /** The reset leaves a table without rows returned on that date as it is. */
  lemma ResetNothing(rows: seq<Pallet>, date: string)
    requires forall p :: p in rows ==> p.returnDate != Some(date)
    ensures ResetByReturnDate(rows, date) == rows
  {
    var r := ResetByReturnDate(rows, date);
    forall i | 0 <= i < |rows| ensures r[i] == rows[i] {
      assert rows[i] in rows;
    }
  }

  /** Running the script a second time changes nothing. */
  lemma CleanupIdempotent(rows: seq<Pallet>, date: string)
    ensures CleanupTable(CleanupTable(rows, date), date) == CleanupTable(rows, date)
  {
    var once := CleanupTable(rows, date);
    CleanupClearsDate(rows, date);
    FilterAll(once, (p: Pallet) => p.entryDate != Some(date));
    assert DeleteByEntryDate(once, date) == once;
    ResetNothing(once, date);
  }

  /** The script: the delete, then the reset, for `Today`. */
  method CleanupToday(db: Db)
    requires db.Valid()
    modifies db
    ensures db.Valid()
    ensures db.rows == CleanupTable(old(db.rows), Today)
  {
    db.rows := DeleteByEntryDate(db.rows, Today);
    ResetEffect(db.rows, Today);
    db.rows := ResetByReturnDate(db.rows, Today);
  }
}
