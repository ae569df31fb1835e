/**
 The enqueue-only backfill features (mismatch, embedding): each tick scans the next rows above the cursor, enqueues
 one job for each, then moves the cursor to the last row of the page.
 */
module SyncFeatures {
  import opened Wrappers
  import opened AiTables
  import opened AiRuns
  import C = AiCursorSafety
  import R = CursorResume

  /** The rows of the corpus at or below a cursor. */
  function RowsPassed(rows: seq<RowId>): R.Passed<Option<RowId>> {
    (cursor: Option<RowId>) => set r | r in rows && AtOrBelow(r, cursor)
  }

  /** A poll is a keyset scan that returned something; an empty scan ends the tick before any step. */
  ghost predicate IsScan(rows: seq<RowId>, size: nat, s: R.System<Option<RowId>>, step: R.Step<Option<RowId>>) {
    step.Poll? && step.p in s.running && s.running[step.p].Ready? ==>
      var page := Page(rows, s.running[step.p].cursor, size);
      page != [] && step.items == page && step.next == Some(page[|page| - 1])
  }

  ghost predicate AllScans(rows: seq<RowId>, size: nat, s: R.System<Option<RowId>>, steps: seq<R.Step<Option<RowId>>>)
    decreases |steps|
  {
    steps == [] || (IsScan(rows, size, s, steps[0]) && AllScans(rows, size, R.Next(s, steps[0]), steps[1..]))
  }

  lemma PassedMeans(rows: seq<RowId>, cursor: Option<RowId>, r: RowId)
    ensures r in RowsPassed(rows)(cursor) <==> r in rows && AtOrBelow(r, cursor)
  {
  }

  /** The rows of a page are the rows above the cursor up to its last one. */
  lemma PageIsUpToItsLast(rows: seq<RowId>, cursor: Option<RowId>, size: nat, r: RowId)
    requires Ascending(rows) && Page(rows, cursor, size) != []
    ensures var page := Page(rows, cursor, size);
            r in page <==> r in rows && !AtOrBelow(r, cursor) && r <= page[|page| - 1]
    ensures var page := Page(rows, cursor, size); !AtOrBelow(page[|page| - 1], cursor)
  {
    C.AboveFacts(rows, cursor);
    var above, page := Above(rows, cursor), Page(rows, cursor, size);
    assert forall i :: 0 <= i < |page| ==> page[i] == above[i] && page[i] in page;
    assert page[|page| - 1] in above;
    if r in page {
      var i :| 0 <= i < |page| && page[i] == r;
      assert above[i] in above;
    } else if r in above {
      var i :| 0 <= i < |above| && above[i] == r;
      assert i >= |page|;
    }
  }

  /** A page passes exactly its own rows. */
  lemma PagePassesItsRows(rows: seq<RowId>, cursor: Option<RowId>, size: nat)
    requires Ascending(rows) && Page(rows, cursor, size) != []
    ensures var page := Page(rows, cursor, size);
            RowsPassed(rows)(Some(page[|page| - 1])) == RowsPassed(rows)(cursor) + R.Elements(page)
  {
    var page := Page(rows, cursor, size);
    var last := page[|page| - 1];
    forall r ensures r in RowsPassed(rows)(Some(last)) <==> r in RowsPassed(rows)(cursor) + R.Elements(page) {
      PageIsUpToItsLast(rows, cursor, size, r);
      assert r in R.Elements(page) <==> r in page;
      PassedMeans(rows, cursor, r);
      PassedMeans(rows, Some(last), r);
    }
  }

  lemma {:induction false} ScansAreHonest(rows: seq<RowId>, size: nat, s: R.System<Option<RowId>>,
                                          steps: seq<R.Step<Option<RowId>>>)
    requires Ascending(rows) && AllScans(rows, size, s, steps)
    ensures R.AllHonest(RowsPassed(rows), s, steps)
    decreases |steps|
  {
    if steps != [] {
      var step := steps[0];
      if step.Poll? && step.p in s.running && s.running[step.p].Ready? {
        PagePassesItsRows(rows, s.running[step.p].cursor, size);
      }
      ScansAreHonest(rows, size, R.Next(s, step), steps[1..]);
    }
  }

  /**
   Across crashes and overlapping ticks, every row at or below the stored cursor has been enqueued, so a scan that
   comes back empty means every row has been.
   */
  lemma EveryPassedRowIsEnqueued(rows: seq<RowId>, size: nat, steps: seq<R.Step<Option<RowId>>>)
    requires Ascending(rows) && AllScans(rows, size, R.System({}, None, map[]), steps)
    ensures var s := R.Run(R.System({}, None, map[]), steps);
            && (forall r :: r in rows && AtOrBelow(r, s.stored) ==> r in s.delivered)
            && (size > 0 && Page(rows, s.stored, size) == [] ==> forall r :: r in rows ==> r in s.delivered)
  {
    var start: R.System<Option<RowId>> := R.System({}, None, map[]);
    var s := R.Run(start, steps);
    ScansAreHonest(rows, size, start, steps);
    R.NothingIsEverMissed(RowsPassed(rows), start, steps);
    assert forall r :: r in rows && AtOrBelow(r, s.stored) ==> r in RowsPassed(rows)(s.stored);
    C.AboveFacts(rows, s.stored);
  }
}
