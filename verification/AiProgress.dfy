/**
 The backfill's termination measure: first the corpus rows above the cursor, then the corpus rows without
 an output. With one backfill driver and drains that do not overlap, no step ever raises either, the events that
 lower them are known, and over a run they are bounded by the corpus. Without that a cursor move lowers the rows
 above exactly when its position is still ahead, and a run of two drains at once breaks the bound.
 */
module AiProgress {
  import opened Wrappers
  import opened AiTables
  import opened AiRuns
  import opened AiCost
  import opened AiCursorSafety

  const BACKFILL: WorkerId := 0

  /** Only the backfill driver reads the cursor; live drivers select their own candidates. */
  ghost predicate OneBackfill(step: Step) {
    step.ReadCursor? ==> step.w == BACKFILL
  }

  ghost predicate Ahead(c: Corpus, cursor: Option<RowId>, pending: Option<RowId>) {
    pending.Some? ==> pending.value in c.rows && !AtOrBelow(pending.value, cursor)
  }

  /** The worker is taking a backfill page from the cursor to a recorded batch. */
  predicate Walking(worker: Worker) {
    worker.AtCursor? || (worker.Building? && worker.pending.Some?) || (worker.Submitted? && worker.pending.Some?)
  }

  ghost predicate WorkerAhead(c: Corpus, t: Tables, worker: Worker) {
    match worker
    case AtCursor(from) => from == t.cursor
    case Building(pending, _, _, _) => Ahead(c, t.cursor, pending)
    case Submitted(pending, _) => Ahead(c, t.cursor, pending)
    case Polling(b) => b in t.open
    case Draining(b, _) => b in t.open
    case _ => true
  }

  ghost predicate NoneWaiting(open: seq<Batch>) {
    forall b :: b in open ==> b.pending.None?
  }

  /** At most one backfill batch is open, and none while the next page is on its way. */
  ghost predicate OneAhead(c: Corpus, s: State) {
    && (forall b :: b in s.t.open ==> Ahead(c, s.t.cursor, b.pending))
    && (forall b, b' :: b in s.t.open && b' in s.t.open && b.pending.Some? && b'.pending.Some? ==> b == b')
    && (forall b, b' :: b in s.t.open && b' in s.t.open && b.id == b'.id ==> b == b')
    && (forall w :: w in s.workers ==> WorkerAhead(c, s.t, s.workers[w]))
    && (forall w :: w in s.workers && Walking(s.workers[w]) ==> w == BACKFILL)
    && (Walking(At(s, BACKFILL)) || At(s, BACKFILL).Free? ==> NoneWaiting(s.t.open))
  }

  ghost predicate FreshId(s: State, step: Step) {
    step.Record? ==> forall b :: b in s.t.open ==> b.id != step.id
  }

  // ---- The measure ----

  function RowsAbove(c: Corpus, t: Tables): nat {
    |Above(c.rows, t.cursor)|
  }

  /** Rows whose need has not been answered by an output. */
  function Missing(c: Corpus, t: Tables): set<RowId>
    requires forall r :: r in c.rows ==> r in c.need
  {
    set r | r in c.rows && !c.need[r].Nothing? && c.need[r].key !in t.outputs
  }

  /** The events that move the cursor: a page with nothing to submit, and a complete drain of a backfill batch. */
  ghost predicate MovesCursor(s: State, step: Step) {
    var worker := At(s, step.w);
    || (step.Finish? && worker.Building? && worker.next >= |worker.page| && worker.items == [] && worker.pending.Some?)
    || (step.Drain? && worker.Draining? && worker.batch.pending.Some? && Complete(worker.batch, worker.results))
  }

  /** Where a cursor move puts the cursor. */
  ghost function Target(s: State, step: Step): RowId
    requires MovesCursor(s, step)
  {
    if step.Drain? then At(s, step.w).batch.pending.value else At(s, step.w).pending.value
  }

  lemma {:induction false} AboveShrinks(rows: seq<RowId>, cursor: Option<RowId>, p: RowId)
    requires Ascending(rows) && p in rows && !AtOrBelow(p, cursor)
    ensures |Above(rows, Some(p))| < |Above(rows, cursor)|
  {
    assert rows == [rows[0]] + rows[1..];
    if rows[0] == p {
      AboveNotLonger(rows[1..], cursor, p);
    } else {
      AboveShrinks(rows[1..], cursor, p);
    }
  }

  lemma {:induction false} AboveNotLonger(rows: seq<RowId>, cursor: Option<RowId>, p: RowId)
    requires Ascending(rows) && !AtOrBelow(p, cursor)
    ensures |Above(rows, Some(p))| <= |Above(rows, cursor)|
  {
    if rows != [] {
      AboveNotLonger(rows[1..], cursor, p);
    }
  }

  lemma {:induction false} AboveNotShorter(rows: seq<RowId>, cursor: Option<RowId>, p: RowId)
    requires AtOrBelow(p, cursor)
    ensures |Above(rows, Some(p))| >= |Above(rows, cursor)|
  {
    if rows != [] {
      AboveNotShorter(rows[1..], cursor, p);
    }
  }

  lemma DrainStaysAhead(c: Corpus, s: State, w: WorkerId)
    requires ValidCorpus(c) && OneAhead(c, s) && Exclusive(s) && At(s, w).Draining?
    ensures OneAhead(c, Apply(c, s, Drain(w)))
  {
    var b, s' := At(s, w).batch, Apply(c, s, Drain(w));
    PersistAllFrame(s.t, b, At(s, w).results);
    WithoutBatchFacts(s.t.open, b.id);
    assert InDrain(At(s, w)) && WorkerAhead(c, s.t, s.workers[w]);
    forall x | x in s'.workers ensures WorkerAhead(c, s'.t, s'.workers[x]) && !InDrain(s'.workers[x]) {
      assert x == w || s'.workers[x] == At(s, x);
    }
  }

  lemma PageIsAhead(c: Corpus, from: Option<RowId>, size: nat)
    requires ValidCorpus(c) && Page(c.rows, from, size) != []
    ensures var page := Page(c.rows, from, size); Ahead(c, from, Some(page[|page| - 1]))
  {
    AboveFacts(c.rows, from);
    var page := Page(c.rows, from, size);
    assert page[|page| - 1] in Above(c.rows, from);
  }

  lemma MemoryStepStaysAhead(c: Corpus, s: State, w: WorkerId, worker: Worker, t': Tables)
    requires OneAhead(c, s) && t'.open == s.t.open && t'.cursor == s.t.cursor && WorkerAhead(c, t', worker)
    requires Walking(worker) ==> w == BACKFILL
    requires w == BACKFILL && (Walking(worker) || worker.Free?) ==> NoneWaiting(s.t.open)
    ensures OneAhead(c, State(t', s.workers[w := worker]))
  {
    forall x | x in s.workers && x != w ensures WorkerAhead(c, t', s.workers[x]) {
    }
  }

  lemma CursorStepStaysAhead(c: Corpus, s: State, w: WorkerId, cursor: Option<RowId>)
    requires OneAhead(c, s) && w == BACKFILL && NoneWaiting(s.t.open)
    ensures OneAhead(c, State(s.t.(cursor := cursor), s.workers[w := Idle]))
  {
    var s' := State(s.t.(cursor := cursor), s.workers[w := Idle]);
    forall x | x in s'.workers ensures WorkerAhead(c, s'.t, s'.workers[x]) {
    }
  }

  lemma RecordStaysAhead(c: Corpus, s: State, w: WorkerId, id: BatchId)
    requires OneAhead(c, s) && At(s, w).Submitted? && FreshId(s, Record(w, id))
    ensures OneAhead(c, Apply(c, s, Record(w, id)))
  {
    var b, s' := Batch(id, At(s, w).items, At(s, w).pending), Apply(c, s, Record(w, id));
    assert forall o :: o in s'.t.open <==> o in s.t.open || o == b;
    assert WorkerAhead(c, s.t, s.workers[w]);
    forall x | x in s'.workers ensures WorkerAhead(c, s'.t, s'.workers[x]) {
    }
  }

  lemma StepStaysAhead(c: Corpus, s: State, step: Step)
    requires ValidCorpus(c) && OneAhead(c, s) && Exclusive(s) && OneBackfill(step) && FreshId(s, step)
    ensures OneAhead(c, Apply(c, s, step))
  {
    var w, worker, s' := step.w, At(s, step.w), Apply(c, s, step);
    assert WorkerAhead(c, s.t, worker);
    if s' == s {
    } else if step.Drain? {
      DrainStaysAhead(c, s, w);
    } else if step.Record? {
      RecordStaysAhead(c, s, w, step.id);
    } else if step.Finish? && worker.items == [] && worker.pending.Some? {
      CursorStepStaysAhead(c, s, w, worker.pending);
    } else {
      if step.Scan? && Page(c.rows, worker.from, step.size) != [] {
        PageIsAhead(c, worker.from, step.size);
      }
      MemoryStepStaysAhead(c, s, w, s'.workers[w], s'.t);
    }
  }

  /**
   With one backfill driver and drains that do not overlap, the cursor never moves back, and moves exactly on those
   two events: the rows above it then strictly shrink, and otherwise it is untouched.
   */
  lemma CursorMovesExactlyWhen(c: Corpus, s: State, step: Step)
    requires ValidCorpus(c) && OneAhead(c, s) && Exclusive(s)
    ensures var t' := Apply(c, s, step).t;
            && (MovesCursor(s, step) ==> RowsAbove(c, t') < RowsAbove(c, s.t))
            && (!MovesCursor(s, step) ==> t'.cursor == s.t.cursor)
  {
    var worker := At(s, step.w);
    if step.Drain? && worker.Draining? {
      PersistAllFrame(s.t, worker.batch, worker.results);
    }
    if MovesCursor(s, step) {
      assert WorkerAhead(c, s.t, worker);
      var p := if step.Drain? then worker.batch.pending.value else worker.pending.value;
      AboveShrinks(c.rows, s.t.cursor, p);
    }
  }

  /** A drain answers a new row exactly when it brings a valid result for a key that has no output yet. */
  lemma MissingShrinksExactlyWhen(c: Corpus, s: State, w: WorkerId)
    requires ValidCorpus(c) && At(s, w).Draining?
    ensures var b, results := At(s, w).batch, At(s, w).results;
            var before, after := Missing(c, s.t), Missing(c, Apply(c, s, Drain(w)).t);
            && after <= before
            && (after < before <==> exists m :: m in before && AnswersSome(b, results, c.need[m].key))
  {
    var b, results := At(s, w).batch, At(s, w).results;
    var t' := Apply(c, s, Drain(w)).t;
    var before, after := Missing(c, s.t), Missing(c, t');
    forall m | m in before ensures m !in after <==> AnswersSome(b, results, c.need[m].key) {
      OutputsAfter(s.t, b, results, c.need[m].key);
    }
    PersistAllFrame(s.t, b, results);
    if m :| m in before && AnswersSome(b, results, c.need[m].key) {
      assert m !in after;
    } else {
      assert after == before;
    }
  }

  // ---- Every step ----

  ghost predicate FromCorpus(c: Corpus, pending: Option<RowId>, items: seq<Item>) {
    pending.Some? ==> pending.value in c.rows && forall i :: i in items ==> i.row in c.rows
  }

  ghost predicate WorkerBacked(c: Corpus, worker: Worker) {
    match worker
    case Polling(b) => FromCorpus(c, b.pending, b.items)
    case Draining(b, _) => FromCorpus(c, b.pending, b.items)
    case Building(pending, page, _, items) =>
      FromCorpus(c, pending, items) && (pending.Some? ==> forall r :: r in page ==> r in c.rows)
    case Submitted(pending, items) => FromCorpus(c, pending, items)
    case _ => true
  }

  /** Whatever carries a backfill position carries corpus rows only. */
  ghost predicate Backed(c: Corpus, s: State) {
    && (forall b :: b in s.t.open ==> FromCorpus(c, b.pending, b.items))
    && (forall w :: w in s.workers ==> WorkerBacked(c, s.workers[w]))
  }

  lemma PutBacked(c: Corpus, s: State, t': Tables, w: WorkerId, worker: Worker)
    requires Backed(c, s) && WorkerBacked(c, worker)
    requires forall b :: b in t'.open ==> b in s.t.open || FromCorpus(c, b.pending, b.items)
    ensures Backed(c, State(t', s.workers[w := worker]))
  {
  }

  lemma PageIsBacked(c: Corpus, from: Option<RowId>, size: nat)
    requires ValidCorpus(c)
    ensures var page := Page(c.rows, from, size);
            page != [] ==> WorkerBacked(c, Building(Some(page[|page| - 1]), page, 0, []))
  {
    AboveFacts(c.rows, from);
    var page := Page(c.rows, from, size);
    assert page != [] ==> page[|page| - 1] in page;
  }

  lemma StepKeepsBacked(c: Corpus, s: State, step: Step)
    requires ValidCorpus(c) && Backed(c, s)
    ensures Backed(c, Apply(c, s, step))
  {
    var w, worker, s' := step.w, At(s, step.w), Apply(c, s, step);
    assert WorkerBacked(c, worker);
    if s' != s {
      if step.Poll? && s.t.open != [] {
        assert s.t.open[0] in s.t.open;
      } else if step.Scan? {
        PageIsBacked(c, worker.from, step.size);
        assert WorkerBacked(c, s'.workers[w]);
      } else if step.Drain? {
        PersistAllFrame(s.t, worker.batch, worker.results);
        WithoutBatchFacts(s.t.open, worker.batch.id);
      } else if step.Build? {
        assert worker.page[worker.next] in worker.page;
      }
      PutBacked(c, s, s'.t, w, s'.workers[w]);
    }
  }

  lemma {:induction false} RunKeepsBacked(c: Corpus, steps: seq<Step>)
    requires ValidCorpus(c)
    ensures Backed(c, Run(c, START, steps))
    decreases |steps|
  {
    if steps != [] {
      RunKeepsBacked(c, steps[..|steps| - 1]);
      StepKeepsBacked(c, Run(c, START, steps[..|steps| - 1]), steps[|steps| - 1]);
    }
  }

  /**
   In any run, with any drivers and overlaps: a cursor move puts the cursor on a corpus row, and the rows above it
   fall exactly when that row is still ahead of the stored cursor at the commit.
   */
  lemma CursorAdvancesExactlyWhenAhead(c: Corpus, steps: seq<Step>, step: Step)
    requires ValidCorpus(c) && MovesCursor(Run(c, START, steps), step)
    ensures var s := Run(c, START, steps);
            var p, t' := Target(s, step), Apply(c, s, step).t;
            && p in c.rows && t'.cursor == Some(p)
            && (RowsAbove(c, t') < RowsAbove(c, s.t) <==> !AtOrBelow(p, s.t.cursor))
  {
    var s := Run(c, START, steps);
    var worker, p := At(s, step.w), Target(s, step);
    RunKeepsBacked(c, steps);
    assert WorkerBacked(c, s.workers[step.w]);
    if AtOrBelow(p, s.t.cursor) {
      AboveNotShorter(c.rows, s.t.cursor, p);
    } else {
      AboveShrinks(c.rows, s.t.cursor, p);
    }
  }

  /** A backfill drain that brings a valid result for an item whose key has no output yet. */
  ghost predicate Productive(s: State, step: Step) {
    var worker := At(s, step.w);
    step.Drain? && worker.Draining? && worker.batch.pending.Some? &&
    exists r :: r in worker.results && r.valid && Descriptor(worker.batch.items, r.row).Some? &&
                Descriptor(worker.batch.items, r.row).value.key !in s.t.outputs
  }

  lemma ProductiveShrinksMissing(c: Corpus, s: State, step: Step)
    requires ValidCorpus(c) && Safe(c, s) && Backed(c, s) && Productive(s, step)
    ensures Missing(c, Apply(c, s, step).t) < Missing(c, s.t)
  {
    var b, results := At(s, step.w).batch, At(s, step.w).results;
    assert WorkerSafe(c, s.t, s.workers[step.w]) && WorkerBacked(c, s.workers[step.w]);
    var r :| r in results && r.valid && Descriptor(b.items, r.row).Some? &&
             Descriptor(b.items, r.row).value.key !in s.t.outputs;
    var item := Descriptor(b.items, r.row).value;
    assert item in b.items && c.need[item.row] == Ask(item.key);
    assert Answers(b, r, item.key);
    MissingShrinksExactlyWhen(c, s, step.w);
    assert item.row in Missing(c, s.t) && AnswersSome(b, results, c.need[item.row].key);
  }

  /** No step of any worker makes a row's answer go missing again. */
  lemma MissingNeverGrows(c: Corpus, s: State, step: Step)
    requires ValidCorpus(c)
    ensures Missing(c, Apply(c, s, step).t) <= Missing(c, s.t)
  {
    var worker := At(s, step.w);
    if step.Drain? && worker.Draining? {
      PersistAllFrame(s.t, worker.batch, worker.results);
    }
  }

  /**
   With one backfill driver and drains that do not overlap, the measure falls lexicographically on every cursor move
   and every productive drain, and neither part ever rises: a cursor move lowers the rows above the cursor; a productive drain that does not move the cursor leaves
   those alone and lowers the rows without an output.
   */
  lemma MeasureFalls(c: Corpus, s: State, step: Step)
    requires ValidCorpus(c) && OneAhead(c, s) && Exclusive(s) && Safe(c, s) && Backed(c, s)
    ensures var t' := Apply(c, s, step).t;
            && RowsAbove(c, t') <= RowsAbove(c, s.t) && Missing(c, t') <= Missing(c, s.t)
            && (MovesCursor(s, step) ==> RowsAbove(c, t') < RowsAbove(c, s.t))
            && (Productive(s, step) && !MovesCursor(s, step) ==>
                 RowsAbove(c, t') == RowsAbove(c, s.t) && Missing(c, t') < Missing(c, s.t))
  {
    CursorMovesExactlyWhen(c, s, step);
    MissingNeverGrows(c, s, step);
    if Productive(s, step) {
      ProductiveShrinksMissing(c, s, step);
    }
  }

  // ---- Whole runs ----

  /** One backfill driver, drains that do not overlap, and generated ids that are new. */
  ghost predicate Orderly(c: Corpus, steps: seq<Step>)
    decreases |steps|
  {
    Exclusive(Run(c, START, steps))
    && (steps == [] ||
        var init, last := steps[..|steps| - 1], steps[|steps| - 1];
        Orderly(c, init) && OneBackfill(last) && FreshId(Run(c, START, init), last))
  }

  ghost function CursorMoves(c: Corpus, steps: seq<Step>): nat
    decreases |steps|
  {
    if steps == [] then 0
    else
      var init := steps[..|steps| - 1];
      CursorMoves(c, init) + if MovesCursor(Run(c, START, init), steps[|steps| - 1]) then 1 else 0
  }

  /** Cached pages and complete drains together can happen at most once per corpus row, over any orderly run. */
  lemma {:induction false} CursorMovesAreBounded(c: Corpus, steps: seq<Step>)
    requires ValidCorpus(c) && Orderly(c, steps)
    ensures OneAhead(c, Run(c, START, steps))
    ensures CursorMoves(c, steps) + RowsAbove(c, Run(c, START, steps).t) <= |c.rows|
    decreases |steps|
  {
    if steps == [] {
      AboveNothing(c.rows);
    } else {
      var init, last := steps[..|steps| - 1], steps[|steps| - 1];
      CursorMovesAreBounded(c, init);
      StepStaysAhead(c, Run(c, START, init), last);
      CursorMovesExactlyWhen(c, Run(c, START, init), last);
    }
  }

  ghost function ProductiveDrains(c: Corpus, steps: seq<Step>): nat
    decreases |steps|
  {
    if steps == [] then 0
    else
      var init := steps[..|steps| - 1];
      ProductiveDrains(c, init) + if Productive(Run(c, START, init), steps[|steps| - 1]) then 1 else 0
  }

  lemma SmallerSet<T>(a: set<T>, b: set<T>)
    requires a <= b
    ensures |a| <= |b| && (a < b ==> |a| < |b|)
  {
    assert |b - a| + |a| == |b - a + a| && b - a + a == b;
    if a < b {
      var x :| x in b && x !in a;
      assert x in b - a;
    }
  }

  /** Each productive drain answers a row for good: over any run at all there are at most as many as rows to answer. */
  lemma {:induction false} ProductiveDrainsAreBounded(c: Corpus, steps: seq<Step>)
    requires ValidCorpus(c)
    ensures ProductiveDrains(c, steps) + |Missing(c, Run(c, START, steps).t)| <= |Missing(c, START.t)|
    decreases |steps|
  {
    if steps != [] {
      var init, last := steps[..|steps| - 1], steps[|steps| - 1];
      var s := Run(c, START, init);
      ProductiveDrainsAreBounded(c, init);
      RunKeepsBacked(c, init);
      MissingNeverGrows(c, s, last);
      SmallerSet(Missing(c, Apply(c, s, last).t), Missing(c, s.t));
      if Productive(s, last) {
        CursorNeverPassesARow(c, init);
        ProductiveShrinksMissing(c, s, last);
      }
    }
  }

  /** Over an orderly run the backfill makes progress a bounded number of times before nothing is left to do. */
  lemma ProgressIsBounded(c: Corpus, steps: seq<Step>)
    requires ValidCorpus(c) && Orderly(c, steps)
    ensures CursorMoves(c, steps) + ProductiveDrains(c, steps) <= |c.rows| + |Missing(c, START.t)|
  {
    CursorMovesAreBounded(c, steps);
    ProductiveDrainsAreBounded(c, steps);
  }

  lemma MovesSnoc(c: Corpus, steps: seq<Step>, last: Step)
    ensures CursorMoves(c, steps + [last]) ==
            CursorMoves(c, steps) + if MovesCursor(Run(c, START, steps), last) then 1 else 0
  {
    assert (steps + [last])[..|steps + [last]| - 1] == steps;
  }

  /** When two workers drain at once, both commits move the cursor: two moves over a corpus of one row. */
  lemma OverlappingDrainsBreakTheBound(row: RowId, key: CacheKey, cost: nat, id: BatchId)
    ensures var c := Corpus([row], map[row := Ask(key)]);
            CursorMoves(c, TwoDrains(row, cost, id)) > |c.rows|
  {
    var c, before := Corpus([row], map[row := Ask(key)]), Submitting(id) + Fetching(row, cost);
    var b, result := Batch(id, [Item(row, key)], Some(row)), ItemResult(row, true, cost);
    BothDraining(c, row, key, cost, id);
    RunSnoc(c, START, before, Drain(0));
    assert result in [result] && Complete(b, [result]);
    assert At(Run(c, START, before + [Drain(0)]), 1) == Draining(b, [result]);
    MovesSnoc(c, before, Drain(0));
    MovesSnoc(c, before + [Drain(0)], Drain(1));
  }

  lemma {:induction false} AboveNothing(rows: seq<RowId>)
    ensures Above(rows, None) == rows
  {
    if rows != [] {
      AboveNothing(rows[1..]);
    }
  }

  /** The backfill stops only when nothing is left: an empty page means every corpus row is settled. */
  lemma EmptyPageMeansSettled(c: Corpus, steps: seq<Step>, size: nat)
    requires ValidCorpus(c) && size > 0
    requires var t := Run(c, START, steps).t; Page(c.rows, t.cursor, size) == []
    ensures forall r :: r in c.rows ==> Settled(c, Run(c, START, steps).t, r)
  {
    CursorNeverPassesARow(c, steps);
    AboveFacts(c.rows, Run(c, START, steps).t.cursor);
  }
}
