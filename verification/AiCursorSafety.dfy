/**
 Cursor safety: however workers interleave, crash, and even drain the same batch twice, a row at or below
 the backfill cursor has been settled. No row is silently passed.
 */
module AiCursorSafety {
  import opened Wrappers
  import opened AiTables
  import opened AiRuns

  /** The row needs no item, or its result was persisted as an output or a dead letter. */
  predicate Settled(c: Corpus, t: Tables, r: RowId)
    requires r in c.need
  {
    match c.need[r]
    case Nothing => true
    case Inline(key) => key in t.outputs
    case Ask(key) => key in t.outputs || key in t.deadLetters
  }

  predicate Carries(c: Corpus, items: seq<Item>, r: RowId)
    requires r in c.need
  {
    c.need[r].Ask? && Item(r, c.need[r].key) in items
  }

  /** Every corpus row up to the bound is settled, or on its way in items, or still waiting in rest. */
  ghost predicate Accounted(c: Corpus, t: Tables, bound: Option<RowId>, items: seq<Item>, rest: seq<RowId>) {
    forall r :: r in c.rows && AtOrBelow(r, bound) ==>
      r in c.need && (Settled(c, t, r) || Carries(c, items, r) || r in rest)
  }

  ghost predicate Keyed(c: Corpus, items: seq<Item>) {
    forall i :: i in items ==> i.row in c.need && c.need[i.row] == Ask(i.key)
  }

  ghost predicate BatchSafe(c: Corpus, t: Tables, b: Batch) {
    Keyed(c, b.items) && Accounted(c, t, b.pending, b.items, [])
  }

  ghost predicate WorkerSafe(c: Corpus, t: Tables, worker: Worker) {
    match worker
    case Idle => true
    case Free => true
    case Polling(b) => BatchSafe(c, t, b)
    case Draining(b, _) => BatchSafe(c, t, b)
    case AtCursor(from) => Accounted(c, t, from, [], [])
    case Building(pending, page, next, items) =>
      next <= |page| && Keyed(c, items) && Accounted(c, t, pending, items, page[next..])
    case Submitted(pending, items) => Keyed(c, items) && Accounted(c, t, pending, items, [])
  }

  ghost predicate Safe(c: Corpus, s: State) {
    && Accounted(c, s.t, s.t.cursor, [], [])
    && (forall b :: b in s.t.open ==> BatchSafe(c, s.t, b))
    && (forall w :: w in s.workers ==> WorkerSafe(c, s.t, s.workers[w]))
  }

  /** Outputs and dead letters are only ever added. */
  predicate Grows(t: Tables, t': Tables) {
    t.outputs <= t'.outputs && t.deadLetters <= t'.deadLetters
  }

  lemma WorkerStaysSafe(c: Corpus, t: Tables, t': Tables, worker: Worker)
    requires WorkerSafe(c, t, worker) && Grows(t, t')
    ensures WorkerSafe(c, t', worker)
  {
  }

  lemma {:induction false} AboveHolds(rows: seq<RowId>, cursor: Option<RowId>, r: RowId)
    ensures r in Above(rows, cursor) <==> r in rows && !AtOrBelow(r, cursor)
  {
    if rows != [] {
      AboveHolds(rows[1..], cursor, r);
      assert r in rows <==> r == rows[0] || r in rows[1..];
    }
  }

  lemma {:induction false} AboveAscends(rows: seq<RowId>, cursor: Option<RowId>)
    requires Ascending(rows)
    ensures Ascending(Above(rows, cursor))
  {
    if rows != [] {
      var rest := Above(rows[1..], cursor);
      AboveAscends(rows[1..], cursor);
      forall j | 0 <= j < |rest| ensures rows[0] < rest[j] {
        AboveHolds(rows[1..], cursor, rest[j]);
      }
    }
  }

  lemma AboveFacts(rows: seq<RowId>, cursor: Option<RowId>)
    requires Ascending(rows)
    ensures Ascending(Above(rows, cursor))
    ensures forall r :: r in Above(rows, cursor) <==> r in rows && !AtOrBelow(r, cursor)
  {
    AboveAscends(rows, cursor);
    forall r ensures r in Above(rows, cursor) <==> r in rows && !AtOrBelow(r, cursor) {
      AboveHolds(rows, cursor, r);
    }
  }

  /** A page is the next rows above the cursor, in order: at most size of them, and none smaller is left out. */
  lemma PageIsTheNextRows(rows: seq<RowId>, cursor: Option<RowId>, size: nat)
    requires Ascending(rows)
    ensures var page := Page(rows, cursor, size);
            && |page| <= size
            && (forall i, j :: 0 <= i < j < |page| ==> page[i] < page[j])
            && (forall r :: r in page ==> r in rows && (cursor.Some? ==> r > cursor.value))
            && (forall r :: r in rows && (cursor.Some? ==> r > cursor.value) && r !in page ==>
                 |page| == size && forall p :: p in page ==> p < r)
  {
    AboveFacts(rows, cursor);
    var above, page := Above(rows, cursor), Page(rows, cursor, size);
    assert forall i :: 0 <= i < |page| ==> page[i] == above[i] && page[i] in page && above[i] in above;
    forall r | r in rows && (cursor.Some? ==> r > cursor.value) && r !in page
      ensures |page| == size && forall p :: p in page ==> p < r
    {
      assert r in above;
      var k :| 0 <= k < |above| && above[k] == r;
      assert k >= |page|;
    }
  }

  /** A page leaves no gap between the cursor and its own last row. */
  lemma PageLeavesNoGap(c: Corpus, t: Tables, from: Option<RowId>, size: nat)
    requires ValidCorpus(c) && Accounted(c, t, from, [], [])
    requires Page(c.rows, from, size) != []
    ensures var page := Page(c.rows, from, size); Accounted(c, t, Some(page[|page| - 1]), [], page)
  {
    AboveFacts(c.rows, from);
    var above, page := Above(c.rows, from), Page(c.rows, from, size);
    forall r | r in c.rows && r <= page[|page| - 1] && !AtOrBelow(r, from) ensures r in page {
      var i :| 0 <= i < |above| && above[i] == r;
      assert i < |page|;
      assert page[i] == r;
    }
  }

  lemma BuildRowKeeps(c: Corpus, t: Tables, pending: Option<RowId>, items: seq<Item>, rest: seq<RowId>)
    requires rest != [] && rest[0] in c.need && Keyed(c, items) && Accounted(c, t, pending, items, rest)
    ensures var (t', items') := BuildRow(c, t, items, rest[0]);
            Grows(t, t') && Keyed(c, items') && Accounted(c, t', pending, items', rest[1..])
  {
    var (t', items') := BuildRow(c, t, items, rest[0]);
    assert rest == [rest[0]] + rest[1..];
    forall r | r in c.rows && AtOrBelow(r, pending)
      ensures Settled(c, t', r) || Carries(c, items', r) || r in rest[1..]
    {
      assert Settled(c, t, r) || Carries(c, items, r) || r in rest;
    }
  }

  lemma DrainKeeps(c: Corpus, t: Tables, b: Batch, results: seq<ItemResult>)
    requires BatchSafe(c, t, b) && Accounted(c, t, t.cursor, [], [])
    ensures var t' := Commit(t, b, results); Grows(t, t') && Accounted(c, t', t'.cursor, [], [])
  {
    PersistAllFrame(t, b, results);
    var t' := Commit(t, b, results);
    if b.pending.Some? && Complete(b, results) {
      forall r | r in c.rows && AtOrBelow(r, b.pending) ensures Settled(c, t', r) {
        if Carries(c, b.items, r) {
          ReturnedIsPersisted(t, b, results, Item(r, c.need[r].key));
        }
      }
    }
  }

  lemma OthersStaySafe(c: Corpus, s: State, t': Tables, w: WorkerId, worker: Worker)
    requires Safe(c, s) && Grows(s.t, t') && Accounted(c, t', t'.cursor, [], []) && WorkerSafe(c, t', worker)
    requires forall b :: b in t'.open ==> b in s.t.open || BatchSafe(c, t', b)
    ensures Safe(c, State(t', s.workers[w := worker]))
  {
    forall x | x in s.workers && x != w ensures WorkerSafe(c, t', s.workers[x]) {
      WorkerStaysSafe(c, s.t, t', s.workers[x]);
    }
  }

  lemma BuildKeepsSafe(c: Corpus, s: State, w: WorkerId)
    requires ValidCorpus(c) && Safe(c, s)
    ensures Safe(c, Apply(c, s, Build(w)))
  {
    var worker, s' := At(s, w), Apply(c, s, Build(w));
    assert WorkerSafe(c, s.t, worker);
    if worker.Building? && worker.next < |worker.page| {
      var rest := worker.page[worker.next..];
      assert rest[1..] == worker.page[worker.next + 1..];
      if rest[0] in c.need {
        BuildRowKeeps(c, s.t, worker.pending, worker.items, rest);
      } else {
        assert rest == [rest[0]] + rest[1..];
      }
      OthersStaySafe(c, s, s'.t, w, s'.workers[w]);
    }
  }

  lemma StepKeepsSafe(c: Corpus, s: State, step: Step)
    requires ValidCorpus(c) && Safe(c, s)
    ensures Safe(c, Apply(c, s, step))
  {
    var w, worker := step.w, At(s, step.w);
    assert WorkerSafe(c, s.t, worker);
    var s' := Apply(c, s, step);
    match step
    case Poll(_) =>
    case Fetch(_, _, _) =>
    case Drain(_) =>
      if worker.Draining? {
        DrainKeeps(c, s.t, worker.batch, worker.results);
        PersistAllFrame(s.t, worker.batch, worker.results);
        WithoutBatchFacts(s.t.open, worker.batch.id);
        OthersStaySafe(c, s, s'.t, w, Idle);
      }
    case ReadCursor(_) =>
    case Scan(_, size) =>
      if worker.AtCursor? && Page(c.rows, worker.from, size) != [] {
        PageLeavesNoGap(c, s.t, worker.from, size);
        OthersStaySafe(c, s, s'.t, w, s'.workers[w]);
      }
    case Select(_, _) =>
    case Build(_) =>
      BuildKeepsSafe(c, s, w);
    case Finish(_) =>
      if worker.Building? && worker.next >= |worker.page| {
        assert worker.page[worker.next..] == [];
        OthersStaySafe(c, s, s'.t, w, s'.workers[w]);
      }
    case Record(_, _) =>
      if worker.Submitted? {
        OthersStaySafe(c, s, s'.t, w, Idle);
      }
    case Crash(_) =>
  }

  /**
   In every state every run reaches, each corpus row at or below the backfill cursor needed no item or has
   its result stored as an output or a dead letter.
   */
  lemma {:induction false} CursorNeverPassesARow(c: Corpus, steps: seq<Step>)
    requires ValidCorpus(c)
    ensures Safe(c, Run(c, START, steps))
    ensures var t := Run(c, START, steps).t;
            forall r :: r in c.rows && AtOrBelow(r, t.cursor) ==> Settled(c, t, r)
    decreases |steps|
  {
    if steps != [] {
      CursorNeverPassesARow(c, steps[..|steps| - 1]);
      StepKeepsSafe(c, Run(c, START, steps[..|steps| - 1]), steps[|steps| - 1]);
    }
  }
}
