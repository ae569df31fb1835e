/**
 The cost ledger books a result of a recorded batch once for each commit that returned it, in the same step that
 deletes the batch row. When drains of the feature do not overlap that is exactly once; crashes and re-polls are
 free.
 */
module AiCost {
  import opened Wrappers
  import opened AiTables
  import opened AiRuns

  predicate InDrain(worker: Worker) {
    worker.Polling? || worker.Draining?
  }

  /** No two workers are between finding an open batch and committing its drain. */
  ghost predicate Exclusive(s: State) {
    forall w, w' :: InDrain(At(s, w)) && InDrain(At(s, w')) ==> w == w'
  }

  /** The batches recorded so far, by id. */
  function Recorded(c: Corpus, steps: seq<Step>): map<BatchId, Batch>
    decreases |steps|
  {
    if steps == [] then map[]
    else
      var init, last := steps[..|steps| - 1], steps[|steps| - 1];
      var worker := At(Run(c, START, init), last.w);
      if last.Record? && worker.Submitted?
      then Recorded(c, init)[last.id := Batch(last.id, worker.items, worker.pending)]
      else Recorded(c, init)
  }

  /** The results of every committed drain, in commit order, by batch id. */
  function Committed(c: Corpus, steps: seq<Step>): map<BatchId, seq<seq<ItemResult>>>
    decreases |steps|
  {
    if steps == [] then map[]
    else
      var init, last := steps[..|steps| - 1], steps[|steps| - 1];
      var worker := At(Run(c, START, init), last.w);
      if last.Drain? && worker.Draining?
      then Committed(c, init)[worker.batch.id := CommitsOf(Committed(c, init), worker.batch.id) + [worker.results]]
      else Committed(c, init)
  }

  function CommitsOf(committed: map<BatchId, seq<seq<ItemResult>>>, id: BatchId): seq<seq<ItemResult>> {
    if id in committed then committed[id] else []
  }

  /** Generated ids are new. */
  ghost predicate FreshIds(c: Corpus, steps: seq<Step>)
    decreases |steps|
  {
    steps == [] ||
    (var init, last := steps[..|steps| - 1], steps[|steps| - 1];
     FreshIds(c, init) && (last.Record? ==> last.id !in Recorded(c, init)))
  }

  /** And drains never overlap. */
  ghost predicate Disciplined(c: Corpus, steps: seq<Step>)
    decreases |steps|
  {
    Exclusive(Run(c, START, steps))
    && (steps == [] ||
        var init, last := steps[..|steps| - 1], steps[|steps| - 1];
        Disciplined(c, init) && (last.Record? ==> last.id !in Recorded(c, init)))
  }

  ghost predicate IsOpen(open: seq<Batch>, id: BatchId) {
    exists b :: b in open && b.id == id
  }

  /** What all commits of one batch book. */
  function AllBookings(b: Batch, commits: seq<seq<ItemResult>>): seq<CostRow> {
    if commits == [] then []
    else AllBookings(b, commits[..|commits| - 1]) + Bookings(b, commits[|commits| - 1])
  }

  lemma AllBookingsPush(b: Batch, commits: seq<seq<ItemResult>>, results: seq<ItemResult>)
    ensures AllBookings(b, commits + [results]) == AllBookings(b, commits) + Bookings(b, results)
  {
    assert (commits + [results])[..|commits|] == commits;
  }

  ghost predicate RowsMatch(s: State, recorded: map<BatchId, Batch>, committed: map<BatchId, seq<seq<ItemResult>>>) {
    && committed.Keys <= recorded.Keys
    && (forall id :: id in committed ==> committed[id] != [])
    && (forall b :: b in s.t.open ==> b.id in recorded && recorded[b.id] == b)
    && (forall id :: id in recorded ==> (id in committed <==> !IsOpen(s.t.open, id)))
    && (forall w :: w in s.workers && InDrain(s.workers[w]) ==>
         s.workers[w].batch.id in recorded && recorded[s.workers[w].batch.id] == s.workers[w].batch)
  }

  ghost predicate BookedMatches(ledger: seq<CostRow>, recorded: map<BatchId, Batch>,
                                committed: map<BatchId, seq<seq<ItemResult>>>, id: BatchId)
  {
    BookedFor(ledger, id) ==
    if id in committed && id in recorded then AllBookings(recorded[id], committed[id]) else []
  }

  ghost predicate LedgerMatches(s: State, recorded: map<BatchId, Batch>,
                                committed: map<BatchId, seq<seq<ItemResult>>>)
  {
    && RowsMatch(s, recorded, committed)
    && (forall id {:trigger BookedMatches(s.t.ledger, recorded, committed, id)} ::
         BookedMatches(s.t.ledger, recorded, committed, id))
  }

  lemma InlineRowsAreUnbooked(ledger: seq<CostRow>, row: CostRow, id: BatchId)
    requires row.batch == None
    ensures BookedFor(ledger + [row], id) == BookedFor(ledger, id)
  {
    assert (ledger + [row])[..|ledger|] == ledger;
  }

  lemma OpenWithout(open: seq<Batch>, id: BatchId, other: BatchId)
    ensures IsOpen(WithoutBatch(open, id), other) <==> other != id && IsOpen(open, other)
  {
    WithoutBatchFacts(open, id);
    if other != id && IsOpen(open, other) {
      var o :| o in open && o.id == other;
      assert o in WithoutBatch(open, id);
    }
  }

  lemma CommittedLedger(t: Tables, b: Batch, results: seq<ItemResult>, recorded: map<BatchId, Batch>,
                        committed: map<BatchId, seq<seq<ItemResult>>>, id: BatchId)
    requires b.id in recorded && recorded[b.id] == b && BookedMatches(t.ledger, recorded, committed, id)
    ensures BookedMatches(Commit(t, b, results).ledger, recorded,
                          committed[b.id := CommitsOf(committed, b.id) + [results]], id)
  {
    DrainBooks(t, b, results, id);
    AllBookingsPush(b, CommitsOf(committed, b.id), results);
  }

  lemma CommitMatchesRows(s: State, w: WorkerId, recorded: map<BatchId, Batch>,
                          committed: map<BatchId, seq<seq<ItemResult>>>)
    requires RowsMatch(s, recorded, committed) && At(s, w).Draining?
    ensures var b, results := At(s, w).batch, At(s, w).results;
            && b.id in recorded && recorded[b.id] == b
            && RowsMatch(Put(s.(t := Commit(s.t, b, results)), w, Idle), recorded,
                         committed[b.id := CommitsOf(committed, b.id) + [results]])
  {
    var b, results := At(s, w).batch, At(s, w).results;
    var t' := Commit(s.t, b, results);
    assert InDrain(s.workers[w]);
    PersistAllFrame(s.t, b, results);
    assert t'.open == WithoutBatch(s.t.open, b.id);
    WithoutBatchFacts(s.t.open, b.id);
    forall id ensures IsOpen(t'.open, id) <==> id != b.id && IsOpen(s.t.open, id) {
      OpenWithout(s.t.open, b.id, id);
    }
  }

  /** A commit keeps the match whether or not the batch row is still there. */
  lemma DrainMatches(s: State, w: WorkerId, recorded: map<BatchId, Batch>,
                     committed: map<BatchId, seq<seq<ItemResult>>>)
    requires LedgerMatches(s, recorded, committed) && At(s, w).Draining?
    ensures var b, results := At(s, w).batch, At(s, w).results;
            LedgerMatches(Put(s.(t := Commit(s.t, b, results)), w, Idle), recorded,
                          committed[b.id := CommitsOf(committed, b.id) + [results]])
  {
    var b, results := At(s, w).batch, At(s, w).results;
    CommitMatchesRows(s, w, recorded, committed);
    var t', committed' := Commit(s.t, b, results), committed[b.id := CommitsOf(committed, b.id) + [results]];
    forall id ensures BookedMatches(t'.ledger, recorded, committed', id) {
      assert BookedMatches(s.t.ledger, recorded, committed, id);
      CommittedLedger(s.t, b, results, recorded, committed, id);
    }
  }

  lemma OpenWith(open: seq<Batch>, b: Batch, other: BatchId)
    ensures IsOpen(open + [b], other) <==> IsOpen(open, other) || other == b.id
  {
    assert forall o :: o in open + [b] <==> o in open || o == b;
  }

  lemma RecordMatchesRows(s: State, w: WorkerId, b: Batch, recorded: map<BatchId, Batch>,
                          committed: map<BatchId, seq<seq<ItemResult>>>)
    requires RowsMatch(s, recorded, committed) && b.id !in recorded
    ensures RowsMatch(Put(s.(t := s.t.(open := s.t.open + [b])), w, Idle), recorded[b.id := b], committed)
  {
    var open', recorded' := s.t.open + [b], recorded[b.id := b];
    assert forall o :: o in open' <==> o in s.t.open || o == b;
    forall x | x in recorded' ensures x in committed <==> !IsOpen(open', x) {
      OpenWith(s.t.open, b, x);
    }
  }

  lemma RecordMatches(s: State, w: WorkerId, b: Batch, recorded: map<BatchId, Batch>,
                      committed: map<BatchId, seq<seq<ItemResult>>>)
    requires LedgerMatches(s, recorded, committed) && b.id !in recorded
    ensures LedgerMatches(Put(s.(t := s.t.(open := s.t.open + [b])), w, Idle), recorded[b.id := b], committed)
  {
    RecordMatchesRows(s, w, b, recorded, committed);
    var recorded' := recorded[b.id := b];
    forall x ensures BookedMatches(s.t.ledger, recorded', committed, x) {
      assert BookedMatches(s.t.ledger, recorded, committed, x);
    }
  }

  lemma StepMatches(c: Corpus, s: State, step: Step, recorded: map<BatchId, Batch>,
                    committed: map<BatchId, seq<seq<ItemResult>>>)
    requires LedgerMatches(s, recorded, committed) && !step.Drain? && !step.Record?
    ensures LedgerMatches(Apply(c, s, step), recorded, committed)
  {
    var worker, s' := At(s, step.w), Apply(c, s, step);
    if step.Build? && worker.Building? && worker.next < |worker.page| {
      var r := worker.page[worker.next];
      forall id ensures BookedMatches(s'.t.ledger, recorded, committed, id) {
        assert BookedMatches(s.t.ledger, recorded, committed, id);
        InlineRowsAreUnbooked(s.t.ledger, CostRow(None, r, 0), id);
      }
    }
    assert s'.t.open == s.t.open;
    forall x | x in s'.workers && InDrain(s'.workers[x])
      ensures s'.workers[x].batch.id in recorded && recorded[s'.workers[x].batch.id] == s'.workers[x].batch
    {
      if x == step.w && step.Poll? && worker == Idle {
        assert s.t.open[0] in s.t.open;
      }
    }
  }

  lemma {:induction false} LedgerMatchesRun(c: Corpus, steps: seq<Step>)
    requires FreshIds(c, steps)
    ensures LedgerMatches(Run(c, START, steps), Recorded(c, steps), Committed(c, steps))
    decreases |steps|
  {
    if steps != [] {
      var init, last := steps[..|steps| - 1], steps[|steps| - 1];
      LedgerMatchesRun(c, init);
      var s := Run(c, START, init);
      if last.Drain? && At(s, last.w).Draining? {
        DrainMatches(s, last.w, Recorded(c, init), Committed(c, init));
      } else if last.Record? && At(s, last.w).Submitted? {
        var worker := At(s, last.w);
        RecordMatches(s, last.w, Batch(last.id, worker.items, worker.pending), Recorded(c, init), Committed(c, init));
      } else if !last.Drain? && !last.Record? {
        StepMatches(c, s, last, Recorded(c, init), Committed(c, init));
      }
    }
  }

  // ---- What the ledger holds ----

  /** The ledger holds what every commit of the batch booked, and the row is gone exactly when there was one. */
  lemma EachCommitBooks(c: Corpus, steps: seq<Step>, id: BatchId)
    requires FreshIds(c, steps) && id in Recorded(c, steps)
    ensures var t, commits := Run(c, START, steps).t, CommitsOf(Committed(c, steps), id);
            && (IsOpen(t.open, id) <==> commits == [])
            && BookedFor(t.ledger, id) == AllBookings(Recorded(c, steps)[id], commits)
  {
    LedgerMatchesRun(c, steps);
    assert BookedMatches(Run(c, START, steps).t.ledger, Recorded(c, steps), Committed(c, steps), id);
  }

  /**
   A drain is the first to book its batch exactly when the batch row is still open at its commit; a later one
   books everything it returns once more.
   */
  lemma CommitIsFirstExactlyWhenOpen(c: Corpus, steps: seq<Step>, w: WorkerId)
    requires FreshIds(c, steps) && At(Run(c, START, steps), w).Draining?
    ensures var s := Run(c, START, steps);
            var b, results := At(s, w).batch, At(s, w).results;
            var before, after := BookedFor(s.t.ledger, b.id), BookedFor(Apply(c, s, Drain(w)).t.ledger, b.id);
            && (IsOpen(s.t.open, b.id) <==> CommitsOf(Committed(c, steps), b.id) == [])
            && after == before + Bookings(b, results)
            && (IsOpen(s.t.open, b.id) ==> after == Bookings(b, results))
  {
    var s := Run(c, START, steps);
    LedgerMatchesRun(c, steps);
    assert InDrain(s.workers[w]);
    var b := At(s, w).batch;
    assert BookedMatches(s.t.ledger, Recorded(c, steps), Committed(c, steps), b.id);
    DrainBooks(s.t, b, At(s, w).results, b.id);
  }

  /** How many commits returned a row. */
  function TimesReturned(commits: seq<seq<ItemResult>>, row: RowId): nat {
    if commits == [] then 0
    else TimesReturned(commits[..|commits| - 1], row) + if Returned(commits[|commits| - 1], row) then 1 else 0
  }

  lemma {:induction false} CountAppend(a: seq<CostRow>, b: seq<CostRow>, row: RowId)
    ensures CountFor(a + b, row) == CountFor(a, row) + CountFor(b, row)
    decreases |b|
  {
    if b == [] {
      assert a + b == a;
    } else {
      var init := b[..|b| - 1];
      assert (a + b)[..|a + b| - 1] == a + init;
      CountAppend(a, init, row);
    }
  }

  lemma {:induction false} AllBookingsCount(b: Batch, commits: seq<seq<ItemResult>>, row: RowId)
    requires forall results :: results in commits ==> OnePerItem(results)
    ensures CountFor(AllBookings(b, commits), row) ==
            if Descriptor(b.items, row).Some? then TimesReturned(commits, row) else 0
    decreases |commits|
  {
    if commits != [] {
      var init, last := commits[..|commits| - 1], commits[|commits| - 1];
      assert last in commits && forall results :: results in init ==> results in commits;
      AllBookingsCount(b, init, row);
      BookedOnce(b, last, row);
      CountAppend(AllBookings(b, init), Bookings(b, last), row);
    }
  }

  /**
   In every run the ledger holds an item of a recorded batch as often as commits returned it: once exactly
   when one commit did, whatever overlapped, crashed or polled in between.
   */
  lemma BookedAsOftenAsReturned(c: Corpus, steps: seq<Step>, id: BatchId, row: RowId)
    requires FreshIds(c, steps) && id in Recorded(c, steps)
    requires forall results :: results in CommitsOf(Committed(c, steps), id) ==> OnePerItem(results)
    ensures CountFor(BookedFor(Run(c, START, steps).t.ledger, id), row) ==
            if Descriptor(Recorded(c, steps)[id].items, row).Some?
            then TimesReturned(CommitsOf(Committed(c, steps), id), row) else 0
  {
    EachCommitBooks(c, steps, id);
    AllBookingsCount(Recorded(c, steps)[id], CommitsOf(Committed(c, steps), id), row);
  }

  // ---- Drains that do not overlap ----

  ghost predicate OneCommitEach(s: State, committed: map<BatchId, seq<seq<ItemResult>>>) {
    && (forall w :: w in s.workers && InDrain(s.workers[w]) ==> s.workers[w].batch in s.t.open)
    && (forall id :: id in committed ==> |committed[id]| <= 1)
  }

  lemma NobodyElseDrains(s: State, t: Tables, w: WorkerId)
    requires Exclusive(s) && At(s, w).Draining?
    ensures forall x :: x in Put(s.(t := t), w, Idle).workers ==> !InDrain(Put(s.(t := t), w, Idle).workers[x])
  {
    var s' := Put(s.(t := t), w, Idle);
    assert InDrain(At(s, w));
    forall x | x in s'.workers ensures !InDrain(s'.workers[x]) {
      assert x == w || s'.workers[x] == At(s, x);
    }
  }

  lemma {:induction false} DisciplinedDrainsOnce(c: Corpus, steps: seq<Step>)
    requires Disciplined(c, steps)
    ensures FreshIds(c, steps) && OneCommitEach(Run(c, START, steps), Committed(c, steps))
    decreases |steps|
  {
    if steps != [] {
      var init, last := steps[..|steps| - 1], steps[|steps| - 1];
      DisciplinedDrainsOnce(c, init);
      LedgerMatchesRun(c, init);
      var s, s' := Run(c, START, init), Run(c, START, steps);
      if last.Drain? && At(s, last.w).Draining? {
        FirstCommit(s, last.w, Recorded(c, init), Committed(c, init));
      } else {
        OpenOnlyGrows(c, s, last);
      }
    }
  }

  lemma FirstCommit(s: State, w: WorkerId, recorded: map<BatchId, Batch>,
                    committed: map<BatchId, seq<seq<ItemResult>>>)
    requires Exclusive(s) && At(s, w).Draining? && RowsMatch(s, recorded, committed) && OneCommitEach(s, committed)
    ensures var b, results := At(s, w).batch, At(s, w).results;
            OneCommitEach(Put(s.(t := Commit(s.t, b, results)), w, Idle),
                          committed[b.id := CommitsOf(committed, b.id) + [results]])
  {
    var b := At(s, w).batch;
    assert InDrain(s.workers[w]);
    assert b in s.t.open && IsOpen(s.t.open, b.id);
    NobodyElseDrains(s, Commit(s.t, b, At(s, w).results), w);
  }

  /** Only a commit takes a row out, and only a poll starts a drain, of an open row. */
  lemma OpenOnlyGrows(c: Corpus, s: State, step: Step)
    requires !(step.Drain? && At(s, step.w).Draining?)
    requires forall w :: w in s.workers && InDrain(s.workers[w]) ==> s.workers[w].batch in s.t.open
    ensures forall b :: b in s.t.open ==> b in Apply(c, s, step).t.open
    ensures var s' := Apply(c, s, step);
            forall w :: w in s'.workers && InDrain(s'.workers[w]) ==> s'.workers[w].batch in s'.t.open
  {
    var s' := Apply(c, s, step);
    assert forall b :: b in s.t.open ==> b in s'.t.open;
    forall w | w in s'.workers && InDrain(s'.workers[w]) ensures s'.workers[w].batch in s'.t.open {
      assert s.t.open != [] ==> s.t.open[0] in s.t.open;
      assert w != step.w ==> w in s.workers && s'.workers[w] == s.workers[w];
    }
  }

  /**
   A recorded batch is either still open with nothing booked, or gone with every returned item booked once:
   booking and deletion are one event, however often workers crashed or polled in between.
   */
  lemma EachResultBookedOnce(c: Corpus, steps: seq<Step>, id: BatchId, row: RowId)
    requires Disciplined(c, steps) && id in Recorded(c, steps)
    ensures var t, batch := Run(c, START, steps).t, Recorded(c, steps)[id];
            var commits := CommitsOf(Committed(c, steps), id);
            && |commits| <= 1
            && (IsOpen(t.open, id) <==> commits == [])
            && (IsOpen(t.open, id) ==> BookedFor(t.ledger, id) == [])
            && (!IsOpen(t.open, id) && OnePerItem(commits[0]) ==>
                 CountFor(BookedFor(t.ledger, id), row) ==
                 if Returned(commits[0], row) && Descriptor(batch.items, row).Some? then 1 else 0)
  {
    DisciplinedDrainsOnce(c, steps);
    EachCommitBooks(c, steps, id);
    var commits := CommitsOf(Committed(c, steps), id);
    if commits != [] && OnePerItem(commits[0]) {
      assert commits == [commits[0]] && commits[..0] == [];
      BookedAsOftenAsReturned(c, steps, id, row);
    }
  }

  // ---- Drains that do ----

  function Submitting(id: BatchId): seq<Step> {
    [Poll(0), ReadCursor(0), Scan(0, 1), Build(0), Finish(0), Record(0, id)]
  }

  function Fetching(row: RowId, cost: nat): seq<Step> {
    var results := [ItemResult(row, true, cost)];
    [Poll(0), Poll(1), Fetch(0, true, results), Fetch(1, true, results)]
  }

  /** One row is submitted and recorded; then two workers find the batch, and both commit what they fetched. */
  function TwoDrains(row: RowId, cost: nat, id: BatchId): seq<Step> {
    Submitting(id) + Fetching(row, cost) + [Drain(0)] + [Drain(1)]
  }

  /** A worker finds nothing open, reads the cursor of the empty tables and scans the one row. */
  lemma ScanOneRow(c: Corpus, row: RowId, key: CacheKey)
    requires c == Corpus([row], map[row := Ask(key)])
    ensures Run(c, START, [Poll(0), ReadCursor(0), Scan(0, 1)]) ==
            State(START.t, map[0 := Building(Some(row), [row], 0, [])])
  {
    RunThree(c, START, Poll(0), ReadCursor(0), Scan(0, 1));
    assert [row][1..] == [] && Above([row], None) == [row] && Page([row], None, 1) == [row];
    var s1 := Apply(c, START, Poll(0));
    assert s1 == State(START.t, map[0 := Free]);
    var s2 := Apply(c, s1, ReadCursor(0));
    assert s2 == State(START.t, map[0 := AtCursor(None)]);
  }

  /** It builds the row's item, and the provider's id is recorded with it. */
  lemma RecordOneRow(c: Corpus, row: RowId, key: CacheKey, id: BatchId)
    requires c == Corpus([row], map[row := Ask(key)])
    ensures Run(c, State(START.t, map[0 := Building(Some(row), [row], 0, [])]), [Build(0), Finish(0), Record(0, id)]) ==
            State(START.t.(open := [Batch(id, [Item(row, key)], Some(row))]), map[0 := Idle])
  {
    var s := State(START.t, map[0 := Building(Some(row), [row], 0, [])]);
    RunThree(c, s, Build(0), Finish(0), Record(0, id));
    var s1 := Apply(c, s, Build(0));
    assert [] + [Item(row, key)] == [Item(row, key)];
    assert s1 == State(START.t, map[0 := Building(Some(row), [row], 1, [Item(row, key)])]);
    var s2 := Apply(c, s1, Finish(0));
    assert s2 == State(START.t, map[0 := Submitted(Some(row), [Item(row, key)])]);
  }

  lemma SubmitOneRow(c: Corpus, row: RowId, key: CacheKey, id: BatchId)
    requires c == Corpus([row], map[row := Ask(key)])
    ensures Run(c, START, Submitting(id)) ==
            State(START.t.(open := [Batch(id, [Item(row, key)], Some(row))]), map[0 := Idle])
  {
    var scan, record := [Poll(0), ReadCursor(0), Scan(0, 1)], [Build(0), Finish(0), Record(0, id)];
    assert Submitting(id) == scan + record;
    RunAppend(c, START, scan, record);
    ScanOneRow(c, row, key);
    RecordOneRow(c, row, key, id);
  }

  /** Both workers find the batch and fetch its result before either commits. */
  lemma FetchOneRowTwice(c: Corpus, t: Tables, b: Batch, row: RowId, cost: nat)
    requires t.open == [b]
    ensures var drain := Draining(b, [ItemResult(row, true, cost)]);
            Run(c, State(t, map[0 := Idle]), Fetching(row, cost)) == State(t, map[0 := drain, 1 := drain])
  {
    var s, results := State(t, map[0 := Idle]), [ItemResult(row, true, cost)];
    var first, last := [Poll(0), Poll(1), Fetch(0, true, results)], Fetch(1, true, results);
    RunThree(c, s, Poll(0), Poll(1), Fetch(0, true, results));
    assert Run(c, s, first) == State(t, map[0 := Draining(b, results), 1 := Polling(b)]);
    RunSnoc(c, s, first, last);
    assert Fetching(row, cost) == first + [last];
  }

  /** The state before the two commits. */
  lemma BothDraining(c: Corpus, row: RowId, key: CacheKey, cost: nat, id: BatchId)
    requires c == Corpus([row], map[row := Ask(key)])
    ensures var b, results := Batch(id, [Item(row, key)], Some(row)), [ItemResult(row, true, cost)];
            Run(c, START, Submitting(id) + Fetching(row, cost)) ==
            State(START.t.(open := [b]), map[0 := Draining(b, results), 1 := Draining(b, results)])
  {
    SubmitOneRow(c, row, key, id);
    FetchOneRowTwice(c, START.t.(open := [Batch(id, [Item(row, key)], Some(row))]),
                     Batch(id, [Item(row, key)], Some(row)), row, cost);
    RunAppend(c, START, Submitting(id), Fetching(row, cost));
  }

  lemma CommitOne(t: Tables, b: Batch, row: RowId, key: CacheKey, cost: nat)
    requires Descriptor(b.items, row) == Some(Item(row, key))
    ensures Commit(t, b, [ItemResult(row, true, cost)]).ledger == t.ledger + [CostRow(Some(b.id), row, cost)]
  {
    var result := ItemResult(row, true, cost);
    var results := [result];
    assert |results| == 1 && results[..|results| - 1] == [] && results[|results| - 1] == result;
    assert PersistAll(t, b, []) == t;
    assert PersistAll(t, b, results) == Persist(t, b.id, Item(row, key), result);
  }

  lemma OneRecordIsFresh(row: RowId, key: CacheKey, cost: nat, id: BatchId)
    ensures FreshIds(Corpus([row], map[row := Ask(key)]), TwoDrains(row, cost, id))
  {
    var c := Corpus([row], map[row := Ask(key)]);
    var before := [Poll(0), ReadCursor(0), Scan(0, 1), Build(0), Finish(0)];
    var rest := Fetching(row, cost) + [Drain(0)] + [Drain(1)];
    NoRecords(c, before);
    assert Submitting(id)[..|Submitting(id)| - 1] == before && FreshIds(c, Submitting(id));
    FreshAppend(c, Submitting(id), rest);
    assert TwoDrains(row, cost, id) == Submitting(id) + rest;
  }

  lemma {:induction false} NoRecords(c: Corpus, steps: seq<Step>)
    requires forall step :: step in steps ==> !step.Record?
    ensures Recorded(c, steps) == map[] && FreshIds(c, steps)
    decreases |steps|
  {
    if steps != [] {
      assert steps[|steps| - 1] in steps && forall step :: step in steps[..|steps| - 1] ==> step in steps;
      NoRecords(c, steps[..|steps| - 1]);
    }
  }

  lemma {:induction false} FreshAppend(c: Corpus, a: seq<Step>, b: seq<Step>)
    requires FreshIds(c, a) && forall step :: step in b ==> !step.Record?
    ensures FreshIds(c, a + b)
    decreases |b|
  {
    if b == [] {
      assert a + b == a;
    } else {
      assert b[|b| - 1] in b && forall step :: step in b[..|b| - 1] ==> step in b;
      FreshAppend(c, a, b[..|b| - 1]);
      assert (a + b)[..|a + b| - 1] == a + b[..|b| - 1];
    }
  }

  /**
   Two workers that drain at once do book twice: a run from the empty tables, with new ids, in which one item is
   paid for twice.
   */
  lemma OverlappingDrainsBookTwice(row: RowId, key: CacheKey, cost: nat, id: BatchId)
    ensures var c := Corpus([row], map[row := Ask(key)]);
            && FreshIds(c, TwoDrains(row, cost, id))
            && Run(c, START, TwoDrains(row, cost, id)).t.ledger ==
                 [CostRow(Some(id), row, cost), CostRow(Some(id), row, cost)]
  {
    OneRecordIsFresh(row, key, cost, id);
    var c, b, results := Corpus([row], map[row := Ask(key)]), Batch(id, [Item(row, key)], Some(row)),
                         [ItemResult(row, true, cost)];
    var before := Submitting(id) + Fetching(row, cost);
    BothDraining(c, row, key, cost, id);
    RunSnoc(c, START, before, Drain(0));
    RunSnoc(c, START, before + [Drain(0)], Drain(1));
    assert Descriptor(b.items, row) == Some(Item(row, key));
    CommitOne(START.t.(open := [b]), b, row, key, cost);
    CommitOne(Commit(START.t.(open := [b]), b, results), b, row, key, cost);
  }
}
