/**
 The drivers as imperative code over the durable tables: the shared batch gateway (poll, record, advance)
 and one tick of the backfill and live drivers. A tick that is not interrupted is a run of AiRuns.
 */
module AiDrivers {
  import opened Wrappers
  import opened AiTables
  import opened AiRuns

  datatype PollOutcome = Quiet | Waiting | Drained(pending: Option<RowId>)

  class AiStore {
    var open: seq<Batch>
    var cursor: Option<RowId>
    var outputs: set<CacheKey>
    var deadLetters: set<CacheKey>
    var ledger: seq<CostRow>

    ghost function Now(): Tables
      reads this
    {
      Tables(open, cursor, outputs, deadLetters, ledger)
    }

    constructor ()
      ensures Now() == START.t
    {
      open, cursor, outputs, deadLetters, ledger := [], None, {}, {}, [];
    }

    method PersistBatchItemResult(id: BatchId, item: Item, result: ItemResult)
      modifies this`outputs, this`deadLetters, this`ledger
      ensures Now() == Persist(old(Now()), id, item, result)
    {
      if !result.valid {
        deadLetters := deadLetters + {item.key};
        ledger := ledger + [CostRow(Some(id), item.row, result.cost)];
        return;
      }
      ledger := ledger + [CostRow(Some(id), item.row, result.cost)];
      outputs := outputs + {item.key};
    }

    /** The loop of the drain: each result that belongs to an item is persisted, the others are passed over. */
    method PersistResults(batch: Batch, results: seq<ItemResult>)
      modifies this`outputs, this`deadLetters, this`ledger
      ensures Now() == PersistAll(old(Now()), batch, results)
    {
      for n := 0 to |results|
        invariant Now() == PersistAll(old(Now()), batch, results[..n])
      {
        var descriptor := Descriptor(batch.items, results[n].row);
        assert results[..n + 1][..n] == results[..n];
        if descriptor.Some? {
          PersistBatchItemResult(batch.id, descriptor.value, results[n]);
        }
      }
      assert results[..|results|] == results;
    }

    /** fetched is None while the provider has not ended the batch. */
    method PollOpen(fetched: Option<seq<ItemResult>>) returns (outcome: PollOutcome)
      modifies this
      ensures old(open) == [] ==> outcome == Quiet && Now() == old(Now())
      ensures old(open) != [] && fetched.None? ==> outcome == Waiting && Now() == old(Now())
      ensures old(open) != [] && fetched.Some? ==>
                && Now() == Commit(old(Now()), old(open)[0], fetched.value)
                && outcome ==
                   Drained(if forall i :: i in old(open)[0].items ==> exists r :: r in fetched.value && r.row == i.row
                           then old(open)[0].pending else None)
                && cursor == (if outcome.pending.Some? then outcome.pending else old(cursor))
    {
      if open == [] {
        return Quiet;
      }
      var batch := open[0];
      if fetched.None? {
        return Waiting;
      }
      var results := fetched.value;
      var complete := forall i :: i in batch.items ==> Returned(results, i.row);
      CompleteMeans(batch, results);
      PersistResults(batch, results);
      if batch.pending.Some? && complete {
        cursor := batch.pending;
      }
      open := WithoutBatch(open, batch.id);
      return Drained(if complete then batch.pending else None);
    }

    method Record(id: BatchId, items: seq<Item>, pending: Option<RowId>)
      modifies this`open
      ensures Now() == old(Now()).(open := old(open) + [Batch(id, items, pending)])
    {
      open := open + [Batch(id, items, pending)];
    }

    method AdvanceCursor(position: RowId)
      modifies this`cursor
      ensures Now() == old(Now()).(cursor := Some(position))
    {
      cursor := Some(position);
    }
  }

  /** The loop over a page: the tables after the inline skips, and the items to submit. */
  function BuildAll(c: Corpus, t: Tables, page: seq<RowId>): (Tables, seq<Item>)
    requires forall r :: r in page ==> r in c.need
    decreases |page|
  {
    if page == [] then (t, [])
    else
      var (before, items) := BuildAll(c, t, page[..|page| - 1]);
      BuildRow(c, before, items, page[|page| - 1])
  }

  /** What a tick leaves behind when no batch is open and the budget allows a submit. */
  function PageSubmitted(c: Corpus, t: Tables, page: seq<RowId>, pending: Option<RowId>, id: BatchId): Tables
    requires forall r :: r in page ==> r in c.need
  {
    var (built, items) := BuildAll(c, t, page);
    if items != [] then built.(open := built.open + [Batch(id, items, pending)])
    else if pending.Some? then built.(cursor := pending)
    else built
  }

  /**
   Only uncached rows are submitted — a key with an output is never sent again — and every other row of the
   page is answered when the tick moves on.
   */
  lemma {:induction false} OnlyUncachedRowsAreSubmitted(c: Corpus, t: Tables, page: seq<RowId>)
    requires forall r :: r in page ==> r in c.need
    ensures var (t', items) := BuildAll(c, t, page);
            && t.outputs <= t'.outputs && t'.open == t.open && t'.cursor == t.cursor
            && (forall i :: i in items ==> i.row in page && c.need[i.row] == Ask(i.key) && i.key !in t.outputs)
            && (forall r :: r in page ==> c.need[r].Nothing? || c.need[r].key in t'.outputs
                                          || Item(r, c.need[r].key) in items)
    decreases |page|
  {
    if page != [] {
      var init, last := page[..|page| - 1], page[|page| - 1];
      OnlyUncachedRowsAreSubmitted(c, t, init);
      assert forall r :: r in page <==> r in init || r == last;
    }
  }

  /**
   Building a page leaves the dead letters alone, answers exactly its inline rows, pays nothing for them, and keeps the
   page's order among the items.
   */
  lemma {:induction false} PageIsBuiltInOrder(c: Corpus, t: Tables, page: seq<RowId>)
    requires Ascending(page) && forall r :: r in page ==> r in c.need
    ensures var (t', items) := BuildAll(c, t, page);
            && t'.deadLetters == t.deadLetters
            && (forall key :: key in t'.outputs <==> key in t.outputs || exists r :: r in page && c.need[r] == Inline(key))
            && |t'.ledger| >= |t.ledger| && t'.ledger[..|t.ledger|] == t.ledger
            && (forall n :: |t.ledger| <= n < |t'.ledger| ==>
                 t'.ledger[n].batch == None && t'.ledger[n].cost == 0 && t'.ledger[n].row in page
                 && c.need[t'.ledger[n].row].Inline?)
            && |t'.ledger| - |t.ledger| == |t'.outputs| - |t.outputs|
            && (forall m, n :: 0 <= m < n < |items| ==> items[m].row < items[n].row)
            && (forall n :: 0 <= n < |items| ==> items[n].row in page)
    decreases |page|
  {
    if page != [] {
      var init, last := page[..|page| - 1], page[|page| - 1];
      PageIsBuiltInOrder(c, t, init);
      assert forall r :: r in page <==> r in init || r == last;
      assert forall r :: r in init ==> r < last;
      var (before, items) := BuildAll(c, t, init);
      if c.need[last].Inline? && c.need[last].key !in before.outputs {
        assert |before.outputs + {c.need[last].key}| == |before.outputs| + 1;
      }
    }
  }

  /** One tick of the backfill driver for a batch feature. */
  method DriveBatch(store: AiStore, c: Corpus, fetched: Option<seq<ItemResult>>, disabled: bool, size: nat, id: BatchId)
    requires ValidCorpus(c)
    modifies store
    ensures old(store.open) != [] && fetched.Some? ==>
              store.Now() == Commit(old(store.Now()), old(store.open)[0], fetched.value)
    ensures old(store.open) != [] && fetched.None? ==> store.Now() == old(store.Now())
    ensures var page := Page(c.rows, old(store.cursor), size);
            old(store.open) == [] ==>
              store.Now() ==
              if disabled || page == [] then old(store.Now())
              else
                assert forall r :: r in page ==> r in c.need by { PageRowsAreKnown(c, old(store.cursor), size); }
                PageSubmitted(c, old(store.Now()), page, Some(page[|page| - 1]), id)
  {
    PageRowsAreKnown(c, store.cursor, size);
    var poll := store.PollOpen(fetched);
    if poll != Quiet || disabled {
      return;
    }
    var rows := Page(c.rows, store.cursor, size);
    if rows == [] {
      return;
    }
    var pageCursor := rows[|rows| - 1];
    var items := [];
    for n := 0 to |rows|
      invariant (store.Now(), items) == BuildAll(c, old(store.Now()), rows[..n])
    {
      assert rows[..n + 1][..n] == rows[..n];
      var row := rows[n];
      match c.need[row] {
        case Nothing =>
        case Inline(key) =>
          if key !in store.outputs {
            store.outputs := store.outputs + {key};
            store.ledger := store.ledger + [CostRow(None, row, 0)];
          }
        case Ask(key) =>
          if key !in store.outputs {
            items := items + [Item(row, key)];
          }
      }
    }
    assert rows[..|rows|] == rows;
    if items == [] {
      store.AdvanceCursor(pageCursor);
      return;
    }
    store.Record(id, items, Some(pageCursor));
  }

  lemma PageRowsAreKnown(c: Corpus, from: Option<RowId>, size: nat)
    requires ValidCorpus(c)
    ensures forall r :: r in Page(c.rows, from, size) ==> r in c.need
  {
    AboveAreRows(c.rows, from);
  }

  lemma {:induction false} AboveAreRows(rows: seq<RowId>, from: Option<RowId>)
    ensures forall r :: r in Above(rows, from) ==> r in rows
  {
    if rows != [] {
      AboveAreRows(rows[1..], from);
    }
  }

  // ---- An uninterrupted tick is a run ----

  function Builds(w: WorkerId, n: nat): seq<Step> {
    seq(n, _ => Build(w))
  }

  lemma {:induction false} BuildsBuildAll(c: Corpus, s: State, w: WorkerId, pending: Option<RowId>, page: seq<RowId>, n: nat)
    requires At(s, w) == Building(pending, page, 0, []) && n <= |page| && forall r :: r in page ==> r in c.need
    ensures var (t, items) := BuildAll(c, s.t, page[..n]);
            && Run(c, s, Builds(w, n)).t == t
            && At(Run(c, s, Builds(w, n)), w) == Building(pending, page, n, items)
  {
    if n > 0 {
      BuildsBuildAll(c, s, w, pending, page, n - 1);
      assert Builds(w, n)[..n - 1] == Builds(w, n - 1);
      assert page[..n][..n - 1] == page[..n - 1];
    }
  }

  lemma OpeningSteps(c: Corpus, s: State, w: WorkerId, size: nat)
    requires At(s, w) == Idle && s.t.open == [] && Page(c.rows, s.t.cursor, size) != []
    ensures var page := Page(c.rows, s.t.cursor, size);
            var scanned := Run(c, s, [Poll(w), ReadCursor(w), Scan(w, size)]);
            scanned.t == s.t && At(scanned, w) == Building(Some(page[|page| - 1]), page, 0, [])
  {
    RunThree(c, s, Poll(w), ReadCursor(w), Scan(w, size));
  }

  lemma ClosingSteps(c: Corpus, s: State, w: WorkerId, id: BatchId)
    requires At(s, w).Building? && At(s, w).next == |At(s, w).page|
    ensures var worker := At(s, w);
            Run(c, s, [Finish(w), Record(w, id)]).t ==
            if worker.items != [] then s.t.(open := s.t.open + [Batch(id, worker.items, worker.pending)])
            else if worker.pending.Some? then s.t.(cursor := worker.pending)
            else s.t
  {
    RunTwo(c, s, Finish(w), Record(w, id));
  }

  /** The submitting tick of DriveBatch is reached by the worker's own steps, so whatever holds of runs holds of it. */
  lemma SubmittingTickIsARun(c: Corpus, s: State, w: WorkerId, size: nat, id: BatchId)
    requires ValidCorpus(c) && At(s, w) == Idle && s.t.open == [] && Page(c.rows, s.t.cursor, size) != []
    ensures var page := Page(c.rows, s.t.cursor, size);
            var steps := [Poll(w), ReadCursor(w), Scan(w, size)] + Builds(w, |page|) + [Finish(w), Record(w, id)];
            && (forall r :: r in page ==> r in c.need)
            && Run(c, s, steps).t == PageSubmitted(c, s.t, page, Some(page[|page| - 1]), id)
  {
    PageRowsAreKnown(c, s.t.cursor, size);
    var page := Page(c.rows, s.t.cursor, size);
    var opening, closing := [Poll(w), ReadCursor(w), Scan(w, size)], [Finish(w), Record(w, id)];
    OpeningSteps(c, s, w, size);
    var scanned := Run(c, s, opening);
    BuildsBuildAll(c, scanned, w, Some(page[|page| - 1]), page, |page|);
    assert page[..|page|] == page;
    RunAppend(c, s, opening, Builds(w, |page|));
    RunAppend(c, s, opening + Builds(w, |page|), closing);
    ClosingSteps(c, Run(c, scanned, Builds(w, |page|)), w, id);
  }

  /** A live driver's submitting tick: its own candidates, no backfill position. */
  lemma LiveTickIsARun(c: Corpus, s: State, w: WorkerId, candidates: seq<RowId>, id: BatchId)
    requires At(s, w) == Idle && s.t.open == [] && forall r :: r in candidates ==> r in c.need
    ensures var steps := [Poll(w), Select(w, candidates)] + Builds(w, |candidates|) + [Finish(w), Record(w, id)];
            Run(c, s, steps).t == PageSubmitted(c, s.t, candidates, None, id)
  {
    var opening, closing := [Poll(w), Select(w, candidates)], [Finish(w), Record(w, id)];
    RunTwo(c, s, Poll(w), Select(w, candidates));
    var selected := Run(c, s, opening);
    assert selected.t == s.t && At(selected, w) == Building(None, candidates, 0, []);
    BuildsBuildAll(c, selected, w, None, candidates, |candidates|);
    assert candidates[..|candidates|] == candidates;
    RunAppend(c, s, opening, Builds(w, |candidates|));
    RunAppend(c, s, opening + Builds(w, |candidates|), closing);
    ClosingSteps(c, Run(c, selected, Builds(w, |candidates|)), w, id);
  }

  /** A tick that finds its batch ended, of either driver, is the drain of the first open batch. */
  lemma DrainingTickIsARun(c: Corpus, s: State, w: WorkerId, results: seq<ItemResult>)
    requires At(s, w) == Idle && s.t.open != []
    ensures Run(c, s, [Poll(w), Fetch(w, true, results), Drain(w)]).t == Commit(s.t, s.t.open[0], results)
  {
    RunThree(c, s, Poll(w), Fetch(w, true, results), Drain(w));
  }

  /** A tick that finds its batch unended leaves everything as it was. */
  lemma WaitingTickIsARun(c: Corpus, s: State, w: WorkerId, results: seq<ItemResult>)
    requires At(s, w) == Idle && s.t.open != []
    ensures Run(c, s, [Poll(w), Fetch(w, false, results)]) == State(s.t, s.workers[w := Idle])
  {
    RunTwo(c, s, Poll(w), Fetch(w, false, results));
    assert s.workers[w := Polling(s.t.open[0])][w := Idle] == s.workers[w := Idle];
  }

  /** A crash loses the worker's memory, wherever it stands, and nothing else. */
  lemma CrashLosesMemory(c: Corpus, s: State, w: WorkerId)
    ensures Run(c, s, [Crash(w)]) == State(s.t, s.workers[w := Idle])
  {
    RunSnoc(c, s, [], Crash(w));
    assert [] + [Crash(w)] == [Crash(w)];
  }
}
