/**
 Runs of the batch protocol: any number of workers, live and backfill, interleaving at every await, any of
 which may crash at any await and lose what it holds in memory. The provider answers with any results.
 The drain is one step because it is one transaction.
 */
module AiRuns {
  import opened Wrappers
  import opened AiTables

  type WorkerId = int

  /** What building an item for a row amounts to, before the cache is consulted. */
  datatype Need =
    | Nothing // no content, or not linked: skipped without a trace
    | Inline(key: CacheKey) // a skip output written on the spot
    | Ask(key: CacheKey) // a provider request

  /** A fixed corpus: the rows a full-history scan yields, in ascending order. */
  datatype Corpus = Corpus(rows: seq<RowId>, need: map<RowId, Need>)

  ghost predicate Ascending(rows: seq<RowId>) {
    forall i, j :: 0 <= i < j < |rows| ==> rows[i] < rows[j]
  }

  ghost predicate ValidCorpus(c: Corpus) {
    Ascending(c.rows) && forall r :: r in c.rows ==> r in c.need
  }

  predicate AtOrBelow(r: RowId, bound: Option<RowId>) {
    bound.Some? && r <= bound.value
  }

  /** `where id > cursor order by id`. */
  function Above(rows: seq<RowId>, cursor: Option<RowId>): seq<RowId> {
    if rows == [] then []
    else if AtOrBelow(rows[0], cursor) then Above(rows[1..], cursor)
    else [rows[0]] + Above(rows[1..], cursor)
  }

  function Page(rows: seq<RowId>, cursor: Option<RowId>, size: nat): seq<RowId> {
    var above := Above(rows, cursor);
    if |above| <= size then above else above[..size]
  }

  /** Where a worker stands between two awaits, with what it then holds in memory. */
  datatype Worker =
    | Idle
    | Polling(batch: Batch) // found an open batch, asking the provider
    | Draining(batch: Batch, results: seq<ItemResult>) // results in hand, transaction next
    | Free // nothing open: may submit
    | AtCursor(from: Option<RowId>)
    | Building(pending: Option<RowId>, page: seq<RowId>, next: nat, items: seq<Item>)
    | Submitted(pending: Option<RowId>, items: seq<Item>)

  datatype State = State(t: Tables, workers: map<WorkerId, Worker>)

  function At(s: State, w: WorkerId): Worker {
    if w in s.workers then s.workers[w] else Idle
  }

  function Put(s: State, w: WorkerId, worker: Worker): State {
    s.(workers := s.workers[w := worker])
  }

  datatype Step =
    | Poll(w: WorkerId)
    | Fetch(w: WorkerId, ended: bool, results: seq<ItemResult>)
    | Drain(w: WorkerId)
    | ReadCursor(w: WorkerId)
    | Scan(w: WorkerId, size: nat)
    | Select(w: WorkerId, candidates: seq<RowId>)
    | Build(w: WorkerId)
    | Finish(w: WorkerId)
    | Record(w: WorkerId, id: BatchId)
    | Crash(w: WorkerId)

  /** One row of the page: a cached row and a row without need are skipped, an inline skip is written now. */
  function BuildRow(c: Corpus, t: Tables, items: seq<Item>, r: RowId): (Tables, seq<Item>)
    requires r in c.need
  {
    match c.need[r]
    case Nothing => (t, items)
    case Inline(key) =>
      if key in t.outputs then (t, items)
      else (t.(outputs := t.outputs + {key}, ledger := t.ledger + [CostRow(None, r, 0)]), items)
    case Ask(key) =>
      if key in t.outputs then (t, items) else (t, items + [Item(r, key)])
  }

  /** A step whose worker is not at the right point leaves the state alone. */
  function Apply(c: Corpus, s: State, step: Step): State {
    var worker := At(s, step.w);
    match step
    case Poll(w) =>
      if worker != Idle then s
      else if s.t.open == [] then Put(s, w, Free) else Put(s, w, Polling(s.t.open[0]))
    case Fetch(w, ended, results) =>
      if !worker.Polling? then s
      else if ended then Put(s, w, Draining(worker.batch, results)) else Put(s, w, Idle)
    case Drain(w) =>
      if !worker.Draining? then s
      else Put(s.(t := Commit(s.t, worker.batch, worker.results)), w, Idle)
    case ReadCursor(w) =>
      if worker != Free then s else Put(s, w, AtCursor(s.t.cursor))
    case Scan(w, size) =>
      if !worker.AtCursor? then s
      else
        var page := Page(c.rows, worker.from, size);
        if page == [] then Put(s, w, Idle) else Put(s, w, Building(Some(page[|page| - 1]), page, 0, []))
    case Select(w, candidates) =>
      if worker != Free then s else Put(s, w, Building(None, candidates, 0, []))
    case Build(w) =>
      if !worker.Building? || worker.next >= |worker.page| then s
      else
        var r := worker.page[worker.next];
        if r !in c.need then Put(s, w, worker.(next := worker.next + 1))
        else
          var (t, items) := BuildRow(c, s.t, worker.items, r);
          Put(s.(t := t), w, worker.(next := worker.next + 1, items := items))
    case Finish(w) =>
      if !worker.Building? || worker.next < |worker.page| then s
      else if worker.items != [] then Put(s, w, Submitted(worker.pending, worker.items))
      else if worker.pending.Some? then Put(s.(t := s.t.(cursor := worker.pending)), w, Idle)
      else Put(s, w, Idle)
    case Record(w, id) =>
      if !worker.Submitted? then s
      else Put(s.(t := s.t.(open := s.t.open + [Batch(id, worker.items, worker.pending)])), w, Idle)
    case Crash(w) => Put(s, w, Idle)
  }

  function Run(c: Corpus, s: State, steps: seq<Step>): State
    decreases |steps|
  {
    if steps == [] then s else Apply(c, Run(c, s, steps[..|steps| - 1]), steps[|steps| - 1])
  }

  lemma RunSnoc(c: Corpus, s: State, steps: seq<Step>, last: Step)
    ensures Run(c, s, steps + [last]) == Apply(c, Run(c, s, steps), last)
  {
    assert (steps + [last])[..|steps|] == steps;
  }

  lemma {:induction false} RunAppend(c: Corpus, s: State, a: seq<Step>, b: seq<Step>)
    ensures Run(c, s, a + b) == Run(c, Run(c, s, a), b)
    decreases |b|
  {
    if b == [] {
      assert a + b == a;
    } else {
      RunAppend(c, s, a, b[..|b| - 1]);
      assert (a + b)[..|a + b| - 1] == a + b[..|b| - 1];
    }
  }

  lemma RunTwo(c: Corpus, s: State, first: Step, second: Step)
    ensures Run(c, s, [first, second]) == Apply(c, Apply(c, s, first), second)
  {
    RunSnoc(c, s, [], first);
    RunSnoc(c, s, [first], second);
    assert [] + [first] == [first];
    assert [first] + [second] == [first, second];
  }

  lemma RunThree(c: Corpus, s: State, s0: Step, s1: Step, s2: Step)
    ensures Run(c, s, [s0, s1, s2]) == Apply(c, Apply(c, Apply(c, s, s0), s1), s2)
  {
    RunTwo(c, s, s0, s1);
    RunSnoc(c, s, [s0, s1], s2);
    assert [s0, s1] + [s2] == [s0, s1, s2];
  }

  const START := State(Tables([], None, {}, {}, []), map[])
}
