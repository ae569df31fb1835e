/**
 The derivation queue: derivable events in block order, a batch from the front at each tick, and what becomes of
 the events behind the batch.
 */
module DerivationQueue {
  import opened Wrappers
  import opened Sorting
  import opened DerivationTables

  // ---- The selector ----

  /** How the database orders text: strictly, since it breaks the ties of its collation by the bytes. */
  type TextOrder = (string, string) -> int

  ghost predicate IsTextOrder(collate: TextOrder) {
    && (forall a, b {:trigger collate(a, b)} ::
         (collate(a, b) < 0 <==> collate(b, a) > 0) && (collate(a, b) == 0 <==> a == b))
    && (forall a, b, c {:trigger collate(a, b), collate(b, c)} ::
         collate(a, b) < 0 && collate(b, c) < 0 ==> collate(a, c) < 0)
  }

  /** The parameters of one selection. */
  datatype Selector = Selector(collate: TextOrder, types: seq<string>, limit: nat, now: int)

  predicate NotHeld(t: Tables, id: int, now: int)
    requires id in t.status
  {
    t.status[id].holdUntil.None? || t.status[id].holdUntil.value <= now
  }

  predicate Derivable(t: Tables, q: Selector, e: Event) {
    && e.id in t.status
    && !t.status[e.id].derived
    && t.status[e.id].actorsResolved
    && e.eventType in q.types
    && NotHeld(t, e.id, q.now)
    && !Quarantined(t, e.coords)
  }

  /** ORDER BY chain_id, block_number, log_index, id */
  function InBlockOrder(collate: TextOrder): (Event, Event) -> int {
    (a: Event, b: Event) =>
      if a.coords.chain != b.coords.chain then collate(a.coords.chain, b.coords.chain)
      else if a.block != b.block then CompareInts(a.block, b.block)
      else if a.coords.log != b.coords.log then CompareInts(a.coords.log, b.coords.log)
      else CompareInts(a.id, b.id)
  }

  function DerivableNow(t: Tables, q: Selector): Event -> bool {
    (e: Event) => Derivable(t, q, e)
  }

  function Queue(t: Tables, q: Selector): seq<Event> {
    Sort(InBlockOrder(q.collate), Filter(DerivableNow(t, q), t.archive))
  }

  function FindDerivableBy(t: Tables, q: Selector): seq<Event> {
    if q.types == [] then []
    else
      var queue := Queue(t, q);
      if |queue| > q.limit then queue[..q.limit] else queue
  }

  lemma BlockOrderIsStrict(collate: TextOrder, archive: seq<Event>)
    requires IsTextOrder(collate)
    requires forall a, b :: a in archive && b in archive && a.id == b.id ==> a == b
    ensures Orders(InBlockOrder(collate), archive)
  {
    var cmp := InBlockOrder(collate);
    forall a, b | a in archive && b in archive
      ensures (cmp(a, b) < 0 <==> cmp(b, a) > 0) && (cmp(a, b) == 0 <==> a == b)
    {
      assert collate(b.coords.chain, a.coords.chain) == 0 <==> a.coords.chain == b.coords.chain;
      assert collate(a.coords.chain, b.coords.chain) == 0 <==> a.coords.chain == b.coords.chain;
    }
    forall a, b, c | a in archive && b in archive && c in archive && cmp(a, b) < 0 && cmp(b, c) < 0
      ensures cmp(a, c) < 0
    {
      BlockOrderIsTransitive(collate, a, b, c);
    }
  }

  lemma BlockOrderIsTransitive(collate: TextOrder, a: Event, b: Event, c: Event)
    requires IsTextOrder(collate)
    requires InBlockOrder(collate)(a, b) < 0 && InBlockOrder(collate)(b, c) < 0
    ensures InBlockOrder(collate)(a, c) < 0
  {
    var x, y, z := a.coords.chain, b.coords.chain, c.coords.chain;
    if x != y && y != z {
      assert collate(x, y) < 0 && collate(y, z) < 0;
      assert collate(x, z) < 0;
      assert collate(x, z) == 0 <==> x == z;
    }
  }

  lemma IdsIdentify(t: Tables)
    requires ArchiveOk(t)
    ensures NoDuplicates(t.archive)
    ensures forall a, b :: a in t.archive && b in t.archive && (a.id == b.id || a.coords == b.coords) ==> a == b
  {
    forall a, b | a in t.archive && b in t.archive && (a.id == b.id || a.coords == b.coords) ensures a == b {
      var i :| 0 <= i < |t.archive| && t.archive[i] == a;
      var j :| 0 <= j < |t.archive| && t.archive[j] == b;
      if i < j || j < i {
        assert false;
      }
    }
  }

  /** The queue holds exactly the derivable events, each once, in block order. */
  lemma QueueFacts(t: Tables, q: Selector)
    requires IsTextOrder(q.collate) && ArchiveOk(t)
    ensures Increasing(InBlockOrder(q.collate), Queue(t, q))
    ensures forall e :: e in Queue(t, q) <==> e in t.archive && Derivable(t, q, e)
  {
    var derivable, cmp := DerivableNow(t, q), InBlockOrder(q.collate);
    IdsIdentify(t);
    BlockOrderIsStrict(q.collate, t.archive);
    FilterFacts(derivable, t.archive);
    FilterDistinct(derivable, t.archive);
    var rows := Filter(derivable, t.archive);
    assert Orders(cmp, rows);
    SortFacts(cmp, rows);
    SortIncreasing(cmp, rows);
  }

  /** Nothing quarantined, held, derived or unresolved is ever selected. */
  lemma SelectedIsDerivable(t: Tables, q: Selector)
    requires IsTextOrder(q.collate) && ArchiveOk(t)
    ensures var batch := FindDerivableBy(t, q);
            && |batch| <= q.limit
            && Increasing(InBlockOrder(q.collate), batch)
            && forall e :: e in batch ==> e in t.archive && Derivable(t, q, e)
  {
    QueueFacts(t, q);
  }

  /** Within a chain, batches run by block and then by log index. */
  lemma SelectedInBlockOrder(t: Tables, q: Selector, i: nat, j: nat)
    requires IsTextOrder(q.collate) && ArchiveOk(t) && i < j < |FindDerivableBy(t, q)|
    ensures var a, b := FindDerivableBy(t, q)[i], FindDerivableBy(t, q)[j];
            a.coords.chain == b.coords.chain ==>
              a.block < b.block || (a.block == b.block && a.coords.log <= b.coords.log)
  {
    SelectedIsDerivable(t, q);
    var batch := FindDerivableBy(t, q);
    if batch[i].coords.chain == batch[j].coords.chain {
      EarlierInBlockOrder(q.collate, batch[i], batch[j]);
    }
  }

  lemma EarlierInBlockOrder(collate: TextOrder, a: Event, b: Event)
    requires InBlockOrder(collate)(a, b) < 0 && a.coords.chain == b.coords.chain
    ensures a.block < b.block || (a.block == b.block && a.coords.log <= b.coords.log)
  {
    if a.block != b.block {
      assert InBlockOrder(collate)(a, b) == CompareInts(a.block, b.block);
    } else if a.coords.log != b.coords.log {
      assert InBlockOrder(collate)(a, b) == CompareInts(a.coords.log, b.coords.log);
    }
  }

  // ---- One tick ----

  /** What became of a selected row; an applier that throws may leave rows of its run untouched. */
  datatype Outcome =
    | Untouched
    | Done
    | Hold(until: int)
    | Failed
    | DeadLettered(stage: string, retries: int, at: int, error: string)

  /** What an outcome writes for a row; a dead letter comes with the failed attempt, and names its event if on-chain. */
  function Write(t: Tables, id: int, origin: Option<Coords>, outcome: Outcome): (t': Tables)
    requires id in t.status
    ensures t'.archive == t.archive && t'.status.Keys == t.status.Keys
  {
    match outcome
    case Untouched => t
    case Done => MarkDerived(t, id)
    case Hold(until) => MarkHeld(t, id, until)
    case Failed => IncrementAttempts(t, id)
    case DeadLettered(stage, retries, at, error) =>
      InsertDlq(IncrementAttempts(t, id), stage, origin, retries, at, error)
  }

  function Apply(t: Tables, e: Event, outcome: Outcome): (t': Tables)
    requires e.id in t.status
    ensures t'.archive == t.archive && t'.status.Keys == t.status.Keys
  {
    Write(t, e.id, Some(e.coords), outcome)
  }

  /** The row is gone from the queue at this time. */
  predicate Leaves(now: int, outcome: Outcome) {
    outcome.Done? || (outcome.Hold? && outcome.until > now) ||
    (outcome.DeadLettered? && IsProjectionStage(outcome.stage))
  }

  function ApplyAll(t: Tables, batch: seq<Event>, outcome: Event -> Outcome): (t': Tables)
    requires forall e :: e in batch ==> e.id in t.status
    ensures t'.archive == t.archive && t'.status.Keys == t.status.Keys
    decreases |batch|
  {
    if batch == [] then t
    else
      assert forall e :: e in batch[1..] ==> e in batch;
      assert batch[0] in batch;
      ApplyAll(Apply(t, batch[0], outcome(batch[0])), batch[1..], outcome)
  }

  /** One outcome takes its own row out of the queue, if it leaves, and no other. */
  lemma ApplyTakesOut(t: Tables, q: Selector, x: Event, outcome: Outcome, e: Event)
    requires ArchiveOk(t) && x in t.archive && e in t.archive && Derivable(t, q, x)
    ensures Derivable(Apply(t, x, outcome), q, e) <==>
            Derivable(t, q, e) && !(e == x && Leaves(q.now, outcome))
  {
    IdsIdentify(t);
    match outcome
    case Untouched =>
    case Done =>
    case Hold(until) =>
    case Failed =>
    case DeadLettered(stage, retries, at, error) =>
      UpsertFacts(t.dlq, DeadLetter(t.nextId, stage, Some(x.coords), retries, at, error));
      assert e.coords == x.coords ==> e == x;
  }

  lemma {:induction false} ApplyAllTakesOut(t: Tables, q: Selector, batch: seq<Event>,
                                            outcome: Event -> Outcome, e: Event)
    requires ArchiveOk(t) && NoDuplicates(batch) && e in t.archive
    requires forall x :: x in batch ==> x in t.archive && Derivable(t, q, x)
    ensures Derivable(ApplyAll(t, batch, outcome), q, e) <==>
            Derivable(t, q, e) && !(e in batch && Leaves(q.now, outcome(e)))
    decreases |batch|
  {
    if batch != [] {
      var x, rest := batch[0], batch[1..];
      var t' := Apply(t, x, outcome(x));
      assert x in batch && batch == [x] + rest;
      TailDistinct(batch);
      forall y | y in rest ensures y in t'.archive && Derivable(t', q, y) {
        ApplyTakesOut(t, q, x, outcome(x), y);
      }
      ApplyAllTakesOut(t', q, rest, outcome, e);
      ApplyTakesOut(t, q, x, outcome(x), e);
    }
  }

  function Tick(t: Tables, q: Selector, outcome: Event -> Outcome)
    : Tables
    requires IsTextOrder(q.collate) && ArchiveOk(t)
  {
    SelectedIsDerivable(t, q);
    ApplyAll(t, FindDerivableBy(t, q), outcome)
  }

  function Stays(now: int, outcome: Event -> Outcome): Event -> bool {
    (e: Event) => !Leaves(now, outcome(e))
  }

  function Front<T>(queue: seq<T>, limit: nat): seq<T> {
    if |queue| > limit then queue[..limit] else queue
  }

  function Back<T>(queue: seq<T>, limit: nat): seq<T> {
    if |queue| > limit then queue[limit..] else []
  }

  lemma OrderedIsDistinct(cmp: (Event, Event) -> int, queue: seq<Event>)
    requires Increasing(cmp, queue) && Orders(cmp, queue)
    ensures NoDuplicates(queue)
  {
    forall i, j | 0 <= i < j < |queue| ensures queue[i] != queue[j] {
      assert queue[i] in queue && cmp(queue[i], queue[j]) < 0;
      assert cmp(queue[i], queue[i]) == 0;
    }
  }

  lemma SplitAtLimit<T(!new)>(cmp: (T, T) -> int, queue: seq<T>, limit: nat)
    requires Increasing(cmp, queue)
    ensures queue == Front(queue, limit) + Back(queue, limit)
    ensures Increasing(cmp, Front(queue, limit)) && Increasing(cmp, Back(queue, limit))
    ensures forall x, y :: x in Front(queue, limit) && y in Back(queue, limit) ==> cmp(x, y) < 0
  {
    var front, back := Front(queue, limit), Back(queue, limit);
    forall x, y | x in front && y in back ensures cmp(x, y) < 0 {
      var i :| 0 <= i < |front| && front[i] == x;
      var j :| 0 <= j < |back| && back[j] == y;
      assert queue[i] == x && queue[limit + j] == y;
    }
  }

  lemma QueueIsOrdered(t: Tables, q: Selector)
    requires IsTextOrder(q.collate) && ArchiveOk(t)
    ensures Orders(InBlockOrder(q.collate), Queue(t, q))
    ensures NoDuplicates(Queue(t, q))
  {
    QueueFacts(t, q);
    IdsIdentify(t);
    BlockOrderIsStrict(q.collate, t.archive);
    assert forall e :: e in Queue(t, q) ==> e in t.archive;
    OrderedIsDistinct(InBlockOrder(q.collate), Queue(t, q));
  }

  lemma NoTypesNoQueue(t: Tables, q: Selector)
    requires q.types == []
    ensures Queue(t, q) == []
  {
    FilterNone(DerivableNow(t, q), t.archive);
  }

  lemma BatchIsFront(t: Tables, q: Selector)
    requires IsTextOrder(q.collate) && ArchiveOk(t)
    ensures FindDerivableBy(t, q) == Front(Queue(t, q), q.limit)
    ensures NoDuplicates(FindDerivableBy(t, q))
  {
    var queue := Queue(t, q);
    QueueFacts(t, q);
    QueueIsOrdered(t, q);
    if q.types == [] {
      NoTypesNoQueue(t, q);
    }
  }

  /** After a tick the queue is what stayed of the batch, followed by everything behind the batch. */
  lemma TickMovesQueueUp(t: Tables, q: Selector, outcome: Event -> Outcome)
    requires IsTextOrder(q.collate) && ArchiveOk(t)
    ensures var queue := Queue(t, q);
            Queue(Tick(t, q, outcome), q) ==
            Filter(Stays(q.now, outcome), Front(queue, q.limit)) + Back(queue, q.limit)
    ensures ArchiveOk(Tick(t, q, outcome))
  {
    var cmp, queue := InBlockOrder(q.collate), Queue(t, q);
    var t' := Tick(t, q, outcome);
    var stayed, back := Filter(Stays(q.now, outcome), Front(queue, q.limit)), Back(queue, q.limit);
    QueueFacts(t', q);
    QueueIsOrdered(t', q);
    StayedThenBack(t, q, outcome);
    forall e ensures e in Queue(t', q) <==> e in stayed + back {
      MembersAfterTick(t, q, outcome, e);
    }
    OneOrderedList(cmp, Queue(t', q), stayed + back);
  }

  lemma StayedThenBack(t: Tables, q: Selector, outcome: Event -> Outcome)
    requires IsTextOrder(q.collate) && ArchiveOk(t)
    ensures var queue := Queue(t, q);
            Increasing(InBlockOrder(q.collate), Filter(Stays(q.now, outcome), Front(queue, q.limit)) + Back(queue, q.limit))
  {
    var cmp, queue := InBlockOrder(q.collate), Queue(t, q);
    QueueFacts(t, q);
    SplitAtLimit(cmp, queue, q.limit);
    FilterFacts(Stays(q.now, outcome), Front(queue, q.limit));
    FilterIncreasing(cmp, Stays(q.now, outcome), Front(queue, q.limit));
    AppendIncreasing(cmp, Filter(Stays(q.now, outcome), Front(queue, q.limit)), Back(queue, q.limit));
  }

  lemma MembersAfterTick(t: Tables, q: Selector, outcome: Event -> Outcome, e: Event)
    requires IsTextOrder(q.collate) && ArchiveOk(t)
    ensures var queue := Queue(t, q);
            e in Queue(Tick(t, q, outcome), q) <==>
            e in Filter(Stays(q.now, outcome), Front(queue, q.limit)) + Back(queue, q.limit)
  {
    var queue := Queue(t, q);
    QueueFacts(t, q);
    QueueFacts(Tick(t, q, outcome), q);
    QueueIsOrdered(t, q);
    BatchIsFront(t, q);
    FrontOrBack(queue, q.limit, e);
    FilterFacts(Stays(q.now, outcome), Front(queue, q.limit));
    SelectedIsDerivable(t, q);
    if e in t.archive {
      ApplyAllTakesOut(t, q, FindDerivableBy(t, q), outcome, e);
    }
  }

  lemma FrontOrBack<T>(queue: seq<T>, limit: nat, e: T)
    requires NoDuplicates(queue)
    ensures e in queue <==> e in Front(queue, limit) || e in Back(queue, limit)
    ensures !(e in Front(queue, limit) && e in Back(queue, limit))
  {
    if |queue| > limit {
      assert queue == queue[..limit] + queue[limit..];
    }
  }

  // ---- Runs of ticks at a fixed time ----

  /** The rows of the batch that leave the queue. */
  function Leaving(t: Tables, q: Selector, outcome: Event -> Outcome)
    : nat
  {
    var batch := FindDerivableBy(t, q);
    FilterFacts(Stays(q.now, outcome), batch);
    |batch| - |Filter(Stays(q.now, outcome), batch)|
  }

  /** All rows that leave over a run of ticks. */
  function Left(t: Tables, q: Selector, ticks: seq<Event -> Outcome>): nat
    requires IsTextOrder(q.collate) && ArchiveOk(t)
    decreases |ticks|
  {
    if ticks == [] then 0
    else
      TickMovesQueueUp(t, q, ticks[0]);
      Leaving(t, q, ticks[0])
        + Left(Tick(t, q, ticks[0]), q, ticks[1..])
  }

  /** The event is in the batch of one of the ticks. */
  predicate EverSelected(t: Tables, q: Selector, ticks: seq<Event -> Outcome>, e: Event)
    requires IsTextOrder(q.collate) && ArchiveOk(t)
    decreases |ticks|
  {
    ticks != [] &&
    (TickMovesQueueUp(t, q, ticks[0]);
     e in FindDerivableBy(t, q) ||
     EverSelected(Tick(t, q, ticks[0]), q, ticks[1..], e))
  }

  /** Replacing the front of a list by a shorter one moves what is behind it up. */
  lemma ShorterFront(queue: seq<Event>, limit: nat, stayed: seq<Event>, place: nat)
    requires limit <= place < |queue| && |stayed| <= |Front(queue, limit)|
    ensures var gone, rest := |Front(queue, limit)| - |stayed|, stayed + Back(queue, limit);
            gone <= limit && |rest| == |queue| - gone && rest[place - gone] == queue[place]
  {
  }

  /** A row behind the batch moves up by the number of rows that leave. */
  lemma RowMovesUp(t: Tables, q: Selector, outcome: Event -> Outcome, place: nat)
    requires IsTextOrder(q.collate) && ArchiveOk(t)
    requires q.limit <= place < |Queue(t, q)|
    ensures ArchiveOk(Tick(t, q, outcome))
    ensures var queue := Queue(t, q);
            var queue' := Queue(Tick(t, q, outcome), q);
            var gone := Leaving(t, q, outcome);
            gone <= q.limit && |queue'| == |queue| - gone && queue'[place - gone] == queue[place]
  {
    var queue := Queue(t, q);
    TickMovesQueueUp(t, q, outcome);
    BatchIsFront(t, q);
    FilterFacts(Stays(q.now, outcome), Front(queue, q.limit));
    ShorterFront(queue, q.limit, Filter(Stays(q.now, outcome), Front(queue, q.limit)), place);
  }

  lemma EmptyTicks(t: Tables, q: Selector, ticks: seq<Event -> Outcome>, k: nat)
    requires IsTextOrder(q.collate) && ArchiveOk(t) && 0 < k <= |ticks|
    ensures ArchiveOk(Tick(t, q, ticks[0]))
    ensures Left(t, q, ticks[..k]) == Leaving(t, q, ticks[0]) + Left(Tick(t, q, ticks[0]), q, ticks[1..][..k - 1])
  {
    TickMovesQueueUp(t, q, ticks[0]);
    assert ticks[..k][1..] == ticks[1..][..k - 1];
  }

  /**
   The event at a given place of the queue is selected exactly when, before some tick, enough rows have left the
   queue to bring it into the batch.
   */
  lemma {:induction false} SelectedExactlyWhen(t: Tables, q: Selector, ticks: seq<Event -> Outcome>, place: nat)
    requires IsTextOrder(q.collate) && ArchiveOk(t) && place < |Queue(t, q)|
    ensures EverSelected(t, q, ticks, Queue(t, q)[place]) <==>
            exists k :: 0 <= k < |ticks| && place < q.limit + Left(t, q, ticks[..k])
    decreases |ticks|
  {
    if ticks != [] {
      var e := Queue(t, q)[place];
      InBatchByPlace(t, q, place);
      assert ticks[..0] == [];
      assert Left(t, q, ticks[..0]) == 0;
      if place >= q.limit {
        var t', gone := Tick(t, q, ticks[0]), Leaving(t, q, ticks[0]);
        RowMovesUp(t, q, ticks[0], place);
        TickMovesQueueUp(t, q, ticks[0]);
        SelectedExactlyWhen(t', q, ticks[1..], place - gone);
        ShiftTicks(t, q, ticks, place);
      }
    }
  }

  lemma ShiftTicks(t: Tables, q: Selector, ticks: seq<Event -> Outcome>, place: nat)
    requires IsTextOrder(q.collate) && ArchiveOk(t) && ticks != [] && place >= q.limit
    ensures ArchiveOk(Tick(t, q, ticks[0]))
    ensures (exists k :: 0 <= k < |ticks| && place < q.limit + Left(t, q, ticks[..k])) <==>
            (exists k :: 0 <= k < |ticks| - 1 &&
               place - Leaving(t, q, ticks[0]) < q.limit + Left(Tick(t, q, ticks[0]), q, ticks[1..][..k]))
  {
    TickMovesQueueUp(t, q, ticks[0]);
    var t', gone, rest := Tick(t, q, ticks[0]), Leaving(t, q, ticks[0]), ticks[1..];
    if k :| 0 <= k < |ticks| && place < q.limit + Left(t, q, ticks[..k]) {
      assert ticks[..0] == [];
      assert k > 0;
      EmptyTicks(t, q, ticks, k);
      assert place - gone < q.limit + Left(t', q, rest[..k - 1]);
    }
    if k :| 0 <= k < |ticks| - 1 && place - gone < q.limit + Left(t', q, rest[..k]) {
      EmptyTicks(t, q, ticks, k + 1);
      assert place < q.limit + Left(t, q, ticks[..k + 1]);
    }
  }

  lemma InBatchByPlace(t: Tables, q: Selector, place: nat)
    requires IsTextOrder(q.collate) && ArchiveOk(t) && place < |Queue(t, q)|
    ensures Queue(t, q)[place] in FindDerivableBy(t, q) <==> place < q.limit
  {
    var queue := Queue(t, q);
    QueueIsOrdered(t, q);
    BatchIsFront(t, q);
    if queue[place] in Front(queue, q.limit) {
      var i :| 0 <= i < |Front(queue, q.limit)| && Front(queue, q.limit)[i] == queue[place];
      assert queue[i] == queue[place];
    }
  }

  /** Every row a tick selects ends the tick derived, held past this time or dead-lettered. */
  ghost predicate AllLeave(now: int, outcome: Event -> Outcome) {
    forall e :: Leaves(now, outcome(e))
  }

  lemma {:induction false} NobodyStays(now: int, outcome: Event -> Outcome, batch: seq<Event>)
    requires AllLeave(now, outcome)
    ensures Filter(Stays(now, outcome), batch) == []
  {
    if batch != [] {
      NobodyStays(now, outcome, batch[1..]);
    }
  }

  lemma WholeBatchCounts(t: Tables, q: Selector, outcome: Event -> Outcome)
    requires IsTextOrder(q.collate) && ArchiveOk(t) && q.limit <= |Queue(t, q)| && AllLeave(q.now, outcome)
    ensures Leaving(t, q, outcome) == q.limit
  {
    NobodyStays(q.now, outcome, FindDerivableBy(t, q));
    BatchIsFront(t, q);
  }

  /** A row behind the batch moves up by the whole batch. */
  lemma WholeBatchLeaves(t: Tables, q: Selector, outcome: Event -> Outcome, place: nat)
    requires IsTextOrder(q.collate) && ArchiveOk(t) && q.limit <= place < |Queue(t, q)| && AllLeave(q.now, outcome)
    ensures ArchiveOk(Tick(t, q, outcome))
    ensures var queue' := Queue(Tick(t, q, outcome), q);
            place - q.limit < |queue'| && queue'[place - q.limit] == Queue(t, q)[place]
  {
    assert Leaving(t, q, outcome) == q.limit by { WholeBatchCounts(t, q, outcome); }
    RowMovesUp(t, q, outcome, place);
  }

  /** What stands behind the batch is selected by a later tick or not at all. */
  lemma SelectedLater(t: Tables, q: Selector, ticks: seq<Event -> Outcome>, place: nat)
    requires IsTextOrder(q.collate) && ArchiveOk(t) && ticks != [] && q.limit <= place < |Queue(t, q)|
    ensures ArchiveOk(Tick(t, q, ticks[0]))
    ensures EverSelected(t, q, ticks, Queue(t, q)[place])
            <==> EverSelected(Tick(t, q, ticks[0]), q, ticks[1..], Queue(t, q)[place])
  {
    TickMovesQueueUp(t, q, ticks[0]);
    InBatchByPlace(t, q, place);
  }

  lemma OneBatchFurther(place: nat, limit: nat)
    requires limit > 0
    ensures place / limit == if place < limit then 0 else (place - limit) / limit + 1
  {
    if place >= limit {
      var k := (place - limit) / limit;
      assert (k + 1) * limit == k * limit + limit;
      QuotientIs(place, limit, k + 1);
    } else {
      QuotientIs(place, limit, 0);
    }
  }

  lemma QuotientIs(a: nat, b: nat, k: nat)
    requires k * b <= a < k * b + b
    ensures a / b == k
  {
    var q, r := a / b, a % b;
    assert a == q * b + r;
    TimesMonotone(q + 1, k, b);
    TimesMonotone(k + 1, q, b);
  }

  lemma TimesMonotone(x: nat, y: nat, b: nat)
    ensures x <= y ==> x * b <= y * b
  {
  }

  /**
   Held rows cannot starve the queue: when every selected row leaves, the event at place p is selected at tick
   p / limit and no earlier.
   */
  lemma {:induction false} NoStarvation(t: Tables, q: Selector, ticks: seq<Event -> Outcome>, place: nat)
    requires IsTextOrder(q.collate) && ArchiveOk(t) && q.limit > 0 && place < |Queue(t, q)|
    requires forall outcome :: outcome in ticks ==> AllLeave(q.now, outcome)
    ensures EverSelected(t, q, ticks, Queue(t, q)[place]) <==> place / q.limit < |ticks|
    decreases |ticks|
  {
    if ticks != [] {
      OneBatchFurther(place, q.limit);
      if place < q.limit {
        InBatchByPlace(t, q, place);
      } else {
        SelectedLater(t, q, ticks, place);
        assert ticks[0] in ticks && forall outcome :: outcome in ticks[1..] ==> outcome in ticks;
        WholeBatchLeaves(t, q, ticks[0], place);
        NoStarvation(Tick(t, q, ticks[0]), q, ticks[1..], place - q.limit);
      }
    }
  }

  /** A batch that fails for good blocks everything behind it. */
  lemma {:induction false} FailingBatchBlocks(t: Tables, q: Selector, ticks: seq<Event -> Outcome>, place: nat)
    requires IsTextOrder(q.collate) && ArchiveOk(t) && q.limit <= place < |Queue(t, q)|
    requires forall outcome, e :: outcome in ticks ==> !Leaves(q.now, outcome(e))
    ensures !EverSelected(t, q, ticks, Queue(t, q)[place])
    decreases |ticks|
  {
    if ticks != [] {
      assert ticks[0] in ticks && forall outcome :: outcome in ticks[1..] ==> outcome in ticks;
      InBatchByPlace(t, q, place);
      var batch := FindDerivableBy(t, q);
      FilterSuffix(Stays(q.now, ticks[0]), batch, 0);
      RowMovesUp(t, q, ticks[0], place);
      TickMovesQueueUp(t, q, ticks[0]);
      FailingBatchBlocks(Tick(t, q, ticks[0]), q, ticks[1..], place);
    }
  }

  // ---- Selection and writes in plain terms ----

  /** What keeps an event out: an active failure at a projection stage, or an accepted one. */
  ghost predicate KeptOut(t: Tables, c: Coords) {
    || (exists row :: row in t.dlq && row.origin == Some(c) && IsProjectionStage(row.stage))
    || (exists x :: x in t.resolved && x.kind == Accepted && x.row.origin == Some(c) && IsProjectionStage(x.row.stage))
  }

  /** Underived, with its actors resolved, of an asked type, not held beyond now and not kept out. */
  ghost predicate MayBeDerived(t: Tables, q: Selector, e: Event) {
    && e in t.archive && e.id in t.status
    && !t.status[e.id].derived && t.status[e.id].actorsResolved && e.eventType in q.types
    && (t.status[e.id].holdUntil.Some? ==> t.status[e.id].holdUntil.value <= q.now)
    && !KeptOut(t, e.coords)
  }

  /** By chain in the database's text order, then block, log index and id. */
  predicate EventBefore(collate: TextOrder, a: Event, b: Event) {
    if a.coords.chain != b.coords.chain then collate(a.coords.chain, b.coords.chain) < 0
    else if a.block != b.block then a.block < b.block
    else if a.coords.log != b.coords.log then a.coords.log < b.coords.log
    else a.id < b.id
  }

  lemma DerivableMeans(t: Tables, q: Selector, e: Event)
    requires e in t.archive
    ensures Derivable(t, q, e) <==> MayBeDerived(t, q, e)
  {
    assert Quarantined(t, e.coords) <==> KeptOut(t, e.coords) by {
      if row :| row in t.dlq && Blocks(row, e.coords) {
        assert row.origin == Some(e.coords);
      }
      if x :| x in t.resolved && x.kind.Accepted? && Blocks(x.row, e.coords) {
        assert x.row.origin == Some(e.coords);
      }
      if row :| row in t.dlq && row.origin == Some(e.coords) && IsProjectionStage(row.stage) {
        assert Blocks(row, e.coords);
      }
      if x :| x in t.resolved && x.kind == Accepted && x.row.origin == Some(e.coords) && IsProjectionStage(x.row.stage) {
        assert Blocks(x.row, e.coords);
      }
    }
  }

  lemma BlockOrderMeans(collate: TextOrder, a: Event, b: Event)
    ensures InBlockOrder(collate)(a, b) < 0 <==> EventBefore(collate, a, b)
  {
    if a.coords.chain != b.coords.chain {
      assert InBlockOrder(collate)(a, b) == collate(a.coords.chain, b.coords.chain);
    } else if a.block != b.block {
      assert InBlockOrder(collate)(a, b) == CompareInts(a.block, b.block);
    } else if a.coords.log != b.coords.log {
      assert InBlockOrder(collate)(a, b) == CompareInts(a.coords.log, b.coords.log);
    } else {
      assert InBlockOrder(collate)(a, b) == CompareInts(a.id, b.id);
    }
  }

  /** A batch is the first of the events that may be derived, up to the limit. */
  lemma BatchInPlainTerms(t: Tables, q: Selector)
    requires IsTextOrder(q.collate) && ArchiveOk(t)
    ensures var batch := FindDerivableBy(t, q);
            && |batch| <= q.limit
            && (forall i, j :: 0 <= i < j < |batch| ==> EventBefore(q.collate, batch[i], batch[j]))
            && (forall e :: e in batch ==> MayBeDerived(t, q, e))
            && (forall x :: x !in batch && MayBeDerived(t, q, x) ==>
                 |batch| == q.limit && forall e :: e in batch ==> EventBefore(q.collate, e, x))
  {
    var cmp, queue, batch := InBlockOrder(q.collate), Queue(t, q), FindDerivableBy(t, q);
    SelectedIsDerivable(t, q);
    QueueFacts(t, q);
    QueueIsOrdered(t, q);
    BatchIsFront(t, q);
    SplitAtLimit(cmp, queue, q.limit);
    forall i, j | 0 <= i < j < |batch| ensures EventBefore(q.collate, batch[i], batch[j]) {
      BlockOrderMeans(q.collate, batch[i], batch[j]);
    }
    forall e | e in batch ensures MayBeDerived(t, q, e) {
      DerivableMeans(t, q, e);
    }
    forall x | x !in batch && MayBeDerived(t, q, x)
      ensures |batch| == q.limit && forall e :: e in batch ==> EventBefore(q.collate, e, x)
    {
      DerivableMeans(t, q, x);
      FrontOrBack(queue, q.limit, x);
      forall e | e in batch ensures EventBefore(q.collate, e, x) {
        BlockOrderMeans(q.collate, e, x);
      }
    }
  }

  /** The columns an outcome writes: one row's, and nothing else. */
  lemma WriteMeans(t: Tables, id: int, origin: Option<Coords>, outcome: Outcome)
    requires id in t.status
    ensures var t', before := Write(t, id, origin, outcome), t.status[id];
            && t'.archive == t.archive && t'.resolved == t.resolved && t'.status.Keys == t.status.Keys
            && (forall x :: x in t.status && x != id ==> t'.status[x] == t.status[x])
            && t'.status[id].derived == (before.derived || outcome == Done)
            && t'.status[id].actorsResolved == before.actorsResolved
            && t'.status[id].holdUntil == (if outcome.Hold? then Some(outcome.until) else before.holdUntil)
            && t'.status[id].attempts ==
               before.attempts + (if outcome == Failed || outcome.DeadLettered? then 1 else 0)
            && (!outcome.DeadLettered? ==> t'.dlq == t.dlq && t'.nextId == t.nextId)
            && (outcome.DeadLettered? ==>
                  t'.dlq == InsertDlq(t, outcome.stage, origin, outcome.retries, outcome.at, outcome.error).dlq)
  {
  }
}
