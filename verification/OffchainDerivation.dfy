/**
 The off-chain half of the derivation tick: blockless rows of the same archive table, ordered by the source's own
 ordinal, held like the others but never quarantined. The two halves share the status columns and the dead letters.
 */
module OffchainDerivation {
  import opened Wrappers
  import opened Sorting
  import opened DerivationTables
  import opened DerivationQueue

  /** An off-chain archive row; rows without an ordinal come last. */
  datatype OffchainEvent = OffchainEvent(id: int, sourceType: string, chain: string, externalId: string,
                                         ordinal: Option<int>, eventType: string)

  /** Rows of both shapes have different ids, and each row has a status. */
  ghost predicate OffchainOk(offchain: seq<OffchainEvent>, t: Tables) {
    && (forall i, j :: 0 <= i < j < |offchain| ==> offchain[i].id != offchain[j].id)
    && (forall x :: x in offchain ==> x.id in t.status)
    && (forall x, e :: x in offchain && e in t.archive ==> x.id != e.id)
  }

  predicate OffchainDerivable(status: map<int, Status>, q: Selector, x: OffchainEvent) {
    && x.id in status
    && !status[x.id].derived
    && status[x.id].actorsResolved
    && x.eventType in q.types
    && (status[x.id].holdUntil.None? || status[x.id].holdUntil.value <= q.now)
  }

  function CompareOrdinals(a: Option<int>, b: Option<int>): int {
    match (a, b)
    case (None, None) => 0
    case (None, Some(_)) => 1
    case (Some(_), None) => -1
    case (Some(x), Some(y)) => CompareInts(x, y)
  }

  /** ORDER BY chain_id, derivation_ordinal, external_id, id */
  function InOrdinalOrder(collate: TextOrder): (OffchainEvent, OffchainEvent) -> int {
    (a: OffchainEvent, b: OffchainEvent) =>
      if a.chain != b.chain then collate(a.chain, b.chain)
      else if a.ordinal != b.ordinal then CompareOrdinals(a.ordinal, b.ordinal)
      else if a.externalId != b.externalId then collate(a.externalId, b.externalId)
      else CompareInts(a.id, b.id)
  }

  function OffchainNow(status: map<int, Status>, q: Selector): OffchainEvent -> bool {
    (x: OffchainEvent) => OffchainDerivable(status, q, x)
  }

  function OffchainQueue(status: map<int, Status>, offchain: seq<OffchainEvent>, q: Selector): seq<OffchainEvent> {
    Sort(InOrdinalOrder(q.collate), Filter(OffchainNow(status, q), offchain))
  }

  function FindDerivableByOffchain(t: Tables, offchain: seq<OffchainEvent>, q: Selector): seq<OffchainEvent> {
    if q.types == [] then []
    else
      var queue := OffchainQueue(t.status, offchain, q);
      if |queue| > q.limit then queue[..q.limit] else queue
  }

  // ---- The order and the batch ----

  lemma OrdinalOrderIsTransitive(collate: TextOrder, a: OffchainEvent, b: OffchainEvent, c: OffchainEvent)
    requires IsTextOrder(collate)
    requires InOrdinalOrder(collate)(a, b) < 0 && InOrdinalOrder(collate)(b, c) < 0
    ensures InOrdinalOrder(collate)(a, c) < 0
  {
    TextStepIsTransitive(collate, a.chain, b.chain, c.chain);
    TextStepIsTransitive(collate, a.externalId, b.externalId, c.externalId);
  }

  lemma TextStepIsTransitive(collate: TextOrder, x: string, y: string, z: string)
    requires IsTextOrder(collate)
    ensures collate(x, y) < 0 && collate(y, z) < 0 ==> collate(x, z) < 0 && x != z
    ensures x != y ==> collate(x, y) != 0
  {
    assert collate(x, z) == 0 <==> x == z;
  }

  lemma OrdinalOrderIsStrict(collate: TextOrder, offchain: seq<OffchainEvent>)
    requires IsTextOrder(collate)
    requires forall a, b :: a in offchain && b in offchain && a.id == b.id ==> a == b
    ensures Orders(InOrdinalOrder(collate), offchain)
  {
    var cmp := InOrdinalOrder(collate);
    forall a, b | a in offchain && b in offchain
      ensures (cmp(a, b) < 0 <==> cmp(b, a) > 0) && (cmp(a, b) == 0 <==> a == b)
    {
      assert collate(b.chain, a.chain) == 0 <==> a.chain == b.chain;
      assert collate(a.externalId, b.externalId) == 0 <==> a.externalId == b.externalId;
    }
    forall a, b, c | a in offchain && b in offchain && c in offchain && cmp(a, b) < 0 && cmp(b, c) < 0
      ensures cmp(a, c) < 0
    {
      OrdinalOrderIsTransitive(collate, a, b, c);
    }
  }

  lemma OffchainIdsIdentify(offchain: seq<OffchainEvent>, t: Tables)
    requires OffchainOk(offchain, t)
    ensures NoDuplicates(offchain)
    ensures forall a, b :: a in offchain && b in offchain && a.id == b.id ==> a == b
  {
    forall a, b | a in offchain && b in offchain && a.id == b.id ensures a == b {
      var i :| 0 <= i < |offchain| && offchain[i] == a;
      var j :| 0 <= j < |offchain| && offchain[j] == b;
      if i < j || j < i {
        assert false;
      }
    }
  }

  lemma OffchainQueueFacts(t: Tables, offchain: seq<OffchainEvent>, q: Selector)
    requires IsTextOrder(q.collate) && OffchainOk(offchain, t)
    ensures var queue := OffchainQueue(t.status, offchain, q);
            && Increasing(InOrdinalOrder(q.collate), queue)
            && forall x :: x in queue <==> x in offchain && OffchainDerivable(t.status, q, x)
  {
    var derivable, cmp := OffchainNow(t.status, q), InOrdinalOrder(q.collate);
    OffchainIdsIdentify(offchain, t);
    OrdinalOrderIsStrict(q.collate, offchain);
    FilterFacts(derivable, offchain);
    FilterDistinct(derivable, offchain);
    var rows := Filter(derivable, offchain);
    assert Orders(cmp, rows);
    SortFacts(cmp, rows);
    SortIncreasing(cmp, rows);
  }

  /**
   A batch has at most limit rows, all derivable, in order; and a derivable row that is left out stands behind a full
   batch.
   */
  lemma OffchainBatchFacts(t: Tables, offchain: seq<OffchainEvent>, q: Selector)
    requires IsTextOrder(q.collate) && OffchainOk(offchain, t)
    ensures var batch := FindDerivableByOffchain(t, offchain, q);
            && |batch| <= q.limit
            && Increasing(InOrdinalOrder(q.collate), batch)
            && (forall x :: x in batch ==> x in offchain && OffchainDerivable(t.status, q, x))
            && (forall x :: x in offchain && OffchainDerivable(t.status, q, x) && x !in batch ==>
                 |batch| == q.limit && forall y :: y in batch ==> InOrdinalOrder(q.collate)(y, x) < 0)
  {
    OffchainQueueFacts(t, offchain, q);
    var cmp, queue := InOrdinalOrder(q.collate), OffchainQueue(t.status, offchain, q);
    if q.types != [] {
      assert FindDerivableByOffchain(t, offchain, q) == Front(queue, q.limit);
      SplitAtLimit(cmp, queue, q.limit);
      forall x | x in queue && x !in Front(queue, q.limit)
        ensures |Front(queue, q.limit)| == q.limit && x in Back(queue, q.limit)
      {
        FrontOrBack(queue, q.limit, x);
      }
    }
  }

  // ---- The tick ----

  function ApplyAllOffchain(t: Tables, batch: seq<OffchainEvent>, outcome: OffchainEvent -> Outcome): (t': Tables)
    requires forall x :: x in batch ==> x.id in t.status
    ensures t'.archive == t.archive && t'.status.Keys == t.status.Keys
    decreases |batch|
  {
    if batch == [] then t
    else
      assert forall x :: x in batch[1..] ==> x in batch;
      assert batch[0] in batch;
      ApplyAllOffchain(Write(t, batch[0].id, None, outcome(batch[0])), batch[1..], outcome)
  }

  function OffchainTick(t: Tables, offchain: seq<OffchainEvent>, q: Selector, outcome: OffchainEvent -> Outcome)
    : (t': Tables)
    requires IsTextOrder(q.collate) && OffchainOk(offchain, t)
    ensures t'.archive == t.archive && t'.status.Keys == t.status.Keys
  {
    OffchainBatchFacts(t, offchain, q);
    ApplyAllOffchain(t, FindDerivableByOffchain(t, offchain, q), outcome)
  }

  // ---- The halves do not disturb each other ----

  lemma {:induction false} StatusElsewhere(t: Tables, batch: seq<Event>, outcome: Event -> Outcome, id: int)
    requires forall e :: e in batch ==> e.id in t.status && e.id != id
    requires id in t.status
    ensures ApplyAll(t, batch, outcome).status[id] == t.status[id]
    decreases |batch|
  {
    if batch != [] {
      assert batch[0] in batch && forall e :: e in batch[1..] ==> e in batch;
      StatusElsewhere(Apply(t, batch[0], outcome(batch[0])), batch[1..], outcome, id);
    }
  }

  /** The on-chain half changes nothing the off-chain selection reads, so selecting before it is selecting after it. */
  lemma OffchainBatchStays(t: Tables, offchain: seq<OffchainEvent>, q: Selector, outcome: Event -> Outcome,
                           off: Selector)
    requires IsTextOrder(q.collate) && ArchiveOk(t) && OffchainOk(offchain, t)
    ensures OffchainOk(offchain, Tick(t, q, outcome))
    ensures FindDerivableByOffchain(Tick(t, q, outcome), offchain, off) == FindDerivableByOffchain(t, offchain, off)
  {
    SelectedIsDerivable(t, q);
    var t' := Tick(t, q, outcome);
    assert t'.archive == t.archive && t'.status.Keys == t.status.Keys;
    forall x | x in offchain ensures t'.status[x.id] == t.status[x.id] {
      StatusElsewhere(t, FindDerivableBy(t, q), outcome, x.id);
    }
    FilterAgrees(OffchainNow(t'.status, off), OffchainNow(t.status, off), offchain);
  }

  /** An off-chain outcome leaves an on-chain row's columns and its quarantine alone. */
  lemma OffchainWriteElsewhere(t: Tables, id: int, outcome: Outcome, e: Event)
    requires id in t.status && e.id in t.status && e.id != id
    ensures var t' := Write(t, id, None, outcome);
            t'.status[e.id] == t.status[e.id] && (Quarantined(t', e.coords) <==> Quarantined(t, e.coords))
  {
    match outcome
    case DeadLettered(stage, retries, at, error) =>
      UpsertFacts(t.dlq, DeadLetter(t.nextId, stage, None, retries, at, error));
    case _ =>
  }

  lemma {:induction false} OnchainRowStays(t: Tables, batch: seq<OffchainEvent>, outcome: OffchainEvent -> Outcome,
                                           e: Event)
    requires forall x :: x in batch ==> x.id in t.status && x.id != e.id
    requires e.id in t.status
    ensures var t' := ApplyAllOffchain(t, batch, outcome);
            t'.status[e.id] == t.status[e.id] && (Quarantined(t', e.coords) <==> Quarantined(t, e.coords))
    decreases |batch|
  {
    if batch != [] {
      assert batch[0] in batch && forall x :: x in batch[1..] ==> x in batch;
      OffchainWriteElsewhere(t, batch[0].id, outcome(batch[0]), e);
      OnchainRowStays(Write(t, batch[0].id, None, outcome(batch[0])), batch[1..], outcome, e);
    }
  }

  /** The off-chain half leaves the on-chain queue as it is, so what holds of the queue over ticks holds of whole ticks. */
  lemma OffchainLeavesQueue(t: Tables, offchain: seq<OffchainEvent>, off: Selector,
                            outcome: OffchainEvent -> Outcome, q: Selector)
    requires IsTextOrder(off.collate) && ArchiveOk(t) && OffchainOk(offchain, t)
    ensures var t' := OffchainTick(t, offchain, off, outcome);
            ArchiveOk(t') && OffchainOk(offchain, t') && Queue(t', q) == Queue(t, q)
  {
    OffchainBatchFacts(t, offchain, off);
    var t' := OffchainTick(t, offchain, off, outcome);
    forall e | e in t.archive ensures Derivable(t', q, e) <==> Derivable(t, q, e) {
      OnchainRowStays(t, FindDerivableByOffchain(t, offchain, off), outcome, e);
    }
    FilterAgrees(DerivableNow(t', q), DerivableNow(t, q), t.archive);
  }

  // ---- Selection in plain terms ----

  /** By chain, then ordinal with the rows without one last, then external id, both texts in the database's order, then id. */
  predicate OffchainBefore(collate: TextOrder, a: OffchainEvent, b: OffchainEvent) {
    if a.chain != b.chain then collate(a.chain, b.chain) < 0
    else if a.ordinal.None? && b.ordinal.Some? then false
    else if a.ordinal.Some? && b.ordinal.None? then true
    else if a.ordinal.Some? && b.ordinal.Some? && a.ordinal.value != b.ordinal.value then
      a.ordinal.value < b.ordinal.value
    else if a.externalId != b.externalId then collate(a.externalId, b.externalId) < 0
    else a.id < b.id
  }

  /** Underived, with its actors resolved, of an asked type and not held beyond now; no dead letter keeps it out. */
  predicate MayBeDerivedOffchain(t: Tables, q: Selector, x: OffchainEvent) {
    && x.id in t.status && !t.status[x.id].derived && t.status[x.id].actorsResolved && x.eventType in q.types
    && (t.status[x.id].holdUntil.Some? ==> t.status[x.id].holdUntil.value <= q.now)
  }

  lemma OrdinalOrderMeans(collate: TextOrder, a: OffchainEvent, b: OffchainEvent)
    ensures InOrdinalOrder(collate)(a, b) < 0 <==> OffchainBefore(collate, a, b)
  {
    if a.chain != b.chain {
      assert InOrdinalOrder(collate)(a, b) == collate(a.chain, b.chain);
    } else if a.ordinal != b.ordinal {
      assert InOrdinalOrder(collate)(a, b) == CompareOrdinals(a.ordinal, b.ordinal);
    } else if a.externalId != b.externalId {
      assert InOrdinalOrder(collate)(a, b) == collate(a.externalId, b.externalId);
    } else {
      assert InOrdinalOrder(collate)(a, b) == CompareInts(a.id, b.id);
    }
  }

  /** An off-chain batch is the first of the rows that may be derived, up to the limit. */
  lemma OffchainBatchInPlainTerms(t: Tables, offchain: seq<OffchainEvent>, q: Selector)
    requires IsTextOrder(q.collate) && OffchainOk(offchain, t)
    ensures var batch := FindDerivableByOffchain(t, offchain, q);
            && |batch| <= q.limit
            && (forall i, j :: 0 <= i < j < |batch| ==> OffchainBefore(q.collate, batch[i], batch[j]))
            && (forall x :: x in batch ==> x in offchain && MayBeDerivedOffchain(t, q, x))
            && (forall x :: x in offchain && x !in batch && MayBeDerivedOffchain(t, q, x) ==>
                 |batch| == q.limit && forall y :: y in batch ==> OffchainBefore(q.collate, y, x))
  {
    var batch := FindDerivableByOffchain(t, offchain, q);
    OffchainBatchFacts(t, offchain, q);
    forall i, j | 0 <= i < j < |batch| ensures OffchainBefore(q.collate, batch[i], batch[j]) {
      OrdinalOrderMeans(q.collate, batch[i], batch[j]);
    }
    forall x, y | x in offchain && x !in batch && MayBeDerivedOffchain(t, q, x) && y in batch
      ensures OffchainBefore(q.collate, y, x)
    {
      OrdinalOrderMeans(q.collate, y, x);
    }
  }
}
