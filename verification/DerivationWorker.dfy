/**
 The repositories over the derivation tables, and the worker's tick: select an on-chain and an off-chain batch, cut
 each into runs of one dispatch key, apply the runs in order.
 */
module DerivationWorker {
  import opened Wrappers
  import opened DerivationTables
  import opened DerivationQueue
  import opened OffchainDerivation

  function DispatchKey(): Event -> string {
    (e: Event) => e.coords.sourceType + ":" + e.coords.chain + ":" + e.eventType
  }

  function OffchainDispatchKey(): OffchainEvent -> string {
    (x: OffchainEvent) => x.sourceType + ":" + x.chain + ":" + x.eventType
  }

  function Joined<T>(runs: seq<seq<T>>): seq<T> {
    if runs == [] then [] else Joined(runs[..|runs| - 1]) + runs[|runs| - 1]
  }

  lemma JoinedPush<T>(runs: seq<seq<T>>, run: seq<T>)
    ensures Joined(runs + [run]) == Joined(runs) + run
  {
    assert (runs + [run])[..|runs|] == runs;
  }

  ghost predicate OneKey<T>(keyOf: T -> string, run: seq<T>, key: string) {
    run != [] && forall i :: 0 <= i < |run| ==> keyOf(run[i]) == key
  }

  /** A run has one key, and the run before it has another. */
  ghost predicate RunOk<T>(keyOf: T -> string, runs: seq<seq<T>>, i: nat)
    requires i < |runs|
  {
    && (exists key :: OneKey(keyOf, runs[i], key))
    && (i > 0 ==> runs[i - 1] != [] && keyOf(runs[i - 1][0]) != keyOf(runs[i][0]))
  }

  ghost predicate RunsOk<T>(keyOf: T -> string, runs: seq<seq<T>>) {
    forall i {:trigger RunOk(keyOf, runs, i)} :: 0 <= i < |runs| ==> RunOk(keyOf, runs, i)
  }

  lemma EarlierRunOk<T>(keyOf: T -> string, runs: seq<seq<T>>, runs': seq<seq<T>>, i: nat)
    requires RunsOk(keyOf, runs) && i < |runs| <= |runs'| && runs'[i] == runs[i] && (i > 0 ==> runs'[i - 1] == runs[i - 1])
    ensures RunOk(keyOf, runs', i)
  {
    assert RunOk(keyOf, runs, i);
  }

  lemma LastRunOk<T>(keyOf: T -> string, runs: seq<seq<T>>, run: seq<T>, key: string)
    requires OneKey(keyOf, run, key)
    requires runs != [] ==> runs[|runs| - 1] != [] && keyOf(runs[|runs| - 1][0]) != key
    ensures RunOk(keyOf, runs + [run], |runs|) && keyOf(run[0]) == key
  {
    var runs' := runs + [run];
    assert runs'[|runs|] == run && OneKey(keyOf, runs'[|runs|], key);
  }

  lemma EachRunOk<T>(keyOf: T -> string, runs: seq<seq<T>>, run: seq<T>, key: string, i: nat)
    requires RunsOk(keyOf, runs) && OneKey(keyOf, run, key) && i <= |runs|
    requires runs != [] ==> runs[|runs| - 1] != [] && keyOf(runs[|runs| - 1][0]) != key
    ensures RunOk(keyOf, runs + [run], i)
  {
    if i < |runs| {
      EarlierRunOk(keyOf, runs, runs + [run], i);
    } else {
      LastRunOk(keyOf, runs, run, key);
    }
  }

  lemma PushRun<T>(keyOf: T -> string, runs: seq<seq<T>>, run: seq<T>, key: string)
    requires RunsOk(keyOf, runs) && OneKey(keyOf, run, key)
    requires runs != [] ==> runs[|runs| - 1] != [] && keyOf(runs[|runs| - 1][0]) != key
    ensures RunsOk(keyOf, runs + [run])
    ensures Joined(runs + [run]) == Joined(runs) + run
    ensures keyOf(run[0]) == key
  {
    JoinedPush(runs, run);
    var runs' := runs + [run];
    LastRunOk(keyOf, runs, run, key);
    forall i | 0 <= i < |runs'| ensures RunOk(keyOf, runs', i) {
      EachRunOk(keyOf, runs, run, key, i);
    }
  }

  /** The loop's state: finished runs, and a current run that the last of them cannot be joined with. */
  ghost predicate Splits<T>(keyOf: T -> string, runs: seq<seq<T>>, current: seq<T>, currentKey: Option<string>,
                            done: seq<T>)
  {
    && RunsOk(keyOf, runs) && Joined(runs) + current == done
    && (if currentKey.None? then runs == [] && current == []
        else OneKey(keyOf, current, currentKey.value) &&
             (runs != [] ==> runs[|runs| - 1] != [] && keyOf(runs[|runs| - 1][0]) != currentKey.value))
  }

  lemma SameRun<T>(keyOf: T -> string, runs: seq<seq<T>>, current: seq<T>, key: string, done: seq<T>, row: T)
    requires Splits(keyOf, runs, current, Some(key), done) && keyOf(row) == key
    ensures Splits(keyOf, runs, current + [row], Some(key), done + [row])
  {
    assert Joined(runs) + (current + [row]) == (Joined(runs) + current) + [row];
  }

  lemma NewRun<T>(keyOf: T -> string, runs: seq<seq<T>>, current: seq<T>, key: string, done: seq<T>, row: T)
    requires Splits(keyOf, runs, current, Some(key), done) && keyOf(row) != key
    ensures Splits(keyOf, runs + [current], [row], Some(keyOf(row)), done + [row])
  {
    PushRun(keyOf, runs, current, key);
  }

  lemma FirstRun<T>(keyOf: T -> string, row: T)
    ensures Splits(keyOf, [], [row], Some(keyOf(row)), [row])
  {
    assert Joined<T>([]) + [row] == [row];
  }

  /** The runs joined are the rows: nothing is reordered, dropped or repeated, and runs are as long as they can be. */
  method SplitIntoDispatchRuns<T>(keyOf: T -> string, rows: seq<T>) returns (runs: seq<seq<T>>)
    ensures Joined(runs) == rows
    ensures RunsOk(keyOf, runs)
  {
    runs := [];
    var current: seq<T> := [];
    var currentKey: Option<string> := None;
    for i := 0 to |rows|
      invariant Splits(keyOf, runs, current, currentKey, rows[..i])
    {
      var row := rows[i];
      var key := keyOf(row);
      assert rows[..i + 1] == rows[..i] + [row];
      if Some(key) != currentKey {
        if |current| > 0 {
          NewRun(keyOf, runs, current, currentKey.value, rows[..i], row);
          runs := runs + [current];
        } else {
          FirstRun(keyOf, row);
        }
        current := [];
        currentKey := Some(key);
      } else {
        SameRun(keyOf, runs, current, key, rows[..i], row);
      }
      current := current + [row];
    }
    assert rows[..|rows|] == rows;
    if |current| > 0 {
      PushRun(keyOf, runs, current, currentKey.value);
      runs := runs + [current];
    }
  }

  lemma {:induction false} ApplyAllAppend(t: Tables, a: seq<Event>, b: seq<Event>, outcome: Event -> Outcome)
    requires forall e :: e in a + b ==> e.id in t.status
    ensures forall e :: e in a || e in b ==> e.id in t.status
    ensures ApplyAll(t, a + b, outcome) == ApplyAll(ApplyAll(t, a, outcome), b, outcome)
    decreases |a|
  {
    assert forall e :: e in a || e in b ==> e in a + b;
    if a == [] {
      assert a + b == b;
    } else {
      assert (a + b)[0] == a[0] && (a + b)[1..] == a[1..] + b;
      assert forall e :: e in a[1..] + b ==> e in a + b;
      ApplyAllAppend(Apply(t, a[0], outcome(a[0])), a[1..], b, outcome);
    }
  }

  class DerivationStore {
    var archive: seq<Event>
    const offchain: seq<OffchainEvent>
    var status: map<int, Status>
    var dlq: seq<DeadLetter>
    var resolved: seq<Resolved>
    var nextId: int

    ghost function Contents(): Tables
      reads this
    {
      Tables(archive, status, dlq, resolved, nextId)
    }

    constructor (archive: seq<Event>, offchain: seq<OffchainEvent>, status: map<int, Status>)
      ensures Contents() == Tables(archive, status, [], [], 0) && this.offchain == offchain
    {
      this.archive, this.offchain, this.status, this.dlq, this.resolved, this.nextId :=
        archive, offchain, status, [], [], 0;
    }

    method MarkDerived(id: int)
      modifies this
      ensures Contents() == if id in old(status) then DerivationTables.MarkDerived(old(Contents()), id) else old(Contents())
    {
      if id in status {
        status := status[id := status[id].(derived := true)];
      }
    }

    method MarkHeld(id: int, until: int)
      modifies this
      ensures Contents() ==
        if id in old(status) then DerivationTables.MarkHeld(old(Contents()), id, until) else old(Contents())
    {
      if id in status {
        status := status[id := status[id].(holdUntil := Some(until))];
      }
    }

    method IncrementAttemptCount(id: int)
      modifies this
      ensures Contents() == if id in old(status) then IncrementAttempts(old(Contents()), id) else old(Contents())
    {
      if id in status {
        status := status[id := status[id].(attempts := status[id].attempts + 1)];
      }
    }

    method Insert(stage: string, origin: Option<Coords>, retries: int, at: int, error: string)
      modifies this
      ensures Contents() == InsertDlq(old(Contents()), stage, origin, retries, at, error)
    {
      var row := DeadLetter(nextId, stage, origin, retries, at, error);
      nextId := nextId + 1;
      for i := 0 to |dlq|
        invariant dlq == old(dlq) && forall j :: 0 <= j < i ==> !SameFailure(dlq[j], row)
        invariant Contents() == old(Contents()).(nextId := nextId) && nextId == old(nextId) + 1
      {
        if SameFailure(dlq[i], row) {
          UpsertAt(dlq, row, i);
          dlq := dlq[i := Merged(dlq[i], row)];
          return;
        }
      }
      UpsertAt(dlq, row, |dlq|);
      dlq := dlq + [row];
    }

    method Accept(id: int) returns (answer: Answer)
      modifies this
      ensures (Contents(), answer) == Resolve(old(Contents()), id, Accepted)
    {
      var row := FindRow(dlq, id);
      if row.None? {
        return NotFound;
      }
      if IsResolved(resolved, id) {
        return AlreadyResolved;
      }
      resolved := resolved + [Resolved(row.value, Accepted)];
      dlq := Without(dlq, id);
      answer := Finished;
    }

    method MarkRetrySucceeded(id: int) returns (answer: Answer)
      modifies this
      ensures (Contents(), answer) == Resolve(old(Contents()), id, RetrySucceeded)
    {
      var row := FindRow(dlq, id);
      if row.None? {
        return NotFound;
      }
      if IsResolved(resolved, id) {
        return AlreadyResolved;
      }
      resolved := resolved + [Resolved(row.value, RetrySucceeded)];
      dlq := Without(dlq, id);
      answer := Finished;
    }

    /** What an applier writes for one row. */
    method ApplyRow(id: int, origin: Option<Coords>, outcome: Outcome)
      requires id in status
      modifies this
      ensures Contents() == Write(old(Contents()), id, origin, outcome)
    {
      match outcome {
        case Untouched =>
        case Done => MarkDerived(id);
        case Hold(until) => MarkHeld(id, until);
        case Failed => IncrementAttemptCount(id);
        case DeadLettered(stage, retries, at, error) =>
          IncrementAttemptCount(id);
          Insert(stage, origin, retries, at, error);
      }
    }

    method ApplyBatch(rows: seq<Event>, outcome: Event -> Outcome)
      requires forall e :: e in rows ==> e.id in status
      modifies this
      ensures Contents() == ApplyAll(old(Contents()), rows, outcome)
    {
      assert rows[..0] == [];
      for i := 0 to |rows|
        invariant forall e :: e in rows[..i] ==> e.id in old(status)
        invariant Contents() == ApplyAll(old(Contents()), rows[..i], outcome)
      {
        assert rows[..i + 1] == rows[..i] + [rows[i]] && rows[i] in rows;
        ApplyAllAppend(old(Contents()), rows[..i], [rows[i]], outcome);
        ApplyAllOne(Contents(), rows[i], outcome);
        ApplyRow(rows[i].id, Some(rows[i].coords), outcome(rows[i]));
      }
      assert rows[..|rows|] == rows;
    }

    method ApplyRuns(runs: seq<seq<Event>>, outcome: Event -> Outcome)
      requires forall e :: e in Joined(runs) ==> e.id in status
      modifies this
      ensures Contents() == ApplyAll(old(Contents()), Joined(runs), outcome)
    {
      assert runs[..0] == [];
      for i := 0 to |runs|
        invariant forall e :: e in Joined(runs[..i]) ==> e.id in old(status)
        invariant Contents() == ApplyAll(old(Contents()), Joined(runs[..i]), outcome)
      {
        JoinedPush(runs[..i], runs[i]);
        assert runs[..i + 1] == runs[..i] + [runs[i]];
        JoinedPrefix(runs, i + 1);
        ApplyAllAppend(old(Contents()), Joined(runs[..i]), runs[i], outcome);
        ApplyBatch(runs[i], outcome);
      }
      assert runs[..|runs|] == runs;
    }

    method ApplyOffchainBatch(rows: seq<OffchainEvent>, outcome: OffchainEvent -> Outcome)
      requires forall x :: x in rows ==> x.id in status
      modifies this
      ensures Contents() == ApplyAllOffchain(old(Contents()), rows, outcome)
    {
      assert rows[..0] == [];
      for i := 0 to |rows|
        invariant forall x :: x in rows[..i] ==> x.id in old(status)
        invariant Contents() == ApplyAllOffchain(old(Contents()), rows[..i], outcome)
      {
        assert rows[..i + 1] == rows[..i] + [rows[i]] && rows[i] in rows;
        ApplyOffchainAppend(old(Contents()), rows[..i], [rows[i]], outcome);
        ApplyOffchainOne(Contents(), rows[i], outcome);
        ApplyRow(rows[i].id, None, outcome(rows[i]));
      }
      assert rows[..|rows|] == rows;
    }

    method ApplyOffchainRuns(runs: seq<seq<OffchainEvent>>, outcome: OffchainEvent -> Outcome)
      requires forall x :: x in Joined(runs) ==> x.id in status
      modifies this
      ensures Contents() == ApplyAllOffchain(old(Contents()), Joined(runs), outcome)
    {
      assert runs[..0] == [];
      for i := 0 to |runs|
        invariant forall x :: x in Joined(runs[..i]) ==> x.id in old(status)
        invariant Contents() == ApplyAllOffchain(old(Contents()), Joined(runs[..i]), outcome)
      {
        JoinedPush(runs[..i], runs[i]);
        assert runs[..i + 1] == runs[..i] + [runs[i]];
        JoinedPrefix(runs, i + 1);
        ApplyOffchainAppend(old(Contents()), Joined(runs[..i]), runs[i], outcome);
        ApplyOffchainBatch(runs[i], outcome);
      }
      assert runs[..|runs|] == runs;
    }

    /**
     Both batches are selected before anything is applied; then each is cut into runs and applied run by run. That
     is the on-chain tick followed by an off-chain tick that selects for itself.
     */
    method RunTick(q: Selector, off: Selector, outcome: Event -> Outcome, offOutcome: OffchainEvent -> Outcome)
      requires IsTextOrder(q.collate) && IsTextOrder(off.collate)
      requires ArchiveOk(Contents()) && OffchainOk(offchain, Contents())
      modifies this
      ensures OffchainOk(offchain, Tick(old(Contents()), q, outcome))
      ensures Contents() == OffchainTick(Tick(old(Contents()), q, outcome), offchain, off, offOutcome)
    {
      ghost var before := Contents();
      SelectedIsDerivable(before, q);
      OffchainBatchFacts(before, offchain, off);
      OffchainBatchStays(before, offchain, q, outcome, off);
      var tables := Tables(archive, status, dlq, resolved, nextId);
      var watermark := FindDerivableBy(tables, q);
      var offchainWatermark := FindDerivableByOffchain(tables, offchain, off);
      if |watermark| == 0 && |offchainWatermark| == 0 {
        return;
      }
      var runs := SplitIntoDispatchRuns(DispatchKey(), watermark);
      ApplyRuns(runs, outcome);
      var offchainRuns := SplitIntoDispatchRuns(OffchainDispatchKey(), offchainWatermark);
      ApplyOffchainRuns(offchainRuns, offOutcome);
    }
  }

  lemma {:induction false} ApplyOffchainAppend(t: Tables, a: seq<OffchainEvent>, b: seq<OffchainEvent>,
                                               outcome: OffchainEvent -> Outcome)
    requires forall x :: x in a + b ==> x.id in t.status
    ensures forall x :: x in a || x in b ==> x.id in t.status
    ensures ApplyAllOffchain(t, a + b, outcome) ==
            ApplyAllOffchain(ApplyAllOffchain(t, a, outcome), b, outcome)
    decreases |a|
  {
    assert forall x :: x in a || x in b ==> x in a + b;
    if a == [] {
      assert a + b == b;
    } else {
      assert (a + b)[0] == a[0] && (a + b)[1..] == a[1..] + b;
      assert forall x :: x in a[1..] + b ==> x in a + b;
      ApplyOffchainAppend(Write(t, a[0].id, None, outcome(a[0])), a[1..], b, outcome);
    }
  }

  lemma ApplyOffchainOne(t: Tables, x: OffchainEvent, outcome: OffchainEvent -> Outcome)
    requires x.id in t.status
    ensures ApplyAllOffchain(t, [x], outcome) == Write(t, x.id, None, outcome(x))
  {
    assert [x][1..] == [];
  }

  lemma ApplyAllOne(t: Tables, e: Event, outcome: Event -> Outcome)
    requires e.id in t.status
    ensures ApplyAll(t, [e], outcome) == Apply(t, e, outcome(e))
  {
    assert [e][1..] == [];
  }

  lemma {:induction false} UpsertAt(dlq: seq<DeadLetter>, row: DeadLetter, i: nat)
    requires i <= |dlq| && forall j :: 0 <= j < i ==> !SameFailure(dlq[j], row)
    requires i < |dlq| ==> SameFailure(dlq[i], row)
    ensures Upsert(dlq, row) == if i < |dlq| then dlq[i := Merged(dlq[i], row)] else dlq + [row]
  {
    var k := UpsertShape(dlq, row);
  }

  lemma {:induction false} JoinedPrefix<T>(runs: seq<seq<T>>, i: nat)
    requires i <= |runs|
    ensures forall e :: e in Joined(runs[..i]) ==> e in Joined(runs)
    decreases |runs| - i
  {
    if i == |runs| {
      assert runs[..i] == runs;
    } else {
      assert runs[..i + 1][..i] == runs[..i];
      JoinedPrefix(runs, i + 1);
    }
  }

  // ---- Dispatch keys ----

  /** The part before the first colon is as far as one can read without meeting one. */
  lemma UpToColon(a: string, x: string, n: nat)
    requires ':' !in a && n <= |a + ":" + x|
    ensures ':' !in (a + ":" + x)[..n] <==> n <= |a|
  {
    var whole := a + ":" + x;
    if n > |a| {
      assert whole[..n][|a|] == ':';
    } else {
      forall i | 0 <= i < n ensures whole[..n][i] != ':' {
        assert whole[..n][i] == a[i] && a[i] in a;
      }
    }
  }

  lemma BeforeColon(a: string, x: string, b: string, y: string)
    requires ':' !in a && ':' !in b && a + ":" + x == b + ":" + y
    ensures a == b && x == y
  {
    UpToColon(a, x, |b|);
    UpToColon(b, y, |b|);
    UpToColon(b, y, |a|);
    UpToColon(a, x, |a|);
    assert a == (a + ":" + x)[..|a|] && b == (b + ":" + y)[..|b|];
    assert x == (a + ":" + x)[|a| + 1..] && y == (b + ":" + y)[|b| + 1..];
  }

  /** Rows share a dispatch key exactly when they share source type, chain and event type, none of which holds a colon. */
  lemma KeyTellsApart(a: Event, b: Event)
    requires ':' !in a.coords.sourceType && ':' !in b.coords.sourceType
    requires ':' !in a.coords.chain && ':' !in b.coords.chain
    ensures DispatchKey()(a) == DispatchKey()(b) <==>
            a.coords.sourceType == b.coords.sourceType && a.coords.chain == b.coords.chain && a.eventType == b.eventType
  {
    if DispatchKey()(a) == DispatchKey()(b) {
      ThreeParts(a.coords.sourceType, a.coords.chain, a.eventType, b.coords.sourceType, b.coords.chain, b.eventType);
    }
  }

  lemma OffchainKeyTellsApart(a: OffchainEvent, b: OffchainEvent)
    requires ':' !in a.sourceType && ':' !in b.sourceType && ':' !in a.chain && ':' !in b.chain
    ensures OffchainDispatchKey()(a) == OffchainDispatchKey()(b) <==>
            a.sourceType == b.sourceType && a.chain == b.chain && a.eventType == b.eventType
  {
    if OffchainDispatchKey()(a) == OffchainDispatchKey()(b) {
      ThreeParts(a.sourceType, a.chain, a.eventType, b.sourceType, b.chain, b.eventType);
    }
  }

  lemma ThreeParts(a: string, b: string, c: string, a': string, b': string, c': string)
    requires ':' !in a && ':' !in a' && ':' !in b && ':' !in b'
    requires a + ":" + b + ":" + c == a' + ":" + b' + ":" + c'
    ensures a == a' && b == b' && c == c'
  {
    assert a + ":" + b + ":" + c == a + ":" + (b + ":" + c);
    assert a' + ":" + b' + ":" + c' == a' + ":" + (b' + ":" + c');
    BeforeColon(a, b + ":" + c, a', b' + ":" + c');
    BeforeColon(b, c, b', c');
  }
}
