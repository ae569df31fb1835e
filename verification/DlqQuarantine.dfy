/**
 Dead letters and their resolution as a machine of single statements: failures upsert, operators accept or confirm
 a retry by reading, recording and deleting, and a resolution can stop between any two statements. Any number of
 resolutions may be under way at once.
 */
module DlqQuarantine {
  import opened Wrappers
  import opened DerivationTables
  import Q = DerivationQueue

  /** A resolution under way: the row it read, and whether its resolved row is written. */
  datatype Task = Task(row: DeadLetter, kind: Kind, recorded: bool)
  datatype System = System(t: Tables, tasks: seq<Task>)

  datatype Step =
    | Fail(stage: string, origin: Option<Coords>, retries: int, at: int, error: string)
    | Read(id: int, kind: Kind)
    | Record(task: nat)
    | Remove(task: nat)
    | Stop(task: nat)
    | Elsewhere(archive: seq<Event>, status: map<int, Status>)

  function Drop(tasks: seq<Task>, i: nat): (r: seq<Task>)
    requires i < |tasks|
    ensures forall task :: task in r ==> task in tasks
  {
    tasks[..i] + tasks[i + 1..]
  }

  function Next(s: System, step: Step): System {
    match step
    case Fail(stage, origin, retries, at, error) =>
      s.(t := InsertDlq(s.t, stage, origin, retries, at, error))
    case Read(id, kind) =>
      var row := FindRow(s.t.dlq, id);
      if row.None? then s else s.(tasks := s.tasks + [Task(row.value, kind, false)])
    case Record(i) =>
      if i >= |s.tasks| || s.tasks[i].recorded then s
      else if IsResolved(s.t.resolved, s.tasks[i].row.id) then s.(tasks := Drop(s.tasks, i))
      else s.(t := s.t.(resolved := s.t.resolved + [Resolved(s.tasks[i].row, s.tasks[i].kind)]),
              tasks := s.tasks[i := s.tasks[i].(recorded := true)])
    case Remove(i) =>
      if i >= |s.tasks| || !s.tasks[i].recorded then s
      else s.(t := s.t.(dlq := Without(s.t.dlq, s.tasks[i].row.id)), tasks := Drop(s.tasks, i))
    case Stop(i) =>
      if i >= |s.tasks| then s else s.(tasks := Drop(s.tasks, i))
    case Elsewhere(archive, status) => s.(t := s.t.(archive := archive, status := status))
  }

  function Run(s: System, steps: seq<Step>): System
    decreases |steps|
  {
    if steps == [] then s else Run(Next(s, steps[0]), steps[1..])
  }

  predicate SameCause(a: DeadLetter, b: DeadLetter) {
    a.origin == b.origin && a.stage == b.stage
  }

  /** Ids name one failure for good, wherever they occur. */
  ghost predicate IdsOk(s: System) {
    && (forall r :: r in s.t.dlq ==> r.id < s.t.nextId)
    && (forall x :: x in s.t.resolved ==> x.row.id < s.t.nextId)
    && (forall task :: task in s.tasks ==> task.row.id < s.t.nextId)
    && (forall r, task :: r in s.t.dlq && task in s.tasks && r.id == task.row.id ==> SameCause(r, task.row))
    && (forall r, x :: r in s.t.dlq && x in s.t.resolved && r.id == x.row.id ==> SameCause(r, x.row))
  }

  /** The primary key and the partial unique index of the active table. */
  ghost predicate KeysOk(dlq: seq<DeadLetter>) {
    && (forall i, j :: 0 <= i < j < |dlq| ==> dlq[i].id != dlq[j].id)
    && (forall i, j :: 0 <= i < j < |dlq| ==> !SameFailure(dlq[i], dlq[j]))
  }

  ghost predicate ResolvedOk(s: System) {
    && (forall i, j :: 0 <= i < j < |s.t.resolved| ==> s.t.resolved[i].row.id != s.t.resolved[j].row.id)
    && (forall task :: task in s.tasks && task.recorded ==> Resolved(task.row, task.kind) in s.t.resolved)
  }

  ghost predicate Inv(s: System) {
    IdsOk(s) && KeysOk(s.t.dlq) && ResolvedOk(s)
  }

  const START := System(Tables([], map[], [], [], 0), [])

  // ---- Every step keeps the keys ----

  lemma UpsertedFrom(dlq: seq<DeadLetter>, row: DeadLetter, r: DeadLetter)
    requires r in Upsert(dlq, row)
    ensures r == row || exists o :: o in dlq && o.id == r.id && SameCause(o, r)
  {
    var i := UpsertShape(dlq, row);
    var j :| 0 <= j < |Upsert(dlq, row)| && Upsert(dlq, row)[j] == r;
    if j < |dlq| {
      assert dlq[j] in dlq && dlq[j].id == r.id && SameCause(dlq[j], r);
    }
  }

  lemma FailKeepsKeys(dlq: seq<DeadLetter>, row: DeadLetter)
    requires KeysOk(dlq) && forall r :: r in dlq ==> r.id < row.id
    ensures KeysOk(Upsert(dlq, row))
  {
    var i := UpsertShape(dlq, row);
    assert forall j :: 0 <= j < |dlq| ==> dlq[j] in dlq;
  }

  lemma FailKeeps(s: System, step: Step)
    requires Inv(s) && step.Fail?
    ensures Inv(Next(s, step))
  {
    var row := DeadLetter(s.t.nextId, step.stage, step.origin, step.retries, step.at, step.error);
    FailKeepsKeys(s.t.dlq, row);
    forall r | r in Upsert(s.t.dlq, row) ensures r == row || exists o :: o in s.t.dlq && o.id == r.id && SameCause(o, r) {
      UpsertedFrom(s.t.dlq, row, r);
    }
  }

  lemma {:induction false} WithoutKeepsKeys(dlq: seq<DeadLetter>, id: int)
    requires KeysOk(dlq)
    ensures KeysOk(Without(dlq, id))
  {
    if dlq != [] {
      var rest := dlq[1..];
      assert forall j :: 0 <= j < |rest| ==> rest[j] == dlq[j + 1];
      WithoutKeepsKeys(rest, id);
      WithoutFacts(rest, id);
      var kept := Without(rest, id);
      forall j | 0 <= j < |kept| ensures kept[j].id != dlq[0].id && !SameFailure(dlq[0], kept[j]) {
        assert kept[j] in rest;
        var k :| 0 <= k < |rest| && rest[k] == kept[j];
        assert dlq[k + 1] == kept[j];
      }
    }
  }

  lemma ReadKeeps(s: System, step: Step)
    requires Inv(s) && step.Read?
    ensures Inv(Next(s, step))
  {
    var found := FindRow(s.t.dlq, step.id);
    if found.Some? {
      forall r | r in s.t.dlq && r.id == step.id ensures r == found.value {
        var i :| 0 <= i < |s.t.dlq| && s.t.dlq[i] == r;
        var j :| 0 <= j < |s.t.dlq| && s.t.dlq[j] == found.value;
      }
      assert forall task :: task in s.tasks + [Task(found.value, step.kind, false)] ==>
        task in s.tasks || task == Task(found.value, step.kind, false);
    }
  }

  lemma RecordKeeps(s: System, i: nat)
    requires Inv(s) && i < |s.tasks| && !s.tasks[i].recorded && !IsResolved(s.t.resolved, s.tasks[i].row.id)
    ensures Inv(Next(s, Record(i)))
  {
    var task, s' := s.tasks[i], Next(s, Record(i));
    var x := Resolved(task.row, task.kind);
    assert task in s.tasks;
    forall task' | task' in s'.tasks ensures task' in s.tasks || task' == task.(recorded := true) {
      var j :| 0 <= j < |s'.tasks| && s'.tasks[j] == task';
      assert j != i ==> s.tasks[j] in s.tasks;
    }
    assert x in s'.t.resolved && forall y :: y in s'.t.resolved <==> y in s.t.resolved || y == x;
    assert forall j :: 0 <= j < |s.t.resolved| ==> s.t.resolved[j] in s.t.resolved;
  }

  lemma StepKeeps(s: System, step: Step)
    requires Inv(s)
    ensures Inv(Next(s, step))
  {
    match step
    case Fail(stage, origin, retries, at, error) => FailKeeps(s, step);
    case Read(id, kind) => ReadKeeps(s, step);
    case Record(i) =>
      if i < |s.tasks| && !s.tasks[i].recorded && !IsResolved(s.t.resolved, s.tasks[i].row.id) {
        RecordKeeps(s, i);
      }
    case Remove(i) =>
      if i < |s.tasks| && s.tasks[i].recorded {
        WithoutFacts(s.t.dlq, s.tasks[i].row.id);
        WithoutKeepsKeys(s.t.dlq, s.tasks[i].row.id);
      }
    case Stop(i) =>
    case Elsewhere(archive, status) =>
  }

  /**
   In every reachable state each failure of an event at a stage has one active row, each dead letter is resolved
   at most once, and an id stands for the same event and stage in both tables.
   */
  lemma {:induction false} RunKeeps(s: System, steps: seq<Step>)
    requires Inv(s)
    ensures Inv(Run(s, steps))
    decreases |steps|
  {
    if steps != [] {
      StepKeeps(s, steps[0]);
      RunKeeps(Next(s, steps[0]), steps[1..]);
    }
  }

  lemma ReachableKeepsKeys(steps: seq<Step>)
    ensures Inv(Run(START, steps))
  {
    RunKeeps(START, steps);
  }

  /** A resolution run without interruption is its three statements. */
  lemma ResolveIsThreeSteps(t: Tables, id: int, kind: Kind)
    ensures Run(System(t, []), [Read(id, kind), Record(0), Remove(0)]) == System(Resolve(t, id, kind).0, [])
  {
    var row, s := FindRow(t.dlq, id), System(t, []);
    var s1 := Next(s, Read(id, kind));
    var s2 := Next(s1, Record(0));
    assert s1.tasks == if row.None? then [] else [Task(row.value, kind, false)];
    assert s2.tasks == if row.None? || IsResolved(t.resolved, id) then [] else [Task(row.value, kind, true)];
    assert Next(s2, Remove(0)) == System(Resolve(t, id, kind).0, []);
    assert [Read(id, kind), Record(0), Remove(0)][1..] == [Record(0), Remove(0)];
    assert [Record(0), Remove(0)][1..] == [Remove(0)] && [Remove(0)][1..] == [];
    assert Run(s2, [Remove(0)]) == Next(s2, Remove(0));
  }

  // ---- Quarantine ----

  /** The step deletes the active row of this event after recording a successful retry. */
  predicate Releases(s: System, step: Step, c: Coords) {
    && step.Remove? && step.task < |s.tasks|
    && s.tasks[step.task].recorded && s.tasks[step.task].kind.RetrySucceeded? && Blocks(s.tasks[step.task].row, c)
  }

  lemma AcceptedStays(s: System, step: Step, c: Coords)
    requires AcceptedFor(s.t.resolved, c)
    ensures AcceptedFor(Next(s, step).t.resolved, c)
  {
    var x :| x in s.t.resolved && x.kind.Accepted? && Blocks(x.row, c);
    assert x in Next(s, step).t.resolved;
  }

  /** An active row survives every step but the deletion by a recorded resolution of its own id. */
  lemma RemoveEffect(s: System, i: nat, c: Coords)
    requires Inv(s) && i < |s.tasks| && s.tasks[i].recorded
    ensures Quarantined(Next(s, Remove(i)).t, c) <==>
            AcceptedFor(s.t.resolved, c) ||
            exists row :: row in s.t.dlq && Blocks(row, c) && row.id != s.tasks[i].row.id
  {
    WithoutFacts(s.t.dlq, s.tasks[i].row.id);
  }

  /**
   No statement but the last one of a successful retry ends a quarantine: accepting keeps the event quarantined
   between its insert and its delete, wherever it is interrupted and whatever runs in between.
   */
  lemma QuarantineEndsOnlyByRetry(s: System, step: Step, c: Coords)
    requires Inv(s) && Quarantined(s.t, c) && !Releases(s, step, c)
    ensures Quarantined(Next(s, step).t, c)
  {
    if AcceptedFor(s.t.resolved, c) {
      AcceptedStays(s, step, c);
    } else if step.Fail? {
      UpsertFacts(s.t.dlq, DeadLetter(s.t.nextId, step.stage, step.origin, step.retries, step.at, step.error));
    } else if step.Remove? && step.task < |s.tasks| && s.tasks[step.task].recorded {
      var task := s.tasks[step.task];
      var row :| row in s.t.dlq && Blocks(row, c);
      assert task in s.tasks;
      RemoveEffect(s, step.task, c);
      assert row.id == task.row.id ==> Resolved(task.row, task.kind) in s.t.resolved && SameCause(row, task.row);
    }
  }

  /** And that last statement ends it exactly when no acceptance and no other stage's failure remains. */
  lemma RetryReleasesExactlyWhen(s: System, step: Step, c: Coords)
    requires Inv(s) && Releases(s, step, c)
    ensures !Quarantined(Next(s, step).t, c) <==>
            !AcceptedFor(s.t.resolved, c) &&
            forall row :: row in s.t.dlq && Blocks(row, c) ==> row.id == s.tasks[step.task].row.id
  {
    RemoveEffect(s, step.task, c);
  }

  ghost predicate NeverReleased(s: System, steps: seq<Step>, c: Coords)
    decreases |steps|
  {
    steps == [] || (!Releases(s, steps[0], c) && NeverReleased(Next(s, steps[0]), steps[1..], c))
  }

  lemma QuarantinedIsNotSelected(t: Tables, c: Coords, q: Q.Selector)
    requires Q.IsTextOrder(q.collate) && ArchiveOk(t) && Quarantined(t, c)
    ensures forall e :: e in Q.FindDerivableBy(t, q) ==> e.coords != c
  {
    Q.SelectedIsDerivable(t, q);
  }

  /** Until a retry releases it, a quarantined event is not selected, at any time and for any batch. */
  lemma {:induction false} QuarantinedUntilReleased(s: System, steps: seq<Step>, c: Coords, q: Q.Selector)
    requires Inv(s) && Quarantined(s.t, c) && NeverReleased(s, steps, c)
    ensures Quarantined(Run(s, steps).t, c)
    ensures Q.IsTextOrder(q.collate) && ArchiveOk(Run(s, steps).t) ==>
              forall e :: e in Q.FindDerivableBy(Run(s, steps).t, q) ==> e.coords != c
    decreases |steps|
  {
    if steps == [] {
      if Q.IsTextOrder(q.collate) && ArchiveOk(s.t) {
        QuarantinedIsNotSelected(s.t, c, q);
      }
    } else {
      StepKeeps(s, steps[0]);
      QuarantineEndsOnlyByRetry(s, steps[0], c);
      QuarantinedUntilReleased(Next(s, steps[0]), steps[1..], c, q);
    }
  }

  /**
   In every reachable state: when an applier dead-letters an event at a projection stage, the event is in no batch
   from then on, whatever runs, until a successful retry deletes its row.
   */
  lemma FailureQuarantinesUntilReleased(steps: seq<Step>, fail: Step, c: Coords, more: seq<Step>, q: Q.Selector)
    requires fail.Fail? && fail.origin == Some(c) && IsProjectionStage(fail.stage)
    requires NeverReleased(Next(Run(START, steps), fail), more, c)
    ensures var t := Run(Next(Run(START, steps), fail), more).t;
            && Quarantined(t, c)
            && (Q.IsTextOrder(q.collate) && ArchiveOk(t) ==> forall e :: e in Q.FindDerivableBy(t, q) ==> e.coords != c)
  {
    var s := Run(START, steps);
    ReachableKeepsKeys(steps);
    StepKeeps(s, fail);
    UpsertFacts(s.t.dlq, DeadLetter(s.t.nextId, fail.stage, fail.origin, fail.retries, fail.at, fail.error));
    QuarantinedUntilReleased(Next(s, fail), more, c, q);
  }

  /** Acceptance is permanent: no run of any steps, retries included, makes the event selectable again. */
  lemma {:induction false} AcceptedForever(s: System, steps: seq<Step>, c: Coords, q: Q.Selector)
    requires AcceptedFor(s.t.resolved, c)
    ensures AcceptedFor(Run(s, steps).t.resolved, c)
    ensures Q.IsTextOrder(q.collate) && ArchiveOk(Run(s, steps).t) ==>
              forall e :: e in Q.FindDerivableBy(Run(s, steps).t, q) ==> e.coords != c
    decreases |steps|
  {
    if steps == [] {
      if Q.IsTextOrder(q.collate) && ArchiveOk(s.t) {
        QuarantinedIsNotSelected(s.t, c, q);
      }
    } else {
      AcceptedStays(s, steps[0], c);
      AcceptedForever(Next(s, steps[0]), steps[1..], c, q);
    }
  }

  // ---- Interrupted resolutions ----

  ghost predicate HasRow(dlq: seq<DeadLetter>, id: int) {
    exists row :: row in dlq && row.id == id
  }

  /** The resolved row is written, the active row is still there, and nobody is left to delete it. */
  ghost predicate HalfResolved(s: System, id: int) {
    && HasRow(s.t.dlq, id)
    && IsResolved(s.t.resolved, id)
    && (forall task :: task in s.tasks && task.row.id == id ==> !task.recorded)
  }

  lemma FailKeepsRow(dlq: seq<DeadLetter>, row: DeadLetter, id: int)
    requires HasRow(dlq, id)
    ensures HasRow(Upsert(dlq, row), id)
  {
    var i := UpsertShape(dlq, row);
    var j :| 0 <= j < |dlq| && dlq[j].id == id;
    assert Upsert(dlq, row)[j] in Upsert(dlq, row) && Upsert(dlq, row)[j].id == id;
  }

  lemma HalfResolvedKeepsRow(s: System, step: Step, id: int)
    requires Inv(s) && HalfResolved(s, id)
    ensures HasRow(Next(s, step).t.dlq, id)
  {
    if step.Fail? {
      var row := DeadLetter(s.t.nextId, step.stage, step.origin, step.retries, step.at, step.error);
      FailKeepsRow(s.t.dlq, row, id);
    } else if step.Remove? && step.task < |s.tasks| && s.tasks[step.task].recorded {
      assert s.tasks[step.task] in s.tasks;
      WithoutFacts(s.t.dlq, s.tasks[step.task].row.id);
    }
  }

  lemma HalfResolvedKeepsTasks(s: System, step: Step, id: int)
    requires Inv(s) && HalfResolved(s, id)
    ensures forall task :: task in Next(s, step).tasks && task.row.id == id ==> !task.recorded
  {
    var s' := Next(s, step);
    if step.Record? && step.task < |s.tasks| && !s.tasks[step.task].recorded {
      forall task | task in s'.tasks && task.row.id == id ensures !task.recorded {
        var j :| 0 <= j < |s'.tasks| && s'.tasks[j] == task;
        assert s.tasks[j] in s.tasks;
      }
    }
  }

  lemma HalfResolvedStep(s: System, step: Step, id: int)
    requires Inv(s) && HalfResolved(s, id)
    ensures HalfResolved(Next(s, step), id)
  {
    HalfResolvedKeepsRow(s, step, id);
    HalfResolvedKeepsTasks(s, step, id);
    var x :| x in s.t.resolved && x.row.id == id;
    assert x in Next(s, step).t.resolved;
  }

  lemma {:induction false} HalfResolvedStays(s: System, steps: seq<Step>, id: int)
    requires Inv(s) && HalfResolved(s, id)
    ensures HalfResolved(Run(s, steps), id)
    decreases |steps|
  {
    if steps != [] {
      HalfResolvedStep(s, steps[0], id);
      StepKeeps(s, steps[0]);
      HalfResolvedStays(Next(s, steps[0]), steps[1..], id);
    }
  }

  /**
   A resolution interrupted after its insert cannot be finished: after any run, every accept or retry of that dead
   letter answers that it is resolved already and changes nothing, and its active row is still there.
   */
  lemma HalfResolvedForever(s: System, steps: seq<Step>, id: int, kind: Kind)
    requires Inv(s) && HalfResolved(s, id)
    ensures var t := Run(s, steps).t;
            HasRow(t.dlq, id) && Resolve(t, id, kind) == (t, AlreadyResolved)
  {
    HalfResolvedStays(s, steps, id);
  }

  lemma RunOfThree(s: System, s0: Step, s1: Step, s2: Step)
    ensures Run(s, [s0, s1, s2]) == Next(Next(Next(s, s0), s1), s2)
  {
    assert [s0, s1, s2][1..] == [s1, s2] && [s1, s2][1..] == [s2] && [s2][1..] == [];
    assert Run(Next(Next(s, s0), s1), [s2]) == Next(Next(Next(s, s0), s1), s2);
  }

  /** An unresolved dead letter can be resolved: read, record, remove. */
  lemma UnresolvedIsRemovable(s: System, id: int, kind: Kind)
    requires HasRow(s.t.dlq, id) && !IsResolved(s.t.resolved, id)
    ensures !HasRow(Run(s, [Read(id, kind), Record(|s.tasks|), Remove(|s.tasks|)]).t.dlq, id)
  {
    var row, n := FindRow(s.t.dlq, id).value, |s.tasks|;
    RunOfThree(s, Read(id, kind), Record(n), Remove(n));
    var s1 := Next(s, Read(id, kind));
    assert s1.tasks == s.tasks + [Task(row, kind, false)] && s1.tasks[n] == Task(row, kind, false);
    var s2 := Next(s1, Record(n));
    assert s2.tasks[n] == Task(row, kind, true) && s2.t.dlq == s.t.dlq;
    WithoutFacts(s.t.dlq, id);
  }

  /** A recorded resolution still under way can delete its row. */
  lemma RecordedIsRemovable(s: System, i: nat)
    requires i < |s.tasks| && s.tasks[i].recorded
    ensures !HasRow(Run(s, [Remove(i)]).t.dlq, s.tasks[i].row.id)
  {
    assert [Remove(i)][1..] == [] && Run(Next(s, Remove(i)), []) == Next(s, Remove(i));
    WithoutFacts(s.t.dlq, s.tasks[i].row.id);
  }

  ghost predicate Removable(s: System, id: int) {
    exists steps :: !HasRow(Run(s, steps).t.dlq, id)
  }

  /** An active dead letter can still be removed, by some run, exactly when it is not half resolved. */
  lemma RemovableExactlyWhen(s: System, id: int)
    requires Inv(s) && HasRow(s.t.dlq, id)
    ensures Removable(s, id) <==> !HalfResolved(s, id)
  {
    if HalfResolved(s, id) {
      forall steps ensures HasRow(Run(s, steps).t.dlq, id) {
        HalfResolvedStays(s, steps, id);
      }
    } else if IsResolved(s.t.resolved, id) {
      var task :| task in s.tasks && task.row.id == id && task.recorded;
      var i :| 0 <= i < |s.tasks| && s.tasks[i] == task;
      RecordedIsRemovable(s, i);
    } else {
      UnresolvedIsRemovable(s, id, Accepted);
    }
  }

  /** A resolution that stops between insert and delete gets there: one failure, read, recorded, stopped. */
  lemma HalfResolvedExample(stage: string, origin: Option<Coords>, retries: int, at: int, error: string, kind: Kind)
    ensures var s := Run(START, [Fail(stage, origin, retries, at, error), Read(0, kind), Record(0)]);
            HalfResolved(Next(s, Stop(0)), 0)
  {
    var fail := Fail(stage, origin, retries, at, error);
    var row := DeadLetter(0, stage, origin, retries, at, error);
    RunOfThree(START, fail, Read(0, kind), Record(0));
    var s1 := Next(START, fail);
    assert s1.t.dlq == [row] && s1.tasks == [];
    assert FindRow([row], 0) == Some(row);
    var s2 := Next(s1, Read(0, kind));
    assert s2.tasks == [Task(row, kind, false)] && s2.t == s1.t;
    var s3 := Next(s2, Record(0));
    assert s3.t.resolved == [Resolved(row, kind)] && s3.t.dlq == [row] && |s3.tasks| == 1;
    assert Resolved(row, kind) in s3.t.resolved && row in s3.t.dlq;
    assert Next(s3, Stop(0)).tasks == [];
  }
}
