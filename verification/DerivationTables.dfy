/**
 The tables behind projection derivation: archived events with their mutable derivation columns, the active
 dead letters and the resolved ones. Tables are lists; ids come from a counter that never repeats.
 */
module DerivationTables {
  import opened Wrappers

  /** The five indexed columns that tie a dead letter to its archived event. */
  datatype Coords = Coords(sourceType: string, chain: string, tx: string, log: int, blockHash: string)

  /** The immutable columns of an on-chain archive row. */
  datatype Event = Event(id: int, coords: Coords, block: int, eventType: string)

  datatype Status = Status(derived: bool, actorsResolved: bool, holdUntil: Option<int>, attempts: int)

  datatype DeadLetter = DeadLetter(id: int, stage: string, origin: Option<Coords>, retries: int, lastAttempt: int,
                                   error: string)
  datatype Kind = Accepted | RetrySucceeded
  datatype Resolved = Resolved(row: DeadLetter, kind: Kind)

  datatype Tables = Tables(archive: seq<Event>, status: map<int, Status>, dlq: seq<DeadLetter>,
                           resolved: seq<Resolved>, nextId: int)

  /** The unique keys of archive_event, and a status for every row. */
  ghost predicate ArchiveOk(t: Tables) {
    && (forall i, j :: 0 <= i < j < |t.archive| ==> t.archive[i].id != t.archive[j].id)
    && (forall i, j :: 0 <= i < j < |t.archive| ==> t.archive[i].coords != t.archive[j].coords)
    && (forall e :: e in t.archive ==> e.id in t.status)
  }

  const PROJECTION := "projection"
  const STAGE := "stage"

  /** LIKE '%projection_stage': the underscore stands for any one character. */
  predicate IsProjectionStage(stage: string) {
    && |stage| >= 16
    && stage[|stage| - 16..|stage| - 6] == PROJECTION
    && stage[|stage| - 5..] == STAGE
  }

  lemma StageMatches(prefix: string, between: char)
    ensures IsProjectionStage(prefix + PROJECTION + [between] + STAGE)
  {
    var stage, n := prefix + PROJECTION + [between] + STAGE, |prefix|;
    assert |PROJECTION| == 10 && |STAGE| == 5 && |stage| == n + 16;
    assert stage[n..n + 10] == PROJECTION;
    assert stage[n + 11..] == STAGE;
  }

  /** Whatever matches is "projection", one character and "stage" after some prefix. */
  lemma StageSplits(stage: string)
    requires IsProjectionStage(stage)
    ensures exists prefix, between :: stage == prefix + "projection" + [between] + "stage"
  {
    var n := |stage| - 16;
    assert stage == stage[..n] + stage[n..n + 10] + [stage[n + 10]] + stage[n + 11..];
    assert stage == stage[..n] + "projection" + [stage[n + 10]] + "stage";
  }

  /** The underscore is a wildcard: any one character may stand between the two words, and anything before them. */
  lemma StageNamesMatched(stage: string)
    ensures IsProjectionStage(stage) <==> exists prefix, between :: stage == prefix + "projection" + [between] + "stage"
    ensures IsProjectionStage("projectionXstage") && IsProjectionStage("projection_stage")
  {
    if IsProjectionStage(stage) {
      StageSplits(stage);
    } else {
      forall prefix, between ensures stage != prefix + "projection" + [between] + "stage" {
        StageMatches(prefix, between);
      }
    }
    StageMatches("", 'X');
    StageMatches("", '_');
    assert "projectionXstage" == "" + PROJECTION + ['X'] + STAGE;
    assert "projection_stage" == "" + PROJECTION + ['_'] + STAGE;
  }

  predicate Blocks(row: DeadLetter, coords: Coords) {
    row.origin == Some(coords) && IsProjectionStage(row.stage)
  }

  predicate ActiveFor(dlq: seq<DeadLetter>, coords: Coords) {
    exists row :: row in dlq && Blocks(row, coords)
  }

  predicate AcceptedFor(resolved: seq<Resolved>, coords: Coords) {
    exists x :: x in resolved && x.kind.Accepted? && Blocks(x.row, coords)
  }

  predicate Quarantined(t: Tables, coords: Coords) {
    ActiveFor(t.dlq, coords) || AcceptedFor(t.resolved, coords)
  }

  // ---- Dead letters ----

  /** The conflict target of the upsert: same event and stage; rows without an origin never conflict. */
  predicate SameFailure(a: DeadLetter, b: DeadLetter) {
    a.origin.Some? && a.origin == b.origin && a.stage == b.stage
  }

  function Merged(present: DeadLetter, row: DeadLetter): DeadLetter {
    present.(
      retries := if present.retries >= row.retries then present.retries else row.retries,
      lastAttempt := row.lastAttempt,
      error := row.error)
  }

  function Upsert(dlq: seq<DeadLetter>, row: DeadLetter): seq<DeadLetter> {
    if dlq == [] then [row]
    else if SameFailure(dlq[0], row) then [Merged(dlq[0], row)] + dlq[1..]
    else [dlq[0]] + Upsert(dlq[1..], row)
  }

  function InsertDlq(t: Tables, stage: string, origin: Option<Coords>, retries: int, at: int, error: string): Tables {
    t.(dlq := Upsert(t.dlq, DeadLetter(t.nextId, stage, origin, retries, at, error)), nextId := t.nextId + 1)
  }

  function Without(dlq: seq<DeadLetter>, id: int): seq<DeadLetter> {
    if dlq == [] then []
    else (if dlq[0].id == id then [] else [dlq[0]]) + Without(dlq[1..], id)
  }

  predicate IsResolved(resolved: seq<Resolved>, id: int) {
    exists x :: x in resolved && x.row.id == id
  }

  function FindRow(dlq: seq<DeadLetter>, id: int): (r: Option<DeadLetter>)
    ensures r.None? <==> forall row :: row in dlq ==> row.id != id
    ensures r.Some? ==> r.value in dlq && r.value.id == id
  {
    if dlq == [] then None
    else if dlq[0].id == id then Some(dlq[0])
    else
      var r := FindRow(dlq[1..], id);
      assert dlq == [dlq[0]] + dlq[1..];
      r
  }

  datatype Answer = Finished | NotFound | AlreadyResolved

  /** accept and markRetrySucceeded: record the resolution under its unique key, then delete the active row. */
  function Resolve(t: Tables, id: int, kind: Kind): (Tables, Answer) {
    var row := FindRow(t.dlq, id);
    if row.None? then (t, NotFound)
    else if IsResolved(t.resolved, id) then (t, AlreadyResolved)
    else (t.(resolved := t.resolved + [Resolved(row.value, kind)], dlq := Without(t.dlq, id)), Finished)
  }

  // ---- Derivation columns ----

  function MarkDerived(t: Tables, id: int): Tables
    requires id in t.status
  {
    t.(status := t.status[id := t.status[id].(derived := true)])
  }

  function MarkHeld(t: Tables, id: int, until: int): Tables
    requires id in t.status
  {
    t.(status := t.status[id := t.status[id].(holdUntil := Some(until))])
  }

  function IncrementAttempts(t: Tables, id: int): Tables
    requires id in t.status
  {
    t.(status := t.status[id := t.status[id].(attempts := t.status[id].attempts + 1)])
  }

  /** The upsert changes the first row of the same failure in place, or appends. */
  lemma {:induction false} UpsertShape(dlq: seq<DeadLetter>, row: DeadLetter) returns (i: nat)
    ensures i <= |dlq| && forall j :: 0 <= j < i ==> !SameFailure(dlq[j], row)
    ensures i == |dlq| ==> Upsert(dlq, row) == dlq + [row]
    ensures i < |dlq| ==> SameFailure(dlq[i], row) && Upsert(dlq, row) == dlq[i := Merged(dlq[i], row)]
  {
    if dlq == [] || SameFailure(dlq[0], row) {
      i := 0;
    } else {
      var k := UpsertShape(dlq[1..], row);
      i := k + 1;
      assert dlq == [dlq[0]] + dlq[1..];
    }
  }

  /** The operator's reset of the derivation watermark, for the rows it chooses. */
  function ResetWatermark(t: Tables, ids: set<int>): Tables {
    t.(status := map id | id in t.status ::
      if id in ids then t.status[id].(derived := false, attempts := 0) else t.status[id])
  }

  /** A repeated failure adds no row: its first row keeps its id and takes the larger retry count and the new error. */
  lemma RepeatedFailureCollapses(dlq: seq<DeadLetter>, row: DeadLetter)
    ensures |Upsert(dlq, row)| >= |dlq|
    ensures |Upsert(dlq, row)| == |dlq| <==> exists i :: 0 <= i < |dlq| && SameFailure(dlq[i], row)
    ensures forall i :: 0 <= i < |dlq| ==>
              var r := Upsert(dlq, row)[i];
              && r.id == dlq[i].id && r.stage == dlq[i].stage && r.origin == dlq[i].origin
              && (r == dlq[i] || (SameFailure(r, row) && r.error == row.error && r.lastAttempt == row.lastAttempt &&
                                  r.retries >= dlq[i].retries && r.retries >= row.retries &&
                                  r.retries in {dlq[i].retries, row.retries}))
  {
    var k := UpsertShape(dlq, row);
  }

  lemma UpsertFacts(dlq: seq<DeadLetter>, row: DeadLetter)
    ensures forall c :: ActiveFor(Upsert(dlq, row), c) <==> ActiveFor(dlq, c) || Blocks(row, c)
  {
    var i := UpsertShape(dlq, row);
    var dlq' := Upsert(dlq, row);
    assert forall j :: 0 <= j < |dlq| && j != i ==> dlq'[j] == dlq[j];
    forall c ensures ActiveFor(dlq', c) <==> ActiveFor(dlq, c) || Blocks(row, c) {
      assert forall j :: 0 <= j < |dlq| ==> (Blocks(dlq'[j], c) <==> Blocks(dlq[j], c));
      assert dlq'[i] in dlq' && (Blocks(dlq'[i], c) <==> Blocks(row, c));
      if r :| r in dlq && Blocks(r, c) {
        var j :| 0 <= j < |dlq| && dlq[j] == r;
        assert dlq'[j] in dlq';
      }
      if r :| r in dlq' && Blocks(r, c) {
        var j :| 0 <= j < |dlq'| && dlq'[j] == r;
        assert j < |dlq| ==> dlq[j] in dlq;
      }
    }
  }

  lemma {:induction false} WithoutFacts(dlq: seq<DeadLetter>, id: int)
    ensures forall r :: r in Without(dlq, id) <==> r in dlq && r.id != id
  {
    if dlq != [] {
      WithoutFacts(dlq[1..], id);
      assert dlq == [dlq[0]] + dlq[1..];
    }
  }

  // ---- In plain terms ----

  /**
   A failure is written once: into the first active row of the same event and stage, which keeps its id and takes the
   larger retry count, the time and the error, or else as a new row with all it was given.
   */
  lemma FailureIsRecorded(t: Tables, stage: string, origin: Option<Coords>, retries: int, at: int, error: string)
    returns (i: nat)
    ensures var t' := InsertDlq(t, stage, origin, retries, at, error);
            && t' == t.(dlq := t'.dlq, nextId := t.nextId + 1)
            && i <= |t.dlq|
            && (forall j :: 0 <= j < i ==> origin.None? || t.dlq[j].origin != origin || t.dlq[j].stage != stage)
            && (i == |t.dlq| ==> t'.dlq == t.dlq + [DeadLetter(t.nextId, stage, origin, retries, at, error)])
            && (i < |t.dlq| ==>
                  var row := t.dlq[i];
                  && origin.Some? && row.origin == origin && row.stage == stage
                  && t'.dlq == t.dlq[i := DeadLetter(row.id, stage, origin,
                                                     if row.retries > retries then row.retries else retries, at, error)])
  {
    i := UpsertShape(t.dlq, DeadLetter(t.nextId, stage, origin, retries, at, error));
  }

  /** A resolution needs an active row and no earlier resolution; it keeps the row under its kind and takes it out. */
  lemma ResolutionIs(t: Tables, id: int, kind: Kind)
    ensures var (t', answer) := Resolve(t, id, kind);
            && (answer == NotFound <==> forall row :: row in t.dlq ==> row.id != id)
            && (answer == AlreadyResolved <==>
                 (exists row :: row in t.dlq && row.id == id) && (exists x :: x in t.resolved && x.row.id == id))
            && (answer != Finished ==> t' == t)
            && (answer == Finished ==>
                  && t' == t.(dlq := t'.dlq, resolved := t'.resolved)
                  && (forall r :: r in t'.dlq <==> r in t.dlq && r.id != id)
                  && exists row :: row in t.dlq && row.id == id && t'.resolved == t.resolved + [Resolved(row, kind)])
  {
    WithoutFacts(t.dlq, id);
  }
}
