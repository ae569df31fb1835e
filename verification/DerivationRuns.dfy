/**
 Runs of worker ticks at any times, with any selectors and outcomes, and operators' watermark resets between them:
 what derivation and holds mean over time.
 */
module DerivationRuns {
  import opened Wrappers
  import opened Sorting
  import opened DerivationTables
  import opened DerivationQueue

  datatype Move =
    | Worked(q: Selector, outcome: Event -> Outcome)
    | Reset(ids: set<int>)

  ghost predicate Playable(moves: seq<Move>) {
    forall m :: m in moves && m.Worked? ==> IsTextOrder(m.q.collate)
  }

  function Play(t: Tables, move: Move): (t': Tables)
    requires ArchiveOk(t) && (move.Worked? ==> IsTextOrder(move.q.collate))
    ensures t'.archive == t.archive && t'.status.Keys == t.status.Keys && ArchiveOk(t')
  {
    match move
    case Worked(q, outcome) =>
      SelectedIsDerivable(t, q);
      Tick(t, q, outcome)
    case Reset(ids) => ResetWatermark(t, ids)
  }

  function PlayAll(t: Tables, moves: seq<Move>): (t': Tables)
    requires ArchiveOk(t) && Playable(moves)
    ensures t'.archive == t.archive && t'.status.Keys == t.status.Keys && ArchiveOk(t')
    decreases |moves|
  {
    if moves == [] then t
    else
      assert moves[0] in moves && forall m :: m in moves[1..] ==> m in moves;
      PlayAll(Play(t, moves[0]), moves[1..])
  }

  /** Outcomes of other rows leave a row's columns and its quarantine alone. */
  lemma {:induction false} OthersUntouched(t: Tables, batch: seq<Event>, outcome: Event -> Outcome, x: Event)
    requires ArchiveOk(t) && x in t.archive && x !in batch && forall e :: e in batch ==> e in t.archive
    ensures var t' := ApplyAll(t, batch, outcome);
            t'.status[x.id] == t.status[x.id] && (Quarantined(t', x.coords) <==> Quarantined(t, x.coords))
    decreases |batch|
  {
    if batch != [] {
      var e, rest := batch[0], batch[1..];
      assert e in batch && batch == [e] + rest;
      IdsIdentify(t);
      var t' := Apply(t, e, outcome(e));
      match outcome(e) {
        case DeadLettered(stage, retries, at, error) =>
          UpsertFacts(t.dlq, DeadLetter(t.nextId, stage, Some(e.coords), retries, at, error));
        case _ =>
      }
      OthersUntouched(t', rest, outcome, x);
    }
  }

  /** A move touches an event only by selecting it or by resetting it. */
  lemma MoveLeavesAlone(t: Tables, move: Move, x: Event)
    requires ArchiveOk(t) && x in t.archive && (move.Worked? ==> IsTextOrder(move.q.collate))
    requires match move
             case Worked(q, _) => !Derivable(t, q, x)
             case Reset(ids) => x.id !in ids
    ensures var t' := Play(t, move);
            t'.status[x.id] == t.status[x.id] && (Quarantined(t', x.coords) <==> Quarantined(t, x.coords))
  {
    if move.Worked? {
      SelectedIsDerivable(t, move.q);
      OthersUntouched(t, FindDerivableBy(t, move.q), move.outcome, x);
    }
  }

  /** No reset of the run chooses the event. */
  ghost predicate NeverReset(moves: seq<Move>, x: Event) {
    forall m :: m in moves && m.Reset? ==> x.id !in m.ids
  }

  /** A derived event that no reset chooses is never selected again, however many ticks follow, at whatever times. */
  lemma {:induction false} DerivedStaysOut(t: Tables, moves: seq<Move>, x: Event, q: Selector)
    requires ArchiveOk(t) && Playable(moves) && IsTextOrder(q.collate)
    requires x in t.archive && t.status[x.id].derived && NeverReset(moves, x)
    ensures PlayAll(t, moves).status[x.id].derived
    ensures x !in FindDerivableBy(PlayAll(t, moves), q)
    decreases |moves|
  {
    if moves == [] {
      SelectedIsDerivable(t, q);
    } else {
      assert moves[0] in moves && forall m :: m in moves[1..] ==> m in moves;
      MoveLeavesAlone(t, moves[0], x);
      DerivedStaysOut(Play(t, moves[0]), moves[1..], x, q);
    }
  }

  /** Everything the selector asks of an event besides that it is not derived. */
  predicate Ready(t: Tables, q: Selector, x: Event) {
    && x.id in t.status && t.status[x.id].actorsResolved && x.eventType in q.types
    && NotHeld(t, x.id, q.now) && !Quarantined(t, x.coords)
  }

  /** A reset is exactly what brings a derived event back: it is derivable after it when it was chosen and ready. */
  lemma ResetBringsBackExactly(t: Tables, ids: set<int>, q: Selector, x: Event)
    requires ArchiveOk(t) && x in t.archive && t.status[x.id].derived
    ensures Derivable(ResetWatermark(t, ids), q, x) <==> x.id in ids && Ready(t, q, x)
  {
    var t' := ResetWatermark(t, ids);
    assert t'.dlq == t.dlq && t'.resolved == t.resolved;
    assert t'.status[x.id] ==
      if x.id in ids then t.status[x.id].(derived := false, attempts := 0) else t.status[x.id];
  }

  /** Every tick of the run comes before the hold ends. */
  ghost predicate AllBefore(moves: seq<Move>, until: int) {
    forall m :: m in moves && m.Worked? ==> m.q.now < until
  }

  lemma {:induction false} HeldUntouched(t: Tables, moves: seq<Move>, x: Event, until: int)
    requires ArchiveOk(t) && Playable(moves) && x in t.archive
    requires t.status[x.id].holdUntil == Some(until) && AllBefore(moves, until) && NeverReset(moves, x)
    ensures var t' := PlayAll(t, moves);
            t'.status[x.id] == t.status[x.id] && (Quarantined(t', x.coords) <==> Quarantined(t, x.coords))
    decreases |moves|
  {
    if moves != [] {
      assert moves[0] in moves && forall m :: m in moves[1..] ==> m in moves;
      MoveLeavesAlone(t, moves[0], x);
      HeldUntouched(Play(t, moves[0]), moves[1..], x, until);
    }
  }

  /**
   A hold defers and does nothing else: a derivable event that an applier holds stays out of every batch before the
   hold ends, and after any such run it is derivable again, by the same selection, exactly from that time on.
   */
  lemma HoldOnlyDefers(t: Tables, q: Selector, x: Event, until: int, moves: seq<Move>, later: int)
    requires ArchiveOk(t) && Playable(moves) && x in t.archive && Derivable(t, q, x)
    requires AllBefore(moves, until) && NeverReset(moves, x)
    ensures Derivable(PlayAll(Apply(t, x, Hold(until)), moves), q.(now := later), x) <==> until <= later
  {
    HeldUntouched(Apply(t, x, Hold(until)), moves, x, until);
  }

  /** A reset clears the derived mark and the attempts of the rows it chooses, and nothing else. */
  lemma ResetMeans(t: Tables, ids: set<int>)
    ensures var t' := ResetWatermark(t, ids);
            && t' == t.(status := t'.status) && t'.status.Keys == t.status.Keys
            && (forall id :: id in t.status && id !in ids ==> t'.status[id] == t.status[id])
            && (forall id :: id in t.status && id in ids ==>
                 && !t'.status[id].derived && t'.status[id].attempts == 0
                 && t'.status[id].holdUntil == t.status[id].holdUntil
                 && t'.status[id].actorsResolved == t.status[id].actorsResolved)
  {
  }
}
