/**
 Runs of the identity operations, and what holds in every state a run reaches.

 Each operation is one step, except that findOrCreateActorAddress may stop after its first statement
 (a crash, or a CHECK failure on the second): that leaves exactly the state findOrCreateByAddress leaves,
 an actor without an address row.
 */
module ActorRuns {
  import opened Wrappers
  import opened ActorTables
  import opened ActorInvariant
  import opened ActorMerge

  ghost function FindOrCreateByAddress(t: Tables, raw: string, newId: ActorId): (Tables, ActorId) {
    InsertActor(t, Lower(raw), newId)
  }

  /** Two statements and no enclosing transaction: a failed address row keeps the actor row. */
  ghost function FindOrCreateActorAddress(t: Tables, raw: string, newId: ActorId)
    : (Tables, Result<ActorId, DbError>)
  {
    var p := Lower(raw);
    match OwnerByRow(t, p)
    case Some(owner) => (t, Ok(owner))
    case None =>
      var (inserted, a) := InsertActor(t, p, newId);
      match InsertAddressRow(inserted, a, p)
      case Ok(registered) => (registered, Ok(a))
      case Err(e) => (inserted, Err(e))
  }

  datatype Op =
    | FindOrCreate(raw: string, newId: ActorId)
    | Register(raw: string, newId: ActorId)
    | Merge(rawPrimary: string, rawSecondary: string)
    | Propose(proposal: ProposalId, raw: string, newId: ActorId) // register the proposer, insert the proposal

  /** A generated id is new. */
  predicate Fresh(t: Tables, op: Op) {
    op.Merge? || op.newId !in t.actor
  }

  ghost function Step(t: Tables, op: Op): Tables
  {
    match op
    case FindOrCreate(raw, newId) => FindOrCreateByAddress(t, raw, newId).0
    case Register(raw, newId) => FindOrCreateActorAddress(t, raw, newId).0
    case Merge(p, q) =>
      var outcome := ExecuteMerge(t, p, q);
      if outcome.Ok? then outcome.value.0 else t
    case Propose(i, raw, newId) =>
      var (registered, proposer) := FindOrCreateActorAddress(t, raw, newId);
      if proposer.Ok? then registered.(proposal := registered.proposal[i := proposer.value]) else registered
  }

  ghost predicate AllFresh(t: Tables, ops: seq<Op>)
    decreases ops
  {
    ops == [] || (Fresh(t, ops[0]) && AllFresh(Step(t, ops[0]), ops[1..]))
  }

  ghost function Run(t: Tables, ops: seq<Op>): Tables
    decreases ops
  {
    if ops == [] then t else Run(Step(t, ops[0]), ops[1..])
  }

  /** The tables right after the migration that created them: no merges, one primary row per actor. */
  ghost predicate Initial(t: Tables) {
    && (forall a :: a in t.actor ==> t.actor[a].mergedInto.None? && Storable(t.actor[a].primary))
    && (forall a, b :: a in t.actor && b in t.actor && t.actor[a].primary == t.actor[b].primary ==> a == b)
    && (forall k :: k in t.actorAddress <==> k.0 in t.actor && k.1 == t.actor[k.0].primary)
    && (forall k :: k in t.actorAddress ==> t.actorAddress[k])
    && t.redirect == map[]
    && (forall i :: i in t.proposal ==> t.proposal[i] in t.actor)
  }

  // ---- Steps keep the invariant ----

  ghost function InsertedForest(f: Forest, p: Address, newId: ActorId): Forest {
    if p in f.index then f
    else Forest(f.root[newId := newId], f.height[newId := 0], f.index[p := newId])
  }

  ghost function WithNewActor(t: Tables, p: Address, newId: ActorId): Tables {
    t.(actor := t.actor[newId := ActorRow(p, None)])
  }

  lemma NewActorOnActor(t: Tables, f: Forest, p: Address, newId: ActorId, a: ActorId)
    requires ConsistentWith(t, f) && newId !in t.actor && p !in f.index && (a in t.actor || a == newId)
    ensures ActorOk(WithNewActor(t, p, newId), InsertedForest(f, p, newId), a)
  {
    assert a in t.actor ==> ActorOk(t, f, a);
  }

  lemma NewActorOnRow(t: Tables, f: Forest, p: Address, newId: ActorId, k: (ActorId, Address))
    requires ConsistentWith(t, f) && newId !in t.actor && p !in f.index && k in t.actorAddress
    ensures RowOk(WithNewActor(t, p, newId), InsertedForest(f, p, newId), k)
  {
    assert RowOk(t, f, k);
  }

  lemma NewActorOnTheRest(t: Tables, f: Forest, p: Address, newId: ActorId)
    requires ConsistentWith(t, f) && newId !in t.actor && p !in f.index
    ensures var t', f' := WithNewActor(t, p, newId), InsertedForest(f, p, newId);
            && Covers(t', f')
            && (forall r {:trigger RedirectOk(t', f', r)} :: r in t'.redirect ==> RedirectOk(t', f', r))
            && (forall r {:trigger IndexOk(t', f', r)} :: r in f'.index ==> IndexOk(t', f', r))
  {
    var t', f' := WithNewActor(t, p, newId), InsertedForest(f, p, newId);
    forall r | r in t'.redirect ensures RedirectOk(t', f', r) {
      assert RedirectOk(t, f, r);
    }
    forall r | r in f'.index ensures IndexOk(t', f', r) {
      assert r in f.index ==> IndexOk(t, f, r);
    }
  }

  lemma NewActorKeeps(t: Tables, f: Forest, p: Address, newId: ActorId)
    requires ConsistentWith(t, f) && newId !in t.actor && p !in f.index
    ensures ConsistentWith(WithNewActor(t, p, newId), InsertedForest(f, p, newId))
  {
    NewActorOnTheRest(t, f, p, newId);
    forall a | a in t.actor || a == newId {
      NewActorOnActor(t, f, p, newId, a);
    }
    forall k | k in t.actorAddress {
      NewActorOnRow(t, f, p, newId, k);
    }
  }

  lemma InsertActorKeeps(t: Tables, f: Forest, p: Address, newId: ActorId)
    requires ConsistentWith(t, f) && newId !in t.actor
    ensures ConsistentWith(InsertActor(t, p, newId).0, InsertedForest(f, p, newId))
    ensures IsPrimaryOf(InsertActor(t, p, newId).0, InsertActor(t, p, newId).1, p)
  {
    LookupsIn(t, f, p);
    if p in f.index {
      assert IndexOk(t, f, p);
    } else {
      NewActorKeeps(t, f, p, newId);
    }
  }

  /** The second statement, run right after the first: the address has no row, so its actor is live. */
  lemma InsertRowKeeps(t: Tables, f: Forest, a: ActorId, p: Address)
    requires ConsistentWith(t, f) && IsPrimaryOf(t, a, p) && Live(t, a)
    ensures InsertAddressRow(t, a, p).Ok? <==> Storable(p)
    ensures InsertAddressRow(t, a, p).Ok? ==> ConsistentWith(InsertAddressRow(t, a, p).value, f)
    ensures InsertAddressRow(t, a, p).Err? ==> InsertAddressRow(t, a, p).error == CheckViolation
  {
    assert ActorOk(t, f, a);
    forall k | k in t.actorAddress && k.1 == p ensures k.0 == a {
      assert RowOk(t, f, k);
    }
    if Storable(p) {
      var t' := InsertAddressRow(t, a, p).value;
      forall b | b in t'.actor ensures ActorOk(t', f, b) {
        assert ActorOk(t, f, b);
      }
      forall k | k in t'.actorAddress ensures RowOk(t', f, k) {
        assert k in t.actorAddress ==> RowOk(t, f, k);
      }
      forall r | r in t'.redirect ensures RedirectOk(t', f, r) {
        assert RedirectOk(t, f, r);
      }
      forall r | r in f.index ensures IndexOk(t', f, r) {
        assert IndexOk(t, f, r);
      }
    }
  }

  lemma RegisterKeeps(t: Tables, f: Forest, raw: string, newId: ActorId)
    requires ConsistentWith(t, f) && newId !in t.actor
    ensures var (t', r) := FindOrCreateActorAddress(t, raw, newId);
            && ConsistentWith(t', InsertedForest(f, Lower(raw), newId))
            && (r.Ok? ==> Live(t', r.value) && Owns(t', r.value, Lower(raw)))
            && (r.Err? <==> !Storable(Lower(raw)))
            && t'.proposal == t.proposal
  {
    var p := Lower(raw);
    LookupsIn(t, f, p);
    if Registered(t, p) {
      var k :| k in t.actorAddress && k.1 == p;
      assert RowOk(t, f, k);
    } else {
      InsertActorKeeps(t, f, p, newId);
      var (inserted, a) := InsertActor(t, p, newId);
      assert Live(inserted, a) by {
        if p in f.index {
          assert ActorOk(t, f, f.index[p]);
        }
      }
      InsertRowKeeps(inserted, InsertedForest(f, p, newId), a, p);
    }
  }

  /** The counts a plan reports are the sizes of what the merge will move. */
  ghost predicate CountsAreRight(t: Tables, plan: MergePlan) {
    && plan.proposalRewrites == |ProposalsOf(t, plan.secondary)|
    && plan.addressRetargets == |RowsOf(t, plan.secondary)|
  }

  /** A merge succeeds exactly when both addresses have rows with different owners. */
  lemma MergeOutcome(t: Tables, f: Forest, rawPrimary: string, rawSecondary: string)
    requires ConsistentWith(t, f)
    ensures var p, q := Lower(rawPrimary), Lower(rawSecondary);
            match ExecuteMerge(t, rawPrimary, rawSecondary)
            case Ok((t', plan)) =>
              && Registered(t, p) && Registered(t, q)
              && Coalesce(t, p) == Some(plan.survivor) && Coalesce(t, q) == Some(plan.secondary)
              && Mergeable(t, f, plan) && ApplyPlan(t, plan) == Ok(t') && CountsAreRight(t, plan)
            case Err(AddressNotFound(x)) =>
              (x == p && !Registered(t, p)) || (x == q && Registered(t, p) && !Registered(t, q))
            case Err(SameActor(a)) =>
              && Registered(t, p) && Registered(t, q)
              && Coalesce(t, p) == Some(a) && Coalesce(t, q) == Some(a)
            case Err(_) => false
  {
    var p, q := Lower(rawPrimary), Lower(rawSecondary);
    LookupsIn(t, f, p);
    LookupsIn(t, f, q);
    if Registered(t, p) && Registered(t, q) && Resolved(t, f, p) != Resolved(t, f, q) {
      var a, b := Resolved(t, f, p).value, Resolved(t, f, q).value;
      assert RowOk(t, f, (a, p)) && RowOk(t, f, (b, q));
      var plan := MergePlan(a, t.actor[a].primary, b, t.actor[b].primary, |ProposalsOf(t, b)|, |RowsOf(t, b)|,
                            set r | r in t.redirect && t.redirect[r] == b);
      WritesDoNotCollide(t, f, plan);
      assert BuildPlan(t, rawPrimary, rawSecondary) == Ok(plan);
    }
  }

  // ---- Every reachable state is consistent ----

  ghost predicate Reachable(t: Tables) {
    exists start, ops :: Initial(start) && AllFresh(start, ops) && t == Run(start, ops)
  }

  lemma InitialConsistent(t: Tables)
    requires Initial(t)
    ensures Consistent(t)
  {
    var primaries := set a | a in t.actor :: t.actor[a].primary;
    var f := Forest(map a | a in t.actor :: a, map a | a in t.actor :: 0,
                    map p | p in primaries :: var a :| a in t.actor && t.actor[a].primary == p; a);
    forall a | a in t.actor ensures ActorOk(t, f, a) {
      assert t.actor[a].primary in primaries && IsPrimaryOf(t, a, t.actor[a].primary);
    }
    forall k | k in t.actorAddress ensures RowOk(t, f, k) {
      assert ActorOk(t, f, k.0);
    }
    forall p | p in f.index ensures IndexOk(t, f, p) {
    }
    assert ConsistentWith(t, f);
  }

  lemma ProposalKeeps(t: Tables, f: Forest, i: ProposalId, a: ActorId)
    requires ConsistentWith(t, f) && Live(t, a)
    ensures ConsistentWith(t.(proposal := t.proposal[i := a]), f)
  {
    var t' := t.(proposal := t.proposal[i := a]);
    forall b | b in t'.actor ensures ActorOk(t', f, b) {
      assert ActorOk(t, f, b);
    }
    forall k | k in t'.actorAddress ensures RowOk(t', f, k) {
      assert RowOk(t, f, k);
    }
    forall p | p in t'.redirect ensures RedirectOk(t', f, p) {
      assert RedirectOk(t, f, p);
    }
    forall p | p in f.index ensures IndexOk(t', f, p) {
      assert IndexOk(t, f, p);
    }
  }

  lemma StepKeeps(t: Tables, f: Forest, op: Op) returns (f': Forest)
    requires ConsistentWith(t, f) && Fresh(t, op)
    ensures ConsistentWith(Step(t, op), f')
    ensures f' == match op
                  case FindOrCreate(raw, newId) => InsertedForest(f, Lower(raw), newId)
                  case Register(raw, newId) => InsertedForest(f, Lower(raw), newId)
                  case Propose(_, raw, newId) => InsertedForest(f, Lower(raw), newId)
                  case Merge(p, q) =>
                    match ExecuteMerge(t, p, q)
                    case Ok((_, plan)) =>
                      if plan.survivor in f.height && f.root.Keys == f.height.Keys
                      then MergedForest(f, plan.secondary, plan.survivor) else f
                    case Err(_) => f
  {
    match op
    case FindOrCreate(raw, newId) =>
      InsertActorKeeps(t, f, Lower(raw), newId);
      f' := InsertedForest(f, Lower(raw), newId);
    case Register(raw, newId) =>
      RegisterKeeps(t, f, raw, newId);
      f' := InsertedForest(f, Lower(raw), newId);
    case Propose(i, raw, newId) =>
      RegisterKeeps(t, f, raw, newId);
      f' := InsertedForest(f, Lower(raw), newId);
      var (registered, proposer) := FindOrCreateActorAddress(t, raw, newId);
      if proposer.Ok? {
        ProposalKeeps(registered, f', i, proposer.value);
      }
    case Merge(p, q) =>
      MergeOutcome(t, f, p, q);
      f' := f;
      if ExecuteMerge(t, p, q).Ok? {
        var plan := ExecuteMerge(t, p, q).value.1;
        MergeKeepsConsistent(t, f, plan);
        f' := MergedForest(f, plan.secondary, plan.survivor);
      }
  }

  lemma {:induction false} RunKeeps(t: Tables, ops: seq<Op>)
    requires Consistent(t) && AllFresh(t, ops)
    ensures Consistent(Run(t, ops))
    decreases ops
  {
    if ops != [] {
      var f :| ConsistentWith(t, f);
      var f' := StepKeeps(t, f, ops[0]);
      RunKeeps(Step(t, ops[0]), ops[1..]);
    }
  }

  lemma ReachableConsistent(t: Tables)
    requires Reachable(t)
    ensures Consistent(t)
  {
    var start, ops :| Initial(start) && AllFresh(start, ops) && t == Run(start, ops);
    InitialConsistent(start);
    RunKeeps(start, ops);
  }
}
