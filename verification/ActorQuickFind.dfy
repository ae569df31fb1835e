/**
 The identity tables refine the simplest thing that could work: one map from address to actor, rewritten
 in full on every merge. The four tables, the unflattened parent pointers and the flattened redirects are
 an implementation of it, on every run.
 */
module ActorQuickFind {
  import opened Wrappers
  import opened ActorTables
  import opened ActorInvariant
  import opened ActorMerge
  import opened ActorRuns

  datatype QuickFind = QuickFind(owner: map<Address, ActorId>, registered: set<Address>)

  function Know(q: QuickFind, p: Address, newId: ActorId): QuickFind {
    if p in q.owner then q else q.(owner := q.owner[p := newId])
  }

  function Enlist(q: QuickFind, p: Address, newId: ActorId): QuickFind {
    var known := Know(q, p, newId);
    if Storable(p) then known.(registered := known.registered + {p}) else known
  }

  function Union(q: QuickFind, p: Address, r: Address): QuickFind {
    if p in q.registered && r in q.registered && p in q.owner && r in q.owner
    then q.(owner := map x | x in q.owner :: if q.owner[x] == q.owner[r] then q.owner[p] else q.owner[x])
    else q
  }

  function StepAbstract(q: QuickFind, op: Op): QuickFind {
    match op
    case FindOrCreate(raw, newId) => Know(q, Lower(raw), newId)
    case Register(raw, newId) => Enlist(q, Lower(raw), newId)
    case Propose(_, raw, newId) => Enlist(q, Lower(raw), newId)
    case Merge(p, r) => Union(q, Lower(p), Lower(r))
  }

  function RunAbstract(q: QuickFind, ops: seq<Op>): QuickFind
    decreases ops
  {
    if ops == [] then q else RunAbstract(StepAbstract(q, ops[0]), ops[1..])
  }

  ghost predicate Agrees(t: Tables, q: QuickFind, x: Address) {
    && Coalesce(t, x) == (if x in q.owner then Some(q.owner[x]) else None)
    && (Registered(t, x) <==> x in q.registered)
  }

  /** Resolution in the tables is lookup in the map. */
  ghost predicate Represents(t: Tables, q: QuickFind) {
    forall x {:trigger Agrees(t, q, x)} :: Agrees(t, q, x)
  }

  lemma InsertedResolves(t: Tables, f: Forest, t': Tables, p: Address, newId: ActorId, x: Address)
    requires ConsistentWith(t, f) && newId !in t.actor && ConsistentWith(t', InsertedForest(f, p, newId))
    ensures Resolved(t', InsertedForest(f, p, newId), x) ==
            if x in f.index then Resolved(t, f, x) else if x == p then Some(newId) else None
  {
    if x in f.index {
      assert IndexOk(t, f, x);
    }
  }

  lemma MergedResolves(t: Tables, f: Forest, t': Tables, plan: MergePlan, x: Address)
    requires Mergeable(t, f, plan) && ConsistentWith(t', MergedForest(f, plan.secondary, plan.survivor))
    ensures Resolved(t', MergedForest(f, plan.secondary, plan.survivor), x) ==
            if Resolved(t, f, x) == Some(plan.secondary) then Some(plan.survivor) else Resolved(t, f, x)
  {
    if x in f.index {
      assert IndexOk(t, f, x);
    }
  }

  lemma RowsAfterInsert(t: Tables, a: ActorId, p: Address, x: Address)
    requires InsertAddressRow(t, a, p).Ok?
    ensures Registered(InsertAddressRow(t, a, p).value, x) <==> Registered(t, x) || x == p
  {
    var t' := InsertAddressRow(t, a, p).value;
    assert (a, p) in t'.actorAddress && (a, p).1 == p;
    if k :| k in t.actorAddress && k.1 == x {
      assert k in t'.actorAddress;
    }
  }

  lemma RegisteredAfterRegister(t: Tables, f: Forest, raw: string, newId: ActorId, x: Address)
    requires ConsistentWith(t, f) && newId !in t.actor
    ensures var (t', _) := FindOrCreateActorAddress(t, raw, newId);
            Registered(t', x) <==> Registered(t, x) || (x == Lower(raw) && Storable(x))
  {
    var p := Lower(raw);
    LookupsIn(t, f, p);
    if Registered(t, p) {
      var k :| k in t.actorAddress && k.1 == p;
      assert RowOk(t, f, k);
    } else {
      var (inserted, a) := InsertActor(t, p, newId);
      assert inserted.actorAddress == t.actorAddress;
      assert Registered(inserted, x) <==> Registered(t, x);
      RegisterKeeps(t, f, raw, newId);
      if Storable(p) {
        RowsAfterInsert(inserted, a, p, x);
      }
    }
  }

  lemma KnowAgrees(t: Tables, f: Forest, q: QuickFind, p: Address, newId: ActorId, x: Address)
    requires ConsistentWith(t, f) && newId !in t.actor && Agrees(t, q, x)
    ensures Agrees(InsertActor(t, p, newId).0, Know(q, p, newId), x)
  {
    var t' := InsertActor(t, p, newId).0;
    InsertActorKeeps(t, f, p, newId);
    LookupsIn(t, f, x);
    LookupsIn(t', InsertedForest(f, p, newId), x);
    InsertedResolves(t, f, t', p, newId, x);
    assert Registered(t', x) <==> Registered(t, x);
  }

  lemma EnlistAgrees(t: Tables, f: Forest, q: QuickFind, raw: string, newId: ActorId, x: Address)
    requires ConsistentWith(t, f) && newId !in t.actor && Agrees(t, q, x)
    ensures Agrees(FindOrCreateActorAddress(t, raw, newId).0, Enlist(q, Lower(raw), newId), x)
  {
    var p, t' := Lower(raw), FindOrCreateActorAddress(t, raw, newId).0;
    RegisterKeeps(t, f, raw, newId);
    LookupsIn(t, f, x);
    LookupsIn(t', InsertedForest(f, p, newId), x);
    InsertedResolves(t, f, t', p, newId, x);
    RegisteredAfterRegister(t, f, raw, newId, x);
  }

  lemma ProposalAgrees(t: Tables, f: Forest, q: QuickFind, i: ProposalId, a: ActorId, x: Address)
    requires ConsistentWith(t, f) && Live(t, a) && Agrees(t, q, x)
    ensures Agrees(t.(proposal := t.proposal[i := a]), q, x)
  {
    var t' := t.(proposal := t.proposal[i := a]);
    ProposalKeeps(t, f, i, a);
    LookupsIn(t, f, x);
    LookupsIn(t', f, x);
    assert Registered(t', x) <==> Registered(t, x);
  }

  lemma UnionAgrees(t: Tables, f: Forest, q: QuickFind, t': Tables, plan: MergePlan, p: Address, r: Address, x: Address)
    requires Mergeable(t, f, plan) && MergeEffect(t, t', plan)
    requires Registered(t, p) && Coalesce(t, p) == Some(plan.survivor) && Agrees(t, q, p)
    requires Registered(t, r) && Coalesce(t, r) == Some(plan.secondary) && Agrees(t, q, r)
    requires Agrees(t, q, x)
    ensures Agrees(t', Union(q, p, r), x)
  {
    EffectKeepsConsistent(t, t', f, plan);
    LookupsIn(t, f, x);
    LookupsIn(t', MergedForest(f, plan.secondary, plan.survivor), x);
    MergedResolves(t, f, t', plan, x);
    RegisteredAfter(t, t', plan, x);
  }

  lemma MergeAgrees(t: Tables, f: Forest, q: QuickFind, rawPrimary: string, rawSecondary: string, x: Address)
    requires ConsistentWith(t, f) && Represents(t, q)
    ensures Agrees(Step(t, Merge(rawPrimary, rawSecondary)), StepAbstract(q, Merge(rawPrimary, rawSecondary)), x)
  {
    var p, r := Lower(rawPrimary), Lower(rawSecondary);
    assert Agrees(t, q, p) && Agrees(t, q, r) && Agrees(t, q, x);
    MergeOutcome(t, f, rawPrimary, rawSecondary);
    match ExecuteMerge(t, rawPrimary, rawSecondary)
    case Ok((t', plan)) =>
      MergeHasEffect(t, f, plan);
      UnionAgrees(t, f, q, t', plan, p, r, x);
    case Err(SameActor(a)) =>
      assert Union(q, p, r).owner == q.owner;
    case Err(_) =>
  }

  lemma StepRefines(t: Tables, f: Forest, q: QuickFind, op: Op)
    requires ConsistentWith(t, f) && Fresh(t, op) && Represents(t, q)
    ensures Represents(Step(t, op), StepAbstract(q, op))
  {
    forall x ensures Agrees(Step(t, op), StepAbstract(q, op), x) {
      assert Agrees(t, q, x);
      match op
      case FindOrCreate(raw, newId) => KnowAgrees(t, f, q, Lower(raw), newId, x);
      case Register(raw, newId) => EnlistAgrees(t, f, q, raw, newId, x);
      case Propose(i, raw, newId) =>
        EnlistAgrees(t, f, q, raw, newId, x);
        RegisterKeeps(t, f, raw, newId);
        var (registered, proposer) := FindOrCreateActorAddress(t, raw, newId);
        if proposer.Ok? {
          ProposalAgrees(registered, InsertedForest(f, Lower(raw), newId), Enlist(q, Lower(raw), newId),
                         i, proposer.value, x);
        }
      case Merge(p, r) => MergeAgrees(t, f, q, p, r, x);
    }
  }

  /**
   On every run, of any length, resolving an address in the tables gives what quick-find gives: in
   particular two addresses share an actor exactly when successful merges have united them.
   */
  lemma {:induction false} RunRefines(t: Tables, q: QuickFind, ops: seq<Op>)
    requires Consistent(t) && AllFresh(t, ops) && Represents(t, q)
    ensures Represents(Run(t, ops), RunAbstract(q, ops))
    decreases ops
  {
    if ops != [] {
      var f :| ConsistentWith(t, f);
      StepRefines(t, f, q, ops[0]);
      var f' := StepKeeps(t, f, ops[0]);
      RunRefines(Step(t, ops[0]), StepAbstract(q, ops[0]), ops[1..]);
    }
  }

  /** The map the tables start from: each primary address owned by its actor, and registered. */
  ghost function InitialQuickFind(t: Tables): QuickFind {
    var primaries := set a | a in t.actor :: t.actor[a].primary;
    QuickFind(map p | p in primaries :: var a :| a in t.actor && t.actor[a].primary == p; a, primaries)
  }

  lemma InitialIsRepresented(t: Tables)
    requires Initial(t)
    ensures Represents(t, InitialQuickFind(t))
  {
    var q := InitialQuickFind(t);
    InitialConsistent(t);
    var f :| ConsistentWith(t, f);
    forall x ensures Agrees(t, q, x) {
      LookupsIn(t, f, x);
      if x in q.owner {
        var a := q.owner[x];
        assert IsPrimaryOf(t, a, x) && ActorOk(t, f, a);
        assert (a, x) in t.actorAddress;
      }
      if x in f.index {
        assert IndexOk(t, f, x);
      }
      if k :| k in t.actorAddress && k.1 == x {
        assert k.0 in t.actor && t.actor[k.0].primary == x;
      }
    }
  }

  /** From the migrated tables on, over every run, resolution is lookup in the quick-find map of the same run. */
  lemma TablesRefineQuickFind(t: Tables, ops: seq<Op>)
    requires Initial(t) && AllFresh(t, ops)
    ensures Represents(Run(t, ops), RunAbstract(InitialQuickFind(t), ops))
  {
    InitialConsistent(t);
    InitialIsRepresented(t);
    RunRefines(t, InitialQuickFind(t), ops);
  }
}
