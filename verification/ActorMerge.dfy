/**
 The merge transaction as the sequence of its statements, with every error it can raise, and what one
 merge does to a consistent state.
 */
module ActorMerge {
  import opened Wrappers
  import opened ActorTables
  import opened ActorInvariant

  datatype MergePlan = MergePlan(
    survivor: ActorId,
    survivorPrimary: Address,
    secondary: ActorId,
    secondaryPrimary: Address,
    proposalRewrites: nat,
    addressRetargets: nat,
    redirectsToFlatten: set<Address>)

  datatype MergeError =
    | AddressNotFound(address: Address)
    | SameActor(actor: ActorId)
    | AlreadyMerged(address: Address, into: ActorId)
    | AddressCollision(address: Address, survivor: ActorId)
    | Rejected(reason: DbError)

  /** The inner join of `actor` and `actor_address` for one address. */
  ghost function LookUp(t: Tables, p: Address): (r: Result<ActorId, MergeError>)
    ensures r.Ok? ==> r.value in t.actor
  {
    match OwnerByRow(t, p)
    case Some(a) => if a in t.actor then Ok(a) else Err(AddressNotFound(p))
    case None => Err(AddressNotFound(p))
  }

  function RowsOf(t: Tables, a: ActorId): set<(ActorId, Address)> {
    set k | k in t.actorAddress && k.0 == a
  }

  function ProposalsOf(t: Tables, a: ActorId): set<ProposalId> {
    set i | i in t.proposal && t.proposal[i] == a
  }

  ghost function BuildPlan(t: Tables, rawPrimary: string, rawSecondary: string): Result<MergePlan, MergeError>
  {
    var p, q := Lower(rawPrimary), Lower(rawSecondary);
    var a :- LookUp(t, p);
    var b :- LookUp(t, q);
    if p == q || a == b then Err(SameActor(a))
    else if t.actor[a].mergedInto.Some? then Err(AlreadyMerged(p, t.actor[a].mergedInto.value))
    else if t.actor[b].mergedInto.Some? then Err(AlreadyMerged(q, t.actor[b].mergedInto.value))
    else if Owns(t, a, t.actor[b].primary) then Err(AddressCollision(t.actor[b].primary, a))
    else
      Ok(MergePlan(a, t.actor[a].primary, b, t.actor[b].primary, |ProposalsOf(t, b)|, |RowsOf(t, b)|,
                   set r | r in t.redirect && t.redirect[r] == b))
  }

  function Checked(r: Result<Tables, DbError>): Result<Tables, MergeError> {
    match r
    case Ok(t) => Ok(t)
    case Err(e) => Err(Rejected(e))
  }

  /** The write statements of the transaction, in order. */
  function ApplyPlan(t: Tables, plan: MergePlan): Result<Tables, MergeError> {
    var rewritten := RewriteProposals(t, plan.secondary, plan.survivor);
    var retargeted :- Checked(RetargetAddresses(rewritten, plan.secondary, plan.survivor));
    var cleared := ClearPrimary(retargeted, plan.survivor, plan.secondaryPrimary);
    var flattened := FlattenRedirects(cleared, plan.secondary, plan.survivor);
    var redirected :- Checked(InsertRedirect(flattened, plan.secondaryPrimary, plan.survivor));
    Ok(SetParent(redirected, plan.secondary, plan.survivor))
  }

  /** An error rolls the whole transaction back, so only a success carries tables. */
  ghost function ExecuteMerge(t: Tables, rawPrimary: string, rawSecondary: string)
    : Result<(Tables, MergePlan), MergeError>
  {
    var plan :- BuildPlan(t, rawPrimary, rawSecondary);
    var merged :- ApplyPlan(t, plan);
    Ok((merged, plan))
  }

  ghost function MergedForest(f: Forest, secondary: ActorId, survivor: ActorId): Forest
    requires survivor in f.height && f.root.Keys == f.height.Keys
  {
    f.(root := map a | a in f.root :: if f.root[a] == secondary then survivor else f.root[a],
       height := map a | a in f.height ::
         if f.root[a] == secondary then f.height[a] + f.height[survivor] + 1 else f.height[a])
  }

  /** Two distinct live actors, each owning at least one address row. */
  ghost predicate Mergeable(t: Tables, f: Forest, plan: MergePlan) {
    && ConsistentWith(t, f)
    && plan.survivor != plan.secondary
    && Live(t, plan.survivor) && Live(t, plan.secondary)
    && plan.secondaryPrimary == t.actor[plan.secondary].primary
    && Owns(t, plan.survivor, t.actor[plan.survivor].primary)
    && Owns(t, plan.secondary, t.actor[plan.secondary].primary)
  }

  /** None of the constraints the writes meet can be violated. */
  lemma WritesDoNotCollide(t: Tables, f: Forest, plan: MergePlan)
    requires Mergeable(t, f, plan)
    ensures !Owns(t, plan.survivor, plan.secondaryPrimary)
    ensures ApplyPlan(t, plan).Ok?
  {
    assert ActorOk(t, f, plan.secondary) && ActorOk(t, f, plan.survivor);
    assert RowOk(t, f, (plan.secondary, plan.secondaryPrimary));
    assert plan.secondaryPrimary in t.redirect ==> RedirectOk(t, f, plan.secondaryPrimary);
    forall k | k in t.actorAddress && k.0 == plan.secondary
      ensures (plan.survivor, k.1) !in t.actorAddress
    {
      assert RowOk(t, f, k);
      assert (plan.survivor, k.1) in t.actorAddress ==> RowOk(t, f, (plan.survivor, k.1));
    }
  }

  lemma RetargetMoves(t: Tables, secondary: ActorId, survivor: ActorId)
    requires RetargetAddresses(t, secondary, survivor).Ok? && secondary != survivor
    ensures var rows := RetargetAddresses(t, secondary, survivor).value.actorAddress;
            && (forall k :: k in rows <==>
                 k.0 != secondary
                 && (k in t.actorAddress || (k.0 == survivor && (secondary, k.1) in t.actorAddress)))
            && (forall k :: k in rows ==>
                 rows[k] == if k in t.actorAddress then t.actorAddress[k] else t.actorAddress[(secondary, k.1)])
  {
    var rows := RetargetAddresses(t, secondary, survivor).value.actorAddress;
    forall k: (ActorId, Address) | k.0 == survivor && (secondary, k.1) in t.actorAddress
      ensures k in rows
    {
      var moved := (secondary, k.1);
      assert moved in t.actorAddress && moved.0 == secondary;
      assert k == (survivor, moved.1);
    }
  }

  /** The address rows after a merge: the secondary's rows, no longer primary, under the survivor. */
  ghost predicate RowsMoved(before: map<(ActorId, Address), bool>, after: map<(ActorId, Address), bool>,
                            secondary: ActorId, survivor: ActorId)
  {
    && (forall k :: k in after <==>
         k.0 != secondary && (k in before || (k.0 == survivor && (secondary, k.1) in before)))
    && (forall k :: k in after ==> after[k] == (k in before && before[k]))
  }

  /** The net effect of one merge on each table. */
  ghost predicate MergeEffect(t: Tables, t': Tables, plan: MergePlan)
    requires plan.secondary in t.actor
  {
    && t'.actor == t.actor[plan.secondary := ActorRow(t.actor[plan.secondary].primary, Some(plan.survivor))]
    && RowsMoved(t.actorAddress, t'.actorAddress, plan.secondary, plan.survivor)
    && t'.redirect.Keys == t.redirect.Keys + {plan.secondaryPrimary}
    && (forall p :: p in t'.redirect ==>
         t'.redirect[p] ==
         (if p !in t.redirect || t.redirect[p] == plan.secondary then plan.survivor else t.redirect[p]))
    && t'.proposal == RewriteProposals(t, plan.secondary, plan.survivor).proposal
  }

  lemma MergeHasEffect(t: Tables, f: Forest, plan: MergePlan)
    requires Mergeable(t, f, plan)
    ensures ApplyPlan(t, plan).Ok?
    ensures MergeEffect(t, ApplyPlan(t, plan).value, plan)
  {
    WritesDoNotCollide(t, f, plan);
    var rewritten := RewriteProposals(t, plan.secondary, plan.survivor);
    RetargetMoves(rewritten, plan.secondary, plan.survivor);
    var rows := RetargetAddresses(rewritten, plan.secondary, plan.survivor).value.actorAddress;
    assert (plan.secondary, plan.secondaryPrimary) in t.actorAddress;
    assert (plan.survivor, plan.secondaryPrimary) in rows;
    forall k | k in rows && k !in t.actorAddress && k.1 != plan.secondaryPrimary
      ensures !rows[k]
    {
      assert RowOk(t, f, (plan.secondary, k.1));
    }
  }

  lemma EffectOnActor(t: Tables, t': Tables, f: Forest, plan: MergePlan, a: ActorId)
    requires Mergeable(t, f, plan) && MergeEffect(t, t', plan) && a in t.actor
    ensures ActorOk(t', MergedForest(f, plan.secondary, plan.survivor), a)
  {
    assert ActorOk(t, f, a);
    assert ActorOk(t, f, plan.survivor) && ActorOk(t, f, plan.secondary);
    assert plan.secondaryPrimary in t.redirect ==> RedirectOk(t, f, plan.secondaryPrimary);
    if t.actor[a].mergedInto.Some? {
      assert ActorOk(t, f, t.actor[a].mergedInto.value);
    }
  }

  lemma EffectOnRow(t: Tables, t': Tables, f: Forest, plan: MergePlan, k: (ActorId, Address))
    requires Mergeable(t, f, plan) && MergeEffect(t, t', plan) && k in t'.actorAddress
    ensures RowOk(t', MergedForest(f, plan.secondary, plan.survivor), k)
  {
    var was := if k in t.actorAddress then k else (plan.secondary, k.1);
    assert RowOk(t, f, was);
    assert ActorOk(t, f, f.index[k.1]);
    assert ActorOk(t, f, plan.survivor) && ActorOk(t, f, plan.secondary);
  }

  lemma EffectOnTheRest(t: Tables, t': Tables, f: Forest, plan: MergePlan)
    requires Mergeable(t, f, plan) && MergeEffect(t, t', plan)
    ensures Covers(t', MergedForest(f, plan.secondary, plan.survivor))
    ensures var f' := MergedForest(f, plan.secondary, plan.survivor);
            && (forall p {:trigger RedirectOk(t', f', p)} :: p in t'.redirect ==> RedirectOk(t', f', p))
            && (forall p {:trigger IndexOk(t', f', p)} :: p in f'.index ==> IndexOk(t', f', p))
    ensures forall i :: i in t'.proposal ==> Live(t', t'.proposal[i])
  {
    var f' := MergedForest(f, plan.secondary, plan.survivor);
    forall p | p in t'.redirect ensures RedirectOk(t', f', p) {
      assert p in t.redirect ==> RedirectOk(t, f, p);
      assert ActorOk(t, f, plan.secondary);
    }
    forall p | p in f'.index ensures IndexOk(t', f', p) {
      assert IndexOk(t, f, p);
    }
    forall i | i in t'.proposal ensures Live(t', t'.proposal[i]) {
      assert Live(t, t.proposal[i]);
    }
  }

  lemma EffectKeepsConsistent(t: Tables, t': Tables, f: Forest, plan: MergePlan)
    requires Mergeable(t, f, plan) && MergeEffect(t, t', plan)
    ensures ConsistentWith(t', MergedForest(f, plan.secondary, plan.survivor))
  {
    EffectOnTheRest(t, t', f, plan);
    forall a | a in t'.actor {
      EffectOnActor(t, t', f, plan, a);
    }
    forall k | k in t'.actorAddress {
      EffectOnRow(t, t', f, plan, k);
    }
  }

  lemma MergeKeepsConsistent(t: Tables, f: Forest, plan: MergePlan)
    requires Mergeable(t, f, plan)
    ensures ApplyPlan(t, plan).Ok?
    ensures ConsistentWith(ApplyPlan(t, plan).value, MergedForest(f, plan.secondary, plan.survivor))
  {
    MergeHasEffect(t, f, plan);
    EffectKeepsConsistent(t, ApplyPlan(t, plan).value, f, plan);
  }

  lemma RegisteredAfter(t: Tables, t': Tables, plan: MergePlan, p: Address)
    requires plan.secondary in t.actor && plan.survivor != plan.secondary && MergeEffect(t, t', plan)
    ensures Registered(t', p) <==> Registered(t, p)
  {
    if k :| k in t.actorAddress && k.1 == p {
      var k' := if k.0 == plan.secondary then (plan.survivor, p) else k;
      assert k' in t'.actorAddress && k'.1 == p;
    }
  }
}
