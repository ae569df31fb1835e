/**
 What readers of the identity tables may rely on, in every reachable state.
 */
module ActorResults {
  import opened Wrappers
  import opened ActorTables
  import opened ActorInvariant
  import opened ActorMerge
  import opened ActorRuns

  /**
   Merges never flatten the parent pointers, and still every chain ends at a live actor, and the redirect
   kept for a merged actor's primary address points at exactly that actor.
   */
  lemma ChainsEndLive(t: Tables, a: ActorId)
    requires Reachable(t) && a in t.actor
    ensures Root(t, a).Some? && Live(t, Root(t, a).value)
    ensures t.actor[a].mergedInto.Some? ==>
              t.actor[a].primary in t.redirect && Some(t.redirect[t.actor[a].primary]) == Root(t, a)
    ensures t.actor[a].primary in t.redirect ==> t.actor[a].mergedInto.Some?
  {
    ReachableConsistent(t);
    var f :| ConsistentWith(t, f);
    RootIs(t, f, a);
    assert ActorOk(t, f, a);
    if t.actor[a].primary in t.redirect {
      assert RedirectOk(t, f, t.actor[a].primary);
    }
  }

  /** One owner per address, the owner live, and is_primary true to its name. */
  lemma RowsAreOwned(t: Tables, k: (ActorId, Address), k': (ActorId, Address))
    requires Reachable(t) && k in t.actorAddress && k' in t.actorAddress
    ensures k.1 == k'.1 ==> k == k'
    ensures Live(t, k.0)
    ensures t.actorAddress[k] <==> IsPrimaryOf(t, k.0, k.1)
    ensures Owns(t, k.0, t.actor[k.0].primary)
  {
    ReachableConsistent(t);
    var f :| ConsistentWith(t, f);
    assert RowOk(t, f, k) && RowOk(t, f, k');
    assert ActorOk(t, f, f.index[k.1]);
  }

  lemma ProposersStayLive(t: Tables, i: ProposalId)
    requires Reachable(t) && i in t.proposal
    ensures Live(t, t.proposal[i])
  {
    ReachableConsistent(t);
  }

  /**
   The three-stage lookup and the coalesce rule agree about every address; following a redirect once always lands
   on a served actor; and the third coalesce arm never decides, because every redirected address has a row.
   */
  lemma RouteAgreesWithCoalesce(t: Tables, p: Address)
    requires Reachable(t)
    ensures match Route(t, p)
            case Found(a) => Coalesce(t, p) == Some(a) && Live(t, a) && IsPrimaryOf(t, a, p)
            case Redirect(to) =>
              && to != p
              && Coalesce(t, p).Some? && Route(t, to) == Found(Coalesce(t, p).value)
            case NotFound => Coalesce(t, p) == None
    ensures p in t.redirect ==> Registered(t, p)
  {
    ReachableConsistent(t);
    var f :| ConsistentWith(t, f);
    LookupsIn(t, f, p);
    if p in t.redirect {
      assert RedirectOk(t, f, p);
      assert IndexOk(t, f, p);
      var a := f.index[p];
      assert ActorOk(t, f, a);
      assert (f.root[a], p) in t.actorAddress;
    }
    if p in f.index {
      assert ActorOk(t, f, f.index[p]);
      assert IndexOk(t, f, p);
      var r := f.root[f.index[p]];
      assert ActorOk(t, f, r);
      LookupsIn(t, f, t.actor[r].primary);
    }
  }

  /** A redirect leads to an address with a row: the one its owner keeps for its own primary address. */
  lemma RedirectsAreRegistered(t: Tables, f: Forest, p: Address)
    requires ConsistentWith(t, f) && Route(t, p).Redirect?
    ensures Registered(t, Route(t, p).to)
  {
    if p in t.redirect && t.redirect[p] in t.actor {
      assert RedirectOk(t, f, p) && IndexOk(t, f, p);
      assert ActorOk(t, f, f.index[p]);
      assert RowOk(t, f, (f.root[f.index[p]], p));
    } else {
      assert RowOk(t, f, (OwnerByRow(t, p).value, p));
    }
  }

  lemma RedirectsAreLower(t: Tables, p: Address)
    requires Reachable(t) && Route(t, p).Redirect?
    ensures Lower(Route(t, p).to) == Route(t, p).to
  {
    ReachableConsistent(t);
    var f :| ConsistentWith(t, f);
    RedirectsAreRegistered(t, f, p);
    var k :| k in t.actorAddress && k.1 == Route(t, p).to;
    assert RowOk(t, f, k);
  }

  /**
   resolveAddress refuses exactly what does not look like an address, and otherwise answers what the coalesce rule
   answers: the live actor itself, or a redirect which, asked for in turn, serves that actor and so never loops.
   */
  lemma RoutingAgreesWithCoalesce(t: Tables, raw: string)
    requires Reachable(t)
    ensures var p := Lower(raw);
            match ResolveAddress(t, raw)
            case Err(_) => !MatchesAddressPattern(raw)
            case Ok(Found(a)) => Coalesce(t, p) == Some(a) && Live(t, a) && IsPrimaryOf(t, a, p)
            case Ok(Redirect(to)) =>
              && to != p && Coalesce(t, p).Some? && Route(t, to) == Found(Coalesce(t, p).value)
              && (MatchesAddressPattern(to) ==> ResolveAddress(t, to) == Ok(Found(Coalesce(t, p).value)))
            case Ok(NotFound) => Coalesce(t, p) == None
  {
    var p := Lower(raw);
    RouteAgreesWithCoalesce(t, p);
    if Route(t, p).Redirect? {
      RedirectsAreLower(t, p);
    }
  }

  /**
   findOrCreateByAddress may hand out a merged actor: it does so exactly when the address is redirected.
   */
  lemma FindOrCreateByAddressLive(t: Tables, raw: string, newId: ActorId)
    requires Reachable(t) && newId !in t.actor
    ensures var (t', a) := FindOrCreateByAddress(t, raw, newId);
            && IsPrimaryOf(t', a, Lower(raw))
            && (Live(t', a) <==> Lower(raw) !in t.redirect)
  {
    ReachableConsistent(t);
    var f :| ConsistentWith(t, f);
    var p := Lower(raw);
    LookupsIn(t, f, p);
    InsertActorKeeps(t, f, p, newId);
    if p in t.redirect {
      assert RedirectOk(t, f, p);
    } else if p in f.index {
      assert ActorOk(t, f, f.index[p]) && IndexOk(t, f, p);
    }
  }

  // ---- One merge ----

  /** A merge succeeds exactly when both addresses have rows with different owners; otherwise the error says which. */
  lemma MergeSucceedsExactlyWhen(t: Tables, rawPrimary: string, rawSecondary: string)
    requires Reachable(t)
    ensures var p, q := Lower(rawPrimary), Lower(rawSecondary);
            match ExecuteMerge(t, rawPrimary, rawSecondary)
            case Ok((_, plan)) =>
              && Registered(t, p) && Registered(t, q)
              && Coalesce(t, p) == Some(plan.survivor) && Coalesce(t, q) == Some(plan.secondary)
              && plan.survivor != plan.secondary
            case Err(AddressNotFound(x)) =>
              (x == p && !Registered(t, p)) || (x == q && Registered(t, p) && !Registered(t, q))
            case Err(SameActor(a)) =>
              && Registered(t, p) && Registered(t, q)
              && Coalesce(t, p) == Some(a) && Coalesce(t, q) == Some(a)
            case Err(_) => false
  {
    ReachableConsistent(t);
    var f :| ConsistentWith(t, f);
    MergeOutcome(t, f, rawPrimary, rawSecondary);
  }

  lemma MovedKeys(t: Tables, t': Tables, f: Forest, plan: MergePlan)
    requires Mergeable(t, f, plan) && MergeEffect(t, t', plan)
    ensures var moved := set k | k in RowsOf(t, plan.secondary) :: (plan.survivor, k.1);
            && moved !! t.actorAddress.Keys
            && t'.actorAddress.Keys == t.actorAddress.Keys - RowsOf(t, plan.secondary) + moved
  {
    var moving := RowsOf(t, plan.secondary);
    var moved := set k | k in moving :: (plan.survivor, k.1);
    forall k | k in moved ensures k !in t.actorAddress && k in t'.actorAddress {
      assert RowOk(t, f, (plan.secondary, k.1));
      assert k in t.actorAddress ==> RowOk(t, f, k);
    }
    forall k: (ActorId, Address) | k.0 == plan.survivor && (plan.secondary, k.1) in t.actorAddress
      ensures k in moved
    {
      assert (plan.secondary, k.1) in moving;
    }
  }

  lemma SwapKeepsSize<K>(whole: set<K>, gone: set<K>, added: set<K>)
    requires gone <= whole && added !! whole
    ensures |whole - gone + added| == |whole| - |gone| + |added|
  {
    assert |whole - gone| + |gone| == |whole - gone + gone| && whole - gone + gone == whole;
    assert |(whole - gone) + added| == |whole - gone| + |added|;
  }

  lemma RowsOfAfter(t: Tables, t': Tables, secondary: ActorId, survivor: ActorId, moved: set<(ActorId, Address)>)
    requires secondary != survivor && forall k :: k in moved ==> k.0 == survivor
    requires t'.actorAddress.Keys == t.actorAddress.Keys - RowsOf(t, secondary) + moved
    ensures RowsOf(t', survivor) == RowsOf(t, survivor) - {} + moved
    ensures RowsOf(t', secondary) == {}
  {
    forall k ensures k in RowsOf(t', survivor) <==> k in RowsOf(t, survivor) || k in moved {
      assert k in t'.actorAddress <==> k in t'.actorAddress.Keys;
    }
  }

  lemma MovedRows(t: Tables, t': Tables, f: Forest, plan: MergePlan)
    requires Mergeable(t, f, plan) && MergeEffect(t, t', plan)
    ensures |t'.actorAddress| == |t.actorAddress|
    ensures RowsOf(t', plan.secondary) == {}
    ensures |RowsOf(t', plan.survivor)| == |RowsOf(t, plan.survivor)| + |RowsOf(t, plan.secondary)|
  {
    var moving := RowsOf(t, plan.secondary);
    var moved := set k | k in moving :: (plan.survivor, k.1);
    MovedKeys(t, t', f, plan);
    RelabelKeepsSize(moving, plan.secondary, plan.survivor);
    SwapKeepsSize(t.actorAddress.Keys, moving, moved);
    SwapKeepsSize(RowsOf(t, plan.survivor), {}, moved);
    RowsOfAfter(t, t', plan.secondary, plan.survivor, moved);
  }

  lemma MovedProposals(t: Tables, t': Tables, f: Forest, plan: MergePlan)
    requires Mergeable(t, f, plan) && MergeEffect(t, t', plan)
    ensures ProposalsOf(t', plan.secondary) == {}
    ensures |ProposalsOf(t', plan.survivor)| == |ProposalsOf(t, plan.survivor)| + |ProposalsOf(t, plan.secondary)|
  {
    assert ProposalsOf(t', plan.survivor) == ProposalsOf(t, plan.survivor) + ProposalsOf(t, plan.secondary);
  }

  /** Everything the secondary held is now the survivor's, in the numbers the plan announced, and nothing else moved. */
  ghost predicate Conserved(t: Tables, t': Tables, plan: MergePlan) {
    && |t'.actorAddress| == |t.actorAddress|
    && RowsOf(t', plan.secondary) == {} && ProposalsOf(t', plan.secondary) == {}
    && |RowsOf(t', plan.survivor)| == |RowsOf(t, plan.survivor)| + plan.addressRetargets
    && |ProposalsOf(t', plan.survivor)| == |ProposalsOf(t, plan.survivor)| + plan.proposalRewrites
    && (forall p :: Registered(t', p) <==> Registered(t, p))
    && (forall a :: a != plan.survivor && a != plan.secondary ==>
         RowsOf(t', a) == RowsOf(t, a) && ProposalsOf(t', a) == ProposalsOf(t, a))
  }

  lemma EffectConserves(t: Tables, t': Tables, f: Forest, plan: MergePlan)
    requires Mergeable(t, f, plan) && MergeEffect(t, t', plan) && CountsAreRight(t, plan)
    ensures Conserved(t, t', plan)
  {
    MovedRows(t, t', f, plan);
    MovedProposals(t, t', f, plan);
    forall p ensures Registered(t', p) <==> Registered(t, p) {
      RegisteredAfter(t, t', plan, p);
    }
    forall a | a != plan.survivor && a != plan.secondary
      ensures RowsOf(t', a) == RowsOf(t, a) && ProposalsOf(t', a) == ProposalsOf(t, a)
    {
    }
  }

  lemma MergeConservesRows(t: Tables, rawPrimary: string, rawSecondary: string)
    requires Reachable(t) && ExecuteMerge(t, rawPrimary, rawSecondary).Ok?
    ensures var (t', plan) := ExecuteMerge(t, rawPrimary, rawSecondary).value; Conserved(t, t', plan)
  {
    ReachableConsistent(t);
    var f :| ConsistentWith(t, f);
    MergeOutcome(t, f, rawPrimary, rawSecondary);
    var (t', plan) := ExecuteMerge(t, rawPrimary, rawSecondary).value;
    MergeHasEffect(t, f, plan);
    EffectConserves(t, t', f, plan);
  }

  lemma {:induction false} RelabelKeepsSize(rows: set<(ActorId, Address)>, from: ActorId, to: ActorId)
    requires forall k :: k in rows ==> k.0 == from
    ensures |set k | k in rows :: (to, k.1)| == |rows|
    decreases rows
  {
    if k :| k in rows {
      var rest := rows - {k};
      RelabelKeepsSize(rest, from, to);
      var image := set r | r in rest :: (to, r.1);
      assert (set r | r in rows :: (to, r.1)) == image + {(to, k.1)};
      forall r | r in rest ensures r.1 != k.1 {
        assert r == (r.0, r.1) && k == (k.0, k.1) && r != k;
      }
    }
  }

  // ---- The interleaving the schema does not exclude ----

  ghost predicate SingleOwner(t: Tables) {
    forall k, k' :: k in t.actorAddress && k' in t.actorAddress && k.1 == k'.1 ==> k == k'
  }

  lemma RowsForPrimary(t: Tables, f: Forest, a: ActorId, p: Address, k: (ActorId, Address))
    requires ConsistentWith(t, f) && IsPrimaryOf(t, a, p) && k in t.actorAddress && k.1 == p
    ensures k.0 == f.root[a] && (t.actorAddress[k] <==> Live(t, a)) && Storable(p)
  {
    assert ActorOk(t, f, a) && RowOk(t, f, k);
    assert ActorOk(t, f, k.0);
  }

  lemma SingleOwnerIn(t: Tables, f: Forest)
    requires ConsistentWith(t, f)
    ensures SingleOwner(t)
  {
    forall k, k' | k in t.actorAddress && k' in t.actorAddress && k.1 == k'.1 ensures k == k' {
      assert RowOk(t, f, k) && RowOk(t, f, k');
    }
  }

  lemma LateRowOutcome(t: Tables, f: Forest, a: ActorId, p: Address)
    requires ConsistentWith(t, f) && IsPrimaryOf(t, a, p)
    ensures InsertAddressRow(t, a, p).Ok? <==> Storable(p)
    ensures SingleOwner(t)
    ensures Live(t, a) <==> p !in t.redirect
    ensures Live(t, a) ==> forall k :: k in t.actorAddress && k.1 == p ==> k == (a, p)
    ensures !Live(t, a) ==> Owns(t, t.redirect[p], p) && t.redirect[p] != a
  {
    assert ActorOk(t, f, a);
    assert p in t.redirect ==> RedirectOk(t, f, p);
    SingleOwnerIn(t, f);
    forall k | k in t.actorAddress && k.1 == p ensures k.0 == f.root[a] && (t.actorAddress[k] <==> Live(t, a)) {
      RowsForPrimary(t, f, a, p, k);
    }
  }

  /** The tables after a late second statement, and whether each address still has one owner. */
  ghost predicate LateRowSplitsOwnership(t: Tables, a: ActorId, p: Address)
    requires InsertAddressRow(t, a, p).Ok?
  {
    var t' := InsertAddressRow(t, a, p).value;
    !SingleOwner(t') && !Live(t', a) && Owns(t', a, p) && exists b :: b != a && Owns(t', b, p)
  }

  /**
   findOrCreateActorAddress has no enclosing transaction. If another caller registers the address, and the
   actor is merged away, before its second statement runs, that statement still succeeds and gives the
   address a second owner that is not live. It keeps single ownership exactly when no redirect exists.
   */
  lemma LateAddressRow(t: Tables, f: Forest, a: ActorId, p: Address)
    requires ConsistentWith(t, f) && IsPrimaryOf(t, a, p)
    ensures InsertAddressRow(t, a, p).Ok? <==> Storable(p)
    ensures Storable(p) ==> (SingleOwner(InsertAddressRow(t, a, p).value) <==> p !in t.redirect)
    ensures Storable(p) ==> (LateRowSplitsOwnership(t, a, p) <==> p in t.redirect)
  {
    LateRowOutcome(t, f, a, p);
    if Storable(p) {
      var t' := InsertAddressRow(t, a, p).value;
      assert t'.actorAddress.Keys == t.actorAddress.Keys + {(a, p)};
      if p in t.redirect {
        assert Owns(t', t.redirect[p], p) && Owns(t', a, p);
        assert (t.redirect[p], p) in t'.actorAddress && (a, p) in t'.actorAddress;
      }
    }
  }

  lemma RedirectAfterMerge(t: Tables, f: Forest, q: Address, p: Address, survivor: ActorId, secondary: ActorId)
    requires ConsistentWith(t, f) && survivor != secondary
    requires Owns(t, survivor, q) && Owns(t, secondary, p) && IsPrimaryOf(t, secondary, p)
    requires Lower(p) == p && Lower(q) == q
    ensures var t' := Step(t, Merge(q, p)); p in t'.redirect && IsPrimaryOf(t', secondary, p)
  {
    MergeOutcome(t, f, q, p);
    LookupsIn(t, f, p);
    LookupsIn(t, f, q);
    assert RowOk(t, f, (survivor, q)) && RowOk(t, f, (secondary, p));
    MergeHasEffect(t, f, ExecuteMerge(t, q, p).value.1);
  }

  lemma FirstRegistration(t: Tables, p: Address, a: ActorId)
    requires Storable(p) && !HasPrimary(t, p) && !Registered(t, p)
    ensures Step(t, Register(p, a)) ==
            t.(actor := t.actor[a := ActorRow(p, None)], actorAddress := t.actorAddress[(a, p) := true])
  {
    assert forall b: ActorId :: Owns(t, b, p) ==> (b, p) in t.actorAddress;
    var inserted := InsertActor(t, p, a).0;
    assert forall k :: k in inserted.actorAddress && k.1 == p ==> Registered(t, p);
  }

  /** The interleaving happens: register twice, merge away, and only then the first caller's address row. */
  lemma LateAddressRowExample(p: Address, q: Address)
    requires Storable(p) && Storable(q) && p != q
    ensures var start := Tables(map[], map[], map[], map[]);
            var t := Step(Step(Step(start, Register(p, 1)), Register(q, 2)), Merge(q, p));
            && Initial(start) && IsPrimaryOf(t, 1, p)
            && InsertAddressRow(t, 1, p).Ok? && LateRowSplitsOwnership(t, 1, p)
  {
    var start := Tables(map[], map[], map[], map[]);
    InitialConsistent(start);
    var f :| ConsistentWith(start, f);
    FirstRegistration(start, p, 1);
    var t1 := Step(start, Register(p, 1));
    var f1 := StepKeeps(start, f, Register(p, 1));
    FirstRegistration(t1, q, 2);
    var t2 := Step(t1, Register(q, 2));
    var f2 := StepKeeps(t1, f1, Register(q, 2));
    RedirectAfterMerge(t2, f2, q, p, 2, 1);
    var f3 := StepKeeps(t2, f2, Merge(q, p));
    LateAddressRow(Step(t2, Merge(q, p)), f3, 1, p);
  }

  /** A merged actor is handed out: register two addresses, merge the second away, and ask for it again. */
  lemma MergedActorHandedOutExample(p: Address, q: Address)
    requires Storable(p) && Storable(q) && p != q
    ensures var start := Tables(map[], map[], map[], map[]);
            var t := Step(Step(Step(start, Register(p, 1)), Register(q, 2)), Merge(q, p));
            Initial(start) && FindOrCreateByAddress(t, p, 3) == (t, 1) && !Live(t, 1)
  {
    var start := Tables(map[], map[], map[], map[]);
    InitialConsistent(start);
    var f :| ConsistentWith(start, f);
    FirstRegistration(start, p, 1);
    var t1 := Step(start, Register(p, 1));
    var f1 := StepKeeps(start, f, Register(p, 1));
    FirstRegistration(t1, q, 2);
    var t2 := Step(t1, Register(q, 2));
    var f2 := StepKeeps(t1, f1, Register(q, 2));
    RedirectAfterMerge(t2, f2, q, p, 2, 1);
    var f3 := StepKeeps(t2, f2, Merge(q, p));
    var t := Step(t2, Merge(q, p));
    LookupsIn(t, f3, p);
    assert RedirectOk(t, f3, p) && ActorOk(t, f3, 1);
  }

  // ---- Proposals written late ----

  ghost predicate ProposersLive(t: Tables) {
    forall i :: i in t.proposal ==> Live(t, t.proposal[i])
  }

  /**
   An applier registers the proposer and inserts the proposal in separate statements. All proposers are live after
   the insert exactly when this one still is: a merge in between is what would break it.
   */
  lemma LateProposal(t: Tables, i: ProposalId, proposer: ActorId)
    requires Reachable(t) && proposer in t.actor
    ensures ProposersLive(t.(proposal := t.proposal[i := proposer])) <==> Live(t, proposer)
  {
    ReachableConsistent(t);
    var t' := t.(proposal := t.proposal[i := proposer]);
    assert i in t'.proposal && t'.proposal[i] == proposer;
    forall j | j in t'.proposal && j != i ensures Live(t', t'.proposal[j]) {
      assert j in t.proposal && Live(t, t.proposal[j]);
    }
  }
}
