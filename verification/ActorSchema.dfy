/**
 The constraints the schema declares on the identity tables, and that each writing statement is refused exactly when
 it would break one. This holds of any tables, reachable or not.
 */
module ActorSchema {
  import opened Wrappers
  import opened ActorTables
  import opened ActorMerge

  /** 0x and forty characters, none of them an upper-case letter. */
  predicate IsStoredAddress(p: Address) {
    |p| == 42 && p[0] == '0' && p[1] == 'x' && forall i :: 2 <= i < 42 ==> !('A' <= p[i] <= 'Z')
  }

  /** The CHECK constraints and the partial unique index on the primary rows. */
  ghost predicate Declared(rows: map<(ActorId, Address), bool>, redirect: map<Address, ActorId>) {
    && (forall k :: k in rows ==> IsStoredAddress(k.1))
    && (forall p :: p in redirect ==> IsStoredAddress(p))
    && (forall k, k' :: k in rows && k' in rows && rows[k] && rows[k'] && k.1 == k'.1 ==> k == k')
  }

  lemma StoredIsStorable(p: Address)
    ensures IsStoredAddress(p) <==> Storable(p)
  {
    if |p| == 42 && p[..2] == "0x" {
      assert p[0] == '0' && p[1] == 'x';
      assert forall i :: 0 <= i < 42 ==> (p[i] == LowerChar(p[i]) <==> !('A' <= p[i] <= 'Z'));
      if forall i :: 2 <= i < 42 ==> !('A' <= p[i] <= 'Z') {
        assert forall i :: 0 <= i < 42 ==> p[i] == Lower(p)[i];
        assert p == Lower(p);
      }
    }
    if IsStoredAddress(p) {
      assert p[..2] == "0x";
    }
  }

  /** Inserting an address row does nothing to a row that is there, and adds a primary row when the schema allows one. */
  lemma InsertAcceptedExactlyWhen(t: Tables, a: ActorId, p: Address)
    requires Declared(t.actorAddress, t.redirect)
    ensures match InsertAddressRow(t, a, p)
            case Ok(t') =>
              && Declared(t'.actorAddress, t'.redirect)
              && t' == t.(actorAddress := t'.actorAddress)
              && t'.actorAddress == if (a, p) in t.actorAddress then t.actorAddress else t.actorAddress[(a, p) := true]
            case Err(e) =>
              && (a, p) !in t.actorAddress && !Declared(t.actorAddress[(a, p) := true], t.redirect)
              && (e.CheckViolation? <==> !IsStoredAddress(p))
  {
    StoredIsStorable(p);
    var rows := t.actorAddress[(a, p) := true];
    if InsertAddressRow(t, a, p).Err? {
      assert (a, p) in rows && rows[(a, p)];
      if Storable(p) {
        var k :| k in t.actorAddress && k.1 == p && t.actorAddress[k];
        assert k in rows && rows[k] && k != (a, p);
      }
    }
  }

  /** Relabelling an actor's rows is refused exactly when two rows would become one. */
  lemma RetargetAcceptedExactlyWhen(t: Tables, secondary: ActorId, survivor: ActorId)
    requires secondary != survivor
    ensures RetargetAddresses(t, secondary, survivor).Ok? <==>
            forall k, k' :: k in t.actorAddress && k' in t.actorAddress && k.0 == secondary && k'.0 == survivor ==>
              k.1 != k'.1
    ensures RetargetAddresses(t, secondary, survivor).Err? ==>
              RetargetAddresses(t, secondary, survivor).error == UniqueViolation
  {
    if k :| k in t.actorAddress && k.0 == secondary && (survivor, k.1) in t.actorAddress {
      assert (survivor, k.1).1 == k.1 && (survivor, k.1).0 == survivor;
    }
    if k, k' :| k in t.actorAddress && k' in t.actorAddress && k.1 == k'.1 && k.0 == secondary && k'.0 == survivor {
      assert k' == (survivor, k.1);
    }
  }

  /** A redirect is inserted exactly when the address may be stored and has none yet. */
  lemma RedirectAcceptedExactlyWhen(t: Tables, p: Address, survivor: ActorId)
    ensures match InsertRedirect(t, p, survivor)
            case Ok(t') => IsStoredAddress(p) && p !in t.redirect && t' == t.(redirect := t.redirect[p := survivor])
            case Err(CheckViolation) => !IsStoredAddress(p)
            case Err(UniqueViolation) => IsStoredAddress(p) && p in t.redirect
  {
    StoredIsStorable(p);
  }

  // ---- What a plan tells the operator ----

  /** A plan names both actors with their primary addresses, counts what will move, and lists the redirects to change. */
  lemma PlanReports(t: Tables, rawPrimary: string, rawSecondary: string)
    requires ExecuteMerge(t, rawPrimary, rawSecondary).Ok?
    ensures var plan := ExecuteMerge(t, rawPrimary, rawSecondary).value.1;
            && plan.survivor in t.actor && plan.survivorPrimary == t.actor[plan.survivor].primary
            && plan.secondary in t.actor && plan.secondaryPrimary == t.actor[plan.secondary].primary
            && plan.proposalRewrites == |set i | i in t.proposal && t.proposal[i] == plan.secondary|
            && plan.addressRetargets == |set k | k in t.actorAddress && k.0 == plan.secondary|
            && plan.redirectsToFlatten == set p | p in t.redirect && t.redirect[p] == plan.secondary
  {
    var built := BuildPlan(t, rawPrimary, rawSecondary);
    assert built.Ok? && ExecuteMerge(t, rawPrimary, rawSecondary).value.1 == built.value by {
      ExecutedPlan(t, rawPrimary, rawSecondary);
    }
    BuiltPlanReports(t, rawPrimary, rawSecondary);
  }

  lemma ExecutedPlan(t: Tables, rawPrimary: string, rawSecondary: string)
    requires ExecuteMerge(t, rawPrimary, rawSecondary).Ok?
    ensures BuildPlan(t, rawPrimary, rawSecondary).Ok?
    ensures ExecuteMerge(t, rawPrimary, rawSecondary).value.1 == BuildPlan(t, rawPrimary, rawSecondary).value
  {
    var built := BuildPlan(t, rawPrimary, rawSecondary);
    if built.Ok? {
      var applied := ApplyPlan(t, built.value);
      assert applied.Ok?;
    }
  }

  lemma BuiltPlanReports(t: Tables, rawPrimary: string, rawSecondary: string)
    requires BuildPlan(t, rawPrimary, rawSecondary).Ok?
    ensures var plan := BuildPlan(t, rawPrimary, rawSecondary).value;
            && plan.survivor in t.actor && plan.survivorPrimary == t.actor[plan.survivor].primary
            && plan.secondary in t.actor && plan.secondaryPrimary == t.actor[plan.secondary].primary
            && plan.proposalRewrites == |set i | i in t.proposal && t.proposal[i] == plan.secondary|
            && plan.addressRetargets == |set k | k in t.actorAddress && k.0 == plan.secondary|
            && plan.redirectsToFlatten == set p | p in t.redirect && t.redirect[p] == plan.secondary
  {
    var a, b := LookUp(t, Lower(rawPrimary)), LookUp(t, Lower(rawSecondary));
    assert a.Ok? && b.Ok?;
    assert ProposalsOf(t, b.value) == set i | i in t.proposal && t.proposal[i] == b.value;
    assert RowsOf(t, b.value) == set k | k in t.actorAddress && k.0 == b.value;
  }
}
