/**
 The identity tables as the repositories drive them: each method issues its statements one after another
 on the four tables, and is tied to the functions of ActorTables, ActorMerge and ActorRuns.
 */
module ActorStore {
  import opened Wrappers
  import opened ActorTables
  import opened ActorInvariant
  import opened ActorMerge
  import opened ActorRuns

  datatype LookupRow = LookupRow(input: Address, actor: ActorId, primary: Address, mergedInto: Option<ActorId>)

  /** The last row that answers p. */
  function LastRow(rows: seq<LookupRow>, p: Address): Option<LookupRow> {
    if rows == [] then None
    else if rows[|rows| - 1].input == p then Some(rows[|rows| - 1])
    else LastRow(rows[..|rows| - 1], p)
  }

  /**
   mapLookups: index the rows by the address asked for, a later row replacing an earlier one, and report
   the first address that has none.
   */
  method MapLookups(rows: seq<LookupRow>, addresses: seq<Address>)
    returns (r: Result<map<Address, LookupRow>, MergeError>)
    ensures r.Ok? ==> forall p :: LastRow(rows, p) == if p in r.value then Some(r.value[p]) else None
    ensures r.Ok? ==> forall p :: p in addresses ==> p in r.value
    ensures r.Err? ==> exists k ::
              && 0 <= k < |addresses| && r.error == AddressNotFound(addresses[k])
              && LastRow(rows, addresses[k]) == None
              && forall j :: 0 <= j < k ==> LastRow(rows, addresses[j]).Some?
  {
    var byAddress: map<Address, LookupRow> := map[];
    for n := 0 to |rows|
      invariant forall p :: LastRow(rows[..n], p) == if p in byAddress then Some(byAddress[p]) else None
    {
      byAddress := byAddress[rows[n].input := rows[n]];
      assert rows[..n + 1][..n] == rows[..n];
    }
    assert rows[..|rows|] == rows;
    for k := 0 to |addresses|
      invariant forall j :: 0 <= j < k ==> addresses[j] in byAddress
    {
      if addresses[k] !in byAddress {
        assert forall j :: 0 <= j < k ==> LastRow(rows, addresses[j]).Some?;
        return Err(AddressNotFound(addresses[k]));
      }
    }
    return Ok(byAddress);
  }

  predicate RowFor(t: Tables, row: LookupRow, p: Address) {
    && row.input == p && row.actor in t.actor
    && t.actor[row.actor] == ActorRow(row.primary, row.mergedInto)
  }

  function ValidateLookupPair(p: Address, q: Address, a: LookupRow, b: LookupRow): Option<MergeError> {
    if a.actor == b.actor then Some(SameActor(a.actor))
    else if a.mergedInto.Some? then Some(AlreadyMerged(p, a.mergedInto.value))
    else if b.mergedInto.Some? then Some(AlreadyMerged(q, b.mergedInto.value))
    else None
  }

  /** The plan for two loaded rows. */
  ghost function PlanOf(t: Tables, p: Address, q: Address, a: LookupRow, b: LookupRow): Result<MergePlan, MergeError> {
    var invalid := ValidateLookupPair(p, q, a, b);
    if invalid.Some? then Err(invalid.value)
    else if Owns(t, a.actor, b.primary) then Err(AddressCollision(b.primary, a.actor))
    else
      Ok(MergePlan(a.actor, a.primary, b.actor, b.primary, |ProposalsOf(t, b.actor)|, |RowsOf(t, b.actor)|,
                   set r | r in t.redirect && t.redirect[r] == b.actor))
  }

  lemma PlanFromRows(t: Tables, rawPrimary: string, rawSecondary: string, a: LookupRow, b: LookupRow)
    requires Lower(rawPrimary) != Lower(rawSecondary)
    requires RowFor(t, a, Lower(rawPrimary)) && OwnerByRow(t, Lower(rawPrimary)) == Some(a.actor)
    requires RowFor(t, b, Lower(rawSecondary)) && OwnerByRow(t, Lower(rawSecondary)) == Some(b.actor)
    ensures BuildPlan(t, rawPrimary, rawSecondary) == PlanOf(t, Lower(rawPrimary), Lower(rawSecondary), a, b)
  {
  }

  /** At most one row each for two addresses: the last row of either is the one there is. */
  lemma LastRowOfTwo(first: seq<LookupRow>, second: seq<LookupRow>, p: Address, q: Address)
    requires |first| <= 1 && |second| <= 1 && p != q
    requires (|first| == 1 ==> first[0].input == p) && (|second| == 1 ==> second[0].input == q)
    ensures LastRow(first + second, p) == if |first| == 1 then Some(first[0]) else None
    ensures LastRow(first + second, q) == if |second| == 1 then Some(second[0]) else None
  {
    assert (first + second)[..|first|] == first;
  }

  class ActorStore {
    var actor: map<ActorId, ActorRow>
    var actorAddress: map<(ActorId, Address), bool>
    var redirect: map<Address, ActorId>
    var proposal: map<ProposalId, ActorId>

    ghost function Now(): Tables
      reads this
    {
      Tables(actor, actorAddress, redirect, proposal)
    }

    ghost predicate Valid()
      reads this
    {
      Consistent(Now())
    }

    /** The store right after its migration. */
    constructor (start: Tables)
      requires Initial(start)
      ensures Valid() && Now() == start
    {
      InitialConsistent(start);
      actor := start.actor;
      actorAddress := start.actorAddress;
      redirect := start.redirect;
      proposal := start.proposal;
    }

    method FindOrCreateByAddress(address: string, newId: ActorId) returns (a: ActorId)
      requires Valid() && newId !in actor
      modifies this`actor
      ensures Valid()
      ensures (Now(), a) == ActorRuns.FindOrCreateByAddress(old(Now()), address, newId)
    {
      ghost var f :| ConsistentWith(Now(), f);
      InsertActorKeeps(Now(), f, Lower(address), newId);
      LookupsIn(Now(), f, Lower(address));
      var normalized := Lower(address);
      if x :| x in actor && actor[x].primary == normalized {
        assert IsPrimaryOf(Now(), x, normalized) && ActorOk(Now(), f, x);
        a := x;
      } else {
        assert !HasPrimary(Now(), normalized);
        actor := actor[newId := ActorRow(normalized, None)];
        a := newId;
      }
    }

    method FindOrCreateActorAddress(address: string, newId: ActorId) returns (r: Result<ActorId, DbError>)
      requires Valid() && newId !in actor
      modifies this`actor, this`actorAddress
      ensures Valid()
      ensures (Now(), r) == ActorRuns.FindOrCreateActorAddress(old(Now()), address, newId)
      ensures r.Ok? <==> Storable(Lower(address))
      ensures r.Ok? ==> Live(Now(), r.value) && Owns(Now(), r.value, Lower(address))
    {
      ghost var f :| ConsistentWith(Now(), f);
      RegisterKeeps(Now(), f, address, newId);
      LookupsIn(Now(), f, Lower(address));
      var normalized := Lower(address);
      if k :| k in actorAddress && k.1 == normalized {
        assert RowOk(Now(), f, k);
        return Ok(k.0);
      }
      assert !Registered(Now(), normalized);
      var a := FindOrCreateByAddress(address, newId);
      assert Now() == InsertActor(old(Now()), normalized, newId).0;
      if !Storable(normalized) {
        return Err(CheckViolation);
      }
      if exists k :: k in actorAddress && k.1 == normalized && actorAddress[k] {
        return Err(UniqueViolation);
      }
      if (a, normalized) !in actorAddress {
        actorAddress := actorAddress[(a, normalized) := true];
      }
      return Ok(a);
    }

    /** An owner of the address, as the join of `actor` and `actor_address` yields it. */
    method LoadAddressRow(p: Address) returns (rows: seq<LookupRow>)
      requires Valid()
      ensures |rows| <= 1 && (|rows| == 1 <==> Registered(Now(), p))
      ensures |rows| == 1 ==> Coalesce(Now(), p) == OwnerByRow(Now(), p) == Some(rows[0].actor)
      ensures |rows| == 1 ==> RowFor(Now(), rows[0], p)
    {
      ghost var f :| ConsistentWith(Now(), f);
      LookupsIn(Now(), f, p);
      if k :| k in actorAddress && k.1 == p {
        assert RowOk(Now(), f, k);
        return [LookupRow(p, k.0, actor[k.0].primary, actor[k.0].mergedInto)];
      }
      return [];
    }

    method PlanMerge(primaryAddress: string, secondaryAddress: string) returns (r: Result<MergePlan, MergeError>)
      requires Valid()
      ensures r == BuildPlan(Now(), primaryAddress, secondaryAddress)
    {
      var p, q := Lower(primaryAddress), Lower(secondaryAddress);
      var first := LoadAddressRow(p);
      var second := LoadAddressRow(q);
      if p == q {
        return if |first| == 0 then Err(AddressNotFound(p)) else Err(SameActor(first[0].actor));
      }
      LastRowOfTwo(first, second, p, q);
      var lookups := MapLookups(first + second, [p, q]);
      assert p in [p, q] && q in [p, q];
      if lookups.Err? {
        return Err(lookups.error);
      }
      var a, b := lookups.value[p], lookups.value[q];
      PlanFromRows(Now(), primaryAddress, secondaryAddress, a, b);
      r := PlanForRows(p, q, a, b);
    }

    method PlanForRows(p: Address, q: Address, a: LookupRow, b: LookupRow) returns (r: Result<MergePlan, MergeError>)
      ensures r == PlanOf(Now(), p, q, a, b)
    {
      var invalid := ValidateLookupPair(p, q, a, b);
      if invalid.Some? {
        return Err(invalid.value);
      }
      if (a.actor, b.primary) in actorAddress {
        return Err(AddressCollision(b.primary, a.actor));
      }
      return Ok(MergePlan(a.actor, a.primary, b.actor, b.primary,
                          |set i | i in proposal && proposal[i] == b.actor|,
                          |set k | k in actorAddress && k.0 == b.actor|,
                          set x | x in redirect && redirect[x] == b.actor));
    }

    /** One UPDATE: the rows of the secondary become the survivor's, unless the survivor has one of the addresses. */
    method RetargetRows(secondary: ActorId, survivor: ActorId) returns (r: Result<(), DbError>)
      modifies this`actorAddress
      ensures match RetargetAddresses(old(Now()), secondary, survivor)
              case Ok(t) => r == Ok(()) && Now() == t
              case Err(e) => r == Err(e) && Now() == old(Now())
    {
      if secondary != survivor && exists k :: k in actorAddress && k.0 == secondary && (survivor, k.1) in actorAddress {
        return Err(UniqueViolation);
      }
      actorAddress := map k | k in RetargetedKeys(actorAddress, secondary, survivor) ::
        if k in actorAddress && k.0 != secondary then actorAddress[k] else actorAddress[(secondary, k.1)];
      return Ok(());
    }

    /** The UPDATE and the INSERT on the redirects: older ones are flattened, the secondary's primary gets its own. */
    method RedirectRows(secondary: ActorId, survivor: ActorId, from: Address) returns (r: Result<(), DbError>)
      modifies this`redirect
      ensures match InsertRedirect(FlattenRedirects(old(Now()), secondary, survivor), from, survivor)
              case Ok(t) => r == Ok(()) && Now() == t
              case Err(e) => r == Err(e)
    {
      redirect := map p | p in redirect :: if redirect[p] == secondary then survivor else redirect[p];
      if !Storable(from) {
        return Err(CheckViolation);
      }
      if from in redirect {
        return Err(UniqueViolation);
      }
      redirect := redirect[from := survivor];
      return Ok(());
    }

    /**
     The write statements of the merge transaction, in order. A statement that meets a constraint raises, and the
     rollback leaves the tables as they were.
     */
    method WriteMerge(plan: MergePlan) returns (r: Result<(), MergeError>)
      modifies this
      ensures match ApplyPlan(old(Now()), plan)
              case Ok(merged) => r == Ok(()) && Now() == merged
              case Err(e) => r == Err(e) && Now() == old(Now())
    {
      var survivor, secondary, from := plan.survivor, plan.secondary, plan.secondaryPrimary;
      var oldProposal, oldRows, oldRedirect := proposal, actorAddress, redirect;
      proposal := map i | i in proposal :: if proposal[i] == secondary then survivor else proposal[i];
      assert Now() == RewriteProposals(old(Now()), secondary, survivor);
      var retargeted := RetargetRows(secondary, survivor);
      if retargeted.Err? {
        proposal := oldProposal;
        return Err(Rejected(retargeted.error));
      }
      if (survivor, from) in actorAddress {
        actorAddress := actorAddress[(survivor, from) := false];
      }
      var redirected := RedirectRows(secondary, survivor, from);
      if redirected.Err? {
        proposal, actorAddress, redirect := oldProposal, oldRows, oldRedirect;
        return Err(Rejected(redirected.error));
      }
      if secondary in actor {
        actor := actor[secondary := actor[secondary].(mergedInto := Some(survivor))];
      }
      return Ok(());
    }

    /** A refused plan changes nothing; an accepted one has its whole effect, and never meets a constraint. */
    method ExecuteMerge(primaryAddress: string, secondaryAddress: string) returns (r: Result<MergePlan, MergeError>)
      requires Valid()
      modifies this
      ensures Valid()
      ensures r == BuildPlan(old(Now()), primaryAddress, secondaryAddress)
      ensures r.Ok? ==> r.value.secondary in old(actor) && MergeEffect(old(Now()), Now(), r.value)
      ensures r.Err? ==> Now() == old(Now())
    {
      r := PlanMerge(primaryAddress, secondaryAddress);
      ghost var f :| ConsistentWith(Now(), f);
      MergeOutcome(Now(), f, primaryAddress, secondaryAddress);
      if r.Ok? {
        MergeHasEffect(Now(), f, r.value);
        EffectKeepsConsistent(Now(), ApplyPlan(Now(), r.value).value, f, r.value);
        var written := WriteMerge(r.value);
      }
    }
  }
}
