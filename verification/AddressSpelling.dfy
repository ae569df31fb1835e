/**
 Addresses in mixed case: every lookup and every write reads an address as its lower-case spelling, so one address
 is one actor however it is written.
 */
module AddressSpelling {
  import opened Wrappers
  import opened ActorTables
  import opened ActorInvariant
  import opened ActorRuns

  /** 0x and forty hexadecimal digits. */
  predicate IsAddressText(raw: string) {
    |raw| == 42 && raw[0] == '0' && raw[1] == 'x' && forall i :: 2 <= i < 42 ==> raw[i] in "0123456789abcdefABCDEF"
  }

  /** p is raw with A to F written as a to f. */
  predicate SpelledSmall(raw: string, p: string) {
    |p| == |raw| && forall i :: 0 <= i < |raw| ==>
      p[i] ==
      if raw[i] == 'A' then 'a' else if raw[i] == 'B' then 'b' else if raw[i] == 'C' then 'c'
      else if raw[i] == 'D' then 'd' else if raw[i] == 'E' then 'e' else if raw[i] == 'F' then 'f' else raw[i]
  }

  lemma HexDigit(c: char)
    ensures IsHexDigit(c) <==> c in "0123456789abcdefABCDEF"
  {
  }

  lemma PatternMeans(raw: string)
    ensures MatchesAddressPattern(raw) <==> IsAddressText(raw)
  {
    if |raw| == 42 {
      forall i | 2 <= i < 42 ensures IsHexDigit(raw[i]) <==> raw[i] in "0123456789abcdefABCDEF" {
        HexDigit(raw[i]);
      }
    }
  }

  lemma LowerIsSmall(raw: string, p: string)
    requires IsAddressText(raw) && SpelledSmall(raw, p)
    ensures Lower(raw) == p && Lower(p) == p && IsAddressText(p)
  {
    forall i | 0 <= i < |raw|
      ensures LowerChar(raw[i]) == p[i] && LowerChar(p[i]) == p[i]
      ensures i >= 2 ==> p[i] in "0123456789abcdefABCDEF"
    {
      assert i >= 2 ==> raw[i] in "0123456789abcdefABCDEF";
    }
    assert forall i :: 0 <= i < |raw| ==> Lower(raw)[i] == p[i];
    assert forall i :: 0 <= i < |raw| ==> Lower(p)[i] == p[i];
  }

  /** resolveAddress refuses what is not 0x and forty digits, and looks every other text up in its small spelling. */
  lemma ResolvingIgnoresCase(t: Tables, raw: string, p: string)
    ensures !IsAddressText(raw) ==> ResolveAddress(t, raw) == Err(BadAddress)
    ensures IsAddressText(raw) && SpelledSmall(raw, p) ==>
              ResolveAddress(t, raw) == ResolveAddress(t, p) == Ok(Route(t, p))
  {
    PatternMeans(raw);
    if IsAddressText(raw) && SpelledSmall(raw, p) {
      LowerIsSmall(raw, p);
      PatternMeans(p);
    }
  }

  /**
   Two spellings of one address, registered in either order, are one actor: the first registration decides, and the
   second finds it and changes nothing.
   */
  lemma SpellingsAreOneActor(t: Tables, raw: string, p: string, first: ActorId, second: ActorId)
    requires Reachable(t) && IsAddressText(raw) && SpelledSmall(raw, p)
    requires first !in t.actor
    ensures var (t', r) := FindOrCreateActorAddress(t, raw, first);
            && FindOrCreateActorAddress(t, p, first) == (t', r)
            && r.Ok? && Live(t', r.value) && Owns(t', r.value, p)
            && FindOrCreateActorAddress(t', p, second) == (t', r)
            && FindOrCreateActorAddress(t', raw, second) == (t', r)
  {
    LowerIsSmall(raw, p);
    assert p[..2] == "0x";
    ReachableConsistent(t);
    var f :| ConsistentWith(t, f);
    RegisterKeeps(t, f, raw, first);
    var (t', r) := FindOrCreateActorAddress(t, raw, first);
    LookupsIn(t', InsertedForest(f, p, first), p);
    assert RowOk(t', InsertedForest(f, p, first), (r.value, p));
  }

  /** 0x or 0X and forty characters more. */
  predicate CanBeRegistered(raw: string) {
    |raw| == 42 && raw[0] == '0' && (raw[1] == 'x' || raw[1] == 'X')
  }

  lemma StorableMeans(raw: string)
    ensures Storable(Lower(raw)) <==> CanBeRegistered(raw)
  {
    LowerIdempotent(raw);
    var p := Lower(raw);
    if |raw| == 42 {
      assert p[..2] == [p[0], p[1]];
      assert p[0] == LowerChar(raw[0]) && p[1] == LowerChar(raw[1]);
    }
  }

  /** What can be registered at all, and that registering touches no proposal. */
  lemma RegistersExactlyWhen(t: Tables, raw: string, newId: ActorId)
    requires Reachable(t) && newId !in t.actor
    ensures var (t', r) := FindOrCreateActorAddress(t, raw, newId);
            && (r.Ok? <==> CanBeRegistered(raw))
            && (r.Ok? ==> Live(t', r.value) && Owns(t', r.value, Lower(raw)))
            && t'.proposal == t.proposal
  {
    ReachableConsistent(t);
    var f :| ConsistentWith(t, f);
    RegisterKeeps(t, f, raw, newId);
    StorableMeans(raw);
  }

  // ---- Proposals name the owner of their address ----

  /** An indexed proposal belongs to the owner of its proposer's address, and no other proposal is touched. */
  lemma ProposalIsTheOwners(t: Tables, i: ProposalId, raw: string, newId: ActorId)
    requires Reachable(t) && newId !in t.actor
    ensures var t' := Step(t, Propose(i, raw, newId));
            && (CanBeRegistered(raw) ==>
                 i in t'.proposal && Owns(t', t'.proposal[i], Lower(raw)) && Live(t', t'.proposal[i]))
            && (forall j :: j in t'.proposal <==> j in t.proposal || (j == i && CanBeRegistered(raw)))
            && (forall j :: j in t.proposal && (j != i || !CanBeRegistered(raw)) ==> t'.proposal[j] == t.proposal[j])
  {
    RegistersExactlyWhen(t, raw, newId);
    var (registered, r) := FindOrCreateActorAddress(t, raw, newId);
    assert Step(t, Propose(i, raw, newId)) ==
      if r.Ok? then registered.(proposal := registered.proposal[i := r.value]) else registered;
  }
}
