/**
 What every reachable state of the identity tables satisfies.

 A Forest is bookkeeping for proofs only: `root` names the actor at the end of each merged_into chain,
 `height` strictly decreases along the chain, and `index` inverts the unique primary_address column.
 Root, which chases the parent pointers, is the definition the results are stated with.
 */
module ActorInvariant {
  import opened Wrappers
  import opened ActorTables

  /** Follow merged_into pointers, visiting each actor of `unseen` at most once. */
  ghost function ChainRoot(t: Tables, a: ActorId, unseen: set<ActorId>): Option<ActorId>
    decreases unseen
  {
    if a !in unseen || a !in t.actor then None
    else
      match t.actor[a].mergedInto
      case None => Some(a)
      case Some(parent) => ChainRoot(t, parent, unseen - {a})
  }

  /** The live actor at the end of a's merged_into chain; None if the chain dangles or is cyclic. */
  ghost function Root(t: Tables, a: ActorId): Option<ActorId> {
    ChainRoot(t, a, t.actor.Keys)
  }

  datatype Forest = Forest(
    root: map<ActorId, ActorId>,
    height: map<ActorId, nat>,
    index: map<Address, ActorId>)

  ghost predicate Covers(t: Tables, f: Forest) {
    f.root.Keys == t.actor.Keys == f.height.Keys
  }

  ghost predicate ActorOk(t: Tables, f: Forest, a: ActorId)
    requires Covers(t, f) && a in t.actor
  {
    var row := t.actor[a];
    && row.primary in f.index && f.index[row.primary] == a
    && Live(t, f.root[a])
    && match row.mergedInto
       case None => f.root[a] == a
       case Some(parent) =>
         && parent in t.actor && f.root[a] == f.root[parent] && f.height[parent] < f.height[a]
         && row.primary in t.redirect && t.redirect[row.primary] == f.root[a]
         && Owns(t, f.root[a], row.primary)
  }

  /** An address row belongs to the root of the actor the address was created for. */
  ghost predicate RowOk(t: Tables, f: Forest, k: (ActorId, Address))
    requires Covers(t, f) && k in t.actorAddress
  {
    && Storable(k.1)
    && k.1 in f.index && f.index[k.1] in t.actor
    && k.0 == f.root[f.index[k.1]]
    && k.0 in t.actor
    && t.actorAddress[k] == IsPrimaryOf(t, k.0, k.1)
    && Owns(t, k.0, t.actor[k.0].primary)
  }

  ghost predicate RedirectOk(t: Tables, f: Forest, p: Address) {
    p in f.index && f.index[p] in t.actor && t.actor[f.index[p]].mergedInto.Some?
  }

  ghost predicate IndexOk(t: Tables, f: Forest, p: Address)
    requires p in f.index
  {
    IsPrimaryOf(t, f.index[p], p)
  }

  ghost predicate ConsistentWith(t: Tables, f: Forest) {
    && Covers(t, f)
    && (forall a {:trigger ActorOk(t, f, a)} :: a in t.actor ==> ActorOk(t, f, a))
    && (forall k {:trigger RowOk(t, f, k)} :: k in t.actorAddress ==> RowOk(t, f, k))
    && (forall p {:trigger RedirectOk(t, f, p)} :: p in t.redirect ==> RedirectOk(t, f, p))
    && (forall p {:trigger IndexOk(t, f, p)} :: p in f.index ==> IndexOk(t, f, p))
    && (forall i :: i in t.proposal ==> Live(t, t.proposal[i]))
  }

  ghost predicate Consistent(t: Tables) {
    exists f :: ConsistentWith(t, f)
  }

  // ---- What the lookups return in a consistent state ----

  lemma {:induction false} ChainRootIsRoot(t: Tables, f: Forest, a: ActorId, unseen: set<ActorId>)
    requires ConsistentWith(t, f)
    requires a in t.actor && unseen <= t.actor.Keys
    requires forall b :: b in t.actor && f.height[b] <= f.height[a] ==> b in unseen
    ensures ChainRoot(t, a, unseen) == Some(f.root[a])
    decreases f.height[a]
  {
    assert ActorOk(t, f, a);
    match t.actor[a].mergedInto
    case None =>
    case Some(parent) => ChainRootIsRoot(t, f, parent, unseen - {a});
  }

  lemma RootIs(t: Tables, f: Forest, a: ActorId)
    requires ConsistentWith(t, f) && a in t.actor
    ensures Root(t, a) == Some(f.root[a])
  {
    ChainRootIsRoot(t, f, a, t.actor.Keys);
  }

  /** The actor an address resolves to, read off the forest. */
  ghost function Resolved(t: Tables, f: Forest, p: Address): Option<ActorId>
    requires ConsistentWith(t, f)
  {
    if p in f.index then
      assert IndexOk(t, f, p);
      Some(f.root[f.index[p]])
    else None
  }

  lemma LookupsIn(t: Tables, f: Forest, p: Address)
    requires ConsistentWith(t, f)
    ensures ActorByPrimary(t, p) == if p in f.index then Some(f.index[p]) else None
    ensures OwnerByRow(t, p) == if Registered(t, p) then Resolved(t, f, p) else None
    ensures Registered(t, p) ==> p in f.index && Owns(t, Resolved(t, f, p).value, p)
    ensures p in f.index ==> f.index[p] in t.actor && Live(t, Resolved(t, f, p).value)
    ensures Coalesce(t, p) == Resolved(t, f, p)
  {
    if p in f.index {
      assert IndexOk(t, f, p);
      assert ActorOk(t, f, f.index[p]);
    }
    forall a | a in t.actor && IsPrimaryOf(t, a, p)
      ensures p in f.index && f.index[p] == a
    {
      assert ActorOk(t, f, a);
    }
    forall k | k in t.actorAddress && k.1 == p
      ensures Resolved(t, f, p) == Some(k.0) && Owns(t, k.0, p)
    {
      assert RowOk(t, f, k);
    }
    assert forall a: ActorId :: Owns(t, a, p) ==> (a, p) in t.actorAddress;
    if p in t.redirect {
      assert RedirectOk(t, f, p);
    }
  }
}
