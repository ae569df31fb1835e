/**
 The merge map: the list of (address, canonical address) pairs that analytics queries embed so that a
 merged actor's addresses collapse to one grouping key before any ranking or cut.
 */
module MergeMap {
  import opened Wrappers
  import opened ActorTables
  import opened ActorInvariant
  import opened ActorRuns

  datatype Entry = Entry(address: Address, canonical: Address)

  /** `findMergeMap`: the address rows whose address is not their actor's primary address. */
  ghost predicate IsMergeMap(t: Tables, entries: seq<Entry>) {
    && (forall e :: e in entries ==> exists k ::
         k in t.actorAddress && k.0 in t.actor && k.1 == e.address
         && e.canonical == t.actor[k.0].primary && e.address != e.canonical)
    && (forall k :: k in t.actorAddress && k.0 in t.actor && k.1 != t.actor[k.0].primary ==>
         Entry(k.1, t.actor[k.0].primary) in entries)
  }

  /** ClickHouse `transform(p, from, to, p)`: the target of the first match, p itself when none matches. */
  function Canonical(entries: seq<Entry>, p: Address): Address {
    if entries == [] then p
    else if entries[0].address == p then entries[0].canonical
    else Canonical(entries[1..], p)
  }

  lemma {:induction false} CanonicalFrom(entries: seq<Entry>, p: Address)
    ensures Entry(p, Canonical(entries, p)) in entries
            || (Canonical(entries, p) == p && forall e :: e in entries ==> e.address != p)
  {
    if entries != [] && entries[0].address != p {
      CanonicalFrom(entries[1..], p);
    }
  }

  /** What an address stands for: the actor it resolves to, or only itself. */
  datatype Entity = Actor(id: ActorId) | Stranger(address: Address)

  ghost function EntityOf(t: Tables, p: Address): Entity {
    match Coalesce(t, p)
    case Some(a) => Actor(a)
    case None => Stranger(p)
  }

  ghost predicate Known(t: Tables, e: Entity) {
    e.Actor? ==> e.id in t.actor
  }

  /** The address an entity is labelled with. */
  ghost function Label(t: Tables, e: Entity): Address
    requires Known(t, e)
  {
    match e
    case Actor(a) => t.actor[a].primary
    case Stranger(p) => p
  }

  lemma CanonicalIsLabelIn(t: Tables, f: Forest, entries: seq<Entry>, p: Address)
    requires ConsistentWith(t, f) && IsMergeMap(t, entries)
    ensures Known(t, EntityOf(t, p)) && Canonical(entries, p) == Label(t, EntityOf(t, p))
    ensures EntityOf(t, Canonical(entries, p)) == EntityOf(t, p)
  {
    LookupsIn(t, f, p);
    CanonicalFrom(entries, p);
    if p in f.index {
      var r := f.root[f.index[p]];
      assert ActorOk(t, f, f.index[p]) && ActorOk(t, f, r) && IndexOk(t, f, p);
      if Registered(t, p) {
        assert RowOk(t, f, (r, p));
      }
      LookupsIn(t, f, t.actor[r].primary);
    }
    forall e | e in entries && e.address == p
      ensures p in f.index && e.canonical == t.actor[f.root[f.index[p]]].primary
    {
      var k :| k in t.actorAddress && k.0 in t.actor && k.1 == p && e.canonical == t.actor[k.0].primary;
      assert RowOk(t, f, k);
    }
  }

  /** The canonical address is the label of what the address resolves to, and resolves to the same. */
  lemma CanonicalIsLabel(t: Tables, entries: seq<Entry>, p: Address)
    requires Reachable(t) && IsMergeMap(t, entries)
    ensures Known(t, EntityOf(t, p)) && Canonical(entries, p) == Label(t, EntityOf(t, p))
    ensures EntityOf(t, Canonical(entries, p)) == EntityOf(t, p)
  {
    ReachableConsistent(t);
    var f :| ConsistentWith(t, f);
    CanonicalIsLabelIn(t, f, entries, p);
  }

  lemma CanonicalIdempotent(t: Tables, entries: seq<Entry>, p: Address)
    requires Reachable(t) && IsMergeMap(t, entries)
    ensures Canonical(entries, Canonical(entries, p)) == Canonical(entries, p)
  {
    CanonicalIsLabel(t, entries, p);
    CanonicalIsLabel(t, entries, Canonical(entries, p));
  }

  /** Rewriting identifies two addresses exactly when they stand for the same entity. */
  lemma CanonicalIdentifies(t: Tables, entries: seq<Entry>, p: Address, q: Address)
    requires Reachable(t) && IsMergeMap(t, entries)
    ensures Canonical(entries, p) == Canonical(entries, q) <==> EntityOf(t, p) == EntityOf(t, q)
  {
    CanonicalIsLabel(t, entries, p);
    CanonicalIsLabel(t, entries, q);
  }
}
