/**
 The delegate leaderboard: sum current voting power by canonical delegate address, rank, cut to N, and
 give each row its share of the total. The result is the top N of the true per-actor sums.
 */
module Leaderboard {
  import opened Wrappers
  import opened ActorTables
  import opened ActorRuns
  import opened MergeMap
  import opened BasisPoints
  import opened DelegationFlows

  function Total(rows: seq<Standing>): nat {
    if rows == [] then 0 else rows[0].power + Total(rows[1..])
  }

  /** `sum(c.vp) … group by canonical_address`, for one group. */
  function SumOfGroup(entries: seq<Entry>, rows: seq<Standing>, c: Address): nat {
    if rows == [] then 0
    else (if Canonical(entries, rows[0].delegate) == c then rows[0].power else 0) + SumOfGroup(entries, rows[1..], c)
  }

  /** The reference: the power of everyone delegating to any address of the entity. */
  ghost function SumOfEntity(t: Tables, rows: seq<Standing>, e: Entity): nat {
    if rows == [] then 0
    else (if EntityOf(t, rows[0].delegate) == e then rows[0].power else 0) + SumOfEntity(t, rows[1..], e)
  }

  function Groups(entries: seq<Entry>, rows: seq<Standing>): set<Address> {
    set s | s in rows :: Canonical(entries, s.delegate)
  }

  ghost function Entities(t: Tables, rows: seq<Standing>): set<Entity> {
    set s | s in rows :: EntityOf(t, s.delegate)
  }

  datatype Rank = Rank(power: nat, name: Address)

  predicate RanksAbove(before: (Address, Address) -> bool, x: Rank, y: Rank) {
    x.power > y.power || (x.power == y.power && before(x.name, y.name))
  }

  function GroupRank(entries: seq<Entry>, rows: seq<Standing>, c: Address): Rank {
    Rank(SumOfGroup(entries, rows, c), c)
  }

  ghost function EntityRank(t: Tables, rows: seq<Standing>, e: Entity): Rank
    requires Known(t, e)
  {
    Rank(SumOfEntity(t, rows, e), Label(t, e))
  }

  function AtMost(n: nat, size: nat): nat {
    if size < n then size else n
  }

  /** `order by sum desc, canonical_address asc limit n`, as a relation between the groups and the page. */
  ghost predicate IsPage(entries: seq<Entry>, rows: seq<Standing>, before: (Address, Address) -> bool,
                         n: nat, page: seq<Address>)
  {
    && (forall c :: c in page ==> c in Groups(entries, rows))
    && (forall i, j :: 0 <= i < j < |page| ==>
         RanksAbove(before, GroupRank(entries, rows, page[i]), GroupRank(entries, rows, page[j])))
    && |page| == AtMost(n, |Groups(entries, rows)|)
    && (forall c, d :: c in page && d in Groups(entries, rows) && d !in page ==>
         RanksAbove(before, GroupRank(entries, rows, c), GroupRank(entries, rows, d)))
  }

  /** The same cut made on entities with their true sums. */
  ghost predicate IsTopEntities(t: Tables, rows: seq<Standing>, before: (Address, Address) -> bool,
                                n: nat, page: seq<Entity>)
  {
    && (forall e :: e in Entities(t, rows) ==> Known(t, e))
    && (forall e :: e in page ==> e in Entities(t, rows))
    && (forall i, j :: 0 <= i < j < |page| ==>
         RanksAbove(before, EntityRank(t, rows, page[i]), EntityRank(t, rows, page[j])))
    && |page| == AtMost(n, |Entities(t, rows)|)
    && (forall e, d :: e in page && d in Entities(t, rows) && d !in page ==>
         RanksAbove(before, EntityRank(t, rows, e), EntityRank(t, rows, d)))
  }

  lemma {:induction false} GroupIsEntity(t: Tables, entries: seq<Entry>, rows: seq<Standing>, p: Address)
    requires Reachable(t) && IsMergeMap(t, entries)
    ensures SumOfGroup(entries, rows, Canonical(entries, p)) == SumOfEntity(t, rows, EntityOf(t, p))
  {
    if rows != [] {
      CanonicalIdentifies(t, entries, rows[0].delegate, p);
      GroupIsEntity(t, entries, rows[1..], p);
    }
  }

  lemma {:induction false} AsManyGroupsAsEntities(t: Tables, entries: seq<Entry>, rows: seq<Standing>)
    requires Reachable(t) && IsMergeMap(t, entries)
    ensures |Groups(entries, rows)| == |Entities(t, rows)|
  {
    if rows != [] {
      var p, rest := rows[0].delegate, rows[1..];
      AsManyGroupsAsEntities(t, entries, rest);
      OneMoreRow(t, entries, rows);
      NewGroupIsNewEntity(t, entries, rest, p);
      AddOne(Groups(entries, rest), Canonical(entries, p));
      AddOne(Entities(t, rest), EntityOf(t, p));
    }
  }

  lemma AddOne<T>(s: set<T>, x: T)
    ensures |s + {x}| == |s| + if x in s then 0 else 1
  {
    if x in s {
      assert s + {x} == s;
    }
  }

  lemma OneMoreRow(t: Tables, entries: seq<Entry>, rows: seq<Standing>)
    requires rows != []
    ensures Groups(entries, rows) == Groups(entries, rows[1..]) + {Canonical(entries, rows[0].delegate)}
    ensures Entities(t, rows) == Entities(t, rows[1..]) + {EntityOf(t, rows[0].delegate)}
  {
    assert rows == [rows[0]] + rows[1..];
  }

  lemma NewGroupIsNewEntity(t: Tables, entries: seq<Entry>, rows: seq<Standing>, p: Address)
    requires Reachable(t) && IsMergeMap(t, entries)
    ensures Canonical(entries, p) in Groups(entries, rows) <==> EntityOf(t, p) in Entities(t, rows)
  {
    if Canonical(entries, p) in Groups(entries, rows) {
      var s :| s in rows && Canonical(entries, s.delegate) == Canonical(entries, p);
      CanonicalIdentifies(t, entries, s.delegate, p);
    }
    if EntityOf(t, p) in Entities(t, rows) {
      var s :| s in rows && EntityOf(t, s.delegate) == EntityOf(t, p);
      CanonicalIdentifies(t, entries, s.delegate, p);
    }
  }

  lemma GroupFacts(t: Tables, entries: seq<Entry>, rows: seq<Standing>, c: Address)
    requires Reachable(t) && IsMergeMap(t, entries) && c in Groups(entries, rows)
    ensures EntityOf(t, c) in Entities(t, rows) && Known(t, EntityOf(t, c))
    ensures GroupRank(entries, rows, c) == EntityRank(t, rows, EntityOf(t, c))
  {
    var s :| s in rows && Canonical(entries, s.delegate) == c;
    CanonicalIsLabel(t, entries, s.delegate);
    GroupIsEntity(t, entries, rows, s.delegate);
  }

  lemma EntityFacts(t: Tables, entries: seq<Entry>, rows: seq<Standing>, e: Entity)
    requires Reachable(t) && IsMergeMap(t, entries) && e in Entities(t, rows)
    ensures Known(t, e) && Label(t, e) in Groups(entries, rows) && EntityOf(t, Label(t, e)) == e
  {
    var s :| s in rows && EntityOf(t, s.delegate) == e;
    CanonicalIsLabel(t, entries, s.delegate);
  }

  ghost function Resolve(t: Tables, page: seq<Address>): seq<Entity> {
    seq(|page|, i requires 0 <= i < |page| => EntityOf(t, page[i]))
  }

  lemma PageIsTopOf(t: Tables, entries: seq<Entry>, rows: seq<Standing>, before: (Address, Address) -> bool,
                    n: nat, page: seq<Address>)
    requires Reachable(t) && IsMergeMap(t, entries)
    requires IsPage(entries, rows, before, n, page)
    ensures IsTopEntities(t, rows, before, n, Resolve(t, page))
  {
    var tops := Resolve(t, page);
    AsManyGroupsAsEntities(t, entries, rows);
    forall e | e in Entities(t, rows) ensures Known(t, e) {
      EntityFacts(t, entries, rows, e);
    }
    forall i | 0 <= i < |page|
      ensures tops[i] in Entities(t, rows) && GroupRank(entries, rows, page[i]) == EntityRank(t, rows, tops[i])
    {
      GroupFacts(t, entries, rows, page[i]);
    }
    forall e, d | e in tops && d in Entities(t, rows) && d !in tops
      ensures RanksAbove(before, EntityRank(t, rows, e), EntityRank(t, rows, d))
    {
      var i :| 0 <= i < |page| && tops[i] == e;
      EntityFacts(t, entries, rows, d);
      GroupFacts(t, entries, rows, Label(t, d));
      forall j | 0 <= j < |page| ensures page[j] != Label(t, d) {
        assert tops[j] in tops;
      }
      assert page[i] in page && Label(t, d) !in page;
    }
  }

  /** The population of both queries: the current delegations that pass their common filter. */
  function Population(flows: seq<Flow>): seq<Standing> {
    RealDelegates(Current(flows))
  }

  lemma {:induction false} RealPower(t: Tables, rows: seq<Standing>, e: Entity)
    requires e in Entities(t, RealDelegates(rows))
    ensures SumOfEntity(t, RealDelegates(rows), e) > 0
  {
    if rows[0].power > 0 && rows[0].delegate != ZERO_ADDRESS {
      var rest := RealDelegates(rows[1..]);
      assert RealDelegates(rows) == [rows[0]] + rest && ([rows[0]] + rest)[1..] == rest;
      if EntityOf(t, rows[0].delegate) != e {
        RealPower(t, rows[1..], e);
      }
    } else {
      RealPower(t, rows[1..], e);
    }
  }

  /**
   Summing, ranking and cutting by canonical address is summing, ranking and cutting by actor: the page's
   addresses resolve to exactly the top N by true power, in order, each with some power, among all entities that
   a delegator's latest delegation names.
   */
  lemma PageIsTopActors(t: Tables, entries: seq<Entry>, flows: seq<Flow>, before: (Address, Address) -> bool,
                        n: nat, page: seq<Address>)
    requires Reachable(t) && IsMergeMap(t, entries)
    requires IsPage(entries, Population(flows), before, n, page)
    ensures IsTopEntities(t, Population(flows), before, n, Resolve(t, page))
    ensures forall e :: e in Resolve(t, page) ==> SumOfEntity(t, Population(flows), e) > 0
  {
    PageIsTopOf(t, entries, Population(flows), before, n, page);
    forall e | e in Resolve(t, page) ensures SumOfEntity(t, Population(flows), e) > 0 {
      RealPower(t, Current(flows), e);
    }
  }

  lemma ResolvedAt(t: Tables, entries: seq<Entry>, rows: seq<Standing>, c: Address)
    requires Reachable(t) && IsMergeMap(t, entries) && c in Groups(entries, rows)
    ensures Known(t, EntityOf(t, c)) && Label(t, EntityOf(t, c)) == c
    ensures SumOfGroup(entries, rows, c) == SumOfEntity(t, rows, EntityOf(t, c))
  {
    var s :| s in rows && c == Canonical(entries, s.delegate);
    CanonicalIsLabel(t, entries, s.delegate);
    GroupIsEntity(t, entries, rows, s.delegate);
  }

  /** p's entity has at least the power of q's, and among equals p's address comes first. */
  ghost predicate StandsAbove(t: Tables, rows: seq<Standing>, before: (Address, Address) -> bool, p: Address, q: Address) {
    var x, y := SumOfEntity(t, rows, EntityOf(t, p)), SumOfEntity(t, rows, EntityOf(t, q));
    x >= y && (x == y ==> before(p, q))
  }

  lemma RanksAboveMeans(t: Tables, entries: seq<Entry>, rows: seq<Standing>, before: (Address, Address) -> bool,
                        c: Address, d: Address)
    requires Reachable(t) && IsMergeMap(t, entries) && c in Groups(entries, rows) && d in Groups(entries, rows)
    requires RanksAbove(before, GroupRank(entries, rows, c), GroupRank(entries, rows, d))
    ensures StandsAbove(t, rows, before, c, d)
  {
    ResolvedAt(t, entries, rows, c);
    ResolvedAt(t, entries, rows, d);
  }

  /** An entity's power is added up standing by standing, and so is the total of the population. */
  lemma {:induction false} SumsAddUp(t: Tables, a: seq<Standing>, b: seq<Standing>, s: Standing, e: Entity)
    ensures SumOfEntity(t, a + b, e) == SumOfEntity(t, a, e) + SumOfEntity(t, b, e)
    ensures Total(a + b) == Total(a) + Total(b)
    ensures SumOfEntity(t, [s], e) == (if EntityOf(t, s.delegate) == e then s.power else 0) && Total([s]) == s.power
  {
    assert [s][1..] == [];
    if a == [] {
      assert a + b == b;
    } else {
      assert (a + b)[0] == a[0] && (a + b)[1..] == a[1..] + b;
      SumsAddUp(t, a[1..], b, s, e);
    }
  }

  lemma PopulationIs(flows: seq<Flow>, s: Standing)
    ensures multiset(Population(flows))[s] ==
            if s.power > 0 && s.delegate != ZERO_ADDRESS
            then |set f | f in flows && StandingOf(flows, f.delegator) == Some(s) :: f.delegator|
            else 0
  {
    PopulationCounts(flows, s);
  }

  /**
   The page in plain terms: it has a row for each of the population's entities, up to n; powers fall from row to row
   and equal powers run by address; and whoever is left out has no more power than anyone on it.
   */
  lemma PageRunsByPower(t: Tables, entries: seq<Entry>, flows: seq<Flow>, before: (Address, Address) -> bool,
                        n: nat, page: seq<Address>)
    requires Reachable(t) && IsMergeMap(t, entries) && IsPage(entries, Population(flows), before, n, page)
    ensures var entities := set s | s in Population(flows) :: EntityOf(t, s.delegate);
            |page| == if |entities| < n then |entities| else n
    ensures forall i, j :: 0 <= i < j < |page| ==> StandsAbove(t, Population(flows), before, page[i], page[j])
    ensures forall s, c :: s in Population(flows) && Canonical(entries, s.delegate) !in page && c in page ==>
              StandsAbove(t, Population(flows), before, c, Canonical(entries, s.delegate))
  {
    var rows := Population(flows);
    AsManyGroupsAsEntities(t, entries, rows);
    assert Entities(t, rows) == set s | s in rows :: EntityOf(t, s.delegate);
    forall i, j | 0 <= i < j < |page| ensures StandsAbove(t, rows, before, page[i], page[j]) {
      assert page[i] in page && page[j] in page;
      RanksAboveMeans(t, entries, rows, before, page[i], page[j]);
    }
    forall s, c | s in rows && Canonical(entries, s.delegate) !in page && c in page
      ensures StandsAbove(t, rows, before, c, Canonical(entries, s.delegate))
    {
      assert Canonical(entries, s.delegate) in Groups(entries, rows);
      RanksAboveMeans(t, entries, rows, before, c, Canonical(entries, s.delegate));
    }
  }

  /** Rows whose address no actor owns are dropped after the cut; the others keep their order. */
  ghost function Rendered(tops: seq<Entity>): seq<ActorId> {
    if tops == [] then []
    else (if tops[0].Actor? then [tops[0].id] else []) + Rendered(tops[1..])
  }

  lemma {:induction false} RenderedRows(tops: seq<Entity>)
    ensures forall a :: a in Rendered(tops) <==> Actor(a) in tops
    ensures |Rendered(tops)| <= |tops|
    ensures |Rendered(tops)| == |tops| <==> forall e :: e in tops ==> e.Actor?
  {
    if tops != [] {
      RenderedRows(tops[1..]);
      assert tops == [tops[0]] + tops[1..];
    }
  }

  /** What is shown keeps its order: the rows of a are shown before those of b, and an actor's row shows the actor. */
  lemma {:induction false} RenderedInOrder(a: seq<Entity>, b: seq<Entity>, e: Entity)
    ensures Rendered(a + b) == Rendered(a) + Rendered(b)
    ensures Rendered([e]) == if e.Actor? then [e.id] else []
  {
    assert [e][1..] == [];
    if a == [] {
      assert a + b == b;
    } else {
      assert (a + b)[1..] == a[1..] + b;
      RenderedInOrder(a[1..], b, e);
    }
  }

  /** The leaderboard shows every one of its top N exactly when each of their addresses belongs to an actor. */
  lemma NothingDroppedExactlyWhen(t: Tables, page: seq<Address>)
    ensures |Rendered(Resolve(t, page))| == |page| <==> forall p :: p in page ==> Coalesce(t, p).Some?
  {
    var tops := Resolve(t, page);
    RenderedRows(tops);
    forall i | 0 <= i < |page| ensures tops[i] in tops && (tops[i].Actor? <==> Coalesce(t, page[i]).Some?) {
    }
    if forall e :: e in tops ==> e.Actor? {
      assert forall p :: p in page ==> exists i :: 0 <= i < |page| && page[i] == p;
    }
  }

  // ---- Shares ----

  /** The power of each row of a page. */
  function Powers(entries: seq<Entry>, rows: seq<Standing>, page: seq<Address>): seq<nat> {
    if page == [] then [] else [SumOfGroup(entries, rows, page[0])] + Powers(entries, rows, page[1..])
  }

  ghost predicate Distinct(page: seq<Address>) {
    forall i, j :: 0 <= i < j < |page| ==> page[i] != page[j]
  }

  lemma {:induction false} OneRowCountsOnce(entries: seq<Entry>, rows: seq<Standing>, page: seq<Address>)
    requires rows != [] && Distinct(page)
    ensures Sum(Powers(entries, rows, page)) == Sum(Powers(entries, rows[1..], page))
            + if Canonical(entries, rows[0].delegate) in page then rows[0].power else 0
  {
    if page != [] {
      OneRowCountsOnce(entries, rows, page[1..]);
      assert page == [page[0]] + page[1..];
      assert Powers(entries, rows, page)[1..] == Powers(entries, rows, page[1..]);
      assert Powers(entries, rows[1..], page)[1..] == Powers(entries, rows[1..], page[1..]);
    }
  }

  lemma {:induction false} NoRowsNoPower(entries: seq<Entry>, page: seq<Address>)
    ensures Sum(Powers(entries, [], page)) == 0
  {
    if page != [] {
      NoRowsNoPower(entries, page[1..]);
      assert Powers(entries, [], page)[1..] == Powers(entries, [], page[1..]);
    }
  }

  lemma {:induction false} PagePower(entries: seq<Entry>, rows: seq<Standing>, page: seq<Address>)
    requires Distinct(page)
    ensures Sum(Powers(entries, rows, page)) <= Total(rows)
    ensures (forall c :: c in Groups(entries, rows) ==> c in page) ==>
              Sum(Powers(entries, rows, page)) == Total(rows)
    decreases rows
  {
    if rows == [] {
      NoRowsNoPower(entries, page);
    } else {
      OneRowCountsOnce(entries, rows, page);
      PagePower(entries, rows[1..], page);
      assert rows[0] in rows;
      assert forall c :: c in Groups(entries, rows[1..]) ==> c in Groups(entries, rows);
    }
  }

  lemma SharesOf(entries: seq<Entry>, rows: seq<Standing>, page: seq<Address>)
    requires Distinct(page)
    ensures var powers := Powers(entries, rows, page);
            && SumOfBps(powers, Total(rows)) <= 10000
            && (Total(rows) > 0 && (forall c :: c in Groups(entries, rows) ==> c in page) ==>
                 10000 - (Nonzero(powers) - 1) <= SumOfBps(powers, Total(rows)))
  {
    var powers := Powers(entries, rows, page);
    PagePower(entries, rows, page);
    SharesAtMostAll(powers, Total(rows));
    if Total(rows) > 0 && Sum(powers) == Total(rows) {
      SharesNearlyAll(powers, Total(rows));
    }
  }

  /**
   The shares of a page never exceed the whole, because page and total apply the same filter to the same current
   delegations; and when the page holds every delegate they miss it by less than one basis point a row.
   */
  lemma PageShares(entries: seq<Entry>, flows: seq<Flow>, page: seq<Address>)
    requires Distinct(page)
    ensures var rows := Population(flows);
            var powers := Powers(entries, rows, page);
            && SumOfBps(powers, Total(rows)) <= 10000
            && (Total(rows) > 0 && (forall c :: c in Groups(entries, rows) ==> c in page) ==>
                 10000 - (Nonzero(powers) - 1) <= SumOfBps(powers, Total(rows)))
  {
    SharesOf(entries, Population(flows), page);
  }

  // ---- Standing power of an actor ----

  /** The power an actor stands for: the sum over its addresses of each address's latest delegation. */
  function StandingPower(addresses: seq<Address>, owner: map<Address, ActorId>, flows: seq<Flow>,
                         a: ActorId): nat
  {
    if addresses == [] then 0
    else
      var p := addresses[|addresses| - 1];
      StandingPower(addresses[..|addresses| - 1], owner, flows, a)
      + if p in owner && owner[p] == a && Latest(flows, p).Some? then Latest(flows, p).value.power else 0
  }

  predicate HasStanding(addresses: seq<Address>, owner: map<Address, ActorId>, flows: seq<Flow>, a: ActorId) {
    exists i :: 0 <= i < |addresses| && addresses[i] in owner && owner[addresses[i]] == a && Latest(flows, addresses[i]).Some?
  }

  ghost predicate Folded(power: map<ActorId, nat>, addresses: seq<Address>, owner: map<Address, ActorId>,
                         flows: seq<Flow>)
  {
    && (forall a :: a in power <==> HasStanding(addresses, owner, flows, a))
    && (forall a :: a in power ==> power[a] == StandingPower(addresses, owner, flows, a))
  }

  /**
   currentVotingPowerByActor: fetch the latest delegation per address in chunks and fold the chunks per
   actor. The chunk size cannot change the result.
   */
  method CurrentVotingPowerByActor(addresses: seq<Address>, owner: map<Address, ActorId>,
                                   flows: seq<Flow>, chunk: nat)
    returns (power: map<ActorId, nat>)
    requires chunk > 0
    ensures Folded(power, addresses, owner, flows)
  {
    power := map[];
    var i := 0;
    while i < |addresses|
      invariant 0 <= i
      invariant Folded(power, addresses[..AtMost(|addresses|, i)], owner, flows)
    {
      power := FoldChunk(power, addresses, owner, flows, i, AtMost(|addresses|, i + chunk));
      i := i + chunk;
    }
    assert addresses[..|addresses|] == addresses;
  }

  /** One chunk's rows, the latest delegation of each of its addresses, added to their owners. */
  method FoldChunk(before: map<ActorId, nat>, addresses: seq<Address>, owner: map<Address, ActorId>,
                   flows: seq<Flow>, i: nat, end: nat)
    returns (power: map<ActorId, nat>)
    requires i <= end <= |addresses| && Folded(before, addresses[..i], owner, flows)
    ensures Folded(power, addresses[..end], owner, flows)
  {
    power := before;
    for j := i to end
      invariant Folded(power, addresses[..j], owner, flows)
    {
      var p := addresses[j];
      FoldOne(power, addresses[..j], owner, flows, p);
      assert addresses[..j + 1] == addresses[..j] + [p];
      if Latest(flows, p).Some? && p in owner {
        power := power[owner[p] := (if owner[p] in power then power[owner[p]] else 0) + Latest(flows, p).value.power];
      }
    }
  }

  lemma {:induction false} NoStanding(addresses: seq<Address>, owner: map<Address, ActorId>,
                                      flows: seq<Flow>, a: ActorId)
    requires !HasStanding(addresses, owner, flows, a)
    ensures StandingPower(addresses, owner, flows, a) == 0
  {
    if addresses != [] {
      var init := addresses[..|addresses| - 1];
      assert forall i :: 0 <= i < |init| ==> init[i] == addresses[i];
      NoStanding(init, owner, flows, a);
    }
  }

  lemma FoldOne(power: map<ActorId, nat>, done: seq<Address>, owner: map<Address, ActorId>,
                flows: seq<Flow>, p: Address)
    requires Folded(power, done, owner, flows)
    ensures Folded(if Latest(flows, p).Some? && p in owner
                   then power[owner[p] := (if owner[p] in power then power[owner[p]] else 0) + Latest(flows, p).value.power]
                   else power, done + [p], owner, flows)
  {
    var more := done + [p];
    assert more[..|done|] == done;
    forall a
      ensures HasStanding(more, owner, flows, a) <==>
              HasStanding(done, owner, flows, a) || (p in owner && owner[p] == a && Latest(flows, p).Some?)
      ensures !HasStanding(done, owner, flows, a) ==> StandingPower(done, owner, flows, a) == 0
    {
      if !HasStanding(done, owner, flows, a) {
        NoStanding(done, owner, flows, a);
      }
      if i :| 0 <= i < |done| && done[i] in owner && owner[done[i]] == a && Latest(flows, done[i]).Some? {
        assert more[i] == done[i];
      }
      assert more[|done|] == p;
    }
  }

  /** An actor's power is its addresses' powers added up, and one address counts with its own latest delegation. */
  lemma {:induction false} PowerAddsUp(a: seq<Address>, b: seq<Address>, owner: map<Address, ActorId>, flows: seq<Flow>,
                                       id: ActorId)
    ensures StandingPower(a + b, owner, flows, id) ==
            StandingPower(a, owner, flows, id) + StandingPower(b, owner, flows, id)
    decreases |b|
  {
    if b == [] {
      assert a + b == a;
    } else {
      var init := b[..|b| - 1];
      assert (a + b)[..|a + b| - 1] == a + init;
      PowerAddsUp(a, init, owner, flows, id);
    }
  }

  lemma OneAddressCounts(p: Address, f: Flow, owner: map<Address, ActorId>, flows: seq<Flow>, id: ActorId)
    requires f in flows && f.delegator == p
    requires forall g :: g in flows && g.delegator == p && g != f ==> g.createdAt < f.createdAt
    ensures StandingPower([p], owner, flows, id) == if p in owner && owner[p] == id then f.power else 0
  {
    assert [p][..0] == [];
    assert Latest(flows, p) == Some(f);
  }
}
