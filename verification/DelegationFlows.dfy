/**
 The delegation-flow projection of one DAO: every delegation event, and the reduction both analytics queries start
 from, the latest event of each delegator.
 */
module DelegationFlows {
  import opened Wrappers
  import opened ActorTables

  datatype Flow = Flow(delegator: Address, delegate: Address, power: nat, createdAt: int)

  /** argMax by created_at over one delegator's events. */
  function Latest(flows: seq<Flow>, p: Address): (r: Option<Flow>)
    ensures r.None? <==> forall f :: f in flows ==> f.delegator != p
    ensures r.Some? ==> r.value in flows && r.value.delegator == p
    ensures r.Some? ==> forall f :: f in flows && f.delegator == p ==> f.createdAt <= r.value.createdAt
  {
    if flows == [] then None
    else
      assert flows == [flows[0]] + flows[1..];
      var rest := Latest(flows[1..], p);
      if flows[0].delegator == p && (rest.None? || flows[0].createdAt >= rest.value.createdAt) then Some(flows[0])
      else rest
  }

  /** `group by delegator_address`: each delegator once. */
  function Delegators(flows: seq<Flow>): (r: seq<Address>)
    ensures forall p :: p in r <==> exists f :: f in flows && f.delegator == p
    ensures forall i, j :: 0 <= i < j < |r| ==> r[i] != r[j]
  {
    if flows == [] then []
    else
      assert flows == [flows[0]] + flows[1..];
      var rest := Delegators(flows[1..]);
      if flows[0].delegator in rest then rest else [flows[0].delegator] + rest
  }

  /** One delegator's current delegation. */
  datatype Standing = Standing(delegate: Address, power: nat)

  function StandingsOf(flows: seq<Flow>, delegators: seq<Address>): (r: seq<Standing>)
    requires forall p :: p in delegators ==> Latest(flows, p).Some?
    ensures |r| == |delegators|
    ensures forall i :: 0 <= i < |r| ==>
              var f := Latest(flows, delegators[i]).value; r[i] == Standing(f.delegate, f.power)
  {
    seq(|delegators|, i requires 0 <= i < |delegators| =>
      assert delegators[i] in delegators;
      var f := Latest(flows, delegators[i]).value; Standing(f.delegate, f.power))
  }

  /** The rows of `currentPerDelegator`. */
  function Current(flows: seq<Flow>): seq<Standing> {
    StandingsOf(flows, Delegators(flows))
  }

  const ZERO_ADDRESS: Address := "0x0000000000000000000000000000000000000000"

  /** The filter both leaderboard queries apply: power-bearing, and not an undelegation. */
  function RealDelegates(rows: seq<Standing>): (r: seq<Standing>)
    ensures forall s :: s in r <==> s in rows && s.power > 0 && s.delegate != ZERO_ADDRESS
    ensures forall s {:trigger multiset(r)[s]} ::
              multiset(r)[s] == if s.power > 0 && s.delegate != ZERO_ADDRESS then multiset(rows)[s] else 0
  {
    assert rows != [] ==> rows == [rows[0]] + rows[1..];
    if rows == [] then []
    else if rows[0].power > 0 && rows[0].delegate != ZERO_ADDRESS
    then [rows[0]] + RealDelegates(rows[1..])
    else RealDelegates(rows[1..])
  }

  lemma ZeroAddressIs()
    ensures |ZERO_ADDRESS| == 42 && ZERO_ADDRESS[..2] == "0x" && forall i :: 2 <= i < 42 ==> ZERO_ADDRESS[i] == '0'
  {
    assert ZERO_ADDRESS[..2] == [ZERO_ADDRESS[0], ZERO_ADDRESS[1]] == "0x";
  }

  /** What a delegator's latest event says, if it has one. */
  function StandingOf(flows: seq<Flow>, p: Address): Option<Standing> {
    match Latest(flows, p)
    case Some(f) => Some(Standing(f.delegate, f.power))
    case None => None
  }

  /** The delegators whose latest event says s. */
  function Saying(flows: seq<Flow>, delegators: seq<Address>, s: Standing): set<Address> {
    set p | p in delegators && StandingOf(flows, p) == Some(s)
  }

  lemma OneMoreSays(flows: seq<Flow>, delegators: seq<Address>, p: Address, s: Standing)
    requires p !in delegators
    ensures |Saying(flows, delegators + [p], s)| ==
            |Saying(flows, delegators, s)| + if StandingOf(flows, p) == Some(s) then 1 else 0
  {
    var before := Saying(flows, delegators, s);
    assert p !in before;
    assert Saying(flows, delegators + [p], s) == before + if StandingOf(flows, p) == Some(s) then {p} else {};
  }

  lemma OneMoreStanding(flows: seq<Flow>, delegators: seq<Address>, p: Address)
    requires forall x :: x in delegators + [p] ==> Latest(flows, x).Some?
    ensures forall x :: x in delegators ==> Latest(flows, x).Some?
    ensures StandingOf(flows, p).Some?
    ensures StandingsOf(flows, delegators + [p]) == StandingsOf(flows, delegators) + [StandingOf(flows, p).value]
  {
    assert forall x :: x in delegators ==> x in delegators + [p];
    assert p in delegators + [p];
  }

  lemma {:induction false} CountStandings(flows: seq<Flow>, delegators: seq<Address>, s: Standing)
    requires forall p :: p in delegators ==> Latest(flows, p).Some?
    requires forall i, j :: 0 <= i < j < |delegators| ==> delegators[i] != delegators[j]
    ensures multiset(StandingsOf(flows, delegators))[s] == |Saying(flows, delegators, s)|
    decreases |delegators|
  {
    if delegators == [] {
      assert Saying(flows, delegators, s) == {};
    } else {
      var init, last := delegators[..|delegators| - 1], delegators[|delegators| - 1];
      assert delegators == init + [last];
      OneMoreStanding(flows, init, last);
      OneMoreSays(flows, init, last, s);
      CountStandings(flows, init, s);
    }
  }

  /**
   The population of both leaderboard queries: a standing occurs in it as often as there are delegators whose latest
   event says it, as long as it has power and does not delegate to the zero address.
   */
  lemma PopulationCounts(flows: seq<Flow>, s: Standing)
    ensures multiset(RealDelegates(Current(flows)))[s] ==
            if s.power > 0 && s.delegate != ZERO_ADDRESS
            then |set f | f in flows && StandingOf(flows, f.delegator) == Some(s) :: f.delegator|
            else 0
  {
    CountStandings(flows, Delegators(flows), s);
    assert (set f | f in flows && StandingOf(flows, f.delegator) == Some(s) :: f.delegator) ==
           Saying(flows, Delegators(flows), s);
  }
}
