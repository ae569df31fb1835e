/**
 A proposal's tally. From the votes: one entry per choice from the grouped votes, zero-power entries for declared
 choices nobody picked, and each choice's share of the participating power in basis points. Or from the scores the
 source computed, one entry per score, as exact reals.
 */
module Tally {
  import opened Sorting
  import opened BasisPoints
  import opened Wrappers

  /** One grouped row; power is what BigInt makes of its text, or nothing where BigInt throws. */
  datatype AggregateRow = AggregateRow(choice: int, power: Option<int>, voters: nat)

  datatype Entry = Entry(power: nat, voters: nat)
  datatype Choice = Choice(index: int, power: nat, voters: nat, bps: nat)
  datatype VotesTally = VotesTally(choices: seq<Choice>, totalPower: nat, totalVoters: nat)
  datatype ScoredChoice = ScoredChoice(index: nat, score: real, voters: nat, bps: int)
  datatype ScoresTally = ScoresTally(choices: seq<ScoredChoice>, total: real, totalVoters: nat)
  datatype AssembledTally = FromVotes(votes: VotesTally) | FromScores(scores: ScoresTally)

  const NOBODY := Entry(0, 0)

  // ---- A Map in insertion order ----

  type ChoiceMap = seq<(int, Entry)>

  function Keys(m: ChoiceMap): seq<int> {
    if m == [] then [] else [m[0].0] + Keys(m[1..])
  }

  function Get(m: ChoiceMap, choice: int): Entry {
    if m == [] then NOBODY else if m[0].0 == choice then m[0].1 else Get(m[1..], choice)
  }

  function Set(m: ChoiceMap, choice: int, entry: Entry): ChoiceMap {
    if m == [] then [(choice, entry)]
    else if m[0].0 == choice then [(choice, entry)] + m[1..]
    else [m[0]] + Set(m[1..], choice, entry)
  }

  lemma {:induction false} SetFacts(m: ChoiceMap, choice: int, entry: Entry)
    requires NoDuplicates(Keys(m))
    ensures NoDuplicates(Keys(Set(m, choice, entry)))
    ensures forall c :: c in Keys(Set(m, choice, entry)) <==> c == choice || c in Keys(m)
    ensures forall c :: Get(Set(m, choice, entry), c) == if c == choice then entry else Get(m, c)
  {
    if m != [] {
      var rest := m[1..];
      assert Keys(m)[1..] == Keys(rest);
      TailDistinct(Keys(m));
      if m[0].0 == choice {
        assert Set(m, choice, entry)[1..] == rest;
      } else {
        SetFacts(rest, choice, entry);
        var tail := Set(rest, choice, entry);
        assert Set(m, choice, entry)[1..] == tail;
        assert Keys(Set(m, choice, entry)) == [m[0].0] + Keys(tail);
      }
    }
  }

  /** Power that does not parse, or is negative, counts as none. */
  function EntryOf(row: AggregateRow): (e: Entry)
    ensures e.voters == row.voters
    ensures (row.power.Some? && row.power.value == e.power) || (e.power == 0 && (row.power.Some? ==> row.power.value < 0))
  {
    var power := if row.power.None? then 0 else row.power.value;
    Entry(if power < 0 then 0 else power, row.voters)
  }

  function Recorded(aggregate: seq<AggregateRow>): ChoiceMap {
    if aggregate == [] then []
    else
      var last := aggregate[|aggregate| - 1];
      Set(Recorded(aggregate[..|aggregate| - 1]), last.choice, EntryOf(last))
  }

  ghost predicate Voted(aggregate: seq<AggregateRow>, c: int) {
    exists i :: 0 <= i < |aggregate| && aggregate[i].choice == c
  }

  /** Row i is the last one for its choice. */
  ghost predicate LastFor(aggregate: seq<AggregateRow>, i: int) {
    0 <= i < |aggregate| && forall j :: i < j < |aggregate| ==> aggregate[j].choice != aggregate[i].choice
  }

  lemma VotedWithLast(aggregate: seq<AggregateRow>, c: int)
    requires aggregate != []
    ensures var n := |aggregate| - 1; Voted(aggregate, c) <==> Voted(aggregate[..n], c) || aggregate[n].choice == c
  {
    var n := |aggregate| - 1;
    if i :| 0 <= i < n && aggregate[..n][i].choice == c {
      assert aggregate[i].choice == c;
    }
    if i :| 0 <= i < |aggregate| && aggregate[i].choice == c {
      assert i < n ==> aggregate[..n][i].choice == c;
    }
  }

  lemma LastBeforeLast(aggregate: seq<AggregateRow>, i: int)
    requires LastFor(aggregate, i) && i < |aggregate| - 1
    ensures var n := |aggregate| - 1; LastFor(aggregate[..n], i) && aggregate[n].choice != aggregate[i].choice
  {
  }

  lemma {:induction false} RecordedKeys(aggregate: seq<AggregateRow>)
    ensures NoDuplicates(Keys(Recorded(aggregate)))
    ensures forall c :: c in Keys(Recorded(aggregate)) <==> Voted(aggregate, c)
  {
    if aggregate != [] {
      var n := |aggregate| - 1;
      RecordedKeys(aggregate[..n]);
      SetFacts(Recorded(aggregate[..n]), aggregate[n].choice, EntryOf(aggregate[n]));
      forall c ensures c in Keys(Recorded(aggregate)) <==> Voted(aggregate, c) {
        VotedWithLast(aggregate, c);
      }
    }
  }

  lemma {:induction false} RecordedLast(aggregate: seq<AggregateRow>, i: int)
    requires LastFor(aggregate, i)
    ensures Get(Recorded(aggregate), aggregate[i].choice) == EntryOf(aggregate[i])
    decreases |aggregate|
  {
    var n := |aggregate| - 1;
    RecordedKeys(aggregate[..n]);
    SetFacts(Recorded(aggregate[..n]), aggregate[n].choice, EntryOf(aggregate[n]));
    if i < n {
      LastBeforeLast(aggregate, i);
      RecordedLast(aggregate[..n], i);
    }
  }

  /** Each voted choice carries the last of its rows, and no other choice carries anything. */
  lemma LastRowWins(aggregate: seq<AggregateRow>)
    ensures var m := Recorded(aggregate);
            && NoDuplicates(Keys(m))
            && (forall c :: c in Keys(m) <==> Voted(aggregate, c))
            && (forall i :: LastFor(aggregate, i) ==> Get(m, aggregate[i].choice) == EntryOf(aggregate[i]))
            && (forall c :: c !in Keys(m) ==> Get(m, c) == NOBODY)
  {
    var m := Recorded(aggregate);
    RecordedKeys(aggregate);
    forall i | LastFor(aggregate, i) ensures Get(m, aggregate[i].choice) == EntryOf(aggregate[i]) {
      RecordedLast(aggregate, i);
    }
    forall c | c !in Keys(m) ensures Get(m, c) == NOBODY {
      GetMissing(m, c);
    }
  }

  // ---- The choices shown ----

  function Ascending(): (int, int) -> int {
    (x, y) => x - y
  }

  /** new Set(list): first occurrences, in order. */
  function Unique(list: seq<int>): seq<int> {
    if list == [] then []
    else
      var init, last := list[..|list| - 1], list[|list| - 1];
      if last in init then Unique(init) else Unique(init) + [last]
  }

  lemma {:induction false} UniqueFacts(list: seq<int>)
    ensures NoDuplicates(Unique(list))
    ensures forall x :: x in Unique(list) <==> x in list
  {
    if list != [] {
      var init, last := list[..|list| - 1], list[|list| - 1];
      UniqueFacts(init);
      assert list == init + [last];
      forall x ensures x in list <==> x in init || x == last {
      }
    }
  }

  function SortedUnion(a: seq<int>, b: seq<int>): seq<int> {
    Sort(Ascending(), Unique(a + b))
  }

  ghost predicate StrictlyAscending(list: seq<int>) {
    forall i, j :: 0 <= i < j < |list| ==> list[i] < list[j]
  }

  lemma SortedUnionFacts(a: seq<int>, b: seq<int>)
    ensures StrictlyAscending(SortedUnion(a, b))
    ensures NoDuplicates(SortedUnion(a, b))
    ensures forall x :: x in SortedUnion(a, b) <==> x in a || x in b
  {
    UniqueFacts(a + b);
    SortFacts(Ascending(), Unique(a + b));
    SortIncreasing(Ascending(), Unique(a + b));
    var sorted := SortedUnion(a, b);
    assert forall i, j :: 0 <= i < j < |sorted| ==> Ascending()(sorted[i], sorted[j]) < 0;
  }

  // ---- Sums ----

  function SumBy(pick: Entry -> nat, m: ChoiceMap): nat {
    if m == [] then 0 else pick(m[0].1) + SumBy(pick, m[1..])
  }

  function SumAt(pick: Entry -> nat, indices: seq<int>, m: ChoiceMap): nat {
    if indices == [] then 0 else pick(Get(m, indices[0])) + SumAt(pick, indices[1..], m)
  }

  function PowerOf(): Entry -> nat {
    (e: Entry) => e.power
  }

  function VotersOf(): Entry -> nat {
    (e: Entry) => e.voters
  }

  lemma {:induction false} SumAtNobody(pick: Entry -> nat, indices: seq<int>)
    requires pick(NOBODY) == 0
    ensures SumAt(pick, indices, []) == 0
  {
    if indices != [] {
      SumAtNobody(pick, indices[1..]);
    }
  }

  lemma {:induction false} SumAtSkips(pick: Entry -> nat, indices: seq<int>, m: ChoiceMap)
    requires m != [] && m[0].0 !in indices
    ensures SumAt(pick, indices, m) == SumAt(pick, indices, m[1..])
  {
    if indices != [] {
      assert indices[0] in indices && forall x :: x in indices[1..] ==> x in indices;
      SumAtSkips(pick, indices[1..], m);
    }
  }

  lemma {:induction false} SumAtTakesOne(pick: Entry -> nat, indices: seq<int>, m: ChoiceMap)
    requires m != [] && NoDuplicates(indices) && m[0].0 in indices
    requires pick(NOBODY) == 0 && m[0].0 !in Keys(m[1..])
    ensures SumAt(pick, indices, m) == pick(m[0].1) + SumAt(pick, indices, m[1..])
  {
    TailDistinct(indices);
    if indices[0] == m[0].0 {
      SumAtSkips(pick, indices[1..], m);
      GetMissing(m[1..], m[0].0);
    } else {
      assert indices == [indices[0]] + indices[1..];
      SumAtTakesOne(pick, indices[1..], m);
    }
  }

  lemma {:induction false} GetMissing(m: ChoiceMap, c: int)
    requires c !in Keys(m)
    ensures Get(m, c) == NOBODY
  {
    if m != [] {
      assert Keys(m)[0] in Keys(m) && forall x :: x in Keys(m[1..]) ==> x in Keys(m);
      GetMissing(m[1..], c);
    }
  }

  /** Any list of distinct choices that contains all the voted ones carries the whole sum. */
  lemma {:induction false} NothingLost(pick: Entry -> nat, indices: seq<int>, m: ChoiceMap)
    requires pick(NOBODY) == 0 && NoDuplicates(indices) && NoDuplicates(Keys(m))
    requires forall c :: c in Keys(m) ==> c in indices
    ensures SumAt(pick, indices, m) == SumBy(pick, m)
  {
    if m == [] {
      SumAtNobody(pick, indices);
    } else {
      assert Keys(m)[1..] == Keys(m[1..]) && Keys(m)[0] in Keys(m);
      TailDistinct(Keys(m));
      assert forall c :: c in Keys(m[1..]) ==> c in Keys(m);
      assert m[0].0 in Keys(m) && m[0].0 in indices;
      NothingLost(pick, indices, m[1..]);
      SumAtTakesOne(pick, indices, m);
    }
  }

  // ---- The tally ----

  function ChoicesOf(indices: seq<int>, m: ChoiceMap, total: nat): seq<Choice> {
    seq(|indices|, i requires 0 <= i < |indices| =>
      var entry := Get(m, indices[i]);
      Choice(indices[i], entry.power, entry.voters, Bps(entry.power, total)))
  }

  function AssembleFromVotes(declared: seq<int>, m: ChoiceMap): VotesTally {
    var total := SumBy(PowerOf(), m);
    VotesTally(ChoicesOf(SortedUnion(declared, Keys(m)), m, total), total, SumBy(VotersOf(), m))
  }

  /** Math.round: halves go up. */
  function Round(x: real): int {
    (x + 0.5).Floor
  }

  /** The scores that count towards the total: negative ones do not. */
  function PositiveTotal(scores: seq<real>): real {
    if scores == [] then 0.0
    else
      var last := scores[|scores| - 1];
      PositiveTotal(scores[..|scores| - 1]) + if last > 0.0 then last else 0.0
  }

  function ScoreBps(score: real, total: real): int {
    if total > 0.0 then Round(score / total * 10000.0) else 0
  }

  function AssembleFromScores(scores: seq<real>, m: ChoiceMap): ScoresTally {
    var total := PositiveTotal(scores);
    ScoresTally(seq(|scores|, i requires 0 <= i < |scores| =>
                  ScoredChoice(i, scores[i], Get(m, i).voters, ScoreBps(scores[i], total))),
                total, SumBy(VotersOf(), m))
  }

  method AssembleTally(declared: seq<int>, aggregate: seq<AggregateRow>, choiceScores: Option<seq<real>>)
    returns (r: AssembledTally)
    ensures r == if choiceScores.Some? && choiceScores.value != []
                 then FromScores(AssembleFromScores(choiceScores.value, Recorded(aggregate)))
                 else FromVotes(AssembleFromVotes(declared, Recorded(aggregate)))
  {
    var byChoice: ChoiceMap := [];
    for i := 0 to |aggregate|
      invariant byChoice == Recorded(aggregate[..i])
    {
      var row := aggregate[i];
      var power: int;
      match row.power {
        case Some(value) => power := value;
        case None => power := 0;
      }
      byChoice := Set(byChoice, row.choice, Entry(if power < 0 then 0 else power, row.voters));
      assert aggregate[..i + 1][..i] == aggregate[..i];
    }
    assert aggregate[..|aggregate|] == aggregate;
    if choiceScores.Some? && |choiceScores.value| > 0 {
      return FromScores(AssembleFromScores(choiceScores.value, byChoice));
    }
    return FromVotes(AssembleFromVotes(declared, byChoice));
  }

  function Powers(choices: seq<Choice>): seq<nat> {
    seq(|choices|, i requires 0 <= i < |choices| => choices[i].power)
  }

  function Voters(choices: seq<Choice>): seq<nat> {
    seq(|choices|, i requires 0 <= i < |choices| => choices[i].voters)
  }

  function TotalBps(choices: seq<Choice>): nat {
    if choices == [] then 0 else choices[0].bps + TotalBps(choices[1..])
  }

  lemma {:induction false} SumsAgree(indices: seq<int>, m: ChoiceMap, total: nat)
    ensures Sum(Powers(ChoicesOf(indices, m, total))) == SumAt(PowerOf(), indices, m)
    ensures Sum(Voters(ChoicesOf(indices, m, total))) == SumAt(VotersOf(), indices, m)
    ensures TotalBps(ChoicesOf(indices, m, total)) == SumOfBps(Powers(ChoicesOf(indices, m, total)), total)
  {
    var choices := ChoicesOf(indices, m, total);
    if indices != [] {
      assert choices[1..] == ChoicesOf(indices[1..], m, total);
      assert Powers(choices)[1..] == Powers(choices[1..]) && Voters(choices)[1..] == Voters(choices[1..]);
      SumsAgree(indices[1..], m, total);
    }
  }

  ghost predicate Shown(choices: seq<Choice>, c: int) {
    exists i :: 0 <= i < |choices| && choices[i].index == c
  }

  /** The choices are the strictly ascending union of declared and voted indices. */
  lemma TallyShowsEveryChoice(declared: seq<int>, aggregate: seq<AggregateRow>)
    ensures var choices := AssembleFromVotes(declared, Recorded(aggregate)).choices;
            && (forall i, j :: 0 <= i < j < |choices| ==> choices[i].index < choices[j].index)
            && (forall c :: Shown(choices, c) <==> c in declared || Voted(aggregate, c))
  {
    var m := Recorded(aggregate);
    var indices, choices := SortedUnion(declared, Keys(m)), AssembleFromVotes(declared, m).choices;
    LastRowWins(aggregate);
    SortedUnionFacts(declared, Keys(m));
    forall c ensures Shown(choices, c) <==> c in indices {
      if c in indices {
        var i :| 0 <= i < |indices| && indices[i] == c;
        assert choices[i].index == c;
      }
    }
  }

  /** Each choice shows the last of its rows; the powers shown sum to the total, and so do the voters. */
  lemma TallyConservesPower(declared: seq<int>, aggregate: seq<AggregateRow>)
    ensures var r := AssembleFromVotes(declared, Recorded(aggregate));
            && Sum(Powers(r.choices)) == r.totalPower
            && Sum(Voters(r.choices)) == r.totalVoters
            && (forall i, j :: 0 <= i < |r.choices| && LastFor(aggregate, j) && r.choices[i].index == aggregate[j].choice
                  ==> Entry(r.choices[i].power, r.choices[i].voters) == EntryOf(aggregate[j]))
  {
    var m := Recorded(aggregate);
    var indices := SortedUnion(declared, Keys(m));
    LastRowWins(aggregate);
    SortedUnionFacts(declared, Keys(m));
    NothingLost(PowerOf(), indices, m);
    NothingLost(VotersOf(), indices, m);
    SumsAgree(indices, m, SumBy(PowerOf(), m));
  }

  /**
   A choice with more power never shows a smaller share; with k choices of positive power the shares, in basis
   points, fall short of the whole by at most k - 1; with no power at all every share is 0.
   */
  lemma TallyShares(declared: seq<int>, aggregate: seq<AggregateRow>)
    ensures var r := AssembleFromVotes(declared, Recorded(aggregate));
            && (forall i, j :: 0 <= i < |r.choices| && 0 <= j < |r.choices| && r.choices[i].power <= r.choices[j].power
                  ==> r.choices[i].bps <= r.choices[j].bps)
            && (r.totalPower > 0 ==> 10000 - (Nonzero(Powers(r.choices)) - 1) <= TotalBps(r.choices) <= 10000)
            && (r.totalPower == 0 ==> TotalBps(r.choices) == 0)
  {
    var m := Recorded(aggregate);
    var r, indices := AssembleFromVotes(declared, m), SortedUnion(declared, Keys(m));
    TallyConservesPower(declared, aggregate);
    SumsAgree(indices, m, r.totalPower);
    if r.totalPower > 0 {
      SharesNearlyAll(Powers(r.choices), r.totalPower);
    } else {
      NoTotal(Powers(r.choices));
    }
    forall i, j | 0 <= i < |r.choices| && 0 <= j < |r.choices| && r.choices[i].power <= r.choices[j].power
      ensures r.choices[i].bps <= r.choices[j].bps
    {
      BpsMonotone(r.choices[i].power, r.choices[j].power, r.totalPower);
    }
  }

  // ---- The tally by scores ----

  function TotalScoreBps(scores: seq<real>, total: real): int {
    if scores == [] then 0
    else TotalScoreBps(scores[..|scores| - 1], total) + ScoreBps(scores[|scores| - 1], total)
  }

  function SumOfScores(scores: seq<real>): real {
    if scores == [] then 0.0 else SumOfScores(scores[..|scores| - 1]) + scores[|scores| - 1]
  }

  lemma ShareMonotone(a: real, b: real, total: real)
    requires total > 0.0 && a <= b
    ensures a / total * 10000.0 <= b / total * 10000.0
  {
    assert b / total - a / total == (b - a) / total >= 0.0;
  }

  lemma ShareAdds(a: real, b: real, total: real)
    requires total > 0.0
    ensures (a + b) / total * 10000.0 == a / total * 10000.0 + b / total * 10000.0
  {
    assert (a + b) / total == a / total + b / total;
  }

  /** Each share is off by at most half a basis point, so their sum by at most half of one per choice. */
  lemma {:induction false} SharesRound(scores: seq<real>, total: real)
    requires total > 0.0
    ensures var exact := SumOfScores(scores) / total * 10000.0;
            exact - |scores| as real / 2.0 <= TotalScoreBps(scores, total) as real <= exact + |scores| as real / 2.0
  {
    if scores != [] {
      var init, last := scores[..|scores| - 1], scores[|scores| - 1];
      SharesRound(init, total);
      ShareAdds(SumOfScores(init), last, total);
    }
  }

  lemma {:induction false} TotalIsSumExactlyWhen(scores: seq<real>)
    ensures 0.0 <= PositiveTotal(scores) && SumOfScores(scores) <= PositiveTotal(scores)
    ensures SumOfScores(scores) == PositiveTotal(scores) <==> forall s :: s in scores ==> s >= 0.0
  {
    if scores != [] {
      var init, last := scores[..|scores| - 1], scores[|scores| - 1];
      TotalIsSumExactlyWhen(init);
      assert scores == init + [last];
      if forall s :: s in scores ==> s >= 0.0 {
        assert last in scores && forall s :: s in init ==> s in scores;
      } else {
        var s :| s in scores && s < 0.0;
        assert s in init || s == last;
      }
    }
  }

  /**
   With any positive score, a larger score never shows a smaller share, and the shares in basis points sum to the
   sum of all scores over the sum of the positive ones, give or take half a point per choice: to the whole exactly
   when no score is negative. With no positive score every share is 0.
   */
  lemma ScoreShares(scores: seq<real>, m: ChoiceMap)
    ensures var r := AssembleFromScores(scores, m);
            && |r.choices| == |scores|
            && (forall i, j :: 0 <= i < |scores| && 0 <= j < |scores| && scores[i] <= scores[j]
                  ==> r.choices[i].bps <= r.choices[j].bps)
            && (r.total > 0.0 ==>
                  var exact := SumOfScores(scores) / r.total * 10000.0;
                  && exact - |scores| as real / 2.0 <= TotalScoreBps(scores, r.total) as real
                  && TotalScoreBps(scores, r.total) as real <= exact + |scores| as real / 2.0
                  && (exact == 10000.0 <==> forall s :: s in scores ==> s >= 0.0))
            && (r.total == 0.0 ==> forall i :: 0 <= i < |scores| ==> r.choices[i].bps == 0)
  {
    var total := PositiveTotal(scores);
    TotalIsSumExactlyWhen(scores);
    if total > 0.0 {
      SharesRound(scores, total);
      WholeExactlyWhen(SumOfScores(scores), total);
      forall i, j | 0 <= i < |scores| && 0 <= j < |scores| && scores[i] <= scores[j]
        ensures ScoreBps(scores[i], total) <= ScoreBps(scores[j], total)
      {
        ShareMonotone(scores[i], scores[j], total);
      }
    }
  }

  lemma WholeExactlyWhen(sum: real, total: real)
    requires total > 0.0
    ensures sum / total * 10000.0 == 10000.0 <==> sum == total
  {
    assert sum / total * 10000.0 == 10000.0 <==> sum / total == 1.0;
    assert sum / total * total == sum;
  }

  // ---- Whose votes the scored choices show ----

  function UpTo(n: nat): seq<int> {
    seq(n, i => i)
  }

  lemma UpToFacts(n: nat)
    ensures NoDuplicates(UpTo(n)) && forall c :: c in UpTo(n) <==> 0 <= c < n
  {
    forall c | 0 <= c < n ensures c in UpTo(n) {
      assert UpTo(n)[c] == c;
    }
  }

  function Beyond(n: nat): int -> bool {
    (c: int) => !(0 <= c < n)
  }

  lemma {:induction false} SumAtAppend(pick: Entry -> nat, a: seq<int>, b: seq<int>, m: ChoiceMap)
    ensures SumAt(pick, a + b, m) == SumAt(pick, a, m) + SumAt(pick, b, m)
  {
    if a == [] {
      assert a + b == b;
    } else {
      assert (a + b)[1..] == a[1..] + b;
      SumAtAppend(pick, a[1..], b, m);
    }
  }

  lemma {:induction false} SumAtIsZero(pick: Entry -> nat, indices: seq<int>, m: ChoiceMap)
    ensures SumAt(pick, indices, m) == 0 <==> forall c :: c in indices ==> pick(Get(m, c)) == 0
  {
    if indices != [] {
      SumAtIsZero(pick, indices[1..], m);
      assert forall c :: c in indices <==> c == indices[0] || c in indices[1..];
    }
  }

  function ScoredVoters(choices: seq<ScoredChoice>): seq<nat> {
    seq(|choices|, i requires 0 <= i < |choices| => choices[i].voters)
  }

  lemma {:induction false} ScoredVotersSum(scores: seq<real>, m: ChoiceMap, n: nat)
    requires n <= |scores|
    ensures Sum(ScoredVoters(AssembleFromScores(scores, m).choices)[n..]) == SumAt(VotersOf(), UpTo(|scores|)[n..], m)
    decreases |scores| - n
  {
    if n < |scores| {
      var voters, indices := ScoredVoters(AssembleFromScores(scores, m).choices), UpTo(|scores|);
      ScoredVotersSum(scores, m, n + 1);
      assert voters[n..] == [voters[n]] + voters[n + 1..] && indices[n..] == [n] + indices[n + 1..];
    }
  }

  /** Voters of the choices that have no score. */
  function LostVoters(m: ChoiceMap, n: nat): nat {
    SumAt(VotersOf(), Filter(Beyond(n), Keys(m)), m)
  }

  lemma AppendDistinct(a: seq<int>, b: seq<int>)
    requires NoDuplicates(a) && NoDuplicates(b) && forall c :: c in a ==> c !in b
    ensures NoDuplicates(a + b)
  {
    var ab := a + b;
    forall i, j | 0 <= i < j < |ab| ensures ab[i] != ab[j] {
      if i < |a| <= j {
        assert ab[i] == a[i] && a[i] in a && ab[j] == b[j - |a|] && b[j - |a|] in b;
      } else if j < |a| {
        assert ab[i] == a[i] && ab[j] == a[j];
      } else {
        assert ab[i] == b[i - |a|] && ab[j] == b[j - |a|];
      }
    }
  }

  lemma ScoredOrLost(m: ChoiceMap, n: nat)
    requires NoDuplicates(Keys(m))
    ensures SumAt(VotersOf(), UpTo(n), m) + LostVoters(m, n) == SumBy(VotersOf(), m)
  {
    var lost := Filter(Beyond(n), Keys(m));
    UpToFacts(n);
    FilterFacts(Beyond(n), Keys(m));
    FilterDistinct(Beyond(n), Keys(m));
    AppendDistinct(UpTo(n), lost);
    assert forall c :: c in Keys(m) ==> c in UpTo(n) + lost;
    NothingLost(VotersOf(), UpTo(n) + lost, m);
    SumAtAppend(VotersOf(), UpTo(n), lost, m);
  }

  /** The scored choices account for every voter exactly when nobody voted for a choice without a score. */
  lemma ScoredVotersCovered(scores: seq<real>, aggregate: seq<AggregateRow>)
    ensures var m := Recorded(aggregate);
            var r := AssembleFromScores(scores, m);
            && Sum(ScoredVoters(r.choices)) <= r.totalVoters
            && (Sum(ScoredVoters(r.choices)) == r.totalVoters <==>
                  forall c :: Voted(aggregate, c) && !(0 <= c < |scores|) ==> Get(m, c).voters == 0)
  {
    var m, n := Recorded(aggregate), |scores|;
    var voters := ScoredVoters(AssembleFromScores(scores, m).choices);
    LastRowWins(aggregate);
    ScoredOrLost(m, n);
    FilterFacts(Beyond(n), Keys(m));
    SumAtIsZero(VotersOf(), Filter(Beyond(n), Keys(m)), m);
    ScoredVotersSum(scores, m, 0);
    assert voters[0..] == voters && UpTo(n)[0..] == UpTo(n);
  }

  /** A negative score takes a negative share beside the whole; a vote for a choice without a score is shown nowhere. */
  lemma ScoresExample()
    ensures var r := AssembleFromScores([1.0, -1.0], []); r.choices[0].bps == 10000 && r.choices[1].bps == -10000
    ensures var r := AssembleFromScores([1.0], Recorded([AggregateRow(1, None, 1)]));
            r.totalVoters == 1 && r.choices == [ScoredChoice(0, 1.0, 0, 10000)]
  {
    assert [1.0, -1.0][..1] == [1.0] && [1.0][..0] == [];
    assert PositiveTotal([1.0]) == 1.0 && PositiveTotal([1.0, -1.0]) == 1.0;
    var row := AggregateRow(1, None, 1);
    assert [row][..0] == [] && Recorded([row]) == [(1, Entry(0, 1))];
    assert SumBy(VotersOf(), [(1, Entry(0, 1))]) == 1;
  }

  // ---- Both tallies in plain terms ----

  /** The voters of the last row for a choice, or nobody. */
  ghost predicate VotersAre(aggregate: seq<AggregateRow>, c: int, voters: nat) {
    && (forall j :: LastFor(aggregate, j) && aggregate[j].choice == c ==> voters == aggregate[j].voters)
    && (!Voted(aggregate, c) ==> voters == 0)
  }

  lemma GetVoters(aggregate: seq<AggregateRow>, c: int)
    ensures VotersAre(aggregate, c, Get(Recorded(aggregate), c).voters)
  {
    LastRowWins(aggregate);
  }

  /** A choice's share is its power's part of the total in basis points, rounded down. */
  lemma VoteSharesAre(declared: seq<int>, aggregate: seq<AggregateRow>, i: nat)
    requires i < |AssembleFromVotes(declared, Recorded(aggregate)).choices|
    ensures var r := AssembleFromVotes(declared, Recorded(aggregate));
            var choice := r.choices[i];
            && VotersAre(aggregate, choice.index, choice.voters)
            && (r.totalPower == 0 ==> choice.bps == 0)
            && (r.totalPower > 0 ==>
                  r.totalPower * choice.bps <= 10000 * choice.power < r.totalPower * choice.bps + r.totalPower)
  {
    GetVoters(aggregate, AssembleFromVotes(declared, Recorded(aggregate)).choices[i].index);
  }

  function IsPositive(): real -> bool {
    (s: real) => s > 0.0
  }

  lemma SumPush(init: seq<real>, last: real)
    ensures SumOfScores(init + [last]) == SumOfScores(init) + last
    ensures PositiveTotal(init + [last]) == PositiveTotal(init) + if last > 0.0 then last else 0.0
  {
    assert (init + [last])[..|init|] == init;
  }

  lemma PositivesPush(init: seq<real>, last: real)
    requires PositiveTotal(init) == SumOfScores(Filter(IsPositive(), init))
    ensures PositiveTotal(init + [last]) == SumOfScores(Filter(IsPositive(), init + [last]))
  {
    var kept := Filter(IsPositive(), init);
    FilterPush(init, last);
    SumPush(init, last);
    SumPush(kept, last);
    assert kept + [] == kept;
  }

  /** The total of the scores is the sum of the positive ones. */
  lemma {:induction false} TotalIsOfPositives(scores: seq<real>)
    ensures PositiveTotal(scores) == SumOfScores(Filter(IsPositive(), scores))
    decreases |scores|
  {
    if scores != [] {
      var init, last := scores[..|scores| - 1], scores[|scores| - 1];
      TotalIsOfPositives(init);
      PositivesPush(init, last);
      assert init + [last] == scores;
    }
  }

  lemma {:induction false} FilterPush(init: seq<real>, last: real)
    ensures Filter(IsPositive(), init + [last]) == Filter(IsPositive(), init) + if last > 0.0 then [last] else []
  {
    if init == [] {
      assert [] + [last] == [last] && [last][1..] == [];
    } else {
      assert (init + [last])[0] == init[0] && (init + [last])[1..] == init[1..] + [last];
      FilterPush(init[1..], last);
    }
  }

  /**
   The tally by scores has one choice for each score, in order, with that score, the voters of the last row for it, and
   the score's share of the positive total in basis points, rounded to the nearest and halves up.
   */
  lemma ScoreChoiceIs(scores: seq<real>, aggregate: seq<AggregateRow>, declared: seq<int>, i: nat)
    requires i < |scores|
    ensures var r := AssembleFromScores(scores, Recorded(aggregate));
            && |r.choices| == |scores|
            && r.total == SumOfScores(Filter(IsPositive(), scores))
            && r.totalVoters == AssembleFromVotes(declared, Recorded(aggregate)).totalVoters
            && r.choices[i].index == i && r.choices[i].score == scores[i]
            && VotersAre(aggregate, i, r.choices[i].voters)
            && (r.total <= 0.0 ==> r.choices[i].bps == 0)
            && (r.total > 0.0 ==>
                  var exact := scores[i] / r.total * 10000.0;
                  exact - 0.5 < r.choices[i].bps as real <= exact + 0.5)
  {
    TotalIsOfPositives(scores);
    GetVoters(aggregate, i);
  }
}
