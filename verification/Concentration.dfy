/**
 Concentration of voting power in one bucket: the Gini coefficient, the effective delegate count and the top
 shares. The source computes exact integers and divides once at the end; the fractions are kept exact here.
 */
module Concentration {
  import opened Sorting

  datatype Ratio = Ratio(num: int, den: int)

  const ZERO := Ratio(0, 1)

  function Total(ws: seq<int>): int {
    if ws == [] then 0 else ws[0] + Total(ws[1..])
  }

  function Abs(x: int): (r: int)
    ensures r >= 0 && (r == x || r == -x)
  {
    if x < 0 then -x else x
  }

  ghost predicate NonNegative(ws: seq<int>) {
    forall w :: w in ws ==> w >= 0
  }

  lemma {:induction false} TotalAppend(a: seq<int>, b: seq<int>)
    ensures Total(a + b) == Total(a) + Total(b)
  {
    if a == [] {
      assert a + b == b;
    } else {
      assert (a + b)[1..] == a[1..] + b;
      TotalAppend(a[1..], b);
    }
  }

  lemma {:induction false} TotalNonNegative(ws: seq<int>)
    requires NonNegative(ws)
    ensures Total(ws) >= 0
    ensures Total(ws) == 0 <==> forall w :: w in ws ==> w == 0
    ensures forall w :: w in ws ==> w <= Total(ws)
  {
    if ws != [] {
      assert ws[0] in ws && forall w :: w in ws[1..] ==> w in ws;
      assert forall w :: w in ws ==> w == ws[0] || w in ws[1..];
      TotalNonNegative(ws[1..]);
    }
  }

  // ---- Gini ----

  /** The sum of (w - x) over the list. */
  function Rises(x: int, ws: seq<int>): int {
    if ws == [] then 0 else (ws[0] - x) + Rises(x, ws[1..])
  }

  /** The sum of w_j - w_i over all positions i < j. */
  function RisesOfPairs(ws: seq<int>): int {
    if ws == [] then 0 else Rises(ws[0], ws[1..]) + RisesOfPairs(ws[1..])
  }

  lemma {:induction false} RisesAppend(x: int, ws: seq<int>, w: int)
    ensures Rises(x, ws + [w]) == Rises(x, ws) + (w - x)
  {
    if ws != [] {
      assert (ws + [w])[1..] == ws[1..] + [w];
      RisesAppend(x, ws[1..], w);
    }
  }

  /** One more weight at the end adds its rise over every weight before it. */
  lemma {:induction false} PairsAppend(ws: seq<int>, w: int)
    ensures RisesOfPairs(ws + [w]) == RisesOfPairs(ws) + |ws| * w - Total(ws)
  {
    if ws == [] {
      assert ws + [w] == [w] && [w][1..] == [];
    } else {
      assert (ws + [w])[1..] == ws[1..] + [w];
      PairsAppend(ws[1..], w);
      RisesAppend(ws[0], ws[1..], w);
    }
  }

  function Gini(ws: seq<int>): Ratio {
    if |ws| <= 1 || Total(ws) == 0 then ZERO else Ratio(RisesOfPairs(ws), |ws| * Total(ws))
  }

  /** The loop's two running sums give the rises of all pairs, in whatever order the weights come. */
  method ComputeGini(sortedWeights: seq<int>) returns (r: Ratio)
    ensures r == Gini(sortedWeights)
  {
    var n := |sortedWeights|;
    if n <= 1 {
      return ZERO;
    }
    var sum, weighted := 0, 0;
    for i := 0 to n
      invariant sum == Total(sortedWeights[..i])
      invariant 2 * weighted - (i + 1) * sum == RisesOfPairs(sortedWeights[..i])
    {
      var w := sortedWeights[i];
      assert sortedWeights[..i + 1] == sortedWeights[..i] + [w];
      TotalAppend(sortedWeights[..i], [w]);
      PairsAppend(sortedWeights[..i], w);
      sum := sum + w;
      weighted := weighted + (i + 1) * w;
    }
    assert sortedWeights[..n] == sortedWeights;
    if sum == 0 {
      return ZERO;
    }
    r := Ratio(2 * weighted - (n + 1) * sum, n * sum);
  }

  /** The sum of |w - x| over the list. */
  function Gaps(x: int, ws: seq<int>): (r: int)
    ensures r >= 0
  {
    if ws == [] then 0 else Abs(ws[0] - x) + Gaps(x, ws[1..])
  }

  /** The sum of |w_i - w_j| over all unordered pairs: the textbook numerator, which knows no order. */
  function Spread(ws: seq<int>): (r: int)
    ensures r >= 0
  {
    if ws == [] then 0 else Gaps(ws[0], ws[1..]) + Spread(ws[1..])
  }

  function Ascending(): (int, int) -> int {
    CompareInts
  }

  function Descending(): (int, int) -> int {
    (a, b) => CompareInts(b, a)
  }

  ghost predicate Climbs(ws: seq<int>) {
    forall i, j :: 0 <= i < j < |ws| ==> ws[i] <= ws[j]
  }

  lemma HeadIsLeast(ws: seq<int>)
    requires Climbs(ws) && ws != []
    ensures Climbs(ws[1..]) && forall w :: w in ws[1..] ==> ws[0] <= w
  {
    assert forall i :: 0 <= i < |ws| - 1 ==> ws[1..][i] == ws[i + 1];
  }

  lemma {:induction false} InsertClimbs(x: int, ws: seq<int>)
    requires Climbs(ws)
    ensures Climbs(Insert(Ascending(), x, ws))
  {
    if ws != [] {
      HeadIsLeast(ws);
      if x > ws[0] {
        InsertClimbs(x, ws[1..]);
        InsertFacts(Ascending(), x, ws[1..]);
        var rest := Insert(Ascending(), x, ws[1..]);
        assert forall i :: 0 <= i < |rest| ==> rest[i] in rest;
      }
    }
  }

  lemma {:induction false} SortClimbs(ws: seq<int>)
    ensures Climbs(Sort(Ascending(), ws))
  {
    if ws != [] {
      SortClimbs(ws[1..]);
      InsertClimbs(ws[0], Sort(Ascending(), ws[1..]));
    }
  }

  lemma {:induction false} RisesAreGaps(x: int, ws: seq<int>)
    requires forall w :: w in ws ==> x <= w
    ensures Rises(x, ws) == Gaps(x, ws)
  {
    if ws != [] {
      assert ws[0] in ws && forall w :: w in ws[1..] ==> w in ws;
      RisesAreGaps(x, ws[1..]);
    }
  }

  lemma {:induction false} PairsAreSpread(ws: seq<int>)
    requires Climbs(ws)
    ensures RisesOfPairs(ws) == Spread(ws)
  {
    if ws != [] {
      HeadIsLeast(ws);
      RisesAreGaps(ws[0], ws[1..]);
      PairsAreSpread(ws[1..]);
    }
  }

  lemma {:induction false} InsertKeepsGaps(cmp: (int, int) -> int, y: int, x: int, ws: seq<int>)
    ensures Gaps(y, Insert(cmp, x, ws)) == Abs(x - y) + Gaps(y, ws)
  {
    if ws != [] && cmp(x, ws[0]) > 0 {
      InsertKeepsGaps(cmp, y, x, ws[1..]);
    }
  }

  lemma {:induction false} InsertKeepsSpread(cmp: (int, int) -> int, x: int, ws: seq<int>)
    ensures Spread(Insert(cmp, x, ws)) == Gaps(x, ws) + Spread(ws)
  {
    if ws != [] && cmp(x, ws[0]) > 0 {
      InsertKeepsSpread(cmp, x, ws[1..]);
      InsertKeepsGaps(cmp, ws[0], x, ws[1..]);
    }
  }

  lemma {:induction false} SortKeepsGaps(cmp: (int, int) -> int, y: int, ws: seq<int>)
    ensures Gaps(y, Sort(cmp, ws)) == Gaps(y, ws)
  {
    if ws != [] {
      SortKeepsGaps(cmp, y, ws[1..]);
      InsertKeepsGaps(cmp, y, ws[0], Sort(cmp, ws[1..]));
    }
  }

  lemma {:induction false} SortKeepsSpread(cmp: (int, int) -> int, ws: seq<int>)
    ensures Spread(Sort(cmp, ws)) == Spread(ws)
  {
    if ws != [] {
      SortKeepsSpread(cmp, ws[1..]);
      SortKeepsGaps(cmp, ws[0], ws[1..]);
      InsertKeepsSpread(cmp, ws[0], Sort(cmp, ws[1..]));
    }
  }

  lemma {:induction false} InsertKeepsTotal(cmp: (int, int) -> int, x: int, ws: seq<int>)
    ensures Total(Insert(cmp, x, ws)) == x + Total(ws)
  {
    if ws != [] && cmp(x, ws[0]) > 0 {
      InsertKeepsTotal(cmp, x, ws[1..]);
    }
  }

  lemma {:induction false} SortKeepsTotal(cmp: (int, int) -> int, ws: seq<int>)
    ensures Total(Sort(cmp, ws)) == Total(ws)
  {
    if ws != [] {
      SortKeepsTotal(cmp, ws[1..]);
      InsertKeepsTotal(cmp, ws[0], Sort(cmp, ws[1..]));
    }
  }

  // ---- The range of the spread ----

  ghost predicate AllEqual(ws: seq<int>) {
    forall i, j :: 0 <= i < j < |ws| ==> ws[i] == ws[j]
  }

  ghost predicate AtMostOneHolds(ws: seq<int>) {
    forall i, j :: 0 <= i < j < |ws| ==> ws[i] == 0 || ws[j] == 0
  }

  /** The sum of x + w over the list: the most the gaps can come to. */
  function Reach(x: int, ws: seq<int>): int {
    if ws == [] then 0 else (x + ws[0]) + Reach(x, ws[1..])
  }

  lemma {:induction false} ReachIs(x: int, ws: seq<int>)
    ensures Reach(x, ws) == |ws| * x + Total(ws)
  {
    if ws != [] {
      ReachIs(x, ws[1..]);
      Distributes(x, 1, |ws[1..]|);
    }
  }

  lemma {:induction false} GapsRange(x: int, ws: seq<int>)
    requires NonNegative(ws) && x >= 0
    ensures Gaps(x, ws) == 0 <==> forall w :: w in ws ==> w == x
    ensures Gaps(x, ws) <= Reach(x, ws)
    ensures Gaps(x, ws) == Reach(x, ws) <==> forall w :: w in ws ==> x == 0 || w == 0
  {
    if ws != [] {
      HeadAndTail(ws);
      assert ws[0] in ws;
      GapsRange(x, ws[1..]);
    }
  }

  lemma PairsOfHeadAndTail(ws: seq<int>)
    requires ws != []
    ensures AllEqual(ws) <==> (forall w :: w in ws[1..] ==> w == ws[0]) && AllEqual(ws[1..])
    ensures AtMostOneHolds(ws) <==> (forall w :: w in ws[1..] ==> ws[0] == 0 || w == 0) && AtMostOneHolds(ws[1..])
  {
    var rest := ws[1..];
    assert forall i :: 0 <= i < |rest| ==> rest[i] == ws[i + 1] && rest[i] in rest;
    assert forall j :: 0 < j < |ws| ==> ws[j] == rest[j - 1];
  }

  /** Spread lies between 0 and (n - 1) times the total; the ends are equality and a single holder. */
  lemma {:induction false} SpreadRange(ws: seq<int>)
    requires NonNegative(ws)
    ensures Spread(ws) == 0 <==> AllEqual(ws)
    ensures ws != [] ==> Spread(ws) <= (|ws| - 1) * Total(ws)
    ensures ws != [] ==> (Spread(ws) == (|ws| - 1) * Total(ws) <==> AtMostOneHolds(ws))
  {
    if |ws| == 1 {
      assert ws[1..] == [];
    } else if |ws| > 1 {
      var rest := ws[1..];
      assert ws[0] in ws && forall w :: w in rest ==> w in ws;
      SpreadRange(rest);
      GapsRange(ws[0], rest);
      ReachIs(ws[0], rest);
      PairsOfHeadAndTail(ws);
      BoundStep(|rest|, ws[0], Total(rest));
    }
  }

  lemma BoundStep(k: int, x: int, t: int)
    ensures k * (x + t) == (k * x + t) + (k - 1) * t
  {
  }

  /** With something to hold, at most one holder means one holder of everything. */
  lemma {:induction false} OneHolderHasAll(ws: seq<int>)
    requires NonNegative(ws) && Total(ws) > 0
    ensures AtMostOneHolds(ws) <==> Total(ws) in ws
  {
    var rest := ws[1..];
    assert forall w :: w in ws ==> w == ws[0] || w in rest;
    assert ws[0] in ws && forall w :: w in rest ==> w in ws;
    PairsOfHeadAndTail(ws);
    TotalNonNegative(rest);
    NothingHeld(rest);
    if ws[0] == 0 {
      OneHolderHasAll(rest);
    }
  }

  lemma NothingHeld(ws: seq<int>)
    requires NonNegative(ws)
    ensures Total(ws) == 0 ==> AtMostOneHolds(ws)
  {
    TotalNonNegative(ws);
    assert forall i :: 0 <= i < |ws| ==> ws[i] in ws;
  }

  /** The spread s over n t, with the source's two cases that give 0. */
  function SpreadRatio(n: int, s: int, t: int): Ratio {
    if n <= 1 || t == 0 then ZERO else Ratio(s, n * t)
  }

  /** Sorted first, the weights' signed rises are the textbook numerator of the unsorted list. */
  lemma GiniIsTextbook(ws: seq<int>)
    ensures Gini(Sort(Ascending(), ws)) ==
            SpreadRatio(|ws|, Spread(ws), Total(ws))
  {
    SortFacts(Ascending(), ws);
    SortClimbs(ws);
    SortKeepsTotal(Ascending(), ws);
    SortKeepsSpread(Ascending(), ws);
    PairsAreSpread(Sort(Ascending(), ws));
  }

  /** The coefficient of a bucket of n weights, in any order, lies between 0 and (n - 1) / n. */
  lemma GiniOfBucket(ws: seq<int>)
    requires NonNegative(ws) && ws != []
    ensures var g, n := Gini(Sort(Ascending(), ws)), |ws|;
            g.den > 0 && 0 <= g.num && n * g.num <= (n - 1) * g.den
  {
    GiniIsTextbook(ws);
    TotalNonNegative(ws);
    SpreadRange(ws);
    OverTotal(|ws|, Spread(ws), Total(ws));
  }

  lemma OverTotal(n: int, s: int, t: int)
    requires n >= 1 && t >= 0 && 0 <= s <= (n - 1) * t
    ensures var g := SpreadRatio(n, s, t);
            && g.den > 0 && 0 <= g.num && n * g.num <= (n - 1) * g.den
            && (t > 0 ==> (n * g.num == (n - 1) * g.den <==> s == (n - 1) * t))
            && (g.num == 0 <==> s == 0)
  {
    if n > 1 && t > 0 {
      ScaledBound(n, s, t);
    } else {
      ProductZero(n - 1, t);
    }
  }

  /** It is 0 exactly when all weights are equal and (n - 1) / n exactly when one holder has everything. */
  lemma GiniExtremes(ws: seq<int>)
    requires NonNegative(ws) && ws != []
    ensures var g, n := Gini(Sort(Ascending(), ws)), |ws|;
            && (g.num == 0 <==> AllEqual(ws))
            && (Total(ws) > 0 ==> (n * g.num == (n - 1) * g.den <==> Total(ws) in ws))
  {
    GiniIsTextbook(ws);
    TotalNonNegative(ws);
    SpreadRange(ws);
    OverTotal(|ws|, Spread(ws), Total(ws));
    if Total(ws) > 0 {
      OneHolderHasAll(ws);
    }
  }

  /** n s compared with (n - 1)(n t) is s compared with (n - 1) t. */
  lemma ScaledBound(n: int, s: int, t: int)
    requires n > 0 && t > 0
    ensures n * t > 0
    ensures n * s <= (n - 1) * (n * t) <==> s <= (n - 1) * t
    ensures n * s == (n - 1) * (n * t) <==> s == (n - 1) * t
  {
    var u := (n - 1) * t;
    assert (n - 1) * (n * t) == n * u;
    if s < u {
      assert n * (u - s) > 0;
    } else if s > u {
      assert n * (s - u) > 0;
    }
  }

  // ---- Effective delegate count ----

  function Square(x: int): (r: int)
    ensures r >= 0
  {
    x * x
  }

  function SumOfSquares(ws: seq<int>): (r: int)
    ensures r >= 0
  {
    if ws == [] then 0 else Square(ws[0]) + SumOfSquares(ws[1..])
  }

  function EffectiveCount(ws: seq<int>): Ratio {
    if Total(ws) == 0 || SumOfSquares(ws) == 0 then ZERO else Ratio(Total(ws) * Total(ws), SumOfSquares(ws))
  }

  function SquaredGaps(x: int, ws: seq<int>): (r: int)
    ensures r >= 0
  {
    if ws == [] then 0 else Square(ws[0] - x) + SquaredGaps(x, ws[1..])
  }

  function SquaredSpread(ws: seq<int>): (r: int)
    ensures r >= 0
  {
    if ws == [] then 0 else SquaredGaps(ws[0], ws[1..]) + SquaredSpread(ws[1..])
  }

  function Products(ws: seq<int>): int {
    if ws == [] then 0 else ws[0] * Total(ws[1..]) + Products(ws[1..])
  }

  lemma {:induction false} SquaredGapsExpand(x: int, ws: seq<int>)
    ensures SquaredGaps(x, ws) == |ws| * (x * x) - 2 * (x * Total(ws)) + SumOfSquares(ws)
  {
    if ws != [] {
      var w, rest := ws[0], ws[1..];
      SquaredGapsExpand(x, rest);
      SquareOfDifference(w, x);
      Distributes(x, w, Total(rest));
      Distributes(x * x, 1, |rest|);
    }
  }

  lemma SquareOfDifference(a: int, b: int)
    ensures (a - b) * (a - b) == a * a - 2 * (b * a) + b * b
  {
  }

  lemma Distributes(a: int, b: int, c: int)
    ensures a * (b + c) == a * b + a * c
    ensures (b + c) * a == b * a + c * a
  {
  }

  /** Lagrange's identity: n times the sum of squares exceeds the squared total by the squared spread. */
  lemma {:induction false} LagrangeIdentity(ws: seq<int>)
    ensures |ws| * SumOfSquares(ws) - Total(ws) * Total(ws) == SquaredSpread(ws)
  {
    if ws != [] {
      var w, rest := ws[0], ws[1..];
      LagrangeIdentity(rest);
      SquaredGapsExpand(w, rest);
      SquareOfSum(w, Total(rest));
      Distributes(SumOfSquares(ws), 1, |rest|);
      Distributes(|rest|, w * w, SumOfSquares(rest));
    }
  }

  lemma SquareOfSum(a: int, b: int)
    ensures (a + b) * (a + b) == a * a + 2 * (a * b) + b * b
  {
  }

  lemma {:induction false} SquareOfTotal(ws: seq<int>)
    ensures Total(ws) * Total(ws) == SumOfSquares(ws) + 2 * Products(ws)
  {
    if ws != [] {
      SquareOfTotal(ws[1..]);
      SquareOfSum(ws[0], Total(ws[1..]));
    }
  }

  lemma {:induction false} SquaredGapsZero(x: int, ws: seq<int>)
    ensures SquaredGaps(x, ws) == 0 <==> forall w :: w in ws ==> w == x
  {
    if ws != [] {
      assert forall w :: w in ws ==> w == ws[0] || w in ws[1..];
      assert ws[0] in ws && forall w :: w in ws[1..] ==> w in ws;
      SquaredGapsZero(x, ws[1..]);
      SquareZero(ws[0] - x);
    }
  }

  lemma SquareZero(x: int)
    ensures x * x >= 0 && (x * x == 0 <==> x == 0)
  {
  }

  lemma {:induction false} SquaredSpreadZero(ws: seq<int>)
    ensures SquaredSpread(ws) == 0 <==> AllEqual(ws)
  {
    if ws != [] {
      SquaredSpreadZero(ws[1..]);
      SquaredGapsZero(ws[0], ws[1..]);
      PairsOfHeadAndTail(ws);
    }
  }

  lemma {:induction false} ProductsZero(ws: seq<int>)
    requires NonNegative(ws)
    ensures Products(ws) >= 0 && (Products(ws) == 0 <==> AtMostOneHolds(ws))
  {
    if ws != [] {
      var rest := ws[1..];
      assert ws[0] in ws && forall w :: w in rest ==> w in ws;
      ProductsZero(rest);
      TotalNonNegative(rest);
      PairsOfHeadAndTail(ws);
      ProductZero(ws[0], Total(rest));
    }
  }

  lemma ProductZero(a: int, b: int)
    requires a >= 0 && b >= 0
    ensures a * b >= 0 && (a * b == 0 <==> a == 0 || b == 0)
  {
  }

  /**
   With a positive total the count lies between 1 and n: n exactly when all weights are equal, 1 exactly when
   one holder has everything.
   */
  lemma EffectiveCountRange(ws: seq<int>)
    requires NonNegative(ws) && Total(ws) > 0
    ensures var e, n := EffectiveCount(ws), |ws|;
            && e.den > 0 && e.den <= e.num <= n * e.den
            && (e.num == n * e.den <==> AllEqual(ws))
            && (e.num == e.den <==> Total(ws) in ws)
  {
    LagrangeIdentity(ws);
    SquareOfTotal(ws);
    SquaredSpreadZero(ws);
    ProductsZero(ws);
    OneHolderHasAll(ws);
    SquaresPositive(ws);
  }

  lemma {:induction false} SquaresPositive(ws: seq<int>)
    requires Total(ws) != 0
    ensures SumOfSquares(ws) > 0
  {
    SquareZero(ws[0]);
    if ws[0] == 0 {
      SquaresPositive(ws[1..]);
    }
  }

  // ---- Top shares ----

  function Take(ws: seq<int>, n: nat): seq<int> {
    if n < |ws| then ws[..n] else ws
  }

  function TopSum(ws: seq<int>, n: nat): int {
    Total(Take(Sort(Descending(), ws), n))
  }

  function TopShare(ws: seq<int>, n: nat, total: int): Ratio {
    if total == 0 then ZERO else Ratio(TopSum(ws, n), total)
  }

  ghost predicate Falls(ws: seq<int>) {
    forall i, j :: 0 <= i < j < |ws| ==> ws[i] >= ws[j]
  }

  lemma HeadIsGreatest(ws: seq<int>)
    requires Falls(ws) && ws != []
    ensures Falls(ws[1..]) && forall w :: w in ws ==> ws[0] >= w
  {
    assert forall i :: 0 <= i < |ws| - 1 ==> ws[1..][i] == ws[i + 1];
  }

  lemma {:induction false} InsertFalls(x: int, ws: seq<int>)
    requires Falls(ws)
    ensures Falls(Insert(Descending(), x, ws))
  {
    if ws != [] {
      HeadIsGreatest(ws);
      assert forall w :: w in ws[1..] ==> w in ws;
      if x < ws[0] {
        InsertFalls(x, ws[1..]);
        InsertFacts(Descending(), x, ws[1..]);
        var rest := Insert(Descending(), x, ws[1..]);
        assert forall i :: 0 <= i < |rest| ==> rest[i] in rest;
      }
    }
  }

  lemma {:induction false} SortFalls(ws: seq<int>)
    ensures Falls(Sort(Descending(), ws))
  {
    if ws != [] {
      SortFalls(ws[1..]);
      InsertFalls(ws[0], Sort(Descending(), ws[1..]));
    }
  }

  /** A choice of at most n holders, each taken at most as often as it occurs. */
  ghost predicate Selects(chosen: seq<int>, ws: seq<int>, n: nat) {
    |chosen| <= n && multiset(chosen) <= multiset(ws)
  }

  lemma {:induction false} TotalWithout(ws: seq<int>, i: nat)
    requires i < |ws|
    ensures Total(ws) == ws[i] + Total(RemoveAt(ws, i))
  {
    if i == 0 {
      assert RemoveAt(ws, 0) == ws[1..];
    } else {
      TotalWithout(ws[1..], i - 1);
      assert RemoveAt(ws, i)[1..] == RemoveAt(ws[1..], i - 1);
    }
  }

  /** Giving up one chosen weight for the greatest, itself if it was chosen, leaves a choice among the others. */
  lemma Exchange(ws: seq<int>, chosen: seq<int>, n: nat, i: nat)
    requires Selects(chosen, ws, n) && ws != [] && i < |chosen|
    requires ws[0] in chosen ==> chosen[i] == ws[0]
    ensures Selects(RemoveAt(chosen, i), ws[1..], n - 1)
  {
    var taken, rest := chosen[i], RemoveAt(chosen, i);
    assert taken in multiset(chosen) && (ws[0] in multiset(chosen) ==> taken == ws[0]);
    RemoveAtCounts(chosen, i);
    RemoveAtCounts(ws, 0);
    assert RemoveAt(ws, 0) == ws[1..];
    WithoutTop(multiset(chosen), multiset(ws), ws[0], taken);
    assert multiset(rest) == multiset(chosen) - multiset{taken};
    assert multiset(ws[1..]) == multiset(ws) - multiset{ws[0]};
  }

  lemma ChosenAmong(ws: seq<int>, chosen: seq<int>, n: nat)
    requires Selects(chosen, ws, n)
    ensures forall c :: c in chosen ==> c in ws
  {
    forall c | c in chosen ensures c in ws {
      assert c in multiset(chosen);
      assert c in multiset(ws);
    }
  }

  lemma TailNonNegative(ws: seq<int>)
    requires NonNegative(ws) && ws != []
    ensures NonNegative(ws[1..])
  {
    assert forall w :: w in ws[1..] ==> w in ws;
  }

  lemma TakeHead(ws: seq<int>, n: nat)
    requires ws != [] && n > 0
    ensures Total(Take(ws, n)) == ws[0] + Total(Take(ws[1..], n - 1))
  {
    assert Take(ws, n)[1..] == Take(ws[1..], n - 1);
  }

  /** Trading a chosen weight for the greatest and choosing the rest among the others is no worse. */
  lemma TradeUp(ws: seq<int>, chosen: seq<int>, n: nat, i: nat)
    requires ws != [] && n > 0 && i < |chosen| && chosen[i] <= ws[0]
    requires Total(RemoveAt(chosen, i)) <= Total(Take(ws[1..], n - 1))
    ensures Total(chosen) <= Total(Take(ws, n))
  {
    TotalWithout(chosen, i);
    TakeHead(ws, n);
  }

  lemma {:induction false} TakeIsBest(ws: seq<int>, chosen: seq<int>, n: nat)
    requires Falls(ws) && NonNegative(ws) && Selects(chosen, ws, n)
    ensures Total(chosen) <= Total(Take(ws, n))
    decreases |ws|
  {
    if chosen == [] {
      PrefixNonNegative(ws, n);
    } else {
      ChosenAmong(ws, chosen, n);
      assert chosen[0] in chosen;
      HeadIsGreatest(ws);
      var i := if ws[0] in chosen then IndexOf(chosen, ws[0]) else 0;
      assert chosen[i] in chosen;
      Exchange(ws, chosen, n, i);
      TailNonNegative(ws);
      TakeIsBest(ws[1..], RemoveAt(chosen, i), n - 1);
      TradeUp(ws, chosen, n, i);
    }
  }

  lemma WithoutTop(a: multiset<int>, b: multiset<int>, top: int, taken: int)
    requires a <= b && taken in a && (top in a ==> taken == top)
    ensures a - multiset{taken} <= b - multiset{top}
  {
  }

  lemma PrefixNonNegative(ws: seq<int>, n: nat)
    requires NonNegative(ws)
    ensures Total(Take(ws, n)) >= 0
  {
    assert forall w :: w in Take(ws, n) ==> w in ws;
    TotalNonNegative(Take(ws, n));
  }

  /** The top n hold the most any n holders can hold; some n holders (or all, if fewer) hold exactly that. */
  lemma TopSumIsMaximum(ws: seq<int>, n: nat)
    requires NonNegative(ws)
    ensures forall chosen :: Selects(chosen, ws, n) ==> Total(chosen) <= TopSum(ws, n)
    ensures exists chosen :: Selects(chosen, ws, n) && Total(chosen) == TopSum(ws, n)
  {
    var sorted := Sort(Descending(), ws);
    SortFacts(Descending(), ws);
    SortFalls(ws);
    forall chosen | Selects(chosen, ws, n) ensures Total(chosen) <= TopSum(ws, n) {
      TakeIsBest(sorted, chosen, n);
    }
    var best := Take(sorted, n);
    assert sorted == best + sorted[|best|..];
    assert Selects(best, ws, n);
  }

  /** More of the top never holds less, and from n == |ws| on it is the whole total. */
  lemma TopSumGrows(ws: seq<int>, n: nat, n': nat)
    requires NonNegative(ws) && n <= n'
    ensures 0 <= TopSum(ws, n) <= TopSum(ws, n') <= Total(ws)
    ensures n >= |ws| ==> TopSum(ws, n) == Total(ws)
  {
    var sorted := Sort(Descending(), ws);
    SortFacts(Descending(), ws);
    SortKeepsTotal(Descending(), ws);
    PrefixGrows(sorted, n, n');
    PrefixGrows(sorted, n', |ws|);
    PrefixNonNegative(sorted, n);
  }

  lemma PrefixGrows(ws: seq<int>, n: nat, n': nat)
    requires NonNegative(ws) && (n <= n' || n' >= |ws|)
    ensures Total(Take(ws, n)) <= Total(Take(ws, n'))
  {
    var a, b := Take(ws, n), Take(ws, n');
    assert b == a + b[|a|..];
    assert forall w :: w in b[|a|..] ==> w in ws;
    TotalAppend(a, b[|a|..]);
    TotalNonNegative(b[|a|..]);
  }

  // ---- The whole row ----

  datatype Row = Row(gini: Ratio, n1: Ratio, n5: Ratio, n10: Ratio, n20: Ratio, effectiveCount: Ratio)

  function ConcentrationRow(weights: seq<int>, total: int): Row {
    Row(Gini(Sort(Ascending(), weights)),
        TopShare(weights, 1, total), TopShare(weights, 5, total), TopShare(weights, 10, total),
        TopShare(weights, 20, total), EffectiveCount(weights))
  }

  predicate AtMost(a: Ratio, b: Ratio) {
    a.num * b.den <= b.num * a.den
  }

  lemma {:induction false} SquaresBelowTop(ws: seq<int>, top: int)
    requires NonNegative(ws) && forall w :: w in ws ==> w <= top
    ensures SumOfSquares(ws) <= top * Total(ws)
  {
    if ws != [] {
      var w, rest := ws[0], ws[1..];
      assert w in ws && forall v :: v in rest ==> v in ws;
      SquaresBelowTop(rest, top);
      SquareBelow(w, top);
      Distributes(top, w, Total(rest));
    }
  }

  lemma SquareBelow(w: int, top: int)
    requires 0 <= w <= top
    ensures w * w <= top * w
  {
  }

  lemma TopHolder(ws: seq<int>)
    requires NonNegative(ws) && ws != []
    ensures forall w :: w in ws ==> w <= TopSum(ws, 1)
  {
    TopSumIsMaximum(ws, 1);
    forall w | w in ws ensures w <= TopSum(ws, 1) {
      assert multiset([w]) <= multiset(ws);
      assert Selects([w], ws, 1) && Total([w]) == w;
    }
  }

  /** Cross-multiplied: a fraction with the same positive denominator compares by its numerator. */
  lemma SameDenominator(a: int, b: int, den: int)
    requires a <= b && den > 0
    ensures AtMost(Ratio(a, den), Ratio(b, den))
  {
  }

  /** The top share is at least one over the effective count. */
  lemma TopShareAgainstCount(ws: seq<int>)
    requires NonNegative(ws) && Total(ws) > 0
    ensures var count := EffectiveCount(ws);
            AtMost(Ratio(count.den, count.num), TopShare(ws, 1, Total(ws)))
  {
    var top, sq, t := TopSum(ws, 1), SumOfSquares(ws), Total(ws);
    TopHolder(ws);
    SquaresBelowTop(ws, top);
    SquaresPositive(ws);
    ScaleBound(sq, top, t);
  }

  lemma ScaleBound(sq: int, top: int, t: int)
    requires sq <= top * t && t > 0
    ensures sq * t <= top * (t * t)
  {
    assert sq * t <= (top * t) * t;
  }

  /**
   A row over any positive total has climbing top shares, which stay at most 1 when the total covers the weights.
   Over the sum of the weights, which is what the query delivers, the top share is at least one over the effective
   count. Gini and count agree on perfect equality.
   */
  lemma RowIsCoherent(ws: seq<int>, total: int)
    requires NonNegative(ws) && Total(ws) > 0 && total > 0
    ensures var row := ConcentrationRow(ws, total);
            && AtMost(row.n1, row.n5) && AtMost(row.n5, row.n10) && AtMost(row.n10, row.n20)
            && (Total(ws) <= total ==> AtMost(row.n20, Ratio(1, 1)))
            && (total == Total(ws) ==> AtMost(Ratio(row.effectiveCount.den, row.effectiveCount.num), row.n1))
            && (row.gini.num == 0 <==> row.effectiveCount.num == |ws| * row.effectiveCount.den)
  {
    TopSumGrows(ws, 1, 5);
    TopSumGrows(ws, 5, 10);
    TopSumGrows(ws, 10, 20);
    SameDenominator(TopSum(ws, 1), TopSum(ws, 5), total);
    SameDenominator(TopSum(ws, 5), TopSum(ws, 10), total);
    SameDenominator(TopSum(ws, 10), TopSum(ws, 20), total);
    TopShareAgainstCount(ws);
    EffectiveCountRange(ws);
    GiniExtremes(ws);
  }

  // ---- The row in plain terms ----

  /** The share of the total that the k largest holders have together. */
  ghost predicate IsTopShare(share: Ratio, ws: seq<int>, k: nat, total: int) {
    if total == 0 then share == Ratio(0, 1)
    else
      && share.den == total
      && (exists chosen :: Selects(chosen, ws, k) && Total(chosen) == share.num)
      && (forall chosen :: Selects(chosen, ws, k) ==> Total(chosen) <= share.num)
  }

  lemma TopShareIs(ws: seq<int>, k: nat, total: int)
    requires NonNegative(ws)
    ensures IsTopShare(TopShare(ws, k, total), ws, k, total)
  {
    TopSumIsMaximum(ws, k);
  }

  /**
   The row's columns: the sum of absolute differences over n times the sum, the shares of the largest one, five, ten and
   twenty holders, and the squared sum over the sum of squares; each 0 where there is nothing to divide by.
   */
  lemma RowInPlainTerms(ws: seq<int>, total: int)
    requires NonNegative(ws)
    ensures var row := ConcentrationRow(ws, total);
            && row.gini == (if |ws| <= 1 || Total(ws) == 0 then Ratio(0, 1) else Ratio(Spread(ws), |ws| * Total(ws)))
            && IsTopShare(row.n1, ws, 1, total) && IsTopShare(row.n5, ws, 5, total)
            && IsTopShare(row.n10, ws, 10, total) && IsTopShare(row.n20, ws, 20, total)
            && row.effectiveCount ==
               if Total(ws) == 0 then Ratio(0, 1) else Ratio(Total(ws) * Total(ws), SumOfSquares(ws))
  {
    GiniIsTextbook(ws);
    TopShareIs(ws, 1, total);
    TopShareIs(ws, 5, total);
    TopShareIs(ws, 10, total);
    TopShareIs(ws, 20, total);
    if Total(ws) != 0 {
      SquaresPositive(ws);
    }
  }
}
