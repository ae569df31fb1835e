/**
 Shares in basis points, rounded down: `shareOf` for the leaderboard and `bigintPct` for the tally are the
 same integer division, taken here before its final conversion to a decimal fraction.
 */
module BasisPoints {
  function Bps(part: nat, total: nat): (r: nat)
    ensures total == 0 ==> r == 0
    ensures total > 0 ==> total * r <= 10000 * part < total * r + total
  {
    if total == 0 then 0
    else
      var q := part * 10000 / total;
      assert part * 10000 == total * q + part * 10000 % total;
      q
  }

  function Sum(parts: seq<nat>): nat {
    if parts == [] then 0 else parts[0] + Sum(parts[1..])
  }

  function SumOfBps(parts: seq<nat>, total: nat): nat {
    if parts == [] then 0 else Bps(parts[0], total) + SumOfBps(parts[1..], total)
  }

  function Nonzero(parts: seq<nat>): nat {
    if parts == [] then 0 else (if parts[0] > 0 then 1 else 0) + Nonzero(parts[1..])
  }

  lemma Distribute(a: nat, b: nat, c: nat)
    ensures a * (b + c) == a * b + a * c
  {
  }

  lemma CancelBelow(total: nat, x: nat, y: nat)
    requires total > 0 && total * x < total * y
    ensures x < y
  {
    if x >= y {
      Distribute(total, y, x - y);
    }
  }

  lemma {:induction false} Scaled(parts: seq<nat>, total: nat)
    requires total > 0
    ensures total * SumOfBps(parts, total) <= 10000 * Sum(parts)
    ensures 10000 * Sum(parts) <= total * (SumOfBps(parts, total) + Nonzero(parts)) - Nonzero(parts)
  {
    if parts != [] {
      var b, rest := Bps(parts[0], total), SumOfBps(parts[1..], total);
      Scaled(parts[1..], total);
      Distribute(total, b, rest);
      Distribute(total, b + rest, Nonzero(parts));
      Distribute(total, rest, Nonzero(parts[1..]));
      Distribute(total, 1, Nonzero(parts[1..]));
      if parts[0] == 0 {
        BpsOfNothing(total);
      }
    }
  }

  lemma BpsOfNothing(total: nat)
    ensures Bps(0, total) == 0
  {
  }

  /** A larger part never has a smaller share. */
  lemma BpsMonotone(part: nat, part': nat, total: nat)
    requires part <= part'
    ensures Bps(part, total) <= Bps(part', total)
  {
    if total > 0 && Bps(part, total) > Bps(part', total) {
      Distribute(total, Bps(part', total), Bps(part, total) - Bps(part', total));
      Distribute(total, 1, Bps(part, total) - Bps(part', total) - 1);
    }
  }

  /** Parts of a whole never show more than the whole. */
  lemma SharesAtMostAll(parts: seq<nat>, total: nat)
    requires Sum(parts) <= total
    ensures SumOfBps(parts, total) <= 10000
  {
    if total == 0 {
      NoTotal(parts);
    } else {
      Scaled(parts, total);
      CancelBelow(total, SumOfBps(parts, total), 10001);
    }
  }

  lemma {:induction false} NoTotal(parts: seq<nat>)
    ensures SumOfBps(parts, 0) == 0
  {
    if parts != [] {
      NoTotal(parts[1..]);
    }
  }

  /** Parts that make up the whole miss it by less than one basis point for each nonzero part. */
  lemma SharesNearlyAll(parts: seq<nat>, total: nat)
    requires Sum(parts) == total > 0
    ensures 10000 - (Nonzero(parts) - 1) <= SumOfBps(parts, total) <= 10000
  {
    SharesAtMostAll(parts, total);
    Scaled(parts, total);
    NonzeroPart(parts);
    CancelBelow(total, 10000, SumOfBps(parts, total) + Nonzero(parts));
  }

  lemma {:induction false} NonzeroPart(parts: seq<nat>)
    requires Sum(parts) > 0
    ensures Nonzero(parts) > 0
  {
    if parts[0] == 0 {
      NonzeroPart(parts[1..]);
    }
  }
}
