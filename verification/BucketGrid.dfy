/**
 The analytics bucket grid: the starts of the days, Sunday weeks or months that cover a time range, and the
 estimate of its size that guards the request.
 */
module BucketGrid {
  import opened Calendar

  datatype Grain = Daily | Weekly | Monthly

  predicate Aligned(grain: Grain, ms: int) {
    ms % DAY_MS == 0 &&
    match grain
    case Daily => true
    case Weekly => WeekDay(DayOf(ms)) == 0
    case Monthly => MonthStart(MonthOf(DayOf(ms))) == DayOf(ms)
  }

  /** The boundary after an aligned one. */
  function Next(grain: Grain, ms: int): int {
    match grain
    case Daily => ms + DAY_MS
    case Weekly => ms + 7 * DAY_MS
    case Monthly => MonthStart(MonthOf(DayOf(ms)) + 1) * DAY_MS
  }

  /**
   The grid's meaning: aligned starts, each the successor of the one before, the first bucket holding `from`
   and the last holding `till`.
   */
  ghost predicate Covers(grain: Grain, from: int, till: int, grid: seq<int>) {
    && grid != []
    && (forall i :: 0 <= i < |grid| ==> Aligned(grain, grid[i]))
    && (forall i :: 0 < i < |grid| ==> grid[i] == Next(grain, grid[i - 1]))
    && grid[0] <= from < Next(grain, grid[0])
    && grid[|grid| - 1] <= till < Next(grain, grid[|grid| - 1])
  }

  lemma NextFacts(grain: Grain, ms: int)
    requires Aligned(grain, ms)
    ensures ms < Next(grain, ms) && Aligned(grain, Next(grain, ms))
    ensures grain.Monthly? ==> MonthOf(DayOf(Next(grain, ms))) == MonthOf(DayOf(ms)) + 1
  {
    var m := MonthOf(DayOf(ms));
    MonthStep(m);
    MonthStep(m + 1);
    MonthUnique(MonthStart(m + 1), m + 1);
    assert DayOf(MonthStart(m + 1) * DAY_MS) == MonthStart(m + 1);
  }

  function StartDay(grain: Grain, from: int): int {
    match grain
    case Daily => DayOf(from)
    case Weekly => DayOf(from) - WeekDay(DayOf(from))
    case Monthly => MonthStart(MonthOf(DayOf(from)))
  }

  lemma StartFacts(grain: Grain, from: int)
    ensures var start := StartDay(grain, from) * DAY_MS;
            Aligned(grain, start) && start <= from < Next(grain, start)
  {
    var day := DayOf(from);
    var start := StartDay(grain, from);
    assert DayOf(start * DAY_MS) == start;
    match grain
    case Daily =>
    case Weekly => assert (start + 4) % 7 == 0;
    case Monthly =>
      MonthStep(MonthOf(day));
      MonthUnique(start, MonthOf(day));
  }

  /** The loop steps a date cursor from the aligned start until it passes `till`. */
  method BucketGrid(from: int, till: int, grain: Grain) returns (out: seq<int>)
    ensures till < from ==> out == []
    ensures from <= till ==> Covers(grain, from, till, out)
  {
    if till < from {
      return [];
    }
    StartFacts(grain, from);
    var cursor := StartDay(grain, from) * DAY_MS;
    out := [];
    while cursor <= till
      invariant Aligned(grain, cursor)
      invariant out == [] ==> cursor <= from < Next(grain, cursor)
      invariant out != [] ==> out[0] <= from < Next(grain, out[0]) && out[|out| - 1] <= till
      invariant out != [] ==> cursor == Next(grain, out[|out| - 1])
      invariant forall i :: 0 <= i < |out| ==> Aligned(grain, out[i])
      invariant forall i :: 0 < i < |out| ==> out[i] == Next(grain, out[i - 1])
      decreases till - cursor
    {
      NextFacts(grain, cursor);
      out := out + [cursor];
      match grain {
        case Daily => cursor := cursor + DAY_MS;
        case Weekly => cursor := cursor + 7 * DAY_MS;
        case Monthly => cursor := MonthStart(MonthOf(DayOf(cursor)) + 1) * DAY_MS;
      }
    }
  }

  /** estimateBucketCount. */
  function Estimate(from: int, till: int, grain: Grain): int {
    if till < from then 0
    else
      match grain
      case Daily => (till - from) / DAY_MS + 1
      case Weekly => (till - from) / (7 * DAY_MS) + 1
      case Monthly =>
        (YearOf(DayOf(till)) - YearOf(DayOf(from))) * 12
        + (MonthOf(DayOf(till)) % 12 - MonthOf(DayOf(from)) % 12) + 1
  }

  lemma {:induction false} GridClimbs(grain: Grain, from: int, till: int, grid: seq<int>, i: nat, j: nat)
    requires Covers(grain, from, till, grid) && i < j < |grid|
    ensures grid[i] < grid[j]
    decreases j
  {
    NextFacts(grain, grid[j - 1]);
    if i < j - 1 {
      GridClimbs(grain, from, till, grid, i, j - 1);
    }
  }

  /** Where the bucket numbered k stands, counted from the first. */
  lemma {:induction false} BucketAt(grain: Grain, from: int, till: int, grid: seq<int>, k: nat)
    requires Covers(grain, from, till, grid) && k < |grid|
    ensures grain.Daily? ==> grid[k] == grid[0] + k * DAY_MS
    ensures grain.Weekly? ==> grid[k] == grid[0] + k * (7 * DAY_MS)
    ensures grain.Monthly? ==> MonthOf(DayOf(grid[k])) == MonthOf(DayOf(grid[0])) + k
  {
    if k > 0 {
      BucketAt(grain, from, till, grid, k - 1);
      NextFacts(grain, grid[k - 1]);
    }
  }

  /** Both ends of a month bucket pin the month of the times inside it. */
  lemma InBucketMonth(start: int, ms: int)
    requires Aligned(Monthly, start) && start <= ms < Next(Monthly, start)
    ensures MonthOf(DayOf(ms)) == MonthOf(DayOf(start))
  {
    MonthUnique(DayOf(ms), MonthOf(DayOf(start)));
  }

  lemma WholeDays(span: int, lead: int, count: int, unit: int)
    requires unit == DAY_MS || unit == 7 * DAY_MS
    requires 0 <= lead < unit && count * unit <= span + lead < (count + 1) * unit && 0 <= span
    ensures span / unit <= count <= span / unit + 1
  {
  }

  /**
   The grid has exactly the estimated number of months, and of days or weeks at most one more: a range can
   start and end inside a bucket. So the request limit of 1000 bounds the grid by 1001.
   */
  lemma GridSize(grain: Grain, from: int, till: int, grid: seq<int>)
    requires from <= till && Covers(grain, from, till, grid)
    ensures grain.Monthly? ==> |grid| == Estimate(from, till, grain)
    ensures !grain.Monthly? ==> Estimate(from, till, grain) <= |grid| <= Estimate(from, till, grain) + 1
    ensures Estimate(from, till, grain) <= 1000 ==> |grid| <= 1001
  {
    var last := |grid| - 1;
    BucketAt(grain, from, till, grid, last);
    match grain
    case Daily => WholeDays(till - from, from - grid[0], last, DAY_MS);
    case Weekly => WholeDays(till - from, from - grid[0], last, 7 * DAY_MS);
    case Monthly =>
      InBucketMonth(grid[0], from);
      InBucketMonth(grid[last], till);
  }

  /**
   The estimate of days is off by one exactly when `till` stands earlier in its day than `from` does in its own, and
   the estimate of weeks exactly when it stands earlier in its week: the range then reaches into one bucket more
   than it is long.
   */
  lemma GridExceedsEstimateExactlyWhen(grain: Grain, from: int, till: int, grid: seq<int>)
    requires from <= till && Covers(grain, from, till, grid) && !grain.Monthly?
    ensures |grid| == Estimate(from, till, grain) + 1 <==>
            till - StartDay(grain, till) * DAY_MS < from - StartDay(grain, from) * DAY_MS
  {
    var last := |grid| - 1;
    BucketAt(grain, from, till, grid, last);
    FirstIsStart(grain, grid[0], from);
    FirstIsStart(grain, grid[last], till);
    if grain.Daily? {
      OffByOne(till - from, from - grid[0], till - grid[last], last, DAY_MS);
    } else {
      OffByOne(till - from, from - grid[0], till - grid[last], last, 7 * DAY_MS);
    }
  }

  lemma OffByOne(span: int, lead: int, tail: int, count: nat, unit: int)
    requires unit == DAY_MS || unit == 7 * DAY_MS
    requires 0 <= lead < unit && 0 <= tail < unit && span + lead == count * unit + tail && 0 <= span
    ensures count == span / unit + 1 <==> tail < lead
  {
  }

  /** A time lies in one bucket only: its start is where StartDay puts it. */
  lemma FirstIsStart(grain: Grain, start: int, ms: int)
    requires !grain.Monthly? && Aligned(grain, start) && start <= ms < Next(grain, start)
    ensures start == StartDay(grain, ms) * DAY_MS
  {
    StartFacts(grain, ms);
    assert start == DayOf(start) * DAY_MS;
    if grain.Weekly? {
      SameWeek(DayOf(start), DayOf(ms));
    }
  }

  lemma SameWeek(sunday: int, day: int)
    requires WeekDay(sunday) == 0 && sunday <= day < sunday + 7
    ensures sunday == day - WeekDay(day)
  {
  }

  /** The bound of 1001 is met: from the last millisecond of day 0 to the first of day 1000. */
  lemma LargestGrid(grid: seq<int>)
    requires Covers(Daily, DAY_MS - 1, 1000 * DAY_MS, grid)
    ensures Estimate(DAY_MS - 1, 1000 * DAY_MS, Daily) == 1000 && |grid| == 1001
  {
    GridSize(Daily, DAY_MS - 1, 1000 * DAY_MS, grid);
    GridExceedsEstimateExactlyWhen(Daily, DAY_MS - 1, 1000 * DAY_MS, grid);
  }

  // ---- The grid in plain terms ----

  /** 4 January 1970 was a Sunday. */
  lemma WeekDayMeans(day: int)
    ensures WeekDay(day) == 0 <==> (day - 3) % 7 == 0
  {
  }

  /** Days start every 86400000 milliseconds from the epoch, weeks every seven days from Sunday 4 January 1970. */
  lemma DayAndWeekStarts(grain: Grain, from: int, till: int, grid: seq<int>)
    requires Covers(grain, from, till, grid) && !grain.Monthly?
    ensures var step := if grain.Daily? then 86400000 else 604800000;
            var origin := if grain.Daily? then 0 else 3 * 86400000;
            && (forall i :: 0 <= i < |grid| ==> (grid[i] - origin) % step == 0)
            && (forall i :: 0 < i < |grid| ==> grid[i] == grid[i - 1] + step)
            && grid[0] <= from < grid[0] + step && grid[|grid| - 1] <= till < grid[|grid| - 1] + step
  {
    forall i | 0 <= i < |grid|
      ensures grain.Daily? ==> grid[i] % 86400000 == 0
      ensures grain.Weekly? ==> (grid[i] - 3 * 86400000) % 604800000 == 0
    {
      assert Aligned(grain, grid[i]);
      if grain.Weekly? {
        WeekDayMeans(DayOf(grid[i]));
        WholeWeeks(grid[i], DayOf(grid[i]), (DayOf(grid[i]) - 3) / 7);
      }
    }
  }

  lemma WholeWeeks(ms: int, day: int, week: int)
    requires ms == day * 86400000 && day - 3 == 7 * week
    ensures (ms - 3 * 86400000) % 604800000 == 0
  {
    assert ms - 3 * 86400000 == 604800000 * week;
    Multiples(week);
  }

  lemma Multiples(k: int)
    ensures 604800000 * k % 604800000 == 0
  {
  }

  /** Months start at the first of one month after another, in UTC. */
  lemma MonthStarts(from: int, till: int, grid: seq<int>)
    requires Covers(Monthly, from, till, grid)
    ensures var first := MonthOf(DayOf(grid[0]));
            && (forall i :: 0 <= i < |grid| ==> grid[i] == MonthStart(first + i) * 86400000)
            && MonthStart(first) * 86400000 <= from < MonthStart(first + 1) * 86400000
            && MonthStart(first + |grid| - 1) * 86400000 <= till < MonthStart(first + |grid|) * 86400000
  {
    var first := MonthOf(DayOf(grid[0]));
    forall i | 0 <= i < |grid|
      ensures grid[i] == MonthStart(first + i) * 86400000 && Next(Monthly, grid[i]) == MonthStart(first + i + 1) * 86400000
    {
      BucketAt(Monthly, from, till, grid, i);
      assert Aligned(Monthly, grid[i]);
      assert grid[i] == DayOf(grid[i]) * DAY_MS;
    }
    assert first + (|grid| - 1) + 1 == first + |grid|;
  }
}
