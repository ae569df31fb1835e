/**
 Timestamps as Date.prototype.toISOString writes them, and why comparing the texts compares the times.
 */
module IsoTime {
  import opened Calendar

  const DIGITS := "0123456789"

  /** n in decimal, padded with zeros to a fixed width. */
  function Digits(n: int, width: nat): (text: string)
    ensures |text| == width
    decreases width
  {
    if width == 0 then "" else Digits(n / 10, width - 1) + [DIGITS[n % 10]]
  }

  function PowerOfTen(width: nat): (p: nat)
    ensures p > 0
  {
    if width == 0 then 1 else 10 * PowerOfTen(width - 1)
  }

  /** Character by character; a proper prefix comes first. */
  function Lex(a: string, b: string): int {
    if a == [] || b == [] then |a| - |b|
    else if a[0] != b[0] then (if a[0] < b[0] then -1 else 1)
    else Lex(a[1..], b[1..])
  }

  predicate SameSign(a: int, b: int) {
    (a < 0 <==> b < 0) && (a > 0 <==> b > 0)
  }

  lemma {:induction false} LexAppend(p: string, q: string, x: string, y: string)
    requires |p| == |q|
    ensures Lex(p + x, q + y) == if Lex(p, q) != 0 then Lex(p, q) else Lex(x, y)
  {
    if p == [] {
      assert p + x == x && q + y == y;
    } else {
      assert (p + x)[1..] == p[1..] + x && (q + y)[1..] == q[1..] + y;
      LexAppend(p[1..], q[1..], x, y);
    }
  }

  lemma DigitsAscend(i: nat, j: nat)
    requires i < 10 && j < 10
    ensures SameSign(Lex([DIGITS[i]], [DIGITS[j]]), i - j)
  {
    assert DIGITS == ['0', '1', '2', '3', '4', '5', '6', '7', '8', '9'];
  }

  /** Numbers that fit the width compare as their padded texts do. */
  lemma {:induction false} DigitsOrder(m: int, n: int, width: nat)
    requires 0 <= m < PowerOfTen(width) && 0 <= n < PowerOfTen(width)
    ensures SameSign(Lex(Digits(m, width), Digits(n, width)), m - n)
  {
    if width > 0 {
      DigitsOrder(m / 10, n / 10, width - 1);
      LexAppend(Digits(m / 10, width - 1), Digits(n / 10, width - 1), [DIGITS[m % 10]], [DIGITS[n % 10]]);
      DigitsAscend(m % 10, n % 10);
    }
  }

  /** Adding a fixed-width group and its separator orders by the group where the texts before it agree. */
  lemma GroupOrder(p: string, q: string, before: int, m: int, n: int, width: nat, separator: char)
    requires |p| == |q| && SameSign(Lex(p, q), before)
    requires 0 <= m < PowerOfTen(width) && 0 <= n < PowerOfTen(width)
    ensures SameSign(Lex(p + Digits(m, width) + [separator], q + Digits(n, width) + [separator]),
                     if before != 0 then before else m - n)
  {
    DigitsOrder(m, n, width);
    LexAppend(p, q, Digits(m, width), Digits(n, width));
    LexAppend(p + Digits(m, width), q + Digits(n, width), [separator], [separator]);
  }

  const HOUR_MS := 3600000
  const MINUTE_MS := 60000
  const SECOND_MS := 1000

  /** Years 0 to 9999, which toISOString writes with four digits. */
  predicate FourDigitYear(ms: int) {
    0 <= YearOf(DayOf(ms)) <= 9999
  }

  function DateText(day: int): (text: string)
    ensures |text| == 11
  {
    Digits(YearOf(day), 4) + "-" + Digits(MonthOf(day) % 12 + 1, 2) + "-" + Digits(DateOf(day), 2) + "T"
  }

  function ClockText(hour: int, minute: int, second: int, milli: int): (text: string)
    ensures |text| == 13
  {
    Digits(hour, 2) + ":" + Digits(minute, 2) + ":" + Digits(second, 2) + "." + Digits(milli, 3) + "Z"
  }

  function TimeText(ms: int): string {
    ClockText(ms / HOUR_MS % 24, ms / MINUTE_MS % 60, ms / SECOND_MS % 60, ms % SECOND_MS)
  }

  /** YYYY-MM-DDTHH:mm:ss.sssZ */
  function IsoText(ms: int): (text: string)
    requires FourDigitYear(ms)
    ensures |text| == 24
  {
    DateText(DayOf(ms)) + TimeText(ms)
  }

  lemma PowersOfTen()
    ensures PowerOfTen(2) == 100 && PowerOfTen(3) == 1000 && PowerOfTen(4) == 10000
  {
    assert PowerOfTen(1) == 10;
  }

  lemma DateTextOrder(a: int, b: int)
    requires 0 <= YearOf(a) <= 9999 && 0 <= YearOf(b) <= 9999
    ensures SameSign(Lex(DateText(a), DateText(b)), a - b)
  {
    PowersOfTen();
    var years := YearOf(a) - YearOf(b);
    GroupOrder("", "", 0, YearOf(a), YearOf(b), 4, '-');
    var y, y' := Digits(YearOf(a), 4) + "-", Digits(YearOf(b), 4) + "-";
    assert "" + Digits(YearOf(a), 4) == Digits(YearOf(a), 4) && "" + Digits(YearOf(b), 4) == Digits(YearOf(b), 4);
    var m, m' := MonthOf(a) % 12 + 1, MonthOf(b) % 12 + 1;
    GroupOrder(y, y', years, m, m', 2, '-');
    var months := if years != 0 then years else m - m';
    GroupOrder(y + Digits(m, 2) + "-", y' + Digits(m', 2) + "-", months, DateOf(a), DateOf(b), 2, 'T');
    DaysOrderAsDates(a, b);
    DaysOrderAsDates(b, a);
  }

  /** Reading on by one unit: the coarser count orders first, then the remainder. */
  lemma RemainderOrder(a: int, b: int, base: int)
    requires base > 0
    ensures SameSign(a - b, if a / base != b / base then a / base - b / base else a % base - b % base)
  {
    assert a == base * (a / base) + a % base && b == base * (b / base) + b % base;
    if a / base < b / base {
      assert base * (a / base + 1) <= base * (b / base);
    } else if a / base > b / base {
      assert base * (b / base + 1) <= base * (a / base);
    }
  }

  lemma Coarser(ms: int)
    ensures ms / HOUR_MS / 24 == DayOf(ms)
    ensures ms / MINUTE_MS / 60 == ms / HOUR_MS && ms / SECOND_MS / 60 == ms / MINUTE_MS
  {
  }

  lemma TimeOrder(a: int, b: int)
    ensures var days := DayOf(a) - DayOf(b);
            var hours := if days != 0 then days else a / HOUR_MS % 24 - b / HOUR_MS % 24;
            var minutes := if hours != 0 then hours else a / MINUTE_MS % 60 - b / MINUTE_MS % 60;
            var seconds := if minutes != 0 then minutes else a / SECOND_MS % 60 - b / SECOND_MS % 60;
            SameSign(a - b, if seconds != 0 then seconds else a % SECOND_MS - b % SECOND_MS)
  {
    Coarser(a);
    Coarser(b);
    RemainderOrder(a / HOUR_MS, b / HOUR_MS, 24);
    RemainderOrder(a / MINUTE_MS, b / MINUTE_MS, 60);
    RemainderOrder(a / SECOND_MS, b / SECOND_MS, 60);
    RemainderOrder(a, b, SECOND_MS);
  }

  lemma ClockOrder(p: string, q: string, before: int, h: nat, h': nat, m: nat, m': nat, s: nat, s': nat, f: nat, f': nat)
    requires |p| == |q| && SameSign(Lex(p, q), before)
    requires h < 24 && h' < 24 && m < 60 && m' < 60 && s < 60 && s' < 60 && f < 1000 && f' < 1000
    ensures var hours := if before != 0 then before else h - h';
            var minutes := if hours != 0 then hours else m - m';
            var seconds := if minutes != 0 then minutes else s - s';
            SameSign(Lex(p + ClockText(h, m, s, f), q + ClockText(h', m', s', f')),
                     if seconds != 0 then seconds else f - f')
  {
    PowersOfTen();
    GroupOrder(p, q, before, h, h', 2, ':');
    var hours := if before != 0 then before else h - h';
    var p1, q1 := p + Digits(h, 2) + ":", q + Digits(h', 2) + ":";
    GroupOrder(p1, q1, hours, m, m', 2, ':');
    var minutes := if hours != 0 then hours else m - m';
    var p2, q2 := p1 + Digits(m, 2) + ":", q1 + Digits(m', 2) + ":";
    GroupOrder(p2, q2, minutes, s, s', 2, '.');
    var seconds := if minutes != 0 then minutes else s - s';
    var p3, q3 := p2 + Digits(s, 2) + ".", q2 + Digits(s', 2) + ".";
    GroupOrder(p3, q3, seconds, f, f', 3, 'Z');
    ClockTextSplits(p, h, m, s, f);
    ClockTextSplits(q, h', m', s', f');
  }

  lemma Associate(p: string, x: string, y: string)
    ensures p + (x + y) == (p + x) + y
  {
  }

  lemma ClockTextSplits(p: string, h: int, m: int, s: int, f: int)
    ensures p + ClockText(h, m, s, f) ==
            (((p + Digits(h, 2) + ":") + Digits(m, 2) + ":") + Digits(s, 2) + ".") + Digits(f, 3) + "Z"
  {
    var x1 := Digits(h, 2);
    var x2 := x1 + ":";
    var x3 := x2 + Digits(m, 2);
    var x4 := x3 + ":";
    var x5 := x4 + Digits(s, 2);
    var x6 := x5 + ".";
    var x7 := x6 + Digits(f, 3);
    Associate(p, x7, "Z");
    Associate(p, x6, Digits(f, 3));
    Associate(p, x5, ".");
    Associate(p, x4, Digits(s, 2));
    Associate(p, x3, ":");
    Associate(p, x2, Digits(m, 2));
    Associate(p, x1, ":");
  }

  /** Comparing two timestamps' texts character by character compares the times. */
  lemma IsoTextOrder(a: int, b: int)
    requires FourDigitYear(a) && FourDigitYear(b)
    ensures SameSign(Lex(IsoText(a), IsoText(b)), a - b)
  {
    var days := DayOf(a) - DayOf(b);
    DateTextOrder(DayOf(a), DayOf(b));
    ClockOrder(DateText(DayOf(a)), DateText(DayOf(b)), days, a / HOUR_MS % 24, b / HOUR_MS % 24,
               a / MINUTE_MS % 60, b / MINUTE_MS % 60, a / SECOND_MS % 60, b / SECOND_MS % 60,
               a % SECOND_MS, b % SECOND_MS);
    TimeOrder(a, b);
  }

  lemma February2000(y: int)
    requires y == 2000
    ensures MonthStart(12 * y + 1) == 10988 && MonthStart(12 * y + 2) == 11017
  {
    YearsStartWhereTheFormulaSays(y);
    MonthStep(12 * y);
    MonthStep(12 * y + 1);
    LengthInYear(y, 0);
    LengthInYear(y, 1);
  }

  lemma LeapDay(y: int, day: int)
    requires y == 2000 && day == 11016
    ensures MonthOf(day) == 12 * y + 1 && DateOf(day) == 29
  {
    February2000(y);
    MonthUnique(day, 12 * y + 1);
  }

  lemma OneMoreDigit(n: int, rest: int, digit: int, width: nat)
    requires n == 10 * rest + digit && 0 <= digit < 10
    ensures Digits(n, width + 1) == Digits(rest, width) + [DIGITS[digit]]
  {
  }

  lemma TwoDigits(n: int, a: int, b: int)
    requires n == 10 * a + b && 0 <= a < 10 && 0 <= b < 10
    ensures Digits(n, 2) == [DIGITS[a], DIGITS[b]]
  {
    OneMoreDigit(n, a, b, 1);
    OneMoreDigit(a, 0, a, 0);
  }

  lemma ThreeDigits(n: int, a: int, b: int, c: int)
    requires n == 100 * a + 10 * b + c && 0 <= a < 10 && 0 <= b < 10 && 0 <= c < 10
    ensures Digits(n, 3) == [DIGITS[a], DIGITS[b], DIGITS[c]]
  {
    var high := 10 * a + b;
    assert n == 10 * high + c;
    OneMoreDigit(n, high, c, 2);
    TwoDigits(high, a, b);
    assert Digits(n, 3) == Digits(high, 2) + [DIGITS[c]];
    assert [DIGITS[a], DIGITS[b]] + [DIGITS[c]] == [DIGITS[a], DIGITS[b], DIGITS[c]];
  }

  lemma DateTextOfLeapDay(y: int, day: int)
    requires y == 2000 && day == 11016
    ensures YearOf(day) == y && DateText(day) == "2000-02-29T"
  {
    LeapDay(y, day);
    OneMoreDigit(y, 200, 0, 3);
    ThreeDigits(200, 2, 0, 0);
    TwoDigits(2, 0, 2);
    TwoDigits(29, 2, 9);
  }

  lemma ClockTextOfNoon(h: int, m: int, s: int, f: int)
    requires h == 12 && m == 1 && s == 2 && f == 3
    ensures ClockText(h, m, s, f) == "12:01:02.003Z"
  {
    TwoDigits(h, 1, 2);
    TwoDigits(m, 0, 1);
    TwoDigits(s, 0, 2);
    ThreeDigits(f, 0, 0, 3);
  }

  lemma NoonFields(hours: int, minutes: int, seconds: int)
    requires hours == 264396 && minutes == 15863761 && seconds == 951825662
    ensures hours % 24 == 12 && minutes % 60 == 1 && seconds % 60 == 2
  {
  }

  /** A known timestamp: noon, one minute, two seconds and three milliseconds into 29 February 2000. */
  lemma IsoTextExample(ms: int)
    requires ms == 951825662003
    ensures FourDigitYear(ms) && IsoText(ms) == "2000-02-29T" + "12:01:02.003Z"
  {
    assert DayOf(ms) == 11016;
    assert ms / HOUR_MS == 264396 && ms / MINUTE_MS == 15863761 && ms / SECOND_MS == 951825662;
    DateTextOfLeapDay(2000, DayOf(ms));
    NoonFields(ms / HOUR_MS, ms / MINUTE_MS, ms / SECOND_MS);
    assert ms % SECOND_MS == ms - 1000 * (ms / SECOND_MS);
    ClockTextOfNoon(ms / HOUR_MS % 24, ms / MINUTE_MS % 60, ms / SECOND_MS % 60, ms % SECOND_MS);
  }
}
