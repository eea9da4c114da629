/**
  The pure part of `year_progress`: how far through its calendar year (UTC,
  proleptic Gregorian calendar) a date and hour of day lie, in whole hours,
  as a truncated percentage, and rendered as a 15-cell bar followed by the
  percentage.

  The source computes the percentage and the number of filled cells with
  64-bit floating point and then truncates (`as i64`, `as i32`).  This model
  uses integer floor division instead, `(h * 100) / total` and
  `(p * 15) / 100`; it stands in for the float cast-truncation and does not
  model IEEE doubles.
 */
module YearProgress {
  import Decimal
  import opened Options

  const FILLED: char := '▓'
  const EMPTY: char := '░'
  const BAR_WIDTH: nat := 15

  /** A reading of the UTC clock, to the hour (minutes and seconds are dropped by the source). */
  datatype DateHour = DateHour(year: int, month: int, day: int, hour: int)

  /** The leap-year rule of the proleptic Gregorian calendar. */
  predicate IsLeapYear(y: int) {
    y % 4 == 0 && (y % 100 != 0 || y % 400 == 0)
  }

  function DaysInYear(y: int): (n: nat)
    ensures n == 365 || n == 366
  {
    if IsLeapYear(y) then 366 else 365
  }

  function DaysInMonth(y: int, m: int): (n: nat)
    requires 1 <= m <= 12
    ensures 28 <= n <= 31
    ensures m == 2 ==> (n == 29 <==> IsLeapYear(y))
  {
    if m == 2 then (if IsLeapYear(y) then 29 else 28)
    else if m == 4 || m == 6 || m == 9 || m == 11 then 30
    else 31
  }

  /** Days of year `y` before the first of month `m`; month 13 stands for the next 1 January. */
  function DaysBeforeMonth(y: int, m: int): (n: nat)
    requires 1 <= m <= 13
  {
    [0, 31, 59, 90, 120, 151, 181, 212, 243, 273, 304, 334, 365][m - 1]
      + (if IsLeapYear(y) && m > 2 then 1 else 0)
  }

  /** The cumulative table agrees with the month lengths and sums to the year length. */
  lemma DaysBeforeMonthStep(y: int, m: int)
    requires 1 <= m <= 12
    ensures DaysBeforeMonth(y, m + 1) == DaysBeforeMonth(y, m) + DaysInMonth(y, m)
    ensures DaysBeforeMonth(y, 1) == 0 && DaysBeforeMonth(y, 13) == DaysInYear(y)
  {
  }

  lemma {:induction false} DaysBeforeMonthMonotonic(y: int, m: int, n: int)
    requires 1 <= m <= n <= 13
    ensures DaysBeforeMonth(y, m) <= DaysBeforeMonth(y, n)
    decreases n - m
  {
    if m < n {
      DaysBeforeMonthStep(y, m);
      DaysBeforeMonthMonotonic(y, m + 1, n);
    }
  }

  /** What chrono's `DateTime<Utc>` guarantees of the clock reading. */
  predicate ValidDateHour(t: DateHour) {
    1 <= t.month <= 12 && 1 <= t.day <= DaysInMonth(t.year, t.month) && 0 <= t.hour <= 23
  }

  /**
    Leap years in [0, y) when y >= 0, and minus the leap years in [y, 0)
    when y < 0 (Dafny's `/` by a positive constant is floor division).
   */
  function LeapYearsBefore(y: int): int {
    (y + 3) / 4 - (y + 99) / 100 + (y + 399) / 400
  }

  /** Number of the day 1 January of year `y`, counted from 1 January of year 0. */
  function YearStartDay(y: int): int {
    365 * y + LeapYearsBefore(y)
  }

  /** Day number of a calendar date, on the same count as `YearStartDay`. */
  function DayNumber(y: int, m: int, d: int): int
    requires 1 <= m <= 12
  {
    YearStartDay(y) + DaysBeforeMonth(y, m) + d - 1
  }

  /** A count of multiples of `k` in `LeapYearsBefore` steps by one exactly when `k` divides `y`. */
  lemma MultipleCountStep(y: int, k: int)
    requires k == 4 || k == 100 || k == 400
    ensures (y + k) / k - (y + k - 1) / k == if y % k == 0 then 1 else 0
  {
    if k == 4 {
      assert (y + 4) / 4 - (y + 3) / 4 == if y % 4 == 0 then 1 else 0;
    } else if k == 100 {
      assert (y + 100) / 100 - (y + 99) / 100 == if y % 100 == 0 then 1 else 0;
    } else {
      assert (y + 400) / 400 - (y + 399) / 400 == if y % 400 == 0 then 1 else 0;
    }
  }

  /** The day count from one 1 January to the next is the length of the year. */
  lemma YearStartStep(y: int)
    ensures YearStartDay(y + 1) - YearStartDay(y) == DaysInYear(y)
  {
    MultipleCountStep(y, 4);
    MultipleCountStep(y, 100);
    MultipleCountStep(y, 400);
    var s4 := (y + 4) / 4 - (y + 3) / 4;
    var s100 := (y + 100) / 100 - (y + 99) / 100;
    var s400 := (y + 400) / 400 - (y + 399) / 400;
    assert LeapYearsBefore(y + 1) - LeapYearsBefore(y) == s4 - s100 + s400 by {
      assert (y + 1) + 3 == y + 4 && (y + 1) + 99 == y + 100 && (y + 1) + 399 == y + 400;
    }
    DivisibilityChain(y);
  }

  /** Every multiple of 400 is a multiple of 100, and every multiple of 100 one of 4. */
  lemma DivisibilityChain(y: int)
    ensures y % 400 == 0 ==> y % 100 == 0
    ensures y % 100 == 0 ==> y % 4 == 0
  {
    var r100 := y % 100;
    var q100 := y / 100;
    assert y == 100 * q100 + r100;
    var q400 := y / 400;
    assert y == 400 * q400 + y % 400;
    if y % 400 == 0 {
      assert y == 100 * (4 * q400) + 0;
      MultipleMod(4 * q400, 100);
    }
    if r100 == 0 {
      assert y == 4 * (25 * q100) + 0;
      MultipleMod(25 * q100, 4);
    }
  }

  lemma MultipleMod(m: int, k: int)
    requires k == 4 || k == 100
    ensures (k * m) % k == 0
  {
  }

  /** Whole hours between 00:00 of two dates (`(b - a).num_hours()` on chrono dates). */
  function HoursBetween(y1: int, m1: int, d1: int, y2: int, m2: int, d2: int): (h: int)
    requires 1 <= m1 <= 12 && 1 <= m2 <= 12
    ensures y1 == y2 ==> h == ((DaysBeforeMonth(y2, m2) + d2) - (DaysBeforeMonth(y1, m1) + d1)) * 24
    ensures y2 == y1 + 1 && m1 == m2 && d1 == d2 && m1 <= 2 ==> h == DaysInYear(y1) * 24
  {
    YearStartStep(y1);
    (DayNumber(y2, m2, d2) - DayNumber(y1, m1, d1)) * 24
  }

  /** `total_hours_in_year`: the hours from 1 January of `y` to 1 January of `y + 1`. */
  function TotalHoursInYear(y: int): (total: int)
    ensures total == DaysInYear(y) * 24
    ensures total == if IsLeapYear(y) then 8784 else 8760
  {
    YearStartStep(y);
    HoursBetween(y, 1, 1, y + 1, 1, 1)
  }

  /** The ordinal of the date within its year, 1 for 1 January. */
  function DayOfYear(t: DateHour): (n: int)
    requires ValidDateHour(t)
    ensures 1 <= n <= DaysInYear(t.year)
  {
    DaysBeforeMonthStep(t.year, t.month);
    DaysBeforeMonthMonotonic(t.year, t.month + 1, 13);
    DaysBeforeMonth(t.year, t.month) + t.day
  }

  /**
    Hours from 1 January 00:00 to the start of the current day, plus the
    hour of day; always short of the hours in the year.
   */
  function HoursElapsed(t: DateHour): (h: int)
    requires ValidDateHour(t)
    ensures h == (DayOfYear(t) - 1) * 24 + t.hour
    ensures 0 <= h < TotalHoursInYear(t.year)
  {
    HoursBetween(t.year, 1, 1, t.year, t.month, t.day) + t.hour
  }

  /** Truncated percentage: the largest whole `p` with `p` percent of `total` not above `elapsed`. */
  function Percentage(elapsed: nat, total: nat): (p: nat)
    requires total > 0
    ensures p * total <= elapsed * 100 < (p + 1) * total
  {
    (elapsed * 100) / total
  }

  /** A larger elapsed count never gives a smaller percentage. */
  lemma PercentageMonotonic(a: nat, b: nat, total: nat)
    requires total > 0 && a <= b
    ensures Percentage(a, total) <= Percentage(b, total)
  {
    var pa, pb := Percentage(a, total), Percentage(b, total);
    if pa > pb {
      MulMonotonic(pb + 1, pa, total);
      assert false;
    }
  }

  /** A count short of the total is short of 100 percent. */
  lemma PercentageBelowHundred(elapsed: nat, total: nat)
    requires elapsed < total
    ensures Percentage(elapsed, total) <= 99
  {
    var p := Percentage(elapsed, total);
    if p >= 100 {
      MulMonotonic(100, p, total);
      assert false;
    }
  }

  lemma MulMonotonic(x: nat, y: nat, t: nat)
    requires x <= y
    ensures x * t <= y * t
  {
    assert y * t == x * t + (y - x) * t;
  }

  /** The elapsed part of the year as a truncated percentage; `percentage` at main.rs line 66. */
  function YearPercentage(t: DateHour): (p: nat)
    requires ValidDateHour(t)
    ensures p <= 99
  {
    var total := TotalHoursInYear(t.year);
    PercentageBelowHundred(HoursElapsed(t), total);
    Percentage(HoursElapsed(t), total)
  }

  /** Filled cells for a percentage: the whole part of `p / 100 * 15`. */
  function FillLength(p: nat): (fill: nat)
    ensures fill * 100 <= p * BAR_WIDTH < (fill + 1) * 100
    ensures p < 100 ==> fill < BAR_WIDTH
  {
    (p * BAR_WIDTH) / 100
  }

  function Repeat(c: char, n: nat): (s: string)
    ensures |s| == n
    ensures forall i :: 0 <= i < n ==> s[i] == c
  {
    seq(n, _ => c)
  }

  /** `format!("{:<w$}")` with a fill character: pad on the right up to width `w`, never truncate. */
  function PadRight(s: string, pad: char, width: nat): (r: string)
    ensures |r| == if |s| >= width then |s| else width
    ensures r[..|s|] == s
    ensures forall i :: |s| <= i < |r| ==> r[i] == pad
  {
    if |s| >= width then s else s + Repeat(pad, width - |s|)
  }

  /** The bar for `fill` filled cells: `fill` times `▓`, padded with `░` to 15 cells. */
  function ProgressBar(fill: nat): (bar: string)
    ensures |bar| == if fill >= BAR_WIDTH then fill else BAR_WIDTH
    ensures forall i :: 0 <= i < fill ==> bar[i] == FILLED
    ensures forall i :: fill <= i < |bar| ==> bar[i] == EMPTY
  {
    PadRight(Repeat(FILLED, fill), EMPTY, BAR_WIDTH)
  }

  /**
    The bar as the source builds it: push `▓` once per filled cell onto an
    empty string, then pad with `░` to 15 cells.
   */
  method BuildBar(fill: nat) returns (bar: string)
    ensures bar == ProgressBar(fill)
    ensures fill < BAR_WIDTH ==> |bar| == BAR_WIDTH && multiset(bar)[FILLED] == fill
  {
    var filled := "";
    for k := 0 to fill
      invariant |filled| == k
      invariant forall i :: 0 <= i < k ==> filled[i] == FILLED
    {
      filled := filled + [FILLED];
    }
    bar := filled;
    while |bar| < BAR_WIDTH
      invariant |bar| <= if fill >= BAR_WIDTH then fill else BAR_WIDTH
      invariant bar[..fill] == filled
      invariant forall i :: fill <= i < |bar| ==> bar[i] == EMPTY
      decreases BAR_WIDTH - |bar|
    {
      bar := bar + [EMPTY];
    }
    assert |filled| == fill;
    if fill < BAR_WIDTH {
      BarCount(fill);
    }
  }

  /** For fewer than 15 filled cells the bar holds exactly `fill` glyphs `▓` among its 15 cells. */
  lemma BarCount(fill: nat)
    requires fill < BAR_WIDTH
    ensures |ProgressBar(fill)| == BAR_WIDTH
    ensures multiset(ProgressBar(fill))[FILLED] == fill
    ensures multiset(ProgressBar(fill))[EMPTY] == BAR_WIDTH - fill
  {
    var bar := ProgressBar(fill);
    assert bar == Repeat(FILLED, fill) + Repeat(EMPTY, BAR_WIDTH - fill);
    RepeatCount(FILLED, EMPTY, fill);
    RepeatCount(EMPTY, FILLED, BAR_WIDTH - fill);
  }

  lemma {:induction false} RepeatCount(c: char, other: char, n: nat)
    requires c != other
    ensures multiset(Repeat(c, n))[c] == n && multiset(Repeat(c, n))[other] == 0
    decreases n
  {
    if n > 0 {
      assert Repeat(c, n) == Repeat(c, n - 1) + [c];
      RepeatCount(c, other, n - 1);
    }
  }

  /** `format!("[{}] {}%", progress_bar, percentage)`. */
  function ProgressLine(p: nat): (line: string)
    ensures |line| >= 1 && line[0] == '[' && line[|line| - 1] == '%'
    ensures p <= 99 ==> |line| == 19 + |Decimal.NatToDecimal(p)|
    ensures p <= 99 ==> ReadProgressLine(line) == Some(Report(FillLength(p), p))
  {
    LineReadsBack(p);
    "[" + ProgressBar(FillLength(p)) + "] " + Decimal.NatToDecimal(p) + "%"
  }

  /** The string `year_progress(None)` returns at the given clock reading. */
  function YearProgressText(t: DateHour): (line: string)
    requires ValidDateHour(t)
    ensures 20 <= |line| <= 21 && line[0] == '['
    ensures ReadProgressLine(line) == Some(Report(FillLength(YearPercentage(t)), YearPercentage(t)))
  {
    ProgressLine(YearPercentage(t))
  }

  datatype Report = Report(fill: nat, percentage: nat)

  predicate IsBarCell(c: char) {
    c == FILLED || c == EMPTY
  }

  /** No `▓` follows a `░`: the filled cells lead, as `{:░<15}` pads on the right. */
  predicate LeftAligned(bar: string) {
    forall i, j :: 0 <= i < j < |bar| && bar[i] == EMPTY ==> bar[j] == EMPTY
  }

  /**
    Reads a progress line back: the number of filled cells and the percentage.
    A bar whose filled cells do not all come first is not a progress line.
   */
  function ReadProgressLine(line: string): (r: Option<Report>)
  {
    if |line| >= 20 && line[0] == '[' && line[16] == ']' && line[17] == ' '
       && line[|line| - 1] == '%'
       && (forall i :: 1 <= i < 16 ==> IsBarCell(line[i]))
       && LeftAligned(line[1..16])
       && Decimal.AllDigits(line[18..|line| - 1])
    then Some(Report(multiset(line[1..16])[FILLED], Decimal.DecimalToNat(line[18..|line| - 1])))
    else None
  }

  /** The proof behind `ProgressLine`'s read-back, on the line as it is assembled. */
  lemma LineReadsBack(p: nat)
    ensures var line := "[" + ProgressBar(FillLength(p)) + "] " + Decimal.NatToDecimal(p) + "%";
      p <= 99 ==> (|line| == 19 + |Decimal.NatToDecimal(p)|
                   && ReadProgressLine(line) == Some(Report(FillLength(p), p)))
  {
    if p > 99 {
      return;
    }
    var fill := FillLength(p);
    var bar := ProgressBar(fill);
    var digits := Decimal.NatToDecimal(p);
    var line := "[" + bar + "] " + digits + "%";
    BarCount(fill);
    assert LeftAligned(bar);
    assert line[1..16] == bar;
    assert line[18..|line| - 1] == digits;
    assert forall i :: 1 <= i < 16 ==> line[i] == bar[i - 1];
    Decimal.DecimalRoundTrip(p);
  }

  /** A line the reader accepts holds exactly the bar for the fill it reads back. */
  lemma ReadBarExact(line: string)
    requires ReadProgressLine(line).Some?
    ensures ReadProgressLine(line).value.fill <= BAR_WIDTH
    ensures line[1..16] == ProgressBar(ReadProgressLine(line).value.fill)
  {
    var bar := line[1..16];
    assert forall i :: 0 <= i < 15 ==> IsBarCell(bar[i]) by {
      assert forall i :: 0 <= i < 15 ==> bar[i] == line[i + 1];
    }
    var k := FirstEmpty(bar, 0);
    assert bar == Repeat(FILLED, k) + Repeat(EMPTY, 15 - k);
    RepeatCount(FILLED, EMPTY, k);
    RepeatCount(EMPTY, FILLED, 15 - k);
    assert multiset(bar)[FILLED] == k;
  }

  /**
    The index of the first `░` in `bar` at or after `from`, or `|bar|` when
    there is none; every cell before it is `▓` and, in a left-aligned bar,
    every cell from it on is `░`.
   */
  function FirstEmpty(bar: string, from: nat): (k: nat)
    requires from <= |bar|
    requires forall i :: 0 <= i < |bar| ==> IsBarCell(bar[i])
    requires forall i :: 0 <= i < from ==> bar[i] == FILLED
    ensures from <= k <= |bar|
    ensures forall i :: 0 <= i < k ==> bar[i] == FILLED
    ensures LeftAligned(bar) ==> forall i :: k <= i < |bar| ==> bar[i] == EMPTY
    decreases |bar| - from
  {
    if from == |bar| then from
    else if bar[from] == EMPTY then from
    else FirstEmpty(bar, from + 1)
  }

  /** The bar of the same 50% line, right-aligned, is rejected by the reader. */
  lemma RightAlignedRejected()
    ensures ReadProgressLine("[" + Repeat(EMPTY, 8) + Repeat(FILLED, 7) + "] 50%") == None
  {
    var line := "[" + Repeat(EMPTY, 8) + Repeat(FILLED, 7) + "] 50%";
    var bar := line[1..16];
    assert bar[0] == EMPTY && bar[14] == FILLED;
    assert !LeftAligned(bar);
  }

  /** `a` is not later than `b` within one year: compare (month, day, hour) lexicographically. */
  predicate NotLater(a: DateHour, b: DateHour) {
    a.month < b.month
    || (a.month == b.month && a.day < b.day)
    || (a.month == b.month && a.day == b.day && a.hour <= b.hour)
  }

  /** Elapsed hours grow strictly with the clock within a year. */
  lemma HoursElapsedMonotonic(a: DateHour, b: DateHour)
    requires ValidDateHour(a) && ValidDateHour(b) && a.year == b.year
    requires NotLater(a, b)
    ensures HoursElapsed(a) <= HoursElapsed(b)
    ensures HoursElapsed(a) == HoursElapsed(b) ==> a == b
  {
    if a.month < b.month {
      DaysBeforeMonthStep(a.year, a.month);
      DaysBeforeMonthMonotonic(a.year, a.month + 1, b.month);
      assert DayOfYear(a) < DayOfYear(b);
    }
  }

  /** The percentage never decreases as the clock advances within a year. */
  lemma YearPercentageMonotonic(a: DateHour, b: DateHour)
    requires ValidDateHour(a) && ValidDateHour(b) && a.year == b.year
    requires NotLater(a, b)
    ensures YearPercentage(a) <= YearPercentage(b)
  {
    HoursElapsedMonotonic(a, b);
    PercentageMonotonic(HoursElapsed(a), HoursElapsed(b), TotalHoursInYear(a.year));
  }

  /** The first hour of a year shows 0%, its last hour 99%: the percentage never reaches 100. */
  lemma YearBoundaries(y: int)
    ensures YearPercentage(DateHour(y, 1, 1, 0)) == 0
    ensures YearPercentage(DateHour(y, 12, 31, 23)) == 99
  {
    var last := DateHour(y, 12, 31, 23);
    assert HoursElapsed(last) == TotalHoursInYear(y) - 1;
    assert DaysBeforeMonth(y, 12) == DaysInYear(y) - 31;
  }

  /** 2 July 2024, 12:00 UTC: day 184 of a leap year, 4404 of 8784 hours, 50%, 7 filled cells. */
  lemma Example2024()
    ensures YearPercentage(DateHour(2024, 7, 2, 12)) == 50
    ensures YearProgressText(DateHour(2024, 7, 2, 12)) == "[▓▓▓▓▓▓▓░░░░░░░░] 50%"
  {
    var t := DateHour(2024, 7, 2, 12);
    assert IsLeapYear(2024);
    assert DayOfYear(t) == 184;
    assert HoursElapsed(t) == 4404;
    assert FillLength(50) == 7;
    var bar := ProgressBar(7);
    assert bar == "▓▓▓▓▓▓▓░░░░░░░░";
    assert Decimal.NatToDecimal(50) == "50";
  }
}
