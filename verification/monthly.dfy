/**
 * The monthly heat map (components/MonthlyCalendar.tsx): month lengths
 * and the weekday the month starts on, moving between months, the
 * `YYYY-MM-DD` keys the view builds for its days and the parse it applies
 * to stored keys, the month's total and completion percentage, and the
 * colour tier of each day.
 *
 * Months are 0-based here, as `Date.prototype.getMonth` returns them.
 */
module Monthly {
  import opened Wrappers
  import opened Text
  import opened Calendar
  import opened Types
  import opened Ratio

  /**
   * `daysInMonth(month, year)`: the date of day 0 of the next month, that
   * is, the last day of this one. Thirty days hath September, April, June
   * and November; February has 29 days in a leap year and 28 otherwise;
   * every other month has 31.
   */
  function MonthLength(month: int, year: int): (n: int)
    requires 0 <= month <= 11
    ensures 28 <= n <= 31
    ensures month in {3, 5, 8, 10} ==> n == 30
    ensures month == 1 ==> (n == 29 <==> IsLeapYear(year))
    ensures month !in {1, 3, 5, 8, 10} ==> n == 31
    ensures Valid(Date(year, month + 1, n)) && Next(Date(year, month + 1, n)) == FirstOfMonth(year, month + 1)
  {
    DaysInMonth(year, month + 1)
  }

  /** The first day of month `month` (0-based), with the year carried as `new Date(year, month, 1)` does. */
  function FirstOfMonth(year: int, month: int): (d: Date)
    requires -1 <= month <= 12
    ensures Valid(d) && d.day == 1
  {
    if month == -1 then Date(year - 1, 12, 1)
    else if month == 12 then Date(year + 1, 1, 1)
    else Date(year, month + 1, 1)
  }

  /** `firstDayOfMonth(month, year)`: the weekday of the 1st, 0 for Sunday; the number of blank cells before it. */
  function FirstWeekday(month: int, year: int): (w: int)
    requires 0 <= month <= 11
    ensures 0 <= w <= 6
    ensures w == Weekday(Date(year, month + 1, 1))
  {
    Weekday(FirstOfMonth(year, month))
  }

  /** A month's grid ends where the next month's begins: its first weekday is shifted by the month's length. */
  lemma FirstWeekdayOfNextMonth(month: int, year: int)
    requires 0 <= month <= 11
    ensures Weekday(FirstOfMonth(year, month + 1)) == (FirstWeekday(month, year) + MonthLength(month, year)) % 7
  {
    var first := FirstOfMonth(year, month);
    var next := FirstOfMonth(year, month + 1);
    ForwardThroughMonth(month, year);
    WeekdayReached(first, next, MonthLength(month, year));
  }

  /** Walking a month's length forward from its 1st lands on the next month's 1st. */
  lemma ForwardThroughMonth(month: int, year: int)
    requires 0 <= month <= 11
    ensures Forward(FirstOfMonth(year, month), MonthLength(month, year)) == FirstOfMonth(year, month + 1)
  {
    var first := FirstOfMonth(year, month);
    var n := MonthLength(month, year);
    assert Forward(first, n - 1) == Date(year, month + 1, n) by {
      ForwardInMonth(first, n - 1);
    }
    ForwardNext(first, n - 1);
  }

  /** The month a date lies in, counted in months from year 0. */
  function MonthIndex(d: Date): int {
    12 * d.year + d.month - 1
  }

  /** `prevMonth`: the 1st of the month before the one shown. */
  function PrevMonth(current: Date): (r: Date)
    requires 1 <= current.month <= 12
    ensures Valid(r) && r.day == 1
    ensures MonthIndex(r) == MonthIndex(current) - 1
  {
    FirstOfMonth(current.year, current.month - 2)
  }

  /** `nextMonth`: the 1st of the month after the one shown. */
  function NextMonth(current: Date): (r: Date)
    requires 1 <= current.month <= 12
    ensures Valid(r) && r.day == 1
    ensures MonthIndex(r) == MonthIndex(current) + 1
  {
    FirstOfMonth(current.year, current.month)
  }

  /** Going back a month and forward again, or the other way round, lands on the 1st of the month shown. */
  lemma MonthStepsInverse(current: Date)
    requires 1 <= current.month <= 12
    ensures NextMonth(PrevMonth(current)) == Date(current.year, current.month, 1)
    ensures PrevMonth(NextMonth(current)) == Date(current.year, current.month, 1)
  {
  }

  /** Only January and December change the year. */
  lemma MonthStepsYear(current: Date)
    requires 1 <= current.month <= 12
    ensures PrevMonth(current).year == if current.month == 1 then current.year - 1 else current.year
    ensures NextMonth(current).year == if current.month == 12 then current.year + 1 else current.year
  {
  }

  /** The key the view builds for day `day` of month `month`: the year unpadded, month and day padded to two digits. */
  function MonthKey(year: int, month: int, day: nat): string
    requires 0 <= month <= 11
  {
    Join([Show(year), PadStart(ShowNat(month + 1), 2, '0'), PadStart(ShowNat(day), 2, '0')], '-')
  }

  /** For four-digit years the view's key is the stored `YYYY-MM-DD` key of that day. */
  lemma MonthKeyIsIsoKey(year: int, month: int, day: nat)
    requires 0 <= month <= 11 && Valid(Date(year, month + 1, day)) && 1000 <= year <= 9999
    ensures MonthKey(year, month, day) == IsoKey(Date(year, month + 1, day))
    ensures |MonthKey(year, month, day)| == 10
  {
    ShowNatLength(year, 4);
  }

  /** Years below 1000 lose their leading zeros, so the view's key and the stored key differ. */
  lemma MonthKeyShortYear()
    ensures |MonthKey(999, 0, 1)| == 9
    ensures MonthKey(999, 0, 1) != IsoKey(Date(999, 1, 1))
  {
    ShowNatLength(999, 3);
    ShowNatLength(1, 1);
    JoinThree(Show(999), PadStart(ShowNat(1), 2, '0'), PadStart(ShowNat(1), 2, '0'), '-');
  }

  /** The year and 1-based month of a stored key, as `date.split('-').map(Number)` reads them. */
  function ParseYearMonth(date: string): (Option<int>, Option<int>)
  {
    var parts := Split(date, '-');
    (JsNumber(parts[0]), if |parts| >= 2 then JsNumber(parts[1]) else None)
  }

  /** Parsing a key the view built gives back its year and 1-based month. */
  lemma ParseMonthKey(year: nat, month: int, day: nat)
    requires 0 <= month <= 11
    ensures ParseYearMonth(MonthKey(year, month, day)) == (Some(year), Some(month + 1))
  {
    ZeroPaddedValue(month + 1, 2);
    ZeroPaddedValue(day, 2);
    SplitDigitFields(Show(year), PadStart(ShowNat(month + 1), 2, '0'), PadStart(ShowNat(day), 2, '0'));
    JsNumberOfShow(year, 0);
    JsNumberOfShow(month + 1, 2);
  }

  /** Parsing a stored `YYYY-MM-DD` key gives back the year and 1-based month of its date. */
  lemma ParseIsoKey(d: Date)
    requires HasIsoKey(d)
    ensures ParseYearMonth(IsoKey(d)) == (Some(d.year), Some(d.month))
  {
    IsoKeySplit(d);
    IsoKeyFields(d);
  }

  /** Whether a log belongs to the month shown: `logYear === year && logMonth - 1 === month`. */
  predicate InMonth(log: DailyLog, year: int, month: int) {
    var (logYear, logMonth) := ParseYearMonth(log.date);
    logYear == Some(year) && logMonth == Some(month + 1)
  }

  /**
   * `totalActions`: completions summed over the logs of the month shown,
   * left to right as `reduce` does. The total counts exactly the
   * completions of the logs whose key parses to the month shown.
   */
  function TotalActions(logs: seq<DailyLog>, year: int, month: int): (r: nat)
    ensures r == AllCompletions(MonthLogs(logs, year, month))
  {
    if |logs| == 0 then 0
    else
      var init := logs[..|logs| - 1];
      var last := logs[|logs| - 1];
      AllCompletionsAppend(MonthLogs(init, year, month), if InMonth(last, year, month) then [last] else []);
      assert AllCompletions([last]) == |last.completedGoalIds| by {
        assert [last][..0] == [];
      }
      TotalActions(init, year, month) + (if InMonth(last, year, month) then |last.completedGoalIds| else 0)
  }

  /** The logs of the month shown: exactly the stored logs whose key parses to it, in stored order. */
  function MonthLogs(logs: seq<DailyLog>, year: int, month: int): (r: seq<DailyLog>)
    ensures forall i :: 0 <= i < |r| ==> InMonth(r[i], year, month)
    ensures forall l :: l in r <==> l in logs && InMonth(l, year, month)
    ensures IsSubsequence(r, logs)
  {
    if |logs| == 0 then []
    else
      var init := logs[..|logs| - 1];
      var last := logs[|logs| - 1];
      var kept := MonthLogs(init, year, month);
      assert logs == init + [last];
      SubsequenceExtend(kept, init, last);
      if InMonth(last, year, month) then kept + [last]
      else assert kept + [] == kept; kept + []
  }

  /** Every completion of every log. */
  function AllCompletions(logs: seq<DailyLog>): nat
  {
    if |logs| == 0 then 0 else AllCompletions(logs[..|logs| - 1]) + |logs[|logs| - 1].completedGoalIds|
  }

  lemma {:induction false} AllCompletionsAppend(a: seq<DailyLog>, b: seq<DailyLog>)
    ensures AllCompletions(a + b) == AllCompletions(a) + AllCompletions(b)
    decreases |b|
  {
    if |b| > 0 {
      assert (a + b)[..|a + b| - 1] == a + b[..|b| - 1];
      AllCompletionsAppend(a, b[..|b| - 1]);
    } else {
      assert a + b == a;
    }
  }

  /** Logs that do not parse to the month shown add nothing to its total. */
  lemma {:induction false} TotalActionsOtherMonths(logs: seq<DailyLog>, year: int, month: int)
    requires forall i :: 0 <= i < |logs| ==> !InMonth(logs[i], year, month)
    ensures TotalActions(logs, year, month) == 0
  {
    if |logs| > 0 {
      TotalActionsOtherMonths(logs[..|logs| - 1], year, month);
    }
  }

  /**
   * A log stored under a day's `YYYY-MM-DD` key counts toward that day's
   * month and toward no other month.
   */
  lemma StoredLogCountsInItsMonth(d: Date, ids: seq<string>, year: int, month: int)
    requires HasIsoKey(d) && 0 <= month <= 11
    ensures TotalActions([DailyLog(IsoKey(d), ids)], year, month)
            == if year == d.year && month + 1 == d.month then |ids| else 0
  {
    ParseIsoKey(d);
    assert [DailyLog(IsoKey(d), ids)][..0] == [];
  }

  /** The colour tiers of a day cell, from the `getHeatColor` branches in order. */
  datatype Heat = Blank | Neutral | Strong | Medium | Light | Plain

  /**
   * `getHeatColor(count)` with `goals` goals: nothing done, no goals to
   * measure against, and then the ratio at least 0.8, at least 0.5, above 0.
   */
  function HeatOf(count: nat, goals: nat): (h: Heat)
    ensures h != Plain
    ensures h == Blank <==> count == 0
  {
    if count == 0 then Blank
    else if goals == 0 then Neutral
    else if 5 * count >= 4 * goals then Strong
    else if 2 * count >= goals then Medium
    else if count > 0 then Light
    else Plain
  }

  /** The tiers in increasing intensity; the neutral tier stands apart. */
  function Intensity(h: Heat): nat {
    match h
    case Blank => 0
    case Plain => 0
    case Light => 1
    case Medium => 2
    case Strong => 3
    case Neutral => 1
  }

  /** With goals to measure against, more completions never give a paler tier. */
  lemma HeatMonotone(c1: nat, c2: nat, goals: nat)
    requires c1 <= c2 && goals > 0
    ensures Intensity(HeatOf(c1, goals)) <= Intensity(HeatOf(c2, goals))
  {
  }

  /**
   * The tiers against the ratio `count / goals.length` of the source: no
   * goals gives the neutral tier, and otherwise the ratio at least 0.8 is
   * the strongest, at least 0.5 the middle and above 0 the lightest.
   */
  lemma HeatTiers(count: nat, goals: nat)
    ensures count > 0 && goals == 0 ==> HeatOf(count, goals) == Neutral
    ensures count > 0 && goals > 0 ==>
      var ratio := count as real / goals as real;
      && (HeatOf(count, goals) == Strong <==> ratio >= 0.8)
      && (HeatOf(count, goals) == Medium <==> 0.5 <= ratio < 0.8)
      && (HeatOf(count, goals) == Light <==> 0.0 < ratio < 0.5)
  {
    if count > 0 && goals > 0 {
      RatioAtLeast(count, goals, 4, 5);
      RatioAtLeast(count, goals, 1, 2);
    }
  }

  /** The ratio reaches `num / den` exactly when `den * count >= num * goals`. */
  lemma RatioAtLeast(count: nat, goals: nat, num: nat, den: nat)
    requires goals > 0 && den > 0
    ensures count as real / goals as real >= num as real / den as real <==> den * count >= num * goals
  {
    var ratio := count as real / goals as real;
    var bound := num as real / den as real;
    assert ratio * goals as real == count as real;
    assert bound * den as real == num as real;
    var scale := (goals * den) as real;
    assert ratio * scale == (den * count) as real;
    assert bound * scale == (num * goals) as real;
    ScaleOrder(ratio, bound, scale);
  }

  /** Multiplying by a positive factor keeps the order of two reals. */
  lemma ScaleOrder(a: real, b: real, c: real)
    requires c > 0.0
    ensures a >= b <==> a * c >= b * c
  {
    if a >= b {
      assert a * c - b * c == (a - b) * c;
    } else {
      assert b * c - a * c == (b - a) * c;
    }
  }

  /** A day that completed every goal is in the strongest tier. */
  lemma FullDayIsStrong(goals: nat)
    requires goals > 0
    ensures HeatOf(goals, goals) == Strong
  {
  }

  /** With five goals: four done is the strongest tier, three the middle, two the lightest, none blank. */
  lemma HeatExamples()
    ensures HeatOf(4, 5) == Strong
    ensures HeatOf(3, 5) == Medium
    ensures HeatOf(2, 5) == Light
    ensures HeatOf(0, 5) == Blank
    ensures HeatOf(3, 0) == Neutral
  {
  }

  /**
   * The month's "Completion" figure: `Math.round(totalActions / (goals * days) * 100)`,
   * or 0 without goals. With goals it lies within half a percent of
   * `100 * total / (goals * days)`, and it is at most 100 when the total fits.
   */
  function MonthlyPercentage(total: nat, goals: nat, days: nat): (r: nat)
    requires days > 0
    ensures goals == 0 ==> r == 0
    ensures goals > 0 ==> goals * days * (2 * r - 1) <= 200 * total < goals * days * (2 * r + 1)
    ensures total <= goals * days ==> r <= 100
  {
    if goals > 0 then Percent(total, goals * days) else 0
  }

  /**
   * No goals shows 0%; otherwise the figure is the whole number nearest to
   * 100 * total / (goals * days), at most 100 when no day exceeds the goals.
   */
  lemma MonthlyPercentageSpec(total: nat, goals: nat, days: nat, p: int)
    requires days > 0
    ensures goals == 0 ==> MonthlyPercentage(total, goals, days) == 0
    ensures goals > 0 ==>
      (MonthlyPercentage(total, goals, days) == p <==>
        goals * days * (2 * p - 1) <= 200 * total < goals * days * (2 * p + 1))
    ensures total <= goals * days ==> MonthlyPercentage(total, goals, days) <= 100
  {
    if goals > 0 {
      RoundDivNearest(100 * total, goals * days, p);
      PercentRange(total, goals * days);
    }
  }

  /** A cell of the month grid: a blank before the 1st, or a day with its key, count and tier. */
  datatype Cell = Pad | Day(day: nat, dateStr: string, count: nat, heat: Heat)

  /** The cell of the day `index + 1` of the month. */
  function DayCell(logs: seq<DailyLog>, year: int, month: int, goals: nat, index: nat): Cell
    requires 0 <= month <= 11
  {
    var dateStr := MonthKey(year, month, index + 1);
    var count := CompletedCount(logs, dateStr);
    Day(index + 1, dateStr, count, HeatOf(count, goals))
  }

  /** The cells of days 1 to `n`. */
  function DayCells(logs: seq<DailyLog>, year: int, month: int, goals: nat, n: nat): (cells: seq<Cell>)
    requires 0 <= month <= 11
    ensures |cells| == n
  {
    if n == 0 then [] else DayCells(logs, year, month, goals, n - 1) + [DayCell(logs, year, month, goals, n - 1)]
  }

  lemma {:induction false} DayCellsEntries(logs: seq<DailyLog>, year: int, month: int, goals: nat, n: nat)
    requires 0 <= month <= 11
    ensures forall k :: 0 <= k < n ==> DayCells(logs, year, month, goals, n)[k] == DayCell(logs, year, month, goals, k)
  {
    if n > 0 {
      var cells := DayCells(logs, year, month, goals, n);
      var init := DayCells(logs, year, month, goals, n - 1);
      AppendEntries(init, DayCell(logs, year, month, goals, n - 1), cells);
      DayCellsEntries(logs, year, month, goals, n - 1);
    }
  }

  function Pads(n: nat): (cells: seq<Cell>)
    ensures |cells| == n
  {
    if n == 0 then [] else Pads(n - 1) + [Pad]
  }

  lemma {:induction false} PadsEntries(n: nat)
    ensures forall i :: 0 <= i < n ==> Pads(n)[i] == Pad
  {
    if n > 0 {
      PadsEntries(n - 1);
      assert forall i :: 0 <= i < n - 1 ==> Pads(n)[i] == Pads(n - 1)[i];
    }
  }

  /**
   * The grid: one blank per weekday before the 1st, then one cell per day
   * of the month, each with its key, the completions stored under that
   * key, and its colour tier.
   */
  method BuildGrid(logs: seq<DailyLog>, year: int, month: int, goals: nat) returns (cells: seq<Cell>)
    requires 0 <= month <= 11
    ensures |cells| == FirstWeekday(month, year) + MonthLength(month, year) <= 37
    ensures forall i :: 0 <= i < |cells| ==> (cells[i].Pad? <==> i < FirstWeekday(month, year))
    ensures forall k :: 0 <= k < MonthLength(month, year) ==>
      cells[FirstWeekday(month, year) + k] == DayCell(logs, year, month, goals, k)
  {
    var offset := FirstWeekday(month, year);
    cells := [];
    var i := 0;
    while i < offset
      invariant 0 <= i <= offset
      invariant cells == Pads(i)
    {
      cells := cells + [Pad];
      i := i + 1;
    }
    var n := MonthLength(month, year);
    var d := 1;
    while d <= n
      invariant 1 <= d <= n + 1
      invariant cells == Pads(offset) + DayCells(logs, year, month, goals, d - 1)
    {
      var dateStr := MonthKey(year, month, d);
      var log := FindLog(logs, dateStr);
      var count := if log.Some? then |log.value.completedGoalIds| else 0;
      FoundCount(logs, dateStr, count);
      var cell := Day(d, dateStr, count, HeatOf(count, goals));
      GridGrows(logs, year, month, goals, cells, offset, d, cell);
      cells := cells + [cell];
      d := d + 1;
    }
    GridEntries(logs, year, month, goals, offset, n);
  }

  /** One more day: its cell extends the grid built so far by one. */
  lemma GridGrows(logs: seq<DailyLog>, year: int, month: int, goals: nat, cells: seq<Cell>, offset: nat, d: nat, cell: Cell)
    requires 0 <= month <= 11 && d >= 1
    requires cells == Pads(offset) + DayCells(logs, year, month, goals, d - 1)
    requires cell.Day? && cell.day == d && cell.dateStr == MonthKey(year, month, d)
    requires cell.count == CompletedCount(logs, cell.dateStr) && cell.heat == HeatOf(cell.count, goals)
    ensures cells + [cell] == Pads(offset) + DayCells(logs, year, month, goals, d)
  {
    assert cell == DayCell(logs, year, month, goals, d - 1);
    assert cells + [cell] == Pads(offset) + (DayCells(logs, year, month, goals, d - 1) + [cell]);
  }

  lemma GridEntries(logs: seq<DailyLog>, year: int, month: int, goals: nat, offset: nat, n: nat)
    requires 0 <= month <= 11
    ensures var cells := Pads(offset) + DayCells(logs, year, month, goals, n);
      && (forall i :: 0 <= i < |cells| ==> (cells[i].Pad? <==> i < offset))
      && (forall k :: 0 <= k < n ==> cells[offset + k] == DayCell(logs, year, month, goals, k))
  {
    GridBlanks(logs, year, month, goals, offset, n);
    GridDays(logs, year, month, goals, offset, n);
  }

  /** Exactly the first `offset` cells of the grid are blank. */
  lemma GridBlanks(logs: seq<DailyLog>, year: int, month: int, goals: nat, offset: nat, n: nat)
    requires 0 <= month <= 11
    ensures var cells := Pads(offset) + DayCells(logs, year, month, goals, n);
      forall i :: 0 <= i < |cells| ==> (cells[i].Pad? <==> i < offset)
  {
    var pads := Pads(offset);
    var days := DayCells(logs, year, month, goals, n);
    var cells := pads + days;
    PadsEntries(offset);
    forall i | 0 <= i < |cells|
      ensures cells[i].Pad? <==> i < offset
    {
      if i >= offset {
        assert days[i - offset].Day? by {
          DayCellsEntries(logs, year, month, goals, n);
        }
        assert cells[i] == days[i - offset];
      }
    }
  }

  /** After the blanks come the days of the month in order. */
  lemma GridDays(logs: seq<DailyLog>, year: int, month: int, goals: nat, offset: nat, n: nat)
    requires 0 <= month <= 11
    ensures var cells := Pads(offset) + DayCells(logs, year, month, goals, n);
      forall k :: 0 <= k < n ==> cells[offset + k] == DayCell(logs, year, month, goals, k)
  {
    var days := DayCells(logs, year, month, goals, n);
    DayCellsEntries(logs, year, month, goals, n);
    ConcatTail(Pads(offset), days);
  }
}
