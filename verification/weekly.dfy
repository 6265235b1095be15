/**
 * The weekly view (components/WeeklyCalendar.tsx): the seven days ending
 * at a base date with their completion counts, the week's total and
 * completion percentage, the "full day" bar colour, the row of progress
 * dots, and the buttons that move the window by a week.
 */
module Weekly {
  import opened Calendar
  import opened Types
  import opened Ratio

  /** Short weekday names as `toLocaleDateString('en-US', { weekday: 'short' })` gives them, Sunday first. */
  const DayNames: seq<string> := ["Sun", "Mon", "Tue", "Wed", "Thu", "Fri", "Sat"]

  /** The most progress dots a day's row shows. */
  const MaxDots: nat := 5

  /** The short name of a day's weekday. */
  function DayName(d: Date): (name: string)
    requires Valid(d)
    ensures |name| == 3
  {
    DayNames[Weekday(d)]
  }

  /** 1 January 1970 is a Thursday, and each day's name is the one after the previous day's, Saturday wrapping to Sunday. */
  lemma DayNameCycle(d: Date)
    requires Valid(d)
    ensures DayName(Date(1970, 1, 1)) == "Thu"
    ensures DayName(Next(d)) == DayNames[(Weekday(d) + 1) % 7]
  {
    EpochIsThursday();
    WeekdayNext(d);
  }

  /** One bar of the chart: weekday name, completions that day, and the day's key. */
  datatype WeekEntry = WeekEntry(name: string, count: nat, fullDate: string)

  /** A base date whose whole window has four-digit keys. */
  predicate WeekBase(base: Date) {
    HasIsoKey(base) && base.year >= 1
  }

  /** The date of bar `j` (0 = oldest): `j - 6` days from the base date. */
  function WeekDate(base: Date, j: nat): (d: Date)
    requires WeekBase(base) && j < 7
    ensures HasIsoKey(d)
  {
    BackYearBound(base, 6 - j);
    Back(base, 6 - j)
  }

  function EntryFor(logs: seq<DailyLog>, d: Date): WeekEntry
    requires HasIsoKey(d)
  {
    WeekEntry(DayName(d), CompletedCount(logs, IsoKey(d)), IsoKey(d))
  }

  /** The first `n` bars of the window. */
  function Window(logs: seq<DailyLog>, base: Date, n: nat): (w: seq<WeekEntry>)
    requires WeekBase(base) && n <= 7
    ensures |w| == n
  {
    if n == 0 then [] else Window(logs, base, n - 1) + [EntryFor(logs, WeekDate(base, n - 1))]
  }

  lemma {:induction false} WindowEntries(logs: seq<DailyLog>, base: Date, n: nat)
    requires WeekBase(base) && n <= 7
    ensures forall j :: 0 <= j < n ==> Window(logs, base, n)[j] == EntryFor(logs, WeekDate(base, j))
  {
    if n > 0 {
      var w := Window(logs, base, n);
      var init := Window(logs, base, n - 1);
      AppendEntries(init, EntryFor(logs, WeekDate(base, n - 1)), w);
      WindowEntries(logs, base, n - 1);
    }
  }

  /** One more bar: the entry for the day `i` days back extends the window by one. */
  lemma WindowGrows(logs: seq<DailyLog>, base: Date, i: nat, d: Date, dateStr: string, count: nat)
    requires WeekBase(base) && i <= 6
    requires d == Back(base, i) && HasIsoKey(d) && dateStr == IsoKey(d)
    requires count == CompletedCount(logs, dateStr)
    ensures Window(logs, base, 6 - i) + [WeekEntry(DayName(d), count, dateStr)] == Window(logs, base, 7 - i)
  {
    assert WeekDate(base, 6 - i) == d;
  }

  /** The full window, bar by bar: the day, its name, its key and its count, ending at the base date. */
  lemma WindowSpec(logs: seq<DailyLog>, base: Date)
    requires WeekBase(base)
    ensures var w := Window(logs, base, 7);
      && |w| == 7
      && (forall j :: 0 <= j < 7 ==> w[j].fullDate == IsoKey(WeekDate(base, j)))
      && (forall j :: 0 <= j < 7 ==> w[j].name == DayName(WeekDate(base, j)))
      && (forall j :: 0 <= j < 7 ==> w[j].count == CompletedCount(logs, w[j].fullDate))
      && w[6].fullDate == IsoKey(base)
  {
    WindowEntries(logs, base, 7);
    assert WeekDate(base, 6) == base;
  }

  /**
   * `getWeekData`: for `i` from 6 down to 0, the day `i` days before the
   * base date, its key, and the completions in the first log with that key.
   */
  method GetWeekData(logs: seq<DailyLog>, base: Date) returns (data: seq<WeekEntry>)
    requires WeekBase(base)
    ensures |data| == 7
    ensures forall j :: 0 <= j < 7 ==> data[j].fullDate == IsoKey(WeekDate(base, j))
    ensures forall j :: 0 <= j < 7 ==> data[j].name == DayName(WeekDate(base, j))
    ensures forall j :: 0 <= j < 7 ==> data[j].count == CompletedCount(logs, data[j].fullDate)
    ensures data[6].fullDate == IsoKey(base)
  {
    data := [];
    var i := 6;
    while i >= 0
      invariant -1 <= i <= 6
      invariant data == Window(logs, base, 6 - i)
    {
      BackYearBound(base, i);
      var d := Back(base, i);
      var dateStr := IsoKey(d);
      var log := FindLog(logs, dateStr);
      var count := if log.Some? then |log.value.completedGoalIds| else 0;
      FoundCount(logs, dateStr, count);
      WindowGrows(logs, base, i, d, dateStr, count);
      data := data + [WeekEntry(DayName(d), count, dateStr)];
      i := i - 1;
    }
    WindowSpec(logs, base);
  }

  /** The window is seven consecutive days, oldest first, ending at the base date. */
  lemma WeekDatesConsecutive(base: Date)
    requires WeekBase(base)
    ensures WeekDate(base, 6) == base
    ensures forall j :: 0 <= j < 6 ==> Next(WeekDate(base, j)) == WeekDate(base, j + 1)
  {
  }

  /** Earlier bars hold strictly earlier days, so no key appears twice in the window. */
  lemma WeekDatesIncreasing(base: Date)
    requires WeekBase(base)
    ensures forall i, j :: 0 <= i < j < 7 ==> Before(WeekDate(base, i), WeekDate(base, j))
    ensures forall i, j :: 0 <= i < j < 7 ==> IsoKey(WeekDate(base, i)) != IsoKey(WeekDate(base, j))
  {
    forall i, j | 0 <= i < j < 7
      ensures Before(WeekDate(base, i), WeekDate(base, j))
    {
      BackAdd(base, 6 - j, j - i);
    }
    forall i, j | 0 <= i < j < 7
      ensures IsoKey(WeekDate(base, i)) != IsoKey(WeekDate(base, j))
    {
      BackAdd(base, 6 - j, j - i);
      IsoKeyInjective(WeekDate(base, i), WeekDate(base, j));
    }
  }

  /** The seven bars carry seven different weekday names. */
  lemma WeekNamesDistinct(base: Date)
    requires WeekBase(base)
    ensures forall i, j :: 0 <= i < j < 7 ==> DayName(WeekDate(base, i)) != DayName(WeekDate(base, j))
  {
    forall i, j | 0 <= i < j < 7
      ensures DayName(WeekDate(base, i)) != DayName(WeekDate(base, j))
    {
      WeekdaysDiffer(base, i, j);
      DayNamesDistinct(Weekday(WeekDate(base, i)), Weekday(WeekDate(base, j)));
    }
  }

  /** Two different bars of the window fall on different weekdays. */
  lemma WeekdaysDiffer(base: Date, i: nat, j: nat)
    requires WeekBase(base) && i < j < 7
    ensures Weekday(WeekDate(base, i)) != Weekday(WeekDate(base, j))
  {
    WeekDatesApart(base, i, j);
    WeekdaysApart(WeekDate(base, i), WeekDate(base, j), j - i);
  }

  /** Two dates fewer than seven days apart fall on different weekdays. */
  lemma WeekdaysApart(early: Date, later: Date, k: nat)
    requires Valid(later) && 0 < k < 7 && Back(later, k) == early
    ensures Weekday(early) != Weekday(later)
  {
    WeekdayBack(later, k);
    ModSevenMoves(Weekday(early), k);
  }

  /** Bar `i` lies `j - i` days before bar `j`. */
  lemma WeekDatesApart(base: Date, i: nat, j: nat)
    requires WeekBase(base) && i < j < 7
    ensures Back(WeekDate(base, j), j - i) == WeekDate(base, i)
  {
    BackAdd(base, 6 - j, j - i);
  }

  lemma ModSevenMoves(a: int, k: int)
    requires 0 <= a < 7 && 0 < k < 7
    ensures (a + k) % 7 != a
  {
    if a + k < 7 {
      assert (a + k) % 7 == a + k;
    } else {
      assert (a + k) % 7 == a + k - 7;
    }
  }

  lemma DayNamesDistinct(a: int, b: int)
    requires 0 <= a < 7 && 0 <= b < 7 && a != b
    ensures DayNames[a] != DayNames[b]
  {
    assert DayNames[a][0] != DayNames[b][0] || DayNames[a][1] != DayNames[b][1];
  }

  /** `weeklyTotal`: the counts summed left to right, as `reduce` does. */
  function WeeklyTotal(data: seq<WeekEntry>): nat
  {
    if |data| == 0 then 0 else WeeklyTotal(data[..|data| - 1]) + data[|data| - 1].count
  }

  /** The total is zero exactly when every day has no completions. */
  lemma {:induction false} WeeklyTotalZero(data: seq<WeekEntry>)
    ensures WeeklyTotal(data) == 0 <==> forall j :: 0 <= j < |data| ==> data[j].count == 0
  {
    if |data| > 0 {
      var init := data[..|data| - 1];
      WeeklyTotalZero(init);
      assert forall j :: 0 <= j < |init| ==> init[j] == data[j];
    }
  }

  /** With at most `goals` completions a day, the total is at most `maxPossible`. */
  lemma {:induction false} WeeklyTotalBound(data: seq<WeekEntry>, goals: nat)
    requires forall j :: 0 <= j < |data| ==> data[j].count <= goals
    ensures WeeklyTotal(data) <= |data| * goals
  {
    if |data| > 0 {
      var init := data[..|data| - 1];
      assert forall j :: 0 <= j < |init| ==> init[j] == data[j];
      WeeklyTotalBound(init, goals);
    }
  }

  /**
   * The "Completion" figure: `Math.round(weeklyTotal / maxPossible * 100)`,
   * or 0 when `maxPossible` is 0. With goals it lies within half a percent
   * of `100 * total / (7 * goals)`, and it is at most 100 when the total fits.
   */
  function WeeklyPercentage(total: nat, goals: nat): (r: nat)
    ensures goals == 0 ==> r == 0
    ensures goals > 0 ==> 7 * goals * (2 * r - 1) <= 200 * total < 7 * goals * (2 * r + 1)
    ensures total <= 7 * goals ==> r <= 100
  {
    var maxPossible := goals * 7;
    if maxPossible > 0 then Percent(total, maxPossible) else 0
  }

  /**
   * No goals shows 0%; otherwise the figure is the whole number nearest to
   * 100 * total / (7 * goals), and at most 100 when no day exceeds the goals.
   */
  lemma WeeklyPercentageSpec(total: nat, goals: nat, p: int)
    ensures goals == 0 ==> WeeklyPercentage(total, goals) == 0
    ensures goals > 0 ==>
      (WeeklyPercentage(total, goals) == p <==> 7 * goals * (2 * p - 1) <= 200 * total < 7 * goals * (2 * p + 1))
    ensures total <= 7 * goals ==> WeeklyPercentage(total, goals) <= 100
  {
    if goals > 0 {
      RoundDivNearest(100 * total, goals * 7, p);
      PercentRange(total, goals * 7);
    }
  }

  /** Four goals and fourteen completions in the week show 50%. */
  lemma WeeklyPercentageExample()
    ensures WeeklyPercentage(14, 4) == 50
  {
  }

  /** A bar is drawn green exactly when that day completed as many goals as exist, and there is at least one. */
  predicate IsFullDay(count: nat, goals: nat) {
    count == goals && goals > 0
  }

  /** The dots of a day's row, `true` for a filled dot. */
  function DotRow(count: nat, goals: nat): (dots: seq<bool>)
    ensures |dots| == if goals < MaxDots then goals else MaxDots
  {
    var n := if goals < MaxDots then goals else MaxDots;
    seq(n, i requires 0 <= i < n => i < count)
  }

  function Filled(dots: seq<bool>): nat
  {
    if |dots| == 0 then 0 else Filled(dots[..|dots| - 1]) + (if dots[|dots| - 1] then 1 else 0)
  }

  /**
   * The row shows `min(goals, 5)` dots; the filled ones come first and
   * there are `min(count, dots)` of them.
   */
  lemma DotRowFilled(count: nat, goals: nat)
    ensures var dots := DotRow(count, goals);
            && (forall i, j :: 0 <= i < j < |dots| && dots[j] ==> dots[i])
            && Filled(dots) == if count < |dots| then count else |dots|
  {
    var dots := DotRow(count, goals);
    FilledPrefix(dots, count);
  }

  lemma {:induction false} FilledPrefix(dots: seq<bool>, count: nat)
    requires forall i :: 0 <= i < |dots| ==> (dots[i] <==> i < count)
    ensures Filled(dots) == if count < |dots| then count else |dots|
  {
    if |dots| > 0 {
      var init := dots[..|dots| - 1];
      FilledPrefix(init, count);
    }
  }

  /** A full day fills every dot of its row, and a day without completions fills none. */
  lemma FullDayDots(count: nat, goals: nat)
    ensures IsFullDay(count, goals) ==> forall i :: 0 <= i < |DotRow(count, goals)| ==> DotRow(count, goals)[i]
    ensures count == 0 ==> forall i :: 0 <= i < |DotRow(count, goals)| ==> !DotRow(count, goals)[i]
  {
  }

  /** `shiftWeek(days)`: the base date moved `days` days, back for a negative count; the weekday moves with it. */
  function ShiftWeek(base: Date, days: int): (r: Date)
    requires Valid(base)
    ensures Valid(r)
    ensures Weekday(r) == (Weekday(base) + days) % 7
  {
    if days >= 0 then
      WeekdayForward(base, days);
      Forward(base, days)
    else
      var r := Back(base, -days);
      WeekdayBack(base, -days);
      ModSevenUndo(Weekday(r), -days, Weekday(base));
      r
  }

  /** The shift moves exactly `days` days: stepping the same number of days the other way gives the base date back. */
  lemma ShiftWeekExact(base: Date, days: int)
    requires Valid(base)
    ensures days >= 0 ==> Back(ShiftWeek(base, days), days) == base
    ensures days < 0 ==> Forward(ShiftWeek(base, days), -days) == base
  {
    if days >= 0 {
      BackForward(base, days);
    } else {
      ForwardBack(base, -days);
    }
  }

  /** Undoing a forward step of `k` weekdays: `a` is `k` weekdays before `(a + k) % 7`. */
  lemma ModSevenUndo(a: int, k: nat, b: int)
    requires 0 <= a < 7 && (a + k) % 7 == b
    ensures a == (b - k) % 7
  {
    var q := (a + k) / 7;
    assert b - k == a - 7 * q;
  }

  /** A week forward and a week back, in either order, return to the same base date. */
  lemma ShiftWeekRoundTrip(base: Date)
    requires Valid(base)
    ensures ShiftWeek(ShiftWeek(base, 7), -7) == base
    ensures ShiftWeek(ShiftWeek(base, -7), 7) == base
  {
    BackForward(base, 7);
    ForwardBack(base, 7);
  }

  /** Moving by a week keeps the weekday of the base date, and so the order of the names. */
  lemma ShiftWeekWeekday(base: Date)
    requires Valid(base)
    ensures Weekday(ShiftWeek(base, 7)) == Weekday(base)
    ensures Weekday(ShiftWeek(base, -7)) == Weekday(base)
  {
    var w := Weekday(base);
    WeekdayForward(base, 7);
    WeekdayBack(base, 7);
    var later := Weekday(Forward(base, 7));
    var earlier := Weekday(Back(base, 7));
    assert later == (w + 7) % 7;
    assert (earlier + 7) % 7 == w;
    SevenCancels(w);
    SevenCancels(earlier);
  }

  lemma SevenCancels(w: int)
    requires 0 <= w < 7
    ensures (w + 7) % 7 == w
  {
  }

  /**
   * Consecutive windows tile the calendar: the next week starts the day
   * after this one ends, and the previous week ends the day before this
   * one starts.
   */
  lemma ShiftWeekTiles(base: Date)
    requires WeekBase(base) && base.year >= 2 && base.year <= 9998
    ensures WeekBase(ShiftWeek(base, 7)) && WeekBase(ShiftWeek(base, -7))
    ensures WeekDate(ShiftWeek(base, 7), 0) == Next(WeekDate(base, 6))
    ensures Next(WeekDate(ShiftWeek(base, -7), 6)) == WeekDate(base, 0)
  {
    var next := ShiftWeek(base, 7);
    var prev := ShiftWeek(base, -7);
    BackYearBound(base, 7);
    BackForward(base, 7);
    BackYearBound(next, 7);
    assert next == Forward(Next(base), 6);
    BackForward(Next(base), 6);
  }
}
