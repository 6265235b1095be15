/**
 * Proleptic Gregorian calendar dates, as JavaScript's `Date` handles them
 * once time of day and time zones are set aside: month lengths, stepping
 * one day back or forward (what `setDate(getDate() - 1)` normalises to),
 * the day of the week (`getDay`) and the `YYYY-MM-DD` key that
 * `toISOString().split('T')[0]` produces.
 */
module Calendar {
  import opened Wrappers
  import opened Text

  /** A calendar date; `month` runs 1..12 (JavaScript's `getMonth() + 1`). */
  datatype Date = Date(year: int, month: int, day: int)

  predicate IsLeapYear(y: int) {
    y % 4 == 0 && (y % 100 != 0 || y % 400 == 0)
  }

  /** The length of a month, as `new Date(year, month, 0).getDate()` reports it. */
  function DaysInMonth(year: int, month: int): (n: int)
    requires 1 <= month <= 12
    ensures 28 <= n <= 31
    ensures n == 28 <==> month == 2 && !IsLeapYear(year)
  {
    if month == 2 then (if IsLeapYear(year) then 29 else 28)
    else if month == 4 || month == 6 || month == 9 || month == 11 then 30
    else 31
  }

  predicate Valid(d: Date) {
    1 <= d.month <= 12 && 1 <= d.day <= DaysInMonth(d.year, d.month)
  }

  /** Strict chronological order. */
  predicate Before(a: Date, b: Date) {
    || a.year < b.year
    || (a.year == b.year && a.month < b.month)
    || (a.year == b.year && a.month == b.month && a.day < b.day)
  }

  /** Days in the months of `year` before `month` (1..13). */
  function DaysBeforeMonth(year: int, month: int): nat
    requires 1 <= month <= 13
  {
    if month == 1 then 0 else DaysBeforeMonth(year, month - 1) + DaysInMonth(year, month - 1)
  }

  /** The twelve month lengths add up to 366 days in a leap year and 365 otherwise. */
  lemma YearLength(year: int)
    ensures DaysBeforeMonth(year, 13) == if IsLeapYear(year) then 366 else 365
  {
    var leap := if IsLeapYear(year) then 1 else 0;
    assert DaysBeforeMonth(year, 2) == 31;
    assert DaysBeforeMonth(year, 3) == 59 + leap;
    assert DaysBeforeMonth(year, 4) == 90 + leap;
    assert DaysBeforeMonth(year, 5) == 120 + leap;
    assert DaysBeforeMonth(year, 6) == 151 + leap;
    assert DaysBeforeMonth(year, 7) == 181 + leap;
    assert DaysBeforeMonth(year, 8) == 212 + leap;
    assert DaysBeforeMonth(year, 9) == 243 + leap;
    assert DaysBeforeMonth(year, 10) == 273 + leap;
    assert DaysBeforeMonth(year, 11) == 304 + leap;
    assert DaysBeforeMonth(year, 12) == 334 + leap;
  }

  /** Every month after January starts at least 31 days into the year. */
  lemma {:induction false} DaysBeforeLaterMonth(year: int, month: int)
    requires 2 <= month <= 13
    ensures DaysBeforeMonth(year, month) >= 31
  {
    if month > 2 {
      DaysBeforeLaterMonth(year, month - 1);
    }
  }

  /** The 1-based position of a day within its year. */
  function DayOfYear(d: Date): int
    requires Valid(d)
  {
    DaysBeforeMonth(d.year, d.month) + d.day
  }

  /** The following day, rolling over month and year ends. */
  function Next(d: Date): (r: Date)
    requires Valid(d)
    ensures Valid(r) && Before(d, r)
  {
    if d.day < DaysInMonth(d.year, d.month) then Date(d.year, d.month, d.day + 1)
    else if d.month < 12 then Date(d.year, d.month + 1, 1)
    else Date(d.year + 1, 1, 1)
  }

  /** The previous day, rolling back over month and year starts; `Next` undoes it. */
  function Prev(d: Date): (r: Date)
    requires Valid(d)
    ensures Valid(r) && Before(r, d)
    ensures Next(r) == d
  {
    if d.day > 1 then Date(d.year, d.month, d.day - 1)
    else if d.month > 1 then Date(d.year, d.month - 1, DaysInMonth(d.year, d.month - 1))
    else Date(d.year - 1, 12, 31)
  }

  /** Stepping forward then back returns to the same day. */
  lemma PrevNext(d: Date)
    requires Valid(d)
    ensures Prev(Next(d)) == d
  {
  }

  /**
   * Within a year, `Prev` lowers the day of the year by one; only January 1
   * crosses into the previous year, landing on its December 31.
   */
  lemma PrevDayOfYear(d: Date)
    requires Valid(d)
    ensures DayOfYear(d) > 1 ==> Prev(d).year == d.year && DayOfYear(Prev(d)) == DayOfYear(d) - 1
    ensures DayOfYear(d) == 1 <==> d == Date(d.year, 1, 1)
    ensures DayOfYear(d) == 1 ==> Prev(d) == Date(d.year - 1, 12, 31)
  {
    if d.month > 1 {
      DaysBeforeLaterMonth(d.year, d.month);
    }
  }

  /** `k` days before `d`. */
  function Back(d: Date, k: nat): (r: Date)
    requires Valid(d)
    ensures Valid(r)
    ensures k > 0 ==> Before(r, d)
  {
    if k == 0 then d else Prev(Back(d, k - 1))
  }

  /** `k` days after `d`. */
  function Forward(d: Date, k: nat): (r: Date)
    requires Valid(d)
    ensures Valid(r)
    ensures k > 0 ==> Before(d, r)
    decreases k
  {
    if k == 0 then d else Forward(Next(d), k - 1)
  }

  /** Going `k` days back and then `k` days forward returns to the start. */
  lemma {:induction false} ForwardBack(d: Date, k: nat)
    requires Valid(d)
    ensures Forward(Back(d, k), k) == d
  {
    if k > 0 {
      ForwardBack(d, k - 1);
    }
  }

  /** Going `k` days forward and then `k` days back returns to the start. */
  lemma {:induction false} BackForward(d: Date, k: nat)
    requires Valid(d)
    ensures Back(Forward(d, k), k) == d
    decreases k
  {
    if k > 0 {
      BackForward(Next(d), k - 1);
      BackPeel(Forward(d, k), k - 1);
      PrevNext(d);
    }
  }

  /** `k + 1` days back is `k` days back from the day before. */
  lemma {:induction false} BackPeel(d: Date, k: nat)
    requires Valid(d)
    ensures Back(d, k + 1) == Back(Prev(d), k)
  {
    if k > 0 {
      BackPeel(d, k - 1);
    }
  }

  /** Walking back `a` days and then `b` days is walking back `a + b` days. */
  lemma {:induction false} BackAdd(d: Date, a: nat, b: nat)
    requires Valid(d)
    ensures Back(Back(d, a), b) == Back(d, a + b)
  {
    if b > 0 {
      BackAdd(d, a, b - 1);
    }
  }

  /** Fewer steps back than the day of the year stay inside the same year. */
  lemma {:induction false} BackWithinYear(d: Date, k: nat)
    requires Valid(d) && k < DayOfYear(d)
    ensures Back(d, k).year == d.year
    ensures DayOfYear(Back(d, k)) == DayOfYear(d) - k
  {
    if k > 0 {
      BackWithinYear(d, k - 1);
      PrevDayOfYear(Back(d, k - 1));
    }
  }

  /** A year's worth of steps back reaches at most into the previous year. */
  lemma BackYearBound(d: Date, k: nat)
    requires Valid(d) && k <= 365
    ensures Back(d, k).year >= d.year - 1
  {
    var n := DayOfYear(d);
    if k >= n {
      BackWithinYear(d, n - 1);
      var jan1 := Back(d, n - 1);
      PrevDayOfYear(jan1);
      var dec31 := Prev(jan1);
      assert dec31 == Back(d, n);
      YearLength(d.year - 1);
      BackWithinYear(dec31, k - n);
      BackAdd(d, n, k - n);
    } else {
      BackWithinYear(d, k);
    }
  }

  /** `k + 1` days forward is one day after `k` days forward. */
  lemma {:induction false} ForwardNext(d: Date, k: nat)
    requires Valid(d)
    ensures Forward(d, k + 1) == Next(Forward(d, k))
    decreases k
  {
    if k > 0 {
      ForwardNext(Next(d), k - 1);
    }
  }

  /** Walking forward `a` days and then `b` days is walking forward `a + b` days. */
  lemma {:induction false} ForwardAdd(d: Date, a: nat, b: nat)
    requires Valid(d)
    ensures Forward(Forward(d, a), b) == Forward(d, a + b)
    decreases a
  {
    if a > 0 {
      ForwardAdd(Next(d), a - 1, b);
    }
  }

  /** Within a month, walking forward only advances the day of the month. */
  lemma {:induction false} ForwardInMonth(d: Date, k: nat)
    requires Valid(d) && d.day + k <= DaysInMonth(d.year, d.month)
    ensures Forward(d, k) == Date(d.year, d.month, d.day + k)
    decreases k
  {
    if k > 0 {
      ForwardInMonth(Next(d), k - 1);
    }
  }

  /** Tomohiko Sakamoto's month offsets for the day-of-week formula. */
  function MonthOffset(month: int): int
    requires 1 <= month <= 12
  {
    [0, 3, 2, 5, 0, 3, 5, 1, 4, 6, 2, 4][month - 1]
  }

  /** Leap days counted up to and including year `y`, plus `y` itself. */
  function YearShift(y: int): int {
    y + y / 4 - y / 100 + y / 400
  }

  /** The day of the week, 0 for Sunday through 6 for Saturday (`getDay`). */
  function Weekday(d: Date): (w: int)
    requires 1 <= d.month <= 12
    ensures 0 <= w < 7
  {
    WeekdaySum(d) % 7
  }

  /** A year advances the weekday of a fixed date by one, or by two after a leap day. */
  lemma YearShiftStep(y: int)
    ensures YearShift(y) - YearShift(y - 1) == if IsLeapYear(y) then 2 else 1
  {
    DivStepFour(y);
    DivStepHundred(y);
    DivStepFourHundred(y);
    CenturyDivisors(y);
  }

  /** A multiple of 400 is a multiple of 100, and a multiple of 100 one of 4. */
  lemma CenturyDivisors(y: int)
    ensures y % 400 == 0 ==> y % 100 == 0
    ensures y % 100 == 0 ==> y % 4 == 0
  {
    if y % 400 == 0 {
      assert y == 100 * (4 * (y / 400));
      MultipleOfHundred(4 * (y / 400));
    }
    if y % 100 == 0 {
      assert y == 4 * (25 * (y / 100));
      MultipleOfFour(25 * (y / 100));
    }
  }

  lemma MultipleOfHundred(k: int)
    ensures (100 * k) % 100 == 0
  {
  }

  lemma MultipleOfFour(k: int)
    ensures (4 * k) % 4 == 0
  {
  }

  /** Going from `y - 1` to `y` passes a multiple of 4 exactly when `y` is one. */
  lemma DivStepFour(y: int)
    ensures y / 4 - (y - 1) / 4 == if y % 4 == 0 then 1 else 0
  {
  }

  /** Going from `y - 1` to `y` passes a multiple of 100 exactly when `y` is one. */
  lemma DivStepHundred(y: int)
    ensures y / 100 - (y - 1) / 100 == if y % 100 == 0 then 1 else 0
  {
  }

  /** Going from `y - 1` to `y` passes a multiple of 400 exactly when `y` is one. */
  lemma DivStepFourHundred(y: int)
    ensures y / 400 - (y - 1) / 400 == if y % 400 == 0 then 1 else 0
  {
  }

  lemma ModSevenStep(a: int, b: int)
    requires (b - 1) % 7 == 0
    ensures (a + b) % 7 == (a % 7 + 1) % 7
  {
  }

  /** Each month offset is the previous one shifted by the previous month's length. */
  lemma MonthOffsetStep(year: int, month: int)
    requires 1 <= month <= 11 && month != 2
    ensures (MonthOffset(month + 1) - MonthOffset(month) - DaysInMonth(year, month)) % 7 == 0
  {
  }

  /** The weekday advances by one, modulo seven, from each day to the next. */
  lemma WeekdayNext(d: Date)
    requires Valid(d)
    ensures Weekday(Next(d)) == (Weekday(d) + 1) % 7
  {
    if d.day < DaysInMonth(d.year, d.month) {
      WeekdayNextInMonth(d);
    } else if d.month == 2 {
      WeekdayNextFebruary(d);
    } else if d.month < 12 {
      WeekdayNextMonthEnd(d);
    } else {
      WeekdayNextYearEnd(d);
    }
  }

  /** The sum Sakamoto's formula reduces modulo seven. */
  function WeekdaySum(d: Date): int
    requires 1 <= d.month <= 12
  {
    YearShift(if d.month < 3 then d.year - 1 else d.year) + MonthOffset(d.month) + d.day
  }

  lemma WeekdayNextInMonth(d: Date)
    requires Valid(d) && d.day < DaysInMonth(d.year, d.month)
    ensures Weekday(Next(d)) == (Weekday(d) + 1) % 7
  {
    var n := Next(d);
    assert WeekdaySum(n) == WeekdaySum(d) + 1 by {
      assert n == Date(d.year, d.month, d.day + 1);
    }
    ModSevenStep(WeekdaySum(d), 1);
  }

  lemma WeekdayNextFebruary(d: Date)
    requires Valid(d) && d.month == 2 && d.day == DaysInMonth(d.year, 2)
    ensures Weekday(Next(d)) == (Weekday(d) + 1) % 7
  {
    var n := Next(d);
    assert WeekdaySum(n) == WeekdaySum(d) + (1 - 28) by {
      assert n == Date(d.year, 3, 1);
      var before := YearShift(d.year - 1);
      var after := YearShift(d.year);
      assert WeekdaySum(d) == before + 3 + d.day;
      assert WeekdaySum(n) == after + 3;
      assert after + 3 == before + 3 + d.day + 1 - 28 by {
        YearShiftStep(d.year);
      }
    }
    ModSevenStep(WeekdaySum(d), 1 - 28);
  }

  lemma WeekdayNextMonthEnd(d: Date)
    requires Valid(d) && d.month != 2 && d.month < 12 && d.day == DaysInMonth(d.year, d.month)
    ensures Weekday(Next(d)) == (Weekday(d) + 1) % 7
  {
    var n := Next(d);
    var b := MonthOffset(d.month + 1) + 1 - MonthOffset(d.month) - d.day;
    assert WeekdaySum(n) == WeekdaySum(d) + b by {
      assert n == Date(d.year, d.month + 1, 1);
    }
    assert (b - 1) % 7 == 0 by {
      MonthOffsetStep(d.year, d.month);
    }
    ModSevenStep(WeekdaySum(d), b);
  }

  lemma WeekdayNextYearEnd(d: Date)
    requires Valid(d) && d.month == 12 && d.day == 31
    ensures Weekday(Next(d)) == (Weekday(d) + 1) % 7
  {
    var n := Next(d);
    assert WeekdaySum(n) == WeekdaySum(d) + (1 - 35) by {
      assert n == Date(d.year + 1, 1, 1);
      var ys := YearShift(d.year);
      assert WeekdaySum(d) == ys + 4 + 31;
      assert WeekdaySum(n) == ys + 0 + 1;
    }
    ModSevenStep(WeekdaySum(d), 1 - 35);
  }

  /** The weekday goes back by one, modulo seven, from each day to the previous one. */
  lemma WeekdayPrev(d: Date)
    requires Valid(d)
    ensures Weekday(d) == (Weekday(Prev(d)) + 1) % 7
  {
    WeekdayNext(Prev(d));
  }

  /** `k` days forward advances the weekday by `k`, modulo seven. */
  lemma {:induction false} WeekdayForward(d: Date, k: nat)
    requires Valid(d)
    ensures Weekday(Forward(d, k)) == (Weekday(d) + k) % 7
    decreases k
  {
    if k == 0 {
      assert Forward(d, 0) == d;
      ModSevenOfWeekday(Weekday(d));
    } else {
      WeekdayForward(Next(d), k - 1);
      WeekdayForwardStep(d, k);
    }
  }

  lemma ModSevenOfWeekday(w: int)
    requires 0 <= w < 7
    ensures (w + 0) % 7 == w
  {
  }

  /** The inductive step: the weekday after the first day, carried `k - 1` days further. */
  lemma WeekdayForwardStep(d: Date, k: nat)
    requires Valid(d) && k >= 1
    requires Weekday(Forward(Next(d), k - 1)) == (Weekday(Next(d)) + (k - 1)) % 7
    ensures Weekday(Forward(d, k)) == (Weekday(d) + k) % 7
  {
    var n := Next(d);
    var wd, wn, wf := Weekday(d), Weekday(n), Weekday(Forward(d, k));
    assert wn == (wd + 1) % 7 by {
      WeekdayNext(d);
    }
    assert wf == (wn + (k - 1)) % 7 by {
      assert Forward(d, k) == Forward(n, k - 1);
    }
    ModSevenChain(wd, wn, wf, k);
  }

  /** `k` days back moves the weekday back by `k`, modulo seven. */
  lemma WeekdayBack(d: Date, k: nat)
    requires Valid(d)
    ensures (Weekday(Back(d, k)) + k) % 7 == Weekday(d)
  {
    var start := Back(d, k);
    assert Forward(start, k) == d by {
      ForwardBack(d, k);
    }
    WeekdayReached(start, d, k);
  }

  /** A date reached `k` days forward is `k` weekdays on, modulo seven. */
  lemma WeekdayReached(start: Date, reached: Date, k: nat)
    requires Valid(start) && Forward(start, k) == reached
    ensures (Weekday(start) + k) % 7 == Weekday(reached)
  {
    WeekdayForward(start, k);
  }

  /** One step of one and then `k - 1` more is `k` steps, modulo seven. */
  lemma ModSevenChain(w: int, w1: int, wk: int, k: nat)
    requires 0 <= w < 7 && k >= 1
    requires w1 == (w + 1) % 7 && wk == (w1 + (k - 1)) % 7
    ensures wk == (w + k) % 7
  {
    ModSevenShift(w, k);
  }

  lemma ModSevenShift(w: int, k: nat)
    requires 0 <= w < 7 && k >= 1
    ensures ((w + 1) % 7 + (k - 1)) % 7 == (w + k) % 7
  {
    if w == 6 {
      assert (w + 1) % 7 == 0;
      assert (w + k) % 7 == (k - 1) % 7;
    }
  }

  /** 1 January 1970, the epoch of JavaScript time values, was a Thursday. */
  lemma EpochIsThursday()
    ensures Weekday(Date(1970, 1, 1)) == 4
  {
  }

  /** Dates whose year the four-digit key format covers. */
  predicate HasIsoKey(d: Date) {
    Valid(d) && 0 <= d.year <= 9999
  }

  /** A natural number below 10^k renders in at most k digits. */
  lemma {:induction false} ShowNatAtMost(n: nat, k: nat)
    requires 1 <= k && n < Pow10(k)
    ensures |ShowNat(n)| <= k
    decreases k
  {
    if n >= 10 {
      assert Pow10(k) == 10 * Pow10(k - 1);
      ShowNatAtMost(n / 10, k - 1);
    }
  }

  function YearField(d: Date): string
    requires HasIsoKey(d)
  {
    PadStart(ShowNat(d.year), 4, '0')
  }

  function MonthField(d: Date): string
    requires HasIsoKey(d)
  {
    PadStart(ShowNat(d.month), 2, '0')
  }

  function DayField(d: Date): string
    requires HasIsoKey(d)
  {
    PadStart(ShowNat(d.day), 2, '0')
  }

  /** The `YYYY-MM-DD` key of a date, as `toISOString().split('T')[0]` gives it. */
  function IsoKey(d: Date): (k: string)
    requires HasIsoKey(d)
    ensures |k| == 10 && k[4] == '-' && k[7] == '-'
  {
    ShowNatAtMost(d.year, 4);
    ShowNatAtMost(d.month, 2);
    ShowNatAtMost(d.day, 2);
    JoinThree(YearField(d), MonthField(d), DayField(d), '-');
    Join([YearField(d), MonthField(d), DayField(d)], '-')
  }

  /** Splitting a key at its dashes gives its three zero-padded fields. */
  lemma IsoKeySplit(d: Date)
    requires HasIsoKey(d)
    ensures Split(IsoKey(d), '-') == [YearField(d), MonthField(d), DayField(d)]
  {
    ZeroPaddedValue(d.year, 4);
    ZeroPaddedValue(d.month, 2);
    ZeroPaddedValue(d.day, 2);
    SplitDigitFields(YearField(d), MonthField(d), DayField(d));
  }

  /** Reading the fields of a key as numbers gives back the date. */
  lemma IsoKeyFields(d: Date)
    requires HasIsoKey(d)
    ensures JsNumber(YearField(d)) == Some(d.year)
    ensures JsNumber(MonthField(d)) == Some(d.month)
    ensures JsNumber(DayField(d)) == Some(d.day)
  {
    JsNumberOfShow(d.year, 4);
    JsNumberOfShow(d.month, 2);
    JsNumberOfShow(d.day, 2);
  }

  /** Distinct dates have distinct keys, so a key lookup finds exactly its own day. */
  lemma IsoKeyInjective(a: Date, b: Date)
    requires HasIsoKey(a) && HasIsoKey(b)
    ensures IsoKey(a) == IsoKey(b) <==> a == b
  {
    if IsoKey(a) == IsoKey(b) {
      IsoKeySplit(a);
      IsoKeySplit(b);
      IsoKeyFields(a);
      IsoKeyFields(b);
    }
  }
}
