/**
 * The "Current Streak" figure of the main screen (App.tsx `streakCount`):
 * consecutive days with at least one completion, counted back from
 * today, where an incomplete today is passed over rather than ending the
 * streak, and at most a year of days is examined.
 *
 * The walk only ever looks at one number per day, the completion count of
 * the log for that day's key, so the streak is stated over the sequence of
 * those counts, today first.
 */
module Streak {
  import opened Calendar
  import opened Types

  /** The number of days the walk examines at most. */
  const MaxLookback: nat := 365

  /** The key of the day `k` days before today; every such day has one. */
  function KeyBack(today: Date, k: nat): string
    requires HasIsoKey(today) && today.year >= 1 && k <= MaxLookback
  {
    BackYearBound(today, k);
    IsoKey(Back(today, k))
  }

  /** Completion counts of today and the 364 days before it, today first. */
  function DayCounts(logs: seq<DailyLog>, today: Date): (c: seq<nat>)
    requires HasIsoKey(today) && today.year >= 1
    ensures |c| == MaxLookback
  {
    seq(MaxLookback, k requires 0 <= k < MaxLookback => CompletedCount(logs, KeyBack(today, k)))
  }

  /**
   * Entry `k` of the counts is the number of ids of the log `find` returns
   * for the day `k` days back, 0 without one.
   */
  lemma DayCountsFound(logs: seq<DailyLog>, today: Date)
    requires HasIsoKey(today) && today.year >= 1
    ensures forall k :: 0 <= k < MaxLookback ==> DayCounts(logs, today)[k] == |Completed(logs, KeyBack(today, k))|
  {
    forall k | 0 <= k < MaxLookback
      ensures DayCounts(logs, today)[k] == |Completed(logs, KeyBack(today, k))|
    {
      CompletedCountIsFound(logs, KeyBack(today, k));
    }
  }

  /** The number of consecutive non-zero counts starting at `from`. */
  function Run(counts: seq<nat>, from: nat): (r: nat)
    requires from <= |counts|
    ensures from + r <= |counts|
    decreases |counts| - from
  {
    if from == |counts| || counts[from] == 0 then 0 else 1 + Run(counts, from + 1)
  }

  /**
   * `Run` is the length of the run: every count in it is non-zero and,
   * unless the sequence ran out, the count right after it is zero.
   */
  lemma {:induction false} RunIsMaximal(counts: seq<nat>, from: nat)
    requires from <= |counts|
    ensures forall k :: from <= k < from + Run(counts, from) ==> counts[k] > 0
    ensures from + Run(counts, from) < |counts| ==> counts[from + Run(counts, from)] == 0
    decreases |counts| - from
  {
    if from < |counts| && counts[from] > 0 {
      RunIsMaximal(counts, from + 1);
    }
  }

  /** Any stretch of non-zero counts followed by a zero or the end is the run. */
  lemma {:induction false} RunUnique(counts: seq<nat>, from: nat, len: nat)
    requires from + len <= |counts|
    requires forall k :: from <= k < from + len ==> counts[k] > 0
    requires from + len == |counts| || counts[from + len] == 0
    ensures Run(counts, from) == len
    decreases len
  {
    if len > 0 {
      RunUnique(counts, from + 1, len - 1);
    }
  }

  /**
   * The streak over the counts: the run starting today when today has a
   * completion, otherwise the run starting yesterday.
   */
  function StreakFrom(counts: seq<nat>): (s: nat)
    requires |counts| >= 1
    ensures s <= |counts| - (if counts[0] > 0 then 0 else 1)
  {
    if counts[0] > 0 then Run(counts, 0) else Run(counts, 1)
  }

  /** The streak of the stored logs as of `today`. */
  function StreakOf(logs: seq<DailyLog>, today: Date): nat
    requires HasIsoKey(today) && today.year >= 1
  {
    StreakFrom(DayCounts(logs, today))
  }

  /**
   * The loop of App.tsx: walk back from today one day per iteration for
   * at most 365 iterations; count a day whose log has a completion, pass
   * over today when it has none, and stop at the first other such day.
   */
  method StreakCount(logs: seq<DailyLog>, today: Date) returns (count: nat)
    requires Valid(today) && 1 <= today.year <= 9999
    ensures count == StreakOf(logs, today)
    ensures count <= MaxLookback
  {
    ghost var c := DayCounts(logs, today);
    var todayKey := IsoKey(today);
    count := 0;
    var check := today;
    var i := 0;
    while i < MaxLookback
      invariant 0 <= i <= MaxLookback
      invariant check == Back(today, i)
      invariant WalkSoFar(c, i, count)
    {
      var active, isToday := ReadDay(logs, today, todayKey, i, check);
      if active {
        WalkCounts(c, i, count);
        count := count + 1;
        check := Prev(check);
      } else if isToday {
        WalkSkipsToday(c, count);
        check := Prev(check);
        i := i + 1;
        continue;
      } else {
        WalkStops(c, i, count);
        break;
      }
      i := i + 1;
    }
    if i == MaxLookback {
      WalkEnds(c, count);
    }
  }

  /**
   * One day of the walk: the key of `check`, whether its log has a
   * completion, and whether the key is today's.
   */
  method ReadDay(logs: seq<DailyLog>, today: Date, todayKey: string, i: nat, check: Date)
    returns (active: bool, isToday: bool)
    requires Valid(today) && 1 <= today.year <= 9999 && i < MaxLookback
    requires check == Back(today, i) && todayKey == IsoKey(today)
    ensures active <==> DayCounts(logs, today)[i] > 0
    ensures isToday <==> i == 0
  {
    BackYearBound(today, i);
    var dateStr := IsoKey(check);
    var log := FindLog(logs, dateStr);
    DayOfWalk(logs, today, i, dateStr);
    active := log.Some? && |log.value.completedGoalIds| > 0;
    isToday := dateStr == todayKey;
  }

  /**
   * What the walk has established after `i` days: nothing counted yet on
   * day 0, afterwards `count` plus the run still ahead is the streak.
   */
  predicate WalkSoFar(c: seq<nat>, i: nat, count: nat)
    requires 1 <= |c| && i <= |c|
  {
    if i == 0 then count == 0 else StreakFrom(c) == count + Run(c, i)
  }

  /** A day with completions adds one to the count and the walk goes on. */
  lemma WalkCounts(c: seq<nat>, i: nat, count: nat)
    requires i < |c| && c[i] > 0 && WalkSoFar(c, i, count)
    ensures WalkSoFar(c, i + 1, count + 1)
  {
  }

  /** An incomplete today is passed over: the streak is the run from yesterday. */
  lemma WalkSkipsToday(c: seq<nat>, count: nat)
    requires 1 <= |c| && c[0] == 0 && WalkSoFar(c, 0, count)
    ensures WalkSoFar(c, 1, count)
  {
  }

  /** Any other day without completions ends the walk with the streak counted. */
  lemma WalkStops(c: seq<nat>, i: nat, count: nat)
    requires 0 < i < |c| && c[i] == 0 && WalkSoFar(c, i, count)
    ensures count == StreakFrom(c)
  {
  }

  /** After the last day the streak is what has been counted. */
  lemma WalkEnds(c: seq<nat>, count: nat)
    requires 1 <= |c| && WalkSoFar(c, |c|, count)
    ensures count == StreakFrom(c)
  {
  }

  /** What the walk sees on its `i`-th day: the day's count, and whether the day is today. */
  lemma DayOfWalk(logs: seq<DailyLog>, today: Date, i: nat, dateStr: string)
    requires HasIsoKey(today) && today.year >= 1 && i < MaxLookback
    requires dateStr == KeyBack(today, i)
    ensures DayCounts(logs, today)[i] == (if FindLog(logs, dateStr).Some? then |FindLog(logs, dateStr).value.completedGoalIds| else 0)
    ensures dateStr == IsoKey(today) <==> i == 0
  {
    FoundCount(logs, dateStr, if FindLog(logs, dateStr).Some? then |FindLog(logs, dateStr).value.completedGoalIds| else 0);
    BackYearBound(today, i);
    var d := Back(today, i);
    IsoKeyInjective(d, today);
    if d == today {
      assert i == 0;
    }
  }

  /**
   * The streak is the longest stretch of days with completions that ends
   * today, or ends yesterday when today has none yet: every day in it has
   * a completion and the day before it has none, unless the year ran out.
   */
  lemma StreakIsLongestRun(counts: seq<nat>, s: nat)
    requires |counts| >= 1
    ensures var start := if counts[0] > 0 then 0 else 1;
            StreakFrom(counts) == s <==>
              && start + s <= |counts|
              && (forall k :: start <= k < start + s ==> counts[k] > 0)
              && (start + s == |counts| || counts[start + s] == 0)
  {
    var start := if counts[0] > 0 then 0 else 1;
    RunIsMaximal(counts, start);
    if start + s <= |counts| && (forall k :: start <= k < start + s ==> counts[k] > 0)
       && (start + s == |counts| || counts[start + s] == 0) {
      RunUnique(counts, start, s);
    }
  }

  /** An incomplete today neither counts nor breaks the streak. */
  lemma TodayIsLenient(counts: seq<nat>)
    requires |counts| >= 2 && counts[0] == 0
    ensures StreakFrom(counts) == Run(counts, 1)
    ensures counts[1] > 0 ==> StreakFrom(counts) >= 1
  {
  }

  /** A later day without completions ends the streak: nothing before it is counted. */
  lemma {:induction false} GapEndsStreak(counts: seq<nat>, gap: nat)
    requires 1 <= gap < |counts| && counts[gap] == 0
    ensures StreakFrom(counts) <= gap - (if counts[0] > 0 then 0 else 1)
  {
    var start := if counts[0] > 0 then 0 else 1;
    RunIsMaximal(counts, start);
  }

  /** Completions today and on the two days before, and none the day before those: a streak of 3. */
  lemma ThreeDayStreak(counts: seq<nat>)
    requires |counts| >= 4 && counts[0] > 0 && counts[1] > 0 && counts[2] > 0 && counts[3] == 0
    ensures StreakFrom(counts) == 3
  {
    RunUnique(counts, 0, 3);
  }

  /** No completion today, one yesterday and none the day before: a streak of 1. */
  lemma YesterdayOnlyStreak(counts: seq<nat>)
    requires |counts| >= 3 && counts[0] == 0 && counts[1] > 0 && counts[2] == 0
    ensures StreakFrom(counts) == 1
  {
    RunUnique(counts, 1, 1);
  }

  /** A day with a log but no completions ends the streak just like a day without a log. */
  lemma EmptyLogIsInactive(logs: seq<DailyLog>, today: Date, k: nat)
    requires HasIsoKey(today) && today.year >= 1 && k < MaxLookback
    requires forall j :: 0 <= j < |logs| && logs[j].date == KeyBack(today, k) ==> logs[j].completedGoalIds == []
    ensures DayCounts(logs, today)[k] == 0
  {
    CompletedCountIsFound(logs, KeyBack(today, k));
  }
}
