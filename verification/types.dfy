/**
 * The two records of the tracker, goals and daily logs, with the lookup
 * every view uses (`logs.find(l => l.date === date)`) and the invariants
 * the state is meant to keep: one log per date, no goal id twice in a
 * log, no goal without a category.
 */
module Types {
  import opened Wrappers

  datatype Goal = Goal(id: string, title: string, categories: seq<string>, createdAt: int)

  /** The goals completed on one date; `date` is a `YYYY-MM-DD` key. */
  datatype DailyLog = DailyLog(date: string, completedGoalIds: seq<string>)

  predicate NoDuplicates<T(==)>(s: seq<T>) {
    forall i, j :: 0 <= i < j < |s| ==> s[i] != s[j]
  }

  /** `a` keeps some of the elements of `b`, in their original order. */
  predicate IsSubsequence<T(==)>(a: seq<T>, b: seq<T>)
    decreases |b|
  {
    if |b| == 0 then |a| == 0
    else IsSubsequence(a, b[1..]) || (|a| > 0 && a[0] == b[0] && IsSubsequence(a[1..], b[1..]))
  }

  /** Appending an element to the longer list keeps a subsequence one; appending it to both does too. */
  lemma {:induction false} SubsequenceExtend<T>(a: seq<T>, b: seq<T>, x: T)
    requires IsSubsequence(a, b)
    ensures IsSubsequence(a, b + [x])
    ensures IsSubsequence(a + [x], b + [x])
    decreases |b|
  {
    if |b| == 0 {
      assert [x][1..] == [];
      assert (a + [x])[1..] == [];
    } else {
      assert (b + [x])[1..] == b[1..] + [x];
      if IsSubsequence(a, b[1..]) {
        SubsequenceExtend(a, b[1..], x);
      } else {
        SubsequenceExtend(a[1..], b[1..], x);
        assert (a + [x])[1..] == a[1..] + [x];
      }
    }
  }

  /** At most one log per date. */
  predicate UniqueDates(logs: seq<DailyLog>) {
    forall i, j :: 0 <= i < j < |logs| ==> logs[i].date != logs[j].date
  }

  predicate WellFormedLogs(logs: seq<DailyLog>) {
    && UniqueDates(logs)
    && forall i :: 0 <= i < |logs| ==> NoDuplicates(logs[i].completedGoalIds)
  }

  /** Every goal keeps at least one category. */
  predicate WellFormedGoals(goals: seq<Goal>) {
    forall i :: 0 <= i < |goals| ==> |goals[i].categories| > 0
  }

  predicate HasGoalId(goals: seq<Goal>, id: string) {
    exists i :: 0 <= i < |goals| && goals[i].id == id
  }

  /** The index of the first log for `date`, as `Array.prototype.find` visits them. */
  function FirstLogIndex(logs: seq<DailyLog>, date: string): (r: Option<nat>)
    ensures r.Some? ==> r.value < |logs| && logs[r.value].date == date
    ensures r.Some? ==> forall j :: 0 <= j < r.value ==> logs[j].date != date
    ensures r.None? ==> forall j :: 0 <= j < |logs| ==> logs[j].date != date
  {
    if |logs| == 0 then None
    else if logs[0].date == date then Some(0)
    else match FirstLogIndex(logs[1..], date)
      case None => None
      case Some(k) => Some(k + 1)
  }

  /** `logs.find(l => l.date === date)`. */
  function FindLog(logs: seq<DailyLog>, date: string): Option<DailyLog> {
    match FirstLogIndex(logs, date)
    case None => None
    case Some(k) => Some(logs[k])
  }

  /** The log `find` returns holds the date and is one of the stored logs; it finds nothing exactly when no log holds the date. */
  lemma FindLogSpec(logs: seq<DailyLog>, date: string)
    ensures FindLog(logs, date).Some? ==> FindLog(logs, date).value.date == date && FindLog(logs, date).value in logs
    ensures FindLog(logs, date).None? <==> forall j :: 0 <= j < |logs| ==> logs[j].date != date
  {
  }

  /** The log shown for a date: the stored one, or an empty one (App.tsx `selectedLog`). */
  function SelectedLog(logs: seq<DailyLog>, date: string): (r: DailyLog)
    ensures r.date == date
    ensures FirstLogIndex(logs, date).Some? ==> r == logs[FirstLogIndex(logs, date).value]
    ensures (forall j :: 0 <= j < |logs| ==> logs[j].date != date) ==> r.completedGoalIds == []
  {
    FindLog(logs, date).GetOr(DailyLog(date, []))
  }

  /** The ids completed on a date, empty when no log exists for it. */
  function Completed(logs: seq<DailyLog>, date: string): seq<string> {
    SelectedLog(logs, date).completedGoalIds
  }

  /**
   * The per-day count of the calendars and the streak: the number of ids
   * in the first log for `date`, 0 when there is none.
   */
  function CompletedCount(logs: seq<DailyLog>, date: string): nat {
    if |logs| == 0 then 0
    else if logs[0].date == date then |logs[0].completedGoalIds|
    else CompletedCount(logs[1..], date)
  }

  /** The count is the size of the log the lookup returns (`log ? log.completedGoalIds.length : 0`). */
  lemma {:induction false} CompletedCountIsFound(logs: seq<DailyLog>, date: string)
    ensures CompletedCount(logs, date) == |Completed(logs, date)|
    ensures CompletedCount(logs, date) == (if FindLog(logs, date).Some? then |FindLog(logs, date).value.completedGoalIds| else 0)
  {
    if |logs| > 0 && logs[0].date != date {
      CompletedCountIsFound(logs[1..], date);
      match FirstLogIndex(logs[1..], date)
      case None =>
      case Some(k) => assert logs[1..][k] == logs[k + 1];
    }
  }

  /** The count computed from the looked-up log is the day's count. */
  lemma FoundCount(logs: seq<DailyLog>, date: string, count: nat)
    requires count == (if FindLog(logs, date).Some? then |FindLog(logs, date).value.completedGoalIds| else 0)
    ensures count == CompletedCount(logs, date)
  {
    CompletedCountIsFound(logs, date);
  }

  /** Appending one element keeps the earlier entries and puts the new one last. */
  lemma AppendEntries<T>(init: seq<T>, last: T, s: seq<T>)
    requires s == init + [last]
    ensures |s| == |init| + 1 && s[|init|] == last
    ensures forall k :: 0 <= k < |init| ==> s[k] == init[k]
  {
  }

  /** The entries of `b` follow those of `a` in `a + b`. */
  lemma ConcatTail<T>(a: seq<T>, b: seq<T>)
    ensures forall k :: 0 <= k < |b| ==> (a + b)[|a| + k] == b[k]
  {
  }

  /** With one log per date, the lookup returns the log stored at any index holding that date. */
  lemma FindUnique(logs: seq<DailyLog>, i: nat)
    requires UniqueDates(logs) && i < |logs|
    ensures FindLog(logs, logs[i].date) == Some(logs[i])
    ensures Completed(logs, logs[i].date) == logs[i].completedGoalIds
  {
  }

  /** A log appended after an existing log for the same date is never found. */
  lemma FindAppend(logs: seq<DailyLog>, extra: DailyLog, date: string)
    ensures FindLog(logs + [extra], date) ==
      if FindLog(logs, date).Some? then FindLog(logs, date)
      else if extra.date == date then Some(extra)
      else None
  {
    var all := logs + [extra];
    var k := FirstLogIndex(all, date);
    match FirstLogIndex(logs, date)
    case Some(j) =>
      assert all[j] == logs[j];
      assert k.Some? && k.value <= j;
      assert all[k.value] == logs[k.value];
    case None =>
      assert all[|logs|] == extra;
      assert forall j :: 0 <= j < |logs| ==> all[j] == logs[j];
  }
}
