/**
 * The state transitions of the tracker's main screen: toggling a goal's
 * completion on the selected date, adding, editing, deleting and
 * reordering goals, and seeding the starter goals on first run. Each
 * transition takes the current collections and returns the new ones.
 */
module Tracker {
  import opened Wrappers
  import opened Text
  import opened Types
  import opened Defaults

  // ---------------------------------------------------------------------
  // Completion toggle
  // ---------------------------------------------------------------------

  /** `ids.filter(x => x !== id)`: every occurrence of `id` goes, the rest keep their order. */
  function Remove(ids: seq<string>, id: string): (r: seq<string>)
    ensures multiset(r) == multiset(ids)[id := 0]
    ensures forall x :: x in r <==> x in ids && x != id
    ensures IsSubsequence(r, ids)
    ensures NoDuplicates(ids) ==> NoDuplicates(r)
    decreases |ids|
  {
    if |ids| == 0 then []
    else
      var rest := Remove(ids[1..], id);
      var r := if ids[0] == id then rest else [ids[0]] + rest;
      RemoveStep(ids, id, rest, r);
      r
  }

  /** One step of the filter: the head is dropped, or kept in front of the filtered tail. */
  lemma RemoveStep(ids: seq<string>, id: string, rest: seq<string>, r: seq<string>)
    requires |ids| > 0
    requires multiset(rest) == multiset(ids[1..])[id := 0]
    requires forall x :: x in rest <==> x in ids[1..] && x != id
    requires IsSubsequence(rest, ids[1..])
    requires NoDuplicates(ids[1..]) ==> NoDuplicates(rest)
    requires r == if ids[0] == id then rest else [ids[0]] + rest
    ensures multiset(r) == multiset(ids)[id := 0]
    ensures forall x :: x in r <==> x in ids && x != id
    ensures IsSubsequence(r, ids)
    ensures NoDuplicates(ids) ==> NoDuplicates(r)
  {
    assert ids == [ids[0]] + ids[1..];
    RemoveStepCount(ids, id, rest, r);
    RemoveStepOrder(ids, rest, r);
    if NoDuplicates(ids) {
      TailNoDuplicates(ids);
      if ids[0] != id {
        ConsNoDuplicates(ids[0], rest);
      }
    }
  }

  lemma RemoveStepCount(ids: seq<string>, id: string, rest: seq<string>, r: seq<string>)
    requires |ids| > 0 && ids == [ids[0]] + ids[1..]
    requires multiset(rest) == multiset(ids[1..])[id := 0]
    requires r == if ids[0] == id then rest else [ids[0]] + rest
    ensures multiset(r) == multiset(ids)[id := 0]
  {
    assert multiset(ids) == multiset([ids[0]]) + multiset(ids[1..]);
  }

  lemma RemoveStepOrder(ids: seq<string>, rest: seq<string>, r: seq<string>)
    requires |ids| > 0
    requires IsSubsequence(rest, ids[1..])
    requires r == rest || r == [ids[0]] + rest
    ensures IsSubsequence(r, ids)
  {
    if r != rest {
      assert r[0] == ids[0] && r[1..] == rest;
    }
  }

  lemma TailNoDuplicates(ids: seq<string>)
    requires |ids| > 0 && NoDuplicates(ids)
    ensures NoDuplicates(ids[1..]) && ids[0] !in ids[1..]
  {
    var tail := ids[1..];
    forall i, j | 0 <= i < j < |tail| ensures tail[i] != tail[j] {
      assert tail[i] == ids[i + 1] && tail[j] == ids[j + 1];
    }
    forall i | 0 <= i < |tail| ensures tail[i] != ids[0] {
      assert tail[i] == ids[i + 1];
    }
  }

  lemma ConsNoDuplicates(head: string, rest: seq<string>)
    requires NoDuplicates(rest) && head !in rest
    ensures NoDuplicates([head] + rest)
  {
    var r := [head] + rest;
    forall i, j | 0 <= i < j < |r| ensures r[i] != r[j] {
      assert r[j] == rest[j - 1];
      if i > 0 {
        assert r[i] == rest[i - 1];
      }
    }
  }

  /** Removing an id that is absent changes nothing. */
  lemma {:induction false} RemoveAbsent(ids: seq<string>, id: string)
    requires id !in ids
    ensures Remove(ids, id) == ids
    decreases |ids|
  {
    if |ids| > 0 {
      RemoveAbsent(ids[1..], id);
      assert ids[0] != id;
      assert Remove(ids, id) == [ids[0]] + ids[1..];
      assert ids == [ids[0]] + ids[1..];
    }
  }

  /** Removing an id from a list that ends with it, and holds it nowhere else, drops that last entry. */
  lemma {:induction false} RemoveAppended(ids: seq<string>, id: string)
    requires id !in ids
    ensures Remove(ids + [id], id) == ids
    decreases |ids|
  {
    if |ids| == 0 {
      assert [id][1..] == [];
    } else {
      assert (ids + [id])[1..] == ids[1..] + [id];
      RemoveAppended(ids[1..], id);
      assert ids == [ids[0]] + ids[1..];
    }
  }

  /** The new completed list of the selected day's log: drop `goalId` if it was done, else append it. */
  function Flip(ids: seq<string>, goalId: string, done: bool): seq<string> {
    if done then Remove(ids, goalId) else ids + [goalId]
  }

  /**
   * `toggleGoalCompletion(goalId)` on `selectedDate` (App.tsx). Edit mode
   * ignores the click. When a log for the date exists, every log with
   * that date has `goalId` flipped according to the first such log; when
   * none exists, a log holding just `goalId` is appended.
   */
  function ToggleCompletion(logs: seq<DailyLog>, date: string, goalId: string, editing: bool): (r: seq<DailyLog>)
    ensures editing ==> r == logs
    ensures !editing && FindLog(logs, date).Some? ==>
      && |r| == |logs|
      && (forall i :: 0 <= i < |logs| ==> r[i].date == logs[i].date)
      && (forall i :: 0 <= i < |logs| && logs[i].date != date ==> r[i] == logs[i])
    ensures !editing && FindLog(logs, date).None? ==>
      && |r| == |logs| + 1
      && r[..|logs|] == logs
      && r[|logs|] == DailyLog(date, [goalId])
  {
    if editing then logs
    else match FindLog(logs, date)
      case Some(existing) =>
        var done := goalId in existing.completedGoalIds;
        seq(|logs|, i requires 0 <= i < |logs| =>
          if logs[i].date == date then DailyLog(logs[i].date, Flip(logs[i].completedGoalIds, goalId, done))
          else logs[i])
      case None =>
        assert (logs + [DailyLog(date, [goalId])])[..|logs|] == logs;
        logs + [DailyLog(date, [goalId])]
  }

  /** Two log lists with the same dates in the same order find the same index for every date. */
  lemma {:induction false} SameDatesSameIndex(a: seq<DailyLog>, b: seq<DailyLog>, date: string)
    requires |a| == |b| && forall i :: 0 <= i < |a| ==> a[i].date == b[i].date
    ensures FirstLogIndex(a, date) == FirstLogIndex(b, date)
    decreases |a|
  {
    if |a| > 0 {
      SameDatesSameIndex(a[1..], b[1..], date);
    }
  }

  /**
   * A toggle flips whether `goalId` is completed on `date` and changes no
   * other membership, neither for other ids on that date nor for any id
   * on any other date.
   */
  lemma ToggleFlips(logs: seq<DailyLog>, date: string, goalId: string)
    ensures goalId in Completed(ToggleCompletion(logs, date, goalId, false), date)
            <==> goalId !in Completed(logs, date)
    ensures forall x :: x != goalId ==>
      (x in Completed(ToggleCompletion(logs, date, goalId, false), date) <==> x in Completed(logs, date))
    ensures forall d :: d != date ==>
      SelectedLog(ToggleCompletion(logs, date, goalId, false), d) == SelectedLog(logs, d)
  {
    var r := ToggleCompletion(logs, date, goalId, false);
    if FindLog(logs, date).Some? {
      forall d {
        SameDatesSameIndex(r, logs, d);
      }
    } else {
      forall d {
        FindAppend(logs, DailyLog(date, [goalId]), d);
      }
    }
  }

  /** Toggling the same goal twice on the same date restores every membership on every date. */
  lemma ToggleTwice(logs: seq<DailyLog>, date: string, goalId: string, editing: bool)
    ensures forall d, x ::
      x in Completed(ToggleCompletion(ToggleCompletion(logs, date, goalId, editing), date, goalId, editing), d)
      <==> x in Completed(logs, d)
  {
    if !editing {
      var once := ToggleCompletion(logs, date, goalId, false);
      var twice := ToggleCompletion(once, date, goalId, false);
      ToggleFlips(logs, date, goalId);
      ToggleFlips(once, date, goalId);
      forall d, x ensures x in Completed(twice, d) <==> x in Completed(logs, d) {
        if d != date {
          assert SelectedLog(twice, d) == SelectedLog(once, d) == SelectedLog(logs, d);
        }
      }
    }
  }

  /**
   * With one log per date, toggling an unchecked goal twice gives back the
   * very same logs; without a log for the date, an empty log is left behind.
   */
  lemma ToggleTwiceExact(logs: seq<DailyLog>, date: string, goalId: string)
    requires WellFormedLogs(logs)
    ensures FindLog(logs, date).Some? && goalId !in Completed(logs, date) ==>
      ToggleCompletion(ToggleCompletion(logs, date, goalId, false), date, goalId, false) == logs
    ensures FindLog(logs, date).None? ==>
      ToggleCompletion(ToggleCompletion(logs, date, goalId, false), date, goalId, false)
        == logs + [DailyLog(date, [])]
  {
    var once := ToggleCompletion(logs, date, goalId, false);
    var twice := ToggleCompletion(once, date, goalId, false);
    if FindLog(logs, date).Some? && goalId !in Completed(logs, date) {
      var k := FirstLogIndex(logs, date).value;
      SameDatesSameIndex(once, logs, date);
      assert FindLog(once, date) == Some(once[k]);
      assert goalId in once[k].completedGoalIds;
      forall i | 0 <= i < |logs| ensures twice[i] == logs[i] {
        if logs[i].date == date {
          assert i == k;
          RemoveAppended(logs[i].completedGoalIds, goalId);
        }
      }
    } else if FindLog(logs, date).None? {
      FindAppend(logs, DailyLog(date, [goalId]), date);
      assert FirstLogIndex(once, date) == Some(|logs|);
      assert twice[|logs|] == DailyLog(date, Remove([goalId], goalId));
    }
  }

  /** A toggle keeps one log per date and no id twice in a log. */
  lemma TogglePreservesWellFormed(logs: seq<DailyLog>, date: string, goalId: string, editing: bool)
    requires WellFormedLogs(logs)
    ensures WellFormedLogs(ToggleCompletion(logs, date, goalId, editing))
  {
    var r := ToggleCompletion(logs, date, goalId, editing);
    if !editing && FindLog(logs, date).Some? {
      var k := FirstLogIndex(logs, date).value;
      forall i | 0 <= i < |r| ensures NoDuplicates(r[i].completedGoalIds) {
        if logs[i].date == date {
          assert i == k;
        }
      }
    } else if !editing {
      forall i | 0 <= i < |logs| ensures r[i] == logs[i] {
        assert r[i] == r[..|logs|][i];
      }
    }
  }

  // ---------------------------------------------------------------------
  // Adding and editing goals
  // ---------------------------------------------------------------------

  /**
   * `addGoal()` (App.tsx): a title that trims to nothing, or an empty
   * category choice, leaves the goals as they are; otherwise one goal
   * with the trimmed title is appended. The id and time stamp are
   * supplied by the caller.
   */
  function AddGoal(goals: seq<Goal>, title: string, categories: seq<string>, id: string, now: int): (r: seq<Goal>)
    ensures AllSpace(title) || |categories| == 0 ==> r == goals
    ensures !AllSpace(title) && |categories| > 0 ==>
      && |r| == |goals| + 1
      && r[..|goals|] == goals
      && r[|goals|].id == id && r[|goals|].categories == categories && r[|goals|].createdAt == now
      && |r[|goals|].title| > 0
      && !IsJsSpace(r[|goals|].title[0]) && !IsJsSpace(r[|goals|].title[|r[|goals|].title| - 1])
      && r[|goals|].title == Trim(title)
    ensures WellFormedGoals(goals) ==> WellFormedGoals(r)
  {
    TrimSpec(title);
    if |Trim(title)| > 0 && |categories| > 0 then
      var r := goals + [Goal(id, Trim(title), categories, now)];
      assert r[..|goals|] == goals;
      r
    else goals
  }

  /** The fields of `Partial<Goal>`: each one present replaces the goal's own. */
  datatype GoalPatch = GoalPatch(
    id: Option<string>, title: Option<string>, categories: Option<seq<string>>, createdAt: Option<int>)

  /** `{ ...g, ...updates }`. */
  function Merge(g: Goal, p: GoalPatch): Goal {
    Goal(p.id.GetOr(g.id), p.title.GetOr(g.title), p.categories.GetOr(g.categories), p.createdAt.GetOr(g.createdAt))
  }

  /**
   * `updateGoal(id, updates)` (App.tsx): merges the patch into every goal
   * with that id and touches no other goal. It checks nothing itself.
   */
  function UpdateGoal(goals: seq<Goal>, id: string, patch: GoalPatch): (r: seq<Goal>)
    ensures |r| == |goals|
    ensures forall i :: 0 <= i < |goals| && goals[i].id != id ==> r[i] == goals[i]
    ensures forall i :: 0 <= i < |goals| && goals[i].id == id ==>
      && r[i].id == (if patch.id.Some? then patch.id.value else goals[i].id)
      && r[i].title == (if patch.title.Some? then patch.title.value else goals[i].title)
      && r[i].categories == (if patch.categories.Some? then patch.categories.value else goals[i].categories)
      && r[i].createdAt == (if patch.createdAt.Some? then patch.createdAt.value else goals[i].createdAt)
  {
    seq(|goals|, i requires 0 <= i < |goals| => if goals[i].id == id then Merge(goals[i], patch) else goals[i])
  }

  /** A patch that leaves the categories alone or brings some keeps every goal with a category. */
  lemma UpdateGoalKeepsWellFormed(goals: seq<Goal>, id: string, patch: GoalPatch)
    requires WellFormedGoals(goals)
    requires patch.categories.None? || |patch.categories.value| > 0
    ensures WellFormedGoals(UpdateGoal(goals, id, patch))
  {
  }

  /** The patch the category buttons send. */
  function CategoriesPatch(categories: seq<string>): GoalPatch {
    GoalPatch(None, None, Some(categories), None)
  }

  /** Left to itself, `updateGoal` will store a goal with no category at all. */
  lemma UpdateGoalCanEmptyCategories()
    ensures var goals := [Goal("g", "Walk", ["Health"], 0)];
            WellFormedGoals(goals) && !WellFormedGoals(UpdateGoal(goals, "g", CategoriesPatch([])))
  {
    var r := UpdateGoal([Goal("g", "Walk", ["Health"], 0)], "g", CategoriesPatch([]));
    assert r[0].categories == [];
  }

  /** `categories.filter(c => c !== cat)`. */
  function RemoveCategory(categories: seq<string>, cat: string): seq<string> {
    Remove(categories, cat)
  }

  /**
   * The category button of the goal editor (App.tsx): flips `cat` in the
   * goal's categories and stores the result through `updateGoal`, unless
   * that would leave the goal without a category, in which case nothing
   * happens.
   */
  function ToggleCategory(goals: seq<Goal>, goal: Goal, cat: string): (r: seq<Goal>)
    ensures |r| == |goals|
    ensures forall i :: 0 <= i < |goals| && goals[i].id != goal.id ==> r[i] == goals[i]
    ensures (forall k :: 0 <= k < |goal.categories| ==> goal.categories[k] == cat) && cat in goal.categories
            ==> r == goals
    ensures !((forall k :: 0 <= k < |goal.categories| ==> goal.categories[k] == cat) && cat in goal.categories) ==>
      forall i :: 0 <= i < |goals| && goals[i].id == goal.id ==>
        && (cat in r[i].categories <==> cat !in goal.categories)
        && (forall c :: c != cat ==> (c in r[i].categories <==> c in goal.categories))
        && r[i].title == goals[i].title
    ensures WellFormedGoals(goals) ==> WellFormedGoals(r)
  {
    var newCats := if cat in goal.categories then RemoveCategory(goal.categories, cat) else goal.categories + [cat];
    if |newCats| > 0 then
      assert !((forall k :: 0 <= k < |goal.categories| ==> goal.categories[k] == cat) && cat in goal.categories) by {
        if cat in goal.categories {
          var x := newCats[0];
          assert x in goal.categories && x != cat;
        }
      }
      UpdateGoal(goals, goal.id, CategoriesPatch(newCats))
    else
      assert forall k :: 0 <= k < |goal.categories| ==> goal.categories[k] == cat by {
        forall k | 0 <= k < |goal.categories| ensures goal.categories[k] == cat {
          assert goal.categories[k] in goal.categories;
        }
      }
      goals
  }

  // ---------------------------------------------------------------------
  // Deleting a goal
  // ---------------------------------------------------------------------

  /** `goals.filter(g => g.id !== id)`. */
  function RemoveGoal(goals: seq<Goal>, id: string): (r: seq<Goal>)
    ensures forall i :: 0 <= i < |r| ==> r[i].id != id
    ensures forall g :: g in r <==> g in goals && g.id != id
    ensures IsSubsequence(r, goals)
    decreases |goals|
  {
    if |goals| == 0 then []
    else
      var rest := RemoveGoal(goals[1..], id);
      assert goals == [goals[0]] + goals[1..];
      if goals[0].id == id then rest
      else
        assert ([goals[0]] + rest)[1..] == rest;
        [goals[0]] + rest
  }

  /** The two collections the main screen owns. */
  datatype TrackerState = TrackerState(goals: seq<Goal>, logs: seq<DailyLog>)

  /**
   * `deleteGoal(id)` (App.tsx): the goal goes, and its id is purged from
   * every log; every log stays, with its date and the other ids in order.
   */
  function DeleteGoal(s: TrackerState, id: string): (r: TrackerState)
    ensures !HasGoalId(r.goals, id)
    ensures forall g :: g in r.goals <==> g in s.goals && g.id != id
    ensures IsSubsequence(r.goals, s.goals)
    ensures |r.logs| == |s.logs|
    ensures forall i :: 0 <= i < |s.logs| ==>
      && r.logs[i].date == s.logs[i].date
      && id !in r.logs[i].completedGoalIds
      && (forall x :: x != id ==> (x in r.logs[i].completedGoalIds <==> x in s.logs[i].completedGoalIds))
      && IsSubsequence(r.logs[i].completedGoalIds, s.logs[i].completedGoalIds)
    ensures WellFormedLogs(s.logs) ==> WellFormedLogs(r.logs)
    ensures WellFormedGoals(s.goals) ==> WellFormedGoals(r.goals)
  {
    var goals := RemoveGoal(s.goals, id);
    var logs := seq(|s.logs|, i requires 0 <= i < |s.logs| =>
      DailyLog(s.logs[i].date, Remove(s.logs[i].completedGoalIds, id)));
    assert WellFormedGoals(s.goals) ==> WellFormedGoals(goals) by {
      if WellFormedGoals(s.goals) {
        forall i | 0 <= i < |goals| ensures |goals[i].categories| > 0 {
          assert goals[i] in s.goals;
        }
      }
    }
    TrackerState(goals, logs)
  }

  // ---------------------------------------------------------------------
  // Drag-and-drop reorder
  // ---------------------------------------------------------------------

  /** Where `splice(start, ...)` acts on a list of length `len`: negative starts count from the end, then clamp. */
  function SpliceStart(start: int, len: nat): (r: nat)
    ensures r <= len
    ensures 0 <= start <= len ==> r == start
  {
    if start < 0 then (if len + start < 0 then 0 else len + start)
    else if start > len then len
    else start
  }

  /** `splice(from, 1)` then `splice(drop, 0, item)`: lift one element out and insert it again. */
  function Move<T>(s: seq<T>, from: nat, drop: int): (r: seq<T>)
    requires from < |s|
    ensures |r| == |s|
    ensures multiset(r) == multiset(s)
    ensures var at := SpliceStart(drop, |s| - 1);
            && r[at] == s[from]
            && r[..at] + r[at + 1..] == s[..from] + s[from + 1..]
    ensures 0 <= drop < |s| ==> r[drop] == s[from]
  {
    var item := s[from];
    var rest := s[..from] + s[from + 1..];
    var at := SpliceStart(drop, |rest|);
    LiftCount(s, from);
    InsertCount(rest, at, item);
    InsertAt(rest, at, item);
    rest[..at] + [item] + rest[at..]
  }

  /** Lifting out the element at `i` leaves the others, one copy of it fewer. */
  lemma LiftCount<T>(s: seq<T>, i: nat)
    requires i < |s|
    ensures multiset(s[..i] + s[i + 1..]) + multiset{s[i]} == multiset(s)
  {
    assert s == s[..i] + [s[i]] + s[i + 1..];
  }

  /** Inserting `x` adds one copy of it. */
  lemma InsertCount<T>(rest: seq<T>, at: nat, x: T)
    requires at <= |rest|
    ensures multiset(rest[..at] + [x] + rest[at..]) == multiset(rest) + multiset{x}
  {
    assert rest == rest[..at] + rest[at..];
  }

  /** The inserted element sits at `at`, and taking it out again gives back the list. */
  lemma InsertAt<T>(rest: seq<T>, at: nat, x: T)
    requires at <= |rest|
    ensures var r := rest[..at] + [x] + rest[at..];
      && r[at] == x && r[..at] + r[at + 1..] == rest
  {
    var r := rest[..at] + [x] + rest[at..];
    assert r[..at] == rest[..at];
    assert r[at + 1..] == rest[at..];
  }

  /**
   * `handleDrop(e, dropIndex)` (App.tsx): without a drag in progress
   * nothing changes; otherwise the dragged goal moves to `dropIndex`.
   * The dragged index is required to be a position of the list: a goal
   * list cannot hold the `undefined` that the code inserts for a stale,
   * out-of-range index. Only the drop index is clamped as `splice` does.
   */
  function HandleDrop(goals: seq<Goal>, dragged: Option<nat>, dropIndex: int): (r: seq<Goal>)
    requires dragged.Some? ==> dragged.value < |goals|
    ensures dragged.None? ==> r == goals
    ensures dragged.Some? ==> |r| == |goals| && multiset(r) == multiset(goals)
    ensures dragged.Some? && 0 <= dropIndex < |goals| ==> r[dropIndex] == goals[dragged.value]
    ensures WellFormedGoals(goals) ==> WellFormedGoals(r)
  {
    match dragged
    case None => goals
    case Some(from) =>
      var r := Move(goals, from, dropIndex);
      assert WellFormedGoals(goals) ==> WellFormedGoals(r) by {
        if WellFormedGoals(goals) {
          forall i | 0 <= i < |r| ensures |r[i].categories| > 0 {
            assert r[i] in multiset(goals);
          }
        }
      }
      r
  }

  /** Dragging the first of four goals onto the third slot gives B, C, A, D. */
  lemma MoveExample()
    ensures Move(['A', 'B', 'C', 'D'], 0, 2) == ['B', 'C', 'A', 'D']
  {
  }

  // ---------------------------------------------------------------------
  // First-run seeding
  // ---------------------------------------------------------------------

  /** The id of the starter goal at position `idx`: `` `default-${idx}-${Date.now()}` ``. */
  function DefaultId(idx: nat, now: int): string {
    Join(["default", ShowNat(idx), Show(now)], '-')
  }

  /** Starter ids of different positions differ, whatever the clock reads for each. */
  lemma DefaultIdInjective(i: nat, j: nat, t1: int, t2: int)
    ensures i != j ==> DefaultId(i, t1) != DefaultId(j, t2)
    ensures DefaultId(i, t1) == DefaultId(j, t1) <==> i == j
  {
    if DefaultId(i, t1) == DefaultId(j, t2) {
      DefaultIdFields(i, t1);
      DefaultIdFields(j, t2);
      assert ShowNat(i) == ShowNat(j);
      DigitsValueOfShowNat(i);
      DigitsValueOfShowNat(j);
    }
    if DefaultId(i, t1) == DefaultId(j, t1) {
      DefaultIdFields(i, t1);
      DefaultIdFields(j, t1);
      DigitsValueOfShowNat(i);
      DigitsValueOfShowNat(j);
    }
  }

  /** The second dash-separated field of a starter id is its position. */
  lemma DefaultIdFields(idx: nat, now: int)
    ensures |Split(DefaultId(idx, now), '-')| >= 2
    ensures Split(DefaultId(idx, now), '-')[1] == ShowNat(idx)
  {
    var n := ShowNat(idx);
    JoinThree("default", n, Show(now), '-');
    assert !IsDigit('-');
    assert '-' !in n;
    assert DefaultId(idx, now) == "default" + ['-'] + (n + ['-'] + Show(now));
    SplitField("default", '-', n + ['-'] + Show(now));
    SplitField(n, '-', Show(now));
  }

  /**
   * The initial load (App.tsx): stored goals are kept; with none stored,
   * the starter list becomes the goal list, in order. `clock(k)` is the
   * `k`-th reading of `Date.now()` during the seeding: the goal at `idx`
   * reads it twice, first for its id and then for its creation time.
   */
  function SeedGoals(saved: seq<Goal>, defaults: seq<DefaultGoal>, clock: nat -> int): (r: seq<Goal>)
    ensures |saved| > 0 ==> r == saved
    ensures |saved| == 0 ==> |r| == |defaults|
    ensures |saved| == 0 ==> forall i :: 0 <= i < |defaults| ==>
      && r[i].id == DefaultId(i, clock(2 * i))
      && r[i].title == defaults[i].title
      && r[i].categories == defaults[i].categories
      && r[i].createdAt == clock(2 * i + 1)
  {
    if |saved| > 0 then saved
    else
      seq(|defaults|, i requires 0 <= i < |defaults| =>
        Goal(DefaultId(i, clock(2 * i)), defaults[i].title, defaults[i].categories, clock(2 * i + 1)))
  }

  /** Seeded goals carry pairwise distinct ids and, from a sound starter list, at least one category each. */
  lemma SeedGoalsSound(defaults: seq<DefaultGoal>, clock: nat -> int)
    ensures var r := SeedGoals([], defaults, clock);
            forall i, j :: 0 <= i < j < |r| ==> r[i].id != r[j].id
    ensures StarterListSound(defaults) ==> WellFormedGoals(SeedGoals([], defaults, clock))
  {
    var r := SeedGoals([], defaults, clock);
    forall i, j | 0 <= i < j < |r| ensures r[i].id != r[j].id {
      DefaultIdInjective(i, j, clock(2 * i), clock(2 * j));
    }
  }

  /** The built-in starter list is sound, so a first run starts from well-formed goals. */
  lemma DefaultSeedWellFormed(clock: nat -> int)
    ensures WellFormedGoals(SeedGoals([], DefaultGoalsList, clock))
  {
    assert StarterListSound(DefaultGoalsList);
    SeedGoalsSound(DefaultGoalsList, clock);
  }
}
