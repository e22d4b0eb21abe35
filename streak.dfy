/** The day streak kept beside the Pomodoro session count. Calendar dates are day numbers
    (whole days since some fixed origin), so the page's millisecond difference divided by
    one day and rounded up is the plain absolute difference of two day numbers. */
module Streak {
  import opened Types
  import JsRuntime

  datatype StreakState = StreakState(count: int, lastDay: Option<int>)

  /** The streak after a work session completes on day `today`, given the day of the
      previous completion (if any) and the current streak. */
  function UpdateStreak(today: int, lastDay: Option<int>, streak: int): (r: StreakState)
    ensures r.lastDay == Some(today)
    ensures lastDay == None ==> r.count == 1
    ensures lastDay.Some? && JsRuntime.Abs(today - lastDay.value) == 1 ==> r.count == streak + 1
    ensures lastDay.Some? && JsRuntime.Abs(today - lastDay.value) > 1 ==> r.count == 1
    ensures lastDay == Some(today) ==> r.count == streak
  {
    var count :=
      match lastDay
      case None => 1
      case Some(last) =>
        var diffDays := JsRuntime.Abs(today - last);
        if diffDays == 1 then streak + 1
        else if diffDays > 1 then 1
        else streak;
    StreakState(count, Some(today))
  }

  /** The state before any session: streak 0, no last day. */
  const Initial := StreakState(0, None)

  /** The streak after completing sessions on `days`, in order, from the initial state. */
  function StreakOf(days: seq<int>): StreakState {
    if days == [] then Initial
    else
      var before := StreakOf(days[..|days| - 1]);
      UpdateStreak(days[|days| - 1], before.lastDay, before.count)
  }

  ghost predicate NonDecreasing(days: seq<int>) {
    forall i, j :: 0 <= i < j < |days| ==> days[i] <= days[j]
  }

  /** `count` is the length of the run of consecutive days ending on day `last` on each of
      which `days` records a session: all of them are recorded, the day before is not. */
  ghost predicate RunEndsAt(days: seq<int>, last: int, count: int) {
    count >= 1
    && (forall d :: last - count < d <= last ==> d in days)
    && last - count !in days
  }

  /** One more session on day `today`, no earlier than the last one, extends the run of
      consecutive days the streak counts or starts a new one. */
  lemma StepKeepsRun(before: seq<int>, last: int, today: int, c: int)
    requires forall d :: d in before ==> d <= last
    requires last <= today
    requires RunEndsAt(before, last, c)
    ensures RunEndsAt(before + [today], today, UpdateStreak(today, Some(last), c).count)
  {
    var r := UpdateStreak(today, Some(last), c);
    if today == last + 1 {
      forall d | today - r.count < d <= today ensures d in before + [today] {
        if d < today {
          assert d in before;
        }
      }
    } else if today > last + 1 {
      assert today - 1 !in before;
    }
  }

  /** Dropping the last day of a non-decreasing history leaves a non-decreasing history
      whose days are all at most its own last day. */
  lemma DropLast(days: seq<int>)
    requires |days| > 1 && NonDecreasing(days)
    ensures var before := days[..|days| - 1];
            NonDecreasing(before)
            && before[|before| - 1] == days[|days| - 2]
            && (forall d :: d in before ==> d <= days[|days| - 2])
  {
    var n := |days| - 1;
    var before := days[..n];
    forall i, j | 0 <= i < j < n ensures before[i] <= before[j] {
      assert before[i] == days[i] && before[j] == days[j];
    }
    forall d | d in before ensures d <= days[n - 1] {
      var i :| 0 <= i < n && before[i] == d;
      assert days[i] == d;
    }
  }

  /** The streak after the sessions of `before` and then one more on day `today`. */
  lemma StreakOfSnoc(before: seq<int>, today: int)
    ensures StreakOf(before + [today]) == UpdateStreak(today, StreakOf(before).lastDay, StreakOf(before).count)
  {
    assert (before + [today])[..|before|] == before;
  }

  /** For a history of session days that never goes back in time, the streak is exactly the
      number of consecutive calendar days, ending with the last one, on each of which at
      least one session was completed. */
  lemma {:induction false} StreakCountsConsecutiveDays(days: seq<int>)
    requires |days| > 0 && NonDecreasing(days)
    ensures StreakOf(days).lastDay == Some(days[|days| - 1])
    ensures RunEndsAt(days, days[|days| - 1], StreakOf(days).count)
  {
    var n := |days| - 1;
    var before, today := days[..n], days[n];
    assert days == before + [today];
    StreakOfSnoc(before, today);
    if n == 0 {
      assert before == [];
    } else {
      DropLast(days);
      StreakCountsConsecutiveDays(before);
      StepKeepsRun(before, days[n - 1], today, StreakOf(before).count);
    }
  }
}
