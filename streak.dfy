/**
 * The streak state machine over (current streak, longest streak, last active
 * day), stepped once per first solve and keyed on the whole-day gap since the
 * last active day.
 */
module Streak {
  import opened Wrappers
  import opened Records

  datatype StreakState = StreakState(current: int, max: int, lastActive: Option<Day>)

  /** A user who has never been active: both streaks 0 and no last active day. */
  const Fresh := StreakState(0, 0, None)

  function Step(s: StreakState, today: Day): (r: StreakState)
    ensures r.lastActive == Some(today)
  {
    match s.lastActive
    case None => StreakState(1, 1, Some(today))
    case Some(last) =>
      var gap := today - last;
      if gap == 1 then
        var c := s.current + 1;
        StreakState(c, if s.max >= c then s.max else c, Some(today))
      else if gap > 1 then
        StreakState(1, s.max, Some(today))
      else
        s.(lastActive := Some(today))
  }

  /** The invariant the step keeps: 0 <= current <= max; both 0 before any activity, current >= 1 after. */
  ghost predicate Consistent(s: StreakState) {
    && 0 <= s.current <= s.max
    && (s.lastActive.None? ==> s.max == 0)
    && (s.lastActive.Some? ==> 1 <= s.current)
  }

  /** The step keeps the invariant, never lowers the longest streak and leaves a current streak of at least 1. */
  lemma StepConsistent(s: StreakState, today: Day)
    requires Consistent(s)
    ensures Consistent(Step(s, today))
    ensures Step(s, today).max >= s.max
    ensures Step(s, today).current >= 1
  {
  }

  /** A second solve on the same day changes nothing: the step is idempotent within a day. */
  lemma StepSameDay(s: StreakState, today: Day)
    ensures Step(Step(s, today), today) == Step(s, today)
  {
  }

  /** The state after first solves on the given days, in order, from `s`. */
  function Run(s: StreakState, days: seq<Day>): StreakState {
    if days == [] then s else Step(Run(s, days[..|days| - 1]), days[|days| - 1])
  }

  lemma {:induction false} RunConsistent(days: seq<Day>)
    ensures Consistent(Run(Fresh, days))
  {
    if days != [] {
      RunConsistent(days[..|days| - 1]);
      StepConsistent(Run(Fresh, days[..|days| - 1]), days[|days| - 1]);
    }
  }

  /**
   * The longest streak is the running maximum of the current streak: it is at
   * least every current streak seen so far and equal to one of them.
   */
  lemma {:induction false} MaxIsRunningMax(days: seq<Day>)
    requires |days| > 0
    ensures forall i :: 1 <= i <= |days| ==> Run(Fresh, days[..i]).current <= Run(Fresh, days).max
    ensures exists i :: 1 <= i <= |days| && Run(Fresh, days[..i]).current == Run(Fresh, days).max
  {
    var n := |days|;
    var init := days[..n - 1];
    assert days[..n] == days;
    RunConsistent(days);
    if n == 1 {
      assert init == [];
    } else {
      MaxIsRunningMax(init);
      RunConsistent(init);
      StepConsistent(Run(Fresh, init), days[n - 1]);
      forall i | 1 <= i <= n - 1
        ensures days[..i] == init[..i]
      {
      }
      var j :| 1 <= j <= n - 1 && Run(Fresh, init[..j]).current == Run(Fresh, init).max;
      assert days[..j] == init[..j];
      if Run(Fresh, days).max != Run(Fresh, init).max {
        assert Run(Fresh, days[..n]).current == Run(Fresh, days).max;
      }
    }
  }

  predicate NonDecreasing(days: seq<Day>) {
    forall i, j :: 0 <= i < j < |days| ==> days[i] <= days[j]
  }

  /**
   * For days in calendar order, the current streak counts the consecutive
   * calendar days ending at the last active day on which a solve happened:
   * every one of those days is among the solve days and the day before them
   * is not.
   */
  lemma {:induction false} StreakCountsConsecutiveDays(days: seq<Day>)
    requires |days| > 0 && NonDecreasing(days)
    ensures var c := Run(Fresh, days).current; var last := days[|days| - 1];
      && c >= 1
      && (forall d: int :: last - c < d <= last ==> d in days)
      && (last - c) !in days
  {
    var n := |days|;
    var last := days[n - 1];
    RunConsistent(days);
    if n == 1 {
      assert days[..0] == [];
    } else {
      var init := days[..n - 1];
      var prev := init[n - 2];
      assert NonDecreasing(init);
      StreakCountsConsecutiveDays(init);
      var c0 := Run(Fresh, init).current;
      var c := Run(Fresh, days).current;
      assert forall d :: d in init ==> d in days;
      assert forall d :: d in init ==> d <= prev by {
        forall d | d in init ensures d <= prev {
          var k :| 0 <= k < |init| && init[k] == d;
        }
      }
      assert Run(Fresh, init).lastActive == Some(prev);
      assert forall d :: d in days ==> d in init || d == last;
      if last == prev {
        assert c == c0;
      } else if last == prev + 1 {
        assert c == c0 + 1;
      } else {
        assert c == 1;
      }
    }
  }
}
