/** Statistics over habits: filtering by periodicity and the longest run of
    completions whose gaps stay within the period. Unlike `Habits.Streaks`,
    a gap here may be smaller than the period (a duplicate date included),
    and only "daily" (at most 1 day) and "weekly" (at most 7 days) let a
    run grow at all. */
module Analytics {
  import opened Wrappers
  import opened Seqs
  import opened Dates
  import opened Habits

  // ---------------------------------------------------------------------
  // get_habits_by_periodicity
  // ---------------------------------------------------------------------

  /** The test `habit.periodicity == periodicity`. */
  function HasPeriodicity(periodicity: string): Habit -> bool {
    (h: Habit) => h.periodicity == periodicity
  }

  /** `get_habits_by_periodicity`: the habits with exactly that periodicity
      string, in their original order. */
  function HabitsByPeriodicity(habits: seq<Habit>, periodicity: string): (r: seq<Habit>)
    ensures IsSubseq(r, habits)
    ensures forall i :: 0 <= i < |r| ==> r[i].periodicity == periodicity
    ensures |r| == CountWhere(habits, HasPeriodicity(periodicity))
    ensures forall h :: h in habits && h.periodicity == periodicity ==> h in r
  {
    Filter(habits, HasPeriodicity(periodicity))
  }

  /** Filtering the result again returns it unchanged. */
  lemma HabitsByPeriodicityIdempotent(habits: seq<Habit>, periodicity: string)
    ensures HabitsByPeriodicity(HabitsByPeriodicity(habits, periodicity), periodicity)
            == HabitsByPeriodicity(habits, periodicity)
  {
    FilterIdempotent(habits, HasPeriodicity(periodicity));
  }

  /** A periodicity no habit has, however it is spelled, selects nothing. */
  lemma HabitsByPeriodicityNoMatch(habits: seq<Habit>, periodicity: string)
    requires forall i :: 0 <= i < |habits| ==> habits[i].periodicity != periodicity
    ensures HabitsByPeriodicity(habits, periodicity) == []
  {
    var r := HabitsByPeriodicity(habits, periodicity);
    SubseqElements(r, habits);
  }

  // ---------------------------------------------------------------------
  // longest_streak
  // ---------------------------------------------------------------------

  /** Whether a gap of `delta` days keeps the run going. For the two
      periodicities it knows, the bound is the period `streaks` uses; any
      other periodicity never extends a run, although `streaks` gives it a
      period of 7 days. */
  function Extends(periodicity: string, delta: int): (r: bool)
    ensures periodicity == "daily" || periodicity == "weekly" ==>
              (r <==> delta <= Period(periodicity))
    ensures periodicity != "daily" && periodicity != "weekly" ==> !r
  {
    || (periodicity == "daily" && delta <= 1)
    || (periodicity == "weekly" && delta <= 7)
  }

  /** The gap before index `k` keeps the run going. */
  predicate Linked(s: seq<int>, periodicity: string, k: int) {
    0 < k < |s| && Extends(periodicity, s[k] - s[k - 1])
  }

  /** `s[i..j]` is a non-empty window in which every gap keeps the run going. */
  predicate LinkedWindow(s: seq<int>, periodicity: string, i: int, j: int) {
    && 0 <= i < j <= |s|
    && forall k :: i < k < j ==> Linked(s, periodicity, k)
  }

  /** The length of the longest linked window that ends at index `j`. */
  function RunEndingAt(s: seq<int>, periodicity: string, j: int): (n: nat)
    requires 0 <= j < |s|
    ensures 1 <= n <= j + 1
    ensures LinkedWindow(s, periodicity, j + 1 - n, j + 1)
    ensures !Linked(s, periodicity, j + 1 - n)
  {
    if !Linked(s, periodicity, j) then 1
    else RunEndingAt(s, periodicity, j - 1) + 1
  }

  /** Every linked window ending at `k` fits in the run ending there. */
  lemma {:induction false} WindowWithinRun(s: seq<int>, periodicity: string, i: int, k: int)
    requires LinkedWindow(s, periodicity, i, k)
    ensures k - i <= RunEndingAt(s, periodicity, k - 1)
    decreases k - i
  {
    if k - 1 > i {
      assert Linked(s, periodicity, k - 1);
      WindowWithinRun(s, periodicity, i, k - 1);
    }
  }

  function Max(a: int, b: int): int {
    if a >= b then a else b
  }

  /** The longest run ending at or before index `j`. */
  function LongestUpTo(s: seq<int>, periodicity: string, j: int): (n: nat)
    requires 0 <= j < |s|
    ensures 1 <= n <= j + 1
  {
    if j == 0 then 1
    else Max(LongestUpTo(s, periodicity, j - 1), RunEndingAt(s, periodicity, j))
  }

  /** `LongestUpTo` is the length of the longest linked window inside `s[..j + 1]`. */
  lemma {:induction false} LongestUpToIsMaxWindow(s: seq<int>, periodicity: string, j: int)
    requires 0 <= j < |s|
    ensures exists i, k :: k <= j + 1 && LinkedWindow(s, periodicity, i, k)
                           && k - i == LongestUpTo(s, periodicity, j)
    ensures forall i, k :: k <= j + 1 && LinkedWindow(s, periodicity, i, k)
                           ==> k - i <= LongestUpTo(s, periodicity, j)
  {
    var run := RunEndingAt(s, periodicity, j);
    if j == 0 {
      assert LinkedWindow(s, periodicity, 0, 1);
    } else {
      LongestUpToIsMaxWindow(s, periodicity, j - 1);
      if run > LongestUpTo(s, periodicity, j - 1) {
        assert LinkedWindow(s, periodicity, j + 1 - run, j + 1);
      }
    }
    forall i, k | k <= j + 1 && LinkedWindow(s, periodicity, i, k)
      ensures k - i <= LongestUpTo(s, periodicity, j)
    {
      if k == j + 1 {
        WindowWithinRun(s, periodicity, i, k);
      }
    }
  }

  /** The longest run in the whole sequence; 0 for no dates. */
  function LongestRun(s: seq<int>, periodicity: string): (n: nat)
    ensures n == 0 <==> |s| == 0
    ensures n <= |s|
  {
    if |s| == 0 then 0 else LongestUpTo(s, periodicity, |s| - 1)
  }

  /** `LongestRun` is attained by a linked window and bounds every one. */
  lemma LongestRunIsMaxWindow(s: seq<int>, periodicity: string)
    requires |s| > 0
    ensures exists i, k :: LinkedWindow(s, periodicity, i, k) && k - i == LongestRun(s, periodicity)
    ensures forall i, k :: LinkedWindow(s, periodicity, i, k) ==> k - i <= LongestRun(s, periodicity)
  {
    LongestUpToIsMaxWindow(s, periodicity, |s| - 1);
  }

  /** When every gap keeps the run going, the longest run is everything. */
  lemma WholeWindowLongest(s: seq<int>, periodicity: string)
    requires |s| > 0
    requires forall k :: 0 < k < |s| ==> Linked(s, periodicity, k)
    ensures LongestRun(s, periodicity) == |s|
  {
    assert LinkedWindow(s, periodicity, 0, |s|);
    LongestRunIsMaxWindow(s, periodicity);
  }

  /** `longest_streak`: the longest run in the sorted completion dates. */
  function LongestStreak(h: Habit): (n: nat)
    requires AllParse(h.completionDates)
    ensures n == 0 <==> |h.completionDates| == 0
    ensures n <= |h.completionDates|
  {
    LongestRun(SortedOrdinals(h.completionDates), h.periodicity)
  }

  /** `longest_streak` in analytics.py: a run counter that grows while the gap
      keeps the run going and drops back to 1 otherwise, and the largest
      value it reaches. */
  method ComputeLongestStreak(h: Habit) returns (longest: nat)
    requires AllParse(h.completionDates)
    ensures longest == LongestStreak(h)
  {
    if |h.completionDates| == 0 {
      return 0;
    }
    longest := ScanLongestRun(SortedOrdinals(h.completionDates), h.periodicity);
  }

  /** The loop of `longest_streak` over the sorted, non-empty date ordinals. */
  method ScanLongestRun(dates: seq<int>, periodicity: string) returns (longest: nat)
    requires |dates| > 0
    ensures longest == LongestRun(dates, periodicity)
  {
    var streak := 1;
    longest := 1;
    var i := 1;
    while i < |dates|
      invariant 1 <= i <= |dates|
      invariant streak == RunEndingAt(dates, periodicity, i - 1)
      invariant longest == LongestUpTo(dates, periodicity, i - 1)
    {
      var delta := dates[i] - dates[i - 1];
      if periodicity == "daily" && delta <= 1 {
        streak := streak + 1;
      } else if periodicity == "weekly" && delta <= 7 {
        streak := streak + 1;
      } else {
        streak := 1;
      }
      longest := Max(longest, streak);
      i := i + 1;
    }
  }

  /** `longest_streak` depends only on the multiset of dates. */
  lemma LongestStreakPermutation(h1: Habit, h2: Habit)
    requires AllParse(h1.completionDates)
    requires multiset(h1.completionDates) == multiset(h2.completionDates)
    requires h1.periodicity == h2.periodicity
    ensures AllParse(h2.completionDates) && LongestStreak(h1) == LongestStreak(h2)
  {
    SortedOrdinalsPermutation(h1.completionDates, h2.completionDates);
  }

  /** With a periodicity other than "daily" and "weekly" no gap extends a
      run, so any non-empty list of dates gives 1. */
  lemma LongestStreakOtherPeriodicity(h: Habit)
    requires AllParse(h.completionDates) && |h.completionDates| > 0
    requires h.periodicity != "daily" && h.periodicity != "weekly"
    ensures LongestStreak(h) == 1
  {
    var s := SortedOrdinals(h.completionDates);
    UnknownPeriodicityRuns(s, h.periodicity, |s| - 1);
  }

  lemma {:induction false} UnknownPeriodicityRuns(s: seq<int>, periodicity: string, j: int)
    requires 0 <= j < |s|
    requires periodicity != "daily" && periodicity != "weekly"
    ensures LongestUpTo(s, periodicity, j) == 1
  {
    if j > 0 {
      assert !Linked(s, periodicity, j);
      UnknownPeriodicityRuns(s, periodicity, j - 1);
    }
  }

  /** Every exact run counted by `streaks` is a window `longest_streak`
      accepts, for the two periodicities it knows. */
  lemma StreaksBoundLongestStreak(h: Habit)
    requires AllParse(h.completionDates)
    requires h.periodicity == "daily" || h.periodicity == "weekly"
    ensures Streaks(h) > 0 ==> LongestStreak(h) >= 2
  {
    var s := SortedOrdinals(h.completionDates);
    var p := Period(h.periodicity);
    if Streaks(h) > 0 {
      var i := FindRunStart(s, p, |s|);
      assert LinkedWindow(s, h.periodicity, i, i + 2);
      LongestRunIsMaxWindow(s, h.periodicity);
    }
  }

  /** An index at which a counted run starts. */
  lemma {:induction false} FindRunStart(s: seq<int>, p: int, k: nat) returns (i: int)
    requires k <= |s| && CountRunStarts(s, p, k) > 0
    ensures 0 <= i < k && RunStart(s, p, i)
  {
    if RunStart(s, p, k - 1) {
      i := k - 1;
    } else {
      i := FindRunStart(s, p, k - 1);
    }
  }

  // ---------------------------------------------------------------------
  // longest_streak_all_habits
  // ---------------------------------------------------------------------

  /** `longest_streak_all_habits`: the largest `longest_streak`; Python's
      `max` fails on an empty list, hence the precondition. */
  function LongestStreakAllHabits(habits: seq<Habit>): (n: nat)
    requires |habits| > 0
    requires forall i :: 0 <= i < |habits| ==> AllParse(habits[i].completionDates)
    ensures forall i :: 0 <= i < |habits| ==> LongestStreak(habits[i]) <= n
    ensures exists i :: 0 <= i < |habits| && LongestStreak(habits[i]) == n
  {
    var streaks := seq(|habits|, i requires 0 <= i < |habits| => LongestStreak(habits[i]));
    assert forall i :: 0 <= i < |habits| ==> streaks[i] == LongestStreak(habits[i]);
    MaxOf(streaks)
  }

  // ---------------------------------------------------------------------
  // Worked examples
  // ---------------------------------------------------------------------

  /** Once the day ordinals of a habit's dates are known to be ascending,
      both statistics are statistics of those ordinals. */
  lemma StatsFromOrdinals(h: Habit, ords: seq<int>)
    requires AllParse(h.completionDates)
    requires DayOrdinals(h.completionDates) == ords && SortInts(ords) == ords
    ensures Streaks(h) == ExactRuns(ords, Period(h.periodicity))
    ensures LongestStreak(h) == LongestRun(ords, h.periodicity)
  {
  }

  /** Five consecutive days on a daily habit form one run of 5, whatever
      the habit's other fields. */
  lemma FiveConsecutiveDays(h: Habit)
    requires h.periodicity == "daily"
    requires h.completionDates == ["2023-01-01", "2023-01-02", "2023-01-03", "2023-01-04", "2023-01-05"]
    ensures AllParse(h.completionDates) && LongestStreak(h) == 5 && Streaks(h) == 1
  {
    var ords := [738521, 738522, 738523, 738524, 738525];
    FiveDaysOrdinals();
    FiveDaysRuns(ords);
    StatsFromOrdinals(h, ords);
  }

  lemma FiveDaysRuns(s: seq<int>)
    requires s == [738521, 738522, 738523, 738524, 738525]
    ensures SortInts(s) == s
    ensures ExactRuns(s, 1) == 1
    ensures LongestRun(s, "daily") == 5
  {
    forall k | 0 < k < |s| ensures s[k] == s[k - 1] + 1 {
      assert s[k] == 738520 + k + 1;
    }
    ConsecutiveRuns(s);
  }

  /** A day of January 2023 written `2023-01-0d` parses to that day, whose
      ordinal is 738520 plus the day. */
  lemma EarlyJanuary2023(s: string, day: int)
    requires 1 <= day <= 9 && s == "2023-01-0" + [DigitChar(day)]
    ensures Parse(s) == Some(Date(2023, 1, day))
    ensures DayOrdinal(s) == 738520 + day
  {
    assert s[..4] == "2023" && s[5..] == "01-0" + [DigitChar(day)];
    assert Ordinal(Date(2023, 1, day)) == 738520 + day;
  }

  lemma FiveDaysOrdinals()
    ensures AllParse(["2023-01-01", "2023-01-02", "2023-01-03", "2023-01-04", "2023-01-05"])
    ensures DayOrdinals(["2023-01-01", "2023-01-02", "2023-01-03", "2023-01-04", "2023-01-05"])
            == [738521, 738522, 738523, 738524, 738525]
  {
    EarlyJanuary2023("2023-01-01", 1);
    EarlyJanuary2023("2023-01-02", 2);
    EarlyJanuary2023("2023-01-03", 3);
    EarlyJanuary2023("2023-01-04", 4);
    EarlyJanuary2023("2023-01-05", 5);
  }

  /** Ordinals one day apart are one exact daily run and one daily window. */
  lemma ConsecutiveRuns(ords: seq<int>)
    requires |ords| >= 2
    requires forall k :: 0 < k < |ords| ==> ords[k] == ords[k - 1] + 1
    ensures SortInts(ords) == ords
    ensures LongestRun(ords, "daily") == |ords|
    ensures ExactRuns(ords, 1) == 1
  {
    assert Sorted(ords) by {
      AscendingSteps(ords);
    }
    SortSorted(ords);
    assert forall k :: 0 <= k < |ords| - 1 ==> ExactLink(ords, 1, k) by {
      forall k | 0 <= k < |ords| - 1 ensures ExactLink(ords, 1, k) {
        assert ords[k + 1] == ords[k] + 1;
      }
    }
    SingleExactRun(ords, 1);
    WholeWindowLongest(ords, "daily");
  }

  /** A gap of two days: completions on 2023-01-01,
      2023-01-02 and 2023-01-04 of a daily habit hold one exact run (the
      first two dates), and the longest run within the period is 2. */
  lemma GapBreaksRun(h: Habit)
    requires h.periodicity == "daily"
    requires h.completionDates == ["2023-01-01", "2023-01-02", "2023-01-04"]
    ensures AllParse(h.completionDates) && Streaks(h) == 1 && LongestStreak(h) == 2
  {
    var ords := [738521, 738522, 738524];
    GapDatesOrdinals();
    GapBreaksRunOrdinals(ords);
    StatsFromOrdinals(h, ords);
  }

  lemma GapDatesOrdinals()
    ensures AllParse(["2023-01-01", "2023-01-02", "2023-01-04"])
    ensures DayOrdinals(["2023-01-01", "2023-01-02", "2023-01-04"]) == [738521, 738522, 738524]
  {
    EarlyJanuary2023("2023-01-01", 1);
    EarlyJanuary2023("2023-01-02", 2);
    EarlyJanuary2023("2023-01-04", 4);
  }

  lemma GapBreaksRunOrdinals(s: seq<int>)
    requires s == [738521, 738522, 738524]
    ensures SortInts(s) == s
    ensures ExactRuns(s, 1) == 1
    ensures LongestRun(s, "daily") == 2
  {
    AscendingSteps(s);
    SortSorted(s);
    GapExactRuns(s);
    GapLongestRun(s);
  }

  lemma GapExactRuns(s: seq<int>)
    requires s == [738521, 738522, 738524]
    ensures ExactRuns(s, 1) == 1
  {
    assert CountRunStarts(s, 1, 1) == 1;
    assert CountRunStarts(s, 1, 2) == 1;
  }

  lemma GapLongestRun(s: seq<int>)
    requires s == [738521, 738522, 738524]
    ensures LongestRun(s, "daily") == 2
  {
    assert RunEndingAt(s, "daily", 1) == 2;
    assert LongestUpTo(s, "daily", 1) == 2;
  }

  /** The same date recorded several times: `streaks` sees gaps of 0, which
      are not a period, and counts nothing; `longest_streak` lets a gap of 0
      extend a daily or weekly run, so all the copies form one run. */
  lemma RepeatedDate(h: Habit)
    requires |h.completionDates| > 0 && Parses(h.completionDates[0])
    requires forall i :: 0 <= i < |h.completionDates| ==> h.completionDates[i] == h.completionDates[0]
    ensures AllParse(h.completionDates)
    ensures Streaks(h) == 0
    ensures h.periodicity == "daily" || h.periodicity == "weekly" ==> LongestStreak(h) == |h.completionDates|
  {
    var dates := h.completionDates;
    var s := SortedOrdinals(dates);
    var v := DayOrdinal(dates[0]);
    forall k | 0 <= k < |s| ensures s[k] == v {
      SortedOrdinalsElements(dates, k);
    }
    NoExactLinkNoRuns(s, Period(h.periodicity), |s|);
    if h.periodicity == "daily" || h.periodicity == "weekly" {
      assert forall k :: 0 < k < |s| ==> Linked(s, h.periodicity, k);
      WholeWindowLongest(s, h.periodicity);
    }
  }
}
