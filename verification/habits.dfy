/** The habit entity: a habit's fields, the validation of its completion
    dates on construction, recording a completion, and the `streaks`
    statistic (the number of maximal runs of at least two completions that
    are exactly one period apart). */
module Habits {
  import opened Wrappers
  import opened Seqs
  import opened Dates

  /** `id` is `None` until the store assigns one; dates are kept as the
      strings they were given in. */
  datatype Habit = Habit(
    id: Option<int>,
    name: string,
    task: string,
    periodicity: string,
    creationDate: string,
    completionDates: seq<string>)

  /** Every string is a date `strptime` accepts. */
  predicate AllParse(dates: seq<string>) {
    forall i :: 0 <= i < |dates| ==> Parses(dates[i])
  }

  // ---------------------------------------------------------------------
  // Construction and validation
  // ---------------------------------------------------------------------

  /** `validate_completion_dates`: the dates that parse, in their original
      order; `None` gives the empty list. */
  function ValidateCompletionDates(dates: Option<seq<string>>): (r: seq<string>)
    ensures AllParse(r)
    ensures dates.None? ==> r == []
    ensures dates.Some? ==> IsSubseq(r, dates.value)
    ensures dates.Some? ==> |r| == CountWhere(dates.value, Parses)
    ensures dates.Some? ==> forall x :: x in dates.value && Parses(x) ==> x in r
  {
    match dates
    case None => []
    case Some(ds) => Filter(ds, Parses)
  }

  /** The strings validation skips, in order: one diagnostic line each. */
  function RejectedDates(dates: Option<seq<string>>): (r: seq<string>)
    ensures forall i :: 0 <= i < |r| ==> !Parses(r[i])
    ensures dates.None? ==> r == []
    ensures dates.Some? ==> IsSubseq(r, dates.value)
  {
    match dates
    case None => []
    case Some(ds) => FilterOut(ds, Parses)
  }

  /** Validation loses nothing silently: every input string is either kept
      or reported, with its multiplicity. */
  lemma ValidationPartitions(dates: seq<string>)
    ensures multiset(ValidateCompletionDates(Some(dates))) + multiset(RejectedDates(Some(dates)))
            == multiset(dates)
    ensures |ValidateCompletionDates(Some(dates))| + |RejectedDates(Some(dates))| == |dates|
  {
    FilterSplitsMultiset(dates, Parses);
  }

  /** Validating an already validated list changes nothing. */
  lemma ValidateIdempotent(dates: Option<seq<string>>)
    ensures ValidateCompletionDates(Some(ValidateCompletionDates(dates))) == ValidateCompletionDates(dates)
  {
    FilterKeepsAll(ValidateCompletionDates(dates), Parses);
  }

  /** A list of parsing dates passes validation unchanged. */
  lemma ValidateKeepsValid(dates: seq<string>)
    requires AllParse(dates)
    ensures ValidateCompletionDates(Some(dates)) == dates
  {
    FilterKeepsAll(dates, Parses);
  }

  /** `Habit.__init__`: the fields are stored as given and the completion
      dates are validated. */
  function MakeHabit(
    id: Option<int>,
    name: string := "",
    task: string := "",
    periodicity: string := "",
    creationDate: string := "",
    completionDates: Option<seq<string>> := None): (h: Habit)
    ensures h.id == id && h.name == name && h.task == task
    ensures h.periodicity == periodicity && h.creationDate == creationDate
    ensures h.completionDates == ValidateCompletionDates(completionDates)
    ensures AllParse(h.completionDates)
    ensures completionDates.None? ==> h.completionDates == []
    ensures completionDates.Some? ==> IsSubseq(h.completionDates, completionDates.value)
  {
    Habit(id, name, task, periodicity, creationDate, ValidateCompletionDates(completionDates))
  }

  /** Rebuilding a habit whose dates all parse from its own fields gives it back. */
  lemma MakeHabitRebuilds(h: Habit)
    requires AllParse(h.completionDates)
    ensures MakeHabit(h.id, h.name, h.task, h.periodicity, h.creationDate, Some(h.completionDates)) == h
  {
    ValidateKeepsValid(h.completionDates);
  }

  /** `complete_task`: appends the string as given, without validation,
      sorting or removal of duplicates. */
  function CompleteTask(h: Habit, completionDate: string): (r: Habit)
    ensures |r.completionDates| == |h.completionDates| + 1
    ensures r.completionDates[..|h.completionDates|] == h.completionDates
    ensures r.completionDates[|h.completionDates|] == completionDate
    ensures r.id == h.id && r.name == h.name && r.task == h.task
    ensures r.periodicity == h.periodicity && r.creationDate == h.creationDate
  {
    h.(completionDates := h.completionDates + [completionDate])
  }

  /** Because `complete_task` does not validate, it keeps the constructor's
      guarantee exactly when the new string parses. */
  lemma CompleteTaskKeepsValidity(h: Habit, completionDate: string)
    requires AllParse(h.completionDates)
    ensures AllParse(CompleteTask(h, completionDate).completionDates) <==> Parses(completionDate)
  {
    var r := CompleteTask(h, completionDate);
    assert r.completionDates[|h.completionDates|] == completionDate;
  }

  // ---------------------------------------------------------------------
  // Streaks
  // ---------------------------------------------------------------------

  /** The period in days: 1 for "daily", 7 for every other string. */
  function Period(periodicity: string): (p: int)
    ensures p == 1 <==> periodicity == "daily"
    ensures p == 7 <==> periodicity != "daily"
  {
    if periodicity == "daily" then 1 else 7
  }

  /** The day ordinal of a date string; only ever applied to strings that
      parse (the value 0 for the others is never used). */
  function DayOrdinal(s: string): int {
    match Parse(s)
    case Some(d) => Ordinal(d)
    case None => 0
  }

  /** The day ordinals of the dates, position by position. */
  function DayOrdinals(dates: seq<string>): (r: seq<int>)
    ensures |r| == |dates|
    ensures forall i :: 0 <= i < |dates| ==> r[i] == DayOrdinal(dates[i])
  {
    Map(DayOrdinal, dates)
  }

  /** The completion dates as ascending day ordinals (`streaks` in habit.py sorts the
      parsed datetimes, which are ordered exactly as their ordinals are,
      see `Dates.OrdinalOrder`). */
  function SortedOrdinals(dates: seq<string>): (r: seq<int>)
    ensures Sorted(r) && |r| == |dates|
    ensures multiset(r) == multiset(DayOrdinals(dates))
  {
    SortInts(DayOrdinals(dates))
  }

  /** The sorted ordinals depend only on the multiset of date strings. */
  lemma SortedOrdinalsPermutation(a: seq<string>, b: seq<string>)
    requires AllParse(a)
    requires multiset(a) == multiset(b)
    ensures AllParse(b) && SortedOrdinals(a) == SortedOrdinals(b)
  {
    assert AllParse(b) by {
      forall i | 0 <= i < |b| ensures Parses(b[i]) {
        assert b[i] in multiset(a);
      }
    }
    MapPermutation(DayOrdinal, a, b);
    SortPermutationInvariant(DayOrdinals(a), DayOrdinals(b));
  }

  /** Neighbours `i` and `i + 1` are exactly `p` days apart. */
  predicate ExactLink(s: seq<int>, p: int, i: int) {
    0 <= i < |s| - 1 && s[i + 1] - s[i] == p
  }

  /** A maximal run of exact links starts at `i`: link `i` holds and link
      `i - 1` does not. Each maximal run of two or more dates has exactly
      one such start. */
  predicate RunStart(s: seq<int>, p: int, i: int) {
    ExactLink(s, p, i) && !ExactLink(s, p, i - 1)
  }

  /** The number of run starts below `k`. */
  function CountRunStarts(s: seq<int>, p: int, k: nat): nat
    requires k <= |s|
  {
    if k == 0 then 0
    else CountRunStarts(s, p, k - 1) + (if RunStart(s, p, k - 1) then 1 else 0)
  }

  /** Two run starts are never adjacent, so at most every other index is one. */
  lemma {:induction false} RunStartsBound(s: seq<int>, p: int, k: nat)
    requires k <= |s|
    ensures CountRunStarts(s, p, k) <= (k + 1) / 2
  {
    if k >= 1 {
      if RunStart(s, p, k - 1) && k >= 2 {
        assert !RunStart(s, p, k - 2);
        RunStartsBound(s, p, k - 2);
      } else if k >= 2 {
        RunStartsBound(s, p, k - 1);
      }
    }
  }

  /** The number of maximal exact runs of length at least two in `s`. */
  function ExactRuns(s: seq<int>, p: int): (n: nat)
    ensures n <= |s| / 2
  {
    RunStartsBound(s, p, |s|);
    if |s| == 0 then 0
    else
      assert !RunStart(s, p, |s| - 1);
      RunStartsBound(s, p, |s| - 1);
      CountRunStarts(s, p, |s|)
  }

  /** Dates exactly one period apart all the way through form one run. */
  lemma SingleExactRun(s: seq<int>, p: int)
    requires |s| >= 2
    requires forall k :: 0 <= k < |s| - 1 ==> ExactLink(s, p, k)
    ensures ExactRuns(s, p) == 1
  {
    SingleRunStart(s, p, |s|);
  }

  lemma {:induction false} SingleRunStart(s: seq<int>, p: int, k: nat)
    requires 1 <= k <= |s|
    requires forall i :: 0 <= i < |s| - 1 ==> ExactLink(s, p, i)
    ensures CountRunStarts(s, p, k) == (if |s| >= 2 then 1 else 0)
  {
    if k == 1 {
      assert CountRunStarts(s, p, 0) == 0;
    } else {
      assert ExactLink(s, p, k - 2);
      SingleRunStart(s, p, k - 1);
    }
  }

  /** Without a single exact gap there is no run to count. */
  lemma {:induction false} NoExactLinkNoRuns(s: seq<int>, p: int, k: nat)
    requires k <= |s|
    requires forall i :: 0 <= i < |s| - 1 ==> !ExactLink(s, p, i)
    ensures CountRunStarts(s, p, k) == 0
  {
    if k > 0 {
      NoExactLinkNoRuns(s, p, k - 1);
    }
  }

  /** Every sorted ordinal is the ordinal of one of the dates. */
  lemma SortedOrdinalsElements(dates: seq<string>, k: int)
    requires 0 <= k < |dates|
    ensures exists i :: 0 <= i < |dates| && SortedOrdinals(dates)[k] == DayOrdinal(dates[i])
  {
    var s := SortedOrdinals(dates);
    assert s[k] in multiset(DayOrdinals(dates));
  }

  /** The `streaks` property. */
  function Streaks(h: Habit): (n: nat)
    requires AllParse(h.completionDates)
    ensures |h.completionDates| == 0 ==> n == 0
    ensures n <= |h.completionDates| / 2
  {
    ExactRuns(SortedOrdinals(h.completionDates), Period(h.periodicity))
  }

  /** `streaks` in habit.py: walk the sorted dates, extend the
      current run on an exact gap, otherwise close it (counting it when it
      holds two or more dates) and start a new one; count the final run
      the same way. */
  method ComputeStreaks(h: Habit) returns (count: nat)
    requires AllParse(h.completionDates)
    ensures count == Streaks(h)
  {
    if |h.completionDates| == 0 {
      return 0;
    }
    count := ScanExactRuns(SortedOrdinals(h.completionDates), Period(h.periodicity));
  }

  /** The loop of `streaks` over the sorted, non-empty date ordinals. */
  method ScanExactRuns(sorted: seq<int>, period: int) returns (count: nat)
    requires |sorted| > 0
    ensures count == ExactRuns(sorted, period)
  {
    count := 0;
    var current := 1;
    var i := 1;
    while i < |sorted|
      invariant 1 <= i <= |sorted|
      invariant 1 <= current <= i
      invariant current >= 2 <==> ExactLink(sorted, period, i - 2)
      invariant count + (if current >= 2 then 1 else 0) == CountRunStarts(sorted, period, i - 1)
    {
      if sorted[i] - sorted[i - 1] == period {
        current := current + 1;
      } else {
        if current >= 2 {
          count := count + 1;
        }
        current := 1;
      }
      i := i + 1;
    }
    if current >= 2 {
      count := count + 1;
    }
    assert !RunStart(sorted, period, |sorted| - 1);
  }

  /** `streaks` depends only on the multiset of dates, not their order. */
  lemma StreaksPermutation(h1: Habit, h2: Habit)
    requires AllParse(h1.completionDates)
    requires multiset(h1.completionDates) == multiset(h2.completionDates)
    requires h1.periodicity == h2.periodicity
    ensures AllParse(h2.completionDates) && Streaks(h1) == Streaks(h2)
  {
    SortedOrdinalsPermutation(h1.completionDates, h2.completionDates);
  }
}
