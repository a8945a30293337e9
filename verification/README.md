# Habit tracker core in Dafny

A model of the core of a small habit-tracking application. Users define
habits with a periodicity, record completion dates, and ask for streak
statistics. The model covers three parts:

- **the habit entity** (`habit.py`, module `Habits`). A habit has an id,
  name, task, periodicity, creation date and a list of completion-date
  strings. The constructor keeps only the strings that parse as dates.
  `complete_task` appends a string as it is. `streaks` counts the maximal
  runs of at least two sorted dates whose gaps are *exactly* one period:
  1 day for `"daily"`, 7 days for any other string.
- **the analytics** (`analytics.py`, module `Analytics`):
  - filtering habits by periodicity;
  - `longest_streak`, the longest run whose gaps are *at most* one period
    (1 day for `"daily"`, 7 for `"weekly"`; for any other periodicity no
    gap extends a run);
  - the maximum of `longest_streak` over a non-empty list of habits.
- **the store** (`habit_tracker.py`, module `HabitTracker`). The
  `habits` and `completions` tables are two finite maps from row id to
  row, each with its ids in table order. Every CRUD call is a pure
  transition or query on that record.

Dates (module `Dates`) are ISO 8601 extended calendar dates on the
proleptic Gregorian calendar. `Dates.Parse` follows the grammar Python's
`strptime` uses for `"%Y-%m-%d"`:

- the year is exactly four digits;
- the month is `10`-`12`, `01`-`09` or `1`-`9`;
- the day is `30`, `31`, `10`-`29`, `01`-`09`, `1`-`9`, or a space and
  `1`-`9`;
- the whole text must be used up;
- the fields must name a real date in years 1-9999.

So `2023-1-2` and `2023-01- 2` are accepted, and `2023-02-29` and
`0000-01-01` are not. A date maps to its day ordinal, Python's
`toordinal`, where 0001-01-01 is day 1. The gap between two dates is then
integer subtraction. `Dates.OrdinalOrder` proves that sorting dates and
sorting their ordinals agree. Sorting itself (`Seqs.SortInts`) is
specified as "ascending and a permutation", and `Seqs.SortedUnique` proves
that this pins the result down.

Each of the two streak scans is written twice:

- as a method with the Python loop (`Habits.ComputeStreaks`,
  `Analytics.ScanLongestRun`);
- as an independent definition the method is proved to agree with.

For `streaks` the definition counts run starts: a run of two or more
dates starts at index `i` when the gap after `i` is exactly the period and
the gap before `i` is not. For `longest_streak` the definition is the
length of the longest window of sorted dates in which every gap is within
the period (`Analytics.LongestRunIsMaxWindow`).

Where the application's intended design and its code differ, the model
follows the code:

- Periodicity is any string, not one of two values. `streaks` uses 7 days
  for every string except `"daily"`. For any string other than `"daily"`
  and `"weekly"`, `longest_streak` returns 1 on a non-empty list of dates
  and 0 on an empty one.
- Name and task may be empty; the constructor's defaults are `""`.
- A habit read back right after creation can show completions.
  `delete_habit` does not remove a habit's completion rows. If the
  database gives a deleted habit's id to a new habit, the new habit
  inherits those rows (`HabitTracker.CreateThenGet`). It reads back with no
  completions only when no row carries its id.

## Model

| member | source | states |
|---|---|---|
| Dates.DaysInMonth | habit.py:99 | February has 28 days in a common year and 29 in a Gregorian leap year, April, June, September and November have 30, and every other month 31 |
| Dates.Parse | habit.py:99 | a date `strptime("%Y-%m-%d")` accepts is a real date in years 1..9999, and the accepted text is 8 to 10 characters with `-` after the year; `ParseSpelling` and `SpellingOfParse` pin down which date every accepted text names |
| Dates.Format | test_habit_tracker.py:68 | `strftime("%Y-%m-%d")` writes ten characters with `-` at positions 4 and 7; `ParseFormat` and `FormatParse` make it the inverse of `Parse` on that form |
| Dates.ParseFormat | habit.py:99 | reading back a zero-padded `YYYY-MM-DD` date gives the same date |
| Dates.FormatParse | habit.py:99 | a ten-character text `strptime` accepts, with no space before the day, is the zero-padded form of the date it names, so the text determines the date |
| Dates.ParseSpelling | habit.py:99 | every spelling of a valid date reads back as that date: a four-digit year, then the month as `%m` matches it (two digits, or one below 10), then the day as `%d` matches it (two digits, or below 10 one digit or a space and one digit) |
| Dates.SpellingOfParse | habit.py:99 | every text `strptime` accepts is one of those spellings of the date it yields, so the text determines the date |
| Dates.ParseAcceptsPadded | habit.py:99 | the zero-padded form is accepted, 29 February of a leap year included |
| Dates.ParseAcceptsUnpadded | habit.py:99 | unpadded and space-padded month and day fields are accepted and name the same date |
| Dates.ParseRejectsNonDates | habit.py:99 | 29 February of a common year (1900 included) and year 0 are rejected |
| Dates.ParseRejectsMalformed | habit.py:99 | day 32, month 13, a two-digit year and trailing text are rejected |
| Dates.Ordinal | habit.py:69 | the day number behind date subtraction, with 0001-01-01 as day 1; `OrdinalOrder` and `OrdinalNextDay` show it follows calendar order and steps by one per day |
| Dates.OrdinalOrder | analytics.py:31 | calendar order is ordinal order, and two dates have equal ordinals only when they are the same date, so sorting datetimes is sorting ordinals |
| Dates.NextDay | test_habit_tracker.py:67 | the next calendar day is a valid date after the given one |
| Dates.OrdinalNextDay | test_habit_tracker.py:65-68 | consecutive calendar days are exactly one day apart, across month and year ends |
| Seqs.Filter | analytics.py:15 | the filtered list is an order-preserving subsequence, every element passes the test, every passing element is kept, and its length is the number of passing elements |
| Seqs.FilterIdempotent | analytics.py:15 | filtering twice with the same test is filtering once |
| Seqs.SortInts | analytics.py:31 | the sorted list is ascending and a permutation of the input |
| Seqs.SortedUnique | habit.py:64 | two ascending lists with the same elements and multiplicities are equal |
| Seqs.SortPermutationInvariant | habit.py:64 | the sorted list depends only on the multiset of the input |
| Seqs.MaxOf | analytics.py:57 | the maximum of a non-empty list bounds every element and is one of them |
| Seqs.Remove | habit_tracker.py:97 | removing an id keeps every other element in order, with its multiplicity, and drops every copy of that id |
| Habits.ValidateCompletionDates | habit.py:93-103 | the result is an order-preserving subsequence of the input holding exactly the strings that parse, with their multiplicities; `None` gives `[]` |
| Habits.RejectedDates | habit.py:101-102 | the skipped strings, each reported once, in order, and none of them parses |
| Habits.ValidationPartitions | habit.py:96-103 | every input string is either kept or reported, with its multiplicity |
| Habits.ValidateIdempotent | habit.py:93-103 | validating a validated list changes nothing |
| Habits.ValidateKeepsValid | habit.py:96-103 | a list whose strings all parse passes validation unchanged |
| Habits.MakeHabit | habit.py:29-36 | the constructor stores id, name, task, periodicity and creation date as given and keeps exactly the validated dates, which is `[]` for `None` |
| Habits.MakeHabitRebuilds | habit.py:29-36 | rebuilding a habit from its own fields gives the same habit when all its dates parse |
| Habits.CompleteTask | habit.py:48 | the date is appended verbatim: one more entry, earlier entries and every other field unchanged |
| Habits.CompleteTaskKeepsValidity | habit.py:48 | after `complete_task` all dates parse exactly when the appended string parses |
| Habits.Period | habit.py:62 | the period is 1 day exactly for `"daily"` and 7 days for every other string |
| Habits.DayOrdinals | habit.py:64 | each date string maps to its day ordinal, position by position |
| Habits.SortedOrdinals | habit.py:64 | the ordinals in ascending order, a permutation of the dates' ordinals |
| Habits.SortedOrdinalsPermutation | habit.py:64 | reordering the date strings does not change the sorted ordinals |
| Habits.RunStartsBound | habit.py:68-79 | two runs never start at adjacent indices, so at most every other index starts one |
| Habits.ExactRuns | habit.py:65-79 | the number of maximal exact runs of length at least 2 is at most half the number of dates |
| Habits.Streaks | habit.py:58-81 | `streaks` is 0 without dates and at most half the number of dates |
| Habits.ComputeStreaks | habit.py:58-81 | `streaks` returns 0 for no dates and otherwise the number of maximal exact runs of the sorted dates |
| Habits.ScanExactRuns | habit.py:65-79 | the loop in habit.py returns the number of run starts, where a run of two or more dates, each one period after the last, starts at each exact gap not preceded by one |
| Habits.StreaksPermutation | habit.py:64 | `streaks` depends only on the multiset of dates |
| Habits.SingleExactRun | habit.py:68-79 | dates that are exactly one period apart throughout make one streak |
| Habits.NoExactLinkNoRuns | habit.py:69-75 | with no gap equal to the period there is no streak |
| Habits.SortedOrdinalsElements | habit.py:64 | every sorted ordinal is the ordinal of one of the dates |
| Analytics.HabitsByPeriodicity | analytics.py:15 | the result is an order-preserving subsequence holding exactly the habits whose periodicity equals the argument |
| Analytics.HabitsByPeriodicityIdempotent | analytics.py:15 | filtering the result again returns it unchanged |
| Analytics.HabitsByPeriodicityNoMatch | analytics.py:15 | a periodicity no habit has gives `[]` |
| Analytics.Extends | analytics.py:36-38 | a gap extends a run for `"daily"` and `"weekly"` exactly when it is at most the period `streaks` uses for them, and never for any other periodicity |
| Analytics.RunEndingAt | analytics.py:35-41 | the run counter at an index is the length of a window ending there in which every gap is within the period, and the gap before that window is not |
| Analytics.WindowWithinRun | analytics.py:35-41 | every window ending at an index whose gaps are within the period is no longer than the run counter there |
| Analytics.LongestUpTo | analytics.py:42 | the running maximum is between 1 and the number of dates scanned |
| Analytics.LongestUpToIsMaxWindow | analytics.py:32-42 | the running maximum is the length of the longest window so far whose gaps are within the period |
| Analytics.LongestRun | analytics.py:28-44 | the result is 0 exactly when there are no dates, and never more than the number of dates |
| Analytics.LongestRunIsMaxWindow | analytics.py:32-44 | the result is attained by a window whose gaps are within the period and bounds every such window |
| Analytics.WholeWindowLongest | analytics.py:34-42 | when every gap is within the period the result is the number of dates |
| Analytics.LongestStreak | analytics.py:28-44 | `longest_streak` is 0 exactly for no dates, otherwise between 1 and the number of dates |
| Analytics.ComputeLongestStreak | analytics.py:28-44 | `longest_streak` in analytics.py returns the longest run of the sorted dates, 0 for none |
| Analytics.ScanLongestRun | analytics.py:32-44 | the loop in analytics.py (reset to 1 on a gap outside the period, keep the maximum) computes the longest run |
| Analytics.LongestStreakPermutation | analytics.py:31 | `longest_streak` depends only on the multiset of dates |
| Analytics.LongestStreakOtherPeriodicity | analytics.py:36-41 | for a periodicity other than `"daily"` and `"weekly"` any non-empty list of dates gives 1 |
| Analytics.UnknownPeriodicityRuns | analytics.py:36-42 | for such a periodicity the running maximum stays 1 |
| Analytics.StreaksBoundLongestStreak | analytics.py:36-39 | for `"daily"` and `"weekly"`, a habit with a streak has a longest streak of at least 2 |
| Analytics.FindRunStart | habit.py:69-79 | a positive streak count has an index where a run starts |
| Analytics.LongestStreakAllHabits | analytics.py:57 | over a non-empty list, the result is at least every habit's `longest_streak` and equal to one of them |
| Analytics.StatsFromOrdinals | analytics.py:31 | once a habit's day ordinals are ascending, `streaks` and `longest_streak` are the exact-run count and the longest run of those ordinals |
| Analytics.EarlyJanuary2023 | test_habit_tracker.py:65-68 | `2023-01-0d` parses to 2023-01-d, whose ordinal is 738520 + d |
| Analytics.FiveConsecutiveDays | test_habit_tracker.py:61-71 | any daily habit holding the test's five consecutive dates has a longest streak of 5 and one streak |
| Analytics.FiveDaysRuns | test_habit_tracker.py:65-71 | the five consecutive ordinals are already sorted, form one exact daily run and one daily window of 5 |
| Analytics.FiveDaysOrdinals | test_habit_tracker.py:65-68 | the five dates of the test parse and are consecutive day ordinals |
| Analytics.ConsecutiveRuns | analytics.py:34-42 | consecutive ordinals are already sorted, form one exact daily run, and form one daily window |
| Analytics.GapBreaksRun | habit.py:69-79 | 2023-01-01, 2023-01-02, 2023-01-04 on any daily habit give one streak and a longest streak of 2 |
| Analytics.GapDatesOrdinals | habit.py:64 | those three dates parse to ordinals 738521, 738522 and 738524 |
| Analytics.GapBreaksRunOrdinals | analytics.py:31-44 | on those ordinals the exact-run count is 1 and the longest daily run is 2 |
| Analytics.GapExactRuns | habit.py:68-79 | the gap of two days ends the exact run after two dates |
| Analytics.GapLongestRun | analytics.py:35-42 | the gap of two days resets the daily run counter |
| Analytics.RepeatedDate | habit.py:69-75 | one date recorded several times gives no streak, because a gap of 0 is not a period, but its copies form one run for `longest_streak` on a daily or weekly habit |
| HabitTracker.RecordsFor | habit_tracker.py:190-196 | each record is a completion row of that habit with its date, every such row appears, and the ids keep table order |
| HabitTracker.GetCompletionsForHabit | habit_tracker.py:178-198 | the `(id, completion_date)` pairs of exactly the completion rows with that `habit_id`, in table order, whether or not the habit exists |
| HabitTracker.GetCompletions | habit_tracker.py:158-175 | the id of every completion row, each once |
| HabitTracker.GetCompletionsAfterTransitions | habit_tracker.py:167-173 | `complete_task` on an existing habit appends the new id; `delete_completion` removes exactly that id; every other transition leaves the list unchanged |
| HabitTracker.CompletionsForHabitListed | habit_tracker.py:190-196 | every record `get_completions_for_habit` returns is among the ids `get_completions` lists |
| HabitTracker.EmptyStoreValid | initialize_db.py:15-26 | the freshly created tables form a valid store in which no id finds a habit and both `get_habits` and `get_completions` return `[]` |
| HabitTracker.GetHabitById | habit_tracker.py:18-41 | `None` exactly when no habit row has the id; otherwise the row's fields and the validated dates of the completions with that `habit_id` |
| HabitTracker.HabitsOf | habit_tracker.py:147-152 | each listed id is rebuilt as `get_habit_by_id` rebuilds it |
| HabitTracker.GetHabits | habit_tracker.py:135-155 | one habit per habit row, in table order, each equal to what `get_habit_by_id` returns for its id |
| HabitTracker.GetHabitsIds | habit_tracker.py:144-155 | the ids of the returned habits are exactly the ids of the habit rows |
| HabitTracker.GetHabitCompletionDates | habit_tracker.py:33-38 | a date is in the rebuilt habit exactly when it parses and some completion row of that habit carries it |
| HabitTracker.RebuiltDateHasRow | habit_tracker.py:35-38 | every date of a rebuilt habit parses and comes from one of its completion rows |
| HabitTracker.RowDateIsRebuilt | habit_tracker.py:35-38 | every parsing date of a completion row shows up in its habit |
| HabitTracker.CreateHabit | habit_tracker.py:44-64 | one habit row is added under the fresh id, the other rows and the completions are unchanged, and the returned habit has that id, the given fields and no completions |
| HabitTracker.UpdateHabit | habit_tracker.py:67-82 | only name, task and periodicity of the matching row change; creation date, other rows and completions stay; a missing id changes nothing |
| HabitTracker.DeleteHabit | habit_tracker.py:85-99 | only that habit row is removed; both completion tables stay as they were |
| HabitTracker.DeleteCompletion | habit_tracker.py:102-113 | only the completion row with that id is removed |
| HabitTracker.CompleteTask | habit_tracker.py:116-132 | one completion row is added exactly when the habit exists; otherwise the store is unchanged |
| HabitTracker.CreateThenGet | habit_tracker.py:57-64 | the created habit reads back with its fields and the rows already carrying its id; with none it reads back as returned; other habits are unaffected |
| HabitTracker.UpdateThenGet | habit_tracker.py:79-80 | the updated habit reads back with the new name, task and periodicity and its old creation date and completions; others are unaffected |
| HabitTracker.DeleteHabitThenGet | habit_tracker.py:97 | the deleted habit is absent from both habit queries, others read as before, and every habit's completion records remain |
| HabitTracker.RecordsForAppend | habit_tracker.py:130 | a new completion row at the end of the table adds its record at the end of its own habit's completions only |
| HabitTracker.CompleteTaskThenGet | habit_tracker.py:124-130 | after completing an existing habit, its completions gain the new record at the end, others are unchanged, and the rebuilt habit gains the date exactly when it parses |
| HabitTracker.CompleteTaskIsVisible | test_habit_tracker.py:57-59 | a completed date that parses appears in the habit read back |
| HabitTracker.RecordsForRemove | habit_tracker.py:111 | deleting a completion row removes exactly its record from a habit's completions |
| HabitTracker.DeleteCompletionThenGet | habit_tracker.py:111 | after `delete_completion` every habit's completions lose exactly the record with that id |

## Left out

- SQLite itself is not modelled: connections, cursors, SQL text, `commit` and `create_connection`. Each call is an atomic transition on the store record.
- The database's id allocation (`lastrowid`) is not modelled. `HabitTracker.CreateHabit` and `HabitTracker.CompleteTask` take the new id as a parameter and require only that it is not in use. An id freed by a delete may be handed out again.
- The model keeps each table's rows in insertion order and takes that to be the order the queries return them in. The queries have no `ORDER BY`, and SQLite scans these tables in rowid order. The two orders agree while each new id is larger than every id in the table. SQLite's allocation (one more than the largest rowid) gives that, but `HabitTracker.CreateHabit` and `HabitTracker.CompleteTask` require only an unused id.
- `cli.py` is not modelled: the interactive menu, `input`, `print`, table output and `sys.exit`.
- `initialize_db.py` is not modelled beyond the empty tables `create_tables` makes (`HabitTracker.EmptyStore`): database bootstrap, clearing and sample data are left out.
- The diagnostic `print` during validation is modelled only as the list of rejected strings (`Habits.RejectedDates`).
- `Habit.__str__` is not modelled; it only formats text.
- `Habits.Streaks`, `Analytics.LongestStreak` and `Analytics.LongestStreakAllHabits` require every completion date to parse. habit.py and analytics.py raise `ValueError` instead, on a string appended through `Habits.CompleteTask`.
- `Habits.ScanExactRuns` keeps only the length of the current run. The loop in habit.py also collects the runs in a list it never returns.
- `Dates.Parse` accepts only ASCII digits. Python's `\d` also matches other Unicode decimal digits.
- `Dates.Format` is always the zero-padded four-digit form. What `strftime` prints for years below 1000 depends on the platform.
- `Dates.NextDay` excludes 9999-12-31, where Python's `timedelta` addition overflows.
- Ids are integers and the other fields are strings. Python is dynamically typed and does not check this.
