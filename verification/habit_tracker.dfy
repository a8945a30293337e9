/** The persistence layer: two tables, `habits` and `completions`, modelled
    as two finite maps from row id to row, each with the sequence of its ids
    in table order. Every operation is a pure transition from one store to
    the next; the ids the database would hand out are parameters, required
    only to be fresh. */
module HabitTracker {
  import opened Wrappers
  import opened Seqs
  import opened Dates
  import opened Habits

  /** A `habits` row without its id. */
  datatype HabitRow = HabitRow(name: string, task: string, periodicity: string, creationDate: string)

  /** A `completions` row without its id. */
  datatype CompletionRow = CompletionRow(habitId: int, completionDate: string)

  /** One entry of `get_completions_for_habit`: `{"id": …, "completion_date": …}`. */
  datatype CompletionRecord = CompletionRecord(id: int, completionDate: string)

  datatype Store = Store(
    habits: map<int, HabitRow>,
    habitOrder: seq<int>,
    completions: map<int, CompletionRow>,
    completionOrder: seq<int>)

  /** Each table lists every one of its rows exactly once. */
  predicate Valid(st: Store) {
    && Distinct(st.habitOrder)
    && (forall i :: 0 <= i < |st.habitOrder| ==> st.habitOrder[i] in st.habits)
    && (forall id :: id in st.habits ==> id in st.habitOrder)
    && Distinct(st.completionOrder)
    && (forall i :: 0 <= i < |st.completionOrder| ==> st.completionOrder[i] in st.completions)
    && (forall id :: id in st.completions ==> id in st.completionOrder)
  }

  /** Both tables empty, as after `create_tables`. */
  const EmptyStore := Store(map[], [], map[], [])

  /** The empty store is a valid store with no habits and no completions. */
  lemma EmptyStoreValid()
    ensures Valid(EmptyStore)
    ensures forall id :: GetHabitById(EmptyStore, id) == None
    ensures GetHabits(EmptyStore) == [] && GetCompletions(EmptyStore) == []
  {
  }

  // ---------------------------------------------------------------------
  // Queries
  // ---------------------------------------------------------------------

  function RecordId(c: CompletionRecord): int {
    c.id
  }

  function RecordDate(c: CompletionRecord): string {
    c.completionDate
  }

  /** The completions among `order` that belong to `habitId`, in order. */
  function RecordsFor(order: seq<int>, completions: map<int, CompletionRow>, habitId: int): (r: seq<CompletionRecord>)
    requires forall i :: 0 <= i < |order| ==> order[i] in completions
    ensures forall k :: 0 <= k < |r| ==>
              r[k].id in completions && completions[r[k].id] == CompletionRow(habitId, r[k].completionDate)
    ensures forall i :: 0 <= i < |order| && completions[order[i]].habitId == habitId ==>
              order[i] in Map(RecordId, r)
    ensures IsSubseq(Map(RecordId, r), order)
  {
    if |order| == 0 then []
    else
      var c := completions[order[0]];
      var rest := RecordsFor(order[1..], completions, habitId);
      if c.habitId == habitId then [CompletionRecord(order[0], c.completionDate)] + rest
      else rest
  }

  /** `get_completions_for_habit`: the `(id, completion_date)` pairs of the
      completions whose `habit_id` matches, in table order. It does not ask
      whether the habit itself still exists. */
  function GetCompletionsForHabit(st: Store, habitId: int): (r: seq<CompletionRecord>)
    requires Valid(st)
    ensures forall k :: 0 <= k < |r| ==>
              r[k].id in st.completions
              && st.completions[r[k].id] == CompletionRow(habitId, r[k].completionDate)
    ensures forall cid :: cid in st.completions && st.completions[cid].habitId == habitId ==>
              cid in Map(RecordId, r)
    ensures IsSubseq(Map(RecordId, r), st.completionOrder)
  {
    RecordsFor(st.completionOrder, st.completions, habitId)
  }

  /** The `completion_date` column of the completions of `habitId`. */
  function CompletionDates(st: Store, habitId: int): seq<string>
    requires Valid(st)
  {
    Map(RecordDate, GetCompletionsForHabit(st, habitId))
  }

  /** `get_completions`: the id of every completion row, once each, in table order. */
  function GetCompletions(st: Store): (r: seq<int>)
    requires Valid(st)
    ensures Distinct(r)
    ensures forall cid :: cid in r <==> cid in st.completions
  {
    st.completionOrder
  }

  /** `get_habit_by_id`: `None` exactly when no `habits` row has that id;
      otherwise the habit rebuilt from its row and the dates of the
      completions carrying its id, validated as on construction. */
  function GetHabitById(st: Store, id: int): (r: Option<Habit>)
    requires Valid(st)
    ensures r.None? <==> id !in st.habits
    ensures r.Some? ==>
              && r.value.id == Some(id)
              && r.value.name == st.habits[id].name
              && r.value.task == st.habits[id].task
              && r.value.periodicity == st.habits[id].periodicity
              && r.value.creationDate == st.habits[id].creationDate
              && r.value.completionDates == ValidateCompletionDates(Some(CompletionDates(st, id)))
  {
    if id in st.habits then
      var row := st.habits[id];
      Some(MakeHabit(Some(id), row.name, row.task, row.periodicity, row.creationDate,
                     Some(CompletionDates(st, id))))
    else None
  }

  /** The habits rebuilt for each id of `ids`, in order. */
  function HabitsOf(st: Store, ids: seq<int>): (r: seq<Habit>)
    requires Valid(st)
    requires forall i :: 0 <= i < |ids| ==> ids[i] in st.habits
    ensures |r| == |ids|
    ensures forall i :: 0 <= i < |ids| ==> GetHabitById(st, ids[i]) == Some(r[i])
  {
    if |ids| == 0 then []
    else
      var first := GetHabitById(st, ids[0]);
      var rest := HabitsOf(st, ids[1..]);
      assert forall i :: 1 <= i < |ids| ==> ids[i] == ids[1..][i - 1];
      [first.value] + rest
  }

  /** `get_habits`: one habit per `habits` row, in table order, each
      rebuilt exactly as `get_habit_by_id` rebuilds it. */
  function GetHabits(st: Store): (r: seq<Habit>)
    requires Valid(st)
    ensures |r| == |st.habitOrder|
    ensures forall i :: 0 <= i < |r| ==> GetHabitById(st, st.habitOrder[i]) == Some(r[i])
  {
    HabitsOf(st, st.habitOrder)
  }

  /** The ids of the rebuilt habits are exactly the ids of the rows. */
  lemma GetHabitsIds(st: Store)
    requires Valid(st)
    ensures forall id :: id in st.habits <==> exists i :: 0 <= i < |GetHabits(st)| && GetHabits(st)[i].id == Some(id)
  {
    var hs := GetHabits(st);
    forall id | id in st.habits
      ensures exists i :: 0 <= i < |hs| && hs[i].id == Some(id)
    {
      var i :| 0 <= i < |st.habitOrder| && st.habitOrder[i] == id;
      assert hs[i].id == Some(id);
    }
  }

  /** A rebuilt habit holds exactly the dates that parse among the
      completions carrying its id. */
  lemma GetHabitCompletionDates(st: Store, id: int, date: string)
    requires Valid(st) && id in st.habits
    ensures date in GetHabitById(st, id).value.completionDates <==>
              Parses(date) && exists cid :: cid in st.completions && st.completions[cid] == CompletionRow(id, date)
  {
    if date in GetHabitById(st, id).value.completionDates {
      RebuiltDateHasRow(st, id, date);
    }
    if Parses(date) && exists cid :: cid in st.completions && st.completions[cid] == CompletionRow(id, date) {
      var cid :| cid in st.completions && st.completions[cid] == CompletionRow(id, date);
      RowDateIsRebuilt(st, id, cid);
    }
  }

  lemma RebuiltDateHasRow(st: Store, id: int, date: string)
    requires Valid(st) && id in st.habits
    requires date in GetHabitById(st, id).value.completionDates
    ensures Parses(date)
    ensures exists cid :: cid in st.completions && st.completions[cid] == CompletionRow(id, date)
  {
    var dates := CompletionDates(st, id);
    var kept := ValidateCompletionDates(Some(dates));
    assert date in kept;
    assert Parses(date) && date in dates by {
      SubseqElements(kept, dates);
    }
    var recs := GetCompletionsForHabit(st, id);
    var k :| 0 <= k < |dates| && dates[k] == date;
    assert recs[k].completionDate == date;
    assert st.completions[recs[k].id] == CompletionRow(id, date);
  }

  lemma RowDateIsRebuilt(st: Store, id: int, cid: int)
    requires Valid(st) && id in st.habits
    requires cid in st.completions && st.completions[cid].habitId == id
    requires Parses(st.completions[cid].completionDate)
    ensures st.completions[cid].completionDate in GetHabitById(st, id).value.completionDates
  {
    var recs := GetCompletionsForHabit(st, id);
    var dates := CompletionDates(st, id);
    assert cid in Map(RecordId, recs);
    var k :| 0 <= k < |recs| && Map(RecordId, recs)[k] == cid;
    assert dates[k] == st.completions[cid].completionDate;
  }

  // ---------------------------------------------------------------------
  // Transitions
  // ---------------------------------------------------------------------

  /** The store after `create_habit`, and the habit it returns. */
  datatype Created = Created(store: Store, habit: Habit)

  /** `create_habit`: adds one `habits` row under the fresh id `newId` and
      returns the habit with that id, the given fields and no completions.
      The `completions` table is left as it is. */
  function CreateHabit(st: Store, newId: int, name: string, task: string, periodicity: string, creationDate: string): (r: Created)
    requires Valid(st) && newId !in st.habits
    ensures Valid(r.store)
    ensures r.store.habits.Keys == st.habits.Keys + {newId}
    ensures r.store.habits[newId] == HabitRow(name, task, periodicity, creationDate)
    ensures forall id :: id in st.habits ==> r.store.habits[id] == st.habits[id]
    ensures r.store.habitOrder == st.habitOrder + [newId]
    ensures r.store.completions == st.completions && r.store.completionOrder == st.completionOrder
    ensures r.habit == Habit(Some(newId), name, task, periodicity, creationDate, [])
  {
    var habit := MakeHabit(None, name, task, periodicity, creationDate);
    var row := HabitRow(habit.name, habit.task, habit.periodicity, habit.creationDate);
    var store := st.(habits := st.habits[newId := row], habitOrder := st.habitOrder + [newId]);
    Created(store, habit.(id := Some(newId)))
  }

  /** `update_habit`: rewrites name, task and periodicity of the row with
      that id; its creation date, the other rows and every completion stay.
      An id with no row changes nothing. */
  function UpdateHabit(st: Store, id: int, name: string, task: string, periodicity: string): (r: Store)
    requires Valid(st)
    ensures Valid(r)
    ensures r.habits.Keys == st.habits.Keys && r.habitOrder == st.habitOrder
    ensures id in st.habits ==>
              r.habits[id] == HabitRow(name, task, periodicity, st.habits[id].creationDate)
    ensures forall x :: x in st.habits && x != id ==> r.habits[x] == st.habits[x]
    ensures r.completions == st.completions && r.completionOrder == st.completionOrder
    ensures id !in st.habits ==> r == st
  {
    if id in st.habits then
      st.(habits := st.habits[id := st.habits[id].(name := name, task := task, periodicity := periodicity)])
    else st
  }

  /** `delete_habit`: removes the `habits` row only. The completions of the
      deleted habit stay behind (no cascade). */
  function DeleteHabit(st: Store, id: int): (r: Store)
    requires Valid(st)
    ensures Valid(r)
    ensures r.habits.Keys == st.habits.Keys - {id}
    ensures forall x :: x in r.habits ==> r.habits[x] == st.habits[x]
    ensures IsSubseq(r.habitOrder, st.habitOrder)
    ensures r.completions == st.completions && r.completionOrder == st.completionOrder
  {
    RemoveDistinct(st.habitOrder, id);
    st.(habits := st.habits - {id}, habitOrder := Remove(st.habitOrder, id))
  }

  /** `delete_completion`: removes the completion row with that id only. */
  function DeleteCompletion(st: Store, completionId: int): (r: Store)
    requires Valid(st)
    ensures Valid(r)
    ensures r.completions.Keys == st.completions.Keys - {completionId}
    ensures forall x :: x in r.completions ==> r.completions[x] == st.completions[x]
    ensures IsSubseq(r.completionOrder, st.completionOrder)
    ensures r.habits == st.habits && r.habitOrder == st.habitOrder
  {
    RemoveDistinct(st.completionOrder, completionId);
    st.(completions := st.completions - {completionId},
        completionOrder := Remove(st.completionOrder, completionId))
  }

  /** `complete_task`: looks the habit up first and adds one completion row
      under the fresh id `newId` if it exists; otherwise neither table
      changes. The date is stored without validation. */
  function CompleteTask(st: Store, habitId: int, newId: int, completionDate: string): (r: Store)
    requires Valid(st)
    requires habitId in st.habits ==> newId !in st.completions
    ensures Valid(r)
    ensures r.habits == st.habits && r.habitOrder == st.habitOrder
    ensures habitId in st.habits ==>
              && r.completions.Keys == st.completions.Keys + {newId}
              && r.completions[newId] == CompletionRow(habitId, completionDate)
              && (forall x :: x in st.completions ==> r.completions[x] == st.completions[x])
              && r.completionOrder == st.completionOrder + [newId]
    ensures habitId !in st.habits ==> r == st
  {
    if GetHabitById(st, habitId).Some? then
      st.(completions := st.completions[newId := CompletionRow(habitId, completionDate)],
          completionOrder := st.completionOrder + [newId])
    else st
  }

  // ---------------------------------------------------------------------
  // What each transition does to what the queries return
  // ---------------------------------------------------------------------

  /** No completion row carries `habitId`. */
  predicate NoCompletionsFor(st: Store, habitId: int) {
    forall cid :: cid in st.completions ==> st.completions[cid].habitId != habitId
  }

  /** Reading a created habit back gives its fields and, as completions,
      whatever rows already carry the new id (rows left behind by a
      deleted habit that had the same id); with no such rows it gives back
      exactly the habit `create_habit` returned. Other habits read as before. */
  lemma CreateThenGet(st: Store, newId: int, name: string, task: string, periodicity: string, creationDate: string)
    requires Valid(st) && newId !in st.habits
    ensures var c := CreateHabit(st, newId, name, task, periodicity, creationDate);
            && GetHabitById(c.store, newId)
               == Some(c.habit.(completionDates := ValidateCompletionDates(Some(CompletionDates(st, newId)))))
            && (NoCompletionsFor(st, newId) ==> GetHabitById(c.store, newId) == Some(c.habit))
            && (forall x :: x != newId ==> GetHabitById(c.store, x) == GetHabitById(st, x))
  {
    var c := CreateHabit(st, newId, name, task, periodicity, creationDate);
    assert forall x :: GetCompletionsForHabit(c.store, x) == GetCompletionsForHabit(st, x);
    if NoCompletionsFor(st, newId) {
      assert CompletionDates(st, newId) == [];
    }
  }

  /** After `update_habit` the habit reads back with the new name, task and
      periodicity and everything else as before; other habits are unchanged. */
  lemma UpdateThenGet(st: Store, id: int, name: string, task: string, periodicity: string)
    requires Valid(st) && id in st.habits
    ensures var r := UpdateHabit(st, id, name, task, periodicity);
            && GetHabitById(r, id)
               == Some(GetHabitById(st, id).value.(name := name, task := task, periodicity := periodicity))
            && (forall x :: x != id ==> GetHabitById(r, x) == GetHabitById(st, x))
  {
    var r := UpdateHabit(st, id, name, task, periodicity);
    assert forall x :: GetCompletionsForHabit(r, x) == GetCompletionsForHabit(st, x);
  }

  /** After `delete_habit` the habit is gone from both queries, other
      habits read as before, and the completion rows of every habit,
      the deleted one included, are still returned. */
  lemma DeleteHabitThenGet(st: Store, id: int)
    requires Valid(st)
    ensures var r := DeleteHabit(st, id);
            && GetHabitById(r, id) == None
            && (forall x :: x != id ==> GetHabitById(r, x) == GetHabitById(st, x))
            && (forall hid :: GetCompletionsForHabit(r, hid) == GetCompletionsForHabit(st, hid))
            && (forall i :: 0 <= i < |GetHabits(r)| ==> GetHabits(r)[i].id != Some(id))
  {
    var r := DeleteHabit(st, id);
    assert forall x :: GetCompletionsForHabit(r, x) == GetCompletionsForHabit(st, x);
  }

  /** Adding a completion row that belongs to `habitId` under a new id at
      the end of the table appends its record to that habit's completions. */
  lemma {:induction false} RecordsForAppend(order: seq<int>, completions: map<int, CompletionRow>,
                                            newId: int, row: CompletionRow, habitId: int)
    requires forall i :: 0 <= i < |order| ==> order[i] in completions
    requires newId !in order
    ensures var completions' := completions[newId := row];
            RecordsFor(order + [newId], completions', habitId)
            == RecordsFor(order, completions, habitId)
               + (if row.habitId == habitId then [CompletionRecord(newId, row.completionDate)] else [])
  {
    var completions' := completions[newId := row];
    if |order| == 0 {
      assert order + [newId] == [newId];
    } else {
      assert (order + [newId])[1..] == order[1..] + [newId];
      RecordsForAppend(order[1..], completions, newId, row, habitId);
    }
  }

  /** After `complete_task` on an existing habit its completions gain one
      record at the end, other habits' completions are unchanged, and the
      rebuilt habit gains the date at the end when it parses. */
  lemma CompleteTaskThenGet(st: Store, habitId: int, newId: int, completionDate: string)
    requires Valid(st) && habitId in st.habits && newId !in st.completions
    ensures var r := CompleteTask(st, habitId, newId, completionDate);
            && GetCompletionsForHabit(r, habitId)
               == GetCompletionsForHabit(st, habitId) + [CompletionRecord(newId, completionDate)]
            && (forall other :: other != habitId ==>
                  GetCompletionsForHabit(r, other) == GetCompletionsForHabit(st, other))
            && GetHabitById(r, habitId).value.completionDates
               == GetHabitById(st, habitId).value.completionDates
                  + (if Parses(completionDate) then [completionDate] else [])
  {
    var r := CompleteTask(st, habitId, newId, completionDate);
    var row := CompletionRow(habitId, completionDate);
    forall hid
      ensures GetCompletionsForHabit(r, hid)
              == GetCompletionsForHabit(st, hid)
                 + (if hid == habitId then [CompletionRecord(newId, completionDate)] else [])
    {
      RecordsForAppend(st.completionOrder, st.completions, newId, row, hid);
    }
    var old_recs := GetCompletionsForHabit(st, habitId);
    var rec := CompletionRecord(newId, completionDate);
    MapAppend(RecordDate, old_recs, [rec]);
    assert Map(RecordDate, [rec]) == [completionDate];
    FilterAppend(Map(RecordDate, old_recs), [completionDate], Parses);
  }

  /** What the test suite checks after `complete_task`: a completed date reads back in the habit. */
  lemma CompleteTaskIsVisible(st: Store, habitId: int, newId: int, completionDate: string)
    requires Valid(st) && habitId in st.habits && newId !in st.completions
    requires Parses(completionDate)
    ensures completionDate in GetHabitById(CompleteTask(st, habitId, newId, completionDate), habitId).value.completionDates
  {
    CompleteTaskThenGet(st, habitId, newId, completionDate);
  }

  /** `get_completions` after each transition: only `complete_task` on an
      existing habit adds an id, at the end; only `delete_completion`
      removes one; creating, updating and deleting habits leave it alone. */
  lemma GetCompletionsAfterTransitions(st: Store, habitId: int, newId: int, completionDate: string,
                                       cid: int, name: string, task: string, periodicity: string,
                                       creationDate: string)
    requires Valid(st)
    ensures habitId in st.habits && newId !in st.completions ==>
              GetCompletions(CompleteTask(st, habitId, newId, completionDate)) == GetCompletions(st) + [newId]
    ensures habitId !in st.habits ==>
              GetCompletions(CompleteTask(st, habitId, newId, completionDate)) == GetCompletions(st)
    ensures GetCompletions(DeleteCompletion(st, cid)) == Remove(GetCompletions(st), cid)
    ensures GetCompletions(UpdateHabit(st, habitId, name, task, periodicity)) == GetCompletions(st)
    ensures GetCompletions(DeleteHabit(st, habitId)) == GetCompletions(st)
    ensures newId !in st.habits ==>
              GetCompletions(CreateHabit(st, newId, name, task, periodicity, creationDate).store)
              == GetCompletions(st)
  {
  }

  /** Every record `get_completions_for_habit` returns is listed by
      `get_completions`. */
  lemma CompletionsForHabitListed(st: Store, habitId: int)
    requires Valid(st)
    ensures forall k :: 0 <= k < |GetCompletionsForHabit(st, habitId)| ==>
              GetCompletionsForHabit(st, habitId)[k].id in GetCompletions(st)
  {
  }

  /** The test "not the completion with id `cid`". */
  function NotRecord(cid: int): CompletionRecord -> bool {
    (c: CompletionRecord) => c.id != cid
  }

  /** Dropping one completion row drops at most its record from a habit's completions. */
  lemma {:induction false} RecordsForRemove(order: seq<int>, completions: map<int, CompletionRow>,
                                            cid: int, habitId: int)
    requires forall i :: 0 <= i < |order| ==> order[i] in completions
    ensures forall i :: 0 <= i < |Remove(order, cid)| ==> Remove(order, cid)[i] in completions - {cid}
    ensures RecordsFor(Remove(order, cid), completions - {cid}, habitId)
            == Filter(RecordsFor(order, completions, habitId), NotRecord(cid))
  {
    if |order| > 0 {
      RecordsForRemove(order[1..], completions, cid, habitId);
    }
  }

  /** After `delete_completion` every habit's completions lose exactly
      the record with that id, and the habits table is untouched. */
  lemma DeleteCompletionThenGet(st: Store, cid: int)
    requires Valid(st)
    ensures var r := DeleteCompletion(st, cid);
            forall hid :: GetCompletionsForHabit(r, hid) == Filter(GetCompletionsForHabit(st, hid), NotRecord(cid))
  {
    forall hid
      ensures GetCompletionsForHabit(DeleteCompletion(st, cid), hid)
              == Filter(GetCompletionsForHabit(st, hid), NotRecord(cid))
    {
      RecordsForRemove(st.completionOrder, st.completions, cid, hid);
    }
  }
}
