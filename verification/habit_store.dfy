/** The local habit store (client/src/lib/habitStore.ts): the list of habits
    and the operations that create, read, update and delete habits and
    flip one date's completion. The list lives in a field; the browser
    storage that each operation loads and saves is not part of this model.
    The new habit's id (a random UUID) and the creation instant are
    parameters. */
module HabitStore {
  import opened Types
  import opened Seqs
  import Utils

  /** `findIndex(habit => habit.id === id)`: the first position holding id, or None for -1. */
  function FindIndex(habits: seq<Habit>, id: string): (r: Option<nat>)
    ensures r.Some? ==> r.value < |habits| && habits[r.value].id == id
    ensures r.Some? ==> forall j :: 0 <= j < r.value ==> habits[j].id != id
    ensures r.None? <==> forall j :: 0 <= j < |habits| ==> habits[j].id != id
  {
    if habits == [] then None
    else if habits[0].id == id then Some(0)
    else match FindIndex(habits[1..], id)
      case None => None
      case Some(k) => Some(k + 1)
  }

  /** The form's description, or "" when it has none (`habitData.description || ""`). */
  function DescriptionOrEmpty(d: Option<string>): string
  {
    match d
    case Some(text) => text
    case None => ""
  }

  /** The record `createHabit` builds. */
  function NewHabit(data: HabitFormData, id: string, nowMs: int): (h: Habit)
    ensures h.id == id && h.createdAt == nowMs && h.history == map[]
    ensures h.title == data.title && h.frequency == data.frequency
    ensures data.description.Some? ==> h.description == data.description.value
    ensures data.description.None? ==> h.description == ""
    ensures h.frequencyCount == data.frequencyCount && h.frequencyPeriod == data.frequencyPeriod
    ensures h.reminderEnabled == data.reminderEnabled && h.reminderTime == data.reminderTime
    ensures h.selectedDays == None
  {
    Habit(id, data.title, DescriptionOrEmpty(data.description), data.frequency,
          data.frequencyCount, data.frequencyPeriod, None,
          data.reminderEnabled, data.reminderTime, nowMs, map[])
  }

  /** The record `updateHabit` builds: the stored habit with the form's fields
      written over it. */
  function UpdatedHabit(stored: Habit, data: HabitFormData): (h: Habit)
    ensures h.id == stored.id && h.createdAt == stored.createdAt
    ensures h.history == stored.history && h.selectedDays == stored.selectedDays
    ensures h.title == data.title && h.frequency == data.frequency
    ensures data.description.Some? ==> h.description == data.description.value
    ensures data.description.None? ==> h.description == ""
    ensures h.frequencyCount == data.frequencyCount && h.frequencyPeriod == data.frequencyPeriod
    ensures h.reminderEnabled == data.reminderEnabled && h.reminderTime == data.reminderTime
  {
    stored.(title := data.title,
            description := DescriptionOrEmpty(data.description),
            frequency := data.frequency,
            frequencyCount := data.frequencyCount,
            frequencyPeriod := data.frequencyPeriod,
            reminderEnabled := data.reminderEnabled,
            reminderTime := data.reminderTime)
  }

  /** `history[date] = history[date] ? false : true`. */
  function Toggled(h: History, date: Day): (r: History)
    ensures r.Keys == h.Keys + {date}
    ensures r[date] == !Done(h, date)
    ensures forall d :: d in h && d != date ==> r[d] == h[d]
  {
    h[date := !Done(h, date)]
  }

  /** Toggling a date twice restores a true entry; an entry that was absent
      or false ends up present and false. */
  lemma ToggleTwice(h: History, date: Day)
    ensures Toggled(Toggled(h, date), date) == if Done(h, date) then h else h[date := false]
  {
  }

  class Store {
    var habits: seq<Habit>

    /** An empty store. */
    constructor ()
      ensures habits == []
    {
      habits := [];
    }

    /** `createHabit`: append the new habit at the end. */
    method CreateHabit(data: HabitFormData, id: string, nowMs: int) returns (newHabit: Habit)
      modifies this
      ensures newHabit == NewHabit(data, id, nowMs)
      ensures habits == old(habits) + [newHabit]
    {
      newHabit := NewHabit(data, id, nowMs);
      habits := habits + [newHabit];
    }

    /** `getHabit`: the first habit with the id, if any. */
    function GetHabit(id: string): (r: Option<Habit>)
      reads this
      ensures r.None? <==> forall j :: 0 <= j < |habits| ==> habits[j].id != id
      ensures r.Some? ==> r.value.id == id
      ensures r.Some? ==>
                exists j :: 0 <= j < |habits| && habits[j] == r.value && forall i :: 0 <= i < j ==> habits[i].id != id
    {
      match FindIndex(habits, id)
      case None => None
      case Some(i) => Some(habits[i])
    }

    /** `updateHabit`: replace the first habit with the id by its updated
        record; with no such habit, return None and change nothing. */
    method UpdateHabit(id: string, data: HabitFormData) returns (r: Option<Habit>)
      modifies this
      ensures FindIndex(old(habits), id).None? ==> r == None && habits == old(habits)
      ensures FindIndex(old(habits), id).Some? ==>
        var i := FindIndex(old(habits), id).value;
        r == Some(UpdatedHabit(old(habits)[i], data)) && habits == old(habits)[i := r.value]
    {
      var index := FindIndex(habits, id);
      if index == None {
        return None;
      }
      var updatedHabit := UpdatedHabit(habits[index.value], data);
      habits := habits[index.value := updatedHabit];
      r := Some(updatedHabit);
    }

    /** `deleteHabit`: drop every habit with the id; report false, and change
        nothing, when there was none. */
    method DeleteHabit(id: string) returns (deleted: bool)
      modifies this
      ensures deleted <==> exists j :: 0 <= j < |old(habits)| && old(habits)[j].id == id
      ensures deleted ==> habits == Filter(old(habits), (h: Habit) => h.id != id)
      ensures !deleted ==> habits == old(habits)
      ensures forall j :: 0 <= j < |habits| ==> habits[j].id != id
    {
      var keep := (h: Habit) => h.id != id;
      var newHabits := Filter(habits, keep);
      FilterKeepsAll(habits, keep);
      if |newHabits| == |habits| {
        return false;
      }
      habits := newHabits;
      deleted := true;
    }

    /** `toggleHabitCompletion`: flip the date's entry of the first habit with
        the id and return the new value; false, with nothing changed, for an
        unknown id. */
    method ToggleHabitCompletion(id: string, date: Day) returns (completed: bool)
      modifies this
      ensures FindIndex(old(habits), id).None? ==> !completed && habits == old(habits)
      ensures FindIndex(old(habits), id).Some? ==>
        var i := FindIndex(old(habits), id).value;
        habits == old(habits)[i := old(habits)[i].(history := Toggled(old(habits)[i].history, date))] &&
        completed == !Done(old(habits)[i].history, date)
    {
      var index := FindIndex(habits, id);
      if index == None {
        return false;
      }
      var habit := habits[index.value];
      habit := habit.(history := Toggled(habit.history, date));
      habits := habits[index.value := habit];
      completed := habit.history[date];
    }

    /** `getTodayHabits`: the daily habits, in stored order. */
    function GetTodayHabits(): (r: seq<Habit>)
      reads this
      ensures r == Filter(habits, (h: Habit) => h.frequency == Daily)
      ensures forall i :: 0 <= i < |r| ==> r[i] in habits && r[i].frequency == Daily
      ensures forall i :: 0 <= i < |habits| && habits[i].frequency == Daily ==> habits[i] in r
      ensures |r| == |habits| <==> forall i :: 0 <= i < |habits| ==> habits[i].frequency == Daily
    {
      var daily := (h: Habit) => h.frequency == Daily;
      FilterKeepsAll(habits, daily);
      FilterMembers(habits, daily);
      Filter(habits, daily)
    }

    /** `getBestStreak`: the longest run of done days over all habits, each
        habit scanned as `calculateHabitStats` scans it. */
    method GetBestStreak() returns (bestStreak: nat)
      ensures forall i, s: Day, k: nat :: 0 <= i < |habits| && Utils.IsRun(habits[i].history, s, k) ==> k <= bestStreak
      ensures bestStreak == 0 || exists i, s: Day :: 0 <= i < |habits| && Utils.IsRun(habits[i].history, s, bestStreak)
      ensures bestStreak == 0 <==> forall i :: 0 <= i < |habits| ==> Utils.TrueDays(habits[i].history) == {}
    {
      bestStreak := 0;
      for i := 0 to |habits|
        invariant forall j, s: Day, k: nat :: 0 <= j < i && Utils.IsRun(habits[j].history, s, k) ==> k <= bestStreak
        invariant bestStreak == 0 || exists j, s: Day :: 0 <= j < i && Utils.IsRun(habits[j].history, s, bestStreak)
        invariant bestStreak == 0 <==> forall j :: 0 <= j < i ==> Utils.TrueDays(habits[j].history) == {}
      {
        var habitBest := Utils.BestStreak(habits[i].history);
        if habitBest > bestStreak {
          bestStreak := habitBest;
        }
      }
    }
  }
}
