/** The cell logic of the contribution matrix
    (client/src/components/ContributionMatrix.tsx): which habits count on a
    date, the completion percentage over them, its colour level and tooltip
    label, and the Monday-start weeks covering the window from the first day
    of the month three months back to the last day of the current month. */
module ContributionMatrix {
  import opened Types
  import opened Numbers
  import opened Calendar
  import opened Seqs
  import HabitStore

  // ---- which habits count on a date ----

  /** `habits.filter(habit => habit.frequency === frequency)`. */
  function FilteredHabits(habits: seq<Habit>, frequency: Frequency): (r: seq<Habit>)
    ensures r == Filter(habits, (h: Habit) => h.frequency == frequency)
    ensures forall i :: 0 <= i < |r| ==> r[i] in habits && r[i].frequency == frequency
    ensures forall i :: 0 <= i < |habits| && habits[i].frequency == frequency ==> habits[i] in r
    ensures r == [] <==> forall i :: 0 <= i < |habits| ==> habits[i].frequency != frequency
  {
    var selected := (h: Habit) => h.frequency == frequency;
    FilterEmpty(habits, selected);
    FilterMembers(habits, selected);
    Filter(habits, selected)
  }

  /** A habit counts on date d: a daily one always, a weekly one on Mondays,
      a custom one when it has selected days and d's weekday tag is among them. */
  predicate Eligible(h: Habit, d: Day)
  {
    match h.frequency
    case Daily => true
    case Weekly => GetDay(d) == 1
    case Custom => h.selectedDays.Some? && DayTag(d) in h.selectedDays.value
  }

  /** The number of habits that count on d (`totalCount`). */
  function EligibleCount(habits: seq<Habit>, d: Day): (n: nat)
    ensures n <= |habits|
    ensures n == 0 <==> forall i :: 0 <= i < |habits| ==> !Eligible(habits[i], d)
    decreases |habits|
  {
    if habits == [] then 0
    else
      var init := habits[..|habits| - 1];
      assert forall i :: 0 <= i < |init| ==> init[i] == habits[i];
      EligibleCount(init, d) + (if Eligible(habits[|habits| - 1], d) then 1 else 0)
  }

  /** The number of habits that count on d and are marked done on d
      (`completedCount`); a false or missing entry is not done. */
  function CompletedCount(habits: seq<Habit>, d: Day): (n: nat)
    ensures n <= EligibleCount(habits, d)
    ensures n == EligibleCount(habits, d) <==>
              forall i :: 0 <= i < |habits| && Eligible(habits[i], d) ==> Done(habits[i].history, d)
    ensures n == 0 <==>
              forall i :: 0 <= i < |habits| && Eligible(habits[i], d) ==> !Done(habits[i].history, d)
    decreases |habits|
  {
    if habits == [] then 0
    else
      var init := habits[..|habits| - 1];
      assert forall i :: 0 <= i < |init| ==> init[i] == habits[i];
      var last := habits[|habits| - 1];
      CompletedCount(init, d) + (if Eligible(last, d) && Done(last.history, d) then 1 else 0)
  }

  /** The cell's status: 0 with no eligible habit, otherwise the rounded
      percentage of eligible habits done. */
  function Status(habits: seq<Habit>, d: Day): (s: nat)
    ensures s <= 100
    ensures EligibleCount(habits, d) == 0 ==> s == 0
    ensures EligibleCount(habits, d) > 0 ==>
              var c, t := CompletedCount(habits, d), EligibleCount(habits, d);
              2 * s * t <= 200 * c + t < 2 * s * t + 2 * t
  {
    var t := EligibleCount(habits, d);
    if t == 0 then 0 else Percent(CompletedCount(habits, d), t)
  }

  /** Both counts over one more habit. */
  lemma CountsStep(habits: seq<Habit>, i: nat, d: Day)
    requires i < |habits|
    ensures EligibleCount(habits[..i + 1], d) ==
              EligibleCount(habits[..i], d) + (if Eligible(habits[i], d) then 1 else 0)
    ensures CompletedCount(habits[..i + 1], d) ==
              CompletedCount(habits[..i], d) + (if Eligible(habits[i], d) && Done(habits[i].history, d) then 1 else 0)
  {
    assert habits[..i + 1][..i] == habits[..i];
  }

  /** `getCompletionStatus`: the loop over the filtered habits. */
  method GetCompletionStatus(filteredHabits: seq<Habit>, date: Day) returns (status: nat)
    ensures status == Status(filteredHabits, date)
  {
    var completedCount := 0;
    var totalCount := 0;
    for i := 0 to |filteredHabits|
      invariant totalCount == EligibleCount(filteredHabits[..i], date)
      invariant completedCount == CompletedCount(filteredHabits[..i], date)
    {
      CountsStep(filteredHabits, i, date);
      var habit := filteredHabits[i];
      if habit.frequency == Daily {
        totalCount := totalCount + 1;
        if Done(habit.history, date) {
          completedCount := completedCount + 1;
        }
      } else if habit.frequency == Weekly && GetDay(date) == 1 {
        totalCount := totalCount + 1;
        if Done(habit.history, date) {
          completedCount := completedCount + 1;
        }
      } else if habit.frequency == Custom && habit.selectedDays.Some? {
        if DayTag(date) in habit.selectedDays.value {
          totalCount := totalCount + 1;
          if Done(habit.history, date) {
            completedCount := completedCount + 1;
          }
        }
      }
    }
    assert filteredHabits[..|filteredHabits|] == filteredHabits;
    if totalCount == 0 {
      return 0;
    }
    status := Percent(completedCount, totalCount);
  }

  /** With fewer than 200 eligible habits the status is 100 exactly when every
      eligible habit is done, and 0 exactly when none is. */
  lemma StatusExtremes(habits: seq<Habit>, d: Day)
    requires 0 < EligibleCount(habits, d) < 200
    ensures Status(habits, d) == 100 <==> CompletedCount(habits, d) == EligibleCount(habits, d)
    ensures Status(habits, d) == 0 <==> CompletedCount(habits, d) == 0
  {
    PercentFullIffAll(CompletedCount(habits, d), EligibleCount(habits, d));
  }

  /** A weekly habit never counts on a day other than Monday. */
  lemma WeeklyOnlyOnMondays(habits: seq<Habit>, d: Day)
    requires forall i :: 0 <= i < |habits| ==> habits[i].frequency == Weekly
    ensures GetDay(d) != 1 ==> EligibleCount(habits, d) == 0 && Status(habits, d) == 0
    ensures GetDay(d) == 1 ==> EligibleCount(habits, d) == |habits|
    decreases |habits|
  {
    if habits != [] {
      var init := habits[..|habits| - 1];
      WeeklyOnlyOnMondays(init, d);
    }
  }

  /** A habit created through the form never has selected days, so a custom
      one created that way counts on no date. */
  lemma CreatedCustomNeverEligible(data: HabitFormData, id: string, nowMs: int, d: Day)
    requires data.frequency == Custom
    ensures !Eligible(HabitStore.NewHabit(data, id, nowMs), d)
  {
  }

  // ---- colour and tooltip ----

  /** The colour bucket: 0 gray, 1..4 emerald 100..400, 5 emerald 500. */
  function ColorLevel(status: int): (level: nat)
    ensures level <= 5
    ensures level == 0 <==> status <= 0
    ensures level == 5 <==> status >= 100
    ensures 0 < status < 100 ==> level == status / 25 + 1
  {
    if status > 0 then
      if status < 25 then 1
      else if status < 50 then 2
      else if status < 75 then 3
      else if status < 100 then 4
      else 5
    else 0
  }

  const ColorClasses: seq<string> :=
    ["bg-gray-100", "bg-emerald-100", "bg-emerald-200", "bg-emerald-300", "bg-emerald-400", "bg-emerald-500"]

  /** The cell's background class: gray for no completion, the darkest
      emerald for full completion, one of the four lighter shades otherwise. */
  function BackgroundClass(status: int): (c: string)
    ensures c in ColorClasses
    ensures c == "bg-gray-100" <==> status <= 0
    ensures c == "bg-emerald-500" <==> status >= 100
    ensures 0 < status < 100 ==> c == ColorClasses[status / 25 + 1]
  {
    ColorClasses[ColorLevel(status)]
  }

  /** A higher status never gets a lighter colour. */
  lemma ColorLevelMonotone(a: int, b: int)
    requires a <= b
    ensures ColorLevel(a) <= ColorLevel(b)
  {
    if 0 < a && b < 100 {
      assert a / 25 <= b / 25;
    }
  }

  /** `formatDateForTooltip`, given the formatted date. */
  function TooltipLabel(dateText: string, status: nat): (s: string)
    ensures status == 0 <==> s == dateText + ": No habits completed"
    ensures status == 100 <==> s == dateText + ": All habits completed"
    ensures status != 0 && status != 100 ==> s == dateText + ": " + NatToString(status) + "% completed"
  {
    LabelsDistinct(dateText, status);
    if status == 0 then dateText + ": No habits completed"
    else if status == 100 then dateText + ": All habits completed"
    else dateText + ": " + NatToString(status) + "% completed"
  }

  /** The three label forms differ right after the date: 'N', 'A' or a digit. */
  lemma LabelsDistinct(dateText: string, status: nat)
    ensures dateText + ": No habits completed" != dateText + ": All habits completed"
    ensures dateText + ": " + NatToString(status) + "% completed" != dateText + ": No habits completed"
    ensures dateText + ": " + NatToString(status) + "% completed" != dateText + ": All habits completed"
  {
    var k := |dateText| + 2;
    var digits := NatToString(status);
    var numbered := dateText + ": " + digits + "% completed";
    assert numbered[k] == digits[0];
    assert IsDigit(numbered[k]);
    assert (dateText + ": No habits completed")[k] == 'N';
    assert (dateText + ": All habits completed")[k] == 'A';
  }

  // ---- the window and its weeks ----

  /** `startOfMonth(subMonths(today, 3))` for today in month m of year y. */
  function WindowStart(y: int, m: int): Day
    requires 1 <= m <= 12
  {
    StartOfMonth(MonthIndex(y, m) - 3)
  }

  /** `endOfMonth(today)`. */
  function WindowEnd(y: int, m: int): (e: Day)
    requires 1 <= m <= 12
    ensures WindowStart(y, m) <= e
  {
    FourMonths(MonthIndex(y, m));
    EndOfMonth(MonthIndex(y, m))
  }

  /** Four months back to back: the window is exactly their days. */
  lemma FourMonths(mi: int)
    ensures StartOfMonth(mi - 3) <= StartOfMonth(mi)
    ensures EndOfMonth(mi) - StartOfMonth(mi - 3) + 1 ==
              MonthLength(mi - 3) + MonthLength(mi - 2) + MonthLength(mi - 1) + MonthLength(mi)
  {
    NextMonthStart(mi - 3);
    NextMonthStart(mi - 2);
    NextMonthStart(mi - 1);
    assert StartOfMonth(mi - 2) == StartOfMonth(mi - 3) + MonthLength(mi - 3);
    assert StartOfMonth(mi - 1) == StartOfMonth(mi - 2) + MonthLength(mi - 2);
    assert StartOfMonth(mi) == StartOfMonth(mi - 1) + MonthLength(mi - 1);
  }

  /** A day of month mi lies between the start of month mi - 3 and the end
      of month mi. */
  lemma MonthInWindow(mi: int, x: int)
    requires StartOfMonth(mi) <= x <= EndOfMonth(mi)
    ensures StartOfMonth(mi - 3) <= x <= EndOfMonth(mi)
  {
    FourMonths(mi);
  }

  // The window's two ends, unfolded for month m of year y.
  lemma WindowBounds(y: int, m: int, x: int)
    requires 1 <= m <= 12
    requires StartOfMonth(MonthIndex(y, m) - 3) <= x <= EndOfMonth(MonthIndex(y, m))
    ensures WindowStart(y, m) <= x <= WindowEnd(y, m)
  {
  }

  /** The window is as long as the four months ending with month m of year y. */
  lemma WindowLength(y: int, m: int)
    requires 1 <= m <= 12
    ensures var mi := MonthIndex(y, m);
            WindowEnd(y, m) - WindowStart(y, m) + 1 ==
              MonthLength(mi - 3) + MonthLength(mi - 2) + MonthLength(mi - 1) + MonthLength(mi)
  {
    FourMonths(MonthIndex(y, m));
  }

  /** The window holds today and is exactly the four months ending with the
      current one. */
  lemma WindowIsFourMonths(y: int, m: int, d: int)
    requires ValidDate(y, m, d)
    ensures WindowStart(y, m) <= DayNumber(y, m, d) <= WindowEnd(y, m)
    ensures var mi := MonthIndex(y, m);
            WindowEnd(y, m) - WindowStart(y, m) + 1 ==
              MonthLength(mi - 3) + MonthLength(mi - 2) + MonthLength(mi - 1) + MonthLength(mi)
  {
    DateInMonth(y, m, d);
    MonthInWindow(MonthIndex(y, m), DayNumber(y, m, d));
    WindowBounds(y, m, DayNumber(y, m, d));
    WindowLength(y, m);
  }

  /** Two days with the same weekday are a whole number of weeks apart. */
  lemma SameWeekday(a: Day, b: Day)
    requires GetDay(a) == GetDay(b)
    ensures (b - a) % 7 == 0
  {
    var qa, qb := (a + 4) / 7, (b + 4) / 7;
    assert a + 4 == 7 * qa + GetDay(a);
    assert b + 4 == 7 * qb + GetDay(b);
    assert b - a == 7 * (qb - qa);
  }

  /** `eachWeekOfInterval({ start, end }, { weekStartsOn: 1 })`: the Mondays
      from the week holding start to the week holding end. */
  function WeekStarts(start: Day, end: Day): (ws: seq<Day>)
    requires start <= end
    ensures |ws| >= 1
    ensures ws[0] == StartOfWeek(start) && ws[|ws| - 1] == StartOfWeek(end)
    ensures forall i :: 0 <= i < |ws| ==> GetDay(ws[i]) == 1
    ensures forall i :: 0 <= i < |ws| ==> ws[i] == ws[0] + 7 * i
  {
    var first, last := StartOfWeek(start), StartOfWeek(end);
    SameWeekday(first, last);
    var count := (last - first) / 7 + 1;
    var ws := seq(count, i => first + 7 * i);
    assert forall i :: 0 <= i < count ==> GetDay(ws[i]) == 1 by {
      forall i | 0 <= i < count
        ensures GetDay(ws[i]) == 1
      {
        GetDayStep(first, i);
      }
    }
    ws
  }

  /** Every day of [start, end] falls in exactly one of the weeks. */
  lemma WeeksCoverInterval(start: Day, end: Day, d: Day)
    requires start <= d <= end
    ensures var ws := WeekStarts(start, end);
            exists i :: 0 <= i < |ws| && ws[i] <= d < ws[i] + 7
    ensures var ws := WeekStarts(start, end);
            forall i, j :: 0 <= i < |ws| && 0 <= j < |ws| && ws[i] <= d < ws[i] + 7 && ws[j] <= d < ws[j] + 7 ==> i == j
  {
    var ws := WeekStarts(start, end);
    var first := ws[0];
    var i := (d - first) / 7;
    assert first + 7 * i <= d < first + 7 * i + 7;
    assert ws[|ws| - 1] == first + 7 * (|ws| - 1);
    assert i < |ws|;
    assert ws[i] <= d < ws[i] + 7;
    forall i, j | 0 <= i < |ws| && 0 <= j < |ws| && ws[i] <= d < ws[i] + 7 && ws[j] <= d < ws[j] + 7
      ensures i == j
    {
      assert ws[i] == first + 7 * i && ws[j] == first + 7 * j;
    }
  }

  /** `eachDayOfInterval({ start: week, end: addDays(week, 6) })`. */
  function WeekDays(week: Day): (days: seq<Day>)
    ensures |days| == 7
    ensures forall k :: 0 <= k < 7 ==> days[k] == week + k
  {
    seq(7, k => week + k)
  }

  /** The row labels `Mon` ... `Sun`. */
  const RowLabels: seq<string> := ["Mon", "Tue", "Wed", "Thu", "Fri", "Sat", "Sun"]

  /** In a week that starts on Monday, row k holds a day named by row label k. */
  lemma RowLabelsMatch(week: Day, k: nat)
    requires GetDay(week) == 1 && k < 7
    ensures ShortName(WeekDays(week)[k]) == RowLabels[k]
  {
    assert GetDay(week + k) == (k + 1) % 7;
  }

  // ---- the matrix ----

  /** One rendered cell: its date, status, colour level and today ring. */
  datatype Cell = Cell(date: Day, status: nat, level: nat, isToday: bool)

  /** The cell for one date: the status over the filtered habits, its colour
      level, and the ring exactly on today. */
  function CellAt(filtered: seq<Habit>, date: Day, today: Day): (c: Cell)
    ensures c.date == date && c.status <= 100 && c.level <= 5
    ensures c.status == Status(filtered, date) && c.level == ColorLevel(c.status)
    ensures c.isToday <==> date == today
  {
    var status := Status(filtered, date);
    Cell(date, status, ColorLevel(status), date == today)
  }

  /** One column of seven cells per week start. */
  function Columns(filtered: seq<Habit>, ws: seq<Day>, today: Day): (cols: seq<seq<Cell>>)
    ensures |cols| == |ws|
    ensures forall i :: 0 <= i < |ws| ==> |cols[i]| == 7
    ensures forall i, k :: 0 <= i < |ws| && 0 <= k < 7 ==> cols[i][k] == CellAt(filtered, ws[i] + k, today)
  {
    seq(|ws|, i requires 0 <= i < |ws| =>
      seq(7, k requires 0 <= k < 7 => CellAt(filtered, WeekDays(ws[i])[k], today)))
  }

  /** The whole matrix for today = y-m-d: None (the "No habits" panel) when
      no habit has the selected frequency, otherwise one column of seven
      cells per week of the window. */
  function Matrix(habits: seq<Habit>, frequency: Frequency, y: int, m: int, d: int): (r: Option<seq<seq<Cell>>>)
    requires ValidDate(y, m, d)
    ensures r.None? <==> forall i :: 0 <= i < |habits| ==> habits[i].frequency != frequency
    ensures r.Some? ==>
              var ws := WeekStarts(WindowStart(y, m), WindowEnd(y, m));
              |r.value| == |ws| &&
              forall i :: 0 <= i < |ws| ==> |r.value[i]| == 7
    ensures r.Some? ==>
              r.value == Columns(FilteredHabits(habits, frequency), WeekStarts(WindowStart(y, m), WindowEnd(y, m)), DayNumber(y, m, d))
    ensures r.Some? ==>
              var ws := WeekStarts(WindowStart(y, m), WindowEnd(y, m));
              forall i, k :: 0 <= i < |ws| && 0 <= k < 7 ==>
                r.value[i][k] == CellAt(FilteredHabits(habits, frequency), ws[i] + k, DayNumber(y, m, d))
  {
    var filtered := FilteredHabits(habits, frequency);
    if filtered == [] then None
    else
      Some(Columns(filtered, WeekStarts(WindowStart(y, m), WindowEnd(y, m)), DayNumber(y, m, d)))
  }

  /** Over week starts seven days apart, one of which holds today, exactly
      one cell is today's. */
  lemma RingedOnce(filtered: seq<Habit>, ws: seq<Day>, today: Day)
    requires forall i :: 0 <= i < |ws| ==> ws[i] == ws[0] + 7 * i
    requires exists i :: 0 <= i < |ws| && ws[i] <= today < ws[i] + 7
    ensures var cols := Columns(filtered, ws, today);
            exists i, k :: 0 <= i < |cols| && 0 <= k < 7 && cols[i][k].isToday
    ensures var cols := Columns(filtered, ws, today);
            forall i, k, j, l ::
              (0 <= i < |cols| && 0 <= k < 7 && 0 <= j < |cols| && 0 <= l < 7 &&
               cols[i][k].isToday && cols[j][l].isToday) ==> i == j && k == l
  {
    var cols: seq<seq<Cell>> := Columns(filtered, ws, today);
    var i :| 0 <= i < |ws| && ws[i] <= today < ws[i] + 7;
    var k := today - ws[i];
    assert cols[i][k].isToday;
    forall i, k, j, l | 0 <= i < |cols| && 0 <= k < 7 && 0 <= j < |cols| && 0 <= l < 7 &&
      cols[i][k].isToday && cols[j][l].isToday
      ensures i == j && k == l
    {
      assert ws[i] + k == today && ws[j] + l == today;
    }
  }

  /** Exactly one cell of the window's columns carries the today ring. */
  lemma TodayRingedOnce(filtered: seq<Habit>, y: int, m: int, d: int)
    requires ValidDate(y, m, d)
    ensures var cols := Columns(filtered, WeekStarts(WindowStart(y, m), WindowEnd(y, m)), DayNumber(y, m, d));
            exists i, k :: 0 <= i < |cols| && 0 <= k < 7 && cols[i][k].isToday
    ensures var cols := Columns(filtered, WeekStarts(WindowStart(y, m), WindowEnd(y, m)), DayNumber(y, m, d));
            forall i, k, j, l ::
              (0 <= i < |cols| && 0 <= k < 7 && 0 <= j < |cols| && 0 <= l < 7 &&
               cols[i][k].isToday && cols[j][l].isToday) ==> i == j && k == l
  {
    WindowIsFourMonths(y, m, d);
    WeeksCoverInterval(WindowStart(y, m), WindowEnd(y, m), DayNumber(y, m, d));
    RingedOnce(filtered, WeekStarts(WindowStart(y, m), WindowEnd(y, m)), DayNumber(y, m, d));
  }
}
