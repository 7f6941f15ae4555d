/** The statistics engine (client/src/lib/utils.ts): today's and this
    week's progress across all habits, and for one habit its current streak,
    best streak and completion rate; the streak label and a month of
    calendar cells. The clock is a parameter: `today` is a day number and
    `nowMs` an instant in milliseconds. */
module Utils {
  import opened Types
  import opened Numbers
  import opened Calendar
  import opened Seqs

  // ---- which habits are due ----

  /** `shouldCompleteToday`: each of the three frequencies is due today. */
  function ShouldCompleteToday(habit: Habit): (due: bool)
    ensures due
  {
    match habit.frequency
    case Daily => true
    case Weekly => true
    case Custom => true
  }

  /** `shouldCompleteThatDay`: every habit is due on every day. */
  function ShouldCompleteThatDay(habit: Habit, d: Day): (due: bool)
    ensures due
  {
    true
  }

  /** How many of the habits have day d marked as done. */
  function CountDoneOn(habits: seq<Habit>, d: Day): (n: nat)
    ensures n <= |habits|
    ensures n == 0 <==> forall i :: 0 <= i < |habits| ==> !Done(habits[i].history, d)
    ensures n == |habits| <==> forall i :: 0 <= i < |habits| ==> Done(habits[i].history, d)
  {
    if habits == [] then 0
    else (if Done(habits[0].history, d) then 1 else 0) + CountDoneOn(habits[1..], d)
  }

  /** Flipping one habit's entry for day d moves the count for d by exactly one. */
  lemma {:induction false} CountDoneOnToggle(habits: seq<Habit>, i: nat, d: Day, e: Day)
    requires i < |habits|
    ensures var flipped := habits[i].(history := habits[i].history[e := !Done(habits[i].history, e)]);
      CountDoneOn(habits[i := flipped], d) ==
        if d != e then CountDoneOn(habits, d)
        else if Done(habits[i].history, d) then CountDoneOn(habits, d) - 1
        else CountDoneOn(habits, d) + 1
  {
    var flipped := habits[i].(history := habits[i].history[e := !Done(habits[i].history, e)]);
    if i == 0 {
      assert habits[i := flipped][1..] == habits[1..];
    } else {
      assert habits[i := flipped][1..] == habits[1..][i - 1 := flipped];
      CountDoneOnToggle(habits[1..], i - 1, d, e);
    }
  }

  // ---- calculateDailyProgress ----

  /** Today's progress: every habit counts, `completed` of them are done today. */
  function CalculateDailyProgress(habits: seq<Habit>, today: Day): (p: DailyProgress)
    ensures p.total == |habits|
    ensures p.completed == CountDoneOn(habits, today) <= p.total
    ensures p.total == 0 ==> p.percentage == 0
    ensures p.total > 0 ==>
      2 * p.percentage * p.total <= 200 * p.completed + p.total < 2 * p.percentage * p.total + 2 * p.total
    ensures p.percentage <= 100
  {
    var dueToday := (h: Habit) => h.frequency == Daily || ShouldCompleteToday(h);
    var todayHabits := Filter(habits, dueToday);
    FilterKeepsAll(habits, dueToday);
    assert todayHabits == habits;
    var completed := CountDoneOn(todayHabits, today);
    var total := |todayHabits|;
    DailyProgress(total, completed, if total > 0 then Percent(completed, total) else 0)
  }

  // ---- calculateWeeklyProgress ----

  /** The habits due on day d: the daily ones and those `shouldCompleteThatDay`
      accepts, which is all of them. */
  function DueThatDay(habits: seq<Habit>, d: Day): (r: seq<Habit>)
    ensures r == habits
  {
    var dueThatDay := (h: Habit) => h.frequency == Daily || ShouldCompleteThatDay(h, d);
    FilterKeepsAll(habits, dueThatDay);
    Filter(habits, dueThatDay)
  }

  /** The percentage of habits done on day d (0 when there are none). */
  function DayCompletion(habits: seq<Habit>, d: Day): (c: nat)
    ensures c <= 100
    ensures habits == [] ==> c == 0
    ensures habits != [] ==> c == Percent(CountDoneOn(habits, d), |habits|)
    ensures c == 100 <== habits != [] && CountDoneOn(habits, d) == |habits|
  {
    var dayHabits := DueThatDay(habits, d);
    var totalForDay := |dayHabits|;
    var completedForDay := CountDoneOn(dayHabits, d);
    if totalForDay > 0 then PercentOfAll(totalForDay); Percent(completedForDay, totalForDay) else 0
  }

  /** One day of the week strip; a day after today is marked future with completion -1. */
  function WeekDayEntry(habits: seq<Habit>, d: Day, today: Day): (e: WeekDayProgress)
    ensures e.date == d && e.shortName == ShortName(d)
    ensures e.isFuture <==> d > today
    ensures e.isFuture ==> e.completion == -1
    ensures !e.isFuture ==> e.completion == DayCompletion(habits, d)
    ensures !e.isFuture ==> 0 <= e.completion <= 100
  {
    if d > today then WeekDayProgress(d, ShortName(d), -1, true)
    else WeekDayProgress(d, ShortName(d), DayCompletion(habits, d), false)
  }

  /** The sum of the non-future completions, negative ones read as 0. */
  function PastSum(days: seq<WeekDayProgress>): nat
  {
    if days == [] then 0
    else
      var e := days[|days| - 1];
      PastSum(days[..|days| - 1]) + (if !e.isFuture && e.completion >= 0 then e.completion else 0)
  }

  /** The number of non-future entries. */
  function PastCount(days: seq<WeekDayProgress>): (n: nat)
    ensures n <= |days|
  {
    if days == [] then 0 else PastCount(days[..|days| - 1]) + (if days[|days| - 1].isFuture then 0 else 1)
  }

  /** The week's overall percentage: the rounded mean over non-future days. */
  function WeekPercentage(days: seq<WeekDayProgress>): (p: nat)
    ensures PastCount(days) == 0 ==> p == 0
    ensures PastCount(days) > 0 ==>
      2 * p * PastCount(days) <= 2 * PastSum(days) + PastCount(days) < 2 * p * PastCount(days) + 2 * PastCount(days)
  {
    var n := PastCount(days);
    if n > 0 then Round(PastSum(days), n) else 0
  }

  /** Future entries never contribute: two strips that agree on which days
      are future and on the completion of every other day have the same
      overall percentage. */
  lemma {:induction false} FutureEntriesIgnored(a: seq<WeekDayProgress>, b: seq<WeekDayProgress>)
    requires |a| == |b|
    requires forall i :: 0 <= i < |a| ==> a[i].isFuture == b[i].isFuture
    requires forall i :: 0 <= i < |a| && !a[i].isFuture ==> a[i].completion == b[i].completion
    ensures PastSum(a) == PastSum(b) && PastCount(a) == PastCount(b)
    ensures WeekPercentage(a) == WeekPercentage(b)
  {
    if a != [] {
      FutureEntriesIgnored(a[..|a| - 1], b[..|b| - 1]);
    }
  }

  /** The sum of n non-future percentages is at most 100 n. */
  lemma {:induction false} PastSumBound(days: seq<WeekDayProgress>)
    requires forall i :: 0 <= i < |days| ==> days[i].completion <= 100
    ensures PastSum(days) <= 100 * PastCount(days)
  {
    if days != [] {
      PastSumBound(days[..|days| - 1]);
    }
  }

  /** In a strip of consecutive days from `start` whose future flags are
      "after today", the non-future days are start .. today. */
  lemma {:induction false} PastCountOfStrip(days: seq<WeekDayProgress>, start: Day, today: Day)
    requires start <= today
    requires forall i :: 0 <= i < |days| ==> days[i].date == start + i
    requires forall i :: 0 <= i < |days| ==> (days[i].isFuture <==> days[i].date > today)
    ensures PastCount(days) == if |days| <= today - start + 1 then |days| else today - start + 1
  {
    if days != [] {
      PastCountOfStrip(days[..|days| - 1], start, today);
    }
  }

  /** `calculateWeeklyProgress`: seven consecutive days from this week's
      Monday; the overall percentage is the rounded mean of the days up to
      today, of which there is always at least one. */
  function CalculateWeeklyProgress(habits: seq<Habit>, today: Day): (w: WeeklyProgress)
    ensures |w.days| == 7
    ensures GetDay(w.days[0].date) == 1 && w.days[0].date <= today < w.days[0].date + 7
    ensures forall i :: 0 <= i < 7 ==> w.days[i].date == w.days[0].date + i
    ensures forall i :: 0 <= i < 7 ==> (w.days[i].isFuture <==> w.days[i].date > today)
    ensures forall i :: 0 <= i < 7 && w.days[i].isFuture ==> w.days[i].completion == -1
    ensures forall i :: 0 <= i < 7 && !w.days[i].isFuture ==>
      0 <= w.days[i].completion <= 100 && (habits == [] ==> w.days[i].completion == 0)
    ensures forall i :: 0 <= i < 7 && !w.days[i].isFuture ==>
      w.days[i].completion == DayCompletion(habits, w.days[i].date)
    ensures PastCount(w.days) == today - w.days[0].date + 1
    ensures 2 * w.percentage * PastCount(w.days) <= 2 * PastSum(w.days) + PastCount(w.days)
                                                  < 2 * w.percentage * PastCount(w.days) + 2 * PastCount(w.days)
    ensures w.percentage <= 100
  {
    var monday := StartOfWeek(today);
    var days := WeekStrip(habits, monday, today);
    PastCountOfStrip(days, monday, today);
    PastSumBound(days);
    var n := PastCount(days);
    RoundAtMost(PastSum(days), n, 100);
    WeeklyProgress(days, WeekPercentage(days))
  }

  /** The seven entries from `monday` on. */
  function WeekStrip(habits: seq<Habit>, monday: Day, today: Day): (days: seq<WeekDayProgress>)
    ensures |days| == 7
    ensures forall i :: 0 <= i < 7 ==> days[i] == WeekDayEntry(habits, monday + i, today)
    ensures forall i :: 0 <= i < 7 ==> days[i].date == monday + i
    ensures forall i :: 0 <= i < 7 && !days[i].isFuture ==> days[i].completion == DayCompletion(habits, days[i].date)
  {
    seq(7, i requires 0 <= i < 7 => WeekDayEntry(habits, monday + i, today))
  }

  // ---- calculateHabitStats: streaks ----

  /** Every day s, s+1, ..., s+k-1 is marked done. */
  ghost predicate IsRun(h: History, s: Day, k: nat)
  {
    forall d :: s <= d < s + k ==> Done(h, d)
  }

  /** n consecutive done days end at `end`, and the day before them is not done. */
  ghost predicate MaximalRunEndingAt(h: History, end: Day, n: nat)
  {
    IsRun(h, end - n + 1, n) && !Done(h, end - n)
  }

  /** The current streak: the run ending today if today is done, else the run
      ending yesterday if yesterday is done, else 0. */
  ghost predicate IsCurrentStreak(h: History, today: Day, c: nat)
  {
    if Done(h, today) then MaximalRunEndingAt(h, today, c)
    else if Done(h, today - 1) then MaximalRunEndingAt(h, today - 1, c)
    else c == 0
  }

  /** b is the length of the longest run of done days. */
  ghost predicate IsLongestRun(h: History, b: nat)
  {
    (exists s :: IsRun(h, s, b)) && forall s: Day, k: nat :: IsRun(h, s, k) ==> k <= b
  }

  /** The days marked done. */
  function TrueDays(h: History): (r: set<Day>)
    ensures forall d :: d in r <==> Done(h, d)
    ensures r <= h.Keys
  {
    set d | d in h && h[d]
  }

  /** The done days up to and including d; it shrinks as the walk moves back. */
  function DoneThrough(h: History, d: Day): set<Day>
  {
    set k | k in h && h[k] && k <= d
  }

  /** There is only one maximal run ending at a given day. */
  lemma MaximalRunUnique(h: History, end: Day, a: nat, b: nat)
    requires MaximalRunEndingAt(h, end, a) && MaximalRunEndingAt(h, end, b)
    ensures a == b
  {
    assert a < b ==> Done(h, end - a);
    assert b < a ==> Done(h, end - b);
  }

  /** The backward walk of `calculateHabitStats`, started at a done day:
      count it, then each earlier day while it is done. */
  method CountBack(h: History, end: Day) returns (streak: nat)
    requires Done(h, end)
    ensures streak >= 1 && MaximalRunEndingAt(h, end, streak)
  {
    streak := 1;
    var prevDate := end - 1;
    while Done(h, prevDate)
      invariant prevDate == end - streak
      invariant streak >= 1 && IsRun(h, prevDate + 1, streak)
      decreases |DoneThrough(h, prevDate)|
    {
      assert DoneThrough(h, prevDate - 1) == DoneThrough(h, prevDate) - {prevDate};
      streak := streak + 1;
      prevDate := prevDate - 1;
    }
  }

  /** The current streak, with one day of grace for today. */
  method CurrentStreak(h: History, today: Day) returns (currentStreak: nat)
    ensures IsCurrentStreak(h, today, currentStreak)
    ensures Done(h, today) || Done(h, today - 1) <==> currentStreak >= 1
  {
    if Done(h, today) {
      currentStreak := CountBack(h, today);
    } else if Done(h, today - 1) {
      currentStreak := CountBack(h, today - 1);
    } else {
      currentStreak := 0;
    }
  }

  predicate StrictlyIncreasing(s: seq<Day>)
  {
    forall i, j :: 0 <= i < j < |s| ==> s[i] < s[j]
  }

  lemma EmptyOrMember(s: set<Day>)
    ensures s == {} || exists y :: y in s
  {
    if forall y :: y !in s {
      assert s == {};
    }
  }

  lemma {:induction false} HasMinimum(s: set<Day>)
    requires s != {}
    ensures exists m :: m in s && forall x :: x in s ==> m <= x
    decreases |s|
  {
    EmptyOrMember(s);
    var y :| y in s;
    var rest := s - {y};
    if rest == {} {
      OnlyMember(s, y);
    } else {
      HasMinimum(rest);
      var m :| m in rest && forall x :: x in rest ==> m <= x;
      LeastOfSplit(s, y, m);
    }
  }

  /** The one element of a singleton is its least. */
  lemma OnlyMember(s: set<Day>, y: Day)
    requires y in s && s - {y} == {}
    ensures forall x :: x in s ==> y <= x
  {
    forall x | x in s
      ensures y <= x
    {
      assert x !in s - {y};
    }
  }

  /** The smaller of y and the least element of s without y is least in s. */
  lemma LeastOfSplit(s: set<Day>, y: Day, m: Day)
    requires y in s && m in s
    requires forall x :: x in s - {y} ==> m <= x
    ensures var least := if y < m then y else m;
            least in s && forall x :: x in s ==> least <= x
  {
    forall x | x in s
      ensures (if y < m then y else m) <= x
    {
      if x != y {
        assert x in s - {y};
      }
    }
  }

  /** The done dates in ascending order (the sorted `Object.entries` of the
      history, filtered to true values). */
  method SortedCompletedDays(h: History) returns (ds: seq<Day>)
    ensures StrictlyIncreasing(ds)
    ensures forall d :: d in ds <==> Done(h, d)
    ensures |ds| == |TrueDays(h)|
  {
    var rest := TrueDays(h);
    ds := [];
    while rest != {}
      invariant StrictlyIncreasing(ds)
      invariant forall d :: d in rest ==> Done(h, d)
      invariant forall d :: Done(h, d) ==> d in ds || d in rest
      invariant forall i :: 0 <= i < |ds| ==> Done(h, ds[i])
      invariant forall i, d :: 0 <= i < |ds| && d in rest ==> ds[i] < d
      invariant |ds| + |rest| == |TrueDays(h)|
      decreases |rest|
    {
      HasMinimum(rest);
      var m :| m in rest && forall x :: x in rest ==> m <= x;
      ds := ds + [m];
      rest := rest - {m};
    }
  }

  /** The number of consecutive days in ds that end at index p. */
  function RunEndingAt(ds: seq<Day>, p: nat): (n: nat)
    requires p < |ds|
    ensures 1 <= n <= p + 1
  {
    if p == 0 || ds[p - 1] != ds[p] - 1 then 1 else RunEndingAt(ds, p - 1) + 1
  }

  /** The best-streak scan over sorted dates: `tempStreak` grows while the gap
      to the previous date is one day, restarts at 1 otherwise, and
      `bestStreak` keeps the maximum. */
  method LongestRun(ds: seq<Day>) returns (bestStreak: nat)
    ensures ds == [] ==> bestStreak == 0
    ensures forall p :: 0 <= p < |ds| ==> RunEndingAt(ds, p) <= bestStreak
    ensures ds != [] ==> exists p :: 0 <= p < |ds| && RunEndingAt(ds, p) == bestStreak
  {
    bestStreak := 0;
    var tempStreak := 0;
    var prevDate: Option<Day> := None;
    for i := 0 to |ds|
      invariant prevDate == if i == 0 then None else Some(ds[i - 1])
      invariant i > 0 ==> tempStreak == RunEndingAt(ds, i - 1)
      invariant i == 0 ==> bestStreak == 0
      invariant forall p :: 0 <= p < i ==> RunEndingAt(ds, p) <= bestStreak
      invariant i > 0 ==> exists p :: 0 <= p < i && RunEndingAt(ds, p) == bestStreak
    {
      var currentDate := ds[i];
      if prevDate == None {
        tempStreak := 1;
      } else {
        var dayDiff := currentDate - prevDate.value;
        if dayDiff == 1 {
          tempStreak := tempStreak + 1;
        } else {
          tempStreak := 1;
        }
      }
      bestStreak := if bestStreak >= tempStreak then bestStreak else tempStreak;
      prevDate := Some(currentDate);
    }
  }

  /** The days counted by RunEndingAt form a run in the history. */
  lemma {:induction false} ScanRunIsRun(h: History, ds: seq<Day>, p: nat)
    requires StrictlyIncreasing(ds) && forall d :: d in ds <==> Done(h, d)
    requires p < |ds|
    ensures IsRun(h, ds[p] - RunEndingAt(ds, p) + 1, RunEndingAt(ds, p))
  {
    assert Done(h, ds[p]);
    if p > 0 && ds[p - 1] == ds[p] - 1 {
      ScanRunIsRun(h, ds, p - 1);
    }
  }

  /** Every run of k >= 1 done days ends at an index where the scan has
      counted at least k. */
  lemma {:induction false} RunIsSeenByScan(h: History, ds: seq<Day>, s: Day, k: nat)
    requires StrictlyIncreasing(ds) && forall d :: d in ds <==> Done(h, d)
    requires k >= 1 && IsRun(h, s, k)
    ensures exists p :: 0 <= p < |ds| && ds[p] == s + k - 1 && RunEndingAt(ds, p) >= k
  {
    assert Done(h, s + k - 1);
    var p :| 0 <= p < |ds| && ds[p] == s + k - 1;
    if k > 1 {
      RunIsSeenByScan(h, ds, s, k - 1);
      var q :| 0 <= q < |ds| && ds[q] == s + k - 2 && RunEndingAt(ds, q) >= k - 1;
      assert q < p;
      assert ds[q] <= ds[p - 1];
      assert ds[p - 1] == ds[p] - 1;
      assert q == p - 1;
    }
  }

  /** The best streak of one history: sort the done dates, then scan them. */
  method BestStreak(h: History) returns (bestStreak: nat)
    ensures IsLongestRun(h, bestStreak)
    ensures bestStreak <= |TrueDays(h)|
    ensures bestStreak == 0 <==> TrueDays(h) == {}
  {
    var sortedDates := SortedCompletedDays(h);
    bestStreak := LongestRun(sortedDates);
    if sortedDates != [] {
      var p :| 0 <= p < |sortedDates| && RunEndingAt(sortedDates, p) == bestStreak;
      ScanRunIsRun(h, sortedDates, p);
      assert RunEndingAt(sortedDates, 0) <= bestStreak;
      assert sortedDates[0] in TrueDays(h);
    } else {
      assert IsRun(h, 0, 0);
      assert |TrueDays(h)| == 0;
    }
    forall s: Day, k: nat | IsRun(h, s, k) ensures k <= bestStreak {
      if k >= 1 {
        RunIsSeenByScan(h, sortedDates, s, k);
      }
    }
  }

  // ---- calculateHabitStats: completion rate ----

  /** `Math.max(1, Math.ceil((now - createdAt) / one day))`: whole days since
      creation, counting a started day, and never less than 1. */
  function DaysSinceCreation(nowMs: int, createdAtMs: int): (n: nat)
    ensures n >= 1
    ensures nowMs - createdAtMs <= n * MillisPerDay
    ensures n == 1 || (n - 1) * MillisPerDay < nowMs - createdAtMs
  {
    var days := CeilDiv(nowMs - createdAtMs, MillisPerDay);
    if days > 1 then days else 1
  }

  /** `calculateHabitStats`. The completion rate is the number of done
      entries over the days since creation, rounded, and is not capped at 100. */
  method CalculateHabitStats(habit: Habit, today: Day, nowMs: int) returns (stats: HabitStats)
    ensures IsCurrentStreak(habit.history, today, stats.currentStreak)
    ensures IsLongestRun(habit.history, stats.bestStreak)
    ensures stats.currentStreak <= stats.bestStreak <= |TrueDays(habit.history)|
    ensures stats.bestStreak == 0 <==> TrueDays(habit.history) == {}
    ensures stats.completionRate == Percent(|TrueDays(habit.history)|, DaysSinceCreation(nowMs, habit.createdAt))
    ensures TrueDays(habit.history) == {} ==> stats == HabitStats(0, 0, 0)
  {
    var currentStreak := CurrentStreak(habit.history, today);
    var bestStreak := BestStreak(habit.history);
    if Done(habit.history, today) {
      assert IsRun(habit.history, today - currentStreak + 1, currentStreak);
    } else if Done(habit.history, today - 1) {
      assert IsRun(habit.history, today - 1 - currentStreak + 1, currentStreak);
    }
    var daysSinceCreation := DaysSinceCreation(nowMs, habit.createdAt);
    var totalCompletedDays := |TrueDays(habit.history)|;
    var completionRate := Percent(totalCompletedDays, daysSinceCreation);
    stats := HabitStats(currentStreak, bestStreak, completionRate);
  }

  // ---- getStreakText ----

  /** `getStreakText`. */
  function GetStreakText(streak: nat): (text: string)
    ensures text == "No streak" <==> streak == 0
    ensures streak >= 1 ==> text == NatToString(streak) + " day streak"
  {
    if streak == 0 then "No streak"
    else if streak == 1 then "1 day streak"
    else NatToString(streak) + " day streak"
  }

  /** Different streaks get different labels. */
  lemma StreakTextInjective(a: nat, b: nat)
    requires GetStreakText(a) == GetStreakText(b)
    ensures a == b
  {
    if a != 0 && b != 0 {
      var sa, sb := NatToString(a), NatToString(b);
      assert |sa| == |sb|;
      assert sa == GetStreakText(a)[..|sa|];
      NatToStringInjective(a, b);
    }
  }

  // ---- generateCalendarDays ----

  datatype CalendarDay = CalendarDay(date: Day, day: nat, isCurrentMonth: bool, isCompleted: Option<bool>, isToday: bool)

  /** `generateCalendarDays` for the month `month` (1..12) of `year`: one
      cell per day, with the stored flag or None when the date has no entry. */
  method GenerateCalendarDays(year: int, month: int, history: History, today: Day) returns (days: seq<CalendarDay>)
    requires 1 <= month <= 12
    ensures |days| == DaysInMonth(year, month)
    ensures forall i :: 0 <= i < |days| ==>
      days[i].day == i + 1 && days[i].date == StartOfMonth(MonthIndex(year, month)) + i && days[i].isCurrentMonth
    ensures forall i :: 0 <= i < |days| ==>
      days[i].isCompleted == if days[i].date in history then Some(history[days[i].date]) else None
    ensures forall i :: 0 <= i < |days| ==> (days[i].isToday <==> days[i].date == today)
    ensures forall i, j :: 0 <= i < |days| && 0 <= j < |days| && days[i].isToday && days[j].isToday ==> i == j
    ensures (exists i :: 0 <= i < |days| && days[i].isToday) <==>
      StartOfMonth(MonthIndex(year, month)) <= today <= EndOfMonth(MonthIndex(year, month))
  {
    var daysInMonth := DaysInMonth(year, month);
    days := [];
    for i := 1 to daysInMonth + 1
      invariant |days| == i - 1
      invariant forall k :: 0 <= k < |days| ==>
        days[k].day == k + 1 && days[k].date == DayNumber(year, month, k + 1) && days[k].isCurrentMonth
      invariant forall k :: 0 <= k < |days| ==>
        days[k].isCompleted == (if days[k].date in history then Some(history[days[k].date]) else None)
      invariant forall k :: 0 <= k < |days| ==> (days[k].isToday <==> days[k].date == today)
    {
      var currentDate := DayNumber(year, month, i);
      var isCompleted := if currentDate in history then Some(history[currentDate]) else None;
      days := days + [CalendarDay(currentDate, i, true, isCompleted, currentDate == today)];
    }
    var first := StartOfMonth(MonthIndex(year, month));
    if first <= today <= EndOfMonth(MonthIndex(year, month)) {
      assert days[today - first].isToday;
    }
  }
}
