/** The habit tracker's records (client/src/lib/types.ts).
    Calendar dates are day numbers: day 0 is 1970-01-01 and consecutive
    calendar days have consecutive numbers, so the `YYYY-MM-DD` keys of a
    history sort exactly as their day numbers do. Instants (`createdAt`,
    "now") are integer milliseconds. */
module Types {

  datatype Option<+T> = None | Some(value: T)

  /** 'daily' | 'weekly' | 'custom' */
  datatype Frequency = Daily | Weekly | Custom

  /** 'weekly' | 'monthly' */
  datatype FrequencyPeriod = PerWeek | PerMonth

  /** 'mon' | 'tue' | ... | 'sun' */
  datatype DayOfWeek = Mon | Tue | Wed | Thu | Fri | Sat | Sun

  /** A calendar date as a day number (0 = 1970-01-01). */
  type Day = int

  /** The sparse per-date completion record: an absent key means "not completed". */
  type History = map<Day, bool>

  datatype Habit = Habit(
    id: string,
    title: string,
    description: string,
    frequency: Frequency,
    frequencyCount: Option<int>,
    frequencyPeriod: Option<FrequencyPeriod>,
    selectedDays: Option<seq<DayOfWeek>>,
    reminderEnabled: Option<bool>,
    reminderTime: Option<string>,
    createdAt: int,
    history: History)

  datatype HabitFormData = HabitFormData(
    title: string,
    description: Option<string>,
    frequency: Frequency,
    frequencyCount: Option<int>,
    frequencyPeriod: Option<FrequencyPeriod>,
    selectedDays: Option<seq<DayOfWeek>>,
    reminderEnabled: Option<bool>,
    reminderTime: Option<string>)

  datatype DailyProgress = DailyProgress(total: nat, completed: nat, percentage: nat)

  /** One entry of the week strip; `completion` is -1 for a day still in the future. */
  datatype WeekDayProgress = WeekDayProgress(date: Day, shortName: string, completion: int, isFuture: bool)

  datatype WeeklyProgress = WeeklyProgress(days: seq<WeekDayProgress>, percentage: nat)

  datatype HabitStats = HabitStats(currentStreak: nat, bestStreak: nat, completionRate: nat)

  /** `history[d]` read as a truth value: a missing key is falsy, like `undefined`. */
  predicate Done(h: History, d: Day)
  {
    d in h && h[d]
  }
}
