/** The calendar arithmetic the core takes from date-fns and `Date`
    (getDay, startOfWeek, startOfMonth, endOfMonth, subMonths, the number of
    days of a month), on day numbers of the proleptic Gregorian calendar.
    Day 0 is 1970-01-01, a Thursday. Time zones and daylight saving time
    play no part: every date is a whole local calendar day. */
module Calendar {
  import opened Types

  const MillisPerDay: nat := 86_400_000

  // ---- days of the week ----

  /** date-fns `getDay`: 0 = Sunday, 1 = Monday, ..., 6 = Saturday. */
  function GetDay(d: Day): (w: nat)
    ensures w < 7
  {
    (d + 4) % 7
  }

  /** Weekdays repeat every seven days and advance by one each day. */
  lemma GetDayStep(d: Day, k: int)
    ensures GetDay(d + 7 * k) == GetDay(d)
    ensures GetDay(d + 1) == (GetDay(d) + 1) % 7
  {
  }

  /** `format(date, "EEE")`. */
  function ShortName(d: Day): (s: string)
    ensures |s| == 3
  {
    var w := GetDay(d);
    if w == 0 then "Sun" else if w == 1 then "Mon" else if w == 2 then "Tue"
    else if w == 3 then "Wed" else if w == 4 then "Thu" else if w == 5 then "Fri"
    else "Sat"
  }

  /** The tag `'mon'`, ..., `'sun'` as stored in `selectedDays`. */
  function TagText(t: DayOfWeek): string
  {
    match t
    case Mon => "mon" case Tue => "tue" case Wed => "wed" case Thu => "thu"
    case Fri => "fri" case Sat => "sat" case Sun => "sun"
  }

  function LowerAscii(s: string): (r: string)
    ensures |r| == |s|
  {
    seq(|s|, i requires 0 <= i < |s| => if 'A' <= s[i] <= 'Z' then (s[i] as int + 32) as char else s[i])
  }

  /** `format(date, 'EEE').toLowerCase()` read as a day tag. */
  function DayTag(d: Day): (t: DayOfWeek)
    ensures TagText(t) == LowerAscii(ShortName(d))
    ensures t == Mon <==> GetDay(d) == 1
  {
    var w := GetDay(d);
    if w == 0 then Sun else if w == 1 then Mon else if w == 2 then Tue
    else if w == 3 then Wed else if w == 4 then Thu else if w == 5 then Fri
    else Sat
  }

  /** `startOfWeek(d, { weekStartsOn: 1 })`: the Monday on or before d. */
  function StartOfWeek(d: Day): (r: Day)
    ensures r <= d < r + 7
    ensures GetDay(r) == 1
  {
    d - (GetDay(d) + 6) % 7
  }

  // ---- the Gregorian calendar ----

  predicate IsLeap(y: int)
  {
    y % 4 == 0 && (y % 100 != 0 || y % 400 == 0)
  }

  /** `new Date(year, month, 0).getDate()` for months numbered 1..12. */
  function DaysInMonth(y: int, m: int): (n: nat)
    requires 1 <= m <= 12
    ensures 28 <= n <= 31
    ensures n == 29 <==> m == 2 && IsLeap(y)
  {
    if m == 2 then (if IsLeap(y) then 29 else 28)
    else if m == 4 || m == 6 || m == 9 || m == 11 then 30
    else 31
  }

  /** Days of year y that come before the first of month m. */
  function DaysBeforeMonth(y: int, m: int): nat
    requires 1 <= m <= 12
  {
    [0, 31, 59, 90, 120, 151, 181, 212, 243, 273, 304, 334][m - 1]
      + (if m > 2 && IsLeap(y) then 1 else 0)
  }

  /** Number of leap years among 1..y (shifted by a constant for y < 0). */
  function LeapYearsThrough(y: int): int
  {
    y / 4 - y / 100 + y / 400
  }

  /** Day number of January 1 of year y. */
  function DaysBeforeYear(y: int): int
  {
    365 * (y - 1970) + LeapYearsThrough(y - 1) - LeapYearsThrough(1969)
  }

  predicate ValidDate(y: int, m: int, d: int)
  {
    1 <= m <= 12 && 1 <= d <= DaysInMonth(y, m)
  }

  /** The day number of the calendar date y-m-d. */
  function DayNumber(y: int, m: int, d: int): Day
    requires 1 <= m <= 12
  {
    DaysBeforeYear(y) + DaysBeforeMonth(y, m) + d - 1
  }

  lemma DivStep(y: int, k: int)
    requires k > 0
    ensures y / k - (y - 1) / k == if y % k == 0 then 1 else 0
  {
    var q1, r1 := y / k, y % k;
    var q0, r0 := (y - 1) / k, (y - 1) % k;
    var x := q1 - q0;
    assert x * k == 1 + r0 - r1 by {
      assert y == q1 * k + r1 && y - 1 == q0 * k + r0;
    }
    SmallMultiple(x, k);
  }

  lemma SmallMultiple(x: int, k: int)
    requires k > 0 && -k < x * k <= k
    ensures x == 0 || x == 1
    ensures x == 1 <==> x * k == k
  {
    assert x >= 2 ==> x * k >= 2 * k;
    assert x <= -1 ==> x * k <= -k;
  }

  /** A year has 366 days when it is a leap year and 365 otherwise. */
  lemma YearLength(y: int)
    ensures DaysBeforeYear(y + 1) == DaysBeforeYear(y) + (if IsLeap(y) then 366 else 365)
  {
    DivStep(y, 4);
    DivStep(y, 100);
    DivStep(y, 400);
    CenturyDivides(y);
  }

  /** A multiple of 400 is a multiple of 100, and a multiple of 100 one of 4. */
  lemma CenturyDivides(y: int)
    ensures y % 400 == 0 ==> y % 100 == 0
    ensures y % 100 == 0 ==> y % 4 == 0
  {
    if y % 400 == 0 {
      assert y == 100 * (4 * (y / 400));
      MultipleMod(4 * (y / 400), 100);
    }
    if y % 100 == 0 {
      assert y == 4 * (25 * (y / 100));
      MultipleMod(25 * (y / 100), 4);
    }
  }

  lemma MultipleMod(q: int, k: int)
    requires k > 0
    ensures (k * q) % k == 0
  {
    var y := k * q;
    var x := q - y / k;
    assert y % k == x * k by {
      assert y == (y / k) * k + y % k;
    }
    SmallMultiple(x, k);
  }

  // ---- months as one running index: 12 * year + (month - 1) ----

  function YearOf(mi: int): int
  {
    mi / 12
  }

  function MonthOf(mi: int): (m: int)
    ensures 1 <= m <= 12
  {
    mi % 12 + 1
  }

  function MonthIndex(y: int, m: int): (mi: int)
    requires 1 <= m <= 12
    ensures YearOf(mi) == y && MonthOf(mi) == m
  {
    12 * y + m - 1
  }

  function MonthLength(mi: int): nat
  {
    DaysInMonth(YearOf(mi), MonthOf(mi))
  }

  /** `startOfMonth`: the first day of month mi. */
  function StartOfMonth(mi: int): Day
  {
    DayNumber(YearOf(mi), MonthOf(mi), 1)
  }

  /** `endOfMonth`: the last day of month mi. */
  function EndOfMonth(mi: int): (d: Day)
    ensures d == StartOfMonth(mi) + MonthLength(mi) - 1
  {
    DayNumber(YearOf(mi), MonthOf(mi), MonthLength(mi))
  }

  /** Each month begins the day after the previous month ends. */
  lemma NextMonthStart(mi: int)
    ensures StartOfMonth(mi + 1) == EndOfMonth(mi) + 1
  {
    var y, m := YearOf(mi), MonthOf(mi);
    if m == 12 {
      assert YearOf(mi + 1) == y + 1 && MonthOf(mi + 1) == 1;
      YearLength(y);
    } else {
      assert YearOf(mi + 1) == y && MonthOf(mi + 1) == m + 1;
    }
  }

  /** A valid date lies inside its own month. */
  lemma DateInMonth(y: int, m: int, d: int)
    requires ValidDate(y, m, d)
    ensures StartOfMonth(MonthIndex(y, m)) <= DayNumber(y, m, d) <= EndOfMonth(MonthIndex(y, m))
  {
  }

  /** The epoch, a Thursday, and 2024-01-02, a Tuesday. */
  lemma KnownDates()
    ensures DayNumber(1970, 1, 1) == 0 && GetDay(0) == 4
    ensures DayNumber(2024, 1, 2) == 19724 && DayTag(19724) == Tue
  {
  }
}
