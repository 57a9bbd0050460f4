/**
 * Naive wall-clock timestamps on the proleptic Gregorian calendar, as Python's
 * `datetime` stores them, with the two operations the cron evaluator uses:
 * adding one minute (`current += timedelta(minutes=1)`) and the weekday.
 */
module Calendar {

  /** The fields of a `datetime` (the time zone is not modelled). */
  datatype Timestamp = Timestamp(year: int, month: int, day: int, hour: int, minute: int, second: int, microsecond: int)

  /** The Gregorian leap-year rule. */
  predicate IsLeap(y: int)
  {
    y % 4 == 0 && (y % 100 != 0 || y % 400 == 0)
  }

  /** Length of month `m` of year `y`. */
  function DaysInMonth(y: int, m: int): (n: int)
    requires 1 <= m <= 12
    ensures 28 <= n <= 31
    ensures m == 2 ==> (n == 29 <==> IsLeap(y))
  {
    if m == 2 then (if IsLeap(y) then 29 else 28)
    else if m == 4 || m == 6 || m == 9 || m == 11 then 30
    else 31
  }

  /** Every field within the range Python's `datetime` constructor accepts (the year is not bounded above). */
  predicate Valid(t: Timestamp)
  {
    && t.year >= 1
    && 1 <= t.month <= 12
    && 1 <= t.day <= DaysInMonth(t.year, t.month)
    && 0 <= t.hour < 24
    && 0 <= t.minute < 60
    && 0 <= t.second < 60
    && 0 <= t.microsecond < 1000000
  }

  type DateTime = t: Timestamp | Valid(t) witness Timestamp(1, 1, 1, 0, 0, 0, 0)

  /** Days in the months of year `y` before month `m`. */
  function DaysBeforeMonth(y: int, m: int): int
    requires 1 <= m <= 12
  {
    [0, 31, 59, 90, 120, 151, 181, 212, 243, 273, 304, 334][m - 1] + (if m > 2 && IsLeap(y) then 1 else 0)
  }

  /** Days in the years before year `y`. */
  function DaysBeforeYear(y: int): int
    requires y >= 1
  {
    var p := y - 1;
    p * 365 + p / 4 - p / 100 + p / 400
  }

  /** The proleptic Gregorian ordinal of the date (`date.toordinal()`, 1 for 0001-01-01). */
  function Ordinal(t: DateTime): int
  {
    DaysBeforeYear(t.year) + DaysBeforeMonth(t.year, t.month) + t.day
  }

  /** Microseconds since 0001-01-01 00:00, the order in which Python compares naive datetimes. */
  function Instant(t: DateTime): int
  {
    ((((Ordinal(t) - 1) * 24 + t.hour) * 60 + t.minute) * 60 + t.second) * 1000000 + t.microsecond
  }

  const MicrosPerMinute: int := 60000000

  /** A month ends where the next one starts. */
  lemma DaysBeforeNextMonth(y: int, m: int)
    requires 1 <= m < 12
    ensures DaysBeforeMonth(y, m + 1) == DaysBeforeMonth(y, m) + DaysInMonth(y, m)
  {
  }

  /** The four-year, century and four-century counts grow by one exactly at their multiples. */
  lemma DivisionStep(y: int)
    requires y >= 1
    ensures y / 4 - (y - 1) / 4 == if y % 4 == 0 then 1 else 0
    ensures y / 100 - (y - 1) / 100 == if y % 100 == 0 then 1 else 0
    ensures y / 400 - (y - 1) / 400 == if y % 400 == 0 then 1 else 0
  {
  }

  /** A year ends where the next one starts. */
  lemma DaysBeforeNextYear(y: int)
    requires y >= 1
    ensures DaysBeforeYear(y + 1) == DaysBeforeYear(y) + DaysBeforeMonth(y, 12) + 31
  {
    DivisionStep(y);
    MultiplesNest(y);
    assert DaysBeforeYear(y + 1) - DaysBeforeYear(y)
           == 365 + (y / 4 - (y - 1) / 4) - (y / 100 - (y - 1) / 100) + (y / 400 - (y - 1) / 400);
    assert DaysBeforeMonth(y, 12) == 334 + (if IsLeap(y) then 1 else 0);
  }

  /** A multiple of 400 is one of 100, and a multiple of 100 is one of 4. */
  lemma MultiplesNest(y: int)
    ensures y % 400 == 0 ==> y % 100 == 0
    ensures y % 100 == 0 ==> y % 4 == 0
  {
    if y % 400 == 0 {
      MultipleOfMultiple(y, 100, 4);
    }
    if y % 100 == 0 {
      MultipleOfMultiple(y, 4, 25);
    }
  }

  /** A multiple of `a * b` is a multiple of `a`, for the constants the leap-year rule uses. */
  lemma MultipleOfMultiple(y: int, a: int, b: int)
    requires (a == 100 && b == 4) || (a == 4 && b == 25)
    requires y % (a * b) == 0
    ensures y % a == 0
  {
    var q := y / (a * b);
    assert y == (a * b) * q;
    var d := b * q;
    assert y == a * d;
    assert y / a == d;
  }


  /** The calendar date one day later, the clock fields unchanged. */
  function NextDay(t: DateTime): (r: DateTime)
    ensures r.hour == t.hour && r.minute == t.minute && r.second == t.second && r.microsecond == t.microsecond
  {
    if t.day < DaysInMonth(t.year, t.month) then t.(day := t.day + 1)
    else if t.month < 12 then t.(month := t.month + 1, day := 1)
    else t.(year := t.year + 1, month := 1, day := 1)
  }

  /** The next calendar date is the next ordinal: no day is skipped or repeated across month and year ends. */
  lemma OrdinalNextDay(t: DateTime)
    ensures Ordinal(NextDay(t)) == Ordinal(t) + 1
  {
    if t.day == DaysInMonth(t.year, t.month) {
      if t.month < 12 {
        DaysBeforeNextMonth(t.year, t.month);
      } else {
        DaysBeforeNextYear(t.year);
      }
    }
  }

  /** `t + timedelta(minutes=1)`: the wall clock one minute later, carrying into hour, day, month and year. */
  function AddMinute(t: DateTime): (r: DateTime)
    ensures r.second == t.second && r.microsecond == t.microsecond
  {
    if t.minute < 59 then t.(minute := t.minute + 1)
    else if t.hour < 23 then t.(hour := t.hour + 1, minute := 0)
    else NextDay(t).(hour := 0, minute := 0)
  }

  /** Adding a minute moves the instant forward by exactly sixty seconds. */
  lemma InstantAddMinute(t: DateTime)
    ensures Instant(AddMinute(t)) == Instant(t) + MicrosPerMinute
  {
    if t.minute == 59 && t.hour == 23 {
      OrdinalNextDay(t);
    }
  }

  /** `t + k * timedelta(minutes=1)`, one minute at a time. */
  function AddMinutes(t: DateTime, k: nat): DateTime
    decreases k
  {
    if k == 0 then t else AddMinutes(AddMinute(t), k - 1)
  }

  /** Adding `k` minutes moves the instant forward by exactly `k` minutes. */
  lemma {:induction false} InstantAddMinutes(t: DateTime, k: nat)
    ensures Instant(AddMinutes(t, k)) == Instant(t) + k * MicrosPerMinute
    decreases k
  {
    if k > 0 {
      InstantAddMinute(t);
      InstantAddMinutes(AddMinute(t), k - 1);
    }
  }

  /** Adding `k + 1` minutes is adding `k` minutes and then one more. */
  lemma {:induction false} AddMinutesLast(t: DateTime, k: nat)
    ensures AddMinutes(t, k + 1) == AddMinute(AddMinutes(t, k))
    decreases k
  {
    if k > 0 {
      AddMinutesLast(AddMinute(t), k - 1);
    }
  }

  /** Adding `j` and then `k` minutes is adding `j + k` minutes. */
  lemma {:induction false} AddMinutesAdd(t: DateTime, j: nat, k: nat)
    ensures AddMinutes(AddMinutes(t, j), k) == AddMinutes(t, j + k)
    decreases j
  {
    if j > 0 {
      AddMinutesAdd(AddMinute(t), j - 1, k);
    }
  }

  const MicrosPerDay: int := 86400000000

  /** The instant splits into whole days before the date and the time of day, which is less than a day. */
  lemma InstantSplit(t: DateTime)
    ensures var r := Instant(t) - (Ordinal(t) - 1) * MicrosPerDay; 0 <= r < MicrosPerDay
  {
  }

  /** Later years start later: the day count before a year never decreases. */
  lemma {:induction false} DaysBeforeYearMonotone(y: int, z: int)
    requires 1 <= y <= z
    ensures DaysBeforeYear(y) <= DaysBeforeYear(z)
    decreases z - y
  {
    if y < z {
      DaysBeforeNextYear(y);
      DaysBeforeYearMonotone(y + 1, z);
    }
  }

  /** 29 February exists only in leap years, and is day 60 of its year. */
  lemma LeapDayOrdinal(t: DateTime)
    requires t.month == 2 && t.day == 29
    ensures IsLeap(t.year)
    ensures Ordinal(t) == DaysBeforeYear(t.year) + 60
  {
  }

  /** `datetime.weekday()`: Monday is 0 and Sunday is 6. */
  function Weekday(t: DateTime): (w: int)
    ensures 0 <= w < 7
  {
    (Ordinal(t) + 6) % 7
  }

  /** The weekday in cron numbering, where Sunday is 0 and Saturday is 6. */
  function CronWeekday(t: DateTime): (w: int)
    ensures 0 <= w < 7
    ensures w == 0 <==> Weekday(t) == 6
    ensures Weekday(t) < 6 ==> w == Weekday(t) + 1
  {
    (Weekday(t) + 1) % 7
  }

  /** Consecutive days have consecutive weekdays. */
  lemma CronWeekdayNextDay(t: DateTime)
    ensures CronWeekday(NextDay(t)) == (CronWeekday(t) + 1) % 7
  {
    OrdinalNextDay(t);
    WeekStep(Ordinal(t));
  }

  lemma WeekStep(o: int)
    ensures ((o + 7) % 7 + 1) % 7 == (((o + 6) % 7 + 1) % 7 + 1) % 7
  {
    var w := (o + 6) % 7;
    assert o + 7 == 7 * ((o + 6) / 7) + (w + 1);
  }

  /** Monday 2025-01-13, a date the source's tests use, has cron weekday 1. */
  lemma MondayExample()
    ensures CronWeekday(Timestamp(2025, 1, 13, 0, 0, 0, 0)) == 1
  {
    assert DaysBeforeYear(2025) == 739251;
  }
}
