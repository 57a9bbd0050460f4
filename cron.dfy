/**
 * Five-field cron schedules: parsing an expression into explicit value lists,
 * deciding whether a timestamp matches (with the day-of-month / day-of-week OR
 * rule of the POSIX `crontab` utility), and the bounded minute-by-minute search
 * for the next matching time, alone and chained into a stream of occurrences.
 */
module Cron {
  import opened Wrappers
  import opened PyStr
  import opened Calendar
  import opened CronField

  /** A parsed expression: the explicit values of each field (`CronSchedule`). */
  datatype Schedule = Schedule(minute: seq<int>, hour: seq<int>, dayOfMonth: seq<int>, month: seq<int>, dayOfWeek: seq<int>)

  /** Why parsing or searching failed: the malformed expression, or no match within the look-ahead window. */
  datatype CronError = InvalidExpression(expression: string) | NoMatch(days: int, start: DateTime)

  const ExpectedFieldCount: nat := 5
  const MinutesPerDay: int := 24 * 60
  const DefaultLookaheadDays: int := 366

  /** One field as the expander produces it: non-empty, strictly ascending, allowed values only, no 7 for Sunday. */
  predicate FieldOk(values: seq<int>, f: FieldSpec)
  {
    && |values| > 0
    && (forall i, j :: 0 <= i < j < |values| ==> values[i] < values[j])
    && (forall i :: 0 <= i < |values| ==> f.lo <= values[i] <= f.hi)
    && (f.sundaySeven ==> SundayAliasValue !in values)
  }

  /** Every field of the schedule is well formed for its position. */
  predicate WellFormed(s: Schedule)
  {
    && FieldOk(s.minute, MinuteField)
    && FieldOk(s.hour, HourField)
    && FieldOk(s.dayOfMonth, DayOfMonthField)
    && FieldOk(s.month, MonthField)
    && FieldOk(s.dayOfWeek, DayOfWeekField)
  }

  /**
   * `parse_cron`: exactly five whitespace-separated fields, each expanded with
   * its range and names; any failure is reported against the whole expression.
   */
  function ParseCron(expression: string): (r: Result<Schedule, CronError>)
    ensures r.Failure? ==> r.error == InvalidExpression(expression)
    ensures r.Success? ==> |SplitWhitespace(expression)| == ExpectedFieldCount && WellFormed(r.value)
  {
    var parts := SplitWhitespace(expression);
    if |parts| != ExpectedFieldCount then Failure(InvalidExpression(expression))
    else
      match (ExpandField(parts[0], MinuteField), ExpandField(parts[1], HourField),
             ExpandField(parts[2], DayOfMonthField), ExpandField(parts[3], MonthField),
             ExpandField(parts[4], DayOfWeekField))
      case (Success(minute), Success(hour), Success(dom), Success(month), Success(dow)) =>
        ExpandedFieldOk(parts[0], MinuteField);
        ExpandedFieldOk(parts[1], HourField);
        ExpandedFieldOk(parts[2], DayOfMonthField);
        ExpandedFieldOk(parts[3], MonthField);
        ExpandedFieldOk(parts[4], DayOfWeekField);
        Success(Schedule(minute, hour, dom, month, dow))
      case _ => Failure(InvalidExpression(expression))
  }

  /**
   * An expression parses exactly when it has five fields and every field
   * expands; the schedule then holds the five expansions, and a failure
   * always names the whole expression.
   */
  lemma ParseCronOutcome(expression: string)
    ensures var parts := SplitWhitespace(expression);
      && (ParseCron(expression).Failure? ==> ParseCron(expression).error == InvalidExpression(expression))
      && (ParseCron(expression).Success? <==>
            && |parts| == ExpectedFieldCount
            && ExpandField(parts[0], MinuteField).Success?
            && ExpandField(parts[1], HourField).Success?
            && ExpandField(parts[2], DayOfMonthField).Success?
            && ExpandField(parts[3], MonthField).Success?
            && ExpandField(parts[4], DayOfWeekField).Success?)
      && (ParseCron(expression).Success? ==>
            ParseCron(expression).value == Schedule(
              ExpandField(parts[0], MinuteField).value, ExpandField(parts[1], HourField).value,
              ExpandField(parts[2], DayOfMonthField).value, ExpandField(parts[3], MonthField).value,
              ExpandField(parts[4], DayOfWeekField).value))
  {
    StandardFields();
  }

  /** An expanded field is well formed for its spec. */
  lemma ExpandedFieldOk(expr: string, f: FieldSpec)
    requires ValidSpec(f)
    requires ExpandField(expr, f).Success?
    ensures FieldOk(ExpandField(expr, f).value, f)
  {
    ExpandFieldShape(expr, f);
  }

  /** Every parsed schedule is well formed: each field non-empty, strictly ascending, in range, and day of week within 0..6. */
  lemma ParseCronWellFormed(expression: string)
    requires ParseCron(expression).Success?
    ensures WellFormed(ParseCron(expression).value)
    ensures forall i :: 0 <= i < |ParseCron(expression).value.dayOfWeek| ==> 0 <= ParseCron(expression).value.dayOfWeek[i] <= 6
  {
    StandardFields();
    ParseCronOutcome(expression);
    var parts := SplitWhitespace(expression);
    var m, h, dom, mon, dow := ExpandField(parts[0], MinuteField), ExpandField(parts[1], HourField),
      ExpandField(parts[2], DayOfMonthField), ExpandField(parts[3], MonthField), ExpandField(parts[4], DayOfWeekField);
    ExpandedFieldOk(parts[0], MinuteField);
    ExpandedFieldOk(parts[1], HourField);
    ExpandedFieldOk(parts[2], DayOfMonthField);
    ExpandedFieldOk(parts[3], MonthField);
    ExpandedFieldOk(parts[4], DayOfWeekField);
    WellFormedOf(Schedule(m.value, h.value, dom.value, mon.value, dow.value));
  }

  /** Field-wise well-formedness gives the schedule's, and a well-formed day of week lies within 0..6. */
  lemma WellFormedOf(s: Schedule)
    requires FieldOk(s.minute, MinuteField) && FieldOk(s.hour, HourField) && FieldOk(s.dayOfMonth, DayOfMonthField)
    requires FieldOk(s.month, MonthField) && FieldOk(s.dayOfWeek, DayOfWeekField)
    ensures WellFormed(s)
    ensures forall i :: 0 <= i < |s.dayOfWeek| ==> 0 <= s.dayOfWeek[i] <= 6
  {
    forall i | 0 <= i < |s.dayOfWeek|
      ensures s.dayOfWeek[i] <= 6
    {
      assert s.dayOfWeek[i] in s.dayOfWeek;
    }
  }

  /** The values a field takes when it is unrestricted: every allowed value, normalised (0..6 for the day of week). */
  function FullSet(f: FieldSpec): (r: set<int>)
    ensures !f.sundaySeven ==> forall x :: x in r <==> f.lo <= x <= f.hi
    ensures f.sundaySeven && f.lo == 0 && f.hi == SundayAliasValue ==> forall x :: x in r <==> 0 <= x < SundayAliasValue
  {
    var r := set v | f.lo <= v <= f.hi :: Normalize(f, v);
    NormalizedValues(f, r);
    r
  }

  /** The normalised allowed values: the allowed values themselves, or 0..6 when 7 is folded into Sunday. */
  lemma NormalizedValues(f: FieldSpec, r: set<int>)
    requires forall x :: x in r <==> exists v :: f.lo <= v <= f.hi && x == Normalize(f, v)
    ensures !f.sundaySeven ==> forall x :: x in r <==> f.lo <= x <= f.hi
    ensures f.sundaySeven && f.lo == 0 && f.hi == SundayAliasValue ==> forall x :: x in r <==> 0 <= x < SundayAliasValue
  {
    forall x | f.lo <= x <= f.hi && !(f.sundaySeven && x == SundayAliasValue)
      ensures x in r
    {
      assert x == Normalize(f, x);
    }
  }

  /** A field counts as a wildcard when its values are exactly the unrestricted set, however it was written. */
  predicate IsWildcard(values: seq<int>, f: FieldSpec)
    ensures !f.sundaySeven ==> (IsWildcard(values, f) <==> forall x :: x in values <==> f.lo <= x <= f.hi)
    ensures f.sundaySeven && f.lo == 0 && f.hi == SundayAliasValue ==>
              (IsWildcard(values, f) <==> forall x :: x in values <==> 0 <= x < SundayAliasValue)
  {
    var present := set v | v in values;
    SameMembers(values, present, FullSet(f));
    present == FullSet(f)
  }

  /** A set holding exactly the elements of a list equals another set exactly when the list holds that set's elements. */
  lemma SameMembers(values: seq<int>, present: set<int>, full: set<int>)
    requires forall x :: x in present <==> x in values
    ensures present == full <==> forall x :: x in values <==> x in full
  {
    if forall x :: x in values <==> x in full {
      assert forall x :: x in present <==> x in full;
    }
  }

  /**
   * `cron_matches` on a schedule: minute, hour and month must be members;
   * then both day fields wildcards match, one wildcard defers to the other
   * field, and two restricted day fields match when either does. This is
   * the POSIX `crontab` day rule: either no day field is restricted or some
   * restricted day field matches.
   */
  function Matches(s: Schedule, when: DateTime): (r: bool)
    ensures r <==>
      && when.minute in s.minute && when.hour in s.hour && when.month in s.month
      && (|| (IsWildcard(s.dayOfMonth, DayOfMonthField) && IsWildcard(s.dayOfWeek, DayOfWeekField))
          || (!IsWildcard(s.dayOfMonth, DayOfMonthField) && when.day in s.dayOfMonth)
          || (!IsWildcard(s.dayOfWeek, DayOfWeekField) && CronWeekday(when) in s.dayOfWeek))
  {
    var minuteOk := when.minute in s.minute;
    var hourOk := when.hour in s.hour;
    var monthOk := when.month in s.month;
    if !(minuteOk && hourOk && monthOk) then false
    else
      var domWildcard := IsWildcard(s.dayOfMonth, DayOfMonthField);
      var dowWildcard := IsWildcard(s.dayOfWeek, DayOfWeekField);
      var domMatch := when.day in s.dayOfMonth;
      var dowMatch := CronWeekday(when) in s.dayOfWeek;
      if domWildcard && dowWildcard then true
      else if domWildcard then dowMatch
      else if dowWildcard then domMatch
      else domMatch || dowMatch
  }

  /** A wildcard day field holds every day, so it never rules a time out. */
  lemma WildcardDayFieldsHoldAll(s: Schedule, when: DateTime)
    ensures IsWildcard(s.dayOfMonth, DayOfMonthField) ==> when.day in s.dayOfMonth
    ensures IsWildcard(s.dayOfWeek, DayOfWeekField) ==> CronWeekday(when) in s.dayOfWeek
  {
    if IsWildcard(s.dayOfMonth, DayOfMonthField) {
      assert Normalize(DayOfMonthField, when.day) == when.day;
      assert when.day in FullSet(DayOfMonthField);
    }
    if IsWildcard(s.dayOfWeek, DayOfWeekField) {
      var w := CronWeekday(when);
      assert Normalize(DayOfWeekField, w) == w;
      assert w in FullSet(DayOfWeekField);
    }
  }

  /** With both day fields unrestricted, matching is plain membership of minute, hour and month. */
  lemma MatchesWithoutDayRestriction(s: Schedule, when: DateTime)
    requires IsWildcard(s.dayOfMonth, DayOfMonthField) && IsWildcard(s.dayOfWeek, DayOfWeekField)
    ensures Matches(s, when) <==> when.minute in s.minute && when.hour in s.hour && when.month in s.month
  {
  }

  /** `cron_matches` given an expression: parse it first; a malformed expression is an error. */
  function MatchesExpression(expression: string, when: DateTime): (r: Result<bool, CronError>)
    ensures r.Failure? <==> ParseCron(expression).Failure?
    ensures r.Success? ==> r.value == Matches(ParseCron(expression).value, when)
  {
    match ParseCron(expression)
    case Failure(e) => Failure(e)
    case Success(s) => Success(Matches(s, when))
  }

  /** The least `k` in `i..horizon` whose probe `start + k` minutes matches, if any. */
  function FirstMatch(s: Schedule, start: DateTime, i: nat, horizon: int): (r: Option<nat>)
    ensures r.Some? ==> i <= r.value <= horizon && Matches(s, AddMinutes(start, r.value))
    decreases horizon - i
  {
    if i > horizon then None
    else if Matches(s, AddMinutes(start, i)) then Some(i)
    else FirstMatch(s, start, i + 1, horizon)
  }

  /** `FirstMatch` finds the least matching probe, and fails only when no probe in the window matches. */
  lemma {:induction false} FirstMatchIsLeast(s: Schedule, start: DateTime, i: nat, horizon: int)
    ensures FirstMatch(s, start, i, horizon).Some? ==>
      forall j :: i <= j < FirstMatch(s, start, i, horizon).value ==> !Matches(s, AddMinutes(start, j))
    ensures FirstMatch(s, start, i, horizon).None? ==>
      forall j :: i <= j <= horizon ==> !Matches(s, AddMinutes(start, j))
    decreases horizon - i
  {
    if i <= horizon && !Matches(s, AddMinutes(start, i)) {
      FirstMatchIsLeast(s, start, i + 1, horizon);
    }
  }

  /**
   * `CronSchedule.next`: `start` itself when inclusive and matching;
   * otherwise the first of `start + 1`, ..., `start + days * 1440` minutes
   * that matches; otherwise the no-match error.
   */
  function NextOccurrence(s: Schedule, start: DateTime, inclusive: bool, days: int): (r: Result<DateTime, CronError>)
    ensures r.Success? ==> Matches(s, r.value)
    ensures r.Success? && r.value != start ==> exists k :: 1 <= k <= days * MinutesPerDay && r.value == AddMinutes(start, k)
    ensures r.Failure? ==> r.error == NoMatch(days, start) && !(inclusive && Matches(s, start))
  {
    if inclusive && Matches(s, start) then Success(start)
    else
      match FirstMatch(s, start, 1, days * MinutesPerDay)
      case Some(k) => Success(AddMinutes(start, k))
      case None => Failure(NoMatch(days, start))
  }

  /**
   * What `next` promises: an inclusive matching start is returned as is;
   * otherwise the result is `start + k` minutes for the least matching `k` in
   * `1..days * 1440`, no earlier probe matches, and the search fails with the
   * no-match error exactly when no probe in the window matches.
   */
  lemma NextOccurrenceSpec(s: Schedule, start: DateTime, inclusive: bool, days: int)
    ensures inclusive && Matches(s, start) ==> NextOccurrence(s, start, inclusive, days) == Success(start)
    ensures !(inclusive && Matches(s, start)) ==>
      match NextOccurrence(s, start, inclusive, days)
      case Success(t) =>
        exists k :: 1 <= k <= days * MinutesPerDay && t == AddMinutes(start, k) && Matches(s, t)
                    && forall j :: 1 <= j < k ==> !Matches(s, AddMinutes(start, j))
      case Failure(e) =>
        e == NoMatch(days, start) && forall k :: 1 <= k <= days * MinutesPerDay ==> !Matches(s, AddMinutes(start, k))
  {
    FirstMatchIsLeast(s, start, 1, days * MinutesPerDay);
  }

  /** A result of `next` is never earlier than the start, and strictly later unless the start itself was taken. */
  lemma NextOccurrenceNotBefore(s: Schedule, start: DateTime, inclusive: bool, days: int)
    requires NextOccurrence(s, start, inclusive, days).Success?
    ensures Instant(NextOccurrence(s, start, inclusive, days).value) >= Instant(start)
    ensures !inclusive ==> Instant(NextOccurrence(s, start, inclusive, days).value) > Instant(start)
    ensures Matches(s, NextOccurrence(s, start, inclusive, days).value)
  {
    if !(inclusive && Matches(s, start)) {
      var k := FirstMatch(s, start, 1, days * MinutesPerDay).value;
      InstantAddMinutes(start, k);
    }
  }

  /** One probe of the search: a match at `i` ends it, otherwise it goes on from `i + 1`. */
  lemma FirstMatchStep(s: Schedule, start: DateTime, i: nat, horizon: int)
    requires i <= horizon
    ensures Matches(s, AddMinutes(start, i)) ==> FirstMatch(s, start, i, horizon) == Some(i)
    ensures !Matches(s, AddMinutes(start, i)) ==> FirstMatch(s, start, i, horizon) == FirstMatch(s, start, i + 1, horizon)
  {
  }

  /** The method form of `CronSchedule.next`: probe one minute at a time up to the horizon. */
  method Next(s: Schedule, start: DateTime, inclusive: bool, days: int) returns (r: Result<DateTime, CronError>)
    ensures r == NextOccurrence(s, start, inclusive, days)
  {
    if inclusive && Matches(s, start) {
      return Success(start);
    }
    var horizon := days * MinutesPerDay;
    var current := start;
    var i := 0;
    while i < horizon
      invariant 0 <= i
      invariant horizon >= 0 ==> i <= horizon
      invariant current == AddMinutes(start, i)
      invariant FirstMatch(s, start, 1, horizon) == FirstMatch(s, start, i + 1, horizon)
    {
      AddMinutesLast(start, i);
      current := AddMinute(current);
      i := i + 1;
      var hit := Matches(s, current);
      FirstMatchStep(s, start, i, horizon);
      if hit {
        return Success(current);
      }
    }
    return Failure(NoMatch(days, start));
  }

  /**
   * The state of an `iter` stream: before the first step nothing was yielded
   * and the cursor is the start; afterwards the cursor is one minute past the
   * last value; the first value is `next` from the start, each later one is
   * `next` (exclusive) from one minute past its predecessor, the values
   * ascend strictly and all lie before the cursor.
   */
  ghost predicate Chain(schedule: Schedule, start: DateTime, inclusive: bool, days: int,
                        first: bool, current: DateTime, produced: seq<DateTime>)
  {
    && (first ==> produced == [] && current == start)
    && (!first ==> |produced| > 0 && current == AddMinute(produced[|produced| - 1]))
    && (|produced| > 0 ==> NextOccurrence(schedule, start, inclusive, days) == Success(produced[0]))
    && (forall i :: 0 <= i < |produced| - 1 ==>
          NextOccurrence(schedule, AddMinute(produced[i]), false, days) == Success(produced[i + 1]))
    && (forall i, j :: 0 <= i < j < |produced| ==> Instant(produced[i]) < Instant(produced[j]))
    && (forall i :: 0 <= i < |produced| ==> Instant(produced[i]) < Instant(current))
  }

  /** A successful `next` from the cursor extends the stream and keeps its state consistent. */
  lemma ChainExtends(schedule: Schedule, start: DateTime, inclusive: bool, days: int,
                     first: bool, current: DateTime, produced: seq<DateTime>, t: DateTime)
    requires Chain(schedule, start, inclusive, days, first, current, produced)
    requires NextOccurrence(schedule, current, first && inclusive, days) == Success(t)
    ensures Chain(schedule, start, inclusive, days, false, AddMinute(t), produced + [t])
  {
    NextOccurrenceNotBefore(schedule, current, first && inclusive, days);
    InstantAddMinute(t);
    var extended := produced + [t];
    forall i | 0 <= i < |extended| - 1
      ensures NextOccurrence(schedule, AddMinute(extended[i]), false, days) == Success(extended[i + 1])
    {
      assert extended[i] == produced[i];
    }
    forall i, j | 0 <= i < j < |extended|
      ensures Instant(extended[i]) < Instant(extended[j])
    {
      assert extended[i] == produced[i];
    }
  }

  /**
   * `CronSchedule.iter` as a cursor: each call to `Advance` runs `next` from
   * the current position (inclusive only the first time), yields the result
   * and moves one minute past it. A failing search ends the stream; later
   * calls report exhaustion, as a Python generator does after raising.
   */
  class Occurrences {
    const schedule: Schedule
    const start: DateTime
    const inclusive: bool
    const days: int
    var current: DateTime
    var first: bool
    var finished: bool
    /** The values yielded so far. */
    ghost var produced: seq<DateTime>

    /** The stream so far is the chain of `next` calls and is strictly ascending, all before the current position. */
    ghost predicate Valid()
      reads this
    {
      Chain(schedule, start, inclusive, days, first, current, produced)
    }

    constructor (schedule: Schedule, start: DateTime, inclusive: bool, days: int)
      ensures Valid()
      ensures this.schedule == schedule && this.start == start && this.inclusive == inclusive && this.days == days
      ensures current == start && first && !finished && produced == []
    {
      this.schedule := schedule;
      this.start := start;
      this.inclusive := inclusive;
      this.days := days;
      current := start;
      first := true;
      finished := false;
      produced := [];
    }

    /**
     * One step of the generator: `None` once the stream has ended, otherwise
     * the outcome of `next` from the current position.
     */
    method Advance() returns (r: Option<Result<DateTime, CronError>>)
      requires Valid()
      modifies this
      ensures Valid()
      ensures old(finished) ==> r.None? && current == old(current) && first == old(first) && finished && produced == old(produced)
      ensures !old(finished) ==> r == Some(NextOccurrence(schedule, old(current), old(first) && inclusive, days))
      ensures !old(finished) && r.value.Success? ==>
        && produced == old(produced) + [r.value.value]
        && current == AddMinute(r.value.value) && !first && !finished
      ensures !old(finished) && r.value.Failure? ==>
        finished && produced == old(produced) && current == old(current) && first == old(first)
    {
      if finished {
        return None;
      }
      var outcome := Next(schedule, current, first && inclusive, days);
      if outcome.Failure? {
        finished := true;
        return Some(outcome);
      }
      var t := outcome.value;
      ChainExtends(schedule, start, inclusive, days, first, current, produced, t);
      produced := produced + [t];
      current := AddMinute(t);
      first := false;
      return Some(outcome);
    }
  }

  /** A schedule whose fields hold every allowed value, as `* * * * *` parses. */
  ghost predicate EveryValue(s: Schedule)
  {
    && Spans(s.minute, MinuteField.lo, MinuteField.hi)
    && Spans(s.hour, HourField.lo, HourField.hi)
    && Spans(s.dayOfMonth, DayOfMonthField.lo, DayOfMonthField.hi)
    && Spans(s.month, MonthField.lo, MonthField.hi)
    && Spans(s.dayOfWeek, 0, SundayAliasValue - 1)
  }

  /** Such a schedule matches every minute. */
  lemma EveryValueMatches(s: Schedule, t: DateTime)
    requires EveryValue(s)
    ensures Matches(s, t)
  {
    assert IsWildcard(s.dayOfMonth, DayOfMonthField);
    assert IsWildcard(s.dayOfWeek, DayOfWeekField);
  }

  /** From a cursor whose next minute matches, the exclusive search returns that next minute. */
  lemma NextIsFollowingMinute(s: Schedule, u: DateTime, days: int)
    requires days >= 1 && Matches(s, AddMinute(u))
    ensures NextOccurrence(s, u, false, days) == Success(AddMinute(u))
  {
    assert AddMinutes(u, 1) == AddMinutes(AddMinute(u), 0) == AddMinute(u);
    FirstMatchStep(s, u, 1, days * MinutesPerDay);
  }

  /**
   * `iter` as written moves its cursor one minute past a value before
   * searching exclusively, so the minute right after each value is never
   * yielded: with a schedule that matches every minute, the second value
   * is two minutes after the first although the minute between matches.
   */
  lemma IterSkipsAMinute(s: Schedule, start: DateTime, inclusive: bool, days: int,
                         first: bool, current: DateTime, produced: seq<DateTime>)
    requires EveryValue(s) && days >= 1
    requires Chain(s, start, inclusive, days, first, current, produced) && |produced| >= 2
    ensures Matches(s, AddMinute(produced[0]))
    ensures produced[1] == AddMinute(AddMinute(produced[0]))
  {
    EveryValueMatches(s, AddMinute(produced[0]));
    EveryValueMatches(s, AddMinute(AddMinute(produced[0])));
    NextIsFollowingMinute(s, AddMinute(produced[0]), days);
  }

  /**
   * The stream `iter` describes: the first value is `next` from the start,
   * each later one is `next` (exclusive) from the value before it, and the
   * stream stops at the first failing search or after `n` values.
   */
  function Successive(s: Schedule, start: DateTime, inclusive: bool, days: int, n: nat): (r: seq<DateTime>)
    ensures |r| <= n
    ensures |r| > 0 ==> NextOccurrence(s, start, inclusive, days) == Success(r[0])
    ensures forall i :: 0 <= i < |r| ==> Matches(s, r[i])
    ensures forall i :: 0 <= i < |r| - 1 ==> NextOccurrence(s, r[i], false, days) == Success(r[i + 1])
    decreases n
  {
    if n == 0 then []
    else
      match NextOccurrence(s, start, inclusive, days)
      case Failure(_) => []
      case Success(t) => [t] + Successive(s, t, false, days, n - 1)
  }

  /** Consecutive values of the stream are separated only by minutes that do not match: no match is skipped. */
  lemma SuccessiveSkipsNothing(s: Schedule, start: DateTime, inclusive: bool, days: int, n: nat, i: nat)
    requires i + 1 < |Successive(s, start, inclusive, days, n)|
    ensures var r := Successive(s, start, inclusive, days, n);
            exists k :: && 1 <= k <= days * MinutesPerDay && r[i + 1] == AddMinutes(r[i], k)
                        && forall j :: 1 <= j < k ==> !Matches(s, AddMinutes(r[i], j))
  {
    var r := Successive(s, start, inclusive, days, n);
    var t := r[i];
    assert NextOccurrence(s, t, false, days) == Success(r[i + 1]);
    var k := FirstMatch(s, t, 1, days * MinutesPerDay).value;
    FirstMatchIsLeast(s, t, 1, days * MinutesPerDay);
    assert r[i + 1] == AddMinutes(t, k);
  }

  /** With a schedule that matches every minute, the stream yields consecutive minutes. */
  lemma EveryMinuteSuccessive(s: Schedule, start: DateTime, inclusive: bool, days: int, n: nat, i: nat)
    requires EveryValue(s) && days >= 1
    requires i + 1 < |Successive(s, start, inclusive, days, n)|
    ensures var r := Successive(s, start, inclusive, days, n);
            r[i + 1] == AddMinute(r[i])
  {
    var r := Successive(s, start, inclusive, days, n);
    EveryValueMatches(s, AddMinute(r[i]));
    NextIsFollowingMinute(s, r[i], days);
  }
}
