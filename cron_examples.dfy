/**
 * Concrete schedules and dates from the cron evaluator's documented
 * behaviour: the day-of-month / day-of-week OR rule on a few dates in
 * January 2025, and a leap-day schedule that cannot fire within 364 days.
 */
module CronExamples {
  import opened Wrappers
  import opened PyStr
  import opened Calendar
  import opened CronField
  import opened Cron

  /** Every month, 1..12, as `*` expands in the month field. */
  const AllMonths: seq<int> := [1, 2, 3, 4, 5, 6, 7, 8, 9, 10, 11, 12]
  /** Every day of the month, 1..31, as `*` expands in the day-of-month field. */
  const AllDays: seq<int> := [1, 2, 3, 4, 5, 6, 7, 8, 9, 10, 11, 12, 13, 14, 15, 16,
                              17, 18, 19, 20, 21, 22, 23, 24, 25, 26, 27, 28, 29, 30, 31]
  /** Every weekday, 0..6, as `*` expands in the day-of-week field once 7 is folded onto 0. */
  const AllWeekdays: seq<int> := [0, 1, 2, 3, 4, 5, 6]

  /** The expansions of `*` in the two day fields count as wildcards. */
  lemma StarsAreWildcards()
    ensures IsWildcard(AllDays, DayOfMonthField)
    ensures IsWildcard(AllWeekdays, DayOfWeekField)
  {
    var days := set v | v in AllDays;
    forall x | x in FullSet(DayOfMonthField)
      ensures x in days
    {
      assert x in AllDays;
    }
    forall x | x in days
      ensures x in FullSet(DayOfMonthField)
    {
      assert Normalize(DayOfMonthField, x) == x;
    }
    var weekdays := set v | v in AllWeekdays;
    forall x | x in FullSet(DayOfWeekField)
      ensures x in weekdays
    {
      assert x in AllWeekdays;
    }
    forall x | x in weekdays
      ensures x in FullSet(DayOfWeekField)
    {
      assert Normalize(DayOfWeekField, x) == x;
    }
  }

  /** A single restricted value never makes a day field a wildcard. */
  lemma SingleDayIsRestricted(d: int, w: int)
    ensures !IsWildcard([d], DayOfMonthField)
    ensures !IsWildcard([w], DayOfWeekField)
  {
    var other := if d == 1 then 2 else 1;
    assert Normalize(DayOfMonthField, other) == other;
    assert other in FullSet(DayOfMonthField);
    var otherDay := if w == 1 then 2 else 1;
    assert Normalize(DayOfWeekField, otherDay) == otherDay;
    assert otherDay in FullSet(DayOfWeekField);
  }

  /** `0 12 15 * 1`: noon on the 15th or on any Monday. */
  const NoonFifteenthOrMonday: Schedule := Schedule([0], [12], [15], AllMonths, [1])

  /**
   * With both day fields restricted either one suffices: Monday 13 January
   * and Wednesday 15 January 2025 match at noon, Tuesday 14 January does not.
   */
  lemma DayFieldsCombineWithOr()
    ensures Matches(NoonFifteenthOrMonday, Timestamp(2025, 1, 13, 12, 0, 0, 0))
    ensures Matches(NoonFifteenthOrMonday, Timestamp(2025, 1, 15, 12, 0, 0, 0))
    ensures !Matches(NoonFifteenthOrMonday, Timestamp(2025, 1, 14, 12, 0, 0, 0))
  {
    SingleDayIsRestricted(15, 1);
    MidJanuaryWeekdays(12);
  }

  /** `0 9 * * 1`: nine o'clock on Mondays. */
  const NineOnMondays: Schedule := Schedule([0], [9], AllDays, AllMonths, [1])

  /** `0 9 1 * *`: nine o'clock on the 1st. */
  const NineOnTheFirst: Schedule := Schedule([0], [9], [1], AllMonths, AllWeekdays)

  /** 13 and 14 January 2025 are a Monday and a Tuesday. */
  lemma MidJanuaryWeekdays(hour: int)
    requires 0 <= hour < 24
    ensures CronWeekday(Timestamp(2025, 1, 13, hour, 0, 0, 0)) == 1
    ensures CronWeekday(Timestamp(2025, 1, 14, hour, 0, 0, 0)) == 2
  {
    assert DaysBeforeYear(2025) == 739251;
  }

  /** With the day of month a wildcard, only the day of week decides: Monday matches, Tuesday does not. */
  lemma OnlyDayOfWeekDecides()
    ensures Matches(NineOnMondays, Timestamp(2025, 1, 13, 9, 0, 0, 0))
    ensures !Matches(NineOnMondays, Timestamp(2025, 1, 14, 9, 0, 0, 0))
  {
    StarsAreWildcards();
    SingleDayIsRestricted(1, 1);
    MidJanuaryWeekdays(9);
  }

  /** With the day of week a wildcard, only the day of month decides: the 1st matches, the 2nd does not. */
  lemma OnlyDayOfMonthDecides()
    ensures Matches(NineOnTheFirst, Timestamp(2025, 1, 1, 9, 0, 0, 0))
    ensures !Matches(NineOnTheFirst, Timestamp(2025, 1, 2, 9, 0, 0, 0))
  {
    StarsAreWildcards();
    SingleDayIsRestricted(1, 1);
  }

  /** `0 0 29 2 *`: midnight on 29 February. */
  const LeapDayMidnight: Schedule := Schedule([0], [0], [29], [2], AllWeekdays)

  /** 1 March 2023, the first day after a February without a 29th. */
  const March2023: DateTime := Timestamp(2023, 3, 1, 0, 0, 0, 0)

  /**
   * No probe within 364 days of 1 March 2023 falls on a 29 February: the
   * next one, in 2024, is 365 days away, and every earlier one is in the past.
   */
  lemma NoLeapDayWithin364Days(k: nat)
    requires k <= 364 * MinutesPerDay
    ensures !(AddMinutes(March2023, k).month == 2 && AddMinutes(March2023, k).day == 29)
  {
    var t := AddMinutes(March2023, k);
    InstantAddMinutes(March2023, k);
    InstantSplit(t);
    var o0 := Ordinal(March2023);
    assert o0 == DaysBeforeYear(2023) + 60;
    assert Instant(March2023) == (o0 - 1) * MicrosPerDay;
    assert o0 <= Ordinal(t) <= o0 + 364;
    if t.month == 2 && t.day == 29 {
      LeapDayOrdinal(t);
      DaysBeforeNextYear(2022);
      DaysBeforeNextYear(2023);
      if t.year <= 2023 {
        DaysBeforeYearMonotone(t.year, 2022);
      } else {
        DaysBeforeYearMonotone(2024, t.year);
      }
      assert false;
    }
  }

  /**
   * With a 364-day horizon the leap-day schedule finds nothing from
   * 1 March 2023 and reports the no-match error; the minute-by-minute walk
   * uses real month lengths, so it cannot land on a 29 February that does
   * not exist.
   */
  lemma LeapDayBeyondHorizon()
    ensures NextOccurrence(LeapDayMidnight, March2023, false, 364) == Failure(NoMatch(364, March2023))
  {
    StarsAreWildcards();
    SingleDayIsRestricted(29, 0);
    var r := FirstMatch(LeapDayMidnight, March2023, 1, 364 * MinutesPerDay);
    if r.Some? {
      NoLeapDayWithin364Days(r.value);
      assert false;
    }
  }

  /** Five words separated by single spaces split into those words. */
  lemma FiveWords(a: string, b: string, c: string, d: string, e: string)
    requires IsWord(a) && IsWord(b) && IsWord(c) && IsWord(d) && IsWord(e)
    ensures SplitWhitespace(a + " " + (b + " " + (c + " " + (d + " " + e)))) == [a, b, c, d, e]
  {
    var ws := [a, b, c, d, e];
    assert Join([e], " ") == e;
    JoinCons(d, [e], " ");
    assert [d] + [e] == [d, e];
    JoinCons(c, [d, e], " ");
    assert [c] + [d, e] == [c, d, e];
    JoinCons(b, [c, d, e], " ");
    assert [b] + [c, d, e] == [b, c, d, e];
    JoinCons(a, [b, c, d, e], " ");
    assert [a] + [b, c, d, e] == ws;
    SplitWhitespaceJoin(ws);
  }

  /** `0 0 1 13 *`: the month field names a thirteenth month. */
  const MonthOutOfRange: string := "0 0 1 13 *"

  /** The month-out-of-range expression has five fields, the fourth `13`. */
  lemma MonthOutOfRangeFields()
    ensures SplitWhitespace(MonthOutOfRange) == ["0", "0", "1", "13", "*"]
  {
    assert MonthOutOfRange == "0" + " " + ("0" + " " + ("1" + " " + ("13" + " " + "*")));
    FiveWords("0", "0", "1", "13", "*");
  }

  /** `13` is no month. */
  lemma ThirteenIsNoMonth()
    ensures ExpandField("13", MonthField).Failure?
  {
    StandardFields();
    assert DigitsValue("13") == 13;
    ParsePartNumeral(MonthField, "13");
    SplitNoChar("13", ',');
    assert Split("13", ",") == ["13"];
    ExpandFieldFails("13", MonthField);
  }

  /** An expression with a month outside 1..12 is rejected, and the error names the whole expression. */
  lemma MonthOutOfRangeRejected()
    ensures ParseCron(MonthOutOfRange) == Failure(InvalidExpression(MonthOutOfRange))
  {
    MonthOutOfRangeFields();
    ThirteenIsNoMonth();
    ParseCronOutcome(MonthOutOfRange);
  }

  /** `0 0 1 jan mon`: names in lower case. */
  const LowerCaseNames: string := "0 0 1 jan mon"

  /** The lower-case expression has five fields. */
  lemma LowerCaseNamesFields()
    ensures SplitWhitespace(LowerCaseNames) == ["0", "0", "1", "jan", "mon"]
  {
    assert LowerCaseNames == "0" + " " + ("0" + " " + ("1" + " " + ("jan" + " " + "mon")));
    FiveWords("0", "0", "1", "jan", "mon");
  }

  /** The numerals 0 and 1 expand to themselves in the minute, hour and day-of-month fields. */
  lemma NumeralFields()
    ensures ExpandField("0", MinuteField) == Success([0])
    ensures ExpandField("0", HourField) == Success([0])
    ensures ExpandField("1", DayOfMonthField) == Success([1])
  {
    StandardFields();
    assert DigitsValue("0") == 0 && DigitsValue("1") == 1;
    ParsePartNumeral(MinuteField, "0");
    ParsePartNumeral(HourField, "0");
    ParsePartNumeral(DayOfMonthField, "1");
    SingleValueField("0", MinuteField, 0);
    SingleValueField("0", HourField, 0);
    SingleValueField("1", DayOfMonthField, 1);
  }

  /** `jan` is January. */
  lemma JanuaryField()
    ensures ExpandField("jan", MonthField) == Success([1])
  {
    assert Upper("jan") == "JAN";
    MonthNameField(0, "jan");
  }

  /** `mon` is Monday. */
  lemma MondayField()
    ensures ExpandField("mon", DayOfWeekField) == Success([1])
  {
    assert Upper("mon") == "MON";
    DayNameField(1, "mon");
  }

  /** Month and weekday names are read without regard to letter case: January and Monday, at midnight on the 1st. */
  lemma LowerCaseNamesParsed()
    ensures ParseCron(LowerCaseNames) == Success(Schedule([0], [0], [1], [1], [1]))
  {
    LowerCaseNamesFields();
    NumeralFields();
    JanuaryField();
    MondayField();
    ParseCronOutcome(LowerCaseNames);
  }

  /** The expression made of five stars. */
  const AllStars: string := "* * * * *"

  /** The five-star expression has five fields, each a star. */
  lemma AllStarsFields()
    ensures SplitWhitespace(AllStars) == ["*", "*", "*", "*", "*"]
  {
    assert AllStars == "*" + " " + ("*" + " " + ("*" + " " + ("*" + " " + "*")));
    FiveWords("*", "*", "*", "*", "*");
  }

  /** An expression of five star fields parses to a schedule holding every value in every field. */
  lemma StarsEveryValue(expression: string)
    requires SplitWhitespace(expression) == ["*", "*", "*", "*", "*"]
    ensures ParseCron(expression).Success? && EveryValue(ParseCron(expression).value)
  {
    var parts := SplitWhitespace(expression);
    assert parts[0] == "*" && parts[1] == "*" && parts[2] == "*" && parts[3] == "*" && parts[4] == "*";
    StandardFields();
    StarFieldMembers(MinuteField, parts[0]);
    StarFieldMembers(HourField, parts[1]);
    StarFieldMembers(DayOfMonthField, parts[2]);
    StarFieldMembers(MonthField, parts[3]);
    StarFieldMembers(DayOfWeekField, parts[4]);
    ParseCronOutcome(expression);
    var s := ParseCron(expression).value;
    StarFieldSpans(MinuteField, parts[0], s.minute);
    StarFieldSpans(HourField, parts[1], s.hour);
    StarFieldSpans(DayOfMonthField, parts[2], s.dayOfMonth);
    StarFieldSpans(MonthField, parts[3], s.month);
    StarFieldSpans(DayOfWeekField, parts[4], s.dayOfWeek);
  }

  /** Five stars parse to a schedule holding every value in every field, the schedule on which `iter` skips a minute. */
  lemma AllStarsEveryValue()
    ensures ParseCron(AllStars).Success? && EveryValue(ParseCron(AllStars).value)
  {
    AllStarsFields();
    StarsEveryValue(AllStars);
  }
}
