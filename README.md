# hv-utils core, modelled in Dafny

This project models the decision logic at the heart of `hv-utils` and proves
what it promises.

- **Cron schedules** (`src/hv_utils/cron.py`):
  - the field expander: literals, `*`, `A-B` ranges, `/step`, month and weekday names in any letter case, and 7 as another name for Sunday;
  - the five-field schedule builder `parse_cron`;
  - the matcher `cron_matches`, with the day-of-month / day-of-week OR rule of the POSIX `crontab` utility (IEEE Std 1003.1, section INPUT FILES);
  - the bounded minute-by-minute search `CronSchedule.next`;
  - the occurrence stream `CronSchedule.iter`, as written; the stream its docstring describes is modelled beside it (see "Findings").
  Timestamps are wall-clock records over the proleptic Gregorian calendar, with Python's `weekday()` converted to cron numbering.
- **String parsers** (`src/hv_utils/parse_str.py`): `parse_str`, `parse_bool`, `_split_items`, `parse_list`, `parse_set`, `parse_mapping` and `parse_bytes_size`. Byte sizes use decimal (1000^k) and binary (1024^k) units and require a whole number of bytes.
- **Environment helpers** (`src/hv_utils/parse_env.py`): `get_env` over an explicit `map<string, string>`, the handlers `raise_error` and `on_error_return_value`, `env_or_none`, `env_or_default`, and `_env_wrapper`, which is the body of every typed `env_*` helper.
- **License-banner tool** (`tools/copyright_header.py`): how it builds the banner, finds an existing one, reads its copyright line and splits off `#!`/coding lines. It also decides per file whether to insert, replace or leave alone, and `apply_header` applies that decision across the files.

The project has these modules:

| module | contents |
|---|---|
| `Wrappers` | `Option` and `Result` |
| `PyStr` | the Python `str` operations the code relies on, on ASCII digits and letters, with Python's whitespace |
| `Calendar` | timestamps, adding one minute, weekdays |
| `CronField` | the field expander |
| `Cron` | schedules, matching, `next`, and the `Occurrences` class for `iter` |
| `CronExamples` | worked cases from the repository's tests |
| `ParseStr` | the string parsers |
| `ParseEnv` | the environment helpers |
| `CopyrightHeader` | the license-banner tool |

How the model represents the source:

- **Loops become methods.** These are `next`'s loop, `_parse_expression`'s accumulation, `parse_mapping`'s dictionary filling, `_split_leading_metadata` and `apply_header`. Each is proved equal to a specification function, and the properties are proved about that function.
- **`iter` is a class.** Its generator state (`current`, `first`) lives in fields. Each `Advance` performs one step.
- **Errors are values.** Python exceptions become `Failure` values of `Result`.
- **Casts are functions.** A cast is a function returning a `Result`. An `on_error` handler is a function from the name and the optional raw value to a `Result`, so custom handlers are covered as well as the two built-in ones.

## Model

| member | source | states |
|---|---|---|
| Calendar.DaysInMonth | src/hv_utils/cron.py:119 | Every month has 28 to 31 days, and February has 29 exactly in Gregorian leap years. This is what adding a minute rolls over on. |
| Calendar.NextDay | src/hv_utils/cron.py:119 | Moving to the next calendar date leaves the time of day unchanged. |
| Calendar.OrdinalNextDay | src/hv_utils/cron.py:119 | The next date is the next day number, so no day is skipped or repeated across month and year ends. |
| Calendar.AddMinute | src/hv_utils/cron.py:119 | Adding one minute leaves seconds and microseconds alone. |
| Calendar.InstantAddMinute | src/hv_utils/cron.py:119 | Adding one minute moves the absolute instant forward by exactly sixty seconds, including when it carries into hour, day, month and year. |
| Calendar.InstantAddMinutes | src/hv_utils/cron.py:116-121 | Adding k minutes moves the instant forward by exactly k minutes. |
| Calendar.AddMinutesLast | src/hv_utils/cron.py:118-119 | Adding k + 1 minutes is adding k minutes and then one more. This is the loop's step. |
| Calendar.AddMinutesAdd | src/hv_utils/cron.py:146 | Adding j minutes and then k minutes is adding j + k minutes. |
| Calendar.LeapDayOrdinal | tests/test_cron.py:284-290 | 29 February exists only in leap years, and it is day 60 of its year. |
| Calendar.Weekday | src/hv_utils/cron.py:395 | `weekday()` lies in 0..6. |
| Calendar.CronWeekday | src/hv_utils/cron.py:388-395 | The cron weekday is `(weekday() + 1) % 7`: Sunday is 0, and every other day is one more than Python's number. |
| Calendar.CronWeekdayNextDay | src/hv_utils/cron.py:388-395 | Consecutive dates have consecutive cron weekdays, modulo 7. |
| Calendar.MondayExample | tests/test_cron.py:192-241 | Monday 13 January 2025 has cron weekday 1. |
| PyStr.LStripLeadingSpace | tools/copyright_header.py:94-95 | `lstrip()` removes exactly the leading whitespace. |
| PyStr.IndexFromIsFirst | src/hv_utils/parse_str.py:341-344 | `find` returns the first occurrence of the separator, and reports none only when there is none. |
| PyStr.JoinSplit | src/hv_utils/parse_str.py:401-402 | Joining the result of `split(sep)` with `sep` gives back the original string. |
| PyStr.SplitJoinChar | src/hv_utils/parse_str.py:401-402 | Splitting a join on a one-character separator that no piece contains gives the pieces back. |
| PyStr.SplitWhitespaceWords | src/hv_utils/cron.py:167 | Every field that `split()` returns is non-empty and free of whitespace. |
| PyStr.SplitWhitespaceJoin | tools/copyright_header.py:119-126 | `split()` of words joined by single spaces gives the words back. |
| PyStr.SplitWhitespaceRStrip | tools/copyright_header.py:116-119 | Stripping trailing whitespace does not change what `split()` returns. |
| PyStr.NatToStringRoundTrip | src/hv_utils/cron.py:286-287 | `str(n)` is a digit string, and reading it back gives n. |
| PyStr.PyIntOfIntToString | tools/copyright_header.py:123 | `int(str(i)) == i` for every integer. |
| CronField.NormalizeNames | src/hv_utils/cron.py:378-381 | Every key is upper-cased, and values and order are kept; a missing table is the empty one. |
| CronField.Lookup | src/hv_utils/cron.py:40-54 | A key is absent exactly when no entry carries it, and a value found belongs to an entry with that key. |
| CronField.Normalize | src/hv_utils/cron.py:384-385 | 7 becomes 0, and every other value is kept. |
| CronField.PyRange | src/hv_utils/cron.py:297 | `range(start, stop, step)` with step > 0 is strictly ascending and within `start..stop - 1`. It is non-empty exactly when start < stop, and then starts at `start`. |
| CronField.PyRangeMembers | src/hv_utils/cron.py:333 | A value is in the range exactly when it is within bounds and a whole number of steps from the start. |
| CronField.ExprToParts | src/hv_utils/cron.py:352-375 | An accepted token has a step of at least 1, and only a token holding `/` can be rejected. |
| CronField.ExprToPartsStep | src/hv_utils/cron.py:365-371 | `base/step` is accepted exactly when the step is all digits and positive, and it then yields that base and step. |
| CronField.ParseRange | src/hv_utils/cron.py:305-336 | An accepted range is non-empty, and all its values are in the field's bounds. |
| CronField.RangeValues | src/hv_utils/cron.py:328-336 | Once both bounds are read, an accepted range is non-empty, and all its values are in the field's bounds. |
| CronField.ParsePart | src/hv_utils/cron.py:268-302 | An accepted token denotes at least one value, and only allowed values. |
| CronField.NormalizedPart | src/hv_utils/cron.py:258-260 | A token's normalised values exist exactly when the token parses. They are its parsed values with the field's normaliser applied. |
| CronField.ExpandField | src/hv_utils/cron.py:254-265 | A failure carries the field text. A success is strictly ascending and within the field's bounds. |
| CronField.UnionAllDefined | src/hv_utils/cron.py:257-263 | The union of a field's tokens exists exactly when every token is well formed. |
| CronField.UnionAllMembers | src/hv_utils/cron.py:261 | A value is in the union exactly when some token's values hold it. |
| CronField.SortedWithin | src/hv_utils/cron.py:265 | `sorted()` of a set: strictly ascending, within the bounds, holding exactly the set's members inside the bounds. |
| CronField.ParseExpression | src/hv_utils/cron.py:254-265 | The accumulating loop returns exactly the field's expansion, or the error naming the field. |
| CronField.NormalizedPartInRange | src/hv_utils/cron.py:292-293 | Every value of a well-formed token is allowed after normalisation, and never 7 for Sunday. |
| CronField.TokenValuesInRange | src/hv_utils/cron.py:258-261 | Every well-formed token denotes at least one value, and only allowed values other than 7 for Sunday. |
| CronField.ExpandFieldFails | src/hv_utils/cron.py:262-263 | A field fails, with an error naming the field, exactly when one of its comma-separated tokens is malformed. |
| CronField.ExpandFieldShape | src/hv_utils/cron.py:254-265 | A parsed field is non-empty, strictly ascending (so duplicate-free), within the allowed values, and free of 7 for Sunday. |
| CronField.ExpandFieldMembers | src/hv_utils/cron.py:254-265 | A value is in a parsed field exactly when some token of the field denotes it after normalisation. |
| CronField.StandardFields | src/hv_utils/cron.py:32-54 | The five field ranges are well formed: non-empty, not negative, and starting at 0 where 7 means Sunday. Their name tables hold only letter words. |
| CronField.ResolvedName | src/hv_utils/cron.py:286-287 | A name in any letter case is replaced by the numeral of its table value. |
| CronField.ResolveName | src/hv_utils/cron.py:286-287 | A string that matches no name of the table, in any letter case, is kept as written. One that matches is replaced by the numeral of the value of an entry it matches. |
| CronField.UniqueNameResolves | src/hv_utils/cron.py:286-287 | A name that no other entry shares, in any letter case, is replaced by the numeral of its own value. |
| CronField.MonthNamesIgnoreCase | src/hv_utils/cron.py:41-54 | Every one of the twelve month names, written in any letter case, is replaced by the numeral of its month. |
| CronField.DayNamesIgnoreCase | src/hv_utils/cron.py:40 | Every one of the seven weekday names, written in any letter case, is replaced by the numeral of its day. |
| CronField.ParsePartNumeral | src/hv_utils/cron.py:289-294 | A numeral is its own value. It is accepted only when allowed. |
| CronField.ParsePartName | src/hv_utils/cron.py:286-294 | A name is the one value it stands for. It is accepted only when that value is allowed. |
| CronField.ParsePartStar | src/hv_utils/cron.py:296-297 | `*` alone is every allowed value. |
| CronField.ParsePartStarStep | src/hv_utils/cron.py:296-297 | `*/s` is lo, lo + s, … up to hi. It always holds lo, and a step wider than the range gives lo alone. |
| CronField.ParsePartBadStep | src/hv_utils/cron.py:365-371 | A step that is not all digits, or is not positive, is rejected whatever it is attached to. |
| CronField.ParsePartLiteralStep | src/hv_utils/cron.py:289-291 | A numeral or a name with a step other than 1 is rejected. |
| CronField.ParseRangeSides | src/hv_utils/cron.py:323-328 | `A-B` splits at its single dash. Each side is resolved as a name on its own and then read by `int()`. |
| CronField.RangeValuesSpec | src/hv_utils/cron.py:329-336 | A range is accepted exactly when both bounds are allowed and A ≤ B. Its values are then A, A + s, … up to B, starting with A. |
| CronField.ParsePartRange | src/hv_utils/cron.py:299-300 | `A-B` and `A-B/s`, with no further dash or slash and a valid step, go to the range parser with step 1 and s respectively. |
| CronField.SingleValueField | src/hv_utils/cron.py:254-265 | A field of one comma-free token that denotes one value, other than 7 for Sunday, is exactly that value. |
| CronField.MonthNameField | src/hv_utils/cron.py:286-294 | A month name alone, in any letter case, is the month field holding only its month. |
| CronField.DayNameField | src/hv_utils/cron.py:286-294 | A weekday name alone, in any letter case, is the day-of-week field holding only its day. |
| CronField.StarField | src/hv_utils/cron.py:254-265 | `*` alone always expands, and holds exactly the allowed values, 7 excepted where it names Sunday. |
| CronField.StarFieldSpans | src/hv_utils/cron.py:296-297 | The expansion of `*` alone is the whole range of a field, and 0..6 for day of week. |
| Cron.ParseCronOutcome | src/hv_utils/cron.py:150-186 | An expression parses exactly when it has five whitespace-separated fields and every field expands. The schedule then holds the five expansions, and any failure names the whole expression. |
| Cron.ParseCronWellFormed | src/hv_utils/cron.py:172-186 | Every field of a parsed schedule is non-empty, strictly ascending and in range, and day of week lies in 0..6. |
| Cron.ParseCron | src/hv_utils/cron.py:150-186 | Any failure names the whole expression. A parsed schedule comes from exactly five fields, and each of its fields is non-empty, strictly ascending and in range. |
| Cron.FullSet | src/hv_utils/cron.py:217-218 | The unrestricted values of a field are exactly lo..hi; for day of week, where 7 is Sunday, they are exactly 0..6. |
| Cron.IsWildcard | src/hv_utils/cron.py:217-218 | A field is a wildcard exactly when it holds every unrestricted value and nothing else, however it was written. |
| Cron.Matches | src/hv_utils/cron.py:189-230 | A time matches exactly when minute, hour and month are members and either both day fields are wildcards or some restricted day field holds the day. This is the POSIX rule, stated independently of the code's case split. |
| Cron.WildcardDayFieldsHoldAll | src/hv_utils/cron.py:218-219 | A wildcard day field holds every possible day, so it never rules a time out. |
| Cron.MatchesWithoutDayRestriction | src/hv_utils/cron.py:224-225 | With both day fields unrestricted, matching is plain membership of minute, hour and month. |
| Cron.MatchesExpression | src/hv_utils/cron.py:211 | A string expression is parsed first, and a malformed one is an error naming it. |
| Cron.FirstMatch | src/hv_utils/cron.py:118-121 | A probe it finds lies in the search window and matches. |
| Cron.FirstMatchIsLeast | src/hv_utils/cron.py:118-121 | The search finds the least matching probe, and fails only when no probe in the window matches. |
| Cron.NextOccurrence | src/hv_utils/cron.py:99-123 | A result matches. A result other than the start is start + k minutes for some k in 1..days·1440. A failure is the no-match error for `days` and `start`, and then an inclusive start does not match. |
| Cron.NextOccurrenceSpec | src/hv_utils/cron.py:99-123 | An inclusive start that matches is returned as is. Otherwise the result is start + k minutes for the least matching k in 1..days·1440, and no earlier probe matches. When there is none, the result is the no-match error carrying `days` and `start`. |
| Cron.NextOccurrenceNotBefore | src/hv_utils/cron.py:113-121 | A result matches the schedule. It is never before the start, and it is strictly later when the search is not inclusive. |
| Cron.Next | src/hv_utils/cron.py:113-123 | The minute-by-minute loop returns exactly the result that `next` specifies. |
| Cron.ChainExtends | src/hv_utils/cron.py:140-147 | A successful `next` from the stream's position extends the stream, keeping it a chain of `next` calls in strictly ascending order. |
| Cron.Occurrences.constructor | src/hv_utils/cron.py:137-138 | A new stream is at `start`, on its first step, and has yielded nothing. |
| Cron.Occurrences.Advance | src/hv_utils/cron.py:139-147 | Each step yields `next` from the current position, inclusive only on the first step, and then moves one minute past the value. The values so far stay a chain: the first is `next(start, inclusive)`, each later one is `next(previous + 1 minute)`, and they strictly ascend. |
| Cron.EveryValueMatches | src/hv_utils/cron.py:189-230 | A schedule holding every allowed value in every field matches every minute. |
| Cron.NextIsFollowingMinute | src/hv_utils/cron.py:113-121 | When the minute after the cursor matches, the exclusive search returns that minute. |
| Cron.IterSkipsAMinute | src/hv_utils/cron.py:137-147 | As written, with a schedule matching every minute, the second value is two minutes after the first, although the minute between them matches. |
| Cron.Successive | src/hv_utils/cron.py:126-134 | The stream the docstring describes: at most n values, all matching; the first is `next` from the start, and each later one is the exclusive `next` from the value before it. |
| Cron.SuccessiveSkipsNothing | src/hv_utils/cron.py:126-134 | Between two consecutive values of that stream no minute matches, so no matching datetime is skipped. |
| Cron.EveryMinuteSuccessive | src/hv_utils/cron.py:126-134 | With a schedule matching every minute, that stream yields consecutive minutes. |
| CronExamples.StarsAreWildcards | tests/test_cron.py:293-299 | The full lists 1..31 and 0..6, which `*` gives in the two day fields, count as wildcards. |
| CronExamples.SingleDayIsRestricted | tests/test_cron.py:192-241 | A single value never makes a day field a wildcard. |
| CronExamples.DayFieldsCombineWithOr | tests/test_cron.py:192-241 | With both day fields restricted, either one suffices: Monday 13 and Wednesday 15 January 2025 match at noon, and Tuesday 14 does not. |
| CronExamples.OnlyDayOfWeekDecides | tests/test_cron.py:192-241 | With day of month a wildcard, only day of week decides. |
| CronExamples.OnlyDayOfMonthDecides | tests/test_cron.py:192-241 | With day of week a wildcard, only day of month decides. |
| CronExamples.NoLeapDayWithin364Days | tests/test_cron.py:284-290 | No probe within 364 days after 1 March 2023 falls on a 29 February. |
| CronExamples.LeapDayBeyondHorizon | tests/test_cron.py:284-290 | With a 364-day horizon, the 29-February schedule finds nothing from 1 March 2023 and reports the no-match error. |
| CronExamples.FiveWords | src/hv_utils/cron.py:167 | Five words joined by single spaces split into those five fields. |
| CronExamples.MonthOutOfRangeRejected | tests/test_cron.py:170-189 | `0 0 1 13 *` is rejected with the error naming the expression. |
| CronExamples.LowerCaseNamesParsed | tests/test_cron.py:142-146 | `0 0 1 jan mon` parses to minute 0, hour 0, day 1, January and Monday. |
| CronExamples.StarsEveryValue | src/hv_utils/cron.py:150-186 | An expression of five star fields parses, to a schedule holding every value in every field. |
| CronExamples.AllStarsEveryValue | src/hv_utils/cron.py:150-186 | `* * * * *` parses to a schedule holding every value in every field, the schedule on which `iter` skips a minute. |
| ParseStr.ParseString | src/hv_utils/parse_str.py:95-102 | The input is returned unchanged. |
| ParseStr.TokensDisjoint | src/hv_utils/parse_str.py:66-67 | No token is both a true token and a false token. |
| ParseStr.ParseBool | src/hv_utils/parse_str.py:105-121 | The result is true exactly when the stripped, lower-cased input is a true token, and false exactly when it is a false token. Any other input is an error naming it. |
| ParseStr.ParseBoolUpperTrue | tests/test_parse_str.py:50-55 | `TRUE` is true. |
| ParseStr.ParseBoolZero | tests/test_parse_str.py:50-55 | `0` is false. |
| ParseStr.ParseBoolMaybe | tests/test_parse_str.py:50-55 | `maybe` is rejected. |
| ParseStr.SplitItems | src/hv_utils/parse_str.py:401-406 | Success means one item per piece of `split(sep)`, each stripped and non-empty. Failure means some stripped piece is empty. |
| ParseStr.SplitItemsRoundTrip | src/hv_utils/parse_str.py:401-406 | Items without surrounding whitespace join back, with the separator, into the original input. |
| ParseStr.SplitItemsOfStripped | src/hv_utils/parse_str.py:402 | When every piece is already stripped and non-empty, the items are the pieces themselves. |
| ParseStr.SplitItemsThree | tests/test_parse_str.py:126-130 | `a,b,c` splits into its three items. |
| ParseStr.SplitItemsEmptyMiddle | tests/test_parse_str.py:126-130 | `a,,b` is rejected because its middle item is empty. |
| ParseStr.CastAll | src/hv_utils/parse_str.py:305 | The cast succeeds exactly when every item casts. It then keeps order and count. On failure, the error is that of the first item rejected. |
| ParseStr.ParseList | src/hv_utils/parse_str.py:294-305 | A splitting error is passed on. The list exists exactly when every stripped item casts; element i is then the cast of item i, in order and with repetitions kept. Otherwise the error is that of the first item rejected. |
| ParseStr.ParseListDefault | src/hv_utils/parse_str.py:304 | With the default cast, the list is the stripped items themselves. |
| ParseStr.ParseSet | src/hv_utils/parse_str.py:308-319 | It succeeds exactly when `parse_list` does, and a failure carries the same error. The set then holds exactly the casts of the stripped items. |
| ParseStr.ParseSetOfList | src/hv_utils/parse_str.py:308-319 | `parse_set` and `parse_list` accept the same inputs, and the set holds exactly the list's elements. |
| ParseStr.KeyValue | src/hv_utils/parse_str.py:345-349 | An empty stripped key is an error. Otherwise the entry is the stripped key with the cast of the stripped value. |
| ParseStr.ParsePair | src/hv_utils/parse_str.py:341-349 | An empty separator is rejected. A pair without the separator is an error naming both. An accepted pair has a non-empty key. |
| ParseStr.ParsePairSplitsAtFirst | src/hv_utils/parse_str.py:344 | A pair is cut at the first separator only. The value is the stripped rest, which may hold further separators. |
| ParseStr.ParsePairAt | src/hv_utils/parse_str.py:344 | Where `find` locates the separator, the pair is cut there. |
| ParseStr.ParsePairs | src/hv_utils/parse_str.py:340 | Each pair is parsed on its own, one result per pair. |
| ParseStr.FoldPairs | src/hv_utils/parse_str.py:339-350 | The fold succeeds exactly when every pair parsed. |
| ParseStr.LastWithKey | src/hv_utils/parse_str.py:349 | Returns the index of the last pair carrying the key, when there is one. |
| ParseStr.FoldPairsLastWins | src/hv_utils/parse_str.py:349 | Each key maps to the value of the last pair carrying it, so later duplicates overwrite earlier ones, and the dictionary holds no other key. |
| ParseStr.FoldPairsFirstError | src/hv_utils/parse_str.py:340-348 | A failing fold reports the error of the first pair that fails. |
| ParseStr.FoldPairsFailsFrom | src/hv_utils/parse_str.py:340-348 | Once a prefix of the pairs fails, the whole mapping fails with that error. |
| ParseStr.MappingOf | src/hv_utils/parse_str.py:322-350 | A splitting error is passed on. Otherwise the items are parsed as pairs and folded into the dictionary. |
| ParseStr.ParseMapping | src/hv_utils/parse_str.py:338-350 | The loop that fills the dictionary one pair at a time returns exactly `MappingOf`. |
| ParseStr.Power | src/hv_utils/parse_str.py:68-89 | `base ** k` is positive for a positive base. |
| ParseStr.UnitMultiplier | src/hv_utils/parse_str.py:280-286 | A unit is known exactly when its upper-cased form is in the decimal or the binary table, and its multiplier is at least 1. |
| ParseStr.DecimalUnit | src/hv_utils/parse_str.py:68-79 | `''` and `B` multiply by 1; the k-th prefix, alone or followed by `B`, multiplies by 1000^k, in any letter case. |
| ParseStr.BinaryUnit | src/hv_utils/parse_str.py:80-89 | The k-th prefix followed by `I` or `IB` multiplies by 1024^k, in any letter case. |
| ParseStr.UnitTablesDisjoint | src/hv_utils/parse_str.py:281-283 | No unit is in both tables, so the lookup order never hides a binary multiplier. |
| ParseStr.UnitMultiplierIgnoresCase | src/hv_utils/parse_str.py:280 | Upper- and lower-case spellings of a unit have the same multiplier. |
| ParseStr.ScanNumber | src/hv_utils/parse_str.py:91 | The scanned number has a non-empty run of digits before any point, and only digits after it. |
| ParseStr.ScanSize | src/hv_utils/parse_str.py:91 | A match is a well-formed literal: a digit run, an optional point followed by digits, and a unit of at most three ASCII letters. |
| ParseStr.ScanSizeOfText | src/hv_utils/parse_str.py:91 | The scanner recovers the groups of every literal the pattern describes: whitespace, number with or without fraction, whitespace, unit of at most three letters, whitespace. |
| ParseStr.ScanSizeText | src/hv_utils/parse_str.py:91 | The converse: every input the scanner accepts is whitespace, the number, whitespace, the unit and whitespace, so it accepts exactly the literals the pattern describes. |
| ParseStr.ExactQuotient | src/hv_utils/parse_str.py:287-291 | The quotient exists exactly when the division is exact, and it then times the divisor gives the product back. |
| ParseStr.ParseBytesSize | src/hv_utils/parse_str.py:265-291 | A failure is one of the three errors (invalid literal, unknown unit, fractional bytes), each naming the input. |
| ParseStr.ParseBytesSizeOutcome | src/hv_utils/parse_str.py:265-291 | There are four outcomes: a literal the pattern rejects; an unknown unit; a product that is not a whole number of bytes; or n bytes with n · 10^|fraction| equal to the number's digits times the multiplier. |
| ParseStr.WholeNumberOfUnits | src/hv_utils/parse_str.py:287-291 | A whole number of units is always a whole number of bytes, namely number × multiplier, unless the unit is unknown. |
| ParseStr.FractionalNumberOfUnits | src/hv_utils/parse_str.py:287-291 | `m.f` units are (m·10^\|f\| + f) × multiplier / 10^\|f\| bytes when that divides; otherwise the result is the fractional-bytes error. |
| ParseStr.WholeUnits | tests/test_parse_str.py:115-123 | Digits directly followed by a known unit give that many times its multiplier. |
| ParseStr.UnknownUnits | src/hv_utils/parse_str.py:284-286 | Digits directly followed by an unknown unit fail, naming the input. |
| ParseStr.TenMegabytesExample | tests/test_parse_str.py:115-123 | `10MB` is 10 000 000 bytes. |
| ParseStr.OneGibibyteExample | tests/test_parse_str.py:115-123 | `1Gi` is 1024^3 bytes. |
| ParseStr.TenUnknownUnitsExample | tests/test_parse_str.py:115-123 | `10XB` names no unit. |
| ParseStr.OneAndAHalfBytesExample | tests/test_parse_str.py:115-123 | `1.5B` is not a whole number of bytes. |
| ParseEnv.RaiseError | src/hv_utils/parse_env.py:84-97 | Always fails. With no raw value it reports the variable missing; otherwise it reports the raw value invalid. |
| ParseEnv.OnErrorReturnValue | src/hv_utils/parse_env.py:100-116 | The handler returns the given value, whatever it is called with. |
| ParseEnv.GetEnv | src/hv_utils/parse_env.py:119-158 | A present variable whose cast succeeds gives the cast value. A failed cast gives `on_error(name, raw)`. A missing variable gives the default when there is one, and `on_error(name, None)` otherwise. |
| ParseEnv.GetEnvIgnoresHandler | src/hv_utils/parse_env.py:150-156 | A missing variable with a default, or a valid variable, never consults the handler. |
| ParseEnv.GetEnvRaises | tests/test_env_helpers.py:109-115 | With the default handler, a missing variable without a default is a missing error, and an invalid one is an invalid error with its raw value. |
| ParseEnv.EnvOrNone | src/hv_utils/parse_env.py:161-173 | Never fails. The result is the cast value when the variable is present and valid, and None otherwise. |
| ParseEnv.EnvOrDefault | src/hv_utils/parse_env.py:176-191 | Never fails. The result is the cast value when the variable is present and valid, and the default otherwise. |
| ParseEnv.EnvWrapper | src/hv_utils/parse_env.py:451-470 | A valid variable gives its value. A required variable that is missing or invalid fails with the matching error. An optional one falls back to the default in both cases. |
| ParseEnv.OptionalNeverFails | src/hv_utils/parse_env.py:468-470 | An optional variable never makes the wrapper fail. |
| ParseEnv.RequiredFailsIffUnusable | src/hv_utils/parse_env.py:468-470 | A required variable makes the wrapper fail exactly when it is missing or invalid. |
| ParseEnv.EnvOrNoneIsOptionalWrapper | src/hv_utils/parse_env.py:173 | `env_or_none` is the optional wrapper whose default is None. |
| ParseEnv.InvalidBoolGoesToHandler | tests/test_env_helpers.py:83-92 | A value `parse_bool` rejects goes to the handler with its raw text. With the raising handler that is an invalid error; with a handler returning False the result is False. |
| CopyrightHeader.MetadataLength | tools/copyright_header.py:130-139 | At most two leading lines are metadata, and never more than the file has. |
| CopyrightHeader.MetadataLengthSpec | tools/copyright_header.py:133-138 | A `#!` line is taken only first, and it is always taken there. At most one coding line is taken, directly after it. Nothing else is taken: the first line left is a coding line only if one was already taken. |
| CopyrightHeader.SplitLeadingMetadata | tools/copyright_header.py:130-139 | Metadata followed by the rest is exactly the original lines, split where `MetadataLengthSpec` says. |
| CopyrightHeader.HasHeader | tools/copyright_header.py:94-95 | A text has a banner exactly when some whitespace prefix of it is followed by a rule line. |
| CopyrightHeader.HasHeaderAfterSpace | tools/copyright_header.py:94-95 | Leading whitespace does not hide a banner. |
| CopyrightHeader.NoHeaderWithoutRule | tools/copyright_header.py:94-95 | Text that starts with something other than whitespace or a rule has no banner. |
| CopyrightHeader.FirstRuleFrom | tools/copyright_header.py:108 | The index found is the first rule line at or after the start. The search fails only when there is none. |
| CopyrightHeader.ExtractHeaderBlock | tools/copyright_header.py:98-112 | A block exists exactly when line 0 is a rule and some later line is too. It ends at the first such later line, and its text is lines 0..end joined with a trailing newline. |
| CopyrightHeader.ParseCopyrightLine | tools/copyright_header.py:115-127 | A result means three things: the cleaned line starts with the copyright marker; it has at least four parts, the third an integer that is the year; and the author is the remaining parts joined by single spaces. |
| CopyrightHeader.PrepareBody | tools/copyright_header.py:166-183 | With no banner, the result is the target lines, a blank line and the body. A banner is replaced only if it differs from the target and names the same author with another year; otherwise the file is left alone. |
| CopyrightHeader.ContributionLine | tools/copyright_header.py:66 | Every contribution line starts with the comment mark, the indent and a dash. |
| CopyrightHeader.BuildHeader | tools/copyright_header.py:54-69 | The banner text ends with a newline. |
| CopyrightHeader.TargetLines | tools/copyright_header.py:150 | `splitlines()` of newline-separated text gives no lines exactly when the text is empty. |
| CopyrightHeader.HeaderLinesSingle | tools/copyright_header.py:28-37 | Every line of a banner built from single-line fields is a single line. |
| CopyrightHeader.BuildHeaderLines | tools/copyright_header.py:54-69 | With at least one contribution, the banner is its lines joined with a final newline. Reading it back line by line gives exactly those lines. |
| CopyrightHeader.ContributionLinesInOrder | tools/copyright_header.py:61-69 | The banner has exactly one contribution line per contribution, in order, and no other line of it looks like one. |
| CopyrightHeader.CopyrightLineRoundTrip | tools/copyright_header.py:115-127 | The banner's copyright line parses back to its year and to the author's words joined by single spaces, for any author; an author with no words gives no result. |
| CopyrightHeader.MetaOf | tools/copyright_header.py:173-174 | There is a result only for a list of at least two lines, and it is the parse of line 1. There is none exactly when the list is shorter or line 1 does not parse. |
| CopyrightHeader.MetaOfHeader | tools/copyright_header.py:173 | The target banner's second line gives its year and its author's words joined by single spaces, and nothing when the author has no words. |
| CopyrightHeader.CopyrightLinesDiffer | tools/copyright_header.py:175 | Copyright lines with different years or different authors differ. |
| CopyrightHeader.RuleLinesOfHeader | tools/copyright_header.py:28-37 | Only the first and the last line of a banner are rule lines. |
| CopyrightHeader.BannerBlock | tools/copyright_header.py:167-172 | A body that opens with a banner yields that banner as its block, closing at the banner's last line. |
| CopyrightHeader.DifferentBanners | tools/copyright_header.py:175 | Banners with different years or different authors differ, for any authors. |
| CopyrightHeader.InsertedBannerLeads | tests/test_copyright_header.py:18-36 | A body without a banner gets the banner, a blank line and then the body, so its text starts with the header. |
| CopyrightHeader.SameBannerLeftAlone | tools/copyright_header.py:175-176 | A body that already opens with the target banner is left alone. |
| CopyrightHeader.StaleYearReplaced | tests/test_copyright_header.py:71-100 | A banner with another year, whose author has the same words as the target's, is replaced by the target banner, and everything after the old banner is kept. |
| CopyrightHeader.OtherAuthorLeftAlone | tests/test_copyright_header.py:39-68 | A banner whose author has other words than the target's is left alone, whatever its year and whatever the target is. |
| CopyrightHeader.PrepareBodyIdempotent | tools/copyright_header.py:166-183 | A second run over the tool's own output changes nothing. |
| CopyrightHeader.UpdatedText | tools/copyright_header.py:152-161 | A file is rewritten exactly when its body after the metadata gets a new body. A rewritten file that ended with a newline still does. |
| CopyrightHeader.MetadataStaysFirst | tools/copyright_header.py:154-161 | A file without a banner becomes its metadata, the banner, a blank line and its body, so its text starts with the metadata followed by the banner, or with the banner when there is no metadata. |
| CopyrightHeader.DecideFile | tools/copyright_header.py:152-161 | One file's loop body returns exactly `UpdatedText` for that file. |
| CopyrightHeader.Decisions | tools/copyright_header.py:151-162 | There is one decision per file. |
| CopyrightHeader.DecisionAt | tools/copyright_header.py:151-162 | Decision i depends on file i alone. |
| CopyrightHeader.CollectSpec | tools/copyright_header.py:156-162 | The collected changes name each file at most once, in increasing order, exactly the files to rewrite, each with its new text. |
| CopyrightHeader.UpdatesSpec | tools/copyright_header.py:142-163 | The tool rewrites each file at most once, in file order: exactly the files whose decision is to rewrite them, each with its target text. |
| CopyrightHeader.ApplyHeader | tools/copyright_header.py:142-163 | The loop over the files returns exactly `Updates`: the rewritten files, in order, each with the text written to it. |

## Left out

- Time zones and daylight saving: timestamps are wall-clock values, and adding a minute never crosses a DST change.
- The `datetime` upper bound: years are unbounded, so the `OverflowError` past year 9999 is not modelled.
- Sub-minute fields: seconds and microseconds are carried unchanged and play no part in matching.
- The `isinstance` check in `cron_matches` that raises `TypeError` for a non-datetime: Dafny's types rule that input out.
- The polymorphic first argument of `cron_matches`: `Cron.Matches` takes a schedule, and `Cron.MatchesExpression` takes a string.
- `CronSchedule.from_exp`, `matches` and `dow`: each is a one-line delegation to `ParseCron`, `Matches` or the day-of-week field.
- Error message texts: errors are constructors carrying the offending input, name or raw value.
- Unicode behaviour of `str.isdigit`, `upper`, `lower` and `int()`: digits and letters are ASCII only. Whitespace is Python's full `isspace` set, the characters `split()`, `strip()` and `\s` use.
- Python's limit on integer string conversion: in the Python versions the source needs (3.12 and later), `int()` of a string with more than 4300 digits raises `ValueError` unless the limit is changed with `sys.set_int_max_str_digits`, and so does `str()` or formatting of an integer that long. The model's integers convert at any length. The members below hold only for digit strings of at most 4300 digits; past that, the source fails where the model succeeds.
- PyStr.PyInt: accepts any number of digits. In the source `int()` raises past 4300 digits.
- PyStr.PyIntOfIntToString: holds for every integer here. In the source `str(i)` itself raises once `i` has more than 4300 digits.
- CronField.ExprToParts: accepts a step of any length. In the source a step of more than 4300 digits fails at `int()` (src/hv_utils/cron.py:369), and the field is reported invalid.
- CronField.ParsePart: accepts a literal of any length, such as 4999 zeros and then `5`. In the source a literal or range bound of more than 4300 digits fails at `int()` (src/hv_utils/cron.py:292 and 328).
- CronField.ParseRange: accepts range bounds of any length, under the same limit as `ParsePart`.
- CopyrightHeader.ParseCopyrightLine: accepts a year of any length. In the source a year of more than 4300 digits makes `int()` raise, the line parses to None (tools/copyright_header.py:123-125), and `_prepare_body` then leaves the file alone.
- `Decimal`'s 28-digit context in `parse_bytes_size`: the model uses exact integer arithmetic, so literals whose product exceeds 28 significant digits may round in the source but not here.
- `str.splitlines` line terminators other than `\n`: `TargetLines` splits on `\n` only, and a file is given as lines plus a flag for a trailing newline.
- File I/O, path walking and the command line in the license-banner tool: `read_text`, `write_text`, `_iter_python_files`, `_pyproject_defaults`, `parse_args`, `main` and logging. `apply_header` takes the files' contents and returns the texts to write, with their indices instead of paths. The files are taken to be distinct paths, all read before any is written. In the source each path is read just before it is written, so a path listed twice (as `--paths src src/hv_utils` can make `_iter_python_files` yield it) is read again after its first rewrite; `_prepare_body` then returns None, as `PrepareBodyIdempotent` shows, and the source reports that file once. The model, given the same contents twice, reports it twice.
- `_has_header` is modelled as `HasHeader` with its lemmas, but `apply_header` never calls it, so it plays no part in `ApplyHeader`.
- `os.environ`: the environment is always an explicit map.
- The typed `env_*` helpers and the other `parse_*` functions: `parse_int`, `parse_float`, `parse_decimal`, `parse_enum`, `parse_path`, `parse_url`, `parse_timedelta`, `parse_datetime`, `parse_json`, `parse_json_typed` and `parse_base64_*`. They are thin wrappers over standard-library parsers or floats, and each `env_*` helper is `EnvWrapper` with one of them as its cast.
- Exceptions other than `ValueError` and `TypeError` from a cast: such exceptions propagate out of `get_env` in the source, and the model's casts cannot raise them.
- `src/hv_utils/expiration.py`, `src/hv_utils/sentinel.py`, `src/hv_utils/hv_types.py`, `src/hv_utils/__init__.py` and `tools/release_tag.py` are not part of this model. They are float timestamps and clocks, Python object-model machinery, type aliases, and a TOML read.
- CopyrightHeader.BuildHeaderLines: proved only for configurations with at least one contribution and with single-line author, project and items. An empty contribution list leaves an empty line in the source's banner, and a field holding a newline changes the line count.
- CopyrightHeader.MetadataStaysFirst: stated for banners built by `BuildHeader` from such configurations, not for arbitrary header text.
- CopyrightHeader.UpdatedText: its own contract states when a file is rewritten and that the trailing newline is kept. The rewritten text itself is stated by `MetadataStaysFirst` for files without a banner.
- Cron.Occurrences.Advance: the infinite generator is a cursor that is stepped explicitly. A failing search ends the stream, and later steps report exhaustion, as a Python generator does after raising.
- ParseStr.ParseBytesSize: its own contract states only which errors it can report. The meaning of the result is stated by `ParseBytesSizeOutcome` and the lemmas after it.
- CopyrightHeader.TargetLines: its own contract states only the empty case. `BuildHeaderLines` states the lines for the banners the tool builds.

## Findings

| source | as written | input that shows it | evidently intended | confidence | as-written member | corrected member |
|---|---|---|---|---|---|---|
| src/hv_utils/cron.py:137-147 | `iter` moves its cursor one minute past each value and then searches exclusively, so the minute right after a value is never yielded | `* * * * *` parses to a schedule holding every value (`CronExamples.AllStarsEveryValue`), which matches every minute, and `iter` yields every other minute of it | successive matching datetimes, as the docstring at lines 126 and 133-134 says | not executed | Cron.IterSkipsAMinute | Cron.SuccessiveSkipsNothing |
