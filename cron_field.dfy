/**
 * The cron field expander: one comma-separated field (`*`, literals, `A-B`
 * ranges, `/step`, month and weekday names, 7 for Sunday) becomes the sorted,
 * duplicate-free list of integers it denotes.
 */
module CronField {
  import opened Wrappers
  import opened PyStr

  /** A name table as a Python dict literal: (name, value) entries in insertion order. */
  type NameTable = seq<(string, int)>

  /**
   * What the expander needs to know about one field: its allowed values
   * `lo..hi` (the `FIELD_RANGES` tuples are all contiguous), its name table
   * and whether 7 is normalised to 0 afterwards (day of week).
   */
  datatype FieldSpec = FieldSpec(lo: int, hi: int, names: NameTable, sundaySeven: bool)

  /**
   * The field's allowed values are non-empty and not negative, as every
   * `FIELD_RANGES` tuple is, and a field that maps 7 to Sunday starts at 0.
   */
  predicate ValidSpec(f: FieldSpec)
  {
    0 <= f.lo <= f.hi && (f.sundaySeven ==> f.lo == 0)
  }

  const SundayAliasValue: int := 7

  const DayNames: NameTable :=
    [("SUN", 0), ("MON", 1), ("TUE", 2), ("WED", 3), ("THU", 4), ("FRI", 5), ("SAT", 6)]

  const MonthNames: NameTable :=
    [("JAN", 1), ("FEB", 2), ("MAR", 3), ("APR", 4), ("MAY", 5), ("JUN", 6),
     ("JUL", 7), ("AUG", 8), ("SEP", 9), ("OCT", 10), ("NOV", 11), ("DEC", 12)]

  const MinuteField: FieldSpec := FieldSpec(0, 59, [], false)
  const HourField: FieldSpec := FieldSpec(0, 23, [], false)
  const DayOfMonthField: FieldSpec := FieldSpec(1, 31, [], false)
  const MonthField: FieldSpec := FieldSpec(1, 12, MonthNames, false)
  const DayOfWeekField: FieldSpec := FieldSpec(0, SundayAliasValue, DayNames, true)

  /** The dict with every key upper-cased (`_normalize_transform_map`); an absent table is the empty one. */
  function NormalizeNames(table: NameTable): (r: NameTable)
    ensures |r| == |table|
    ensures forall i :: 0 <= i < |table| ==> r[i] == (Upper(table[i].0), table[i].1)
  {
    seq(|table|, i requires 0 <= i < |table| => (Upper(table[i].0), table[i].1))
  }

  /** Dict lookup in a table built entry by entry: the last entry with the key wins. */
  function Lookup(table: NameTable, key: string): (r: Option<int>)
    ensures r.None? <==> forall i :: 0 <= i < |table| ==> table[i].0 != key
    ensures r.Some? ==> exists i :: 0 <= i < |table| && table[i] == (key, r.value)
  {
    if |table| == 0 then None
    else if table[|table| - 1].0 == key then Some(table[|table| - 1].1)
    else Lookup(table[..|table| - 1], key)
  }

  /** Replace a name (matched case-insensitively) by its number in decimal; anything else is kept as written. */
  function ResolveName(table: NameTable, s: string): (r: string)
    ensures (forall i :: 0 <= i < |table| ==> Upper(table[i].0) != Upper(s)) ==> r == s
    ensures (exists i :: 0 <= i < |table| && Upper(table[i].0) == Upper(s))
            ==> exists i :: 0 <= i < |table| && Upper(table[i].0) == Upper(s) && r == IntToString(table[i].1)
  {
    match Lookup(NormalizeNames(table), Upper(s))
    case Some(v) => IntToString(v)
    case None => s
  }

  /** `_normalize_day_of_week`: 7 is another name for Sunday, 0. */
  function Normalize(f: FieldSpec, v: int): (r: int)
    ensures f.sundaySeven && v == SundayAliasValue ==> r == 0
    ensures !(f.sundaySeven && v == SundayAliasValue) ==> r == v
  {
    if f.sundaySeven && v == SundayAliasValue then 0 else v
  }

  /** `range(start, stop, step)` for a positive step. */
  function PyRange(start: int, stop: int, step: nat): (r: seq<int>)
    requires step >= 1
    ensures forall i, j :: 0 <= i < j < |r| ==> r[i] < r[j]
    ensures forall i :: 0 <= i < |r| ==> start <= r[i] < stop
    ensures |r| > 0 <==> start < stop
    ensures |r| > 0 ==> r[0] == start
    decreases stop - start
  {
    if start >= stop then [] else [start] + PyRange(start + step, stop, step)
  }

  /** The value `k` steps after `start`. */
  function StepsFrom(start: int, k: nat, step: nat): int
  {
    start + k * step
  }

  /** A value is in `range(start, stop, step)` exactly when it is in bounds and a whole number of steps from `start`. */
  lemma {:induction false} PyRangeMembers(start: int, stop: int, step: nat, x: int)
    requires step >= 1
    ensures x in PyRange(start, stop, step) <==> start <= x < stop && exists k: nat :: x == StepsFrom(start, k, step)
    decreases stop - start
  {
    if start < stop {
      var tail := PyRange(start + step, stop, step);
      assert PyRange(start, stop, step) == [start] + tail;
      PyRangeMembers(start + step, stop, step, x);
      if x == start {
        assert x == StepsFrom(start, 0, step);
      } else if x in tail {
        var k: nat :| x == StepsFrom(start + step, k, step);
        StepsShift(start, k, step);
      } else if exists k: nat :: x == StepsFrom(start, k, step) {
        var k: nat :| x == StepsFrom(start, k, step);
        assert k != 0;
        StepsShift(start, k - 1, step);
      }
    } else if exists k: nat :: x == StepsFrom(start, k, step) {
      var k: nat :| x == StepsFrom(start, k, step);
      assert k * step >= 0;
    }
  }

  /** A non-empty range holds its start, and a step that reaches the end leaves the start alone. */
  lemma PyRangeFirst(start: int, stop: int, step: nat)
    requires step >= 1 && start < stop
    ensures start in PyRange(start, stop, step)
    ensures step >= stop - start ==> PyRange(start, stop, step) == [start]
  {
    assert PyRange(start, stop, step) == [start] + PyRange(start + step, stop, step);
  }

  /** One step from `start + step` is two steps from `start`. */
  lemma StepsShift(start: int, k: nat, step: nat)
    ensures StepsFrom(start + step, k, step) == StepsFrom(start, k + 1, step)
    ensures StepsFrom(start, k + 1, step) >= start + step
  {
    assert (k + 1) * step == k * step + step;
  }

  /**
   * `_expr_to_parts`: a token without `/` has step 1; with `/` it must split
   * into exactly two pieces, the second all digits and positive.
   */
  function ExprToParts(expr: string): (r: Option<(string, nat)>)
    ensures r.Some? ==> r.value.1 >= 1
    ensures r.None? ==> '/' in expr
  {
    ContainsChar(expr, '/');
    if Contains(expr, "/") then
      var pieces := Split(expr, "/");
      if |pieces| != 2 || !IsDigits(pieces[1]) then None
      else
        var step := DigitsValue(pieces[1]);
        if step <= 0 then None else Some((pieces[0], step))
    else Some((expr, 1))
  }

  /** A token without a slash has step 1. */
  lemma ExprToPartsPlain(expr: string)
    requires '/' !in expr
    ensures ExprToParts(expr) == Some((expr, 1))
  {
    ContainsChar(expr, '/');
  }

  /** `base/step` is accepted exactly when the step is all digits and positive, and then yields that base and step. */
  lemma ExprToPartsStep(base: string, step: string)
    requires '/' !in base && '/' !in step
    ensures ExprToParts(base + "/" + step)
         == if IsDigits(step) && DigitsValue(step) > 0 then Some((base, DigitsValue(step))) else None
  {
    var e := base + "/" + step;
    assert e[|base|] == '/';
    ContainsChar(e, '/');
    SplitOnChar(base, '/', step);
  }

  /**
   * `_parse_range`: `A-B` with exactly one dash; names resolved on each side
   * independently; both bounds read by `int()`, allowed, and in order; the
   * values are `range(A, B + 1, step)`.
   */
  function ParseRange(value: string, f: FieldSpec, step: nat): (r: Option<seq<int>>)
    requires step >= 1
    ensures r.Some? ==> |r.value| > 0 && forall i :: 0 <= i < |r.value| ==> f.lo <= r.value[i] <= f.hi
  {
    var pieces := Split(value, "-");
    if |pieces| != 2 then None
    else RangeValues(PyInt(ResolveName(f.names, pieces[0])), PyInt(ResolveName(f.names, pieces[1])), f, step)
  }

  /** The values of a range once both bounds are read: `range(A, B + 1, step)` when both are allowed, in order, and the range is not empty. */
  function RangeValues(lower: Option<int>, upper: Option<int>, f: FieldSpec, step: nat): (r: Option<seq<int>>)
    requires step >= 1
    ensures r.Some? ==> |r.value| > 0 && forall i :: 0 <= i < |r.value| ==> f.lo <= r.value[i] <= f.hi
  {
    match (lower, upper)
    case (Some(a), Some(b)) =>
      if !(f.lo <= a <= f.hi) || !(f.lo <= b <= f.hi) then None
      else if a > b then None
      else
        var values := PyRange(a, b + 1, step);
        if |values| == 0 then None else Some(values)
    case _ => None
  }

  /**
   * `_parse_part`: one comma-separated token. A (resolved) numeral must be
   * allowed and carry no step other than 1; `*` is the whole range with the
   * step; anything holding a dash is a range; everything else is an error.
   */
  function ParsePart(part: string, f: FieldSpec): (r: Option<seq<int>>)
    requires ValidSpec(f)
    ensures r.Some? ==> |r.value| > 0 && forall i :: 0 <= i < |r.value| ==> f.lo <= r.value[i] <= f.hi
  {
    match ExprToParts(part)
    case None => None
    case Some((written, step)) =>
      var value := ResolveName(f.names, written);
      if IsDigits(value) then
        if step != 1 then None
        else
          var n := DigitsValue(value);
          if f.lo <= n <= f.hi then Some([n]) else None
      else if value == "*" then Some(PyRange(f.lo, f.hi + 1, step))
      else if Contains(value, "-") then ParseRange(value, f, step)
      else None
  }

  /** The values of one token after the field's normaliser. */
  function NormalizedPart(part: string, f: FieldSpec): (r: Option<set<int>>)
    requires ValidSpec(f)
    ensures r.Some? <==> ParsePart(part, f).Some?
    ensures r.Some? ==> forall x :: x in r.value <==> exists v :: v in ParsePart(part, f).value && x == Normalize(f, v)
  {
    match ParsePart(part, f)
    case None => None
    case Some(values) => Some(set v | v in values :: Normalize(f, v))
  }

  /** Each token's normalised values, or `None` for a malformed token. */
  function TokenValues(tokens: seq<string>, f: FieldSpec): (r: seq<Option<set<int>>>)
    requires ValidSpec(f)
    ensures |r| == |tokens| && forall k :: 0 <= k < |tokens| ==> r[k] == NormalizedPart(tokens[k], f)
  {
    seq(|tokens|, k requires 0 <= k < |tokens| => NormalizedPart(tokens[k], f))
  }

  /** The union of the tokens' value sets, or `None` as soon as one token is malformed. */
  function UnionAll(parts: seq<Option<set<int>>>): Option<set<int>>
  {
    if |parts| == 0 then Some({})
    else
      match (UnionAll(parts[..|parts| - 1]), parts[|parts| - 1])
      case (Some(a), Some(b)) => Some(a + b)
      case _ => None
  }

  /** One malformed token makes the whole field malformed. */
  lemma {:induction false} UnionAllFailure(parts: seq<Option<set<int>>>, k: nat)
    requires k < |parts| && parts[k].None?
    ensures UnionAll(parts).None?
  {
    if k < |parts| - 1 {
      UnionAllFailure(parts[..|parts| - 1], k);
    }
  }

  /** The union exists exactly when every token is well formed. */
  lemma {:induction false} UnionAllDefined(parts: seq<Option<set<int>>>)
    ensures UnionAll(parts).Some? <==> forall k :: 0 <= k < |parts| ==> parts[k].Some?
  {
    if |parts| > 0 {
      var init := parts[..|parts| - 1];
      UnionAllDefined(init);
      if forall k :: 0 <= k < |parts| ==> parts[k].Some? {
        assert forall k :: 0 <= k < |init| ==> init[k] == parts[k];
      } else {
        var k :| 0 <= k < |parts| && parts[k].None?;
        UnionAllFailure(parts, k);
      }
    }
  }

  /** A value is in the union exactly when some token's set holds it. */
  lemma {:induction false} UnionAllMembers(parts: seq<Option<set<int>>>, x: int)
    requires UnionAll(parts).Some?
    ensures x in UnionAll(parts).value <==> exists k :: 0 <= k < |parts| && parts[k].Some? && x in parts[k].value
  {
    if |parts| > 0 {
      var init := parts[..|parts| - 1];
      UnionAllMembers(init, x);
      if exists k :: 0 <= k < |init| && init[k].Some? && x in init[k].value {
        var k :| 0 <= k < |init| && init[k].Some? && x in init[k].value;
        assert parts[k] == init[k];
      }
      if exists k :: 0 <= k < |parts| && parts[k].Some? && x in parts[k].value {
        var k :| 0 <= k < |parts| && parts[k].Some? && x in parts[k].value;
        if k < |init| {
          assert init[k] == parts[k];
        }
      }
    }
  }

  /** The members of `s` between `lo` and `hi`, in ascending order (`tuple(sorted(...))` of a set within those bounds). */
  function SortedWithin(s: set<int>, lo: int, hi: int): (r: seq<int>)
    ensures forall i :: 0 <= i < |r| ==> lo <= r[i] <= hi
    ensures forall i, j :: 0 <= i < j < |r| ==> r[i] < r[j]
    ensures forall x :: x in r <==> x in s && lo <= x <= hi
    decreases hi - lo
  {
    if lo > hi then []
    else (if lo in s then [lo] else []) + SortedWithin(s, lo + 1, hi)
  }

  /**
   * `_parse_expression`: the sorted union of the comma-separated tokens,
   * or an error naming the field when any token is malformed.
   */
  function ExpandField(expr: string, f: FieldSpec): (r: Result<seq<int>, string>)
    requires ValidSpec(f)
    ensures r.Failure? ==> r.error == expr
    ensures r.Success? ==> && (forall i, j :: 0 <= i < j < |r.value| ==> r.value[i] < r.value[j])
                           && (forall i :: 0 <= i < |r.value| ==> f.lo <= r.value[i] <= f.hi)
  {
    match UnionAll(TokenValues(Split(expr, ","), f))
    case None => Failure(expr)
    case Some(values) => Success(SortedWithin(values, f.lo, f.hi))
  }

  /** The method form of `_parse_expression`: accumulate the tokens' values into one set, then sort. */
  method ParseExpression(expr: string, f: FieldSpec) returns (r: Result<seq<int>, string>)
    requires ValidSpec(f)
    ensures r == ExpandField(expr, f)
  {
    var parts := Split(expr, ",");
    ghost var all := TokenValues(parts, f);
    var result: set<int> := {};
    var i := 0;
    while i < |parts|
      invariant 0 <= i <= |parts|
      invariant UnionAll(all[..i]) == Some(result)
    {
      var values := NormalizedPart(parts[i], f);
      if values.None? {
        UnionAllFailure(all, i);
        return Failure(expr);
      }
      assert all[..i + 1][..i] == all[..i];
      result := result + values.value;
      i := i + 1;
    }
    assert all[..i] == all;
    return Success(SortedWithin(result, f.lo, f.hi));
  }

  /** Every value of a well-formed token, once normalised, is an allowed value, and never the Sunday alias 7. */
  lemma NormalizedPartInRange(part: string, f: FieldSpec, x: int)
    requires ValidSpec(f) && NormalizedPart(part, f).Some? && x in NormalizedPart(part, f).value
    ensures f.lo <= x <= f.hi
    ensures f.sundaySeven ==> x != SundayAliasValue
  {
    var v :| v in ParsePart(part, f).value && x == Normalize(f, v);
  }

  /** Every well-formed token of a field denotes at least one value, and only allowed values other than 7 for Sunday. */
  lemma TokenValuesInRange(tokens: seq<string>, f: FieldSpec)
    requires ValidSpec(f)
    ensures forall k :: 0 <= k < |tokens| && TokenValues(tokens, f)[k].Some? ==> ValuesWithin(TokenValues(tokens, f)[k].value, f)
  {
    forall k | 0 <= k < |tokens| && TokenValues(tokens, f)[k].Some?
      ensures ValuesWithin(TokenValues(tokens, f)[k].value, f)
    {
      var v := ParsePart(tokens[k], f).value[0];
      assert Normalize(f, v) in NormalizedPart(tokens[k], f).value;
      forall x | x in NormalizedPart(tokens[k], f).value
        ensures f.lo <= x <= f.hi && (f.sundaySeven ==> x != SundayAliasValue)
      {
        NormalizedPartInRange(tokens[k], f, x);
      }
    }
  }

  /** A non-empty set of allowed values other than 7 for Sunday. */
  predicate ValuesWithin(s: set<int>, f: FieldSpec)
  {
    (exists x :: x in s) && forall x :: x in s ==> f.lo <= x <= f.hi && (f.sundaySeven ==> x != SundayAliasValue)
  }

  /** Sorting the union of well-formed tokens loses nothing, and the result is non-empty and free of 7 for Sunday. */
  lemma {:induction false} SortedUnionShape(all: seq<Option<set<int>>>, f: FieldSpec)
    requires |all| > 0 && UnionAll(all).Some?
    requires forall k :: 0 <= k < |all| && all[k].Some? ==> ValuesWithin(all[k].value, f)
    ensures ValuesWithin(UnionAll(all).value, f)
  {
    var init := all[..|all| - 1];
    if |init| > 0 {
      assert forall k :: 0 <= k < |init| ==> init[k] == all[k];
      SortedUnionShape(init, f);
    }
  }

  /** A field fails, naming itself, exactly when one of its comma-separated tokens is malformed. */
  lemma ExpandFieldFails(expr: string, f: FieldSpec)
    requires ValidSpec(f)
    ensures ExpandField(expr, f).Failure? ==> ExpandField(expr, f).error == expr
    ensures ExpandField(expr, f).Success?
        <==> forall k :: 0 <= k < |Split(expr, ",")| ==> ParsePart(Split(expr, ",")[k], f).Some?
  {
    var tokens := Split(expr, ",");
    var all := TokenValues(tokens, f);
    UnionAllDefined(all);
    if UnionAll(all).Some? {
      forall k | 0 <= k < |tokens| ensures ParsePart(tokens[k], f).Some? {
        assert all[k] == NormalizedPart(tokens[k], f);
      }
    } else {
      var k :| 0 <= k < |all| && all[k].None?;
      assert all[k] == NormalizedPart(tokens[k], f);
      assert ParsePart(tokens[k], f).None?;
      assert tokens == Split(expr, ",");
    }
  }

  /**
   * A parsed field is non-empty, strictly ascending (so duplicate-free),
   * within the allowed values, and free of the Sunday alias 7.
   */
  lemma ExpandFieldShape(expr: string, f: FieldSpec)
    requires ValidSpec(f) && ExpandField(expr, f).Success?
    ensures var values := ExpandField(expr, f).value;
      && |values| > 0
      && (forall i, j :: 0 <= i < j < |values| ==> values[i] < values[j])
      && (forall i :: 0 <= i < |values| ==> f.lo <= values[i] <= f.hi)
      && (f.sundaySeven ==> SundayAliasValue !in values)
  {
    var tokens := Split(expr, ",");
    var all := TokenValues(tokens, f);
    TokenValuesInRange(tokens, f);
    SortedUnionShape(all, f);
    SortedAll(UnionAll(all).value, f);
  }

  /** Sorting a set of allowed values keeps every one of them. */
  lemma SortedAll(s: set<int>, f: FieldSpec)
    requires ValuesWithin(s, f)
    ensures forall x :: x in SortedWithin(s, f.lo, f.hi) <==> x in s
    ensures |SortedWithin(s, f.lo, f.hi)| > 0
  {
    var x :| x in s;
    assert x in SortedWithin(s, f.lo, f.hi);
  }

  /** A value is in a parsed field exactly when some token of the field denotes it, after normalisation. */
  lemma ExpandFieldMembers(expr: string, f: FieldSpec, x: int)
    requires ValidSpec(f) && ExpandField(expr, f).Success?
    ensures x in ExpandField(expr, f).value
        <==> exists k :: 0 <= k < |Split(expr, ",")| && TokenValues(Split(expr, ","), f)[k].Some?
                         && x in TokenValues(Split(expr, ","), f)[k].value
  {
    var tokens := Split(expr, ",");
    var all := TokenValues(tokens, f);
    UnionAllMembers(all, x);
    TokenValuesInRange(tokens, f);
    SortedUnionShape(all, f);
    SortedAll(UnionAll(all).value, f);
    UnionAllDefined(all);
    assert tokens == Split(expr, ",");
  }

  /** A name in a table: a non-empty run of ASCII letters. */
  predicate IsName(s: string)
  {
    |s| > 0 && forall i :: 0 <= i < |s| ==> IsAsciiLetter(s[i])
  }

  /** Every name in the field's table is made of letters only, as the month and weekday names are. */
  predicate PlainNames(f: FieldSpec)
  {
    forall i :: 0 <= i < |f.names| ==> IsName(f.names[i].0)
  }

  /** The five fields of a cron expression are well formed and name only letter words. */
  lemma StandardFields()
    ensures ValidSpec(MinuteField) && ValidSpec(HourField) && ValidSpec(DayOfMonthField)
    ensures ValidSpec(MonthField) && ValidSpec(DayOfWeekField)
    ensures PlainNames(MinuteField) && PlainNames(HourField) && PlainNames(DayOfMonthField)
    ensures PlainNames(MonthField) && PlainNames(DayOfWeekField)
  {
  }

  /** Upper-casing keeps letters letters and everything else non-letters. */
  lemma UpperKeepsLetters(s: string, j: int)
    requires 0 <= j < |s|
    ensures IsAsciiLetter(Upper(s)[j]) <==> IsAsciiLetter(s[j])
  {
  }

  /** Text that is not a name (it holds a digit, `*`, `-`, or is empty) is left as written. */
  lemma NotAName(f: FieldSpec, s: string)
    requires PlainNames(f) && !IsName(s)
    ensures ResolveName(f.names, s) == s
  {
    var table := NormalizeNames(f.names);
    forall i | 0 <= i < |table| ensures table[i].0 != Upper(s) {
      var name := f.names[i].0;
      assert IsName(name);
      if |s| > 0 {
        var j :| 0 <= j < |s| && !IsAsciiLetter(s[j]);
        UpperKeepsLetters(s, j);
        if |name| == |s| {
          UpperKeepsLetters(name, j);
        }
      }
    }
  }

  /** A name, in any letter case, stands for its value in the table (the last entry wins). */
  lemma ResolvedName(f: FieldSpec, s: string, v: nat)
    requires Lookup(NormalizeNames(f.names), Upper(s)) == Some(v)
    ensures ResolveName(f.names, s) == NatToString(v)
    ensures IsDigits(ResolveName(f.names, s)) && DigitsValue(ResolveName(f.names, s)) == v
  {
    NatToStringRoundTrip(v);
  }

  /** A name that no other entry shares, in any letter case, is found in the upper-cased table with its own value. */
  lemma UniqueNameLookup(table: NameTable, i: nat, s: string)
    requires i < |table| && Upper(s) == Upper(table[i].0)
    requires forall j :: 0 <= j < |table| && j != i ==> Upper(table[j].0) != Upper(table[i].0)
    ensures Lookup(NormalizeNames(table), Upper(s)) == Some(table[i].1)
  {
    var names := NormalizeNames(table);
    assert names[i] == (Upper(s), table[i].1);
    var r := Lookup(names, Upper(s));
    var j :| 0 <= j < |names| && names[j] == (Upper(s), r.value);
    assert j == i;
  }

  /** A name that no other entry shares, in any letter case, is replaced by the numeral of its value. */
  lemma UniqueNameResolves(table: NameTable, i: nat, s: string)
    requires i < |table| && table[i].1 >= 0 && Upper(s) == Upper(table[i].0)
    requires forall j :: 0 <= j < |table| && j != i ==> Upper(table[j].0) != Upper(table[i].0)
    ensures ResolveName(table, s) == NatToString(table[i].1)
  {
    UniqueNameLookup(table, i, s);
    ResolvedName(FieldSpec(0, 0, table, false), s, table[i].1);
  }

  /** A string of capital letters is its own upper case. */
  lemma UpperOfCapitals(name: string)
    requires forall k :: 0 <= k < |name| ==> 'A' <= name[k] <= 'Z'
    ensures Upper(name) == name
  {
  }

  /** The month names are capitals, and no two are the same. */
  lemma MonthNamesDistinct()
    ensures forall i :: 0 <= i < |MonthNames| ==> Upper(MonthNames[i].0) == MonthNames[i].0 && MonthNames[i].1 >= 0
    ensures forall i, j :: 0 <= i < j < |MonthNames| ==> MonthNames[i].0 != MonthNames[j].0
    ensures forall i, k :: 0 <= i < |MonthNames| && 0 <= k < |MonthNames[i].0| ==> 'A' <= MonthNames[i].0[k] <= 'Z'
  {
    forall i | 0 <= i < |MonthNames|
      ensures Upper(MonthNames[i].0) == MonthNames[i].0
      ensures forall k :: 0 <= k < |MonthNames[i].0| ==> 'A' <= MonthNames[i].0[k] <= 'Z'
    {
      UpperOfCapitals(MonthNames[i].0);
    }
  }

  /** The weekday names are capitals, and no two are the same. */
  lemma DayNamesDistinct()
    ensures forall i :: 0 <= i < |DayNames| ==> Upper(DayNames[i].0) == DayNames[i].0 && DayNames[i].1 >= 0
    ensures forall i, j :: 0 <= i < j < |DayNames| ==> DayNames[i].0 != DayNames[j].0
    ensures forall i, k :: 0 <= i < |DayNames| && 0 <= k < |DayNames[i].0| ==> 'A' <= DayNames[i].0[k] <= 'Z'
  {
    forall i | 0 <= i < |DayNames|
      ensures Upper(DayNames[i].0) == DayNames[i].0
      ensures forall k :: 0 <= k < |DayNames[i].0| ==> 'A' <= DayNames[i].0[k] <= 'Z'
    {
      UpperOfCapitals(DayNames[i].0);
    }
  }

  /** Every month name, written in any letter case, is replaced by the numeral of its month. */
  lemma MonthNamesIgnoreCase(i: nat, s: string)
    requires i < |MonthNames| && Upper(s) == MonthNames[i].0
    ensures ResolveName(MonthNames, s) == NatToString(MonthNames[i].1)
  {
    MonthNamesDistinct();
    UniqueNameResolves(MonthNames, i, s);
  }

  /** Every weekday name, written in any letter case, is replaced by the numeral of its day. */
  lemma DayNamesIgnoreCase(i: nat, s: string)
    requires i < |DayNames| && Upper(s) == DayNames[i].0
    ensures ResolveName(DayNames, s) == NatToString(DayNames[i].1)
  {
    DayNamesDistinct();
    UniqueNameResolves(DayNames, i, s);
  }

  /** A numeral is its own value, accepted only when it is an allowed value. */
  lemma ParsePartNumeral(f: FieldSpec, d: string)
    requires ValidSpec(f) && PlainNames(f) && IsDigits(d)
    ensures ParsePart(d, f) == if f.lo <= DigitsValue(d) <= f.hi then Some([DigitsValue(d)]) else None
  {
    assert !IsAsciiLetter(d[0]);
    NotAName(f, d);
    assert '/' !in d by { assert forall i :: 0 <= i < |d| ==> d[i] != '/'; }
    ExprToPartsPlain(d);
  }

  /** A name is the one value it stands for, accepted only when that value is allowed. */
  lemma ParsePartName(f: FieldSpec, s: string, v: nat)
    requires ValidSpec(f) && '/' !in s
    requires Lookup(NormalizeNames(f.names), Upper(s)) == Some(v)
    ensures ParsePart(s, f) == if f.lo <= v <= f.hi then Some([v]) else None
  {
    ExprToPartsPlain(s);
    ResolvedName(f, s, v);
  }

  /** A token whose base is `*` is the whole range taken with its step. */
  lemma ParsePartStarBase(f: FieldSpec, part: string, step: nat)
    requires ValidSpec(f) && PlainNames(f) && step >= 1
    requires ExprToParts(part) == Some(("*", step))
    ensures ParsePart(part, f) == Some(PyRange(f.lo, f.hi + 1, step))
  {
    assert !IsAsciiLetter("*"[0]);
    NotAName(f, "*");
  }

  /** `*` alone is every allowed value. */
  lemma ParsePartStar(f: FieldSpec, x: int)
    requires ValidSpec(f) && PlainNames(f)
    ensures ParsePart("*", f) == Some(PyRange(f.lo, f.hi + 1, 1))
    ensures x in ParsePart("*", f).value <==> f.lo <= x <= f.hi
  {
    ExprToPartsPlain("*");
    ParsePartStarBase(f, "*", 1);
    PyRangeMembers(f.lo, f.hi + 1, 1, x);
    if f.lo <= x <= f.hi {
      assert x == StepsFrom(f.lo, x - f.lo, 1);
    }
  }

  /**
   * `*` with step `s` is `lo, lo + s, ...` up to `hi`: it always holds `lo`,
   * and a step wider than the range leaves `lo` alone.
   */
  lemma ParsePartStarStep(f: FieldSpec, d: string)
    requires ValidSpec(f) && PlainNames(f) && IsDigits(d) && DigitsValue(d) > 0
    ensures ParsePart("*/" + d, f) == Some(PyRange(f.lo, f.hi + 1, DigitsValue(d)))
    ensures f.lo in ParsePart("*/" + d, f).value
    ensures DigitsValue(d) > f.hi - f.lo ==> ParsePart("*/" + d, f) == Some([f.lo])
  {
    assert "*/" + d == "*" + "/" + d;
    assert '/' !in d by { assert forall i :: 0 <= i < |d| ==> d[i] != '/'; }
    ExprToPartsStep("*", d);
    ParsePartStarBase(f, "*/" + d, DigitsValue(d));
    PyRangeFirst(f.lo, f.hi + 1, DigitsValue(d));
  }

  /** A step must be all digits and positive, whatever it is attached to. */
  lemma ParsePartBadStep(f: FieldSpec, base: string, step: string)
    requires ValidSpec(f) && '/' !in base && '/' !in step
    requires !IsDigits(step) || DigitsValue(step) == 0
    ensures ParsePart(base + "/" + step, f).None?
  {
    ExprToPartsStep(base, step);
  }

  /** A single value (a numeral or a name) takes no step other than 1. */
  lemma ParsePartLiteralStep(f: FieldSpec, base: string, step: string)
    requires ValidSpec(f) && '/' !in base && '/' !in step
    requires IsDigits(step) && DigitsValue(step) != 1
    requires IsDigits(ResolveName(f.names, base))
    ensures ParsePart(base + "/" + step, f).None?
  {
    ExprToPartsStep(base, step);
  }

  /** `A-B` splits at its one dash, and each bound is resolved as a name on its own and read as an integer. */
  lemma ParseRangeSides(f: FieldSpec, a: string, b: string, step: nat)
    requires step >= 1 && '-' !in a && '-' !in b
    ensures ParseRange(a + "-" + b, f, step)
         == RangeValues(PyInt(ResolveName(f.names, a)), PyInt(ResolveName(f.names, b)), f, step)
  {
    assert a + "-" + b == a + ['-'] + b;
    SplitOnChar(a, '-', b);
  }

  /**
   * The range is accepted exactly when both bounds are allowed values and
   * `A <= B`; its values are then `A, A + s, ...` up to `B`, starting with `A`.
   */
  lemma RangeValuesSpec(lower: Option<int>, upper: Option<int>, f: FieldSpec, step: nat, x: int)
    requires step >= 1
    ensures RangeValues(lower, upper, f, step).Some?
        <==> lower.Some? && upper.Some? && f.lo <= lower.value <= upper.value <= f.hi
    ensures RangeValues(lower, upper, f, step).Some? ==>
              && RangeValues(lower, upper, f, step).value[0] == lower.value
              && (x in RangeValues(lower, upper, f, step).value
                  <==> lower.value <= x <= upper.value && exists k: nat :: x == StepsFrom(lower.value, k, step))
  {
    if lower.Some? && upper.Some? {
      PyRangeMembers(lower.value, upper.value + 1, step, x);
    }
  }

  /** A token holding a dash (and perhaps a step) is a range. */
  lemma ParsePartRange(f: FieldSpec, a: string, b: string, step: string)
    requires ValidSpec(f) && PlainNames(f)
    requires '-' !in a && '-' !in b && '/' !in a && '/' !in b && '/' !in step
    requires IsDigits(step) && DigitsValue(step) > 0
    ensures ParsePart(a + "-" + b, f) == ParseRange(a + "-" + b, f, 1)
    ensures ParsePart(a + "-" + b + "/" + step, f) == ParseRange(a + "-" + b, f, DigitsValue(step))
  {
    var v := a + "-" + b;
    assert v[|a|] == '-';
    assert '/' !in v;
    assert !IsAsciiLetter(v[|a|]);
    assert !IsDigits(v) by {
      assert !IsDigitChar(v[|a|]);
    }
    NotAName(f, v);
    ContainsChar(v, '-');
    ExprToPartsPlain(v);
    ExprToPartsStep(v, step);
    RangeTokenIsRange(v, v, 1, f);
    RangeTokenIsRange(v + "/" + step, v, DigitsValue(step), f);
  }

  /** A token whose base is not a name, not digits and not `*` but holds a dash goes to the range parser. */
  lemma RangeTokenIsRange(part: string, v: string, step: int, f: FieldSpec)
    requires ValidSpec(f)
    requires ExprToParts(part) == Some((v, step))
    requires ResolveName(f.names, v) == v && !IsDigits(v) && v != "*" && Contains(v, "-")
    ensures ParsePart(part, f) == ParseRange(v, f, step)
  {
  }

  /** A strictly ascending list whose only member is `v` is `[v]`. */
  lemma AscendingSingleton(values: seq<int>, v: int)
    requires forall i, j :: 0 <= i < j < |values| ==> values[i] < values[j]
    requires forall x :: x in values <==> x == v
    ensures values == [v]
  {
    assert v in values;
    assert values[0] in values;
    var tail := values[1..];
    forall k | 0 <= k < |tail|
      ensures tail[k] > v
    {
      assert tail[k] == values[k + 1];
    }
    forall x | x in tail
      ensures x == v
    {
      assert x in values;
    }
    NoMembers(tail, v);
    assert values == [values[0]] + tail;
  }

  /** A list whose elements all exceed `v` and all equal `v` is empty. */
  lemma NoMembers(t: seq<int>, v: int)
    requires forall k :: 0 <= k < |t| ==> t[k] > v
    requires forall x :: x in t ==> x == v
    ensures t == []
  {
    if |t| > 0 {
      FirstIsMember(t);
      assert false;
    }
  }

  /** The first element of a non-empty list is one of its members. */
  lemma FirstIsMember(t: seq<int>)
    requires |t| > 0
    ensures t[0] in t
  {
  }

  /**
   * A field of one token without commas that denotes the single value `v`
   * expands to `[v]`. The comma condition is what makes the token the whole
   * field: `ParsePart` speaks of one token and says nothing about commas.
   */
  lemma SingleValueField(token: string, f: FieldSpec, v: int)
    requires ValidSpec(f) && ',' !in token && ParsePart(token, f) == Some([v])
    requires !(f.sundaySeven && v == SundayAliasValue)
    ensures ExpandField(token, f) == Success([v])
  {
    SplitNoChar(token, ',');
    assert Split(token, ",") == [token];
    ExpandFieldFails(token, f);
    var values := ExpandField(token, f).value;
    forall x
      ensures x in values <==> x == v
    {
      ExpandFieldMembers(token, f, x);
      assert TokenValues([token], f)[0] == NormalizedPart(token, f);
      assert Normalize(f, v) == v;
    }
    AscendingSingleton(values, v);
  }

  /** A string whose upper case is a word of capitals holds neither a slash nor a comma. */
  lemma LettersOnly(s: string, name: string)
    requires Upper(s) == name && forall k :: 0 <= k < |name| ==> 'A' <= name[k] <= 'Z'
    ensures '/' !in s && ',' !in s
  {
    forall k | 0 <= k < |s|
      ensures s[k] != '/' && s[k] != ','
    {
      assert UpperChar(s[k]) == name[k];
    }
  }

  /** A month name alone, in any letter case, is the field of its month. */
  lemma MonthNameField(i: nat, s: string)
    requires i < |MonthNames| && Upper(s) == MonthNames[i].0
    ensures ExpandField(s, MonthField) == Success([MonthNames[i].1])
  {
    MonthNamesDistinct();
    UniqueNameLookup(MonthNames, i, s);
    assert 1 <= MonthNames[i].1 <= 12;
    LettersOnly(s, MonthNames[i].0);
    ParsePartName(MonthField, s, MonthNames[i].1);
    SingleValueField(s, MonthField, MonthNames[i].1);
  }

  /** A weekday name alone, in any letter case, is the field of its day. */
  lemma DayNameField(i: nat, s: string)
    requires i < |DayNames| && Upper(s) == DayNames[i].0
    ensures ExpandField(s, DayOfWeekField) == Success([DayNames[i].1])
  {
    DayNamesDistinct();
    UniqueNameLookup(DayNames, i, s);
    assert 0 <= DayNames[i].1 <= 6;
    LettersOnly(s, DayNames[i].0);
    ParsePartName(DayOfWeekField, s, DayNames[i].1);
    SingleValueField(s, DayOfWeekField, DayNames[i].1);
  }

  /** `*` alone is the field holding every allowed value, with 7 folded into Sunday where it names Sunday. */
  lemma StarField(f: FieldSpec, x: int)
    requires ValidSpec(f) && PlainNames(f)
    ensures ExpandField("*", f).Success?
    ensures x in ExpandField("*", f).value <==> f.lo <= x <= f.hi && !(f.sundaySeven && x == SundayAliasValue)
  {
    SplitNoChar("*", ',');
    assert Split("*", ",") == ["*"];
    ParsePartStar(f, x);
    ExpandFieldFails("*", f);
    ExpandFieldMembers("*", f, x);
    assert TokenValues(["*"], f)[0] == NormalizedPart("*", f);
    if f.lo <= x <= f.hi && !(f.sundaySeven && x == SundayAliasValue) {
      assert x == Normalize(f, x);
    }
    if f.sundaySeven && x == SundayAliasValue {
      forall v | v in ParsePart("*", f).value
        ensures x != Normalize(f, v)
      {
      }
    }
  }

  /**
   * `*` alone holds exactly the allowed values, 7 excepted where it names
   * Sunday. The token is a parameter so that callers naming a standard field
   * do not make the verifier evaluate the whole expansion.
   */
  lemma StarFieldMembers(f: FieldSpec, star: string)
    requires ValidSpec(f) && PlainNames(f) && star == "*"
    ensures ExpandField(star, f).Success?
    ensures forall x :: x in ExpandField(star, f).value <==> f.lo <= x <= f.hi && !(f.sundaySeven && x == SundayAliasValue)
  {
    StarField(f, f.lo);
    forall x
      ensures x in ExpandField(star, f).value <==> f.lo <= x <= f.hi && !(f.sundaySeven && x == SundayAliasValue)
    {
      StarField(f, x);
    }
  }

  /** A list of values holds exactly `lo..hi`. */
  ghost predicate Spans(values: seq<int>, lo: int, hi: int)
  {
    forall x :: x in values <==> lo <= x <= hi
  }

  /** The expansion of `*` alone spans the field's range, or 0..6 where 7 names Sunday. */
  lemma StarFieldSpans(f: FieldSpec, star: string, values: seq<int>)
    requires ValidSpec(f) && PlainNames(f) && star == "*" && ExpandField(star, f) == Success(values)
    ensures !f.sundaySeven ==> Spans(values, f.lo, f.hi)
    ensures f.sundaySeven && f.hi == SundayAliasValue ==> Spans(values, f.lo, SundayAliasValue - 1)
  {
    StarFieldMembers(f, star);
  }
}
