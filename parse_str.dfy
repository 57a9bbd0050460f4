/**
 * String-to-value parsers used for configuration values: booleans,
 * separated lists and sets, key/value mappings and human-friendly byte
 * sizes. Every parser either returns a value or a `ParseError` naming the
 * offending input, as the Python functions raise `ValueError`.
 */
module ParseStr {
  import opened Wrappers
  import opened PyStr

  /** The reasons a parser rejects its input (the `ValueError`s it raises). */
  datatype ParseError =
    | InvalidBool(literal: string)
    | EmptySeparator
    | EmptyItem(value: string)
    | MissingKeyValueSeparator(separator: string, pair: string)
    | EmptyKey(pair: string)
    | InvalidSize(literal: string)
    | UnknownUnit(literal: string)
    | FractionalBytes(literal: string)
    | CastFailed(item: string)

  /** A caller-supplied conversion of one item, which may reject it. */
  type Cast<T> = string -> Result<T, ParseError>

  /** `parse_str`: the identity. */
  function ParseString(value: string): (r: string)
    ensures r == value
  {
    value
  }

  /** `parse_str` used as the default item cast of `parse_list` and `parse_set`. */
  function StringCast(item: string): (r: Result<string, ParseError>)
    ensures r == Success(item)
  {
    Success(ParseString(item))
  }

  const TrueTokens: set<string> := {"1", "true", "yes", "y", "on"}
  const FalseTokens: set<string> := {"0", "false", "no", "n", "off"}

  /** No token is both true and false. */
  lemma TokensDisjoint(s: string)
    ensures !(s in TrueTokens && s in FalseTokens)
  {
  }

  /**
   * `parse_bool`: the stripped, lower-cased input must be one of the true
   * tokens or one of the false tokens. The token sets are disjoint, so each
   * accepted literal has exactly one meaning.
   */
  function ParseBool(value: string): (r: Result<bool, ParseError>)
    ensures r == Success(true) <==> Lower(Strip(value)) in TrueTokens
    ensures r == Success(false) <==> Lower(Strip(value)) in FalseTokens
    ensures r.Failure? <==> Lower(Strip(value)) !in TrueTokens + FalseTokens
    ensures r.Failure? ==> r.error == InvalidBool(value)
  {
    var normalized := Lower(Strip(value));
    TokensDisjoint(normalized);
    if normalized in TrueTokens then Success(true)
    else if normalized in FalseTokens then Success(false)
    else Failure(InvalidBool(value))
  }

  /** Sample literals: upper-case `TRUE`, `0`, and `maybe`. */
  const UpperTrue: string := "TRUE"
  const Zero: string := "0"
  const Maybe: string := "maybe"

  /** Upper-case `TRUE` is true. */
  lemma ParseBoolUpperTrue()
    ensures ParseBool(UpperTrue) == Success(true)
  {
    StripNoSpace(UpperTrue);
    var n := Lower(Strip(UpperTrue));
    assert n == "true";
  }

  /** `0` is false. */
  lemma ParseBoolZero()
    ensures ParseBool(Zero) == Success(false)
  {
    StripNoSpace(Zero);
    var n := Lower(Strip(Zero));
    assert n == "0";
  }

  /** `maybe` is rejected. */
  lemma ParseBoolMaybe()
    ensures ParseBool(Maybe) == Failure(InvalidBool(Maybe))
  {
    StripNoSpace(Maybe);
    var n := Lower(Strip(Maybe));
    assert n == "maybe";
  }

  /** `[part.strip() for part in pieces]`. */
  function StripAll(pieces: seq<string>): (r: seq<string>)
    ensures |r| == |pieces| && forall i :: 0 <= i < |pieces| ==> r[i] == Strip(pieces[i])
  {
    seq(|pieces|, i requires 0 <= i < |pieces| => Strip(pieces[i]))
  }

  /**
   * `_split_items`: split on `sep`, strip every piece, and reject the input
   * when any stripped piece is empty; an empty separator is rejected as
   * `str.split` rejects it.
   */
  function SplitItems(value: string, sep: string): (r: Result<seq<string>, ParseError>)
    ensures |sep| == 0 ==> r == Failure(EmptySeparator)
    ensures |sep| > 0 && r.Failure? ==> exists i :: 0 <= i < |Split(value, sep)| && Strip(Split(value, sep)[i]) == ""
    ensures r.Success? ==> && |r.value| == |Split(value, sep)|
                           && forall i :: 0 <= i < |r.value| ==> r.value[i] == Strip(Split(value, sep)[i]) && r.value[i] != ""
    ensures |sep| > 0 && r.Failure? ==> r.error == EmptyItem(value)
  {
    if |sep| == 0 then Failure(EmptySeparator)
    else
      var pieces := Split(value, sep);
      var parts := StripAll(pieces);
      if exists i :: 0 <= i < |pieces| && Strip(pieces[i]) == "" then Failure(EmptyItem(value)) else Success(parts)
  }

  /** Items with no surrounding whitespace join back, with the separator, into the original input. */
  lemma SplitItemsRoundTrip(value: string, sep: string)
    requires SplitItems(value, sep).Success?
    requires forall i :: 0 <= i < |Split(value, sep)| ==> Strip(Split(value, sep)[i]) == Split(value, sep)[i]
    ensures Join(SplitItems(value, sep).value, sep) == value
  {
    assert SplitItems(value, sep).value == Split(value, sep);
    JoinSplit(value, sep);
  }

  /** When every piece is already stripped and non-empty, the items are the pieces themselves. */
  lemma SplitItemsOfStripped(value: string, sep: string, pieces: seq<string>)
    requires |sep| > 0 && Split(value, sep) == pieces
    requires forall i :: 0 <= i < |pieces| ==> pieces[i] != "" && Strip(pieces[i]) == pieces[i]
    ensures SplitItems(value, sep) == Success(pieces)
  {
    assert StripAll(pieces) == pieces;
  }

  /** A well-formed list and one with an empty item. */
  const ThreeItems: string := "a,b,c"
  const EmptyMiddleItem: string := "a,,b"

  /** `a,b,c` split on commas. */
  lemma SplitThree()
    ensures Split(ThreeItems, ",") == ["a", "b", "c"]
  {
    assert ThreeItems == "a" + [','] + "b,c";
    assert "b,c" == "b" + [','] + "c";
    SplitCharCons("a", ',', "b,c");
    SplitOnChar("b", ',', "c");
  }

  /** `a,b,c` splits into its three items. */
  lemma SplitItemsThree()
    ensures SplitItems(ThreeItems, ",") == Success(["a", "b", "c"])
  {
    SplitThree();
    ThreeStrippedItems(ThreeItems, ",", "a", "b", "c");
  }

  /** Three pieces without surrounding whitespace are the three items. */
  lemma ThreeStrippedItems(value: string, sep: string, a: string, b: string, c: string)
    requires |sep| > 0 && Split(value, sep) == [a, b, c]
    requires |a| == 1 && |b| == 1 && |c| == 1
    requires !IsSpace(a[0]) && !IsSpace(b[0]) && !IsSpace(c[0])
    ensures SplitItems(value, sep) == Success([a, b, c])
  {
    StripNoSpace(a);
    StripNoSpace(b);
    StripNoSpace(c);
    SplitItemsOfStripped(value, sep, [a, b, c]);
  }

  /** `a,,b` is rejected for its empty middle item. */
  lemma SplitItemsEmptyMiddle()
    ensures SplitItems(EmptyMiddleItem, ",") == Failure(EmptyItem(EmptyMiddleItem))
  {
    assert EmptyMiddleItem == "a" + [','] + ",b";
    assert ",b" == "" + [','] + "b";
    SplitCharCons("a", ',', ",b");
    SplitOnChar("", ',', "b");
    assert Split(EmptyMiddleItem, ",")[1] == "";
    assert Strip("") == "";
  }

  /** Cast every item left to right; the first rejected item's error is the result. */
  function CastAll<T>(items: seq<string>, cast: Cast<T>): (r: Result<seq<T>, ParseError>)
    ensures r.Success? <==> forall i :: 0 <= i < |items| ==> cast(items[i]).Success?
    ensures r.Success? ==> |r.value| == |items| && forall i :: 0 <= i < |items| ==> cast(items[i]) == Success(r.value[i])
    ensures r.Failure? ==> exists i :: 0 <= i < |items| && cast(items[i]).Failure? && r.error == cast(items[i]).error
                                      && forall j :: 0 <= j < i ==> cast(items[j]).Success?
  {
    if |items| == 0 then Success([])
    else
      match cast(items[0])
      case Failure(e) => Failure(e)
      case Success(x) =>
        match CastAll(items[1..], cast)
        case Failure(e) => Failure(e)
        case Success(xs) => Success([x] + xs)
  }

  /**
   * `parse_list`: the cast of each stripped item, in order and with
   * repetitions kept; an empty item or a rejected cast is an error.
   */
  function ParseList<T>(value: string, sep: string, cast: Cast<T>): (r: Result<seq<T>, ParseError>)
    ensures SplitItems(value, sep).Failure? ==> r == Failure(SplitItems(value, sep).error)
    ensures r.Success? <==> && SplitItems(value, sep).Success?
                            && forall i :: 0 <= i < |SplitItems(value, sep).value| ==> cast(SplitItems(value, sep).value[i]).Success?
    ensures r.Success? ==> var items := SplitItems(value, sep).value;
      && |r.value| == |items|
      && forall i :: 0 <= i < |items| ==> cast(items[i]) == Success(r.value[i])
    ensures SplitItems(value, sep).Success? && r.Failure? ==> var items := SplitItems(value, sep).value;
      exists i :: && 0 <= i < |items| && cast(items[i]).Failure? && r.error == cast(items[i]).error
                  && forall j :: 0 <= j < i ==> cast(items[j]).Success?
  {
    match SplitItems(value, sep)
    case Failure(e) => Failure(e)
    case Success(items) => CastAll(items, cast)
  }

  /** With the default cast, `parse_list` returns the stripped items themselves. */
  lemma ParseListDefault(value: string, sep: string)
    ensures ParseList(value, sep, StringCast) == SplitItems(value, sep)
  {
    match SplitItems(value, sep)
    case Failure(_) =>
    case Success(items) =>
      var r := CastAll(items, StringCast);
      assert r.Success?;
      assert r.value == items;
  }

  /** `parse_set`: the set of the casts of the stripped items. */
  function ParseSet<T(!new)>(value: string, sep: string, cast: Cast<T>): (r: Result<set<T>, ParseError>)
    ensures SplitItems(value, sep).Failure? ==> r == Failure(SplitItems(value, sep).error)
    ensures r.Success? <==> ParseList(value, sep, cast).Success?
    ensures r.Failure? ==> r.error == ParseList(value, sep, cast).error
    ensures r.Success? ==> forall x :: x in r.value <==>
      exists i :: 0 <= i < |SplitItems(value, sep).value| && cast(SplitItems(value, sep).value[i]) == Success(x)
  {
    match ParseList(value, sep, cast)
    case Failure(e) => Failure(e)
    case Success(xs) => Success(set i | 0 <= i < |xs| :: xs[i])
  }

  /** `parse_set` and `parse_list` accept the same inputs, and the set holds exactly the list's elements. */
  lemma ParseSetOfList<T(!new)>(value: string, sep: string, cast: Cast<T>)
    ensures ParseSet(value, sep, cast).Success? <==> ParseList(value, sep, cast).Success?
    ensures ParseSet(value, sep, cast).Success? ==>
      forall x :: x in ParseSet(value, sep, cast).value <==> x in ParseList(value, sep, cast).value
  {
    if ParseList(value, sep, cast).Success? {
      var xs := ParseList(value, sep, cast).value;
      forall x | x in xs
        ensures x in ParseSet(value, sep, cast).value
      {
        var i :| 0 <= i < |xs| && xs[i] == x;
      }
    }
  }

  /** The stripped key and value of one pair: an empty key is rejected, otherwise the value is cast. */
  function KeyValue<V>(pair: string, key: string, raw: string, cast: Cast<V>): (r: Result<(string, V), ParseError>)
    ensures key == "" ==> r == Failure(EmptyKey(pair))
    ensures key != "" ==> (r.Success? <==> cast(raw).Success?)
    ensures r.Success? ==> r.value == (key, cast(raw).value)
    ensures key != "" && r.Failure? ==> r.error == cast(raw).error
  {
    if key == "" then Failure(EmptyKey(pair))
    else
      match cast(raw)
      case Failure(e) => Failure(e)
      case Success(v) => Success((key, v))
  }

  /**
   * One `key<kv_sep>value` pair: split at the first occurrence of the
   * separator, strip both sides, reject an empty key, cast the value.
   */
  function ParsePair<V>(pair: string, kvSep: string, cast: Cast<V>): (r: Result<(string, V), ParseError>)
    ensures |kvSep| == 0 ==> r == Failure(EmptySeparator)
    ensures |kvSep| > 0 && !Contains(pair, kvSep) ==> r == Failure(MissingKeyValueSeparator(kvSep, pair))
    ensures r.Success? ==> r.value.0 != ""
  {
    if |kvSep| == 0 then Failure(EmptySeparator)
    else
      match IndexFrom(pair, kvSep, 0)
      case None => Failure(MissingKeyValueSeparator(kvSep, pair))
      case Some(i) => KeyValue(pair, Strip(pair[..i]), Strip(pair[i + |kvSep|..]), cast)
  }

  /**
   * A pair is cut at the first occurrence of the separator only: the key is
   * the stripped text before it and the value the stripped text after it,
   * which may hold further separators.
   */
  lemma ParsePairSplitsAtFirst<V>(pair: string, kvSep: string, cast: Cast<V>, i: nat)
    requires |kvSep| > 0 && OccursAt(pair, kvSep, i)
    requires forall j :: 0 <= j < i ==> !OccursAt(pair, kvSep, j)
    ensures ParsePair(pair, kvSep, cast) == KeyValue(pair, Strip(pair[..i]), Strip(pair[i + |kvSep|..]), cast)
  {
    IndexFromFirstOccurrence(pair, kvSep, i);
    ParsePairAt(pair, kvSep, cast, i);
  }

  /** Where `find` locates the separator, the pair is cut there. */
  lemma ParsePairAt<V>(pair: string, kvSep: string, cast: Cast<V>, i: nat)
    requires |kvSep| > 0 && IndexFrom(pair, kvSep, 0) == Some(i)
    ensures i + |kvSep| <= |pair|
    ensures ParsePair(pair, kvSep, cast) == KeyValue(pair, Strip(pair[..i]), Strip(pair[i + |kvSep|..]), cast)
  {
    assert OccursAt(pair, kvSep, i);
    var before, after := pair[..i], pair[i + |kvSep|..];
    var key, raw := Strip(before), Strip(after);
    assert ParsePair(pair, kvSep, cast) == KeyValue(pair, key, raw, cast);
  }

  /** `ParsePair` applied to every pair. */
  function ParsePairs<V>(pairs: seq<string>, kvSep: string, cast: Cast<V>): (r: seq<Result<(string, V), ParseError>>)
    ensures |r| == |pairs| && forall i :: 0 <= i < |pairs| ==> r[i] == ParsePair(pairs[i], kvSep, cast)
  {
    seq(|pairs|, i requires 0 <= i < |pairs| => ParsePair(pairs[i], kvSep, cast))
  }

  /** Parsed pairs folded into a dictionary left to right; the first bad pair is the error. */
  function FoldPairs<V>(results: seq<Result<(string, V), ParseError>>): (r: Result<map<string, V>, ParseError>)
    ensures r.Success? <==> forall i :: 0 <= i < |results| ==> results[i].Success?
  {
    if |results| == 0 then Success(map[])
    else
      match FoldPairs(results[..|results| - 1])
      case Failure(e) => Failure(e)
      case Success(m) =>
        match results[|results| - 1]
        case Failure(e) => Failure(e)
        case Success(kv) => Success(m[kv.0 := kv.1])
  }

  /** The index of the last successfully parsed pair whose key is `key`, if any. */
  function LastWithKey<V>(results: seq<Result<(string, V), ParseError>>, key: string): (r: Option<nat>)
    ensures r.Some? ==> r.value < |results| && results[r.value].Success? && results[r.value].value.0 == key
    ensures r.Some? ==> forall j :: r.value < j < |results| ==> !(results[j].Success? && results[j].value.0 == key)
    ensures r.None? ==> forall j :: 0 <= j < |results| ==> !(results[j].Success? && results[j].value.0 == key)
  {
    if |results| == 0 then None
    else if results[|results| - 1].Success? && results[|results| - 1].value.0 == key then Some(|results| - 1)
    else LastWithKey(results[..|results| - 1], key)
  }

  /**
   * The dictionary maps each key to the value of the LAST pair carrying
   * it, and holds no other key: later duplicates overwrite earlier ones.
   */
  lemma {:induction false} FoldPairsLastWins<V>(results: seq<Result<(string, V), ParseError>>, key: string)
    requires FoldPairs(results).Success?
    ensures key in FoldPairs(results).value <==> LastWithKey(results, key).Some?
    ensures key in FoldPairs(results).value ==>
      FoldPairs(results).value[key] == results[LastWithKey(results, key).value].value.1
  {
    if |results| > 0 {
      var front := results[..|results| - 1];
      FoldPairsLastWins(front, key);
      assert forall j :: 0 <= j < |front| ==> front[j] == results[j];
    }
  }

  /** A failing fold reports the error of the first pair that fails. */
  lemma {:induction false} FoldPairsFirstError<V>(results: seq<Result<(string, V), ParseError>>)
    requires FoldPairs(results).Failure?
    ensures exists i :: 0 <= i < |results| && results[i].Failure? && FoldPairs(results).error == results[i].error
                        && forall j :: 0 <= j < i ==> results[j].Success?
  {
    var front := results[..|results| - 1];
    assert forall j :: 0 <= j < |front| ==> front[j] == results[j];
    if FoldPairs(front).Failure? {
      FoldPairsFirstError(front);
    }
  }

  /** Once a prefix of the parsed pairs fails, the whole fold fails with the same error. */
  lemma {:induction false} FoldPairsFailsFrom<V>(results: seq<Result<(string, V), ParseError>>, n: nat)
    requires n <= |results|
    requires FoldPairs(results[..n]).Failure?
    ensures FoldPairs(results) == FoldPairs(results[..n])
    decreases |results| - n
  {
    if n < |results| {
      assert results[..n + 1][..n] == results[..n];
      FoldPairsFailsFrom(results, n + 1);
    } else {
      assert results[..n] == results;
    }
  }

  /** What `parse_mapping` returns: the items of the input parsed as pairs and folded into a dictionary. */
  function MappingOf<V>(value: string, pairSep: string, kvSep: string, cast: Cast<V>): (r: Result<map<string, V>, ParseError>)
    ensures SplitItems(value, pairSep).Failure? ==> r == Failure(SplitItems(value, pairSep).error)
    ensures SplitItems(value, pairSep).Success? ==> r == FoldPairs(ParsePairs(SplitItems(value, pairSep).value, kvSep, cast))
  {
    match SplitItems(value, pairSep)
    case Failure(e) => Failure(e)
    case Success(pairs) => FoldPairs(ParsePairs(pairs, kvSep, cast))
  }

  /** `parse_mapping`, filling the dictionary one pair at a time. */
  method ParseMapping<V>(value: string, pairSep: string, kvSep: string, cast: Cast<V>) returns (r: Result<map<string, V>, ParseError>)
    ensures r == MappingOf(value, pairSep, kvSep, cast)
  {
    var split := SplitItems(value, pairSep);
    if split.Failure? {
      return Failure(split.error);
    }
    var pairs := split.value;
    ghost var results := ParsePairs(pairs, kvSep, cast);
    var mapping: map<string, V> := map[];
    var i := 0;
    while i < |pairs|
      invariant 0 <= i <= |pairs|
      invariant FoldPairs(results[..i]) == Success(mapping)
    {
      assert results[..i + 1][..i] == results[..i];
      var kv := ParsePair(pairs[i], kvSep, cast);
      if kv.Failure? {
        FoldPairsFailsFrom(results, i + 1);
        return Failure(kv.error);
      }
      mapping := mapping[kv.value.0 := kv.value.1];
      i := i + 1;
    }
    assert results[..i] == results;
    return Success(mapping);
  }

  /** `base ** k`. */
  function Power(base: nat, k: nat): (r: nat)
    ensures base >= 1 ==> r >= 1
  {
    if k == 0 then 1 else base * Power(base, k - 1)
  }

  /** Multipliers of the decimal units, keyed by the upper-cased unit: powers of 1000. */
  const DecimalMultipliers: map<string, nat> := map[
    "" := 1, "B" := 1,
    "K" := 1000, "KB" := 1000,
    "M" := 1000000, "MB" := 1000000,
    "G" := 1000000000, "GB" := 1000000000,
    "T" := 1000000000000, "TB" := 1000000000000]

  /** Multipliers of the binary units, keyed by the upper-cased unit: powers of 1024. */
  const BinaryMultipliers: map<string, nat> := map[
    "KI" := 1024, "KIB" := 1024,
    "MI" := 1048576, "MIB" := 1048576,
    "GI" := 1073741824, "GIB" := 1073741824,
    "TI" := 1099511627776, "TIB" := 1099511627776]

  /** The multiplier of a unit as written: upper-cased, looked up in the decimal table, then in the binary one. */
  function UnitMultiplier(unit: string): (r: Option<nat>)
    ensures r.Some? <==> Upper(unit) in DecimalMultipliers || Upper(unit) in BinaryMultipliers
    ensures r.Some? ==> r.value >= 1
  {
    var normalized := Upper(unit);
    if normalized in DecimalMultipliers then Some(DecimalMultipliers[normalized])
    else if normalized in BinaryMultipliers then Some(BinaryMultipliers[normalized])
    else None
  }

  /** The unit prefixes in order of magnitude: none, kilo, mega, giga, tera. */
  const Prefixes: seq<string> := ["", "K", "M", "G", "T"]

  /** The decimal units: the k-th prefix alone or followed by `B`, in any case, multiplies by 1000^k. */
  lemma DecimalUnit(unit: string, k: nat)
    requires k < |Prefixes|
    requires Upper(unit) == Prefixes[k] || Upper(unit) == Prefixes[k] + "B"
    ensures UnitMultiplier(unit) == Some(Power(1000, k))
  {
    var u := Upper(unit);
    if k == 0 {
      assert u == "" || u == "B";
    } else if k == 1 {
      assert u == "K" || u == "KB";
    } else if k == 2 {
      assert u == "M" || u == "MB";
      assert Power(1000, 2) == 1000000;
    } else if k == 3 {
      assert u == "G" || u == "GB";
      assert Power(1000, 3) == 1000000000;
    } else {
      assert u == "T" || u == "TB";
      assert Power(1000, 4) == 1000000000000;
    }
  }

  /** The binary units: the k-th prefix (k >= 1) followed by `I` or `IB`, in any case, multiplies by 1024^k. */
  lemma BinaryUnit(unit: string, k: nat)
    requires 1 <= k < |Prefixes|
    requires Upper(unit) == Prefixes[k] + "I" || Upper(unit) == Prefixes[k] + "IB"
    ensures UnitMultiplier(unit) == Some(Power(1024, k))
  {
    var u := Upper(unit);
    UnitTablesDisjoint(u);
    if k == 1 {
      assert u == "KI" || u == "KIB";
    } else if k == 2 {
      assert u == "MI" || u == "MIB";
      assert Power(1024, 2) == 1048576;
    } else if k == 3 {
      assert u == "GI" || u == "GIB";
      assert Power(1024, 3) == 1073741824;
    } else {
      assert u == "TI" || u == "TIB";
      assert Power(1024, 4) == 1099511627776;
    }
  }

  /** No unit is in both tables, so the lookup order never hides a binary multiplier. */
  lemma UnitTablesDisjoint(unit: string)
    ensures !(unit in DecimalMultipliers && unit in BinaryMultipliers)
  {
  }

  /** Units are case-insensitive: the lower- and upper-case spellings have the same multiplier as the unit itself. */
  lemma UnitMultiplierIgnoresCase(unit: string)
    ensures UnitMultiplier(Lower(unit)) == UnitMultiplier(unit)
    ensures UnitMultiplier(Upper(unit)) == UnitMultiplier(unit)
  {
    assert Upper(Lower(unit)) == Upper(unit) by {
      forall i | 0 <= i < |unit|
        ensures Upper(Lower(unit))[i] == Upper(unit)[i]
      {
      }
    }
    assert Upper(Upper(unit)) == Upper(unit) by {
      forall i | 0 <= i < |unit|
        ensures Upper(Upper(unit))[i] == Upper(unit)[i]
      {
      }
    }
  }

  /** Length of the leading run of ASCII digits. */
  function DigitRun(s: string): (n: nat)
    ensures n <= |s|
    ensures forall i :: 0 <= i < n ==> IsDigitChar(s[i])
    ensures n == |s| || !IsDigitChar(s[n])
  {
    if |s| == 0 || !IsDigitChar(s[0]) then 0 else 1 + DigitRun(s[1..])
  }

  /** Length of the leading run of ASCII letters. */
  function LetterRun(s: string): (n: nat)
    ensures n <= |s|
    ensures forall i :: 0 <= i < n ==> IsAsciiLetter(s[i])
    ensures n == |s| || !IsAsciiLetter(s[n])
  {
    if |s| == 0 || !IsAsciiLetter(s[0]) then 0 else 1 + LetterRun(s[1..])
  }

  /** The groups of a size literal: the whole digits, the fraction digits (empty when there is no point) and the unit. */
  datatype SizeLiteral = SizeLiteral(whole: string, fraction: string, unit: string)

  /** The number group and what follows it. */
  datatype NumberScan = NumberScan(whole: string, fraction: string, rest: string)

  /** The number group `[0-9]+(?:\.[0-9]+)?` at the start of `s`: a point is taken only with a digit after it. */
  function ScanNumber(s: string): (r: Option<NumberScan>)
    ensures r.Some? ==> IsDigits(r.value.whole)
    ensures r.Some? ==> forall i :: 0 <= i < |r.value.fraction| ==> IsDigitChar(r.value.fraction[i])
  {
    var n := DigitRun(s);
    if n == 0 then None
    else
      var rest := s[n..];
      if |rest| > 1 && rest[0] == '.' && DigitRun(rest[1..]) > 0 then
        var k := DigitRun(rest[1..]);
        Some(NumberScan(s[..n], rest[1..][..k], rest[1..][k..]))
      else Some(NumberScan(s[..n], "", rest))
  }

  /** `\s*([A-Za-z]{0,3})\s*` matching all of `t`: the unit, when there is one. */
  function ScanUnitTail(t: string): (r: Option<string>)
    ensures r.Some? ==> |r.value| <= 3 && forall i :: 0 <= i < |r.value| ==> IsAsciiLetter(r.value[i])
  {
    var u := LStrip(t);
    var m := LetterRun(u);
    if m > 3 || LStrip(u[m..]) != "" then None else Some(u[..m])
  }

  /**
   * The size pattern `^\s*([0-9]+(?:\.[0-9]+)?)\s*([A-Za-z]{0,3})\s*$`
   * matched against the whole input: optional whitespace, digits with an
   * optional point followed by digits, optional whitespace, at most three
   * letters, optional whitespace.
   */
  function ScanSize(value: string): (r: Option<SizeLiteral>)
    ensures r.Some? ==> WellFormedLiteral(r.value)
  {
    match ScanNumber(LStrip(value))
    case None => None
    case Some(number) =>
      match ScanUnitTail(number.rest)
      case None => None
      case Some(unit) => Some(SizeLiteral(number.whole, number.fraction, unit))
  }

  /** The exact value of `whole.fraction` scaled by `10 ** |fraction|`. */
  function Mantissa(lit: SizeLiteral): nat
  {
    DigitsValue(lit.whole + lit.fraction)
  }

  /** `mantissa * multiplier / 10 ** digits` when that is a whole number. */
  function ExactQuotient(mantissa: nat, multiplier: nat, digits: nat): (r: Option<nat>)
    ensures r.Some? <==> (mantissa * multiplier) % Power(10, digits) == 0
    ensures r.Some? ==> r.value * Power(10, digits) == mantissa * multiplier
  {
    var product := mantissa * multiplier;
    var scale := Power(10, digits);
    if product % scale != 0 then None else Some(product / scale)
  }

  /**
   * `parse_bytes_size`: the literal's number times its unit's multiplier,
   * which must be a whole number of bytes. The number is `Mantissa / 10 **
   * |fraction|`, so the product is exact integer arithmetic.
   */
  function ParseBytesSize(value: string): (r: Result<nat, ParseError>)
    ensures r.Failure? ==> r.error == InvalidSize(value) || r.error == UnknownUnit(value) || r.error == FractionalBytes(value)
  {
    match ScanSize(value)
    case None => Failure(InvalidSize(value))
    case Some(lit) =>
      match UnitMultiplier(lit.unit)
      case None => Failure(UnknownUnit(value))
      case Some(multiplier) =>
        match ExactQuotient(Mantissa(lit), multiplier, |lit.fraction|)
        case None => Failure(FractionalBytes(value))
        case Some(bytes) => Success(bytes)
  }

  /**
   * The outcomes of `parse_bytes_size`: a literal the pattern rejects, an
   * unknown unit, a product that is not a whole number of bytes, or the
   * number of bytes `n` with `n * 10 ** |fraction| == Mantissa * multiplier`.
   */
  lemma ParseBytesSizeOutcome(value: string)
    ensures ScanSize(value).None? <==> ParseBytesSize(value) == Failure(InvalidSize(value))
    ensures ScanSize(value).Some? ==>
      var lit := ScanSize(value).value;
      && (UnitMultiplier(lit.unit).None? <==> ParseBytesSize(value) == Failure(UnknownUnit(value)))
      && (UnitMultiplier(lit.unit).Some? ==>
            var product := Mantissa(lit) * UnitMultiplier(lit.unit).value;
            && (ParseBytesSize(value) == Failure(FractionalBytes(value)) <==> product % Power(10, |lit.fraction|) != 0)
            && (ParseBytesSize(value).Success? ==> ParseBytesSize(value).value * Power(10, |lit.fraction|) == product))
  {
  }

  /** The text of a size literal: its groups with whitespace around the number and the unit. */
  function SizeText(lead: string, lit: SizeLiteral, mid: string, trail: string): string
  {
    lead + NumberText(lit) + (mid + lit.unit + trail)
  }

  /** The number group: the whole digits, then a point and the fraction digits when there are any. */
  function NumberText(lit: SizeLiteral): string
  {
    lit.whole + (if lit.fraction == "" then "" else "." + lit.fraction)
  }

  /** The groups the size pattern can capture. */
  predicate WellFormedLiteral(lit: SizeLiteral)
  {
    && IsDigits(lit.whole)
    && (forall i :: 0 <= i < |lit.fraction| ==> IsDigitChar(lit.fraction[i]))
    && |lit.unit| <= 3
    && (forall i :: 0 <= i < |lit.unit| ==> IsAsciiLetter(lit.unit[i]))
  }

  lemma {:induction false} DigitRunOf(d: string, y: string)
    requires forall i :: 0 <= i < |d| ==> IsDigitChar(d[i])
    requires y == [] || !IsDigitChar(y[0])
    ensures DigitRun(d + y) == |d|
    decreases |d|
  {
    if |d| == 0 {
      assert d + y == y;
    } else {
      assert (d + y)[1..] == d[1..] + y;
      DigitRunOf(d[1..], y);
    }
  }

  lemma {:induction false} LetterRunOf(u: string, y: string)
    requires forall i :: 0 <= i < |u| ==> IsAsciiLetter(u[i])
    requires y == [] || !IsAsciiLetter(y[0])
    ensures LetterRun(u + y) == |u|
    decreases |u|
  {
    if |u| == 0 {
      assert u + y == y;
    } else {
      assert (u + y)[1..] == u[1..] + y;
      LetterRunOf(u[1..], y);
    }
  }

  /** After the number, whitespace and the unit are skipped exactly as the pattern does. */
  lemma ScanUnitTailOf(unit: string, mid: string, trail: string)
    requires AllSpace(mid) && AllSpace(trail)
    requires |unit| <= 3 && forall i :: 0 <= i < |unit| ==> IsAsciiLetter(unit[i])
    ensures ScanUnitTail(mid + unit + trail) == Some(unit)
  {
    LStripLeadingSpace(trail, "");
    assert trail + "" == trail;
    if unit == "" {
      assert mid + unit + trail == mid + trail + "";
      assert AllSpace(mid + trail);
      LStripLeadingSpace(mid + trail, "");
    } else {
      assert mid + unit + trail == mid + (unit + trail);
      LStripLeadingSpace(mid, unit + trail);
      LetterRunOf(unit, trail);
      assert (unit + trail)[..|unit|] == unit;
      assert (unit + trail)[|unit|..] == trail;
    }
  }

  /** A digit run followed by a non-digit: the run is exactly the digits, and what follows is left over. */
  lemma DigitsThen(d: string, y: string)
    requires forall i :: 0 <= i < |d| ==> IsDigitChar(d[i])
    requires y == [] || !IsDigitChar(y[0])
    ensures DigitRun(d + y) == |d|
    ensures (d + y)[..|d|] == d && (d + y)[|d|..] == y
  {
    DigitRunOf(d, y);
  }

  /** Digits followed by something that cannot continue the number: no fraction. */
  lemma ScanWholeNumber(whole: string, tail: string)
    requires IsDigits(whole)
    requires tail == [] || (!IsDigitChar(tail[0]) && tail[0] != '.')
    ensures ScanNumber(whole + tail) == Some(NumberScan(whole, "", tail))
  {
    DigitsThen(whole, tail);
  }

  /** Digits, a point and more digits, then something that cannot continue the number. */
  lemma ScanFractionalNumber(s: string, whole: string, fraction: string, tail: string)
    requires IsDigits(whole) && fraction != []
    requires forall i :: 0 <= i < |fraction| ==> IsDigitChar(fraction[i])
    requires tail == [] || (!IsDigitChar(tail[0]) && tail[0] != '.')
    requires s == whole + ("." + fraction + tail)
    ensures ScanNumber(s) == Some(NumberScan(whole, fraction, tail))
  {
    var rest := "." + fraction + tail;
    DigitsThen(whole, rest);
    assert rest[1..] == fraction + tail;
    DigitsThen(fraction, tail);
  }

  /** The number group is recovered from the number followed by anything that cannot continue it. */
  lemma ScanNumberOf(lit: SizeLiteral, tail: string)
    requires WellFormedLiteral(lit)
    requires tail == [] || (!IsDigitChar(tail[0]) && tail[0] != '.')
    ensures ScanNumber(NumberText(lit) + tail) == Some(NumberScan(lit.whole, lit.fraction, tail))
  {
    if lit.fraction == "" {
      assert NumberText(lit) == lit.whole;
      ScanWholeNumber(lit.whole, tail);
    } else {
      ScanFractionalNumber(NumberText(lit) + tail, lit.whole, lit.fraction, tail);
    }
  }

  /**
   * The scanner recovers the groups of any literal it could have matched:
   * whitespace, the number (with or without a fraction), whitespace, a unit
   * of at most three letters, whitespace.
   */
  lemma ScanSizeOfText(lead: string, lit: SizeLiteral, mid: string, trail: string)
    requires AllSpace(lead) && AllSpace(mid) && AllSpace(trail)
    requires WellFormedLiteral(lit)
    ensures ScanSize(SizeText(lead, lit, mid, trail)) == Some(lit)
  {
    var tail := mid + lit.unit + trail;
    assert tail == [] || (!IsDigitChar(tail[0]) && tail[0] != '.') by {
      if |mid| > 0 {
        assert tail[0] == mid[0];
      } else if |lit.unit| > 0 {
        assert tail[0] == lit.unit[0];
      } else if |trail| > 0 {
        assert tail[0] == trail[0];
      }
    }
    var number := NumberText(lit) + tail;
    assert number[0] == lit.whole[0];
    assert SizeText(lead, lit, mid, trail) == lead + number;
    LStripLeadingSpace(lead, number);
    ScanNumberOf(lit, tail);
    ScanUnitTailOf(lit.unit, mid, trail);
  }

  /** Every input the size pattern accepts is whitespace, the number, whitespace, the unit and whitespace. */
  lemma ScanSizeText(value: string)
    requires ScanSize(value).Some?
    ensures exists lead, mid, trail :: && AllSpace(lead) && AllSpace(mid) && AllSpace(trail)
                                       && value == SizeText(lead, ScanSize(value).value, mid, trail)
  {
    var lead, mid, trail := ScanSizePieces(value);
  }

  /** The whitespace around and between the groups of an accepted input. */
  lemma ScanSizePieces(value: string) returns (lead: string, mid: string, trail: string)
    requires ScanSize(value).Some?
    ensures AllSpace(lead) && AllSpace(mid) && AllSpace(trail)
    ensures value == SizeText(lead, ScanSize(value).value, mid, trail)
  {
    var lit := ScanSize(value).value;
    var s := LStrip(value);
    var number := ScanNumber(s).value;
    assert lit == SizeLiteral(number.whole, number.fraction, ScanUnitTail(number.rest).value);
    LStripSplit(value);
    lead := value[..|value| - |s|];
    assert value == lead + s;
    ScanNumberText(s);
    mid, trail := ScanUnitTailText(number.rest);
    SizeTextOfPieces(value, lead, s, lit, number.rest, mid, trail);
  }

  /** Whitespace, the number group, and a rest made of whitespace, the unit and whitespace, are the size text. */
  lemma SizeTextOfPieces(value: string, lead: string, s: string, lit: SizeLiteral, rest: string, mid: string, trail: string)
    requires value == lead + s
    requires s == lit.whole + (if lit.fraction == "" then "" else "." + lit.fraction) + rest
    requires rest == mid + lit.unit + trail
    ensures value == SizeText(lead, lit, mid, trail)
  {
    assert s == NumberText(lit) + rest;
  }

  /** The number group and what follows it make up the scanned text. */
  lemma ScanNumberText(s: string)
    requires ScanNumber(s).Some?
    ensures var number := ScanNumber(s).value;
            s == number.whole + (if number.fraction == "" then "" else "." + number.fraction) + number.rest
  {
    var n := DigitRun(s);
    var whole, rest := s[..n], s[n..];
    assert s == whole + rest;
    if |rest| > 1 && rest[0] == '.' && DigitRun(rest[1..]) > 0 {
      var after := rest[1..];
      var k := DigitRun(after);
      var fraction, tail := after[..k], after[k..];
      assert ScanNumber(s).value == NumberScan(whole, fraction, tail);
      assert |fraction| > 0;
      PointThenDigits(rest, fraction, tail);
      assert s == whole + ("." + fraction) + tail;
    } else {
      assert ScanNumber(s).value == NumberScan(whole, "", rest);
    }
  }

  /** A string that opens with a point is the point, then its remainder split in two. */
  lemma PointThenDigits(rest: string, fraction: string, tail: string)
    requires |rest| > 0 && rest[0] == '.' && rest[1..] == fraction + tail
    ensures rest == "." + fraction + tail
  {
    assert rest == [rest[0]] + rest[1..];
  }

  /** Text the unit tail accepts is whitespace, the unit and whitespace. */
  lemma ScanUnitTailText(t: string) returns (mid: string, trail: string)
    requires ScanUnitTail(t).Some?
    ensures AllSpace(mid) && AllSpace(trail) && t == mid + ScanUnitTail(t).value + trail
  {
    LStripSplit(t);
    var u := LStrip(t);
    mid := t[..|t| - |u|];
    var m := LetterRun(u);
    trail := u[m..];
    LStripSplit(trail);
    assert trail[..|trail|] == trail;
    assert u == u[..m] + trail;
  }

  /** Appending a digit `d` to `x * p + y` multiplies both parts by ten. */
  lemma ShiftDigit(x: int, p: int, y: int, d: int)
    ensures (x * p + y) * 10 + d == x * (p * 10) + (y * 10 + d)
  {
  }

  /** Reading the whole and fraction digits together scales the number by 10 per fraction digit. */
  lemma {:induction false} DigitsValueAppend(a: string, b: string)
    ensures DigitsValue(a + b) == DigitsValue(a) * Power(10, |b|) + DigitsValue(b)
    decreases |b|
  {
    if |b| == 0 {
      assert a + b == a;
    } else {
      var c := b[..|b| - 1];
      var d := DigitValue(b[|b| - 1]);
      assert (a + b)[..|a + b| - 1] == a + c;
      assert (a + b)[|a + b| - 1] == b[|b| - 1];
      DigitsValueAppend(a, c);
      var x, p := DigitsValue(a), Power(10, |c|);
      assert DigitsValue(a + b) == DigitsValue(a + c) * 10 + d;
      assert DigitsValue(b) == DigitsValue(c) * 10 + d;
      assert Power(10, |b|) == p * 10;
      ShiftDigit(x, p, DigitsValue(c), d);
    }
  }

  /**
   * A literal with a whole number of units is a whole number of bytes: its
   * value is the number times the multiplier, or the unit is unknown.
   */
  lemma WholeNumberOfUnits(lead: string, whole: string, unit: string, mid: string, trail: string)
    requires AllSpace(lead) && AllSpace(mid) && AllSpace(trail)
    requires WellFormedLiteral(SizeLiteral(whole, "", unit))
    ensures UnitMultiplier(unit).Some? ==>
      ParseBytesSize(SizeText(lead, SizeLiteral(whole, "", unit), mid, trail))
        == Success(DigitsValue(whole) * UnitMultiplier(unit).value)
    ensures UnitMultiplier(unit).None? ==>
      ParseBytesSize(SizeText(lead, SizeLiteral(whole, "", unit), mid, trail))
        == Failure(UnknownUnit(SizeText(lead, SizeLiteral(whole, "", unit), mid, trail)))
  {
    var lit := SizeLiteral(whole, "", unit);
    ScanSizeOfText(lead, lit, mid, trail);
    assert whole + "" == whole;
  }

  /** The mantissa is the whole digits shifted past the fraction digits, plus the fraction digits. */
  lemma MantissaOf(lit: SizeLiteral)
    ensures Mantissa(lit) == DigitsValue(lit.whole) * Power(10, |lit.fraction|) + DigitsValue(lit.fraction)
  {
    DigitsValueAppend(lit.whole, lit.fraction);
  }

  /** Once the literal and its unit's multiplier are known, only the exact division decides. */
  lemma ParseBytesSizeOfLiteral(text: string, lit: SizeLiteral, multiplier: nat)
    requires ScanSize(text) == Some(lit)
    requires UnitMultiplier(lit.unit) == Some(multiplier)
    ensures ExactQuotient(Mantissa(lit), multiplier, |lit.fraction|).Some? ==>
      ParseBytesSize(text) == Success(ExactQuotient(Mantissa(lit), multiplier, |lit.fraction|).value)
    ensures ExactQuotient(Mantissa(lit), multiplier, |lit.fraction|).None? ==>
      ParseBytesSize(text) == Failure(FractionalBytes(text))
  {
  }

  /** A fractional literal is exact: `m.f` units are `(m * 10^|f| + f) * multiplier / 10^|f|` bytes when that divides. */
  lemma FractionalNumberOfUnits(lead: string, lit: SizeLiteral, mid: string, trail: string, multiplier: nat)
    requires AllSpace(lead) && AllSpace(mid) && AllSpace(trail)
    requires WellFormedLiteral(lit)
    requires UnitMultiplier(lit.unit) == Some(multiplier)
    ensures Mantissa(lit) == DigitsValue(lit.whole) * Power(10, |lit.fraction|) + DigitsValue(lit.fraction)
    ensures var bytes := ParseBytesSize(SizeText(lead, lit, mid, trail));
            var scaled := Mantissa(lit) * multiplier;
            && (bytes.Success? <==> scaled % Power(10, |lit.fraction|) == 0)
            && (bytes.Success? ==> bytes.value * Power(10, |lit.fraction|) == scaled)
            && (bytes.Failure? ==> bytes.error == FractionalBytes(SizeText(lead, lit, mid, trail)))
  {
    var text := SizeText(lead, lit, mid, trail);
    ScanSizeOfText(lead, lit, mid, trail);
    MantissaOf(lit);
    ParseBytesSizeOfLiteral(text, lit, multiplier);
  }

  /** Without whitespace, digits followed by a known unit are that many times its multiplier. */
  lemma WholeUnits(whole: string, unit: string, multiplier: nat)
    requires IsDigits(whole)
    requires |unit| <= 3 && forall i :: 0 <= i < |unit| ==> IsAsciiLetter(unit[i])
    requires UnitMultiplier(unit) == Some(multiplier)
    ensures ParseBytesSize(whole + unit) == Success(DigitsValue(whole) * multiplier)
  {
    assert SizeText("", SizeLiteral(whole, "", unit), "", "") == whole + unit;
    WholeNumberOfUnits("", whole, unit, "", "");
  }

  /** Without whitespace, digits followed by an unknown unit fail naming the input. */
  lemma UnknownUnits(whole: string, unit: string)
    requires IsDigits(whole)
    requires |unit| <= 3 && forall i :: 0 <= i < |unit| ==> IsAsciiLetter(unit[i])
    requires UnitMultiplier(unit).None?
    ensures ParseBytesSize(whole + unit) == Failure(UnknownUnit(whole + unit))
  {
    assert SizeText("", SizeLiteral(whole, "", unit), "", "") == whole + unit;
    WholeNumberOfUnits("", whole, unit, "", "");
  }

  const TenMegabytes: string := "10MB"
  const OneGibibyte: string := "1Gi"
  const OneAndAHalfBytes: string := "1.5B"
  const TenUnknownUnits: string := "10XB"

  const Ten: string := "10"
  const One: string := "1"
  const MegabyteUnit: string := "MB"
  const GibiUnit: string := "Gi"
  const UnknownXB: string := "XB"

  lemma TenOf(text: string, unit: string, multiplier: nat)
    requires text == Ten + unit
    requires |unit| <= 3 && forall i :: 0 <= i < |unit| ==> IsAsciiLetter(unit[i])
    requires UnitMultiplier(unit) == Some(multiplier)
    ensures ParseBytesSize(text) == Success(10 * multiplier)
  {
    assert IsDigits(Ten) && DigitsValue(Ten) == 10;
    WholeUnits(Ten, unit, multiplier);
  }

  lemma OneOf(text: string, unit: string, multiplier: nat)
    requires text == One + unit
    requires |unit| <= 3 && forall i :: 0 <= i < |unit| ==> IsAsciiLetter(unit[i])
    requires UnitMultiplier(unit) == Some(multiplier)
    ensures ParseBytesSize(text) == Success(multiplier)
  {
    assert IsDigits(One) && DigitsValue(One) == 1;
    WholeUnits(One, unit, multiplier);
  }

  lemma MegabyteMultiplier()
    ensures UnitMultiplier(MegabyteUnit) == Some(1000000)
  {
    assert Upper(MegabyteUnit) == "MB";
    DecimalUnit(MegabyteUnit, 2);
    assert Power(1000, 2) == 1000000;
  }

  lemma GibiMultiplier()
    ensures UnitMultiplier(GibiUnit) == Some(Power(1024, 3))
  {
    assert Upper(GibiUnit) == "GI";
    BinaryUnit(GibiUnit, 3);
  }

  /** `10MB` is ten million bytes. */
  lemma TenMegabytesExample()
    ensures ParseBytesSize(TenMegabytes) == Success(10000000)
  {
    MegabyteMultiplier();
    TenOf(TenMegabytes, MegabyteUnit, 1000000);
  }

  /** `1Gi` is 1024^3 bytes: units are case-insensitive. */
  lemma OneGibibyteExample()
    ensures ParseBytesSize(OneGibibyte) == Success(Power(1024, 3))
  {
    GibiMultiplier();
    OneOf(OneGibibyte, GibiUnit, Power(1024, 3));
  }

  /** `10XB` names no unit. */
  lemma TenUnknownUnitsExample()
    ensures ParseBytesSize(TenUnknownUnits) == Failure(UnknownUnit(TenUnknownUnits))
  {
    assert Upper(UnknownXB) == "XB";
    assert IsDigits(Ten);
    assert TenUnknownUnits == Ten + UnknownXB;
    UnknownUnits(Ten, UnknownXB);
  }

  const OnePointFive: string := "1.5"
  const Five: string := "5"
  const ByteUnit: string := "B"

  lemma OnePointFiveOf(text: string, unit: string, multiplier: nat)
    requires text == OnePointFive + unit
    requires |unit| <= 3 && forall i :: 0 <= i < |unit| ==> IsAsciiLetter(unit[i])
    requires UnitMultiplier(unit) == Some(multiplier)
    requires (15 * multiplier) % 10 != 0
    ensures ParseBytesSize(text) == Failure(FractionalBytes(text))
  {
    var lit := SizeLiteral(One, Five, unit);
    assert IsDigits(One) && DigitsValue(One) == 1;
    assert IsDigitChar(Five[0]) && DigitsValue(Five) == 5;
    assert Power(10, |Five|) == 10;
    assert SizeText("", lit, "", "") == OnePointFive + unit;
    FractionalNumberOfUnits("", lit, "", "", multiplier);
  }

  lemma ByteMultiplier()
    ensures UnitMultiplier(ByteUnit) == Some(1)
  {
    assert Upper(ByteUnit) == "B";
    DecimalUnit(ByteUnit, 0);
  }

  /** `1.5B` is not a whole number of bytes. */
  lemma OneAndAHalfBytesExample()
    ensures ParseBytesSize(OneAndAHalfBytes) == Failure(FractionalBytes(OneAndAHalfBytes))
  {
    ByteMultiplier();
    OnePointFiveOf(OneAndAHalfBytes, ByteUnit, 1);
  }
}
