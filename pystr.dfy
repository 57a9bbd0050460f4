/**
 * The handful of Python `str` operations the modelled code relies on:
 * whitespace tests, `strip`/`lstrip`, `split` (with and without a
 * separator), `join`, `startswith`, ASCII `upper`/`lower`, `isdigit`,
 * `str(int)` and `int(str)`.
 */
module PyStr {
  import opened Wrappers

  /** Python's `str.isspace()` for one character (the characters `split()`, `strip()` and `\s` treat as whitespace). */
  predicate IsSpace(c: char)
  {
    var n := c as int;
    || n == 0x20 || 0x09 <= n <= 0x0D || 0x1C <= n <= 0x1F || n == 0x85 || n == 0xA0 || n == 0x1680
    || 0x2000 <= n <= 0x200A || n == 0x2028 || n == 0x2029 || n == 0x202F || n == 0x205F || n == 0x3000
  }

  predicate IsDigitChar(c: char) { '0' <= c <= '9' }

  predicate IsAsciiLetter(c: char) { 'a' <= c <= 'z' || 'A' <= c <= 'Z' }

  /** `s.isdigit()` on ASCII: non-empty and every character a decimal digit. */
  predicate IsDigits(s: string)
  {
    |s| > 0 && forall i :: 0 <= i < |s| ==> IsDigitChar(s[i])
  }

  /** `s.startswith(prefix)`. */
  predicate StartsWith(s: string, prefix: string)
  {
    |prefix| <= |s| && s[..|prefix|] == prefix
  }

  /** `s.lstrip()`: drop leading whitespace. */
  function LStrip(s: string): (r: string)
    ensures |r| <= |s|
    ensures r == [] || !IsSpace(r[0])
  {
    if |s| > 0 && IsSpace(s[0]) then LStrip(s[1..]) else s
  }

  /** `s.rstrip()`: drop trailing whitespace. */
  function RStrip(s: string): (r: string)
    ensures |r| <= |s|
    ensures |r| > 0 ==> r[0] == s[0]
    ensures r == [] || !IsSpace(r[|r| - 1])
  {
    if |s| > 0 && IsSpace(s[|s| - 1]) then RStrip(s[..|s| - 1]) else s
  }

  /** `s.strip()`. */
  function Strip(s: string): (r: string)
    ensures r == [] || (!IsSpace(r[0]) && !IsSpace(r[|r| - 1]))
  {
    RStrip(LStrip(s))
  }

  /** `s.lstrip(c)` for a single character `c`. */
  function LStripChar(s: string, c: char): (r: string)
    ensures |r| <= |s|
    ensures r == [] || r[0] != c
  {
    if |s| > 0 && s[0] == c then LStripChar(s[1..], c) else s
  }

  /** A string of whitespace only. */
  predicate AllSpace(s: string)
  {
    forall i :: 0 <= i < |s| ==> IsSpace(s[i])
  }

  /** Leading whitespace is what `lstrip` removes. */
  lemma {:induction false} LStripLeadingSpace(w: string, x: string)
    requires AllSpace(w)
    requires x == [] || !IsSpace(x[0])
    ensures LStrip(w + x) == x
    decreases |w|
  {
    if |w| == 0 {
      assert w + x == x;
    } else {
      assert (w + x)[1..] == w[1..] + x;
      LStripLeadingSpace(w[1..], x);
    }
  }

  function UpperChar(c: char): char
  {
    if 'a' <= c <= 'z' then (c as int - 'a' as int + 'A' as int) as char else c
  }

  function LowerChar(c: char): char
  {
    if 'A' <= c <= 'Z' then (c as int - 'A' as int + 'a' as int) as char else c
  }

  /** `s.upper()` on ASCII letters. */
  function Upper(s: string): (r: string)
    ensures |r| == |s| && forall i :: 0 <= i < |s| ==> r[i] == UpperChar(s[i])
  {
    seq(|s|, i requires 0 <= i < |s| => UpperChar(s[i]))
  }

  /** `s.lower()` on ASCII letters. */
  function Lower(s: string): (r: string)
    ensures |r| == |s| && forall i :: 0 <= i < |s| ==> r[i] == LowerChar(s[i])
  {
    seq(|s|, i requires 0 <= i < |s| => LowerChar(s[i]))
  }

  /** `sub` occurs in `s` starting at index `j`. */
  predicate OccursAt(s: string, sub: string, j: int)
  {
    0 <= j && j + |sub| <= |s| && s[j..j + |sub|] == sub
  }

  /** `s.find(sub, i)`: the first occurrence of `sub` at or after `i`. */
  function IndexFrom(s: string, sub: string, i: nat): (r: Option<nat>)
    ensures r.Some? ==> i <= r.value && OccursAt(s, sub, r.value)
    decreases |s| - i
  {
    if i + |sub| > |s| then None
    else if s[i..i + |sub|] == sub then Some(i)
    else IndexFrom(s, sub, i + 1)
  }

  /** `find` returns the first occurrence, and reports none only when there is none. */
  lemma {:induction false} IndexFromIsFirst(s: string, sub: string, i: nat)
    ensures IndexFrom(s, sub, i).Some? ==> forall j :: i <= j < IndexFrom(s, sub, i).value ==> !OccursAt(s, sub, j)
    ensures IndexFrom(s, sub, i).None? ==> forall j :: i <= j ==> !OccursAt(s, sub, j)
    decreases |s| - i
  {
    if i + |sub| <= |s| && s[i..i + |sub|] != sub {
      IndexFromIsFirst(s, sub, i + 1);
    }
  }

  /** An occurrence with none before it is what `find` returns. */
  lemma IndexFromFirstOccurrence(s: string, sub: string, i: nat)
    requires OccursAt(s, sub, i)
    requires forall j :: 0 <= j < i ==> !OccursAt(s, sub, j)
    ensures IndexFrom(s, sub, 0) == Some(i)
  {
    IndexFromIsFirst(s, sub, 0);
  }

  /** `sub in s`. */
  predicate Contains(s: string, sub: string)
  {
    IndexFrom(s, sub, 0).Some?
  }

  /** `s.split(sep)` for a non-empty separator: the pieces between the occurrences of `sep`, left to right. */
  function Split(s: string, sep: string): (r: seq<string>)
    requires |sep| > 0
    ensures |r| >= 1
    decreases |s|
  {
    match IndexFrom(s, sep, 0)
    case None => [s]
    case Some(i) => [s[..i]] + Split(s[i + |sep|..], sep)
  }

  /** `sep.join(parts)`. */
  function Join(parts: seq<string>, sep: string): string
  {
    if |parts| == 0 then ""
    else if |parts| == 1 then parts[0]
    else parts[0] + sep + Join(parts[1..], sep)
  }

  /** Joining a first piece onto at least one more piece puts the separator between them. */
  lemma JoinCons(a: string, tail: seq<string>, sep: string)
    requires |tail| >= 1
    ensures Join([a] + tail, sep) == a + sep + Join(tail, sep)
  {
    assert ([a] + tail)[1..] == tail;
  }

  /** An occurrence of the separator at `i` cuts the string into what is before it, the separator and what follows. */
  lemma SplitAt(s: string, sep: string, i: nat)
    requires OccursAt(s, sep, i)
    ensures s == s[..i] + sep + s[i + |sep|..]
  {
    assert s[i..i + |sep|] == sep;
    assert s == s[..i] + s[i..i + |sep|] + s[i + |sep|..];
  }

  /** Splitting and joining with the same separator gives back the original string. */
  lemma {:induction false} JoinSplit(s: string, sep: string)
    requires |sep| > 0
    ensures Join(Split(s, sep), sep) == s
    decreases |s|
  {
    var r := IndexFrom(s, sep, 0);
    if r.Some? {
      var i := r.value;
      var rest := s[i + |sep|..];
      JoinSplit(rest, sep);
      JoinCons(s[..i], Split(rest, sep), sep);
      SplitAt(s, sep, i);
    }
  }

  /** A one-character separator is found nowhere in a stretch that does not hold it. */
  lemma {:induction false} IndexFromAbsentChar(s: string, c: char, i: nat)
    requires forall j :: i <= j < |s| ==> s[j] != c
    ensures IndexFrom(s, [c], i) == None
    decreases |s| - i
  {
    if i + 1 <= |s| {
      assert s[i..i + 1] == [s[i]];
      IndexFromAbsentChar(s, c, i + 1);
    }
  }

  /** A one-character separator is found at its first occurrence. */
  lemma {:induction false} IndexFromFirstChar(s: string, c: char, i: nat, k: nat)
    requires i <= k < |s| && s[k] == c
    requires forall j :: i <= j < k ==> s[j] != c
    ensures IndexFrom(s, [c], i) == Some(k)
    decreases k - i
  {
    assert s[i..i + 1] == [s[i]];
    if i < k {
      IndexFromFirstChar(s, c, i + 1, k);
    }
  }

  /** Searching from `i` finds a one-character separator exactly when one occurs at or after `i`. */
  lemma {:induction false} ContainsCharFrom(s: string, c: char, i: nat)
    ensures IndexFrom(s, [c], i).Some? <==> exists j :: i <= j < |s| && s[j] == c
    decreases |s| - i
  {
    if i + 1 <= |s| {
      assert s[i..i + 1] == [s[i]];
      ContainsCharFrom(s, c, i + 1);
    }
  }

  /** `c in s` as Python's substring test for a one-character string. */
  lemma ContainsChar(s: string, c: char)
    ensures Contains(s, [c]) <==> c in s
  {
    ContainsCharFrom(s, c, 0);
  }

  /** A string without the one-character separator splits into itself alone. */
  lemma SplitNoChar(s: string, c: char)
    requires c !in s
    ensures Split(s, [c]) == [s]
  {
    IndexFromAbsentChar(s, c, 0);
  }

  /** A string split at its first one-character separator: the piece before it, then the split of the rest. */
  lemma SplitCharCons(a: string, c: char, rest: string)
    requires c !in a
    ensures Split(a + [c] + rest, [c]) == [a] + Split(rest, [c])
  {
    var s := a + [c] + rest;
    IndexFromFirstChar(s, c, 0, |a|);
    assert s[..|a|] == a;
    assert s[|a| + 1..] == rest;
  }

  /** One separator between two separator-free pieces splits into exactly those two pieces. */
  lemma SplitOnChar(a: string, c: char, b: string)
    requires c !in a && c !in b
    ensures Split(a + [c] + b, [c]) == [a, b]
  {
    SplitCharCons(a, c, b);
    SplitNoChar(b, c);
  }

  /** Length of the longest prefix of `s` that holds no whitespace. */
  function WordLength(s: string): (n: nat)
    ensures n <= |s|
    ensures forall i :: 0 <= i < n ==> !IsSpace(s[i])
    ensures n == |s| || IsSpace(s[n])
  {
    if |s| == 0 || IsSpace(s[0]) then 0 else 1 + WordLength(s[1..])
  }

  /** A non-empty string without whitespace. */
  predicate IsWord(w: string)
  {
    |w| > 0 && forall i :: 0 <= i < |w| ==> !IsSpace(w[i])
  }

  /** `s.split()`: the maximal whitespace-free runs, in order, without empty strings. */
  function SplitWhitespace(s: string): seq<string>
    decreases |s|
  {
    var t := LStrip(s);
    if |t| == 0 then []
    else
      var n := WordLength(t);
      [t[..n]] + SplitWhitespace(t[n..])
  }

  /** Every field `split()` returns is non-empty and free of whitespace. */
  lemma {:induction false} SplitWhitespaceWords(s: string)
    ensures forall k :: 0 <= k < |SplitWhitespace(s)| ==> IsWord(SplitWhitespace(s)[k])
    decreases |s|
  {
    var t := LStrip(s);
    if |t| > 0 {
      var n := WordLength(t);
      FirstWordIsWord(t);
      SplitWhitespaceWords(t[n..]);
    }
  }

  /** The run of non-space characters at the head of a string that starts with one is a word. */
  lemma FirstWordIsWord(t: string)
    requires |t| > 0 && !IsSpace(t[0])
    ensures IsWord(t[..WordLength(t)])
  {
    var w := t[..WordLength(t)];
    forall i | 0 <= i < |w| ensures !IsSpace(w[i]) { assert w[i] == t[i]; }
  }

  function DigitValue(c: char): nat
  {
    if IsDigitChar(c) then c as int - '0' as int else 0
  }

  function DigitChar(d: nat): char
    requires d < 10
  {
    (d + '0' as int) as char
  }

  /** The decimal value of a string of ASCII digits. */
  function DigitsValue(s: string): nat
  {
    if |s| == 0 then 0 else DigitsValue(s[..|s| - 1]) * 10 + DigitValue(s[|s| - 1])
  }

  /** `str(n)` for a natural number. */
  function NatToString(n: nat): string
  {
    if n < 10 then [DigitChar(n)] else NatToString(n / 10) + [DigitChar(n % 10)]
  }

  /** `str(i)` for any integer. */
  function IntToString(i: int): string
  {
    if i < 0 then "-" + NatToString(-i) else NatToString(i)
  }

  /** `str(n)` is a digit string and reading it back gives `n`. */
  lemma {:induction false} NatToStringRoundTrip(n: nat)
    ensures IsDigits(NatToString(n))
    ensures DigitsValue(NatToString(n)) == n
  {
    if n >= 10 {
      NatToStringRoundTrip(n / 10);
      var s := NatToString(n);
      assert s[..|s| - 1] == NatToString(n / 10);
    }
  }

  /** The digit groups Python's `int()` accepts: digits, with single underscores between digits. */
  predicate IsUnderscoredDigits(s: string)
  {
    && |s| > 0
    && IsDigitChar(s[0]) && IsDigitChar(s[|s| - 1])
    && (forall i :: 0 <= i < |s| ==> IsDigitChar(s[i]) || s[i] == '_')
    && (forall i :: 0 <= i < |s| - 1 ==> s[i] == '_' ==> s[i + 1] != '_')
  }

  function RemoveUnderscores(s: string): (r: string)
    ensures forall i :: 0 <= i < |r| ==> r[i] != '_'
  {
    if |s| == 0 then ""
    else if s[0] == '_' then RemoveUnderscores(s[1..])
    else [s[0]] + RemoveUnderscores(s[1..])
  }

  /** Python's `int(s)` in base 10 on ASCII text: surrounding whitespace, an optional sign and underscored digits. */
  function PyInt(s: string): (r: Option<int>)
    ensures r.Some? ==> |Strip(s)| > 0
  {
    var t := Strip(s);
    var signed := |t| > 0 && (t[0] == '+' || t[0] == '-');
    var body := if signed then t[1..] else t;
    if !IsUnderscoredDigits(body) then None
    else
      var magnitude: int := DigitsValue(RemoveUnderscores(body));
      Some(if signed && t[0] == '-' then -magnitude else magnitude)
  }

  lemma RemoveUnderscoresOfDigits(s: string)
    requires forall i :: 0 <= i < |s| ==> IsDigitChar(s[i])
    ensures RemoveUnderscores(s) == s
  {
  }

  lemma DigitsAreUnderscoredDigits(s: string)
    requires IsDigits(s)
    ensures IsUnderscoredDigits(s)
  {
  }

  /** A string with no surrounding whitespace is its own `strip()`. */
  lemma StripNoSpace(s: string)
    requires |s| > 0 && !IsSpace(s[0]) && !IsSpace(s[|s| - 1])
    ensures Strip(s) == s
  {
    assert LStrip(s) == s;
  }

  /** A plain digit string is read by `int()` as its decimal value. */
  lemma PyIntOfDigits(s: string)
    requires IsDigits(s)
    ensures PyInt(s) == Some(DigitsValue(s))
  {
    assert IsDigitChar(s[0]) && IsDigitChar(s[|s| - 1]);
    StripNoSpace(s);
    var t := Strip(s);
    assert t == s;
    assert !(t[0] == '+' || t[0] == '-');
    DigitsAreUnderscoredDigits(s);
    RemoveUnderscoresOfDigits(s);
  }

  /** A minus sign before a digit string negates what `int()` reads. */
  lemma PyIntOfNegatedDigits(d: string)
    requires IsDigits(d)
    ensures PyInt("-" + d) == Some(-(DigitsValue(d) as int))
  {
    var s := "-" + d;
    assert s[0] == '-' && s[1..] == d;
    PyIntOfMinus(s);
  }

  lemma PyIntOfMinus(s: string)
    requires |s| > 1 && s[0] == '-' && IsDigits(s[1..])
    ensures PyInt(s) == Some(-(DigitsValue(s[1..]) as int))
  {
    var d := s[1..];
    assert IsDigitChar(d[|d| - 1]) && s[|s| - 1] == d[|d| - 1];
    StripNoSpace(s);
    assert Strip(s) == s;
    DigitsAreUnderscoredDigits(d);
    RemoveUnderscoresOfDigits(d);
  }

  /** `int(str(i)) == i` for every integer. */
  lemma PyIntOfIntToString(i: int)
    ensures PyInt(IntToString(i)) == Some(i)
  {
    var m: nat := if i < 0 then -i else i;
    NatToStringRoundTrip(m);
    if i < 0 {
      PyIntOfNegatedDigits(NatToString(m));
    } else {
      PyIntOfDigits(NatToString(m));
    }
  }

  /** Joining two non-empty lists puts one separator between their joins. */
  lemma {:induction false} JoinAppend(x: seq<string>, y: seq<string>, sep: string)
    requires |x| >= 1 && |y| >= 1
    ensures Join(x + y, sep) == Join(x, sep) + sep + Join(y, sep)
    decreases |x|
  {
    if |x| == 1 {
      JoinCons(x[0], y, sep);
      assert [x[0]] + y == x + y;
    } else {
      assert x + y == [x[0]] + (x[1..] + y);
      JoinCons(x[0], x[1..] + y, sep);
      JoinAppend(x[1..], y, sep);
      JoinCons(x[0], x[1..], sep);
      assert [x[0]] + x[1..] == x;
    }
  }

  /** Splitting a join on a one-character separator that no piece contains gives the pieces back. */
  lemma {:induction false} SplitJoinChar(pieces: seq<string>, c: char)
    requires |pieces| >= 1
    requires forall k :: 0 <= k < |pieces| ==> c !in pieces[k]
    ensures Split(Join(pieces, [c]), [c]) == pieces
    decreases |pieces|
  {
    if |pieces| == 1 {
      SplitNoChar(pieces[0], c);
    } else {
      JoinCons(pieces[0], pieces[1..], [c]);
      assert [pieces[0]] + pieces[1..] == pieces;
      assert pieces[0] + [c] + Join(pieces[1..], [c]) == Join(pieces, [c]);
      SplitCharCons(pieces[0], c, Join(pieces[1..], [c]));
      SplitJoinChar(pieces[1..], c);
    }
  }

  /** `lstrip` passes over any leading whitespace. */
  lemma {:induction false} LStripSkipsSpace(w: string, x: string)
    requires AllSpace(w)
    ensures LStrip(w + x) == LStrip(x)
    decreases |w|
  {
    if |w| == 0 {
      assert w + x == x;
    } else {
      assert (w + x)[1..] == w[1..] + x;
      LStripSkipsSpace(w[1..], x);
    }
  }

  lemma {:induction false} WordLengthOf(w: string, y: string)
    requires forall i :: 0 <= i < |w| ==> !IsSpace(w[i])
    requires y == [] || IsSpace(y[0])
    ensures WordLength(w + y) == |w|
    decreases |w|
  {
    if |w| == 0 {
      assert w + y == y;
    } else {
      assert (w + y)[1..] == w[1..] + y;
      WordLengthOf(w[1..], y);
    }
  }

  /** `split()` takes a word followed by whitespace as one field and carries on after the whitespace. */
  lemma SplitWhitespaceCons(w: string, space: string, rest: string)
    requires IsWord(w) && |space| > 0 && AllSpace(space)
    ensures SplitWhitespace(w + space + rest) == [w] + SplitWhitespace(rest)
  {
    var t := w + space + rest;
    assert t == w + (space + rest);
    LStripLeadingSpace("", t);
    assert "" + t == t;
    WordLengthOf(w, space + rest);
    assert t[..|w|] == w;
    assert t[|w|..] == space + rest;
    LStripSkipsSpace(space, rest);
  }

  /** `split()` of a single word is that word. */
  lemma SplitWhitespaceWord(w: string)
    requires IsWord(w)
    ensures SplitWhitespace(w) == [w]
  {
    WordLengthOf(w, "");
    assert w + "" == w;
    assert w[|w|..] == "";
  }

  /** `split()` of words joined by single spaces gives the words back. */
  lemma {:induction false} SplitWhitespaceJoin(words: seq<string>)
    requires |words| >= 1
    requires forall k :: 0 <= k < |words| ==> IsWord(words[k])
    ensures SplitWhitespace(Join(words, " ")) == words
    decreases |words|
  {
    if |words| == 1 {
      SplitWhitespaceWord(words[0]);
    } else {
      JoinCons(words[0], words[1..], " ");
      assert [words[0]] + words[1..] == words;
      SplitWhitespaceCons(words[0], " ", Join(words[1..], " "));
      SplitWhitespaceJoin(words[1..]);
    }
  }

  /** The characters of a joined string come from the pieces or the separator. */
  lemma {:induction false} JoinAvoids(pieces: seq<string>, sep: string, c: char)
    requires c !in sep
    requires forall k :: 0 <= k < |pieces| ==> c !in pieces[k]
    ensures c !in Join(pieces, sep)
    decreases |pieces|
  {
    if |pieces| > 1 {
      JoinAvoids(pieces[1..], sep, c);
    }
  }

  /** `str(i)` is a single word of a digit or a minus sign followed by digits. */
  lemma IntToStringIsWord(i: int)
    ensures IsWord(IntToString(i))
    ensures forall k :: 0 <= k < |IntToString(i)| ==> IntToString(i)[k] == '-' || IsDigitChar(IntToString(i)[k])
  {
    if i < 0 {
      var digits := NatToString(-i);
      NatToStringRoundTrip(-i);
      var s := "-" + digits;
      forall k | 0 <= k < |s|
        ensures s[k] == '-' || IsDigitChar(s[k])
      {
        if k > 0 {
          assert s[k] == digits[k - 1];
        }
      }
    } else {
      NatToStringRoundTrip(i);
    }
  }

  /** `split()` of three words, one space, one space and two spaces apart, then more text. */
  lemma SplitWhitespaceThreeWords(a: string, b: string, c: string, rest: string)
    requires IsWord(a) && IsWord(b) && IsWord(c)
    ensures SplitWhitespace(a + " " + (b + " " + (c + "  " + rest))) == [a, b, c] + SplitWhitespace(rest)
  {
    var afterB := c + "  " + rest;
    var afterA := b + " " + afterB;
    var tail := SplitWhitespace(rest);
    SplitWhitespaceCons(c, "  ", rest);
    WordThenSpace(b, afterB);
    WordThenSpace(a, afterA);
    ConsThree(a, b, c, tail);
  }

  /** Three elements put in front one by one are the three elements in front. */
  lemma ConsThree<T>(a: T, b: T, c: T, tail: seq<T>)
    ensures [a] + ([b] + ([c] + tail)) == [a, b, c] + tail
  {
    assert [a] + ([b] + ([c] + tail)) == [a, b, c] + tail;
  }

  /** `split()` of a word, one space and more text. */
  lemma WordThenSpace(w: string, rest: string)
    requires IsWord(w)
    ensures SplitWhitespace(w + " " + rest) == [w] + SplitWhitespace(rest)
  {
    SplitWhitespaceCons(w, " ", rest);
  }

  /** `lstrip` of a string with something left after the whitespace keeps whatever follows. */
  lemma {:induction false} LStripAppend(x: string, y: string)
    ensures LStrip(x) != [] ==> LStrip(x + y) == LStrip(x) + y
    ensures LStrip(x) == [] ==> LStrip(x + y) == LStrip(y)
    decreases |x|
  {
    if |x| == 0 {
      assert x + y == y;
    } else if IsSpace(x[0]) {
      assert (x + y)[1..] == x[1..] + y;
      LStripAppend(x[1..], y);
    }
  }

  /** A trailing whitespace character does not change where the first word ends. */
  lemma {:induction false} WordLengthAppendSpace(t: string, c: char)
    requires IsSpace(c)
    ensures WordLength(t + [c]) == WordLength(t)
    decreases |t|
  {
    if |t| > 0 && !IsSpace(t[0]) {
      assert (t + [c])[1..] == t[1..] + [c];
      WordLengthAppendSpace(t[1..], c);
    }
  }

  /** `split()` ignores a trailing whitespace character. */
  lemma {:induction false} SplitWhitespaceAppendSpace(x: string, c: char)
    requires IsSpace(c)
    ensures SplitWhitespace(x + [c]) == SplitWhitespace(x)
    decreases |x|
  {
    LStripAppend(x, [c]);
    var t := LStrip(x);
    if |t| > 0 {
      var n := WordLength(t);
      WordLengthAppendSpace(t, c);
      assert (t + [c])[..n] == t[..n];
      assert (t + [c])[n..] == t[n..] + [c];
      SplitWhitespaceAppendSpace(t[n..], c);
    }
  }

  /** `split()` of a string and of the string with its trailing whitespace dropped agree. */
  lemma {:induction false} SplitWhitespaceRStrip(s: string)
    ensures SplitWhitespace(RStrip(s)) == SplitWhitespace(s)
    decreases |s|
  {
    if |s| > 0 && IsSpace(s[|s| - 1]) {
      var init := s[..|s| - 1];
      SplitWhitespaceRStrip(init);
      assert s == init + [s[|s| - 1]];
      SplitWhitespaceAppendSpace(init, s[|s| - 1]);
    }
  }

  /** `rstrip` keeps a prefix of the string, reaching past every non-space character. */
  lemma {:induction false} RStripKeeps(s: string, k: nat)
    requires k < |s| && !IsSpace(s[k])
    ensures k < |RStrip(s)| && RStrip(s) == s[..|RStrip(s)|]
    decreases |s|
  {
    if IsSpace(s[|s| - 1]) {
      var init := s[..|s| - 1];
      RStripKeeps(init, k);
      assert init[..|RStrip(s)|] == s[..|RStrip(s)|];
    } else {
      assert s[..|s|] == s;
    }
  }

  /** `lstrip` drops a run of whitespace from the front and keeps the rest. */
  lemma {:induction false} LStripSplit(s: string)
    ensures |LStrip(s)| <= |s| && AllSpace(s[..|s| - |LStrip(s)|]) && LStrip(s) == s[|s| - |LStrip(s)|..]
    decreases |s|
  {
    if |s| > 0 && IsSpace(s[0]) {
      LStripSplit(s[1..]);
      var k := |s| - |LStrip(s)|;
      assert s[1..][..k - 1] == s[1..k];
      assert s[1..][k - 1..] == s[k..];
    }
  }
}
