/**
 * The license-banner tool's line logic: a file is a sequence of lines; a
 * leading `#!` line and one `# -*- coding:` line are kept in front; a
 * banner is a block opened and closed by `# ---` rule lines whose second
 * line names the copyright year and author. The tool inserts its banner
 * where there is none, and replaces an existing one only to move the year
 * of the same author.
 */
module CopyrightHeader {
  import opened Wrappers
  import opened PyStr

  const RuleMarker: string := "# ---"
  const ShebangMarker: string := "#!"
  const CodingMarker: string := "# -*- coding:"
  const CopyrightMarker: string := CopyrightWord + " " + CopyrightSign
  const CopyrightWord: string := "Copyright"
  const CopyrightSign: string := "(c)"
  const MinCopyrightParts: nat := 4

  // ---------------------------------------------------------------------
  // Leading metadata
  // ---------------------------------------------------------------------

  /** How many leading lines are metadata: an optional `#!` line, then an optional coding line. */
  function MetadataLength(lines: seq<string>): (n: nat)
    ensures n <= 2 && n <= |lines|
  {
    var afterShebang := if |lines| > 0 && StartsWith(lines[0], ShebangMarker) then 1 else 0;
    if afterShebang < |lines| && StartsWith(lines[afterShebang], CodingMarker) then afterShebang + 1
    else afterShebang
  }

  /** A line cannot be both a `#!` line and a coding line. */
  lemma MarkersDisjoint(line: string)
    ensures !(StartsWith(line, ShebangMarker) && StartsWith(line, CodingMarker))
  {
    if StartsWith(line, ShebangMarker) {
      assert line[1] == ShebangMarker[1] == '!';
      assert CodingMarker[1] == ' ';
    }
  }

  /**
   * The metadata is a `#!` line only at index 0 and at most one coding line
   * right after it, and nothing more is taken: a `#!` line first is always
   * taken, and the first line left over is a coding line only if a coding
   * line was already taken.
   */
  lemma MetadataLengthSpec(lines: seq<string>)
    ensures var n := MetadataLength(lines);
      && (forall i :: 0 <= i < n ==> (i == 0 && StartsWith(lines[i], ShebangMarker)) || StartsWith(lines[i], CodingMarker))
      && (n == 2 ==> StartsWith(lines[0], ShebangMarker) && StartsWith(lines[1], CodingMarker))
      && (|lines| > 0 && StartsWith(lines[0], ShebangMarker) ==> n >= 1)
      && (n < |lines| && StartsWith(lines[n], CodingMarker) ==> n >= 1 && StartsWith(lines[n - 1], CodingMarker))
  {
    if |lines| > 0 {
      MarkersDisjoint(lines[0]);
    }
    if |lines| > 1 {
      MarkersDisjoint(lines[1]);
    }
  }

  /** `_split_leading_metadata`: the metadata lines and the rest, split at the metadata's end. */
  method SplitLeadingMetadata(lines: seq<string>) returns (metadata: seq<string>, rest: seq<string>)
    ensures metadata + rest == lines
    ensures metadata == lines[..MetadataLength(lines)]
  {
    metadata := [];
    var idx := 0;
    if |lines| > 0 && StartsWith(lines[0], ShebangMarker) {
      metadata := metadata + [lines[0]];
      idx := idx + 1;
    }
    if idx < |lines| && StartsWith(lines[idx], CodingMarker) {
      metadata := metadata + [lines[idx]];
      idx := idx + 1;
    }
    assert idx == MetadataLength(lines);
    assert metadata == lines[..idx];
    rest := lines[idx..];
    assert lines == lines[..idx] + lines[idx..];
  }

  // ---------------------------------------------------------------------
  // Finding an existing banner
  // ---------------------------------------------------------------------

  /** `_has_header`: after leading whitespace the text opens with a rule line. */
  function HasHeader(text: string): (r: bool)
    ensures r <==> exists k :: 0 <= k <= |text| && AllSpace(text[..k]) && StartsWith(text[k..], RuleMarker)
  {
    LStripSplit(text);
    RuleAfterSpaceSurvivesLStrip(text);
    StartsWith(LStrip(text), RuleMarker)
  }

  /** A rule line after any whitespace prefix is what `lstrip()` leaves first. */
  lemma RuleAfterSpaceSurvivesLStrip(text: string)
    ensures forall j :: 0 <= j <= |text| && AllSpace(text[..j]) && StartsWith(text[j..], RuleMarker) ==> StartsWith(LStrip(text), RuleMarker)
  {
    forall j | 0 <= j <= |text| && AllSpace(text[..j]) && StartsWith(text[j..], RuleMarker)
      ensures StartsWith(LStrip(text), RuleMarker)
    {
      assert text[j..][0] == RuleMarker[0];
      assert text[..j] + text[j..] == text;
      LStripLeadingSpace(text[..j], text[j..]);
    }
  }

  /** Whitespace before a rule line does not hide it. */
  lemma HasHeaderAfterSpace(space: string, text: string)
    requires AllSpace(space)
    requires StartsWith(text, RuleMarker)
    ensures HasHeader(space + text)
  {
    assert text[0] == RuleMarker[0];
    LStripLeadingSpace(space, text);
  }

  /** Text that starts with something other than whitespace or a rule has no banner. */
  lemma NoHeaderWithoutRule(text: string)
    requires |text| > 0 && !IsSpace(text[0])
    requires !StartsWith(text, RuleMarker)
    ensures !HasHeader(text)
  {
  }

  /** The index of the first rule line at or after `i`, if any. */
  function FirstRuleFrom(lines: seq<string>, i: nat): (r: Option<nat>)
    ensures r.Some? ==> i <= r.value < |lines| && StartsWith(lines[r.value], RuleMarker)
    ensures r.Some? ==> forall j :: i <= j < r.value ==> !StartsWith(lines[j], RuleMarker)
    ensures r.None? ==> forall j :: i <= j < |lines| ==> !StartsWith(lines[j], RuleMarker)
    decreases |lines| - i
  {
    if i >= |lines| then None
    else if StartsWith(lines[i], RuleMarker) then Some(i)
    else FirstRuleFrom(lines, i + 1)
  }

  /** An existing banner: its text (lines joined, newline-terminated) and the index of its closing rule. */
  datatype HeaderBlock = HeaderBlock(text: string, endIndex: nat)

  /**
   * `_extract_header_block`: a block exists exactly when the first line is
   * a rule and a later line is one too; it ends at the first such later
   * line and holds every line up to and including it.
   */
  function ExtractHeaderBlock(body: seq<string>): (r: Option<HeaderBlock>)
    ensures r.Some? <==> |body| > 0 && StartsWith(body[0], RuleMarker)
                         && exists j :: 1 <= j < |body| && StartsWith(body[j], RuleMarker)
    ensures r.Some? ==> 1 <= r.value.endIndex < |body| && StartsWith(body[r.value.endIndex], RuleMarker)
    ensures r.Some? ==> forall j :: 1 <= j < r.value.endIndex ==> !StartsWith(body[j], RuleMarker)
    ensures r.Some? ==> r.value.text == Join(body[..r.value.endIndex + 1], "\n") + "\n"
  {
    if |body| == 0 || !StartsWith(body[0], RuleMarker) then None
    else
      match FirstRuleFrom(body, 1)
      case None => None
      case Some(endIndex) => Some(HeaderBlock(Join(body[..endIndex + 1], "\n") + "\n", endIndex))
  }

  // ---------------------------------------------------------------------
  // The copyright line
  // ---------------------------------------------------------------------

  /** The year and author a copyright line names. */
  datatype CopyrightMeta = CopyrightMeta(year: int, author: string)

  /** The copyright line with its `#` marks and surrounding whitespace removed. */
  function CopyrightText(line: string): string
  {
    Strip(LStripChar(line, '#'))
  }

  /**
   * `_parse_copyright_line`: the cleaned line must start with the copyright
   * marker and have at least four whitespace-separated parts, the third an
   * integer; the author is the parts from the fourth on, joined by single
   * spaces.
   */
  function ParseCopyrightLine(line: string): (r: Option<CopyrightMeta>)
    ensures r.Some? <==> && StartsWith(CopyrightText(line), CopyrightMarker)
                         && |SplitWhitespace(CopyrightText(line))| >= MinCopyrightParts
                         && PyInt(SplitWhitespace(CopyrightText(line))[2]).Some?
    ensures r.Some? ==> r.value.year == PyInt(SplitWhitespace(CopyrightText(line))[2]).value
    ensures r.Some? ==> r.value.author == Join(SplitWhitespace(CopyrightText(line))[3..], " ")
  {
    var stripped := CopyrightText(line);
    if !StartsWith(stripped, CopyrightMarker) then None
    else
      var parts := SplitWhitespace(stripped);
      if |parts| < MinCopyrightParts then None
      else
        match PyInt(parts[2])
        case None => None
        case Some(year) => Some(CopyrightMeta(year, Join(parts[3..], " ")))
  }

  // ---------------------------------------------------------------------
  // Deciding the target body
  // ---------------------------------------------------------------------

  /** The copyright line of a list of lines (its second line), if it has one and it parses. */
  function MetaOf(lines: seq<string>): (r: Option<CopyrightMeta>)
    ensures r.Some? ==> |lines| > 1 && r == ParseCopyrightLine(lines[1])
    ensures r.None? <==> |lines| <= 1 || ParseCopyrightLine(lines[1]).None?
  {
    if |lines| > 1 then ParseCopyrightLine(lines[1]) else None
  }

  /**
   * `_prepare_body`: with no banner the target lines, a blank line and the
   * body; with a banner that differs from the target, names the same
   * author and another year, the target lines followed by what came after
   * the current banner; otherwise None (leave the file alone).
   */
  function PrepareBody(body: seq<string>, targetLines: seq<string>, header: string): (r: Option<seq<string>>)
    ensures ExtractHeaderBlock(body).None? ==> r == Some(targetLines + [""] + body)
    ensures ExtractHeaderBlock(body).Some? ==>
      var block := ExtractHeaderBlock(body).value;
      var current := MetaOf(body[..block.endIndex + 1]);
      var target := MetaOf(targetLines);
      && (r.Some? <==> && block.text != header && current.Some? && target.Some?
                       && current.value.author == target.value.author
                       && current.value.year != target.value.year)
      && (r.Some? ==> r.value == targetLines + body[block.endIndex + 1..])
  {
    match ExtractHeaderBlock(body)
    case None => Some(targetLines + [""] + body)
    case Some(block) =>
      var currentLines := body[..block.endIndex + 1];
      var targetMeta := MetaOf(targetLines);
      var currentMeta := MetaOf(currentLines);
      if block.text == header || currentMeta.None? || targetMeta.None? then None
      else if currentMeta.value.author != targetMeta.value.author || currentMeta.value.year == targetMeta.value.year then None
      else Some(targetLines + body[block.endIndex + 1..])
  }

  // ---------------------------------------------------------------------
  // Building the banner
  // ---------------------------------------------------------------------

  /** The start of every banner line that carries text: `#` and two spaces. */
  const CommentPrefix: string := "#  "
  /** The rule line that opens and closes the banner: `# ` and 77 dashes. */
  const RuleLine: string := RuleMarker + RuleTail
  /** The 74 dashes after the rule marker. */
  const RuleTail: string :=
    TenDashes + TenDashes + TenDashes + TenDashes + TenDashes + TenDashes + TenDashes + "----"
  const TenDashes: string := "----------"
  const CommentLine: string := "#"
  const LicenseLine: string := CommentPrefix + "It is licensed " + "under the BSD " + "3-Clause License."
  const SeeLicenseLine: string :=
    CommentPrefix + "See the LICENSE " + "file in the " + "project root " + "for full " + "license text."
  const ContributionsLine: string := CommentPrefix + "Contributions:"
  const ContributionIndent: string := "     "
  /** The start of every contribution line: `#`, the indent and a dash. */
  const ContributionPrefix: string := "#" + ContributionIndent + "- "

  /** What the banner says. */
  datatype HeaderConfig = HeaderConfig(author: string, year: int, project: string, contributions: seq<string>)

  /** The copyright line after its comment prefix: the marker, the year and, two spaces on, the author. */
  function CopyrightBody(year: int, author: string): string
  {
    CopyrightMarker + " " + IntToString(year) + "  " + author
  }

  /** The banner's second line. */
  function CopyrightLine(year: int, author: string): string
  {
    CommentPrefix + CopyrightBody(year, author)
  }

  /** The banner's line naming the project. */
  function ProjectLine(project: string): string
  {
    CommentPrefix + "This file is " + "part of " + project + "."
  }

  /** The banner's line for one contribution. */
  function ContributionLine(item: string): (r: string)
    ensures StartsWith(r, ContributionPrefix)
  {
    ContributionPrefix + item
  }

  function ContributionLines(items: seq<string>): (r: seq<string>)
    ensures |r| == |items| && forall k :: 0 <= k < |items| ==> r[k] == ContributionLine(items[k])
  {
    seq(|items|, k requires 0 <= k < |items| => ContributionLine(items[k]))
  }

  /** The template's lines above the contributions. */
  function TopLines(config: HeaderConfig): seq<string>
  {
    [RuleLine, CopyrightLine(config.year, config.author), CommentLine, ProjectLine(config.project),
     LicenseLine, SeeLicenseLine, CommentLine, ContributionsLine]
  }

  /**
   * `build_header`: the template filled in, with the contributions joined
   * one per line in the contributions slot, followed by a newline.
   */
  function BuildHeader(config: HeaderConfig): (r: string)
    ensures |r| > 0 && r[|r| - 1] == '\n'
  {
    Join(TopLines(config) + [Join(ContributionLines(config.contributions), "\n"), RuleLine], "\n") + "\n"
  }

  /** The banner's lines when there is at least one contribution. */
  function HeaderLines(config: HeaderConfig): seq<string>
  {
    TopLines(config) + ContributionLines(config.contributions) + [RuleLine]
  }

  /** `header.splitlines()` for text whose only line break is `\n`. */
  function TargetLines(header: string): (r: seq<string>)
    ensures header == "" <==> r == []
  {
    if header == "" then []
    else if header[|header| - 1] == '\n' then Split(header[..|header| - 1], "\n")
    else Split(header, "\n")
  }

  /** No field of the configuration holds a line break. */
  predicate SingleLineConfig(config: HeaderConfig)
  {
    && '\n' !in config.author
    && '\n' !in config.project
    && forall k :: 0 <= k < |config.contributions| ==> '\n' !in config.contributions[k]
  }

  /** The rule line holds no line break. */
  lemma RuleLineSingle()
    ensures '\n' !in RuleLine
  {
    assert '\n' !in RuleMarker;
    assert '\n' !in TenDashes;
    assert '\n' !in "----";
  }

  /** The license line holds no line break. */
  lemma LicenseLineSingle()
    ensures '\n' !in LicenseLine
  {
    assert '\n' !in CommentPrefix;
    assert '\n' !in "It is licensed ";
    assert '\n' !in "under the BSD ";
    assert '\n' !in "3-Clause License.";
  }

  /** The line pointing to the license file holds no line break. */
  lemma SeeLicenseLineSingle()
    ensures '\n' !in SeeLicenseLine
  {
    assert '\n' !in CommentPrefix;
    assert '\n' !in "See the LICENSE ";
    assert '\n' !in "file in the ";
    assert '\n' !in "project root ";
    assert '\n' !in "for full ";
    assert '\n' !in "license text.";
  }

  /** The template's other fixed text holds no line break. */
  lemma FixedLinesSingle()
    ensures '\n' !in RuleLine && '\n' !in CommentLine && '\n' !in ContributionsLine
    ensures '\n' !in LicenseLine && '\n' !in SeeLicenseLine
    ensures '\n' !in CommentPrefix && '\n' !in ContributionPrefix
  {
    RuleLineSingle();
    LicenseLineSingle();
    SeeLicenseLineSingle();
    assert '\n' !in CommentPrefix;
    assert '\n' !in "Contributions:";
    assert '\n' !in ContributionIndent;
    assert '\n' !in "- ";
  }

  /** Every line of a banner built from single-line fields is a single line. */
  lemma HeaderLinesSingle(config: HeaderConfig)
    requires SingleLineConfig(config)
    ensures forall k :: 0 <= k < |HeaderLines(config)| ==> '\n' !in HeaderLines(config)[k]
  {
    FixedLinesSingle();
    IntToStringIsWord(config.year);
    var y := IntToString(config.year);
    assert '\n' !in y;
    assert '\n' !in CopyrightMarker;
    assert '\n' !in CopyrightLine(config.year, config.author);
    assert '\n' !in "This file is ";
    assert '\n' !in "part of ";
    assert '\n' !in ProjectLine(config.project);
    var lines := HeaderLines(config);
    forall k | 0 <= k < |lines|
      ensures '\n' !in lines[k]
    {
      if 8 <= k < |lines| - 1 {
        assert lines[k] == ContributionPrefix + config.contributions[k - 8];
      }
    }
  }

  /**
   * With at least one contribution the banner is its lines joined, each
   * contribution on a line of its own, and reading it back line by line
   * gives exactly those lines.
   */
  lemma BuildHeaderLines(config: HeaderConfig)
    requires |config.contributions| >= 1
    requires SingleLineConfig(config)
    ensures BuildHeader(config) == Join(HeaderLines(config), "\n") + "\n"
    ensures TargetLines(BuildHeader(config)) == HeaderLines(config)
  {
    var top := TopLines(config);
    var items := ContributionLines(config.contributions);
    JoinAppend(top, [Join(items, "\n"), RuleLine], "\n");
    JoinCons(Join(items, "\n"), [RuleLine], "\n");
    JoinAppend(top, items + [RuleLine], "\n");
    JoinAppend(items, [RuleLine], "\n");
    assert top + items + [RuleLine] == top + (items + [RuleLine]);
    var text := Join(HeaderLines(config), "\n");
    HeaderLinesSingle(config);
    SplitJoinChar(HeaderLines(config), '\n');
    assert (text + "\n")[..|text + "\n"| - 1] == text;
  }

  /** A string whose `k`-th character differs from the prefix's (or that is too short for it) does not start with it. */
  lemma DiffersAt(s: string, prefix: string, k: nat)
    requires k < |prefix| && (|s| <= k || s[k] != prefix[k])
    ensures !StartsWith(s, prefix)
  {
    if |prefix| <= |s| {
      assert s[..|prefix|][k] == s[k];
    }
  }

  /** The lines above the contributions are no contribution lines: their fourth character is not a space. */
  lemma TopLinesNotContributions(config: HeaderConfig)
    ensures forall i :: 0 <= i < 8 ==> !StartsWith(TopLines(config)[i], ContributionPrefix)
  {
    var top := TopLines(config);
    assert ContributionPrefix[3] == ' ';
    assert RuleLine[3] == RuleMarker[3] == '-';
    assert CopyrightLine(config.year, config.author)[3] == CopyrightMarker[0] == 'C';
    assert ProjectLine(config.project)[3] == 'T';
    assert LicenseLine[3] == 'I';
    assert SeeLicenseLine[3] == 'S';
    assert ContributionsLine[3] == 'C';
    forall i | 0 <= i < 8
      ensures !StartsWith(top[i], ContributionPrefix)
    {
      DiffersAt(top[i], ContributionPrefix, 3);
    }
  }

  /**
   * The banner has one contribution line per contribution, in order, and no
   * other line of it looks like one.
   */
  lemma ContributionLinesInOrder(config: HeaderConfig)
    ensures |HeaderLines(config)| == |config.contributions| + 9
    ensures forall k :: 0 <= k < |config.contributions| ==>
      HeaderLines(config)[8 + k] == ContributionLine(config.contributions[k])
    ensures forall i :: 0 <= i < |HeaderLines(config)| ==>
      (StartsWith(HeaderLines(config)[i], ContributionPrefix) <==> 8 <= i < 8 + |config.contributions|)
  {
    var lines := HeaderLines(config);
    TopLinesNotContributions(config);
    assert RuleLine[3] == RuleMarker[3] == '-';
    DiffersAt(RuleLine, ContributionPrefix, 3);
    forall i | 0 <= i < |lines|
      ensures StartsWith(lines[i], ContributionPrefix) <==> 8 <= i < 8 + |config.contributions|
    {
      if i < 8 {
        assert lines[i] == TopLines(config)[i];
      }
    }
  }

  // ---------------------------------------------------------------------
  // Reading the banner back
  // ---------------------------------------------------------------------

  /** Reading a copyright line back drops its comment prefix and any trailing whitespace. */
  lemma CopyrightTextOfLine(body: string)
    requires |body| > 0 && body[0] != '#' && !IsSpace(body[0])
    ensures CopyrightText(CommentPrefix + body) == RStrip(body)
  {
    var line := CommentPrefix + body;
    assert line[1..] == "  " + body;
    assert LStripChar(line, '#') == "  " + body;
    LStripLeadingSpace("  ", body);
  }

  /** The two words of the copyright marker are words. */
  lemma MarkerWords()
    ensures IsWord(CopyrightWord) && IsWord(CopyrightSign)
    ensures CopyrightMarker == CopyrightWord + " " + CopyrightSign
  {
  }

  /** The copyright body opens with the marker, whose first letter is `C`. */
  lemma CopyrightBodyStart(year: int, author: string)
    ensures StartsWith(CopyrightBody(year, author), CopyrightMarker) && CopyrightBody(year, author)[0] == 'C'
  {
    var body := CopyrightBody(year, author);
    assert body == CopyrightMarker + (" " + IntToString(year) + "  " + author);
    MarkerWords();
    assert CopyrightMarker[0] == CopyrightWord[0] == 'C';
  }

  /**
   * The copyright line of a banner parses back to its year and to the
   * author's words joined by single spaces; an author with no words leaves
   * too few parts, and the line does not parse.
   */
  lemma CopyrightLineRoundTrip(year: int, author: string)
    ensures ParseCopyrightLine(CopyrightLine(year, author))
            == if |SplitWhitespace(author)| >= 1 then Some(CopyrightMeta(year, Join(SplitWhitespace(author), " "))) else None
  {
    var body := CopyrightBody(year, author);
    CopyrightBodyStart(year, author);
    CopyrightTextOfLine(body);
    CopyrightBodyWords(year, author);
    CopyrightTextStart(year, author);
    PyIntOfIntToString(year);
    if |SplitWhitespace(author)| >= 1 {
      ParseCopyrightLineOf(CopyrightLine(year, author), RStrip(body), IntToString(year), year, SplitWhitespace(author));
    }
  }

  /** The copyright body splits into the marker's two words, the year and the author's words. */
  lemma CopyrightBodyWords(year: int, author: string)
    ensures SplitWhitespace(RStrip(CopyrightBody(year, author)))
            == [CopyrightWord, CopyrightSign, IntToString(year)] + SplitWhitespace(author)
  {
    var body := CopyrightBody(year, author);
    var y := IntToString(year);
    IntToStringIsWord(year);
    MarkerWords();
    assert body == CopyrightWord + " " + (CopyrightSign + " " + (y + "  " + author));
    SplitWhitespaceThreeWords(CopyrightWord, CopyrightSign, y, author);
    SplitWhitespaceRStrip(body);
  }

  /** Dropping the trailing whitespace of the copyright body keeps the marker in front. */
  lemma CopyrightTextStart(year: int, author: string)
    ensures StartsWith(RStrip(CopyrightBody(year, author)), CopyrightMarker)
  {
    var body := CopyrightBody(year, author);
    var y := IntToString(year);
    IntToStringIsWord(year);
    var k := |CopyrightMarker| + 1;
    assert body == CopyrightMarker + " " + y + "  " + author;
    assert body[k] == y[0];
    RStripKeeps(body, k);
    CopyrightBodyStart(year, author);
    assert RStrip(body)[..|CopyrightMarker|] == body[..|CopyrightMarker|];
  }

  /** A line whose cleaned text opens with the marker and splits into the marker's words, a year and the author's words. */
  lemma ParseCopyrightLineOf(line: string, text: string, y: string, year: int, words: seq<string>)
    requires CopyrightText(line) == text
    requires StartsWith(text, CopyrightMarker)
    requires SplitWhitespace(text) == [CopyrightWord, CopyrightSign, y] + words
    requires |words| >= 1 && PyInt(y) == Some(year)
    ensures ParseCopyrightLine(line) == Some(CopyrightMeta(year, Join(words, " ")))
  {
    var parts := SplitWhitespace(text);
    assert parts[2] == y;
    assert parts[3..] == words;
  }

  /** The banner's own copyright line gives its year and its author's words joined by single spaces. */
  lemma MetaOfHeader(config: HeaderConfig)
    ensures MetaOf(HeaderLines(config))
            == if |SplitWhitespace(config.author)| >= 1
               then Some(CopyrightMeta(config.year, Join(SplitWhitespace(config.author), " ")))
               else None
  {
    assert HeaderLines(config)[1] == CopyrightLine(config.year, config.author);
    CopyrightLineRoundTrip(config.year, config.author);
  }

  /** Copyright lines with different years or different authors differ. */
  lemma CopyrightLinesDiffer(year1: int, author1: string, year2: int, author2: string)
    requires year1 != year2 || author1 != author2
    ensures CopyrightLine(year1, author1) != CopyrightLine(year2, author2)
  {
    var p := CommentPrefix + CopyrightMarker + " ";
    var u1, u2 := IntToString(year1), IntToString(year2);
    var line1, line2 := CopyrightLine(year1, author1), CopyrightLine(year2, author2);
    assert line1 == p + u1 + "  " + author1;
    assert line2 == p + u2 + "  " + author2;
    IntToStringIsWord(year1);
    IntToStringIsWord(year2);
    if |u1| < |u2| {
      assert line1[|p| + |u1|] == ' ';
      assert line2[|p| + |u1|] == u2[|u1|];
    } else if |u2| < |u1| {
      assert line2[|p| + |u2|] == ' ';
      assert line1[|p| + |u2|] == u1[|u2|];
    } else if u1 != u2 {
      assert line1[..|p| + |u1|] == p + u1 && (p + u1)[|p|..] == u1;
      assert line2[..|p| + |u2|] == p + u2 && (p + u2)[|p|..] == u2;
    } else {
      PyIntOfIntToString(year1);
      PyIntOfIntToString(year2);
      assert line1[|p| + |u1| + 2..] == author1;
      assert line2[|p| + |u2| + 2..] == author2;
    }
  }

  /** The lines between the top rule and the contributions are no rule lines: their third character is a space. */
  lemma TopLinesNotRules(config: HeaderConfig)
    ensures forall i :: 1 <= i < 8 ==> !StartsWith(TopLines(config)[i], RuleMarker)
  {
    var top := TopLines(config);
    assert RuleMarker[2] == '-';
    assert CommentPrefix[2] == ' ';
    assert CopyrightLine(config.year, config.author)[2] == ' ';
    assert ProjectLine(config.project)[2] == ' ';
    assert LicenseLine[2] == ' ';
    assert SeeLicenseLine[2] == ' ';
    assert ContributionsLine[2] == ' ';
    forall i | 1 <= i < 8
      ensures !StartsWith(top[i], RuleMarker)
    {
      DiffersAt(top[i], RuleMarker, 2);
    }
  }

  /** Only the first and the last line of a banner are rule lines. */
  lemma RuleLinesOfHeader(config: HeaderConfig)
    ensures StartsWith(HeaderLines(config)[0], RuleMarker)
    ensures StartsWith(HeaderLines(config)[|HeaderLines(config)| - 1], RuleMarker)
    ensures forall i :: 1 <= i < |HeaderLines(config)| - 1 ==> !StartsWith(HeaderLines(config)[i], RuleMarker)
  {
    var lines := HeaderLines(config);
    assert RuleLine[..|RuleMarker|] == RuleMarker;
    TopLinesNotRules(config);
    forall i | 1 <= i < |lines| - 1
      ensures !StartsWith(lines[i], RuleMarker)
    {
      if i < 8 {
        assert lines[i] == TopLines(config)[i];
      } else {
        assert lines[i] == ContributionPrefix + config.contributions[i - 8];
        assert lines[i][2] == ' ';
        DiffersAt(lines[i], RuleMarker, 2);
      }
    }
  }
  /** Lines that open and close with a rule, and have none between, are the block of any body they open. */
  lemma BlockOfRuledLines(lines: seq<string>, rest: seq<string>)
    requires |lines| >= 2
    requires StartsWith(lines[0], RuleMarker) && StartsWith(lines[|lines| - 1], RuleMarker)
    requires forall i :: 1 <= i < |lines| - 1 ==> !StartsWith(lines[i], RuleMarker)
    ensures ExtractHeaderBlock(lines + rest) == Some(HeaderBlock(Join(lines, "\n") + "\n", |lines| - 1))
  {
    var body := lines + rest;
    assert body[|lines| - 1] == lines[|lines| - 1];
    var block := ExtractHeaderBlock(body).value;
    assert block.endIndex == |lines| - 1 by {
      assert forall i :: 1 <= i < |lines| - 1 ==> body[i] == lines[i];
    }
    assert body[..block.endIndex + 1] == lines;
  }

  /** A file that opens with a banner yields that banner as its block, closing at the banner's last line. */
  lemma BannerBlock(config: HeaderConfig, rest: seq<string>)
    requires |config.contributions| >= 1 && SingleLineConfig(config)
    ensures ExtractHeaderBlock(HeaderLines(config) + rest)
            == Some(HeaderBlock(BuildHeader(config), |HeaderLines(config)| - 1))
  {
    RuleLinesOfHeader(config);
    BlockOfRuledLines(HeaderLines(config), rest);
    BuildHeaderLines(config);
  }

  /** The banners of two configurations with different years or authors differ. */
  lemma DifferentBanners(current: HeaderConfig, target: HeaderConfig)
    requires |current.contributions| >= 1 && SingleLineConfig(current)
    requires |target.contributions| >= 1 && SingleLineConfig(target)
    requires current.year != target.year || current.author != target.author
    ensures BuildHeader(current) != BuildHeader(target)
  {
    BuildHeaderLines(current);
    BuildHeaderLines(target);
    CopyrightLinesDiffer(current.year, current.author, target.year, target.author);
    assert HeaderLines(current)[1] != HeaderLines(target)[1];
  }

  // ---------------------------------------------------------------------
  // What the tool does to a body
  // ---------------------------------------------------------------------

  /** A body without a banner gets the banner, a blank line and then the body: its text starts with the header. */
  lemma InsertedBannerLeads(config: HeaderConfig, body: seq<string>)
    requires |config.contributions| >= 1 && SingleLineConfig(config)
    requires ExtractHeaderBlock(body).None?
    ensures PrepareBody(body, HeaderLines(config), BuildHeader(config)) == Some(HeaderLines(config) + [""] + body)
    ensures StartsWith(Join(HeaderLines(config) + [""] + body, "\n") + "\n", BuildHeader(config))
  {
    var lines := HeaderLines(config);
    BuildHeaderLines(config);
    assert lines + [""] + body == lines + ([""] + body);
    JoinAppend(lines, [""] + body, "\n");
  }

  /** Applying a banner to a body that already opens with it changes nothing. */
  lemma SameBannerLeftAlone(config: HeaderConfig, rest: seq<string>)
    requires |config.contributions| >= 1 && SingleLineConfig(config)
    ensures PrepareBody(HeaderLines(config) + rest, HeaderLines(config), BuildHeader(config)) == None
  {
    BannerBlock(config, rest);
  }

  /**
   * A banner of the same author with another year is replaced by the target
   * banner, and everything after the current banner is kept. The authors
   * are compared as `split` and `join` leave them, so spacing between the
   * words does not matter.
   */
  lemma StaleYearReplaced(current: HeaderConfig, target: HeaderConfig, rest: seq<string>)
    requires |current.contributions| >= 1 && SingleLineConfig(current)
    requires |target.contributions| >= 1 && SingleLineConfig(target)
    requires |SplitWhitespace(current.author)| >= 1
    requires SplitWhitespace(current.author) == SplitWhitespace(target.author) && current.year != target.year
    ensures PrepareBody(HeaderLines(current) + rest, HeaderLines(target), BuildHeader(target)) == Some(HeaderLines(target) + rest)
  {
    BannerBlock(current, rest);
    DifferentBanners(current, target);
    MetaOfHeader(current);
    MetaOfHeader(target);
    var lines := HeaderLines(current);
    assert (lines + rest)[..|lines|] == lines;
    assert (lines + rest)[|lines|..] == rest;
  }

  /** A banner of another author (another sequence of words) is left alone, whatever its year. */
  lemma OtherAuthorLeftAlone(current: HeaderConfig, target: HeaderConfig, rest: seq<string>)
    requires |current.contributions| >= 1 && SingleLineConfig(current)
    requires SplitWhitespace(current.author) != SplitWhitespace(target.author)
    ensures PrepareBody(HeaderLines(current) + rest, HeaderLines(target), BuildHeader(target)) == None
  {
    BannerBlock(current, rest);
    MetaOfHeader(current);
    MetaOfHeader(target);
    var lines := HeaderLines(current);
    assert (lines + rest)[..|lines|] == lines;
    var words1, words2 := SplitWhitespace(current.author), SplitWhitespace(target.author);
    if |words1| >= 1 && |words2| >= 1 {
      SplitWhitespaceWords(current.author);
      SplitWhitespaceWords(target.author);
      SplitWhitespaceJoin(words1);
      SplitWhitespaceJoin(words2);
      assert Join(words1, " ") != Join(words2, " ");
    }
  }

  /** Running the tool a second time on its own output changes nothing. */
  lemma PrepareBodyIdempotent(config: HeaderConfig, body: seq<string>)
    requires |config.contributions| >= 1 && SingleLineConfig(config)
    ensures var first := PrepareBody(body, HeaderLines(config), BuildHeader(config));
            first.Some? ==> PrepareBody(first.value, HeaderLines(config), BuildHeader(config)) == None
  {
    var lines := HeaderLines(config);
    var first := PrepareBody(body, lines, BuildHeader(config));
    if first.Some? {
      match ExtractHeaderBlock(body)
      case None =>
        assert first.value == lines + ([""] + body);
        SameBannerLeftAlone(config, [""] + body);
      case Some(block) =>
        SameBannerLeftAlone(config, body[block.endIndex + 1..]);
    }
  }

  // ---------------------------------------------------------------------
  // Applying the banner to files
  // ---------------------------------------------------------------------

  /** A file as the tool reads it: its lines and whether its text ends with a newline. */
  datatype SourceFile = SourceFile(lines: seq<string>, endsWithNewline: bool)

  /**
   * The tool's decision for one file: None when it is left alone, else the
   * target text: metadata, the prepared body, joined by newlines and ending
   * with one when the current text did.
   */
  function UpdatedText(file: SourceFile, header: string): (r: Option<string>)
    ensures var n := MetadataLength(file.lines);
            r.None? <==> PrepareBody(file.lines[n..], TargetLines(header), header).None?
    ensures r.Some? && file.endsWithNewline ==> |r.value| > 0 && r.value[|r.value| - 1] == '\n'
  {
    var n := MetadataLength(file.lines);
    match PrepareBody(file.lines[n..], TargetLines(header), header)
    case None => None
    case Some(newBody) => Some(Join(file.lines[..n] + newBody, "\n") + (if file.endsWithNewline then "\n" else ""))
  }

  /**
   * A file whose body has no banner is rewritten with its `#!` and coding
   * lines first, then the banner, a blank line and the rest of the file;
   * with no such lines its text starts with the header.
   */
  lemma MetadataStaysFirst(file: SourceFile, config: HeaderConfig)
    requires |config.contributions| >= 1 && SingleLineConfig(config)
    requires ExtractHeaderBlock(file.lines[MetadataLength(file.lines)..]).None?
    ensures var n := MetadataLength(file.lines);
            var text := UpdatedText(file, BuildHeader(config));
            && text == Some(Join(file.lines[..n] + HeaderLines(config) + [""] + file.lines[n..], "\n")
                            + (if file.endsWithNewline then "\n" else ""))
            && StartsWith(text.value, (if n == 0 then "" else Join(file.lines[..n], "\n") + "\n") + BuildHeader(config))
  {
    var n := MetadataLength(file.lines);
    var lines := HeaderLines(config);
    BuildHeaderLines(config);
    var newBody := PrepareBody(file.lines[n..], TargetLines(BuildHeader(config)), BuildHeader(config));
    assert newBody == Some(lines + [""] + file.lines[n..]);
    assert file.lines[..n] + newBody.value == file.lines[..n] + lines + [""] + file.lines[n..];
    BannerAfterMetadata(file.lines[..n], config, file.lines[n..], if file.endsWithNewline then "\n" else "");
  }

  /** Joining metadata lines, a banner, a blank line and a body gives text that opens with the metadata and then the header. */
  lemma BannerAfterMetadata(metadata: seq<string>, config: HeaderConfig, body: seq<string>, newline: string)
    requires |config.contributions| >= 1 && SingleLineConfig(config)
    ensures StartsWith(Join(metadata + HeaderLines(config) + [""] + body, "\n") + newline,
                       (if |metadata| == 0 then "" else Join(metadata, "\n") + "\n") + BuildHeader(config))
  {
    BannerThenBody(config, [""] + body);
    LinesAfterMetadata(metadata, HeaderLines(config), BuildHeader(config), body, newline);
  }

  /** Lines whose join opens with `header`, put after metadata lines, give text that opens with the metadata and then `header`. */
  lemma LinesAfterMetadata(metadata: seq<string>, lines: seq<string>, header: string, body: seq<string>, newline: string)
    requires |lines| >= 1 && StartsWith(Join(lines + ([""] + body), "\n"), header)
    ensures StartsWith(Join(metadata + lines + [""] + body, "\n") + newline,
                       (if |metadata| == 0 then "" else Join(metadata, "\n") + "\n") + header)
  {
    var tail := [""] + body;
    var banner := Join(lines + tail, "\n");
    PrefixOfConcat(banner, newline, header);
    if |metadata| == 0 {
      assert metadata + lines + [""] + body == lines + tail;
    } else {
      assert metadata + lines + [""] + body == metadata + (lines + tail);
      JoinAppend(metadata, lines + tail, "\n");
      var lead := Join(metadata, "\n") + "\n";
      assert Join(metadata + lines + [""] + body, "\n") + newline == lead + (banner + newline);
      PrefixAfterLead(lead, banner + newline, header);
    }
  }

  /** The banner's lines followed by more lines join to text that starts with the header. */
  lemma BannerThenBody(config: HeaderConfig, tail: seq<string>)
    requires |config.contributions| >= 1 && SingleLineConfig(config) && |tail| >= 1
    ensures StartsWith(Join(HeaderLines(config) + tail, "\n"), BuildHeader(config))
  {
    var lines := HeaderLines(config);
    BuildHeaderLines(config);
    JoinAppend(lines, tail, "\n");
    var header := BuildHeader(config);
    assert Join(lines + tail, "\n") == header + Join(tail, "\n");
    assert (header + Join(tail, "\n"))[..|header|] == header;
  }

  /** A prefix of a string is a prefix of that string extended. */
  lemma PrefixOfConcat(s: string, more: string, prefix: string)
    requires StartsWith(s, prefix)
    ensures StartsWith(s + more, prefix)
  {
    assert (s + more)[..|prefix|] == s[..|prefix|];
  }

  /** A string that starts with `prefix`, put after `lead`, starts with `lead` and then `prefix`. */
  lemma PrefixAfterLead(lead: string, s: string, prefix: string)
    requires StartsWith(s, prefix)
    ensures StartsWith(lead + s, lead + prefix)
  {
    assert (lead + s)[..|lead + prefix|] == lead + s[..|prefix|];
  }

  /**
   * The tool's work on one file: split off the metadata, prepare the body
   * and, when there is a new body, join everything back, ending with a
   * newline when the file did.
   */
  method DecideFile(files: seq<SourceFile>, i: nat, targetLines: seq<string>, header: string) returns (text: Option<string>)
    requires i < |files| && targetLines == TargetLines(header)
    ensures text == UpdatedText(files[i], header)
  {
    var file := files[i];
    var metadata, body := SplitLeadingMetadata(file.lines);
    assert body == file.lines[MetadataLength(file.lines)..];
    var newBody := PrepareBody(body, targetLines, header);
    if newBody.None? {
      return None;
    }
    var joined := Join(metadata + newBody.value, "\n");
    if file.endsWithNewline {
      joined := joined + "\n";
    } else {
      assert joined + "" == joined;
    }
    return Some(joined);
  }

  /** A file the tool rewrites: its index and the text written to it. */
  datatype Change = Change(index: nat, text: string)

  /** The decision for every file, in order. */
  function Decisions(files: seq<SourceFile>, header: string): (r: seq<Option<string>>)
    ensures |r| == |files|
  {
    if files == [] then []
    else Decisions(files[..|files| - 1], header) + [UpdatedText(files[|files| - 1], header)]
  }

  /** The decision for file `i` is the tool's decision for that file alone. */
  lemma {:induction false} DecisionAt(files: seq<SourceFile>, header: string, i: nat)
    requires i < |files|
    ensures Decisions(files, header)[i] == UpdatedText(files[i], header)
  {
    if i < |files| - 1 {
      var init := files[..|files| - 1];
      DecisionAt(init, header, i);
      assert init[i] == files[i];
    }
  }

  /** The changes among the first `n` decisions, in order. */
  function Collect(decisions: seq<Option<string>>, n: nat): seq<Change>
    requires n <= |decisions|
  {
    if n == 0 then []
    else
      match decisions[n - 1]
      case None => Collect(decisions, n - 1)
      case Some(text) => Collect(decisions, n - 1) + [Change(n - 1, text)]
  }

  /** One more decision adds a change exactly when it is to rewrite the file. */
  lemma CollectStep(decisions: seq<Option<string>>, i: nat)
    requires i < |decisions|
    ensures Collect(decisions, i + 1)
            == Collect(decisions, i) + (if decisions[i].None? then [] else [Change(i, decisions[i].value)])
  {
    assert Collect(decisions, i) + [] == Collect(decisions, i);
  }

  /** Some change names file `j`. */
  predicate Names(changes: seq<Change>, j: nat)
  {
    exists k :: 0 <= k < |changes| && changes[k].index == j
  }

  /**
   * The changes name each file at most once, in increasing order, exactly
   * the files whose decision is to rewrite them, each with its new text.
   */
  lemma {:induction false} CollectSpec(decisions: seq<Option<string>>, n: nat)
    requires n <= |decisions|
    ensures var r := Collect(decisions, n);
      && (forall k :: 0 <= k < |r| ==> r[k].index < n && decisions[r[k].index] == Some(r[k].text))
      && (forall k, l :: 0 <= k < l < |r| ==> r[k].index < r[l].index)
      && (forall j :: 0 <= j < n ==> (decisions[j].Some? <==> Names(r, j)))
  {
    if n > 0 {
      CollectSpec(decisions, n - 1);
      var prev := Collect(decisions, n - 1);
      var r := Collect(decisions, n);
      if decisions[n - 1].Some? {
        assert r == prev + [Change(n - 1, decisions[n - 1].value)];
        assert r[|prev|].index == n - 1;
        forall j | 0 <= j < n - 1
          ensures Names(r, j) <==> Names(prev, j)
        {
          if Names(r, j) {
            var k :| 0 <= k < |r| && r[k].index == j;
            assert r[k] == prev[k];
          }
          if Names(prev, j) {
            var k :| 0 <= k < |prev| && prev[k].index == j;
            assert r[k] == prev[k];
          }
        }
      }
    }
  }

  /** The files the tool rewrites, in order, each with the text written to it. */
  function Updates(files: seq<SourceFile>, header: string): seq<Change>
  {
    Collect(Decisions(files, header), |files|)
  }

  /**
   * The tool rewrites each file at most once, in file order, exactly the
   * files whose decision is to rewrite them, each with its target text.
   */
  lemma UpdatesSpec(files: seq<SourceFile>, header: string)
    ensures var r := Updates(files, header);
      && (forall k :: 0 <= k < |r| ==> r[k].index < |files| && UpdatedText(files[r[k].index], header) == Some(r[k].text))
      && (forall k, l :: 0 <= k < l < |r| ==> r[k].index < r[l].index)
      && (forall j :: 0 <= j < |files| ==> (UpdatedText(files[j], header).Some? <==> Names(r, j)))
  {
    var decisions := Decisions(files, header);
    CollectSpec(decisions, |files|);
    forall j | 0 <= j < |files|
      ensures decisions[j] == UpdatedText(files[j], header)
    {
      DecisionAt(files, header, j);
    }
  }

  /**
   * `apply_header`: every file is decided on its own, in order; the result
   * is the files rewritten, each with the text written to it.
   */
  method ApplyHeader(files: seq<SourceFile>, header: string) returns (changes: seq<Change>)
    ensures changes == Updates(files, header)
  {
    changes := [];
    ghost var decisions := Decisions(files, header);
    var targetLines := TargetLines(header);
    var i := 0;
    while i < |files|
      invariant 0 <= i <= |files|
      invariant changes == Collect(decisions, i)
    {
      var text := DecideFile(files, i, targetLines, header);
      DecisionAt(files, header, i);
      CollectStep(decisions, i);
      if text.Some? {
        changes := changes + [Change(i, text.value)];
      }
      i := i + 1;
    }
  }
}
