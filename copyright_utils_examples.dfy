/** The behaviour the extension's own test suite pins down, proved of the model. */
module CopyrightUtilsExamples {
  import opened Wrappers
  import opened Strings
  import opened YearPattern
  import opened CopyrightUtils

  /** A pattern whose text before `${year}` holds no `$` compiles around that placeholder. */
  lemma CompileAround(pattern: string, pre: string, post: string)
    requires pattern == pre + Placeholder + post && '$' !in pre
    ensures Compile(pattern) == [Lit(pre), Year] + Compile(post)
  {
    forall j | 0 <= j < |pre| ensures !OccursAt(pattern, Placeholder, j) {
      assert pattern[j] == pre[j];
    }
    assert pattern[|pre|..|pre| + |Placeholder|] == Placeholder;
    IndexOfFirstOccurrence(pattern, Placeholder, |pre|);
    assert pattern[..|pre|] == pre;
    assert pattern[|pre| + |Placeholder|..] == post;
  }

  /** A pattern without a `$` is one literal. */
  lemma CompileLiteral(pattern: string)
    requires '$' !in pattern
    ensures Compile(pattern) == [Lit(pattern)]
  {
    assert Placeholder[0] == '$';
    NoOccurrenceWithout(pattern, Placeholder);
  }

  lemma FourDigits(s: string)
    requires |s| == 4 && IsDigit(s[0]) && IsDigit(s[1]) && IsDigit(s[2]) && IsDigit(s[3])
    ensures AllDigits(s)
  {
  }

  lemma SkipShape(shapes: seq<Shape>, rest: seq<Segment>, text: string, pos: nat)
    requires pos <= |text| && shapes != []
    requires var n := ShapeLength(shapes[0]);
             !(pos + n <= |text| && FitsShape(text[pos..pos + n], shapes[0]))
    ensures TryShapes(shapes, rest, text, pos) == TryShapes(shapes[1..], rest, text, pos)
  {
  }

  /** No shape with an opening parenthesis fits where `(` is absent. */
  lemma SkipOpen(shapes: seq<Shape>, rest: seq<Segment>, text: string, pos: nat)
    requires pos < |text| && text[pos] != '(' && shapes != [] && shapes[0].open
    ensures TryShapes(shapes, rest, text, pos) == TryShapes(shapes[1..], rest, text, pos)
  {
    var n := ShapeLength(shapes[0]);
    if pos + n <= |text| {
      assert text[pos..pos + n][0] == text[pos];
    }
    SkipShape(shapes, rest, text, pos);
  }

  /** A shape without `(` fits only if its fifth character is `-` or `)` as the shape says. */
  lemma SkipFifth(shapes: seq<Shape>, rest: seq<Segment>, text: string, pos: nat)
    requires pos + 4 < |text| && text[pos + 4] != '-' && text[pos + 4] != ')'
    requires shapes != [] && !shapes[0].open && (shapes[0].range || shapes[0].close)
    ensures TryShapes(shapes, rest, text, pos) == TryShapes(shapes[1..], rest, text, pos)
  {
    var n := ShapeLength(shapes[0]);
    if pos + n <= |text| {
      assert text[pos..pos + n][4] == text[pos + 4];
    }
    SkipShape(shapes, rest, text, pos);
  }

  /**
   * At a plain four-digit year followed by neither `-` nor `)`, the year
   * group takes exactly those four digits.
   */
  lemma PlainYearGroup(rest: seq<Segment>, text: string, pos: nat)
    requires pos + 4 <= |text| && AllDigits(text[pos..pos + 4])
    requires pos + 4 == |text| || (text[pos + 4] != '-' && text[pos + 4] != ')')
    requires MatchSegs(rest, text, pos + 4).Some?
    ensures var h := MatchSegs(rest, text, pos + 4).value;
            TryShapes(Shapes, rest, text, pos) == Some(Hit(h.end, [Span(pos, pos + 4)] + h.caps))
  {
    assert text[pos] != '(' by { assert text[pos] == text[pos..pos + 4][0]; }
    SkipOpenShapes(rest, text, pos);
    SkipSuffixedShapes(rest, text, pos);
    PlainShape(rest, text, pos);
  }

  /** Without `(` at `pos`, the four shapes that open with one are passed over. */
  lemma SkipOpenShapes(rest: seq<Segment>, text: string, pos: nat)
    requires pos < |text| && text[pos] != '('
    ensures TryShapes(Shapes, rest, text, pos) == TryShapes(Shapes[4..], rest, text, pos)
  {
    SkipOpen(Shapes, rest, text, pos);
    SkipOpen(Shapes[1..], rest, text, pos);
    SkipOpen(Shapes[2..], rest, text, pos);
    SkipOpen(Shapes[3..], rest, text, pos);
    assert Shapes[1..][1..] == Shapes[2..];
    assert Shapes[2..][1..] == Shapes[3..];
    assert Shapes[3..][1..] == Shapes[4..];
  }

  /** Without `-` or `)` after four characters, the three shapes that need one are passed over. */
  lemma SkipSuffixedShapes(rest: seq<Segment>, text: string, pos: nat)
    requires pos + 4 <= |text|
    requires pos + 4 == |text| || (text[pos + 4] != '-' && text[pos + 4] != ')')
    ensures TryShapes(Shapes[4..], rest, text, pos) == TryShapes(Shapes[7..], rest, text, pos)
  {
    assert Shapes[4..][1..] == Shapes[5..];
    assert Shapes[5..][1..] == Shapes[6..];
    assert Shapes[6..][1..] == Shapes[7..];
    if pos + 4 < |text| {
      SkipFifth(Shapes[4..], rest, text, pos);
      SkipFifth(Shapes[5..], rest, text, pos);
      SkipFifth(Shapes[6..], rest, text, pos);
      assert TryShapes(Shapes[4..], rest, text, pos) == TryShapes(Shapes[7..], rest, text, pos);
    } else {
      SkipShape(Shapes[4..], rest, text, pos);
      SkipShape(Shapes[5..], rest, text, pos);
      SkipShape(Shapes[6..], rest, text, pos);
      assert TryShapes(Shapes[4..], rest, text, pos) == TryShapes(Shapes[7..], rest, text, pos);
    }
  }

  /** The last shape, four digits alone, takes the year when the rest of the pattern matches after it. */
  lemma PlainShape(rest: seq<Segment>, text: string, pos: nat)
    requires pos + 4 <= |text| && AllDigits(text[pos..pos + 4])
    requires MatchSegs(rest, text, pos + 4).Some?
    ensures var h := MatchSegs(rest, text, pos + 4).value;
            TryShapes(Shapes[7..], rest, text, pos) == Some(Hit(h.end, [Span(pos, pos + 4)] + h.caps))
  {
    assert Shapes[7..] == [Shape(false, false, false)];
    assert text[pos..pos + 4][0..4] == text[pos..pos + 4];
  }

  /** A lone year gains a range in parentheses. */
  lemma SingleYearUpdatedToParenthesizedRange(existing: string, current: string)
    requires existing == "2020" && current == "2025"
    ensures CalculateNewYearRange(existing, current) == Some("(2020-2025)")
  {
    assert existing[0..4] == existing;
    FourDigits(existing);
    assert FitsShape(existing, Shape(false, false, false));
    CalculateOnYearToken(existing, Shape(false, false, false), current);
    assert existing[..3] == current[..3];
    LexLessFirstDifference(existing, current, 3);
    assert LexLess(existing, current);
    assert FormatRange(existing, current, true) == "(" + existing + "-" + current + ")" == "(2020-2025)";
  }

  /** A bare range keeps its bare form and moves its end year. */
  lemma RangeUpdatedWithoutParens(existing: string, current: string)
    requires existing == "2020-2024" && current == "2025"
    ensures CalculateNewYearRange(existing, current) == Some("2020-2025")
  {
    var start, end := existing[0..4], existing[5..9];
    assert start == "2020" && end == "2024";
    FourDigits(start);
    FourDigits(end);
    assert FitsShape(existing, Shape(false, true, false));
    CalculateOnYearToken(existing, Shape(false, true, false), current);
    assert end[..3] == current[..3];
    LexLessFirstDifference(end, current, 3);
    assert LexLess(end, current);
    assert FormatRange(start, current, false) == start + "-" + current == "2020-2025";
  }

  /** A parenthesized range keeps its parentheses. */
  lemma ParenthesizedRangeKeepsParens(existing: string, current: string)
    requires existing == "(2020-2024)" && current == "2025"
    ensures CalculateNewYearRange(existing, current) == Some("(2020-2025)")
  {
    var start, end := existing[1..5], existing[6..10];
    assert start == "2020" && end == "2024";
    FourDigits(start);
    FourDigits(end);
    assert FitsShape(existing, Shape(true, true, true));
    CalculateOnYearToken(existing, Shape(true, true, true), current);
    assert end[..3] == current[..3];
    LexLessFirstDifference(end, current, 3);
    assert LexLess(end, current);
    assert FormatRange(start, current, true) == "(" + start + "-" + current + ")" == "(2020-2025)";
  }

  /** A range that already ends in the current year needs no update. */
  lemma CurrentRangeNotUpdated(existing: string, current: string)
    requires existing == "2020-2025" && current == "2025"
    ensures CalculateNewYearRange(existing, current) == None
  {
    var start, end := existing[0..4], existing[5..9];
    assert start == "2020" && end == "2025";
    FourDigits(start);
    FourDigits(end);
    assert FitsShape(existing, Shape(false, true, false));
    CalculateOnYearToken(existing, Shape(false, true, false), current);
    LexLessIrreflexive(current);
  }

  /** A year later than the current one is left alone. */
  lemma FutureYearNotUpdated(existing: string, current: string)
    requires existing == "2025" && current == "2020"
    ensures CalculateNewYearRange(existing, current) == None
  {
    assert existing[0..4] == existing;
    FourDigits(existing);
    assert FitsShape(existing, Shape(false, false, false));
    CalculateOnYearToken(existing, Shape(false, false, false), current);
    assert existing[..3] == current[..3];
    LexLessFirstDifference(existing, current, 3);
  }

  /** The placeholder of `pre${year}post` sits right after `pre` when `pre` has no `$`. */
  lemma PlaceholderAfterPrefix(pattern: string, pre: string, post: string)
    requires pattern == pre + Placeholder + post && '$' !in pre
    ensures IndexOf(pattern, Placeholder) == |pre|
  {
    forall j | 0 <= j < |pre| ensures !OccursAt(pattern, Placeholder, j) {
      assert pattern[j] == pre[j];
    }
    assert pattern[|pre|..|pre| + |Placeholder|] == Placeholder;
    IndexOfFirstOccurrence(pattern, Placeholder, |pre|);
  }

  /**
   * A single pattern `pre${year}post` that matches at the very start of the
   * line reports the year group's text, at the placeholder's offset.
   */
  lemma MatchAtLineStart(line: string, pattern: string, pre: string, post: string, h: Hit)
    requires pattern == pre + Placeholder + post && '$' !in pre
    requires MatchSegs([Lit(pre), Year] + Compile(post), line, 0) == Some(h)
    ensures |h.caps| > 0 && h.caps[0].start == |pre| <= h.caps[0].end <= |line|
    ensures FindYearMatch(line, [pattern]) ==
            Some(YearMatch(line[|pre|..h.caps[0].end], |pre|, h.caps[0].end))
  {
    CompileAround(pattern, pre, post);
    PlaceholderAfterPrefix(pattern, pre, post);
    FirstCapAfterLiteral(pre, Compile(post), line, 0);
    SearchAtStart(Compile(pattern), line, h);
    MatchPatternAtStart(line, pattern, h);
  }

  /** A match at the start of the text is the one the search reports. */
  lemma SearchAtStart(segs: seq<Segment>, text: string, h: Hit)
    requires MatchSegs(segs, text, 0) == Some(h)
    ensures SearchFrom(segs, text, 0) == Some((0, h))
  {
  }

  /** A search that succeeds at offset 0 reports the capture where the placeholder stands. */
  lemma MatchPatternAtStart(line: string, pattern: string, h: Hit)
    requires IndexOf(pattern, Placeholder) != -1
    requires SearchFrom(Compile(pattern), line, 0) == Some((0, h))
    requires |h.caps| > 0 && h.caps[0].start == IndexOf(pattern, Placeholder)
    ensures h.caps[0].start <= h.caps[0].end <= |line|
    ensures FindYearMatch(line, [pattern]) ==
            Some(YearMatch(line[h.caps[0].start..h.caps[0].end], h.caps[0].start, h.caps[0].end))
  {
    FirstCap(line, h.caps, 0, h.end);
  }

  /** A literal text that follows its own match at `pos` to the end of the line. */
  lemma TrailingLiteral(line: string, post: string, pos: nat)
    requires pos + |post| == |line| && line[pos..] == post
    ensures MatchSegs([Lit(post)], line, pos) == Some(Hit(|line|, []))
  {
    assert OccursAt(line, post, pos);
    assert [Lit(post)][1..] == [];
  }

  /**
   * The year group, tried at `pos` where `token` follows and the rest of the
   * pattern matches after it, yields `h` once the group has captured `token`.
   */
  lemma LeadingLiteralThenYear(line: string, pre: string, rest: seq<Segment>, h: Hit)
    requires |pre| <= |line| && line[..|pre|] == pre
    requires TryShapes(Shapes, rest, line, |pre|) == Some(h)
    ensures MatchSegs([Lit(pre), Year] + rest, line, 0) == Some(h)
  {
    assert OccursAt(line, pre, 0);
    MatchLitStep(pre, [Year] + rest, line, 0);
    MatchYearStep(rest, line, |pre|);
    assert [Lit(pre), Year] + rest == [Lit(pre)] + ([Year] + rest);
  }

  /**
   * A line made of the pattern's text with a plain four-digit year in place
   * of `${year}` yields that year, at the placeholder's offset.
   */
  lemma PlainYearFound(line: string, pre: string, year: string, post: string)
    requires '$' !in pre && '$' !in post
    requires |year| == 4 && AllDigits(year)
    requires line == pre + year + post
    ensures FindYearMatch(line, [pre + Placeholder + post]) == Some(YearMatch(year, |pre|, |pre| + 4))
  {
    var at := |pre| + 4;
    CompileLiteral(post);
    var rest := [Lit(post)];
    assert line[at..] == post;
    TrailingLiteral(line, post, at);
    assert line[|pre|..at] == year;
    YearFillsGap(line, post, |pre|);
    assert line[..|pre|] == pre;
    LeadingLiteralThenYear(line, pre, rest, Hit(|line|, [Span(|pre|, at)]));
    MatchAtLineStart(line, pre + Placeholder + post, pre, post, Hit(|line|, [Span(|pre|, at)]));
  }

  /**
   * Where four digits are followed by exactly the rest of the line's literal
   * text, the year group takes just those digits: every longer shape would
   * leave too little of the line for that text.
   */
  lemma YearFillsGap(line: string, post: string, pos: nat)
    requires pos + 4 + |post| == |line|
    requires AllDigits(line[pos..pos + 4]) && line[pos + 4..] == post
    ensures TryShapes(Shapes, [Lit(post)], line, pos) == Some(Hit(|line|, [Span(pos, pos + 4)]))
  {
    var rest := [Lit(post)];
    TrailingLiteral(line, post, pos + 4);
    assert ShapeLeads(Shapes[7], rest, line, pos) by {
      assert line[pos..pos + 4][0..4] == line[pos..pos + 4];
    }
    forall j | 0 <= j < 7
      ensures !ShapeLeads(Shapes[j], rest, line, pos)
    {
      LongShapeLeavesTooLittle(line, post, pos, Shapes[j]);
    }
    TryShapesFirstFit(Shapes, rest, line, pos);
    assert [Span(pos, pos + 4)] + [] == [Span(pos, pos + 4)];
  }

  /** A shape longer than four characters leaves too little of the line for the closing literal text. */
  lemma LongShapeLeavesTooLittle(line: string, post: string, pos: nat, sh: Shape)
    requires pos + 4 + |post| == |line|
    requires sh != Shape(false, false, false)
    ensures !ShapeLeads(sh, [Lit(post)], line, pos)
  {
    assert MinLength([Lit(post)]) == |post|;
  }

  /**
   * A line made of the pattern's text with a parenthesized range in place of
   * `${year}` yields the range with its parentheses.
   */
  lemma ParenthesizedRangeFoundIn(line: string, pre: string, token: string, post: string)
    requires '$' !in pre && '$' !in post
    requires FitsShape(token, Shape(true, true, true))
    requires line == pre + token + post
    ensures FindYearMatch(line, [pre + Placeholder + post]) == Some(YearMatch(token, |pre|, |pre| + |token|))
  {
    var at := |pre| + |token|;
    CompileLiteral(post);
    var rest := [Lit(post)];
    assert line[at..] == post;
    TrailingLiteral(line, post, at);
    assert line[|pre|..at] == token;
    var h := Hit(|line|, [Span(|pre|, at)]);
    assert Shapes[0] == Shape(true, true, true) && ShapeLength(Shapes[0]) == |token|;
    assert [Span(|pre|, at)] + [] == [Span(|pre|, at)];
    assert TryShapes(Shapes, rest, line, |pre|) == Some(h);
    assert line[..|pre|] == pre;
    LeadingLiteralThenYear(line, pre, rest, h);
    MatchAtLineStart(line, pre + Placeholder + post, pre, post, h);
  }

  /** A line shorter than the pattern's literal text and a year cannot match it. */
  lemma ShortLineNotMatched(line: string, pre: string, post: string)
    requires '$' !in pre && '$' !in post
    requires |line| < |pre| + 4 + |post|
    ensures FindYearMatch(line, [pre + Placeholder + post]) == None
  {
    var pattern := pre + Placeholder + post;
    CompileYearBetween(pattern, pre, post);
    YearBetweenMinLength(pre, post);
    TooShortNoMatch(Compile(pattern), line);
    OnePatternNoMatch(line, pattern);
  }

  /** A pattern with one `${year}` between two literal texts compiles to three segments. */
  lemma CompileYearBetween(pattern: string, pre: string, post: string)
    requires pattern == pre + Placeholder + post && '$' !in pre && '$' !in post
    ensures Compile(pattern) == [Lit(pre), Year, Lit(post)]
  {
    CompileAround(pattern, pre, post);
    CompileLiteral(post);
    assert [Lit(pre), Year] + [Lit(post)] == [Lit(pre), Year, Lit(post)];
  }

  lemma YearBetweenMinLength(pre: string, post: string)
    ensures MinLength([Lit(pre), Year, Lit(post)]) == |pre| + 4 + |post|
  {
    var segs := [Lit(pre), Year, Lit(post)];
    assert [Lit(post)][1..] == [];
    assert MinLength([Lit(post)]) == |post|;
    assert [Year, Lit(post)][1..] == [Lit(post)];
    assert MinLength([Year, Lit(post)]) == 4 + |post|;
    assert segs[1..] == [Year, Lit(post)];
  }

  /** With a single pattern, no match of its regular expression means no result. */
  lemma OnePatternNoMatch(line: string, pattern: string)
    requires SearchFrom(Compile(pattern), line, 0).None?
    ensures FindYearMatch(line, [pattern]) == None
  {
    assert [pattern][1..] == [];
  }

  /** `Copyright (c) 2020 My Company` yields the year `2020` at offsets 14 to 18. */
  lemma StandardHeaderYearFound(line: string, pattern: string)
    requires line == "Copyright (c) 2020 My Company"
    requires pattern == "Copyright (c) ${year} My Company"
    ensures FindYearMatch(line, [pattern]) == Some(YearMatch("2020", 14, 18))
  {
    var pre, year, post := "Copyright (c) ", "2020", " My Company";
    assert pattern == pre + Placeholder + post;
    assert line == pre + year + post;
    FourDigits(year);
    PlainYearFound(line, pre, year, post);
  }

  /** A parenthesized range is captured whole, parentheses included. */
  lemma ParenthesizedRangeFound(line: string, pattern: string)
    requires line == "// Copyright (2019-2020) Author"
    requires pattern == "// Copyright ${year} Author"
    ensures FindYearMatch(line, [pattern]) == Some(YearMatch("(2019-2020)", 13, 24))
  {
    var pre, token, post := "// Copyright ", "(2019-2020)", " Author";
    assert pattern == pre + Placeholder + post;
    assert line == pre + token + post;
    ParenthesizedRangeFits(token);
    ParenthesizedRangeFoundIn(line, pre, token, post);
  }

  lemma ParenthesizedRangeFits(token: string)
    requires token == "(2019-2020)"
    ensures FitsShape(token, Shape(true, true, true))
  {
    assert token[1..5] == "2019" && token[6..10] == "2020";
    FourDigits(token[1..5]);
    FourDigits(token[6..10]);
  }

  /** An unrelated short line does not match. */
  lemma UnrelatedLineNotMatched(line: string, pattern: string)
    requires line == "var x = 1;" && pattern == "// Copyright ${year}"
    ensures FindYearMatch(line, [pattern]) == None
  {
    var pre := "// Copyright ";
    assert pattern == pre + Placeholder + [];
    ShortLineNotMatched(line, pre, []);
  }
}
