/**
 * The line-level helpers: finding a year or year range in one line of text
 * by a list of header patterns, and extending a year range to the current
 * year.
 */
module CopyrightUtils {
  import opened Wrappers
  import opened Strings
  import opened YearPattern

  /** The placeholder a header pattern marks its year with. */
  const Placeholder: string := "${year}"

  /** A year token found in a line: the token and its offsets `[startIndex, endIndex)`. */
  datatype YearMatch = YearMatch(existingYearRange: string, startIndex: nat, endIndex: nat)

  /**
   * The text a segment sequence spells when every year group is written as
   * `year` and every line break as `\n`.
   */
  function Render(segs: seq<Segment>, year: string): string {
    if segs == [] then []
    else
      (match segs[0]
       case Lit(s) => s
       case Year => year
       case LineBreak => "\n") + Render(segs[1..], year)
  }

  /**
   * The regular expression a pattern compiles to: every character outside a
   * `${year}` is escaped, so it stands for itself, and every `${year}` becomes
   * the year group.
   */
  function Compile(pattern: string): (segs: seq<Segment>)
    ensures YearCount(segs) > 0 <==> Contains(pattern, Placeholder)
    ensures forall i :: 0 <= i < |segs| ==> !segs[i].LineBreak?
    ensures forall i :: 0 <= i < |segs| && segs[i].Lit? ==> !Contains(segs[i].text, Placeholder)
    ensures Contains(pattern, Placeholder) ==>
              |segs| >= 2 && segs[..2] == [Lit(pattern[..IndexOf(pattern, Placeholder)]), Year]
    decreases |pattern|
  {
    var i := IndexOf(pattern, Placeholder);
    if i == -1 then [Lit(pattern)]
    else
      PrefixHasNoPlaceholder(pattern, i);
      var rest := Compile(pattern[i + |Placeholder|..]);
      LitYearCons(pattern[..i], rest);
      [Lit(pattern[..i]), Year] + rest
  }

  /** A literal free of `${year}` and a year group, put before compiled segments. */
  lemma LitYearCons(pre: string, rest: seq<Segment>)
    requires !Contains(pre, Placeholder)
    requires forall i :: 0 <= i < |rest| ==> !rest[i].LineBreak?
    requires forall i :: 0 <= i < |rest| && rest[i].Lit? ==> !Contains(rest[i].text, Placeholder)
    ensures var segs := [Lit(pre), Year] + rest;
            && YearCount(segs) > 0
            && (forall i :: 0 <= i < |segs| ==> !segs[i].LineBreak?)
            && (forall i :: 0 <= i < |segs| && segs[i].Lit? ==> !Contains(segs[i].text, Placeholder))
            && |segs| >= 2 && segs[..2] == [Lit(pre), Year]
  {
    var segs := [Lit(pre), Year] + rest;
    assert forall j :: 2 <= j < |segs| ==> segs[j] == rest[j - 2];
    assert segs[1..] == [Year] + rest;
  }

  /** The text before the first `${year}` holds none. */
  lemma PrefixHasNoPlaceholder(pattern: string, i: int)
    requires i == IndexOf(pattern, Placeholder) && i != -1
    ensures !Contains(pattern[..i], Placeholder)
  {
    NoEarlierInPrefix(pattern, i, Placeholder, i);
    assert forall k :: 0 <= k <= i ==> !OccursAt(pattern[..i], Placeholder, k);
  }

  /** Compiling loses nothing: writing the year groups back as `${year}` gives the pattern. */
  lemma {:induction false} CompileRoundTrip(pattern: string)
    ensures Render(Compile(pattern), Placeholder) == pattern
    decreases |pattern|
  {
    var i := IndexOf(pattern, Placeholder);
    if i == -1 {
      assert Render([Lit(pattern)], Placeholder) == pattern + Render([], Placeholder);
    } else {
      var tail := pattern[i + |Placeholder|..];
      CompileRoundTrip(tail);
      CompileStep(pattern);
      RenderLitYear(pattern[..i], Compile(tail), Placeholder, true);
      AroundOccurrence(pattern, Placeholder, i);
    }
  }

  /** A pattern with a `${year}` compiles to its prefix, the year group and the rest compiled. */
  lemma CompileStep(pattern: string)
    requires IndexOf(pattern, Placeholder) != -1
    ensures var i := IndexOf(pattern, Placeholder);
            Compile(pattern) == [Lit(pattern[..i]), Year] + Compile(pattern[i + |Placeholder|..])
  {
  }

  /** Rendering a literal, optionally a year, then the rest. */
  lemma RenderLitYear(s: string, rest: seq<Segment>, year: string, withYear: bool)
    ensures withYear ==> Render([Lit(s), Year] + rest, year) == s + year + Render(rest, year)
    ensures !withYear ==> Render([Lit(s)] + rest, year) == s + Render(rest, year)
  {
    if withYear {
      var segs := [Lit(s), Year] + rest;
      assert segs[1..] == [Year] + rest && segs[1..][1..] == rest;
    } else {
      assert ([Lit(s)] + rest)[1..] == rest;
    }
  }

  /** `line` holds the year token `m` reports, at the offsets it reports. */
  ghost predicate IsYearMatchIn(line: string, m: YearMatch) {
    && m.startIndex <= m.endIndex <= |line|
    && m.endIndex - m.startIndex == |m.existingYearRange|
    && line[m.startIndex..m.endIndex] == m.existingYearRange
    && IsYearToken(m.existingYearRange)
  }

  /**
   * One iteration of the search over patterns: a pattern without `${year}`
   * is skipped; otherwise its regular expression is searched for in `line`
   * and the first year group is reported, its start computed from the
   * placeholder's index in the pattern.
   */
  function MatchPattern(line: string, pattern: string): (r: Option<YearMatch>)
    ensures !Contains(pattern, Placeholder) ==> r.None?
    ensures r.Some? ==> IsYearMatchIn(line, r.value)
    ensures r.Some? ==>
              var at := r.value.startIndex - IndexOf(pattern, Placeholder);
              && 0 <= at <= |line|
              && MatchSegs(Compile(pattern), line, at).Some?
              && forall s :: 0 <= s < at ==> MatchSegs(Compile(pattern), line, s).None?
    ensures r.None? && Contains(pattern, Placeholder) ==>
              forall s :: 0 <= s <= |line| ==> MatchSegs(Compile(pattern), line, s).None?
    ensures r.Some? ==>
              var at := r.value.startIndex - IndexOf(pattern, Placeholder);
              && 0 <= at <= |line|
              && MatchSegs(Compile(pattern), line, at).Some?
              && var h := MatchSegs(Compile(pattern), line, at).value;
                 |h.caps| > 0 && h.caps[0] == Span(r.value.startIndex, r.value.endIndex)
  {
    var idx := IndexOf(pattern, Placeholder);
    if idx == -1 then None
    else
      var segs := Compile(pattern);
      match SearchFrom(segs, line, 0)
      case None => None
      case Some((at, h)) =>
        PatternCapture(pattern, line, at);
        var token := line[h.caps[0].start..h.caps[0].end];
        Some(YearMatch(token, at + idx, at + idx + |token|))
  }

  /** A match of a compiled pattern captures a year token right after the pattern's text before `${year}`. */
  lemma PatternCapture(pattern: string, line: string, at: nat)
    requires Contains(pattern, Placeholder) && at <= |line|
    requires MatchSegs(Compile(pattern), line, at).Some?
    ensures var h := MatchSegs(Compile(pattern), line, at).value;
            && |h.caps| > 0 && h.caps[0].start == at + IndexOf(pattern, Placeholder)
            && h.caps[0].start <= h.caps[0].end <= |line|
            && IsYearToken(line[h.caps[0].start..h.caps[0].end])
  {
    var idx := IndexOf(pattern, Placeholder);
    var segs := Compile(pattern);
    assert segs == [Lit(pattern[..idx]), Year] + segs[2..];
    FirstCapAfterLiteral(pattern[..idx], segs[2..], line, at);
    var h := MatchSegs(segs, line, at).value;
    FirstCap(line, h.caps, at, h.end);
  }

  /**
   * `findYearMatch(lineText, patterns)`: the patterns are tried in order and
   * the first one that matches decides the result.
   */
  function FindYearMatch(line: string, patterns: seq<string>): (r: Option<YearMatch>)
    ensures r.Some? ==> IsYearMatchIn(line, r.value)
  {
    if patterns == [] then None
    else
      var m := MatchPattern(line, patterns[0]);
      if m.Some? then m else FindYearMatch(line, patterns[1..])
  }

  /**
   * The result is that of the first pattern that matches, and `undefined`
   * exactly when none does.
   */
  lemma {:induction false} FindYearMatchIsFirstHit(line: string, patterns: seq<string>)
    ensures var r := FindYearMatch(line, patterns);
            r.Some? ==>
              exists i :: 0 <= i < |patterns| && MatchPattern(line, patterns[i]) == r &&
                forall j :: 0 <= j < i ==> MatchPattern(line, patterns[j]).None?
    ensures FindYearMatch(line, patterns).None? <==>
              forall i :: 0 <= i < |patterns| ==> MatchPattern(line, patterns[i]).None?
  {
    if patterns == [] {
    } else if MatchPattern(line, patterns[0]).Some? {
      assert MatchPattern(line, patterns[0]) == FindYearMatch(line, patterns);
    } else {
      var tail := patterns[1..];
      FindYearMatchIsFirstHit(line, tail);
      assert FindYearMatch(line, patterns) == FindYearMatch(line, tail);
      var r := FindYearMatch(line, tail);
      if r.Some? {
        var i :| 0 <= i < |tail| && MatchPattern(line, tail[i]) == r &&
                 forall j :: 0 <= j < i ==> MatchPattern(line, tail[j]).None?;
        MissesShifted(line, patterns, i + 1);
        assert MatchPattern(line, patterns[i + 1]) == r;
      }
      MissesShifted(line, patterns, |patterns|);
    }
  }

  /** With the first pattern missing, the first `k` patterns miss exactly when the `k - 1` after it do. */
  lemma MissesShifted(line: string, patterns: seq<string>, k: nat)
    requires 0 < k <= |patterns| && MatchPattern(line, patterns[0]).None?
    ensures (forall j :: 0 <= j < k ==> MatchPattern(line, patterns[j]).None?) <==>
            (forall j :: 0 <= j < k - 1 ==> MatchPattern(line, patterns[1..][j]).None?)
  {
    var tail := patterns[1..];
    if forall j :: 0 <= j < k - 1 ==> MatchPattern(line, tail[j]).None? {
      forall j | 0 <= j < k ensures MatchPattern(line, patterns[j]).None? {
        if j > 0 { assert patterns[j] == tail[j - 1]; }
      }
    }
    if forall j :: 0 <= j < k ==> MatchPattern(line, patterns[j]).None? {
      forall j | 0 <= j < k - 1 ensures MatchPattern(line, tail[j]).None? {
        assert tail[j] == patterns[j + 1];
      }
    }
  }

  /** A pattern without `${year}` in front of the list changes nothing. */
  lemma SkipsPatternWithoutPlaceholder(line: string, pattern: string, rest: seq<string>)
    requires !Contains(pattern, Placeholder)
    ensures FindYearMatch(line, [pattern] + rest) == FindYearMatch(line, rest)
  {
    assert ([pattern] + rest)[1..] == rest;
  }

  /** Patterns without `${year}` never produce a match. */
  lemma NoPlaceholderNoMatch(line: string, patterns: seq<string>)
    requires forall i :: 0 <= i < |patterns| ==> !Contains(patterns[i], Placeholder)
    ensures FindYearMatch(line, patterns).None?
  {
    FindYearMatchIsFirstHit(line, patterns);
  }

  /** When the first pattern matches, the later ones are never consulted. */
  lemma FirstMatchingPatternWins(line: string, pattern: string, rest: seq<string>, other: seq<string>)
    requires MatchPattern(line, pattern).Some?
    ensures FindYearMatch(line, [pattern] + rest) == FindYearMatch(line, [pattern] + other)
  {
  }

  /** `years` of the source: the token with every parenthesis removed, split at `-`. */
  function YearsOf(range: string): (years: seq<string>)
    ensures |years| >= 1
    ensures forall i :: 0 <= i < |years| ==> '-' !in years[i] && '(' !in years[i] && ')' !in years[i]
  {
    SplitPartsBare(RemoveParens(range));
    Split(RemoveParens(range), '-')
  }

  /** The parts of a parenthesis-free string split at `-` hold no dash and no parenthesis. */
  lemma SplitPartsBare(s: string)
    requires '(' !in s && ')' !in s
    ensures forall i :: 0 <= i < |Split(s, '-')| ==> '(' !in Split(s, '-')[i] && ')' !in Split(s, '-')[i]
  {
    forall i | 0 <= i < |Split(s, '-')|
      ensures '(' !in Split(s, '-')[i] && ')' !in Split(s, '-')[i]
    {
      SplitPartsFromSource(s, '-', i);
    }
  }

  function StartYear(range: string): string {
    YearsOf(range)[0]
  }

  function EndYear(range: string): string {
    var years := YearsOf(range);
    years[|years| - 1]
  }

  /**
   * The updated range: the original start, a dash and the current year, in
   * parentheses when asked to.
   */
  function FormatRange(startYear: string, currentYear: string, parens: bool): string {
    if parens then "(" + startYear + "-" + currentYear + ")" else startYear + "-" + currentYear
  }

  /**
   * Whether the updated range gets parentheses: when the original had an
   * opening parenthesis, or was a single year.
   */
  predicate WantsParens(range: string) {
    '(' in range || |YearsOf(range)| == 1
  }

  /**
   * `calculateNewYearRange(existingYearRange, currentYear)`: no update (`null`)
   * when the end year is at or after the current year as a string;
   * otherwise the range from the original start to the current year.
   */
  function CalculateNewYearRange(existingYearRange: string, currentYear: string): (r: Option<string>)
    ensures r.None? <==> !LexLess(EndYear(existingYearRange), currentYear)
    ensures r.Some? ==> |r.value| > 0 && (r.value[0] == '(' <==> WantsParens(existingYearRange))
    ensures r.Some? && '-' !in currentYear && '(' !in currentYear && ')' !in currentYear ==>
              YearsOf(r.value) == [StartYear(existingYearRange), currentYear]
  {
    if !LexLess(EndYear(existingYearRange), currentYear) then None
    else
      var start := StartYear(existingYearRange);
      var parens := WantsParens(existingYearRange);
      FormattedRangeReadBack(start, currentYear, parens);
      Some(FormatRange(start, currentYear, parens))
  }

  /** A formatted range opens with a parenthesis exactly when asked to, and reads back as its two years. */
  lemma FormattedRangeReadBack(start: string, currentYear: string, parens: bool)
    requires '-' !in start && '(' !in start && ')' !in start
    ensures |FormatRange(start, currentYear, parens)| > 0
    ensures FormatRange(start, currentYear, parens)[0] == '(' <==> parens
    ensures '-' !in currentYear && '(' !in currentYear && ')' !in currentYear ==>
              YearsOf(FormatRange(start, currentYear, parens)) == [start, currentYear]
  {
    if !parens {
      assert FormatRange(start, currentYear, parens)[0] == (start + "-")[0];
    }
    if '-' !in currentYear && '(' !in currentYear && ')' !in currentYear {
      FormattedRangeYears(start, currentYear, parens);
    }
  }

  /** A four-digit year as the settings and the clock spell it. */
  predicate IsYear(s: string) {
    |s| == 4 && AllDigits(s)
  }

  /** How the source's parse reads a well-formed year token. */
  lemma ParseYearToken(t: string, sh: Shape)
    requires FitsShape(t, sh)
    ensures var o := if sh.open then 1 else 0;
            && YearsOf(t) == (if sh.range then [t[o..o + 4], t[o + 5..o + 9]] else [t[o..o + 4]])
            && ('(' in t <==> sh.open)
  {
    YearsOfToken(t, sh);
    OpenParenOfToken(t, sh);
  }

  lemma YearsOfToken(t: string, sh: Shape)
    requires FitsShape(t, sh)
    ensures var o := if sh.open then 1 else 0;
            YearsOf(t) == (if sh.range then [t[o..o + 4], t[o + 5..o + 9]] else [t[o..o + 4]])
  {
    var o := if sh.open then 1 else 0;
    var c := if sh.close then 1 else 0;
    TokenParensRemoved(t, sh);
    var d1 := t[o..o + 4];
    forall i | 0 <= i < 4 ensures IsDigit(d1[i]) { assert d1[i] == t[o + i]; }
    RemoveParensNone(d1);
    if sh.range {
      var d2 := t[o + 5..o + 9];
      forall i | 0 <= i < 4 ensures IsDigit(d2[i]) { assert d2[i] == t[o + 5 + i]; }
      assert t[o..|t| - c] == d1 + "-" + d2;
      assert Join([d1, d2], '-') == d1 + "-" + d2;
      SplitJoin([d1, d2], '-');
    } else {
      assert t[o..|t| - c] == d1;
      assert '-' !in d1 by {
        forall i | 0 <= i < 4 ensures d1[i] != '-' { assert IsDigit(d1[i]); }
      }
      SplitNoSeparator(d1, '-');
    }
  }

  /** Removing the parentheses of a year token leaves its digits and dash. */
  lemma TokenParensRemoved(t: string, sh: Shape)
    requires FitsShape(t, sh)
    ensures var o := if sh.open then 1 else 0;
            var c := if sh.close then 1 else 0;
            RemoveParens(t) == t[o..|t| - c]
  {
    var o := if sh.open then 1 else 0;
    var c := if sh.close then 1 else 0;
    CoreHasNoParens(t, sh);
    RemoveParensNone(t[o..|t| - c]);
    OuterParensRemoved(t, o, c);
  }

  /** Between its optional parentheses a year token holds only digits and a dash. */
  lemma CoreHasNoParens(t: string, sh: Shape)
    requires FitsShape(t, sh)
    ensures var o := if sh.open then 1 else 0;
            var c := if sh.close then 1 else 0;
            '(' !in t[o..|t| - c] && ')' !in t[o..|t| - c]
  {
    var o := if sh.open then 1 else 0;
    var c := if sh.close then 1 else 0;
    var core := t[o..|t| - c];
    forall i | 0 <= i < |core| ensures core[i] != '(' && core[i] != ')' {
      assert core[i] == t[o + i];
      if i < 4 {
        assert t[o + i] == t[o..o + 4][i];
      } else if i > 4 {
        assert t[o + i] == t[o + 5..o + 9][i - 5];
      }
    }
  }

  /** An opening parenthesis at the front and a closing one at the back are dropped. */
  lemma OuterParensRemoved(t: string, o: nat, c: nat)
    requires o <= 1 && c <= 1 && o + c <= |t|
    requires o == 1 ==> t[0] == '('
    requires c == 1 ==> t[|t| - 1] == ')'
    ensures RemoveParens(t) == RemoveParens(t[o..|t| - c])
  {
    ThreeParts(t, o, |t| - c);
    FrontParenRemoved(t, o);
    BackParenRemoved(t, c);
    RemoveParensBetween(t, t[..o], t[o..|t| - c], t[|t| - c..]);
  }

  lemma FrontParenRemoved(t: string, o: nat)
    requires o <= 1 && o <= |t| && (o == 1 ==> t[0] == '(')
    ensures RemoveParens(t[..o]) == []
  {
    OnlyParens(t[..o]);
  }

  lemma BackParenRemoved(t: string, c: nat)
    requires c <= 1 && c <= |t| && (c == 1 ==> t[|t| - 1] == ')')
    ensures RemoveParens(t[|t| - c..]) == []
  {
    OnlyParens(t[|t| - c..]);
  }

  lemma RemoveParensBetween(t: string, front: string, core: string, back: string)
    requires t == front + core + back
    requires RemoveParens(front) == [] && RemoveParens(back) == []
    ensures RemoveParens(t) == RemoveParens(core)
  {
    RemoveParensAppend(front + core, back);
    RemoveParensAppend(front, core);
    assert [] + RemoveParens(core) + [] == RemoveParens(core);
  }

  lemma OnlyParens(s: string)
    requires |s| <= 1 && (|s| == 1 ==> s[0] == '(' || s[0] == ')')
    ensures RemoveParens(s) == []
  {
  }

  lemma OpenParenOfToken(t: string, sh: Shape)
    requires FitsShape(t, sh)
    ensures '(' in t <==> sh.open
  {
    if sh.open {
      assert t[0] == '(';
    } else {
      var d1 := t[0..4];
      forall i | 0 <= i < |t| ensures t[i] != '(' {
        if i < 4 { assert t[i] == d1[i] && IsDigit(d1[i]); }
        else if sh.range && i == 4 { }
        else if sh.range && i < 9 { assert t[i] == t[5..9][i - 5]; }
      }
    }
  }

  /**
   * `calculateNewYearRange` on a well-formed token: `null` unless
   * the end year is before the current year, and then the start year, a dash
   * and the current year, parenthesized when the token had an opening
   * parenthesis or no range part.
   */
  lemma CalculateOnYearToken(t: string, sh: Shape, currentYear: string)
    requires FitsShape(t, sh)
    ensures var o := if sh.open then 1 else 0;
            var start := t[o..o + 4];
            var end := if sh.range then t[o + 5..o + 9] else start;
            CalculateNewYearRange(t, currentYear) ==
              if LexLess(end, currentYear) then Some(FormatRange(start, currentYear, sh.open || !sh.range))
              else None
  {
    ParseYearToken(t, sh);
  }

  /**
   * On a year token and a four-digit current year, `null` means exactly that
   * the token's end year is not before the current year.
   */
  lemma NoUpdateIffNotBehind(t: string, currentYear: string)
    requires IsYearToken(t) && IsYear(currentYear)
    ensures IsYear(EndYear(t))
    ensures CalculateNewYearRange(t, currentYear).None? <==>
              DigitsValue(EndYear(t)) >= DigitsValue(currentYear)
  {
    var sh :| FitsShape(t, sh);
    ParseYearToken(t, sh);
    LexLessIsNumeric(EndYear(t), currentYear);
  }

  /**
   * An update keeps the start year, ends at the current year, and is a
   * range in parentheses exactly when the original had an opening
   * parenthesis or was a single year.
   */
  lemma UpdatedRangeShape(t: string, sh: Shape, currentYear: string)
    requires FitsShape(t, sh) && IsYear(currentYear)
    requires CalculateNewYearRange(t, currentYear).Some?
    ensures var r := CalculateNewYearRange(t, currentYear).value;
            var parens := sh.open || !sh.range;
            && FitsShape(r, Shape(parens, true, parens))
            && StartYear(r) == StartYear(t)
            && EndYear(r) == currentYear
  {
    ParseYearToken(t, sh);
    var parens := sh.open || !sh.range;
    assert CalculateNewYearRange(t, currentYear).value == FormatRange(StartYear(t), currentYear, parens);
    FormatRangeFits(StartYear(t), currentYear, parens);
  }

  /** A range written from two years is a year token with exactly those years. */
  lemma FormatRangeFits(start: string, currentYear: string, parens: bool)
    requires IsYear(start) && IsYear(currentYear)
    ensures FitsShape(FormatRange(start, currentYear, parens), Shape(parens, true, parens))
    ensures YearsOf(FormatRange(start, currentYear, parens)) == [start, currentYear]
  {
    var r := FormatRange(start, currentYear, parens);
    if parens {
      assert r[1..5] == start && r[5] == '-' && r[6..10] == currentYear;
    } else {
      assert r[0..4] == start && r[4] == '-' && r[5..9] == currentYear;
    }
    ParseYearToken(r, Shape(parens, true, parens));
  }

  /**
   * Updating twice changes nothing more: an updated range already ends at
   * the current year.
   */
  lemma UpdateIsIdempotent(t: string, currentYear: string)
    requires '-' !in currentYear && '(' !in currentYear && ')' !in currentYear
    requires CalculateNewYearRange(t, currentYear).Some?
    ensures CalculateNewYearRange(CalculateNewYearRange(t, currentYear).value, currentYear).None?
  {
    var start := StartYear(t);
    assert '(' !in start && ')' !in start by {
      SplitPartsFromSource(RemoveParens(t), '-', 0);
    }
    FormattedRangeYears(start, currentYear, WantsParens(t));
    LexLessIrreflexive(currentYear);
  }

  /** The source's parse reads a formatted range back as its two years. */
  lemma FormattedRangeYears(start: string, currentYear: string, parens: bool)
    requires '-' !in start && '(' !in start && ')' !in start
    requires '-' !in currentYear && '(' !in currentYear && ')' !in currentYear
    ensures YearsOf(FormatRange(start, currentYear, parens)) == [start, currentYear]
  {
    var bare := start + "-" + currentYear;
    assert RemoveParens(bare) == bare by {
      RemoveParensAppend(start + "-", currentYear);
      RemoveParensAppend(start, "-");
      RemoveParensNone(start);
      RemoveParensNone(currentYear);
      assert RemoveParens("-") == "-";
    }
    if parens {
      assert FormatRange(start, currentYear, parens) == ("(" + bare) + ")";
      RemoveParensAppend("(" + bare, ")");
      RemoveParensAppend("(", bare);
      assert RemoveParens("(") == [] && RemoveParens(")") == [];
      assert RemoveParens(FormatRange(start, currentYear, parens)) == bare;
    }
    assert Join([start, currentYear], '-') == bare;
    SplitJoin([start, currentYear], '-');
  }

  /** Every part of a split holds only characters of the split string. */
  lemma {:induction false} SplitPartsFromSource(s: string, sep: char, i: nat)
    requires i < |Split(s, sep)|
    ensures forall c :: c in Split(s, sep)[i] ==> c in s
  {
    if s != [] {
      var rest := Split(s[1..], sep);
      if s[0] == sep {
        if i > 0 { SplitPartsFromSource(s[1..], sep, i - 1); }
      } else if i == 0 {
        SplitPartsFromSource(s[1..], sep, 0);
      } else {
        SplitPartsFromSource(s[1..], sep, i);
      }
    }
  }
}
