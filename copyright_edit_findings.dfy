/**
 * Two places where `getCopyrightEdit` does not do what it evidently means
 * to, each shown on a concrete document, and a corrected planner with the
 * intended behaviour proved of it.
 *
 * 1. A header without a year group that the header regular expression
 *    recognises is still inserted again when the document's line breaks are
 *    `\r\n`: the insertion guard compares the raw text with `startsWith`.
 * 2. The updated range is placed at the first copy of the captured token in
 *    the matched text (`indexOf`), which can be a literal year of the header
 *    written before the captured one.
 */
module CopyrightEditFindings {
  import opened Wrappers
  import opened Strings
  import opened YearPattern
  import opened CopyrightUtils
  import opened CopyrightEdit
  import CopyrightUtilsExamples

  // ---------------------------------------------------------------------
  // Finding 1: a recognised header inserted again

  lemma NoPlaceholderIn(s: string)
    requires '$' !in s
    ensures !Contains(s, Placeholder)
  {
    assert Placeholder[0] == '$';
    NoOccurrenceWithout(s, Placeholder);
  }

  lemma NoTemplateYearIn(s: string)
    requires '1' !in s && '2' !in s
    ensures FindTemplateYear(s).None?
  {
    forall i | 0 <= i <= |s| ensures !TemplateYearAt(s, i) {
      if i < |s| { assert s[i] != '1' && s[i] != '2'; }
    }
  }

  /** A line without line-break characters is written the same either way. */
  lemma {:induction false} WithCrlfPlain(s: string)
    requires forall i :: 0 <= i < |s| ==> s[i] != '\n' && s[i] != '\r'
    ensures WithCrlf(s) == s
  {
    if s != [] {
      WithCrlfPlain(s[1..]);
    }
  }

  /** A line break after a plain line is written `\r\n`. */
  lemma {:induction false} WithCrlfLineBreak(a: string, b: string)
    requires forall i :: 0 <= i < |a| ==> a[i] != '\n' && a[i] != '\r'
    ensures WithCrlf(a + "\n" + b) == a + "\r\n" + WithCrlf(b)
  {
    var s := a + "\n" + b;
    if a == [] {
      assert s == "\n" + b && s[1..] == b;
    } else {
      assert s[0] == a[0] && s[1..] == a[1..] + "\n" + b;
      WithCrlfLineBreak(a[1..], b);
    }
  }

  /** The two-line header `Acme` / `MIT` has no year group: its regular expression is the escaped text. */
  lemma TwoLineHeader(h: string, y: string)
    requires h == "Acme\nMIT"
    ensures HeaderRegex(h) == Escape(h) && !HasYearGroup(h)
    ensures HeaderInstance(h, y) == h
  {
    NoPlaceholderIn(h);
    NoTemplateYearIn(h);
  }

  lemma TwoLineHeaderWithCrlf(h: string)
    requires h == "Acme\nMIT"
    ensures WithCrlf(h) == "Acme\r\nMIT"
  {
    assert h == "Acme" + "\n" + "MIT";
    WithCrlfLineBreak("Acme", "MIT");
    WithCrlfPlain("MIT");
  }

  /**
   * As written: the document begins with the header, saved with `\r\n`; the
   * header regular expression matches all of it, yet the plan is to insert
   * the header a second time.
   */
  lemma CrlfHeaderInsertedAgain(h: string, text: string, y: string)
    requires h == "Acme\nMIT" && text == "Acme\r\nMIT"
    ensures MatchSegs(HeaderRegex(h), text, 0) == Some(Hit(|text|, []))
    ensures PlannedEdit(text, h, y) == Some(CopyrightEdit(TextEdit(0, 0, h + "\n"), InsertMessage))
  {
    CrlfHeaderMatches(h, text);
    TwoLineHeader(h, y);
    YearlessHeaderPlan(text, h, y);
    CrlfTextDiffers(h, text);
  }

  /** The `\r\n` document does not start with the header verbatim. */
  lemma CrlfTextDiffers(h: string, text: string)
    requires h == "Acme\nMIT" && text == "Acme\r\nMIT"
    ensures !StartsWith(text, h)
  {
    DifferNotStartsWith(text, h, 4);
  }

  /**
   * Whether or not the regular expression recognises it, a header without a
   * year group is inserted unless the document starts with it verbatim.
   */
  lemma YearlessHeaderPlan(text: string, h: string, y: string)
    requires !HasYearGroup(h)
    ensures PlannedEdit(text, h, y) ==
            if StartsWith(text, h) then None else Some(CopyrightEdit(TextEdit(0, 0, h + "\n"), InsertMessage))
  {
    PlanOfMissingHeader(text, h, y);
  }

  lemma CrlfHeaderMatches(h: string, text: string)
    requires h == "Acme\nMIT" && text == "Acme\r\nMIT"
    ensures MatchSegs(HeaderRegex(h), text, 0) == Some(Hit(|text|, []))
  {
    TwoLineHeader(h, "");
    TwoLineHeaderWithCrlf(h);
    assert Escape(h) + [] == Escape(h);
    EscapeMatchesCrlf(h, [], text, 0);
  }

  // ---------------------------------------------------------------------
  // Finding 2: the update placed at an earlier copy of the year

  lemma EscapeIsLitChars(s: string)
    requires forall i :: 0 <= i < |s| ==> s[i] != '\n' && s[i] != '\r'
    ensures Escape(s) == LitChars(s)
  {
    EscapePlainPrefix(s, |s|);
    assert s[..|s|] == s && s[|s|..] == [];
  }

  /** A sequence that spells exactly the hole is replaced by one year group. */
  lemma ReplaceHoleWholeHole(segs: seq<Segment>, hole: string, all: bool)
    requires |hole| > 0 && segs == LitChars(hole)
    ensures ReplaceHole(segs, hole, all) == [Year]
  {
    assert Spells(segs, hole) && segs[|hole|..] == [];
  }

  /** A one-line header whose only placeholder ends it: its escaped text, then the year group. */
  lemma RegexOfTrailingPlaceholder(h: string, pre: string)
    requires h == pre + Placeholder
    requires forall i :: 0 <= i < |pre| ==> pre[i] != '$' && pre[i] != '\n' && pre[i] != '\r'
    ensures Contains(h, Placeholder)
    ensures HeaderRegex(h) == LitChars(pre) + [Year]
  {
    var n := |pre|;
    PlaceholderAtEnd(h, pre);
    EscapeIsLitChars(h);
    var segs := LitChars(h);
    PrefixSpellsNoPlaceholder(h, pre);
    ReplaceHoleSkips(segs, Placeholder, true, n);
    LitCharsSplit(h, n);
    ReplaceHoleWholeHole(segs[n..], Placeholder, true);
  }

  lemma PlaceholderAtEnd(h: string, pre: string)
    requires h == pre + Placeholder
    requires forall i :: 0 <= i < |pre| ==> pre[i] != '\n' && pre[i] != '\r'
    ensures OccursAt(h, Placeholder, |pre|) && h[..|pre|] == pre && h[|pre|..] == Placeholder
    ensures forall i :: 0 <= i < |h| ==> h[i] != '\n' && h[i] != '\r'
  {
    assert h[|pre|..|pre| + |Placeholder|] == Placeholder;
    forall i | 0 <= i < |h| ensures h[i] != '\n' && h[i] != '\r' {
      if i >= |pre| {
        assert h[i] == Placeholder[i - |pre|];
      }
    }
  }

  lemma PrefixSpellsNoPlaceholder(h: string, pre: string)
    requires |pre| <= |h| && h[..|pre|] == pre
    requires forall i :: 0 <= i < |pre| ==> pre[i] != '$'
    ensures forall i :: 0 <= i < |pre| ==> !Spells(LitChars(h)[i..], Placeholder)
  {
    var segs := LitChars(h);
    forall i | 0 <= i < |pre| ensures !Spells(segs[i..], Placeholder) {
      assert h[i] == pre[i];
      assert segs[i..][0] == Lit([h[i]]);
    }
  }

  lemma LitCharsSplit(s: string, n: nat)
    requires n <= |s|
    ensures LitChars(s)[..n] == LitChars(s[..n]) && LitChars(s)[n..] == LitChars(s[n..])
  {
    LitCharsFront(s, n);
    LitCharsBack(s, n);
  }

  lemma LitCharsFront(s: string, n: nat)
    requires n <= |s|
    ensures LitChars(s)[..n] == LitChars(s[..n])
  {
    var segs, front := LitChars(s), LitChars(s[..n]);
    forall i | 0 <= i < n ensures segs[..n][i] == front[i] {
      assert s[..n][i] == s[i];
    }
  }

  lemma LitCharsBack(s: string, n: nat)
    requires n <= |s|
    ensures LitChars(s)[n..] == LitChars(s[n..])
  {
    var segs, back := LitChars(s), LitChars(s[n..]);
    forall i | 0 <= i < |s| - n ensures segs[n..][i] == back[i] {
      assert s[n..][i] == s[n + i];
    }
  }

  /** The header `2020 ${year}`: five escaped characters, then the year group. */
  lemma RegexOfYearAfterCopy(h: string)
    requires h == "2020 ${year}"
    ensures Contains(h, Placeholder)
    ensures HeaderRegex(h) == LitChars("2020 ") + [Year]
  {
    RegexOfTrailingPlaceholder(h, "2020 ");
  }

  /** Escaped plain text followed by the year group matches that text and a four-digit year ending the document. */
  lemma MatchOfTextThenYear(pre: string, text: string)
    requires forall i :: 0 <= i < |pre| ==> pre[i] != '\n' && pre[i] != '\r'
    requires OccursAt(text, pre, 0) && |text| == |pre| + 4 && AllDigits(text[|pre|..])
    ensures MatchSegs(LitChars(pre) + [Year], text, 0) == Some(Hit(|text|, [Span(|pre|, |text|)]))
  {
    EscapeIsLitChars(pre);
    assert Written(pre, false) == pre;
    EscapeMatchesWritten(pre, [Year], text, 0, |pre|, false);
    YearGroupAlone(text, |pre|);
  }

  lemma YearGroupAlone(text: string, pos: nat)
    requires pos + 4 == |text| && AllDigits(text[pos..])
    ensures MatchSegs([Year], text, pos) == Some(Hit(|text|, [Span(pos, |text|)]))
  {
    var none: seq<Segment> := [];
    MatchYearStep(none, text, pos);
    assert [Year] + none == [Year];
    assert text[pos..pos + 4] == text[pos..];
    assert MatchSegs(none, text, pos + 4) == Some(Hit(pos + 4, []));
    CopyrightUtilsExamples.PlainYearGroup(none, text, pos);
    assert [Span(pos, pos + 4)] + [] == [Span(pos, |text|)];
  }

  /** The document `2020 2020` matches that header with its group on the second `2020`. */
  lemma MatchOfYearAfterCopy(h: string, text: string)
    requires h == "2020 ${year}" && text == "2020 2020"
    ensures MatchSegs(HeaderRegex(h), text, 0) == Some(Hit(9, [Span(5, 9)]))
  {
    RegexOfYearAfterCopy(h);
    assert text[0..5] == "2020 " && text[5..] == "2020";
    CopyrightUtilsExamples.FourDigits(text[5..]);
    MatchOfTextThenYear("2020 ", text);
  }

  /** A captured single year other than the current one becomes a parenthesized range at the first copy of it. */
  lemma UpdateOfSingleYear(text: string, m: Hit, currentYear: string)
    requires |m.caps| >= 1 && CapsWithin(text, m.caps, 0, m.end)
    requires var t := text[m.caps[0].start..m.caps[0].end];
             FitsShape(t, Shape(false, false, false)) && t != currentYear
    ensures var t := text[m.caps[0].start..m.caps[0].end];
            var newRange := "(" + t + "-" + currentYear + ")";
            && OccursAt(text[..m.end], t, m.caps[0].start)
            && var at := TokenOffset(text[..m.end], t, m.caps[0].start);
               PlannedUpdate(text, m, currentYear) ==
                 Some(CopyrightEdit(TextEdit(at, at + |t|, newRange), UpdateMessage(t, newRange)))
  {
    var t := text[m.caps[0].start..m.caps[0].end];
    ParseYearToken(t, Shape(false, false, false));
    assert t[0..4] == t;
    PlannedUpdateUnfolded(text, m, currentYear);
  }

  /**
   * As written: the captured year is the second `2020`, but the edit
   * rewrites the first, which belongs to the header's own text.
   */
  lemma IndexOfHitsLiteralYear(h: string, text: string, y: string)
    requires h == "2020 ${year}" && text == "2020 2020" && y == "2025"
    ensures HeaderFound(text, h) && FoundSpan(text, h) == Span(5, 9)
    ensures PlannedEdit(text, h, y) ==
            Some(CopyrightEdit(TextEdit(0, 4, "(2020-2025)"), UpdateMessage("2020", "(2020-2025)")))
  {
    MatchOfYearAfterCopy(h, text);
    PlanOfFoundHeader(text, h, y);
    UpdateAtFirstCopy(text, Hit(9, [Span(5, 9)]), y);
  }

  lemma UpdateAtFirstCopy(text: string, m: Hit, y: string)
    requires text == "2020 2020" && y == "2025" && m == Hit(9, [Span(5, 9)])
    requires CapsWithin(text, m.caps, 0, m.end)
    ensures PlannedUpdate(text, m, y) ==
            Some(CopyrightEdit(TextEdit(0, 4, "(2020-2025)"), UpdateMessage("2020", "(2020-2025)")))
  {
    var t := text[m.caps[0].start..m.caps[0].end];
    SecondCopyCaptured(text, t);
    UpdateOfSingleYear(text, m, y);
    FirstCopyFound(text, t);
    ParenthesizedRangeText(t, y);
  }

  lemma SecondCopyCaptured(text: string, t: string)
    requires text == "2020 2020" && t == text[5..9]
    ensures t == "2020" && FitsShape(t, Shape(false, false, false))
  {
    CopyrightUtilsExamples.FourDigits(t);
  }

  lemma FirstCopyFound(text: string, t: string)
    requires text == "2020 2020" && t == "2020"
    ensures OccursAt(text[..9], t, 5) && TokenOffset(text[..9], t, 5) == 0
  {
    assert text[..9] == text && text[0..4] == t && text[5..9] == t;
    IndexOfFirstOccurrence(text, t, 0);
  }

  lemma ParenthesizedRangeText(t: string, y: string)
    requires t == "2020" && y == "2025"
    ensures "(" + t + "-" + y + ")" == "(2020-2025)"
  {
    assert ("(" + t + "-" + y + ")")[5] == '-';
  }

  /** In general the edit starts at or before any copy of the token written ahead of the capture. */
  lemma UpdateLandsOnEarlierCopy(text: string, h: string, currentYear: string, j: nat)
    requires HeaderFound(text, h) && EndYear(FoundToken(text, h)) != currentYear
    requires j < FoundSpan(text, h).start && OccursAt(text, FoundToken(text, h), j)
    ensures var r := PlannedEdit(text, h, currentYear);
            r.Some? && r.value.edit.start <= j
  {
    PlanOfFoundHeader(text, h, currentYear);
    UpdateStartsAtFirstCopy(text, MatchSegs(HeaderRegex(h), text, 0).value, currentYear, j);
  }

  lemma UpdateStartsAtFirstCopy(text: string, m: Hit, currentYear: string, j: nat)
    requires |m.caps| >= 1 && CapsWithin(text, m.caps, 0, m.end)
    requires var t := text[m.caps[0].start..m.caps[0].end];
             EndYear(t) != currentYear && j < m.caps[0].start && OccursAt(text, t, j)
    ensures var r := PlannedUpdate(text, m, currentYear);
            r.Some? && r.value.edit.start <= j
  {
    var t := text[m.caps[0].start..m.caps[0].end];
    FirstCap(text, m.caps, 0, m.end);
    PlannedUpdateUnfolded(text, m, currentYear);
    OccursInPrefix(text, m.end, t, j);
  }

  // ---------------------------------------------------------------------
  // The corrected planner

  /** The update as intended: the captured span itself is replaced. */
  function UpdateCapture(text: string, m: Hit, currentYear: string): (r: Option<CopyrightEdit>)
    requires |m.caps| >= 1 && CapsWithin(text, m.caps, 0, m.end)
    ensures m.caps[0].start <= m.caps[0].end <= |text|
    ensures r.None? <==> EndYear(text[m.caps[0].start..m.caps[0].end]) == currentYear
    ensures r.Some? ==> && r.value.edit.start == m.caps[0].start && r.value.edit.end == m.caps[0].end
                        && r.value.message == UpdateMessage(text[m.caps[0].start..m.caps[0].end], r.value.edit.newText)
    ensures r.Some? && '-' !in currentYear && '(' !in currentYear && ')' !in currentYear ==>
              YearsOf(r.value.edit.newText) == [StartYear(text[m.caps[0].start..m.caps[0].end]), currentYear]
  {
    FirstCap(text, m.caps, 0, m.end);
    var cap := m.caps[0];
    var token := text[cap.start..cap.end];
    if EndYear(token) != currentYear then
      var newRange := FormatRange(StartYear(token), currentYear, WantsParens(token));
      FormattedRangeReadBack(StartYear(token), currentYear, WantsParens(token));
      Some(CopyrightEdit(TextEdit(cap.start, cap.end, newRange), UpdateMessage(token, newRange)))
    else None
  }

  /**
   * `getCopyrightEdit` as intended: a recognised header is never inserted
   * again, and a stale year is replaced where it was captured.
   */
  function PlannedEditCorrected(text: string, h: string, currentYear: string): (r: Option<CopyrightEdit>)
    ensures r.Some? ==> r.value.edit.start <= r.value.edit.end <= |text|
  {
    var m := MatchSegs(HeaderRegex(h), text, 0);
    if m.Some? then
      if HasYearGroup(h) then
        FirstCap(text, m.value.caps, 0, m.value.end);
        UpdateCapture(text, m.value, currentYear)
      else None
    else PlannedInsert(text, h, currentYear)
  }

  /** When the header regular expression matches, the only possible edit rewrites the captured year. */
  lemma CorrectedNeverInsertsOverMatch(text: string, h: string, currentYear: string)
    requires MatchSegs(HeaderRegex(h), text, 0).Some?
    ensures var r := PlannedEditCorrected(text, h, currentYear);
            r.None? ||
            (&& HeaderFound(text, h)
             && r.value.edit == TextEdit(FoundSpan(text, h).start, FoundSpan(text, h).end, r.value.edit.newText)
             && r.value.message != InsertMessage)
  {
    var r := PlannedEditCorrected(text, h, currentYear);
    if r.Some? {
      assert r.value.message[0] == 'U' && InsertMessage[0] == 'I';
    }
  }

  /** A stale year is replaced exactly where it was captured, by the range up to the current year. */
  lemma CorrectedReplacesCapture(text: string, h: string, currentYear: string)
    requires HeaderFound(text, h) && IsYear(currentYear)
    requires EndYear(FoundToken(text, h)) != currentYear
    ensures var r := PlannedEditCorrected(text, h, currentYear);
            var sp := FoundSpan(text, h);
            var t := FoundToken(text, h);
            var p := WantsParens(t);
            && r.Some?
            && r.value.edit.start == sp.start && r.value.edit.end == sp.end
            && Apply(text, r.value.edit)[..sp.start] == text[..sp.start]
            && FitsShape(r.value.edit.newText, Shape(p, true, p))
            && YearsOf(r.value.edit.newText) == [StartYear(t), currentYear]
            && r.value.message == UpdateMessage(t, r.value.edit.newText)
  {
    var t := FoundToken(text, h);
    var sh: Shape :| FitsShape(t, sh);
    UpdatedRangeOfToken(t, sh, currentYear);
  }

  /** A header whose year already ends at the current year needs no edit. */
  lemma CorrectedLeavesCurrentYear(text: string, h: string, currentYear: string)
    requires HeaderFound(text, h) && EndYear(FoundToken(text, h)) == currentYear
    ensures PlannedEditCorrected(text, h, currentYear).None?
  {
  }

  /** Where the header is not recognised at all, the correction changes nothing. */
  lemma CorrectedAgreesWithoutMatch(text: string, h: string, currentYear: string)
    requires MatchSegs(HeaderRegex(h), text, 0).None?
    ensures PlannedEditCorrected(text, h, currentYear) == PlannedEdit(text, h, currentYear)
  {
  }

  /** Where the captured token is its own first copy, the correction changes nothing either. */
  lemma CorrectedAgreesOnFirstCopy(text: string, h: string, currentYear: string)
    requires HeaderFound(text, h)
    requires forall j :: 0 <= j < FoundSpan(text, h).start ==> !OccursAt(text, FoundToken(text, h), j)
    ensures PlannedEditCorrected(text, h, currentYear) == PlannedEdit(text, h, currentYear)
  {
    PlanOfFoundHeader(text, h, currentYear);
    var m := MatchSegs(HeaderRegex(h), text, 0).value;
    assert FoundToken(text, h) == text[m.caps[0].start..m.caps[0].end];
    UpdateAgreesOnFirstCopy(text, m, currentYear);
  }

  lemma UpdateAgreesOnFirstCopy(text: string, m: Hit, currentYear: string)
    requires |m.caps| >= 1 && CapsWithin(text, m.caps, 0, m.end)
    requires forall j :: 0 <= j < m.caps[0].start ==> !OccursAt(text, text[m.caps[0].start..m.caps[0].end], j)
    ensures UpdateCapture(text, m, currentYear) == PlannedUpdate(text, m, currentYear)
  {
    FirstCap(text, m.caps, 0, m.end);
    var sp := m.caps[0];
    var t := text[sp.start..sp.end];
    if EndYear(t) != currentYear {
      PlannedUpdateAtCapture(text, m, currentYear);
      UpdateCaptureUnfolded(text, m, currentYear);
    } else {
      assert UpdateCapture(text, m, currentYear).None?;
      assert PlannedUpdate(text, m, currentYear).None?;
    }
  }

  /** The corrected update of a stale token, unfolded. */
  lemma UpdateCaptureUnfolded(text: string, m: Hit, currentYear: string)
    requires |m.caps| >= 1 && CapsWithin(text, m.caps, 0, m.end)
    ensures m.caps[0].start <= m.caps[0].end <= |text|
    ensures var sp := m.caps[0];
            var t := text[sp.start..sp.end];
            var newRange := FormatRange(StartYear(t), currentYear, WantsParens(t));
            EndYear(t) != currentYear ==>
              UpdateCapture(text, m, currentYear) ==
                Some(CopyrightEdit(TextEdit(sp.start, sp.end, newRange), UpdateMessage(t, newRange)))
  {
    FirstCap(text, m.caps, 0, m.end);
  }

  /** The as-written update of a stale token that has no earlier copy edits it where it was captured. */
  lemma PlannedUpdateAtCapture(text: string, m: Hit, currentYear: string)
    requires |m.caps| >= 1 && CapsWithin(text, m.caps, 0, m.end)
    requires forall j :: 0 <= j < m.caps[0].start ==> !OccursAt(text, text[m.caps[0].start..m.caps[0].end], j)
    ensures m.caps[0].start <= m.caps[0].end <= |text|
    ensures var sp := m.caps[0];
            var t := text[sp.start..sp.end];
            var newRange := FormatRange(StartYear(t), currentYear, WantsParens(t));
            EndYear(t) != currentYear ==>
              PlannedUpdate(text, m, currentYear) ==
                Some(CopyrightEdit(TextEdit(sp.start, sp.end, newRange), UpdateMessage(t, newRange)))
  {
    FirstCap(text, m.caps, 0, m.end);
    var sp := m.caps[0];
    var t := text[sp.start..sp.end];
    var years := YearsOf(t);
    assert StartYear(t) == years[0] && EndYear(t) == years[|years| - 1];
    assert WantsParens(t) == ('(' in t || |years| == 1);
    PlannedUpdateUnfolded(text, m, currentYear);
    if EndYear(t) != currentYear {
      CaptureIsFirstOffset(text, m.end, t, sp.start);
      assert TokenOffset(text[..m.end], t, sp.start) + |t| == sp.end;
    }
  }

  /** A token with no earlier copy in the document is found by `indexOf` where it was captured. */
  lemma CaptureIsFirstOffset(text: string, end: nat, t: string, k: nat)
    requires end <= |text| && OccursAt(text[..end], t, k)
    requires forall j :: 0 <= j < k ==> !OccursAt(text, t, j)
    ensures TokenOffset(text[..end], t, k) == k
  {
    NoEarlierInPrefix(text, end, t, k);
    IndexOfFirstOccurrence(text[..end], t, k);
  }

  /** The corrected planner leaves the `\r\n` document of the first finding alone. */
  lemma CorrectedKeepsCrlfHeader(h: string, text: string, y: string)
    requires h == "Acme\nMIT" && text == "Acme\r\nMIT"
    ensures PlannedEditCorrected(text, h, y).None?
  {
    CrlfHeaderInsertedAgain(h, text, y);
    TwoLineHeader(h, y);
  }

  /** The corrected planner rewrites the captured year of the second finding, not the earlier copy. */
  lemma CorrectedUpdatesCapturedYear(h: string, text: string, y: string)
    requires h == "2020 ${year}" && text == "2020 2020" && y == "2025"
    ensures PlannedEditCorrected(text, h, y) ==
            Some(CopyrightEdit(TextEdit(5, 9, "(2020-2025)"), UpdateMessage("2020", "(2020-2025)")))
  {
    MatchOfYearAfterCopy(h, text);
    RegexOfYearAfterCopy(h);
    var m := MatchSegs(HeaderRegex(h), text, 0).value;
    assert m == Hit(9, [Span(5, 9)]);
    CapturedSingleYear(text, m, y);
  }

  lemma CapturedSingleYear(text: string, m: Hit, y: string)
    requires text == "2020 2020" && y == "2025" && m == Hit(9, [Span(5, 9)])
    requires CapsWithin(text, m.caps, 0, m.end)
    ensures UpdateCapture(text, m, y) ==
            Some(CopyrightEdit(TextEdit(5, 9, "(2020-2025)"), UpdateMessage("2020", "(2020-2025)")))
  {
    var t := text[5..9];
    assert t == "2020";
    CopyrightUtilsExamples.FourDigits(t);
    ParseYearToken(t, Shape(false, false, false));
    assert t[0..4] == t;
    assert FormatRange(t, y, true) == "(2020-2025)";
  }
}
