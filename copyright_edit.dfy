/**
 * The document-level planner: does the document already begin with the
 * configured header, and if not, or if its year is stale, which single edit
 * fixes it. The document is its text, the clock's year a parameter, and an
 * edit a replaced offset range with its new text.
 */
module CopyrightEdit {
  import opened Wrappers
  import opened Strings
  import opened YearPattern
  import opened CopyrightUtils

  /** Replace `text[start..end]` by `newText`; an insertion when `start == end`. */
  datatype TextEdit = TextEdit(start: nat, end: nat, newText: string)

  /** An edit and the question put to the user about it. */
  datatype CopyrightEdit = CopyrightEdit(edit: TextEdit, message: string)

  const InsertMessage: string := "Insert missing copyright header?"

  function UpdateMessage(oldRange: string, newRange: string): string {
    "Update copyright year from \"" + oldRange + "\" to \"" + newRange + "\"?"
  }

  /** The document after the edit. */
  function Apply(text: string, e: TextEdit): (r: string)
    requires e.start <= e.end <= |text|
    ensures |r| == |text| - (e.end - e.start) + |e.newText|
    ensures r[..e.start] == text[..e.start] && OccursAt(r, e.newText, e.start)
    ensures r[e.start + |e.newText|..] == text[e.end..]
  {
    text[..e.start] + e.newText + text[e.end..]
  }

  // ---------------------------------------------------------------------
  // Building the header regular expression

  /** One escaped literal per character. */
  function LitChars(s: string): (segs: seq<Segment>)
    ensures |segs| == |s|
    ensures forall i :: 0 <= i < |s| ==> segs[i] == Lit([s[i]])
  {
    if s == [] then [] else [Lit([s[0]])] + LitChars(s[1..])
  }

  /**
   * The header split at `\r?\n`, each line escaped, and the lines joined by
   * `\r?\n`: every character stands for itself, and every line break of the
   * header, `\r\n` or `\n`, matches either in the document.
   */
  function Escape(h: string): (segs: seq<Segment>)
    ensures YearCount(segs) == 0
    decreases |h|
  {
    if h == [] then []
    else if h[0] == '\r' && |h| > 1 && h[1] == '\n' then [LineBreak] + Escape(h[2..])
    else if h[0] == '\n' then [LineBreak] + Escape(h[1..])
    else [Lit([h[0]])] + Escape(h[1..])
  }

  /** `segs` begins with the characters of `hole`, one escaped literal each. */
  predicate Spells(segs: seq<Segment>, hole: string) {
    |hole| <= |segs| && forall i :: 0 <= i < |hole| ==> segs[i] == Lit([hole[i]])
  }

  /**
   * `escapedHeaderText.replace(hole, yearPattern)`: the leftmost escaped
   * occurrence of `hole` becomes the year group, and with `all` (the `/g`
   * flag) every later non-overlapping one too.
   */
  function ReplaceHole(segs: seq<Segment>, hole: string, all: bool): (r: seq<Segment>)
    requires |hole| > 0
    ensures YearCount(r) >= YearCount(segs)
    decreases |segs|
  {
    if segs == [] then []
    else if Spells(segs, hole) then
      YearCountAppend(segs[..|hole|], segs[|hole|..]);
      LitsHaveNoYear(segs[..|hole|]);
      assert segs[..|hole|] + segs[|hole|..] == segs;
      [Year] + (if all then ReplaceHole(segs[|hole|..], hole, all) else segs[|hole|..])
    else
      assert segs == [segs[0]] + segs[1..];
      YearCountAppend([segs[0]], segs[1..]);
      [segs[0]] + ReplaceHole(segs[1..], hole, all)
  }

  /** Every year group written back as the hole's escaped characters. */
  function Restore(segs: seq<Segment>, hole: string): seq<Segment> {
    if segs == [] then []
    else (if segs[0].Year? then LitChars(hole) else [segs[0]]) + Restore(segs[1..], hole)
  }

  /**
   * `replace` turns spelled holes, and nothing else, into year groups:
   * writing each group back as the hole gives the escaped header again, and
   * without the `/g` flag there is at most one group.
   */
  lemma {:induction false} ReplaceHoleRestores(segs: seq<Segment>, hole: string, all: bool)
    requires |hole| > 0 && YearCount(segs) == 0
    ensures Restore(ReplaceHole(segs, hole, all), hole) == segs
    ensures !all ==> YearCount(ReplaceHole(segs, hole, all)) <= 1
    decreases |segs|
  {
    if segs != [] {
      var r := ReplaceHole(segs, hole, all);
      if Spells(segs, hole) {
        var tail := segs[|hole|..];
        YearCountAppend(segs[..|hole|], tail);
        assert segs[..|hole|] + tail == segs;
        if all {
          ReplaceHoleRestores(tail, hole, all);
        } else {
          RestoreWithoutYear(tail, hole);
        }
        SpelledHoleRestored(segs, hole, r, if all then ReplaceHole(tail, hole, all) else tail);
      } else {
        YearCountAppend([segs[0]], segs[1..]);
        assert [segs[0]] + segs[1..] == segs;
        ReplaceHoleRestores(segs[1..], hole, all);
        assert r == [segs[0]] + ReplaceHole(segs[1..], hole, all);
        assert r[0] == segs[0] && r[1..] == ReplaceHole(segs[1..], hole, all);
      }
    }
  }

  /** A spelled hole replaced by a year group is restored to its spelling. */
  lemma SpelledHoleRestored(segs: seq<Segment>, hole: string, r: seq<Segment>, x: seq<Segment>)
    requires |hole| > 0 && Spells(segs, hole) && r == [Year] + x
    requires Restore(x, hole) == segs[|hole|..]
    ensures Restore(r, hole) == segs
    ensures YearCount(r) == 1 + YearCount(x)
  {
    assert r[0] == Year && r[1..] == x;
    assert LitChars(hole) == segs[..|hole|];
    assert segs[..|hole|] + segs[|hole|..] == segs;
  }

  /** Segments without a year group are restored to themselves. */
  lemma {:induction false} RestoreWithoutYear(segs: seq<Segment>, hole: string)
    requires YearCount(segs) == 0
    ensures Restore(segs, hole) == segs
  {
    if segs != [] {
      RestoreWithoutYear(segs[1..], hole);
      assert [segs[0]] + segs[1..] == segs;
    }
  }

  /** Segments that spell no hole are copied until the first spelled one. */
  lemma {:induction false} ReplaceHoleSkips(segs: seq<Segment>, hole: string, all: bool, n: nat)
    requires |hole| > 0 && n <= |segs|
    requires forall i :: 0 <= i < n ==> !Spells(segs[i..], hole)
    ensures ReplaceHole(segs, hole, all) == segs[..n] + ReplaceHole(segs[n..], hole, all)
    decreases n, 1
  {
    if n > 0 {
      ReplaceHoleSkipsStep(segs, hole, all, n);
    } else {
      assert segs[..0] + ReplaceHole(segs[0..], hole, all) == ReplaceHole(segs, hole, all) by {
        assert segs[0..] == segs;
      }
    }
  }

  lemma {:induction false} ReplaceHoleSkipsStep(segs: seq<Segment>, hole: string, all: bool, n: nat)
    requires |hole| > 0 && 0 < n <= |segs|
    requires forall i :: 0 <= i < n ==> !Spells(segs[i..], hole)
    ensures ReplaceHole(segs, hole, all) == segs[..n] + ReplaceHole(segs[n..], hole, all)
    decreases n, 0
  {
    ReplaceHoleSkipsOne(segs, hole, all, n);
    ReplaceHoleSkips(segs[1..], hole, all, n - 1);
    assert segs[1..][n - 1..] == segs[n..];
    CopiedPrefix(segs, ReplaceHole(segs, hole, all), ReplaceHole(segs[1..], hole, all), ReplaceHole(segs[n..], hole, all), n);
  }

  /** One copied segment in front of `n - 1` copied ones is the first `n`. */
  lemma CopiedPrefix(segs: seq<Segment>, whole: seq<Segment>, rest: seq<Segment>, tail: seq<Segment>, n: nat)
    requires 0 < n <= |segs|
    requires whole == [segs[0]] + rest && rest == segs[1..][..n - 1] + tail
    ensures whole == segs[..n] + tail
  {
    assert segs[..n] == [segs[0]] + segs[1..][..n - 1];
  }

  lemma ReplaceHoleSkipsOne(segs: seq<Segment>, hole: string, all: bool, n: nat)
    requires |hole| > 0 && 0 < n <= |segs|
    requires forall i :: 0 <= i < n ==> !Spells(segs[i..], hole)
    ensures ReplaceHole(segs, hole, all) == [segs[0]] + ReplaceHole(segs[1..], hole, all)
    ensures forall i :: 0 <= i < n - 1 ==> !Spells(segs[1..][i..], hole)
  {
    assert segs[0..] == segs;
    forall i | 0 <= i < n - 1
      ensures !Spells(segs[1..][i..], hole)
    {
      assert segs[1..][i..] == segs[i + 1..];
    }
  }

  lemma {:induction false} YearCountAppend(a: seq<Segment>, b: seq<Segment>)
    ensures YearCount(a + b) == YearCount(a) + YearCount(b)
  {
    if a != [] {
      assert a + b != [] && (a + b)[0] == a[0] && (a + b)[1..] == a[1..] + b;
      YearCountAppend(a[1..], b);
    } else {
      assert a + b == b;
    }
  }

  lemma {:induction false} LitsHaveNoYear(segs: seq<Segment>)
    requires forall i :: 0 <= i < |segs| ==> segs[i].Lit?
    ensures YearCount(segs) == 0
  {
    if segs != [] {
      LitsHaveNoYear(segs[1..]);
    }
  }

  /** JavaScript's `\w`: ASCII letters, digits and the underscore. */
  predicate IsWordChar(c: char) {
    'a' <= c <= 'z' || 'A' <= c <= 'Z' || '0' <= c <= '9' || c == '_'
  }

  /** `\b((?:19|20)\d{2})\b` matches `h` at `i`. */
  predicate TemplateYearAt(h: string, i: nat) {
    && i + 4 <= |h|
    && ((h[i] == '1' && h[i + 1] == '9') || (h[i] == '2' && h[i + 1] == '0'))
    && IsDigit(h[i + 2]) && IsDigit(h[i + 3])
    && (i == 0 || !IsWordChar(h[i - 1]))
    && (i + 4 == |h| || !IsWordChar(h[i + 4]))
  }

  /** Where the leftmost template year at or after `from` starts. */
  function TemplateYearFrom(h: string, from: nat): (r: Option<nat>)
    requires from <= |h|
    ensures r.Some? ==> from <= r.value && TemplateYearAt(h, r.value)
    ensures r.Some? ==> forall j :: from <= j < r.value ==> !TemplateYearAt(h, j)
    ensures r.None? ==> forall j :: from <= j <= |h| ==> !TemplateYearAt(h, j)
    decreases |h| - from
  {
    if TemplateYearAt(h, from) then Some(from)
    else if from == |h| then None
    else TemplateYearFrom(h, from + 1)
  }

  /**
   * `headerText.match(/\b((?:19|20)\d{2})\b/)[1]`: the first stand-alone
   * year of the 1900s or 2000s written in the header, if any.
   */
  function FindTemplateYear(h: string): (r: Option<string>)
    ensures r.Some? ==> IsYear(r.value) && (r.value[..2] == "19" || r.value[..2] == "20")
    ensures r.Some? ==> exists i: nat :: TemplateYearAt(h, i) && h[i..i + 4] == r.value &&
                          forall j :: 0 <= j < i ==> !TemplateYearAt(h, j)
    ensures r.None? <==> forall i :: 0 <= i <= |h| ==> !TemplateYearAt(h, i)
  {
    match TemplateYearFrom(h, 0)
    case None => None
    case Some(i) =>
      assert h[i..i + 4][..2] == h[i..i + 2];
      Some(h[i..i + 4])
  }

  /** Whether the header has a year group: a placeholder or a template year. */
  predicate HasYearGroup(h: string) {
    Contains(h, Placeholder) || FindTemplateYear(h).Some?
  }

  /** The header regular expression, without its `^` anchor. */
  function HeaderRegex(h: string): (segs: seq<Segment>)
    ensures HasYearGroup(h) <==> YearCount(segs) >= 1
  {
    var escaped := Escape(h);
    if Contains(h, Placeholder) then
      HoleYieldsYearGroup(h, Placeholder, true, IndexOf(h, Placeholder));
      ReplaceHole(escaped, Placeholder, true)
    else
      match FindTemplateYear(h)
      case Some(y) =>
        var k: nat :| TemplateYearAt(h, k) && h[k..k + 4] == y;
        HoleYieldsYearGroup(h, y, false, k);
        ReplaceHole(escaped, y, false)
      case None => escaped
  }

  /** The header as inserted (before its trailing newline), with its year set to `currentYear`. */
  function HeaderInstance(h: string, currentYear: string): (r: string)
    ensures Contains(h, Placeholder) ==> r == Render(Compile(h), currentYear)
    ensures !Contains(h, Placeholder) && FindTemplateYear(h).Some? ==>
              var i := IndexOf(h, FindTemplateYear(h).value);
              0 <= i && i + 4 <= |h| && r == h[..i] + currentYear + h[i + 4..]
    ensures !HasYearGroup(h) ==> r == h
  {
    if Contains(h, Placeholder) then
      RenderReplacesAll(h, currentYear);
      ReplaceAll(h, Placeholder, currentYear)
    else
      match FindTemplateYear(h)
      case Some(y) =>
        TemplateYearOccurs(h, y);
        ReplaceFirst(h, y, currentYear)
      case None => h
  }

  /** The template year is written in the header, so `replace` finds a copy of it. */
  lemma TemplateYearOccurs(h: string, y: string)
    requires FindTemplateYear(h) == Some(y)
    ensures |y| == 4 && IndexOf(h, y) != -1
  {
    var i: nat :| TemplateYearAt(h, i) && h[i..i + 4] == y;
    assert OccursAt(h, y, i);
  }

  /** A plain stretch of header text (no line break) escapes to one literal per character. */
  lemma {:induction false} EscapePlainPrefix(h: string, n: nat)
    requires n <= |h|
    requires forall i :: 0 <= i < n ==> h[i] != '\n' && h[i] != '\r'
    ensures Escape(h) == LitChars(h[..n]) + Escape(h[n..])
  {
    if n > 0 {
      EscapePlainPrefix(h[1..], n - 1);
      assert h[1..][..n - 1] == h[..n][1..];
      assert h[1..][n - 1..] == h[n..];
      EscapeCharHead(h);
      LitCharsCons(h[..n]);
      ConsAppend(Lit([h[0]]), LitChars(h[..n][1..]), Escape(h[n..]));
    }
  }

  lemma LitCharsCons(s: string)
    requires s != []
    ensures LitChars(s) == [Lit([s[0]])] + LitChars(s[1..])
  {
  }

  /**
   * A hole without line-break characters that occurs in the header is
   * spelled, character by character, somewhere in its escaped form.
   */
  lemma {:induction false} EscapeSpellsHole(h: string, hole: string, k: nat) returns (j: nat)
    requires |hole| > 0 && OccursAt(h, hole, k)
    requires forall i :: 0 <= i < |hole| ==> hole[i] != '\n' && hole[i] != '\r'
    ensures j <= |Escape(h)| && Spells(Escape(h)[j..], hole)
    decreases |h|
  {
    assert h[k] == hole[0] by {
      assert h[k..k + |hole|][0] == h[k];
    }
    if k == 0 {
      EscapePlainPrefix(h, |hole|);
      assert h[..|hole|] == hole;
      j := 0;
    } else if h[0] == '\r' && |h| > 1 && h[1] == '\n' {
      assert h[2..][k - 2..k - 2 + |hole|] == h[k..k + |hole|];
      var j' := EscapeSpellsHole(h[2..], hole, k - 2);
      assert Escape(h)[1..] == Escape(h[2..]);
      j := j' + 1;
      assert Escape(h)[j..] == Escape(h[2..])[j'..];
    } else {
      assert h[1..][k - 1..k - 1 + |hole|] == h[k..k + |hole|];
      var j' := EscapeSpellsHole(h[1..], hole, k - 1);
      assert Escape(h)[1..] == Escape(h[1..]);
      j := j' + 1;
      assert Escape(h)[j..] == Escape(h[1..])[j'..];
    }
  }

  /** A hole that occurs in the header, and has no line-break characters, becomes a year group. */
  lemma HoleYieldsYearGroup(h: string, hole: string, all: bool, k: nat)
    requires |hole| > 0 && OccursAt(h, hole, k)
    requires forall i :: 0 <= i < |hole| ==> hole[i] != '\n' && hole[i] != '\r'
    ensures YearCount(ReplaceHole(Escape(h), hole, all)) >= 1
  {
    var j := EscapeSpellsHole(h, hole, k);
    ReplaceHoleFindsSpelling(Escape(h), hole, all, j);
  }

  /** A spelled hole anywhere in the escaped header yields a year group. */
  lemma {:induction false} ReplaceHoleFindsSpelling(segs: seq<Segment>, hole: string, all: bool, j: nat)
    requires |hole| > 0 && j <= |segs| && Spells(segs[j..], hole)
    ensures YearCount(ReplaceHole(segs, hole, all)) >= 1
    decreases |segs|
  {
    assert segs[0..] == segs;
    if !Spells(segs, hole) {
      assert segs[1..][j - 1..] == segs[j..];
      ReplaceHoleFindsSpelling(segs[1..], hole, all, j - 1);
      var r := ReplaceHole(segs, hole, all);
      assert r[1..] == ReplaceHole(segs[1..], hole, all);
    }
  }

  /** `\r?\n` consumes `\r\n` where it is written, and otherwise a lone `\n`. */
  lemma MatchBreakStep(rest: seq<Segment>, text: string, pos: nat, n: nat)
    requires pos + n <= |text|
    requires (n == 2 && text[pos] == '\r' && text[pos + 1] == '\n') || (n == 1 && text[pos] == '\n')
    ensures MatchSegs([LineBreak] + rest, text, pos) == MatchSegs(rest, text, pos + n)
  {
    assert ([LineBreak] + rest)[1..] == rest;
    if n == 2 {
      assert text[pos..pos + 2] == "\r\n";
    } else {
      assert !OccursAt(text, "\r\n", pos);
      assert text[pos..pos + 1] == "\n";
    }
  }

  /** What follows an occurrence's first `n` characters occurs right after them. */
  lemma OccursAtDrop(s: string, sub: string, k: nat, n: nat)
    requires OccursAt(s, sub, k) && n <= |sub|
    ensures OccursAt(s, sub[n..], k + n)
  {
    assert s[k + n..k + n + |sub[n..]|] == s[k..k + |sub|][n..];
  }

  /** How many header characters the first escaped segment stands for. */
  function FirstWidth(h: string): nat
    requires h != []
  {
    if h[0] == '\r' && |h| > 1 && h[1] == '\n' then 2 else 1
  }

  /** The first escaped segment consumes the header's first character or line break. */
  lemma EscapeStep(h: string, rest: seq<Segment>, text: string, pos: nat)
    requires h != [] && OccursAt(text, h, pos)
    ensures FirstWidth(h) <= |h|
    ensures MatchSegs(Escape(h) + rest, text, pos) == MatchSegs(Escape(h[FirstWidth(h)..]) + rest, text, pos + FirstWidth(h))
  {
    assert text[pos] == h[0] by { assert text[pos..pos + |h|][0] == h[0]; }
    if FirstWidth(h) == 2 {
      assert text[pos + 1] == h[1] by { assert text[pos..pos + |h|][1] == h[1]; }
      EscapeBreakStep(h, rest, text, pos, 2);
    } else if h[0] == '\n' {
      EscapeBreakStep(h, rest, text, pos, 1);
    } else {
      EscapeCharStep(h, rest, text, pos);
    }
  }

  lemma EscapeBreakStep(h: string, rest: seq<Segment>, text: string, pos: nat, n: nat)
    requires n <= |h| && pos + n <= |text|
    requires (n == 2 && h[..2] == "\r\n" && text[pos] == '\r' && text[pos + 1] == '\n')
          || (n == 1 && h[0] == '\n' && text[pos] == '\n')
    ensures MatchSegs(Escape(h) + rest, text, pos) == MatchSegs(Escape(h[n..]) + rest, text, pos + n)
  {
    if n == 2 {
      assert h[0] == h[..2][0] && h[1] == h[..2][1];
    }
    EscapeBreakHead(h, n);
    ConsAppend(LineBreak, Escape(h[n..]), rest);
    MatchBreakStep(Escape(h[n..]) + rest, text, pos, n);
  }

  /** A header opening with a line break of width `n` escapes to `\r?\n` first. */
  lemma EscapeBreakHead(h: string, n: nat)
    requires n <= |h|
    requires (n == 2 && h[0] == '\r' && h[1] == '\n') || (n == 1 && h[0] == '\n')
    ensures Escape(h) == [LineBreak] + Escape(h[n..])
  {
  }

  /** A header opening with any other character escapes to that literal character first. */
  lemma EscapeCharHead(h: string)
    requires h != [] && h[0] != '\n' && !(h[0] == '\r' && |h| > 1 && h[1] == '\n')
    ensures Escape(h) == [Lit([h[0]])] + Escape(h[1..])
  {
  }

  lemma CharOccurs(text: string, pos: nat, c: char)
    requires pos < |text| && text[pos] == c
    ensures OccursAt(text, [c], pos)
  {
    assert text[pos..pos + 1] == [c];
  }

  lemma EscapeCharStep(h: string, rest: seq<Segment>, text: string, pos: nat)
    requires h != [] && h[0] != '\n' && !(h[0] == '\r' && |h| > 1 && h[1] == '\n')
    requires pos < |text| && text[pos] == h[0]
    ensures MatchSegs(Escape(h) + rest, text, pos) == MatchSegs(Escape(h[1..]) + rest, text, pos + 1)
  {
    EscapeCharHead(h);
    MatchAfterChar(h[0], Escape(h[1..]), Escape(h), rest, text, pos);
  }

  /** A pattern that opens with one literal character matches as its remainder does after that character. */
  lemma MatchAfterChar(c: char, tail: seq<Segment>, segs: seq<Segment>, rest: seq<Segment>, text: string, pos: nat)
    requires segs == [Lit([c])] + tail && pos < |text| && text[pos] == c
    ensures MatchSegs(segs + rest, text, pos) == MatchSegs(tail + rest, text, pos + 1)
  {
    CharOccurs(text, pos, c);
    ConsAppend(Lit([c]), tail, rest);
    MatchLitStep([c], tail + rest, text, pos);
  }

  /**
   * The escaped header matches wherever the header itself is written, line
   * breaks included, and then the rest of the pattern takes over.
   */
  lemma {:induction false} EscapeMatchesHeader(h: string, rest: seq<Segment>, text: string, pos: nat)
    requires OccursAt(text, h, pos)
    ensures MatchSegs(Escape(h) + rest, text, pos) == MatchSegs(rest, text, pos + |h|)
  {
    assert Written(h, false) == h;
    EscapeMatchesWritten(h, rest, text, pos, pos + |h|, false);
  }

  /** The header as a Windows editor saves it: every line break written `\r\n`. */
  function WithCrlf(h: string): (r: string)
    ensures |r| >= |h|
    decreases |h|
  {
    if h == [] then []
    else if h[0] == '\n' || FirstWidth(h) == 2 then "\r\n" + WithCrlf(h[FirstWidth(h)..])
    else [h[0]] + WithCrlf(h[1..])
  }

  /** The escaped header also matches wherever the header is written with `\r\n` line breaks. */
  lemma {:induction false} EscapeMatchesCrlf(h: string, rest: seq<Segment>, text: string, pos: nat)
    requires OccursAt(text, WithCrlf(h), pos)
    ensures MatchSegs(Escape(h) + rest, text, pos) == MatchSegs(rest, text, pos + |WithCrlf(h)|)
  {
    EscapeMatchesWritten(h, rest, text, pos, pos + |WithCrlf(h)|, true);
  }

  /** The header as written in the document: verbatim, or with `\r\n` line breaks. */
  function Written(h: string, crlf: bool): string {
    if crlf then WithCrlf(h) else h
  }

  /** The escaped header consumes the header as written, either way, up to `end`. */
  lemma {:induction false} EscapeMatchesWritten(h: string, rest: seq<Segment>, text: string, pos: nat, end: nat, crlf: bool)
    requires OccursAt(text, Written(h, crlf), pos) && end == pos + |Written(h, crlf)|
    ensures MatchSegs(Escape(h) + rest, text, pos) == MatchSegs(rest, text, end)
    decreases |h|
  {
    if h == [] {
      EmptyWritten(h, rest, text, pos, end, crlf);
    } else {
      if crlf {
        var n, h' := CrlfStepTo(h, rest, text, pos, end);
        EscapeMatchesWritten(h', rest, text, pos + n, end, crlf);
        assert MatchSegs(Escape(h) + rest, text, pos) == MatchSegs(rest, text, end);
      } else {
        var n, h' := EscapeStepTo(h, rest, text, pos, end);
        EscapeMatchesWritten(h', rest, text, pos + n, end, crlf);
        assert MatchSegs(Escape(h) + rest, text, pos) == MatchSegs(rest, text, end);
      }
    }
  }

  lemma {:induction false} EmptyWritten(h: string, rest: seq<Segment>, text: string, pos: nat, end: nat, crlf: bool)
    requires h == [] && pos <= |text| && end == pos + |Written(h, crlf)|
    ensures MatchSegs(Escape(h) + rest, text, pos) == MatchSegs(rest, text, end)
  {
    assert Escape(h) + rest == rest && Written(h, crlf) == [];
  }

  /** `EscapeStep` with what the next step needs: the rest of the header, where it is written, and where it ends. */
  lemma {:induction false} EscapeStepTo(h: string, rest: seq<Segment>, text: string, pos: nat, end: nat) returns (n: nat, h': string)
    requires h != [] && OccursAt(text, Written(h, false), pos) && end == pos + |Written(h, false)|
    ensures |h'| < |h| && OccursAt(text, Written(h', false), pos + n) && end == pos + n + |Written(h', false)|
    ensures MatchSegs(Escape(h) + rest, text, pos) == MatchSegs(Escape(h') + rest, text, pos + n)
  {
    n := FirstWidth(h);
    h' := h[n..];
    EscapeStep(h, rest, text, pos);
    OccursAtDrop(text, h, pos, n);
  }

  /** `CrlfStep` with what the next step needs: the rest of the header, where it is written, and where it ends. */
  lemma {:induction false} CrlfStepTo(h: string, rest: seq<Segment>, text: string, pos: nat, end: nat) returns (n: nat, h': string)
    requires h != [] && OccursAt(text, Written(h, true), pos) && end == pos + |Written(h, true)|
    ensures |h'| < |h| && OccursAt(text, Written(h', true), pos + n) && end == pos + n + |Written(h', true)|
    ensures MatchSegs(Escape(h) + rest, text, pos) == MatchSegs(Escape(h') + rest, text, pos + n)
  {
    h' := h[FirstWidth(h)..];
    n := CrlfStep(h, rest, text, pos);
  }

  /** The first escaped segment consumes the first character, or `\r\n` for a line break. */
  lemma CrlfStep(h: string, rest: seq<Segment>, text: string, pos: nat) returns (n: nat)
    requires h != [] && OccursAt(text, WithCrlf(h), pos)
    ensures FirstWidth(h) <= |h| && |WithCrlf(h)| == n + |WithCrlf(h[FirstWidth(h)..])|
    ensures OccursAt(text, WithCrlf(h[FirstWidth(h)..]), pos + n)
    ensures MatchSegs(Escape(h) + rest, text, pos) == MatchSegs(Escape(h[FirstWidth(h)..]) + rest, text, pos + n)
  {
    var w := WithCrlf(h);
    var tail := WithCrlf(h[FirstWidth(h)..]);
    if h[0] == '\n' || FirstWidth(h) == 2 {
      n := 2;
      assert w == "\r\n" + tail;
      assert text[pos] == '\r' && text[pos + 1] == '\n' by {
        assert text[pos..pos + |w|][0] == w[0] && text[pos..pos + |w|][1] == w[1];
      }
      CrlfBreakStep(h, rest, text, pos);
    } else {
      n := 1;
      assert w == [h[0]] + tail;
      assert text[pos] == h[0] by { assert text[pos..pos + |w|][0] == w[0]; }
      EscapeCharStep(h, rest, text, pos);
    }
    OccursAtDrop(text, w, pos, n);
    assert w[n..] == tail;
  }

  lemma CrlfBreakStep(h: string, rest: seq<Segment>, text: string, pos: nat)
    requires h != [] && (h[0] == '\n' || FirstWidth(h) == 2)
    requires pos + 2 <= |text| && text[pos] == '\r' && text[pos + 1] == '\n'
    ensures FirstWidth(h) <= |h|
    ensures MatchSegs(Escape(h) + rest, text, pos) == MatchSegs(Escape(h[FirstWidth(h)..]) + rest, text, pos + 2)
  {
    var n := FirstWidth(h);
    EscapeBreakHead(h, n);
    ConsAppend(LineBreak, Escape(h[n..]), rest);
    MatchBreakStep(Escape(h[n..]) + rest, text, pos, 2);
  }

  // ---------------------------------------------------------------------
  // Exactly what the escaped header matches

  /** How many characters the line break opening `t` takes: 2 for `\r\n`, 1 for `\n`, 0 for none. */
  function LeadingBreak(t: string): (k: nat)
    ensures k <= |t|
  {
    if |t| >= 2 && t[0] == '\r' && t[1] == '\n' then 2
    else if |t| >= 1 && t[0] == '\n' then 1
    else 0
  }

  /**
   * `t` is the header `h` as some editor may have written it: each line break
   * of `h`, `\n` or `\r\n`, is written as either of the two, each on its own,
   * and every other character stands for itself.
   */
  predicate WrittenAs(h: string, t: string)
    decreases |h|
  {
    if h == [] then t == []
    else if h[0] == '\n' || FirstWidth(h) == 2 then
      var k := LeadingBreak(t);
      k > 0 && WrittenAs(h[FirstWidth(h)..], t[k..])
    else t != [] && t[0] == h[0] && WrittenAs(h[1..], t[1..])
  }

  /**
   * The escaped header matches at `pos` exactly when some text written as the
   * header starts there and the rest of the pattern matches after it, and
   * the match is then the rest's match there.
   */
  lemma EscapeMatchesIff(h: string, rest: seq<Segment>, text: string, pos: nat)
    requires pos <= |text|
    ensures MatchSegs(Escape(h) + rest, text, pos).Some? <==>
            exists e :: pos <= e <= |text| && WrittenAs(h, text[pos..e]) && MatchSegs(rest, text, e).Some?
    ensures forall e :: pos <= e <= |text| && WrittenAs(h, text[pos..e]) ==>
            MatchSegs(Escape(h) + rest, text, pos) == MatchSegs(rest, text, e)
  {
    EscapeMatchReadBack(h, rest, text, pos);
    forall e | pos <= e <= |text| && WrittenAs(h, text[pos..e])
      ensures MatchSegs(Escape(h) + rest, text, pos) == MatchSegs(rest, text, e)
    {
      EscapeMatchesWrittenAs(h, rest, text, pos, e);
    }
  }

  /** Wherever text written as the header starts, the escaped header takes it, and the rest of the pattern follows. */
  lemma {:induction false} EscapeMatchesWrittenAs(h: string, rest: seq<Segment>, text: string, pos: nat, e: nat)
    requires pos <= e <= |text| && WrittenAs(h, text[pos..e])
    ensures MatchSegs(Escape(h) + rest, text, pos) == MatchSegs(rest, text, e)
    decreases |h|
  {
    if h == [] {
      assert Escape(h) + rest == rest;
    } else {
      WrittenAsSplit(h, text, pos, e);
      EscapeHead(h, rest, text, pos);
      EscapeMatchesWrittenAs(h[FirstWidth(h)..], rest, text, pos + HeadWidth(h, text, pos), e);
    }
  }

  /** Wherever the escaped header matches, it has taken text written as the header, and the rest of the pattern matched after it. */
  lemma {:induction false} EscapeMatchReadBack(h: string, rest: seq<Segment>, text: string, pos: nat)
    requires pos <= |text|
    ensures MatchSegs(Escape(h) + rest, text, pos).Some? ==>
            exists e :: pos <= e <= |text| && WrittenAs(h, text[pos..e]) &&
                        MatchSegs(Escape(h) + rest, text, pos) == MatchSegs(rest, text, e)
    decreases |h|
  {
    if MatchSegs(Escape(h) + rest, text, pos).Some? {
      if h == [] {
        assert Escape(h) + rest == rest && text[pos..pos] == [];
        assert WrittenAs(h, text[pos..pos]);
      } else {
        EscapeHead(h, rest, text, pos);
        var h', k := h[FirstWidth(h)..], HeadWidth(h, text, pos);
        EscapeMatchReadBack(h', rest, text, pos + k);
        var e :| pos + k <= e <= |text| && WrittenAs(h', text[pos + k..e]) &&
                 MatchSegs(Escape(h') + rest, text, pos + k) == MatchSegs(rest, text, e);
        WrittenAsSplit(h, text, pos, e);
      }
    }
  }

  /** How many characters of `text` at `pos` the header's first escaped segment takes; 0 where it fails. */
  function HeadWidth(h: string, text: string, pos: nat): (k: nat)
    requires h != [] && pos <= |text|
    ensures pos + k <= |text|
  {
    if h[0] == '\n' || FirstWidth(h) == 2 then LeadingBreak(text[pos..])
    else if pos < |text| && text[pos] == h[0] then 1
    else 0
  }

  /** Text written as a non-empty header is its first character or line break, then the rest written as the rest. */
  lemma WrittenAsSplit(h: string, text: string, pos: nat, e: nat)
    requires h != [] && pos <= e <= |text|
    ensures FirstWidth(h) <= |h|
    ensures WrittenAs(h, text[pos..e]) <==>
            var k := HeadWidth(h, text, pos);
            k > 0 && pos + k <= e && WrittenAs(h[FirstWidth(h)..], text[pos + k..e])
  {
    var t := text[pos..e];
    if h[0] == '\n' || FirstWidth(h) == 2 {
      LeadingBreakOfPrefix(text[pos..], e - pos);
      assert text[pos..][..e - pos] == t;
      assert t[LeadingBreak(t)..] == text[pos + LeadingBreak(t)..e];
    } else if t != [] {
      assert t[0] == text[pos] && t[1..] == text[pos + 1..e];
    }
  }

  /** A line break that opens a prefix opens the whole string, and one that fits in a prefix opens it. */
  lemma LeadingBreakOfPrefix(u: string, m: nat)
    requires m <= |u|
    ensures LeadingBreak(u[..m]) > 0 ==> LeadingBreak(u) == LeadingBreak(u[..m])
    ensures LeadingBreak(u) <= m ==> LeadingBreak(u[..m]) == LeadingBreak(u)
  {
  }

  /** The first escaped segment takes `HeadWidth` characters and hands over to the rest, or fails. */
  lemma EscapeHead(h: string, rest: seq<Segment>, text: string, pos: nat)
    requires h != [] && pos <= |text|
    ensures FirstWidth(h) <= |h|
    ensures var k := HeadWidth(h, text, pos);
            MatchSegs(Escape(h) + rest, text, pos) ==
            (if k == 0 then None else MatchSegs(Escape(h[FirstWidth(h)..]) + rest, text, pos + k))
  {
    if h[0] == '\n' || FirstWidth(h) == 2 {
      EscapeBreakAny(h, rest, text, pos);
    } else {
      EscapeCharAny(h, rest, text, pos);
    }
  }

  /** `\r?\n` takes the line break opening the text at `pos`, and fails where none does. */
  lemma EscapeBreakAny(h: string, rest: seq<Segment>, text: string, pos: nat)
    requires h != [] && (h[0] == '\n' || FirstWidth(h) == 2) && pos <= |text|
    ensures FirstWidth(h) <= |h|
    ensures var k := LeadingBreak(text[pos..]);
            MatchSegs(Escape(h) + rest, text, pos) ==
            (if k == 0 then None else MatchSegs(Escape(h[FirstWidth(h)..]) + rest, text, pos + k))
  {
    var n := FirstWidth(h);
    EscapeBreakHead(h, n);
    ConsAppend(LineBreak, Escape(h[n..]), rest);
    var s := [LineBreak] + (Escape(h[n..]) + rest);
    assert s[0] == LineBreak && s[1..] == Escape(h[n..]) + rest;
    var u := text[pos..];
    if |u| >= 2 && u[0] == '\r' && u[1] == '\n' {
      assert text[pos..pos + 2] == "\r\n";
    } else if |u| >= 1 && u[0] == '\n' {
      assert !OccursAt(text, "\r\n", pos);
      assert text[pos..pos + 1] == "\n";
    } else {
      assert !OccursAt(text, "\r\n", pos);
      assert !OccursAt(text, "\n", pos);
    }
  }

  /** A literal character takes that character at `pos`, and fails on any other. */
  lemma EscapeCharAny(h: string, rest: seq<Segment>, text: string, pos: nat)
    requires h != [] && h[0] != '\n' && FirstWidth(h) == 1 && pos <= |text|
    ensures MatchSegs(Escape(h) + rest, text, pos) ==
            (if pos < |text| && text[pos] == h[0] then MatchSegs(Escape(h[1..]) + rest, text, pos + 1) else None)
  {
    if pos < |text| && text[pos] == h[0] {
      EscapeCharStep(h, rest, text, pos);
    } else {
      EscapeCharHead(h);
      ConsAppend(Lit([h[0]]), Escape(h[1..]), rest);
      assert !OccursAt(text, [h[0]], pos) by {
        if pos < |text| { assert text[pos..pos + 1][0] == text[pos]; }
      }
      MatchLitFails([h[0]], Escape(h[1..]) + rest, text, pos);
    }
  }

  /** The header written verbatim, or with `\r\n` line breaks, is one way of writing it. */
  lemma {:induction false} WrittenIsWrittenAs(h: string, crlf: bool)
    ensures WrittenAs(h, Written(h, crlf))
    decreases |h|
  {
    if h != [] {
      var w := Written(h, crlf);
      var n := FirstWidth(h);
      WrittenIsWrittenAs(h[n..], crlf);
      if h[0] == '\n' || n == 2 {
        if crlf {
          assert w == "\r\n" + Written(h[n..], crlf);
        } else {
          assert w[..n] == h[..n];
        }
        assert w[LeadingBreak(w)..] == Written(h[n..], crlf);
      } else {
        assert w == [h[0]] + Written(h[1..], crlf);
      }
    }
  }

  // ---------------------------------------------------------------------
  // The plan

  /**
   * What `getCopyrightEdit(document, headerText)` returns, as a function of
   * the document text, the header and the current year.
   */
  function PlannedEdit(text: string, headerText: string, currentYear: string): (r: Option<CopyrightEdit>)
    ensures r.Some? ==> r.value.edit.start <= r.value.edit.end <= |text|
  {
    var m := MatchSegs(HeaderRegex(headerText), text, 0);
    if m.Some? && HasYearGroup(headerText) then PlannedUpdate(text, m.value, currentYear)
    else PlannedInsert(text, headerText, currentYear)
  }

  /** The update branch: the first year group's token, brought up to `currentYear` unless it ends there. */
  function PlannedUpdate(text: string, h: Hit, currentYear: string): (r: Option<CopyrightEdit>)
    requires |h.caps| >= 1 && CapsWithin(text, h.caps, 0, h.end)
    ensures r.Some? ==> r.value.edit.start <= r.value.edit.end <= |text|
  {
    var cap := h.caps[0];
    var token := text[cap.start..cap.end];
    var years := YearsOf(token);
    if years[|years| - 1] != currentYear then
      var newRange := FormatRange(years[0], currentYear, '(' in token || |years| == 1);
      SliceOccursInPrefix(text, h.end, cap.start, cap.end);
      var at := TokenOffset(text[..h.end], token, cap.start);
      Some(CopyrightEdit(TextEdit(at, at + |token|, newRange), UpdateMessage(token, newRange)))
    else None
  }

  /** The update branch when the end year differs, unfolded. */
  lemma PlannedUpdateUnfolded(text: string, h: Hit, currentYear: string)
    requires |h.caps| >= 1 && CapsWithin(text, h.caps, 0, h.end)
    ensures var cap := h.caps[0];
            var token := text[cap.start..cap.end];
            var years := YearsOf(token);
            var newRange := FormatRange(years[0], currentYear, '(' in token || |years| == 1);
            && OccursAt(text[..h.end], token, cap.start)
            && (years[|years| - 1] != currentYear ==>
                  var at := TokenOffset(text[..h.end], token, cap.start);
                  PlannedUpdate(text, h, currentYear) ==
                    Some(CopyrightEdit(TextEdit(at, at + |token|, newRange), UpdateMessage(token, newRange))))
  {
    FirstCap(text, h.caps, 0, h.end);
    var cap := h.caps[0];
    var token := text[cap.start..cap.end];
    var years := YearsOf(token);
    SliceOccursInPrefix(text, h.end, cap.start, cap.end);
    if years[|years| - 1] != currentYear {
      var newRange := FormatRange(years[0], currentYear, '(' in token || |years| == 1);
      var at := TokenOffset(text[..h.end], token, cap.start);
      assert PlannedUpdate(text, h, currentYear) ==
             Some(CopyrightEdit(TextEdit(at, at + |token|, newRange), UpdateMessage(token, newRange)));
    }
  }

  /** The insertion branch: the header instance and a newline at the top, unless already there verbatim. */
  function PlannedInsert(text: string, headerText: string, currentYear: string): (r: Option<CopyrightEdit>)
    ensures r.None? <==> StartsWith(text, HeaderInstance(headerText, currentYear))
    ensures r.Some? ==> && r.value.message == InsertMessage
                        && r.value.edit.start == r.value.edit.end == 0
                        && Apply(text, r.value.edit) == HeaderInstance(headerText, currentYear) + "\n" + text
  {
    var t := HeaderInstance(headerText, currentYear);
    if !StartsWith(text, t) then Some(CopyrightEdit(TextEdit(0, 0, t + "\n"), InsertMessage))
    else None
  }

  /** `matched.indexOf(token)` for a token known to occur at `k`: the first occurrence. */
  function TokenOffset(matched: string, token: string, k: nat): (at: nat)
    requires OccursAt(matched, token, k)
    ensures at <= k && OccursAt(matched, token, at)
    ensures forall j :: 0 <= j < at ==> !OccursAt(matched, token, j)
  {
    IndexOf(matched, token)
  }

  // ---------------------------------------------------------------------
  // What the plan promises

  /** The header matched at the top of the document and has a year group: the update branch. */
  predicate HeaderFound(text: string, h: string) {
    MatchSegs(HeaderRegex(h), text, 0).Some? && HasYearGroup(h)
  }

  /** Where the first year group matched (`match[1]`). */
  function FoundSpan(text: string, h: string): (sp: Span)
    requires HeaderFound(text, h)
    ensures sp.start <= sp.end <= |text|
    ensures IsYearToken(text[sp.start..sp.end])
  {
    var m := MatchSegs(HeaderRegex(h), text, 0).value;
    FirstCap(text, m.caps, 0, m.end);
    m.caps[0]
  }

  /** The year token the header's first year group captured. */
  function FoundToken(text: string, h: string): string
    requires HeaderFound(text, h)
  {
    var sp := FoundSpan(text, h);
    text[sp.start..sp.end]
  }

  /** In the update branch the plan is the update of the captured token. */
  lemma PlanOfFoundHeader(text: string, h: string, currentYear: string)
    requires HeaderFound(text, h)
    ensures var m := MatchSegs(HeaderRegex(h), text, 0).value;
            && m.caps[0] == FoundSpan(text, h)
            && PlannedEdit(text, h, currentYear) == PlannedUpdate(text, m, currentYear)
  {
  }

  /** Outside the update branch the plan is the insertion. */
  lemma PlanOfMissingHeader(text: string, h: string, currentYear: string)
    requires !HeaderFound(text, h)
    ensures PlannedEdit(text, h, currentYear) == PlannedInsert(text, h, currentYear)
  {
  }

  /**
   * The updated range of a token: its start year, a dash and the current
   * year, in parentheses when the token had an opening parenthesis or no
   * range part.
   */
  lemma UpdatedRangeOfToken(t: string, sh: Shape, currentYear: string)
    requires FitsShape(t, sh) && IsYear(currentYear)
    ensures var p := sh.open || !sh.range;
            var r := FormatRange(StartYear(t), currentYear, WantsParens(t));
            && WantsParens(t) == p
            && FitsShape(r, Shape(p, true, p))
            && YearsOf(r) == [StartYear(t), currentYear]
  {
    ParseYearToken(t, sh);
    FormatRangeFits(StartYear(t), currentYear, sh.open || !sh.range);
  }

  /** The update branch in the utility's terms: skipped exactly when the end year is current. */
  lemma PlannedUpdateOfToken(text: string, m: Hit, currentYear: string)
    requires |m.caps| >= 1 && CapsWithin(text, m.caps, 0, m.end)
    ensures var t := text[m.caps[0].start..m.caps[0].end];
            var r := PlannedUpdate(text, m, currentYear);
            && (r.None? <==> EndYear(t) == currentYear)
            && (r.Some? ==> r.value.edit.newText == FormatRange(StartYear(t), currentYear, WantsParens(t)))
  {
    PlannedUpdateUnfolded(text, m, currentYear);
  }

  /** The update branch on a capture of shape `sh` whose end year is not the current one. */
  lemma UpdateOfCapture(text: string, m: Hit, sh: Shape, currentYear: string)
    requires |m.caps| >= 1 && CapsWithin(text, m.caps, 0, m.end)
    requires FitsShape(text[m.caps[0].start..m.caps[0].end], sh) && IsYear(currentYear)
    requires EndYear(text[m.caps[0].start..m.caps[0].end]) != currentYear
    ensures var r := PlannedUpdate(text, m, currentYear);
            var t := text[m.caps[0].start..m.caps[0].end];
            var p := WantsParens(t);
            && r.Some?
            && r.value.edit.end == r.value.edit.start + |t|
            && text[r.value.edit.start..r.value.edit.end] == t
            && r.value.edit.start <= m.caps[0].start
            && FitsShape(r.value.edit.newText, Shape(p, true, p))
            && YearsOf(r.value.edit.newText) == [StartYear(t), currentYear]
            && r.value.message == UpdateMessage(t, r.value.edit.newText)
  {
    var t := text[m.caps[0].start..m.caps[0].end];
    UpdatedRangeOfToken(t, sh, currentYear);
    PlannedUpdateUnfolded(text, m, currentYear);
    FirstCap(text, m.caps, 0, m.end);
    OccursInPrefixOccurs(text, m.end, t, TokenOffset(text[..m.end], t, m.caps[0].start));
  }

  /**
   * A stale year is rewritten in place: the edit covers exactly one written
   * copy of the captured token, no later than the capture itself, and puts
   * there the range from the token's start year to the current year; the
   * message names both.
   */
  lemma UpdateReplacesToken(text: string, h: string, currentYear: string)
    requires HeaderFound(text, h) && IsYear(currentYear)
    requires EndYear(FoundToken(text, h)) != currentYear
    ensures var r := PlannedEdit(text, h, currentYear);
            var t := FoundToken(text, h);
            var p := WantsParens(t);
            && r.Some?
            && r.value.edit.end == r.value.edit.start + |t|
            && text[r.value.edit.start..r.value.edit.end] == t
            && r.value.edit.start <= FoundSpan(text, h).start
            && FitsShape(r.value.edit.newText, Shape(p, true, p))
            && YearsOf(r.value.edit.newText) == [StartYear(t), currentYear]
            && r.value.message == UpdateMessage(t, r.value.edit.newText)
  {
    PlanOfFoundHeader(text, h, currentYear);
    var sh: Shape :| FitsShape(FoundToken(text, h), sh);
    UpdateOfCapture(text, MatchSegs(HeaderRegex(h), text, 0).value, sh, currentYear);
  }

  /** A header whose year already ends at the current year needs no edit. */
  lemma UpToDateHeaderLeftAlone(text: string, h: string, currentYear: string)
    requires HeaderFound(text, h)
    requires EndYear(FoundToken(text, h)) == currentYear
    ensures PlannedEdit(text, h, currentYear).None?
  {
    PlanOfFoundHeader(text, h, currentYear);
    PlannedUpdateOfToken(text, MatchSegs(HeaderRegex(h), text, 0).value, currentYear);
  }

  /**
   * The planner and `calculateNewYearRange` use different thresholds: a
   * header year later than the current one is rewritten by the planner, while
   * `calculateNewYearRange` leaves it alone.
   */
  lemma FutureYearRewritten(text: string, h: string, currentYear: string)
    requires HeaderFound(text, h) && IsYear(currentYear)
    requires LexLess(currentYear, EndYear(FoundToken(text, h)))
    ensures PlannedEdit(text, h, currentYear).Some?
    ensures CalculateNewYearRange(FoundToken(text, h), currentYear).None?
  {
    var t := FoundToken(text, h);
    LexLessAsymmetric(currentYear, EndYear(t));
    LexLessIrreflexive(currentYear);
    UpdateReplacesToken(text, h, currentYear);
  }

  /** When the header's year is behind, both compute the same new range. */
  lemma AgreesWithCalculateWhenBehind(text: string, h: string, currentYear: string)
    requires HeaderFound(text, h) && IsYear(currentYear)
    requires LexLess(EndYear(FoundToken(text, h)), currentYear)
    ensures var r := PlannedEdit(text, h, currentYear);
            r.Some? && CalculateNewYearRange(FoundToken(text, h), currentYear) == Some(r.value.edit.newText)
  {
    LexLessIrreflexive(currentYear);
    PlanOfFoundHeader(text, h, currentYear);
    PlannedUpdateOfToken(text, MatchSegs(HeaderRegex(h), text, 0).value, currentYear);
  }

  /**
   * Without the header (or without a year group in it) the plan inserts the
   * header, its year set to the current one, and a newline at the top of the
   * document, unless the document already starts with exactly that text.
   */
  lemma InsertWhenHeaderMissing(text: string, h: string, currentYear: string)
    requires !HeaderFound(text, h)
    ensures var r := PlannedEdit(text, h, currentYear);
            var t := HeaderInstance(h, currentYear);
            && (r.None? <==> StartsWith(text, t))
            && (r.Some? ==>
                  && r.value.message == InsertMessage
                  && r.value.edit.start == r.value.edit.end == 0
                  && StartsWith(Apply(text, r.value.edit), t + "\n")
                  && Apply(text, r.value.edit)[|t| + 1..] == text)
  {
    PlanOfMissingHeader(text, h, currentYear);
  }

  /**
   * After an insertion the planner never asks to insert again: the document
   * now starts with the inserted header, so it is either recognised or the
   * guard stops a second copy.
   */
  lemma InsertIsNotRepeated(text: string, h: string, currentYear: string)
    requires var r := PlannedEdit(text, h, currentYear);
             r.Some? && r.value.message == InsertMessage
    ensures var r := PlannedEdit(text, h, currentYear);
            var r' := PlannedEdit(Apply(text, r.value.edit), h, currentYear);
            r'.None? || r'.value.message != InsertMessage
  {
    if HeaderFound(text, h) {
      PlanOfFoundHeader(text, h, currentYear);
      UpdateNeverInserts(text, MatchSegs(HeaderRegex(h), text, 0).value, currentYear);
    }
    PlanOfMissingHeader(text, h, currentYear);
    var t := HeaderInstance(h, currentYear);
    var text' := t + "\n" + text;
    assert text'[..|t|] == t;
    if HeaderFound(text', h) {
      PlanOfFoundHeader(text', h, currentYear);
      UpdateNeverInserts(text', MatchSegs(HeaderRegex(h), text', 0).value, currentYear);
    } else {
      PlanOfMissingHeader(text', h, currentYear);
    }
  }

  /** An update is never announced as an insertion. */
  lemma UpdateNeverInserts(text: string, m: Hit, currentYear: string)
    requires |m.caps| >= 1 && CapsWithin(text, m.caps, 0, m.end)
    ensures var r := PlannedUpdate(text, m, currentYear);
            r.Some? ==> r.value.message != InsertMessage
  {
    PlannedUpdateUnfolded(text, m, currentYear);
    var r := PlannedUpdate(text, m, currentYear);
    if r.Some? {
      assert r.value.message[0] == 'U' && InsertMessage[0] == 'I';
    }
  }

  /**
   * With a placeholder, the inserted header is the header pattern written
   * out with the current year wherever `${year}` stood.
   */
  lemma {:induction false} InstanceRendersPattern(h: string, currentYear: string)
    requires Contains(h, Placeholder)
    ensures HeaderInstance(h, currentYear) == Render(Compile(h), currentYear)
  {
    RenderReplacesAll(h, currentYear);
  }

  lemma {:induction false} RenderReplacesAll(h: string, currentYear: string)
    ensures ReplaceAll(h, Placeholder, currentYear) == Render(Compile(h), currentYear)
    decreases |h|
  {
    ReplaceAllAtFirst(h, Placeholder, currentYear);
    var i := IndexOf(h, Placeholder);
    if i == -1 {
      assert Compile(h) == [Lit(h)] + [];
      RenderLitYear(h, [], currentYear, false);
      assert ReplaceAll(h, Placeholder, currentYear) == Render(Compile(h), currentYear);
    } else {
      var rest := h[i + |Placeholder|..];
      RenderReplacesAll(rest, currentYear);
      CompileStep(h);
      RenderLitYear(h[..i], Compile(rest), currentYear, true);
      assert ReplaceAll(h, Placeholder, currentYear) == Render(Compile(h), currentYear);
    }
  }

  /**
   * The first half of `getCopyrightEdit`: the header's regular expression,
   * with the year group put where `${year}` stands or, failing that, where
   * the header's template year is first written.
   */
  method BuildHeaderRegex(headerText: string)
    returns (escapedHeaderText: seq<Segment>, hasYearPlaceholder: bool, templateYear: Option<string>)
    ensures escapedHeaderText == HeaderRegex(headerText)
    ensures hasYearPlaceholder == Contains(headerText, Placeholder)
    ensures templateYear == if hasYearPlaceholder then None else FindTemplateYear(headerText)
    ensures (hasYearPlaceholder || templateYear.Some?) <==> YearCount(escapedHeaderText) >= 1
  {
    templateYear := None;
    hasYearPlaceholder := Contains(headerText, Placeholder);
    var yearMatch := if !hasYearPlaceholder then FindTemplateYear(headerText) else None;

    escapedHeaderText := Escape(headerText);
    if hasYearPlaceholder {
      escapedHeaderText := ReplaceHole(escapedHeaderText, Placeholder, true);
    } else if yearMatch.Some? {
      templateYear := yearMatch;
      escapedHeaderText := ReplaceHole(escapedHeaderText, yearMatch.value, false);
    }
  }

  /**
   * The update branch of `getCopyrightEdit`: the first year group's token
   * is rewritten unless it already ends in the current year.
   */
  method UpdateYearRange(text: string, headerMatch: Hit, currentYear: string)
    returns (result: Option<CopyrightEdit>)
    requires |headerMatch.caps| >= 1 && CapsWithin(text, headerMatch.caps, 0, headerMatch.end)
    ensures result == PlannedUpdate(text, headerMatch, currentYear)
  {
    FirstCap(text, headerMatch.caps, 0, headerMatch.end);
    var cap := headerMatch.caps[0];
    var existingYearRange := text[cap.start..cap.end];
    var years := YearsOf(existingYearRange);  // parentheses removed, split at '-'
    var endYear := years[|years| - 1];
    if endYear != currentYear {
      var startYear := years[0];
      var hasParens := '(' in existingYearRange;
      var newYearRange := FormatRange(startYear, currentYear, hasParens || |years| == 1);
      var matched := text[..headerMatch.end];
      SliceOccursInPrefix(text, headerMatch.end, cap.start, cap.end);
      var yearIndexInMatch := TokenOffset(matched, existingYearRange, cap.start);
      var edit := TextEdit(yearIndexInMatch, yearIndexInMatch + |existingYearRange|, newYearRange);
      result := Some(CopyrightEdit(edit, UpdateMessage(existingYearRange, newYearRange)));
    } else {
      result := None;
    }
  }

  /**
   * `getCopyrightEdit`, step by step as the extension computes it: the
   * header regular expression is matched at the start of the document; a
   * stale year is replaced in place, a missing header inserted at the top.
   */
  method GetCopyrightEdit(text: string, headerText: string, currentYear: string)
    returns (result: Option<CopyrightEdit>)
    ensures result == PlannedEdit(text, headerText, currentYear)
  {
    var escapedHeaderText, hasYearPlaceholder, templateYear := BuildHeaderRegex(headerText);
    var headerMatch := MatchSegs(escapedHeaderText, text, 0);
    assert (hasYearPlaceholder || templateYear.Some?) == HasYearGroup(headerText);
    if headerMatch.Some? && (hasYearPlaceholder || templateYear.Some?) {
      PlanOfFoundHeader(text, headerText, currentYear);
      result := UpdateYearRange(text, headerMatch.value, currentYear);
      if result.Some? {
        return;
      }
    } else {
      PlanOfMissingHeader(text, headerText, currentYear);
      var textToInsert := headerText;
      if hasYearPlaceholder {
        textToInsert := ReplaceAll(textToInsert, Placeholder, currentYear);
      } else if templateYear.Some? {
        textToInsert := ReplaceFirst(headerText, templateYear.value, currentYear);
      }
      if !StartsWith(text, textToInsert) {
        result := Some(CopyrightEdit(TextEdit(0, 0, textToInsert + "\n"), InsertMessage));
        return;
      }
    }
    result := None;
  }
}
