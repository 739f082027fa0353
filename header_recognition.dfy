/**
 * Reading an inserted header back: the header regular expression matches a
 * document that begins with the header written out with a year where its
 * year group stands, whether the document keeps the header's line breaks
 * or writes every one of them `\r\n`.
 */
module HeaderRecognition {
  import opened Wrappers
  import opened Strings
  import opened YearPattern
  import opened CopyrightUtils
  import opened CopyrightEdit

  /** Neither line-break character occurs in `s`. */
  predicate NoBreaks(s: string) {
    forall i :: 0 <= i < |s| ==> s[i] != '\n' && s[i] != '\r'
  }

  /**
   * `h` with `year` written in place of the leftmost copy of `hole` and,
   * with `all`, of every later non-overlapping copy too.
   */
  function Fill(h: string, hole: string, year: string, all: bool): string
    requires |hole| > 0
    decreases |h|
  {
    if StartsWith(h, hole) then year + (if all then Fill(h[|hole|..], hole, year, all) else h[|hole|..])
    else if h == [] then []
    else [h[0]] + Fill(h[1..], hole, year, all)
  }

  /** With every copy replaced, filling is `replace` with the `/g` flag. */
  lemma {:induction false} FillAllIsReplaceAll(h: string, hole: string, year: string)
    requires |hole| > 0
    ensures Fill(h, hole, year, true) == ReplaceAll(h, hole, year)
    decreases |h|
  {
    if StartsWith(h, hole) {
      FillAllIsReplaceAll(h[|hole|..], hole, year);
    } else if h != [] {
      FillAllIsReplaceAll(h[1..], hole, year);
    }
  }

  /** With only the leftmost copy replaced, filling is a plain `replace`. */
  lemma FillFirstIsReplaceFirst(h: string, hole: string, year: string)
    requires |hole| > 0
    ensures Fill(h, hole, year, false) == ReplaceFirst(h, hole, year)
  {
    var i := IndexOf(h, hole);
    if i == -1 {
      FillWithoutCopy(h, hole, year);
    } else {
      FillAtFirstCopy(h, hole, year, i);
      assert ReplaceFirst(h, hole, year) == h[..i] + year + h[i + |hole|..];
    }
  }

  /** Without a copy of the hole nothing is filled. */
  lemma FillWithoutCopy(h: string, hole: string, year: string)
    requires |hole| > 0 && IndexOf(h, hole) == -1
    ensures Fill(h, hole, year, false) == h
  {
    FillSkips(h, hole, year, false, |h|);
    assert h[..|h|] == h && h[|h|..] == [];
  }

  /** At the first copy of the hole, the year is written and the rest kept. */
  lemma FillAtFirstCopy(h: string, hole: string, year: string, i: nat)
    requires |hole| > 0 && i == IndexOf(h, hole)
    ensures Fill(h, hole, year, false) == h[..i] + year + h[i + |hole|..]
  {
    FillSkips(h, hole, year, false, i);
    FillAtCopy(h, hole, year, i);
  }

  lemma FillAtCopy(h: string, hole: string, year: string, i: nat)
    requires |hole| > 0 && OccursAt(h, hole, i)
    ensures Fill(h[i..], hole, year, false) == year + h[i + |hole|..]
  {
    assert StartsWith(h[i..], hole) by {
      assert h[i..][..|hole|] == h[i..i + |hole|];
    }
    assert h[i..][|hole|..] == h[i + |hole|..];
  }

  /** Characters before the first copy of the hole are kept as they are. */
  lemma {:induction false} FillSkips(h: string, hole: string, year: string, all: bool, k: nat)
    requires |hole| > 0 && k <= |h|
    requires forall j :: 0 <= j < k ==> !OccursAt(h, hole, j)
    ensures Fill(h, hole, year, all) == h[..k] + Fill(h[k..], hole, year, all)
    decreases k
  {
    if k == 0 {
      assert h[..0] == [] && h[0..] == h;
    } else {
      assert !OccursAt(h, hole, 0);
      FillKeeps(h, hole, year, all);
      TailWithoutCopy(h, hole, k);
      FillSkips(h[1..], hole, year, all, k - 1);
      ConsSlices(h, k, Fill(h[k..], hole, year, all));
    }
  }

  /** No copy of `sub` at the first `k` places of `h` leaves none at the first `k - 1` places of its tail. */
  lemma TailWithoutCopy(h: string, sub: string, k: nat)
    requires 0 < k <= |h|
    requires forall j :: 0 <= j < k ==> !OccursAt(h, sub, j)
    ensures forall j :: 0 <= j < k - 1 ==> !OccursAt(h[1..], sub, j)
  {
    forall j | 0 <= j < k - 1
      ensures !OccursAt(h[1..], sub, j)
    {
      OccursInTail(h, sub, j);
    }
  }

  /** The first character, then the next `k - 1`, then what follows them. */
  lemma ConsSlices(h: string, k: nat, t: string)
    requires 0 < k <= |h|
    ensures h[1..][k - 1..] == h[k..]
    ensures [h[0]] + (h[1..][..k - 1] + t) == h[..k] + t
  {
    assert [h[0]] + h[1..][..k - 1] == h[..k];
  }

  /** A copy of `sub` in the tail of `h` is a copy in `h` one place further on. */
  lemma OccursInTail(h: string, sub: string, j: nat)
    requires h != []
    ensures OccursAt(h[1..], sub, j) ==> OccursAt(h, sub, j + 1)
  {
    if j + |sub| <= |h| - 1 {
      assert h[1..][j..j + |sub|] == h[j + 1..j + 1 + |sub|];
    }
  }

  /** A text whose first character differs from the hole's does not start with the hole. */
  lemma OtherHead(h: string, hole: string)
    requires |hole| > 0 && h != [] && h[0] != hole[0]
    ensures !StartsWith(h, hole)
  {
    if |hole| <= |h| {
      assert h[..|hole|][0] == h[0];
    }
  }

  /** A filled text starts with the header's first character, or with the year where the hole starts it. */
  lemma FillHead(h: string, hole: string, year: string, all: bool)
    requires |hole| > 0 && |year| > 0 && h != []
    ensures Fill(h, hole, year, all) != []
    ensures var f := Fill(h, hole, year, all);
            f[0] == h[0] || (StartsWith(h, hole) && f[0] == year[0])
  {
  }

  // ---------------------------------------------------------------------
  // The filled text as written, one step at a time

  /** `\r\n` line breaks leave a stretch without line-break characters as it is. */
  lemma {:induction false} WithCrlfPlain(a: string, t: string)
    requires NoBreaks(a)
    ensures WithCrlf(a + t) == a + WithCrlf(t)
    decreases |a|
  {
    if a == [] {
      assert a + t == t;
    } else {
      assert (a + t)[0] == a[0] && (a + t)[1..] == a[1..] + t;
      assert NoBreaks(a[1..]) by {
        assert forall i :: 0 <= i < |a| - 1 ==> a[1..][i] == a[i + 1];
      }
      WithCrlfPlain(a[1..], t);
    }
  }

  /** Where the hole starts the header, the written text starts with the year. */
  lemma FillAtHole(h: string, hole: string, year: string, all: bool, crlf: bool)
    requires |hole| > 0 && StartsWith(h, hole) && NoBreaks(year)
    ensures Written(Fill(h, hole, year, all), crlf) ==
              year + Written(if all then Fill(h[|hole|..], hole, year, all) else h[|hole|..], crlf)
  {
    var t := if all then Fill(h[|hole|..], hole, year, all) else h[|hole|..];
    assert Fill(h, hole, year, all) == year + t;
    if crlf {
      WithCrlfPlain(year, t);
    }
  }

  /** Where a line break starts the header, the written text starts with that break, `\r\n` when so written. */
  lemma FillAtBreak(h: string, hole: string, year: string, all: bool, crlf: bool)
    requires |hole| > 0 && NoBreaks(hole)
    requires h != [] && (h[0] == '\n' || FirstWidth(h) == 2)
    ensures FirstWidth(h) <= |h|
    ensures h[..FirstWidth(h)] == "\n" || h[..FirstWidth(h)] == "\r\n"
    ensures Written(Fill(h, hole, year, all), crlf) ==
              (if crlf then "\r\n" else h[..FirstWidth(h)]) + Written(Fill(h[FirstWidth(h)..], hole, year, all), crlf)
  {
    FillOfBreak(h, hole, year, all);
    if crlf {
      CrlfOfBreak(h[..FirstWidth(h)], Fill(h[FirstWidth(h)..], hole, year, all));
    }
  }

  /** A line break is kept as it is by filling. */
  lemma FillOfBreak(h: string, hole: string, year: string, all: bool)
    requires |hole| > 0 && NoBreaks(hole)
    requires h != [] && (h[0] == '\n' || FirstWidth(h) == 2)
    ensures FirstWidth(h) <= |h|
    ensures h[..FirstWidth(h)] == "\n" || h[..FirstWidth(h)] == "\r\n"
    ensures Fill(h, hole, year, all) == h[..FirstWidth(h)] + Fill(h[FirstWidth(h)..], hole, year, all)
  {
    OtherHead(h, hole);
    FillKeeps(h, hole, year, all);
    if FirstWidth(h) == 2 {
      OtherHead(h[1..], hole);
      FillKeeps(h[1..], hole, year, all);
      assert h[1..][1..] == h[2..];
      assert h[..2] == [h[0]] + [h[1..][0]];
    } else {
      assert h[..1] == [h[0]];
    }
  }

  /** A character that does not start a copy of the hole is kept, and filling goes on after it. */
  lemma FillKeeps(h: string, hole: string, year: string, all: bool)
    requires |hole| > 0 && h != [] && !StartsWith(h, hole)
    ensures Fill(h, hole, year, all) == [h[0]] + Fill(h[1..], hole, year, all)
  {
  }

  /** Written with `\r\n` breaks, a leading break of either kind becomes `\r\n`. */
  lemma CrlfOfBreak(b: string, f: string)
    requires b == "\n" || b == "\r\n"
    ensures WithCrlf(b + f) == "\r\n" + WithCrlf(f)
  {
    var s := b + f;
    if b == "\r\n" {
      assert s[0] == '\r' && s[1] == '\n';
      assert s[2..] == f;
    } else {
      assert s[0] == '\n';
      assert s[1..] == f;
    }
  }

  /** Where any other character starts the header, the written text starts with it. */
  lemma FillAtChar(h: string, hole: string, year: string, all: bool, crlf: bool)
    requires |hole| > 0 && |year| > 0 && NoBreaks(year)
    requires h != [] && h[0] != '\n' && FirstWidth(h) == 1 && !StartsWith(h, hole)
    ensures Written(Fill(h, hole, year, all), crlf) == [h[0]] + Written(Fill(h[1..], hole, year, all), crlf)
  {
    var f := Fill(h[1..], hole, year, all);
    assert Fill(h, hole, year, all) == [h[0]] + f;
    if crlf {
      if h[0] == '\r' && f != [] {
        FillHead(h[1..], hole, year, all);
        assert f[0] != '\n';
      }
      assert ([h[0]] + f)[1..] == f;
    }
  }

  // ---------------------------------------------------------------------
  // The header regular expression, one step at a time

  /** Spelling a hole without line breaks in the escaped header means the header starts with it. */
  lemma {:induction false} SpellsEscapeStarts(h: string, hole: string)
    requires Spells(Escape(h), hole)
    ensures StartsWith(h, hole)
    decreases |hole|
  {
    if hole != [] {
      EscapeLitHead(h, hole[0]);
      SpellsTail(Escape(h), hole);
      SpellsEscapeStarts(h[1..], hole[1..]);
      StartsWithCons(h, hole);
    }
  }

  /** An escaped header that opens with a literal character opens with that character. */
  lemma EscapeLitHead(h: string, c: char)
    requires Escape(h) != [] && Escape(h)[0] == Lit([c])
    ensures h != [] && h[0] == c && Escape(h)[1..] == Escape(h[1..])
  {
  }

  lemma SpellsTail(segs: seq<Segment>, hole: string)
    requires hole != [] && Spells(segs, hole)
    ensures segs != [] && Spells(segs[1..], hole[1..])
  {
    assert forall i :: 0 <= i < |hole| - 1 ==> segs[1..][i] == segs[i + 1] && hole[1..][i] == hole[i + 1];
  }

  lemma StartsWithCons(h: string, hole: string)
    requires hole != [] && h != [] && h[0] == hole[0] && StartsWith(h[1..], hole[1..])
    ensures StartsWith(h, hole)
  {
    assert h[..|hole|] == [h[0]] + h[1..][..|hole| - 1];
  }

  /** The escaped header spells the hole only where the header starts with it. */
  lemma SpellsOnlyAtHole(h: string, hole: string)
    ensures Spells(Escape(h), hole) ==> StartsWith(h, hole)
  {
    if Spells(Escape(h), hole) {
      SpellsEscapeStarts(h, hole);
    }
  }

  /** A hole at the start of the header becomes the year group. */
  lemma ReplaceHoleAtHole(h: string, hole: string, all: bool)
    requires |hole| > 0 && NoBreaks(hole) && StartsWith(h, hole)
    ensures ReplaceHole(Escape(h), hole, all) ==
              [Year] + (if all then ReplaceHole(Escape(h[|hole|..]), hole, all) else Escape(h[|hole|..]))
  {
    assert h[..|hole|] == hole;
    EscapePlainPrefix(h, |hole|);
    var e := Escape(h);
    assert Spells(e, hole);
    assert e[|hole|..] == Escape(h[|hole|..]);
  }

  /** A line break at the start of the header stays `\r?\n`. */
  lemma ReplaceHoleAtBreak(h: string, hole: string, all: bool)
    requires |hole| > 0 && h != [] && (h[0] == '\n' || FirstWidth(h) == 2)
    ensures FirstWidth(h) <= |h|
    ensures ReplaceHole(Escape(h), hole, all) == [LineBreak] + ReplaceHole(Escape(h[FirstWidth(h)..]), hole, all)
  {
    var n := FirstWidth(h);
    EscapeBreakHead(h, n);
    var e := Escape(h);
    assert !Spells(e, hole);
    assert e[1..] == Escape(h[n..]);
  }

  /** Any other character that does not start the hole stays a literal. */
  lemma ReplaceHoleAtChar(h: string, hole: string, all: bool)
    requires |hole| > 0 && NoBreaks(hole)
    requires h != [] && h[0] != '\n' && FirstWidth(h) == 1 && !StartsWith(h, hole)
    ensures ReplaceHole(Escape(h), hole, all) == [Lit([h[0]])] + ReplaceHole(Escape(h[1..]), hole, all)
  {
    EscapeCharHead(h);
    var e := Escape(h);
    SpellsOnlyAtHole(h, hole);
    assert e[1..] == Escape(h[1..]);
  }

  // ---------------------------------------------------------------------
  // Matching the filled header

  /** The year group takes a written four-digit year whenever the rest of the pattern can follow it. */
  lemma YearThenRest(tail: seq<Segment>, rest: seq<Segment>, text: string, pos: nat, year: string)
    requires IsYear(year) && OccursAt(text, year, pos)
    requires MatchSegs(tail + rest, text, pos + 4).Some?
    ensures MatchSegs([Year] + tail + rest, text, pos).Some?
    ensures MatchSegs([Year] + tail + rest, text, pos).value.caps[0].start == pos
  {
    ConsAppend(Year, tail, rest);
    MatchYearStep(tail + rest, text, pos);
    assert Shapes[7] == Shape(false, false, false) && ShapeLength(Shapes[7]) == 4;
    assert FitsShape(text[pos..pos + 4], Shapes[7]);
    TryShapesComplete(Shapes, 7, tail + rest, text, pos);
  }

  /** A split occurrence: the first part at `pos`, the second right after it. */
  lemma OccursAtSplit(text: string, a: string, b: string, pos: nat)
    requires OccursAt(text, a + b, pos)
    ensures OccursAt(text, a, pos) && OccursAt(text, b, pos + |a|)
  {
    assert text[pos..pos + |a|] == (a + b)[..|a|];
    assert text[pos + |a|..pos + |a| + |b|] == (a + b)[|a|..];
  }

  /**
   * The header regular expression, with its year groups where `hole` was
   * spelled, matches wherever the header is written with a year in place of
   * the hole, and the rest of the pattern can follow.
   */
  lemma {:induction false} FilledHeaderMatches(h: string, hole: string, year: string, all: bool, crlf: bool,
                                               rest: seq<Segment>, text: string, pos: nat, end: nat)
    requires |hole| > 0 && NoBreaks(hole) && IsYear(year)
    requires OccursAt(text, Written(Fill(h, hole, year, all), crlf), pos)
    requires end == pos + |Written(Fill(h, hole, year, all), crlf)|
    requires MatchSegs(rest, text, end).Some? && YearCount(rest) == 0
    ensures MatchSegs(ReplaceHole(Escape(h), hole, all) + rest, text, pos).Some?
    ensures var m := MatchSegs(ReplaceHole(Escape(h), hole, all) + rest, text, pos).value;
            |m.caps| > 0 ==> OccursAt(text, year, m.caps[0].start)
    decreases |h|, 1
  {
    if StartsWith(h, hole) {
      HoleStep(h, hole, year, all, crlf, rest, text, pos, end);
    } else if h == [] {
      EmptyStep(h, hole, year, all, crlf, rest, text, pos, end);
    } else if h[0] == '\n' || FirstWidth(h) == 2 {
      BreakStep(h, hole, year, all, crlf, rest, text, pos, end);
    } else {
      CharStep(h, hole, year, all, crlf, rest, text, pos, end);
    }
  }

  lemma EmptyStep(h: string, hole: string, year: string, all: bool, crlf: bool,
                  rest: seq<Segment>, text: string, pos: nat, end: nat)
    requires |hole| > 0 && h == [] && end <= |text|
    requires end == pos + |Written(Fill(h, hole, year, all), crlf)|
    requires MatchSegs(rest, text, end).Some? && YearCount(rest) == 0
    ensures MatchSegs(ReplaceHole(Escape(h), hole, all) + rest, text, pos).Some?
    ensures var m := MatchSegs(ReplaceHole(Escape(h), hole, all) + rest, text, pos).value;
            |m.caps| > 0 ==> OccursAt(text, year, m.caps[0].start)
  {
    assert ReplaceHole(Escape(h), hole, all) + rest == rest;
    assert Written(Fill(h, hole, year, all), crlf) == [];
  }

  lemma {:induction false} BreakStep(h: string, hole: string, year: string, all: bool, crlf: bool,
                                     rest: seq<Segment>, text: string, pos: nat, end: nat)
    requires |hole| > 0 && NoBreaks(hole) && IsYear(year)
    requires h != [] && (h[0] == '\n' || FirstWidth(h) == 2)
    requires OccursAt(text, Written(Fill(h, hole, year, all), crlf), pos)
    requires end == pos + |Written(Fill(h, hole, year, all), crlf)|
    requires MatchSegs(rest, text, end).Some? && YearCount(rest) == 0
    ensures MatchSegs(ReplaceHole(Escape(h), hole, all) + rest, text, pos).Some?
    ensures var m := MatchSegs(ReplaceHole(Escape(h), hole, all) + rest, text, pos).value;
            |m.caps| > 0 ==> OccursAt(text, year, m.caps[0].start)
    decreases |h|, 0
  {
    var n := BreakStepTo(h, hole, year, all, crlf, rest, text, pos, end);
    FilledHeaderMatches(h[FirstWidth(h)..], hole, year, all, crlf, rest, text, pos + n, end);
  }

  lemma {:induction false} CharStep(h: string, hole: string, year: string, all: bool, crlf: bool,
                                    rest: seq<Segment>, text: string, pos: nat, end: nat)
    requires |hole| > 0 && NoBreaks(hole) && IsYear(year)
    requires h != [] && h[0] != '\n' && FirstWidth(h) == 1 && !StartsWith(h, hole)
    requires OccursAt(text, Written(Fill(h, hole, year, all), crlf), pos)
    requires end == pos + |Written(Fill(h, hole, year, all), crlf)|
    requires MatchSegs(rest, text, end).Some? && YearCount(rest) == 0
    ensures MatchSegs(ReplaceHole(Escape(h), hole, all) + rest, text, pos).Some?
    ensures var m := MatchSegs(ReplaceHole(Escape(h), hole, all) + rest, text, pos).value;
            |m.caps| > 0 ==> OccursAt(text, year, m.caps[0].start)
    decreases |h|, 0
  {
    CharStepTo(h, hole, year, all, crlf, rest, text, pos, end);
    FilledHeaderMatches(h[1..], hole, year, all, crlf, rest, text, pos + 1, end);
  }

  /** The hole step: the year group takes the written year, then the rest of the header follows. */
  lemma {:induction false} HoleStep(h: string, hole: string, year: string, all: bool, crlf: bool,
                                    rest: seq<Segment>, text: string, pos: nat, end: nat)
    requires |hole| > 0 && NoBreaks(hole) && IsYear(year) && StartsWith(h, hole)
    requires OccursAt(text, Written(Fill(h, hole, year, all), crlf), pos)
    requires end == pos + |Written(Fill(h, hole, year, all), crlf)|
    requires MatchSegs(rest, text, end).Some? && YearCount(rest) == 0
    ensures MatchSegs(ReplaceHole(Escape(h), hole, all) + rest, text, pos).Some?
    ensures var m := MatchSegs(ReplaceHole(Escape(h), hole, all) + rest, text, pos).value;
            |m.caps| > 0 ==> OccursAt(text, year, m.caps[0].start)
    decreases |h|, 0
  {
    var h' := h[|hole|..];
    var t := if all then Fill(h', hole, year, all) else h';
    FillAtHole(h, hole, year, all, crlf);
    OccursAtSplit(text, year, Written(t, crlf), pos);
    ReplaceHoleAtHole(h, hole, all);
    if all {
      FilledHeaderMatches(h', hole, year, all, crlf, rest, text, pos + 4, end);
      YearThenRest(ReplaceHole(Escape(h'), hole, all), rest, text, pos, year);
    } else {
      EscapeMatchesWritten(h', rest, text, pos + 4, end, crlf);
      YearThenRest(Escape(h'), rest, text, pos, year);
    }
  }

  /** A written line break, read off the text where it occurs. */
  lemma BreakAt(text: string, b: string, pos: nat)
    requires (b == "\n" || b == "\r\n") && OccursAt(text, b, pos)
    ensures (|b| == 2 && text[pos] == '\r' && text[pos + 1] == '\n') || (|b| == 1 && text[pos] == '\n')
  {
    assert text[pos] == text[pos..pos + |b|][0];
    if |b| == 2 {
      assert text[pos + 1] == text[pos..pos + |b|][1];
    }
  }

  /** The line-break step: `\r?\n` takes the written break. */
  lemma BreakStepTo(h: string, hole: string, year: string, all: bool, crlf: bool,
                    rest: seq<Segment>, text: string, pos: nat, end: nat) returns (n: nat)
    requires |hole| > 0 && NoBreaks(hole) && IsYear(year)
    requires h != [] && (h[0] == '\n' || FirstWidth(h) == 2)
    requires OccursAt(text, Written(Fill(h, hole, year, all), crlf), pos)
    requires end == pos + |Written(Fill(h, hole, year, all), crlf)|
    ensures FirstWidth(h) <= |h|
    ensures var w := Written(Fill(h[FirstWidth(h)..], hole, year, all), crlf);
            OccursAt(text, w, pos + n) && end == pos + n + |w|
    ensures MatchSegs(ReplaceHole(Escape(h), hole, all) + rest, text, pos) ==
            MatchSegs(ReplaceHole(Escape(h[FirstWidth(h)..]), hole, all) + rest, text, pos + n)
  {
    n := BreakWritten(h, hole, year, all, crlf, text, pos, end);
    BreakMatches(h, hole, all, rest, text, pos, n);
  }

  /** The written break is read off the text, and the rest of the written header follows it. */
  lemma BreakWritten(h: string, hole: string, year: string, all: bool, crlf: bool,
                     text: string, pos: nat, end: nat) returns (n: nat)
    requires |hole| > 0 && NoBreaks(hole)
    requires h != [] && (h[0] == '\n' || FirstWidth(h) == 2)
    requires OccursAt(text, Written(Fill(h, hole, year, all), crlf), pos)
    requires end == pos + |Written(Fill(h, hole, year, all), crlf)|
    ensures FirstWidth(h) <= |h| && pos + n <= |text|
    ensures (n == 2 && text[pos] == '\r' && text[pos + 1] == '\n') || (n == 1 && text[pos] == '\n')
    ensures var w := Written(Fill(h[FirstWidth(h)..], hole, year, all), crlf);
            OccursAt(text, w, pos + n) && end == pos + n + |w|
  {
    FillAtBreak(h, hole, year, all, crlf);
    var b := if crlf then "\r\n" else h[..FirstWidth(h)];
    var w := Written(Fill(h[FirstWidth(h)..], hole, year, all), crlf);
    assert b == "\n" || b == "\r\n";
    assert Written(Fill(h, hole, year, all), crlf) == b + w;
    OccursAtSplit(text, b, w, pos);
    n := |b|;
    BreakAt(text, b, pos);
  }

  /** `\r?\n` takes a break of either kind in the text. */
  lemma BreakMatches(h: string, hole: string, all: bool, rest: seq<Segment>, text: string, pos: nat, n: nat)
    requires |hole| > 0 && h != [] && (h[0] == '\n' || FirstWidth(h) == 2)
    requires pos + n <= |text|
    requires (n == 2 && text[pos] == '\r' && text[pos + 1] == '\n') || (n == 1 && text[pos] == '\n')
    ensures FirstWidth(h) <= |h|
    ensures MatchSegs(ReplaceHole(Escape(h), hole, all) + rest, text, pos) ==
            MatchSegs(ReplaceHole(Escape(h[FirstWidth(h)..]), hole, all) + rest, text, pos + n)
  {
    ReplaceHoleAtBreak(h, hole, all);
    var r' := ReplaceHole(Escape(h[FirstWidth(h)..]), hole, all);
    ConsAppend(LineBreak, r', rest);
    MatchBreakStep(r' + rest, text, pos, n);
  }

  /** The character step: a literal character takes itself. */
  lemma CharStepTo(h: string, hole: string, year: string, all: bool, crlf: bool,
                   rest: seq<Segment>, text: string, pos: nat, end: nat)
    requires |hole| > 0 && NoBreaks(hole) && IsYear(year)
    requires h != [] && h[0] != '\n' && FirstWidth(h) == 1 && !StartsWith(h, hole)
    requires OccursAt(text, Written(Fill(h, hole, year, all), crlf), pos)
    requires end == pos + |Written(Fill(h, hole, year, all), crlf)|
    ensures var w := Written(Fill(h[1..], hole, year, all), crlf);
            OccursAt(text, w, pos + 1) && end == pos + 1 + |w|
    ensures MatchSegs(ReplaceHole(Escape(h), hole, all) + rest, text, pos) ==
            MatchSegs(ReplaceHole(Escape(h[1..]), hole, all) + rest, text, pos + 1)
  {
    CharWritten(h, hole, year, all, crlf, text, pos, end);
    CharMatches(h, hole, all, rest, text, pos);
  }

  /** The header's first character is read off the text, and the rest of the written header follows it. */
  lemma CharWritten(h: string, hole: string, year: string, all: bool, crlf: bool,
                    text: string, pos: nat, end: nat)
    requires |hole| > 0 && NoBreaks(hole) && IsYear(year)
    requires h != [] && h[0] != '\n' && FirstWidth(h) == 1 && !StartsWith(h, hole)
    requires OccursAt(text, Written(Fill(h, hole, year, all), crlf), pos)
    requires end == pos + |Written(Fill(h, hole, year, all), crlf)|
    ensures pos < |text| && text[pos] == h[0]
    ensures var w := Written(Fill(h[1..], hole, year, all), crlf);
            OccursAt(text, w, pos + 1) && end == pos + 1 + |w|
  {
    FillAtChar(h, hole, year, all, crlf);
    var w := Written(Fill(h[1..], hole, year, all), crlf);
    OccursAtSplit(text, [h[0]], w, pos);
    assert text[pos] == h[0] by { assert text[pos..pos + 1] == [h[0]]; }
  }

  /** A literal character of the header takes that character in the text. */
  lemma CharMatches(h: string, hole: string, all: bool, rest: seq<Segment>, text: string, pos: nat)
    requires |hole| > 0 && NoBreaks(hole)
    requires h != [] && h[0] != '\n' && FirstWidth(h) == 1 && !StartsWith(h, hole)
    requires pos < |text| && text[pos] == h[0]
    ensures MatchSegs(ReplaceHole(Escape(h), hole, all) + rest, text, pos) ==
            MatchSegs(ReplaceHole(Escape(h[1..]), hole, all) + rest, text, pos + 1)
  {
    ReplaceHoleAtChar(h, hole, all);
    MatchAfterChar(h[0], ReplaceHole(Escape(h[1..]), hole, all), ReplaceHole(Escape(h), hole, all), rest, text, pos);
  }

  // ---------------------------------------------------------------------
  // The header as inserted, read back

  /** What the header's year group stands for: `${year}`, or failing that the template year. */
  function YearHole(h: string): (hole: string)
    requires HasYearGroup(h)
    ensures |hole| > 0 && NoBreaks(hole)
  {
    if Contains(h, Placeholder) then
      assert Placeholder[0] == '$' && Placeholder[1] == '{' && Placeholder[2] == 'y' && Placeholder[3] == 'e';
      assert Placeholder[4] == 'a' && Placeholder[5] == 'r' && Placeholder[6] == '}';
      Placeholder
    else
      var y := FindTemplateYear(h).value;
      assert forall i :: 0 <= i < 4 ==> IsDigit(y[i]);
      y
  }

  /** The header regular expression and the inserted header treat the same hole, in the same way. */
  lemma RegexAndInstanceOfHole(h: string, year: string)
    requires HasYearGroup(h)
    ensures HeaderRegex(h) == ReplaceHole(Escape(h), YearHole(h), Contains(h, Placeholder))
    ensures HeaderInstance(h, year) == Fill(h, YearHole(h), year, Contains(h, Placeholder))
  {
    if Contains(h, Placeholder) {
      FillAllIsReplaceAll(h, Placeholder, year);
    } else {
      FillFirstIsReplaceFirst(h, FindTemplateYear(h).value, year);
    }
  }

  /**
   * A document that begins with the header as the extension inserts it, a
   * four-digit year in place of its year group, is recognised, whether its
   * line breaks are written as in the header or all as `\r\n`; the year
   * group captures a token that starts with that year.
   */
  lemma HeaderInstanceRecognised(text: string, h: string, year: string, crlf: bool)
    requires HasYearGroup(h) && IsYear(year)
    requires StartsWith(text, Written(HeaderInstance(h, year), crlf))
    ensures HeaderFound(text, h)
    ensures StartYear(FoundToken(text, h)) == year
  {
    var hole := YearHole(h);
    var all := Contains(h, Placeholder);
    RegexAndInstanceOfHole(h, year);
    var w := Written(Fill(h, hole, year, all), crlf);
    FilledHeaderMatches(h, hole, year, all, crlf, [], text, 0, |w|);
    assert ReplaceHole(Escape(h), hole, all) + [] == HeaderRegex(h);
    CapturedYearStarts(text, h, year);
  }

  /** A captured token that starts where a four-digit year is written has that year as its start year. */
  lemma CapturedYearStarts(text: string, h: string, year: string)
    requires HeaderFound(text, h) && IsYear(year)
    requires OccursAt(text, year, FoundSpan(text, h).start)
    ensures StartYear(FoundToken(text, h)) == year
  {
    var sp := FoundSpan(text, h);
    var t := text[sp.start..sp.end];
    assert t == FoundToken(text, h);
    var sh: Shape :| FitsShape(t, sh);
    assert |t| >= 4;
    assert year[0] == text[sp.start] == t[0] by {
      assert text[sp.start..sp.start + 4][0] == text[sp.start];
    }
    assert !sh.open by { assert IsDigit(year[0]); }
    ParseYearToken(t, sh);
    SliceOfSlice(text, sp.start, sp.end, 4);
  }

  /** The first `n` characters of a slice are the slice of that length. */
  lemma SliceOfSlice(s: string, a: nat, b: nat, n: nat)
    requires a + n <= b <= |s|
    ensures s[a..b][..n] == s[a..a + n]
  {
  }

  /**
   * After the planner inserts a header that has a year group, the planner
   * recognises it on the next run, with the inserted year captured.
   */
  lemma InsertedHeaderRecognised(text: string, h: string, currentYear: string)
    requires HasYearGroup(h) && IsYear(currentYear)
    requires var r := PlannedEdit(text, h, currentYear);
             r.Some? && r.value.message == InsertMessage
    ensures var text' := Apply(text, PlannedEdit(text, h, currentYear).value.edit);
            HeaderFound(text', h) && StartYear(FoundToken(text', h)) == currentYear
  {
    var r := PlannedEdit(text, h, currentYear);
    var t := HeaderInstance(h, currentYear);
    if HeaderFound(text, h) {
      PlanOfFoundHeader(text, h, currentYear);
      UpdateNeverInserts(text, MatchSegs(HeaderRegex(h), text, 0).value, currentYear);
    }
    PlanOfMissingHeader(text, h, currentYear);
    var text' := Apply(text, r.value.edit);
    assert text' == t + "\n" + text;
    assert StartsWith(text', Written(t, false)) by {
      assert text'[..|t|] == t;
    }
    HeaderInstanceRecognised(text', h, currentYear, false);
  }
}
