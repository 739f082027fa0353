/**
 * The regular expressions the extension builds are always of one shape:
 * escaped (hence literal) text, the year-token group
 * `(\(?\d{4}(?:-\d{4})?\)?)` where `${year}` stood, and, in a multi-line
 * header, `\r?\n` between the escaped lines. This module represents such a
 * regular expression as a sequence of segments and matches it with the
 * leftmost, backtracking semantics of a JavaScript `RegExp`.
 */
module YearPattern {
  import opened Wrappers
  import opened Strings

  datatype Segment =
    | Lit(text: string)   // escaped literal text: matches itself exactly
    | Year                // the year-token capturing group
    | LineBreak           // `\r?\n`

  /**
   * One way through the optional parts of the year group: an opening
   * parenthesis, a `-dddd` range part, a closing parenthesis.
   */
  datatype Shape = Shape(open: bool, range: bool, close: bool)

  /**
   * The order in which a backtracking matcher tries the alternatives of the
   * group's three greedy `?` quantifiers: "take" before "skip", left to right.
   */
  const Shapes: seq<Shape> := [
    Shape(true, true, true), Shape(true, true, false),
    Shape(true, false, true), Shape(true, false, false),
    Shape(false, true, true), Shape(false, true, false),
    Shape(false, false, true), Shape(false, false, false)
  ]

  function ShapeLength(sh: Shape): nat {
    (if sh.open then 1 else 0) + 4 + (if sh.range then 5 else 0) + (if sh.close then 1 else 0)
  }

  /** `t` is a year token spelled in the shape `sh`. */
  predicate FitsShape(t: string, sh: Shape) {
    var o := if sh.open then 1 else 0;
    && |t| == ShapeLength(sh)
    && (sh.open ==> t[0] == '(')
    && AllDigits(t[o..o + 4])
    && (sh.range ==> t[o + 4] == '-' && AllDigits(t[o + 5..o + 9]))
    && (sh.close ==> t[|t| - 1] == ')')
  }

  /** `\(?\d{4}(?:-\d{4})?\)?` matches the whole of `t`. */
  ghost predicate IsYearToken(t: string) {
    exists sh: Shape :: FitsShape(t, sh)
  }

  /** Where a capture group matched: `text[start..end]`. */
  datatype Span = Span(start: nat, end: nat)

  /** A successful match: where it ends, and the span of each year group in order. */
  datatype Hit = Hit(end: nat, caps: seq<Span>)

  function YearCount(segs: seq<Segment>): nat {
    if segs == [] then 0 else (if segs[0].Year? then 1 else 0) + YearCount(segs[1..])
  }

  /** The fewest characters a match of `segs` can consume. */
  function MinLength(segs: seq<Segment>): nat {
    if segs == [] then 0
    else
      (match segs[0]
       case Lit(s) => |s|
       case Year => 4
       case LineBreak => 1) + MinLength(segs[1..])
  }

  /** Every capture lies inside `[lo, hi]` and holds a year token. */
  ghost predicate CapsWithin(text: string, caps: seq<Span>, lo: nat, hi: nat) {
    forall i :: 0 <= i < |caps| ==>
      lo <= caps[i].start <= caps[i].end <= hi <= |text| &&
      IsYearToken(text[caps[i].start..caps[i].end])
  }

  /** The first capture of a match, spelled out. */
  lemma FirstCap(text: string, caps: seq<Span>, lo: nat, hi: nat)
    requires |caps| > 0 && CapsWithin(text, caps, lo, hi)
    ensures lo <= caps[0].start <= caps[0].end <= hi <= |text|
    ensures IsYearToken(text[caps[0].start..caps[0].end])
  {
  }

  lemma FitsShapeIsYearToken(t: string, sh: Shape)
    requires FitsShape(t, sh)
    ensures IsYearToken(t)
  {
  }

  /**
   * Matches `segs` against `text` anchored at `pos`, returning the first
   * successful match in backtracking order.
   */
  function MatchSegs(segs: seq<Segment>, text: string, pos: nat): (r: Option<Hit>)
    requires pos <= |text|
    ensures r.Some? ==> pos + MinLength(segs) <= r.value.end <= |text|
    ensures r.Some? ==> |r.value.caps| == YearCount(segs)
    ensures r.Some? ==> CapsWithin(text, r.value.caps, pos, r.value.end)
    decreases |segs|, 1, 0
  {
    if segs == [] then Some(Hit(pos, []))
    else
      match segs[0]
      case Lit(s) =>
        if OccursAt(text, s, pos) then MatchSegs(segs[1..], text, pos + |s|) else None
      case LineBreak =>
        // `\r?` first tries to take the `\r`; without it, `\n` must be next.
        if OccursAt(text, "\r\n", pos) then MatchSegs(segs[1..], text, pos + 2)
        else if OccursAt(text, "\n", pos) then MatchSegs(segs[1..], text, pos + 1)
        else None
      case Year =>
        TryShapes(Shapes, segs[1..], text, pos)
  }

  /** Tries the year group at `pos` in each of `shapes` in turn, then the rest of the pattern. */
  function TryShapes(shapes: seq<Shape>, rest: seq<Segment>, text: string, pos: nat): (r: Option<Hit>)
    requires pos <= |text|
    ensures r.Some? ==> pos + 4 + MinLength(rest) <= r.value.end <= |text|
    ensures r.Some? ==> |r.value.caps| == 1 + YearCount(rest)
    ensures r.Some? ==> r.value.caps[0].start == pos
    ensures r.Some? ==> CapsWithin(text, r.value.caps, pos, r.value.end)
    decreases |rest| + 1, 0, |shapes|
  {
    if shapes == [] then None
    else
      var n := ShapeLength(shapes[0]);
      var tail :=
        if pos + n <= |text| && FitsShape(text[pos..pos + n], shapes[0])
        then MatchSegs(rest, text, pos + n) else None;
      if tail.Some? then
        FitsShapeIsYearToken(text[pos..pos + n], shapes[0]);
        Some(Hit(tail.value.end, [Span(pos, pos + n)] + tail.value.caps))
      else TryShapes(shapes[1..], rest, text, pos)
  }

  /** A literal segment consumes its own text. */
  lemma MatchLitStep(lit: string, rest: seq<Segment>, text: string, pos: nat)
    requires OccursAt(text, lit, pos)
    ensures MatchSegs([Lit(lit)] + rest, text, pos) == MatchSegs(rest, text, pos + |lit|)
  {
    assert ([Lit(lit)] + rest)[1..] == rest;
  }

  /** A literal segment fails where its text does not occur. */
  lemma MatchLitFails(lit: string, rest: seq<Segment>, text: string, pos: nat)
    requires pos <= |text| && !OccursAt(text, lit, pos)
    ensures MatchSegs([Lit(lit)] + rest, text, pos) == None
  {
    assert ([Lit(lit)] + rest)[0] == Lit(lit);
  }

  /** A year group hands the rest of the pattern to the shape alternatives. */
  lemma MatchYearStep(rest: seq<Segment>, text: string, pos: nat)
    requires pos <= |text|
    ensures MatchSegs([Year] + rest, text, pos) == TryShapes(Shapes, rest, text, pos)
  {
    assert ([Year] + rest)[1..] == rest;
  }

  /** Regrouping a pattern after its first segment. */
  lemma ConsAppend(x: Segment, a: seq<Segment>, b: seq<Segment>)
    ensures [x] + a + b == [x] + (a + b)
  {
  }

  /**
   * An unanchored search (`text.match(regex)`): the first start at or after
   * `from` where `segs` matches, and that match.
   */
  function SearchFrom(segs: seq<Segment>, text: string, from: nat): (r: Option<(nat, Hit)>)
    requires from <= |text|
    ensures r.Some? ==> from <= r.value.0 <= |text| && MatchSegs(segs, text, r.value.0) == Some(r.value.1)
    ensures r.Some? ==> forall s :: from <= s < r.value.0 ==> MatchSegs(segs, text, s).None?
    ensures r.None? ==> forall s :: from <= s <= |text| ==> MatchSegs(segs, text, s).None?
    decreases |text| - from
  {
    var h := MatchSegs(segs, text, from);
    if h.Some? then Some((from, h.value))
    else if from == |text| then None
    else SearchFrom(segs, text, from + 1)
  }

  /** A text with fewer characters than the pattern's literal minimum has no match. */
  lemma TooShortNoMatch(segs: seq<Segment>, text: string)
    requires |text| < MinLength(segs)
    ensures SearchFrom(segs, text, 0).None?
  {
  }

  /** The literal prefix of a pattern fixes where its first year group starts. */
  lemma FirstCapAfterLiteral(prefix: string, rest: seq<Segment>, text: string, pos: nat)
    requires pos <= |text|
    requires MatchSegs([Lit(prefix), Year] + rest, text, pos).Some?
    ensures var h := MatchSegs([Lit(prefix), Year] + rest, text, pos).value;
            |h.caps| > 0 && h.caps[0].start == pos + |prefix| && OccursAt(text, prefix, pos)
  {
    var segs := [Lit(prefix), Year] + rest;
    assert segs[1..] == [Year] + rest;
    assert ([Year] + rest)[1..] == rest;
  }

  /** The year group can take the shape `sh` at `pos` and the rest of the pattern can follow it. */
  predicate ShapeLeads(sh: Shape, rest: seq<Segment>, text: string, pos: nat)
    requires pos <= |text|
  {
    && pos + ShapeLength(sh) <= |text|
    && FitsShape(text[pos..pos + ShapeLength(sh)], sh)
    && MatchSegs(rest, text, pos + ShapeLength(sh)).Some?
  }

  /**
   * The year group takes the first shape, in backtracking order, that lets
   * the rest of the pattern match, and the match goes on as the rest's match
   * after it; there is no match exactly when no shape leads anywhere.
   */
  lemma TryShapesFirstFit(shapes: seq<Shape>, rest: seq<Segment>, text: string, pos: nat)
    requires pos <= |text|
    ensures var r := TryShapes(shapes, rest, text, pos);
            r.None? <==> forall i :: 0 <= i < |shapes| ==> !ShapeLeads(shapes[i], rest, text, pos)
    ensures var r := TryShapes(shapes, rest, text, pos);
            r.Some? ==>
              exists i :: 0 <= i < |shapes| && ShapeLeads(shapes[i], rest, text, pos) &&
                (forall j :: 0 <= j < i ==> !ShapeLeads(shapes[j], rest, text, pos)) &&
                var n := ShapeLength(shapes[i]);
                var tail := MatchSegs(rest, text, pos + n).value;
                r.value == Hit(tail.end, [Span(pos, pos + n)] + tail.caps)
  {
    TryShapesNone(shapes, rest, text, pos);
    if TryShapes(shapes, rest, text, pos).Some? {
      var i := FirstLeadingShape(shapes, rest, text, pos);
    }
  }

  /** No shape leads anywhere exactly when the year group fails. */
  lemma {:induction false} TryShapesNone(shapes: seq<Shape>, rest: seq<Segment>, text: string, pos: nat)
    requires pos <= |text|
    ensures TryShapes(shapes, rest, text, pos).None? <==> forall i :: 0 <= i < |shapes| ==> !ShapeLeads(shapes[i], rest, text, pos)
    decreases |shapes|
  {
    if shapes != [] && !ShapeLeads(shapes[0], rest, text, pos) {
      TryShapesNone(shapes[1..], rest, text, pos);
      ShapesShifted(shapes, rest, text, pos);
    }
  }

  /** The index of the shape the year group takes: the first that leads somewhere. */
  lemma {:induction false} FirstLeadingShape(shapes: seq<Shape>, rest: seq<Segment>, text: string, pos: nat) returns (i: nat)
    requires pos <= |text| && TryShapes(shapes, rest, text, pos).Some?
    ensures i < |shapes| && ShapeLeads(shapes[i], rest, text, pos)
    ensures forall j :: 0 <= j < i ==> !ShapeLeads(shapes[j], rest, text, pos)
    ensures var n := ShapeLength(shapes[i]);
            var tail := MatchSegs(rest, text, pos + n).value;
            TryShapes(shapes, rest, text, pos).value == Hit(tail.end, [Span(pos, pos + n)] + tail.caps)
    decreases |shapes|
  {
    if ShapeLeads(shapes[0], rest, text, pos) {
      i := 0;
    } else {
      ShapesShifted(shapes, rest, text, pos);
      var k := FirstLeadingShape(shapes[1..], rest, text, pos);
      i := k + 1;
    }
  }

  /** With the first shape leading nowhere, the leading shapes are those of the tail, one index on. */
  lemma ShapesShifted(shapes: seq<Shape>, rest: seq<Segment>, text: string, pos: nat)
    requires pos <= |text| && shapes != [] && !ShapeLeads(shapes[0], rest, text, pos)
    ensures TryShapes(shapes, rest, text, pos) == TryShapes(shapes[1..], rest, text, pos)
    ensures forall i :: 1 <= i < |shapes| ==> shapes[i] == shapes[1..][i - 1]
  {
  }

  /**
   * A year group accepts `text` at `pos` whenever some shape fits there and
   * the rest of the pattern can follow it: backtracking misses no way through.
   */
  lemma TryShapesComplete(shapes: seq<Shape>, k: nat, rest: seq<Segment>, text: string, pos: nat)
    requires pos <= |text|
    requires k < |shapes|
    requires pos + ShapeLength(shapes[k]) <= |text|
    requires FitsShape(text[pos..pos + ShapeLength(shapes[k])], shapes[k])
    requires MatchSegs(rest, text, pos + ShapeLength(shapes[k])).Some?
    ensures TryShapes(shapes, rest, text, pos).Some?
  {
    assert ShapeLeads(shapes[k], rest, text, pos);
    TryShapesNone(shapes, rest, text, pos);
  }
}
