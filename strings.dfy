/** The Option wrapper used for JavaScript's `undefined` / `null` results. */
module Wrappers {
  datatype Option<+T> = None | Some(value: T)
}

/**
 * The JavaScript string operations the extension relies on, over `seq<char>`
 * (one `char` per Unicode scalar value; offsets agree with JavaScript's
 * UTF-16 offsets for text within the Basic Multilingual Plane).
 */
module Strings {

  /** `sub` occurs in `s` starting at offset `k`. */
  predicate OccursAt(s: string, sub: string, k: nat) {
    k + |sub| <= |s| && s[k..k + |sub|] == sub
  }

  /** An occurrence cuts a string into what precedes it, itself and what follows. */
  lemma AroundOccurrence(s: string, sub: string, k: nat)
    requires OccursAt(s, sub, k)
    ensures s == s[..k] + sub + s[k + |sub|..]
  {
    ThreeParts(s, k, k + |sub|);
  }

  /** `s.startsWith(p)` */
  predicate StartsWith(s: string, p: string) {
    OccursAt(s, p, 0)
  }

  /** A string does not start with `p` when they differ at some index of both. */
  lemma DifferNotStartsWith(s: string, p: string, i: nat)
    requires i < |s| && i < |p| && s[i] != p[i]
    ensures !StartsWith(s, p)
  {
    if |p| <= |s| {
      assert s[0..|p|][i] == s[i];
    }
  }

  lemma ThreeParts<T>(s: seq<T>, lo: nat, hi: nat)
    requires lo <= hi <= |s|
    ensures s == s[..lo] + s[lo..hi] + s[hi..]
  {
  }

  /** `s.indexOf(sub, from)`: the first occurrence at or after `from`, or -1. */
  function IndexOfFrom(s: string, sub: string, from: nat): (r: int)
    requires from <= |s|
    ensures r == -1 || (from <= r <= |s| && OccursAt(s, sub, r))
    ensures r == -1 ==> forall k :: from <= k <= |s| ==> !OccursAt(s, sub, k)
    ensures r != -1 ==> forall k :: from <= k < r ==> !OccursAt(s, sub, k)
    decreases |s| - from
  {
    if OccursAt(s, sub, from) then from
    else if from == |s| then -1
    else IndexOfFrom(s, sub, from + 1)
  }

  /** `s.indexOf(sub)` */
  function IndexOf(s: string, sub: string): (r: int)
    ensures r == -1 || (0 <= r <= |s| && OccursAt(s, sub, r))
    ensures r == -1 <==> forall k :: 0 <= k <= |s| ==> !OccursAt(s, sub, k)
    ensures r != -1 ==> forall k :: 0 <= k < r ==> !OccursAt(s, sub, k)
  {
    IndexOfFrom(s, sub, 0)
  }

  /** An occurrence that ends within the first `end` characters is one in that prefix. */
  lemma OccursInPrefix(s: string, end: nat, sub: string, k: nat)
    requires end <= |s| && k + |sub| <= end && OccursAt(s, sub, k)
    ensures OccursAt(s[..end], sub, k)
  {
    assert s[..end][k..k + |sub|] == s[k..k + |sub|];
  }

  /** An occurrence inside the first `end` characters of `s` is an occurrence in `s`. */
  lemma OccursInPrefixOccurs(s: string, end: nat, sub: string, k: nat)
    requires end <= |s| && OccursAt(s[..end], sub, k)
    ensures OccursAt(s, sub, k)
  {
    assert s[..end][k..k + |sub|] == s[k..k + |sub|];
  }

  /** No occurrence before `k` in `s` means none before `k` in any prefix of `s`. */
  lemma NoEarlierInPrefix(s: string, end: nat, sub: string, k: nat)
    requires end <= |s|
    requires forall j :: 0 <= j < k ==> !OccursAt(s, sub, j)
    ensures forall j :: 0 <= j < k ==> !OccursAt(s[..end], sub, j)
  {
    forall j | 0 <= j < k ensures !OccursAt(s[..end], sub, j) {
      if OccursAt(s[..end], sub, j) {
        OccursInPrefixOccurs(s, end, sub, j);
      }
    }
  }

  /** A slice of `s` inside its first `end` characters occurs there, where it was. */
  lemma SliceOccursInPrefix(s: string, end: nat, a: nat, b: nat)
    requires a <= b <= end <= |s|
    ensures OccursAt(s[..end], s[a..b], a)
  {
    assert s[..end][a..b] == s[a..b];
  }

  /** `s.includes(sub)` */
  predicate Contains(s: string, sub: string) {
    IndexOf(s, sub) >= 0
  }

  /** A string without the first character of `sub` has no occurrence of `sub`. */
  lemma NoOccurrenceWithout(s: string, sub: string)
    requires |sub| > 0 && sub[0] !in s
    ensures forall k :: 0 <= k <= |s| ==> !OccursAt(s, sub, k)
    ensures !Contains(s, sub)
  {
    forall k | 0 <= k <= |s| ensures !OccursAt(s, sub, k) {
      if k + |sub| <= |s| {
        assert s[k..k + |sub|][0] == s[k];
      }
    }
  }

  /** An occurrence at offset `k` that is preceded by none is the one `indexOf` reports. */
  lemma IndexOfFirstOccurrence(s: string, sub: string, k: nat)
    requires OccursAt(s, sub, k)
    requires forall j :: 0 <= j < k ==> !OccursAt(s, sub, j)
    ensures IndexOf(s, sub) == k
  {
  }

  /** `s.lastIndexOf(c)` for a one-character argument. */
  function LastIndexOfChar(s: string, c: char): (r: int)
    ensures -1 <= r < |s|
    ensures r == -1 <==> c !in s
    ensures r != -1 ==> s[r] == c && c !in s[r + 1..]
  {
    if |s| == 0 then -1
    else if s[|s| - 1] == c then |s| - 1
    else LastIndexOfChar(s[..|s| - 1], c)
  }

  /** A `c` with none after it is the last one. */
  lemma {:induction false} LastIndexOfCharAt(s: string, c: char, k: nat)
    requires k < |s| && s[k] == c && c !in s[k + 1..]
    ensures LastIndexOfChar(s, c) == k
  {
    if k < |s| - 1 {
      var t := s[..|s| - 1];
      assert s[k + 1..] == t[k + 1..] + [s[|s| - 1]];
      LastIndexOfCharAt(t, c, k);
    }
  }

  /** `s.split(sep)` for a one-character separator. */
  function Split(s: string, sep: char): (parts: seq<string>)
    ensures |parts| >= 1
    ensures forall i :: 0 <= i < |parts| ==> sep !in parts[i]
    ensures Join(parts, sep) == s
  {
    if s == [] then [""]
    else
      var rest := Split(s[1..], sep);
      if s[0] == sep then [""] + rest
      else [[s[0]] + rest[0]] + rest[1..]
  }

  /** `parts.join(sep)` for a one-character separator. */
  function Join(parts: seq<string>, sep: char): string
    requires |parts| >= 1
  {
    if |parts| == 1 then parts[0] else parts[0] + [sep] + Join(parts[1..], sep)
  }

  /** Joining parts that do not contain the separator, then splitting, gives the parts back. */
  lemma {:induction false} SplitJoin(parts: seq<string>, sep: char)
    requires |parts| >= 1
    requires forall i :: 0 <= i < |parts| ==> sep !in parts[i]
    ensures Split(Join(parts, sep), sep) == parts
    decreases |parts|, |parts[0]|
  {
    var p := parts[0];
    if |parts| == 1 {
      SplitNoSeparator(p, sep);
    } else if p == [] {
      SplitJoin(parts[1..], sep);
      SplitAtSeparator(Join(parts[1..], sep), sep);
      assert Join(parts, sep) == [sep] + Join(parts[1..], sep);
      assert parts == [""] + parts[1..];
      assert Split(Join(parts, sep), sep) == parts;
    } else {
      var shorter := [p[1..]] + parts[1..];
      forall i | 0 <= i < |shorter| ensures sep !in shorter[i] {
        if i > 0 { assert shorter[i] == parts[i]; }
      }
      SplitJoin(shorter, sep);
      JoinFirstChar(parts, shorter, sep);
      SplitAtChar(p[0], Join(shorter, sep), sep);
      assert shorter[0] == p[1..] && shorter[1..] == parts[1..];
      assert [p[0]] + p[1..] == p;
      assert [p] + parts[1..] == parts;
      assert Split(Join(parts, sep), sep) == parts;
    }
  }

  /** A leading separator splits off an empty part. */
  lemma SplitAtSeparator(rest: string, sep: char)
    ensures Split([sep] + rest, sep) == [""] + Split(rest, sep)
  {
    assert ([sep] + rest)[1..] == rest;
  }

  /** A leading non-separator character joins the first part. */
  lemma SplitAtChar(c: char, rest: string, sep: char)
    requires c != sep
    ensures var r := Split(rest, sep); Split([c] + rest, sep) == [[c] + r[0]] + r[1..]
  {
    assert ([c] + rest)[1..] == rest;
  }

  /** Joining parts whose first part is non-empty: its first character, then the rest joined. */
  lemma JoinFirstChar(parts: seq<string>, shorter: seq<string>, sep: char)
    requires |parts| >= 1 && parts[0] != [] && shorter == [parts[0][1..]] + parts[1..]
    ensures Join(parts, sep) == [parts[0][0]] + Join(shorter, sep)
  {
    if |parts| > 1 {
      assert shorter[1..] == parts[1..];
    }
  }

  /** A string without the separator splits into itself. */
  lemma {:induction false} SplitNoSeparator(s: string, sep: char)
    requires sep !in s
    ensures Split(s, sep) == [s]
  {
    if s != [] {
      SplitNoSeparator(s[1..], sep);
      assert [s[0]] + s[1..] == s;
    }
  }

  /** `s.replace(/[()]/g, '')`: every parenthesis removed. */
  function RemoveParens(s: string): (r: string)
    ensures '(' !in r && ')' !in r
    ensures |r| <= |s|
  {
    if s == [] then []
    else if s[0] == '(' || s[0] == ')' then RemoveParens(s[1..])
    else [s[0]] + RemoveParens(s[1..])
  }

  lemma {:induction false} RemoveParensAppend(a: string, b: string)
    ensures RemoveParens(a + b) == RemoveParens(a) + RemoveParens(b)
  {
    if a == [] {
      assert a + b == b;
    } else {
      assert (a + b)[0] == a[0];
      assert (a + b)[1..] == a[1..] + b;
      RemoveParensAppend(a[1..], b);
    }
  }

  lemma {:induction false} RemoveParensNone(s: string)
    requires '(' !in s && ')' !in s
    ensures RemoveParens(s) == s
  {
    if s != [] {
      RemoveParensNone(s[1..]);
      assert [s[0]] + s[1..] == s;
    }
  }

  /**
   * `s.replace(/\$\{year\}/g, rep)` and its kind: every leftmost,
   * non-overlapping occurrence of the non-empty `pat` replaced by `rep`.
   */
  function ReplaceAll(s: string, pat: string, rep: string): string
    requires |pat| > 0
    decreases |s|
  {
    if StartsWith(s, pat) then rep + ReplaceAll(s[|pat|..], pat, rep)
    else if s == [] then []
    else [s[0]] + ReplaceAll(s[1..], pat, rep)
  }

  /** Up to the first occurrence of `pat`, `ReplaceAll` copies its input. */
  lemma {:induction false} ReplaceAllCopiesUpTo(s: string, pat: string, rep: string, k: nat)
    requires |pat| > 0 && k <= |s|
    requires forall j :: 0 <= j < k ==> !OccursAt(s, pat, j)
    ensures ReplaceAll(s, pat, rep) == s[..k] + ReplaceAll(s[k..], pat, rep)
  {
    if k > 0 {
      assert !OccursAt(s, pat, 0);
      forall j | 0 <= j < k - 1 ensures !OccursAt(s[1..], pat, j) {
        assert !OccursAt(s, pat, j + 1);
        if j + |pat| <= |s| - 1 {
          assert s[1..][j..j + |pat|] == s[j + 1..j + 1 + |pat|];
        }
      }
      ReplaceAllCopiesUpTo(s[1..], pat, rep, k - 1);
      assert s[1..][k - 1..] == s[k..];
      assert [s[0]] + s[1..][..k - 1] == s[..k];
    }
  }

  /** `ReplaceAll` replaces the first occurrence, then carries on after it. */
  lemma ReplaceAllAtFirst(s: string, pat: string, rep: string)
    requires |pat| > 0
    ensures IndexOf(s, pat) == -1 ==> ReplaceAll(s, pat, rep) == s
    ensures IndexOf(s, pat) != -1 ==>
              var i := IndexOf(s, pat);
              ReplaceAll(s, pat, rep) == s[..i] + rep + ReplaceAll(s[i + |pat|..], pat, rep)
  {
    var i := IndexOf(s, pat);
    if i == -1 {
      ReplaceAllCopiesUpTo(s, pat, rep, |s|);
      assert s[|s|..] == [];
      assert s[..|s|] == s;
    } else {
      ReplaceAllCopiesUpTo(s, pat, rep, i);
      assert s[i..][|pat|..] == s[i + |pat|..];
      assert s[i..][..|pat|] == s[i..i + |pat|];
    }
  }

  /** `s.replace(pat, rep)` with a string pattern: the first occurrence only. */
  function ReplaceFirst(s: string, pat: string, rep: string): (r: string)
    ensures IndexOf(s, pat) == -1 ==> r == s
    ensures IndexOf(s, pat) != -1 ==>
              var i := IndexOf(s, pat);
              |r| == |s| - |pat| + |rep| && r[..i] == s[..i] && OccursAt(r, rep, i) && r[i + |rep|..] == s[i + |pat|..]
  {
    var i := IndexOf(s, pat);
    if i == -1 then s else s[..i] + rep + s[i + |pat|..]
  }

  /**
   * JavaScript's `a < b` on strings: lexicographic on characters (on code
   * units for text within the Basic Multilingual Plane), with a proper
   * prefix ordered first.
   */
  predicate LexLess(a: string, b: string) {
    if |a| == 0 then |b| > 0
    else if |b| == 0 then false
    else if a[0] != b[0] then a[0] < b[0]
    else LexLess(a[1..], b[1..])
  }

  /** Two strings compare as their characters at the first position they differ. */
  lemma {:induction false} LexLessFirstDifference(a: string, b: string, k: nat)
    requires k < |a| && k < |b| && a[..k] == b[..k] && a[k] != b[k]
    ensures LexLess(a, b) <==> a[k] < b[k]
  {
    if k > 0 {
      assert a[0] == a[..k][0] && b[0] == b[..k][0];
      assert a[1..][..k - 1] == a[1..k] && b[1..][..k - 1] == b[1..k];
      assert a[1..k] == a[..k][1..] && b[1..k] == b[..k][1..];
      LexLessFirstDifference(a[1..], b[1..], k - 1);
    }
  }

  /** No string is before itself: `s >= s` holds. */
  lemma {:induction false} LexLessIrreflexive(s: string)
    ensures !LexLess(s, s)
  {
    if s != [] {
      LexLessIrreflexive(s[1..]);
    }
  }

  /** At most one of `a < b` and `b < a` holds. */
  lemma {:induction false} LexLessAsymmetric(a: string, b: string)
    requires LexLess(a, b)
    ensures !LexLess(b, a)
  {
    if a != [] && b != [] && a[0] == b[0] {
      LexLessAsymmetric(a[1..], b[1..]);
    }
  }

  predicate IsDigit(c: char) {
    '0' <= c <= '9'
  }

  predicate AllDigits(s: string) {
    forall i :: 0 <= i < |s| ==> IsDigit(s[i])
  }

  function Pow10(n: nat): (r: nat)
    ensures r >= 1
  {
    if n == 0 then 1 else 10 * Pow10(n - 1)
  }

  /** The number a string of decimal digits denotes. */
  function DigitsValue(s: string): (v: nat)
    requires AllDigits(s)
  {
    if s == [] then 0 else (s[0] as int - '0' as int) * Pow10(|s| - 1) + DigitsValue(s[1..])
  }

  lemma {:induction false} DigitsValueBound(s: string)
    requires AllDigits(s)
    ensures DigitsValue(s) < Pow10(|s|)
  {
    if s != [] {
      DigitsValueBound(s[1..]);
      var d := s[0] as int - '0' as int;
      var p := Pow10(|s| - 1);
      assert d <= 9;
      assert d * p <= 9 * p by { MulMono(d, 9, p); }
    }
  }

  lemma MulMono(x: int, y: int, p: nat)
    requires x <= y
    ensures x * p <= y * p
  {
  }

  /**
   * On digit strings of equal length, JavaScript's string comparison agrees
   * with the numeric comparison of the years they spell.
   */
  lemma {:induction false} LexLessIsNumeric(a: string, b: string)
    requires AllDigits(a) && AllDigits(b) && |a| == |b|
    ensures LexLess(a, b) <==> DigitsValue(a) < DigitsValue(b)
  {
    if a != [] {
      var da := a[0] as int - '0' as int;
      var db := b[0] as int - '0' as int;
      var p := Pow10(|a| - 1);
      var va := DigitsValue(a[1..]);
      var vb := DigitsValue(b[1..]);
      assert DigitsValue(a) == da * p + va;
      assert DigitsValue(b) == db * p + vb;
      DigitsValueBound(a[1..]);
      DigitsValueBound(b[1..]);
      if da == db {
        LexLessIsNumeric(a[1..], b[1..]);
      } else if da < db {
        LeadingDigitDecides(da, db, p, va, vb);
      } else {
        LeadingDigitDecides(db, da, p, vb, va);
      }
    }
  }

  /** A smaller leading digit decides the order, whatever the lower digits are. */
  lemma LeadingDigitDecides(dx: int, dy: int, p: nat, vx: nat, vy: nat)
    requires dx < dy && vx < p
    ensures dx * p + vx < dy * p + vy
  {
    MulMono(dx + 1, dy, p);
    assert (dx + 1) * p == dx * p + p;
  }

  /** ASCII letters only: see the README for the Unicode case mapping left out. */
  function ToLowerChar(c: char): char {
    if 'A' <= c <= 'Z' then (c as int - 'A' as int + 'a' as int) as char else c
  }

  /** `s.toLowerCase()` */
  function ToLower(s: string): (r: string)
    ensures |r| == |s|
    ensures forall i :: 0 <= i < |s| ==> r[i] == ToLowerChar(s[i])
  {
    if s == [] then [] else [ToLowerChar(s[0])] + ToLower(s[1..])
  }

  /** The characters `String.prototype.trim` strips: white space and line terminators. */
  predicate IsJsWhitespace(c: char) {
    c == '\t' || c == '\n' || c == '\U{000B}' || c == '\U{000C}' || c == '\r' || c == ' '
    || c == '\U{00A0}' || c == '\U{1680}' || ('\U{2000}' <= c <= '\U{200A}')
    || c == '\U{2028}' || c == '\U{2029}' || c == '\U{202F}' || c == '\U{205F}'
    || c == '\U{3000}' || c == '\U{FEFF}'
  }

  function TrimStart(s: string): (r: string)
    ensures |r| <= |s| && r == s[|s| - |r|..]
    ensures r == [] || !IsJsWhitespace(r[0])
    ensures forall i :: 0 <= i < |s| - |r| ==> IsJsWhitespace(s[i])
  {
    if s != [] && IsJsWhitespace(s[0]) then TrimStart(s[1..]) else s
  }

  function TrimEnd(s: string): (r: string)
    ensures |r| <= |s| && r == s[..|r|]
    ensures r == [] || !IsJsWhitespace(r[|r| - 1])
    ensures forall i :: |r| <= i < |s| ==> IsJsWhitespace(s[i])
  {
    if s != [] && IsJsWhitespace(s[|s| - 1]) then TrimEnd(s[..|s| - 1]) else s
  }

  /** `s.trim()` */
  function Trim(s: string): string {
    TrimEnd(TrimStart(s))
  }
}
