/**
 * String helpers shared by the modelled files: JavaScript's and Python's notions
 * of white space, `trim`/`strip`, ASCII lower-casing, and splitting on a separator.
 * Strings are sequences of Unicode code points.
 */
module Text {

  /** Characters JavaScript's `String.prototype.trim` and the regex class `\s` treat as white space. */
  predicate IsJsSpace(c: char) {
    var k := c as int;
    (9 <= k <= 13) || k == 32 || k == 0xA0 || k == 0x1680 || (0x2000 <= k <= 0x200A)
    || k == 0x2028 || k == 0x2029 || k == 0x202F || k == 0x205F || k == 0x3000 || k == 0xFEFF
  }

  /** Characters Python's `str.strip()` removes (those for which `str.isspace()` holds). */
  predicate IsPySpace(c: char) {
    var k := c as int;
    (9 <= k <= 13) || (0x1C <= k <= 0x20) || k == 0x85 || k == 0xA0 || k == 0x1680
    || (0x2000 <= k <= 0x200A) || k == 0x2028 || k == 0x2029 || k == 0x202F
    || k == 0x205F || k == 0x3000
  }

  /** The first index at or after `i` whose character does not satisfy `ws` (|s| when there is none). */
  function SkipForward(s: string, ws: char -> bool, i: nat): (b: nat)
    requires i <= |s|
    ensures i <= b <= |s|
    ensures forall k :: i <= k < b ==> ws(s[k])
    ensures b < |s| ==> !ws(s[b])
    decreases |s| - i
  {
    if i == |s| || !ws(s[i]) then i else SkipForward(s, ws, i + 1)
  }

  /** The least index e in [lo, j] such that every character in [e, j) satisfies `ws`. */
  function SkipBackward(s: string, ws: char -> bool, lo: nat, j: nat): (e: nat)
    requires lo <= j <= |s|
    ensures lo <= e <= j
    ensures forall k :: e <= k < j ==> ws(s[k])
    ensures e > lo ==> !ws(s[e - 1])
    decreases j
  {
    if j == lo || !ws(s[j - 1]) then j else SkipBackward(s, ws, lo, j - 1)
  }

  /** SkipForward stops at the first character from i on that does not satisfy `ws`. */
  lemma SkipForwardStops(s: string, ws: char -> bool, i: nat, d: nat)
    requires i <= d <= |s|
    requires forall k :: i <= k < d ==> ws(s[k])
    requires d < |s| ==> !ws(s[d])
    ensures SkipForward(s, ws, i) == d
  {
  }

  /**
   * Where the trimmed text starts and ends: everything before the start
   * and after the end satisfies `ws`, and the kept slice, when not empty,
   * starts and ends with a character that does not.
   */
  function TrimBounds(s: string, ws: char -> bool): (b: (nat, nat))
    ensures b.0 <= b.1 <= |s|
    ensures forall k :: 0 <= k < b.0 ==> ws(s[k])
    ensures forall k :: b.1 <= k < |s| ==> ws(s[k])
    ensures b.0 < b.1 ==> !ws(s[b.0]) && !ws(s[b.1 - 1])
    ensures b.0 == b.1 ==> forall k :: 0 <= k < |s| ==> ws(s[k])
  {
    var start := SkipForward(s, ws, 0);
    (start, SkipBackward(s, ws, start, |s|))
  }

  /** r is the piece of s starting at i, and everything before and after it is white space. */
  predicate CutAt(s: string, r: string, ws: char -> bool, i: int) {
    0 <= i && i + |r| <= |s| && r == s[i..i + |r|]
    && (forall k :: 0 <= k < i ==> ws(s[k])) && (forall k :: i + |r| <= k < |s| ==> ws(s[k]))
  }

  /** r is s with only white space (as decided by `ws`) cut from its two ends. */
  predicate CutAtEnds(s: string, r: string, ws: char -> bool) {
    exists i :: 0 <= i <= |s| && CutAt(s, r, ws, i)
  }

  /**
   * Removes white space (as decided by `ws`) from both ends: the result is
   * the text with only white space cut from its ends, neither starts nor ends
   * with white space, and is empty exactly when the text is all white space.
   */
  function TrimBy(s: string, ws: char -> bool): (r: string)
    ensures |r| <= |s| && Contains(s, r) && CutAtEnds(s, r, ws)
    ensures r != [] ==> !ws(r[0]) && !ws(r[|r| - 1])
    ensures r == [] <==> forall k :: 0 <= k < |s| ==> ws(s[k])
  {
    var b := TrimBounds(s, ws);
    assert OccursAt(s, s[b.0..b.1], b.0);
    assert CutAt(s, s[b.0..b.1], ws, b.0);
    s[b.0..b.1]
  }

  /** `s.trim()` in JavaScript: only JavaScript white space is cut, and none is left at either end. */
  function Trim(s: string): (r: string)
    ensures |r| <= |s| && Contains(s, r) && CutAtEnds(s, r, IsJsSpace)
    ensures r != [] ==> !IsJsSpace(r[0]) && !IsJsSpace(r[|r| - 1])
    ensures r == [] <==> forall k :: 0 <= k < |s| ==> IsJsSpace(s[k])
  {
    TrimBy(s, IsJsSpace)
  }

  /** `s.strip()` in Python: only Python white space is cut, and none is left at either end. */
  function Strip(s: string): (r: string)
    ensures |r| <= |s| && Contains(s, r) && CutAtEnds(s, r, IsPySpace)
    ensures r != [] ==> !IsPySpace(r[0]) && !IsPySpace(r[|r| - 1])
    ensures r == [] <==> forall k :: 0 <= k < |s| ==> IsPySpace(s[k])
  {
    TrimBy(s, IsPySpace)
  }

  /** The ends-only cut with no white space left at the ends is unique: it is the trim. */
  lemma CutAtEndsUnique(s: string, r: string, ws: char -> bool)
    requires CutAtEnds(s, r, ws)
    requires r != [] ==> !ws(r[0]) && !ws(r[|r| - 1])
    requires r == [] <==> forall k :: 0 <= k < |s| ==> ws(s[k])
    ensures r == TrimBy(s, ws)
  {
    var t := TrimBy(s, ws);
    var b := TrimBounds(s, ws);
    var i :| 0 <= i <= |s| && CutAt(s, r, ws, i);
    if r != [] {
      assert !ws(s[i]) && !ws(s[i + |r| - 1]);
      assert t != [];
      assert b.0 == i;
      assert b.1 == i + |r|;
    }
  }

  /** Trimming twice is the same as trimming once. */
  lemma TrimByIdempotent(s: string, ws: char -> bool)
    ensures TrimBy(TrimBy(s, ws), ws) == TrimBy(s, ws)
  {
    var r := TrimBy(s, ws);
    if r != [] {
      assert r[0] == s[TrimBounds(s, ws).0];
      assert SkipForward(r, ws, 0) == 0;
      assert r[|r| - 1] == s[TrimBounds(s, ws).1 - 1];
      assert SkipBackward(r, ws, 0, |r|) == |r|;
    }
  }

  /** A text that neither starts nor ends with white space is its own trim. */
  lemma TrimByNoEnds(s: string, ws: char -> bool)
    requires s != [] ==> !ws(s[0]) && !ws(s[|s| - 1])
    ensures TrimBy(s, ws) == s
  {
    if s != [] {
      assert SkipForward(s, ws, 0) == 0;
      assert SkipBackward(s, ws, 0, |s|) == |s|;
    }
  }

  /** `toLowerCase` on the ASCII letters; every other character is kept. */
  function LowerChar(c: char): (d: char)
    ensures 'A' <= c <= 'Z' ==> d as int == c as int + 32
    ensures !('A' <= c <= 'Z') ==> d == c
  {
    if 'A' <= c <= 'Z' then ((c as int) + 32) as char else c
  }

  function Lower(s: string): (r: string)
    ensures |r| == |s|
    ensures forall i {:trigger r[i]} :: 0 <= i < |s| ==> r[i] == LowerChar(s[i])
  {
    if s == [] then [] else [LowerChar(s[0])] + Lower(s[1..])
  }

  /** Lower-casing is idempotent. */
  lemma LowerIdempotent(s: string)
    ensures Lower(Lower(s)) == Lower(s)
  {
  }

  /** A text without ASCII capitals is already lower case. */
  lemma LowerNoUpper(s: string)
    requires forall i :: 0 <= i < |s| ==> !('A' <= s[i] <= 'Z')
    ensures Lower(s) == s
  {
  }

  /** True when `t` occurs in `s` at position `p`. */
  predicate OccursAt(s: string, t: string, p: int) {
    0 <= p && p + |t| <= |s| && s[p..p + |t|] == t
  }

  /** `s.includes(t)`. */
  predicate Contains(s: string, t: string) {
    exists p :: 0 <= p <= |s| - |t| && OccursAt(s, t, p)
  }
}

/** Splitting a string on a separator character, as `String.prototype.split` does for a one-character separator. */
module Split {

  /** `s.split(sep)` for a one-character separator: the maximal pieces between separators, in order. */
  function SplitOn(s: string, sep: char): (r: seq<string>)
    ensures |r| >= 1
    decreases |s|
  {
    if sep !in s then [s]
    else
      var i := IndexOf(s, sep);
      [s[..i]] + SplitOn(s[i + 1..], sep)
  }

  /** Position of the first `c` in `s`. */
  function IndexOf(s: string, c: char): (i: nat)
    requires c in s
    ensures i < |s| && s[i] == c && c !in s[..i]
  {
    if s[0] == c then 0 else 1 + IndexOf(s[1..], c)
  }

  /** No piece produced by `SplitOn` contains the separator. */
  lemma {:induction false} SplitPiecesFree(s: string, sep: char, k: nat)
    requires k < |SplitOn(s, sep)|
    ensures sep !in SplitOn(s, sep)[k]
    decreases |s|
  {
    if sep in s {
      var i := IndexOf(s, sep);
      var rest := SplitOn(s[i + 1..], sep);
      assert SplitOn(s, sep) == [s[..i]] + rest;
      if k > 0 {
        assert SplitOn(s, sep)[k] == rest[k - 1];
        SplitPiecesFree(s[i + 1..], sep, k - 1);
      }
    }
  }

  /**
   * Joins pieces with a separator character, the inverse of `SplitOn`. The
   * text starts with the first piece, and when no piece holds the separator
   * it holds exactly one separator between each two pieces.
   */
  function JoinWith(parts: seq<string>, sep: char): (r: string)
    requires |parts| >= 1
    ensures |parts[0]| <= |r| && r[..|parts[0]|] == parts[0]
    ensures (forall k :: 0 <= k < |parts| ==> sep !in parts[k]) ==> multiset(r)[sep] == |parts| - 1
  {
    if |parts| == 1 then parts[0]
    else
      var rest := JoinWith(parts[1..], sep);
      assert (forall k :: 0 <= k < |parts| ==> sep !in parts[k]) ==>
        (forall k :: 0 <= k < |parts[1..]| ==> sep !in parts[1..][k]) && multiset(parts[0])[sep] == 0;
      var r := parts[0] + [sep] + rest;
      assert multiset(r) == multiset(parts[0]) + multiset{sep} + multiset(rest);
      assert r[..|parts[0]|] == parts[0];
      r
  }

  /** The first position holding `c` is the one `IndexOf` finds. */
  lemma IndexOfFirst(s: string, c: char, j: nat)
    requires j < |s| && s[j] == c && c !in s[..j]
    ensures IndexOf(s, c) == j
  {
    var i := IndexOf(s, c);
    assert forall k :: 0 <= k < j ==> s[..j][k] == s[k];
    assert forall k :: 0 <= k < i ==> s[..i][k] == s[k];
  }

  /** Splitting undoes joining when no piece holds the separator. */
  lemma {:induction false} JoinSplit(parts: seq<string>, sep: char)
    requires |parts| >= 1
    requires forall k :: 0 <= k < |parts| ==> sep !in parts[k]
    ensures SplitOn(JoinWith(parts, sep), sep) == parts
    decreases |parts|
  {
    if |parts| > 1 {
      assert parts == [parts[0]] + parts[1..];
      var rest := JoinWith(parts[1..], sep);
      var s := parts[0] + [sep] + rest;
      assert s[|parts[0]|] == sep;
      assert s[..|parts[0]|] == parts[0];
      IndexOfFirst(s, sep, |parts[0]|);
      assert s[|parts[0]| + 1..] == rest;
      assert SplitOn(s, sep) == [parts[0]] + SplitOn(rest, sep);
      assert forall k :: 0 <= k < |parts[1..]| ==> sep !in parts[1..][k];
      JoinSplit(parts[1..], sep);
    }
  }

  /** Splitting loses nothing: joining the pieces back with the separator gives the input. */
  lemma {:induction false} SplitJoin(s: string, sep: char)
    ensures JoinWith(SplitOn(s, sep), sep) == s
    decreases |s|
  {
    if sep in s {
      var i := IndexOf(s, sep);
      var rest := SplitOn(s[i + 1..], sep);
      var parts := [s[..i]] + rest;
      SplitJoin(s[i + 1..], sep);
      assert parts[1..] == rest;
      assert JoinWith(parts, sep) == s[..i] + [sep] + JoinWith(rest, sep);
      assert s == s[..i] + [sep] + s[i + 1..];
    }
  }
}
