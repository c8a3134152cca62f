/**
 * The leaderboard client of the minigame: HTML escaping of player names,
 * ordering of the rows that `loadScores` receives, and the numbered list
 * that `renderScores` shows.
 */
module ScoreClient {
  import opened Wrappers
  import Sorting

  // ------------------------------------------------------------- escaping

  /** The characters `escapeHtml` replaces. */
  predicate Special(c: char) {
    c == '&' || c == '<' || c == '>' || c == '"' || c == '\''
  }

  /** The entity for one character; any other character stands for itself. */
  function EscapeChar(c: char): (e: string)
    ensures !Special(c) ==> e == [c]
    ensures Special(c) ==> |e| >= 4 && e[0] == '&' && e[|e| - 1] == ';'
  {
    match c
    case '&' => "&amp;"
    case '<' => "&lt;"
    case '>' => "&gt;"
    case '"' => "&quot;"
    case '\'' => "&#39;"
    case _ => [c]
  }

  /**
   * Every character replaced by its entity, in order. Escaping never shortens,
   * and decoding the entities recovers the input.
   */
  function Escape(s: string): (r: string)
    ensures |r| >= |s|
    ensures Unescape(r) == s
  {
    if s == [] then []
    else
      var rest := Escape(s[1..]);
      UnescapeStep(s[0], rest);
      assert s == [s[0]] + s[1..];
      EscapeChar(s[0]) + rest
  }

  /**
   * `escapeHtml(s)`: a missing name (None) gives "". The result holds no raw
   * `<`, `>`, `"` or `'`, and decoding it gives back the name.
   */
  function EscapeHtml(s: Option<string>): (r: string)
    ensures s.None? ==> r == []
    ensures forall i :: 0 <= i < |r| ==> !(Special(r[i]) && r[i] != '&')
    ensures Unescape(r) == s.GetOr([])
  {
    match s
    case None => []
    case Some(v) => EscapeNoRaw(v); Escape(v)
  }

  /** True when `t` starts with `p`. */
  predicate StartsWith(t: string, p: string) {
    |p| <= |t| && t[..|p|] == p
  }

  /** Decodes the five entities, left to right; every other character stands for itself. Decoding never lengthens. */
  function Unescape(t: string): (r: string)
    ensures |r| <= |t|
    decreases |t|
  {
    if t == [] then []
    else if StartsWith(t, "&amp;") then ['&'] + Unescape(t[5..])
    else if StartsWith(t, "&lt;") then ['<'] + Unescape(t[4..])
    else if StartsWith(t, "&gt;") then ['>'] + Unescape(t[4..])
    else if StartsWith(t, "&quot;") then ['"'] + Unescape(t[6..])
    else if StartsWith(t, "&#39;") then ['\''] + Unescape(t[5..])
    else [t[0]] + Unescape(t[1..])
  }

  /** Decoding one escaped character in front of any text gives back that character. */
  lemma UnescapeStep(c: char, rest: string)
    ensures Unescape(EscapeChar(c) + rest) == [c] + Unescape(rest)
  {
    var e := EscapeChar(c);
    var t := e + rest;
    assert t[..|e|] == e && t[|e|..] == rest;
    if !Special(c) {
      assert t[0] == c;
      assert !StartsWith(t, "&amp;") && !StartsWith(t, "&lt;") && !StartsWith(t, "&gt;")
        && !StartsWith(t, "&quot;") && !StartsWith(t, "&#39;");
    } else {
      // the entities differ in their second character
      assert t[1] == e[1];
      if c != '&' { assert !StartsWith(t, "&amp;") by { if |t| >= 5 { assert t[..5][1] != 'a'; } } }
      if c != '<' { assert !StartsWith(t, "&lt;") by { if |t| >= 4 { assert t[..4][1] != 'l'; } } }
      if c != '>' { assert !StartsWith(t, "&gt;") by { if |t| >= 4 { assert t[..4][1] != 'g'; } } }
      if c != '"' { assert !StartsWith(t, "&quot;") by { if |t| >= 6 { assert t[..6][1] != 'q'; } } }
    }
  }

  /** The output holds no raw `<`, `>`, `"` or `'`. */
  lemma {:induction false} EscapeNoRaw(s: string)
    ensures forall i :: 0 <= i < |Escape(s)| ==> !(Special(Escape(s)[i]) && Escape(s)[i] != '&')
  {
    if s != [] {
      EscapeNoRaw(s[1..]);
      var e, r := EscapeChar(s[0]), Escape(s[1..]);
      assert Escape(s) == e + r;
      assert NoRaw(e) by {
        if Special(s[0]) {
          assert e == "&amp;" || e == "&lt;" || e == "&gt;" || e == "&quot;" || e == "&#39;";
        }
      }
      NoRawConcat(e, r);
    }
  }

  /** No raw `<`, `>`, `"` or `'` in t. */
  predicate NoRaw(t: string) {
    forall i :: 0 <= i < |t| ==> !(Special(t[i]) && t[i] != '&')
  }

  /** Two texts without raw markup join into one. */
  lemma NoRawConcat(a: string, b: string)
    requires NoRaw(a) && NoRaw(b)
    ensures NoRaw(a + b)
  {
    forall i | 0 <= i < |a + b| ensures !(Special((a + b)[i]) && (a + b)[i] != '&') {
      if i >= |a| {
        assert (a + b)[i] == b[i - |a|];
      }
    }
  }

  /** Each special character lengthens the text by at least three. */
  lemma {:induction false} EscapeLength(s: string)
    ensures forall i :: 0 <= i < |s| && Special(s[i]) ==> |Escape(s)| >= |s| + 3
  {
    if s != [] {
      EscapeLength(s[1..]);
      forall i | 0 <= i < |s| && Special(s[i]) ensures |Escape(s)| >= |s| + 3 {
        if i > 0 {
          assert s[1..][i - 1] == s[i];
        }
      }
    }
  }

  /** Escaping leaves a text unchanged exactly when it holds no special character. */
  lemma {:induction false} EscapeFixed(s: string)
    ensures Escape(s) == s <==> forall i :: 0 <= i < |s| ==> !Special(s[i])
  {
    EscapeLength(s);
    if s != [] && forall i :: 0 <= i < |s| ==> !Special(s[i]) {
      assert forall i :: 0 <= i < |s[1..]| ==> !Special(s[1..][i]);
      EscapeFixed(s[1..]);
      assert s == [s[0]] + s[1..];
    }
  }

  // ------------------------------------------------------------ leaderboard

  /** A row of `/api/scores` as the client receives it. */
  datatype Row = Row(name: Option<string>, score: int, ts: int)

  function ScoreOf(r: Row): int { r.score }

  /**
   * `loadScores`: `payload` is the parsed response when the request succeeded
   * and the body is an array, None otherwise. What is handed to `render` is
   * nothing for a failed load, and otherwise the payload's rows permuted into
   * descending score order.
   */
  function LoadScores(payload: Option<seq<Row>>): (rows: seq<Row>)
    ensures forall i, j :: 0 <= i < j < |rows| ==> rows[i].score >= rows[j].score
    ensures payload.None? ==> rows == []
    ensures payload.Some? ==> multiset(rows) == multiset(payload.value)
  {
    match payload
    case None => []
    case Some(data) =>
      Sorting.SortDesc(data, ScoreOf)
  }

  /** One list item: its rank label, the escaped name and the score. */
  datatype Item = Item(rank: nat, name: string, score: int)

  /** What the board shows: the empty marker, or a numbered list. */
  datatype Board = EmptyBoard | Listed(items: seq<Item>)

  function ItemsFrom(rows: seq<Row>, first: nat): (items: seq<Item>)
    ensures |items| == |rows|
    ensures forall i :: 0 <= i < |rows| ==>
      items[i] == Item(first + i + 1, EscapeHtml(rows[i].name), rows[i].score)
  {
    if rows == [] then []
    else [Item(first + 1, EscapeHtml(rows[0].name), rows[0].score)] + ItemsFrom(rows[1..], first + 1)
  }

  /**
   * `renderScores`: the empty marker exactly for no rows; otherwise one item
   * per row, ranked 1, 2, ... in row order, each with the row's score and a
   * name that holds no raw markup and decodes to the row's name.
   */
  function RenderScores(rows: seq<Row>): (b: Board)
    ensures b.EmptyBoard? <==> rows == []
    ensures b.Listed? ==>
      && |b.items| == |rows|
      && (forall i :: 0 <= i < |rows| ==> b.items[i].rank == i + 1 && b.items[i].score == rows[i].score)
      && (forall i :: 0 <= i < |rows| ==> Unescape(b.items[i].name) == rows[i].name.GetOr([]))
      && (forall i, k :: 0 <= i < |rows| && 0 <= k < |b.items[i].name| ==>
            !(Special(b.items[i].name[k]) && b.items[i].name[k] != '&'))
  {
    if rows == [] then EmptyBoard else Listed(ItemsFrom(rows, 0))
  }

  /**
   * Rendering loaded scores numbers the rows 1, 2, ... in descending score
   * order, none of the shown names holds a raw `<`, `>`, `"` or `'`, and each
   * shown name decodes to the row's name.
   */
  lemma RenderedBoard(payload: Option<seq<Row>>)
    ensures var rows := LoadScores(payload);
      match RenderScores(rows)
      case EmptyBoard => rows == []
      case Listed(items) =>
        |items| == |rows| > 0
        && (forall i :: 0 <= i < |items| ==> items[i].rank == i + 1)
        && (forall i, j :: 0 <= i < j < |items| ==> items[i].score >= items[j].score)
        && (forall i :: 0 <= i < |items| ==> Unescape(items[i].name) == rows[i].name.GetOr([]))
        && (forall i, k :: 0 <= i < |items| && 0 <= k < |items[i].name| ==>
              !(Special(items[i].name[k]) && items[i].name[k] != '&'))
  {
  }
}
