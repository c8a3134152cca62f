/**
 * The page helpers: the e-mail check, the booth-status colour classes and the
 * placeholder QR image, an SVG document with the text written under it.
 */
module Helpers {
  import opened Wrappers
  import Text
  import Sorting
  import ScoreClient

  // ------------------------------------------------------------ e-mail

  /** A character the class `[^\s@]` accepts. */
  predicate Plain(c: char) {
    !Text.IsJsSpace(c) && c != '@'
  }

  predicate NotDot(c: char) { c != '.' }

  /**
   * The text is `local@host.tld` with three non-empty parts made of plain
   * characters: one '@', no white space, and a '.' after the '@' that has
   * text on both sides.
   */
  ghost predicate EmailShape(s: string) {
    exists at, dot :: EmailShapeAt(s, at, dot)
  }

  /** The shape local@host.tld with the '@' at `at` and the chosen '.' at `dot`. */
  predicate EmailShapeAt(s: string, at: int, dot: int) {
    0 < at && at + 1 < dot && dot + 1 < |s| && s[at] == '@' && s[dot] == '.'
    && forall k :: 0 <= k < |s| && k != at ==> Plain(s[k])
  }

  /**
   * The regular expression `^[^\s@]+@[^\s@]+\.[^\s@]+$`, matched the way a
   * backtracking engine settles it: the local part runs up to the first
   * character that is not plain, which must be the '@'; everything after it
   * is plain, and some '.' in it has plain text on both sides.
   */
  function MatchesEmail(s: string): bool
  {
    var at := Text.SkipForward(s, Plain, 0);
    0 < at < |s| && s[at] == '@'
    && Text.SkipForward(s, Plain, at + 1) == |s|
    && at + 2 < |s|
    && Text.SkipBackward(s, NotDot, at + 2, |s| - 1) > at + 2
  }

  /** The matcher accepts exactly the texts of the shape local@host.tld. */
  lemma MatchesEmailShape(s: string)
    ensures MatchesEmail(s) <==> EmailShape(s)
  {
    var at := Text.SkipForward(s, Plain, 0);
    if MatchesEmail(s) {
      var e := Text.SkipBackward(s, NotDot, at + 2, |s| - 1);
      var dot := e - 1;
      assert s[dot] == '.';
      assert EmailShapeAt(s, at, dot) by {
      assert forall k :: 0 <= k < |s| && k != at ==> Plain(s[k]) by {
        forall k | 0 <= k < |s| && k != at ensures Plain(s[k]) {
          if k > at { assert at + 1 <= k < Text.SkipForward(s, Plain, at + 1); }
        }
      }
      }
    }
    if EmailShape(s) {
      var a, dot :| EmailShapeAt(s, a, dot);
      Text.SkipForwardStops(s, Plain, 0, a);
      Text.SkipForwardStops(s, Plain, a + 1, |s|);
      assert !NotDot(s[dot]);
    }
  }

  /**
   * `isValidEmail`: the pattern tested on the lower-cased text, which holds
   * exactly when the text itself has the shape local@host.tld.
   */
  function IsValidEmail(email: string): (r: bool)
    ensures r <==> EmailShape(email)
  {
    MatchesEmailShape(Text.Lower(email));
    EmailShapeLower(email);
    MatchesEmail(Text.Lower(email))
  }

  /** Lower-casing maps plain characters to plain ones and keeps '@' and '.'. */
  lemma LowerKeepsClasses(c: char)
    ensures Plain(Text.LowerChar(c)) == Plain(c)
    ensures (Text.LowerChar(c) == '@') == (c == '@')
    ensures (Text.LowerChar(c) == '.') == (c == '.')
  {
  }

  /** Lower-casing does not change whether a text has the shape local@host.tld at given positions. */
  lemma EmailShapeAtLower(s: string, at: int, dot: int)
    ensures EmailShapeAt(Text.Lower(s), at, dot) == EmailShapeAt(s, at, dot)
  {
    var low := Text.Lower(s);
    forall k | 0 <= k < |s| ensures Plain(low[k]) == Plain(s[k])
      && (low[k] == '@') == (s[k] == '@') && (low[k] == '.') == (s[k] == '.')
    {
      LowerKeepsClasses(s[k]);
    }
  }

  /** Lower-casing does not change whether a text has the shape local@host.tld. */
  lemma EmailShapeLower(s: string)
    ensures EmailShape(Text.Lower(s)) == EmailShape(s)
  {
    if EmailShape(Text.Lower(s)) {
      var at, dot :| EmailShapeAt(Text.Lower(s), at, dot);
      EmailShapeAtLower(s, at, dot);
    }
    if EmailShape(s) {
      var at, dot :| EmailShapeAt(s, at, dot);
      EmailShapeAtLower(s, at, dot);
    }
  }

  /**
   * `isValidEmail` holds exactly for texts of the shape local@host.tld, so a
   * valid address holds exactly one '@', and letter case does not matter.
   */
  lemma IsValidEmailShape(email: string)
    ensures IsValidEmail(Text.Lower(email)) == IsValidEmail(email)
    ensures IsValidEmail(email) ==>
      exists at :: 0 <= at < |email| && email[at] == '@' && forall k :: 0 <= k < |email| && k != at ==> email[k] != '@'
  {
    EmailShapeLower(email);
  }

  // ------------------------------------------------------------ status colour

  const ROSE: string := "bg-rose-100 text-rose-700 border-rose-200"
  const AMBER: string := "bg-amber-100 text-amber-800 border-amber-200"
  const EMERALD: string := "bg-emerald-100 text-emerald-700 border-emerald-200"

  /**
   * `getStatusColor`: rose for "full" or its Thai word, amber for "filling fast"
   * or its Thai words, emerald for anything else; the status is lower-cased
   * first, and a missing status (None) counts as the empty string.
   */
  function StatusColor(status: Option<string>): (r: string)
    ensures var s := Text.Lower(status.GetOr([]));
      (r == ROSE <==> s == "full" || s == "เต็ม")
      && (r == AMBER <==> s == "filling fast" || s == "ใกล้เต็ม")
  {
    var s := Text.Lower(status.GetOr([]));
    if s == "full" || s == "เต็ม" then ROSE
    else if s == "filling fast" || s == "ใกล้เต็ม" then AMBER
    else EMERALD
  }

  /**
   * The colour is one of the three classes, a missing status is emerald, and
   * the letter case of the status does not matter.
   */
  lemma StatusColorCases(status: Option<string>)
    ensures StatusColor(status) in {ROSE, AMBER, EMERALD}
    ensures StatusColor(None) == EMERALD
    ensures status.Some? ==> StatusColor(Some(Text.Lower(status.value))) == StatusColor(status)
  {
    if status.Some? {
      Text.LowerIdempotent(status.value);
    }
  }

  // ------------------------------------------------------------ QR placeholder

  /** Everything before the embedded text: the frame and the three finder squares. */
  const SVG_HEAD: string :=
    "<svg xmlns='http://www.w3.org/2000/svg' width='200' height='200' viewBox='0 0 200 200'>\n"
    + "    <rect x='0' y='0' width='200' height='200' fill='black'/>\n"
    + "    <rect x='18' y='18' width='164' height='164' fill='white'/>\n"
    + "    <rect x='32' y='32' width='40' height='40' fill='black'/>\n"
    + "    <rect x='128' y='32' width='40' height='40' fill='black'/>\n"
    + "    <rect x='32' y='128' width='40' height='40' fill='black'/>\n"
    + "    <text x='100' y='110' text-anchor='middle' font-size='10' fill='black'>"

  /** Everything after the embedded text. */
  const SVG_TAIL: string := "</text>\n  </svg>"

  /** At most this many characters of the escaped text are embedded. */
  const LABEL_MAX: nat := 18

  /** `s.replace(/c/g, rep)`: every c replaced by rep. */
  function ReplaceChar(s: string, c: char, rep: string): (r: string)
  {
    if s == [] then [] else (if s[0] == c then rep else [s[0]]) + ReplaceChar(s[1..], c, rep)
  }

  /** A character other than c occurs in the result exactly when it occurs in s or, for some c in s, in rep. */
  lemma {:induction false} ReplaceCharOccurs(s: string, c: char, rep: string, d: char)
    requires d != c
    ensures d in ReplaceChar(s, c, rep) <==> d in s || (c in s && d in rep)
    ensures c in ReplaceChar(s, c, rep) <==> c in s && c in rep
  {
    if s != [] {
      ReplaceCharOccurs(s[1..], c, rep, d);
      assert s == [s[0]] + s[1..];
    }
  }

  /** The two `replace` calls of `makeQrSvg`. */
  function EscapeAngles(s: string): string
  {
    ReplaceChar(ReplaceChar(s, '<', "&lt;"), '>', "&gt;")
  }

  /** After the two replacements no '<' or '>' is left. */
  lemma EscapeAnglesSafe(text: string)
    ensures '<' !in EscapeAngles(text) && '>' !in EscapeAngles(text)
  {
    var once := ReplaceChar(text, '<', "&lt;");
    ReplaceCharOccurs(text, '<', "&lt;", '>');
    ReplaceCharOccurs(once, '>', "&gt;", '<');
  }

  /**
   * The text `makeQrSvg` places inside the `<text>` element: the first 18
   * characters of the escaped text (all of it when shorter), so no '<' or
   * '>'; a text without angle brackets is shown as its own first 18
   * characters.
   */
  function QrLabel(text: string): (r: string)
    ensures |r| == if |EscapeAngles(text)| <= LABEL_MAX then |EscapeAngles(text)| else LABEL_MAX
    ensures r == EscapeAngles(text)[..|r|]
    ensures '<' !in r && '>' !in r
    ensures '<' !in text && '>' !in text ==> r == Sorting.Take(text, LABEL_MAX)
  {
    var esc := EscapeAngles(text);
    EscapeAnglesSafe(text);
    EscapeAnglesAbsent(text);
    var shown := Sorting.Take(esc, LABEL_MAX);
    assert forall ch :: ch in shown ==> ch in esc;
    shown
  }

  /** A text without angle brackets is left alone by the two replacements. */
  lemma EscapeAnglesAbsent(text: string)
    ensures '<' !in text && '>' !in text ==> EscapeAngles(text) == text
  {
    if '<' !in text && '>' !in text {
      ReplaceCharAbsent(text, '<', "&lt;");
      ReplaceCharAbsent(text, '>', "&gt;");
    }
  }

  /**
   * `makeQrSvg(text)` as written: the fixed frame, the label, the closing
   * tags. The label sits between the frame and the closing tags, is the
   * start of the escaped text (the text itself, cut to 18 characters, when
   * it has no angle brackets), and no character in it can open or close an
   * element.
   */
  function MakeQrSvg(text: string): (r: string)
    ensures |SVG_HEAD| + |SVG_TAIL| <= |r| <= |SVG_HEAD| + LABEL_MAX + |SVG_TAIL|
    ensures r[..|SVG_HEAD|] == SVG_HEAD && r[|r| - |SVG_TAIL|..] == SVG_TAIL
    ensures forall i :: |SVG_HEAD| <= i < |r| - |SVG_TAIL| ==> r[i] != '<' && r[i] != '>'
    ensures r[|SVG_HEAD|..|r| - |SVG_TAIL|] == QrLabel(text)
    ensures '<' !in text && '>' !in text ==> r[|SVG_HEAD|..|r| - |SVG_TAIL|] == Sorting.Take(text, LABEL_MAX)
  {
    var caption := QrLabel(text);
    var r := SVG_HEAD + caption + SVG_TAIL;
    assert r[|SVG_HEAD|..|r| - |SVG_TAIL|] == caption;
    assert forall i :: |SVG_HEAD| <= i < |r| - |SVG_TAIL| ==> r[i] == caption[i - |SVG_HEAD|];
    r
  }

  /** Every '&' in t begins one of the five entities `escapeHtml` writes. */
  predicate EntitiesComplete(t: string) {
    forall i :: 0 <= i < |t| && t[i] == '&' ==>
      ScoreClient.StartsWith(t[i..], "&amp;") || ScoreClient.StartsWith(t[i..], "&lt;")
      || ScoreClient.StartsWith(t[i..], "&gt;") || ScoreClient.StartsWith(t[i..], "&quot;")
      || ScoreClient.StartsWith(t[i..], "&#39;")
  }

  /** Cutting the escaped text at 18 characters can split an entity: five '<' leave "&l" at the end. */
  lemma QrLabelSplitsEntity(text: string)
    requires text == "<<<<<"
    ensures QrLabel(text) == "&lt;&lt;&lt;&lt;&l" && !EntitiesComplete(QrLabel(text))
  {
    var esc := EscapeAngles(text);
    EscapeAnglesRun(text);
    var shown := QrLabel(text);
    assert shown == esc[..18];
    assert shown[16] == '&' && |shown[16..]| == 2;
  }

  /** Five '<' escape to five "&lt;". */
  lemma EscapeAnglesRun(text: string)
    requires text == "<<<<<"
    ensures EscapeAngles(text) == "&lt;&lt;&lt;&lt;&lt;"
  {
    var lt := "&lt;";
    var esc := lt + lt + lt + lt + lt;
    var once := ReplaceChar(text, '<', lt);
    assert once == esc by {
      ReplaceCharRun(5, '<', lt);
      assert text == seq(5, _ => '<');
      assert Repeat(lt, 5) == esc;
    }
    assert ReplaceChar(once, '>', "&gt;") == esc by {
      ReplaceCharAbsent(esc, '>', "&gt;");
    }
  }

  /** n copies of t, concatenated. */
  function Repeat(t: string, n: nat): string
  {
    if n == 0 then [] else t + Repeat(t, n - 1)
  }

  /** A run of n copies of c becomes n copies of rep. */
  lemma {:induction false} ReplaceCharRun(n: nat, c: char, rep: string)
    ensures ReplaceChar(seq(n, _ => c), c, rep) == Repeat(rep, n)
  {
    if n > 0 {
      ReplaceCharRun(n - 1, c, rep);
      assert seq(n, _ => c)[1..] == seq(n - 1, _ => c);
    }
  }

  /** A text without c is left alone. */
  lemma {:induction false} ReplaceCharAbsent(s: string, c: char, rep: string)
    requires c !in s
    ensures ReplaceChar(s, c, rep) == s
  {
    if s != [] {
      ReplaceCharAbsent(s[1..], c, rep);
      assert s == [s[0]] + s[1..];
    }
  }

  /**
   * The label cut first and escaped after, with '&' escaped as well: every
   * entity stays whole, no '<' or '>' is left, and the label decodes to the
   * first 18 characters of the text.
   */
  function QrLabelWhole(text: string): (r: string)
    ensures EntitiesComplete(r) && '<' !in r && '>' !in r
    ensures ScoreClient.Unescape(r) == Sorting.Take(text, LABEL_MAX)
  {
    var cut := Sorting.Take(text, LABEL_MAX);
    ScoreClient.EscapeNoRaw(cut);
    EscapeEntitiesComplete(cut);
    var shown := ScoreClient.Escape(cut);
    assert forall i :: 0 <= i < |shown| ==> shown[i] != '<' && shown[i] != '>';
    shown
  }

  /**
   * The image with the label cut before escaping: the label sits between the
   * frame and the closing tags, opens no element, and decodes to the first 18
   * characters of the text.
   */
  function MakeQrSvgWhole(text: string): (r: string)
    ensures |SVG_HEAD| + |SVG_TAIL| <= |r|
    ensures r[..|SVG_HEAD|] == SVG_HEAD && r[|r| - |SVG_TAIL|..] == SVG_TAIL
    ensures forall i :: |SVG_HEAD| <= i < |r| - |SVG_TAIL| ==> r[i] != '<' && r[i] != '>'
    ensures ScoreClient.Unescape(r[|SVG_HEAD|..|r| - |SVG_TAIL|]) == Sorting.Take(text, LABEL_MAX)
  {
    var caption := QrLabelWhole(text);
    var r := SVG_HEAD + caption + SVG_TAIL;
    assert r[|SVG_HEAD|..|r| - |SVG_TAIL|] == caption;
    r
  }

  /** Every '&' that `escapeHtml` writes begins an entity. */
  lemma {:induction false} EscapeEntitiesComplete(s: string)
    ensures EntitiesComplete(ScoreClient.Escape(s))
  {
    if s != [] {
      EscapeEntitiesComplete(s[1..]);
      var e, r := ScoreClient.EscapeChar(s[0]), ScoreClient.Escape(s[1..]);
      var t := e + r;
      forall i | 0 <= i < |t| && t[i] == '&'
        ensures ScoreClient.StartsWith(t[i..], "&amp;") || ScoreClient.StartsWith(t[i..], "&lt;")
          || ScoreClient.StartsWith(t[i..], "&gt;") || ScoreClient.StartsWith(t[i..], "&quot;")
          || ScoreClient.StartsWith(t[i..], "&#39;")
      {
        if i >= |e| {
          assert t[i..] == r[i - |e|..];
          assert r[i - |e|] == '&';
        } else {
          assert i == 0 && t[..|e|] == e;
          assert t[i..][..|e|] == e;
        }
      }
    }
  }
}
