/**
 * The booth scanner on the Raspberry Pi: it reads scanned lines, drops blank
 * lines and immediate repeats, pulls the uuid out of a check-in URL and
 * publishes it with the booth number. The broker connection is not modelled:
 * publishing is the output sequence of the loop.
 */
module PiScanner {
  import opened Wrappers
  import Text

  /** The booth this scanner stands at. */
  const BOOTH_ID: nat := 1
  /** Uuids shorter than this are not published. */
  const MIN_UUID: nat := 4
  /** The marker in front of the uuid in a check-in URL. */
  const MARKER: string := "/uuid/"

  /** The message published for one scan. */
  datatype Payload = Payload(qrCode: string, boothId: nat)

  /** The class `[A-Za-z0-9_-]`. */
  predicate IsIdChar(c: char) {
    ('A' <= c <= 'Z') || ('a' <= c <= 'z') || ('0' <= c <= '9') || c == '_' || c == '-'
  }

  /** The pattern `/uuid/([A-Za-z0-9_-]+)` can start at p: the marker and at least one id character. */
  predicate MatchAt(q: string, p: nat) {
    Text.OccursAt(q, MARKER, p) && p + |MARKER| < |q| && IsIdChar(q[p + |MARKER|])
  }

  /** The leftmost position at or after i where the pattern matches, as `re.search` finds it. */
  function FirstMatch(q: string, i: nat): (r: Option<nat>)
    requires i <= |q|
    ensures r.Some? ==> i <= r.value < |q| && MatchAt(q, r.value)
    ensures r.Some? ==> forall j :: i <= j < r.value ==> !MatchAt(q, j)
    ensures r.None? ==> forall j :: i <= j <= |q| ==> !MatchAt(q, j)
    decreases |q| - i
  {
    if i == |q| then None
    else if MatchAt(q, i) then Some(i)
    else FirstMatch(q, i + 1)
  }

  /**
   * The uuid `publish_qr` extracts from a stripped line: the greedy run of id
   * characters after the leftmost matching "/uuid/", or the whole line when
   * the pattern does not occur.
   */
  function ExtractUuid(q: string): (u: string)
    ensures FirstMatch(q, 0).None? ==> u == q
    ensures FirstMatch(q, 0).Some? ==>
      var p := FirstMatch(q, 0).value + |MARKER|;
      var e := p + |u|;
      0 < |u| && e <= |q| && u == q[p..e]
      && IdRun(u) && (e < |q| ==> !IsIdChar(q[e]))
  {
    match FirstMatch(q, 0)
    case None => q
    case Some(m) =>
      var p := m + |MARKER|;
      var e := Text.SkipForward(q, IsIdChar, p);
      assert IdRun(q[p..e]) by {
        forall k | 0 <= k < e - p ensures IsIdChar(q[p..e][k]) { assert q[p..e][k] == q[p + k]; }
      }
      q[p..e]
  }

  /**
   * `publish_qr`: strip, skip an empty line, extract the uuid, skip a short
   * one. A line publishes exactly when it is not blank and its uuid has at
   * least four characters, and then the payload is that uuid with this booth.
   * The uuid is either the whole stripped line or a run of id characters that
   * follows "/uuid/" in it.
   */
  function PublishQr(raw: string): (r: Option<Payload>)
    ensures Text.Strip(raw) == [] ==> r.None?
    ensures r.Some? <==> Text.Strip(raw) != [] && |ExtractUuid(Text.Strip(raw))| >= MIN_UUID
    ensures r.Some? ==> r.value == Payload(ExtractUuid(Text.Strip(raw)), BOOTH_ID)
    ensures r.Some? ==>
      var q := Text.Strip(raw);
      && r.value.boothId == BOOTH_ID && |r.value.qrCode| >= MIN_UUID
      && (r.value.qrCode == q || (IdRun(r.value.qrCode) && FollowsMarker(q, r.value.qrCode)))
  {
    var q := Text.Strip(raw);
    if q == [] then None
    else
      var uuid := ExtractUuid(q);
      assert FirstMatch(q, 0).Some? ==> Text.OccursAt(q, MARKER, FirstMatch(q, 0).value);
      if |uuid| < MIN_UUID then None else Some(Payload(uuid, BOOTH_ID))
  }

  /** Every character is an id character. */
  predicate IdRun(u: string) {
    forall k :: 0 <= k < |u| ==> IsIdChar(u[k])
  }

  /** u appears in q right after an occurrence of "/uuid/". */
  ghost predicate FollowsMarker(q: string, u: string) {
    exists p :: 0 <= p && p + |MARKER| + |u| <= |q| && Text.OccursAt(q, MARKER, p)
      && q[p + |MARKER|..p + |MARKER| + |u|] == u
  }

  /** Every payload is for this booth and has a uuid of at least four characters. */
  predicate Publishable(out: seq<Payload>) {
    forall k :: 0 <= k < |out| ==> out[k].boothId == BOOTH_ID && |out[k].qrCode| >= MIN_UUID
  }

  /** Publishable outputs concatenate. */
  lemma PublishableConcat(a: seq<Payload>, b: seq<Payload>)
    requires Publishable(a) && Publishable(b)
    ensures Publishable(a + b)
  {
    assert forall k :: |a| <= k < |a + b| ==> (a + b)[k] == b[k - |a|];
  }

  /** What publishing one accepted line adds to the output: at most one payload, for this booth, with a uuid of at least four characters. */
  function Sent(raw: string): (out: seq<Payload>)
    ensures |out| <= 1
    ensures Publishable(out)
  {
    match PublishQr(raw)
    case None => []
    case Some(m) => [m]
  }

  /**
   * Which lines publish: nothing for a blank line or a uuid shorter than four
   * characters, and otherwise the one payload of its uuid for this booth.
   */
  lemma SentWhich(raw: string)
    ensures Sent(raw) == [] <==> Text.Strip(raw) == [] || |ExtractUuid(Text.Strip(raw))| < MIN_UUID
    ensures Sent(raw) != [] ==> Sent(raw) == [Payload(ExtractUuid(Text.Strip(raw)), BOOTH_ID)]
  {
  }

  /** Every line, stripped. */
  function StripAll(lines: seq<string>): (qs: seq<string>)
    ensures |qs| == |lines|
    ensures forall j :: 0 <= j < |lines| ==> qs[j] == Text.Strip(lines[j])
  {
    if lines == [] then [] else [Text.Strip(lines[0])] + StripAll(lines[1..])
  }

  /** The stripped lines the input loop hands to `publish_qr`, given the last accepted line. */
  function Accepted(lines: seq<string>, last: Option<string>): (qs: seq<string>)
    ensures |qs| <= |lines|
  {
    if lines == [] then []
    else
      var q := Text.Strip(lines[0]);
      if q == [] || Some(q) == last then Accepted(lines[1..], last)
      else [q] + Accepted(lines[1..], Some(q))
  }

  /** Each accepted line is a non-blank stripped input line. */
  predicate FromInput(qs: seq<string>, lines: seq<string>) {
    forall k :: 0 <= k < |qs| ==> qs[k] != [] && qs[k] in StripAll(lines)
  }

  /** No accepted line repeats the one accepted before it (or `last`, for the first). */
  predicate NoRepeat(qs: seq<string>, last: Option<string>) {
    (qs != [] && last.Some? ==> qs[0] != last.value)
    && forall k :: 0 < k < |qs| ==> qs[k] != qs[k - 1]
  }

  /** Every non-blank line is accepted, or repeats `last`. */
  predicate Covers(qs: seq<string>, lines: seq<string>, last: Option<string>) {
    forall j :: 0 <= j < |lines| && Text.Strip(lines[j]) != [] ==>
      Text.Strip(lines[j]) in qs || last == Some(Text.Strip(lines[j]))
  }

  /**
   * Which lines the loop accepts: each accepted line is a non-blank stripped
   * input line and differs from the one accepted before it.
   */
  lemma {:induction false} AcceptedLines(lines: seq<string>, last: Option<string>)
    ensures FromInput(Accepted(lines, last), lines)
    ensures NoRepeat(Accepted(lines, last), last)
    decreases |lines|
  {
    if lines != [] {
      var q, tail := Text.Strip(lines[0]), lines[1..];
      StripAllCons(lines);
      if q == [] || Some(q) == last {
        AcceptedLines(tail, last);
      } else {
        AcceptedLines(tail, Some(q));
        var rest := Accepted(tail, Some(q));
        var qs := [q] + rest;
        assert forall k :: 0 < k < |qs| ==> qs[k] == rest[k - 1];
        assert FromInput(qs, lines);
      }
    }
  }

  /** No line is lost: every non-blank line is accepted or repeats the line accepted last. */
  lemma {:induction false} AcceptedCovers(lines: seq<string>, last: Option<string>)
    ensures Covers(Accepted(lines, last), lines, last)
    decreases |lines|
  {
    if lines != [] {
      var q, tail := Text.Strip(lines[0]), lines[1..];
      assert forall j :: 0 < j < |lines| ==> lines[j] == tail[j - 1];
      if q == [] || Some(q) == last {
        AcceptedCovers(tail, last);
      } else {
        AcceptedCovers(tail, Some(q));
        var rest := Accepted(tail, Some(q));
        forall j | 0 <= j < |lines| && Text.Strip(lines[j]) != []
          ensures Text.Strip(lines[j]) in [q] + rest || last == Some(Text.Strip(lines[j]))
        {
          if j > 0 {
            assert Text.Strip(tail[j - 1]) in rest || Some(q) == Some(Text.Strip(tail[j - 1]));
          }
        }
      }
    }
  }

  /** Stripping a series of lines strips the first line and then the rest. */
  lemma StripAllCons(lines: seq<string>)
    requires lines != []
    ensures StripAll(lines) == [Text.Strip(lines[0])] + StripAll(lines[1..])
  {
  }

  /** The payloads of a series of accepted lines, in order. */
  function PublishAll(qs: seq<string>): (out: seq<Payload>)
    ensures |out| <= |qs|
    ensures Publishable(out)
  {
    if qs == [] then []
    else
      var sent, rest := Sent(qs[0]), PublishAll(qs[1..]);
      PublishableConcat(sent, rest);
      sent + rest
  }

  /**
   * What the input loop publishes for the lines still to come, given the last
   * accepted line: a blank line is skipped, a line equal to the last accepted
   * one is ignored, any other line becomes the last accepted one and is
   * passed to `publish_qr`. At most one payload per line is published, each
   * for this booth and with a uuid of at least four characters.
   */
  function Run(lines: seq<string>, last: Option<string>): (out: seq<Payload>)
    ensures |out| <= |lines|
    ensures Publishable(out)
  {
    if lines == [] then []
    else
      var q := Text.Strip(lines[0]);
      if q == [] || Some(q) == last then Run(lines[1..], last)
      else
        var sent, rest := Sent(q), Run(lines[1..], Some(q));
        PublishableConcat(sent, rest);
        sent + rest
  }

  /** The loop publishes exactly the payloads of the accepted lines, in order. */
  lemma {:induction false} RunPublishesAccepted(lines: seq<string>, last: Option<string>)
    ensures Run(lines, last) == PublishAll(Accepted(lines, last))
    decreases |lines|
  {
    if lines != [] {
      var q := Text.Strip(lines[0]);
      if q == [] || Some(q) == last {
        RunPublishesAccepted(lines[1..], last);
      } else {
        RunPublishesAccepted(lines[1..], Some(q));
        var qs := Accepted(lines[1..], Some(q));
        assert Accepted(lines, last) == [q] + qs;
        assert ([q] + qs)[1..] == qs;
      }
    }
  }

  lemma AppendAssoc(a: seq<Payload>, b: seq<Payload>, c: seq<Payload>)
    ensures a + (b + c) == (a + b) + c
  {
  }

  /** One step of the loop, on the lines from i on. */
  lemma RunStep(lines: seq<string>, i: nat, last: Option<string>)
    requires i < |lines|
    ensures var q := Text.Strip(lines[i]);
      Run(lines[i..], last)
        == if q == [] || Some(q) == last then Run(lines[i + 1..], last)
           else Sent(q) + Run(lines[i + 1..], Some(q))
  {
    assert lines[i..][1..] == lines[i + 1..];
    assert lines[i..][0] == lines[i];
  }

  /** The input loop over a finite series of scanned lines; returns what it published. */
  method ScanLoop(lines: seq<string>) returns (published: seq<Payload>)
    ensures published == Run(lines, None)
  {
    var last: Option<string> := None;
    published := [];
    var i := 0;
    while i < |lines|
      invariant 0 <= i <= |lines|
      invariant published + Run(lines[i..], last) == Run(lines, None)
    {
      RunStep(lines, i, last);
      var q := Text.Strip(lines[i]);
      if q == [] || Some(q) == last {
        i := i + 1;
        continue;
      }
      var rest := Run(lines[i + 1..], Some(q));
      last := Some(q);
      var m := PublishQr(q);
      var sent: seq<Payload> := if m.Some? then [m.value] else [];
      assert sent == Sent(q);
      AppendAssoc(published, sent, rest);
      published := published + sent;
      i := i + 1;
    }
    assert lines[i..] == [];
  }

  /** Run on a line in front of the rest: the loop's step, stated on sequences built with `+`. */
  lemma RunCons(x: string, rest: seq<string>, last: Option<string>)
    ensures var q := Text.Strip(x);
      Run([x] + rest, last)
        == if q == [] || Some(q) == last then Run(rest, last)
           else Sent(q) + Run(rest, Some(q))
  {
    assert ([x] + rest)[1..] == rest;
    assert ([x] + rest)[0] == x;
  }

  /** A line scanned twice in a row is published at most once, whatever follows. */
  lemma RunRepeat(x: string, rest: seq<string>, last: Option<string>)
    ensures Run([x, x] + rest, last) == Run([x] + rest, last)
  {
    var q := Text.Strip(x);
    assert [x, x] + rest == [x] + ([x] + rest);
    RunCons(x, [x] + rest, last);
    RunCons(x, rest, Some(q));
    RunCons(x, rest, last);
  }

  /** Blank lines do not reset the repeat check: a line, a blank, the same line publishes once. */
  lemma RunBlankBetween(x: string, blank: string, rest: seq<string>, last: Option<string>)
    requires Text.Strip(blank) == []
    ensures Run([x, blank, x] + rest, last) == Run([x] + rest, last)
  {
    var q := Text.Strip(x);
    assert [x, blank, x] + rest == [x] + ([blank] + ([x] + rest));
    RunCons(x, [blank] + ([x] + rest), last);
    if q == [] || Some(q) == last {
      RunCons(blank, [x] + rest, last);
    } else {
      var sq := Sent(q);
      assert Run([x, blank, x] + rest, last) == sq + Run([blank] + ([x] + rest), Some(q));
      RunCons(blank, [x] + rest, Some(q));
      assert Run([blank] + ([x] + rest), Some(q)) == Run([x] + rest, Some(q));
      RunCons(x, rest, Some(q));
      assert Run([x] + rest, Some(q)) == Run(rest, Some(q));
      RunCons(x, rest, last);
      assert Run([x] + rest, last) == sq + Run(rest, Some(q));
    }
  }

  /**
   * The loop remembers the line, not the uuid: two different lines in a row
   * are both published even when they name the same uuid.
   */
  lemma RunRemembersLine(x: string, y: string)
    requires Text.Strip(x) != [] && Text.Strip(y) != [] && Text.Strip(x) != Text.Strip(y)
    ensures Run([x, y], None) == Sent(Text.Strip(x)) + Sent(Text.Strip(y))
  {
    var qx, qy := Text.Strip(x), Text.Strip(y);
    assert [x, y] == [x] + [y];
    assert [y] == [y] + [];
    RunCons(x, [y], None);
    assert Run([x, y], None) == Sent(qx) + Run([y], Some(qx));
    RunCons(y, [], Some(qx));
    var sy := Sent(qy);
    assert Run([y], Some(qx)) == sy + Run([], Some(qy));
    assert Run([], Some(qy)) == [];
    assert sy + [] == sy;
  }
}
