/**
 * The booth scanning page: `handleCheckin` picks the booth, extracts the
 * uuid from a scan, suppresses an immediate repeat of the same uuid, posts
 * the check-in and keeps the 100 newest check-ins; the "latest" panel shows
 * the five newest. The page's React state (`lastScan`, `checkins`,
 * `selectedBooth`) is the state of a class; the network request is the
 * method's output and its reply an input.
 */
module QrScanPage {
  import opened Wrappers
  import Text
  import Sorting

  /** The marker in front of the uuid in a check-in URL. */
  const MARKER: string := "/uuid/"
  /** At most this many check-ins are kept after a scan. */
  const LIST_MAX: nat := 100
  /** The "latest" panel shows at most this many check-ins. */
  const LATEST_MAX: nat := 5
  /** The nickname shown when the reply names none. */
  const NO_NAME: string := "ไม่ระบุชื่อ"

  // ------------------------------------------------------- uuid extraction

  /** What a scan hands to `handleCheckin`: decoded text, or an object whose `uuid` field is given ("" when absent). */
  datatype QrData = QrText(text: string) | QrObject(uuid: string)

  /** The leftmost occurrence of `sep` in `s` at or after `i`. */
  function FindFrom(s: string, sep: string, i: nat): (r: Option<nat>)
    requires i <= |s|
    ensures r.Some? ==> i <= r.value && Text.OccursAt(s, sep, r.value)
    ensures r.Some? ==> forall p :: i <= p < r.value ==> !Text.OccursAt(s, sep, p)
    ensures r.None? ==> forall p :: i <= p ==> !Text.OccursAt(s, sep, p)
    decreases |s| - i
  {
    if Text.OccursAt(s, sep, i) then Some(i)
    else if i == |s| then None
    else FindFrom(s, sep, i + 1)
  }

  /**
   * Where the last piece of `s.split("/uuid/")` starts, when the split goes
   * on from `i`: each step takes the leftmost occurrence and resumes right
   * after it, so occurrences never overlap.
   */
  function LastPieceStart(s: string, i: nat): (j: nat)
    requires i <= |s|
    ensures i <= j <= |s|
    ensures j > i ==> j >= |MARKER| && Text.OccursAt(s, MARKER, j - |MARKER|)
    ensures forall p :: j <= p ==> !Text.OccursAt(s, MARKER, p)
    decreases |s| - i
  {
    match FindFrom(s, MARKER, i)
    case None => i
    case Some(p) => LastPieceStart(s, p + |MARKER|)
  }

  /**
   * The uuid `handleCheckin` takes from its input. `jsonUuid` is the `uuid`
   * field that `JSON.parse` gives for text starting with "{" ("" when it is
   * absent or the text does not parse; both end the handler without a request).
   * An object gives its field, JSON text the parsed field, and any other text
   * a suffix of itself.
   */
  function ExtractUuid(qr: QrData, jsonUuid: string): (u: string)
    ensures qr.QrObject? ==> u == qr.uuid
    ensures qr.QrText? && |qr.text| > 0 && qr.text[0] == '{' ==> u == jsonUuid
    ensures qr.QrText? && !(|qr.text| > 0 && qr.text[0] == '{') ==>
      |u| <= |qr.text| && u == qr.text[|qr.text| - |u|..]
  {
    match qr
    case QrObject(v) => v
    case QrText(s) =>
      if |s| > 0 && s[0] == '{' then jsonUuid
      else if FindFrom(s, MARKER, 0).Some? then s[LastPieceStart(s, 0)..]
      else s
  }

  /** `includes` is decided by the leftmost search. */
  lemma ContainsFind(s: string, t: string)
    ensures Text.Contains(s, t) <==> FindFrom(s, t, 0).Some?
  {
    if FindFrom(s, t, 0).Some? {
      var p := FindFrom(s, t, 0).value;
      assert 0 <= p <= |s| - |t| && Text.OccursAt(s, t, p);
    }
  }

  /** A suffix holds an occurrence only where the whole text does. */
  lemma SuffixOccurs(s: string, j: nat, t: string, p: nat)
    requires j <= |s|
    requires Text.OccursAt(s[j..], t, p)
    ensures Text.OccursAt(s, t, j + p)
  {
    assert s[j..][p..p + |t|] == s[j + p..j + p + |t|];
  }

  /** Text that is not JSON and has no "/uuid/" is its own uuid. */
  lemma ExtractUuidText(s: string, jsonUuid: string)
    ensures !(|s| > 0 && s[0] == '{') && !Text.Contains(s, MARKER) ==> ExtractUuid(QrText(s), jsonUuid) == s
  {
    ContainsFind(s, MARKER);
  }

  /**
   * Other text holding "/uuid/" yields a suffix that follows an occurrence
   * of "/uuid/" and holds none itself.
   */
  lemma ExtractUuidMarker(s: string, jsonUuid: string)
    requires !(|s| > 0 && s[0] == '{') && Text.Contains(s, MARKER)
    ensures var u := ExtractUuid(QrText(s), jsonUuid);
      |MARKER| <= |s| - |u| && u == s[|s| - |u|..]
      && Text.OccursAt(s, MARKER, |s| - |u| - |MARKER|)
      && !Text.Contains(u, MARKER)
  {
    ContainsFind(s, MARKER);
    var j := LastPieceStart(s, 0);
    assert ExtractUuid(QrText(s), jsonUuid) == s[j..];
    var u := s[j..];
    assert |s| - |u| == j;
    assert j > 0 by {
      var p := FindFrom(s, MARKER, 0).value;
      assert Text.OccursAt(s, MARKER, p);
    }
    if Text.Contains(u, MARKER) {
      var p :| 0 <= p <= |u| - |MARKER| && Text.OccursAt(u, MARKER, p);
      SuffixOccurs(s, j, MARKER, p);
    }
  }

  // ------------------------------------------------------------ the list

  /** Where a scan came from. */
  datatype Source = Camera | Mqtt

  /** The booth column: the reply's booth title, or "Booth <id>". */
  datatype BoothLabel = Titled(title: string) | Numbered(id: int)

  /**
   * One row of the check-in list. `time` is the moment shown, as the number
   * the comparator `new Date(time).getTime()` reads back.
   */
  datatype Checkin = Checkin(uuid: string, nickname: string, booth: BoothLabel, time: int, source: Source, highlight: bool)

  function TimeOf(c: Checkin): int { c.time }

  /** The reply of `POST /checkin`; an absent text field is "". */
  datatype Reply = Reply(success: bool, userNickname: string, nickname: string, boothTitle: string)

  /** The body of `POST /checkin`. */
  datatype Request = Request(uuid: string, boothId: int)

  /** The row added for an accepted scan: the first non-empty of the two nicknames, the reply's booth title or the booth number. */
  function NewEntry(uuid: string, reply: Reply, booth: int, now: int, source: Source): (e: Checkin)
    ensures e.uuid == uuid && e.time == now && e.source == source && e.highlight
    ensures e.nickname != []
    ensures reply.userNickname != [] ==> e.nickname == reply.userNickname
    ensures reply.userNickname == [] && reply.nickname != [] ==> e.nickname == reply.nickname
    ensures e.booth == if reply.boothTitle != [] then Titled(reply.boothTitle) else Numbered(booth)
  {
    var name := if reply.userNickname != [] then reply.userNickname
                else if reply.nickname != [] then reply.nickname
                else NO_NAME;
    Checkin(uuid, name, if reply.boothTitle != [] then Titled(reply.boothTitle) else Numbered(booth), now, source, true)
  }

  /**
   * `[newEntry, ...prev].sort(newest first).slice(0, 100)`: the list holds
   * min(|prev| + 1, 100) check-ins, newest first, all taken from the new
   * entry and the previous list.
   */
  function Added(prev: seq<Checkin>, e: Checkin): (r: seq<Checkin>)
    ensures |r| == (if |prev| + 1 <= LIST_MAX then |prev| + 1 else LIST_MAX)
    ensures Sorting.SortedDesc(r, TimeOf)
    ensures multiset(r) <= multiset([e] + prev)
  {
    var sorted := Sorting.SortDesc([e] + prev, TimeOf);
    Sorting.TakeSorted(sorted, LIST_MAX, TimeOf);
    var r := Sorting.Take(sorted, LIST_MAX);
    assert sorted == r + sorted[|r|..];
    r
  }

  /**
   * The list keeps the newest check-ins: every check-in cut off at 100 is no
   * newer than any check-in kept.
   */
  lemma AddedKeepsNewest(prev: seq<Checkin>, e: Checkin)
    ensures forall x, y :: x in multiset([e] + prev) - multiset(Added(prev, e)) && y in Added(prev, e) ==> y.time >= x.time
  {
    var sorted := Sorting.SortDesc([e] + prev, TimeOf);
    Sorting.TakeKeepsTop(sorted, LIST_MAX, TimeOf);
  }

  /**
   * When the list is in order and the new entry is at least as new as every
   * row, it goes on top: the list becomes the entry followed by the first 99
   * previous rows.
   */
  lemma AddedNewest(prev: seq<Checkin>, e: Checkin)
    requires Sorting.SortedDesc(prev, TimeOf)
    requires forall i :: 0 <= i < |prev| ==> prev[i].time <= e.time
    ensures Added(prev, e) == Sorting.Take([e] + prev, LIST_MAX)
  {
    assert Sorting.SortedDesc([e] + prev, TimeOf) by {
      forall i, j | 0 <= i < j < |[e] + prev| ensures TimeOf(([e] + prev)[i]) >= TimeOf(([e] + prev)[j]) {
        assert ([e] + prev)[j] == prev[j - 1];
        if i > 0 {
          assert ([e] + prev)[i] == prev[i - 1];
        }
      }
    }
    Sorting.SortDescSortedId([e] + prev, TimeOf);
  }

  /**
   * `[...checkins].sort(newest first).slice(0, 5)`: the panel shows
   * min(|checkins|, 5) check-ins, newest first, each one from the list.
   */
  function Latest(checkins: seq<Checkin>): (r: seq<Checkin>)
    ensures |r| == (if |checkins| <= LATEST_MAX then |checkins| else LATEST_MAX)
    ensures Sorting.SortedDesc(r, TimeOf)
    ensures multiset(r) <= multiset(checkins)
  {
    var sorted := Sorting.SortDesc(checkins, TimeOf);
    Sorting.TakeSorted(sorted, LATEST_MAX, TimeOf);
    var r := Sorting.Take(sorted, LATEST_MAX);
    assert sorted == r + sorted[|r|..];
    r
  }

  /** On a list already newest first, the panel is its first five rows. */
  lemma LatestOfSorted(checkins: seq<Checkin>)
    requires Sorting.SortedDesc(checkins, TimeOf)
    ensures Latest(checkins) == Sorting.Take(checkins, LATEST_MAX)
  {
    Sorting.SortDescSortedId(checkins, TimeOf);
  }

  /** A row of `GET /checkins`; an absent text field is "". */
  datatype Row = Row(uuid: string, nickname: string, boothTitle: string, boothId: int, timestamp: int, source: Option<Source>)

  /**
   * The row as `loadCheckins` formats it: a loaded row is never highlighted,
   * keeps its uuid and time, and always shows a name; the stored name, title
   * and source win over the defaults, which are "ไม่ระบุชื่อ" (no name),
   * "Booth <id>" and the camera.
   */
  function Format(r: Row): (c: Checkin)
    ensures c.uuid == r.uuid && c.time == r.timestamp && !c.highlight
    ensures c.nickname != [] && (r.nickname != [] ==> c.nickname == r.nickname)
    ensures r.nickname == [] ==> c.nickname == NO_NAME
    ensures c.booth.Titled? <==> r.boothTitle != []
    ensures c.booth.Titled? ==> c.booth.title == r.boothTitle
    ensures c.booth.Numbered? ==> c.booth.id == r.boothId
    ensures r.source.Some? ==> c.source == r.source.value
    ensures r.source.None? ==> c.source == Camera
  {
    Checkin(r.uuid, if r.nickname != [] then r.nickname else NO_NAME,
            if r.boothTitle != [] then Titled(r.boothTitle) else Numbered(r.boothId),
            r.timestamp, r.source.GetOr(Camera), false)
  }

  function FormatAll(rows: seq<Row>): (cs: seq<Checkin>)
    ensures |cs| == |rows|
    ensures forall i :: 0 <= i < |rows| ==> cs[i] == Format(rows[i])
  {
    if rows == [] then [] else [Format(rows[0])] + FormatAll(rows[1..])
  }

  /**
   * Reloading a check-in shows the row a scan added, minus the highlight,
   * when the stored row carries the reply's nickname and booth title, the
   * scan's time and its source.
   */
  lemma FormatMatchesNewEntry(uuid: string, reply: Reply, booth: int, now: int, source: Source)
    requires reply.userNickname == []
    ensures Format(Row(uuid, reply.nickname, reply.boothTitle, booth, now, Some(source)))
      == NewEntry(uuid, reply, booth, now, source).(highlight := false)
  {
  }

  /** Every row with its highlight switched off, in the same order. */
  function Unhighlighted(cs: seq<Checkin>): (r: seq<Checkin>)
    ensures |r| == |cs|
    ensures forall i :: 0 <= i < |cs| ==> r[i] == cs[i].(highlight := false)
  {
    if cs == [] then [] else [cs[0].(highlight := false)] + Unhighlighted(cs[1..])
  }

  /** Switching highlights off keeps the order of the list. */
  lemma UnhighlightedSorted(cs: seq<Checkin>)
    requires Sorting.SortedDesc(cs, TimeOf)
    ensures Sorting.SortedDesc(Unhighlighted(cs), TimeOf)
  {
  }

  /** The booth a scan is for: the one passed in, else the selected one (`boothId ?? selectedBooth`). */
  function ChooseBooth(boothId: Option<int>, selected: Option<int>): (b: Option<int>)
    ensures boothId.Some? ==> b == boothId
    ensures boothId.None? ==> b == selected
  {
    if boothId.Some? then boothId else selected
  }

  /** The scanning page's state. */
  class ScanPage {
    var selectedBooth: Option<int>
    var lastScan: Option<string>
    var checkins: seq<Checkin>

    /** The list is kept newest first. */
    predicate Valid()
      reads this
    {
      Sorting.SortedDesc(checkins, TimeOf)
    }

    constructor()
      ensures selectedBooth.None? && lastScan.None? && checkins == []
      ensures Valid()
    {
      selectedBooth := None;
      lastScan := None;
      checkins := [];
    }

    /** Choosing a booth in the selector. */
    method SelectBooth(id: int)
      modifies this
      ensures selectedBooth == Some(id)
      ensures lastScan == old(lastScan) && checkins == old(checkins)
    {
      selectedBooth := Some(id);
    }

    /**
     * `handleCheckin`. Returns the request it posts, if any; `reply` is
     * what the server answers to it (None when the request or decoding
     * fails) and `now` the current time.
     *
     * The MQTT message handler is registered once, on the first render, so
     * it calls the handler of that render: it sees no selected booth and no
     * last scan whatever the page state is now. A scan with source `Mqtt`
     * is therefore checked against `None` for both, while the last scan is
     * still recorded in the page state.
     */
    method HandleCheckin(qr: QrData, jsonUuid: string, boothId: Option<int>, source: Source,
                         reply: Option<Reply>, now: int) returns (request: Option<Request>)
      requires Valid()
      modifies this
      ensures Valid()
      ensures selectedBooth == old(selectedBooth)
      ensures var booth := ChooseBooth(boothId, if source == Mqtt then None else old(selectedBooth));
        var seen := if source == Mqtt then None else old(lastScan);
        var uuid := ExtractUuid(qr, jsonUuid);
        request == if booth.None? || uuid == [] || Some(uuid) == seen then None
                   else Some(Request(uuid, booth.value))
      ensures request.None? ==> lastScan == old(lastScan) && checkins == old(checkins)
      ensures request.Some? ==> lastScan == Some(request.value.uuid)
      ensures request.Some? && (reply.None? || !reply.value.success) ==> checkins == old(checkins)
      ensures request.Some? && reply.Some? && reply.value.success ==>
        checkins == Added(old(checkins), NewEntry(request.value.uuid, reply.value, request.value.boothId, now, source))
    {
      // the state the handler closes over
      var selected, seen := selectedBooth, lastScan;
      if source == Mqtt {
        selected, seen := None, None;
      }
      var booth := ChooseBooth(boothId, selected);
      if booth.None? {
        return None;
      }
      var uuid := ExtractUuid(qr, jsonUuid);
      if uuid == [] {
        return None;
      }
      if Some(uuid) == seen {
        return None;
      }
      lastScan := Some(uuid);
      request := Some(Request(uuid, booth.value));
      if reply.None? || !reply.value.success {
        return;
      }
      var entry := NewEntry(uuid, reply.value, booth.value, now, source);
      checkins := Added(checkins, entry);
    }

    /** The timer two seconds after a scan: forget the last uuid. */
    method ClearLastScan()
      modifies this
      ensures lastScan.None?
      ensures selectedBooth == old(selectedBooth) && checkins == old(checkins)
    {
      lastScan := None;
    }

    /** The timer after a scan: no row stays highlighted. */
    method ClearHighlights()
      requires Valid()
      modifies this
      ensures Valid()
      ensures checkins == Unhighlighted(old(checkins))
      ensures selectedBooth == old(selectedBooth) && lastScan == old(lastScan)
    {
      UnhighlightedSorted(checkins);
      checkins := Unhighlighted(checkins);
    }

    /** `loadCheckins`: a failed load keeps the list; otherwise the formatted rows, newest first. */
    method LoadCheckins(rows: Option<seq<Row>>)
      requires Valid()
      modifies this
      ensures Valid()
      ensures rows.None? ==> checkins == old(checkins)
      ensures rows.Some? ==> checkins == Sorting.SortDesc(FormatAll(rows.value), TimeOf)
      ensures selectedBooth == old(selectedBooth) && lastScan == old(lastScan)
    {
      if rows.Some? {
        checkins := Sorting.SortDesc(FormatAll(rows.value), TimeOf);
      }
    }
  }
}
