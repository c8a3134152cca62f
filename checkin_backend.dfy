/**
 * The check-in backend in local mode: the persisted mode and its
 * validation, the check-in table with at most one check-in per
 * (uuid, booth), the attendee counter of each booth kept in step with it,
 * and the banner list of the event configuration. The SQLite tables are an
 * abstract state: check-ins by row id, attendees by booth id.
 */
module CheckinBackend {
  import opened Wrappers
  import Text
  import Split

  // ------------------------------------------------------------------ mode

  /** Where the data lives. */
  datatype Mode = Local | Cloud

  /**
   * The mode file as read at start-up. Unreadable: the file is missing, is
   * not JSON, or holds `null`, so that taking its `mode` field throws.
   * Otherwise the `mode` field it holds, None when there is none (as for a
   * number, a string or an array).
   */
  datatype ModeFile = Unreadable | Parsed(field: Option<string>)

  /** The name a mode is stored and reported under. */
  function ModeName(m: Mode): (s: string)
    ensures s == "local" || s == "cloud"
  {
    match m
    case Local => "local"
    case Cloud => "cloud"
  }

  /**
   * `readMode`: the file's mode when it is "local" or "cloud", "local" for
   * any other value; when the file cannot be read, the `MODE` variable
   * `env` decides, "cloud" only when it says so. So cloud mode is chosen
   * exactly when the file, or failing the file the environment, says "cloud".
   */
  function ReadMode(file: ModeFile, env: Option<string>): (m: Mode)
    ensures m == Cloud <==>
      (file.Parsed? && file.field == Some("cloud")) || (file.Unreadable? && env == Some("cloud"))
  {
    match file
    case Parsed(f) =>
      if f == Some("local") then Local else if f == Some("cloud") then Cloud else Local
    case Unreadable =>
      if env == Some("cloud") then Cloud else Local
  }

  /** Writing a mode and reading the file back gives that mode, whatever the environment says. */
  lemma ReadModeWritten(m: Mode, env: Option<string>)
    ensures ReadMode(Parsed(Some(ModeName(m))), env) == m
  {
  }

  // -------------------------------------------------------------- check-ins

  /** A row of the check-ins table. */
  datatype Checkin = Checkin(uuid: string, boothId: int, timestamp: int)

  /** The answer of `POST /checkin`. */
  datatype CheckinReply = BadRequest | Duplicated | Accepted | CloudBranch

  /** Ids of the check-ins at booth b. */
  function AtBooth(checkins: map<int, Checkin>, b: int): (ids: set<int>)
    ensures forall id :: id in ids <==> id in checkins && checkins[id].boothId == b
  {
    set id | id in checkins && checkins[id].boothId == b
  }

  /**
   * The number of check-ins at booth b: never more than the table holds, and
   * 0 exactly when no check-in is at b.
   */
  function Count(checkins: map<int, Checkin>, b: int): (n: nat)
    ensures n <= |checkins|
    ensures n == 0 <==> forall id :: id in checkins ==> checkins[id].boothId != b
  {
    var ids := AtBooth(checkins, b);
    AtBoothBound(checkins, b);
    assert ids == {} <==> forall id :: id in checkins ==> checkins[id].boothId != b by {
      if id :| id in checkins && checkins[id].boothId == b {
        assert id in ids;
      }
      if ids != {} {
        assert exists id :: id in ids by {
          if forall id :: id !in ids { assert false; }
        }
      }
    }
    |ids|
  }

  /** A booth never has more check-ins than the table. */
  lemma AtBoothBound(checkins: map<int, Checkin>, b: int)
    ensures |AtBooth(checkins, b)| <= |checkins|
  {
    var ids := AtBooth(checkins, b);
    assert checkins.Keys == ids + (checkins.Keys - ids);
  }

  /** A check-in for this uuid at this booth exists. */
  predicate HasCheckin(checkins: map<int, Checkin>, uuid: string, b: int) {
    exists id :: id in checkins && checkins[id].uuid == uuid && checkins[id].boothId == b
  }

  /**
   * The tables agree: row ids are below `nextId`; each (uuid, booth) pair
   * has at most one check-in; and each booth's counter is the number of its
   * check-ins.
   */
  predicate TablesOk(checkins: map<int, Checkin>, nextId: int, attendees: map<int, int>)
  {
    && 1 <= nextId
    && (forall id :: id in checkins ==> 1 <= id < nextId)
    && (forall i, j :: i in checkins && j in checkins && i != j ==>
          (checkins[i].uuid, checkins[i].boothId) != (checkins[j].uuid, checkins[j].boothId))
    && (forall b :: b in attendees ==> attendees[b] == Count(checkins, b))
  }

  /** Inserting a new (uuid, booth) pair under the next id, and raising its booth's counter, keeps the tables in agreement. */
  lemma InsertKeepsTables(checkins: map<int, Checkin>, nextId: int, attendees: map<int, int>, row: Checkin)
    requires TablesOk(checkins, nextId, attendees) && !HasCheckin(checkins, row.uuid, row.boothId)
    ensures TablesOk(checkins[nextId := row], nextId + 1,
                     if row.boothId in attendees then attendees[row.boothId := attendees[row.boothId] + 1] else attendees)
  {
    var checkins' := checkins[nextId := row];
    forall c | c in attendees ensures Count(checkins', c) == Count(checkins, c) + (if row.boothId == c then 1 else 0) {
      CountInsert(checkins, nextId, row, c);
    }
    forall i, j | i in checkins' && j in checkins' && i != j
      ensures (checkins'[i].uuid, checkins'[i].boothId) != (checkins'[j].uuid, checkins'[j].boothId)
    {
      if i == nextId {
        assert checkins'[j] == checkins[j];
      } else if j == nextId {
        assert checkins'[i] == checkins[i];
      }
    }
  }

  /** A new row counts once at its own booth and nowhere else. */
  lemma CountInsert(checkins: map<int, Checkin>, id: int, c: Checkin, b: int)
    requires id !in checkins
    ensures Count(checkins[id := c], b) == Count(checkins, b) + (if c.boothId == b then 1 else 0)
  {
    if c.boothId == b {
      assert AtBooth(checkins[id := c], b) == AtBooth(checkins, b) + {id};
    } else {
      assert AtBooth(checkins[id := c], b) == AtBooth(checkins, b);
    }
  }

  /** Removing a row uncounts it at its own booth and nowhere else. */
  lemma CountRemove(checkins: map<int, Checkin>, id: int, b: int)
    requires id in checkins
    ensures Count(checkins - {id}, b) == Count(checkins, b) - (if checkins[id].boothId == b then 1 else 0)
  {
    if checkins[id].boothId == b {
      assert AtBooth(checkins, b) == AtBooth(checkins - {id}, b) + {id};
    } else {
      assert AtBooth(checkins - {id}, b) == AtBooth(checkins, b);
    }
  }

  /** A row at booth b makes b's count positive. */
  lemma CountPositive(checkins: map<int, Checkin>, id: int)
    requires id in checkins
    ensures Count(checkins, checkins[id].boothId) >= 1
  {
    assert id in AtBooth(checkins, checkins[id].boothId);
  }

  /** No booth has check-ins in an empty table. */
  lemma CountEmpty(b: int)
    ensures Count(map[], b) == 0
  {
    assert AtBooth(map[], b) == {};
  }

  // ---------------------------------------------------------------- banners

  /** The `bannerUrls` field of `POST /event-config`. */
  datatype BannerInput = BannerText(text: string) | BannerArray(urls: seq<string>) | NoBanners

  /** `.map(url => url.trim())`. */
  function TrimEach(parts: seq<string>): (r: seq<string>)
    ensures |r| == |parts|
    ensures forall i :: 0 <= i < |parts| ==> r[i] == Text.Trim(parts[i])
  {
    if parts == [] then [] else [Text.Trim(parts[0])] + TrimEach(parts[1..])
  }

  /** `.filter(u => u.length > 0)`. */
  function DropEmpty(parts: seq<string>): (r: seq<string>)
    ensures |r| <= |parts|
    ensures forall i :: 0 <= i < |r| ==> r[i] != [] && r[i] in parts
  {
    if parts == [] then []
    else (if parts[0] == [] then [] else [parts[0]]) + DropEmpty(parts[1..])
  }

  /** a is b with some elements deleted, the rest kept in order. */
  predicate SubsequenceOf(a: seq<string>, b: seq<string>)
    decreases |b|
  {
    if a == [] then true
    else if b == [] then false
    else if a[0] == b[0] then SubsequenceOf(a[1..], b[1..])
    else SubsequenceOf(a, b[1..])
  }

  /** Dropping the empty strings keeps the rest in their order. */
  lemma {:induction false} DropEmptyOrder(parts: seq<string>)
    ensures SubsequenceOf(DropEmpty(parts), parts)
  {
    if parts != [] {
      var rest := DropEmpty(parts[1..]);
      DropEmptyOrder(parts[1..]);
      if parts[0] != [] {
        assert DropEmpty(parts) == [parts[0]] + rest;
        assert DropEmpty(parts)[1..] == rest;
      } else {
        assert DropEmpty(parts) == rest;
        assert rest != [] ==> rest[0] != parts[0];
      }
    }
  }

  /** Dropping the empty strings keeps every other string as often as it occurs. */
  lemma {:induction false} DropEmptyCounts(parts: seq<string>)
    ensures forall c :: c != [] ==> multiset(DropEmpty(parts))[c] == multiset(parts)[c]
  {
    if parts != [] {
      DropEmptyCounts(parts[1..]);
      assert parts == [parts[0]] + parts[1..];
      assert multiset(parts) == multiset([parts[0]]) + multiset(parts[1..]);
    }
  }

  /** Every line of the text, trimmed. */
  function TrimmedLines(text: string): (lines: seq<string>)
    ensures |lines| == |Split.SplitOn(text, '\n')|
    ensures forall k :: 0 <= k < |lines| ==> lines[k] == Text.Trim(Split.SplitOn(text, '\n')[k])
  {
    TrimEach(Split.SplitOn(text, '\n'))
  }

  /**
   * Text given as one URL per line: the trimmed lines, in order, with the
   * blank ones dropped and every other one kept as often as it occurs.
   * Every URL is clean.
   */
  function ParseBanners(text: string): (urls: seq<string>)
    ensures AllClean(urls)
    ensures SubsequenceOf(urls, TrimmedLines(text))
    ensures forall u :: u != [] ==> multiset(urls)[u] == multiset(TrimmedLines(text))[u]
  {
    LinesClean(text);
    DropEmptyOrder(TrimmedLines(text));
    DropEmptyCounts(TrimmedLines(text));
    DropEmpty(TrimmedLines(text))
  }

  /**
   * The banner list `POST /event-config` stores: parsed from text into clean
   * URLs, kept as an array, or empty.
   */
  function StoredBanners(input: BannerInput): (urls: seq<string>)
    ensures input.BannerText? ==> AllClean(urls) && SubsequenceOf(urls, TrimmedLines(input.text))
    ensures input.BannerText? ==> forall u :: u != [] ==> multiset(urls)[u] == multiset(TrimmedLines(input.text))[u]
    ensures input.BannerArray? ==> urls == input.urls
    ensures input.NoBanners? ==> urls == []
  {
    match input
    case BannerText(t) => ParseBanners(t)
    case BannerArray(urls) => urls
    case NoBanners => []
  }

  /** A URL as the parser leaves it: not empty, on one line, with no white space at either end. */
  predicate CleanUrl(u: string) {
    u != [] && '\n' !in u && !Text.IsJsSpace(u[0]) && !Text.IsJsSpace(u[|u| - 1])
  }

  /** Every URL of the list is clean. */
  predicate AllClean(urls: seq<string>) {
    forall i :: 0 <= i < |urls| ==> CleanUrl(urls[i])
  }

  /** A piece of a line trimmed and kept is clean. */
  lemma TrimmedClean(line: string)
    requires '\n' !in line && Text.Trim(line) != []
    ensures CleanUrl(Text.Trim(line))
  {
    var b := Text.TrimBounds(line, Text.IsJsSpace);
    var u := Text.Trim(line);
    assert u[0] == line[b.0] && u[|u| - 1] == line[b.1 - 1];
    assert forall k :: 0 <= k < |u| ==> u[k] == line[b.0 + k];
  }

  /** Every line kept by the parse is clean. */
  lemma LinesClean(text: string)
    ensures AllClean(DropEmpty(TrimmedLines(text)))
  {
    var kept := DropEmpty(TrimmedLines(text));
    forall i | 0 <= i < |kept| ensures CleanUrl(kept[i]) {
      LineClean(text, kept[i]);
    }
  }

  /** A trimmed line that is not blank is clean. */
  lemma LineClean(text: string, u: string)
    requires u in TrimmedLines(text) && u != []
    ensures CleanUrl(u)
  {
    var pieces := Split.SplitOn(text, '\n');
    var trimmed := TrimmedLines(text);
    var k :| 0 <= k < |trimmed| && trimmed[k] == u;
    assert u == Text.Trim(pieces[k]);
    Split.SplitPiecesFree(text, '\n', k);
    TrimmedClean(pieces[k]);
  }

  /** Dropping nothing: a list without empty strings is kept whole. */
  lemma {:induction false} DropEmptyKeeps(parts: seq<string>)
    requires forall i :: 0 <= i < |parts| ==> parts[i] != []
    ensures DropEmpty(parts) == parts
  {
    if parts != [] {
      DropEmptyKeeps(parts[1..]);
      assert parts == [parts[0]] + parts[1..];
    }
  }

  /** Clean URLs are their own trim. */
  lemma TrimEachClean(urls: seq<string>)
    requires AllClean(urls)
    ensures TrimEach(urls) == urls
  {
    var trimmed := TrimEach(urls);
    forall i | 0 <= i < |urls| ensures trimmed[i] == urls[i] {
      CleanTrim(urls[i]);
    }
  }

  /** A clean URL is its own trim. */
  lemma CleanTrim(u: string)
    requires CleanUrl(u)
    ensures Text.Trim(u) == u
  {
    Text.TrimByNoEnds(u, Text.IsJsSpace);
  }

  /** Parsing URLs written one per line gives back exactly those URLs, in order. */
  lemma ParseBannersJoin(urls: seq<string>)
    requires |urls| >= 1
    requires AllClean(urls)
    ensures ParseBanners(Split.JoinWith(urls, '\n')) == urls
  {
    Split.JoinSplit(urls, '\n');
    TrimEachClean(urls);
    DropEmptyKeeps(urls);
  }

  /** One entry of `GET /banners`. */
  datatype Banner = Banner(id: nat, imageUrl: string)

  /** Shown when no event configuration has been saved. */
  const PLACEHOLDER_1: string := "https://placehold.co/1200x400?text=Banner+1"
  const PLACEHOLDER_2: string := "https://placehold.co/1200x400?text=Banner+2"

  /** The stored URLs numbered from `first` + 1 on. */
  function NumberFrom(urls: seq<string>, first: nat): (bs: seq<Banner>)
    ensures |bs| == |urls|
    ensures forall i :: 0 <= i < |urls| ==> bs[i] == Banner(first + i + 1, urls[i])
  {
    if urls == [] then [] else [Banner(first + 1, urls[0])] + NumberFrom(urls[1..], first + 1)
  }

  /**
   * `GET /banners`: once a configuration is saved, its URLs in order with ids
   * 1..n (none for an empty list); before that the two placeholders.
   */
  function Banners(config: Option<seq<string>>): (bs: seq<Banner>)
    ensures config.None? ==> bs == [Banner(1, PLACEHOLDER_1), Banner(2, PLACEHOLDER_2)]
    ensures config.Some? ==> |bs| == |config.value|
    ensures config.Some? ==> forall i :: 0 <= i < |config.value| ==>
      bs[i].id == i + 1 && bs[i].imageUrl == config.value[i]
  {
    match config
    case None => [Banner(1, PLACEHOLDER_1), Banner(2, PLACEHOLDER_2)]
    case Some(urls) => NumberFrom(urls, 0)
  }

  // ---------------------------------------------------------------- backend

  /** The backend's state: the mode and its file, the local tables, the saved banners. */
  class Backend {
    var mode: Mode
    var modeFile: ModeFile
    /** `MODE` from the environment. */
    var env: Option<string>
    /** Check-ins by row id. */
    var checkins: map<int, Checkin>
    /** The id the next inserted check-in gets (ids are never reused). */
    var nextId: int
    /** The attendee counter of each booth. */
    var attendees: map<int, int>
    /** The banner URLs of the saved event configuration, if any. */
    var banners: Option<seq<string>>

    /**
     * The mode in force is the one a restart would read; row ids are below
     * `nextId`; each (uuid, booth) pair has at most one check-in; and each
     * booth's counter is the number of its check-ins.
     */
    predicate Valid()
      reads this
    {
      && ReadMode(modeFile, env) == mode
      && TablesOk(checkins, nextId, attendees)
    }

    /** Start-up: the mode is read, the booths exist with no check-ins yet. */
    constructor(file: ModeFile, envMode: Option<string>, booths: set<int>)
      ensures Valid()
      ensures mode == ReadMode(file, envMode) && modeFile == file && env == envMode
      ensures checkins == map[] && nextId == 1 && banners.None?
      ensures attendees == map b | b in booths :: 0
    {
      mode := ReadMode(file, envMode);
      modeFile := file;
      env := envMode;
      checkins := map[];
      nextId := 1;
      attendees := map b | b in booths :: 0;
      banners := None;
      new;
      forall b | b in attendees ensures attendees[b] == Count(checkins, b) {
        CountEmpty(b);
      }
    }

    /**
     * `POST /switch-mode`: anything but "local" or "cloud" is refused with
     * 400 and changes nothing; switching to the mode in force changes
     * nothing; otherwise the mode changes and is written to the file.
     */
    method SwitchMode(newMode: string) returns (status: nat)
      requires Valid()
      modifies this
      ensures Valid()
      ensures newMode != "local" && newMode != "cloud" ==> status == 400 && mode == old(mode) && modeFile == old(modeFile)
      ensures newMode == "local" || newMode == "cloud" ==> status == 200 && ModeName(mode) == newMode
      ensures mode == old(mode) ==> modeFile == old(modeFile)
      ensures mode != old(mode) ==> modeFile == Parsed(Some(newMode))
      ensures env == old(env) && checkins == old(checkins) && nextId == old(nextId)
      ensures attendees == old(attendees) && banners == old(banners)
    {
      if newMode != "local" && newMode != "cloud" {
        return 400;
      }
      var m := if newMode == "local" then Local else Cloud;
      if mode != m {
        mode := m;
        modeFile := Parsed(Some(newMode));
      }
      status := 200;
    }

    /**
     * `POST /checkin`. A missing uuid or a missing or zero booth id is
     * refused; in cloud mode the local tables are not touched; otherwise an
     * existing (uuid, booth) pair is reported as a duplicate and changes
     * nothing, and a new one adds one row and raises that booth's counter
     * by one.
     */
    method PostCheckin(uuid: string, boothId: Option<int>, now: int) returns (reply: CheckinReply)
      requires Valid()
      modifies this
      ensures Valid()
      ensures reply == BadRequest <==> uuid == [] || boothId.None? || boothId.value == 0
      ensures reply != Accepted ==> checkins == old(checkins) && attendees == old(attendees) && nextId == old(nextId)
      ensures reply == CloudBranch <==> uuid != [] && boothId.Some? && boothId.value != 0 && mode == Cloud
      ensures reply == Duplicated <==> uuid != [] && boothId.Some? && boothId.value != 0 && mode == Local
                                       && HasCheckin(old(checkins), uuid, boothId.value)
      ensures reply == Accepted <==> uuid != [] && boothId.Some? && boothId.value != 0 && mode == Local
                                     && !HasCheckin(old(checkins), uuid, boothId.value)
      ensures reply == Accepted ==> nextId == old(nextId) + 1
      ensures reply == Accepted ==> checkins == old(checkins)[old(nextId) := Checkin(uuid, boothId.value, now)]
      ensures reply == Accepted ==> attendees == if boothId.value in old(attendees) then old(attendees)[boothId.value := old(attendees)[boothId.value] + 1]
                        else old(attendees)
      ensures mode == old(mode) && modeFile == old(modeFile) && env == old(env) && banners == old(banners)
    {
      if uuid == [] || boothId.None? || boothId.value == 0 {
        return BadRequest;
      }
      if mode == Cloud {
        return CloudBranch;
      }
      var b := boothId.value;
      if exists id :: id in checkins && checkins[id].uuid == uuid && checkins[id].boothId == b {
        return Duplicated;
      }
      var row := Checkin(uuid, b, now);
      InsertKeepsTables(checkins, nextId, attendees, row);
      checkins := checkins[nextId := row];
      nextId := nextId + 1;
      if b in attendees {
        attendees := attendees[b := attendees[b] + 1];
      }
      reply := Accepted;
    }

    /**
     * `DELETE /checkins/:id`: an unknown id (or cloud mode) changes nothing;
     * otherwise the row goes and its booth's counter drops by one unless it
     * is already 0.
     */
    method DeleteCheckinById(id: int)
      requires Valid()
      modifies this
      ensures Valid()
      ensures mode == Cloud || id !in old(checkins) ==> checkins == old(checkins) && attendees == old(attendees)
      ensures mode == Local && id in old(checkins) ==>
        var b := old(checkins)[id].boothId;
        checkins == old(checkins) - {id}
        && attendees == if b in old(attendees) && old(attendees)[b] > 0 then old(attendees)[b := old(attendees)[b] - 1]
                        else old(attendees)
      ensures forall b :: b in old(attendees) && old(attendees)[b] >= 0 ==> b in attendees && attendees[b] >= 0
      ensures nextId == old(nextId) && mode == old(mode) && modeFile == old(modeFile)
      ensures env == old(env) && banners == old(banners)
    {
      if mode == Cloud || id !in checkins {
        return;
      }
      var b := checkins[id].boothId;
      forall c | c in attendees ensures Count(checkins - {id}, c) == Count(checkins, c) - (if b == c then 1 else 0) {
        CountRemove(checkins, id, c);
      }
      CountPositive(checkins, id);
      checkins := checkins - {id};
      if b in attendees && attendees[b] > 0 {
        attendees := attendees[b := attendees[b] - 1];
      }
    }

    /** `DELETE /checkins`: no check-ins remain and every booth's counter is 0 (cloud mode: nothing local changes). */
    method DeleteAllCheckins()
      requires Valid()
      modifies this
      ensures Valid()
      ensures mode == Cloud ==> checkins == old(checkins) && attendees == old(attendees)
      ensures mode == Local ==> checkins == map[] && attendees.Keys == old(attendees).Keys
      ensures mode == Local ==> forall b :: b in attendees ==> attendees[b] == 0
      ensures nextId == old(nextId) && mode == old(mode) && modeFile == old(modeFile)
      ensures env == old(env) && banners == old(banners)
    {
      if mode == Cloud {
        return;
      }
      checkins := map[];
      attendees := map b | b in attendees :: 0;
      forall b | b in attendees ensures attendees[b] == Count(checkins, b) {
        CountEmpty(b);
      }
    }

    /** `POST /event-config`: the banner list is replaced (in either mode). */
    method SaveEventConfig(input: BannerInput)
      requires Valid()
      modifies this
      ensures Valid()
      ensures banners == Some(StoredBanners(input))
      ensures mode == old(mode) && modeFile == old(modeFile) && env == old(env)
      ensures checkins == old(checkins) && nextId == old(nextId) && attendees == old(attendees)
    {
      banners := Some(StoredBanners(input));
    }
  }

  /** After a successful check-in the pair exists and the booth's counter equals its check-in count. */
  lemma AcceptedCounts(checkins: map<int, Checkin>, id: int, uuid: string, b: int, now: int)
    requires id !in checkins
    ensures HasCheckin(checkins[id := Checkin(uuid, b, now)], uuid, b)
    ensures Count(checkins[id := Checkin(uuid, b, now)], b) == Count(checkins, b) + 1
  {
    CountInsert(checkins, id, Checkin(uuid, b, now), b);
    assert checkins[id := Checkin(uuid, b, now)][id] == Checkin(uuid, b, now);
  }
}
