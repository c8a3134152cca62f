/**
 * The scoreboard server of the minigame: player-name sanitising, the
 * keep-the-best high-score rule of `POST /api/score`, and the leaderboard
 * that `GET /api/scores` returns. The hosted users table is modelled as a
 * map from uuid to row.
 */
module ScoreServer {
  import opened Wrappers
  import Text
  import Sorting

  /** At most this many leaderboard rows are returned. */
  const TOP_RETURN: nat := 50
  /** Names are cut to this many characters after trimming. */
  const NAME_MAX: nat := 16
  /** The name used when nothing printable remains. */
  const ANON: string := "anon"

  // ---------------------------------------------------------------- names

  /** Printable ASCII, or any code point from the Thai block (U+0E00) upwards. */
  predicate Allowed(c: char) {
    var k := c as int;
    (32 <= k <= 126) || k >= 0x0E00
  }

  /** The characters of s that are allowed, in order. */
  function KeepAllowed(s: string): (r: string)
    ensures |r| <= |s|
    ensures forall i :: 0 <= i < |r| ==> Allowed(r[i])
  {
    if s == [] then []
    else KeepAllowed(s[..|s| - 1]) + (if Allowed(s[|s| - 1]) then [s[|s| - 1]] else [])
  }

  /** a can be obtained from b by deleting characters (order is preserved). */
  predicate IsSubsequence(a: string, b: string)
    decreases |b|
  {
    if a == [] then true
    else if b == [] then false
    else if a[|a| - 1] == b[|b| - 1] then IsSubsequence(a[..|a| - 1], b[..|b| - 1])
    else IsSubsequence(a, b[..|b| - 1])
  }

  /** Some character of s is allowed. */
  predicate HasAllowed(s: string) {
    exists i :: 0 <= i < |s| && Allowed(s[i])
  }

  /** The trimmed name cut to 16 characters, before filtering: its first min(16, length) characters. */
  function NameSource(name: string): (t: string)
    ensures |t| == if |Text.Trim(name)| <= NAME_MAX then |Text.Trim(name)| else NAME_MAX
    ensures t == Text.Trim(name)[..|t|]
  {
    Sorting.Take(Text.Trim(name), NAME_MAX)
  }

  /**
   * What `sanitizeName` returns for a name whose string form is `name`: never
   * empty, at most 16 characters, made only of allowed characters, and either
   * "anon" or an order-preserving selection from the trimmed, cut input.
   */
  function SanitizedName(name: string): (r: string)
    ensures 0 < |r| <= NAME_MAX
    ensures forall i :: 0 <= i < |r| ==> Allowed(r[i])
    ensures r == ANON || IsSubsequence(r, NameSource(name))
    ensures HasAllowed(NameSource(name)) ==> r == KeepAllowed(NameSource(name))
    ensures !HasAllowed(NameSource(name)) ==> r == ANON
  {
    var src := NameSource(name);
    var safe := KeepAllowed(src);
    KeepAllowedSubsequence(src);
    KeptIffAllowed(src);
    if safe == [] then ANON else safe
  }

  /** Filtering keeps every allowed character as often as it occurs in s. */
  lemma {:induction false} KeepAllowedCounts(s: string)
    ensures forall c :: Allowed(c) ==> multiset(KeepAllowed(s))[c] == multiset(s)[c]
  {
    if s != [] {
      var init, last := s[..|s| - 1], s[|s| - 1];
      KeepAllowedCounts(init);
      assert s == init + [last];
    }
  }

  /** Filtering leaves something exactly when some character is allowed. */
  lemma KeptIffAllowed(s: string)
    ensures KeepAllowed(s) != [] <==> HasAllowed(s)
  {
    var r := KeepAllowed(s);
    KeepAllowedCounts(s);
    if HasAllowed(s) {
      var i :| 0 <= i < |s| && Allowed(s[i]);
      assert s[i] in multiset(s);
      assert multiset(r)[s[i]] > 0;
    }
    if r != [] {
      assert multiset(r)[r[0]] > 0;
      assert r[0] in s;
    }
  }

  /**
   * `sanitizeName`: trim, cut to 16 characters, then keep the allowed characters
   * one by one; "anon" when none is left.
   */
  method SanitizeName(name: string) returns (r: string)
    ensures r == SanitizedName(name)
  {
    var t := Text.Trim(name);
    if |t| > NAME_MAX {
      t := t[..NAME_MAX];
    }
    assert t == NameSource(name);
    var safe := "";
    var i := 0;
    while i < |t|
      invariant 0 <= i <= |t|
      invariant safe == KeepAllowed(t[..i])
    {
      assert t[..i + 1][..i] == t[..i];
      if Allowed(t[i]) {
        safe := safe + [t[i]];
      }
      i := i + 1;
    }
    assert t[..i] == t;
    r := if safe == [] then ANON else safe;
  }

  /** Filtering only deletes characters and keeps the order. */
  lemma {:induction false} KeepAllowedSubsequence(s: string)
    ensures IsSubsequence(KeepAllowed(s), s)
  {
    if s != [] {
      var init, last := s[..|s| - 1], s[|s| - 1];
      KeepAllowedSubsequence(init);
      var r := KeepAllowed(s);
      if Allowed(last) {
        assert r == KeepAllowed(init) + [last];
        assert r[..|r| - 1] == KeepAllowed(init);
      } else if r != [] {
        assert r == KeepAllowed(init);
        assert Allowed(r[|r| - 1]);
      }
    }
  }

  /** Filtering changes a string exactly when it holds a character that is not allowed. */
  lemma {:induction false} KeepAllowedFixed(s: string)
    ensures KeepAllowed(s) == s <==> forall i :: 0 <= i < |s| ==> Allowed(s[i])
  {
    if s != [] && forall i :: 0 <= i < |s| ==> Allowed(s[i]) {
      var init, last := s[..|s| - 1], s[|s| - 1];
      assert forall i :: 0 <= i < |init| ==> Allowed(init[i]) by {
        forall i | 0 <= i < |init| ensures Allowed(init[i]) { assert init[i] == s[i]; }
      }
      KeepAllowedFixed(init);
      assert s == init + [last];
    }
  }

  // ------------------------------------------------------------ high scores

  /**
   * A row of the users table. `score` is None for a row written without a
   * score (the check-in back-end creates users that way); its `ts` is then
   * not read by anything.
   */
  datatype UserRow = UserRow(nickname: string, score: Option<int>, ts: int)

  /** One accepted `POST /api/score`: the uuid, the sanitised nickname, the parsed score, the time in seconds. */
  datatype Post = Post(uuid: string, nickname: string, score: int, ts: int)

  /** The stored score a post is compared with, a missing one counting as 0. */
  function OldScore(row: UserRow): int
  {
    if row.score.Some? then row.score.value else 0
  }

  /**
   * The table after an accepted post: a new uuid is inserted with its nickname;
   * a known uuid gets the new score and time only when the score is strictly
   * higher than its stored one (0 when that is missing), keeping its
   * nickname; otherwise nothing changes.
   */
  function Recorded(users: map<string, UserRow>, p: Post): (r: map<string, UserRow>)
    ensures r.Keys == users.Keys + {p.uuid}
    ensures forall u :: u in users && u != p.uuid ==> r[u] == users[u]
    ensures p.uuid !in users ==> r[p.uuid] == UserRow(p.nickname, Some(p.score), p.ts)
    ensures p.uuid in users ==> r[p.uuid].nickname == users[p.uuid].nickname
    ensures p.uuid in users && p.score <= OldScore(users[p.uuid]) ==> r == users
    ensures p.uuid in users && p.score > OldScore(users[p.uuid]) ==>
      r[p.uuid] == users[p.uuid].(score := Some(p.score), ts := p.ts)
    ensures r[p.uuid].score.None? <==> p.uuid in users && users[p.uuid].score.None? && p.score <= 0
    ensures p.uuid in users && users[p.uuid].score.None? && p.score > 0 ==> r[p.uuid].score == Some(p.score)
    ensures OldScore(r[p.uuid]) >= p.score
  {
    if p.uuid !in users then users[p.uuid := UserRow(p.nickname, Some(p.score), p.ts)]
    else if p.score > OldScore(users[p.uuid]) then users[p.uuid := users[p.uuid].(score := Some(p.score), ts := p.ts)]
    else users
  }

  /**
   * The table after a series of accepted posts, in order: it keeps every old
   * uuid, holds every posted one, and a uuid never posted keeps its row.
   */
  function RecordedAll(users: map<string, UserRow>, posts: seq<Post>): (r: map<string, UserRow>)
    ensures users.Keys <= r.Keys
    ensures forall k :: 0 <= k < |posts| ==> posts[k].uuid in r
    ensures forall u :: u in users && (forall k :: 0 <= k < |posts| ==> posts[k].uuid != u) ==> r[u] == users[u]
    decreases |posts|
  {
    if posts == [] then users
    else
      var init := posts[..|posts| - 1];
      assert forall k :: 0 <= k < |init| ==> init[k] == posts[k];
      Recorded(RecordedAll(users, init), posts[|posts| - 1])
  }

  /**
   * After any series of posts, a stored score never went down, it is at least
   * every score posted for that uuid, and it is either the score stored before
   * or one of those posted.
   */
  lemma {:induction false} RecordedAllBest(users: map<string, UserRow>, posts: seq<Post>, u: string)
    ensures var r := RecordedAll(users, posts);
      (u in users ==> u in r && OldScore(r[u]) >= OldScore(users[u]))
      && (forall k :: 0 <= k < |posts| && posts[k].uuid == u ==> u in r && OldScore(r[u]) >= posts[k].score)
      && (u in r ==> (u in users && r[u].score == users[u].score)
                     || exists k :: 0 <= k < |posts| && posts[k].uuid == u && r[u].score == Some(posts[k].score))
  {
    if posts != [] {
      var init, last := posts[..|posts| - 1], posts[|posts| - 1];
      RecordedAllBest(users, init, u);
      var before := RecordedAll(users, init);
      var r := Recorded(before, last);
      forall k | 0 <= k < |posts| && posts[k].uuid == u ensures u in r && OldScore(r[u]) >= posts[k].score {
        if k < |init| {
          assert init[k] == posts[k];
        }
      }
      if u in r && last.uuid == u && r[u].score == Some(last.score) {
        assert posts[|posts| - 1] == last;
      } else if u in r {
        assert u in before && r[u].score == before[u].score;
        if !(u in users && before[u].score == users[u].score) {
          var k :| 0 <= k < |init| && init[k].uuid == u && before[u].score == Some(init[k].score);
          assert posts[k] == init[k];
        }
      }
    }
  }

  /** The hosted users table behind `POST /api/score`. */
  class ScoreTable {
    var users: map<string, UserRow>

    constructor()
      ensures users == map[]
    {
      users := map[];
    }

    /**
     * `POST /api/score`. `score` is the result of `parseInt(body.score, 10)`,
     * None when it is not a finite number; `nowMs` is `Date.now()`.
     * Returns the HTTP status.
     */
    method PostScore(uuid: string, name: string, score: Option<int>, nowMs: int) returns (status: nat)
      modifies this
      ensures score.None? ==> status == 400 && users == old(users)
      ensures score.Some? ==> status == 200
      ensures score.Some? ==> users == Recorded(old(users), Post(uuid, SanitizedName(name), score.value, nowMs / 1000))
    {
      var nickname := SanitizeName(name);
      var ts := nowMs / 1000;
      if score.None? {
        return 400;
      }
      var s := score.value;
      if uuid !in users {
        users := users[uuid := UserRow(nickname, Some(s), ts)];
      } else if s > OldScore(users[uuid]) {
        users := users[uuid := users[uuid].(score := Some(s), ts := ts)];
      }
      status := 200;
    }
  }

  // ------------------------------------------------------------ leaderboard

  /** A row as selected by `GET /api/scores`; `score` is None for a null column. */
  datatype StoredRow = StoredRow(uuid: string, nickname: string, score: Option<int>, ts: int)

  /** A row the query keeps: one whose score is set. */
  datatype ScoredRow = ScoredRow(uuid: string, nickname: string, score: int, ts: int)

  /** A leaderboard entry as sent to the client. */
  datatype Entry = Entry(name: string, score: int, ts: int)

  function ScoreOf(r: ScoredRow): int { r.score }

  /** The stored row a kept row was read from. */
  function Lift(r: ScoredRow): StoredRow { StoredRow(r.uuid, r.nickname, Some(r.score), r.ts) }

  /** `.not("score", "is", null)`: the rows that have a score, in order. */
  function NonNull(rows: seq<StoredRow>): (kept: seq<ScoredRow>)
    ensures |kept| <= |rows|
    ensures forall i :: 0 <= i < |kept| ==> Lift(kept[i]) in rows
  {
    if rows == [] then []
    else
      var rest, last := NonNull(rows[..|rows| - 1]), rows[|rows| - 1];
      if last.score.Some? then rest + [ScoredRow(last.uuid, last.nickname, last.score.value, last.ts)]
      else rest
  }

  /**
   * The filter keeps exactly the rows with a score, each as often as it
   * occurs: a row with a null score is never kept.
   */
  lemma {:induction false} NonNullCounts(rows: seq<StoredRow>)
    ensures forall x :: multiset(NonNull(rows))[x] == multiset(rows)[Lift(x)]
  {
    if rows != [] {
      var init, last := rows[..|rows| - 1], rows[|rows| - 1];
      NonNullCounts(init);
      assert rows == init + [last];
    }
  }

  /**
   * The displayed name: "nickname (uuid)", or the bare nickname for an empty
   * uuid. The name starts with the nickname, and the uuid can be read back
   * from between the " (" after the nickname and the final ")".
   */
  function Display(r: ScoredRow): (e: Entry)
    ensures e.score == r.score && e.ts == r.ts
    ensures |r.nickname| <= |e.name| && e.name[..|r.nickname|] == r.nickname
    ensures r.uuid == [] <==> |e.name| == |r.nickname|
    ensures r.uuid != [] ==>
      && |e.name| == |r.nickname| + |r.uuid| + 3
      && e.name[|r.nickname|..|r.nickname| + 2] == " (" && e.name[|e.name| - 1] == ')'
      && e.name[|r.nickname| + 2..|e.name| - 1] == r.uuid
  {
    if r.uuid == [] then Entry(r.nickname, r.score, r.ts)
    else
      var name := r.nickname + " (" + r.uuid + ")";
      assert name[..|r.nickname|] == r.nickname;
      assert name[|r.nickname|..|r.nickname| + 2] == " (";
      assert name[|r.nickname| + 2..|name| - 1] == r.uuid;
      Entry(name, r.score, r.ts)
  }

  function DisplayAll(rows: seq<ScoredRow>): (es: seq<Entry>)
    ensures |es| == |rows|
    ensures forall i :: 0 <= i < |rows| ==> es[i] == Display(rows[i])
  {
    if rows == [] then [] else DisplayAll(rows[..|rows| - 1]) + [Display(rows[|rows| - 1])]
  }

  /**
   * `GET /api/scores` over the table's rows: drop the rows without a score,
   * order by score descending, keep 50, format. The board has
   * min(|scored rows|, 50) entries, in descending score order.
   */
  function Leaderboard(rows: seq<StoredRow>): (board: seq<Entry>)
    ensures |board| == (if |NonNull(rows)| <= TOP_RETURN then |NonNull(rows)| else TOP_RETURN)
    ensures forall i, j :: 0 <= i < j < |board| ==> board[i].score >= board[j].score
  {
    var ranked := Sorting.SortDesc(NonNull(rows), ScoreOf);
    Sorting.TakeSorted(ranked, TOP_RETURN, ScoreOf);
    DisplayAll(Sorting.Take(ranked, TOP_RETURN))
  }

  /**
   * The leaderboard shows the first n rows of a ranking of the rows that have
   * a score, no row left out scores more than any row shown, and the ranking
   * holds every scored row of the table as often as it occurs and no row
   * whose score is null.
   */
  lemma LeaderboardTop(rows: seq<StoredRow>)
    ensures var ranked := Sorting.SortDesc(NonNull(rows), ScoreOf);
      var n := |Leaderboard(rows)|;
      Leaderboard(rows) == DisplayAll(ranked[..n])
      && multiset(ranked[..n]) + multiset(ranked[n..]) == multiset(NonNull(rows))
      && (forall x :: multiset(ranked)[x] == multiset(rows)[Lift(x)])
      && forall i, j :: 0 <= i < n <= j < |ranked| ==> ranked[i].score >= ranked[j].score
  {
    var ranked := Sorting.SortDesc(NonNull(rows), ScoreOf);
    var n := |Leaderboard(rows)|;
    assert ranked == ranked[..n] + ranked[n..];
    NonNullCounts(rows);
  }
}
