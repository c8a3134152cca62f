/**
 * The QR-Pac engine: one mutable game state, advanced frame by frame. The
 * player eats the food nodes of a QR symbol; red nodes explode in chains,
 * yellow ones stun, ghosts repaint white nodes; the round is won when the
 * remaining nodes no longer scan as the original text, and lost when time
 * or health runs out.
 *
 * Randomness, the clock, the frame length, square roots, the idle drift of
 * the ghosts (cosine and sine), the QR encoder and the QR decoder are all
 * parameters of the methods that use them.
 */
module GameEngine {
  import opened Wrappers
  import opened Text
  import opened GameConfig
  import opened Draws
  import opened GameRules
  import opened GameBoard
  import opened QrVersion

  /** A ghost: position, time of its last paint (seconds), the directions it may paint in, and the index of the node it is heading for (−1 for none). */
  datatype Ghost = Ghost(pos: Point, lastPaint: real, mask: seq<bool>, paintTarget: int)

  /** Random draws of one board build: the shuffle's draws, then per ghost the banned direction and the paint phase. */
  datatype BuildDraws = BuildDraws(shuffle: seq<real>, bans: seq<real>, paints: seq<real>)

  /** The centre of a node. */
  function FoodPos(f: Food): Point
  {
    Point(f.x, f.y)
  }

  /** Squared blast radius (2.6²) and squared eating radius (0.5²). */
  const BLAST_R2: real := Y_EXP_RADIUS * Y_EXP_RADIUS
  const EAT_R2: real := PAC_EAT_RADIUS_TILES * PAC_EAT_RADIUS_TILES

  /** Number of nodes still alive. */
  function AliveCount(s: seq<Food>): nat
  {
    if s == [] then 0 else AliveCount(s[..|s| - 1]) + (if s[|s| - 1].alive then 1 else 0)
  }

  /** Killing an alive node lowers the alive count by one. */
  lemma {:induction false} AliveCountKill(s: seq<Food>, i: nat)
    requires i < |s| && s[i].alive
    ensures AliveCount(s[i := s[i].(alive := false)]) == AliveCount(s) - 1
    decreases |s|
  {
    var t := s[i := s[i].(alive := false)];
    if i < |s| - 1 {
      assert t[..|t| - 1] == s[..|s| - 1][i := s[i].(alive := false)];
      AliveCountKill(s[..|s| - 1], i);
    } else {
      assert t[..|t| - 1] == s[..|s| - 1];
    }
  }

  /** Nodes are only killed: same nodes, same places, same kinds, none revived. */
  predicate KillOnly(before: seq<Food>, after: seq<Food>)
  {
    |after| == |before|
    && forall i :: 0 <= i < |before| ==>
      after[i].x == before[i].x && after[i].y == before[i].y && after[i].kind == before[i].kind
      && (after[i].alive ==> before[i].alive)
  }

  lemma KillOnlyTrans(a: seq<Food>, b: seq<Food>, c: seq<Food>)
    requires KillOnly(a, b) && KillOnly(b, c)
    ensures KillOnly(a, c)
  {
  }

  /** Nodes are repainted only: same nodes, same places, same liveness; a kind changes only on an alive node, from white to red or yellow. */
  predicate RepaintOnly(before: seq<Food>, after: seq<Food>)
  {
    |after| == |before|
    && forall i :: 0 <= i < |before| ==>
      after[i] == before[i].(kind := after[i].kind)
      && (after[i].kind != before[i].kind ==> before[i].alive && before[i].kind == White && after[i].kind != White)
  }

  lemma RepaintOnlyTrans(a: seq<Food>, b: seq<Food>, c: seq<Food>)
    requires RepaintOnly(a, b) && RepaintOnly(b, c)
    ensures RepaintOnly(a, c)
  {
  }

  /** A node the ghost could paint: alive, white, within the radius, and in a direction its mask allows. */
  predicate Eligible(foods: seq<Food>, gh: Ghost, radius: real, i: int)
  {
    0 <= i < |foods| && foods[i].alive && foods[i].kind == White
    && Dist2(FoodPos(foods[i]), gh.pos) <= radius * radius
    && Allowed(gh.mask, DirIndex(foods[i].x - gh.pos.x, foods[i].y - gh.pos.y))
  }

  /**
   * i is the answer of `findNearestWhiteWithin` among the first n nodes:
   * eligible, no eligible node strictly nearer, and none as near at a lower
   * index.
   */
  predicate NearestBelow(foods: seq<Food>, gh: Ghost, radius: real, i: int, n: int)
  {
    Eligible(foods, gh, radius, i) && i < n
    && forall j :: 0 <= j < n && Eligible(foods, gh, radius, j) ==>
      Dist2(FoodPos(foods[i]), gh.pos) <= Dist2(FoodPos(foods[j]), gh.pos)
      && (j < i ==> Dist2(FoodPos(foods[i]), gh.pos) < Dist2(FoodPos(foods[j]), gh.pos))
  }

  predicate Nearest(foods: seq<Food>, gh: Ghost, radius: real, i: int)
  {
    NearestBelow(foods, gh, radius, i, |foods|)
  }

  /** At most one node is the nearest, so the search's answer is determined by its contract. */
  lemma NearestUnique(foods: seq<Food>, gh: Ghost, radius: real, i: int, j: int)
    requires Nearest(foods, gh, radius, i) && Nearest(foods, gh, radius, j)
    ensures i == j
  {
  }

  /** A ghost keeps its target while that node is alive, white and within the give-up radius. */
  predicate KeepsTarget(foods: seq<Food>, gh: Ghost)
  {
    0 <= gh.paintTarget < |foods| && foods[gh.paintTarget].alive && foods[gh.paintTarget].kind == White
    && Dist2(FoodPos(foods[gh.paintTarget]), gh.pos) <= GIVEUP_RADIUS * GIVEUP_RADIUS
  }

  /** `pickPaintColor`: red for a draw below one half, yellow otherwise; never white. */
  function PaintColor(roll: real): (k: Kind)
    ensures k != White
    ensures k == Red <==> roll < 0.5
  {
    if roll < 0.5 then Red else Yellow
  }

  /**
   * A ghost's step towards its target q: `len` stands for the distance; the
   * ghost moves `step` along the heading scaled to unit length (a unit
   * vector when `len` is the true distance, by NormalisedIsUnit), then
   * wraps and clamps as `tryMove` does. When the two (nearly) coincide the
   * ghost stays.
   */
  function Approach(n: nat, p: Point, q: Point, len: real, step: real): (r: Point)
    ensures len <= MIN_STEP_LEN ==> r == p
    ensures n >= 1 && InBounds(n, p) ==> InBounds(n, r)
  {
    if len > MIN_STEP_LEN then
      var u := Normalised(Point(q.x - p.x, q.y - p.y), len);
      TryMove(n, p, u.x * step, u.y * step)
    else p
  }

  /** The position of node `target`, if it is one. */
  function TargetPos(foods: seq<Food>, target: int): (t: Option<Point>)
    ensures t.Some? <==> 0 <= target < |foods|
  {
    if 0 <= target < |foods| then Some(FoodPos(foods[target])) else None
  }

  /**
   * Where a ghost moves in one frame: towards its target when it has one
   * (Approach at GO_SPEED_TPS, `sqrt` standing for the square root), and
   * otherwise along its drift direction at GHOST_SPEED_TPS · DRIFT_FACTOR.
   */
  function GhostMove(n: nat, p: Point, target: Option<Point>, sqrt: real -> real, drift: Point, dt: real): (r: Point)
    ensures n >= 1 && InBounds(n, p) ==> InBounds(n, r)
  {
    match target
    case Some(q) => Approach(n, p, q, sqrt(Dist2(q, p)), GO_SPEED_TPS * dt)
    case None =>
      var speed := GHOST_SPEED_TPS * DRIFT_FACTOR;
      TryMove(n, p, drift.x * speed * dt, drift.y * speed * dt)
  }

  /** Repainting keeps nodes clear of a point. */
  lemma ClearAroundRepaint(before: seq<Food>, after: seq<Food>, p: Point, r2: real)
    requires RepaintOnly(before, after) && ClearAround(before, |before|, p, r2)
    ensures ClearAround(after, |after|, p, r2)
  {
    forall j | 0 <= j < |after| && after[j].alive
      ensures Dist2(FoodPos(after[j]), p) > r2
    {
      assert FoodPos(after[j]) == FoodPos(before[j]);
    }
  }

  /** Nodes change only as a frame of play changes them: same places, none revived, a kind changes only from white. */
  predicate Evolves(before: seq<Food>, after: seq<Food>)
  {
    OnlyKilled(before, after)
    && forall i :: 0 <= i < |before| && after[i].kind != before[i].kind ==> before[i].kind == White
  }

  lemma KillThenRepaint(a: seq<Food>, b: seq<Food>, c: seq<Food>)
    requires KillOnly(a, b) && RepaintOnly(b, c)
    ensures Evolves(a, c)
  {
  }

  /** `toFixed(3)` of a coordinate, as the integer number of thousandths it prints (halves rounded away from zero). */
  function Fixed3(v: real): int
  {
    if v >= 0.0 then (v * 1000.0 + 0.5).Floor else -((-v * 1000.0 + 0.5).Floor)
  }

  /** The key under which a blast centre is remembered. */
  function CentreKey(p: Point): (int, int)
  {
    (Fixed3(p.x), Fixed3(p.y))
  }

  /** No two centres share a key. */
  predicate KeysDistinct(cs: seq<Point>)
  {
    forall a, b :: 0 <= a < b < |cs| ==> CentreKey(cs[a]) != CentreKey(cs[b])
  }

  /** Every centre's key has been remembered. */
  predicate KeysSeen(cs: seq<Point>, seen: set<(int, int)>)
  {
    forall a :: 0 <= a < |cs| ==> CentreKey(cs[a]) in seen
  }

  /** A centre with an unseen key keeps the keys distinct. */
  lemma KeysDistinctSnoc(cs: seq<Point>, c: Point, seen: set<(int, int)>)
    requires KeysDistinct(cs) && KeysSeen(cs, seen) && CentreKey(c) !in seen
    ensures KeysDistinct(cs + [c]) && KeysSeen(cs + [c], seen + {CentreKey(c)})
  {
    var cs' := cs + [c];
    forall a, b | 0 <= a < b < |cs'| ensures CentreKey(cs'[a]) != CentreKey(cs'[b])
    {
      assert cs'[a] == cs[a];
      if b < |cs| {
        assert cs'[b] == cs[b];
      }
    }
    forall a | 0 <= a < |cs'| ensures CentreKey(cs'[a]) in seen + {CentreKey(c)}
    {
      if a < |cs| {
        assert cs'[a] == cs[a];
      }
    }
  }

  /** No alive node among the first n lies within squared distance r2 of p. */
  predicate ClearAround(foods: seq<Food>, n: int, p: Point, r2: real)
  {
    forall j :: 0 <= j < n && j < |foods| && foods[j].alive ==> Dist2(FoodPos(foods[j]), p) > r2
  }

  /** Killing nodes keeps a neighbourhood clear, and a clear next node extends it. */
  lemma ClearAroundStep(before: seq<Food>, after: seq<Food>, n: int, p: Point, r2: real)
    requires KillOnly(before, after) && ClearAround(before, n, p, r2) && 0 <= n < |after|
    requires after[n].alive ==> Dist2(FoodPos(after[n]), p) > r2
    ensures ClearAround(after, n + 1, p, r2)
  {
    forall j | 0 <= j < n + 1 && j < |after| && after[j].alive
      ensures Dist2(FoodPos(after[j]), p) > r2
    {
      if j < n {
        assert before[j].alive && FoodPos(before[j]) == FoodPos(after[j]);
      }
    }
  }

  /** No alive node lies within the blast radius of any of the centres. */
  predicate Cleared(foods: seq<Food>, centres: seq<Point>)
  {
    forall k, j :: 0 <= k < |centres| && 0 <= j < |foods| && foods[j].alive ==>
      Dist2(FoodPos(foods[j]), centres[k]) > BLAST_R2
  }

  lemma ClearedSnoc(before: seq<Food>, after: seq<Food>, centres: seq<Point>, c: Point)
    requires Cleared(before, centres) && KillOnly(before, after)
    requires forall j :: 0 <= j < |after| && after[j].alive ==> Dist2(FoodPos(after[j]), c) > BLAST_R2
    ensures Cleared(after, centres + [c])
  {
    var cs := centres + [c];
    forall k, j | 0 <= k < |cs| && 0 <= j < |after| && after[j].alive
      ensures Dist2(FoodPos(after[j]), cs[k]) > BLAST_R2
    {
      if k < |centres| {
        assert cs[k] == centres[k];
        assert before[j].alive && FoodPos(before[j]) == FoodPos(after[j]);
      }
    }
  }

  /**
   * The red nodes killed since `start`: each listed once, each alive in
   * `start` and dead in `now`, and every red node that died since is listed.
   */
  predicate RedLedger(start: seq<Food>, now: seq<Food>, reds: seq<nat>)
  {
    |now| == |start|
    && Distinct(reds)
    && (forall t :: 0 <= t < |reds| ==>
          reds[t] < |now| && start[reds[t]].alive && !now[reds[t]].alive && now[reds[t]].kind == Red)
    && (forall j :: 0 <= j < |now| && start[j].alive && !now[j].alive && now[j].kind == Red ==> j in reds)
  }

  lemma RedLedgerAppend(start: seq<Food>, before: seq<Food>, after: seq<Food>, reds: seq<nat>, killed: seq<nat>)
    requires RedLedger(start, before, reds) && KillOnly(start, before)
    requires RedLedger(before, after, killed) && KillOnly(before, after)
    ensures RedLedger(start, after, reds + killed) && KillOnly(start, after)
  {
    forall p, q | 0 <= p < |reds| && 0 <= q < |killed| ensures reds[p] != killed[q]
    {
      assert !before[reds[p]].alive && before[killed[q]].alive;
    }
    DistinctConcat(reds, killed);
    var all := reds + killed;
    forall j | 0 <= j < |after| && start[j].alive && !after[j].alive && after[j].kind == Red
      ensures j in all
    {
      if before[j].alive {
        assert j in killed;
      } else {
        assert j in reds;
      }
    }
  }

  /** Number of blast centres within the blast radius of the player. */
  function HitsOn(centres: seq<Point>, pac: Point): nat
  {
    if centres == [] then 0
    else HitsOn(centres[..|centres| - 1], pac) + (if Dist2(pac, centres[|centres| - 1]) <= BLAST_R2 then 1 else 0)
  }

  /** A centre within the blast radius of the player counts at least once. */
  lemma {:induction false} HitsOnPositive(centres: seq<Point>, pac: Point, k: nat)
    requires k < |centres| && Dist2(pac, centres[k]) <= BLAST_R2
    ensures HitsOn(centres, pac) >= 1
    decreases |centres|
  {
    if k < |centres| - 1 {
      var init := centres[..|centres| - 1];
      assert init[k] == centres[k];
      HitsOnPositive(init, pac, k);
    }
  }

  /** A node within the player's eating radius lies within the blast radius of the player. */
  lemma BitesInBlast(f: Food, pac: Point)
    requires Bites(f, pac)
    ensures Dist2(pac, FoodPos(f)) <= BLAST_R2
  {
    var p := FoodPos(f);
    assert (pac.x - p.x) * (pac.x - p.x) == (p.x - pac.x) * (p.x - pac.x);
    assert (pac.y - p.y) * (pac.y - p.y) == (p.y - pac.y) * (p.y - pac.y);
  }

  /** The hits of two lists of centres add up. */
  lemma {:induction false} HitsOnConcat(a: seq<Point>, b: seq<Point>, pac: Point)
    ensures HitsOn(a + b, pac) == HitsOn(a, pac) + HitsOn(b, pac)
    decreases |b|
  {
    if b == [] {
      assert a + b == a;
    } else {
      var init := b[..|b| - 1];
      assert (a + b)[..|a + b| - 1] == a + init;
      HitsOnConcat(a, init, pac);
    }
  }

  /** Killing more nodes keeps the neighbourhoods of the centres clear. */
  lemma ClearedKill(before: seq<Food>, after: seq<Food>, centres: seq<Point>)
    requires Cleared(before, centres) && KillOnly(before, after)
    ensures Cleared(after, centres)
  {
    forall k, j | 0 <= k < |centres| && 0 <= j < |after| && after[j].alive
      ensures Dist2(FoodPos(after[j]), centres[k]) > BLAST_R2
    {
      assert before[j].alive && FoodPos(before[j]) == FoodPos(after[j]);
    }
  }

  /** Two lists of centres with clear neighbourhoods make one. */
  lemma ClearedConcat(foods: seq<Food>, a: seq<Point>, b: seq<Point>)
    requires Cleared(foods, a) && Cleared(foods, b)
    ensures Cleared(foods, a + b)
  {
    forall k, j | 0 <= k < |a + b| && 0 <= j < |foods| && foods[j].alive
      ensures Dist2(FoodPos(foods[j]), (a + b)[k]) > BLAST_R2
    {
      if k < |a| {
        assert (a + b)[k] == a[k];
      } else {
        assert (a + b)[k] == b[k - |a|];
      }
    }
  }

  /**
   * The explosion side of `eatFoods`'s loop after i nodes of the board f0,
   * for a round that started with health hp0: the first red node eaten set
   * off the first chain at its position and no red node before it was
   * within reach (EatFirst); no alive node is within the blast radius of any
   * centre of any chain, the centres near the player took BLAST_DAMAGE each
   * off health (down to 0), and once health is gone the round is over and
   * lost (EatHealth).
   */
  predicate EatBook(f0: seq<Food>, hp0: real, pac: Point, i: nat, exploded: bool, first: nat,
                    centres: seq<Point>, hits: nat, foods: seq<Food>, s: Session)
  {
    EatFirst(f0, pac, i, exploded, first, centres, hits) && EatHealth(hp0, pac, centres, hits, foods, s)
  }

  predicate EatFirst(f0: seq<Food>, pac: Point, i: nat, exploded: bool, first: nat, centres: seq<Point>, hits: nat)
  {
    (exploded ==>
       first < i && first < |f0| && Bites(f0[first], pac) && f0[first].kind == Red
       && CountBitten(f0[..first], pac, Red) == 0
       && |centres| >= 1 && centres[0] == FoodPos(f0[first]) && hits >= 1)
    && (!exploded ==> centres == [] && hits == 0)
  }

  predicate EatHealth(hp0: real, pac: Point, centres: seq<Point>, hits: nat, foods: seq<Food>, s: Session)
  {
    Cleared(foods, centres) && hits == HitsOn(centres, pac)
    && s.hp == Max(0.0, hp0 - 15.0 * hits as real)
    && (hits > 0 && s.hp <= 0.0 ==> !s.playing && !s.scanning && !s.lastEndWasWin)
  }

  /** The first explosion stays the first one. */
  lemma EatFirstStep(f0: seq<Food>, pac: Point, i: nat, exploded: bool, first: nat, centres: seq<Point>, hits: nat,
                     fb: seq<Food>, boom: bool, cs: seq<Point>, h: nat)
    requires EatFirst(f0, pac, i, exploded, first, centres, hits)
    requires i < |f0| == |fb| && (exploded <==> CountBitten(f0[..i], pac, Red) > 0)
    requires !exploded ==> fb[i] == f0[i]
    requires boom <==> Bites(fb[i], pac) && fb[i].kind == Red
    requires !boom ==> cs == [] && h == 0
    requires boom ==> |cs| >= 1 && cs[0] == FoodPos(fb[i]) && h >= 1
    ensures EatFirst(f0, pac, i + 1, exploded || boom, if boom && !exploded then i else first, centres + cs, hits + h)
  {
    if boom {
      if exploded {
        assert (centres + cs)[0] == centres[0];
      } else {
        assert centres + cs == cs;
      }
    } else {
      assert centres + cs == centres;
    }
  }

  /** Another chain's centres, and the blasts they deal, keep the health side. */
  lemma EatHealthStep(hp0: real, pac: Point, centres: seq<Point>, hits: nat, fb: seq<Food>, sb: Session,
                      boom: bool, cs: seq<Point>, h: nat, fa: seq<Food>, sa: Session)
    requires EatHealth(hp0, pac, centres, hits, fb, sb)
    requires KillOnly(fb, fa)
    requires !boom ==> cs == [] && h == 0
    requires !boom ==> sa.hp == sb.hp && sa.playing == sb.playing && sa.scanning == sb.scanning && sa.lastEndWasWin == sb.lastEndWasWin
    requires boom ==> Cleared(fa, cs) && h == HitsOn(cs, pac) && h >= 1
    requires boom ==> AfterBlasts(sb, sa, h)
    ensures EatHealth(hp0, pac, centres + cs, hits + h, fa, sa)
  {
    ClearedKill(fb, fa, centres);
    HitsOnConcat(centres, cs, pac);
    if boom {
      ClearedConcat(fa, centres, cs);
      FloorShift(0.0, hp0 - 15.0 * hits as real, 15.0 * h as real);
    } else {
      assert centres + cs == centres;
    }
  }

  /**
   * The invariant of `eatFoods`'s loop after i nodes of the board f0, from
   * round s0: nodes were only killed, none of the first i alive within the
   * eating radius, an explosion happened exactly when one of them was a red
   * node within reach (EatBook), and without one the board, health, play
   * state, score and stun deadline are those of biting the first i nodes.
   */
  predicate EatLoop(f0: seq<Food>, s0: Session, pac: Point, nowMs: real, i: nat, exploded: bool, first: nat,
                    centres: seq<Point>, hits: nat, foods: seq<Food>, s: Session)
  {
    i <= |foods| == |f0|
    && KillOnly(f0, foods)
    && ClearAround(foods, i, pac, EAT_R2)
    && (exploded <==> CountBitten(f0[..i], pac, Red) > 0)
    && EatBook(f0, s0.hp, pac, i, exploded, first, centres, hits, foods, s)
    && (!exploded ==> EatQuiet(f0, s0, pac, nowMs, i, foods, s))
  }

  /**
   * The first i nodes of f0 eaten without an explosion, from round s0: the
   * board is their bite, health and play state are untouched, the score
   * rose by WHITE_POINT per white node eaten, and eating a yellow one set
   * the stun deadline.
   */
  predicate EatQuiet(f0: seq<Food>, s0: Session, pac: Point, nowMs: real, i: nat, foods: seq<Food>, s: Session)
    requires i <= |f0|
  {
    foods == Bitten(f0[..i], pac) + f0[i..]
    && s.hp == s0.hp && s.playing == s0.playing && s.scanning == s0.scanning && s.lastEndWasWin == s0.lastEndWasWin
    && s.score == s0.score + WHITE_POINT * CountBitten(f0[..i], pac, White) as real
    && s.stunUntil == if CountBitten(f0[..i], pac, Yellow) > 0 then nowMs + YELLOW_STUN_MS else s0.stunUntil
  }

  /** Biting node i of a board still free of explosions, taking the round from sb to sa, keeps it so. */
  lemma EatQuietStep(f0: seq<Food>, s0: Session, pac: Point, nowMs: real, i: nat, fb: seq<Food>, sb: Session, fa: seq<Food>, sa: Session)
    requires i < |f0| && EatQuiet(f0, s0, pac, nowMs, i, fb, sb)
    requires fa == fb[i := Bite(fb[i], pac)]
    requires sa == if Bites(fb[i], pac) then Fed(sb, fb[i].kind, nowMs) else sb
    ensures EatQuiet(f0, s0, pac, nowMs, i + 1, fa, sa)
  {
    BittenPrefix(f0, pac, i);
    assert fb[i] == f0[i];
    var w := CountBitten(f0[..i], pac, White);
    assert WHITE_POINT * (w + 1) as real == WHITE_POINT * w as real + WHITE_POINT;
  }

  /** Eating node i as EatAt does, taking board and round from (fb, sb) to (fa, sa), keeps the loop invariant. */
  lemma EatLoopStep(f0: seq<Food>, s0: Session, pac: Point, nowMs: real, i: nat, exploded: bool, first: nat,
                    centres: seq<Point>, hits: nat, fb: seq<Food>, sb: Session, boom: bool, cs: seq<Point>, h: nat,
                    fa: seq<Food>, sa: Session)
    requires EatLoop(f0, s0, pac, nowMs, i, exploded, first, centres, hits, fb, sb) && i < |fb|
    requires KillOnly(fb, fa) && !Bites(fa[i], pac)
    requires boom <==> Bites(fb[i], pac) && fb[i].kind == Red
    requires !boom ==> fa == fb[i := Bite(fb[i], pac)]
    requires !boom ==> sa == if Bites(fb[i], pac) then Fed(sb, fb[i].kind, nowMs) else sb
    requires !boom ==> cs == [] && h == 0
    requires boom ==> |cs| >= 1 && cs[0] == FoodPos(fb[i]) && Cleared(fa, cs) && h == HitsOn(cs, pac) && h >= 1
    requires boom ==> AfterBlasts(sb, sa, h)
    ensures EatLoop(f0, s0, pac, nowMs, i + 1, exploded || boom, if boom && !exploded then i else first, centres + cs, hits + h, fa, sa)
  {
    BittenPrefix(f0, pac, i);
    if !exploded {
      assert fb[i] == f0[i];
      if !boom {
        EatQuietStep(f0, s0, pac, nowMs, i, fb, sb, fa, sa);
      }
    }
    KillOnlyTrans(f0, fb, fa);
    ClearAroundStep(fb, fa, i, pac, EAT_R2);
    EatFirstStep(f0, pac, i, exploded, first, centres, hits, fb, boom, cs, h);
    EatHealthStep(s0.hp, pac, centres, hits, fb, sb, boom, cs, h, fa, sa);
  }

  /** What the loop invariant says once every node has been visited. */
  lemma EatLoopDone(f0: seq<Food>, s0: Session, pac: Point, nowMs: real, exploded: bool, first: nat,
                    centres: seq<Point>, hits: nat, foods: seq<Food>, s: Session)
    requires EatLoop(f0, s0, pac, nowMs, |f0|, exploded, first, centres, hits, foods, s)
    ensures KillOnly(f0, foods) && ClearAround(foods, |foods|, pac, EAT_R2)
    ensures exploded <==> CountBitten(f0, pac, Red) > 0
    ensures exploded ==> first < |foods| && Bites(f0[first], pac) && f0[first].kind == Red
    ensures exploded ==> CountBitten(f0[..first], pac, Red) == 0
    ensures exploded ==> |centres| >= 1 && centres[0] == FoodPos(f0[first]) && hits >= 1
    ensures !exploded ==> centres == [] && hits == 0
    ensures Cleared(foods, centres) && hits == HitsOn(centres, pac)
    ensures s.hp == Max(0.0, s0.hp - 15.0 * hits as real)
    ensures hits > 0 && s.hp <= 0.0 ==> !s.playing && !s.scanning && !s.lastEndWasWin
    ensures !exploded ==> foods == Bitten(f0, pac)
    ensures !exploded ==> s.hp == s0.hp && s.playing == s0.playing && s.scanning == s0.scanning && s.lastEndWasWin == s0.lastEndWasWin
    ensures !exploded ==> s.score == s0.score + WHITE_POINT * CountBitten(f0, pac, White) as real
    ensures !exploded ==> s.stunUntil == if CountBitten(f0, pac, Yellow) > 0 then nowMs + YELLOW_STUN_MS else s0.stunUntil
  {
    assert f0[..|f0|] == f0;
    assert !exploded ==> EatQuiet(f0, s0, pac, nowMs, |f0|, foods, s);
  }

  /** The player's move over dt seconds at velocity v, at PAC_SPEED tiles per second (see TryMove). */
  function PlayerMove(n: nat, p: Point, v: Point, dt: real): (q: Point)
    ensures n >= 1 ==> InBounds(n, q)
  {
    TryMove(n, p, v.x * PAC_SPEED * dt, v.y * PAC_SPEED * dt)
  }

  /** Where the listed nodes lie, in list order. */
  function RedPositions(fs: seq<Food>, rs: seq<nat>): (ps: seq<Point>)
    requires forall t :: 0 <= t < |rs| ==> rs[t] < |fs|
    ensures |ps| == |rs|
    ensures forall t :: 0 <= t < |rs| ==> ps[t] == FoodPos(fs[rs[t]])
  {
    seq(|rs|, t requires 0 <= t < |rs| => FoodPos(fs[rs[t]]))
  }

  /** The keys of a list of centres. */
  function KeySet(cs: seq<Point>): set<(int, int)>
  {
    set a | 0 <= a < |cs| :: CentreKey(cs[a])
  }

  /**
   * The queue discipline of `explodeChain`: the remembered keys are exactly
   * the processed centres' keys; before the first centre the queue holds
   * only the start; afterwards the first centre is the start, the queue is
   * the not yet taken tail of the killed red nodes' positions in kill order,
   * every position already taken has its key remembered, and every centre
   * after the first is a position already taken.
   */
  predicate ChainBook(f0: seq<Food>, start: Point, reds: seq<nat>, centres: seq<Point>, queue: seq<Point>, seen: set<(int, int)>)
  {
    (forall t :: 0 <= t < |reds| ==> reds[t] < |f0|)
    && seen == KeySet(centres)
    && (centres == [] ==> queue == [start] && reds == [])
    && (centres != [] ==>
          centres[0] == start && |queue| <= |reds|
          && queue == RedPositions(f0, reds)[|reds| - |queue|..]
          && (forall t :: 0 <= t < |reds| - |queue| ==> CentreKey(RedPositions(f0, reds)[t]) in seen)
          && (forall a :: 1 <= a < |centres| ==> centres[a] in RedPositions(f0, reds)[..|reds| - |queue|]))
  }

  /** Taking off the queue a position whose key is remembered keeps the discipline. */
  lemma ChainSkip(f0: seq<Food>, start: Point, reds: seq<nat>, centres: seq<Point>, queue: seq<Point>, seen: set<(int, int)>)
    requires ChainBook(f0, start, reds, centres, queue, seen) && queue != [] && CentreKey(queue[0]) in seen
    ensures ChainBook(f0, start, reds, centres, queue[1..], seen)
  {
    assert centres != [];
    var ps := RedPositions(f0, reds);
    var m := |reds| - |queue|;
    assert queue[0] == ps[m];
    assert queue[1..] == ps[m + 1..];
    assert ps[..m + 1] == ps[..m] + [ps[m]];
    forall a | 1 <= a < |centres| ensures centres[a] in ps[..m + 1]
    {
      assert centres[a] in ps[..m];
    }
  }

  /**
   * Processing the front of the queue as a new centre, whose blast killed
   * the red nodes `killed` of the board `fb` and pushed their positions,
   * keeps the discipline.
   */
  lemma ChainBlast(f0: seq<Food>, start: Point, reds: seq<nat>, centres: seq<Point>, queue: seq<Point>, seen: set<(int, int)>,
                   fb: seq<Food>, killed: seq<nat>, pushed: seq<Point>)
    requires ChainBook(f0, start, reds, centres, queue, seen) && queue != [] && CentreKey(queue[0]) !in seen
    requires KillOnly(f0, fb) && forall t :: 0 <= t < |killed| ==> killed[t] < |fb|
    requires pushed == RedPositions(fb, killed)
    ensures ChainBook(f0, start, reds + killed, centres + [queue[0]], queue[1..] + pushed, seen + {CentreKey(queue[0])})
  {
    var c := queue[0];
    assert pushed == RedPositions(f0, killed);
    KeySetSnoc(centres, c);
    if centres == [] {
      assert reds + killed == killed;
      assert queue[1..] + pushed == RedPositions(f0, reds + killed)[0..];
    } else {
      ChainQueueStep(f0, start, reds, centres, queue, seen, killed);
    }
  }

  /** Processing one more centre adds its key to the keys of the centres. */
  lemma KeySetSnoc(centres: seq<Point>, c: Point)
    ensures KeySet(centres + [c]) == KeySet(centres) + {CentreKey(c)}
  {
    var centres' := centres + [c];
    forall k | k in KeySet(centres') ensures k in KeySet(centres) + {CentreKey(c)}
    {
      var a :| 0 <= a < |centres'| && CentreKey(centres'[a]) == k;
      if a < |centres| {
        assert centres'[a] == centres[a];
      }
    }
    forall k | k in KeySet(centres) + {CentreKey(c)} ensures k in KeySet(centres')
    {
      if k in KeySet(centres) {
        var a :| 0 <= a < |centres| && CentreKey(centres[a]) == k;
        assert centres'[a] == centres[a];
      } else {
        assert centres'[|centres|] == c;
      }
    }
  }

  /** The queue side of a blast after the first: the head of the queue becomes a centre and the red nodes it kills join the queue. */
  lemma ChainQueueStep(f0: seq<Food>, start: Point, reds: seq<nat>, centres: seq<Point>, queue: seq<Point>, seen: set<(int, int)>,
                       killed: seq<nat>)
    requires ChainBook(f0, start, reds, centres, queue, seen) && queue != [] && centres != []
    requires forall t :: 0 <= t < |killed| ==> killed[t] < |f0|
    ensures forall t :: 0 <= t < |reds + killed| ==> (reds + killed)[t] < |f0|
    ensures var ps' := RedPositions(f0, reds + killed); var m := |reds| - |queue|;
      queue[1..] + RedPositions(f0, killed) == ps'[m + 1..]
      && (forall t :: 0 <= t < m + 1 ==> CentreKey(ps'[t]) in seen + {CentreKey(queue[0])})
      && (forall a :: 1 <= a < |centres + [queue[0]]| ==> (centres + [queue[0]])[a] in ps'[..m + 1])
  {
    var c := queue[0];
    var reds' := reds + killed;
    var centres' := centres + [c];
    var pushed := RedPositions(f0, killed);
    forall t | 0 <= t < |reds'| ensures reds'[t] < |f0|
    {
      if t >= |reds| {
        assert reds'[t] == killed[t - |reds|];
      }
    }
    var ps := RedPositions(f0, reds);
    var ps' := RedPositions(f0, reds');
    assert ps' == ps + pushed;
    var m := |reds| - |queue|;
    assert c == ps[m];
    assert queue[1..] + pushed == ps'[m + 1..];
    forall t | 0 <= t < m + 1 ensures CentreKey(ps'[t]) in seen + {CentreKey(c)}
    {
      assert ps'[t] == ps[t];
    }
    forall a | 1 <= a < |centres'| ensures centres'[a] in ps'[..m + 1]
    {
      if a < |centres| {
        assert centres'[a] == centres[a];
        assert centres[a] in ps[..m];
        var i :| 0 <= i < m && ps[..m][i] == centres[a];
        assert ps'[..m + 1][i] == centres[a];
      } else {
        assert ps'[..m + 1][m] == c;
      }
    }
  }

  /**
   * The board side of `explodeChain`'s loop, for a chain that started from
   * board f0: nodes were only killed, the processed centres have distinct
   * remembered keys and keep the queue discipline, no alive node is within
   * the blast radius of a processed centre, and `reds` lists the red nodes
   * killed so far.
   */
  predicate ChainBoard(f0: seq<Food>, foods: seq<Food>, start: Point, queue: seq<Point>, seen: set<(int, int)>,
                       centres: seq<Point>, reds: seq<nat>)
  {
    KillOnly(f0, foods)
    && KeysDistinct(centres) && KeysSeen(centres, seen)
    && ChainBook(f0, start, reds, centres, queue, seen)
    && Cleared(foods, centres)
    && RedLedger(f0, foods, reds)
  }

  /** A blast at a new front of the queue, taking the board from fb to fa, keeps the board side. */
  lemma ChainBoardBlast(f0: seq<Food>, fb: seq<Food>, fa: seq<Food>, start: Point, queue: seq<Point>, seen: set<(int, int)>,
                        centres: seq<Point>, reds: seq<nat>, killed: seq<nat>, pushed: seq<Point>)
    requires ChainBoard(f0, fb, start, queue, seen, centres, reds)
    requires queue != [] && CentreKey(queue[0]) !in seen
    requires KillOnly(fb, fa)
    requires forall j :: 0 <= j < |fa| && fa[j].alive ==> Dist2(FoodPos(fa[j]), queue[0]) > BLAST_R2
    requires RedLedger(fb, fa, killed) && pushed == RedPositions(fb, killed)
    ensures ChainBoard(f0, fa, start, queue[1..] + pushed, seen + {CentreKey(queue[0])}, centres + [queue[0]], reds + killed)
  {
    KeysDistinctSnoc(centres, queue[0], seen);
    ChainBlast(f0, start, reds, centres, queue, seen, fb, killed, pushed);
    ClearedSnoc(fb, fa, centres, queue[0]);
    RedLedgerAppend(f0, fb, fa, reds, killed);
  }

  /**
   * Once the queue is empty the chain is closed: every killed red node's
   * key is the key of a processed centre, and every processed centre after
   * the first is the position of a killed red node.
   */
  lemma ChainClosed(f0: seq<Food>, start: Point, reds: seq<nat>, centres: seq<Point>, seen: set<(int, int)>)
    requires ChainBook(f0, start, reds, centres, [], seen)
    ensures |centres| >= 1 && centres[0] == start
    ensures forall t :: 0 <= t < |reds| ==> CentreKey(FoodPos(f0[reds[t]])) in KeySet(centres)
    ensures forall a :: 1 <= a < |centres| ==> centres[a] in RedPositions(f0, reds)
  {
    var ps := RedPositions(f0, reds);
    var empty: seq<Point> := [];
    assert |reds| - |empty| == |reds| && ps[..|reds|] == ps;
    forall t | 0 <= t < |reds| ensures CentreKey(FoodPos(f0[reds[t]])) in KeySet(centres)
    {
      assert CentreKey(ps[t]) in KeySet(centres);
    }
  }

  /** The player can eat this node: it is alive and within the eating radius. */
  predicate Bites(f: Food, pac: Point)
  {
    f.alive && Dist2(FoodPos(f), pac) <= EAT_R2
  }

  /** The node after the player's bite: eaten if within reach, otherwise as it was. */
  function Bite(f: Food, pac: Point): (g: Food)
    ensures g == f.(alive := g.alive)
    ensures !Bites(g, pac)
    ensures g.alive ==> f.alive
  {
    if Bites(f, pac) then f.(alive := false) else f
  }

  /** The board after every node within reach of the player has been eaten. */
  function Bitten(fs: seq<Food>, pac: Point): (r: seq<Food>)
    ensures |r| == |fs|
  {
    if fs == [] then [] else Bitten(fs[..|fs| - 1], pac) + [Bite(fs[|fs| - 1], pac)]
  }

  /** Number of nodes of kind k within reach of the player. */
  function CountBitten(fs: seq<Food>, pac: Point, k: Kind): nat
  {
    if fs == [] then 0
    else CountBitten(fs[..|fs| - 1], pac, k) + (if Bites(fs[|fs| - 1], pac) && fs[|fs| - 1].kind == k then 1 else 0)
  }

  /** Node by node, the bitten board is the bite of each node. */
  lemma {:induction false} BittenAt(fs: seq<Food>, pac: Point, j: nat)
    requires j < |fs|
    ensures Bitten(fs, pac)[j] == Bite(fs[j], pac)
    decreases |fs|
  {
    if j < |fs| - 1 {
      BittenAt(fs[..|fs| - 1], pac, j);
    }
  }

  /** The bitten board only kills nodes, and leaves nothing within reach. */
  lemma BittenKillsAndClears(fs: seq<Food>, pac: Point)
    ensures KillOnly(fs, Bitten(fs, pac))
    ensures ClearAround(Bitten(fs, pac), |fs|, pac, EAT_R2)
    ensures forall j :: 0 <= j < |fs| ==> (Bitten(fs, pac)[j].alive <==> fs[j].alive && !Bites(fs[j], pac))
  {
    forall j | 0 <= j < |fs|
      ensures Bitten(fs, pac)[j] == Bite(fs[j], pac)
    {
      BittenAt(fs, pac, j);
    }
  }

  /** Extending the bitten prefix of a board by one node. */
  lemma BittenPrefix(f0: seq<Food>, pac: Point, i: nat)
    requires i < |f0|
    ensures Bitten(f0[..i + 1], pac) + f0[i + 1..] == (Bitten(f0[..i], pac) + f0[i..])[i := Bite(f0[i], pac)]
    ensures CountBitten(f0[..i + 1], pac, White) == CountBitten(f0[..i], pac, White) + (if Bites(f0[i], pac) && f0[i].kind == White then 1 else 0)
    ensures CountBitten(f0[..i + 1], pac, Yellow) == CountBitten(f0[..i], pac, Yellow) + (if Bites(f0[i], pac) && f0[i].kind == Yellow then 1 else 0)
    ensures CountBitten(f0[..i + 1], pac, Red) == CountBitten(f0[..i], pac, Red) + (if Bites(f0[i], pac) && f0[i].kind == Red then 1 else 0)
  {
    assert f0[..i + 1][..i] == f0[..i];
    assert f0[..i + 1][i] == f0[i];
    assert f0[i..] == [f0[i]] + f0[i + 1..];
  }

  /** The ghost's drift direction (cos, sin of its phase); a missing entry reads as no drift. */
  function DriftOf(drift: seq<Point>, k: nat): Point
  {
    if k < |drift| then drift[k] else Point(0.0, 0.0)
  }

  /** Ghost g of a new board at p: no target, a last paint up to one paint interval ago, one banned direction. */
  function NewGhost(p: Point, draws: BuildDraws, g: nat): (gh: Ghost)
    ensures gh.pos == p && gh.paintTarget == -1
    ensures -PAINT_INTERVAL < gh.lastPaint <= 0.0
    ensures gh.mask == ThreeEdgeMask(PickIndex(Roll(draws.bans, g), 4))
  {
    Ghost(p, -Roll(draws.paints, g) * PAINT_INTERVAL, ThreeEdgeMask(PickIndex(Roll(draws.bans, g), 4)), -1)
  }

  /** The three ghosts of a new n-module board, 3.5 tiles in from the top-left, top-right and bottom-left corners. */
  function StartGhosts(n: nat, draws: BuildDraws): (gs: seq<Ghost>)
    ensures |gs| == 3
    ensures gs[0].pos == Point(3.5, 3.5)
    ensures gs[1].pos == Point(n as real - 3.5, 3.5)
    ensures gs[2].pos == Point(3.5, n as real - 3.5)
    ensures n >= 21 ==> forall g :: 0 <= g < 3 ==> InBounds(n, gs[g].pos)
    ensures forall g :: 0 <= g < 3 ==>
      gs[g].paintTarget == -1
      && -PAINT_INTERVAL < gs[g].lastPaint <= 0.0
      && gs[g].mask == ThreeEdgeMask(PickIndex(Roll(draws.bans, g), 4))
  {
    [NewGhost(Point(3.5, 3.5), draws, 0),
     NewGhost(Point(n as real - 3.5, 3.5), draws, 1),
     NewGhost(Point(3.5, n as real - 3.5), draws, 2)]
  }

  /** The text the board encodes: the field trimmed, or "QR-Pac" when that is empty. */
  function TextOrDefault(field: string): (t: string)
    ensures t != []
    ensures Trim(field) != [] ==> t == Trim(field)
  {
    var s := Trim(field);
    if s == [] then "QR-Pac" else s
  }

  /** The encoder only returns square matrices of a real QR size (at least 21 modules). */
  ghost predicate SymbolEncoder(encode: Encoder)
  {
    forall q :: encode(q).Some? ==> IsSquare(encode(q).value) && |encode(q).value| >= 21
  }

  /** What eating a node of kind k does to the round, short of a red node's explosion. */
  function Fed(s: Session, k: Kind, nowMs: real): (t: Session)
    ensures k == White ==> t == s.(score := s.score + WHITE_POINT)
    ensures k == Yellow ==> t == s.(stunUntil := nowMs + YELLOW_STUN_MS)
    ensures k == Red ==> t == s
    ensures SessionOk(s) ==> SessionOk(t)
  {
    match k
    case White => s.(score := s.score + WHITE_POINT)
    case Yellow => s.(stunUntil := nowMs + YELLOW_STUN_MS)
    case Red => s
  }

  /**
   * The target a ghost takes (see ChooseTarget): its own while it keeps it,
   * otherwise the nearest eligible node within SEEK_RADIUS, or none (−1);
   * always −1 or an alive white node.
   */
  ghost predicate TargetRule(foods: seq<Food>, gh: Ghost, target: int)
  {
    (KeepsTarget(foods, gh) ==> target == gh.paintTarget)
    && (!KeepsTarget(foods, gh) ==>
          (target == -1 <==> forall j :: !Eligible(foods, gh, SEEK_RADIUS, j))
          && (target != -1 ==> Nearest(foods, gh, SEEK_RADIUS, target)))
    && (target == -1 || (0 <= target < |foods| && foods[target].alive && foods[target].kind == White))
  }

  /** The rule fixes the target: a board and a ghost admit one target only. */
  lemma TargetRuleUnique(foods: seq<Food>, gh: Ghost, t1: int, t2: int)
    requires TargetRule(foods, gh, t1) && TargetRule(foods, gh, t2)
    ensures t1 == t2
  {
    if !KeepsTarget(foods, gh) && t1 != -1 && t2 != -1 {
      NearestUnique(foods, gh, SEEK_RADIUS, t1, t2);
    }
  }

  /**
   * The paint step (see PaintStep) of ghost gb, which moved to pos with
   * `target`, taking board fb to fa and the ghost to ga: with a target
   * within PAINT_TOUCH_DIST once PAINT_INTERVAL has passed, the ghost paints
   * (the node changes colour when `paintRoll` ≤ PAINT_PROB), records the
   * time and drops the target; otherwise it keeps the target and the board
   * is unchanged.
   */
  predicate PaintRule(fb: seq<Food>, gb: Ghost, target: int, pos: Point, nowSec: real, paintRoll: real, colorRoll: real,
                      fa: seq<Food>, ga: Ghost)
  {
    var painted := 0 <= target < |fb| && Dist2(FoodPos(fb[target]), pos) <= PAINT_TOUCH_DIST * PAINT_TOUCH_DIST
                   && gb.lastPaint + PAINT_INTERVAL <= nowSec;
    (painted ==> ga == Ghost(pos, nowSec, gb.mask, -1)
                 && fa == if paintRoll <= PAINT_PROB then fb[target := fb[target].(kind := PaintColor(colorRoll))] else fb)
    && (!painted ==> ga == gb.(pos := pos, paintTarget := target) && fa == fb)
  }

  /** One ghost's turn of `stepGhosts`: it takes its target, moves (GhostMove) and paints or not. */
  ghost predicate GhostTurn(n: nat, dt: real, nowSec: real, sqrt: real -> real, drift: Point, paintRoll: real, colorRoll: real,
                      fb: seq<Food>, gb: Ghost, target: int, fa: seq<Food>, ga: Ghost)
  {
    TargetRule(fb, gb, target)
    && PaintRule(fb, gb, target, GhostMove(n, gb.pos, TargetPos(fb, target), sqrt, drift, dt), nowSec, paintRoll, colorRoll, fa, ga)
  }

  /**
   * `stepGhosts` from board f0 and ghosts g0 to board f1 and ghosts g1:
   * ghost k takes its turn on board boards[k], which the earlier ghosts
   * left, with target targets[k], its drift and its two draws, and leaves
   * boards[k + 1].
   */
  ghost predicate GhostsStepped(n: nat, dt: real, nowSec: real, sqrt: real -> real, drift: seq<Point>, paintRolls: seq<real>,
                          colorRolls: seq<real>, f0: seq<Food>, g0: seq<Ghost>, targets: seq<int>, boards: seq<seq<Food>>,
                          f1: seq<Food>, g1: seq<Ghost>)
  {
    |g1| == |g0| && |targets| == |g0| && |boards| == |g0| + 1 && boards[0] == f0 && boards[|g0|] == f1
    && forall k :: 0 <= k < |g0| ==>
      GhostTurn(n, dt, nowSec, sqrt, DriftOf(drift, k), Roll(paintRolls, k), Roll(colorRolls, k),
                boards[k], g0[k], targets[k], boards[k + 1], g1[k])
  }

  /**
   * What one frame of physics went through: the events of the eating loop
   * and the blast centres, the board and round eating left, and the ghosts'
   * targets and intermediate boards.
   */
  datatype FrameTrace = FrameTrace(evs: seq<Event>, centres: seq<Point>, eaten: seq<Food>, ate: Session,
                                   targets: seq<int>, boards: seq<seq<Food>>)

  /** One blast of a chain that reaches the player: BLAST_DAMAGE (see Damaged), then a stun of BLAST_STUN_MS from now. */
  function Hit(s: Session, nowMs: real): (t: Session)
    ensures t.hp == Max(0.0, s.hp - BLAST_DAMAGE) && t.score == Max(SCORE_MIN, s.score - BLAST_DAMAGE * HP_PENALTY_PER_DAMAGE)
    ensures t.stunUntil == nowMs + BLAST_STUN_MS
    ensures SessionOk(s) ==> SessionOk(t)
  {
    Damaged(s, BLAST_DAMAGE).(stunUntil := nowMs + BLAST_STUN_MS)
  }

  /** k blasts in a row, all at the clock nowMs. */
  function Hits(s: Session, k: nat, nowMs: real): (t: Session)
    ensures k == 0 ==> t == s
    ensures k > 0 ==> t.stunUntil == nowMs + BLAST_STUN_MS
    ensures SessionOk(s) ==> SessionOk(t)
  {
    if k == 0 then s else Hit(Hits(s, k - 1, nowMs), nowMs)
  }

  /** k blasts leave the round in the closed form AfterBlasts. */
  lemma {:induction false} HitsAfterBlasts(s: Session, k: nat, nowMs: real)
    requires SessionOk(s)
    ensures AfterBlasts(s, Hits(s, k, nowMs), k)
  {
    if k > 0 {
      HitsAfterBlasts(s, k - 1, nowMs);
      AfterBlastsStep(s, Hits(s, k - 1, nowMs), Hits(s, k, nowMs), k - 1);
    }
  }

  /**
   * What one visit of `eatFoods`'s loop does to the round: node `node`, a
   * white or yellow one, is eaten (see Fed), or one centre of the chain set
   * off by the red node `node` blasts the player (see Hit).
   */
  datatype Event = Ate(node: nat, kind: Kind) | Blast(node: nat)

  function Applied(s: Session, e: Event, nowMs: real): Session
  {
    match e
    case Ate(_, k) => Fed(s, k, nowMs)
    case Blast(_) => Hit(s, nowMs)
  }

  /** The round after the events, applied in order. */
  function Replay(s: Session, evs: seq<Event>, nowMs: real): Session
    decreases |evs|
  {
    if evs == [] then s else Applied(Replay(s, evs[..|evs| - 1], nowMs), evs[|evs| - 1], nowMs)
  }

  /** Replaying two runs of events one after the other is replaying the second on the result of the first. */
  lemma {:induction false} ReplayConcat(s: Session, a: seq<Event>, b: seq<Event>, nowMs: real)
    ensures Replay(s, a + b, nowMs) == Replay(Replay(s, a, nowMs), b, nowMs)
    decreases |b|
  {
    if b == [] {
      assert a + b == a;
    } else {
      var b' := b[..|b| - 1];
      assert (a + b)[..|a + b| - 1] == a + b';
      ReplayConcat(s, a, b', nowMs);
    }
  }

  /** k blasts of the chain of node o. */
  function BlastsAt(o: nat, k: nat): (evs: seq<Event>)
    ensures |evs| == k && forall a :: 0 <= a < k ==> evs[a] == Blast(o)
  {
    if k == 0 then [] else BlastsAt(o, k - 1) + [Blast(o)]
  }

  /** Replaying the blasts of one chain is Hits. */
  lemma {:induction false} ReplayBlasts(s: Session, o: nat, k: nat, nowMs: real)
    ensures Replay(s, BlastsAt(o, k), nowMs) == Hits(s, k, nowMs)
  {
    if k > 0 {
      ReplayBlasts(s, o, k - 1, nowMs);
      assert BlastsAt(o, k)[..k - 1] == BlastsAt(o, k - 1);
    }
  }

  /** Number of blast events. */
  function BlastCount(evs: seq<Event>): nat
  {
    if evs == [] then 0 else BlastCount(evs[..|evs| - 1]) + (if evs[|evs| - 1].Blast? then 1 else 0)
  }

  lemma {:induction false} BlastCountConcat(a: seq<Event>, b: seq<Event>)
    ensures BlastCount(a + b) == BlastCount(a) + BlastCount(b)
    decreases |b|
  {
    if b == [] {
      assert a + b == a;
    } else {
      assert (a + b)[..|a + b| - 1] == a + b[..|b| - 1];
      BlastCountConcat(a, b[..|b| - 1]);
    }
  }

  lemma {:induction false} BlastCountBlasts(o: nat, k: nat)
    ensures BlastCount(BlastsAt(o, k)) == k
  {
    if k > 0 {
      BlastCountBlasts(o, k - 1);
      assert BlastsAt(o, k)[..k - 1] == BlastsAt(o, k - 1);
    }
  }

  /** p lies within the blast radius of some centre. */
  predicate NearSome(p: Point, centres: seq<Point>)
  {
    exists k :: 0 <= k < |centres| && Dist2(p, centres[k]) <= BLAST_R2
  }

  lemma NearSomeGrow(p: Point, a: seq<Point>, b: seq<Point>)
    requires NearSome(p, a)
    ensures NearSome(p, a + b)
  {
    var k :| 0 <= k < |a| && Dist2(p, a[k]) <= BLAST_R2;
    assert (a + b)[k] == a[k];
  }

  /** Every node of f0 that is dead in foods lies within the blast radius of some centre. */
  predicate KilledNear(f0: seq<Food>, foods: seq<Food>, centres: seq<Point>)
  {
    forall j :: 0 <= j < |f0| && j < |foods| && f0[j].alive && !foods[j].alive ==> NearSome(FoodPos(f0[j]), centres)
  }

  /** Another blast at c, which kills only within its radius, keeps every kill near a centre. */
  lemma KilledNearSnoc(f0: seq<Food>, fb: seq<Food>, fa: seq<Food>, centres: seq<Point>, c: Point)
    requires KillOnly(f0, fb) && KillOnly(fb, fa) && KilledNear(f0, fb, centres)
    requires forall j :: 0 <= j < |fa| && fb[j].alive && !fa[j].alive ==> Dist2(FoodPos(fb[j]), c) <= BLAST_R2
    ensures KilledNear(f0, fa, centres + [c])
  {
    forall j | 0 <= j < |f0| && j < |fa| && f0[j].alive && !fa[j].alive
      ensures NearSome(FoodPos(f0[j]), centres + [c])
    {
      if fb[j].alive {
        assert (centres + [c])[|centres|] == c;
        assert FoodPos(f0[j]) == FoodPos(fb[j]);
      } else {
        NearSomeGrow(FoodPos(f0[j]), centres, [c]);
      }
    }
  }

  /**
   * An event checked against the board f0 the loop started from: its node
   * was alive and within the player's reach; an eaten node is recorded with
   * its own kind, white or yellow; a blast belongs to a red node's chain.
   */
  predicate EventOk(f0: seq<Food>, pac: Point, e: Event)
  {
    e.node < |f0| && Bites(f0[e.node], pac)
    && (e.Ate? ==> e.kind == f0[e.node].kind && e.kind != Red)
    && (e.Blast? ==> f0[e.node].kind == Red)
  }

  /** Events come in board order, and an eaten node has no other event. */
  predicate InVisitOrder(evs: seq<Event>)
  {
    forall a, b :: 0 <= a < b < |evs| ==> evs[a].node <= evs[b].node && (evs[b].Ate? ==> evs[a].node < evs[b].node)
  }

  /**
   * One visit of `eatFoods`'s loop, to node i, taking board and round from
   * (fb, sb) to (fa, sa): node i is left out of reach; the visit explodes
   * (`boom`) exactly when it is a red node within reach. Otherwise the node
   * is bitten and the round fed, with no centres; with an explosion the
   * chain starts at the node, clears the radius of its centres, blasts the
   * player once per centre near them (h ≥ 1 times), and every other node it
   * kills lies within the radius of one of its centres.
   */
  predicate Visit(fb: seq<Food>, sb: Session, pac: Point, nowMs: real, i: nat, boom: bool, cs: seq<Point>, h: nat,
                  fa: seq<Food>, sa: Session)
  {
    i < |fb| && KillOnly(fb, fa) && !Bites(fa[i], pac)
    && (boom <==> Bites(fb[i], pac) && fb[i].kind == Red)
    && (!boom ==> fa == fb[i := Bite(fb[i], pac)] && cs == [] && h == 0
                  && sa == if Bites(fb[i], pac) then Fed(sb, fb[i].kind, nowMs) else sb)
    && (boom ==> |cs| >= 1 && cs[0] == FoodPos(fb[i]) && Cleared(fa, cs) && h == HitsOn(cs, pac) && h >= 1
                 && AfterBlasts(sb, sa, h) && sa == Hits(sb, h, nowMs))
    && (forall j :: 0 <= j < |fa| && j != i && fb[j].alive && !fa[j].alive ==> NearSome(FoodPos(fb[j]), cs))
  }

  /**
   * A visit to a red node within reach: the node is marked eaten (board
   * mid), then the chain explosion at its position takes the board to fa
   * and the round to sa.
   */
  lemma RedVisit(fb: seq<Food>, sb: Session, pac: Point, nowMs: real, i: nat, mid: seq<Food>, cs: seq<Point>, h: nat,
                 fa: seq<Food>, sa: Session)
    requires i < |fb| && Bites(fb[i], pac) && fb[i].kind == Red && mid == fb[i := fb[i].(alive := false)]
    requires KillOnly(mid, fa) && |cs| >= 1 && cs[0] == FoodPos(fb[i]) && Cleared(fa, cs)
    requires h == HitsOn(cs, pac) && h >= 1 && AfterBlasts(sb, sa, h) && sa == Hits(sb, h, nowMs)
    requires KilledNear(mid, fa, cs)
    ensures Visit(fb, sb, pac, nowMs, i, true, cs, h, fa, sa)
  {
    assert KillOnly(fb, mid);
    KillOnlyTrans(fb, mid, fa);
    assert !Bites(fa[i], pac);
    forall j | 0 <= j < |fa| && j != i && fb[j].alive && !fa[j].alive ensures NearSome(FoodPos(fb[j]), cs) {
      assert mid[j] == fb[j];
    }
  }

  /** A visit to a node that is not a red node within reach: it is bitten if within reach, and the round fed. */
  lemma QuietVisit(fb: seq<Food>, sb: Session, pac: Point, nowMs: real, i: nat, fa: seq<Food>, sa: Session)
    requires i < |fb| && !(Bites(fb[i], pac) && fb[i].kind == Red)
    requires fa == fb[i := Bite(fb[i], pac)]
    requires sa == if Bites(fb[i], pac) then Fed(sb, fb[i].kind, nowMs) else sb
    ensures Visit(fb, sb, pac, nowMs, i, false, [], 0, fa, sa)
  {
    assert forall j :: 0 <= j < |fa| && j != i ==> fa[j] == fb[j];
  }

  /** A visit keeps all three sides of the loop invariant. */
  lemma EatVisitStep(f0: seq<Food>, s0: Session, pac: Point, nowMs: real, i: nat, exploded: bool, first: nat,
                     centres: seq<Point>, hits: nat, evs: seq<Event>, fb: seq<Food>, sb: Session,
                     boom: bool, cs: seq<Point>, h: nat, fa: seq<Food>, sa: Session)
    requires EatLoop(f0, s0, pac, nowMs, i, exploded, first, centres, hits, fb, sb)
    requires EatEvents(f0, s0, pac, nowMs, i, evs, hits, sb) && EatKills(f0, pac, i, evs, centres, fb)
    requires Visit(fb, sb, pac, nowMs, i, boom, cs, h, fa, sa)
    ensures EatLoop(f0, s0, pac, nowMs, i + 1, exploded || boom, if boom && !exploded then i else first, centres + cs, hits + h, fa, sa)
    ensures EatEvents(f0, s0, pac, nowMs, i + 1, evs + VisitEvents(fb[i], pac, i, h), hits + h, sa)
    ensures EatKills(f0, pac, i + 1, evs + VisitEvents(fb[i], pac, i, h), centres + cs, fa)
  {
    EatLoopStep(f0, s0, pac, nowMs, i, exploded, first, centres, hits, fb, sb, boom, cs, h, fa, sa);
    EatEventsStep(f0, s0, pac, nowMs, i, evs, hits, sb, fb, h, sa);
    EatKillsStep(f0, pac, i, evs, centres, fb, h, cs, fa);
  }

  /**
   * What `eatFoods` does during play, from board f0 and round s0 with the
   * player at pac, to board f1 and round s1: nodes are only killed and none
   * alive is left within reach; none alive is left within the blast radius
   * of any chain centre; the round is the replay of the events, in visit
   * order, each of a node that was within reach, with one blast per centre
   * near the player; every white or yellow node within reach outside every
   * blast was eaten; and every dead node was within reach or within the
   * blast radius of a centre.
   */
  predicate EatenRound(f0: seq<Food>, s0: Session, pac: Point, nowMs: real, evs: seq<Event>, centres: seq<Point>,
                       f1: seq<Food>, s1: Session)
  {
    KillOnly(f0, f1) && ClearAround(f1, |f1|, pac, EAT_R2) && Cleared(f1, centres)
    && EatEvents(f0, s0, pac, nowMs, |f0|, evs, HitsOn(centres, pac), s1)
    && EatKills(f0, pac, |f0|, evs, centres, f1)
  }

  /** One more processed centre keeps the count of blasts and the round they leave. */
  lemma ChainHitStep(s0: Session, sb: Session, sa: Session, centres: seq<Point>, c: Point, pac: Point, hits: nat, hit: bool, nowMs: real)
    requires sb == Hits(s0, hits, nowMs) && hits == HitsOn(centres, pac)
    requires hit <==> Dist2(pac, c) <= BLAST_R2
    requires sa == if hit then Hit(sb, nowMs) else sb
    ensures HitsOn(centres + [c], pac) == if hit then hits + 1 else hits
    ensures sa == Hits(s0, if hit then hits + 1 else hits, nowMs)
  {
    assert (centres + [c])[..|centres|] == centres;
  }

  /**
   * The round side of `eatFoods`'s loop after i visits, from round s0: the
   * round is the replay of the events so far, which are events of visited
   * nodes in visit order, and the blasts among them number `hits`.
   */
  predicate EatEvents(f0: seq<Food>, s0: Session, pac: Point, nowMs: real, i: nat, evs: seq<Event>, hits: nat, s: Session)
  {
    s == Replay(s0, evs, nowMs) && BlastCount(evs) == hits && InVisitOrder(evs)
    && forall a :: 0 <= a < |evs| ==> EventOk(f0, pac, evs[a]) && evs[a].node < i
  }

  /**
   * The board side of `eatFoods`'s loop after i visits: every visited white
   * or yellow node that was within reach and lies outside every blast was
   * eaten, and every dead node was either visited within reach or lies
   * within the blast radius of a centre.
   */
  predicate EatKills(f0: seq<Food>, pac: Point, i: nat, evs: seq<Event>, centres: seq<Point>, foods: seq<Food>)
  {
    (forall j :: 0 <= j < i && j < |f0| && Bites(f0[j], pac) && f0[j].kind != Red && !NearSome(FoodPos(f0[j]), centres)
       ==> Ate(j, f0[j].kind) in evs)
    && (forall j :: 0 <= j < |f0| && j < |foods| && f0[j].alive && !foods[j].alive
          ==> (j < i && Bites(f0[j], pac)) || NearSome(FoodPos(f0[j]), centres))
  }

  /** The events a visit of node f (node i) adds: none out of reach, the node eaten, or the h blasts of its chain. */
  function VisitEvents(f: Food, pac: Point, i: nat, h: nat): seq<Event>
  {
    if !Bites(f, pac) then [] else if f.kind != Red then [Ate(i, f.kind)] else BlastsAt(i, h)
  }

  /** A visit keeps the round side of the loop. */
  lemma EatEventsStep(f0: seq<Food>, s0: Session, pac: Point, nowMs: real, i: nat, evs: seq<Event>, hits: nat, sb: Session,
                      fb: seq<Food>, h: nat, sa: Session)
    requires EatEvents(f0, s0, pac, nowMs, i, evs, hits, sb)
    requires KillOnly(f0, fb) && i < |fb|
    requires Bites(fb[i], pac) && fb[i].kind != Red ==> sa == Fed(sb, fb[i].kind, nowMs) && h == 0
    requires Bites(fb[i], pac) && fb[i].kind == Red ==> sa == Hits(sb, h, nowMs)
    requires !Bites(fb[i], pac) ==> sa == sb && h == 0
    ensures EatEvents(f0, s0, pac, nowMs, i + 1, evs + VisitEvents(fb[i], pac, i, h), hits + h, sa)
  {
    var more := VisitEvents(fb[i], pac, i, h);
    ReplayConcat(s0, evs, more, nowMs);
    BlastCountConcat(evs, more);
    VisitReplay(sb, fb[i], pac, i, h, sa, nowMs);
    VisitEventsOk(f0, fb, pac, i, h);
    VisitOrderStep(f0, pac, i, evs, more);
  }

  /** The events of one visit replay to the round the visit leaves, and count its blasts. */
  lemma VisitReplay(sb: Session, f: Food, pac: Point, i: nat, h: nat, sa: Session, nowMs: real)
    requires Bites(f, pac) && f.kind != Red ==> sa == Fed(sb, f.kind, nowMs) && h == 0
    requires Bites(f, pac) && f.kind == Red ==> sa == Hits(sb, h, nowMs)
    requires !Bites(f, pac) ==> sa == sb && h == 0
    ensures Replay(sb, VisitEvents(f, pac, i, h), nowMs) == sa
    ensures BlastCount(VisitEvents(f, pac, i, h)) == h
  {
    var more := VisitEvents(f, pac, i, h);
    if Bites(f, pac) {
      if f.kind == Red {
        ReplayBlasts(sb, i, h, nowMs);
        BlastCountBlasts(i, h);
      } else {
        assert more == [Ate(i, f.kind)];
        assert Replay(sb, more, nowMs) == Applied(Replay(sb, [], nowMs), more[0], nowMs);
        assert more[..0] == [];
      }
    }
  }

  /** The events of visit i are about node i, agree with the start board, and only blasts repeat. */
  lemma VisitEventsOk(f0: seq<Food>, fb: seq<Food>, pac: Point, i: nat, h: nat)
    requires KillOnly(f0, fb) && i < |fb|
    ensures forall a :: 0 <= a < |VisitEvents(fb[i], pac, i, h)| ==>
      EventOk(f0, pac, VisitEvents(fb[i], pac, i, h)[a]) && VisitEvents(fb[i], pac, i, h)[a].node == i
    ensures forall b :: 0 < b < |VisitEvents(fb[i], pac, i, h)| ==> VisitEvents(fb[i], pac, i, h)[b].Blast?
  {
    if Bites(fb[i], pac) {
      assert Bites(f0[i], pac) && f0[i].kind == fb[i].kind;
    }
  }

  /** Appending the events of visit i to those of the earlier visits keeps them in visit order. */
  lemma VisitOrderStep(f0: seq<Food>, pac: Point, i: nat, evs: seq<Event>, more: seq<Event>)
    requires InVisitOrder(evs) && forall a :: 0 <= a < |evs| ==> EventOk(f0, pac, evs[a]) && evs[a].node < i
    requires forall a :: 0 <= a < |more| ==> EventOk(f0, pac, more[a]) && more[a].node == i
    requires forall b :: 0 < b < |more| ==> more[b].Blast?
    ensures InVisitOrder(evs + more)
    ensures forall a :: 0 <= a < |evs + more| ==> EventOk(f0, pac, (evs + more)[a]) && (evs + more)[a].node < i + 1
  {
    var evs' := evs + more;
    forall a | 0 <= a < |evs'| ensures EventOk(f0, pac, evs'[a]) && evs'[a].node < i + 1 {
      if a >= |evs| {
        assert evs'[a] == more[a - |evs|];
      }
    }
    forall a, b | 0 <= a < b < |evs'|
      ensures evs'[a].node <= evs'[b].node && (evs'[b].Ate? ==> evs'[a].node < evs'[b].node)
    {
      if b >= |evs| {
        assert evs'[b] == more[b - |evs|];
        if a >= |evs| {
          assert evs'[a] == more[a - |evs|];
        }
      }
    }
  }

  /** A visit keeps the board side of the loop. */
  lemma EatKillsStep(f0: seq<Food>, pac: Point, i: nat, evs: seq<Event>, centres: seq<Point>, fb: seq<Food>,
                     h: nat, cs: seq<Point>, fa: seq<Food>)
    requires EatKills(f0, pac, i, evs, centres, fb)
    requires KillOnly(f0, fb) && KillOnly(fb, fa) && i < |fb|
    requires !(Bites(fb[i], pac) && fb[i].kind == Red) ==> fa == fb[i := Bite(fb[i], pac)] && cs == []
    requires forall j :: 0 <= j < |fa| && j != i && fb[j].alive && !fa[j].alive ==> NearSome(FoodPos(fb[j]), cs)
    ensures EatKills(f0, pac, i + 1, evs + VisitEvents(fb[i], pac, i, h), centres + cs, fa)
  {
    var evs' := evs + VisitEvents(fb[i], pac, i, h);
    forall j | 0 <= j < i + 1 && j < |f0| && Bites(f0[j], pac) && f0[j].kind != Red && !NearSome(FoodPos(f0[j]), centres + cs)
      ensures Ate(j, f0[j].kind) in evs'
    {
      if NearSome(FoodPos(f0[j]), centres) {
        NearSomeGrow(FoodPos(f0[j]), centres, cs);
      }
      if j == i {
        assert FoodPos(fb[i]) == FoodPos(f0[i]) && fb[i].kind == f0[i].kind;
        assert VisitEvents(fb[i], pac, i, h) == [Ate(i, f0[i].kind)];
      }
    }
    forall j | 0 <= j < |f0| && j < |fa| && f0[j].alive && !fa[j].alive
      ensures (j < i + 1 && Bites(f0[j], pac)) || NearSome(FoodPos(f0[j]), centres + cs)
    {
      assert FoodPos(fb[j]) == FoodPos(f0[j]);
      if !fb[j].alive {
        if NearSome(FoodPos(f0[j]), centres) {
          NearSomeGrow(FoodPos(f0[j]), centres, cs);
        }
      } else if j != i {
        var k :| 0 <= k < |cs| && Dist2(FoodPos(fb[j]), cs[k]) <= BLAST_R2;
        assert (centres + cs)[|centres| + k] == cs[k];
      }
    }
  }

  class Game {
    var grid: Grid
    var foods: seq<Food>
    var totalFoods: nat
    var modules: Option<int>
    var originalText: string
    var pac: Point
    var vel: Point
    var input: Point
    var ghosts: seq<Ghost>
    var score: real
    var hp: real
    var timeLeft: real
    var timeMax: real
    var playing: bool
    var timerFrozen: bool
    var lastEndWasWin: bool
    var continues: nat
    var isScannable: bool
    var scanning: bool
    var stunUntil: real
    var lastTs: Option<real>

    /** The scalar state of the round. */
    function Round(): Session
      reads this`score, this`hp, this`timeLeft, this`timeMax, this`playing, this`timerFrozen,
        this`lastEndWasWin, this`continues, this`isScannable, this`scanning, this`stunUntil
    {
      Session(score, hp, timeLeft, timeMax, playing, timerFrozen, lastEndWasWin, continues, isScannable, scanning, stunUntil)
    }

    /** The engine's invariant: a square board with everyone on it, the node count recorded, and the round's invariant. */
    predicate Valid()
      reads this`grid, this`pac, this`ghosts, this`foods, this`totalFoods
      reads this`score, this`hp, this`timeLeft, this`timeMax, this`playing, this`timerFrozen,
        this`lastEndWasWin, this`continues, this`isScannable, this`scanning, this`stunUntil
    {
      FieldOk() && totalFoods == |foods| && SessionOk(Round())
    }

    /** A square board, and the player and every ghost inside its margins. */
    predicate FieldOk()
      reads this`grid, this`pac, this`ghosts
    {
      IsSquare(grid)
      && (|grid| >= 1 ==> InBounds(|grid|, pac) && forall g :: 0 <= g < |ghosts| ==> InBounds(|grid|, ghosts[g].pos))
    }

    /** The state before the first board is built. */
    constructor ()
      ensures Valid()
      ensures grid == [] && foods == [] && ghosts == [] && modules == Some(33) && originalText == [] && lastTs == None
      ensures Round() == Session(0.0, HP_FULL, 5.0, 5.0, false, false, false, 0, true, false, 0.0)
    {
      grid := [];
      foods := [];
      totalFoods := 0;
      modules := Some(33);
      originalText := [];
      pac := Point(0.0, 0.0);
      vel := Point(0.0, 0.0);
      input := Point(0.0, 0.0);
      ghosts := [];
      score := 0.0;
      hp := HP_FULL;
      timeLeft := 5.0;
      timeMax := 5.0;
      playing := false;
      timerFrozen := false;
      lastEndWasWin := false;
      continues := 0;
      isScannable := true;
      scanning := false;
      stunUntil := 0.0;
      lastTs := None;
    }

    /** Write a whole round state back into the fields. */
    method SetRound(s: Session)
      modifies this`score, this`hp, this`timeLeft, this`timeMax, this`playing, this`timerFrozen
      modifies this`lastEndWasWin, this`continues, this`isScannable, this`scanning, this`stunUntil
      ensures Round() == s
    {
      score, hp, timeLeft, timeMax := s.score, s.hp, s.timeLeft, s.timeMax;
      playing, timerFrozen, lastEndWasWin, continues := s.playing, s.timerFrozen, s.lastEndWasWin, s.continues;
      isScannable, scanning, stunUntil := s.isScannable, s.scanning, s.stunUntil;
    }

    /** `endPlay(win)`. */
    method EndPlay(win: bool)
      requires Valid()
      modifies this`playing, this`scanning, this`lastEndWasWin
      ensures Valid()
      ensures Round() == Ended(old(Round()), win)
    {
      playing := false;
      scanning := false;
      lastEndWasWin := win;
    }

    /** `damagePlayer(amount)`. */
    method DamagePlayer(amount: real)
      requires Valid() && amount >= 0.0
      modifies this`hp, this`score, this`playing, this`scanning, this`lastEndWasWin
      ensures Valid()
      ensures Round() == Damaged(old(Round()), amount)
    {
      hp := Max(0.0, hp - amount);
      score := score - amount * HP_PENALTY_PER_DAMAGE;
      if score < SCORE_MIN {
        score := SCORE_MIN;
      }
      if hp <= 0.0 {
        EndPlay(false);
      }
    }

    /** The timer branch of the frame loop. */
    method TimerBranch(dt: real)
      requires Valid() && dt >= 0.0
      modifies this`timeLeft, this`score, this`playing, this`scanning, this`lastEndWasWin
      ensures Valid()
      ensures Round() == TimerStep(old(Round()), dt)
    {
      if playing && !timerFrozen {
        timeLeft := timeLeft - dt;
        score := score - TIME_DECAY_PER_SEC * dt;
        if score < SCORE_MIN {
          score := SCORE_MIN;
        }
        if timeLeft <= 0.0 {
          timeLeft := 0.0;
          EndPlay(!isScannable);
        }
      }
    }

    /** The Continue button; the next frame starts the frame clock afresh. */
    method Continue()
      requires Valid()
      modifies this`score, this`hp, this`timeLeft, this`timeMax, this`playing, this`timerFrozen
      modifies this`lastEndWasWin, this`continues, this`isScannable, this`scanning, this`stunUntil, this`lastTs
      ensures Valid()
      ensures Round() == Continued(old(Round()))
      ensures lastTs == None
    {
      lastTs := None;
      SetRound(Continued(Round()));
    }

    /** `beginPlay`, at the end of the countdown. */
    method BeginPlay()
      requires Valid()
      modifies this`playing, this`timeLeft, this`timeMax, this`timerFrozen, this`scanning
      ensures Valid()
      ensures Round() == Begun(old(Round()))
    {
      playing := true;
      timeLeft := BASE_TIME_SEC;
      timeMax := BASE_TIME_SEC;
      timerFrozen := false;
      scanning := true;
    }

    /** The pause button. */
    method TogglePause()
      requires Valid()
      modifies this`playing, this`scanning
      ensures Valid()
      ensures Round() == Paused(old(Round()))
    {
      playing := !playing;
      scanning := playing;
    }

    /** `setInput`: the joystick offset in pixels becomes an input vector in [-1, 1]². */
    method SetInput(dx: real, dy: real)
      modifies this`input
      ensures input == Point(JoyAxis(dx), JoyAxis(dy))
      ensures -1.0 <= input.x <= 1.0 && -1.0 <= input.y <= 1.0
    {
      input := Point(Max(-1.0, Min(1.0, dx / 32.0)), Max(-1.0, Min(1.0, dy / 32.0)));
    }

    /**
     * `stepControls`: outside play nothing changes; while stunned the player
     * stops; otherwise the heading is keys plus joystick, scaled to unit
     * length (`sqrt` stands for the square root).
     */
    method StepControls(nowMs: real, keys: set<string>, sqrt: real -> real)
      modifies this`vel
      ensures !playing ==> vel == old(vel)
      ensures playing && nowMs < stunUntil ==> vel == Point(0.0, 0.0)
      ensures playing && nowMs >= stunUntil ==>
        var v := ControlVector(keys, input);
        vel == Normalised(v, sqrt(Norm2(v)))
    {
      if !playing {
        return;
      }
      if nowMs < stunUntil {
        vel := Point(0.0, 0.0);
        return;
      }
      var v := ControlVector(keys, input);
      var len := sqrt(Norm2(v));
      if len > 0.0 {
        vel := Point(v.x / len, v.y / len);
      } else {
        vel := Point(0.0, 0.0);
      }
    }

    /**
     * The inner loop of `explodeChain`: every alive node within the blast
     * radius of c dies, and each red node it kills is queued as a new
     * centre at that node's position.
     */
    method BlastAt(c: Point) returns (pushed: seq<Point>, ghost killed: seq<nat>)
      modifies this`foods
      ensures KillOnly(old(foods), foods)
      ensures forall j :: 0 <= j < |foods| && foods[j].alive ==> Dist2(FoodPos(foods[j]), c) > BLAST_R2
      ensures forall j :: 0 <= j < |foods| && old(foods)[j].alive && !foods[j].alive ==> Dist2(FoodPos(foods[j]), c) <= BLAST_R2
      ensures |pushed| == |killed| && Distinct(killed)
      ensures forall t :: 0 <= t < |killed| ==>
        killed[t] < |foods| && old(foods)[killed[t]].alive && !foods[killed[t]].alive
        && foods[killed[t]].kind == Red && pushed[t] == FoodPos(foods[killed[t]])
      ensures forall j :: 0 <= j < |foods| && old(foods)[j].alive && !foods[j].alive && foods[j].kind == Red ==> j in killed
      ensures AliveCount(foods) + |pushed| <= AliveCount(old(foods))
    {
      var f0 := foods;
      var fs := foods;
      pushed := [];
      killed := [];
      var i := 0;
      while i < |fs|
        invariant 0 <= i <= |fs|
        invariant KillOnly(f0, fs)
        invariant forall j :: 0 <= j < i && fs[j].alive ==> Dist2(FoodPos(fs[j]), c) > BLAST_R2
        invariant forall j :: i <= j < |fs| ==> fs[j] == f0[j]
        invariant forall j :: 0 <= j < |fs| && f0[j].alive && !fs[j].alive ==> Dist2(FoodPos(fs[j]), c) <= BLAST_R2
        invariant |pushed| == |killed| && Distinct(killed)
        invariant forall t :: 0 <= t < |killed| ==>
          killed[t] < i && f0[killed[t]].alive && !fs[killed[t]].alive
          && fs[killed[t]].kind == Red && pushed[t] == FoodPos(fs[killed[t]])
        invariant forall j :: 0 <= j < |fs| && f0[j].alive && !fs[j].alive && fs[j].kind == Red ==> j in killed
        invariant AliveCount(fs) + |pushed| <= AliveCount(f0)
      {
        var f := fs[i];
        if f.alive {
          if Dist2(FoodPos(f), c) <= BLAST_R2 {
            var wasRed := f.kind == Red;
            AliveCountKill(fs, i);
            fs := fs[i := f.(alive := false)];
            if wasRed {
              pushed := pushed + [Point(f.x, f.y)];
              killed := killed + [i];
            }
          }
        }
        i := i + 1;
      }
      foods := fs;
    }

    /**
     * One centre of `explodeChain`: if the player is within the blast radius
     * they take one blast's damage and are stunned for BLAST_STUN_MS; then
     * every alive node within the radius dies (see BlastAt).
     */
    method BlastCentre(c: Point, nowMs: real) returns (pushed: seq<Point>, ghost killed: seq<nat>, ghost hit: bool)
      requires Valid()
      modifies this`foods, this`hp, this`score, this`playing, this`scanning, this`lastEndWasWin, this`stunUntil
      ensures Valid()
      ensures hit <==> Dist2(pac, c) <= BLAST_R2
      ensures Round() == if hit then Hit(old(Round()), nowMs) else old(Round())
      ensures KillOnly(old(foods), foods)
      ensures forall j :: 0 <= j < |foods| && foods[j].alive ==> Dist2(FoodPos(foods[j]), c) > BLAST_R2
      ensures forall j :: 0 <= j < |foods| && old(foods)[j].alive && !foods[j].alive ==> Dist2(FoodPos(old(foods)[j]), c) <= BLAST_R2
      ensures |pushed| == |killed| && RedLedger(old(foods), foods, killed)
      ensures pushed == RedPositions(old(foods), killed)
      ensures AliveCount(foods) + |pushed| <= AliveCount(old(foods))
    {
      hit := false;
      if Dist2(pac, c) <= BLAST_R2 {
        hit := true;
        DamagePlayer(BLAST_DAMAGE);
        if BLAST_STUN_MS > 0.0 {
          stunUntil := nowMs + BLAST_STUN_MS;
        }
      }
      pushed, killed := BlastAt(c);
    }

    /**
     * The invariant of `explodeChain`'s loop, for a chain that started from
     * board f0, round s0 and stun deadline st0: the engine is valid, nodes
     * were only killed, the processed centres have distinct keys and keep the
     * queue discipline (ChainBook), no alive node is within the blast radius
     * of a processed centre, every node killed lies within the radius of a
     * processed centre, `reds` lists the red nodes killed so far, and the
     * round has taken one blast (Hit) per processed centre near the player.
     */
    ghost predicate ChainInv(f0: seq<Food>, s0: Session, start: Point, nowMs: real,
                             queue: seq<Point>, seen: set<(int, int)>, centres: seq<Point>, reds: seq<nat>, hits: nat)
      reads this
    {
      Valid()
      && ChainBoard(f0, foods, start, queue, seen, centres, reds)
      && KilledNear(f0, foods, centres)
      && hits == HitsOn(centres, pac)
      && Round() == Hits(s0, hits, nowMs)
    }

    /**
     * One turn of `explodeChain`'s loop: the front of the queue is taken off;
     * a centre whose key was seen before is skipped, a new one is remembered
     * and blasted (see BlastCentre) and the positions of the red nodes it
     * killed join the back of the queue.
     */
    method ChainStep(ghost f0: seq<Food>, ghost s0: Session, start: Point, nowMs: real,
                     queue: seq<Point>, seen: set<(int, int)>, ghost centres: seq<Point>, ghost reds: seq<nat>, ghost hits: nat)
      returns (queue': seq<Point>, seen': set<(int, int)>, ghost centres': seq<Point>, ghost reds': seq<nat>, ghost hits': nat)
      requires queue != [] && ChainInv(f0, s0, start, nowMs, queue, seen, centres, reds, hits)
      modifies this`foods, this`hp, this`score, this`playing, this`scanning, this`lastEndWasWin, this`stunUntil
      ensures ChainInv(f0, s0, start, nowMs, queue', seen', centres', reds', hits')
      ensures AliveCount(foods) < old(AliveCount(foods)) || (AliveCount(foods) == old(AliveCount(foods)) && |queue'| < |queue|)
    {
      var c := queue[0];
      var key := CentreKey(c);
      if key in seen {
        ChainSkip(f0, start, reds, centres, queue, seen);
        queue', seen', centres', reds', hits' := queue[1..], seen, centres, reds, hits;
        return;
      }
      ghost var fb, sb := foods, Round();
      var pushed, killed, hit := BlastCentre(c, nowMs);
      ChainBoardBlast(f0, fb, foods, start, queue, seen, centres, reds, killed, pushed);
      KilledNearSnoc(f0, fb, foods, centres, c);
      ChainHitStep(s0, sb, Round(), centres, c, pac, hits, hit, nowMs);
      queue' := queue[1..] + pushed;
      seen' := seen + {key};
      centres' := centres + [c];
      reds' := reds + killed;
      hits' := if hit then hits + 1 else hits;
    }

    /**
     * `explodeChain`: a breadth-first chain of blasts from a red node. Each
     * centre whose rounded key was not seen before is processed once: it
     * hurts the player (and stuns for a second) if within the blast radius,
     * and kills every alive node within that radius, queueing the red ones.
     * On exit no alive node lies within the radius of a processed centre,
     * every node killed lies within the radius of one, and the round has
     * taken one blast (Hit) per processed centre near the player.
     */
    method ExplodeChain(start: Point, nowMs: real) returns (ghost centres: seq<Point>, ghost reds: seq<nat>, ghost hits: nat)
      requires Valid()
      modifies this`foods, this`hp, this`score, this`playing, this`scanning, this`lastEndWasWin, this`stunUntil
      ensures Valid()
      ensures KillOnly(old(foods), foods)
      ensures |centres| >= 1 && centres[0] == start
      ensures KeysDistinct(centres)
      ensures Cleared(foods, centres)
      ensures KilledNear(old(foods), foods, centres)
      ensures Round() == Hits(old(Round()), hits, nowMs)
      ensures RedLedger(old(foods), foods, reds)
      ensures forall t :: 0 <= t < |reds| ==> CentreKey(FoodPos(old(foods)[reds[t]])) in KeySet(centres)
      ensures forall a :: 1 <= a < |centres| ==> centres[a] in RedPositions(old(foods), reds)
      ensures hits == HitsOn(centres, pac)
      ensures AfterBlasts(old(Round()), Round(), hits)
      ensures stunUntil == if hits > 0 then nowMs + BLAST_STUN_MS else old(stunUntil)
    {
      ghost var f0, s0 := foods, Round();
      var queue := [start];
      var seen: set<(int, int)> := {};
      centres := [];
      reds := [];
      hits := 0;
      assert KeySet(centres) == {};
      while queue != []
        invariant ChainInv(f0, s0, start, nowMs, queue, seen, centres, reds, hits)
        decreases AliveCount(foods), |queue|
      {
        queue, seen, centres, reds, hits := ChainStep(f0, s0, start, nowMs, queue, seen, centres, reds, hits);
      }
      ChainClosed(f0, start, reds, centres, seen);
      HitsAfterBlasts(s0, hits, nowMs);
    }

    /**
     * One step of `eatFoods`'s loop: node i, if alive and within the eating
     * radius, is eaten. A white one scores WHITE_POINT, a yellow one stuns
     * for 1.5 s, a red one sets off a chain explosion at its position, which
     * clears the blast radius around every centre it processes and, since the
     * player stands within reach of the node, blasts the player at least once.
     */
    method EatAt(i: nat, nowMs: real) returns (ghost exploded: bool, ghost centres: seq<Point>, ghost hits: nat)
      requires Valid() && i < |foods|
      modifies this`foods, this`hp, this`score, this`playing, this`scanning, this`lastEndWasWin, this`stunUntil
      ensures Valid()
      ensures KillOnly(old(foods), foods)
      ensures !Bites(foods[i], pac)
      ensures exploded <==> Bites(old(foods)[i], pac) && old(foods)[i].kind == Red
      ensures !exploded ==> foods == old(foods)[i := Bite(old(foods)[i], pac)]
      ensures !exploded ==> Round() == if Bites(old(foods)[i], pac) then Fed(old(Round()), old(foods)[i].kind, nowMs) else old(Round())
      ensures !exploded ==> centres == [] && hits == 0
      ensures exploded ==> |centres| >= 1 && centres[0] == FoodPos(old(foods)[i])
      ensures exploded ==> Cleared(foods, centres)
      ensures exploded ==> hits == HitsOn(centres, pac) && hits >= 1
      ensures exploded ==> AfterBlasts(old(Round()), Round(), hits) && stunUntil == nowMs + BLAST_STUN_MS
      ensures exploded ==> Round() == Hits(old(Round()), hits, nowMs)
      ensures forall j :: 0 <= j < |foods| && j != i && old(foods)[j].alive && !foods[j].alive ==> NearSome(FoodPos(old(foods)[j]), centres)
      ensures Visit(old(foods), old(Round()), pac, nowMs, i, exploded, centres, hits, foods, Round())
    {
      exploded := false;
      centres := [];
      hits := 0;
      var f := foods[i];
      if Bites(f, pac) {
        foods := foods[i := f.(alive := false)];
        if f.kind == Red {
          exploded := true;
          ghost var mid := foods;
          centres, hits := EatRed(f, nowMs);
          RedVisit(old(foods), old(Round()), pac, nowMs, i, mid, centres, hits, foods, Round());
        } else {
          Feed(f.kind, nowMs);
          QuietVisit(old(foods), old(Round()), pac, nowMs, i, foods, Round());
        }
      } else {
        QuietVisit(old(foods), old(Round()), pac, nowMs, i, foods, Round());
      }
    }

    /** Eating a white node scores WHITE_POINT; eating a yellow one stuns for 1.5 s. */
    method Feed(k: Kind, nowMs: real)
      requires Valid() && k != Red
      modifies this`score, this`stunUntil
      ensures Valid()
      ensures Round() == Fed(old(Round()), k, nowMs)
    {
      if k == White {
        score := score + WHITE_POINT;
      } else {
        stunUntil := nowMs + YELLOW_STUN_MS;
      }
    }

    /**
     * The red branch of `eatFoods`, once the node f is marked eaten: the
     * chain explosion at its position blasts the player at least once.
     */
    method EatRed(f: Food, nowMs: real) returns (ghost centres: seq<Point>, ghost hits: nat)
      requires Valid() && Bites(f, pac)
      modifies this`foods, this`hp, this`score, this`playing, this`scanning, this`lastEndWasWin, this`stunUntil
      ensures Valid() && KillOnly(old(foods), foods)
      ensures |centres| >= 1 && centres[0] == FoodPos(f)
      ensures Cleared(foods, centres)
      ensures hits == HitsOn(centres, pac) && hits >= 1
      ensures AfterBlasts(old(Round()), Round(), hits) && stunUntil == nowMs + BLAST_STUN_MS
      ensures Round() == Hits(old(Round()), hits, nowMs)
      ensures KilledNear(old(foods), foods, centres)
    {
      ghost var reds;
      centres, reds, hits := ExplodeChain(Point(f.x, f.y), nowMs);
      BitesInBlast(f, pac);
      HitsOnPositive(centres, pac, 0);
    }

    /** One turn of `eatFoods`'s loop: node i is eaten if within reach (EatAt), keeping the loop invariant. */
    method EatStep(ghost f0: seq<Food>, ghost s0: Session, nowMs: real, i: nat,
                   ghost exploded: bool, ghost first: nat, ghost centres: seq<Point>, ghost hits: nat, ghost evs: seq<Event>)
      returns (ghost exploded': bool, ghost first': nat, ghost centres': seq<Point>, ghost hits': nat, ghost evs': seq<Event>)
      requires Valid() && i < |foods|
      requires EatLoop(f0, s0, pac, nowMs, i, exploded, first, centres, hits, foods, Round())
      requires EatEvents(f0, s0, pac, nowMs, i, evs, hits, Round()) && EatKills(f0, pac, i, evs, centres, foods)
      modifies this`foods, this`hp, this`score, this`playing, this`scanning, this`lastEndWasWin, this`stunUntil
      ensures Valid()
      ensures EatLoop(f0, s0, pac, nowMs, i + 1, exploded', first', centres', hits', foods, Round())
      ensures EatEvents(f0, s0, pac, nowMs, i + 1, evs', hits', Round()) && EatKills(f0, pac, i + 1, evs', centres', foods)
    {
      ghost var fb, sb := foods, Round();
      var boom, cs, h := EatAt(i, nowMs);
      EatVisitStep(f0, s0, pac, nowMs, i, exploded, first, centres, hits, evs, fb, sb, boom, cs, h, foods, Round());
      exploded' := exploded || boom;
      first' := if boom && !exploded then i else first;
      centres' := centres + cs;
      hits' := hits + h;
      evs' := evs + VisitEvents(fb[i], pac, i, h);
    }

    /**
     * `eatFoods`: outside play nothing happens. Otherwise every node is
     * visited in board order and eaten when alive and within the eating
     * radius of the player (see EatAt). On exit no alive node is within that
     * radius. A chain explosion happens exactly when a red node was within
     * reach; the first such node sets one off at its position, no alive node
     * is left within the blast radius of any centre of any chain, and health
     * has dropped by BLAST_DAMAGE (down to 0) for every centre near the
     * player, ending the round as a loss once it is gone. Without an
     * explosion the board is exactly Bitten(old board), the score rose by
     * WHITE_POINT per white node eaten, and eating a yellow one set the stun
     * deadline. With or without explosions, the round is the replay of the
     * loop's events in order (EatenRound): score and stun deadline are what
     * the nodes eaten and the blasts taken, in visit order, leave of them.
     */
    method EatFoods(nowMs: real) returns (ghost exploded: bool, ghost first: nat, ghost centres: seq<Point>, ghost hits: nat, ghost evs: seq<Event>)
      requires Valid()
      modifies this`foods, this`hp, this`score, this`playing, this`scanning, this`lastEndWasWin, this`stunUntil
      ensures Valid()
      ensures KillOnly(old(foods), foods)
      ensures !old(playing) ==> foods == old(foods) && Round() == old(Round()) && !exploded
      ensures old(playing) ==> ClearAround(foods, |foods|, pac, EAT_R2)
      ensures exploded <==> old(playing) && CountBitten(old(foods), pac, Red) > 0
      ensures exploded ==> first < |foods| && Bites(old(foods)[first], pac) && old(foods)[first].kind == Red
      ensures exploded ==> CountBitten(old(foods)[..first], pac, Red) == 0
      ensures exploded ==> |centres| >= 1 && centres[0] == FoodPos(old(foods)[first]) && hits >= 1
      ensures !exploded ==> centres == [] && hits == 0
      ensures Cleared(foods, centres) && hits == HitsOn(centres, pac)
      ensures hp == Max(0.0, old(hp) - 15.0 * hits as real)
      ensures hits > 0 && hp <= 0.0 ==> !playing && !scanning && !lastEndWasWin
      ensures old(playing) && !exploded ==>
        foods == Bitten(old(foods), pac)
        && hp == old(hp) && playing == old(playing) && scanning == old(scanning) && lastEndWasWin == old(lastEndWasWin)
        && score == old(score) + WHITE_POINT * CountBitten(old(foods), pac, White) as real
        && stunUntil == if CountBitten(old(foods), pac, Yellow) > 0 then nowMs + YELLOW_STUN_MS else old(stunUntil)
      ensures !old(playing) ==> evs == []
      ensures old(playing) ==> EatenRound(old(foods), old(Round()), pac, nowMs, evs, centres, foods, Round())
    {
      exploded := false;
      first := 0;
      centres := [];
      hits := 0;
      evs := [];
      if !playing {
        return;
      }
      exploded, first, centres, hits, evs := EatAll(nowMs);
      EatLoopDone(old(foods), old(Round()), pac, nowMs, exploded, first, centres, hits, foods, Round());
    }

    /** The loop of `eatFoods` during play: every node is visited in board order (see EatStep). */
    method EatAll(nowMs: real) returns (ghost exploded: bool, ghost first: nat, ghost centres: seq<Point>, ghost hits: nat, ghost evs: seq<Event>)
      requires Valid()
      modifies this`foods, this`hp, this`score, this`playing, this`scanning, this`lastEndWasWin, this`stunUntil
      ensures Valid()
      ensures EatLoop(old(foods), old(Round()), pac, nowMs, |old(foods)|, exploded, first, centres, hits, foods, Round())
      ensures EatEvents(old(foods), old(Round()), pac, nowMs, |old(foods)|, evs, hits, Round())
      ensures EatKills(old(foods), pac, |old(foods)|, evs, centres, foods)
    {
      exploded := false;
      first := 0;
      centres := [];
      hits := 0;
      evs := [];
      ghost var s0 := Round();
      ghost var f0 := foods;
      var i := 0;
      while i < |foods|
        invariant Valid()
        invariant EatLoop(f0, s0, pac, nowMs, i, exploded, first, centres, hits, foods, Round())
        invariant EatEvents(f0, s0, pac, nowMs, i, evs, hits, Round()) && EatKills(f0, pac, i, evs, centres, foods)
      {
        exploded, first, centres, hits, evs := EatStep(f0, s0, nowMs, i, exploded, first, centres, hits, evs);
        i := i + 1;
      }
    }
    /**
     * `findNearestWhiteWithin(gh, radius)`: the index of the nearest alive
     * white node within the radius whose direction from the ghost its mask
     * allows, the lowest such index on ties, or −1 when there is none.
     */
    method FindNearestWhiteWithin(gh: Ghost, radius: real) returns (best: int)
      ensures best == -1 <==> forall j :: !Eligible(foods, gh, radius, j)
      ensures best != -1 ==> Nearest(foods, gh, radius, best)
    {
      var r2 := radius * radius;
      best := -1;
      var bestD2 := 0.0;
      var i := 0;
      while i < |foods|
        invariant 0 <= i <= |foods|
        invariant best == -1 <==> forall j :: 0 <= j < i ==> !Eligible(foods, gh, radius, j)
        invariant best != -1 ==> NearestBelow(foods, gh, radius, best, i) && bestD2 == Dist2(FoodPos(foods[best]), gh.pos)
      {
        var f := foods[i];
        var d2 := Dist2(FoodPos(f), gh.pos);
        var eligible := f.alive && f.kind == White && d2 <= r2
          && Allowed(gh.mask, DirIndex(f.x - gh.pos.x, f.y - gh.pos.y));
        assert eligible == Eligible(foods, gh, radius, i);
        if eligible && (best == -1 || d2 < bestD2) {
          bestD2 := d2;
          best := i;
        }
        i := i + 1;
      }
    }

    /**
     * The target choice of `stepGhosts`: a ghost keeps its target while that
     * is still worth painting (KeepsTarget) and otherwise takes the nearest
     * eligible node within SEEK_RADIUS, or none (−1).
     */
    method ChooseTarget(gh: Ghost) returns (target: int)
      ensures KeepsTarget(foods, gh) ==> target == gh.paintTarget
      ensures !KeepsTarget(foods, gh) ==>
        (target == -1 <==> forall j :: !Eligible(foods, gh, SEEK_RADIUS, j))
        && (target != -1 ==> Nearest(foods, gh, SEEK_RADIUS, target))
      ensures target == -1 || (0 <= target < |foods| && foods[target].alive && foods[target].kind == White)
    {
      if KeepsTarget(foods, gh) {
        target := gh.paintTarget;
      } else {
        target := FindNearestWhiteWithin(gh, SEEK_RADIUS);
      }
    }

    /**
     * The paint step of `stepGhosts` for ghost k, which has just moved to
     * pos. If it has a target within PAINT_TOUCH_DIST and the paint interval
     * has passed, it paints: with probability PAINT_PROB (`paintRoll`) the
     * target becomes red or yellow (`colorRoll`), and in any case the ghost
     * records the time and drops the target. Otherwise it keeps the target.
     */
    method PaintStep(k: nat, pos: Point, target: int, nowSec: real, paintRoll: real, colorRoll: real) returns (painted: bool)
      requires Valid() && k < |ghosts|
      requires target == -1 || (0 <= target < |foods| && foods[target].alive && foods[target].kind == White)
      requires |grid| >= 1 ==> InBounds(|grid|, pos)
      modifies this`ghosts, this`foods
      ensures Valid()
      ensures |ghosts| == |old(ghosts)| && forall j :: 0 <= j < |ghosts| && j != k ==> ghosts[j] == old(ghosts)[j]
      ensures painted <==> (target >= 0
        && Dist2(FoodPos(old(foods)[target]), pos) <= PAINT_TOUCH_DIST * PAINT_TOUCH_DIST
        && old(ghosts)[k].lastPaint + PAINT_INTERVAL <= nowSec)
      ensures painted ==>
        ghosts[k] == Ghost(pos, nowSec, old(ghosts)[k].mask, -1)
        && foods == if paintRoll <= PAINT_PROB then old(foods)[target := old(foods)[target].(kind := PaintColor(colorRoll))] else old(foods)
      ensures !painted ==> ghosts[k] == old(ghosts)[k].(pos := pos, paintTarget := target) && foods == old(foods)
      ensures RepaintOnly(old(foods), foods)
    {
      var gh := ghosts[k];
      painted := false;
      if target >= 0 {
        var t := foods[target];
        if Dist2(FoodPos(t), pos) <= PAINT_TOUCH_DIST * PAINT_TOUCH_DIST && gh.lastPaint + PAINT_INTERVAL <= nowSec {
          if paintRoll <= PAINT_PROB {
            foods := foods[target := t.(kind := PaintColor(colorRoll))];
          }
          painted := true;
          ghosts := ghosts[k := Ghost(pos, nowSec, gh.mask, -1)];
          return;
        }
      }
      ghosts := ghosts[k := gh.(pos := pos, paintTarget := target)];
    }

    /**
     * `stepGhosts`: each ghost in turn chooses its target (ChooseTarget),
     * moves (GhostMove) and may paint it (PaintStep); later ghosts see the
     * paint of earlier ones. `nowSec` is the clock in seconds; per ghost,
     * `drift` gives the cosine and sine of its drift phase, and `paintRolls`
     * and `colorRolls` its two random draws. Nodes are only repainted, each
     * from white on an alive node; ghosts keep their masks and either keep
     * their last paint time or paint now. Ghost k's turn follows GhostTurn
     * on the board `boards[k]` the earlier ghosts left, with target
     * `targets[k]` (GhostsStepped).
     */
    method StepGhosts(dt: real, nowSec: real, sqrt: real -> real, drift: seq<Point>, paintRolls: seq<real>, colorRolls: seq<real>)
      returns (ghost targets: seq<int>, ghost boards: seq<seq<Food>>)
      requires Valid()
      modifies this`ghosts, this`foods
      ensures Valid()
      ensures RepaintOnly(old(foods), foods)
      ensures |ghosts| == |old(ghosts)|
      ensures forall j :: 0 <= j < |ghosts| ==>
        ghosts[j].mask == old(ghosts)[j].mask
        && (ghosts[j].lastPaint == old(ghosts)[j].lastPaint || ghosts[j].lastPaint == nowSec)
        && -1 <= ghosts[j].paintTarget < |foods|
      ensures GhostsStepped(|grid|, dt, nowSec, sqrt, drift, paintRolls, colorRolls, old(foods), old(ghosts), targets, boards, foods, ghosts)
    {
      targets, boards := [], [foods];
      var k := 0;
      while k < |ghosts|
        invariant 0 <= k <= |ghosts| == |old(ghosts)|
        invariant Valid()
        invariant RepaintOnly(old(foods), foods)
        invariant forall j :: k <= j < |ghosts| ==> ghosts[j] == old(ghosts)[j]
        invariant forall j :: 0 <= j < k ==>
          ghosts[j].mask == old(ghosts)[j].mask
          && (ghosts[j].lastPaint == old(ghosts)[j].lastPaint || ghosts[j].lastPaint == nowSec)
          && -1 <= ghosts[j].paintTarget < |foods|
        invariant |targets| == k && |boards| == k + 1 && boards[0] == old(foods) && boards[k] == foods
        invariant forall j :: 0 <= j < k ==>
          GhostTurn(|grid|, dt, nowSec, sqrt, DriftOf(drift, j), Roll(paintRolls, j), Roll(colorRolls, j),
                    boards[j], old(ghosts)[j], targets[j], boards[j + 1], ghosts[j])
      {
        var gh := ghosts[k];
        var target := ChooseTarget(gh);
        var pos := GhostMove(|grid|, gh.pos, TargetPos(foods, target), sqrt, DriftOf(drift, k), dt);
        ghost var fb := foods;
        var _ := PaintStep(k, pos, target, nowSec, Roll(paintRolls, k), Roll(colorRolls, k));
        RepaintOnlyTrans(old(foods), fb, foods);
        assert GhostTurn(|grid|, dt, nowSec, sqrt, DriftOf(drift, k), Roll(paintRolls, k), Roll(colorRolls, k),
                         fb, gh, target, foods, ghosts[k]);
        targets, boards := targets + [target], boards + [foods];
        k := k + 1;
      }
    }
    /**
     * `physics(dt)`: outside play nothing moves. Otherwise the player moves
     * by its velocity at PAC_SPEED tiles per second, eats (EatFoods, with
     * the clock at nowMs), and the ghosts step (StepGhosts, with the clock
     * in seconds); the ghosts step even if eating ended the round. Nodes
     * only die or turn from white, and afterwards no alive node is within
     * eating reach of the player. The trace `tr` records the eating round
     * (EatenRound: score, health and stun are the replay of what was eaten
     * and the blasts taken) and the ghosts' turns (GhostsStepped) on the
     * board eating left; the ghosts leave the round as eating left it.
     */
    method Physics(dt: real, nowMs: real, sqrt: real -> real, drift: seq<Point>, paintRolls: seq<real>, colorRolls: seq<real>)
      returns (ghost tr: FrameTrace)
      requires Valid()
      modifies this`pac, this`foods, this`ghosts, this`hp, this`score, this`playing, this`scanning, this`lastEndWasWin, this`stunUntil
      ensures Valid()
      ensures !old(playing) ==> pac == old(pac) && foods == old(foods) && ghosts == old(ghosts) && Round() == old(Round())
      ensures old(playing) ==> pac == PlayerMove(|grid|, old(pac), old(vel), dt)
      ensures old(playing) ==> ClearAround(foods, |foods|, pac, EAT_R2)
      ensures Evolves(old(foods), foods)
      ensures |ghosts| == |old(ghosts)|
      ensures playing ==> old(playing)
      ensures old(playing) ==> EatenRound(old(foods), old(Round()), pac, nowMs, tr.evs, tr.centres, tr.eaten, tr.ate)
      ensures old(playing) ==> Round() == tr.ate
      ensures old(playing) ==>
        GhostsStepped(|grid|, dt, nowMs / 1000.0, sqrt, drift, paintRolls, colorRolls,
                      tr.eaten, old(ghosts), tr.targets, tr.boards, foods, ghosts)
    {
      tr := FrameTrace([], [], foods, Round(), [], [foods]);
      if !playing {
        return;
      }
      ghost var f0 := foods;
      var centres, evs := MoveAndEat(dt, nowMs);
      ghost var f1, s1 := foods, Round();
      var targets, boards := StepGhosts(dt, nowMs / 1000.0, sqrt, drift, paintRolls, colorRolls);
      tr := FrameTrace(evs, centres, f1, s1, targets, boards);
      KillThenRepaint(f0, f1, foods);
      ClearAroundRepaint(f1, foods, pac, EAT_R2);
    }

    /**
     * The first half of `physics(dt)` during play: the player moves by its
     * velocity (PlayerMove), then eats (EatFoods) where it now stands, and
     * the round is the replay of the eating loop's events (EatenRound).
     */
    method MoveAndEat(dt: real, nowMs: real) returns (ghost centres: seq<Point>, ghost evs: seq<Event>)
      requires Valid() && playing
      modifies this`pac, this`foods, this`hp, this`score, this`playing, this`scanning, this`lastEndWasWin, this`stunUntil
      ensures Valid()
      ensures pac == PlayerMove(|grid|, old(pac), old(vel), dt)
      ensures KillOnly(old(foods), foods)
      ensures ClearAround(foods, |foods|, pac, EAT_R2)
      ensures EatenRound(old(foods), old(Round()), pac, nowMs, evs, centres, foods, Round())
    {
      pac := PlayerMove(|grid|, pac, vel, dt);
      var _, _, cs, _, es := EatFoods(nowMs);
      centres, evs := cs, es;
    }

    /** The frame clock of `loop(ts)`: the time since the last frame (0 on the first), capped at MAX_DT. */
    method FrameClock(ts: real) returns (dt: real)
      requires lastTs.Some? ==> lastTs.value <= ts
      modifies this`lastTs
      ensures lastTs == Some(ts)
      ensures 0.0 <= dt <= MAX_DT
      ensures dt == Min(if old(lastTs).None? then 0.0 else (ts - old(lastTs).value) / 1000.0, MAX_DT)
    {
      dt := if lastTs.None? then 0.0 else (ts - lastTs.value) / 1000.0;
      lastTs := Some(ts);
      dt := Min(dt, MAX_DT);
    }

    /**
     * The rest of `loop(ts)` for a frame of length dt, after the controls:
     * physics, then the timer branch (TimerBranch) on the round as physics
     * left it (`mid`). Outside play nothing changes. During play `mid` is
     * the round eating left (trace `tr`, see Physics) and the ghosts took
     * their turns on the board eating left.
     */
    method Frame(dt: real, nowMs: real, sqrt: real -> real, drift: seq<Point>, paintRolls: seq<real>, colorRolls: seq<real>)
      returns (ghost mid: Session, ghost tr: FrameTrace)
      requires Valid() && 0.0 <= dt
      modifies this`pac, this`foods, this`ghosts, this`hp, this`score, this`playing, this`scanning
      modifies this`lastEndWasWin, this`stunUntil, this`timeLeft
      ensures Valid()
      ensures Round() == TimerStep(mid, dt)
      ensures !old(playing) ==> mid == old(Round()) && foods == old(foods) && ghosts == old(ghosts) && pac == old(pac)
      ensures mid.playing ==> old(playing)
      ensures mid.timeLeft == old(timeLeft) && mid.timeMax == old(timeMax) && mid.timerFrozen == old(timerFrozen)
      ensures mid.continues == old(continues) && mid.isScannable == old(isScannable)
      ensures old(playing) ==> pac == PlayerMove(|grid|, old(pac), old(vel), dt)
      ensures old(playing) ==> ClearAround(foods, |foods|, pac, EAT_R2)
      ensures Evolves(old(foods), foods)
      ensures |ghosts| == |old(ghosts)|
      ensures old(playing) ==> EatenRound(old(foods), old(Round()), pac, nowMs, tr.evs, tr.centres, tr.eaten, mid)
      ensures old(playing) ==>
        GhostsStepped(|grid|, dt, nowMs / 1000.0, sqrt, drift, paintRolls, colorRolls,
                      tr.eaten, old(ghosts), tr.targets, tr.boards, foods, ghosts)
    {
      tr := Physics(dt, nowMs, sqrt, drift, paintRolls, colorRolls);
      mid := Round();
      TimerBranch(dt);
    }

    /** One frame of `loop(ts)`: the frame clock (FrameClock), then the frame proper (Advance). */
    method Tick(ts: real, nowMs: real, keys: set<string>, sqrt: real -> real, drift: seq<Point>, paintRolls: seq<real>, colorRolls: seq<real>)
      returns (dt: real, ghost mid: Session, ghost tr: FrameTrace)
      requires Valid() && (lastTs.Some? ==> lastTs.value <= ts)
      modifies this`lastTs, this`vel, this`pac, this`foods, this`ghosts, this`hp, this`score, this`playing, this`scanning
      modifies this`lastEndWasWin, this`stunUntil, this`timeLeft
      ensures lastTs == Some(ts)
      ensures 0.0 <= dt <= MAX_DT
      ensures dt == Min(if old(lastTs).None? then 0.0 else (ts - old(lastTs).value) / 1000.0, MAX_DT)
      ensures Valid()
      ensures Round() == TimerStep(mid, dt)
      ensures !old(playing) ==> mid == old(Round()) && foods == old(foods) && ghosts == old(ghosts) && pac == old(pac)
      ensures mid.playing ==> old(playing)
      ensures mid.timeLeft == old(timeLeft) && mid.timeMax == old(timeMax) && mid.timerFrozen == old(timerFrozen)
      ensures mid.continues == old(continues) && mid.isScannable == old(isScannable)
      ensures !old(playing) ==> vel == old(vel)
      ensures old(playing) && nowMs < old(stunUntil) ==> vel == Point(0.0, 0.0)
      ensures old(playing) && nowMs >= old(stunUntil) ==>
        var v := ControlVector(keys, input);
        vel == Normalised(v, sqrt(Norm2(v)))
      ensures old(playing) ==> pac == PlayerMove(|grid|, old(pac), vel, dt)
      ensures old(playing) ==> ClearAround(foods, |foods|, pac, EAT_R2)
      ensures Evolves(old(foods), foods)
      ensures |ghosts| == |old(ghosts)|
      ensures old(playing) ==> EatenRound(old(foods), old(Round()), pac, nowMs, tr.evs, tr.centres, tr.eaten, mid)
      ensures old(playing) ==>
        GhostsStepped(|grid|, dt, nowMs / 1000.0, sqrt, drift, paintRolls, colorRolls,
                      tr.eaten, old(ghosts), tr.targets, tr.boards, foods, ghosts)
    {
      dt := FrameClock(ts);
      mid, tr := Advance(dt, nowMs, keys, sqrt, drift, paintRolls, colorRolls);
    }

    /** A frame after its clock: the controls (StepControls), then physics and the timer (Frame). */
    method Advance(dt: real, nowMs: real, keys: set<string>, sqrt: real -> real, drift: seq<Point>, paintRolls: seq<real>, colorRolls: seq<real>)
      returns (ghost mid: Session, ghost tr: FrameTrace)
      requires Valid() && 0.0 <= dt
      modifies this`vel, this`pac, this`foods, this`ghosts, this`hp, this`score, this`playing, this`scanning
      modifies this`lastEndWasWin, this`stunUntil, this`timeLeft
      ensures Valid()
      ensures Round() == TimerStep(mid, dt)
      ensures !old(playing) ==> mid == old(Round()) && foods == old(foods) && ghosts == old(ghosts) && pac == old(pac)
      ensures mid.playing ==> old(playing)
      ensures mid.timeLeft == old(timeLeft) && mid.timeMax == old(timeMax) && mid.timerFrozen == old(timerFrozen)
      ensures mid.continues == old(continues) && mid.isScannable == old(isScannable)
      ensures !old(playing) ==> vel == old(vel)
      ensures old(playing) && nowMs < old(stunUntil) ==> vel == Point(0.0, 0.0)
      ensures old(playing) && nowMs >= old(stunUntil) ==>
        var v := ControlVector(keys, input);
        vel == Normalised(v, sqrt(Norm2(v)))
      ensures old(playing) ==> pac == PlayerMove(|grid|, old(pac), vel, dt)
      ensures old(playing) ==> ClearAround(foods, |foods|, pac, EAT_R2)
      ensures Evolves(old(foods), foods)
      ensures |ghosts| == |old(ghosts)|
      ensures old(playing) ==> EatenRound(old(foods), old(Round()), pac, nowMs, tr.evs, tr.centres, tr.eaten, mid)
      ensures old(playing) ==>
        GhostsStepped(|grid|, dt, nowMs / 1000.0, sqrt, drift, paintRolls, colorRolls,
                      tr.eaten, old(ghosts), tr.targets, tr.boards, foods, ghosts)
    {
      StepControls(nowMs, keys, sqrt);
      mid, tr := Frame(dt, nowMs, sqrt, drift, paintRolls, colorRolls);
    }
    /**
     * `scanCurrentQR`: with no board nothing happens. Otherwise the alive
     * nodes are drawn into an image (ShowsAlive), the decoder reads it, and
     * the scan succeeds exactly when it yields the original text; a decoder
     * failure counts as an unreadable image. A failed scan during play ends
     * the round as a win.
     */
    method ScanCurrentQR(decode: Symbol -> Option<string>) returns (ok: bool, img: Symbol)
      requires Valid()
      modifies this`isScannable, this`playing, this`scanning, this`lastEndWasWin
      ensures Valid()
      ensures |grid| == 0 ==> Round() == old(Round())
      ensures |grid| > 0 ==> ShowsAlive(img, foods, |grid|) && (ok <==> decode(img) == Some(originalText))
      ensures |grid| > 0 ==> Round() == Scanned(old(Round()), ok)
    {
      ok := false;
      img := [];
      var n := |grid|;
      if n == 0 {
        return;
      }
      var cells := AliveCells(foods);
      img := Raster(cells, n);
      ok := decode(img) == Some(originalText);
      isScannable := ok;
      if !ok && playing {
        EndPlay(true);
      }
    }
    /**
     * A board laid from symbol m: dealt afresh (Dealt, with `idxs` the
     * shuffled node order), the player at the centre standing still, the
     * three ghosts 3.5 tiles in from three corners.
     */
    predicate Laid(m: Grid, draws: BuildDraws, idxs: seq<nat>)
      reads this`grid, this`foods, this`pac, this`vel, this`ghosts
    {
      IsSquare(m) && grid == m && Dealt(m, foods, idxs)
      && pac == Point(|m| as real / 2.0, |m| as real / 2.0) && vel == Point(0.0, 0.0)
      && ghosts == StartGhosts(|m|, draws)
    }

    /**
     * The part of `buildQR` after a successful encoding: the board is laid
     * from the symbol `m` and the round waits for the start button with a
     * full clock.
     */
    method LayBoard(m: Grid, draws: BuildDraws) returns (idxs: seq<nat>)
      requires IsSquare(m) && |m| >= 21
      modifies this`grid, this`foods, this`totalFoods, this`pac, this`vel, this`ghosts
      modifies this`score, this`hp, this`timeLeft, this`timeMax, this`playing, this`timerFrozen
      modifies this`lastEndWasWin, this`continues, this`isScannable, this`scanning, this`stunUntil
      ensures Valid() && Laid(m, draws, idxs)
      ensures Round() == BuiltRound()
    {
      var nodes;
      nodes, idxs := NewBoard(m, draws.shuffle);
      var n := |m|;
      grid := m;
      pac := Point(n as real / 2.0, n as real / 2.0);
      vel := Point(0.0, 0.0);
      ghosts := StartGhosts(n, draws);
      foods := nodes;
      totalFoods := |nodes|;
      SetRound(BuiltRound());
    }

    /** The opening of `buildQR`: the round's counters start over. */
    method Restart()
      requires Valid()
      modifies this`score, this`hp, this`timeLeft, this`timeMax, this`playing, this`timerFrozen
      modifies this`lastEndWasWin, this`continues, this`isScannable, this`scanning, this`stunUntil
      ensures Valid() && Round() == Reset(old(Round()))
    {
      SetRound(Reset(Round()));
    }

    /** The input stops, and the size hint and the text are recorded. */
    method Record(hint: Option<int>, text: string)
      modifies this`input, this`modules, this`originalText
      ensures input == Point(0.0, 0.0) && modules == hint && originalText == text
    {
      input, modules, originalText := Point(0.0, 0.0), hint, text;
    }

    /**
     * `buildQR` once the fields are read: resets the round's counters and
     * the input, records the size hint and the text, and encodes the text
     * (Create). If encoding fails nothing after it happens: `built` is
     * false and the old board stays. Otherwise the board is laid afresh
     * (LayBoard).
     */
    method Rebuild(hint: Option<int>, text: string, encode: Encoder, draws: BuildDraws)
      returns (built: bool, idxs: seq<nat>)
      requires Valid() && SymbolEncoder(encode)
      modifies this`grid, this`foods, this`totalFoods, this`modules, this`originalText, this`pac, this`vel, this`input
      modifies this`ghosts, this`score, this`hp, this`timeLeft, this`timeMax, this`playing, this`timerFrozen
      modifies this`lastEndWasWin, this`continues, this`isScannable, this`scanning, this`stunUntil
      ensures Valid() && input == Point(0.0, 0.0) && modules == hint && originalText == text
      ensures built <==> Create(text, hint, encode).Some?
      ensures !built ==> Round() == Reset(old(Round())) && unchanged(this`grid, this`foods, this`ghosts, this`pac, this`vel)
      ensures built ==> Round() == BuiltRound() && Laid(Create(text, hint, encode).value, draws, idxs)
    {
      Restart();
      Record(hint, text);
      var qr := Create(text, hint, encode);
      idxs := [];
      built := qr.Some?;
      if built {
        idxs := LayBoard(qr.value, draws);
      }
    }

    /**
     * `buildQR`: takes the size field (as parsed, None when it is not a
     * number) clamped to [21, 57] and the text field trimmed (or "QR-Pac"),
     * and rebuilds the board from them (Rebuild).
     */
    method BuildQR(sizeField: Option<int>, textField: string, encode: Encoder, draws: BuildDraws)
      returns (built: bool, idxs: seq<nat>)
      requires Valid() && SymbolEncoder(encode)
      modifies this`grid, this`foods, this`totalFoods, this`modules, this`originalText, this`pac, this`vel, this`input
      modifies this`ghosts, this`score, this`hp, this`timeLeft, this`timeMax, this`playing, this`timerFrozen
      modifies this`lastEndWasWin, this`continues, this`isScannable, this`scanning, this`stunUntil
      ensures Valid() && input == Point(0.0, 0.0)
      ensures modules == ClampModules(sizeField) && originalText == TextOrDefault(textField)
      ensures built <==> Create(TextOrDefault(textField), ClampModules(sizeField), encode).Some?
      ensures !built ==> Round() == Reset(old(Round())) && unchanged(this`grid, this`foods, this`ghosts, this`pac, this`vel)
      ensures built ==> Round() == BuiltRound()
      ensures built ==> Laid(Create(TextOrDefault(textField), ClampModules(sizeField), encode).value, draws, idxs)
    {
      built, idxs := Rebuild(ClampModules(sizeField), TextOrDefault(textField), encode, draws);
    }
  }
}
