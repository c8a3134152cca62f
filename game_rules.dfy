/**
 * Pure rules of the QR-Pac engine: movement on the board, the heading of a
 * vector as one of four directions, ghost paint masks, and the round's
 * scalar state (score, health, clock) with the transitions the engine
 * applies to it: damage, a timer tick, the end of a round, a continue, the
 * start of play and the pause toggle.
 */
module GameRules {
  import opened GameConfig

  /** A position or a vector in grid cells. */
  datatype Point = Point(x: real, y: real)

  function Max(a: real, b: real): real { if a >= b then a else b }
  function Min(a: real, b: real): real { if a <= b then a else b }
  function Abs(a: real): real { if a >= 0.0 then a else -a }

  /** Squared euclidean distance; the engine's `hypot(...) <= r` tests are compared on squares. */
  function Dist2(a: Point, b: Point): (d: real)
    ensures d >= 0.0
  {
    (a.x - b.x) * (a.x - b.x) + (a.y - b.y) * (a.y - b.y)
  }

  /** Squared length of a vector. */
  function Norm2(v: Point): (n: real)
    ensures n >= 0.0
  {
    v.x * v.x + v.y * v.y
  }

  /** The playing field of an N×N board: x within 0.3 of the edges, y within 0.4. */
  predicate InBounds(n: nat, p: Point)
  {
    X_MARGIN <= p.x <= n as real - X_MARGIN && Y_MARGIN <= p.y <= n as real - Y_MARGIN
  }

  /**
   * `tryMove`: move by (dx, dy) on a board of side n. Leaving on the left
   * edge reappears at the right edge, leaving on the right edge reappears
   * at the left edge; y is clamped to the field.
   */
  function TryMove(n: nat, p: Point, dx: real, dy: real): (q: Point)
    ensures p.x + dx < X_MARGIN ==> q.x == n as real - X_MARGIN
    ensures X_MARGIN <= p.x + dx <= n as real - X_MARGIN ==> q.x == p.x + dx
    ensures X_MARGIN <= p.x + dx && n as real - X_MARGIN < p.x + dx ==> q.x == X_MARGIN
    ensures n >= 1 && Y_MARGIN <= p.y + dy <= n as real - Y_MARGIN ==> q.y == p.y + dy
    ensures p.y + dy < Y_MARGIN ==> q.y == Y_MARGIN
    ensures n >= 1 && n as real - Y_MARGIN < p.y + dy ==> q.y == n as real - Y_MARGIN
    ensures n >= 1 ==> InBounds(n, q)
  {
    var w := n as real;
    var nx0 := p.x + dx;
    var nx1 := if nx0 < X_MARGIN then w - X_MARGIN else nx0;
    var nx := if nx1 > w - X_MARGIN then X_MARGIN else nx1;
    var ny := Max(Y_MARGIN, Min(w - Y_MARGIN, p.y + dy));
    Point(nx, ny)
  }

  /**
   * `dirIndexFromVector`: 0 up, 1 right, 2 down, 3 left (screen y grows
   * downwards). Each index names the closed quarter-plane the vector lies
   * in; diagonals go to the vertical directions and the zero vector is "down".
   */
  function DirIndex(dx: real, dy: real): (d: nat)
    ensures d < 4
    ensures d == 0 ==> dy < 0.0 && Abs(dx) <= -dy
    ensures d == 1 ==> dx > 0.0 && Abs(dy) < dx
    ensures d == 2 ==> dy >= 0.0 && Abs(dx) <= dy
    ensures d == 3 ==> dx < 0.0 && Abs(dy) < -dx
  {
    if Abs(dy) >= Abs(dx) then (if dy < 0.0 then 0 else 2)
    else (if dx > 0.0 then 1 else 3)
  }

  function Opposite(d: nat): nat { (d + 2) % 4 }

  /** Reversing a non-zero vector reverses its direction. */
  lemma DirOpposite(dx: real, dy: real)
    requires dx != 0.0 || dy != 0.0
    ensures DirIndex(-dx, -dy) == Opposite(DirIndex(dx, dy))
  {
  }

  /** Scaling by a positive factor scales the absolute value. */
  lemma ScaleAbs(k: real, x: real)
    requires k > 0.0
    ensures Abs(k * x) == k * Abs(x)
    ensures k * x < 0.0 <==> x < 0.0
    ensures k * x > 0.0 <==> x > 0.0
  {
    if x < 0.0 {
      assert k * x == -(k * -x);
    }
  }

  /** A direction does not depend on the vector's length. */
  lemma DirScale(dx: real, dy: real, k: real)
    requires k > 0.0
    ensures DirIndex(k * dx, k * dy) == DirIndex(dx, dy)
  {
    ScaleAbs(k, dx);
    ScaleAbs(k, dy);
    var d := Abs(dy) - Abs(dx);
    ScaleAbs(k, d);
    assert Abs(k * dy) - Abs(k * dx) == k * d;
  }

  /** `randomThreeEdgeMask`: all four directions allowed except the banned one. */
  function ThreeEdgeMask(ban: nat): (m: seq<bool>)
    requires ban < 4
    ensures |m| == 4
    ensures forall d :: 0 <= d < 4 ==> (m[d] <==> d != ban)
  {
    [ban != 0, ban != 1, ban != 2, ban != 3]
  }

  /** Whether a mask lets a ghost paint in direction d; a missing entry reads as not allowed. */
  predicate Allowed(mask: seq<bool>, d: nat)
  {
    d < |mask| && mask[d]
  }

  /** A ghost's mask allows exactly three of the four directions. */
  lemma MaskAllowsThree(ban: nat)
    requires ban < 4
    ensures var m := ThreeEdgeMask(ban);
      !Allowed(m, ban) && forall d :: 0 <= d < 4 && d != ban ==> Allowed(m, d)
  {
  }

  /** The joystick axis: the offset over 32 pixels, clamped to [-1, 1]. */
  function JoyAxis(offset: real): (v: real)
    ensures -1.0 <= v <= 1.0
    ensures -32.0 <= offset <= 32.0 ==> v * 32.0 == offset
    ensures offset >= 32.0 ==> v == 1.0
    ensures offset <= -32.0 ==> v == -1.0
  {
    Max(-1.0, Min(1.0, offset / 32.0))
  }

  /** Keyboard contribution to one axis: -1, 0 or 1. */
  function KeyAxis(keys: set<string>, neg1: string, neg2: string, pos1: string, pos2: string): (k: real)
    ensures k == -1.0 || k == 0.0 || k == 1.0
  {
    (if neg1 in keys || neg2 in keys then -1.0 else 0.0) + (if pos1 in keys || pos2 in keys then 1.0 else 0.0)
  }

  /** The steering vector: keys plus the joystick input. */
  function ControlVector(keys: set<string>, input: Point): Point
  {
    Point(KeyAxis(keys, "arrowleft", "a", "arrowright", "d") + input.x,
          KeyAxis(keys, "arrowup", "w", "arrowdown", "s") + input.y)
  }

  /** Divide a vector by its length `len`; a zero length gives the zero vector. */
  function Normalised(v: Point, len: real): (u: Point)
    ensures len <= 0.0 ==> u == Point(0.0, 0.0)
  {
    if len > 0.0 then Point(v.x / len, v.y / len) else Point(0.0, 0.0)
  }

  /** With the true length, a non-zero steering vector becomes a unit vector. */
  lemma NormalisedIsUnit(v: Point, len: real)
    requires len > 0.0 && len * len == Norm2(v)
    ensures Norm2(Normalised(v, len)) == 1.0
  {
    var u := Normalised(v, len);
    assert u.x * len == v.x && u.y * len == v.y;
    calc {
      Norm2(u) * (len * len);
      (u.x * len) * (u.x * len) + (u.y * len) * (u.y * len);
      Norm2(v);
      1.0 * (len * len);
    }
  }

  /**
   * The scalar state of a round: everything `endPlay`, `damagePlayer`, the
   * timer, a continue, the start of play and the pause button act on.
   * `scanning` says whether the periodic scan is running.
   */
  datatype Session = Session(
    score: real, hp: real, timeLeft: real, timeMax: real,
    playing: bool, timerFrozen: bool, lastEndWasWin: bool, continues: nat,
    isScannable: bool, scanning: bool, stunUntil: real)

  /** What every transition keeps: health in [0, 100], score at least the minimum, the clock within [0, timeMax], no scanning outside play. */
  predicate SessionOk(s: Session)
  {
    0.0 <= s.hp <= HP_FULL && s.score >= SCORE_MIN && 0.0 <= s.timeLeft <= s.timeMax
    && (s.scanning ==> s.playing)
  }

  /** `endPlay(win)`: play and scanning stop and the outcome is recorded. */
  function Ended(s: Session, win: bool): (t: Session)
    ensures !t.playing && !t.scanning && t.lastEndWasWin == win
    ensures t.(playing := s.playing, scanning := s.scanning, lastEndWasWin := s.lastEndWasWin) == s
    ensures SessionOk(s) ==> SessionOk(t)
  {
    s.(playing := false, scanning := false, lastEndWasWin := win)
  }

  /**
   * `damagePlayer(amount)`: health drops by the amount but not below 0, the
   * score drops by half the amount but not below the minimum, and the round
   * ends as a loss once health reaches 0.
   */
  function Damaged(s: Session, amount: real): (t: Session)
    ensures t.hp == Max(0.0, s.hp - amount)
    ensures t.score == Max(SCORE_MIN, s.score - amount * HP_PENALTY_PER_DAMAGE)
    ensures t.hp <= 0.0 ==> !t.playing && !t.scanning && !t.lastEndWasWin
    ensures t.hp > 0.0 ==> t.playing == s.playing && t.scanning == s.scanning && t.lastEndWasWin == s.lastEndWasWin
    ensures t.timeLeft == s.timeLeft && t.timeMax == s.timeMax && t.continues == s.continues
    ensures t.timerFrozen == s.timerFrozen && t.isScannable == s.isScannable && t.stunUntil == s.stunUntil
    ensures SessionOk(s) && amount >= 0.0 ==> SessionOk(t)
  {
    var s1 := s.(hp := Max(0.0, s.hp - amount));
    var sc := s1.score - amount * HP_PENALTY_PER_DAMAGE;
    var s2 := s1.(score := if sc < SCORE_MIN then SCORE_MIN else sc);
    if s2.hp <= 0.0 then Ended(s2, false) else s2
  }

  /** k blasts in a row, each dealing BLAST_DAMAGE. */
  function Blasted(s: Session, k: nat): Session
  {
    if k == 0 then s else Damaged(Blasted(s, k - 1), BLAST_DAMAGE)
  }

  /** A product of positive reals is positive. */
  lemma PositiveProduct(a: real, b: real)
    requires a > 0.0 && b > 0.0
    ensures a * b > 0.0
  {
  }

  /** Flooring twice at the same bound is flooring once, when the second step only subtracts. */
  lemma FloorShift(lo: real, x: real, c: real)
    requires c >= 0.0
    ensures Max(lo, Max(lo, x) - c) == Max(lo, x - c)
  {
  }

  /**
   * What k blasts leave of a round, in closed form: health and score drop
   * by 15 and 7.5 per blast down to their floors, and once health is gone
   * the round is over and lost; until then play state is untouched.
   */
  predicate AfterBlasts(s0: Session, s: Session, k: nat)
  {
    s.hp == Max(0.0, s0.hp - 15.0 * k as real)
    && s.score == Max(SCORE_MIN, s0.score - 7.5 * k as real)
    && (k > 0 && s.hp <= 0.0 ==> !s.playing && !s.scanning && !s.lastEndWasWin)
    && (k == 0 || s.hp > 0.0 ==> s.playing == s0.playing && s.scanning == s0.scanning && s.lastEndWasWin == s0.lastEndWasWin)
  }

  /** One more blast on a round that has taken k. */
  lemma AfterBlastsStep(s0: Session, s: Session, t: Session, k: nat)
    requires AfterBlasts(s0, s, k)
    requires t.hp == Max(0.0, s.hp - 15.0) && t.score == Max(SCORE_MIN, s.score - 7.5)
    requires t.hp <= 0.0 ==> !t.playing && !t.scanning && !t.lastEndWasWin
    requires t.hp > 0.0 ==> t.playing == s.playing && t.scanning == s.scanning && t.lastEndWasWin == s.lastEndWasWin
    ensures AfterBlasts(s0, t, k + 1)
  {
    FloorShift(0.0, s0.hp - 15.0 * k as real, 15.0);
    FloorShift(SCORE_MIN, s0.score - 7.5 * k as real, 7.5);
  }

  /** The closed form is what k blasts do to a round with health and score in range. */
  lemma {:induction false} BlastedIsAfterBlasts(s: Session, k: nat)
    requires s.hp >= 0.0 && s.score >= SCORE_MIN
    ensures AfterBlasts(s, Blasted(s, k), k)
  {
    if k > 0 {
      BlastedIsAfterBlasts(s, k - 1);
      AfterBlastsStep(s, Blasted(s, k - 1), Blasted(s, k), k - 1);
    }
  }

  /** A round survives k ≥ 1 blasts exactly when it was running and health stays above 0. */
  lemma BlastedPlaying(s: Session, k: nat)
    requires s.hp >= 0.0 && s.score >= SCORE_MIN && k >= 1
    ensures Blasted(s, k).playing <==> s.playing && s.hp - 15.0 * k as real > 0.0
  {
    BlastedIsAfterBlasts(s, k);
  }

  /** Blasts keep the round's invariant. */
  lemma {:induction false} BlastedOk(s: Session, k: nat)
    requires SessionOk(s)
    ensures SessionOk(Blasted(s, k))
  {
    if k > 0 {
      BlastedOk(s, k - 1);
    }
  }

  /**
   * The outcome of one scan (`scanCurrentQR`): the scannable flag records
   * whether the board still reads as the original text; a failed scan
   * during play ends the round as a win.
   */
  function Scanned(s: Session, ok: bool): (t: Session)
    ensures t.isScannable == ok
    ensures !ok && s.playing ==> !t.playing && !t.scanning && t.lastEndWasWin
    ensures ok || !s.playing ==> t == s.(isScannable := ok)
    ensures t.score == s.score && t.hp == s.hp && t.timeLeft == s.timeLeft && t.timeMax == s.timeMax
    ensures SessionOk(s) ==> SessionOk(t)
  {
    var s1 := s.(isScannable := ok);
    if !ok && s.playing then Ended(s1, true) else s1
  }

  /** A round won by a failed scan stays over, and won, through any number of frames. */
  lemma {:induction false} ScanWinStands(s: Session, dt: real, k: nat)
    requires s.playing
    ensures Ticks(Scanned(s, false), dt, k) == Scanned(s, false)
  {
    if k > 0 {
      ScanWinStands(s, dt, k - 1);
    }
  }

  /**
   * One frame of the round clock (`loop`, timer branch): while playing with the
   * timer running, time and score drain by dt (score floored at the minimum);
   * when time runs out it is set to 0 and the round ends, won exactly when
   * the code was already unscannable.
   */
  function TimerStep(s: Session, dt: real): (t: Session)
    ensures !s.playing || s.timerFrozen ==> t == s
    ensures s.playing && !s.timerFrozen ==>
      t.score == Max(SCORE_MIN, s.score - TIME_DECAY_PER_SEC * dt)
      && (s.timeLeft - dt > 0.0 ==> t.timeLeft == s.timeLeft - dt && t.playing)
      && (s.timeLeft - dt <= 0.0 ==> t.timeLeft == 0.0 && !t.playing && !t.scanning && t.lastEndWasWin == !s.isScannable)
    ensures t.hp == s.hp && t.timeMax == s.timeMax && t.continues == s.continues
    ensures t.timerFrozen == s.timerFrozen && t.isScannable == s.isScannable
    ensures SessionOk(s) && dt >= 0.0 ==> SessionOk(t)
  {
    if s.playing && !s.timerFrozen then
      var sc := s.score - TIME_DECAY_PER_SEC * dt;
      var s1 := s.(timeLeft := s.timeLeft - dt, score := if sc < SCORE_MIN then SCORE_MIN else sc);
      if s1.timeLeft <= 0.0 then Ended(s1.(timeLeft := 0.0), !s.isScannable) else s1
    else s
  }

  /** k frames of the same length. */
  function Ticks(s: Session, dt: real, k: nat): Session
  {
    if k == 0 then s else TimerStep(Ticks(s, dt, k - 1), dt)
  }

  /** A running round with n·dt seconds left is still running after k < n frames of length dt. */
  lemma {:induction false} TicksBeforeTimeout(s: Session, dt: real, n: nat, k: nat)
    requires s.playing && !s.timerFrozen && dt > 0.0
    requires s.timeLeft == n as real * dt && k < n
    ensures var t := Ticks(s, dt, k);
      t.playing && !t.timerFrozen && t.timeLeft == (n - k) as real * dt
      && t.isScannable == s.isScannable
  {
    if k > 0 {
      TicksBeforeTimeout(s, dt, n, k - 1);
      var p := Ticks(s, dt, k - 1);
      assert (n - (k - 1)) as real * dt == (n - k) as real * dt + dt;
      assert p.timeLeft - dt == (n - k) as real * dt;
      PositiveProduct((n - k) as real, dt);
      assert p.timeLeft - dt > 0.0;
    }
  }

  /** ... and has ended, with 0 seconds left, exactly at frame n; the outcome is a win only if the code was unscannable. */
  lemma TicksTimeout(s: Session, dt: real, n: nat)
    requires s.playing && !s.timerFrozen && dt > 0.0
    requires s.timeLeft == n as real * dt && n >= 1
    ensures var t := Ticks(s, dt, n);
      !t.playing && t.timeLeft == 0.0 && t.lastEndWasWin == !s.isScannable
  {
    TicksBeforeTimeout(s, dt, n, n - 1);
    assert (n - (n - 1)) as real * dt == dt;
  }

  /**
   * The Continue button (and `autoContinueFromEnd`): after a loss, ten more
   * seconds, one more continue, and scanning resumes; after a win, play
   * resumes with the clock frozen and without scanning.
   */
  function Continued(s: Session): (t: Session)
    ensures t.playing && t.score == s.score && t.hp == s.hp
    ensures !s.lastEndWasWin ==>
      t.continues == s.continues + 1 && !t.timerFrozen && t.scanning
      && t.timeLeft == s.timeLeft + EXTRA_TIME_ON_CONTINUE && t.timeMax == s.timeMax + EXTRA_TIME_ON_CONTINUE
    ensures s.lastEndWasWin ==>
      t.continues == s.continues && t.timerFrozen && !t.scanning
      && t.timeLeft == s.timeLeft && t.timeMax == s.timeMax
    ensures SessionOk(s) ==> SessionOk(t)
  {
    if !s.lastEndWasWin then
      s.(continues := s.continues + 1, timeLeft := s.timeLeft + EXTRA_TIME_ON_CONTINUE,
         timeMax := s.timeMax + EXTRA_TIME_ON_CONTINUE, timerFrozen := false, playing := true, scanning := true)
    else
      s.(timerFrozen := true, playing := true, scanning := false)
  }

  /** After continuing a won round the clock never moves again, whatever the frame length. */
  lemma ContinuedAfterWinIsFrozen(s: Session, dt: real, k: nat)
    requires s.lastEndWasWin
    ensures Ticks(Continued(s), dt, k) == Continued(s)
  {
  }

  /** Continuing a timed-out round gives exactly ten seconds more play. */
  lemma ContinueAfterTimeout(s: Session)
    requires SessionOk(s) && !s.playing && !s.lastEndWasWin && s.timeLeft == 0.0
    ensures var t := Continued(s);
      t.playing && t.timeLeft == EXTRA_TIME_ON_CONTINUE && t.continues == s.continues + 1
      && TimerStep(t, EXTRA_TIME_ON_CONTINUE).timeLeft == 0.0
      && !TimerStep(t, EXTRA_TIME_ON_CONTINUE).playing
  {
  }

  /** The opening of `buildQR`, before the encoder runs: score, continues, health, stun and the last outcome start over. */
  function Reset(s: Session): (t: Session)
    ensures t.score == 0.0 && t.hp == HP_FULL && t.continues == 0 && t.stunUntil == 0.0 && !t.lastEndWasWin
    ensures t.timeLeft == s.timeLeft && t.timeMax == s.timeMax && t.timerFrozen == s.timerFrozen
    ensures t.playing == s.playing && t.scanning == s.scanning && t.isScannable == s.isScannable
    ensures SessionOk(s) ==> SessionOk(t)
  {
    s.(score := 0.0, hp := HP_FULL, continues := 0, stunUntil := 0.0, lastEndWasWin := false)
  }

  /** The round state once `buildQR` has laid a new board: waiting for the start button, scannable, with a full clock. */
  function BuiltRound(): (t: Session)
    ensures SessionOk(t)
    ensures !t.playing && !t.scanning && t.isScannable && !t.timerFrozen
    ensures t.timeLeft == BASE_TIME_SEC && t.timeMax == BASE_TIME_SEC
    ensures t.score == 0.0 && t.hp == HP_FULL && t.continues == 0 && t.stunUntil == 0.0 && !t.lastEndWasWin
  {
    Session(0.0, HP_FULL, BASE_TIME_SEC, BASE_TIME_SEC, false, false, false, 0, true, false, 0.0)
  }

  /** The clock of a new board stands still, whatever the frame length, until the start button. */
  lemma {:induction false} BuiltRoundWaits(dt: real, k: nat)
    ensures Ticks(BuiltRound(), dt, k) == BuiltRound()
  {
    if k > 0 {
      BuiltRoundWaits(dt, k - 1);
    }
  }

  /** `beginPlay`: a fresh 15-second clock, play and scanning on. */
  function Begun(s: Session): (t: Session)
    ensures t.playing && t.scanning && !t.timerFrozen
    ensures t.timeLeft == BASE_TIME_SEC && t.timeMax == BASE_TIME_SEC
    ensures t.score == s.score && t.hp == s.hp && t.continues == s.continues && t.lastEndWasWin == s.lastEndWasWin
    ensures SessionOk(s) ==> SessionOk(t)
  {
    s.(playing := true, timeLeft := BASE_TIME_SEC, timeMax := BASE_TIME_SEC, timerFrozen := false, scanning := true)
  }

  /** A round just begun lasts 150 frames at the 0.1 s frame cap: it is over on frame 150, not before. */
  lemma BegunRoundLasts150Frames(s: Session, k: nat)
    requires k < 150
    ensures Ticks(Begun(s), MAX_DT, k).playing
    ensures !Ticks(Begun(s), MAX_DT, 150).playing
    ensures Ticks(Begun(s), MAX_DT, 150).timeLeft == 0.0
  {
    TicksBeforeTimeout(Begun(s), MAX_DT, 150, k);
    TicksTimeout(Begun(s), MAX_DT, 150);
  }

  /** The pause button: toggles play, and scanning follows play. */
  function Paused(s: Session): (t: Session)
    ensures t.playing == !s.playing && t.scanning == t.playing
    ensures t.(playing := s.playing, scanning := s.scanning) == s
    ensures SessionOk(s) ==> SessionOk(t)
  {
    s.(playing := !s.playing, scanning := !s.playing)
  }

  /** Pausing twice restores play, with scanning following play. */
  lemma PauseTwice(s: Session)
    ensures Paused(Paused(s)) == s.(scanning := s.playing)
  {
  }
}
