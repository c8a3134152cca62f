/**
 * Tuning constants of the QR-Pac engine, as configured for the game, plus the
 * few numbers the engine hard-codes in its own body. Distances are in grid
 * cells, times in seconds unless the name says milliseconds.
 */
module GameConfig {
  /** Radius of a red node's blast. */
  const Y_EXP_RADIUS: real := 2.6
  /** Round length at the start of play, and the bonus a continue adds. */
  const BASE_TIME_SEC: real := 15.0
  const EXTRA_TIME_ON_CONTINUE: real := 10.0
  /** Hit points a blast takes, and how long it stuns (milliseconds). */
  const BLAST_DAMAGE: real := 15.0
  const BLAST_STUN_MS: real := 1000.0
  /** Ghost speeds (cells per second) and search radii. */
  const GHOST_SPEED_TPS: real := 10.0
  const SEEK_RADIUS: real := 15.0
  const GIVEUP_RADIUS: real := 10.0
  const GO_SPEED_TPS: real := 7.0
  /** Painting: minimum interval between paints (seconds), success probability, touch distance. */
  const PAINT_INTERVAL: real := 0.05
  const PAINT_PROB: real := 0.35
  const PAINT_TOUCH_DIST: real := 0.35
  /** Eating radius around the player. */
  const PAC_EAT_RADIUS_TILES: real := 0.5
  /** Scoring. */
  const WHITE_POINT: real := 3.0
  const TIME_DECAY_PER_SEC: real := 1.0
  const HP_PENALTY_PER_DAMAGE: real := 0.5
  const SCORE_MIN: real := 0.0

  /** Hard-coded in the engine: full health, player speed, frame-time cap, stun of a yellow node (ms), idle drift factor. */
  const HP_FULL: real := 100.0
  const PAC_SPEED: real := 10.0
  const MAX_DT: real := 0.1
  const YELLOW_STUN_MS: real := 1500.0
  const DRIFT_FACTOR: real := 0.35
  /** Below this length a ghost does not normalise its heading and stays put. */
  const MIN_STEP_LEN: real := 0.000001
  /** Wrap and clamp margins of `tryMove`. */
  const X_MARGIN: real := 0.3
  const Y_MARGIN: real := 0.4
  /** Scan raster: quiet-zone width in modules and pixels per module. */
  const QUIET_ZONE: nat := 2
  const PIXELS_PER_MODULE: nat := 3
}

/** Random draws, supplied from outside as a sequence of numbers. */
module Draws {
  /** Draw i in [0, 1): entries past the end of the supply, or out of range, read as 0. */
  function Roll(rs: seq<real>, i: nat): (r: real)
    ensures 0.0 <= r < 1.0
    ensures i < |rs| && 0.0 <= rs[i] < 1.0 ==> r == rs[i]
  {
    if i < |rs| && 0.0 <= rs[i] < 1.0 then rs[i] else 0.0
  }

  /** `Math.floor(roll * k)` for a roll in [0, 1): an index below k. */
  function PickIndex(roll: real, k: nat): (i: nat)
    requires 0.0 <= roll < 1.0 && k >= 1
    ensures i < k
    ensures i as real <= roll * k as real < i as real + 1.0
  {
    ScaledRoll(roll, k as real);
    (roll * k as real).Floor
  }

  /** A roll in [0, 1) scaled by k ≥ 1 lies in [0, k). */
  lemma ScaledRoll(roll: real, k: real)
    requires 0.0 <= roll < 1.0 && k >= 1.0
    ensures 0.0 <= roll * k < k
  {
    var rest := 1.0 - roll;
    assert rest > 0.0;
    assert rest * k > 0.0;
    assert roll * k + rest * k == k;
  }
}
