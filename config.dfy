/** The default game configuration (class GameConfig): grid size, timings and scoring. */
module Config {
  const GridWidth: int := 10
  const GridHeight: int := 20

  /** Timings, in integer milliseconds. */
  const InitialFallSpeed: int := 1000
  const ClearAnimationDuration: int := 500
  const LevelSpeedDecrease: int := 100
  const MinFallSpeed: int := 100

  const SoftDropBonus: nat := 1
  const HardDropBonus: nat := 2
  const LinesPerLevel: nat := 10

  /** Points for clearing n rows at once before the level factor: LINE_SCORES.get(n, 0). */
  function LineScore(n: int): (points: nat)
    ensures points > 0 <==> 1 <= n <= 4
  {
    if n == 1 then 100
    else if n == 2 then 300
    else if n == 3 then 500
    else if n == 4 then 800
    else 0
  }

  /** The level reached after `lines` cleared rows: one level per LinesPerLevel rows, from 1. */
  function LevelFor(lines: nat): (level: nat)
    ensures level >= 1
    ensures (level - 1) * LinesPerLevel <= lines < level * LinesPerLevel
  {
    lines / LinesPerLevel + 1
  }

  /** The fall interval of a level: linear speed-up, clamped at MinFallSpeed. */
  function FallSpeedFor(level: int): (ms: int)
    ensures MinFallSpeed <= ms
    ensures level >= 1 ==> ms <= InitialFallSpeed
  {
    var linear := InitialFallSpeed - (level - 1) * LevelSpeedDecrease;
    if linear < MinFallSpeed then MinFallSpeed else linear
  }

  /** More lines never give a lower level. */
  lemma LevelForMonotone(a: nat, b: nat)
    requires a <= b
    ensures LevelFor(a) <= LevelFor(b)
  {
  }

  /** One clear of at most LinesPerLevel rows raises the level by at most one. */
  lemma LevelForStep(lines: nat, n: nat)
    requires n <= LinesPerLevel
    ensures LevelFor(lines + n) <= LevelFor(lines) + 1
  {
    var q := lines / LinesPerLevel;
    assert lines < (q + 1) * LinesPerLevel;
    assert lines + n < (q + 2) * LinesPerLevel;
  }

  /** A higher level never falls more slowly. */
  lemma FallSpeedMonotone(a: int, b: int)
    requires a <= b
    ensures FallSpeedFor(b) <= FallSpeedFor(a)
  {
  }
}
