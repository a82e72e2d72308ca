/** Level and gravity speed as functions of the score (script.js
    `updateScore`). */
module Scoring {

  /** Points per level. */
  const LevelStep: int := 300

  /** `Math.floor(score / 300) + 1`: the level the score has reached. */
  function Level(score: nat): (level: nat)
    ensures level >= 1
    ensures (level - 1) * LevelStep <= score < level * LevelStep
  {
    score / LevelStep + 1
  }

  /** Milliseconds between gravity steps at `level`: 1000 at level 1, 30 less
      per level, never below 100. */
  function DropInterval(level: nat): (ms: int)
    requires level >= 1
    ensures 100 <= ms <= 1000
    ensures level <= 31 ==> ms == 1000 - (level - 1) * 30
    ensures level >= 31 ==> ms == 100
  {
    if 1000 - (level - 1) * 30 > 100 then 1000 - (level - 1) * 30 else 100
  }

  /** A higher score never gives a lower level, and never a slower drop. */
  lemma HigherScoreFaster(s1: nat, s2: nat)
    requires s1 <= s2
    ensures Level(s1) <= Level(s2)
    ensures DropInterval(Level(s2)) <= DropInterval(Level(s1))
  {
  }
}
