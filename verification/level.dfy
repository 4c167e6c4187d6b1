/**
 * The difficulty level: a level number derived from the score and the fall
 * interval looked up from the speed table. Levels stop being recomputed once
 * they reach MAX_LEVEL, but nothing caps the recomputed value itself.
 */
module Levels {
  import opened Wrappers
  import opened Constants

  /** The level number and the fall interval in milliseconds; `None` is the interval read past the end of the table. */
  datatype Level = Level(value: int, speedInMs: Option<int>)

  /** The speed-table entry for a level, `None` when the level has no entry. */
  function SpeedFor(value: int): (speed: Option<int>)
    ensures speed.Some? <==> 1 <= value <= MAX_LEVEL
    ensures 1 <= value <= MAX_LEVEL ==> speed == Some(SPEED_IN_MS[value - 1])
  {
    if 1 <= value <= |SPEED_IN_MS| then Some(SPEED_IN_MS[value - 1]) else None
  }

  /** A fresh level: level 1 with the first table entry as interval. */
  function NewLevel(): (l: Level)
    ensures l.value == 1 && l.speedInMs == Some(600)
    ensures l.speedInMs == SpeedFor(l.value)
  {
    Level(1, Some(600))
  }

  /** One level per full thousand points, starting at 1. */
  function LevelFromScore(score: int): (level: int)
    ensures (level - 1) * 1000 <= score < level * 1000
  {
    score / 1000 + 1
  }

  lemma LevelFromScoreExamples()
    ensures LevelFromScore(0) == 1 && LevelFromScore(999) == 1
    ensures LevelFromScore(1000) == 2 && LevelFromScore(9999) == 10
  {
  }

  lemma LevelFromScoreMonotone(s: int, s': int)
    requires s <= s'
    ensures LevelFromScore(s) <= LevelFromScore(s')
  {
  }

  /**
   * Recomputes the level from the score unless it has reached MAX_LEVEL; the
   * interval is looked up again only when the level number changes.
   */
  function UpdateLevel(l: Level, score: int): (r: Level)
    ensures l.value >= MAX_LEVEL ==> r == l
    ensures l.value < MAX_LEVEL ==> r.value == LevelFromScore(score)
    ensures r.value == l.value ==> r.speedInMs == l.speedInMs
    ensures r.value != l.value ==> r.speedInMs == SpeedFor(r.value)
    ensures r.value != l.value && 1 <= r.value <= MAX_LEVEL ==> r.speedInMs == Some(SPEED_IN_MS[r.value - 1])
  {
    if l.value < MAX_LEVEL then
      var level := LevelFromScore(score);
      if level != l.value then Level(level, SpeedFor(level)) else l
    else
      l
  }

  /** The interval always is the table entry for the current level, or `None` when there is none. */
  lemma UpdateKeepsSpeedConsistent(l: Level, score: int)
    requires l.speedInMs == SpeedFor(l.value)
    ensures UpdateLevel(l, score).speedInMs == SpeedFor(UpdateLevel(l, score).value)
  {
  }

  /**
   * For a level that never ran ahead of its score, a later (not smaller)
   * score never lowers the level, nor lets it run ahead.
   */
  lemma UpdateMonotone(l: Level, score: int, score': int)
    requires l.value <= LevelFromScore(score) && score <= score'
    ensures l.value <= UpdateLevel(l, score').value <= LevelFromScore(score')
  {
    LevelFromScoreMonotone(score, score');
  }

  /** Nothing caps the level: from level 9, a score of 12 500 yields level 13 with no interval. */
  lemma LevelOverflow()
    ensures UpdateLevel(Level(9, Some(150)), 12500) == Level(13, None)
  {
  }

  /** Once past MAX_LEVEL the level is frozen, whatever the score. */
  lemma OverflowIsFinal(l: Level, score: int)
    requires l.value > MAX_LEVEL
    ensures UpdateLevel(l, score) == l
    ensures l.speedInMs == SpeedFor(l.value) ==> l.speedInMs == None
  {
  }
}
