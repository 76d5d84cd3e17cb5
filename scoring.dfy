/** The scoring rules: points per sweep, the level as a function of the
    cleared-line count, and the high-score comparisons. */
module Scoring {

  /** The level reached after `lines` cleared rows: one more than the
      number of completed tens. */
  function Level(lines: nat): (level: int)
    ensures level >= 1
    ensures (level - 1) * 10 <= lines < level * 10
  {
    lines / 10 + 1
  }

  /** Points for removing `rows` rows in one sweep at level `level`. */
  function LineScore(rows: nat, level: int): int {
    rows * 100 * level
  }

  /** At level 1 or above a sweep earns at least 100 points a row, and
      earns nothing exactly when it removes nothing. */
  lemma {:induction false} LineScorePositive(rows: nat, level: int)
    requires level >= 1
    ensures LineScore(rows, level) >= 100 * rows
    ensures LineScore(rows, level) == 0 <==> rows == 0
  {
    assert rows * 100 * level == (100 * rows) * level;
    if rows > 0 {
      assert (100 * rows) * level >= (100 * rows) * 1;
    }
  }

  /** The level goes up exactly when the new rows carry the line count
      past a multiple of ten, and fewer than ten new rows raise it by at
      most one. */
  lemma {:induction false} LevelRises(lines: nat, k: nat)
    ensures Level(lines) <= Level(lines + k)
    ensures Level(lines + k) > Level(lines) <==> lines % 10 + k >= 10
    ensures k < 10 ==> Level(lines + k) <= Level(lines) + 1
  {
    var q, r := lines / 10, lines % 10;
    assert lines == 10 * q + r && 0 <= r < 10;
    assert (lines + k) / 10 == q + (r + k) / 10 by {
      assert lines + k == 10 * q + (r + k);
    }
  }

  /** The best score after the score is shown: raised to the score when
      the score beats it, otherwise kept. */
  function UpdatedHigh(score: int, high: int): (h: int)
    ensures h >= score && h >= high
    ensures h == score || h == high
  {
    if score > high then score else high
  }

  /** The game-over screen announces a new high score when the final score
      is positive and not below the best score. */
  predicate NewHighScore(score: int, high: int) {
    score >= high && score > 0
  }

  /** Since the best score is raised whenever the score passes it, the
      score never exceeds it, so the announcement is made exactly when the
      final score equals the best: a score that merely ties an earlier
      best is announced too. */
  lemma {:induction false} NewHighScoreOnTie(score: int, high: int)
    requires score <= high
    ensures NewHighScore(score, high) <==> score == high && score > 0
  {
  }
}
