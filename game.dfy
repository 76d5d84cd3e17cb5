/** The game state and the player's operations on it: moving, rotating
    with a wall kick, dropping, locking a piece (merge, spawn, sweep and
    score), game over and restart. */
module Game {
  import opened Shapes
  import opened Pieces
  import opened Board
  import opened Sweep
  import opened Scoring

  /** What a drop did: the piece moved down, or it was locked (merged,
      the next piece spawned, full rows swept), or the merge met a row
      that does not exist, which raises an error and leaves the rest of
      the lock undone. */
  datatype DropOutcome = Fell | Locked | Threw

  /** The wall kick tries the rotated piece at these column offsets from
      where it was, in order: 0, +1, -1, +2, -2, ... */
  function Kick(t: nat): int {
    if t % 2 == 1 then (t + 1) / 2 else -(t / 2)
  }

  /** The value of the kick step variable after `t` kicks: 1, -2, 3, -4, ... */
  function Offset(t: nat): int {
    if t % 2 == 0 then t + 1 else -(t + 1)
  }

  /** How many positions the kick tries for a piece of width `w` before it
      gives up: it stops as soon as the step grows past the width. */
  function Tries(w: int): nat {
    if w <= 2 then 2 else if w % 2 == 0 then w else w + 1
  }

  /** One kick moves by the current step, and the step then grows by one
      in size and changes sign. */
  lemma {:induction false} KickStep(t: nat)
    ensures Kick(t) + Offset(t) == Kick(t + 1)
    ensures -(Offset(t) + (if Offset(t) > 0 then 1 else -1)) == Offset(t + 1)
  {
  }

  /** For a piece of width 2 to 4 the step first exceeds the width exactly
      after `Tries(w)` kicks. */
  lemma {:induction false} AbortAt(w: int, t: nat)
    requires 2 <= w && 1 <= t <= Tries(w)
    ensures Offset(t) > w <==> t == Tries(w)
  {
  }

  /** No column is tried twice, and the `t`-th try is at most `(t + 1) / 2`
      columns from the start. */
  lemma {:induction false} KicksDistinct(t: nat, u: nat)
    ensures t != u ==> Kick(t) != Kick(u)
    ensures -(t / 2) <= Kick(t) <= (t + 1) / 2
  {
  }

  /** The piece `m` at column `x`, row `y` would collide; a missing piece
      counts as colliding. */
  predicate Blocked(a: Grid, m: Option<Shape>, x: int, y: int) {
    m.None? || Collides(a, m.value, x, y)
  }

  /** The arena with the piece `m`, if any, written at column `x`, row `y`. */
  function MergedAt(a: Grid, m: Option<Shape>, x: int, y: int): Grid {
    if m.None? then a else Merged(a, m.value, x, y)
  }

  /** The first try from `t` on (and before `n`) at which the piece `s`
      does not collide, if any. */
  function KickSearch(a: Grid, s: Shape, x0: int, y: int, t: nat, n: nat): Option<nat>
    decreases n - t
  {
    if t >= n then None
    else if !Collides(a, s, x0 + Kick(t), y) then Some(t)
    else KickSearch(a, s, x0, y, t + 1, n)
  }

  /** A try that collides passes the search on to the next try. */
  lemma KickSearchPasses(a: Grid, s: Shape, x0: int, y: int, t: nat, n: nat)
    requires t < n && Collides(a, s, x0 + Kick(t), y)
    ensures KickSearch(a, s, x0, y, t, n) == KickSearch(a, s, x0, y, t + 1, n)
  {
  }

  /** A try that does not collide ends the search. */
  lemma KickSearchStops(a: Grid, s: Shape, x0: int, y: int, t: nat, n: nat)
    requires t < n && !Collides(a, s, x0 + Kick(t), y)
    ensures KickSearch(a, s, x0, y, t, n) == Some(t)
  {
  }

  /** The search finds the first free try: every earlier try collides;
      when it finds none, every try collides. */
  lemma {:induction false} KickSearchFirst(a: Grid, s: Shape, x0: int, y: int, t: nat, n: nat)
    decreases n - t
    ensures match KickSearch(a, s, x0, y, t, n)
      case Some(k) =>
        t <= k < n && !Collides(a, s, x0 + Kick(k), y) &&
        forall u :: t <= u < k ==> Collides(a, s, x0 + Kick(u), y)
      case None =>
        forall u :: t <= u < n ==> Collides(a, s, x0 + Kick(u), y)
  {
    if t < n && Collides(a, s, x0 + Kick(t), y) {
      KickSearchFirst(a, s, x0, y, t + 1, n);
    }
  }

  /** The kick loop: tries the turned piece `r` at the columns `pos`,
      `pos + 1`, `pos - 1`, `pos + 2`, ... (each step 1, -2, 3, -4, ...
      from the last) until it no longer collides, and gives up once the
      step grows past the piece's width. Reports the first free column
      the search reaches, if any. */
  method WallKick(a: Grid, r: Shape, pos: int, y: int) returns (fits: bool, x: int)
    requires IsSquare(r) && 2 <= |r|
    ensures match KickSearch(a, r, pos, y, 0, Tries(|r|))
      case Some(t) => fits && x == pos + Kick(t)
      case None => !fits
    ensures fits ==> !Collides(a, r, x, y)
  {
    ghost var n := Tries(|r|);
    var offset := 1;
    x := pos;
    // the number of kicks made so far
    ghost var t: nat := 0;
    var hit := Collide(a, Some(r), x, y);
    while hit
      invariant 0 <= t < n
      invariant x == pos + Kick(t) && offset == Offset(t)
      invariant hit == Collides(a, r, x, y)
      invariant KickSearch(a, r, pos, y, 0, n) == KickSearch(a, r, pos, y, t, n)
      decreases n - t
    {
      KickSearchPasses(a, r, pos, y, t, n);
      KickStep(t);
      x := x + offset;
      offset := -(offset + (if offset > 0 then 1 else -1));
      t := t + 1;
      AbortAt(|r|, t);
      if offset > |r[0]| {
        return false, x;
      }
      hit := Collide(a, Some(r), x, y);
    }
    KickSearchStops(a, r, pos, y, t, n);
    fits := true;
  }

  /** The turn with its wall kick, on the piece `s` at column `pos`, row
      `y`: the turned piece at the first free kicked column, or, when every
      try collides, the piece turned back at `pos`. */
  method RotateKicked(a: Grid, s: Shape, pos: int, y: int, dir: int) returns (m: Shape, x: int)
    requires IsBoard(a) && IsPiece(s) && Placed(s, pos, y) && dir != 0
    ensures IsPiece(m) && Placed(m, x, y)
    ensures
      var r := Rotated(s, dir);
      match KickSearch(a, r, pos, y, 0, Tries(|r|))
      case Some(t) => m == r && x == pos + Kick(t)
      case None => m == s && x == pos
  {
    var r := Rotated(s, dir);
    RotatedIsPiece(s, dir);
    var fits;
    fits, x := WallKick(a, r, pos, y);
    if fits {
      NoCollisionFits(a, r, x, y);
      m := r;
    } else {
      RotatedBack(s, dir);
      m, x := Rotated(r, -dir), pos;
    }
  }

  /** The hard-drop loop: lowers the piece `m` from row `y0` while it does
      not collide, then steps back up one row. The result is the lowest
      row from `y0` down at which the piece does not collide, or `y0 - 1`
      when it already collides at `y0`. */
  method LandingRow(a: Grid, m: Option<Shape>, x: int, y0: int) returns (lockRow: int)
    requires IsBoard(a) && (m.Some? ==> IsPiece(m.value) && Placed(m.value, x, y0))
    ensures y0 - 1 <= lockRow && Blocked(a, m, x, lockRow + 1)
    ensures forall y :: y0 <= y <= lockRow ==> !Blocked(a, m, x, y)
    ensures m.Some? ==> Placed(m.value, x, lockRow)
  {
    var y := y0;
    var hit := Collide(a, m, x, y);
    while !hit
      invariant y0 <= y && (!hit ==> m.Some?)
      invariant hit == Blocked(a, m, x, y)
      invariant forall z :: y0 <= z < y ==> !Blocked(a, m, x, z)
      decreases Height - y
    {
      NoCollisionFits(a, m.value, x, y);
      PlacedAboveFloor(m.value, x, y);
      y := y + 1;
      hit := Collide(a, m, x, y);
    }
    lockRow := y - 1;
    if m.Some? {
      if lockRow < y0 {
        PlacedHigher(m.value, x, y0);
      } else {
        assert !Blocked(a, m, x, lockRow);
        NoCollisionFits(a, m.value, x, lockRow);
      }
    }
  }

  /** The spawn: the queued piece (or, when none is queued yet, the piece
      for `firstRoll`) becomes the active piece at row 0, centred, and the
      piece for `nextRoll` is queued. Also tells whether the active piece
      collides there. */
  method NextPiece(a: Grid, queued: Option<Shape>, firstRoll: nat, nextRoll: nat)
    returns (active: Shape, next: Shape, x: int, hit: bool)
    requires IsBoard(a) && (queued.Some? ==> IsPiece(queued.value))
    ensures active == (if queued.Some? then queued.value else Rolled(firstRoll))
    ensures next == Rolled(nextRoll)
    ensures IsPiece(active) && IsPiece(next)
    ensures x == SpawnColumn(|active|) && Placed(active, x, 0)
    ensures hit == Collides(a, active, x, 0)
  {
    hide Rolled, IsBoard, Collides;
    var spawned := if queued.None? then Some(Rolled(firstRoll)) else queued;
    active := spawned.value;
    next := Rolled(nextRoll);
    x := SpawnColumn(|active[0]|);
    hit := Collide(a, spawned, x, 0);
    SpawnPlaced(active);
  }

  /** A piece with a block in its top row does not fit one row above the
      top. So a piece that collides where it spawns, in row 0, lands at
      row -1 in a hard drop, and the lock there fails. */
  lemma {:induction false} TopBlockAboveTop(a: Grid, s: Shape, x: int, j: int)
    requires |s| > 0 && 0 <= j < |s[0]| && s[0][j] != 0
    ensures !Fits(a, s, x, -1)
  {
  }

  /** The game: the arena, the active piece (`matrix` at column `posX`,
      row `posY`), the queued piece, and the counters. The pieces are held
      as their cell values. */
  class Game {
    var arena: Grid
    var posX: int
    var posY: int
    var matrix: Option<Shape>
    var nextPiece: Option<Shape>
    var score: int
    var lines: nat
    var level: int
    var isGameOver: bool
    var dropCounter: real
    var highScore: int

    /** The arena is a board; the active piece and the queued piece are
        pieces, the active one within the walls and above the floor; the
        score is between zero and the best score, and the level follows
        the line count. */
    predicate Valid()
      reads this
    {
      IsBoard(arena) &&
      (matrix.Some? ==> IsPiece(matrix.value) && Placed(matrix.value, posX, posY)) &&
      (nextPiece.Some? ==> IsPiece(nextPiece.value)) &&
      0 <= score <= highScore &&
      level == Level(lines)
    }

    twostate predicate PieceKept()
      reads this
    {
      posX == old(posX) && posY == old(posY) && matrix == old(matrix) && nextPiece == old(nextPiece)
    }

    twostate predicate CountsKept()
      reads this
    {
      score == old(score) && lines == old(lines) && level == old(level) && highScore == old(highScore)
    }

    /** The queued piece (or, when none was queued, the piece for
        `firstRoll`) became the active piece at the top, centred; the piece
        for `nextRoll` is queued. */
    twostate predicate Spawned(firstRoll: nat, nextRoll: nat)
      reads this
    {
      matrix == Some(if old(nextPiece).Some? then old(nextPiece).value else Rolled(firstRoll)) &&
      nextPiece == Some(Rolled(nextRoll)) &&
      posY == 0 && posX == SpawnColumn(|matrix.value|)
    }

    /** The arena is `before` with its full rows swept, and the counters
        took the sweep's rows into account at the level from before. */
    twostate predicate Scored(before: Grid)
      reads this
    {
      arena == Swept(before) &&
      lines == old(lines) + Cleared(before) &&
      score == old(score) + LineScore(Cleared(before), old(level)) &&
      level == Level(lines) &&
      highScore == (if Cleared(before) > 0 then UpdatedHigh(score, old(highScore)) else old(highScore))
    }

    /** A new game: an empty arena, no piece yet, zero counters at level 1;
        the best score is the one saved by an earlier session. */
    constructor (savedHighScore: nat)
      ensures Valid()
      ensures arena == Empty() && posX == 0 && posY == 0 && matrix == None && nextPiece == None
      ensures score == 0 && lines == 0 && level == 1 && !isGameOver && dropCounter == 0.0
      ensures highScore == savedHighScore
    {
      var a := CreateMatrix(Width, Height);
      CreateMatrixIsEmpty(a);
      arena := a;
      posX, posY := 0, 0;
      matrix, nextPiece := None, None;
      score, lines, level := 0, 0, 1;
      isGameOver := false;
      dropCounter := 0.0;
      highScore := savedHighScore;
    }

    /** Raises the best score to the score when the score beats it. */
    method UpdateScore()
      modifies this`highScore
      ensures highScore == UpdatedHigh(score, old(highScore))
    {
      if score > highScore {
        highScore := score;
      }
    }

    /** Ends the game and tells whether the game-over screen announces a
        new high score. */
    method GameOver() returns (newHighScore: bool)
      modifies this`isGameOver
      ensures isGameOver
      ensures newHighScore == NewHighScore(score, highScore)
    {
      isGameOver := true;
      newHighScore := score >= highScore && score > 0;
    }

    /** Makes the queued piece the active one, queues a new piece, puts
        the active piece at the top, centred, and ends the game when it
        collides there. Reports whether that game over announces a new
        best score, judged by the score as it stands now. */
    method PlayerReset(firstRoll: nat, nextRoll: nat) returns (announced: bool)
      requires Valid()
      modifies this
      ensures Valid()
      ensures Spawned(firstRoll, nextRoll)
      ensures isGameOver == (old(isGameOver) || Collides(arena, matrix.value, posX, posY))
      ensures announced == (Collides(arena, matrix.value, posX, posY) && NewHighScore(old(score), old(highScore)))
      ensures arena == old(arena) && CountsKept() && dropCounter == old(dropCounter)
    {
      hide Rolled, IsPiece, Placed, IsBoard, Collides;
      var active, queued, x, hit := NextPiece(arena, nextPiece, firstRoll, nextRoll);
      matrix, nextPiece, posY, posX := Some(active), Some(queued), 0, x;
      announced := false;
      if hit {
        announced := GameOver();
      }
    }

    /** Removes the full rows (see `SweepRows`) and, when there were any,
        adds their score at the current level, adds them to the line count,
        recomputes the level and updates the best score. Also reports the
        recorded row numbers and whether the level went up. */
    method ArenaSweep() returns (clearedRows: seq<int>, leveledUp: bool)
      requires Valid()
      modifies this
      ensures Valid()
      ensures Scored(old(arena))
      ensures clearedRows == Recorded(old(arena))
      ensures leveledUp <==> level > old(level)
      ensures PieceKept() && isGameOver == old(isGameOver) && dropCounter == old(dropCounter)
    {
      hide IsPiece, Placed;
      var rows, rowCount;
      rows, rowCount, clearedRows := SweepRows(arena);
      SweptIsBoard(arena);
      arena := rows;
      leveledUp := false;
      if rowCount > 0 {
        var oldLevel := level;
        LineScorePositive(rowCount, level);
        score := score + rowCount * 100 * level;
        lines := lines + rowCount;
        level := lines / 10 + 1;
        leveledUp := level > oldLevel;
        UpdateScore();
      }
    }

    /** Shifts the piece by `dir` columns unless it would collide there. */
    method PlayerMove(dir: int)
      requires Valid()
      modifies this
      ensures Valid()
      ensures posX == if Blocked(arena, matrix, old(posX) + dir, posY) then old(posX) else old(posX) + dir
      ensures arena == old(arena) && posY == old(posY) && matrix == old(matrix) && nextPiece == old(nextPiece)
      ensures CountsKept() && isGameOver == old(isGameOver) && dropCounter == old(dropCounter)
    {
      posX := posX + dir;
      var hit := Collide(arena, matrix, posX, posY);
      if hit {
        posX := posX - dir;
      } else {
        NoCollisionFits(arena, matrix.value, posX, posY);
      }
    }

    /** Turns the piece a quarter turn in direction `dir` and, while it
        collides, kicks it sideways by 1, -2, 3, -4, ... columns; once the
        step grows past the piece's width it turns the piece back and puts
        it back where it was. The only caller turns clockwise; the turn
        back undoes the turn only for a non-zero direction. */
    method PlayerRotate(dir: int)
      requires Valid() && dir != 0
      modifies this
      ensures Valid()
      ensures nextPiece == old(nextPiece) && arena == old(arena) && posY == old(posY)
      ensures CountsKept() && isGameOver == old(isGameOver) && dropCounter == old(dropCounter)
      ensures old(matrix).None? ==> matrix == old(matrix) && posX == old(posX)
      ensures old(matrix).Some? ==>
        var r := Rotated(old(matrix).value, dir);
        match KickSearch(arena, r, old(posX), posY, 0, Tries(|r|))
        case Some(t) => matrix == Some(r) && posX == old(posX) + Kick(t)
        case None => matrix == old(matrix) && posX == old(posX)
    {
      if matrix.None? {
        return;
      }
      var s, x := RotateKicked(arena, matrix.value, posX, posY, dir);
      matrix, posX := Some(s), x;
    }

    /** Writes the active piece into the arena at its position, spawns the
        next piece and sweeps, in that order. When a block of the piece
        lies above the top the write fails before anything changes. A game
        over at the spawn announces a new best score by the score from
        before the sweep, so the rows this lock clears do not count. */
    method Lock(firstRoll: nat, nextRoll: nat) returns (ok: bool, announced: bool)
      requires Valid()
      modifies this
      ensures Valid()
      ensures ok <==> old(matrix).None? || Fits(old(arena), old(matrix).value, old(posX), old(posY))
      ensures ok ==> Spawned(firstRoll, nextRoll)
      ensures ok ==> Scored(MergedAt(old(arena), old(matrix), old(posX), old(posY)))
      ensures ok ==> isGameOver == (old(isGameOver) || Collides(MergedAt(old(arena), old(matrix), old(posX), old(posY)), matrix.value, posX, posY))
      ensures ok ==>
        (announced ==
           (Collides(MergedAt(old(arena), old(matrix), old(posX), old(posY)), matrix.value, posX, posY) &&
            NewHighScore(old(score), old(highScore))))
      ensures ok ==> dropCounter == old(dropCounter)
      ensures !ok ==> !announced && unchanged(this)
    {
      hide Rolled, IsPiece, Placed, IsBoard, Collides, Fits, Merged, MergedRow, Swept, Cleared, Recorded;
      var result;
      ok, result := Merge(arena, matrix, posX, posY);
      if !ok {
        return ok, false;
      }
      if matrix.Some? {
        MergedIsBoard(arena, matrix.value, posX, posY);
      }
      arena := result;
      announced := PlayerReset(firstRoll, nextRoll);
      var clearedRows, leveledUp := ArenaSweep();
    }

    /** Moves the piece down one row; when it would collide there, locks it
        where it is instead. Either way, unless the lock failed, the drop
        timer restarts. Also reports whether a game over at the lock
        announces a new best score. */
    method PlayerDrop(firstRoll: nat, nextRoll: nat) returns (outcome: DropOutcome, announced: bool)
      requires Valid()
      modifies this
      ensures Valid()
      ensures outcome == Fell <==> !Blocked(old(arena), old(matrix), old(posX), old(posY) + 1)
      ensures outcome == Fell ==>
        posY == old(posY) + 1 && posX == old(posX) && matrix == old(matrix) && nextPiece == old(nextPiece) &&
        arena == old(arena) && CountsKept() && isGameOver == old(isGameOver)
      ensures outcome == Locked <==>
        Blocked(old(arena), old(matrix), old(posX), old(posY) + 1) &&
        (old(matrix).None? || Fits(old(arena), old(matrix).value, old(posX), old(posY)))
      ensures outcome == Locked ==>
        Spawned(firstRoll, nextRoll) && Scored(MergedAt(old(arena), old(matrix), old(posX), old(posY))) &&
        isGameOver == (old(isGameOver) || Collides(MergedAt(old(arena), old(matrix), old(posX), old(posY)), matrix.value, posX, posY)) &&
        announced == (Collides(MergedAt(old(arena), old(matrix), old(posX), old(posY)), matrix.value, posX, posY) &&
                      NewHighScore(old(score), old(highScore)))
      ensures outcome != Locked ==> !announced
      ensures outcome == Threw ==> unchanged(this)
      ensures outcome != Threw ==> dropCounter == 0.0
    {
      hide Rolled, IsPiece, Placed, IsBoard, Collides, Fits, Merged, MergedRow, Swept, Cleared, Recorded;
      // The row below is tested without moving the piece there first: the
      // piece the source moves down and back up ends where it started.
      var hit := Collide(arena, matrix, posX, posY + 1);
      announced := false;
      if hit {
        var ok;
        ok, announced := Lock(firstRoll, nextRoll);
        if !ok {
          return Threw, false;
        }
        outcome := Locked;
      } else {
        NoCollisionFits(arena, matrix.value, posX, posY + 1);
        posY := posY + 1;
        outcome := Fell;
      }
      dropCounter := 0.0;
    }

    /** Lowers the piece while it does not collide, steps back up one row
        and locks it there, at `lockRow`. Also reports whether a game over
        at the lock announces a new best score. */
    method PlayerHardDrop(firstRoll: nat, nextRoll: nat) returns (outcome: DropOutcome, lockRow: int, announced: bool)
      requires Valid()
      modifies this
      ensures Valid()
      ensures outcome != Fell
      ensures Blocked(old(arena), old(matrix), old(posX), old(posY)) ==> lockRow == old(posY) - 1
      ensures !Blocked(old(arena), old(matrix), old(posX), old(posY)) ==>
        old(posY) <= lockRow && Blocked(old(arena), old(matrix), old(posX), lockRow + 1) &&
        forall y :: old(posY) <= y <= lockRow ==> !Blocked(old(arena), old(matrix), old(posX), y)
      ensures outcome == Locked <==> old(matrix).None? || Fits(old(arena), old(matrix).value, old(posX), lockRow)
      ensures outcome == Locked ==>
        Spawned(firstRoll, nextRoll) && Scored(MergedAt(old(arena), old(matrix), old(posX), lockRow)) &&
        isGameOver == (old(isGameOver) || Collides(MergedAt(old(arena), old(matrix), old(posX), lockRow), matrix.value, posX, posY)) &&
        announced == (Collides(MergedAt(old(arena), old(matrix), old(posX), lockRow), matrix.value, posX, posY) &&
                      NewHighScore(old(score), old(highScore)))
      ensures outcome == Threw ==>
        (!announced &&
         posY == lockRow && posX == old(posX) && matrix == old(matrix) && nextPiece == old(nextPiece) &&
         arena == old(arena) && CountsKept() && isGameOver == old(isGameOver))
      ensures dropCounter == old(dropCounter)
    {
      hide Rolled, IsPiece, Placed, IsBoard, Collides, Fits, Merged, MergedRow, Swept, Cleared, Recorded;
      lockRow := LandingRow(arena, matrix, posX, posY);
      posY := lockRow;
      var ok;
      ok, announced := Lock(firstRoll, nextRoll);
      outcome := if ok then Locked else Threw;
    }

    /** Empties the arena row by row, zeroes the counters, clears the
        game-over flag, updates the best score and spawns a piece; on the
        empty arena the new piece never collides. */
    method ResetGame(firstRoll: nat, nextRoll: nat)
      requires Valid()
      modifies this
      ensures Valid()
      ensures arena == Empty() && score == 0 && lines == 0 && level == 1 && !isGameOver
      ensures Spawned(firstRoll, nextRoll)
      ensures highScore == old(highScore) && dropCounter == old(dropCounter)
    {
      hide Rolled, IsPiece, Placed, Collides;
      // The arena always exists here, so the guard against a missing one
      // never fires.
      for r := 0 to |arena|
        invariant |arena| == Height
        invariant forall i :: 0 <= i < r ==> arena[i] == ZeroRow(Width)
        invariant forall i :: r <= i < Height ==> arena[i] == old(arena)[i]
        invariant PieceKept() && CountsKept() && isGameOver == old(isGameOver) && dropCounter == old(dropCounter)
      {
        arena := arena[r := ZeroRow(|arena[r]|)];
      }
      CreateMatrixIsEmpty(arena);
      score := 0;
      level := 1;
      lines := 0;
      isGameOver := false;
      UpdateScore();
      var announced := PlayerReset(firstRoll, nextRoll);
      SpawnPlaced(matrix.value);
    }
  }
}
