/** The arena: a grid of rows, each a sequence of cell values (0 = empty,
    otherwise the colour id of a locked block), and the two operations the
    game performs between the arena and the active piece: the collision
    test and the merge that locks a piece into the arena. */
module Board {
  import opened Shapes
  import opened Pieces

  datatype Option<T> = None | Some(value: T)

  const Width: nat := 10
  const Height: nat := 20

  /** The arena, row 0 at the top. */
  type Grid = seq<seq<int>>

  function ZeroRow(w: nat): (row: seq<int>)
    ensures |row| == w && forall c :: 0 <= c < w ==> row[c] == 0
  {
    seq(w, _ => 0)
  }

  /** A playing field: Height rows of Width cells, each 0 or a colour id. */
  predicate IsBoard(a: Grid) {
    |a| == Height &&
    forall r :: 0 <= r < Height ==> |a[r]| == Width && forall c :: 0 <= c < Width ==> 0 <= a[r][c] <= 7
  }

  /** The cell at row `r`, column `c` exists and is empty. Reading a row or
      column outside the grid yields `undefined`, which is never equal to 0,
      so such a cell is not free. */
  predicate Free(a: Grid, r: int, c: int) {
    0 <= r < |a| && 0 <= c < |a[r]| && a[r][c] == 0
  }

  /** Some block of the piece `s`, placed with its top-left corner at
      column `x`, row `y`, lands outside the grid (on any side, above the
      top included) or on an occupied cell. */
  predicate Collides(a: Grid, s: Shape, x: int, y: int) {
    exists i, j :: 0 <= i < |s| && 0 <= j < |s[i]| && s[i][j] != 0 && !Free(a, y + i, x + j)
  }

  /** Every block of the piece lands on an existing cell of the grid. */
  predicate Fits(a: Grid, s: Shape, x: int, y: int) {
    forall i, j :: 0 <= i < |s| && 0 <= j < |s[i]| && s[i][j] != 0 ==>
      0 <= y + i < |a| && 0 <= x + j < |a[y + i]|
  }

  /** Every block of the piece is within the side walls and above the
      floor; it may still stick out above the top. This is what the game
      keeps true of the active piece at all times. */
  predicate Placed(s: Shape, x: int, y: int) {
    forall i, j :: 0 <= i < |s| && 0 <= j < |s[i]| && s[i][j] != 0 ==>
      0 <= x + j < Width && y + i < Height
  }

  /** The piece's block that lands in column `c` of an arena row, when the
      piece's row `i` lies on that row and has a block there. */
  predicate Covers(s: Shape, i: int, x: int, c: int) {
    0 <= i < |s| && 0 <= c - x < |s[i]| && s[i][c - x] != 0
  }

  /** An arena row after the piece's row `i`, placed at column `x`, is
      written into it, built up cell by cell: each cell a block covers
      takes the block's value, every other cell keeps its value. */
  function MergedRow(row: seq<int>, s: Shape, i: int, x: int): (out: seq<int>)
    ensures |out| == |row|
    ensures forall c :: 0 <= c < |row| ==> out[c] == if Covers(s, i, x, c) then s[i][c - x] else row[c]
  {
    if row == [] then []
    else
      var c := |row| - 1;
      MergedRow(row[..c], s, i, x) + [if Covers(s, i, x, c) then s[i][c - x] else row[c]]
  }

  /** The arena after the piece's blocks are written into it, built up row
      by row: arena row `r` receives the piece's row `r - y`. */
  function Merged(a: Grid, s: Shape, x: int, y: int): (b: Grid)
    ensures |b| == |a|
    ensures forall r :: 0 <= r < |a| ==> b[r] == MergedRow(a[r], s, r - y, x)
  {
    if a == [] then []
    else
      var r := |a| - 1;
      Merged(a[..r], s, x, y) + [MergedRow(a[r], s, r - y, x)]
  }

  /** Every block of the piece that lands on a cell of the grid overwrites
      that cell with the block's value; every cell no block lands on keeps
      its value. */
  lemma {:induction false} MergedCells(a: Grid, s: Shape, x: int, y: int)
    ensures forall i, j :: 0 <= i < |s| && 0 <= j < |s[i]| && s[i][j] != 0 && 0 <= y + i < |a| && 0 <= x + j < |a[y + i]| ==>
      Merged(a, s, x, y)[y + i][x + j] == s[i][j]
    ensures forall r, c :: 0 <= r < |a| && 0 <= c < |a[r]| && !(0 <= r - y < |s| && 0 <= c - x < |s[r - y]| && s[r - y][c - x] != 0) ==>
      Merged(a, s, x, y)[r][c] == a[r][c]
  {
    var b := Merged(a, s, x, y);
    forall i, j | 0 <= i < |s| && 0 <= j < |s[i]| && s[i][j] != 0 && 0 <= y + i < |a| && 0 <= x + j < |a[y + i]|
      ensures b[y + i][x + j] == s[i][j]
    {
      assert (y + i) - y == i && (x + j) - x == j;
    }
  }

  /** A piece that does not collide lies inside the grid and every one of
      its blocks covers an empty cell. */
  lemma {:induction false} NoCollisionFits(a: Grid, s: Shape, x: int, y: int)
    requires IsBoard(a) && !Collides(a, s, x, y)
    ensures Placed(s, x, y) && Fits(a, s, x, y)
    ensures forall i, j :: 0 <= i < |s| && 0 <= j < |s[i]| && s[i][j] != 0 ==> a[y + i][x + j] == 0
  {
    forall i, j | 0 <= i < |s| && 0 <= j < |s[i]| && s[i][j] != 0
      ensures Free(a, y + i, x + j)
    {
    }
  }

  /** A piece that was within the walls and above the floor still is one
      row higher. */
  lemma {:induction false} PlacedHigher(s: Shape, x: int, y: int)
    requires Placed(s, x, y)
    ensures Placed(s, x, y - 1)
  {
  }

  /** A piece with a block that is above the floor has its top row above
      the floor, so a falling piece can only be lowered finitely often. */
  lemma {:induction false} PlacedAboveFloor(s: Shape, x: int, y: int)
    requires HasBlock(s) && Placed(s, x, y)
    ensures y < Height
  {
    var i, j :| 0 <= i < |s| && 0 <= j < |s[i]| && s[i][j] != 0;
  }

  /** Merging a piece whose cells are colour ids keeps the arena a board,
      and a piece that did not collide only fills empty cells: no cell
      that was occupied changes. */
  lemma {:induction false} MergedIsBoard(a: Grid, s: Shape, x: int, y: int)
    requires IsBoard(a) && IsPiece(s)
    ensures IsBoard(Merged(a, s, x, y))
    ensures !Collides(a, s, x, y) ==>
      forall r, c :: 0 <= r < Height && 0 <= c < Width && a[r][c] != 0 ==> Merged(a, s, x, y)[r][c] == a[r][c]
  {
    var b := Merged(a, s, x, y);
    forall r, c | 0 <= r < Height && 0 <= c < Width
      ensures 0 <= b[r][c] <= 7
      ensures !Collides(a, s, x, y) && a[r][c] != 0 ==> b[r][c] == a[r][c]
    {
      if 0 <= r - y < |s| && 0 <= c - x < |s[r - y]| && s[r - y][c - x] != 0 {
        assert b[r][c] == s[r - y][c - x];
        if !Collides(a, s, x, y) {
          NoCollisionFits(a, s, x, y);
          assert a[y + (r - y)][x + (c - x)] == 0;
        }
      }
    }
  }

  /** The column a new piece of width `w` spawns at: centred, rounded down. */
  function SpawnColumn(w: nat): int {
    (Width - w) / 2
  }

  /** A new piece spawned in row 0 at the spawn column is within the walls
      and above the floor, and on an empty arena it does not collide. */
  lemma {:induction false} SpawnPlaced(s: Shape)
    requires IsPiece(s)
    ensures Placed(s, SpawnColumn(|s|), 0)
    ensures !Collides(Empty(), s, SpawnColumn(|s|), 0)
  {
    var x := SpawnColumn(|s|);
    assert 3 <= x && x + |s| <= Width;
    var e := Empty();
    forall i, j | 0 <= i < |s| && 0 <= j < |s[i]| && s[i][j] != 0
      ensures Free(e, i, x + j)
    {
      assert e[i][x + j] == 0;
    }
  }

  /** The arena with every cell empty. */
  function Empty(): (a: Grid)
    ensures IsBoard(a)
    ensures forall r, c :: 0 <= r < Height && 0 <= c < Width ==> a[r][c] == 0
  {
    seq(Height, _ => ZeroRow(Width))
  }

  /** Builds `h` rows of `w` zeros, one row at a time. */
  method CreateMatrix(w: nat, h: nat) returns (matrix: Grid)
    ensures |matrix| == h
    ensures forall r :: 0 <= r < h ==> |matrix[r]| == w && forall c :: 0 <= c < w ==> matrix[r][c] == 0
  {
    matrix := [];
    var k := h;
    while k > 0
      invariant 0 <= k <= h && |matrix| == h - k
      invariant forall r :: 0 <= r < |matrix| ==> matrix[r] == ZeroRow(w)
    {
      matrix := matrix + [ZeroRow(w)];
      k := k - 1;
    }
  }

  /** The game's blank arena is the empty board. */
  lemma {:induction false} CreateMatrixIsEmpty(matrix: Grid)
    requires |matrix| == Height
    requires forall r :: 0 <= r < Height ==> |matrix[r]| == Width && forall c :: 0 <= c < Width ==> matrix[r][c] == 0
    ensures matrix == Empty() && IsBoard(matrix)
  {
    SameCells(matrix, Empty());
  }

  /** Scans the piece row by row for a block that lands outside the grid
      or on an occupied cell. A missing matrix counts as a collision. */
  method Collide(arena: Grid, m: Option<Shape>, px: int, py: int) returns (hit: bool)
    ensures hit == (m.None? || Collides(arena, m.value, px, py))
  {
    if m.None? {
      return true;
    }
    var s := m.value;
    for y := 0 to |s|
      invariant forall i, j :: 0 <= i < y && 0 <= j < |s[i]| && s[i][j] != 0 ==> Free(arena, py + i, px + j)
    {
      for x := 0 to |s[y]|
        invariant forall i, j :: ((0 <= i < y && 0 <= j < |s[i]|) || (i == y && 0 <= j < x)) && s[i][j] != 0 ==>
          Free(arena, py + i, px + j)
      {
        if s[y][x] != 0 && !Free(arena, py + y, px + x) {
          return true;
        }
      }
    }
    hit := false;
  }

  /** Writes every block of the piece into the arena, row by row; a
      missing matrix writes nothing. A block that lands on a row that does
      not exist aborts the merge (the assignment would fail on the missing
      row); because the piece is within the walls and above the floor,
      such a row can only lie above the top, so the first block met there
      comes before any write and the arena is left as it was. */
  method Merge(arena: Grid, m: Option<Shape>, px: int, py: int) returns (ok: bool, merged: Grid)
    requires IsBoard(arena)
    requires m.Some? ==> Placed(m.value, px, py)
    ensures m.None? ==> ok && merged == arena
    ensures m.Some? ==> (ok <==> Fits(arena, m.value, px, py))
    ensures ok && m.Some? ==> merged == Merged(arena, m.value, px, py)
    ensures !ok ==> merged == arena
  {
    merged := arena;
    ok := true;
    if m.None? {
      return;
    }
    var s := m.value;
    for y := 0 to |s|
      invariant |merged| == Height && forall r :: 0 <= r < Height ==> |merged[r]| == Width
      invariant forall r, c :: 0 <= r < Height && 0 <= c < Width ==>
        merged[r][c] == if 0 <= r - py < y && 0 <= c - px < |s[r - py]| && s[r - py][c - px] != 0 then s[r - py][c - px] else arena[r][c]
      invariant forall i, j :: 0 <= i < y && 0 <= j < |s[i]| && s[i][j] != 0 ==> 0 <= py + i
    {
      for x := 0 to |s[y]|
        invariant |merged| == Height && forall r :: 0 <= r < Height ==> |merged[r]| == Width
        invariant forall r, c :: 0 <= r < Height && 0 <= c < Width ==>
          merged[r][c] ==
            if ((0 <= r - py < y && 0 <= c - px < |s[r - py]|) || (r - py == y && 0 <= c - px < x)) && s[r - py][c - px] != 0
            then s[r - py][c - px] else arena[r][c]
        invariant forall i, j :: ((0 <= i < y && 0 <= j < |s[i]|) || (i == y && 0 <= j < x)) && s[i][j] != 0 ==> 0 <= py + i
      {
        if s[y][x] != 0 {
          if !(0 <= py + y < |merged|) {
            ok := false;
            forall r, c | 0 <= r < Height && 0 <= c < Width
              ensures merged[r][c] == arena[r][c]
            {
            }
            SameCells(merged, arena);
            return;
          }
          merged := merged[py + y := merged[py + y][px + x := s[y][x]]];
        }
      }
    }
    SameCells(merged, Merged(arena, s, px, py));
  }
}
