/** The seven piece templates, their colour ids, and the generator that
    hands out an independent copy of one of them. */
module Pieces {
  import opened Shapes

  /** The seven piece types. */
  datatype Kind = T | O | L | J | I | S | Z

  /** The colour id every block of a piece of this kind carries. */
  function Id(k: Kind): (id: int)
    ensures 1 <= id <= 7
  {
    match k
    case T => 1
    case O => 2
    case L => 3
    case J => 4
    case I => 5
    case S => 6
    case Z => 7
  }

  /** The positions (row, column) of the non-zero cells of a matrix. */
  function BlockCells(s: Shape): set<(int, int)> {
    set i, j | 0 <= i < |s| && 0 <= j < |s[i]| && s[i][j] != 0 :: (i, j)
  }

  /** Number of non-zero cells in a matrix. */
  function Blocks(s: Shape): nat {
    |BlockCells(s)|
  }

  /** Some cell of the matrix is non-zero. */
  predicate HasBlock(s: Shape) {
    exists i, j :: 0 <= i < |s| && 0 <= j < |s[i]| && s[i][j] != 0
  }

  /** The colour ids the blocks of a matrix carry. */
  function Colours(s: Shape): set<int> {
    set i, j | 0 <= i < |s| && 0 <= j < |s[i]| && s[i][j] != 0 :: s[i][j]
  }

  /** The matrix has blocks, and every one of them carries the colour id
      `id`. */
  predicate ColouredWith(s: Shape, id: int) {
    Colours(s) == {id}
  }

  /** All blocks of the matrix carry one and the same colour id. */
  predicate OneColoured(s: Shape) {
    |Colours(s)| == 1
  }

  /** What every piece matrix in play satisfies: square, of size 2 to 4,
      cells holding 0 or a colour id from 1 to 7, one colour id for all of
      its blocks, and exactly four blocks. */
  predicate IsPiece(s: Shape) {
    IsSquare(s) && 2 <= |s| <= 4 &&
    (forall i, j :: 0 <= i < |s| && 0 <= j < |s| ==> 0 <= s[i][j] <= 7) &&
    HasBlock(s) && OneColoured(s) && Blocks(s) == 4
  }

  /** An in-memory matrix that holds a piece. */
  predicate PieceMatrix(m: array2<int>)
    reads m
  {
    m.Length0 == m.Length1 && IsPiece(Cells(m))
  }

  /** The non-zero cells of `s` are exactly the positions in `cells`. */
  lemma {:induction false} BlockCellsAre(s: Shape, cells: set<(int, int)>)
    requires forall p :: p in cells ==> 0 <= p.0 < |s| && 0 <= p.1 < |s[p.0]| && s[p.0][p.1] != 0
    requires forall i, j :: 0 <= i < |s| && 0 <= j < |s[i]| && s[i][j] != 0 ==> (i, j) in cells
    ensures BlockCells(s) == cells
  {
  }

  /** A 2-by-2 to 4-by-4 matrix of colour `id` whose blocks lie at the four
      given positions is a piece. */
  lemma {:induction false} FourCells(s: Shape, id: int, cells: set<(int, int)>)
    requires IsSquare(s) && 2 <= |s| <= 4 && 1 <= id <= 7
    requires forall i, j :: 0 <= i < |s| && 0 <= j < |s| ==> s[i][j] == (if (i, j) in cells then id else 0)
    requires forall p :: p in cells ==> 0 <= p.0 < |s| && 0 <= p.1 < |s|
    requires |cells| == 4
    ensures IsPiece(s) && ColouredWith(s, id)
  {
    BlockCellsAre(s, cells);
    var p :| p in cells;
    assert s[p.0][p.1] == id;
    assert Colours(s) == {id};
  }

  /** The side length of each kind's template. */
  function Size(k: Kind): nat {
    match k
    case O => 2
    case I => 4
    case _ => 3
  }

  /** The positions (row, column) of the four blocks of each kind's
      template. */
  function Layout(k: Kind): set<(int, int)> {
    match k
    case T => {(0, 1), (1, 0), (1, 1), (1, 2)}
    case O => {(0, 0), (0, 1), (1, 0), (1, 1)}
    case L => {(0, 2), (1, 0), (1, 1), (1, 2)}
    case J => {(0, 0), (1, 0), (1, 1), (1, 2)}
    case I => {(1, 0), (1, 1), (1, 2), (1, 3)}
    case S => {(0, 1), (0, 2), (1, 0), (1, 1)}
    case Z => {(0, 0), (0, 1), (1, 1), (1, 2)}
  }

  /** The `n`-by-`n` matrix holding `id` at the positions in `cells` and 0
      everywhere else. */
  function Stamp(n: nat, cells: set<(int, int)>, id: int): (s: Shape)
    ensures IsSquare(s) && |s| == n
    ensures forall i, j :: 0 <= i < n && 0 <= j < n ==> s[i][j] == (if (i, j) in cells then id else 0)
  {
    seq(n, i requires 0 <= i < n => seq(n, j requires 0 <= j < n => if (i, j) in cells then id else 0))
  }

  /** The template matrix of each kind: a piece whose blocks all carry the
      kind's colour id. */
  function Template(k: Kind): (s: Shape)
    ensures IsPiece(s) && ColouredWith(s, Id(k))
  {
    var s := Stamp(Size(k), Layout(k), Id(k));
    LayoutFits(k);
    FourCells(s, Id(k), Layout(k));
    s
  }

  /** Each layout has four distinct positions inside its template. */
  lemma {:induction false} LayoutFits(k: Kind)
    ensures 2 <= Size(k) <= 4 && |Layout(k)| == 4
    ensures forall p :: p in Layout(k) ==> 0 <= p.0 < Size(k) && 0 <= p.1 < Size(k)
  {
    match k
    case T =>
    case O =>
    case L =>
    case J =>
    case I =>
    case S =>
    case Z =>
  }

  /** The stamped matrix is the matrix `m` that holds `id` exactly at the
      positions in `cells`. */
  lemma {:induction false} StampIs(n: nat, cells: set<(int, int)>, id: int, m: Shape)
    requires IsSquare(m) && |m| == n
    requires forall i, j :: 0 <= i < n && 0 <= j < n ==> m[i][j] == (if (i, j) in cells then id else 0)
    ensures Stamp(n, cells, id) == m
  {
    var s := Stamp(n, cells, id);
    forall i | 0 <= i < n
      ensures s[i] == m[i]
    {
    }
  }

  /** The templates, row by row. */
  lemma {:induction false} TemplateRows(k: Kind)
    ensures match k
      case T => Template(k) == [[0, 1, 0], [1, 1, 1], [0, 0, 0]]
      case O => Template(k) == [[2, 2], [2, 2]]
      case L => Template(k) == [[0, 0, 3], [3, 3, 3], [0, 0, 0]]
      case J => Template(k) == [[4, 0, 0], [4, 4, 4], [0, 0, 0]]
      case I => Template(k) == [[0, 0, 0, 0], [5, 5, 5, 5], [0, 0, 0, 0], [0, 0, 0, 0]]
      case S => Template(k) == [[0, 6, 6], [6, 6, 0], [0, 0, 0]]
      case Z => Template(k) == [[7, 7, 0], [0, 7, 7], [0, 0, 0]]
  {
    match k
    case T => StampIs(3, Layout(k), 1, [[0, 1, 0], [1, 1, 1], [0, 0, 0]]);
    case O => StampIs(2, Layout(k), 2, [[2, 2], [2, 2]]);
    case L => StampIs(3, Layout(k), 3, [[0, 0, 3], [3, 3, 3], [0, 0, 0]]);
    case J => StampIs(3, Layout(k), 4, [[4, 0, 0], [4, 4, 4], [0, 0, 0]]);
    case I => StampIs(4, Layout(k), 5, [[0, 0, 0, 0], [5, 5, 5, 5], [0, 0, 0, 0], [0, 0, 0, 0]]);
    case S => StampIs(3, Layout(k), 6, [[0, 6, 6], [6, 6, 0], [0, 0, 0]]);
    case Z => StampIs(3, Layout(k), 7, [[7, 7, 0], [0, 7, 7], [0, 0, 0]]);
  }

  /** The fallback matrix, row by row. */
  lemma {:induction false} FallbackRows()
    ensures Fallback == [[1, 1], [1, 1]]
  {
    StampIs(2, Layout(O), 1, [[1, 1], [1, 1]]);
  }

  /** The kinds in the order of the generator's letter string "TJLOSZI". */
  const Order: seq<Kind> := [T, J, L, O, S, Z, I]

  /** The matrix handed out when the chosen letter names no template. */
  const Fallback: Shape := Stamp(2, Layout(O), 1)

  /** The matrix the generator produces for a roll, the index into the
      letter string; a roll past its end names no template. Every roll
      gives a piece of four blocks in one colour. */
  function Rolled(roll: nat): (s: Shape)
    ensures IsPiece(s)
  {
    if roll < |Order| then Template(Order[roll])
    else
      FourCells(Fallback, 1, Layout(O));
      Fallback
  }

  /** A roll below 7 gives the template of the letter at that index, with
      the blocks in that kind's colour; any other roll gives the 2-by-2
      fallback of colour 1. */
  lemma {:induction false} RolledMatrix(roll: nat)
    ensures roll < 7 ==> Rolled(roll) == Template(Order[roll]) && ColouredWith(Rolled(roll), Id(Order[roll]))
    ensures roll >= 7 ==> Rolled(roll) == [[1, 1], [1, 1]] && ColouredWith(Rolled(roll), 1)
  {
    if roll >= 7 {
      FallbackRows();
      FourCells(Fallback, 1, Layout(O));
    }
  }

  /** The seven rolls that can occur give the seven templates, each once. */
  lemma {:induction false} EveryKindRolled(k: Kind)
    ensures exists roll :: 0 <= roll < 7 && Order[roll] == k && Rolled(roll) == Template(k)
  {
    var roll := match k
      case T => 0
      case J => 1
      case L => 2
      case O => 3
      case S => 4
      case Z => 5
      case I => 6;
    assert Order[roll] == k;
  }

  /** Where a quarter turn in direction `dir` of an `n`-by-`n` matrix moves
      the cell at position `p`. */
  function Turn(n: int, dir: int, p: (int, int)): (int, int) {
    if dir > 0 then (p.1, n - 1 - p.0) else (n - 1 - p.1, p.0)
  }

  /** The positions in `cells`, each moved by the quarter turn. */
  function Turned(cells: set<(int, int)>, n: int, dir: int): set<(int, int)> {
    set p | p in cells :: Turn(n, dir, p)
  }

  /** No two positions are moved to the same place, so a quarter turn
      keeps the number of positions. */
  lemma {:induction false} TurnedSize(cells: set<(int, int)>, n: int, dir: int)
    ensures |Turned(cells, n, dir)| == |cells|
    decreases cells
  {
    if cells == {} {
      assert Turned(cells, n, dir) == {};
    } else {
      var p :| p in cells;
      var rest := cells - {p};
      TurnedSize(rest, n, dir);
      assert Turned(cells, n, dir) == Turned(rest, n, dir) + {Turn(n, dir, p)};
      assert Turn(n, dir, p) !in Turned(rest, n, dir);
    }
  }

  /** The blocks of a turned matrix are the turned blocks of the matrix. */
  lemma {:induction false} RotatedBlockCells(s: Shape, dir: int)
    requires IsSquare(s)
    ensures BlockCells(Rotated(s, dir)) == Turned(BlockCells(s), |s|, dir)
  {
    var n := |s|;
    var t := Rotated(s, dir);
    if dir > 0 {
      assert forall i, j :: 0 <= i < n && 0 <= j < n ==> t[i][j] == s[n - 1 - j][i];
      forall q | q in BlockCells(t)
        ensures q in Turned(BlockCells(s), n, dir)
      {
        var p := (n - 1 - q.1, q.0);
        assert p in BlockCells(s) && Turn(n, dir, p) == q;
      }
    } else {
      assert forall i, j :: 0 <= i < n && 0 <= j < n ==> t[i][j] == s[j][n - 1 - i];
      forall q | q in BlockCells(t)
        ensures q in Turned(BlockCells(s), n, dir)
      {
        var p := (q.1, n - 1 - q.0);
        assert p in BlockCells(s) && Turn(n, dir, p) == q;
      }
    }
  }

  /** The blocks of a turned matrix carry the colours of the matrix. */
  lemma {:induction false} RotatedColours(s: Shape, dir: int)
    requires IsSquare(s)
    ensures Colours(Rotated(s, dir)) == Colours(s)
  {
    var n := |s|;
    var t := Rotated(s, dir);
    if dir > 0 {
      assert forall i, j :: 0 <= i < n && 0 <= j < n ==> t[i][j] == s[n - 1 - j][i];
      forall o | o in Colours(t)
        ensures o in Colours(s)
      {
        var i, j :| 0 <= i < n && 0 <= j < n && t[i][j] != 0 && t[i][j] == o;
        assert s[n - 1 - j][i] == o;
      }
      forall o | o in Colours(s)
        ensures o in Colours(t)
      {
        var i, j :| 0 <= i < n && 0 <= j < n && s[i][j] != 0 && s[i][j] == o;
        assert t[j][n - 1 - i] == o;
      }
    } else {
      assert forall i, j :: 0 <= i < n && 0 <= j < n ==> t[i][j] == s[j][n - 1 - i];
      forall o | o in Colours(t)
        ensures o in Colours(s)
      {
        var i, j :| 0 <= i < n && 0 <= j < n && t[i][j] != 0 && t[i][j] == o;
        assert s[j][n - 1 - i] == o;
      }
      forall o | o in Colours(s)
        ensures o in Colours(t)
      {
        var i, j :| 0 <= i < n && 0 <= j < n && s[i][j] != 0 && s[i][j] == o;
        assert t[n - 1 - j][i] == o;
      }
    }
  }

  /** A quarter turn keeps a piece a piece: same size, the same colour id
      on every block, and the same number of blocks. */
  lemma {:induction false} RotatedIsPiece(s: Shape, dir: int)
    requires IsPiece(s)
    ensures IsPiece(Rotated(s, dir))
    ensures Colours(Rotated(s, dir)) == Colours(s)
    ensures Blocks(Rotated(s, dir)) == Blocks(s)
  {
    var n := |s|;
    var t := Rotated(s, dir);
    var a, b :| 0 <= a < n && 0 <= b < |s[a]| && s[a][b] != 0;
    if dir > 0 {
      assert forall i, j :: 0 <= i < n && 0 <= j < n ==> t[i][j] == s[n - 1 - j][i];
      assert t[b][n - 1 - a] == s[a][b];
    } else {
      assert forall i, j :: 0 <= i < n && 0 <= j < n ==> t[i][j] == s[j][n - 1 - i];
      assert t[n - 1 - b][a] == s[a][b];
    }
    RotatedBlockCells(s, dir);
    TurnedSize(BlockCells(s), n, dir);
    RotatedColours(s, dir);
  }

  /** Returns a fresh matrix holding a copy of the rolled template, row by
      row, so that rotating it never touches a template or another piece. */
  method CreateRandomPiece(roll: nat) returns (m: array2<int>)
    ensures fresh(m) && PieceMatrix(m)
    ensures Cells(m) == Rolled(roll)
  {
    var piece := Rolled(roll);
    m := DeepCopy(piece);
  }

  /** A newly allocated matrix holding the cells of `s`, copied cell by
      cell. */
  method DeepCopy(s: Shape) returns (m: array2<int>)
    requires IsSquare(s)
    ensures fresh(m) && Cells(m) == s
  {
    var n := |s|;
    m := new int[n, n];
    for y := 0 to n
      invariant forall i, j :: 0 <= i < y && 0 <= j < n ==> m[i, j] == s[i][j]
    {
      for x := 0 to n
        invariant forall i, j :: (0 <= i < y && 0 <= j < n) || (i == y && 0 <= j < x) ==> m[i, j] == s[i][j]
      {
        m[y, x] := s[y][x];
      }
    }
    SameCells(Cells(m), s);
  }
}
