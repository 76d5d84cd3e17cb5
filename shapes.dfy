/** Piece matrices: square grids of cell values (0 = empty, otherwise a
    colour id), their rotation as a pure transform, and the in-place
    rotation the game applies to the active piece. */
module Shapes {

  /** A matrix as a sequence of rows. */
  type Shape = seq<seq<int>>

  /** Every row is as long as the matrix is tall. */
  predicate IsSquare(s: Shape) {
    forall i :: 0 <= i < |s| ==> |s[i]| == |s|
  }

  /** The first `j` cells of row `i` of an in-memory matrix. */
  function RowPrefix(m: array2<int>, i: nat, j: nat): (row: seq<int>)
    requires i < m.Length0 && j <= m.Length1
    reads m
    ensures |row| == j
    ensures forall k {:trigger row[k]} :: 0 <= k < j ==> row[k] == m[i, k]
  {
    if j == 0 then [] else RowPrefix(m, i, j - 1) + [m[i, j - 1]]
  }

  /** The first `n` rows of an in-memory matrix. */
  function RowsPrefix(m: array2<int>, n: nat): (s: Shape)
    requires n <= m.Length0
    reads m
    ensures |s| == n
    ensures forall i :: 0 <= i < n ==> s[i] == RowPrefix(m, i, m.Length1)
  {
    if n == 0 then [] else RowsPrefix(m, n - 1) + [RowPrefix(m, n - 1, m.Length1)]
  }

  /** The cell values an in-memory matrix holds, row by row. */
  function Cells(m: array2<int>): (s: Shape)
    reads m
    ensures |s| == m.Length0
    ensures forall i :: 0 <= i < |s| ==> |s[i]| == m.Length1
    ensures forall i, j {:trigger s[i][j]} :: 0 <= i < m.Length0 && 0 <= j < m.Length1 ==> s[i][j] == m[i, j]
  {
    RowsPrefix(m, m.Length0)
  }

  /** Two matrices of the same dimensions that agree cell by cell are equal. */
  lemma {:induction false} SameCells(a: Shape, b: Shape)
    requires |a| == |b|
    requires forall i :: 0 <= i < |a| ==> |a[i]| == |b[i]|
    requires forall i, j :: 0 <= i < |a| && 0 <= j < |a[i]| ==> a[i][j] == b[i][j]
    ensures a == b
  {
    forall i | 0 <= i < |a|
      ensures a[i] == b[i]
    {
      assert forall j :: 0 <= j < |a[i]| ==> a[i][j] == b[i][j];
    }
  }

  /** Mirror in the main diagonal: cell (i, j) takes the value of (j, i). */
  function Transposed(s: Shape): (t: Shape)
    requires IsSquare(s)
    ensures IsSquare(t) && |t| == |s|
    ensures forall i, j :: 0 <= i < |s| && 0 <= j < |s| ==> t[i][j] == s[j][i]
  {
    seq(|s|, i requires 0 <= i < |s| => seq(|s|, j requires 0 <= j < |s| => s[j][i]))
  }

  /** Every row read back to front; the rows keep their order. */
  function RowsReversed(s: Shape): (t: Shape)
    requires IsSquare(s)
    ensures IsSquare(t) && |t| == |s|
    ensures forall i, j :: 0 <= i < |s| && 0 <= j < |s| ==> t[i][j] == s[i][|s| - 1 - j]
  {
    seq(|s|, i requires 0 <= i < |s| => seq(|s|, j requires 0 <= j < |s| => s[i][|s| - 1 - j]))
  }

  /** The rows in reverse order; each row is kept as it is. */
  function Flipped(s: Shape): (t: Shape)
    requires IsSquare(s)
    ensures IsSquare(t) && |t| == |s|
    ensures forall i :: 0 <= i < |s| ==> t[i] == s[|s| - 1 - i]
  {
    seq(|s|, i requires 0 <= i < |s| => s[|s| - 1 - i])
  }

  /** A quarter turn of a square matrix, stated cell by cell: clockwise
      when `dir` is positive, counter-clockwise otherwise. Rotate below
      reaches it by a transpose followed by a reversal. */
  function Rotated(s: Shape, dir: int): (t: Shape)
    requires IsSquare(s)
    ensures IsSquare(t) && |t| == |s|
  {
    var n := |s|;
    if dir > 0 then
      seq(n, i requires 0 <= i < n => seq(n, j requires 0 <= j < n => s[n - 1 - j][i]))
    else
      seq(n, i requires 0 <= i < n => seq(n, j requires 0 <= j < n => s[j][n - 1 - i]))
  }

  /** The transpose followed by a reversal is the quarter turn. */
  lemma {:induction false} TransposeThenReverse(s: Shape, dir: int)
    requires IsSquare(s)
    ensures dir > 0 ==> RowsReversed(Transposed(s)) == Rotated(s, dir)
    ensures dir <= 0 ==> Flipped(Transposed(s)) == Rotated(s, dir)
  {
    var n := |s|;
    var t := Transposed(s);
    if dir > 0 {
      var u := RowsReversed(t);
      forall i, j | 0 <= i < n && 0 <= j < n
        ensures u[i][j] == Rotated(s, dir)[i][j]
      {
        assert u[i][j] == t[i][n - 1 - j] == s[n - 1 - j][i];
      }
      SameCells(u, Rotated(s, dir));
    } else {
      var u := Flipped(t);
      forall i, j | 0 <= i < n && 0 <= j < n
        ensures u[i][j] == Rotated(s, dir)[i][j]
      {
        assert u[i] == t[n - 1 - i];
        assert u[i][j] == s[j][n - 1 - i];
      }
      SameCells(u, Rotated(s, dir));
    }
  }

  /** A quarter turn one way followed by a quarter turn the other way gives
      back the original cells. With `dir == 0` both turns would be
      counter-clockwise, which is why the direction must not be zero. */
  lemma {:induction false} RotatedBack(s: Shape, dir: int)
    requires IsSquare(s) && dir != 0
    ensures Rotated(Rotated(s, dir), -dir) == s
  {
    var n := |s|;
    var t := Rotated(s, dir);
    var u := Rotated(t, -dir);
    forall i, j | 0 <= i < n && 0 <= j < n
      ensures u[i][j] == s[i][j]
    {
      if dir > 0 {
        assert u[i][j] == t[j][n - 1 - i];
      } else {
        assert u[i][j] == t[n - 1 - j][i];
      }
    }
    SameCells(u, s);
  }

  /** Rotation is a four-cycle: four quarter turns in the same direction
      give back the original cells. */
  lemma {:induction false} RotatedFourTimes(s: Shape, dir: int)
    requires IsSquare(s)
    ensures Rotated(Rotated(Rotated(Rotated(s, dir), dir), dir), dir) == s
  {
    var n := |s|;
    var r1 := Rotated(s, dir);
    var r2 := Rotated(r1, dir);
    var r3 := Rotated(r2, dir);
    var r4 := Rotated(r3, dir);
    forall i, j | 0 <= i < n && 0 <= j < n
      ensures r4[i][j] == s[i][j]
    {
      if dir > 0 {
        calc {
          r4[i][j];
          r3[n - 1 - j][i];
          r2[n - 1 - i][n - 1 - j];
          r1[j][n - 1 - i];
          s[i][j];
        }
      } else {
        calc {
          r4[i][j];
          r3[j][n - 1 - i];
          r2[n - 1 - i][n - 1 - j];
          r1[n - 1 - j][i];
          s[i][j];
        }
      }
    }
    SameCells(r4, s);
  }

  /** Swaps m[y, x] and m[x, y] for every x < y. */
  method Transpose(m: array2<int>)
    requires m.Length0 == m.Length1
    modifies m
    ensures IsSquare(old(Cells(m))) && Cells(m) == Transposed(old(Cells(m)))
  {
    var n := m.Length0;
    for y := 0 to n
      invariant forall i, j :: 0 <= i < n && 0 <= j < n ==>
        m[i, j] == if i < y && j < y then old(m[j, i]) else old(m[i, j])
    {
      for x := 0 to y
        invariant forall i, j :: 0 <= i < n && 0 <= j < n ==>
          m[i, j] == if (i < y && j < y) || (i == y && j < x) || (j == y && i < x) then old(m[j, i]) else old(m[i, j])
      {
        m[x, y], m[y, x] := m[y, x], m[x, y];
      }
    }
    SameCells(Cells(m), Transposed(old(Cells(m))));
  }

  /** Reverses every row in place. */
  method ReverseEachRow(m: array2<int>)
    requires m.Length0 == m.Length1
    modifies m
    ensures IsSquare(old(Cells(m))) && Cells(m) == RowsReversed(old(Cells(m)))
  {
    var n := m.Length0;
    for y := 0 to n
      invariant forall i, j :: 0 <= i < n && 0 <= j < n ==>
        m[i, j] == if i < y then old(m[i, n - 1 - j]) else old(m[i, j])
    {
      for x := 0 to n / 2
        invariant forall i, j :: 0 <= i < n && 0 <= j < n && i != y ==>
          m[i, j] == if i < y then old(m[i, n - 1 - j]) else old(m[i, j])
        invariant forall j :: 0 <= j < n ==>
          m[y, j] == if j < x || n - 1 - j < x then old(m[y, n - 1 - j]) else old(m[y, j])
      {
        m[y, x], m[y, n - 1 - x] := m[y, n - 1 - x], m[y, x];
      }
    }
    SameCells(Cells(m), RowsReversed(old(Cells(m))));
  }

  /** Reverses the order of the rows in place. */
  method ReverseRowOrder(m: array2<int>)
    requires m.Length0 == m.Length1
    modifies m
    ensures IsSquare(old(Cells(m))) && Cells(m) == Flipped(old(Cells(m)))
  {
    var n := m.Length0;
    for y := 0 to n / 2
      invariant forall i, j :: 0 <= i < n && 0 <= j < n ==>
        m[i, j] == if i < y || n - 1 - i < y then old(m[n - 1 - i, j]) else old(m[i, j])
    {
      assert 2 * (n / 2) <= n;
      assert y < n - 1 - y;
      for x := 0 to n
        invariant forall i, j :: 0 <= i < n && 0 <= j < n && i != y && i != n - 1 - y ==>
          m[i, j] == if i < y || n - 1 - i < y then old(m[n - 1 - i, j]) else old(m[i, j])
        invariant forall i, j :: 0 <= i < n && 0 <= j < n && (i == y || i == n - 1 - y) ==>
          m[i, j] == if j < x then old(m[n - 1 - i, j]) else old(m[i, j])
      {
        m[y, x], m[n - 1 - y, x] := m[n - 1 - y, x], m[y, x];
      }
    }
    ghost var s := old(Cells(m));
    forall i | 0 <= i < n
      ensures Cells(m)[i] == Flipped(s)[i]
    {
      SameRow(Cells(m)[i], Flipped(s)[i]);
    }
  }

  /** Two rows of the same length that agree cell by cell are equal. */
  lemma SameRow(a: seq<int>, b: seq<int>)
    requires |a| == |b| && forall j :: 0 <= j < |a| ==> a[j] == b[j]
    ensures a == b
  {
  }

  /** Rotates a square matrix in place by a quarter turn in direction `dir`. */
  method Rotate(m: array2<int>, dir: int)
    requires m.Length0 == m.Length1
    modifies m
    ensures IsSquare(old(Cells(m))) && Cells(m) == Rotated(old(Cells(m)), dir)
  {
    TransposeThenReverse(old(Cells(m)), dir);
    Transpose(m);
    if dir > 0 {
      ReverseEachRow(m);
    } else {
      ReverseRowOrder(m);
    }
  }
}
