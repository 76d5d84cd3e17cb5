/** The row sweep run after every lock: full rows are cut out of the arena
    bottom-up and replaced by empty rows at the top. */
module Sweep {
  import opened Board

  /** A row with no empty cell. */
  predicate Full(row: seq<int>) {
    forall c :: 0 <= c < |row| ==> row[c] != 0
  }

  /** Number of full rows. */
  function FullCount(rows: Grid): (k: nat)
    ensures k <= |rows|
  {
    if rows == [] then 0 else (if Full(rows[0]) then 1 else 0) + FullCount(rows[1..])
  }

  /** The rows that are not full, in their original order. */
  function NonFull(rows: Grid): (kept: Grid)
    ensures |kept| == |rows| - FullCount(rows)
  {
    if rows == [] then []
    else (if Full(rows[0]) then [] else [rows[0]]) + NonFull(rows[1..])
  }

  /** Every kept row is one of the original rows and is not full. */
  lemma {:induction false} NonFullKept(rows: Grid)
    ensures forall i :: 0 <= i < |NonFull(rows)| ==> !Full(NonFull(rows)[i]) && NonFull(rows)[i] in rows
    decreases |rows|
  {
    if rows != [] {
      NonFullKept(rows[1..]);
      var head := if Full(rows[0]) then [] else [rows[0]];
      forall i | 0 <= i < |NonFull(rows)|
        ensures !Full(NonFull(rows)[i]) && NonFull(rows)[i] in rows
      {
        if i >= |head| {
          assert NonFull(rows)[i] == NonFull(rows[1..])[i - |head|];
        }
      }
    }
  }

  /** `k` empty rows of Width cells. */
  function ZeroRows(k: nat): (z: Grid)
    ensures |z| == k
  {
    seq(k, _ => ZeroRow(Width))
  }

  /** Cuts row `y` out and puts an empty row of the same length on top:
      the row count is unchanged, the rows above `y` move down by one and
      the rows below `y` stay where they are. */
  function RemoveRow(a: Grid, y: int): Grid
    requires 0 <= y < |a|
  {
    [ZeroRow(|a[y]|)] + a[..y] + a[y + 1..]
  }

  /** Removing a row keeps the row count; the new top row is empty, the
      rows above the removed one move down by one and the rows below it
      stay where they are. */
  lemma {:induction false} RemoveRowShifts(a: Grid, y: int)
    requires 0 <= y < |a|
    ensures |RemoveRow(a, y)| == |a|
    ensures RemoveRow(a, y)[0] == ZeroRow(|a[y]|)
    ensures forall i :: 0 <= i < y ==> RemoveRow(a, y)[i + 1] == a[i]
    ensures forall i :: y < i < |a| ==> RemoveRow(a, y)[i] == a[i]
  {
  }

  /** The scan reaches the original top row only if a row below it was
      cleared first: each removal shifts the top row down one index, and
      the scan stops at index 0. */
  predicate SweepsTop(a: Grid) {
    |a| > 0 && FullCount(a[1..]) > 0
  }

  /** The arena after the sweep. */
  function Swept(a: Grid): Grid {
    if SweepsTop(a) then ZeroRows(FullCount(a)) + NonFull(a) else a
  }

  /** The number of rows the sweep removes. */
  function Cleared(a: Grid): nat {
    if SweepsTop(a) then FullCount(a) else 0
  }

  /** The list of row numbers the sweep records, for the rows from `lo`
      down; scanning goes bottom-up, so the lowest row comes first. A
      full row `k` is removed at index `k + c`, where `c` rows below it
      have been removed already, and the recorded number is that index
      plus one. */
  function RecordedFrom(a: Grid, lo: nat): seq<int>
    requires lo <= |a|
    decreases |a| - lo
  {
    if lo == |a| then []
    else RecordedFrom(a, lo + 1) + (if Full(a[lo]) then [lo + FullCount(a[lo + 1..]) + 1] else [])
  }

  /** The row numbers the sweep records. */
  function Recorded(a: Grid): seq<int> {
    if SweepsTop(a) then RecordedFrom(a, 0) else []
  }

  lemma {:induction false} FullCountStep(a: Grid, k: nat)
    requires k < |a|
    ensures FullCount(a[k..]) == (if Full(a[k]) then 1 else 0) + FullCount(a[k + 1..])
    ensures NonFull(a[k..]) == (if Full(a[k]) then [] else [a[k]]) + NonFull(a[k + 1..])
  {
    assert a[k..][1..] == a[k + 1..];
  }

  /** No full row at all exactly when the count is zero, and then every
      row is kept. */
  lemma {:induction false} NoneFull(rows: Grid)
    ensures FullCount(rows) == 0 <==> forall i :: 0 <= i < |rows| ==> !Full(rows[i])
    ensures FullCount(rows) == 0 ==> NonFull(rows) == rows
    decreases |rows|
  {
    if rows != [] {
      NoneFull(rows[1..]);
      if FullCount(rows) == 0 {
        assert rows == [rows[0]] + rows[1..];
      } else if !Full(rows[0]) {
        var i :| 0 <= i < |rows[1..]| && Full(rows[1..][i]);
        assert Full(rows[i + 1]);
      }
    }
  }

  /** Keeping the non-full rows distributes over concatenation. */
  lemma {:induction false} NonFullAppend(r: Grid, s: Grid)
    ensures NonFull(r + s) == NonFull(r) + NonFull(s)
    ensures FullCount(r + s) == FullCount(r) + FullCount(s)
    decreases |r|
  {
    if r != [] {
      assert (r + s)[1..] == r[1..] + s;
      NonFullAppend(r[1..], s);
    } else {
      assert r + s == s;
    }
  }

  /** When no row from `lo` down is full, nothing is recorded for them. */
  lemma {:induction false} RecordedNone(a: Grid, lo: nat)
    requires lo <= |a| && FullCount(a[lo..]) == 0
    ensures RecordedFrom(a, lo) == []
    decreases |a| - lo
  {
    if lo < |a| {
      FullCountStep(a, lo);
      RecordedNone(a, lo + 1);
    }
  }

  /** The arena part-way through the scan, once the original rows from `k`
      down have been examined and `c` of them removed: `c` empty rows, the
      rows above `k` untouched, then the kept rows from `k` down. */
  function Partial(a: Grid, k: nat, c: nat): Grid
    requires k <= |a|
  {
    ZeroRows(c) + a[..k] + NonFull(a[k..])
  }

  /** One row of the scan, with the rows from `j` down examined and `c`
      of them removed: the row at index `c + j - 1` of the partly swept
      arena is the original row `j - 1`. */
  lemma {:induction false} ScanFindsRow(a: Grid, j: nat, c: nat)
    requires 0 < j <= |a| && c == FullCount(a[j..])
    ensures |Partial(a, j, c)| == |a| && Partial(a, j, c)[c + j - 1] == a[j - 1]
  {
    var arena := Partial(a, j, c);
    assert arena == (ZeroRows(c) + a[..j]) + NonFull(a[j..]);
    assert (ZeroRows(c) + a[..j])[c + j - 1] == a[j - 1];
  }

  /** Removing the row that follows `z + top` from `z + top + [row] + rest`. */
  lemma {:induction false} RemoveBetween(z: Grid, top: Grid, row: seq<int>, rest: Grid)
    ensures RemoveRow(z + top + [row] + rest, |z| + |top|) == [ZeroRow(|row|)] + z + top + rest
  {
    var g := z + top + [row] + rest;
    assert g[..|z| + |top|] == z + top;
    assert g[|z| + |top| + 1..] == rest;
  }

  /** Removing that row when it is full gives the partly swept arena for
      the rows from `j - 1` down, with one more row counted and recorded
      at its index plus one. */
  lemma {:induction false} ScanRemovesRow(a: Grid, j: nat, c: nat)
    requires 0 < j <= |a| && c == FullCount(a[j..]) && |a[j - 1]| == Width && Full(a[j - 1])
    ensures RemoveRow(Partial(a, j, c), c + j - 1) == Partial(a, j - 1, c + 1)
    ensures FullCount(a[j - 1..]) == c + 1 && RecordedFrom(a, j - 1) == RecordedFrom(a, j) + [c + j]
  {
    FullCountStep(a, j - 1);
    var zeros, above, kept := ZeroRows(c), a[..j - 1], NonFull(a[j..]);
    assert a[..j] == above + [a[j - 1]];
    assert Partial(a, j, c) == zeros + above + [a[j - 1]] + kept;
    RemoveBetween(zeros, above, a[j - 1], kept);
    assert [ZeroRow(Width)] + zeros == ZeroRows(c + 1);
  }

  /** Passing over that row when it is not full leaves the partly swept
      arena, the count and the record as they are. */
  lemma {:induction false} ScanKeepsRow(a: Grid, j: nat, c: nat)
    requires 0 < j <= |a| && c == FullCount(a[j..]) && !Full(a[j - 1])
    ensures Partial(a, j, c) == Partial(a, j - 1, c)
    ensures FullCount(a[j - 1..]) == c && RecordedFrom(a, j - 1) == RecordedFrom(a, j)
  {
    FullCountStep(a, j - 1);
    assert a[..j] == a[..j - 1] + [a[j - 1]];
  }

  /** Once every original row has been examined, the rows above index `c`
      are the empty rows put on top. */
  lemma {:induction false} TopIsEmpty(a: Grid, c: nat, y: int)
    requires 0 <= y < c
    ensures |Partial(a, 0, c)| > y && Partial(a, 0, c)[y] == ZeroRow(Width)
  {
    assert Partial(a, 0, c)[y] == ZeroRows(c)[y];
  }

  /** The state of the scan with the original rows from `j` down
      examined, `y` the index under examination: the partly swept arena,
      the number of rows removed so far and the numbers recorded so far.
      While original rows remain, `y` is the index of row `j - 1`; after
      that it points into the empty rows put on top, which only happens
      when some row below the top was full. */
  predicate Scanning(a: Grid, j: nat, y: int, arena: Grid, rowCount: nat, clearedRows: seq<int>) {
    j <= |a| &&
    rowCount == FullCount(a[j..]) && |clearedRows| == rowCount &&
    arena == Partial(a, j, rowCount) &&
    clearedRows == RecordedFrom(a, j) &&
    (j > 0 ==> y == rowCount + j - 1) &&
    (j == 0 ==> y < rowCount && (|a| > 0 ==> FullCount(a[1..]) > 0))
  }

  /** The row under examination exists; it is the original row `j - 1`
      while one remains, and an empty row after that. */
  lemma {:induction false} ScanRow(a: Grid, j: nat, y: int, arena: Grid, rowCount: nat, clearedRows: seq<int>)
    requires Scanning(a, j, y, arena, rowCount, clearedRows) && y > 0
    ensures y < |arena|
    ensures j > 0 ==> arena[y] == a[j - 1]
    ensures j == 0 ==> !Full(arena[y])
  {
    if j > 0 {
      ScanFindsRow(a, j, rowCount);
    } else {
      TopIsEmpty(a, rowCount, y);
      assert arena[y][0] == 0;
    }
  }

  /** Removing a full row under examination, re-examining the same index
      and recording it plus one keeps the scan state. */
  lemma {:induction false} ScanRemove(a: Grid, j: nat, y: int, arena: Grid, rowCount: nat, clearedRows: seq<int>)
    requires forall r :: 0 <= r < |a| ==> |a[r]| == Width
    requires Scanning(a, j, y, arena, rowCount, clearedRows) && y > 0
    requires y < |arena| && Full(arena[y])
    ensures j > 0 && Scanning(a, j - 1, y, RemoveRow(arena, y), rowCount + 1, clearedRows + [y + 1])
  {
    ScanRow(a, j, y, arena, rowCount, clearedRows);
    ScanRemovesRow(a, j, rowCount);
  }

  /** Passing over a row that is not full keeps the scan state one index
      higher. */
  lemma {:induction false} ScanKeep(a: Grid, j: nat, y: int, arena: Grid, rowCount: nat, clearedRows: seq<int>)
    requires Scanning(a, j, y, arena, rowCount, clearedRows) && y > 0
    requires y < |arena| && !Full(arena[y])
    ensures Scanning(a, if j > 0 then j - 1 else 0, y - 1, arena, rowCount, clearedRows)
  {
    if j > 0 {
      ScanRow(a, j, y, arena, rowCount, clearedRows);
      ScanKeepsRow(a, j, rowCount);
    }
  }

  /** The partly swept arena, count and record at either place the scan
      can stop are the sweep's results. */
  lemma {:induction false} ScanResult(a: Grid, j: nat, c: nat)
    requires j <= |a| && c == FullCount(a[j..])
    requires (j == 1 && c == 0) || (j == 0 && (|a| > 0 ==> FullCount(a[1..]) > 0))
    ensures Partial(a, j, c) == Swept(a) && c == Cleared(a) && RecordedFrom(a, j) == Recorded(a)
  {
    if j == 1 {
      NoneFull(a[1..]);
      RecordedNone(a, 1);
      assert a[..1] + a[1..] == a;
    } else {
      assert a[..0] + a[0..] == a;
    }
  }

  /** Where the scan stops: either at the original top row, with nothing
      removed below it, or after every original row has been examined and
      only empty rows are left above. */
  lemma {:induction false} ScanEnds(a: Grid, j: nat, y: int, arena: Grid, rowCount: nat, clearedRows: seq<int>)
    requires Scanning(a, j, y, arena, rowCount, clearedRows) && y <= 0
    ensures arena == Swept(a) && rowCount == Cleared(a) && clearedRows == Recorded(a)
  {
    assert (j == 1 && rowCount == 0) || (j == 0 && (|a| > 0 ==> FullCount(a[1..]) > 0));
    ScanResult(a, j, rowCount);
  }

  /** Scans the row left to right for an empty cell; one found sends the
      sweep on to the row above. */
  method RowIsFull(row: seq<int>) returns (full: bool)
    ensures full <==> Full(row)
  {
    var x := 0;
    while x < |row|
      invariant 0 <= x <= |row|
      invariant forall i :: 0 <= i < x ==> row[i] != 0
    {
      if row[x] == 0 {
        return false;
      }
      x := x + 1;
    }
    return true;
  }

  /** Scans the rows from the bottom up to row 1, cutting out each full row
      and putting an empty row on top; after a removal the same index is
      examined again, since it now holds the row that was above. Returns
      the new arena, the number of rows removed and the recorded row
      numbers. */
  method SweepRows(a: Grid) returns (arena: Grid, rowCount: nat, clearedRows: seq<int>)
    requires forall r :: 0 <= r < |a| ==> |a[r]| == Width
    ensures arena == Swept(a)
    ensures rowCount == Cleared(a) == |clearedRows|
    ensures clearedRows == Recorded(a)
  {
    arena := a;
    rowCount := 0;
    clearedRows := [];
    var n := |a|;
    var y := n - 1;
    // the original rows from `j` down have been examined
    ghost var j: nat := n;
    assert arena == Partial(a, n, 0);
    while y > 0
      invariant Scanning(a, j, y, arena, rowCount, clearedRows)
      decreases j + y
    {
      ScanRow(a, j, y, arena, rowCount, clearedRows);
      var full := RowIsFull(arena[y]);
      if full {
        ScanRemove(a, j, y, arena, rowCount, clearedRows);
        // `++y` then the loop's `--y`: the same index is examined again,
        // and the incremented index is what gets recorded
        arena, clearedRows, rowCount := RemoveRow(arena, y), clearedRows + [y + 1], rowCount + 1;
        j := j - 1;
      } else {
        ScanKeep(a, j, y, arena, rowCount, clearedRows);
        y := y - 1;
        j := if j > 0 then j - 1 else 0;
      }
    }
    ScanEnds(a, j, y, arena, rowCount, clearedRows);
  }

  /** The sweep keeps a board a board: same number of rows, each of Width
      cells holding 0 or a colour id. */
  lemma {:induction false} SweptIsBoard(a: Grid)
    requires IsBoard(a)
    ensures IsBoard(Swept(a))
  {
    if SweepsTop(a) {
      var b := Swept(a);
      var c := FullCount(a);
      forall r | 0 <= r < Height
        ensures |b[r]| == Width && forall x :: 0 <= x < Width ==> 0 <= b[r][x] <= 7
      {
        if r < c {
          assert b[r] == ZeroRow(Width);
        } else {
          assert b[r] == NonFull(a)[r - c];
          NonFullKept(a);
          assert b[r] in a;
        }
      }
    }
  }

  /** After the sweep no row below the top is full; when a row was
      removed, no row at all is full. */
  lemma {:induction false} NoFullRowLeft(a: Grid)
    requires forall r :: 0 <= r < |a| ==> |a[r]| == Width
    ensures |Swept(a)| == |a|
    ensures forall r :: 1 <= r < |a| ==> !Full(Swept(a)[r])
    ensures Cleared(a) > 0 ==> forall r :: 0 <= r < |a| ==> !Full(Swept(a)[r])
  {
    var b := Swept(a);
    if SweepsTop(a) {
      var c := FullCount(a);
      forall r | 0 <= r < |a|
        ensures !Full(b[r])
      {
        if r < c {
          assert b[r] == ZeroRow(Width);
          assert b[r][0] == 0;
        } else {
          assert b[r] == NonFull(a)[r - c];
          NonFullKept(a);
        }
      }
    } else if |a| > 0 {
      NoneFull(a[1..]);
      forall r | 1 <= r < |a|
        ensures !Full(b[r])
      {
        assert b[r] == a[1..][r - 1];
      }
    }
  }

  /** Sweeping twice is sweeping once: the second sweep finds nothing to
      remove. */
  lemma {:induction false} SweepIdempotent(a: Grid)
    requires forall r :: 0 <= r < |a| ==> |a[r]| == Width
    ensures Swept(Swept(a)) == Swept(a) && Cleared(Swept(a)) == 0
  {
    var b := Swept(a);
    NoFullRowLeft(a);
    if |b| > 0 {
      NoneFull(b[1..]);
      assert forall i :: 0 <= i < |b[1..]| ==> !Full(b[1..][i]) by {
        forall i | 0 <= i < |b[1..]|
          ensures !Full(b[1..][i])
        {
          assert b[1..][i] == b[i + 1];
        }
      }
    }
  }

  /** A full top row is removed along with the others once some row below
      it is full, so the top row is only ever left in place when nothing
      below it is full. */
  lemma {:induction false} TopRowRemovedWithOthers(a: Grid)
    requires |a| > 0 && Full(a[0])
    ensures SweepsTop(a) ==> Cleared(a) == FullCount(a[1..]) + 1
    ensures !SweepsTop(a) ==> Cleared(a) == 0 && Swept(a) == a
  {
    FullCountStep(a, 0);
    assert a[0..] == a;
  }

  /** When no row from `lo` up to `k` (exclusive) is full, those rows add
      nothing to the record. */
  lemma {:induction false} RecordedSkips(a: Grid, lo: nat, k: nat)
    requires lo <= k <= |a|
    requires forall r :: lo <= r < k ==> !Full(a[r])
    ensures RecordedFrom(a, lo) == RecordedFrom(a, k)
    decreases k - lo
  {
    if lo < k {
      RecordedSkips(a, lo + 1, k);
    }
  }

  /** The record holds one number per full row from `lo` down, each
      between `lo + 1` and the number of rows: the index a row is removed
      at, plus one, can be one past the last row. */
  lemma {:induction false} RecordedBounds(a: Grid, lo: nat)
    requires lo <= |a|
    ensures |RecordedFrom(a, lo)| == FullCount(a[lo..])
    ensures forall i :: 0 <= i < |RecordedFrom(a, lo)| ==> lo + 1 <= RecordedFrom(a, lo)[i] <= |a|
    decreases |a| - lo
  {
    if lo < |a| {
      RecordedBounds(a, lo + 1);
      FullCountStep(a, lo);
    }
  }

  /** Two adjacent full rows are recorded with the same number: after the
      lower one is removed, the upper one is examined at the same index. */
  lemma {:induction false} AdjacentRowsSameNumber(a: Grid, k: nat)
    requires k + 1 < |a| && Full(a[k]) && Full(a[k + 1])
    ensures var v := k + 2 + FullCount(a[k + 2..]);
      RecordedFrom(a, k) == RecordedFrom(a, k + 2) + [v, v]
  {
    FullCountStep(a, k + 1);
  }

  /** With a single full row `k`, one row is counted and every other row
      is kept, in order. */
  lemma {:induction false} OneFullRowCounts(a: Grid, k: nat)
    requires k < |a| && Full(a[k])
    requires forall r :: 0 <= r < |a| && r != k ==> !Full(a[r])
    ensures FullCount(a) == 1 && NonFull(a) == a[..k] + a[k + 1..]
  {
    var above, row, below := a[..k], [a[k]], a[k + 1..];
    assert a == above + (row + below);
    forall i | 0 <= i < |above|
      ensures !Full(above[i])
    {
      assert above[i] == a[i];
    }
    forall i | 0 <= i < |below|
      ensures !Full(below[i])
    {
      assert below[i] == a[k + 1 + i];
    }
    NoneFull(above);
    NoneFull(below);
    assert NonFull(row) == [] && FullCount(row) == 1 by {
      assert row[1..] == [];
    }
    NonFullAppend(row, below);
    assert NonFull(row + below) == below && FullCount(row + below) == 1;
    NonFullAppend(above, row + below);
  }

  /** With a single full row, found below the top, the sweep runs. */
  lemma {:induction false} OneFullRowSweepsTop(a: Grid, k: nat)
    requires 1 <= k < |a| && Full(a[k])
    requires forall r :: 0 <= r < |a| && r != k ==> !Full(a[r])
    ensures SweepsTop(a) && Cleared(a) == 1 && Swept(a) == ZeroRows(1) + a[..k] + a[k + 1..]
  {
    OneFullRowCounts(a, k);
    FullCountStep(a, 0);
    assert a[0..] == a;
  }

  /** With a single full row `k`, the record is `[k + 1]`. */
  lemma {:induction false} OneFullRowRecorded(a: Grid, k: nat)
    requires k < |a| && Full(a[k])
    requires forall r :: 0 <= r < |a| && r != k ==> !Full(a[r])
    ensures RecordedFrom(a, 0) == [k + 1]
  {
    NoneFull(a[k + 1..]);
    RecordedNone(a, k + 1);
    assert RecordedFrom(a, k) == [k + 1];
    RecordedSkips(a, 0, k);
  }

  /** A single full row `k` below the top is cut out and an empty row put
      on top, one row is counted, and the number recorded is `k + 1`. */
  lemma {:induction false} OneFullRow(a: Grid, k: nat)
    requires forall r :: 0 <= r < |a| ==> |a[r]| == Width
    requires 1 <= k < |a| && Full(a[k])
    requires forall r :: 0 <= r < |a| && r != k ==> !Full(a[r])
    ensures Swept(a) == RemoveRow(a, k) && Cleared(a) == 1 && Recorded(a) == [k + 1]
  {
    OneFullRowSweepsTop(a, k);
    OneFullRowRecorded(a, k);
    assert ZeroRows(1) == [ZeroRow(|a[k]|)];
  }
}
