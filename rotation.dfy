/** In-place quarter-turn rotation of a square shape matrix (script.js
    `rotate`): a transpose across the main diagonal followed by a reversal of
    every row (clockwise) or of the row order (counter-clockwise). */
module Rotation {
  import opened Pieces

  function Reversed<T>(s: seq<T>): (r: seq<T>)
    ensures |r| == |s|
  {
    seq(|s|, i requires 0 <= i < |s| => s[|s| - 1 - i])
  }

  /** The clockwise quarter turn: cell (i, j) comes from (n-1-j, i). */
  ghost function QuarterCW(m: Matrix): (r: Matrix)
    requires IsSquare(m)
    ensures |r| == |m| && IsSquare(r)
  {
    var n := |m|;
    seq(n, i requires 0 <= i < n => seq(n, j requires 0 <= j < n => m[n - 1 - j][i]))
  }

  /** The counter-clockwise quarter turn: cell (i, j) comes from (j, n-1-i). */
  ghost function QuarterCCW(m: Matrix): (r: Matrix)
    requires IsSquare(m)
    ensures |r| == |m| && IsSquare(r)
  {
    var n := |m|;
    seq(n, i requires 0 <= i < n => seq(n, j requires 0 <= j < n => m[j][n - 1 - i]))
  }

  /** The turn `rotate(m, dir)` performs: clockwise for a positive
      direction, counter-clockwise otherwise. */
  ghost function Rotated(m: Matrix, dir: int): (r: Matrix)
    requires IsSquare(m)
    ensures |r| == |m| && IsSquare(r)
  {
    if dir > 0 then QuarterCW(m) else QuarterCCW(m)
  }

  /** Whether the transpose loop has swapped cell (i, j) once it reaches
      column x of row y. */
  predicate SwappedBy(i: int, j: int, x: int, y: int) {
    (i < y && j < y) || (i == y && j < x) || (j == y && i < x)
  }

  /** Rotates `matrix` by swapping cells across the diagonal and then
      reversing rows or the row order, step by step as the game does. */
  method Rotate(matrix: Matrix, dir: int) returns (r: Matrix)
    requires IsSquare(matrix)
    ensures r == Rotated(matrix, dir)
  {
    var n := |matrix|;
    r := matrix;
    for y := 0 to n
      invariant |r| == n && IsSquare(r)
      invariant forall i, j :: 0 <= i < n && 0 <= j < n && SwappedBy(i, j, 0, y) ==> r[i][j] == matrix[j][i]
      invariant forall i, j :: 0 <= i < n && 0 <= j < n && !SwappedBy(i, j, 0, y) ==> r[i][j] == matrix[i][j]
    {
      for x := 0 to y
        invariant |r| == n && IsSquare(r)
        invariant forall i, j :: 0 <= i < n && 0 <= j < n && SwappedBy(i, j, x, y) ==> r[i][j] == matrix[j][i]
        invariant forall i, j :: 0 <= i < n && 0 <= j < n && !SwappedBy(i, j, x, y) ==> r[i][j] == matrix[i][j]
      {
        var a, b := r[y][x], r[x][y];
        r := r[x := r[x][y := a]];
        r := r[y := r[y][x := b]];
      }
    }
    ghost var t := r;
    if dir > 0 {
      for y := 0 to n
        invariant |r| == n
        invariant forall i :: 0 <= i < y ==> r[i] == Reversed(t[i])
        invariant forall i :: y <= i < n ==> r[i] == t[i]
      {
        r := r[y := Reversed(r[y])];
      }
      forall i | 0 <= i < n ensures r[i] == QuarterCW(matrix)[i] {
      }
    } else {
      r := Reversed(r);
      forall i | 0 <= i < n ensures r[i] == QuarterCCW(matrix)[i] {
      }
    }
  }

  /** Four clockwise quarter turns, or four counter-clockwise ones, give
      back the original matrix. */
  lemma FourTurnsRestore(m: Matrix, dir: int)
    requires IsSquare(m)
    ensures Rotated(Rotated(Rotated(Rotated(m, dir), dir), dir), dir) == m
  {
    var n := |m|;
    var r1 := Rotated(m, dir);
    var r2 := Rotated(r1, dir);
    var r3 := Rotated(r2, dir);
    var r4 := Rotated(r3, dir);
    forall i | 0 <= i < n ensures r4[i] == m[i] {
      forall j | 0 <= j < n ensures r4[i][j] == m[i][j] {
        if dir > 0 {
          assert r4[i][j] == r3[n - 1 - j][i] == r2[n - 1 - i][n - 1 - j] == r1[j][n - 1 - i];
        } else {
          assert r4[i][j] == r3[j][n - 1 - i] == r2[n - 1 - i][n - 1 - j] == r1[n - 1 - j][i];
        }
      }
    }
  }

  /** A turn followed by the opposite turn gives back the original matrix,
      which is how a rejected rotation is undone. */
  lemma TurnBackRestores(m: Matrix, dir: int)
    requires IsSquare(m)
    requires dir == 1 || dir == -1
    ensures Rotated(Rotated(m, dir), -dir) == m
  {
    var n := |m|;
    var r := Rotated(Rotated(m, dir), -dir);
    forall i | 0 <= i < n ensures r[i] == m[i] {
      assert forall j :: 0 <= j < n ==> r[i][j] == m[i][j];
    }
  }

  /** Where an occupied cell (a, b) lands under a clockwise quarter turn of
      an n-by-n matrix. */
  function TurnCell(p: (int, int), n: int): (int, int) {
    (p.1, n - 1 - p.0)
  }

  ghost function TurnCells(s: set<(int, int)>, n: int): set<(int, int)> {
    set p | p in s :: TurnCell(p, n)
  }

  /** Turning cells is one-to-one, so it keeps their number. */
  lemma {:induction false} TurnCellsCount(s: set<(int, int)>, n: int)
    ensures |TurnCells(s, n)| == |s|
    decreases |s|
  {
    if s != {} {
      var p :| p in s;
      var rest := s - {p};
      TurnCellsCount(rest, n);
      assert TurnCells(s, n) == TurnCells(rest, n) + {TurnCell(p, n)};
      assert TurnCell(p, n) !in TurnCells(rest, n);
    }
  }

  lemma QuarterCWCells(m: Matrix)
    requires IsSquare(m)
    ensures Occupied(QuarterCW(m)) == TurnCells(Occupied(m), |m|)
  {
    var n := |m|;
    var r := QuarterCW(m);
    forall p | p in Occupied(r) ensures p in TurnCells(Occupied(m), n) {
      var q := (n - 1 - p.1, p.0);
      assert q in Occupied(m) && TurnCell(q, n) == p;
    }
    forall q | q in Occupied(m) ensures TurnCell(q, n) in Occupied(r) {
      var p := TurnCell(q, n);
      assert r[p.0][p.1] == m[q.0][q.1];
    }
  }

  /** A clockwise quarter turn of a piece is a piece of the same colour. */
  lemma QuarterCWKeepsPiece(m: Matrix, c: int)
    requires PieceShape(m, c)
    ensures PieceShape(QuarterCW(m), c)
  {
    QuarterCWCells(m);
    TurnCellsCount(Occupied(m), |m|);
  }

  /** A counter-clockwise quarter turn is three clockwise ones. */
  lemma QuarterCCWIsThreeCW(m: Matrix)
    requires IsSquare(m)
    ensures QuarterCCW(m) == QuarterCW(QuarterCW(QuarterCW(m)))
  {
    var n := |m|;
    var r1 := QuarterCW(m);
    var r2 := QuarterCW(r1);
    var r3 := QuarterCW(r2);
    var l := QuarterCCW(m);
    forall i | 0 <= i < n ensures l[i] == r3[i] {
      forall j | 0 <= j < n ensures l[i][j] == r3[i][j] {
        assert r3[i][j] == r2[n - 1 - j][i] == r1[n - 1 - i][n - 1 - j] == m[j][n - 1 - i];
      }
    }
  }

  /** Rotating a piece in either direction keeps it square, keeps its four
      cells and keeps its colour. */
  lemma RotationKeepsPiece(m: Matrix, c: int, dir: int)
    requires PieceShape(m, c)
    ensures PieceShape(Rotated(m, dir), c)
  {
    QuarterCWKeepsPiece(m, c);
    if dir <= 0 {
      QuarterCWKeepsPiece(QuarterCW(m), c);
      QuarterCWKeepsPiece(QuarterCW(QuarterCW(m)), c);
      QuarterCCWIsThreeCW(m);
    }
  }
}
