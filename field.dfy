/** The playfield: a fixed 12-by-20 grid of cell values (script.js
    `createMatrix`, the `arena` global), the collision test `collide` and
    the cell writes of `merge`. */
module Field {
  import opened Pieces

  const Width: int := 12
  const Height: int := 20

  /** The rows all have the field's width and there are `Height` of them. */
  ghost predicate WellFormed(a: Matrix) {
    |a| == Height && forall r :: 0 <= r < |a| ==> |a[r]| == Width
  }

  function Zeros(w: nat): (row: seq<int>)
    ensures |row| == w && forall c :: 0 <= c < w ==> row[c] == 0
  {
    seq(w, _ => 0)
  }

  /** `h` rows of `w` zeros, pushed one at a time as `createMatrix` does. */
  method CreateMatrix(w: nat, h: nat) returns (m: Matrix)
    ensures |m| == h
    ensures forall r :: 0 <= r < h ==> |m[r]| == w
    ensures forall r, c :: 0 <= r < h && 0 <= c < w ==> m[r][c] == 0
  {
    m := [];
    var left := h;
    while left > 0
      invariant 0 <= left <= h && |m| == h - left
      invariant forall r :: 0 <= r < |m| ==> m[r] == Zeros(w)
    {
      m := m + [Zeros(w)];
      left := left - 1;
    }
  }

  /** Every cell of the field is zero. */
  ghost predicate Empty(a: Matrix) {
    forall r, c :: 0 <= r < |a| && 0 <= c < |a[r]| ==> a[r][c] == 0
  }

  /** A field position that a piece cell cannot occupy: one outside the
      rows or columns (an `undefined` lookup), or a non-zero cell. */
  ghost predicate Blocked(a: Matrix, r: int, c: int) {
    !(0 <= r < |a| && 0 <= c < |a[r]|) || a[r][c] != 0
  }

  /** Some non-zero cell of `m`, placed with its top-left corner at column
      `x`, row `y`, lands on a blocked position. */
  ghost predicate Collides(a: Matrix, m: Matrix, x: int, y: int) {
    exists i, j :: 0 <= i < |m| && 0 <= j < |m[i]| && m[i][j] != 0 && Blocked(a, y + i, x + j)
  }

  /** Every non-zero cell of the placed piece is inside the field. */
  ghost predicate InBounds(a: Matrix, m: Matrix, x: int, y: int) {
    forall i, j :: 0 <= i < |m| && 0 <= j < |m[i]| && m[i][j] != 0 ==>
      0 <= y + i < |a| && 0 <= x + j < |a[y + i]|
  }

  /** Scans the piece row by row and stops at the first blocked cell, as
      `collide` does. */
  method Collide(a: Matrix, m: Matrix, x: int, y: int) returns (hit: bool)
    ensures hit <==> Collides(a, m, x, y)
  {
    for i := 0 to |m|
      invariant forall i', j :: 0 <= i' < i && 0 <= j < |m[i']| && m[i'][j] != 0 ==> !Blocked(a, y + i', x + j)
    {
      for j := 0 to |m[i]|
        invariant forall j' :: 0 <= j' < j && m[i][j'] != 0 ==> !Blocked(a, y + i, x + j')
      {
        if m[i][j] != 0 && !(0 <= y + i < |a| && 0 <= x + j < |a[y + i]| && a[y + i][x + j] == 0) {
          return true;
        }
      }
    }
    return false;
  }

  /** A piece that does not collide lies inside the field. */
  lemma NoCollisionInBounds(a: Matrix, m: Matrix, x: int, y: int)
    requires !Collides(a, m, x, y)
    ensures InBounds(a, m, x, y)
  {
    forall i, j | 0 <= i < |m| && 0 <= j < |m[i]| && m[i][j] != 0
      ensures 0 <= y + i < |a| && 0 <= x + j < |a[y + i]|
    {
      assert !Blocked(a, y + i, x + j);
    }
  }

  /** A piece with any occupied cell collides once its top row is at or
      below the bottom of the field, so dropping always stops. */
  lemma BelowFieldCollides(a: Matrix, m: Matrix, x: int, y: int)
    requires Occupied(m) != {}
    requires y >= |a|
    ensures Collides(a, m, x, y)
  {
    var p :| p in Occupied(m);
    assert Blocked(a, y + p.0, x + p.1);
  }

  /** The row `playerHardDrop` merges the piece at when it starts from row
      `y`: one above the first row, counting from `y`, where the piece
      collides. Below the field every position collides, which bounds the
      search. */
  ghost function DropRow(a: Matrix, m: Matrix, x: int, y: int): int
    decreases |a| - y
  {
    if y >= |a| || Collides(a, m, x, y) then y - 1 else DropRow(a, m, x, y + 1)
  }

  /** The hard drop stops at the right row: the piece collides one row
      further down and collides at no row from the start down to it. */
  lemma {:induction false} DropRowLands(a: Matrix, m: Matrix, x: int, y: int)
    requires Occupied(m) != {}
    ensures y - 1 <= DropRow(a, m, x, y)
    ensures Collides(a, m, x, DropRow(a, m, x, y) + 1)
    ensures forall r :: y <= r <= DropRow(a, m, x, y) ==> !Collides(a, m, x, r)
    decreases |a| - y
  {
    if y >= |a| {
      BelowFieldCollides(a, m, x, y);
    } else if !Collides(a, m, x, y) {
      DropRowLands(a, m, x, y + 1);
    }
  }

  /** Some non-zero cell of the piece placed at row `y` is above row 0,
      where `merge` looks up a row that does not exist and throws. */
  ghost predicate AboveField(m: Matrix, y: int) {
    exists i, j :: 0 <= i < |m| && 0 <= j < |m[i]| && m[i][j] != 0 && y + i < 0
  }

  /** Every non-zero cell of the placed piece is in a column of the field
      and not below its last row: what `merge` needs to write only cells of
      the field, once no cell is above it. */
  ghost predicate Fits(m: Matrix, x: int, y: int) {
    forall i, j :: 0 <= i < |m| && 0 <= j < |m[i]| && m[i][j] != 0 ==>
      0 <= x + j < Width && y + i < Height
  }

  /** A piece inside the field fits and has no cell above it; one row
      higher it still fits. */
  lemma InBoundsFits(a: Matrix, m: Matrix, x: int, y: int)
    requires WellFormed(a) && InBounds(a, m, x, y)
    ensures Fits(m, x, y) && Fits(m, x, y - 1) && !AboveField(m, y)
  {
  }

  /** A piece that fits and has no cell above the field is inside it. */
  lemma FitsInBounds(a: Matrix, m: Matrix, x: int, y: int)
    requires WellFormed(a) && Fits(m, x, y) && !AboveField(m, y)
    ensures InBounds(a, m, x, y)
  {
  }

  /** From a position inside the field the hard drop stops at most one row
      higher, at a row where the piece still fits; a cell of it can end up
      above the field only when the piece collided where it started. */
  lemma HardDropFits(a: Matrix, m: Matrix, x: int, y: int)
    requires WellFormed(a) && InBounds(a, m, x, y) && Occupied(m) != {}
    ensures y - 1 <= DropRow(a, m, x, y)
    ensures Fits(m, x, DropRow(a, m, x, y))
    ensures AboveField(m, DropRow(a, m, x, y)) ==> Collides(a, m, x, y) && DropRow(a, m, x, y) == y - 1
  {
    DropRowLands(a, m, x, y);
    var row := DropRow(a, m, x, y);
    if row >= y {
      NoCollisionInBounds(a, m, x, row);
      InBoundsFits(a, m, x, row);
    } else {
      InBoundsFits(a, m, x, y);
    }
  }

  /** Whether field cell (r, c) is covered by piece cell (r - y, c - x) and
      that cell is non-zero. */
  ghost predicate Covers(m: Matrix, x: int, y: int, r: int, c: int) {
    0 <= r - y < |m| && 0 <= c - x < |m[r - y]| && m[r - y][c - x] != 0
  }

  /** The field after `merge`: each covered cell takes the piece's value,
      every other cell keeps its own. */
  ghost function Merged(a: Matrix, m: Matrix, x: int, y: int): (b: Matrix)
    ensures |b| == |a| && forall r :: 0 <= r < |a| ==> |b[r]| == |a[r]|
  {
    seq(|a|, r requires 0 <= r < |a| =>
      seq(|a[r]|, c requires 0 <= c < |a[r]| =>
        if Covers(m, x, y, r, c) then m[r - y][c - x] else a[r][c]))
  }

  /** Whether piece cell (i, j) comes before cell (i0, j0) in the row by
      row order in which `merge` visits the piece. */
  ghost predicate Before(i: int, j: int, i0: int, j0: int) {
    i < i0 || (i == i0 && j < j0)
  }

  /** Cell (r, c) once `merge` has written the piece cells before (i0, j0). */
  ghost function MergedCell(a: Matrix, m: Matrix, x: int, y: int, r: int, c: int, i0: int, j0: int): int
    requires 0 <= r < |a| && 0 <= c < |a[r]|
  {
    if Covers(m, x, y, r, c) && Before(r - y, c - x, i0, j0) then m[r - y][c - x] else a[r][c]
  }

  /** A merged piece is part of the field: every cell it covered is now
      occupied with its value, every cell occupied before stays occupied,
      and the piece now collides where it was merged. */
  lemma MergeOccupies(a: Matrix, m: Matrix, x: int, y: int)
    requires InBounds(a, m, x, y)
    requires Occupied(m) != {}
    ensures forall i, j :: 0 <= i < |m| && 0 <= j < |m[i]| && m[i][j] != 0 ==>
      Merged(a, m, x, y)[y + i][x + j] == m[i][j]
    ensures forall r, c :: 0 <= r < |a| && 0 <= c < |a[r]| && a[r][c] != 0 ==> Merged(a, m, x, y)[r][c] != 0
    ensures Collides(Merged(a, m, x, y), m, x, y)
  {
    var b := Merged(a, m, x, y);
    forall i, j | 0 <= i < |m| && 0 <= j < |m[i]| && m[i][j] != 0
      ensures b[y + i][x + j] == m[i][j]
    {
      assert Covers(m, x, y, y + i, x + j);
    }
    var p :| p in Occupied(m);
    assert b[y + p.0][x + p.1] != 0;
    assert Blocked(b, y + p.0, x + p.1);
  }

  /** Whether a piece lies inside the field depends only on the field's
      dimensions. */
  lemma InBoundsSameShape(a: Matrix, b: Matrix, m: Matrix, x: int, y: int)
    requires WellFormed(a) && WellFormed(b)
    requires InBounds(a, m, x, y)
    ensures InBounds(b, m, x, y)
  {
  }
}
