/** The piece catalog: the seven piece types, their colour values and their
    rotation-0 shape matrices (script.js `SHAPES`, `getPieceMatrix`). */
module Pieces {

  /** A shape matrix or a playfield: a list of rows of cell values, 0 = empty. */
  type Matrix = seq<seq<int>>

  /** The piece letters, in the order the random spawn indexes them. */
  const Shapes: string := "ILJOTSZ"

  /** A piece type is one of the letters of `Shapes`. */
  type Piece = c: char | c in Shapes witness 'I'

  /** The colour value every occupied cell of a piece carries. */
  function Color(t: Piece): (v: int)
    ensures 1 <= v <= 7
  {
    match t
    case 'T' => 1
    case 'O' => 2
    case 'L' => 3
    case 'J' => 4
    case 'I' => 5
    case 'S' => 6
    case 'Z' => 7
  }

  ghost predicate IsSquare(m: Matrix) {
    forall i :: 0 <= i < |m| ==> |m[i]| == |m|
  }

  /** The (row, column) positions of the non-zero cells of `m`. */
  ghost function Occupied(m: Matrix): set<(int, int)> {
    set i, j | 0 <= i < |m| && 0 <= j < |m[i]| && m[i][j] != 0 :: (i, j)
  }

  /** `m` is a well-formed piece of colour `c`: square, exactly four non-zero
      cells, and every non-zero cell holds `c`. */
  ghost predicate PieceShape(m: Matrix, c: int) {
    && IsSquare(m)
    && |Occupied(m)| == 4
    && forall i, j :: 0 <= i < |m| && 0 <= j < |m[i]| && m[i][j] != 0 ==> m[i][j] == c
  }

  /** A piece has an occupied cell. */
  lemma PieceHasCells(m: Matrix, c: int)
    requires PieceShape(m, c)
    ensures Occupied(m) != {}
  {
  }

  /** A fresh rotation-0 shape matrix for piece `t`. */
  function PieceMatrix(t: Piece): (m: Matrix)
    ensures IsSquare(m) && 2 <= |m| <= 4
    ensures forall i, j :: 0 <= i < |m| && 0 <= j < |m[i]| ==> m[i][j] == 0 || m[i][j] == Color(t)
  {
    match t
    case 'I' => [[0, 5, 0, 0], [0, 5, 0, 0], [0, 5, 0, 0], [0, 5, 0, 0]]
    case 'L' => [[0, 3, 0], [0, 3, 0], [0, 3, 3]]
    case 'J' => [[0, 4, 0], [0, 4, 0], [4, 4, 0]]
    case 'O' => [[2, 2], [2, 2]]
    case 'Z' => [[7, 7, 0], [0, 7, 7], [0, 0, 0]]
    case 'S' => [[0, 6, 6], [6, 6, 0], [0, 0, 0]]
    case 'T' => [[0, 1, 0], [1, 1, 1], [0, 0, 0]]
  }

  /** The listed occupied cells of each catalog matrix. */
  function CatalogCells(t: Piece): (cells: set<(int, int)>)
    ensures |cells| == 4
  {
    match t
    case 'I' => {(0, 1), (1, 1), (2, 1), (3, 1)}
    case 'L' => {(0, 1), (1, 1), (2, 1), (2, 2)}
    case 'J' => {(0, 1), (1, 1), (2, 0), (2, 1)}
    case 'O' => {(0, 0), (0, 1), (1, 0), (1, 1)}
    case 'Z' => {(0, 0), (0, 1), (1, 1), (1, 2)}
    case 'S' => {(0, 1), (0, 2), (1, 0), (1, 1)}
    case 'T' => {(0, 1), (1, 0), (1, 1), (1, 2)}
  }

  /** The occupied cells of each catalog matrix are the listed ones; the
      3-by-3 pieces and the others are taken separately to keep the case
      analysis small. */
  lemma CatalogCellsExact(t: Piece)
    ensures Occupied(PieceMatrix(t)) == CatalogCells(t)
  {
    if t in "LJZST" {
      ThreeByThreeCells(t);
    } else {
      var m, cells := PieceMatrix(t), CatalogCells(t);
      forall p | p in Occupied(m) ensures p in cells {
        var i, j := p.0, p.1;
        assert i == 0 || i == 1 || i == 2 || i == 3;
        assert j == 0 || j == 1 || j == 2 || j == 3;
      }
      forall p | p in cells ensures p in Occupied(m) {
        assert m[p.0][p.1] != 0;
      }
    }
  }

  lemma ThreeByThreeCells(t: Piece)
    requires t in "LJZST"
    ensures Occupied(PieceMatrix(t)) == CatalogCells(t)
  {
    var m, cells := PieceMatrix(t), CatalogCells(t);
    forall p | p in Occupied(m) ensures p in cells {
      var i, j := p.0, p.1;
      assert i == 0 || i == 1 || i == 2;
      assert j == 0 || j == 1 || j == 2;
    }
    forall p | p in cells ensures p in Occupied(m) {
      assert m[p.0][p.1] != 0;
    }
  }

  /** Every catalog matrix is a tetromino: four cells, one colour. */
  lemma CatalogIsTetromino(t: Piece)
    ensures PieceShape(PieceMatrix(t), Color(t))
  {
    CatalogCellsExact(t);
  }
}
