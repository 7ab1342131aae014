/**
 * The piece catalog of the game: the seven tetromino types, their colours,
 * their spawn matrices and the board dimensions.
 */
module Catalog {

  const GRID_WIDTH: int := 10
  const GRID_HEIGHT: int := 20

  datatype PieceType = I | O | T | S | Z | J | L

  datatype Color = Cyan | Yellow | Purple | Green | Red | Blue | Orange

  /** A matrix entry: 1 for an occupied cell of a piece, 0 for a hole. */
  type Bit = b: int | 0 <= b <= 1

  type Matrix = seq<seq<Bit>>

  /** A non-empty rectangular matrix: every row as long as the first, which is non-empty. */
  predicate IsRect(m: Matrix)
  {
    |m| > 0 && |m[0]| > 0 && forall i :: 0 <= i < |m| ==> |m[i]| == |m[0]|
  }

  /** The matrix has at least one occupied entry. */
  predicate HasCell(m: Matrix)
  {
    exists i, j :: 0 <= i < |m| && 0 <= j < |m[i]| && m[i][j] == 1
  }

  /** Number of occupied entries of a matrix, row by row. */
  function CellCount(m: Matrix): nat
  {
    if m == [] then 0 else RowCount(m[0]) + CellCount(m[1..])
  }

  function RowCount(row: seq<Bit>): nat
  {
    if row == [] then 0 else row[0] + RowCount(row[1..])
  }

  /**
   * The colour table. Each colour belongs to exactly one type, so the colour
   * left in a grid cell tells which type locked there.
   */
  function ColorOf(t: PieceType): (c: Color)
    ensures c == Cyan <==> t == I
    ensures c == Yellow <==> t == O
    ensures c == Purple <==> t == T
    ensures c == Green <==> t == S
    ensures c == Red <==> t == Z
    ensures c == Blue <==> t == J
    ensures c == Orange <==> t == L
  {
    match t
    case I => Cyan
    case O => Yellow
    case T => Purple
    case S => Green
    case Z => Red
    case J => Blue
    case L => Orange
  }

  /**
   * Spawn orientation of each type. Every catalog matrix is rectangular, has
   * an occupied entry and is narrow and short enough to fit on the board at
   * the spawn column.
   */
  function ShapeOf(t: PieceType): (m: Matrix)
    ensures IsRect(m) && HasCell(m)
    ensures GRID_WIDTH / 2 - 1 + |m[0]| <= GRID_WIDTH && |m| <= GRID_HEIGHT
  {
    var m: Matrix := match t
      case I => [[1, 1, 1, 1]]
      case O => [[1, 1], [1, 1]]
      case T => [[0, 1, 0], [1, 1, 1]]
      case S => [[0, 1, 1], [1, 1, 0]]
      case Z => [[1, 1, 0], [0, 1, 1]]
      case J => [[1, 0, 0], [1, 1, 1]]
      case L => [[0, 0, 1], [1, 1, 1]];
    assert m[0][|m[0]| - 1] == 1 || m[1][|m[0]| - 1] == 1;
    m
  }

  /** Every catalog shape is a tetromino: exactly four occupied entries. */
  lemma CatalogTetrominoes(t: PieceType)
    ensures CellCount(ShapeOf(t)) == 4
  {
    var m := ShapeOf(t);
    if |m| == 1 {
      assert CellCount(m) == RowCount(m[0]) + CellCount(m[1..]);
    } else {
      assert CellCount(m[1..]) == RowCount(m[1]) + CellCount(m[2..]);
    }
  }
}
