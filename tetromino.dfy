/**
 * Pieces as immutable values: spawning from the catalog, clockwise rotation of
 * the shape matrix, and translation of the anchor.
 */
module Tetromino {
  import opened Catalog

  /** A piece: its type, current shape matrix, colour and top-left anchor (column x, row y). */
  datatype Piece = Piece(kind: PieceType, shape: Matrix, color: Color, x: int, y: int)

  /** The invariant every piece of a session keeps: anchor row never above the top, usable shape. */
  predicate WellFormed(p: Piece)
  {
    p.y >= 0 && IsRect(p.shape) && HasCell(p.shape)
  }

  /** Shape entry (r - p.y, c - p.x) of p is occupied: p covers board cell (row r, column c). */
  predicate Occupies(p: Piece, r: int, c: int)
  {
    0 <= r - p.y < |p.shape| && 0 <= c - p.x < |p.shape[r - p.y]| && p.shape[r - p.y][c - p.x] == 1
  }

  /** Every cell the piece covers lies on the board. */
  ghost predicate InBounds(p: Piece)
  {
    forall r, c :: Occupies(p, r, c) ==> 0 <= r < GRID_HEIGHT && 0 <= c < GRID_WIDTH
  }

  /** The piece a spawn places: catalog shape and colour, column floor(W/2) - 1, row 0. */
  function CreateTetromino(t: PieceType): (p: Piece)
    ensures p.kind == t && p.shape == ShapeOf(t) && p.color == ColorOf(t)
    ensures p.x == 4 && p.y == 0
    ensures WellFormed(p) && InBounds(p)
  {
    Piece(t, ShapeOf(t), ColorOf(t), GRID_WIDTH / 2 - 1, 0)
  }

  /** The piece is exactly what a spawn of its own type produces. */
  predicate IsSpawn(p: Piece)
  {
    p == CreateTetromino(p.kind)
  }

  function Reverse<A>(s: seq<A>): (r: seq<A>)
    ensures |r| == |s|
    ensures forall k :: 0 <= k < |s| ==> r[k] == s[|s| - 1 - k]
  {
    if s == [] then [] else Reverse(s[1..]) + [s[0]]
  }

  /** Column i of a rectangular matrix, top to bottom. */
  function Column(m: Matrix, i: nat): seq<Bit>
    requires IsRect(m) && i < |m[0]|
  {
    seq(|m|, j requires 0 <= j < |m| => m[j][i])
  }

  /**
   * Clockwise quarter turn: row i of the result is column i of m read bottom to
   * top, so an R x C matrix becomes C x R with entry (i, j) taken from (R-1-j, i).
   */
  function RotateClockwise(m: Matrix): (r: Matrix)
    requires IsRect(m)
    ensures IsRect(r) && |r| == |m[0]| && |r[0]| == |m|
    ensures forall i, j :: 0 <= i < |m[0]| && 0 <= j < |m| ==> r[i][j] == m[|m| - 1 - j][i]
  {
    seq(|m[0]|, i requires 0 <= i < |m[0]| => Reverse(Column(m, i)))
  }

  /** A half turn maps entry (i, j) to (R-1-i, C-1-j). */
  lemma RotateTwice(m: Matrix, h: Matrix)
    requires IsRect(m) && h == RotateClockwise(RotateClockwise(m))
    ensures IsRect(h) && |h| == |m| && |h[0]| == |m[0]|
    ensures forall i, j :: 0 <= i < |m| && 0 <= j < |m[0]| ==> h[i][j] == m[|m| - 1 - i][|m[0]| - 1 - j]
  {
    var q := RotateClockwise(m);
    forall i, j | 0 <= i < |m| && 0 <= j < |m[0]|
      ensures h[i][j] == m[|m| - 1 - i][|m[0]| - 1 - j]
    {
      assert h[i][j] == q[|q| - 1 - j][i];
    }
  }

  /** Two half turns compose to the identity on entries, hence on matrices. */
  lemma HalfTurnInvolution(m: Matrix, h: Matrix, f: Matrix)
    requires IsRect(m) && IsRect(h) && IsRect(f)
    requires |h| == |m| && |h[0]| == |m[0]| && |f| == |m| && |f[0]| == |m[0]|
    requires forall i, j :: 0 <= i < |m| && 0 <= j < |m[0]| ==> h[i][j] == m[|m| - 1 - i][|m[0]| - 1 - j]
    requires forall i, j :: 0 <= i < |m| && 0 <= j < |m[0]| ==> f[i][j] == h[|m| - 1 - i][|m[0]| - 1 - j]
    ensures f == m
  {
    forall i | 0 <= i < |m|
      ensures f[i] == m[i]
    {
      forall j | 0 <= j < |m[0]|
        ensures f[i][j] == m[i][j]
      {
        assert f[i][j] == h[|m| - 1 - i][|m[0]| - 1 - j];
      }
    }
  }

  /** Four quarter turns give back the original matrix. */
  lemma RotateFourTimes(m: Matrix)
    requires IsRect(m)
    ensures RotateClockwise(RotateClockwise(RotateClockwise(RotateClockwise(m)))) == m
  {
    var h := RotateClockwise(RotateClockwise(m));
    RotateTwice(m, h);
    var f := RotateClockwise(RotateClockwise(h));
    RotateTwice(h, f);
    HalfTurnInvolution(m, h, f);
  }

  /** A rotation keeps an occupied entry: entry (a, b) reappears at (b, R-1-a). */
  lemma RotateKeepsCell(m: Matrix)
    requires IsRect(m)
    ensures HasCell(m) ==> HasCell(RotateClockwise(m))
  {
    if HasCell(m) {
      var a, b :| 0 <= a < |m| && 0 <= b < |m[a]| && m[a][b] == 1;
      var r := RotateClockwise(m);
      assert r[b][|m| - 1 - a] == 1;
    }
  }

  /** The O square is a fixed point of rotation. */
  lemma RotateSquare()
    ensures RotateClockwise(ShapeOf(O)) == ShapeOf(O)
  {
    var r := RotateClockwise(ShapeOf(O));
    assert r[0] == [1, 1] && r[1] == [1, 1];
  }

  /** The I bar turns from a 1 x 4 row into a 4 x 1 column. */
  lemma RotateBar()
    ensures RotateClockwise(ShapeOf(I)) == [[1], [1], [1], [1]]
  {
    var v := RotateClockwise(ShapeOf(I));
    assert v[0] == [1] && v[1] == [1] && v[2] == [1] && v[3] == [1];
  }

  /** Two quarter turns bring the I bar back: it has only two orientations. */
  lemma RotateBarTwice()
    ensures RotateClockwise(RotateClockwise(ShapeOf(I))) == ShapeOf(I)
  {
    var m := ShapeOf(I);
    var h := RotateClockwise(RotateClockwise(m));
    RotateTwice(m, h);
    assert h[0] == m[0];
  }

  /** The rotated piece: same type, colour and anchor, shape turned clockwise; never validated. */
  function RotateTetromino(p: Piece): (q: Piece)
    requires IsRect(p.shape)
    ensures q.kind == p.kind && q.color == p.color && q.x == p.x && q.y == p.y
    ensures q.shape == RotateClockwise(p.shape)
    ensures WellFormed(p) ==> WellFormed(q)
  {
    RotateKeepsCell(p.shape);
    p.(shape := RotateClockwise(p.shape))
  }

  /** The copy of p with its anchor moved by (dx, dy). */
  function Shift(p: Piece, dx: int, dy: int): (q: Piece)
    ensures q.kind == p.kind && q.shape == p.shape && q.color == p.color
    ensures q.x == p.x + dx && q.y == p.y + dy
    ensures forall r, c :: Occupies(q, r, c) <==> Occupies(p, r - dy, c - dx)
  {
    p.(x := p.x + dx, y := p.y + dy)
  }
}
