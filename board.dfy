/**
 * The board: a GRID_HEIGHT x GRID_WIDTH grid of cells (row 0 at the top), the
 * legality test every move goes through, translation with rejection, hard
 * drop, and the specifications of locking a piece and of clearing full rows.
 */
module Board {
  import opened Catalog
  import opened Tetromino

  /** A grid cell: empty, or holding the colour of the piece that locked there. */
  datatype Cell = Empty | Filled(color: Color)

  type Row = seq<Cell>
  type Grid = seq<Row>

  /** The shape every grid of a session keeps. */
  predicate IsGrid(g: Grid)
  {
    |g| == GRID_HEIGHT && forall r :: 0 <= r < |g| ==> |g[r]| == GRID_WIDTH
  }

  function EmptyRow(): Row
  {
    seq(GRID_WIDTH, _ => Empty)
  }

  /** n empty rows. */
  function Blank(n: nat): Grid
  {
    seq(n, _ => EmptyRow())
  }

  function EmptyGrid(): Grid
  {
    Blank(GRID_HEIGHT)
  }

  /** Cell (r, c) is on the board and empty. */
  predicate Open(g: Grid, r: int, c: int)
    requires IsGrid(g)
  {
    0 <= c < GRID_WIDTH && 0 <= r < GRID_HEIGHT && g[r][c] == Empty
  }

  // ---------------------------------------------------------------------------
  // Legality

  /** The inner `every` of the legality test: entries dx.. of shape row dy. */
  function CellsFit(g: Grid, p: Piece, dy: nat, dx: nat): bool
    requires IsGrid(g) && p.y >= 0 && dy < |p.shape| && dx <= |p.shape[dy]|
    decreases |p.shape[dy]| - dx
  {
    dx == |p.shape[dy]| ||
    ((p.shape[dy][dx] == 0 ||
      (var x, y := p.x + dx, p.y + dy;
       x >= 0 && x < GRID_WIDTH && y < GRID_HEIGHT && g[y][x] == Empty)) &&
     CellsFit(g, p, dy, dx + 1))
  }

  /** The outer `every` of the legality test: shape rows dy.. */
  function RowsFit(g: Grid, p: Piece, dy: nat): bool
    requires IsGrid(g) && p.y >= 0 && dy <= |p.shape|
    decreases |p.shape| - dy
  {
    dy == |p.shape| || (CellsFit(g, p, dy, 0) && RowsFit(g, p, dy + 1))
  }

  /**
   * isValidMove: both `every` loops pass, which is exactly when every cell the
   * piece covers is on the board and empty. An anchor above the top row would
   * make the original index a missing row, so the test is only defined for
   * p.y >= 0.
   */
  function IsValidMove(g: Grid, p: Piece): (ok: bool)
    requires IsGrid(g) && p.y >= 0
    ensures ok <==> Fits(g, p)
  {
    RowsFitSpec(g, p, 0);
    assert forall i, j :: 0 <= i < |p.shape| && 0 <= j < |p.shape[i]| && p.shape[i][j] == 1 ==>
      Occupies(p, p.y + i, p.x + j);
    RowsFit(g, p, 0)
  }

  /** The piece fits: every board cell it covers is on the board and empty. */
  ghost predicate Fits(g: Grid, p: Piece)
    requires IsGrid(g)
  {
    forall r, c :: Occupies(p, r, c) ==> Open(g, r, c)
  }

  lemma {:induction false} CellsFitSpec(g: Grid, p: Piece, dy: nat, dx: nat)
    requires IsGrid(g) && p.y >= 0 && dy < |p.shape| && dx <= |p.shape[dy]|
    ensures CellsFit(g, p, dy, dx) <==>
      forall j :: dx <= j < |p.shape[dy]| && p.shape[dy][j] == 1 ==> Open(g, p.y + dy, p.x + j)
    decreases |p.shape[dy]| - dx
  {
    if dx < |p.shape[dy]| {
      CellsFitSpec(g, p, dy, dx + 1);
    }
  }

  lemma {:induction false} RowsFitSpec(g: Grid, p: Piece, dy: nat)
    requires IsGrid(g) && p.y >= 0 && dy <= |p.shape|
    ensures RowsFit(g, p, dy) <==>
      forall i, j :: dy <= i < |p.shape| && 0 <= j < |p.shape[i]| && p.shape[i][j] == 1 ==>
        Open(g, p.y + i, p.x + j)
    decreases |p.shape| - dy
  {
    if dy < |p.shape| {
      CellsFitSpec(g, p, dy, 0);
      RowsFitSpec(g, p, dy + 1);
    }
  }

  /** A legal piece lies inside the board. */
  lemma ValidInBounds(g: Grid, p: Piece)
    requires IsGrid(g) && p.y >= 0 && IsValidMove(g, p)
    ensures InBounds(p)
  {
  }

  /** A legal piece with an occupied cell has its anchor on a board row. */
  lemma ValidBelowTop(g: Grid, p: Piece)
    requires IsGrid(g) && p.y >= 0 && HasCell(p.shape) && IsValidMove(g, p)
    ensures p.y < GRID_HEIGHT
  {
    var i, j :| 0 <= i < |p.shape| && 0 <= j < |p.shape[i]| && p.shape[i][j] == 1;
    assert Occupies(p, p.y + i, p.x + j);
  }

  // ---------------------------------------------------------------------------
  // Translation and hard drop

  /**
   * Translation by (dx, dy): the shifted copy when it is legal, otherwise the
   * very piece passed in. Either way a legal piece stays legal.
   */
  function MoveTetromino(g: Grid, p: Piece, dx: int, dy: int): (q: Piece)
    requires IsGrid(g) && p.y + dy >= 0
    ensures IsValidMove(g, Shift(p, dx, dy)) ==> q == Shift(p, dx, dy)
    ensures !IsValidMove(g, Shift(p, dx, dy)) ==> q == p
    ensures p.y >= 0 && IsValidMove(g, p) ==> IsValidMove(g, q)
  {
    var moved := Shift(p, dx, dy);
    if IsValidMove(g, moved) then moved else p
  }

  /** The piece with its anchor row replaced. */
  function AtRow(p: Piece, row: int): Piece
  {
    p.(y := row)
  }

  /** Where a hard drop leaves p: pushed down while the next row down is legal. */
  function Dropped(g: Grid, p: Piece): Piece
    requires IsGrid(g) && p.y >= 0 && HasCell(p.shape)
    decreases GRID_HEIGHT - p.y
  {
    var below := AtRow(p, p.y + 1);
    if IsValidMove(g, below) then
      ValidBelowTop(g, below);
      Dropped(g, below)
    else
      p
  }

  /** The path of a hard drop: every row from just below the start down to the stop is legal. */
  lemma {:induction false} DroppedPath(g: Grid, p: Piece)
    requires IsGrid(g) && p.y >= 0 && HasCell(p.shape)
    ensures var d := Dropped(g, p);
      d == AtRow(p, d.y) && d.y >= p.y &&
      forall k :: p.y < k <= d.y ==> IsValidMove(g, AtRow(p, k))
    decreases GRID_HEIGHT - p.y
  {
    var below := AtRow(p, p.y + 1);
    if IsValidMove(g, below) {
      ValidBelowTop(g, below);
      DroppedPath(g, below);
      var d := Dropped(g, below);
      assert d == Dropped(g, p);
      forall k | p.y < k <= d.y
        ensures IsValidMove(g, AtRow(p, k))
      {
        assert AtRow(p, k) == AtRow(below, k);
      }
    }
  }

  /**
   * A hard drop changes only the row, never moves up, passes through legal
   * rows only, and stops at the first row from which one more step down is
   * illegal; a legal piece stays legal.
   */
  lemma {:induction false} DroppedSpec(g: Grid, p: Piece)
    requires IsGrid(g) && p.y >= 0 && HasCell(p.shape)
    ensures var d := Dropped(g, p);
      d == AtRow(p, d.y) && d.y >= p.y &&
      !IsValidMove(g, AtRow(d, d.y + 1)) &&
      (forall k :: p.y < k <= d.y ==> IsValidMove(g, AtRow(p, k))) &&
      (IsValidMove(g, p) ==> IsValidMove(g, d))
    decreases GRID_HEIGHT - p.y
  {
    DroppedPath(g, p);
    var below := AtRow(p, p.y + 1);
    if IsValidMove(g, below) {
      ValidBelowTop(g, below);
      DroppedSpec(g, below);
      assert Dropped(g, below) == Dropped(g, p);
    }
  }

  /** hardDrop: the loop that pushes the piece down one row at a time. */
  method HardDrop(g: Grid, piece: Piece) returns (d: Piece)
    requires IsGrid(g) && piece.y >= 0 && HasCell(piece.shape)
    ensures d == Dropped(g, piece)
  {
    d := piece;
    while IsValidMove(g, AtRow(d, d.y + 1))
      invariant d.y >= piece.y && HasCell(d.shape)
      invariant Dropped(g, d) == Dropped(g, piece)
      decreases GRID_HEIGHT - d.y
    {
      ValidBelowTop(g, AtRow(d, d.y + 1));
      d := AtRow(d, d.y + 1);
    }
  }

  // ---------------------------------------------------------------------------
  // Locking

  /** The grid after locking p: its colour on every covered cell, all else as before. */
  function Placed(g: Grid, p: Piece): (h: Grid)
    requires IsGrid(g) && InBounds(p)
    ensures IsGrid(h)
  {
    seq(GRID_HEIGHT, r requires 0 <= r < GRID_HEIGHT =>
      seq(GRID_WIDTH, c requires 0 <= c < GRID_WIDTH =>
        if Occupies(p, r, c) then Filled(p.color) else g[r][c]))
  }

  /**
   * Locking never empties a cell, and once a legal piece with an occupied cell
   * is locked, the same piece is no longer legal where it stands.
   */
  lemma PlacedBlocks(g: Grid, p: Piece)
    requires IsGrid(g) && p.y >= 0 && HasCell(p.shape) && IsValidMove(g, p)
    ensures InBounds(p)
    ensures forall r, c :: 0 <= r < GRID_HEIGHT && 0 <= c < GRID_WIDTH && g[r][c] != Empty ==>
      Placed(g, p)[r][c] != Empty
    ensures !IsValidMove(Placed(g, p), p)
  {
    ValidInBounds(g, p);
    var i, j :| 0 <= i < |p.shape| && 0 <= j < |p.shape[i]| && p.shape[i][j] == 1;
    assert Occupies(p, p.y + i, p.x + j);
  }

  // ---------------------------------------------------------------------------
  // Line clearing

  /** A row with no empty cell. */
  predicate IsFull(row: Row)
  {
    forall c :: 0 <= c < |row| ==> row[c] != Empty
  }

  /** The rows of g that are not full, in their original order. */
  function Kept(g: Grid): (k: Grid)
    ensures |k| <= |g|
    ensures forall row :: row in k ==> row in g && !IsFull(row)
  {
    if g == [] then []
    else
      var last := g[|g| - 1];
      Kept(g[..|g| - 1]) + (if IsFull(last) then [] else [last])
  }

  /** The number of full rows of g. */
  function FullCount(g: Grid): nat
  {
    if g == [] then 0
    else FullCount(g[..|g| - 1]) + (if IsFull(g[|g| - 1]) then 1 else 0)
  }

  /** One more row of g filtered: the prefix grows by one row. */
  lemma KeptStep(g: Grid, i: nat)
    requires i < |g|
    ensures Kept(g[..i + 1]) == Kept(g[..i]) + (if IsFull(g[i]) then [] else [g[i]])
    ensures FullCount(g[..i + 1]) == FullCount(g[..i]) + (if IsFull(g[i]) then 1 else 0)
  {
    assert g[..i + 1][..i] == g[..i];
  }

  /** One more empty row on top. */
  lemma BlankStep(n: nat, rest: Grid)
    ensures [EmptyRow()] + (Blank(n) + rest) == Blank(n + 1) + rest
  {
  }

  /** Every row is either kept or counted as full. */
  lemma {:induction false} KeptCount(g: Grid)
    ensures |Kept(g)| + FullCount(g) == |g|
  {
    if g != [] {
      KeptCount(g[..|g| - 1]);
    }
  }

  /** The grid after clearing: as many empty rows as were full, on top of the kept rows. */
  function Cleared(g: Grid): Grid
    requires IsGrid(g)
  {
    Blank(FullCount(g)) + Kept(g)
  }

  /** Filtering distributes over concatenation: kept rows keep their relative order. */
  lemma {:induction false} KeptAppend(a: Grid, b: Grid)
    ensures Kept(a + b) == Kept(a) + Kept(b)
    ensures FullCount(a + b) == FullCount(a) + FullCount(b)
    decreases |b|
  {
    if b == [] {
      assert a + b == a;
    } else {
      var b' := b[..|b| - 1];
      assert (a + b)[..|a + b| - 1] == a + b';
      KeptAppend(a, b');
    }
  }

  /** A grid with no full row is its own filter and counts no full row. */
  lemma {:induction false} KeptNoFull(g: Grid)
    requires forall i :: 0 <= i < |g| ==> !IsFull(g[i])
    ensures Kept(g) == g && FullCount(g) == 0
  {
    if g != [] {
      var front, last := g[..|g| - 1], g[|g| - 1];
      forall i | 0 <= i < |front|
        ensures !IsFull(front[i])
      {
        assert front[i] == g[i];
      }
      KeptNoFull(front);
      assert !IsFull(last);
      assert Kept(g) == Kept(front) + [last];
      assert front + [last] == g;
    }
  }

  /**
   * clearLines, as a whole: the number removed is the number of full rows, the
   * result is again a full-size grid, its first k rows are empty, the rest are
   * the non-full input rows in order, and no full row remains.
   */
  lemma ClearedSpec(g: Grid)
    requires IsGrid(g)
    ensures var h, k := Cleared(g), FullCount(g);
      IsGrid(h) && k <= GRID_HEIGHT &&
      (forall i :: 0 <= i < k ==> h[i] == EmptyRow()) &&
      h[k..] == Kept(g) &&
      (forall i :: 0 <= i < |h| ==> !IsFull(h[i]))
  {
    KeptCount(g);
    var h, k := Cleared(g), FullCount(g);
    forall i | 0 <= i < |h|
      ensures |h[i]| == GRID_WIDTH && !IsFull(h[i])
    {
      if i < k {
        assert h[i][0] == Empty;
      } else {
        assert h[i] in Kept(g);
      }
    }
    assert h[k..] == Kept(g);
  }

  /** Clearing keeps the grid full size. */
  lemma ClearedIsGrid(g: Grid)
    requires IsGrid(g)
    ensures IsGrid(Cleared(g))
  {
    ClearedSpec(g);
  }

  /** Clearing twice is clearing once: the second pass finds no full row. */
  lemma ClearIdempotent(g: Grid)
    requires IsGrid(g)
    ensures IsGrid(Cleared(g)) && FullCount(Cleared(g)) == 0
    ensures Cleared(Cleared(g)) == Cleared(g)
  {
    ClearedSpec(g);
    var h := Cleared(g);
    KeptNoFull(h);
    assert Blank(0) + h == h;
  }
}
