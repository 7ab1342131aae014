/**
 * The game session: the module-level state of the game (grid, active and next
 * piece, score, lines, level, drop timing, game-over flag) held by one object,
 * with the timed step, the key commands and the restart.
 */
module Game {
  import opened Catalog
  import opened Tetromino
  import opened Board

  /** The drop interval at level n: 1000 milliseconds scaled by 0.9 once per level. */
  function IntervalAt(n: nat): real
  {
    if n == 0 then 1000.0 else 0.9 * IntervalAt(n - 1)
  }

  /** The drop interval stays positive and shrinks strictly as the level rises. */
  lemma {:induction false} IntervalShrinks(n: nat)
    ensures 0.0 < IntervalAt(n + 1) < IntervalAt(n)
  {
    if n > 0 {
      IntervalShrinks(n - 1);
    }
  }

  // ---------------------------------------------------------------------------
  // Commands

  /** What a key press asks for. */
  datatype Command = Rotate | Down | Left | Right | Drop | Hold | Other

  /** The keydown switch: which command each key name selects. */
  function CommandOf(key: string): (cmd: Command)
    ensures cmd == Rotate <==> key in {"ArrowUp", "x", "Control", "z"}
    ensures cmd == Hold <==> key in {"Shift", "c"}
    ensures cmd == Down <==> key == "ArrowDown"
    ensures cmd == Left <==> key == "ArrowLeft"
    ensures cmd == Right <==> key == "ArrowRight"
    ensures cmd == Drop <==> key == " "
    ensures cmd == Other <==>
      key !in {"ArrowUp", "x", "Control", "z", "ArrowDown", "ArrowLeft", "ArrowRight", " ", "Shift", "c"}
  {
    if key == "ArrowUp" || key == "x" then Rotate
    else if key == "ArrowDown" then Down
    else if key == "ArrowLeft" then Left
    else if key == "ArrowRight" then Right
    else if key == " " then Drop
    else if key == "Shift" || key == "c" then Hold
    else if key == "Control" || key == "z" then Rotate
    else Other
  }

  /** The active piece after a command while the game runs. */
  function Respond(g: Grid, p: Piece, cmd: Command): (q: Piece)
    requires IsGrid(g) && WellFormed(p)
    ensures WellFormed(q)
    ensures q.kind == p.kind && q.color == p.color
  {
    match cmd
    case Rotate => RotateTetromino(p)
    case Down => MoveTetromino(g, p, 0, 1)
    case Left => MoveTetromino(g, p, -1, 0)
    case Right => MoveTetromino(g, p, 1, 0)
    case Drop => DroppedSpec(g, p); Dropped(g, p)
    case Hold => p
    case Other => p
  }

  /** Every command but rotation keeps a legal active piece legal. */
  lemma CommandKeepsValid(g: Grid, p: Piece, cmd: Command)
    requires IsGrid(g) && WellFormed(p) && IsValidMove(g, p) && cmd != Rotate
    ensures IsValidMove(g, Respond(g, p, cmd))
  {
    if cmd == Drop {
      DroppedSpec(g, p);
    }
  }

  /** Every command but rotation keeps the active piece inside the board. */
  lemma CommandKeepsInBounds(g: Grid, p: Piece, cmd: Command)
    requires IsGrid(g) && WellFormed(p) && InBounds(p) && cmd != Rotate
    ensures InBounds(Respond(g, p, cmd))
  {
    var q := Respond(g, p, cmd);
    if q != p {
      if cmd == Drop {
        DroppedSpec(g, p);
        assert q.y > p.y;
      }
      assert IsValidMove(g, q);
      ValidInBounds(g, q);
    }
  }

  /**
   * Rotation is not validated: a vertical I bar legal in the rightmost columns
   * of an empty board turns into a horizontal bar that sticks out of it.
   */
  lemma RotationCanLeaveBoard()
    ensures var p := Piece(I, [[1], [1], [1], [1]], Cyan, 8, 0);
      WellFormed(p) && IsValidMove(EmptyGrid(), p) &&
      !IsValidMove(EmptyGrid(), Respond(EmptyGrid(), p, Rotate)) &&
      !InBounds(Respond(EmptyGrid(), p, Rotate))
  {
    var p := Piece(I, [[1], [1], [1], [1]], Cyan, 8, 0);
    assert p.shape[0][0] == 1;
    var q := Respond(EmptyGrid(), p, Rotate);
    assert q.shape[0][3] == p.shape[0][0];
    assert Occupies(q, 0, 11);
  }

  /** Clearing a grid whose only full row is the bottom one moves every other row down by one. */
  lemma ClearBottomRow(g: Grid)
    requires IsGrid(g) && IsFull(g[|g| - 1])
    requires forall i :: 0 <= i < |g| - 1 ==> !IsFull(g[i])
    ensures FullCount(g) == 1 && Cleared(g) == [EmptyRow()] + g[..|g| - 1]
  {
    var front, last := g[..|g| - 1], g[|g| - 1];
    assert front + [last] == g;
    forall i | 0 <= i < |front|
      ensures !IsFull(front[i])
    {
      assert front[i] == g[i];
    }
    KeptNoFull(front);
    assert Kept([last]) == [] && FullCount([last]) == 1 by {
      assert [last][..0] == [];
    }
    KeptAppend(front, [last]);
    assert Kept(g) == front && FullCount(g) == 1;
    assert Blank(1) == [EmptyRow()];
  }

  /**
   * The legality of the promoted piece is decided before the full rows are
   * cleared: a spawned T that fits above a lone block in row 0 is covered by
   * that block once a full bottom row is cleared and row 0 slides down to row 1.
   */
  lemma LineClearCanCoverSpawn()
    ensures var top := seq(GRID_WIDTH, c => if c == 4 then Filled(Red) else Empty);
      var full := seq(GRID_WIDTH, _ => Filled(Red));
      var g := [top] + Blank(GRID_HEIGHT - 2) + [full];
      IsGrid(g) && IsGrid(Cleared(g)) && FullCount(g) == 1 &&
      IsValidMove(g, CreateTetromino(T)) && !IsValidMove(Cleared(g), CreateTetromino(T))
  {
    var top := seq(GRID_WIDTH, c => if c == 4 then Filled(Red) else Empty);
    var full := seq(GRID_WIDTH, _ => Filled(Red));
    var middle := Blank(GRID_HEIGHT - 2);
    var g := [top] + middle + [full];
    var p := CreateTetromino(T);
    assert forall r :: 0 < r < |g| - 1 ==> g[r] == middle[r - 1];
    assert top[0] == Empty;
    assert forall r :: 0 <= r < |g| - 1 ==> g[r][0] == Empty;
    ClearBottomRow(g);
    var h := Cleared(g);
    assert h[1] == top;
    assert Occupies(p, 1, 4);
  }

  // ---------------------------------------------------------------------------
  // Session

  class Session {
    var grid: Grid
    var activePiece: Piece
    var nextPiece: Piece
    var isGameOver: bool
    var dropInterval: real
    var lastDropTime: real
    var currentScore: nat
    var linesCleared: nat
    var level: nat

    /**
     * The session invariant: a full-size grid, a usable active piece, a next
     * piece fresh from spawning, 100 points per cleared line, at most one level
     * per ten lines, and a drop interval of 1000 * 0.9^level.
     */
    ghost predicate Valid()
      reads this
    {
      IsGrid(grid) && WellFormed(activePiece) && IsSpawn(nextPiece) &&
      currentScore == 100 * linesCleared && 10 * level <= linesCleared &&
      dropInterval == IntervalAt(level)
    }

    /** The state at game start, with the two sampled piece types. */
    ghost predicate IsStart(first: PieceType, second: PieceType)
      reads this
    {
      grid == EmptyGrid() && activePiece == CreateTetromino(first) &&
      nextPiece == CreateTetromino(second) && !isGameOver &&
      dropInterval == 1000.0 && lastDropTime == 0.0 &&
      currentScore == 0 && linesCleared == 0 && level == 0
    }

    constructor (first: PieceType, second: PieceType)
      ensures Valid() && IsStart(first, second)
    {
      grid := EmptyGrid();
      activePiece := CreateTetromino(first);
      nextPiece := CreateTetromino(second);
      isGameOver := false;
      dropInterval := 1000.0;
      lastDropTime := 0.0;
      currentScore := 0;
      linesCleared := 0;
      level := 0;
    }

    /** placePiece: writes the piece's colour into every cell it covers. */
    method PlacePiece(piece: Piece)
      requires IsGrid(grid) && InBounds(piece)
      modifies this`grid
      ensures grid == Placed(old(grid), piece)
      ensures forall r, c :: 0 <= r < GRID_HEIGHT && 0 <= c < GRID_WIDTH ==>
        grid[r][c] == if Occupies(piece, r, c) then Filled(piece.color) else old(grid)[r][c]
    {
      ghost var g0 := grid;
      var dy := 0;
      while dy < |piece.shape|
        invariant 0 <= dy <= |piece.shape|
        invariant IsGrid(grid)
        invariant forall r, c :: 0 <= r < GRID_HEIGHT && 0 <= c < GRID_WIDTH ==>
          grid[r][c] == if Occupies(piece, r, c) && r - piece.y < dy then Filled(piece.color) else g0[r][c]
      {
        var row := piece.shape[dy];
        var dx := 0;
        while dx < |row|
          invariant 0 <= dx <= |row|
          invariant IsGrid(grid)
          invariant forall r, c :: 0 <= r < GRID_HEIGHT && 0 <= c < GRID_WIDTH ==>
            grid[r][c] ==
              if Occupies(piece, r, c) && (r - piece.y < dy || (r - piece.y == dy && c - piece.x < dx))
              then Filled(piece.color) else g0[r][c]
        {
          if row[dx] == 1 {
            var x, y := piece.x + dx, piece.y + dy;
            assert Occupies(piece, y, x);
            grid := grid[y := grid[y][x := Filled(piece.color)]];
          }
          dx := dx + 1;
        }
        dy := dy + 1;
      }
      var h := Placed(g0, piece);
      forall r | 0 <= r < GRID_HEIGHT
        ensures grid[r] == h[r]
      {
      }
    }

    /** clearLines: drops the full rows, pads with empty rows on top, returns how many were dropped. */
    method ClearLines() returns (linesRemoved: nat)
      requires IsGrid(grid)
      modifies this`grid
      ensures linesRemoved == FullCount(old(grid))
      ensures grid == Cleared(old(grid))
    {
      var g := grid;
      var kept: Grid := [];
      linesRemoved := 0;
      var i := 0;
      while i < |g|
        invariant 0 <= i <= |g|
        invariant kept == Kept(g[..i]) && linesRemoved == FullCount(g[..i])
      {
        KeptStep(g, i);
        if IsFull(g[i]) {
          linesRemoved := linesRemoved + 1;
        } else {
          kept := kept + [g[i]];
        }
        i := i + 1;
      }
      assert g[..|g|] == g;
      KeptCount(g);
      var padded := kept;
      while |padded| < GRID_HEIGHT
        invariant |kept| <= |padded| <= GRID_HEIGHT
        invariant padded == Blank(|padded| - |kept|) + kept
      {
        var blanks := |padded| - |kept|;
        BlankStep(blanks, kept);
        padded := [EmptyRow()] + padded;
        assert |padded| - |kept| == blanks + 1;
      }
      grid := padded;
    }

    /**
     * The scoring part of update(time): 100 points and one line per cleared
     * row, then at most one level up, which also scales the drop interval by 0.9.
     */
    method AddLines(linesRemoved: nat)
      requires Valid()
      modifies this`currentScore, this`linesCleared, this`level, this`dropInterval
      ensures Valid()
      ensures currentScore == old(currentScore) + 100 * linesRemoved
      ensures linesCleared == old(linesCleared) + linesRemoved
      ensures if linesCleared >= (old(level) + 1) * 10
        then level == old(level) + 1 && dropInterval == old(dropInterval) * 0.9
        else level == old(level) && dropInterval == old(dropInterval)
    {
      currentScore := currentScore + linesRemoved * 100;
      linesCleared := linesCleared + linesRemoved;
      if linesCleared >= (level + 1) * 10 {
        level := level + 1;
        dropInterval := dropInterval * 0.9;
      }
    }

    /**
     * The lock branch of update(time): the active piece is written into the
     * grid, the next piece is promoted (the game is over if it does not fit
     * the grid as it stands after the lock), a piece of type spawn becomes the
     * next piece, full rows are cleared and scored. The clearing and scoring
     * also run when the game has just ended.
     */
    method LockActive(spawn: PieceType)
      requires Valid() && !isGameOver && InBounds(activePiece)
      modifies this`grid, this`activePiece, this`nextPiece, this`isGameOver
      modifies this`currentScore, this`linesCleared, this`level, this`dropInterval
      ensures Valid() && InBounds(activePiece)
      ensures var placed := Placed(old(grid), old(activePiece));
        var k := FullCount(placed);
        grid == Cleared(placed) &&
        activePiece == old(nextPiece) && nextPiece == CreateTetromino(spawn) &&
        isGameOver == !IsValidMove(placed, old(nextPiece)) &&
        currentScore == old(currentScore) + 100 * k &&
        linesCleared == old(linesCleared) + k &&
        (if linesCleared >= (old(level) + 1) * 10
         then level == old(level) + 1 && dropInterval == old(dropInterval) * 0.9
         else level == old(level) && dropInterval == old(dropInterval))
    {
      ClearedIsGrid(Placed(grid, activePiece));
      PlacePiece(activePiece);
      activePiece := nextPiece;
      nextPiece := CreateTetromino(spawn);
      var fits := IsValidMove(grid, activePiece);
      if !fits {
        isGameOver := true;
      }
      var linesRemoved := ClearLines();
      AddLines(linesRemoved);
    }

    /**
     * update(time): once more than dropInterval has passed since the last
     * drop, the active piece falls one row or, when it cannot, is locked
     * (LockActive); either way the drop time becomes time. Nothing happens
     * after game over.
     */
    method Update(time: real, spawn: PieceType)
      requires Valid()
      requires !isGameOver && time - lastDropTime > dropInterval ==> InBounds(activePiece)
      modifies this
      ensures Valid()
      ensures old(isGameOver) || time - old(lastDropTime) <= old(dropInterval) ==> unchanged(this)
      ensures !old(isGameOver) && time - old(lastDropTime) > old(dropInterval) ==>
        lastDropTime == time && InBounds(activePiece)
      ensures (!old(isGameOver) && time - old(lastDropTime) > old(dropInterval) &&
               IsValidMove(old(grid), Shift(old(activePiece), 0, 1))) ==>
          activePiece == Shift(old(activePiece), 0, 1) && grid == old(grid) &&
          nextPiece == old(nextPiece) && !isGameOver &&
          currentScore == old(currentScore) && linesCleared == old(linesCleared) &&
          level == old(level) && dropInterval == old(dropInterval)
      ensures (!old(isGameOver) && time - old(lastDropTime) > old(dropInterval) &&
               !IsValidMove(old(grid), Shift(old(activePiece), 0, 1))) ==>
          var placed := Placed(old(grid), old(activePiece));
          var k := FullCount(placed);
          grid == Cleared(placed) &&
          activePiece == old(nextPiece) && nextPiece == CreateTetromino(spawn) &&
          isGameOver == !IsValidMove(placed, old(nextPiece)) &&
          currentScore == old(currentScore) + 100 * k &&
          linesCleared == old(linesCleared) + k &&
          (if linesCleared >= (old(level) + 1) * 10
           then level == old(level) + 1 && dropInterval == old(dropInterval) * 0.9
           else level == old(level) && dropInterval == old(dropInterval))
    {
      if !isGameOver {
        if time - lastDropTime > dropInterval {
          var newPiece := MoveTetromino(grid, activePiece, 0, 1);
          if newPiece == activePiece {
            LockActive(spawn);
          } else {
            activePiece := newPiece;
            ValidInBounds(grid, activePiece);
          }
          lastDropTime := time;
        }
      }
    }

    /**
     * The keydown handler: while the game runs, the key's command replaces the
     * active piece; nothing else ever changes, and nothing at all after game over.
     */
    method KeyDown(key: string)
      requires Valid()
      modifies this`activePiece
      ensures Valid()
      ensures old(isGameOver) || CommandOf(key) in {Hold, Other} ==> unchanged(this)
      ensures !old(isGameOver) ==> activePiece == Respond(grid, old(activePiece), CommandOf(key))
      ensures CommandOf(key) != Rotate && IsValidMove(grid, old(activePiece)) ==> IsValidMove(grid, activePiece)
      ensures CommandOf(key) != Rotate && InBounds(old(activePiece)) ==> InBounds(activePiece)
    {
      if !isGameOver {
        ghost var p := activePiece;
        var cmd := CommandOf(key);
        match cmd {
          case Rotate =>
            activePiece := RotateTetromino(activePiece);
          case Down =>
            activePiece := MoveTetromino(grid, activePiece, 0, 1);
          case Left =>
            activePiece := MoveTetromino(grid, activePiece, -1, 0);
          case Right =>
            activePiece := MoveTetromino(grid, activePiece, 1, 0);
          case Drop =>
            activePiece := HardDrop(grid, activePiece);
          case Hold =>
          case Other =>
        }
        assert activePiece == Respond(grid, p, cmd);
        if cmd != Rotate && InBounds(p) {
          CommandKeepsInBounds(grid, p, cmd);
        }
        if cmd != Rotate && IsValidMove(grid, p) {
          CommandKeepsValid(grid, p, cmd);
        }
      }
    }

    /** The play button: restarts the game, but only once it is over. */
    method Reset(first: PieceType, second: PieceType)
      requires Valid()
      modifies this
      ensures Valid()
      ensures old(isGameOver) ==> IsStart(first, second)
      ensures !old(isGameOver) ==> unchanged(this)
    {
      if isGameOver {
        isGameOver := false;
        grid := EmptyGrid();
        activePiece := CreateTetromino(first);
        nextPiece := CreateTetromino(second);
        currentScore := 0;
        linesCleared := 0;
        level := 0;
        dropInterval := 1000.0;
        lastDropTime := 0.0;
      }
    }
  }
}
