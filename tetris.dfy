/**
 * The game object: the board, the falling and the next piece, the score and the
 * terminal flag, updated in place by its methods, each proved against the Game
 * functions that specify it.
 */
module TetrisGame {
  import opened Catalog
  import opened Pieces
  import opened Board
  import opened Game

  class Tetris {
    var grid: Grid
    var current: Piece
    var next: Piece
    var score: nat
    var gameOver: bool

    /** The object's fields as a Game state. */
    function Snapshot(): State
      reads this
    {
      State(grid, current, next, score, gameOver)
    }

    predicate Valid()
      reads this
    {
      Inv(Snapshot())
    }

    /** An empty board, two freshly drawn pieces, score 0, game running. */
    constructor (first: Choice, firstColor: Choice, second: Choice, secondColor: Choice)
      ensures Valid() && !gameOver
      ensures Snapshot() == Initial(first, firstColor, second, secondColor)
    {
      grid := EmptyGrid();
      current := NewPiece(first, firstColor);
      next := NewPiece(second, secondColor);
      gameOver := false;
      score := 0;
      InitialInv(first, firstColor, second, secondColor);
    }

    /** Whether the current piece, shifted by (dx, dy), lies on allowed cells. */
    method CanMove(dx: int, dy: int) returns (ok: bool)
      requires IsGrid(grid)
      ensures ok == Legal(grid, current, dx, dy)
    {
      var shape := current.shape;
      var y := 0;
      while y < |shape|
        invariant 0 <= y <= |shape|
        invariant forall r, c :: 0 <= r < y && 0 <= c < |shape[r]| && shape[r][c] != 0 ==>
          CellFree(grid, current.x + c + dx, current.y + r + dy)
      {
        var row := shape[y];
        var x := 0;
        while x < |row|
          invariant 0 <= x <= |row|
          invariant forall r, c :: 0 <= r < y && 0 <= c < |shape[r]| && shape[r][c] != 0 ==>
            CellFree(grid, current.x + c + dx, current.y + r + dy)
          invariant forall c :: 0 <= c < x && row[c] != 0 ==>
            CellFree(grid, current.x + c + dx, current.y + y + dy)
        {
          if row[x] != 0 {
            var newX := current.x + x + dx;
            var newY := current.y + y + dy;
            if newX < 0 || newX >= COLUMNS || newY >= ROWS || (newY >= 0 && grid[newY][newX] != EMPTY) {
              return false;
            }
          }
          x := x + 1;
        }
        y := y + 1;
      }
      return true;
    }

    /**
     * Rotate the current piece clockwise; if the turned piece is not legal where it
     * stands, search for a wall-kick.
     */
    method RotatePiece()
      requires IsGrid(grid) && IsShape(current.shape)
      modifies this
      ensures current == RotateOutcome(old(grid), old(current))
      ensures grid == old(grid) && next == old(next) && score == old(score) && gameOver == old(gameOver)
    {
      var originalShape := current.shape;
      var rotated := Rotate(originalShape);
      var originalX := current.x;
      current := current.(shape := rotated);
      var ok := CanMove(0, 0);
      if ok {
        return;
      }
      KickSearch(originalShape, originalX);
    }

    /**
     * The wall-kick search: try x offsets -w..w in ascending order, w the width of
     * the current (turned) shape; at the first legal one stop, and if there is none
     * restore the original shape and x.
     */
    method KickSearch(originalShape: Shape, originalX: int)
      requires IsGrid(grid) && |current.shape| > 0 && current.x == originalX
      modifies this
      ensures current == Kick(old(grid), old(current), old(current).(shape := originalShape))
      ensures grid == old(grid) && next == old(next) && score == old(score) && gameOver == old(gameOver)
    {
      ghost var turned := current;
      var w: int := |current.shape[0]|;
      for dx := -w to w + 1
        invariant grid == old(grid) && next == old(next) && score == old(score) && gameOver == old(gameOver)
        invariant current.shape == turned.shape && current.color == turned.color && current.y == turned.y
        invariant forall e :: -w <= e < dx ==> !Legal(grid, turned, e, 0)
      {
        current := current.(x := originalX + dx);
        assert current == turned.(x := turned.x + dx);
        LegalShift(grid, turned, dx);
        var ok := CanMove(0, 0);
        if ok {
          FirstKickLeast(grid, turned, -w, w, Some(dx));
          return;
        }
      }
      FirstKickLeast(grid, turned, -w, w, None);
      current := current.(shape := originalShape, x := originalX);
    }

    /** Write the piece's colour into every cell it occupies. */
    method MergePiece()
      requires IsGrid(grid) && Legal(grid, current, 0, 0) && current.y >= 0
      modifies this
      ensures grid == Merged(old(grid), current)
      ensures current == old(current) && next == old(next) && score == old(score) && gameOver == old(gameOver)
    {
      ghost var g0 := grid;
      var p := current;
      var shape := p.shape;
      var y := 0;
      while y < |shape|
        invariant 0 <= y <= |shape|
        invariant IsGrid(grid)
        invariant current == p && next == old(next) && score == old(score) && gameOver == old(gameOver)
        invariant forall r, c :: 0 <= r < ROWS && 0 <= c < COLUMNS ==>
          grid[r][c] == if Covers(p, r, c) && r - p.y < y then p.color else g0[r][c]
      {
        var row := shape[y];
        var x := 0;
        while x < |row|
          invariant 0 <= x <= |row|
          invariant IsGrid(grid)
          invariant current == p && next == old(next) && score == old(score) && gameOver == old(gameOver)
          invariant forall r, c :: 0 <= r < ROWS && 0 <= c < COLUMNS ==>
            grid[r][c] == if Covers(p, r, c) && (r - p.y < y || (r - p.y == y && c - p.x < x))
                          then p.color else g0[r][c]
        {
          if row[x] != 0 {
            LegalInside(g0, p, y, x);
            grid := grid[p.y + y := grid[p.y + y][p.x + x := p.color]];
          }
          x := x + 1;
        }
        y := y + 1;
      }
      forall r | 0 <= r < ROWS
        ensures grid[r] == Merged(g0, p)[r]
      {
        assert forall c :: 0 <= c < COLUMNS ==> grid[r][c] == Merged(g0, p)[r][c];
      }
    }

    /** Remove full rows, pad empty rows on top, and add their number to the score. */
    method ClearLines()
      requires IsGrid(grid)
      modifies this
      ensures grid == Board.ClearLines(old(grid)).grid
      ensures score == old(score) + Board.ClearLines(old(grid)).cleared
      ensures current == old(current) && next == old(next) && gameOver == old(gameOver)
    {
      var res := Board.ClearLines(grid);
      score := score + res.cleared;
      grid := res.grid;
    }

    /** One input event: quit raises the flag; a key moves or rotates the piece where that is legal. */
    method HandleInput(e: Event)
      requires IsGrid(grid) && IsShape(current.shape)
      modifies this
      ensures Snapshot() == HandleEvent(old(Snapshot()), e)
    {
      match e {
        case Quit =>
          gameOver := true;
        case Left =>
          var ok := CanMove(-1, 0);
          if ok {
            current := current.(x := current.x - 1);
          }
        case Right =>
          var ok := CanMove(1, 0);
          if ok {
            current := current.(x := current.x + 1);
          }
        case Down =>
          var ok := CanMove(0, 1);
          if ok {
            current := current.(y := current.y + 1);
          }
        case Up =>
          RotatePiece();
        case Other =>
      }
    }

    /** Gravity: drop the piece a row if it can fall, else lock it. */
    method ApplyGravity(shapeChoice: Choice, colorChoice: Choice)
      requires IsGrid(grid) && Legal(grid, current, 0, 0) && current.y >= 0
      modifies this
      ensures Snapshot() == Gravity(old(Snapshot()), shapeChoice, colorChoice)
    {
      var fall := CanMove(0, 1);
      if fall {
        current := current.(y := current.y + 1);
      } else {
        LockPiece(shapeChoice, colorChoice);
      }
    }

    /**
     * Merge the piece, clear lines, promote the next piece, draw a new next piece,
     * and raise the flag if the promoted piece is not legal where it stands.
     */
    method LockPiece(shapeChoice: Choice, colorChoice: Choice)
      requires IsGrid(grid) && Legal(grid, current, 0, 0) && current.y >= 0
      modifies this
      ensures Snapshot() == Lock(old(Snapshot()), shapeChoice, colorChoice)
    {
      ghost var res := Board.ClearLines(Merged(grid, current));
      MergePiece();
      ClearLines();
      assert grid == res.grid;
      current := next;
      next := NewPiece(shapeChoice, colorChoice);
      var ok := CanMove(0, 0);
      if !ok {
        gameOver := true;
      }
    }

    /** One iteration of the game loop: the frame's events in order, then gravity. */
    method Step(f: Frame)
      requires Valid() && !gameOver
      modifies this
      ensures Valid()
      ensures Snapshot() == StepState(old(Snapshot()), f)
    {
      ghost var s0 := Snapshot();
      for i := 0 to |f.events|
        invariant IsGrid(grid) && IsPiece(current) && Legal(grid, current, 0, 0)
        invariant AfterInput(Snapshot(), f.events[i..]) == AfterInput(s0, f.events)
      {
        HandleEventSpec(Snapshot(), f.events[i]);
        assert f.events[i..][1..] == f.events[i + 1..];
        HandleInput(f.events[i]);
      }
      ApplyGravity(f.shapeChoice, f.colorChoice);
      StepSpec(s0, f);
    }

    /** The game loop over a supply of frames: it stops when the game is over or the frames run out. */
    method Run(frames: seq<Frame>)
      requires Valid()
      modifies this
      ensures Valid()
      ensures Snapshot() == RunFrames(old(Snapshot()), frames)
    {
      var i := 0;
      while !gameOver && i < |frames|
        invariant 0 <= i <= |frames| && Valid()
        invariant RunFrames(Snapshot(), frames[i..]) == RunFrames(old(Snapshot()), frames)
      {
        assert frames[i..][1..] == frames[i + 1..];
        Step(frames[i]);
        i := i + 1;
      }
    }
  }
}
