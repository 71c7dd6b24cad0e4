/**
 * The per-frame controller of the main loop (tetris/tetris.py lines
 * 116-162): the session state, key handling and the gravity tick.
 */
module Game {
  import opened Constants
  import opened ShapeLibrary
  import opened Playfield
  import opened Piece

  /** A key press, already decoded from the event queue. */
  datatype Key = Left | Right | Down | Up | Other

  /** Lives at the start of a game. */
  const START_LIVES: int := 3

  class Session {
    var grid: Grid
    var current: Tetromino
    var nextBlock: Tetromino
    var lives: int
    var fallTime: int
    var gameOver: bool

    /**
     * The session invariant: the board is ROWS x COLS and holds only
     * colours, the falling piece lies wholly on the board, the next piece
     * is as it was spawned, and the game is over exactly when no life is left.
     */
    ghost predicate Valid()
      reads this, current, nextBlock
    {
      current != nextBlock &&
      WellFormed(grid) && Painted(grid) &&
      current.OnBoard() && nextBlock.AtSpawn() &&
      0 <= lives <= START_LIVES && (gameOver <==> lives == 0)
    }

    /** A new game: an empty board, two fresh pieces, three lives, no time accumulated. */
    constructor (first: Pick, second: Pick)
      requires first.Valid() && second.Valid()
      ensures Valid() && fresh(current) && fresh(nextBlock)
      ensures current.Spawned(first) && nextBlock.Spawned(second)
      ensures grid == EmptyGrid() && lives == START_LIVES && fallTime == 0 && !gameOver
    {
      grid := EmptyGrid();
      current := new Tetromino(first);
      nextBlock := new Tetromino(second);
      lives := START_LIVES;
      fallTime := 0;
      gameOver := false;
    }

    /**
     * One key press. Left, right and down shift the piece by one cell and
     * up rotates it, each only when the new placement does not collide;
     * once the game is over no key has an effect. Only the falling piece
     * can change: the board, the next piece, the lives and the clock do not.
     */
    method HandleKey(key: Key)
      requires Valid()
      modifies current
      ensures Valid()
      ensures current.color == old(current.color)
      ensures gameOver ==> unchanged(current)
      ensures key == Other ==>
        current.shape == old(current.shape) && current.x == old(current.x) && current.y == old(current.y)
      ensures !gameOver && key == Left ==>
        current.shape == old(current.shape) && current.y == old(current.y) &&
        current.x == if Collides(grid, old(current.shape), old(current.x) - 1, old(current.y))
                     then old(current.x) else old(current.x) - 1
      ensures !gameOver && key == Right ==>
        current.shape == old(current.shape) && current.y == old(current.y) &&
        current.x == if Collides(grid, old(current.shape), old(current.x) + 1, old(current.y))
                     then old(current.x) else old(current.x) + 1
      ensures !gameOver && key == Down ==>
        current.shape == old(current.shape) && current.x == old(current.x) &&
        current.y == if Collides(grid, old(current.shape), old(current.x), old(current.y) + 1)
                     then old(current.y) else old(current.y) + 1
      ensures !gameOver && key == Up ==>
        current.x == old(current.x) && current.y == old(current.y) &&
        current.shape == if Collides(grid, Rotated(old(current.shape)), old(current.x), old(current.y))
                         then old(current.shape) else Rotated(old(current.shape))
    {
      if gameOver {
        return;
      }
      match key
      case Left => Shift(-1, 0);
      case Right => Shift(1, 0);
      case Down => Shift(0, 1);
      case Up => TryRotate();
      case Other =>
    }

    /** Moves the falling piece by (dx, dy) when the moved piece does not collide. */
    method Shift(dx: int, dy: int)
      requires Valid() && dy >= 0
      modifies current
      ensures Valid()
      ensures current.shape == old(current.shape) && current.color == old(current.color)
      ensures if Collides(grid, old(current.shape), old(current.x) + dx, old(current.y) + dy)
              then current.x == old(current.x) && current.y == old(current.y)
              else current.x == old(current.x) + dx && current.y == old(current.y) + dy
    {
      var hit := CheckCollision(grid, current.shape, current.x + dx, current.y + dy);
      if !hit {
        FreeIsInside(grid, current.shape, current.x + dx, current.y + dy);
        current.Move(dx, dy);
      }
    }

    /** Rotates the falling piece when the rotated shape does not collide at the same position. */
    method TryRotate()
      requires Valid()
      modifies current
      ensures Valid()
      ensures current.x == old(current.x) && current.y == old(current.y) && current.color == old(current.color)
      ensures current.shape == if Collides(grid, Rotated(old(current.shape)), old(current.x), old(current.y))
                               then old(current.shape) else Rotated(old(current.shape))
    {
      var rotated := Rotated(current.shape);
      var hit := CheckCollision(grid, rotated, current.x, current.y);
      if !hit {
        FreeIsInside(grid, rotated, current.x, current.y);
        current.Rotate();
      }
    }

    /**
     * The gravity tick. It acts only while the game runs and more than
     * FALL_DELAY ms have accumulated; it then restarts the clock and lets
     * the piece fall (see Fall).
     */
    method Gravity(spawn: Pick, respawn: Pick)
      requires Valid() && spawn.Valid() && respawn.Valid()
      modifies this, current
      ensures Valid()
      ensures old(gameOver) || old(fallTime) <= FALL_DELAY ==>
        grid == old(grid) && current == old(current) && nextBlock == old(nextBlock) &&
        lives == old(lives) && fallTime == old(fallTime) && gameOver == old(gameOver) &&
        unchanged(current)
      ensures !old(gameOver) && old(fallTime) > FALL_DELAY ==> fallTime == 0
      ensures (!old(gameOver) && old(fallTime) > FALL_DELAY &&
               !Collides(old(grid), old(current.shape), old(current.x), old(current.y) + 1)) ==>
        grid == old(grid) && current == old(current) && nextBlock == old(nextBlock) &&
        lives == old(lives) &&
        current.shape == old(current.shape) && current.color == old(current.color) &&
        current.x == old(current.x) && current.y == old(current.y) + 1
      ensures (!old(gameOver) && old(fallTime) > FALL_DELAY &&
               Collides(old(grid), old(current.shape), old(current.x), old(current.y) + 1)) ==>
        grid == ClearedGrid(Merged(old(grid), old(current.shape), old(current.x), old(current.y), old(current.color))) &&
        fresh(nextBlock) && nextBlock.Spawned(spawn) &&
        if Collides(grid, old(nextBlock.shape), old(nextBlock.x), old(nextBlock.y)) then
          lives == old(lives) - 1 &&
          (lives > 0 ==> fresh(current) && current.Spawned(respawn)) &&
          (lives == 0 ==> current == old(nextBlock))
        else
          lives == old(lives) && current == old(nextBlock)
    {
      if gameOver || fallTime <= FALL_DELAY {
        return;
      }
      fallTime := 0;
      Fall(spawn, respawn);
    }

    /**
     * One row of fall: a piece that can drop drops one row, and one that
     * cannot is locked (see Lock).
     */
    method Fall(spawn: Pick, respawn: Pick)
      requires Valid() && !gameOver && spawn.Valid() && respawn.Valid()
      modifies this, current
      ensures Valid() && fallTime == old(fallTime)
      ensures !Collides(old(grid), old(current.shape), old(current.x), old(current.y) + 1) ==>
        grid == old(grid) && current == old(current) && nextBlock == old(nextBlock) &&
        lives == old(lives) &&
        current.shape == old(current.shape) && current.color == old(current.color) &&
        current.x == old(current.x) && current.y == old(current.y) + 1
      ensures Collides(old(grid), old(current.shape), old(current.x), old(current.y) + 1) ==>
        grid == ClearedGrid(Merged(old(grid), old(current.shape), old(current.x), old(current.y), old(current.color))) &&
        fresh(nextBlock) && nextBlock.Spawned(spawn) &&
        if Collides(grid, old(nextBlock.shape), old(nextBlock.x), old(nextBlock.y)) then
          lives == old(lives) - 1 &&
          (lives > 0 ==> fresh(current) && current.Spawned(respawn)) &&
          (lives == 0 ==> current == old(nextBlock))
        else
          lives == old(lives) && current == old(nextBlock)
    {
      var hit := CheckCollision(grid, current.shape, current.x, current.y + 1);
      if !hit {
        FreeIsInside(grid, current.shape, current.x, current.y + 1);
        current.Move(0, 1);
      } else {
        Lock(spawn, respawn);
      }
    }

    /** Merges the falling piece into the board and clears the complete rows. */
    method Settle()
      requires Valid()
      modifies this`grid
      ensures Valid()
      ensures grid == ClearedGrid(Merged(old(grid), current.shape, current.x, current.y, current.color))
    {
      LockKeepsBoard(grid, current.shape, current.x, current.y, current.color);
      var merged := Merge(grid, current.shape, current.x, current.y, current.color);
      var cleared;
      grid, cleared := ClearLines(merged);
    }

    /** The next piece becomes the falling piece and a fresh next piece is drawn from `spawn`. */
    method Promote(spawn: Pick)
      requires Valid() && spawn.Valid()
      modifies this`current, this`nextBlock
      ensures Valid() && current == old(nextBlock) && current.AtSpawn()
      ensures fresh(nextBlock) && nextBlock.Spawned(spawn)
    {
      current := nextBlock;
      nextBlock := new Tetromino(spawn);
      current.AtSpawnOnBoard();
    }

    /**
     * A falling piece that collides where it stands costs a life; while
     * lives remain it is replaced by a fresh piece drawn from `respawn`,
     * otherwise the game is over.
     */
    method Lockout(respawn: Pick)
      requires Valid() && !gameOver && respawn.Valid()
      modifies this`current, this`lives, this`gameOver
      ensures Valid()
      ensures Collides(grid, old(current.shape), old(current.x), old(current.y)) ==>
        lives == old(lives) - 1 &&
        (lives > 0 ==> fresh(current) && current.Spawned(respawn)) &&
        (lives == 0 ==> current == old(current))
      ensures !Collides(grid, old(current.shape), old(current.x), old(current.y)) ==>
        lives == old(lives) && current == old(current)
    {
      var hit := CheckCollision(grid, current.shape, current.x, current.y);
      if hit {
        lives := lives - 1;
        if lives > 0 {
          current := new Tetromino(respawn);
        } else {
          gameOver := true;
        }
      }
    }

    /**
     * Lock-in: the falling piece is merged into the board and complete
     * rows are cleared, the next piece takes its place with a fresh next
     * piece behind it, and a promoted piece that collides where it appears
     * costs a life (see Lockout).
     */
    method Lock(spawn: Pick, respawn: Pick)
      requires Valid() && !gameOver && spawn.Valid() && respawn.Valid()
      modifies this
      ensures Valid() && fallTime == old(fallTime)
      ensures grid == ClearedGrid(Merged(old(grid), old(current.shape), old(current.x), old(current.y), old(current.color)))
      ensures fresh(nextBlock) && nextBlock.Spawned(spawn)
      ensures Collides(grid, old(nextBlock.shape), old(nextBlock.x), old(nextBlock.y)) ==>
        lives == old(lives) - 1 &&
        (lives > 0 ==> fresh(current) && current.Spawned(respawn)) &&
        (lives == 0 ==> current == old(nextBlock))
      ensures !Collides(grid, old(nextBlock.shape), old(nextBlock.x), old(nextBlock.y)) ==>
        lives == old(lives) && current == old(nextBlock)
    {
      Settle();
      Promote(spawn);
      Lockout(respawn);
    }

    /**
     * One pass of the main loop: dt ms of frame time are added to the
     * clock, the key presses are handled in order, then gravity acts.
     * Lives never grow, and a finished game stays as it is.
     */
    method Frame(dt: int, keys: seq<Key>, spawn: Pick, respawn: Pick)
      requires Valid() && spawn.Valid() && respawn.Valid()
      modifies this, current
      ensures Valid()
      ensures lives <= old(lives) && (old(gameOver) ==> gameOver)
      ensures fallTime == if !old(gameOver) && old(fallTime) + dt > FALL_DELAY then 0 else old(fallTime) + dt
      ensures old(gameOver) ==>
        grid == old(grid) && current == old(current) && nextBlock == old(nextBlock) &&
        lives == old(lives) && fallTime == old(fallTime) + dt && unchanged(current)
    {
      fallTime := fallTime + dt;
      for i := 0 to |keys|
        invariant Valid()
        invariant grid == old(grid) && current == old(current) && nextBlock == old(nextBlock)
        invariant lives == old(lives) && gameOver == old(gameOver) && fallTime == old(fallTime) + dt
        invariant old(gameOver) ==> unchanged(current)
      {
        HandleKey(keys[i]);
      }
      Gravity(spawn, respawn);
    }
  }
}
