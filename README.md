# Tetris game engine in Dafny

This project models the game-state engine of a small pygame Tetris
(`tetris/tetris.py`). The board is 15 columns by 25 rows: a 450 x 750
pixel window divided into blocks of 30 pixels. A cell holds 0 when it is
empty and a colour otherwise.

The model has five modules, one file each:

- `Constants` (`constants.dfy`): the board size and the fall delay of 500 ms.
- `ShapeLibrary` (`shapes.dfy`): the catalogue of eight 0/1 shape matrices.
  It includes the extra upside-down T. It also holds the eight colours, as
  tokens 1..8, and the clockwise rotation, with its geometry proved.
- `Playfield` (`playfield.dfy`): the grid and the three utility functions
  `check_collision`, `merge` and `clear_lines`. Each is an imperative
  method with loops. Each is proved against a specification function or
  predicate (`Collides`, `Merged`, `ClearedGrid`), and the properties of
  those specifications are proved as lemmas.
- `Piece` (`piece.dfy`): the `Tetromino` class, with its constructor,
  `rotate` and `move`. The two random draws of the constructor are a
  `Pick` value: an index into the shapes and an index into the colours.
- `Game` (`game.dfy`): the state of the main loop as the class `Session`.
  Its fields are the grid, the current piece, the next piece, the lives,
  the accumulated fall time and the game-over flag. Its methods are:
  - `HandleKey`: one decoded key press;
  - `Gravity`: the gravity tick;
  - `Frame`: one pass of the loop, with the frame time `dt` and the key
    presses as inputs.

  `Session.Valid()` is the invariant that every method keeps:
  - the board is 15 x 25 and holds only empty cells and catalogue colours;
  - every occupied cell of the falling piece lies on the board;
  - the next piece is as it was spawned;
  - the lives are between 0 and 3;
  - the game is over exactly when no life is left.

  One consequence of this invariant is that the lock-in merge always
  writes inside the board.

## Model

| member | source | states |
|---|---|---|
| Constants.BoardSize | tetris/tetris.py:8-10 | The 450 x 750 window in 30-pixel blocks gives a board of 15 columns and 25 rows. |
| ShapeLibrary.CatalogueShapes | tetris/tetris.py:18-34 | There are eight shapes and eight colours. Every shape is a non-empty rectangle at most 2 rows high and 4 columns wide. No colour equals the empty cell 0. |
| ShapeLibrary.Rotated | tetris/tetris.py:44-45 | Rotating an h x w rectangle gives a w x h rectangle with rotated[c][r] = shape[h-1-r][c]. |
| ShapeLibrary.RotatedTwice | tetris/tetris.py:44-45 | Two rotations turn a shape upside down: the cell (r, c) becomes the cell (h-1-r, w-1-c), and the size is kept. |
| ShapeLibrary.RotatedFourTimes | tetris/tetris.py:44-45 | Four rotations give back the original shape. |
| ShapeLibrary.FootprintRotated | tetris/tetris.py:44-45 | The occupied cells of the rotated shape are exactly the occupied cells of the shape, each sent from (r, c) to (c, h-1-r). |
| ShapeLibrary.RotationKeepsCellCount | tetris/tetris.py:44-45 | Rotation keeps the number of occupied cells. |
| Playfield.EmptyRow | tetris/tetris.py:72 | An inserted row has COLS cells, all 0. |
| Playfield.EmptyGrid | tetris/tetris.py:116 | The starting board is ROWS x COLS, and every cell is 0. |
| Playfield.CheckCollision | tetris/tetris.py:52-59 | For a row offset of at least 0, the result is true if and only if some occupied cell of the shape lands left of column 0, right of the last column, below the last row, or on a filled cell. |
| Playfield.InsideOverEmptyIsFree | tetris/tetris.py:52-59 | A shape that lies wholly on the board over empty cells does not collide. |
| Playfield.OutsideCollides | tetris/tetris.py:57 | One occupied cell left of, right of or below the board is enough to collide. |
| Playfield.FreeIsInside | tetris/tetris.py:52-59 | A placement that does not collide lies wholly on the board. |
| Playfield.Merged | tetris/tetris.py:61-66 | The merged board has the same number of rows as the board, and each row keeps its length. |
| Playfield.Merge | tetris/tetris.py:61-66 | When every target cell is on the board, the nested loops produce exactly `Merged`: each occupied cell's target takes the colour, and every other cell keeps its value. |
| Playfield.MergedFootprint | tetris/tetris.py:61-66 | The target of each occupied cell holds the colour. Every cell that no occupied cell targets is unchanged. |
| Playfield.MergedValid | tetris/tetris.py:61-66 | Merging a catalogue colour keeps the board ROWS x COLS, and every cell stays empty or a catalogue colour. |
| Playfield.EmptyRows | tetris/tetris.py:71-72 | n inserted rows are n rows, and each is the empty row; a negative n inserts none. |
| Playfield.ClearLines | tetris/tetris.py:68-73 | The filter loop and the insert loop return the reported count ROWS - (number of kept rows) and the board `ClearedGrid`: that many empty rows, then the kept rows. |
| Playfield.KeptCount | tetris/tetris.py:69-70 | Every row is either kept, because it has an empty cell, or counted as complete. |
| Playfield.KeptRows | tetris/tetris.py:69 | Every kept row has an empty cell and is a row of the input. |
| Playfield.KeptComplete | tetris/tetris.py:69 | Every input row that has an empty cell is kept: with `KeptRows`, the kept rows are exactly the incomplete rows. |
| Playfield.KeptAll | tetris/tetris.py:69 | When every row has an empty cell, the filter keeps the whole board. |
| Playfield.KeptWidth | tetris/tetris.py:69 | On a ROWS x COLS board, every kept row has COLS cells. |
| Playfield.ClearLinesLayout | tetris/tetris.py:68-73 | On a ROWS x COLS board, the reported count is the number of complete rows, and the result is again ROWS x COLS. The first `cleared` rows are empty, and the rest are the incomplete input rows in their original order. |
| Playfield.ClearedPainted | tetris/tetris.py:68-73 | Clearing keeps every cell empty or a catalogue colour. |
| Playfield.LockKeepsBoard | tetris/tetris.py:153-154 | Merging a piece that lies on the board and then clearing keeps the board ROWS x COLS and painted. |
| Playfield.ClearLinesIdempotent | tetris/tetris.py:68-73 | Clearing an already cleared board reports 0 rows and returns the same board. |
| Piece.SpawnInside | tetris/tetris.py:41-42 | Every catalogue shape, placed at column COLS//2 - width//2 (between 5 and 7) in row 0, lies wholly on the board. |
| Piece.Tetromino.constructor | tetris/tetris.py:38-42 | The new piece has the drawn catalogue shape and, independently, the drawn colour. It is placed at x = COLS//2 - width//2 and y = 0, and it lies on the board. |
| Piece.Tetromino.AtSpawnOnBoard | tetris/tetris.py:155-156 | A next piece still where it was spawned lies on the board when it is promoted. |
| Piece.Tetromino.Rotate | tetris/tetris.py:44-45 | The shape becomes its clockwise rotation. Colour and position do not change. |
| Piece.Tetromino.Move | tetris/tetris.py:47-49 | x grows by dx and y by dy. Shape and colour do not change. |
| Game.Session.constructor | tetris/tetris.py:116-122 | A new game has an empty board, two freshly drawn pieces, 3 lives and no accumulated time, and it is not over. |
| Game.Session.HandleKey | tetris/tetris.py:133-146 | Left, right and down shift the piece by one cell, and up replaces its shape by the rotation. Each happens only when the new placement does not collide; otherwise the piece stays. Once the game is over, no key changes anything. The board, next piece, lives and clock never change. |
| Game.Session.Shift | tetris/tetris.py:134-142 | The piece moves by (dx, dy) exactly when the moved placement does not collide; otherwise it stays. |
| Game.Session.TryRotate | tetris/tetris.py:143-146 | The shape becomes `Rotated(shape)` exactly when that rotation does not collide at the same position. The speculative rotation that is tested is the one that is committed. |
| Game.Session.Gravity | tetris/tetris.py:148-162 | Nothing happens while the game is over or while at most 500 ms have accumulated. Otherwise the clock restarts at 0. A piece that can drop falls one row and nothing else changes. A piece that cannot drop is locked (see Lock). |
| Game.Session.Fall | tetris/tetris.py:150-162 | A piece that can drop falls one row and the board is unchanged. A piece that cannot drop is locked. |
| Game.Session.Settle | tetris/tetris.py:153-154 | The board becomes the cleared board of the board with the piece merged, and it stays valid. |
| Game.Session.Promote | tetris/tetris.py:155-156 | The next piece becomes the falling piece, and a new next piece is spawned from the draw. |
| Game.Session.Lockout | tetris/tetris.py:157-162 | A falling piece that collides where it stands costs exactly one life. While lives remain it is replaced by a freshly drawn piece; when none remain the game is over. A piece that does not collide costs nothing. |
| Game.Session.Lock | tetris/tetris.py:153-162 | The board becomes `ClearedGrid(Merged(...))` of the old board and piece. The next piece is promoted and a new next piece is drawn. A promoted piece that collides costs exactly one life and is then respawned, or ends the game. |
| Game.Session.Frame | tetris/tetris.py:124-162 | The session stays valid, lives never grow, and a game that is over stays over with board and pieces unchanged. The clock ends at 0 when the game was running and the old time plus `dt` exceeds 500 ms (gravity fired); otherwise it is the old time plus `dt`. |

## Left out

- Drawing (`draw_grid`, `draw_shape`, `draw_ui`, `show_game_over`, `screen.fill`, `display.flip`; lines 75-109, 125, 165-169): pygame rendering only, with no effect on the game state.
- Window setup, `clock.tick(FPS)`, event polling, and the `QUIT` event with the `running` flag (lines 5, 11, 112-114, 124-132, 171): I/O plumbing. Frame time `dt` and the decoded key presses are inputs of `Frame`. A key other than the four arrows is `Key.Other`.
- The 3000 ms wait at game over (line 109): timing only.
- `random.choice` (lines 39-40): a library random-number generator. Each draw is a `Pick` of a shape index and a colour index, passed in by the caller. `Gravity` takes one pick for the new next piece and one for a respawned piece.
- RGB values of the colours (lines 18-22): colours are the tokens 1..8, and 0 is the empty cell.
- Merge: the source writes into the shared row lists of the grid in place. The model computes a new grid value, which the session stores. Aliasing of rows is not modelled. Nothing else holds the old grid.
- Merge: the source does no bounds check. Its callers only merge a piece that lies on the board. The model requires that, and the session invariant provides it.
- Playfield.CheckCollision: only for row offsets of at least 0. A negative row would wrap around through Python's negative indexing. A piece starts in row 0 and only ever moves down, so that case never arises.
- Game.Session.Frame: states the session invariant, the clock, that lives never grow, and that a finished game keeps its board and pieces. For a running game it does not restate the effect of each key and of gravity on the board and pieces; the contracts of `HandleKey` and `Gravity` state those.
- Integer width: Python integers are unbounded, and so are the model's.
