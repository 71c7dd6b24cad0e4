/** Board geometry and timing of the game (tetris/tetris.py, lines 8-12). */
module Constants {
  const SCREEN_WIDTH: int := 450
  const SCREEN_HEIGHT: int := 750
  const BLOCK_SIZE: int := 30

  /** Number of board columns: one per block of the window's width. */
  const COLS: int := SCREEN_WIDTH / BLOCK_SIZE
  /** Number of board rows: one per block of the window's height. */
  const ROWS: int := SCREEN_HEIGHT / BLOCK_SIZE

  /** Milliseconds of accumulated frame time after which gravity acts. */
  const FALL_DELAY: int := 500

  /** The window of 450 x 750 pixels in blocks of 30 is a board of 15 columns and 25 rows. */
  lemma BoardSize()
    ensures COLS == 15 && ROWS == 25
  {
  }
}
