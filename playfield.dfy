/**
 * The playfield: a ROWS x COLS grid of cells holding 0 (empty) or a
 * colour, with the collision test, the lock-in merge and the row clear
 * (tetris/tetris.py, lines 52-73).
 */
module Playfield {
  import opened Constants
  import opened ShapeLibrary

  /** The board, row by row from the top. */
  type Grid = seq<seq<int>>

  /** The board has exactly ROWS rows of COLS cells. */
  predicate WellFormed(g: Grid)
  {
    |g| == ROWS && forall r :: 0 <= r < |g| ==> |g[r]| == COLS
  }

  /** Every cell of the row is empty or holds one of the catalogue colours. */
  predicate RowPainted(row: seq<int>)
  {
    forall c :: 0 <= c < |row| ==> row[c] == 0 || row[c] in COLORS
  }

  /** Every cell of the board is empty or holds one of the catalogue colours. */
  predicate Painted(g: Grid)
  {
    forall r :: 0 <= r < |g| ==> RowPainted(g[r])
  }

  function EmptyRow(): (row: seq<int>)
    ensures |row| == COLS && forall c :: 0 <= c < |row| ==> row[c] == 0
  {
    seq(COLS, _ => 0)
  }

  /** The board at the start of a game: every cell empty. */
  function EmptyGrid(): (g: Grid)
    ensures WellFormed(g) && Painted(g)
    ensures forall r, c :: 0 <= r < |g| && 0 <= c < |g[r]| ==> g[r][c] == 0
  {
    seq(ROWS, _ => EmptyRow())
  }

  // ---------------------------------------------------------------- collision

  /**
   * Board position (row, col) stops a piece cell: it is left of the first
   * column, right of the last, below the floor, or already filled. Rows
   * above the board are not considered: callers never pass a negative row.
   */
  predicate Blocked(g: Grid, row: int, col: int)
    requires WellFormed(g) && row >= 0
  {
    col < 0 || col >= COLS || row >= ROWS || g[row][col] != 0
  }

  /** Some occupied cell of s, placed with its top-left corner at (ox, oy), is blocked. */
  ghost predicate Collides(g: Grid, s: Shape, ox: int, oy: int)
    requires WellFormed(g) && oy >= 0
  {
    exists r, c :: Occupied(s, r, c) && Blocked(g, r + oy, c + ox)
  }

  /** Every occupied cell of s, placed at (ox, oy), lies on the board. */
  ghost predicate Inside(s: Shape, ox: int, oy: int)
  {
    forall r, c :: Occupied(s, r, c) ==> 0 <= c + ox < COLS && 0 <= r + oy < ROWS
  }

  /**
   * check_collision: scans the shape row by row and stops at the first
   * occupied cell that is blocked.
   */
  method CheckCollision(g: Grid, s: Shape, ox: int, oy: int) returns (hit: bool)
    requires WellFormed(g) && oy >= 0
    ensures hit <==> Collides(g, s, ox, oy)
  {
    var r := 0;
    while r < |s|
      invariant 0 <= r <= |s|
      invariant forall i, c :: i < r && Occupied(s, i, c) ==> !Blocked(g, i + oy, c + ox)
    {
      var row := s[r];
      var c := 0;
      while c < |row|
        invariant 0 <= c <= |row|
        invariant forall j :: j < c && Occupied(s, r, j) ==> !Blocked(g, r + oy, j + ox)
      {
        if row[c] != 0 {
          if c + ox < 0 || c + ox >= COLS || r + oy >= ROWS || g[r + oy][c + ox] != 0 {
            assert Occupied(s, r, c) && Blocked(g, r + oy, c + ox);
            return true;
          }
        }
        c := c + 1;
      }
      r := r + 1;
    }
    return false;
  }

  /** A shape lying on the board over empty cells does not collide. */
  lemma InsideOverEmptyIsFree(g: Grid, s: Shape, ox: int, oy: int)
    requires WellFormed(g) && oy >= 0 && Inside(s, ox, oy)
    requires forall r, c :: Occupied(s, r, c) ==> g[r + oy][c + ox] == 0
    ensures !Collides(g, s, ox, oy)
  {
  }

  /** An occupied cell left of, right of or below the board makes the shape collide. */
  lemma OutsideCollides(g: Grid, s: Shape, ox: int, oy: int, r: int, c: int)
    requires WellFormed(g) && oy >= 0 && Occupied(s, r, c)
    requires c + ox < 0 || c + ox >= COLS || r + oy >= ROWS
    ensures Collides(g, s, ox, oy)
  {
  }

  /** A placement that does not collide lies wholly on the board. */
  lemma FreeIsInside(g: Grid, s: Shape, ox: int, oy: int)
    requires WellFormed(g) && oy >= 0 && !Collides(g, s, ox, oy)
    ensures Inside(s, ox, oy)
  {
  }

  // ---------------------------------------------------------------- merge

  /**
   * The board after locking s with colour `color` at (ox, oy): a cell
   * takes the colour exactly when an occupied cell of s lands on it.
   */
  function Merged(g: Grid, s: Shape, ox: int, oy: int, color: int): (m: Grid)
    ensures |m| == |g| && forall i :: 0 <= i < |g| ==> |m[i]| == |g[i]|
  {
    seq(|g|, i requires 0 <= i < |g| =>
      seq(|g[i]|, j requires 0 <= j < |g[i]| =>
        if Occupied(s, i - oy, j - ox) then color else g[i][j]))
  }

  /**
   * merge: writes the colour into each target of an occupied shape cell,
   * one cell at a time; every target must lie on the board.
   */
  method Merge(g: Grid, s: Shape, ox: int, oy: int, color: int) returns (m: Grid)
    requires forall r, c :: Occupied(s, r, c) ==> 0 <= r + oy < |g| && 0 <= c + ox < |g[r + oy]|
    ensures m == Merged(g, s, ox, oy, color)
  {
    m := g;
    var r := 0;
    while r < |s|
      invariant 0 <= r <= |s|
      invariant |m| == |g| && forall i :: 0 <= i < |g| ==> |m[i]| == |g[i]|
      invariant forall i, j :: 0 <= i < |g| && 0 <= j < |g[i]| ==>
        m[i][j] == if Occupied(s, i - oy, j - ox) && i - oy < r then color else g[i][j]
    {
      var row := s[r];
      var c := 0;
      while c < |row|
        invariant 0 <= c <= |row|
        invariant |m| == |g| && forall i :: 0 <= i < |g| ==> |m[i]| == |g[i]|
        invariant forall i, j :: 0 <= i < |g| && 0 <= j < |g[i]| ==>
          m[i][j] == if Occupied(s, i - oy, j - ox) && (i - oy < r || (i - oy == r && j - ox < c))
                     then color else g[i][j]
      {
        if row[c] != 0 {
          assert Occupied(s, r, c);
          m := m[r + oy := m[r + oy][c + ox := color]];
        }
        c := c + 1;
      }
      r := r + 1;
    }
    var want := Merged(g, s, ox, oy, color);
    forall i | 0 <= i < |g|
      ensures m[i] == want[i]
    {
    }
  }

  /**
   * Locking writes the colour into exactly the targets of the occupied
   * cells and leaves every other cell as it was.
   */
  lemma MergedFootprint(g: Grid, s: Shape, ox: int, oy: int, color: int)
    requires WellFormed(g) && Inside(s, ox, oy)
    ensures forall r, c :: Occupied(s, r, c) ==> Merged(g, s, ox, oy, color)[r + oy][c + ox] == color
    ensures forall i, j :: 0 <= i < |g| && 0 <= j < |g[i]| && !Occupied(s, i - oy, j - ox) ==>
      Merged(g, s, ox, oy, color)[i][j] == g[i][j]
  {
  }

  /** Locking a piece of a catalogue colour keeps the board ROWS x COLS and painted. */
  lemma MergedValid(g: Grid, s: Shape, ox: int, oy: int, color: int)
    requires WellFormed(g) && Painted(g) && color in COLORS
    ensures WellFormed(Merged(g, s, ox, oy, color)) && Painted(Merged(g, s, ox, oy, color))
  {
  }

  // ---------------------------------------------------------------- row clear

  /** The row has an empty cell, so it is not complete. */
  predicate HasEmpty(row: seq<int>)
  {
    exists c :: 0 <= c < |row| && row[c] == 0
  }

  /** The rows of g that have an empty cell, in their original order. */
  function Kept(g: Grid): Grid
  {
    if g == [] then []
    else Kept(g[..|g| - 1]) + (if HasEmpty(g[|g| - 1]) then [g[|g| - 1]] else [])
  }

  /** The number of complete rows of g. */
  function FullCount(g: Grid): nat
  {
    if g == [] then 0
    else FullCount(g[..|g| - 1]) + (if HasEmpty(g[|g| - 1]) then 0 else 1)
  }

  /** n empty rows. */
  function EmptyRows(n: int): (e: Grid)
    ensures |e| == if n < 0 then 0 else n
    ensures forall i :: 0 <= i < |e| ==> e[i] == EmptyRow()
  {
    if n <= 0 then [] else [EmptyRow()] + EmptyRows(n - 1)
  }

  /** The count clear_lines reports: ROWS less the number of kept rows. */
  function ClearedCount(g: Grid): int
  {
    ROWS - |Kept(g)|
  }

  /** The board clear_lines returns: as many empty rows as were dropped, then the kept rows. */
  function ClearedGrid(g: Grid): Grid
  {
    EmptyRows(ClearedCount(g)) + Kept(g)
  }

  /**
   * clear_lines: keeps the rows that have an empty cell, then inserts
   * one empty row at the top for each row that is missing.
   */
  method ClearLines(g: Grid) returns (newGrid: Grid, cleared: int)
    ensures cleared == ClearedCount(g) && newGrid == ClearedGrid(g)
  {
    var kept: Grid := [];
    var i := 0;
    while i < |g|
      invariant 0 <= i <= |g|
      invariant kept == Kept(g[..i])
    {
      assert g[..i + 1][..i] == g[..i];
      if HasEmpty(g[i]) {
        kept := kept + [g[i]];
      }
      i := i + 1;
    }
    assert g[..|g|] == g;
    cleared := ROWS - |kept|;
    newGrid := kept;
    var n := 0;
    while n < cleared
      invariant 0 <= n && (n <= cleared || n == 0)
      invariant newGrid == EmptyRows(n) + kept
    {
      newGrid := [EmptyRow()] + newGrid;
      n := n + 1;
    }
  }

  /** Each row is either kept or counted as complete. */
  lemma {:induction false} KeptCount(g: Grid)
    ensures |Kept(g)| + FullCount(g) == |g|
  {
    if g != [] {
      KeptCount(g[..|g| - 1]);
    }
  }

  /** Every kept row has an empty cell and is a row of g. */
  lemma {:induction false} KeptRows(g: Grid)
    ensures forall i :: 0 <= i < |Kept(g)| ==> HasEmpty(Kept(g)[i]) && Kept(g)[i] in g
  {
    if g != [] {
      var front := g[..|g| - 1];
      KeptRows(front);
      forall i | 0 <= i < |Kept(g)|
        ensures HasEmpty(Kept(g)[i]) && Kept(g)[i] in g
      {
        if i < |Kept(front)| {
          assert Kept(g)[i] == Kept(front)[i];
          assert Kept(front)[i] in front;
        } else {
          assert Kept(g)[i] == g[|g| - 1];
        }
      }
    }
  }

  /** Every row of g that has an empty cell is kept. */
  lemma {:induction false} KeptComplete(g: Grid)
    ensures forall i :: 0 <= i < |g| && HasEmpty(g[i]) ==> g[i] in Kept(g)
  {
    if g != [] {
      var front := g[..|g| - 1];
      KeptComplete(front);
      forall i | 0 <= i < |g| && HasEmpty(g[i])
        ensures g[i] in Kept(g)
      {
        if i < |front| {
          assert g[i] == front[i];
        }
      }
    }
  }

  /** When every row has an empty cell, every row is kept. */
  lemma {:induction false} KeptAll(g: Grid)
    requires forall i :: 0 <= i < |g| ==> HasEmpty(g[i])
    ensures Kept(g) == g
  {
    if g != [] {
      var front := g[..|g| - 1];
      KeptAll(front);
      assert g == front + [g[|g| - 1]];
    }
  }

  /** Every kept row of a ROWS x COLS board has COLS cells. */
  lemma KeptWidth(g: Grid)
    requires WellFormed(g)
    ensures forall i :: 0 <= i < |Kept(g)| ==> |Kept(g)[i]| == COLS
  {
    KeptRows(g);
  }

  /**
   * On a ROWS x COLS board clear_lines reports the number of complete
   * rows and returns a ROWS x COLS board: that many empty rows on top,
   * then the incomplete rows in their original order.
   */
  lemma ClearLinesLayout(g: Grid)
    requires WellFormed(g)
    ensures ClearedCount(g) == FullCount(g)
    ensures WellFormed(ClearedGrid(g))
    ensures forall i :: 0 <= i < ClearedCount(g) ==> ClearedGrid(g)[i] == EmptyRow()
    ensures ClearedGrid(g)[ClearedCount(g)..] == Kept(g)
  {
    KeptCount(g);
    KeptWidth(g);
    var k := Kept(g);
    var e := EmptyRows(ClearedCount(g));
    var h := ClearedGrid(g);
    assert |e| == FullCount(g);
    assert h == e + k;
    assert h[|e|..] == k;
    forall i | 0 <= i < |h|
      ensures |h[i]| == COLS
    {
      if i >= |e| {
        assert h[i] == k[i - |e|];
      } else {
        assert h[i] == EmptyRow();
      }
    }
  }

  /** Clearing keeps every cell empty or coloured. */
  lemma ClearedPainted(g: Grid)
    requires WellFormed(g) && Painted(g)
    ensures Painted(ClearedGrid(g))
  {
    KeptCount(g);
    KeptRows(g);
    var k := Kept(g);
    var e := EmptyRows(ClearedCount(g));
    var h := ClearedGrid(g);
    assert h == e + k;
    forall r | 0 <= r < |h|
      ensures RowPainted(h[r])
    {
      if r < |e| {
        assert h[r] == EmptyRow();
      } else {
        assert h[r] == k[r - |e|];
        assert k[r - |e|] in g;
      }
    }
  }

  /** Locking a piece that lies on the board and clearing rows keeps the board ROWS x COLS and painted. */
  lemma LockKeepsBoard(g: Grid, s: Shape, ox: int, oy: int, color: int)
    requires WellFormed(g) && Painted(g) && Inside(s, ox, oy) && color in COLORS
    ensures WellFormed(ClearedGrid(Merged(g, s, ox, oy, color)))
    ensures Painted(ClearedGrid(Merged(g, s, ox, oy, color)))
  {
    MergedValid(g, s, ox, oy, color);
    ClearLinesLayout(Merged(g, s, ox, oy, color));
    ClearedPainted(Merged(g, s, ox, oy, color));
  }

  /** A board that has just been cleared has no complete row: clearing it again changes nothing. */
  lemma ClearLinesIdempotent(g: Grid)
    requires WellFormed(g)
    ensures ClearedCount(ClearedGrid(g)) == 0
    ensures ClearedGrid(ClearedGrid(g)) == ClearedGrid(g)
  {
    KeptCount(g);
    KeptRows(g);
    var k := Kept(g);
    var e := EmptyRows(ClearedCount(g));
    var h := ClearedGrid(g);
    assert h == e + k;
    assert |h| == ROWS;
    forall i | 0 <= i < |h|
      ensures HasEmpty(h[i])
    {
      if i < |e| {
        assert h[i] == EmptyRow();
        assert h[i][0] == 0;
      } else {
        assert h[i] == k[i - |e|];
      }
    }
    KeptAll(h);
    assert EmptyRows(ClearedCount(h)) == [];
  }
}
