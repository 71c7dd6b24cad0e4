/**
 * The falling piece (class Tetromino, tetris/tetris.py lines 37-49): a
 * shape, a colour and the board position of the shape's top-left cell.
 */
module Piece {
  import opened Constants
  import opened ShapeLibrary
  import opened Playfield

  /**
   * The outcome of the two random draws that create a piece: an index
   * into the shape catalogue and, independently, one into the colours.
   */
  datatype Pick = Pick(shape: nat, color: nat)
  {
    predicate Valid()
    {
      shape < |SHAPES| && color < |COLORS|
    }
  }

  /** Column of a new piece: the shape centred on the board, by floor division. */
  function SpawnX(s: Shape): int
  {
    COLS / 2 - Width(s) / 2
  }

  /** Every catalogue shape, placed where a new piece appears, lies on the board. */
  lemma SpawnInside(s: Shape)
    requires s in SHAPES
    ensures Inside(s, SpawnX(s), 0) && Rectangular(s)
    ensures 5 <= SpawnX(s) <= 7
  {
    CatalogueShapes();
    var i :| 0 <= i < |SHAPES| && SHAPES[i] == s;
    assert SmallShape(s);
    BoardSize();
  }

  class Tetromino {
    var shape: Shape
    var color: int
    var x: int
    var y: int

    /** The piece lies wholly on the board, below the top edge, in a catalogue colour. */
    ghost predicate OnBoard()
      reads this
    {
      Rectangular(shape) && color in COLORS && y >= 0 && Inside(shape, x, y)
    }

    /** The piece as it appears: a catalogue shape and colour, centred, in the top row. */
    ghost predicate AtSpawn()
      reads this
    {
      shape in SHAPES && color in COLORS && x == SpawnX(shape) && y == 0
    }

    /** The piece made from the draws in `pick`. */
    ghost predicate Spawned(pick: Pick)
      reads this
    {
      pick.Valid() && shape == SHAPES[pick.shape] && color == COLORS[pick.color] &&
      x == SpawnX(shape) && y == 0
    }

    constructor (pick: Pick)
      requires pick.Valid()
      ensures Spawned(pick) && AtSpawn() && OnBoard()
    {
      shape := SHAPES[pick.shape];
      color := COLORS[pick.color];
      x := COLS / 2 - Width(SHAPES[pick.shape]) / 2;
      y := 0;
      new;
      SpawnInside(shape);
    }

    /** A piece where it appeared lies on the board. */
    lemma AtSpawnOnBoard()
      requires AtSpawn()
      ensures OnBoard()
    {
      SpawnInside(shape);
    }

    /** Replaces the shape by its clockwise rotation; nothing else changes. */
    method Rotate()
      requires Rectangular(shape)
      modifies this
      ensures shape == Rotated(old(shape))
      ensures color == old(color) && x == old(x) && y == old(y)
    {
      shape := Rotated(shape);
    }

    /** Shifts the piece by dx columns and dy rows; nothing else changes. */
    method Move(dx: int, dy: int)
      modifies this
      ensures x == old(x) + dx && y == old(y) + dy
      ensures shape == old(shape) && color == old(color)
    {
      x := x + dx;
      y := y + dy;
    }
  }
}
