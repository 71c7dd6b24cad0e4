/**
 * The shape catalogue and the pure geometry of shapes: the eight 0/1
 * matrices, the eight colours, and the clockwise rotation.
 */
module ShapeLibrary {

  /** A shape is a matrix of cells, listed row by row; a cell is occupied when it is not 0. */
  type Shape = seq<seq<int>>

  /** Number of columns of a shape: the length of its first row. */
  function Width(m: Shape): nat
  {
    if |m| == 0 then 0 else |m[0]|
  }

  /** Every row of the shape has the same length. */
  predicate Rectangular(m: Shape)
  {
    forall r :: 0 <= r < |m| ==> |m[r]| == Width(m)
  }

  /** Cell (r, c) exists in the shape and is occupied. */
  predicate Occupied(m: Shape, r: int, c: int)
  {
    0 <= r < |m| && 0 <= c < |m[r]| && m[r][c] != 0
  }

  /** The set of occupied cells of a shape, as (row, column) pairs. */
  function Footprint(m: Shape): set<(int, int)>
  {
    set r, c | 0 <= r < |m| && 0 <= c < |m[r]| && m[r][c] != 0 :: (r, c)
  }

  /**
   * The catalogue: I, O, T, J, L, S, Z and the upside-down T, in the
   * order of the source; the last entry is kept although it is the
   * T shape turned over.
   */
  const SHAPES: seq<Shape> := [
    [[1, 1, 1, 1]],
    [[1, 1], [1, 1]],
    [[0, 1, 0], [1, 1, 1]],
    [[1, 0, 0], [1, 1, 1]],
    [[0, 0, 1], [1, 1, 1]],
    [[1, 1, 0], [0, 1, 1]],
    [[0, 1, 1], [1, 1, 0]],
    [[1, 1, 1], [0, 1, 0]]
  ]

  /**
   * The eight colours (cyan, yellow, purple, green, red, orange, blue,
   * pink) as opaque tokens; 0 is the empty cell and is not a colour.
   */
  const COLORS: seq<int> := [1, 2, 3, 4, 5, 6, 7, 8]

  /** A catalogue shape: a non-empty rectangle at most 2 rows high and 4 columns wide. */
  predicate SmallShape(s: Shape)
  {
    Rectangular(s) && 1 <= |s| <= 2 && 1 <= Width(s) <= 4
  }

  /** Every catalogue shape is small, and no colour is the empty cell 0. */
  lemma CatalogueShapes()
    ensures |SHAPES| == 8 && |COLORS| == 8
    ensures forall i :: 0 <= i < |SHAPES| ==> SmallShape(SHAPES[i])
    ensures forall s :: s in SHAPES ==> SmallShape(s)
    ensures forall k :: k in COLORS ==> k != 0
  {
    forall i | 0 <= i < |SHAPES|
      ensures SmallShape(SHAPES[i])
    {
      var s := SHAPES[i];
      assert |s| == 1 || |s| == 2;
      assert |s[0]| == |s[|s| - 1]|;
    }
  }

  /**
   * Clockwise rotation: the transpose of the matrix read bottom row
   * first, so an h x w shape becomes w x h.
   */
  function Rotated(m: Shape): (t: Shape)
    requires Rectangular(m)
    ensures |t| == Width(m) && Rectangular(t)
    ensures |t| > 0 ==> Width(t) == |m|
    ensures forall c, r :: 0 <= c < |t| && 0 <= r < |m| ==> t[c][r] == m[|m| - 1 - r][c]
  {
    seq(Width(m), c requires 0 <= c < Width(m) =>
      seq(|m|, r requires 0 <= r < |m| => m[|m| - 1 - r][c]))
  }

  /** Rotating twice turns the shape upside down: both indices are mirrored. */
  lemma RotatedTwice(m: Shape)
    requires Rectangular(m) && Width(m) > 0
    ensures Rectangular(Rotated(Rotated(m)))
    ensures |Rotated(Rotated(m))| == |m| && Width(Rotated(Rotated(m))) == Width(m)
    ensures forall r, c :: 0 <= r < |m| && 0 <= c < Width(m) ==>
      Rotated(Rotated(m))[r][c] == m[|m| - 1 - r][Width(m) - 1 - c]
  {
    var t := Rotated(m);
    var u := Rotated(t);
    forall r, c | 0 <= r < |m| && 0 <= c < Width(m)
      ensures u[r][c] == m[|m| - 1 - r][Width(m) - 1 - c]
    {
      assert u[r][c] == t[|t| - 1 - c][r];
    }
  }

  /** Four clockwise rotations give back the original shape. */
  lemma {:induction false} RotatedFourTimes(m: Shape)
    requires Rectangular(m) && Width(m) > 0
    ensures Rotated(Rotated(Rotated(Rotated(m)))) == m
  {
    var u := Rotated(Rotated(m));
    RotatedTwice(m);
    RotatedTwice(u);
    var v := Rotated(Rotated(u));
    assert |v| == |m|;
    forall r | 0 <= r < |m|
      ensures v[r] == m[r]
    {
      assert |v[r]| == |m[r]|;
      forall c | 0 <= c < |m[r]|
        ensures v[r][c] == m[r][c]
      {
        assert v[r][c] == u[|m| - 1 - r][Width(m) - 1 - c];
      }
    }
  }

  /** Where rotation sends cell (r, c) of a shape with h rows. */
  function Turn(h: int, p: (int, int)): (int, int)
  {
    (p.1, h - 1 - p.0)
  }

  /** Turning a set of cells does not change how many there are: Turn is injective. */
  lemma {:induction false} TurnPreservesSize(s: set<(int, int)>, h: int)
    ensures |set p | p in s :: Turn(h, p)| == |s|
    decreases |s|
  {
    if s != {} {
      var q :| q in s;
      var rest := s - {q};
      TurnPreservesSize(rest, h);
      var image := set p | p in rest :: Turn(h, p);
      assert (set p | p in s :: Turn(h, p)) == image + {Turn(h, q)};
      assert Turn(h, q) !in image;
    }
  }

  /** The occupied cells of the rotated shape are the turned occupied cells of the shape. */
  lemma FootprintRotated(m: Shape)
    requires Rectangular(m)
    ensures Footprint(Rotated(m)) == set p | p in Footprint(m) :: Turn(|m|, p)
  {
    var t := Rotated(m);
    var h := |m|;
    forall q | q in Footprint(t)
      ensures q in set p | p in Footprint(m) :: Turn(h, p)
    {
      var p := (h - 1 - q.1, q.0);
      assert t[q.0][q.1] == m[p.0][p.1];
      assert p in Footprint(m) && Turn(h, p) == q;
    }
    forall p | p in Footprint(m)
      ensures Turn(h, p) in Footprint(t)
    {
      var q := Turn(h, p);
      assert t[q.0][q.1] == m[h - 1 - q.1][q.0];
    }
  }

  /** Rotation keeps the number of occupied cells. */
  lemma RotationKeepsCellCount(m: Shape)
    requires Rectangular(m)
    ensures |Footprint(Rotated(m))| == |Footprint(m)|
  {
    FootprintRotated(m);
    TurnPreservesSize(Footprint(m), |m|);
  }
}
