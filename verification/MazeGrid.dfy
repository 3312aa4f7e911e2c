// The maze array of mp2/maze.c: one flat buffer of cells in which column 0 is
// also the right boundary of the row above it, and the lattice of (odd,odd)
// points the generator has to join.
module MazeGrid {

  const MAZE_MIN_X_DIM := 14
  const MAZE_MAX_X_DIM := 50
  const MAZE_MIN_Y_DIM := 8
  const MAZE_MAX_Y_DIM := 30
  const MAZE_SIZE := 2 * MAZE_MAX_X_DIM * (2 * MAZE_MAX_Y_DIM + 3) + 1
  const NUM_FRUIT_TYPES := 7

  /** One byte of the maze array, field by field (see MazeBits for the bits). */
  datatype Cell = Cell(wall: bool, fruit: nat, exit: bool, reach: bool)

  const MAZE_WALL := Cell(true, 0, false, false)
  const MAZE_NONE := Cell(false, 0, false, false)

  /** A requested maze size that make_maze accepts. */
  datatype Dims = Dims(x: int, y: int) {
    predicate Valid() {
      MAZE_MIN_X_DIM <= x <= MAZE_MAX_X_DIM && MAZE_MIN_Y_DIM <= y <= MAZE_MAX_Y_DIM
    }

    /** The width of one row of the flat array. */
    function Width(): int { 2 * x }
  }

  /** MAZE_INDEX */
  function Index(d: Dims, a: int, b: int): int {
    a + (b + 1) * d.Width()
  }

  /** The flat index of the (odd,odd) lattice point number i on lattice row j. */
  function Point(d: Dims, i: int, j: int): int {
    Index(d, 2 * i + 1, 2 * j + 1)
  }

  ghost predicate OnLattice(d: Dims, i: int, j: int) {
    0 <= i < d.x && 0 <= j < d.y
  }

  /** The (odd,odd) points, as flat indices. */
  ghost function Points(d: Dims): set<int> {
    set i, j | 0 <= i < d.x && 0 <= j < d.y :: Point(d, i, j)
  }

  /** Where a point is on the lattice. */
  lemma PlaceOf(d: Dims, c: int) returns (i: int, j: int)
    requires c in Points(d)
    ensures OnLattice(d, i, j) && Point(d, i, j) == c
  {
    hide Point;
    i, j :| OnLattice(d, i, j) && Point(d, i, j) == c;
  }

  lemma PointInside(d: Dims, i: int, j: int)
    requires d.Valid() && OnLattice(d, i, j)
    ensures Point(d, i, j) in Points(d) && 0 <= Point(d, i, j) < MAZE_SIZE
    ensures Point(d, i, j) == Index(d, 2 * i + 1, 2 * j + 1)
  {
    PointBounds(d, i, j);
  }

  /** The points that come before point (i,j) in scan order. */
  ghost function PointsBefore(d: Dims, i: int, j: int): set<int> {
    set a, b | 0 <= a < d.x && 0 <= b < d.y && (b < j || (b == j && a < i)) :: Point(d, a, b)
  }

  /** The position of a point in scan order. */
  function Rank(d: Dims, i: int, j: int): int {
    j * d.x + i
  }

  // Small facts about products, so that the lemmas below stay linear.

  lemma Distribute(a: int, b: int, w: int)
    ensures (a + b) * w == a * w + b * w
  {
  }

  lemma AtLeastOnce(a: int, w: int)
    requires w >= 0
    ensures a >= 1 ==> a * w >= w
    ensures a <= 0 ==> a * w <= 0
    ensures a >= 0 ==> a * w >= 0
  {
  }

  /** A mixed-radix pair is determined by its value. */
  lemma PairInjective(w: int, i: int, j: int, a: int, b: int)
    requires 0 <= i < w && 0 <= a < w && j * w + i == b * w + a
    ensures i == a && j == b
  {
    Distribute(b - j, j, w);
    AtLeastOnce(b - j, w);
    AtLeastOnce(j - b, w);
    Distribute(j - b, b, w);
  }

  /** The same with both ends of a row allowed, where column w is column 0 of the
      next row. */
  lemma AliasPair(w: int, x: int, j: int, a: int, k: int)
    requires 0 < w && 0 <= x <= w && 0 <= a <= w && x + j * w == a + k * w
    ensures (x == a && j == k) || (x == w && a == 0) || (x == 0 && a == w)
  {
    Distribute(k - j, j, w);
    if k > j + 1 { AtLeastOnce(k - j - 1, w); Distribute(k - j - 1, 1, w); }
    if j > k + 1 { AtLeastOnce(j - k - 1, w); Distribute(j - k - 1, 1, w); Distribute(j - k, k, w); }
    if k == j + 1 { Distribute(j, 1, w); }
    if j == k + 1 { Distribute(k, 1, w); }
  }

  lemma RankBound(d: Dims, i: int, j: int)
    requires OnLattice(d, i, j)
    ensures 0 <= Rank(d, i, j) < d.x * d.y
  {
    AtLeastOnce(j, d.x);
    AtLeastOnce(d.y - 1 - j, d.x);
    Distribute(d.y - 1 - j, j + 1, d.x);
    Distribute(j, 1, d.x);
  }

  /** The address of a point over the product the scan order uses. */
  lemma PointAddress(d: Dims, i: int, j: int)
    ensures Point(d, i, j) == 2 * i + 1 + 4 * (j * d.x) + 4 * d.x
  {
  }

  lemma PointInjective(d: Dims, i: int, j: int, a: int, b: int)
    requires OnLattice(d, i, j) && OnLattice(d, a, b) && Point(d, i, j) == Point(d, a, b)
    ensures i == a && j == b
  {
    PointAddress(d, i, j);
    PointAddress(d, a, b);
    PairInjective(2 * d.x, i, j, a, b) by {
      assert j * (2 * d.x) == 2 * (j * d.x);
      assert b * (2 * d.x) == 2 * (b * d.x);
    }
  }

  /** The coordinates of a point are the ones its index was made from. */
  lemma SamePlace(d: Dims, x: int, y: int, i: int, j: int)
    requires 0 <= x < 2 * d.x && OnLattice(d, i, j) && Point(d, i, j) == Index(d, x, y)
    ensures x == 2 * i + 1 && y == 2 * j + 1
  {
    SamePair(2 * d.x, x, y + 1, 2 * i + 1, 2 * j + 2);
  }

  lemma SamePair(w: int, x: int, j: int, a: int, k: int)
    requires 0 <= x < w && 0 < a < w && x + j * w == a + k * w
    ensures x == a && j == k
  {
    AliasPair(w, x, j, a, k);
  }

  lemma {:induction false} CountPointsBefore(d: Dims, i: int, j: int)
    requires d.x > 0 && 0 <= i <= d.x && 0 <= j && (j < d.y || (j == d.y && i == 0))
    ensures |PointsBefore(d, i, j)| == j * d.x + i
    decreases j, i
  {
    if i > 0 {
      CountPointsBefore(d, i - 1, j);
      var p := Point(d, i - 1, j);
      forall a, b | OnLattice(d, a, b) && Point(d, a, b) == p ensures a == i - 1 && b == j {
        PointInjective(d, a, b, i - 1, j);
      }
      assert PointsBefore(d, i, j) == PointsBefore(d, i - 1, j) + {p};
    } else if j > 0 {
      CountPointsBefore(d, d.x, j - 1);
      assert PointsBefore(d, 0, j) == PointsBefore(d, d.x, j - 1);
    } else {
      assert PointsBefore(d, 0, 0) == {};
    }
  }

  /** There are exactly x_dim * y_dim lattice points. */
  lemma CountPoints(d: Dims)
    requires d.Valid()
    ensures |Points(d)| == d.x * d.y
    ensures |Points(d)| <= MAZE_MAX_X_DIM * MAZE_MAX_Y_DIM
  {
    CountPointsBefore(d, 0, d.y);
    assert Points(d) == PointsBefore(d, 0, d.y);
    AreaBound(d.x, d.y);
  }

  lemma AreaBound(x: int, y: int)
    requires 0 <= x <= MAZE_MAX_X_DIM && 0 <= y <= MAZE_MAX_Y_DIM
    ensures y * x <= MAZE_MAX_X_DIM * MAZE_MAX_Y_DIM
  {
    AtLeastOnce(MAZE_MAX_Y_DIM - y, x);
    Distribute(MAZE_MAX_Y_DIM - y, y, x);
  }

  /** What the flat layout guarantees about a set of points; everything the
      searches below need to know, and all of it linear in the row width. */
  ghost predicate GoodLattice(P: set<int>, w: int) {
    && w >= 2
    && (forall p | p in P :: 2 * w <= p && p + 2 * w < MAZE_SIZE)
    && (forall p, q | p in P && q in P :: KeptApart(p, q, w))
  }

  lemma PointsAreGood(d: Dims)
    requires d.Valid()
    ensures GoodLattice(Points(d), d.Width())
  {
    var w := d.Width();
    forall i, j | OnLattice(d, i, j)
      ensures 2 * w <= Point(d, i, j) && Point(d, i, j) + 2 * w < MAZE_SIZE
    {
      PointBounds(d, i, j);
    }
    forall i, j, a, b | OnLattice(d, i, j) && OnLattice(d, a, b)
      ensures KeptApart(Point(d, i, j), Point(d, a, b), w)
    {
      PointsKeptApart(d, i, j, a, b);
    }
  }

  ghost predicate KeptApart(p: int, q: int, w: int) {
    q != p + 1 && q != p + w - 1 && q != p + w && q != p + w + 1
  }

  lemma RowStartBound(d: Dims, j: int)
    requires d.Valid() && 0 <= j < d.y
    ensures 0 <= j * d.x <= MAZE_MAX_X_DIM * MAZE_MAX_Y_DIM - d.x
  {
    AtLeastOnce(j, d.x);
    AtLeastOnce(d.y - 1 - j, d.x);
    Distribute(d.y - 1 - j, j + 1, d.x);
    Distribute(j, 1, d.x);
    AreaBound(d.x, d.y);
  }

  lemma PointBounds(d: Dims, i: int, j: int)
    requires d.Valid() && OnLattice(d, i, j)
    ensures Point(d, i, j) % 2 == 1
    ensures 2 * d.Width() <= Point(d, i, j) && Point(d, i, j) + 2 * d.Width() < MAZE_SIZE
  {
    PointAddress(d, i, j);
    var q := j * d.x;
    RowStartBound(d, j);
    assert Point(d, i, j) == 2 * (i + 2 * q + 2 * d.x) + 1;
  }

  lemma PointsKeptApart(d: Dims, i: int, j: int, a: int, b: int)
    requires d.Valid() && OnLattice(d, i, j) && OnLattice(d, a, b)
    ensures KeptApart(Point(d, i, j), Point(d, a, b), d.Width())
  {
    PointAddress(d, i, j);
    PointAddress(d, a, b);
    AtLeastOnce(b - j, d.x);
    Distribute(b - j, j, d.x);
    var q, r := j * d.x, b * d.x;
    assert Point(d, a, b) - Point(d, i, j) == 2 * (a - i + 2 * (r - q));
  }

  /** A cell the generator may clear: a lattice point, or the cell between two. */
  ghost predicate Diggable(P: set<int>, w: int, c: int) {
    || c in P
    || (c - 1 in P && c + 1 in P)
    || (c - w in P && c + w in P)
  }

  /** The lattice shape: boundary, (even,even) and spare cells are plain walls. */
  ghost predicate LatticeShape(m: seq<Cell>, P: set<int>, w: int) {
    && |m| == MAZE_SIZE
    && forall c | 0 <= c < MAZE_SIZE && !Diggable(P, w, c) :: m[c].wall
  }

  lemma NeighbourAddresses(d: Dims, i: int, j: int)
    ensures Point(d, i, j - 1) == Point(d, i, j) - 2 * d.Width()
    ensures Point(d, i, j + 1) == Point(d, i, j) + 2 * d.Width()
    ensures Point(d, i - 1, j) == Point(d, i, j) - 2
    ensures Point(d, i + 1, j) == Point(d, i, j) + 2
  {
    PointAddress(d, i, j);
    PointAddress(d, i, j - 1);
    PointAddress(d, i, j + 1);
    Distribute(j - 1, 1, d.x);
    Distribute(j, 1, d.x);
  }

  /** Point neighbours in the four directions, by coordinates and by address. */
  lemma Neighbours(d: Dims, i: int, j: int)
    requires d.Valid() && OnLattice(d, i, j)
    ensures Point(d, i, j) in Points(d)
    ensures Point(d, i, j - 1) == Point(d, i, j) - 2 * d.Width()
    ensures Point(d, i, j + 1) == Point(d, i, j) + 2 * d.Width()
    ensures Point(d, i - 1, j) == Point(d, i, j) - 2
    ensures Point(d, i + 1, j) == Point(d, i, j) + 2
    ensures j > 0 ==> Point(d, i, j) - 2 * d.Width() in Points(d)
    ensures i > 0 ==> Point(d, i, j) - 2 in Points(d)
    ensures j < d.y - 1 ==> Point(d, i, j) + 2 * d.Width() in Points(d)
    ensures i < d.x - 1 ==> Point(d, i, j) + 2 in Points(d)
  {
    NeighbourAddresses(d, i, j);
    assert Point(d, i, j) in Points(d);
    if j > 0 { assert Point(d, i, j - 1) in Points(d); }
    if i > 0 { assert Point(d, i - 1, j) in Points(d); }
    if j < d.y - 1 { assert Point(d, i, j + 1) in Points(d); }
    if i < d.x - 1 { assert Point(d, i + 1, j) in Points(d); }
  }

  /** Point (i,j) is not in R but one of its lattice neighbours is. */
  ghost predicate Frontier(d: Dims, R: set<int>, i: int, j: int) {
    && OnLattice(d, i, j)
    && Point(d, i, j) !in R
    && (|| (j > 0 && Point(d, i, j - 1) in R)
        || (i > 0 && Point(d, i - 1, j) in R)
        || (i < d.x - 1 && Point(d, i + 1, j) in R)
        || (j < d.y - 1 && Point(d, i, j + 1) in R))
  }

  /** A set of points that holds the corner but not (i,j) has a frontier. */
  lemma {:induction false} FindFrontier(d: Dims, R: set<int>, i: int, j: int) returns (a: int, b: int)
    requires OnLattice(d, i, j) && Point(d, 0, 0) in R && Point(d, i, j) !in R
    ensures Frontier(d, R, a, b)
    decreases i + j
  {
    if i > 0 {
      if Point(d, i - 1, j) in R {
        a, b := i, j;
      } else {
        a, b := FindFrontier(d, R, i - 1, j);
      }
    } else if j > 0 {
      if Point(d, i, j - 1) in R {
        a, b := i, j;
      } else {
        a, b := FindFrontier(d, R, i, j - 1);
      }
    } else {
      assert false;
    }
  }
}
