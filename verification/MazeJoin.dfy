// The second phase of make_maze: what one repair does, and why scanning the
// lattice always finds the next repair.
module MazeJoin {
  import opened MazeGrid
  import opened MazePaths
  import opened MazeWorm

  /** Nothing has been put in the maze yet. */
  ghost predicate Unfurnished(m: seq<Cell>) {
    forall c | 0 <= c < |m| :: m[c].fruit == 0 && !m[c].exit
  }

  /** The maze during the second phase. */
  ghost predicate Repairing(m: seq<Cell>, P: set<int>, w: int, origin: int) {
    && LatticeShape(m, P, w) && WallPoints(m, P) == {} && Unfurnished(m)
    && ReachedAreClosed(m, w, P, origin)
  }

  lemma WormedIsReady(m: seq<Cell>, P: set<int>, w: int, origin: int)
    requires GoodLattice(P, w) && Wormed(m, P, w) && WallPoints(m, P) == {} && origin in P
    ensures origin in Unreached(m, P) && Unreached(m, P) == P
    ensures Repairing(Marked(m, Component(m, w, P, origin)), P, w, origin)
    ensures |Unreached(Marked(m, Component(m, w, P, origin)), P)| == |P| - |Component(m, w, P, origin)|
  {
    var N := Component(m, w, P, origin);
    FirstMark(m, w, P, origin);
    assert Unreached(m, P) == P;
    assert Unreached(Marked(m, N), P) == P - N;
    assert WallPoints(Marked(m, N), P) == {};
    assert N <= P;
    CountDifference(P, N);
  }

  lemma CountDifference<T>(A: set<T>, B: set<T>)
    requires B <= A
    ensures |A - B| == |A| - |B|
  {
    assert A == (A - B) + B;
  }

  /** Cell c is the wall between the unreached point p and the reached point r. */
  ghost predicate Breakable(m: seq<Cell>, P: set<int>, w: int, p: int, r: int, c: int) {
    && p in Unreached(m, P) && r in Reached(m, P) && p + r == 2 * c
    && (c == p - w || c == p + w || c == p - 1 || c == p + 1)
  }

  /** What a point sees past the four cells beside it. */
  lemma Beside(m: seq<Cell>, d: Dims, i: int, j: int)
    requires d.Valid() && OnLattice(d, i, j) && |m| == MAZE_SIZE && Point(d, i, j) in Unreached(m, Points(d))
    ensures var p, w := Point(d, i, j), d.Width();
      && 2 <= w && 2 * w <= p && p + 2 * w < |m|
      && (j > 0 && m[p - 2 * w].reach ==> Breakable(m, Points(d), w, p, p - 2 * w, p - w))
      && (i > 0 && m[p - 2].reach ==> Breakable(m, Points(d), w, p, p - 2, p - 1))
      && (i < d.x - 1 && m[p + 2].reach ==> Breakable(m, Points(d), w, p, p + 2, p + 1))
      && (j < d.y - 1 && m[p + 2 * w].reach ==> Breakable(m, Points(d), w, p, p + 2 * w, p + w))
      && (Frontier(d, Reached(m, Points(d)), i, j) <==>
          || (j > 0 && m[p - 2 * w].reach) || (i > 0 && m[p - 2].reach)
          || (i < d.x - 1 && m[p + 2].reach) || (j < d.y - 1 && m[p + 2 * w].reach))
  {
    Neighbours(d, i, j);
    PointBounds(d, i, j);
    hide Points, Point;
  }

  lemma BreakIsSafe(m: seq<Cell>, P: set<int>, w: int, origin: int, p: int, r: int, c: int)
    requires GoodLattice(P, w) && Repairing(m, P, w, origin) && Breakable(m, P, w, p, r, c)
    ensures 0 <= c < |m| && LatticeShape(m[c := MAZE_NONE], P, w)
    ensures Unfurnished(m[c := MAZE_NONE]) && WallPoints(m[c := MAZE_NONE], P) == {}
    ensures p in Unreached(m[c := MAZE_NONE], P)
  {
    BreakKeepsMarks(m, w, P, p, r, c);
    DiggingKeepsShape(m, P, w, c);
    assert WallPoints(m[c := MAZE_NONE], P) <= WallPoints(m, P);
  }

  /** One repair: the phase invariant survives and the count drops by the number
      of points the marker reports. */
  lemma RepairStep(m: seq<Cell>, P: set<int>, w: int, origin: int, p: int, r: int, c: int)
    requires GoodLattice(P, w) && Repairing(m, P, w, origin) && Breakable(m, P, w, p, r, c)
    requires 0 <= c < |m|
    ensures var m1 := m[c := MAZE_NONE];
            var N := Component(m1, w, Unreached(m1, P), p);
            && Repairing(Marked(m1, N), P, w, origin)
            && |Unreached(Marked(m1, N), P)| == |Unreached(m, P)| - |N|
            && |N| > 0
  {
    var m1 := m[c := MAZE_NONE];
    var N := Component(m1, w, Unreached(m1, P), p);
    BreakAndMark(m, w, P, origin, p, r, c);
    BreakIsSafe(m, P, w, origin, p, r, c);
    CountDifference(Unreached(m, P), N);
    MarkingIsHarmless(m1, P, w, N);
    assert N != {};
  }

  lemma MarkingIsHarmless(m: seq<Cell>, P: set<int>, w: int, N: set<int>)
    requires LatticeShape(m, P, w) && Unfurnished(m) && WallPoints(m, P) == {}
    ensures LatticeShape(Marked(m, N), P, w) && Unfurnished(Marked(m, N)) && WallPoints(Marked(m, N), P) == {}
  {
    assert WallPoints(Marked(m, N), P) <= WallPoints(m, P);
  }

  /** m' has the walls of m, but for one that has been knocked down. */
  ghost predicate OneWallLess(m: seq<Cell>, m': seq<Cell>) {
    exists c :: 0 <= c < |m| && m[c].wall && |m'| == |m|
                && forall k | 0 <= k < |m| :: m'[k].wall == (m[k].wall && k != c)
  }

  /** A repair removes one wall: were the cell open, the point would have been reached. */
  lemma RepairRemovesOneWall(m: seq<Cell>, P: set<int>, w: int, origin: int, p: int, r: int, c: int, N: set<int>)
    requires GoodLattice(P, w) && Repairing(m, P, w, origin) && Breakable(m, P, w, p, r, c)
    requires 0 <= c < |m|
    ensures OneWallLess(m, Marked(m[c := MAZE_NONE], N))
  {
    assert !m[c].wall ==> Edge(m, w, r, p);
  }

  // ----- the scan -----

  /** Steps of the scan from (i,j) until it stands on (a,b): at least one. */
  ghost function ScanDistance(d: Dims, i: int, j: int, a: int, b: int): int {
    if Rank(d, a, b) > Rank(d, i, j) then Rank(d, a, b) - Rank(d, i, j)
    else Rank(d, a, b) - Rank(d, i, j) + d.x * d.y
  }

  /** The scan visits the points row by row and starts over after the last. */
  lemma ScanAdvances(d: Dims, i: int, j: int, a: int, b: int)
    requires d.Valid() && OnLattice(d, i, j) && OnLattice(d, a, b)
    ensures var i' := if i + 1 < d.x then i + 1 else 0;
            var j' := if i + 1 < d.x then j else if j + 1 < d.y then j + 1 else 0;
            && OnLattice(d, i', j')
            && ((i', j') == (a, b) || ScanDistance(d, i', j', a, b) == ScanDistance(d, i, j, a, b) - 1)
    ensures 1 <= ScanDistance(d, i, j, a, b) <= d.x * d.y
  {
    var i' := if i + 1 < d.x then i + 1 else 0;
    var j' := if i + 1 < d.x then j else if j + 1 < d.y then j + 1 else 0;
    RankBound(d, i, j);
    RankBound(d, a, b);
    RankBound(d, i', j');
    RankOfNext(d, i, j);
    if Rank(d, i', j') == Rank(d, a, b) {
      PairInjective(d.x, i', j', a, b);
    }
  }

  lemma RankOfNext(d: Dims, i: int, j: int)
    requires d.Valid() && OnLattice(d, i, j)
    ensures i + 1 < d.x ==> Rank(d, i + 1, j) == Rank(d, i, j) + 1
    ensures i + 1 == d.x ==> Rank(d, 0, j + 1) == Rank(d, i, j) + 1
    ensures i + 1 == d.x && j + 1 == d.y ==> Rank(d, i, j) == d.x * d.y - 1
    ensures Rank(d, 0, 0) == 0
  {
    Distribute(j, 1, d.x);
  }

  /** While a point is unreached, some unreached point touches a reached one. */
  lemma FrontierExists(d: Dims, m: seq<Cell>) returns (a: int, b: int)
    requires d.Valid() && |m| == MAZE_SIZE && Unreached(m, Points(d)) != {}
    requires Point(d, 0, 0) in Reached(m, Points(d))
    ensures Frontier(d, Reached(m, Points(d)), a, b)
  {
    var p :| p in Unreached(m, Points(d));
    var i, j :| OnLattice(d, i, j) && Point(d, i, j) == p;
    a, b := FindFrontier(d, Reached(m, Points(d)), i, j);
  }
}
