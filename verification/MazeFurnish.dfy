// What make_maze leaves behind: a connected maze with its fruit and its exit.
module MazeFurnish {
  import opened MazeGrid
  import opened MazePaths
  import opened MazeWorm
  import opened MazeJoin

  ghost function FruitCells(m: seq<Cell>): set<int> {
    set c | 0 <= c < |m| && m[c].fruit != 0
  }

  ghost function Fruitless(m: seq<Cell>, P: set<int>): set<int> {
    set p | p in P && 0 <= p < |m| && m[p].fruit == 0
  }

  ghost function ExitCells(m: seq<Cell>): set<int> {
    set c | 0 <= c < |m| && m[c].exit
  }

  ghost function ReachCells(m: seq<Cell>): set<int> {
    set c | 0 <= c < |m| && m[c].reach
  }

  /** Two mazes with the same walls. */
  ghost predicate SameWalls(m: seq<Cell>, m': seq<Cell>) {
    |m| == |m'| && forall c | 0 <= c < |m| :: m[c].wall == m'[c].wall
  }

  /** The labyrinth itself: lattice shape, open points, and a walk of open cells
      between any two of them. */
  ghost predicate Labyrinth(m: seq<Cell>, P: set<int>, w: int) {
    && LatticeShape(m, P, w)
    && (forall p | p in P :: Open(m, p))
    && (forall p, q | p in P && q in P :: Walk(m, w, p, q))
  }

  lemma WalkNeedsOnlyWalls(m: seq<Cell>, m': seq<Cell>, w: int, p: int, q: int)
    requires SameWalls(m, m') && Walk(m, w, p, q)
    ensures Walk(m', w, p, q)
  {
    var s :| OpenWalk(m, w, s) && s[0] == p && s[|s| - 1] == q;
    assert OpenWalk(m', w, s);
  }

  lemma LabyrinthNeedsOnlyWalls(m: seq<Cell>, m': seq<Cell>, P: set<int>, w: int)
    requires SameWalls(m, m') && Labyrinth(m, P, w)
    ensures Labyrinth(m', P, w)
  {
    forall p, q | p in P && q in P ensures Walk(m', w, p, q) {
      WalkNeedsOnlyWalls(m, m', w, p, q);
    }
    forall p | p in P ensures Open(m', p) {
      assert Open(m, p);
    }
  }

  /** When the second phase stops, every pair of points is joined by open cells. */
  lemma RepairedIsLabyrinth(m: seq<Cell>, P: set<int>, w: int, origin: int)
    requires GoodLattice(P, w) && Repairing(m, P, w, origin) && Unreached(m, P) == {}
    ensures Labyrinth(m, P, w)
  {
    forall p | p in P ensures Open(m, p) && p in Reached(m, P) {
      assert p !in WallPoints(m, P) && p !in Unreached(m, P);
    }
    forall p, q | p in P && q in P ensures Walk(m, w, p, q) {
      ConnectedSymmetric(m, w, P, origin, p);
      ConnectedTransitive(m, w, P, p, origin, q);
      ConnectedWalk(m, w, P, p, q);
    }
  }

  /** An open cell is a lattice point, or lies between two open lattice points. */
  lemma OpenCellsJoinPoints(m: seq<Cell>, P: set<int>, w: int, c: int)
    requires Labyrinth(m, P, w) && Open(m, c)
    ensures c in P || (Open(m, c - 1) && Open(m, c + 1)) || (Open(m, c - w) && Open(m, c + w))
  {
    assert Diggable(P, w, c);
  }

  /** The maze with the MAZE_REACH bit cleared on the cells of S. */
  ghost function Cleared(m: seq<Cell>, S: set<int>): (r: seq<Cell>)
    ensures |r| == |m|
  {
    seq(|m|, c requires 0 <= c < |m| => if c in S then m[c].(reach := false) else m[c])
  }

  lemma ClearOne(m: seq<Cell>, S: set<int>, c: int)
    requires 0 <= c < |m|
    ensures Cleared(m, S)[c := Cleared(m, S)[c].(reach := false)] == Cleared(m, S + {c})
  {
  }

  /** The points of the columns before i and of the first j rows of column i. */
  ghost function ColumnsBefore(d: Dims, i: int, j: int): set<int> {
    set a, b | 0 <= a < d.x && 0 <= b < d.y && (a < i || (a == i && b < j)) :: Point(d, a, b)
  }

  lemma NextInColumn(d: Dims, i: int, j: int)
    requires OnLattice(d, i, j)
    ensures ColumnsBefore(d, i, j + 1) == ColumnsBefore(d, i, j) + {Point(d, i, j)}
  {
  }

  /** A maze with n pieces of fruit, all on lattice points, and nothing unveiled. */
  ghost predicate Fruited(m: seq<Cell>, P: set<int>, w: int, n: int) {
    && Labyrinth(m, P, w)
    && FruitCells(m) <= P && |FruitCells(m)| == n
    && (forall c | 0 <= c < |m| :: 0 <= m[c].fruit <= NUM_FRUIT_TYPES)
    && ReachCells(m) == {}
  }

  lemma ClearedIsFruited(m: seq<Cell>, P: set<int>, w: int, origin: int)
    requires GoodLattice(P, w) && Repairing(m, P, w, origin) && Unreached(m, P) == {}
    ensures Fruited(Cleared(m, P), P, w, 0) && ExitCells(Cleared(m, P)) == {}
  {
    RepairedIsLabyrinth(m, P, w, origin);
    LabyrinthNeedsOnlyWalls(m, Cleared(m, P), P, w);
    assert FruitCells(Cleared(m, P)) == {};
  }

  /** m' is m with one more fruit, on a point of P that had none. */
  ghost predicate FruitAdded(m: seq<Cell>, m': seq<Cell>, P: set<int>) {
    exists p, f: nat :: p in P && 0 <= p < |m| && 1 <= f <= NUM_FRUIT_TYPES && m[p].fruit == 0
                        && m' == m[p := m[p].(fruit := f)]
  }

  lemma PutFruit(m: seq<Cell>, P: set<int>, w: int, n: int, p: int, f: nat)
    requires Fruited(m, P, w, n) && p in P && 0 <= p < |m| && m[p].fruit == 0 && 1 <= f <= NUM_FRUIT_TYPES
    ensures Fruited(m[p := m[p].(fruit := f)], P, w, n + 1) && FruitAdded(m, m[p := m[p].(fruit := f)], P)
    ensures ExitCells(m[p := m[p].(fruit := f)]) == ExitCells(m)
  {
    var m' := m[p := m[p].(fruit := f)];
    LabyrinthNeedsOnlyWalls(m, m', P, w);
    assert FruitCells(m') == FruitCells(m) + {p};
    assert ReachCells(m') <= ReachCells(m);
  }

  lemma PutExit(m: seq<Cell>, P: set<int>, w: int, n: int, p: int)
    requires Fruited(m, P, w, n) && p in P && 0 <= p < |m| && ExitCells(m) == {}
    ensures Fruited(m[p := m[p].(exit := true)], P, w, n)
    ensures ExitCells(m[p := m[p].(exit := true)]) == {p}
  {
    var m' := m[p := m[p].(exit := true)];
    LabyrinthNeedsOnlyWalls(m, m', P, w);
    assert FruitCells(m') == FruitCells(m);
    assert ReachCells(m') <= ReachCells(m);
    assert ExitCells(m') <= ExitCells(m) + {p};
  }
}
