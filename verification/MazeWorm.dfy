// The first phase of make_maze: worms dig until every lattice point is open.
module MazeWorm {
  import opened MazeGrid
  import opened MazePaths

  /** During this phase a cell is either solid or empty, and the lattice shape holds. */
  ghost predicate Wormed(m: seq<Cell>, P: set<int>, w: int) {
    && LatticeShape(m, P, w)
    && forall c | 0 <= c < |m| :: m[c] == MAZE_WALL || m[c] == MAZE_NONE
  }

  /** The lattice points still marked as walls. */
  ghost function WallPoints(m: seq<Cell>, P: set<int>): set<int> {
    set p | p in P && 0 <= p < |m| && m[p].wall
  }

  /** Eating the wall at a point takes exactly that point off the count. */
  lemma DigPoint(m: seq<Cell>, P: set<int>, w: int, p: int)
    requires GoodLattice(P, w) && Wormed(m, P, w) && p in P
    ensures 0 <= p < |m| && Wormed(m[p := MAZE_NONE], P, w)
    ensures WallPoints(m[p := MAZE_NONE], P) == WallPoints(m, P) - {p}
    ensures |WallPoints(m[p := MAZE_NONE], P)| == |WallPoints(m, P)| - (if m[p] == MAZE_WALL then 1 else 0)
  {
    DiggingKeepsShape(m, P, w, p);
    assert WallPoints(m[p := MAZE_NONE], P) == WallPoints(m, P) - {p};
  }

  /** Digging from one point to the next leaves the count alone. */
  lemma DigBetween(m: seq<Cell>, P: set<int>, w: int, p: int, s: int)
    requires GoodLattice(P, w) && Wormed(m, P, w) && p in P && p + 2 * s in P
    requires s == -w || s == 1 || s == w || s == -1
    ensures 0 <= p + s < |m| && Wormed(m[p + s := MAZE_NONE], P, w)
    ensures WallPoints(m[p + s := MAZE_NONE], P) == WallPoints(m, P)
  {
    var c := p + s;
    assert c !in P by { assert p in P; }
    assert Diggable(P, w, c);
    DiggingKeepsShape(m, P, w, c);
    assert WallPoints(m[c := MAZE_NONE], P) == WallPoints(m, P);
  }

  function AllWalls(): seq<Cell> {
    seq(MAZE_SIZE, _ => MAZE_WALL)
  }

  lemma FreshMaze(P: set<int>, w: int)
    requires GoodLattice(P, w)
    ensures Wormed(AllWalls(), P, w) && WallPoints(AllWalls(), P) == P
  {
  }

  // ----- choosing the next direction -----

  const DIR_UP := 0
  const DIR_RIGHT := 1
  const DIR_DOWN := 2
  const DIR_LEFT := 3

  /** turn_wt, by relative direction and whether the place ahead is a wall. */
  function TurnWeight(turn: int, wall: bool): int
    requires 0 <= turn < 4
  {
    if turn == 0 then (if wall then 84 else 1)
    else if turn == 2 then 3
    else (if wall then 9 else 1)
  }

  /** A direction is possible when it stays on the lattice. */
  predicate Possible(d: Dims, x: int, y: int, dir: int) {
    || (dir == DIR_UP && y > 1)
    || (dir == DIR_RIGHT && x < 2 * d.x - 1)
    || (dir == DIR_DOWN && y < 2 * d.y - 1)
    || (dir == DIR_LEFT && x > 1)
  }

  /** The flat distance to the cell next door in a direction. */
  function Stride(d: Dims, dir: int): int {
    if dir == DIR_UP then -d.Width() else if dir == DIR_RIGHT then 1
    else if dir == DIR_DOWN then d.Width() else -1
  }

  /** The chance, in parts of the total, that a worm facing `pref` picks `dir`. */
  ghost function Weight(m: seq<Cell>, d: Dims, x: int, y: int, pref: int, dir: int): int
    requires 0 <= dir < 4 && 0 <= pref < 4
  {
    var t := Index(d, x, y) + 2 * Stride(d, dir);
    if Possible(d, x, y, dir) && 0 <= t < |m| then TurnWeight((pref + 4 - dir) % 4, m[t] == MAZE_WALL) else 0
  }

  /** The weights of the directions before `dir`. */
  ghost function Before(m: seq<Cell>, d: Dims, x: int, y: int, pref: int, dir: int): int
    requires 0 <= dir <= 4 && 0 <= pref < 4
  {
    if dir == 0 then 0 else Before(m, d, x, y, pref, dir - 1) + Weight(m, d, x, y, pref, dir - 1)
  }

  /** One more direction weighed. */
  lemma WeighOne(m: seq<Cell>, d: Dims, i: int, j: int, pref: int, dir: int)
    requires d.Valid() && OnLattice(d, i, j) && |m| == MAZE_SIZE && 0 <= pref < 4 && 0 <= dir < 4
    ensures 0 <= Point(d, i, j) + 2 * Stride(d, dir) < MAZE_SIZE
    ensures Before(m, d, 2 * i + 1, 2 * j + 1, pref, dir + 1) ==
      Before(m, d, 2 * i + 1, 2 * j + 1, pref, dir) +
      if Possible(d, 2 * i + 1, 2 * j + 1, dir)
      then TurnWeight((pref + 4 - dir) % 4, m[Point(d, i, j) + 2 * Stride(d, dir)] == MAZE_WALL)
      else 0
  {
    hide Possible, TurnWeight, Index;
    StencilInside(d, i, j);
  }

  /** Where the next point in a direction is. */
  function Onwards(x: int, dir: int, forth: int, back: int): int {
    if dir == forth then x + 2 else if dir == back then x - 2 else x
  }

  /** A worm's chances, in parts of the total: none to leave the lattice; 84 to go straight
      on into a wall, 9 to turn aside into one, 1 to go on or aside where it is open
      already, and 3 to turn back. */
  lemma Chances(m: seq<Cell>, d: Dims, i: int, j: int, pref: int, dir: int)
    requires d.Valid() && OnLattice(d, i, j) && |m| == MAZE_SIZE && 0 <= pref < 4 && 0 <= dir < 4
    ensures var x, y := 2 * i + 1, 2 * j + 1;
      var x', y' := Onwards(x, dir, DIR_RIGHT, DIR_LEFT), Onwards(y, dir, DIR_DOWN, DIR_UP);
      && 0 <= Index(d, x', y') < |m|
      && Before(m, d, x, y, pref, dir + 1) - Before(m, d, x, y, pref, dir) ==
           if !(0 < x' < 2 * d.x && 0 < y' < 2 * d.y) then 0
           else if TurnsBack(pref, dir) then 3
           else if m[Index(d, x', y')] != MAZE_WALL then 1
           else if dir == pref then 84
           else 9
  {
    hide Before, Index, Stride, Possible, Onwards;
    WeighOne(m, d, i, j, pref, dir);
    OnwardsIs(d, i, j, dir);
  }

  lemma OnwardsIs(d: Dims, i: int, j: int, dir: int)
    requires d.Valid() && OnLattice(d, i, j) && 0 <= dir < 4
    ensures var x, y := 2 * i + 1, 2 * j + 1;
      var x', y' := Onwards(x, dir, DIR_RIGHT, DIR_LEFT), Onwards(y, dir, DIR_DOWN, DIR_UP);
      && Index(d, x', y') == Point(d, i, j) + 2 * Stride(d, dir)
      && (Possible(d, x, y, dir) <==> 0 < x' < 2 * d.x && 0 < y' < 2 * d.y)
  {
    NeighbourAddresses(d, i, j);
    hide Index;
    assert Point(d, i, j - 1) == Index(d, 2 * i + 1, 2 * j - 1) && Point(d, i, j + 1) == Index(d, 2 * i + 1, 2 * j + 3);
    assert Point(d, i - 1, j) == Index(d, 2 * i - 1, 2 * j + 1) && Point(d, i + 1, j) == Index(d, 2 * i + 3, 2 * j + 1);
  }

  /** On a maze at least two points wide a worm always has somewhere to go. */
  lemma SomewhereToGo(m: seq<Cell>, d: Dims, i: int, j: int, pref: int)
    requires d.Valid() && OnLattice(d, i, j) && |m| == MAZE_SIZE && 0 <= pref < 4
    ensures Before(m, d, 2 * i + 1, 2 * j + 1, pref, 4) > 0
  {
    StencilInside(d, i, j);
    var x, y := 2 * i + 1, 2 * j + 1;
    assert Weight(m, d, x, y, pref, DIR_RIGHT) + Weight(m, d, x, y, pref, DIR_LEFT) > 0;
    assert Before(m, d, x, y, pref, 1) == Weight(m, d, x, y, pref, 0);
    assert Before(m, d, x, y, pref, 2) == Before(m, d, x, y, pref, 1) + Weight(m, d, x, y, pref, 1);
    assert Before(m, d, x, y, pref, 3) == Before(m, d, x, y, pref, 2) + Weight(m, d, x, y, pref, 2);
  }

  /** The places a worm looks at are inside the array. */
  lemma StencilInside(d: Dims, i: int, j: int)
    requires d.Valid() && OnLattice(d, i, j)
    ensures forall dir | 0 <= dir < 4 ::
      0 <= Point(d, i, j) + 2 * Stride(d, dir) < MAZE_SIZE
  {
    PointBounds(d, i, j);
  }

  /** The point a worm reaches by moving in a possible direction. */
  lemma NextPoint(d: Dims, i: int, j: int, dir: int) returns (a: int, b: int)
    requires d.Valid() && OnLattice(d, i, j) && 0 <= dir < 4 && Possible(d, 2 * i + 1, 2 * j + 1, dir)
    ensures OnLattice(d, a, b) && Point(d, a, b) == Point(d, i, j) + 2 * Stride(d, dir)
    ensures Point(d, i, j) in Points(d) && Point(d, a, b) in Points(d)
    ensures a == (if dir == DIR_RIGHT then i + 1 else if dir == DIR_LEFT then i - 1 else i)
    ensures b == (if dir == DIR_DOWN then j + 1 else if dir == DIR_UP then j - 1 else j)
  {
    Neighbours(d, i, j);
    a := if dir == DIR_RIGHT then i + 1 else if dir == DIR_LEFT then i - 1 else i;
    b := if dir == DIR_DOWN then j + 1 else if dir == DIR_UP then j - 1 else j;
    Neighbours(d, a, b);
  }

  // ----- the trail of a worm -----

  /** Direction `dir` is the one that a roll of the dice picks for a worm facing `pref`. */
  ghost predicate Picked(m: seq<Cell>, d: Dims, x: int, y: int, pref: int, roll: nat, dir: int) {
    && 0 <= dir < 4 && 0 <= pref < 4 && Before(m, d, x, y, pref, 4) > 0
    && Before(m, d, x, y, pref, dir) <= roll % Before(m, d, x, y, pref, 4) < Before(m, d, x, y, pref, dir + 1)
  }

  predicate TurnsBack(pref: int, dir: int) {
    (dir - pref + 4) % 4 == 2
  }

  /** Where a worm is after a path of directions, and where it faces. */
  function XAfter(x: int, path: seq<int>): int {
    if path == [] then x
    else
      var dir := path[|path| - 1];
      XAfter(x, path[..|path| - 1]) + (if dir == DIR_RIGHT then 2 else if dir == DIR_LEFT then -2 else 0)
  }

  function YAfter(y: int, path: seq<int>): int {
    if path == [] then y
    else
      var dir := path[|path| - 1];
      YAfter(y, path[..|path| - 1]) + (if dir == DIR_DOWN then 2 else if dir == DIR_UP then -2 else 0)
  }

  function Heading(first: int, path: seq<int>): int {
    if path == [] then first else path[|path| - 1]
  }

  /** The maze with cell c emptied, if there is one. */
  ghost function Emptied(m: seq<Cell>, c: int): (r: seq<Cell>)
    ensures |r| == |m|
  {
    if 0 <= c < |m| then m[c := MAZE_NONE] else m
  }

  /** The maze after a worm has dug along a path from (x,y). */
  ghost function Dug(m: seq<Cell>, d: Dims, x: int, y: int, path: seq<int>): (r: seq<Cell>)
    ensures |r| == |m|
  {
    if path == [] then m
    else
      var front, dir := path[..|path| - 1], path[|path| - 1];
      var c := Index(d, XAfter(x, front), YAfter(y, front)) + Stride(d, dir);
      Emptied(Emptied(Dug(m, d, x, y, front), c), c + Stride(d, dir))
  }

  /** Every step of the path was picked by its roll, and none turned back. */
  ghost predicate Crawled(m: seq<Cell>, d: Dims, x: int, y: int, first: int, path: seq<int>, rolls: seq<nat>) {
    && |rolls| == |path|
    && forall k | 0 <= k < |path| ::
         && Picked(Dug(m, d, x, y, path[..k]), d, XAfter(x, path[..k]), YAfter(y, path[..k]), Heading(first, path[..k]), rolls[k], path[k])
         && !TurnsBack(Heading(first, path[..k]), path[k])
  }

  lemma CrawlOn(m: seq<Cell>, d: Dims, x: int, y: int, first: int, path: seq<int>, rolls: seq<nat>, dir: int, roll: nat)
    requires Crawled(m, d, x, y, first, path, rolls)
    requires Picked(Dug(m, d, x, y, path), d, XAfter(x, path), YAfter(y, path), Heading(first, path), roll, dir)
    requires !TurnsBack(Heading(first, path), dir)
    ensures Crawled(m, d, x, y, first, path + [dir], rolls + [roll])
    ensures Heading(first, path + [dir]) == dir
    ensures XAfter(x, path + [dir]) == XAfter(x, path) + (if dir == DIR_RIGHT then 2 else if dir == DIR_LEFT then -2 else 0)
    ensures YAfter(y, path + [dir]) == YAfter(y, path) + (if dir == DIR_DOWN then 2 else if dir == DIR_UP then -2 else 0)
    ensures var c := Index(d, XAfter(x, path), YAfter(y, path)) + Stride(d, dir);
      Dug(m, d, x, y, path + [dir]) == Emptied(Emptied(Dug(m, d, x, y, path), c), c + Stride(d, dir))
  {
    hide Picked, TurnsBack, Emptied;
    var p', r' := path + [dir], rolls + [roll];
    assert p'[..|path|] == path;
    forall k | 0 <= k < |p'|
      ensures Picked(Dug(m, d, x, y, p'[..k]), d, XAfter(x, p'[..k]), YAfter(y, p'[..k]), Heading(first, p'[..k]), r'[k], p'[k])
      ensures !TurnsBack(Heading(first, p'[..k]), p'[k])
    {
      if k < |path| {
        assert p'[..k] == path[..k];
      }
    }
  }

  lemma NotYetCrawled(m: seq<Cell>, d: Dims, x: int, y: int, first: int)
    ensures Crawled(m, d, x, y, first, [], []) && Dug(m, d, x, y, []) == m && Heading(first, []) == first
    ensures XAfter(x, []) == x && YAfter(y, []) == y
  {
  }
}
