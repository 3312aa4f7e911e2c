// make_maze: the worm phase, the repair phase and the furnishing of the maze,
// on the static variables of mp2/maze.c.
module MazeGen {
  import opened MazeGrid
  import opened MazePaths
  import opened MazeDraws
  import opened MazeDice
  import opened MazeMark
  import opened MazeWorm
  import opened MazeJoin
  import opened MazeFurnish

  /** How a call that draws random numbers ends. The outcomes of random() are a
      finite tape; a call that would need more of them than the tape holds is
      cut short, and nothing is claimed about it. */
  datatype Outcome = Failure | Success | OutOfRandom

  class Maze {
    const maze: array<Cell>
    var dims: Dims
    var nFruits: int
    var exitX: int
    var exitY: int
    var tape: seq<nat>

    constructor (tape: seq<nat>)
      ensures fresh(maze) && maze.Length == MAZE_SIZE
      ensures this.tape == tape
    {
      maze := new Cell[MAZE_SIZE](_ => MAZE_NONE);
      dims := Dims(0, 0);
      nFruits, exitX, exitY := 0, 0, 0;
      this.tape := tape;
    }

    ghost predicate Sized()
      reads this
    {
      dims.Valid() && maze.Length == MAZE_SIZE
    }

    /** random() % n */
    method Random(n: int) returns (ok: bool, r: int)
      requires n > 0
      modifies this`tape
      ensures ok == (old(tape) != [])
      ensures ok ==> tape == old(tape)[1..] && 0 <= r < n && r == old(tape)[0] % n
      ensures !ok ==> tape == []
    {
      if tape == [] {
        return false, 0;
      }
      r := tape[0] % n;
      tape := tape[1..];
      ok := true;
    }

    /** A random (odd,odd) lattice point, from two random numbers. */
    method RandomPoint() returns (ok: bool, x: int, y: int, ghost i: int, ghost j: int)
      requires Sized()
      modifies this`tape
      ensures ok == (|old(tape)| >= 2)
      ensures ok ==> tape == old(tape)[2..] && i == old(tape)[0] % dims.x && j == old(tape)[1] % dims.y
      ensures ok ==> OnLattice(dims, i, j) && x == 2 * i + 1 && y == 2 * j + 1
      ensures !ok ==> tape == []
    {
      var a, b;
      x, y, i, j := 0, 0, 0, 0;
      ok, a := Random(dims.x);
      if ok {
        ok, b := Random(dims.y);
        if ok {
          x, y := a * 2 + 1, b * 2 + 1;
          i, j := a, b;
        }
      }
    }

    /** The running total with direction `dir` added: its weight if the worm can go there. */
    method AddWeight(total: int, x: int, y: int, pref: int, dir: int, ghost i: int, ghost j: int) returns (total': int)
      requires Sized() && OnLattice(dims, i, j) && x == 2 * i + 1 && y == 2 * j + 1 && 0 <= pref < 4 && 0 <= dir < 4
      requires total == Before(maze[..], dims, x, y, pref, dir)
      ensures total' == Before(maze[..], dims, x, y, pref, dir + 1)
    {
      WeighOne(maze[..], dims, i, j, pref, dir);
      hide Before, TurnWeight, Index, Possible, Stride;
      total' := total;
      if Possible(dims, x, y, dir) {
        total' := total' + TurnWeight((pref + 4 - dir) % 4, maze[Index(dims, x, y) + 2 * Stride(dims, dir)] == MAZE_WALL);
      }
    }

    /** The cumulative weights of the four directions for a worm at (x,y). */
    method WeighDirections(x: int, y: int, pref: int, ghost i: int, ghost j: int) returns (wt: array<int>)
      requires Sized() && OnLattice(dims, i, j) && x == 2 * i + 1 && y == 2 * j + 1 && 0 <= pref < 4
      ensures fresh(wt) && wt.Length == 4
      ensures forall k | 0 <= k < 4 :: wt[k] == Before(maze[..], dims, x, y, pref, k + 1)
    {
      assert Before(maze[..], dims, x, y, pref, 0) == 0;
      hide Before;
      wt := new int[4];
      ghost var m := maze[..];
      var total := 0;
      total := AddWeight(total, x, y, pref, DIR_UP, i, j);
      wt[0] := total;
      total := AddWeight(total, x, y, pref, DIR_RIGHT, i, j);
      wt[1] := total;
      total := AddWeight(total, x, y, pref, DIR_DOWN, i, j);
      wt[2] := total;
      total := AddWeight(total, x, y, pref, DIR_LEFT, i, j);
      wt[3] := total;
      assert maze[..] == m;
    }

    /** The weighted choice of a worm's next direction: the cumulative-weight
        scan always stops, on a direction that stays on the lattice. */
    method PickDirection(x: int, y: int, pref: int, ghost i: int, ghost j: int) returns (ok: bool, dir: int)
      requires Sized() && OnLattice(dims, i, j) && x == 2 * i + 1 && y == 2 * j + 1 && 0 <= pref < 4
      modifies this`tape
      ensures ok == (old(tape) != [])
      ensures ok ==> tape == old(tape)[1..] && 0 <= dir < 4 && Possible(dims, x, y, dir)
      ensures Before(maze[..], dims, x, y, pref, 4) > 0
      ensures ok ==> Picked(maze[..], dims, x, y, pref, old(tape)[0], dir)
      ensures !ok ==> tape == []
    {
      ghost var m := maze[..];
      SomewhereToGo(m, dims, i, j, pref);
      var wt := WeighDirections(x, y, pref, i, j);
      var pick;
      ok, pick := Random(wt[3]);
      dir := 0;
      if ok {
        while pick >= wt[dir]
          invariant 0 <= dir < 4
          invariant Before(m, dims, x, y, pref, dir) <= pick
          decreases 4 - dir
        {
          assert wt[dir] == Before(m, dims, x, y, pref, dir + 1);
          dir := dir + 1;
        }
        assert Before(m, dims, x, y, pref, dir + 1) == wt[dir];
        assert Weight(m, dims, x, y, pref, dir) > 0;
      }
    }
  
    /** memset of the whole array to MAZE_WALL */
    method FillWithWalls()
      requires maze.Length == MAZE_SIZE
      modifies maze
      ensures maze[..] == AllWalls()
    {
      forall c | 0 <= c < maze.Length {
        maze[c] := MAZE_WALL;
      }
    }

    /** A worm at (x,y), and `remaining` points still to be cleared. */
    ghost predicate WormAt(x: int, y: int, i: int, j: int, remaining: int)
      reads this, maze
    {
      && Sized() && OnLattice(dims, i, j) && x == 2 * i + 1 && y == 2 * j + 1
      && Wormed(maze[..], Points(dims), dims.Width())
      && remaining == |WallPoints(maze[..], Points(dims))|
    }

    /** Clear the cell beside point p and eat the wall, if any, at the point beyond. */
    method DigStep(p: int, s: int, remaining: int, ghost P: set<int>, ghost w: int) returns (remaining': int)
      requires GoodLattice(P, w) && Wormed(maze[..], P, w) && remaining == |WallPoints(maze[..], P)|
      requires p in P && p + 2 * s in P && (s == -w || s == 1 || s == w || s == -1)
      modifies maze
      ensures Wormed(maze[..], P, w) && remaining' == |WallPoints(maze[..], P)|
      ensures 0 <= p + s < maze.Length && 0 <= p + 2 * s < maze.Length
      ensures maze[..] == old(maze[..])[p + s := MAZE_NONE][p + 2 * s := MAZE_NONE]
    {
      ghost var m, q := maze[..], p + 2 * s;
      DigBetween(m, P, w, p, s);
      ghost var m1 := m[p + s := MAZE_NONE];
      DigPoint(m1, P, w, q);
      maze[p + s] := MAZE_NONE;
      assert maze[..] == m1;
      remaining' := remaining;
      if maze[p + 2 * s] == MAZE_WALL {
        remaining' := remaining' - 1;
      }
      maze[p + 2 * s] := MAZE_NONE;
      assert maze[..] == m1[q := MAZE_NONE];
    }

    /** Move the worm one point in a possible direction, eating what is in the way. */
    method MoveWorm(x: int, y: int, remaining: int, dir: int, ghost i: int, ghost j: int)
      returns (x': int, y': int, remaining': int, ghost i': int, ghost j': int)
      requires WormAt(x, y, i, j, remaining) && 0 <= dir < 4 && Possible(dims, x, y, dir)
      modifies maze
      ensures WormAt(x', y', i', j', remaining')
      ensures x' == x + (if dir == DIR_RIGHT then 2 else if dir == DIR_LEFT then -2 else 0)
      ensures y' == y + (if dir == DIR_DOWN then 2 else if dir == DIR_UP then -2 else 0)
      ensures var c := Index(dims, x, y) + Stride(dims, dir);
              && 0 <= c < maze.Length && 0 <= c + Stride(dims, dir) < maze.Length
              && maze[..] == Emptied(Emptied(old(maze[..]), c), c + Stride(dims, dir))
    {
      PointsAreGood(dims);
      i', j' := NextPoint(dims, i, j, dir);
      x', y' := x, y;
      if dir == DIR_UP {
        y' := y - 2;
      } else if dir == DIR_RIGHT {
        x' := x + 2;
      } else if dir == DIR_DOWN {
        y' := y + 2;
      } else {
        x' := x - 2;
      }
      var p, s := Index(dims, x, y), Stride(dims, dir);
      assert p == Point(dims, i, j) && Index(dims, x', y') == Point(dims, i', j') == p + 2 * s;
      remaining' := DigStep(p, s, remaining, Points(dims), dims.Width());
    }
  
    /** Draw random points until one is still marked as a wall. */
    method RandomWallPoint() returns (ok: bool, x: int, y: int, ghost i: int, ghost j: int, ghost n: nat)
      requires Sized()
      modifies this`tape
      ensures ok ==> FirstHit(dims, old(tape), WallPoints(maze[..], Points(dims)), n, i, j, tape)
      ensures ok ==> OnLattice(dims, i, j) && x == 2 * i + 1 && y == 2 * j + 1
      ensures !ok ==> tape == [] && NoHit(dims, old(tape), WallPoints(maze[..], Points(dims)))
    {
      hide Drawn, NoHit, Points, Point;
      ghost var dice, W := tape, WallPoints(maze[..], Points(dims));
      FirstDraw(dims, dice, W);
      n := 0;
      ok, x, y, i, j := RandomPoint();
      if !ok { return; }
      PointInside(dims, i, j);
      while !maze[Index(dims, x, y)].wall
        invariant OnLattice(dims, i, j) && x == 2 * i + 1 && y == 2 * j + 1
        invariant Point(dims, i, j) == Index(dims, x, y) && Point(dims, i, j) in Points(dims)
        invariant 0 <= Index(dims, x, y) < maze.Length
        invariant Drawn(dims, dice, W, n, i, j) && 2 * n + 2 <= |dice| && tape == dice[2 * n + 2..]
        decreases |tape|
      {
        NextDraw(dims, dice, W, n, i, j, tape);
        ok, x, y, i, j := RandomPoint();
        if !ok { return; }
        PointInside(dims, i, j);
        n := n + 1;
      }
    }

    /** Find a point still marked as a wall and empty it: the start of a worm. */
    method DropWorm(remaining: int, ghost P: set<int>)
      returns (ok: bool, x: int, y: int, remaining': int, ghost i: int, ghost j: int, ghost n: nat)
      requires Sized() && P == Points(dims) && Wormed(maze[..], P, dims.Width())
      requires remaining == |WallPoints(maze[..], P)|
      modifies maze, this`tape
      ensures ok ==> |tape| < |old(tape)| && WormAt(x, y, i, j, remaining')
      ensures ok ==> FirstHit(dims, old(tape), WallPoints(old(maze[..]), P), n, i, j, tape)
      ensures ok ==> maze[..] == Emptied(old(maze[..]), Index(dims, x, y)) && remaining' == remaining - 1
      ensures !ok ==> tape == [] && NoHit(dims, old(tape), WallPoints(old(maze[..]), P))
    {
      remaining' := remaining;
      ok, x, y, i, j, n := RandomWallPoint();
      if !ok { return; }
      var p := Index(dims, x, y);
      PointsAreGood(dims);
      assert p == Point(dims, i, j) && p in P;
      DigPoint(maze[..], P, dims.Width(), p);
      maze[p] := MAZE_NONE;
      assert maze[..] == old(maze[..])[p := MAZE_NONE];
      remaining' := remaining - 1;
    }

    /** One worm, from its starting point until it turns back on itself: the dice alone
        decide its path, it never turns back but at the end, and it has dug its path and
        nothing else. */
    method RunWorm(x0: int, y0: int, remaining0: int, ghost i0: int, ghost j0: int)
      returns (ok: bool, x: int, y: int, remaining: int, ghost i: int, ghost j: int, ghost path: seq<int>, ghost last: int)
      requires WormAt(x0, y0, i0, j0, remaining0)
      modifies maze, this`tape
      ensures ok ==> WormAt(x, y, i, j, remaining)
      ensures ok ==> Ran(dims, old(maze[..]), x0, y0, old(tape), path, last, Digging(maze[..], tape, x, y))
      ensures ok ==> |tape| < |old(tape)|
      ensures !ok ==> tape == []
    {
      hide Wormed, WallPoints, Points, Crawled, Dug, XAfter, YAfter, Heading, Picked, Emptied;
      ghost var m, rolls := maze[..], tape;
      x, y, remaining, i, j, path, last := x0, y0, remaining0, i0, j0, [], 0;
      var pref, dir;
      ok, pref := Random(4);
      if !ok { return; }
      ghost var first := pref;
      NotYetCrawled(m, dims, x0, y0, first);
      assert rolls[1..1] == [];
      while true
        invariant WormAt(x, y, i, j, remaining) && 0 <= pref < 4
        invariant |path| + 1 <= |rolls| && tape == rolls[|path| + 1..]
        invariant Crawled(m, dims, x0, y0, first, path, rolls[1..|path| + 1]) && pref == Heading(first, path)
        invariant x == XAfter(x0, path) && y == YAfter(y0, path) && maze[..] == Dug(m, dims, x0, y0, path)
        decreases |tape|
      {
        ok, dir := PickDirection(x, y, pref, i, j);
        last := dir;
        if !ok { return; }
        if (dir - pref + 4) % 4 == 2 { return; }
        CrawlOn(m, dims, x0, y0, first, path, rolls[1..|path| + 1], dir, rolls[|path| + 1]);
        assert rolls[1..|path| + 1] + [rolls[|path| + 1]] == rolls[1..|path| + 2];
        pref := dir;
        x, y, remaining, i, j := MoveWorm(x, y, remaining, dir, i, j);
        path := path + [dir];
      }
    }

    /** The worm phase: on exit every lattice point is open. */
    method WormPhase() returns (ok: bool, x: int, y: int, ghost i: int, ghost j: int, ghost ds: seq<Digging>)
      requires Sized()
      modifies maze, this`tape
      ensures ok ==> WormAt(x, y, i, j, 0)
      ensures ok ==> DugFrom(dims, old(tape), ds) && |ds| > 0 && ds[|ds| - 1] == Digging(maze[..], tape, x, y)
      ensures !ok ==> tape == []
    {
      hide Worms, Wormed, WallPoints, Points, GoodLattice, AllWalls;
      ghost var P := Points(dims);
      PointsAreGood(dims);
      CountPoints(dims);
      FillWithWalls();
      FreshMaze(P, dims.Width());
      var remaining := dims.x * dims.y;
      ghost var start := Digging(maze[..], tape, 0, 0);
      NoWorms(dims, start);
      ok, x, y, remaining, i, j, ds := DropAndRun(remaining, P, 0, 0, [start]);
      if !ok { return; }
      while remaining > 0
        invariant WormAt(x, y, i, j, remaining) && Worms(dims, ds) && |ds| > 0
        invariant ds[0] == start && ds[|ds| - 1] == Digging(maze[..], tape, x, y)
        decreases |tape|
      {
        ok, x, y, remaining, i, j, ds := DropAndRun(remaining, P, x, y, ds);
        if !ok { return; }
      }
      AllDug(x, y, i, j);
    }

    /** One turn of the first phase: drop a worm and let it run. */
    method DropAndRun(remaining0: int, ghost P: set<int>, ghost x0: int, ghost y0: int, ghost ds0: seq<Digging>)
      returns (ok: bool, x: int, y: int, remaining: int, ghost i: int, ghost j: int, ghost ds: seq<Digging>)
      requires Sized() && P == Points(dims) && Wormed(maze[..], P, dims.Width()) && remaining0 == |WallPoints(maze[..], P)|
      requires Worms(dims, ds0) && |ds0| > 0 && ds0[|ds0| - 1] == Digging(maze[..], tape, x0, y0)
      modifies maze, this`tape
      ensures ok ==> WormAt(x, y, i, j, remaining) && |tape| < |old(tape)|
      ensures ok ==> Worms(dims, ds) && |ds| > 0 && ds[0] == ds0[0] && ds[|ds| - 1] == Digging(maze[..], tape, x, y)
      ensures !ok ==> tape == []
    {
      hide Worms, Ran, Wormed, WallPoints, Points, FirstHit, Index, Emptied;
      ds := ds0;
      ghost var s := Digging(maze[..], tape, x0, y0);
      ghost var n, path, last, a, b;
      ok, x, y, remaining, a, b, n := DropWorm(remaining0, P);
      i, j := a, b;
      if !ok { return; }
      ghost var rest := tape;
      ok, x, y, remaining, i, j, path, last := RunWorm(x, y, remaining, a, b);
      if !ok { return; }
      ghost var t := Digging(maze[..], tape, x, y);
      assert DugBy(dims, s, Worm(n, a, b, path, last), rest, t);
      NextWorm(dims, ds0, Worm(n, a, b, path, last), rest, t);
      ds := ds0 + [t];
    }
  
    /** The second phase at lattice point (x,y), with `remaining` points unreached. */
    ghost predicate JoiningAt(x: int, y: int, i: int, j: int, remaining: int)
      reads this, maze
    {
      && Sized() && OnLattice(dims, i, j) && x == 2 * i + 1 && y == 2 * j + 1
      && Repairing(maze[..], Points(dims), dims.Width(), Point(dims, 0, 0))
      && remaining == |Unreached(maze[..], Points(dims))|
    }

    /** The next point in scan order. */
    method NextInScan(x0: int, y0: int, ghost i0: int, ghost j0: int)
      returns (x: int, y: int, ghost i: int, ghost j: int)
      requires Sized() && OnLattice(dims, i0, j0) && x0 == 2 * i0 + 1 && y0 == 2 * j0 + 1
      ensures OnLattice(dims, i, j) && x == 2 * i + 1 && y == 2 * j + 1
      ensures x == (if x0 + 2 < 2 * dims.x then x0 + 2 else 1)
      ensures y == (if x0 + 2 < 2 * dims.x then y0 else if y0 + 2 < 2 * dims.y then y0 + 2 else 1)
      ensures i == (if i0 + 1 < dims.x then i0 + 1 else 0)
      ensures j == (if i0 + 1 < dims.x then j0 else if j0 + 1 < dims.y then j0 + 1 else 0)
    {
      x, y := x0 + 2, y0;
      i, j := i0 + 1, j0;
      if x > dims.x * 2 {
        x, i := x - dims.x * 2, 0;
        y, j := y + 2, j + 1;
        if y > 2 * dims.y {
          y, j := y - 2 * dims.y, 0;
        }
      }
    }

    /** Knock down a wall between an unreached point and a reached neighbour, if
        there is one: the neighbours are tried up, left, right, down. */
    method TryToConnect(x: int, y: int, ghost i: int, ghost j: int) returns (done: bool, ghost c: int, ghost r: int)
      requires Sized() && OnLattice(dims, i, j) && x == 2 * i + 1 && y == 2 * j + 1
      requires Point(dims, i, j) in Unreached(maze[..], Points(dims))
      modifies maze
      ensures done <==> Frontier(dims, Reached(old(maze[..]), Points(dims)), i, j)
      ensures !done ==> maze[..] == old(maze[..])
      ensures done ==> 0 <= c < maze.Length && maze[..] == old(maze[..])[c := MAZE_NONE]
      ensures done ==> Breakable(old(maze[..]), Points(dims), dims.Width(), Point(dims, i, j), r, c)
      ensures WallToBreak(old(maze[..]), dims, i, j) == if done then c else -1
    {
      hide Frontier, Breakable, Points, Index, Reached, Unreached, WallToBreak;
      Beside(maze[..], dims, i, j);
      WallsInOrder(maze[..], dims, i, j);
      var cur, w := Index(dims, x, y), dims.Width();
      done, c, r := true, cur, cur;
      if y > 1 && maze[cur - 2 * w].reach {
        c, r := cur - w, cur - 2 * w;
        maze[cur - w] := MAZE_NONE;
      } else if x > 1 && maze[cur - 2].reach {
        c, r := cur - 1, cur - 2;
        maze[cur - 1] := MAZE_NONE;
      } else if x < 2 * dims.x - 1 && maze[cur + 2].reach {
        c, r := cur + 1, cur + 2;
        maze[cur + 1] := MAZE_NONE;
      } else if y < 2 * dims.y - 1 && maze[cur + 2 * w].reach {
        c, r := cur + w, cur + 2 * w;
        maze[cur + w] := MAZE_NONE;
      } else {
        done := false;
      }
      if done {
        assert maze[..] == old(maze[..])[c := MAZE_NONE];
      }
    }
  
    /** Draw random points until one is not yet reached. */
    method RandomUnreachedPoint() returns (ok: bool, x: int, y: int, ghost i: int, ghost j: int, ghost n: nat)
      requires Sized()
      modifies this`tape
      ensures ok ==> FirstHit(dims, old(tape), Unreached(maze[..], Points(dims)), n, i, j, tape)
      ensures ok ==> OnLattice(dims, i, j) && x == 2 * i + 1 && y == 2 * j + 1
      ensures !ok ==> tape == [] && NoHit(dims, old(tape), Unreached(maze[..], Points(dims)))
    {
      hide Drawn, NoHit, Points, Point;
      ghost var dice, W := tape, Unreached(maze[..], Points(dims));
      FirstDraw(dims, dice, W);
      n := 0;
      ok, x, y, i, j := RandomPoint();
      if !ok { return; }
      PointInside(dims, i, j);
      while maze[Index(dims, x, y)].reach
        invariant OnLattice(dims, i, j) && x == 2 * i + 1 && y == 2 * j + 1
        invariant Point(dims, i, j) == Index(dims, x, y) && Point(dims, i, j) in Points(dims)
        invariant 0 <= Index(dims, x, y) < maze.Length
        invariant Drawn(dims, dice, W, n, i, j) && 2 * n + 2 <= |dice| && tape == dice[2 * n + 2..]
        decreases |tape|
      {
        NextDraw(dims, dice, W, n, i, j, tape);
        ok, x, y, i, j := RandomPoint();
        if !ok { return; }
        PointInside(dims, i, j);
        n := n + 1;
      }
    }

    /** Try to repair at the unreached point (x,y); mark what that joins. */
    method Repair(x: int, y: int, remaining: int, ghost i: int, ghost j: int) returns (remaining': int)
      requires JoiningAt(x, y, i, j, remaining) && Point(dims, i, j) in Unreached(maze[..], Points(dims))
      modifies maze
      ensures JoiningAt(x, y, i, j, remaining') && remaining' <= remaining
      ensures remaining' < remaining <==> Frontier(dims, Reached(old(maze[..]), Points(dims)), i, j)
      ensures remaining' == remaining ==> maze[..] == old(maze[..])
      ensures remaining' < remaining ==> OneWallLess(old(maze[..]), maze[..])
      ensures maze[..] == Repaired(old(maze[..]), dims, i, j)
    {
      hide Repairing, Unreached, Reached, Points, Frontier, Breakable, Component, Marked, GoodLattice, LatticeShape, OneWallLess, WallToBreak;
      ghost var P, w, m := Points(dims), dims.Width(), maze[..];
      PointsAreGood(dims);
      CountPoints(dims);
      remaining' := remaining;
      var done: bool;
      ghost var c, r;
      done, c, r := TryToConnect(x, y, i, j);
      if done {
        BreakIsSafe(m, P, w, Point(dims, 0, 0), Point(dims, i, j), r, c);
        RepairStep(m, P, w, Point(dims, 0, 0), Point(dims, i, j), r, c);
        ghost var m1 := maze[..];
        var n := MarkMazeArea(maze, dims.Width(), Index(dims, x, y), P);
        RepairRemovesOneWall(m, P, w, Point(dims, 0, 0), Point(dims, i, j), r, c, Component(m1, w, Unreached(m1, P), Point(dims, i, j)));
        remaining' := remaining - n;
      }
    }

    /** How many more random attempts the second phase may make. */
    ghost function RandomTriesLeft(remaining: int, trials: int): int {
      if remaining < 20 || trials > 100 then 0 else 101 - trials
    }

    /** Choose the next point to look at: by scanning when few points remain or
        enough random tries were made, else an unreached point at random. */
    method NextCandidate(x0: int, y0: int, remaining: int, trials: int,
                         ghost i0: int, ghost j0: int, ghost a: int, ghost b: int)
      returns (ok: bool, x: int, y: int, trials': int, ghost i: int, ghost j: int, ghost n: nat)
      requires Sized() && OnLattice(dims, i0, j0) && x0 == 2 * i0 + 1 && y0 == 2 * j0 + 1 && OnLattice(dims, a, b)
      requires remaining == |Unreached(maze[..], Points(dims))|
      modifies this`tape
      ensures ok ==> Chosen(dims, Joining(maze[..], old(tape), i0, j0, trials), n, i, j, trials', tape)
      ensures ok ==> OnLattice(dims, i, j) && x == 2 * i + 1 && y == 2 * j + 1
      ensures ok ==>
        || RandomTriesLeft(remaining, trials') < RandomTriesLeft(remaining, trials)
        || (&& RandomTriesLeft(remaining, trials') == RandomTriesLeft(remaining, trials)
            && ((i, j) == (a, b) || ScanDistance(dims, i, j, a, b) < ScanDistance(dims, i0, j0, a, b)))
      ensures !ok ==> tape == [] && remaining >= 20 && NoHit(dims, old(tape), Unreached(maze[..], Points(dims)))
    {
      hide Unreached, Points, FirstHit, NoHit, ScanDistance;
      n := 0;
      x, y, i, j, trials' := x0, y0, i0, j0, trials;
      var scan := remaining < 20;
      if !scan {
        trials' := trials + 1;
        scan := trials' > 100;
      }
      if scan {
        ScanAdvances(dims, i0, j0, a, b);
        x, y, i, j := NextInScan(x0, y0, i0, j0);
        ok := true;
      } else {
        ok, x, y, i, j, n := RandomUnreachedPoint();
      }
    }

    /** One turn of the second phase: choose a point, and repair there if it is
        unreached. Without a repair the random tries or, in scan mode, the
        distance to any frontier point (a,b) go down. */
    method JoinStep(x0: int, y0: int, remaining: int, trials: int,
                    ghost i0: int, ghost j0: int, ghost a: int, ghost b: int)
      returns (ok: bool, x: int, y: int, remaining': int, trials': int, ghost i: int, ghost j: int, ghost n: nat)
      requires JoiningAt(x0, y0, i0, j0, remaining) && OnLattice(dims, a, b)
      requires remaining > 0 ==> Frontier(dims, Reached(maze[..], Points(dims)), a, b)
      modifies maze, this`tape
      ensures ok ==> JoiningAt(x, y, i, j, remaining') && remaining' <= remaining
      ensures ok && remaining' == remaining ==> maze[..] == old(maze[..])
      ensures ok && remaining' < remaining ==> OneWallLess(old(maze[..]), maze[..])
      ensures ok && remaining' == remaining > 0 ==>
        || RandomTriesLeft(remaining, trials') < RandomTriesLeft(remaining, trials)
        || (&& RandomTriesLeft(remaining, trials') == RandomTriesLeft(remaining, trials)
            && ScanDistance(dims, i, j, a, b) < ScanDistance(dims, i0, j0, a, b))
      ensures ok ==> Turn(dims, Joining(old(maze[..]), old(tape), i0, j0, trials), n, Joining(maze[..], tape, i, j, trials'))
      ensures !ok ==> tape == [] && remaining >= 20 && maze[..] == old(maze[..])
      ensures !ok ==> NoHit(dims, old(tape), Unreached(maze[..], Points(dims)))
    {
      hide Unreached, Reached, Points, Frontier, Repaired, Chosen, ScanDistance, RandomTriesLeft, Repairing, OneWallLess, NoHit;
      remaining' := remaining;
      ok, x, y, trials', i, j, n := NextCandidate(x0, y0, remaining, trials, i0, j0, a, b);
      if !ok { return; }
      PointInside(dims, i, j);
      UnreachedOrNot(maze[..], dims, i, j);
      FrontierUnreached(maze[..], dims, a, b);
      if !maze[Index(dims, x, y)].reach {
        remaining' := Repair(x, y, remaining, i, j);
      }
    }

    /** The second phase, from the point (x0,y0) where the last worm stopped. It
        always ends: only a draw in random mode, with twenty or more points still
        unreached, can run out of random numbers. */
    method JoinPhase(x0: int, y0: int, ghost i0: int, ghost j0: int) returns (ok: bool, ghost js: seq<Joining>)
      requires WormAt(x0, y0, i0, j0, 0)
      modifies maze, this`tape
      ensures ok ==> Repairing(maze[..], Points(dims), dims.Width(), Point(dims, 0, 0))
      ensures ok ==> Unreached(maze[..], Points(dims)) == {}
      ensures ok ==> JoinedFrom(dims, Digging(old(maze[..]), old(tape), x0, y0), js) && |js| > 0
      ensures ok ==> js[|js| - 1].m == maze[..] && js[|js| - 1].tape == tape
      ensures !ok ==> tape == [] && |Unreached(maze[..], Points(dims))| >= 20
    {
      hide Turns, Turn, WormAt, Repairing, Unreached, Points, Point, Frontier, ScanDistance, CornerMarked;
      StartOfScan(x0, y0, i0, j0);
      var x, y, trials := x0, y0, 0;
      ghost var i, j := i0, j0;
      var remaining := MarkFromCorner(x, y, i, j);
      ghost var start := Joining(maze[..], tape, i, j, trials);
      NoTurns(dims, start);
      js := [start];
      ghost var a, b := 0, 0;
      if remaining > 0 { a, b := FrontierAhead(); }
      while true
        invariant JoiningAt(x, y, i, j, remaining) && OnLattice(dims, a, b)
        invariant remaining > 0 ==> Frontier(dims, Reached(maze[..], Points(dims)), a, b)
        invariant Turns(dims, js) && |js| > 0 && js[0] == start && js[|js| - 1] == Joining(maze[..], tape, i, j, trials)
        invariant |js| > 1 ==> remaining > 0
        decreases remaining, RandomTriesLeft(remaining, trials), ScanDistance(dims, i, j, a, b)
      {
        ghost var before, n := remaining, 0;
        ScanAdvances(dims, i, j, a, b);
        ok, x, y, remaining, trials, i, j, n := JoinStep(x, y, remaining, trials, i, j, a, b);
        if !ok { return; }
        NextTurn(dims, js, n, Joining(maze[..], tape, i, j, trials));
        js := js + [Joining(maze[..], tape, i, j, trials)];
        if remaining <= 0 { return; }
        if remaining < before { a, b := FrontierAhead(); }
      }
    }

    lemma StartOfScan(x: int, y: int, i: int, j: int)
      requires WormAt(x, y, i, j, 0)
      ensures OnLattice(dims, i, j) && i == (x - 1) / 2 && j == (y - 1) / 2
    {
    }

    lemma FrontierAhead() returns (a: int, b: int)
      requires Sized() && Repairing(maze[..], Points(dims), dims.Width(), Point(dims, 0, 0))
      requires |Unreached(maze[..], Points(dims))| > 0
      ensures OnLattice(dims, a, b) && Frontier(dims, Reached(maze[..], Points(dims)), a, b)
    {
      a, b := FrontierExists(dims, maze[..]);
    }

    /** Mark everything connected to (1,1); returns the number of points it misses. */
    method MarkFromCorner(x: int, y: int, ghost i: int, ghost j: int) returns (remaining: int)
      requires WormAt(x, y, i, j, 0)
      modifies maze
      ensures JoiningAt(x, y, i, j, remaining)
      ensures maze[..] == CornerMarked(old(maze[..]), dims)
    {
      ghost var P, w := Points(dims), dims.Width();
      PointsAreGood(dims);
      CountPoints(dims);
      assert Point(dims, 0, 0) in P;
      WormedIsReady(maze[..], P, w, Point(dims, 0, 0));
      var n := MarkMazeArea(maze, dims.Width(), Index(dims, 1, 1), P);
      remaining := dims.x * dims.y - n;
    }
  
    /** Remove the MAZE_REACH markers from all lattice points, column by column. */
    method ClearMarks()
      requires Sized()
      modifies maze
      ensures maze[..] == Cleared(old(maze[..]), Points(dims))
    {
      ghost var m := maze[..];
      var x := 1;
      ghost var i := 0;
      assert maze[..] == Cleared(m, ColumnsBefore(dims, 0, 0));
      while x < 2 * dims.x
        invariant x == 2 * i + 1 && 0 <= i <= dims.x
        invariant maze[..] == Cleared(m, ColumnsBefore(dims, i, 0))
      {
        var y := 1;
        ghost var j := 0;
        while y < 2 * dims.y
          invariant y == 2 * j + 1 && 0 <= j <= dims.y
          invariant maze[..] == Cleared(m, ColumnsBefore(dims, i, j))
        {
          ClearMark(Index(dims, x, y), m, i, j);
          y, j := y + 2, j + 1;
        }
        assert ColumnsBefore(dims, i, j) == ColumnsBefore(dims, i + 1, 0);
        x, i := x + 2, i + 1;
      }
      assert ColumnsBefore(dims, i, 0) == Points(dims);
    }

    method ClearMark(p: int, ghost m: seq<Cell>, ghost i: int, ghost j: int)
      requires Sized() && OnLattice(dims, i, j) && p == Point(dims, i, j)
      requires maze[..] == Cleared(m, ColumnsBefore(dims, i, j))
      modifies maze
      ensures maze[..] == Cleared(m, ColumnsBefore(dims, i, j + 1))
    {
      PointBounds(dims, i, j);
      ghost var S := ColumnsBefore(dims, i, j);
      maze[p] := maze[p].(reach := false);
      ClearOne(m, S, p);
      NextInColumn(dims, i, j);
      assert maze[..] == Cleared(m, S)[p := Cleared(m, S)[p].(reach := false)];
    }

    /** Draw random points until one carries no fruit. */
    method RandomFruitlessPoint() returns (ok: bool, x: int, y: int, ghost i: int, ghost j: int, ghost n: nat)
      requires Sized()
      modifies this`tape
      ensures ok ==> FirstHit(dims, old(tape), Fruitless(maze[..], Points(dims)), n, i, j, tape)
      ensures ok ==> OnLattice(dims, i, j) && x == 2 * i + 1 && y == 2 * j + 1
      ensures !ok ==> tape == [] && NoHit(dims, old(tape), Fruitless(maze[..], Points(dims)))
    {
      hide Drawn, NoHit, Points, Point;
      ghost var dice, W := tape, Fruitless(maze[..], Points(dims));
      FirstDraw(dims, dice, W);
      n := 0;
      ok, x, y, i, j := RandomPoint();
      if !ok { return; }
      PointInside(dims, i, j);
      while maze[Index(dims, x, y)].fruit != 0
        invariant OnLattice(dims, i, j) && x == 2 * i + 1 && y == 2 * j + 1
        invariant Point(dims, i, j) == Index(dims, x, y) && Point(dims, i, j) in Points(dims)
        invariant 0 <= Index(dims, x, y) < maze.Length
        invariant Drawn(dims, dice, W, n, i, j) && 2 * n + 2 <= |dice| && tape == dice[2 * n + 2..]
        decreases |tape|
      {
        NextDraw(dims, dice, W, n, i, j, tape);
        ok, x, y, i, j := RandomPoint();
        if !ok { return; }
        PointInside(dims, i, j);
        n := n + 1;
      }
    }

    /** _add_a_fruit, without drawing it: the first fruitless point that is drawn gets the
        fruit, and the next number decides its type. */
    method AddAFruit() returns (ok: bool)
      requires Sized() && Fruited(maze[..], Points(dims), dims.Width(), nFruits) && ExitCells(maze[..]) == {}
      modifies maze, this`tape, this`nFruits
      ensures ok ==> Fruited(maze[..], Points(dims), dims.Width(), nFruits) && ExitCells(maze[..]) == {}
      ensures ok ==> FruitDrawn(dims, Furnishing(old(maze[..]), old(tape)), Furnishing(maze[..], tape))
      ensures !ok ==> NoHit(dims, old(tape), Fruitless(old(maze[..]), Points(dims)))
                      || FruitWithoutType(dims, Furnishing(old(maze[..]), old(tape)))
      ensures ok ==> nFruits == old(nFruits) + 1 && FruitAdded(old(maze[..]), maze[..], Points(dims))
      ensures !ok ==> tape == []
    {
      hide Fruited, FruitAdded, ExitCells, Points, Fruitless, FirstHit, NoHit, Index;
      var x, y, f;
      ghost var i, j, n;
      ghost var s := Furnishing(maze[..], tape);
      ok, x, y, i, j, n := RandomFruitlessPoint();
      if !ok { return; }
      ghost var rest := tape;
      ok, f := Random(NUM_FRUIT_TYPES);
      if !ok {
        assert FirstHit(dims, s.tape, Fruitless(s.m, Points(dims)), n, i, j, []);
        return;
      }
      PointInside(dims, i, j);
      FruitlessPoint(maze[..], Points(dims), Point(dims, i, j), dims, s.tape, n, i, j, rest);
      var p := Index(dims, x, y);
      PutFruit(maze[..], Points(dims), dims.Width(), nFruits, p, f + 1);
      ghost var m := maze[..];
      maze[p] := maze[p].(fruit := f + 1);
      assert maze[..] == m[p := m[p].(fruit := f + 1)];
      assert FruitAt(dims, s, n, i, j, rest, Furnishing(maze[..], tape));
      nFruits := nFruits + 1;
    }

    /** Put the exit on the first fruitless point that is drawn. */
    method PlaceExit() returns (ok: bool, ghost n: nat, ghost i: int, ghost j: int)
      requires Sized() && Fruited(maze[..], Points(dims), dims.Width(), nFruits) && ExitCells(maze[..]) == {}
      modifies maze, this`tape, this`exitX, this`exitY
      ensures ok ==> Fruited(maze[..], Points(dims), dims.Width(), nFruits)
      ensures ok ==> 0 <= Index(dims, exitX, exitY) < maze.Length
      ensures ok ==> var p := Index(dims, exitX, exitY); maze[..] == old(maze[..])[p := old(maze[..])[p].(exit := true)]
      ensures ok ==> Index(dims, exitX, exitY) in Points(dims) && ExitCells(maze[..]) == {Index(dims, exitX, exitY)}
      ensures ok ==> ExitCells(maze[..]) !! FruitCells(maze[..])
      ensures ok ==> ExitAt(dims, Furnishing(old(maze[..]), old(tape)), n, i, j, maze[..], exitX, exitY, tape)
      ensures !ok ==> NoHit(dims, old(tape), Fruitless(old(maze[..]), Points(dims)))
      ensures ok ==> 0 < exitX < 2 * dims.x && 0 < exitY < 2 * dims.y
      ensures !ok ==> tape == []
    {
      hide Fruited, LatticeShape, Points, Fruitless, FirstHit, NoHit, Index;
      var x, y;
      ok, x, y, i, j, n := RandomFruitlessPoint();
      if !ok { return; }
      PointInside(dims, i, j);
      FruitlessPoint(maze[..], Points(dims), Point(dims, i, j), dims, old(tape), n, i, j, tape);
      var p := Index(dims, x, y);
      PutExit(maze[..], Points(dims), dims.Width(), nFruits, p);
      ghost var m := maze[..];
      maze[p] := maze[p].(exit := true);
      assert maze[..] == m[p := m[p].(exit := true)];
      exitX, exitY := x, y;
    }

    lemma AllDug(x: int, y: int, i: int, j: int)
      requires WormAt(x, y, i, j, 0)
      ensures WallPoints(maze[..], Points(dims)) == {}
    {
    }

    /** What make_maze does between the second phase and the exit: the marks are cleared
        and the fruit is put in. */
    method PutFruits(startFruits: int, ghost s: Joining) returns (ok: bool, ghost fs: seq<Furnishing>)
      requires Sized() && Repairing(maze[..], Points(dims), dims.Width(), Point(dims, 0, 0))
      requires Unreached(maze[..], Points(dims)) == {} && s.m == maze[..] && s.tape == tape
      modifies maze, this`tape, this`nFruits
      ensures ok ==> nFruits == if startFruits < 0 then 0 else startFruits
      ensures ok ==> Fruited(maze[..], Points(dims), dims.Width(), nFruits) && ExitCells(maze[..]) == {}
      ensures ok ==> FurnishedFrom(dims, s, nFruits, fs) && |fs| == nFruits + 1 && fs[nFruits] == Furnishing(maze[..], tape)
      ensures !ok ==> tape == []
    {
      hide Repairing, Unreached, Points, Point, Cleared, Fruited, Fruits, FruitDrawn, FruitAdded, ExitCells, NoHit;
      PointsAreGood(dims);
      ClearedIsFruited(maze[..], Points(dims), dims.Width(), Point(dims, 0, 0));
      ClearMarks();
      nFruits := 0;
      ghost var bare := Furnishing(maze[..], tape);
      NoFruits(dims, bare);
      fs := [bare];
      ok := true;
      var k := 0;
      while k < startFruits
        invariant Sized() && nFruits == k && (k == 0 || k <= startFruits)
        invariant Fruited(maze[..], Points(dims), dims.Width(), nFruits) && ExitCells(maze[..]) == {}
        invariant Fruits(dims, fs) && |fs| == k + 1 && fs[0] == bare && fs[k] == Furnishing(maze[..], tape)
      {
        ok := AddAFruit();
        if !ok { return; }
        NextFruit(dims, fs, Furnishing(maze[..], tape));
        fs := fs + [Furnishing(maze[..], tape)];
        k := k + 1;
      }
    }

    /** make_maze: fails exactly on sizes out of range; otherwise, for every
        outcome of the random draws, it builds a maze in which any two lattice
        points are joined by open cells, with the requested number of fruits and
        one exit, all of them on lattice points. */
    method MakeMaze(xDim: int, yDim: int, startFruits: int) returns (r: Outcome)
      requires maze.Length == MAZE_SIZE
      modifies this, maze
      ensures r == Failure <==> !Dims(xDim, yDim).Valid()
      ensures r == Failure ==> maze[..] == old(maze[..]) && dims == old(dims) && nFruits == old(nFruits)
      ensures r != Failure ==> dims == Dims(xDim, yDim)
      ensures r == Success ==> Fruited(maze[..], Points(dims), dims.Width(), nFruits)
      ensures r == Success ==> nFruits == if startFruits < 0 then 0 else startFruits
      ensures r == Success ==> Index(dims, exitX, exitY) in Points(dims)
      ensures r == Success ==> 0 < exitX < 2 * dims.x && 0 < exitY < 2 * dims.y
      ensures r == Success ==> ExitCells(maze[..]) == {Index(dims, exitX, exitY)}
      ensures r == Success ==> ExitCells(maze[..]) !! FruitCells(maze[..])
      ensures r == Success ==> nFruits >= 0 && Made(dims, old(tape), nFruits, maze[..], exitX, exitY, tape)
      ensures r == OutOfRandom ==> tape == []
    {
      if !Dims(xDim, yDim).Valid() {
        return Failure;
      }
      dims := Dims(xDim, yDim);
      hide WormAt, DugFrom, JoinedFrom, FurnishedFrom, ExitAt, Made, Repairing, Unreached, Points, Fruited, FruitCells, ExitCells;
      var ok, x, y;
      ghost var i, j, n, ds, js, fs;
      ok, x, y, i, j, ds := WormPhase();
      if !ok { return OutOfRandom; }
      ok, js := JoinPhase(x, y, i, j);
      if !ok { return OutOfRandom; }
      ok, fs := PutFruits(startFruits, js[|js| - 1]);
      if !ok { return OutOfRandom; }
      ok, n, i, j := PlaceExit();
      r := if ok then Success else OutOfRandom;
      if ok {
        NowMade(dims, old(tape), nFruits, ds, js, fs, n, i, j, maze[..], exitX, exitY, tape);
      }
    }
  }
}
