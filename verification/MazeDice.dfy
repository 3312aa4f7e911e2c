// make_maze as a relation: what the random numbers make of the maze, worm by worm,
// repair by repair and fruit by fruit, and that they leave nothing open.
module MazeDice {
  import opened MazeGrid
  import opened MazePaths
  import opened MazeDraws
  import opened MazeWorm
  import opened MazeFurnish

  // ----- the worms -----

  /** The maze, the random numbers left, and where the last worm has stopped. */
  datatype Digging = Digging(m: seq<Cell>, tape: seq<nat>, x: int, y: int)

  /** A worm's start, found with its first n + 1 draws, its path, and the direction in
      which it would have turned back. */
  datatype Worm = Worm(n: nat, i: int, j: int, path: seq<int>, last: int)

  /** A worm dropped at (x,y) of an emptied cell runs to its end. */
  ghost predicate Ran(d: Dims, m: seq<Cell>, x: int, y: int, tape: seq<nat>, path: seq<int>, last: int, t: Digging) {
    && |path| + 2 <= |tape| && t.tape == tape[|path| + 2..]
    && Crawled(m, d, x, y, tape[0] % 4, path, tape[1..|path| + 1])
    && t.x == XAfter(x, path) && t.y == YAfter(y, path) && t.m == Dug(m, d, x, y, path)
    && Picked(t.m, d, t.x, t.y, Heading(tape[0] % 4, path), tape[|path| + 1], last)
    && TurnsBack(Heading(tape[0] % 4, path), last)
  }

  /** A worm starts on the first walled point drawn. */
  ghost predicate Dropped(d: Dims, s: Digging, wm: Worm, rest: seq<nat>) {
    FirstHit(d, s.tape, WallPoints(s.m, Points(d)), wm.n, wm.i, wm.j, rest)
  }

  ghost predicate DugBy(d: Dims, s: Digging, wm: Worm, rest: seq<nat>, t: Digging) {
    var x, y := 2 * wm.i + 1, 2 * wm.j + 1;
    Dropped(d, s, wm, rest) && Ran(d, Emptied(s.m, Index(d, x, y)), x, y, rest, wm.path, wm.last, t)
  }

  ghost predicate OneWorm(d: Dims, s: Digging, t: Digging) {
    exists wm, rest :: DugBy(d, s, wm, rest, t)
  }

  /** The random numbers decide which way a worm goes. */
  lemma PickedOnce(m: seq<Cell>, d: Dims, x: int, y: int, pref: int, roll: nat, a: int, b: int)
    requires Picked(m, d, x, y, pref, roll, a) && Picked(m, d, x, y, pref, roll, b)
    ensures a == b
  {
    if a < b {
      BeforeGrows(m, d, x, y, pref, a + 1, b);
    } else if b < a {
      BeforeGrows(m, d, x, y, pref, b + 1, a);
    }
  }

  lemma BeforeGrows(m: seq<Cell>, d: Dims, x: int, y: int, pref: int, a: int, b: int)
    requires 0 <= a <= b <= 4 && 0 <= pref < 4
    ensures Before(m, d, x, y, pref, a) <= Before(m, d, x, y, pref, b)
    decreases b - a
  {
    if a < b {
      BeforeGrows(m, d, x, y, pref, a, b - 1);
    }
  }

  lemma {:induction false} SamePath(m: seq<Cell>, d: Dims, x: int, y: int, tape: seq<nat>, p: seq<int>, q: seq<int>, k: nat)
    requires k <= |p| && k <= |q| && |p| + 1 <= |tape| && |q| + 1 <= |tape|
    requires Crawled(m, d, x, y, tape[0] % 4, p, tape[1..|p| + 1]) && Crawled(m, d, x, y, tape[0] % 4, q, tape[1..|q| + 1])
    ensures p[..k] == q[..k]
  {
    hide Picked, Dug, XAfter, YAfter, Heading, TurnsBack;
    if k > 0 {
      SamePath(m, d, x, y, tape, p, q, k - 1);
      var f := p[..k - 1];
      assert tape[1..|p| + 1][k - 1] == tape[k] == tape[1..|q| + 1][k - 1];
      PickedOnce(Dug(m, d, x, y, f), d, XAfter(x, f), YAfter(y, f), Heading(tape[0] % 4, f), tape[k], p[k - 1], q[k - 1]);
      assert p[..k] == f + [p[k - 1]] && q[..k] == f + [q[k - 1]];
    }
  }

  /** A worm stops where it first turns back, so no path goes on beyond another's end. */
  lemma EndsFirst(d: Dims, m: seq<Cell>, x: int, y: int, tape: seq<nat>, p: seq<int>, last: int, t: Digging,
                  q: seq<int>, last': int, t': Digging)
    requires Ran(d, m, x, y, tape, p, last, t) && Ran(d, m, x, y, tape, q, last', t')
    ensures |q| <= |p|
  {
    hide Picked, Dug, XAfter, YAfter, Heading, TurnsBack;
    var k := |p|;
    if k < |q| {
      SamePath(m, d, x, y, tape, p, q, k);
      assert p[..k] == p;
      assert tape[1..|q| + 1][k] == tape[k + 1];
      PickedOnce(Dug(m, d, x, y, p), d, XAfter(x, p), YAfter(y, p), Heading(tape[0] % 4, p), tape[k + 1], last, q[k]);
      assert false;
    }
  }

  lemma RanOneWay(d: Dims, m: seq<Cell>, x: int, y: int, tape: seq<nat>, p: seq<int>, last: int, t: Digging,
                  q: seq<int>, last': int, t': Digging)
    requires Ran(d, m, x, y, tape, p, last, t) && Ran(d, m, x, y, tape, q, last', t')
    ensures p == q && t == t'
  {
    EndsFirst(d, m, x, y, tape, p, last, t, q, last', t');
    EndsFirst(d, m, x, y, tape, q, last', t', p, last, t);
    SamePath(m, d, x, y, tape, p, q, |p|);
    assert p[..|p|] == p && q[..|p|] == q;
  }

  lemma OneWormOneWay(d: Dims, s: Digging, t: Digging, t': Digging)
    requires OneWorm(d, s, t) && OneWorm(d, s, t')
    ensures t == t' && WallPoints(s.m, Points(d)) != {}
  {
    hide Ran, WallPoints, Points, Index;
    var wm, rest :| DugBy(d, s, wm, rest, t);
    var wm', rest' :| DugBy(d, s, wm', rest', t');
    OneFirstHit(d, s.tape, WallPoints(s.m, Points(d)), wm.n, wm.i, wm.j, rest, wm'.n, wm'.i, wm'.j, rest');
    var x, y := 2 * wm.i + 1, 2 * wm.j + 1;
    RanOneWay(d, Emptied(s.m, Index(d, x, y)), x, y, rest, wm.path, wm.last, t, wm'.path, wm'.last, t');
  }

  /** Worm after worm, until no point is walled. */
  ghost predicate Worms(d: Dims, ds: seq<Digging>) {
    |ds| > 0 && forall k | 0 <= k < |ds| - 1 :: OneWorm(d, ds[k], ds[k + 1])
  }

  lemma NoWorms(d: Dims, s: Digging)
    ensures Worms(d, [s])
  {
  }

  lemma NextWorm(d: Dims, ds: seq<Digging>, wm: Worm, rest: seq<nat>, t: Digging)
    requires Worms(d, ds) && DugBy(d, ds[|ds| - 1], wm, rest, t)
    ensures Worms(d, ds + [t]) && (ds + [t])[|ds|] == t && (ds + [t])[0] == ds[0]
  {
    hide DugBy;
    var ds' := ds + [t];
    assert OneWorm(d, ds[|ds| - 1], t);
    forall k | 0 <= k < |ds'| - 1 ensures OneWorm(d, ds'[k], ds'[k + 1]) {
      if k < |ds| - 1 {
        assert OneWorm(d, ds[k], ds[k + 1]);
      }
    }
  }

  lemma {:induction false} SameWorms(d: Dims, ds: seq<Digging>, ds': seq<Digging>, k: nat)
    requires Worms(d, ds) && Worms(d, ds') && ds[0] == ds'[0] && k < |ds| && k < |ds'|
    ensures ds[k] == ds'[k]
  {
    hide OneWorm;
    if k > 0 {
      SameWorms(d, ds, ds', k - 1);
      OneWormOneWay(d, ds[k - 1], ds[k], ds'[k]);
    }
  }

  /** The same random numbers dig the same maze. */
  lemma WormsOneWay(d: Dims, ds: seq<Digging>, ds': seq<Digging>)
    requires Worms(d, ds) && Worms(d, ds') && ds[0] == ds'[0]
    requires WallPoints(ds[|ds| - 1].m, Points(d)) == {} && WallPoints(ds'[|ds'| - 1].m, Points(d)) == {}
    ensures ds == ds'
  {
    hide OneWorm, WallPoints;
    forall k | 0 <= k < |ds| && k < |ds'| ensures ds[k] == ds'[k] {
      SameWorms(d, ds, ds', k);
    }
    if |ds| < |ds'| {
      var k := |ds| - 1;
      OneWormOneWay(d, ds'[k], ds'[k + 1], ds'[k + 1]);
    } else if |ds'| < |ds| {
      var k := |ds'| - 1;
      OneWormOneWay(d, ds[k], ds[k + 1], ds[k + 1]);
    }
  }

  // ----- the repairs -----

  /** The maze, the numbers left, the point looked at last, and the random tries made. */
  datatype Joining = Joining(m: seq<Cell>, tape: seq<nat>, i: int, j: int, trials: int)

  ghost predicate ReachedAt(m: seq<Cell>, c: int) {
    0 <= c < |m| && m[c].reach
  }

  /** The wall knocked down at an unreached point: the first that has a reached point
      behind it, looking up, left, right and down; -1 when there is none. */
  ghost function WallToBreak(m: seq<Cell>, d: Dims, i: int, j: int): int {
    var p, w := Point(d, i, j), d.Width();
    if j > 0 && ReachedAt(m, p - 2 * w) then p - w
    else if i > 0 && ReachedAt(m, p - 2) then p - 1
    else if i < d.x - 1 && ReachedAt(m, p + 2) then p + 1
    else if j < d.y - 1 && ReachedAt(m, p + 2 * w) then p + w
    else -1
  }

  lemma WallsInOrder(m: seq<Cell>, d: Dims, i: int, j: int)
    requires d.Valid() && OnLattice(d, i, j) && |m| == MAZE_SIZE
    ensures var p, w := Point(d, i, j), d.Width();
      && 2 <= w && 2 * w <= p && p + 2 * w < |m|
      && WallToBreak(m, d, i, j) ==
           if j > 0 && m[p - 2 * w].reach then p - w else if i > 0 && m[p - 2].reach then p - 1
           else if i < d.x - 1 && m[p + 2].reach then p + 1 else if j < d.y - 1 && m[p + 2 * w].reach then p + w
           else -1
  {
    PointBounds(d, i, j);
    hide Point;
  }

  /** The maze after one repair at point (i,j), if there is one to make. */
  ghost function Repaired(m: seq<Cell>, d: Dims, i: int, j: int): seq<Cell> {
    var c := WallToBreak(m, d, i, j);
    if Point(d, i, j) !in Unreached(m, Points(d)) || c < 0 then m
    else
      var m1 := Emptied(m, c);
      Marked(m1, Component(m1, d.Width(), Unreached(m1, Points(d)), Point(d, i, j)))
  }

  lemma UnreachedOrNot(m: seq<Cell>, d: Dims, i: int, j: int)
    requires 0 <= Point(d, i, j) < |m| && Point(d, i, j) in Points(d)
    ensures Point(d, i, j) in Unreached(m, Points(d)) <==> !m[Point(d, i, j)].reach
    ensures m[Point(d, i, j)].reach ==> Repaired(m, d, i, j) == m
  {
  }

  lemma FrontierUnreached(m: seq<Cell>, d: Dims, a: int, b: int)
    requires d.Valid() && OnLattice(d, a, b) && |m| == MAZE_SIZE
    ensures 0 <= Point(d, a, b) < |m|
    ensures Frontier(d, Reached(m, Points(d)), a, b) ==> !m[Point(d, a, b)].reach
  {
    PointInside(d, a, b);
  }

  function ScanNextI(d: Dims, i: int): int {
    if i + 1 < d.x then i + 1 else 0
  }

  function ScanNextJ(d: Dims, i: int, j: int): int {
    if i + 1 < d.x then j else if j + 1 < d.y then j + 1 else 0
  }

  /** The next point to look at: an unreached point at random while twenty or more are
      left and not more than a hundred tries have been made, else the next in the scan. */
  ghost predicate Chosen(d: Dims, s: Joining, n: nat, i: int, j: int, trials: int, rest: seq<nat>) {
    if |Unreached(s.m, Points(d))| >= 20 && s.trials < 100 then
      trials == s.trials + 1 && FirstHit(d, s.tape, Unreached(s.m, Points(d)), n, i, j, rest)
    else
      && i == ScanNextI(d, s.i) && j == ScanNextJ(d, s.i, s.j) && rest == s.tape
      && trials == if |Unreached(s.m, Points(d))| >= 20 then s.trials + 1 else s.trials
  }

  ghost predicate Turn(d: Dims, s: Joining, n: nat, t: Joining) {
    Chosen(d, s, n, t.i, t.j, t.trials, t.tape) && t.m == Repaired(s.m, d, t.i, t.j)
  }

  ghost predicate OneTurn(d: Dims, s: Joining, t: Joining) {
    exists n :: Turn(d, s, n, t)
  }

  lemma OneTurnOneWay(d: Dims, s: Joining, t: Joining, t': Joining)
    requires OneTurn(d, s, t) && OneTurn(d, s, t')
    ensures t == t'
  {
    hide Repaired, Unreached, Points, FirstHit;
    var n :| Turn(d, s, n, t);
    var n' :| Turn(d, s, n', t');
    if |Unreached(s.m, Points(d))| >= 20 && s.trials < 100 {
      OneFirstHit(d, s.tape, Unreached(s.m, Points(d)), n, t.i, t.j, t.tape, n', t'.i, t'.j, t'.tape);
    }
  }

  /** Turn after turn, at least one, as long as a point is unreached. */
  ghost predicate Turns(d: Dims, js: seq<Joining>) {
    && |js| > 0 && (forall k | 0 <= k < |js| - 1 :: OneTurn(d, js[k], js[k + 1]))
    && (forall k | 1 <= k < |js| - 1 :: Unreached(js[k].m, Points(d)) != {})
  }

  lemma NoTurns(d: Dims, s: Joining)
    ensures Turns(d, [s])
  {
  }

  lemma NextTurn(d: Dims, js: seq<Joining>, n: nat, t: Joining)
    requires Turns(d, js) && Turn(d, js[|js| - 1], n, t)
    requires |js| > 1 ==> Unreached(js[|js| - 1].m, Points(d)) != {}
    ensures Turns(d, js + [t]) && (js + [t])[|js|] == t && (js + [t])[0] == js[0]
  {
    hide Turn, Unreached, Points;
    var js' := js + [t];
    assert OneTurn(d, js[|js| - 1], t);
    forall k | 0 <= k < |js'| - 1 ensures OneTurn(d, js'[k], js'[k + 1]) {
      if k < |js| - 1 {
        assert OneTurn(d, js[k], js[k + 1]);
      }
    }
  }

  lemma {:induction false} SameTurns(d: Dims, js: seq<Joining>, js': seq<Joining>, k: nat)
    requires Turns(d, js) && Turns(d, js') && js[0] == js'[0] && k < |js| && k < |js'|
    ensures js[k] == js'[k]
  {
    hide OneTurn, Unreached, Points;
    if k > 0 {
      SameTurns(d, js, js', k - 1);
      OneTurnOneWay(d, js[k - 1], js[k], js'[k]);
    }
  }

  /** The same random numbers make the same repairs. */
  lemma TurnsOneWay(d: Dims, js: seq<Joining>, js': seq<Joining>)
    requires Turns(d, js) && Turns(d, js') && js[0] == js'[0] && |js| > 1 && |js'| > 1
    requires Unreached(js[|js| - 1].m, Points(d)) == {} && Unreached(js'[|js'| - 1].m, Points(d)) == {}
    ensures js == js'
  {
    hide OneTurn, Unreached, Points;
    forall k | 0 <= k < |js| && k < |js'| ensures js[k] == js'[k] {
      SameTurns(d, js, js', k);
    }
  }

  // ----- the fruit and the exit -----

  /** The maze and the random numbers left. */
  datatype Furnishing = Furnishing(m: seq<Cell>, tape: seq<nat>)

  /** A fruit on the first fruitless point drawn, of the type the next number says. */
  ghost predicate FruitAt(d: Dims, s: Furnishing, n: nat, i: int, j: int, rest: seq<nat>, t: Furnishing) {
    && FirstHit(d, s.tape, Fruitless(s.m, Points(d)), n, i, j, rest) && rest != [] && t.tape == rest[1..]
    && 0 <= Point(d, i, j) < |s.m|
    && t.m == s.m[Point(d, i, j) := s.m[Point(d, i, j)].(fruit := rest[0] % 7 + 1)]
  }

  ghost predicate FruitDrawn(d: Dims, s: Furnishing, t: Furnishing) {
    exists n, i, j, rest :: FruitAt(d, s, n, i, j, rest, t)
  }

  /** The numbers end right after a fruitless point has been drawn. */
  ghost predicate FruitWithoutType(d: Dims, s: Furnishing) {
    exists n, i, j :: FirstHit(d, s.tape, Fruitless(s.m, Points(d)), n, i, j, [])
  }

  lemma FruitOneWay(d: Dims, s: Furnishing, t: Furnishing, t': Furnishing)
    requires FruitDrawn(d, s, t) && FruitDrawn(d, s, t')
    ensures t == t'
  {
    hide FirstHit, Fruitless, Points, Point;
    var n, i, j, rest :| FruitAt(d, s, n, i, j, rest, t);
    var n', i', j', rest' :| FruitAt(d, s, n', i', j', rest', t');
    OneFirstHit(d, s.tape, Fruitless(s.m, Points(d)), n, i, j, rest, n', i', j', rest');
  }

  lemma FruitlessPoint(m: seq<Cell>, P: set<int>, p: int, d: Dims, tape: seq<nat>, n: nat, i: int, j: int, rest: seq<nat>)
    requires FirstHit(d, tape, Fruitless(m, P), n, i, j, rest) && p == Point(d, i, j)
    ensures p in P && 0 <= p < |m| && m[p].fruit == 0
  {
  }

  /** Any fruitless point can get a fruit of any type. */
  lemma AnyFruitCanBeDrawn(d: Dims, m: seq<Cell>, i: nat, j: nat, f: nat, more: seq<nat>)
    requires d.Valid() && OnLattice(d, i, j) && Point(d, i, j) in Fruitless(m, Points(d)) && 1 <= f <= NUM_FRUIT_TYPES
    ensures 0 <= Point(d, i, j) < |m|
    ensures FruitDrawn(d, Furnishing(m, [i, j, f - 1] + more),
                       Furnishing(m[Point(d, i, j) := m[Point(d, i, j)].(fruit := f)], more))
  {
    hide Point, Points, FirstHit;
    var rest := [f - 1] + more;
    AnyPointCanBeDrawn(d, Fruitless(m, Points(d)), i, j, rest);
    assert [i, j] + rest == [i, j, f - 1] + more && rest[1..] == more;
    assert FruitAt(d, Furnishing(m, [i, j] + rest), 0, i, j, rest,
                   Furnishing(m[Point(d, i, j) := m[Point(d, i, j)].(fruit := f)], more));
  }

  ghost predicate Fruits(d: Dims, fs: seq<Furnishing>) {
    |fs| > 0 && forall k | 0 <= k < |fs| - 1 :: FruitDrawn(d, fs[k], fs[k + 1])
  }

  lemma NoFruits(d: Dims, s: Furnishing)
    ensures Fruits(d, [s])
  {
  }

  lemma NextFruit(d: Dims, fs: seq<Furnishing>, t: Furnishing)
    requires Fruits(d, fs) && FruitDrawn(d, fs[|fs| - 1], t)
    ensures Fruits(d, fs + [t]) && (fs + [t])[|fs|] == t && (fs + [t])[0] == fs[0]
  {
    hide FruitDrawn;
    var fs' := fs + [t];
    forall k | 0 <= k < |fs'| - 1 ensures FruitDrawn(d, fs'[k], fs'[k + 1]) {
      if k < |fs| - 1 {
        assert FruitDrawn(d, fs[k], fs[k + 1]);
      }
    }
  }

  lemma {:induction false} FruitsOneWay(d: Dims, fs: seq<Furnishing>, fs': seq<Furnishing>, k: nat)
    requires Fruits(d, fs) && Fruits(d, fs') && fs[0] == fs'[0] && k < |fs| && k < |fs'|
    ensures fs[k] == fs'[k]
  {
    hide FruitDrawn;
    if k > 0 {
      FruitsOneWay(d, fs, fs', k - 1);
      FruitOneWay(d, fs[k - 1], fs[k], fs'[k]);
    }
  }

  // ----- the whole maze -----

  /** How a maze has come about: worms, repairs, fruit. */
  datatype Making = Making(ds: seq<Digging>, js: seq<Joining>, fs: seq<Furnishing>)

  /** The first phase begins with walls only and ends with no point walled. */
  ghost predicate DugFrom(d: Dims, tape: seq<nat>, ds: seq<Digging>) {
    Worms(d, ds) && ds[0] == Digging(AllWalls(), tape, 0, 0) && WallPoints(ds[|ds| - 1].m, Points(d)) == {}
  }

  /** What (1,1) reaches is marked. */
  ghost function CornerMarked(m: seq<Cell>, d: Dims): seq<Cell> {
    Marked(m, Component(m, d.Width(), Unreached(m, Points(d)), Point(d, 0, 0)))
  }

  /** The second phase begins where the last worm has stopped and ends with no point
      unreached. */
  ghost predicate JoinedFrom(d: Dims, s: Digging, js: seq<Joining>) {
    && Turns(d, js) && |js| > 1 && Unreached(js[|js| - 1].m, Points(d)) == {}
    && js[0] == Joining(CornerMarked(s.m, d), s.tape, (s.x - 1) / 2, (s.y - 1) / 2, 0)
  }

  ghost predicate FurnishedFrom(d: Dims, s: Joining, count: nat, fs: seq<Furnishing>) {
    Fruits(d, fs) && |fs| == count + 1 && fs[0] == Furnishing(Cleared(s.m, Points(d)), s.tape)
  }

  ghost predicate ExitFrom(d: Dims, s: Furnishing, m: seq<Cell>, ex: int, ey: int, rest: seq<nat>) {
    exists n, i, j :: ExitAt(d, s, n, i, j, m, ex, ey, rest)
  }

  ghost predicate ExitAt(d: Dims, s: Furnishing, n: nat, i: int, j: int, m: seq<Cell>, ex: int, ey: int, rest: seq<nat>) {
    && FirstHit(d, s.tape, Fruitless(s.m, Points(d)), n, i, j, rest) && ex == 2 * i + 1 && ey == 2 * j + 1
    && 0 <= Point(d, i, j) < |s.m| && m == s.m[Point(d, i, j) := s.m[Point(d, i, j)].(exit := true)]
  }

  ghost predicate MadeBy(d: Dims, tape: seq<nat>, count: nat, mk: Making, m: seq<Cell>, ex: int, ey: int, rest: seq<nat>) {
    && DugFrom(d, tape, mk.ds) && JoinedFrom(d, mk.ds[|mk.ds| - 1], mk.js)
    && FurnishedFrom(d, mk.js[|mk.js| - 1], count, mk.fs)
    && ExitFrom(d, mk.fs[|mk.fs| - 1], m, ex, ey, rest)
  }

  /** The random numbers `tape` make maze m with `count` pieces of fruit and the exit at
      (ex,ey), and leave `rest`. */
  ghost predicate Made(d: Dims, tape: seq<nat>, count: nat, m: seq<Cell>, ex: int, ey: int, rest: seq<nat>) {
    exists mk :: MadeBy(d, tape, count, mk, m, ex, ey, rest)
  }

  lemma NowMade(d: Dims, tape: seq<nat>, count: nat, ds: seq<Digging>, js: seq<Joining>, fs: seq<Furnishing>,
                n: nat, i: int, j: int, m: seq<Cell>, ex: int, ey: int, rest: seq<nat>)
    requires |ds| > 0 && |js| > 0 && |fs| == count + 1 && DugFrom(d, tape, ds) && JoinedFrom(d, ds[|ds| - 1], js)
    requires FurnishedFrom(d, js[|js| - 1], count, fs) && ExitAt(d, fs[count], n, i, j, m, ex, ey, rest)
    ensures Made(d, tape, count, m, ex, ey, rest)
  {
    hide DugFrom, JoinedFrom, FurnishedFrom, ExitAt;
    assert MadeBy(d, tape, count, Making(ds, js, fs), m, ex, ey, rest);
  }

  lemma ExitOneWay(d: Dims, s: Furnishing, m: seq<Cell>, ex: int, ey: int, rest: seq<nat>,
                   m': seq<Cell>, ex': int, ey': int, rest': seq<nat>)
    requires ExitFrom(d, s, m, ex, ey, rest) && ExitFrom(d, s, m', ex', ey', rest')
    ensures m == m' && ex == ex' && ey == ey' && rest == rest'
  {
    hide FirstHit, Fruitless, Points, Point;
    var n, i, j :| ExitAt(d, s, n, i, j, m, ex, ey, rest);
    var n', i', j' :| ExitAt(d, s, n', i', j', m', ex', ey', rest');
    OneFirstHit(d, s.tape, Fruitless(s.m, Points(d)), n, i, j, rest, n', i', j', rest');
  }

  /** Nothing but the random numbers decides about the maze: the same numbers make the
      same maze, with the same fruit and exit, and leave the same numbers. */
  lemma MadeOneWay(d: Dims, tape: seq<nat>, count: nat, m: seq<Cell>, ex: int, ey: int, rest: seq<nat>,
                   m': seq<Cell>, ex': int, ey': int, rest': seq<nat>)
    requires Made(d, tape, count, m, ex, ey, rest) && Made(d, tape, count, m', ex', ey', rest')
    ensures m == m' && ex == ex' && ey == ey' && rest == rest'
  {
    hide Worms, Turns, Fruits, Unreached, WallPoints, Points, CornerMarked, Cleared, AllWalls, ExitFrom;
    var mk :| MadeBy(d, tape, count, mk, m, ex, ey, rest);
    var mk' :| MadeBy(d, tape, count, mk', m', ex', ey', rest');
    WormsOneWay(d, mk.ds, mk'.ds);
    TurnsOneWay(d, mk.js, mk'.js);
    FruitsOneWay(d, mk.fs, mk'.fs, count);
    ExitOneWay(d, mk.fs[count], m, ex, ey, rest, m', ex', ey', rest');
  }
}
