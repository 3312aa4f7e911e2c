// The rules of play: what is in the maze, where the player may be, and how the
// view follows.
module PlayRules {
  import opened Bytes
  import opened MazeGrid
  import opened MazePaths
  import opened MazeWorm
  import opened MazeFurnish
  import opened MazeView
  import opened ViewLayout
  import opened Coherence

  /** The maze while a level is played: the labyrinth, n pieces of fruit on its
      points, and one exit at (ex,ey). */
  ghost predicate InPlay(m: seq<Cell>, d: Dims, n: int, ex: int, ey: int) {
    && Pictured(m, d) && Labyrinth(m, Points(d), d.Width())
    && FruitCells(m) <= Points(d) && |FruitCells(m)| == n
    && Interior(d, ex, ey) && Index(d, ex, ey) in Points(d) && ExitCells(m) == {Index(d, ex, ey)}
  }

  /** Every fruit and the exit can be walked to from (1,1), where the player starts. */
  lemma PrizesAreReachable(m: seq<Cell>, d: Dims, n: int, ex: int, ey: int, c: int)
    requires InPlay(m, d, n, ex, ey) && c in FruitCells(m) + ExitCells(m)
    ensures Walk(m, d.Width(), Index(d, 1, 1), c)
  {
    assert Point(d, 0, 0) in Points(d);
  }

  /** The cells of m1 are those of m0, with the cells of S unveiled. */
  ghost predicate Unveiled(m0: seq<Cell>, m1: seq<Cell>, S: set<int>) {
    m1 == Marked(m0, S)
  }

  lemma UnveiledAgain(m0: seq<Cell>, m1: seq<Cell>, m2: seq<Cell>, S: set<int>, T: set<int>)
    requires Unveiled(m0, m1, S) && Unveiled(m1, m2, T)
    ensures Unveiled(m0, m2, S + T)
  {
  }

  /** Unveiling leaves the walls, the fruit and the exit alone. */
  lemma UnveiledCells(m0: seq<Cell>, m1: seq<Cell>, S: set<int>)
    requires Unveiled(m0, m1, S)
    ensures SameWalls(m0, m1) && FruitCells(m1) == FruitCells(m0) && ExitCells(m1) == ExitCells(m0)
    ensures forall c | c in ReachCells(m1) :: c in ReachCells(m0) || c in S
    ensures forall c | 0 <= c < |m0| && (c in S || c in ReachCells(m0)) :: c in ReachCells(m1)
  {
  }

  /** The maze after a player on cell c has eaten what is there. */
  ghost function Eaten(m: seq<Cell>, c: int): (r: seq<Cell>)
    ensures |r| == |m|
  {
    if 0 <= c < |m| then m[c := m[c].(fruit := 0)] else m
  }

  lemma EatenCells(m: seq<Cell>, c: int)
    ensures SameWalls(m, Eaten(m, c)) && FruitCells(Eaten(m, c)) == FruitCells(m) - {c}
    ensures ReachCells(Eaten(m, c)) == ReachCells(m) && ExitCells(Eaten(m, c)) == ExitCells(m)
  {
  }

  /** The byte of one cell, when the cell is on the map. */
  ghost function CellAt(d: Dims, x: int, y: int): set<int> {
    if Drawable(d, x, y) then {Index(d, x, y)} else {}
  }

  /** The first n of the three cells around (x,y) in its column, from the top. */
  ghost function ColumnCells(d: Dims, x: int, y: int, n: int): set<int>
    decreases n
  {
    if n <= 0 then {} else ColumnCells(d, x, y, n - 1) + CellAt(d, x, y - 2 + n)
  }

  /** The first n of the three columns around (x,y), from the left. */
  ghost function BlockCells(d: Dims, x: int, y: int, n: int): set<int>
    decreases n
  {
    if n <= 0 then {} else BlockCells(d, x, y, n - 1) + ColumnCells(d, x - 2 + n, y, 3)
  }

  lemma NothingUnveiled(m: seq<Cell>, d: Dims, x: int, y: int)
    ensures Unveiled(m, m, ColumnCells(d, x, y, 0)) && Unveiled(m, m, BlockCells(d, x, y, 0))
  {
  }

  lemma CellUnveiled(m0: seq<Cell>, m1: seq<Cell>, m2: seq<Cell>, d: Dims, x: int, y: int, n: int)
    requires 0 <= n && Unveiled(m0, m1, ColumnCells(d, x, y, n)) && Unveiled(m1, m2, CellAt(d, x, y - 1 + n))
    ensures Unveiled(m0, m2, ColumnCells(d, x, y, n + 1))
  {
    UnveiledAgain(m0, m1, m2, ColumnCells(d, x, y, n), CellAt(d, x, y - 1 + n));
  }

  lemma ColumnUnveiled(m0: seq<Cell>, m1: seq<Cell>, m2: seq<Cell>, d: Dims, x: int, y: int, n: int)
    requires 0 <= n && Unveiled(m0, m1, BlockCells(d, x, y, n)) && Unveiled(m1, m2, ColumnCells(d, x - 1 + n, y, 3))
    ensures Unveiled(m0, m2, BlockCells(d, x, y, n + 1))
  {
    UnveiledAgain(m0, m1, m2, BlockCells(d, x, y, n), ColumnCells(d, x - 1 + n, y, 3));
  }

  ghost function FarCells(d: Dims, x: int, y: int): set<int> {
    CellAt(d, x, y - 2) + CellAt(d, x + 2, y) + CellAt(d, x, y + 2) + CellAt(d, x - 2, y)
  }

  lemma FarCellsUnveiled(m0: seq<Cell>, m1: seq<Cell>, m2: seq<Cell>, m3: seq<Cell>, m4: seq<Cell>, d: Dims, x: int, y: int)
    requires Unveiled(m0, m1, CellAt(d, x, y - 2)) && Unveiled(m1, m2, CellAt(d, x + 2, y))
    requires Unveiled(m2, m3, CellAt(d, x, y + 2)) && Unveiled(m3, m4, CellAt(d, x - 2, y))
    ensures Unveiled(m0, m4, FarCells(d, x, y))
  {
  }

  /** What a player on cell (x,y) can see. */
  ghost function Surroundings(d: Dims, x: int, y: int): set<int> {
    BlockCells(d, x, y, 3) + FarCells(d, x, y)
  }

  /** At most two steps away, along the rows and columns. */
  predicate TwoSteps(x: int, y: int, a: int, b: int) {
    (if a < x then x - a else a - x) + (if b < y then y - b else b - y) <= 2
  }

  /** A player sees the cells of the map that are at most two steps away, and no others. */
  lemma SeesTwoSteps(d: Dims, x: int, y: int, c: int)
    ensures c in Surroundings(d, x, y) <==> exists a, b :: TwoSteps(x, y, a, b) && c in CellAt(d, a, b)
  {
    ThreeInColumn(d, x - 1, y);
    ThreeInColumn(d, x, y);
    ThreeInColumn(d, x + 1, y);
    hide ColumnCells, CellAt;
    assert BlockCells(d, x, y, 3) == BlockCells(d, x, y, 2) + ColumnCells(d, x + 1, y, 3);
    assert BlockCells(d, x, y, 2) == BlockCells(d, x, y, 1) + ColumnCells(d, x, y, 3);
    assert BlockCells(d, x, y, 1) == BlockCells(d, x, y, 0) + ColumnCells(d, x - 1, y, 3);
    assert TwoSteps(x, y, x - 1, y - 1) && TwoSteps(x, y, x - 1, y) && TwoSteps(x, y, x - 1, y + 1);
    assert TwoSteps(x, y, x, y - 1) && TwoSteps(x, y, x, y) && TwoSteps(x, y, x, y + 1);
    assert TwoSteps(x, y, x + 1, y - 1) && TwoSteps(x, y, x + 1, y) && TwoSteps(x, y, x + 1, y + 1);
    assert TwoSteps(x, y, x, y - 2) && TwoSteps(x, y, x + 2, y) && TwoSteps(x, y, x, y + 2) && TwoSteps(x, y, x - 2, y);
    forall a, b | TwoSteps(x, y, a, b) && c in CellAt(d, a, b) ensures c in Surroundings(d, x, y) {
      if a == x - 1 || a == x || a == x + 1 {
      } else {
        assert b == y;
      }
    }
  }

  lemma ThreeInColumn(d: Dims, x: int, y: int)
    ensures ColumnCells(d, x, y, 3) == CellAt(d, x, y - 1) + CellAt(d, x, y) + CellAt(d, x, y + 1)
  {
    hide CellAt;
    assert ColumnCells(d, x, y, 1) == ColumnCells(d, x, y, 0) + CellAt(d, x, y - 1);
    assert ColumnCells(d, x, y, 2) == ColumnCells(d, x, y, 1) + CellAt(d, x, y);
  }

  /** The maze after a player has arrived on cell (x,y): the fruit there eaten, the
      surroundings unveiled. */
  ghost function Visited(m: seq<Cell>, d: Dims, x: int, y: int): seq<Cell> {
    Marked(Eaten(m, Index(d, x, y)), Surroundings(d, x, y))
  }

  lemma VisitedCells(m: seq<Cell>, d: Dims, x: int, y: int)
    ensures SameWalls(m, Visited(m, d, x, y))
    ensures FruitCells(Visited(m, d, x, y)) == FruitCells(m) - {Index(d, x, y)}
    ensures ExitCells(Visited(m, d, x, y)) == ExitCells(m)
  {
    EatenCells(m, Index(d, x, y));
    UnveiledCells(Eaten(m, Index(d, x, y)), Visited(m, d, x, y), Surroundings(d, x, y));
  }

  /** In a maze where nothing has been seen yet, a visit unveils the surroundings
      and nothing else. */
  lemma FirstVisit(m: seq<Cell>, d: Dims, x: int, y: int)
    requires ReachCells(m) == {}
    ensures |Visited(m, d, x, y)| == |m|
    ensures forall c | 0 <= c < |m| :: Visited(m, d, x, y)[c].reach <==> c in Surroundings(d, x, y)
  {
    hide Surroundings;
    EatenCells(m, Index(d, x, y));
    assert forall c | 0 <= c < |m| :: Eaten(m, Index(d, x, y))[c].reach ==> c in ReachCells(Eaten(m, Index(d, x, y)));
  }

  /** The window shows nothing but mist, with bumps where the fruit is. */
  ghost predicate MistOnly(b: seq<Byte>, lay: Layout, pics: seq<seq<Byte>>, m: seq<Cell>, d: Dims) {
    && lay.Fits() && |b| == lay.Size() && ValidPictures(pics) && Pictured(m, d)
    && forall x, y | lay.Sees(x, y) ::
         && 0 <= Index(d, x / BLOCK_DIM, y / BLOCK_DIM) < |m|
         && PixelAt(b, lay, x, y) ==
              pics[if m[Index(d, x / BLOCK_DIM, y / BLOCK_DIM)].fruit != 0 then 33 else 17]
                  [(y % BLOCK_DIM) * BLOCK_DIM + x % BLOCK_DIM]
  }

  lemma NewMazeIsMist(b: seq<Byte>, lay: Layout, pics: seq<seq<Byte>>, m: seq<Cell>, d: Dims, n: int)
    requires Coherent(b, lay, pics, m, d, n) && ReachCells(m) == {} && n > 0
    ensures MistOnly(b, lay, pics, m, d)
  {
    CoherentSetting(b, lay, pics, m, d, n);
    assert forall c | 0 <= c < |m| :: m[c].reach ==> c in ReachCells(m);
    forall x, y | lay.Sees(x, y)
      ensures 0 <= Index(d, x / BLOCK_DIM, y / BLOCK_DIM) < |m|
      ensures PixelAt(b, lay, x, y) ==
        pics[if m[Index(d, x / BLOCK_DIM, y / BLOCK_DIM)].fruit != 0 then 33 else 17]
            [(y % BLOCK_DIM) * BLOCK_DIM + x % BLOCK_DIM]
    {
      CoherentAt(b, lay, pics, m, d, n, x, y);
      UnseenIsMist(m, d, n, x / BLOCK_DIM, y / BLOCK_DIM);
    }
  }

  lemma UnveilingKeepsPlay(m: seq<Cell>, d: Dims, n: int, ex: int, ey: int, c: int)
    requires InPlay(m, d, n, ex, ey) && 0 <= c < |m|
    ensures InPlay(m[c := m[c].(reach := true)], d, n, ex, ey)
    ensures Unveiled(m, m[c := m[c].(reach := true)], {c})
  {
    hide Labyrinth, Points, Index, Interior;
    var m' := m[c := m[c].(reach := true)];
    assert m' == Marked(m, {c});
    LabyrinthNeedsOnlyWalls(m, m', Points(d), d.Width());
    assert FruitCells(m') == FruitCells(m) && ExitCells(m') == ExitCells(m);
  }

  lemma EatingKeepsPlay(m: seq<Cell>, d: Dims, n: int, ex: int, ey: int, c: int)
    requires InPlay(m, d, n, ex, ey) && 0 <= c < |m| && m[c].fruit != 0
    ensures n > 0 && InPlay(m[c := m[c].(fruit := 0)], d, n - 1, ex, ey)
    ensures SameWalls(m, m[c := m[c].(fruit := 0)])
    ensures FruitCells(m[c := m[c].(fruit := 0)]) == FruitCells(m) - {c}
  {
    var m' := m[c := m[c].(fruit := 0)];
    LabyrinthNeedsOnlyWalls(m, m', Points(d), d.Width());
    assert c in FruitCells(m);
    assert FruitCells(m') == FruitCells(m) - {c};
    assert ExitCells(m') == ExitCells(m);
  }

  // ----- open cells are inside the boundary -----

  /** A lattice point has odd coordinates inside the boundary. */
  lemma PointCoordinates(d: Dims, x: int, y: int)
    requires d.Valid() && 0 <= x < 2 * d.x && Index(d, x, y) in Points(d)
    ensures x % 2 == 1 && y % 2 == 1 && 1 <= y < 2 * d.y
  {
    hide Points;
    var i, j := PlaceOf(d, Index(d, x, y));
    SamePlace(d, x, y, i, j);
  }

  /** Nothing on the boundary was ever dug. */
  lemma BoundaryIsSolid(d: Dims, x: int, y: int)
    requires d.Valid() && OnBoundary(d, x, y)
    ensures !Diggable(Points(d), d.Width(), Index(d, x, y))
  {
    BoundaryIsNoPoint(d, x, y);
    BoundaryIsNotBetweenRows(d, x, y);
    BoundaryIsNotBetweenColumns(d, x, y);
  }

  predicate OnBoundary(d: Dims, x: int, y: int) {
    0 <= x < 2 * d.x && 0 <= y <= 2 * d.y + 1 && (x == 0 || y == 0 || y == 2 * d.y)
  }

  lemma BoundaryIsNoPoint(d: Dims, x: int, y: int)
    requires d.Valid() && OnBoundary(d, x, y)
    ensures Index(d, x, y) !in Points(d)
  {
    if Index(d, x, y) in Points(d) {
      PointCoordinates(d, x, y);
    }
  }

  lemma BoundaryIsNotBetweenRows(d: Dims, x: int, y: int)
    requires d.Valid() && OnBoundary(d, x, y)
    ensures !(Index(d, x, y) - d.Width() in Points(d) && Index(d, x, y) + d.Width() in Points(d))
  {
    hide Points, Index;
    RowAbove(d, x, y);
    if Index(d, x, y - 1) in Points(d) && Index(d, x, y + 1) in Points(d) {
      PointCoordinates(d, x, y - 1);
      PointCoordinates(d, x, y + 1);
    }
  }

  lemma BoundaryIsNotBetweenColumns(d: Dims, x: int, y: int)
    requires d.Valid() && OnBoundary(d, x, y)
    ensures !(Index(d, x, y) - 1 in Points(d) && Index(d, x, y) + 1 in Points(d))
  {
    hide Points, Index;
    RowAbove(d, x, y);
    if x == 0 && Index(d, 2 * d.x - 1, y - 1) in Points(d) && Index(d, 1, y) in Points(d) {
      PointCoordinates(d, 2 * d.x - 1, y - 1);
      PointCoordinates(d, 1, y);
    } else if x > 0 && Index(d, x - 1, y) in Points(d) {
      PointCoordinates(d, x - 1, y);
    }
  }

  lemma RowAbove(d: Dims, x: int, y: int)
    ensures Index(d, x, y - 1) == Index(d, x, y) - d.Width() && Index(d, x, y + 1) == Index(d, x, y) + d.Width()
    ensures Index(d, x - 1, y) == Index(d, x, y) - 1 && Index(d, x + 1, y) == Index(d, x, y) + 1
    ensures x == 0 ==> Index(d, 2 * d.x - 1, y - 1) == Index(d, x, y) - 1
    ensures Index(d, 2 * d.x, y) == Index(d, 0, y + 1)
  {
    Distribute(y, 1, d.Width());
    Distribute(y + 1, 1, d.Width());
  }

  /** No (even,even) cell was ever dug. */
  lemma EvenEvenIsSolid(d: Dims, x: int, y: int)
    requires d.Valid() && Interior(d, x, y) && x % 2 == 0 && y % 2 == 0
    ensures !Diggable(Points(d), d.Width(), Index(d, x, y))
  {
    hide Points, Index;
    RowAbove(d, x, y);
    if Index(d, x, y) in Points(d) {
      PointCoordinates(d, x, y);
    }
    if Index(d, x - 1, y) in Points(d) {
      PointCoordinates(d, x - 1, y);
    }
    if Index(d, x, y - 1) in Points(d) {
      PointCoordinates(d, x, y - 1);
    }
  }

  lemma OpenIsInterior(m: seq<Cell>, d: Dims, x: int, y: int)
    requires d.Valid() && LatticeShape(m, Points(d), d.Width()) && Drawable(d, x, y) && Open(m, Index(d, x, y))
    ensures Interior(d, x, y)
  {
    if x == 2 * d.x {
      RowAbove(d, x, y);
      BoundaryIsSolid(d, 0, y + 1);
    } else if !Interior(d, x, y) {
      BoundaryIsSolid(d, x, y);
    }
  }

  // ----- the player -----

  datatype Dir = Up | Right | Down | Left | Stop {
    function DX(): int { if Right? then 1 else if Left? then -1 else 0 }
    function DY(): int { if Down? then 1 else if Up? then -1 else 0 }

    predicate Opposite(other: Dir) {
      || (Up? && other.Down?) || (Down? && other.Up?) || (Left? && other.Right?) || (Right? && other.Left?)
    }
  }

  /** Cell (x,y) is an open cell the player can stand on. */
  ghost predicate Standable(m: seq<Cell>, d: Dims, x: int, y: int) {
    Interior(d, x, y) && Open(m, Index(d, x, y))
  }

  /** The flat distance to the cell next door. */
  function CellStep(d: Dims, k: Dir): int {
    if k.Stop? then 0 else Stride(d, Facing(k))
  }

  lemma NextDoor(d: Dims, x: int, y: int, k: Dir)
    ensures Index(d, x + k.DX(), y + k.DY()) == Index(d, x, y) + CellStep(d, k)
  {
    RowAbove(d, x, y);
  }

  lemma OpenNextDoor(m: seq<Cell>, d: Dims, n: int, ex: int, ey: int, x: int, y: int, k: Dir)
    requires InPlay(m, d, n, ex, ey) && Interior(d, x, y) && Open(m, Index(d, x, y) + CellStep(d, k))
    ensures Standable(m, d, x + k.DX(), y + k.DY())
  {
    hide Index, Points, LatticeShape, FruitCells, ExitCells, Walk, CellStep;
    NextDoor(d, x, y, k);
    OpenIsInterior(m, d, x + k.DX(), y + k.DY());
  }

  /** The pixel where the current move ends. */
  function TargetX(px: int, dir: Dir, cnt: int): int {
    if dir.Right? then px + cnt else if dir.Left? then px - cnt else px
  }

  function TargetY(py: int, dir: Dir, cnt: int): int {
    if dir.Down? then py + cnt else if dir.Up? then py - cnt else py
  }

  /** The player is on an open cell, or `cnt` pixels from the open cell it moves
      to, on the way from the open cell before it. */
  ghost predicate OnTrack(m: seq<Cell>, d: Dims, px: int, py: int, dir: Dir, cnt: int) {
    var tx, ty := TargetX(px, dir, cnt), TargetY(py, dir, cnt);
    && 0 <= cnt < BLOCK_DIM && (dir.Stop? ==> cnt == 0)
    && tx % BLOCK_DIM == 0 && ty % BLOCK_DIM == 0
    && Standable(m, d, tx / BLOCK_DIM, ty / BLOCK_DIM)
    && (cnt > 0 ==> Standable(m, d, tx / BLOCK_DIM - dir.DX(), ty / BLOCK_DIM - dir.DY()))
  }

  /** The player never overlaps a wall. */
  lemma PlayerAvoidsWalls(m: seq<Cell>, d: Dims, px: int, py: int, dir: Dir, cnt: int, x: int, y: int)
    requires OnTrack(m, d, px, py, dir, cnt) && InBlock(px, py, x, y)
    ensures Standable(m, d, x / BLOCK_DIM, y / BLOCK_DIM)
  {
    var tx, ty := TargetX(px, dir, cnt), TargetY(py, dir, cnt);
    assert tx == tx / BLOCK_DIM * BLOCK_DIM && ty == ty / BLOCK_DIM * BLOCK_DIM;
  }

  /** The direction and the distance left after the input has been looked at: an
      opposite direction takes effect at once. */
  function Turned(dir: Dir, next: Dir): Dir {
    if dir.Opposite(next) then next else dir
  }

  function TurnedCnt(dir: Dir, next: Dir, cnt: int): int {
    if dir.Opposite(next) && cnt > 0 then BLOCK_DIM - cnt else cnt
  }

  /** Reversing between two cells swaps them and mirrors the distance. */
  lemma ReverseStaysOnTrack(m: seq<Cell>, d: Dims, px: int, py: int, dir: Dir, cnt: int, next: Dir)
    requires OnTrack(m, d, px, py, dir, cnt) && dir.Opposite(next)
    ensures OnTrack(m, d, px, py, next, TurnedCnt(dir, next, cnt))
  {
    hide Standable;
    if cnt > 0 {
      var tx, ty := TargetX(px, dir, cnt), TargetY(py, dir, cnt);
      assert TargetX(px, next, BLOCK_DIM - cnt) == tx - BLOCK_DIM * dir.DX();
      assert TargetY(py, next, BLOCK_DIM - cnt) == ty - BLOCK_DIM * dir.DY();
    }
  }

  /** Setting out towards an open neighbour, one pixel done. */
  lemma SetOutOnTrack(m: seq<Cell>, d: Dims, px: int, py: int, dir: Dir)
    requires OnTrack(m, d, px, py, Stop, 0) && !dir.Stop?
    requires Standable(m, d, px / BLOCK_DIM + dir.DX(), py / BLOCK_DIM + dir.DY())
    ensures OnTrack(m, d, px + dir.DX(), py + dir.DY(), dir, BLOCK_DIM - 1)
  {
  }

  /** One more pixel of a move in progress. */
  lemma MoveOnTrack(m: seq<Cell>, d: Dims, px: int, py: int, dir: Dir, cnt: int)
    requires OnTrack(m, d, px, py, dir, cnt) && cnt > 0
    ensures OnTrack(m, d, px + dir.DX(), py + dir.DY(), dir, cnt - 1)
  {
  }

  /** The move the player is about to make: none, or towards an open cell next
      door, either just starting or under way. */
  ghost predicate Ready(m: seq<Cell>, d: Dims, px: int, py: int, dir: Dir, cnt: int) {
    || (OnTrack(m, d, px, py, dir, cnt) && (cnt == 0 ==> dir.Stop?))
    || (&& cnt == BLOCK_DIM && !dir.Stop? && OnTrack(m, d, px, py, Stop, 0)
        && Standable(m, d, px / BLOCK_DIM + dir.DX(), py / BLOCK_DIM + dir.DY()))
  }

  lemma OnTrackIsReady(m: seq<Cell>, d: Dims, px: int, py: int, dir: Dir, cnt: int)
    requires OnTrack(m, d, px, py, dir, cnt)
    ensures 0 <= cnt && (dir.Stop? ==> cnt == 0) && (cnt > 0 ==> Ready(m, d, px, py, dir, cnt))
  {
  }

  lemma SameWallsItself(m: seq<Cell>)
    ensures SameWalls(m, m)
  {
  }

  lemma SameWallsTwice(m: seq<Cell>, m': seq<Cell>, m'': seq<Cell>)
    requires SameWalls(m, m') && SameWalls(m', m'')
    ensures SameWalls(m, m'')
  {
  }

  lemma StoppedIsOnTrack(m: seq<Cell>, d: Dims, px: int, py: int, cnt: int)
    requires Ready(m, d, px, py, Stop, cnt)
    ensures OnTrack(m, d, px, py, Stop, cnt)
  {
  }

  /** The order of the player's pictures. */
  function Facing(dir: Dir): int {
    match dir
    case Up => DIR_UP
    case Right => DIR_RIGHT
    case Down => DIR_DOWN
    case Left => DIR_LEFT
    case Stop => DIR_UP
  }

  /** The pictures of the player and their masks, by the way it faces. */
  lemma PlayerPictures(k: Dir)
    requires !k.Stop?
    ensures BLOCK_PLAYER_UP + Facing(k) == (if k.Up? then 18 else if k.Right? then 19 else if k.Down? then 20 else 21)
    ensures BLOCK_PLAYER_MASK_UP + Facing(k) == BLOCK_PLAYER_UP + Facing(k) + 4
  {
  }

  lemma InPlaySize(m: seq<Cell>, d: Dims, n: int, ex: int, ey: int)
    requires InPlay(m, d, n, ex, ey)
    ensures |m| == MAZE_SIZE
  {
  }

  lemma ReadyMoves(m: seq<Cell>, d: Dims, px: int, py: int, dir: Dir, cnt: int)
    requires Ready(m, d, px, py, dir, cnt) && !dir.Stop?
    ensures OnTrack(m, d, px + dir.DX(), py + dir.DY(), dir, cnt - 1)
  {
    if cnt == BLOCK_DIM {
      SetOutOnTrack(m, d, px, py, dir);
    } else {
      MoveOnTrack(m, d, px, py, dir, cnt);
    }
  }

  /** Where the player turns at a cell: to `next` if that way is open, else straight
      on if that way is open, else nowhere. `open` is find_open_directions' answer;
      its fifth entry, read past the end of the array for DIR_STOP, is arbitrary. */
  function Steer(dir: Dir, next: Dir, open: Dir -> bool): Dir {
    var wanted := if open(next) then next else dir;
    if !wanted.Stop? && !open(wanted) then Stop else wanted
  }

  /** The ways open from cell (x,y), and the arbitrary fifth entry. */
  ghost function OpenWays(m: seq<Cell>, d: Dims, x: int, y: int, fifth: bool): Dir -> bool {
    (k: Dir) => if k.Stop? then fifth else Open(m, Index(d, x, y) + CellStep(d, k))
  }

  /** From a cell the player is ready to stay, or to go any way that is open. */
  lemma FromCell(m: seq<Cell>, d: Dims, n: int, ex: int, ey: int, px: int, py: int, dir: Dir, k: Dir, fifth: bool)
    requires InPlay(m, d, n, ex, ey) && OnTrack(m, d, px, py, dir, 0)
    ensures Interior(d, px / BLOCK_DIM, py / BLOCK_DIM)
    ensures k.Stop? || OpenWays(m, d, px / BLOCK_DIM, py / BLOCK_DIM, fifth)(k) ==>
      Ready(m, d, px, py, k, if k.Stop? then 0 else BLOCK_DIM)
  {
    hide InPlay;
    if !k.Stop? && OpenWays(m, d, px / BLOCK_DIM, py / BLOCK_DIM, fifth)(k) {
      OpenNextDoor(m, d, n, ex, ey, px / BLOCK_DIM, py / BLOCK_DIM, k);
    }
  }

  /** Where the player turns depends on two entries only. */
  lemma SteerAlike(dir: Dir, next: Dir, open: Dir -> bool, open': Dir -> bool)
    requires open(dir) == open'(dir) && open(next) == open'(next)
    ensures Steer(dir, next, open) == Steer(dir, next, open')
  {
  }

  /** The player turns as asked whenever it can, never sets out towards a wall, and
      the value past the end of the array does not matter once the player has
      stopped. */
  lemma SteeringIsSafe(dir: Dir, next: Dir, open: Dir -> bool)
    ensures !next.Stop? && open(next) ==> Steer(dir, next, open) == next
    ensures !next.Stop? && !open(next) && !dir.Stop? && open(dir) ==> Steer(dir, next, open) == dir
    ensures !Steer(dir, next, open).Stop? ==> open(Steer(dir, next, open))
    ensures next.Stop? && dir.Stop? ==> Steer(dir, next, open).Stop?
  {
  }

  /** Turning back first, where that is what is asked for, and then steering. */
  lemma TurnThenSteer(dir: Dir, next: Dir, open: Dir -> bool)
    ensures Steer(Turned(dir, next), next, open) ==
      if !next.Stop? && open(next) then next
      else if next.Stop? && open(Stop) then Stop
      else if !next.Stop? && !dir.Stop? && next.DX() == -dir.DX() && next.DY() == -dir.DY() then Stop
      else if !dir.Stop? && open(dir) then dir
      else Stop
  {
  }

  lemma TrackNeedsOnlyWalls(m: seq<Cell>, m': seq<Cell>, d: Dims, px: int, py: int, dir: Dir, cnt: int)
    requires SameWalls(m, m') && OnTrack(m, d, px, py, dir, cnt)
    ensures OnTrack(m', d, px, py, dir, cnt)
  {
  }

  /** The player's corner is between the first and the last interior cell. */
  lemma TrackBounds(m: seq<Cell>, d: Dims, px: int, py: int, dir: Dir, cnt: int)
    requires OnTrack(m, d, px, py, dir, cnt)
    ensures BLOCK_DIM <= px <= (2 * d.x - 1) * BLOCK_DIM && BLOCK_DIM <= py <= (2 * d.y - 1) * BLOCK_DIM
  {
  }

  // ----- the view follows the player -----

  const PAN_BORDER := 5

  /** The window has panned as far as the player's position asks for. */
  predicate Follows(lay: Layout, d: Dims, px: int, py: int) {
    && (px < lay.sx + BLOCK_DIM * PAN_BORDER ==> lay.sx == SHOW_MIN)
    && (px > lay.sx + SCROLL_X_DIM - BLOCK_DIM * (PAN_BORDER + 1) ==>
          lay.sx + SCROLL_X_DIM == (2 * d.x + 1) * BLOCK_DIM - SHOW_MIN)
    && (py < lay.sy + BLOCK_DIM * PAN_BORDER ==> lay.sy == SHOW_MIN)
    && (py > lay.sy + SCROLL_Y_DIM - BLOCK_DIM * (PAN_BORDER + 1) ==>
          lay.sy + SCROLL_Y_DIM == (2 * d.y + 1) * BLOCK_DIM - SHOW_MIN)
  }

  /** The window's new left edge after the player has moved to column px. */
  function PannedX(mapX: int, px: int, d: Dims, k: Dir): int {
    if k.Left? && px < mapX + BLOCK_DIM * PAN_BORDER && mapX > SHOW_MIN then mapX - 1
    else if k.Right? && px > mapX + SCROLL_X_DIM - BLOCK_DIM * (PAN_BORDER + 1)
         && mapX + SCROLL_X_DIM < (2 * d.x + 1) * BLOCK_DIM - SHOW_MIN then mapX + 1
    else mapX
  }

  /** The window's new top edge after the player has moved to row py. */
  function PannedY(mapY: int, py: int, d: Dims, k: Dir): int {
    if k.Up? && py < mapY + BLOCK_DIM * PAN_BORDER && mapY > SHOW_MIN then mapY - 1
    else if k.Down? && py > mapY + SCROLL_Y_DIM - BLOCK_DIM * (PAN_BORDER + 1)
         && mapY + SCROLL_Y_DIM < (2 * d.y + 1) * BLOCK_DIM - SHOW_MIN then mapY + 1
    else mapY
  }

  /** Moving by one pixel and panning by one when asked keeps the view following. */
  lemma PanFollows(lay: Layout, d: Dims, px: int, py: int, k: Dir)
    requires d.Valid() && WindowInMaze(lay, d) && Follows(lay, d, px, py)
    ensures var l := lay.(sx := PannedX(lay.sx, px + k.DX(), d, k), sy := PannedY(lay.sy, py + k.DY(), d, k));
            WindowInMaze(l, d) && Follows(l, d, px + k.DX(), py + k.DY())
  {
  }

  /** The whole player block is always on screen. */
  lemma PlayerIsVisible(lay: Layout, m: seq<Cell>, d: Dims, px: int, py: int, dir: Dir, cnt: int)
    requires WindowInMaze(lay, d) && Follows(lay, d, px, py) && OnTrack(m, d, px, py, dir, cnt)
    ensures lay.Sees(px, py) && lay.Sees(px + BLOCK_DIM - 1, py + BLOCK_DIM - 1)
  {
    TrackBounds(m, d, px, py, dir, cnt);
  }

  /** No boundary cell within two columns of the player has its twin on screen. */
  lemma TwinsAreHidden(lay: Layout, d: Dims, px: int, py: int, x: int)
    requires d.Valid() && WindowInMaze(lay, d) && Follows(lay, d, px, py) && px % BLOCK_DIM == 0
    requires px / BLOCK_DIM - 2 <= x <= px / BLOCK_DIM + 2
    ensures TwinHidden(lay, d, x)
  {
  }
}
