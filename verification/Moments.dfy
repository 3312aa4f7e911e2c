// The game of mp2/mazegame.c as a function: what a tick, a frame and a level make of
// the maze, the player and the window, for any input.
module Moments {
  import opened MazeGrid
  import opened MazePaths
  import opened MazeWorm
  import opened MazeFurnish
  import opened ViewLayout
  import opened PlayRules

  /** What the tick loop changes: the maze, the player, and the window. */
  datatype Moment = Moment(m: seq<Cell>, px: int, py: int, dir: Dir, cnt: int, lastDir: Dir, mapX: int, mapY: int)

  /** An opposite direction takes effect at once. */
  function TurnedBack(s: Moment, next: Dir): Moment {
    s.(dir := Turned(s.dir, next), cnt := TurnedCnt(s.dir, next, s.cnt))
  }

  /** On a cell: the fruit eaten and the surroundings unveiled. */
  ghost function Arrived(d: Dims, s: Moment): Moment {
    s.(m := Visited(s.m, d, s.px / BLOCK_DIM, s.py / BLOCK_DIM))
  }

  /** The player is on the exit and no fruit is left. */
  ghost predicate AtExit(ex: int, ey: int, s: Moment) {
    s.px == ex * BLOCK_DIM && s.py == ey * BLOCK_DIM && FruitCells(s.m) == {}
  }

  /** On a cell: the way to go on. */
  ghost function Steered(d: Dims, s: Moment, next: Dir, fifth: bool): Moment {
    var k := Steer(s.dir, next, OpenWays(s.m, d, s.px / BLOCK_DIM, s.py / BLOCK_DIM, fifth));
    s.(dir := k, cnt := if k.Stop? then 0 else BLOCK_DIM)
  }

  /** One pixel on, with the pan it asks for. */
  function Advanced(d: Dims, s: Moment): Moment {
    if s.dir.Stop? then s
    else
      var x, y := s.px + s.dir.DX(), s.py + s.dir.DY();
      s.(px := x, py := y, cnt := s.cnt - 1, lastDir := s.dir,
         mapX := PannedX(s.mapX, x, d, s.dir), mapY := PannedY(s.mapY, y, d, s.dir))
  }

  /** The tick on which the player stands on the exit with no fruit left. */
  ghost predicate Wins(d: Dims, ex: int, ey: int, s: Moment, next: Dir) {
    TurnedBack(s, next).cnt == 0 && AtExit(ex, ey, Arrived(d, TurnedBack(s, next)))
  }

  ghost function Ticked(d: Dims, ex: int, ey: int, s: Moment, next: Dir, fifth: bool): Moment {
    var t := TurnedBack(s, next);
    if t.cnt != 0 then Advanced(d, t)
    else if AtExit(ex, ey, Arrived(d, t)) then Arrived(d, t)
    else Advanced(d, Steered(d, Arrived(d, t), next, fifth))
  }

  lemma TickedUnfolds(d: Dims, ex: int, ey: int, s: Moment, next: Dir, fifth: bool)
    ensures var t := TurnedBack(s, next);
      && (Wins(d, ex, ey, s, next) <==> t.cnt == 0 && AtExit(ex, ey, Arrived(d, t)))
      && (t.cnt != 0 ==> Ticked(d, ex, ey, s, next, fifth) == Advanced(d, t))
      && (t.cnt == 0 && AtExit(ex, ey, Arrived(d, t)) ==> Ticked(d, ex, ey, s, next, fifth) == Arrived(d, t))
      && (t.cnt == 0 && !AtExit(ex, ey, Arrived(d, t)) ==>
            Ticked(d, ex, ey, s, next, fifth) == Advanced(d, Steered(d, Arrived(d, t), next, fifth)))
  {
  }

  // ----- what a tick does to the player -----

  /** Asking for the way back between two cells: the player turns at once and moves one
      pixel back, towards the cell it came from. */
  lemma WayBackIsAtOnce(d: Dims, ex: int, ey: int, s: Moment, next: Dir, fifth: bool)
    requires 0 < s.cnt < 12 && !s.dir.Stop? && !next.Stop? && next.DX() == -s.dir.DX() && next.DY() == -s.dir.DY()
    ensures var t := Ticked(d, ex, ey, s, next, fifth);
      && t.dir == t.lastDir == next && t.cnt == 11 - s.cnt && t.m == s.m
      && t.px == s.px + next.DX() && t.py == s.py + next.DY()
      && t.px + t.cnt * next.DX() == s.px + s.cnt * s.dir.DX() + 12 * next.DX()
      && t.py + t.cnt * next.DY() == s.py + s.cnt * s.dir.DY() + 12 * next.DY()
  {
    hide Visited, FruitCells, Steer, OpenWays, PannedX, PannedY;
  }

  /** Asking for anything else between two cells changes nothing: the player moves one
      pixel on, towards the cell it has set out for. */
  lemma OtherWaysWait(d: Dims, ex: int, ey: int, s: Moment, next: Dir, fifth: bool)
    requires 0 < s.cnt < 12 && !s.dir.Stop? && (next.Stop? || next.DX() != -s.dir.DX() || next.DY() != -s.dir.DY())
    ensures var t := Ticked(d, ex, ey, s, next, fifth);
      && t.dir == t.lastDir == s.dir && t.cnt == s.cnt - 1 && t.m == s.m
      && t.px == s.px + s.dir.DX() && t.py == s.py + s.dir.DY()
      && t.px + t.cnt * s.dir.DX() == s.px + s.cnt * s.dir.DX() && t.py + t.cnt * s.dir.DY() == s.py + s.cnt * s.dir.DY()
  {
    hide Visited, FruitCells, Steer, OpenWays, PannedX, PannedY;
  }

  /** The cell next to the player's in a direction is open. */
  ghost predicate OpenAhead(d: Dims, s: Moment, k: Dir) {
    Open(s.m, Index(d, s.px / 12 + k.DX(), s.py / 12 + k.DY()))
  }

  ghost predicate SetsOut(s: Moment, t: Moment, k: Dir) {
    t.dir == t.lastDir == k && t.cnt == 11 && t.px == s.px + k.DX() && t.py == s.py + k.DY()
  }

  ghost predicate Stays(s: Moment, t: Moment) {
    t.dir.Stop? && t.cnt == 0 && t.px == s.px && t.py == s.py && t.lastDir == s.lastDir
  }

  /** On a cell, unless it wins, the player sets out the way that is asked for when
      that cell is open; else straight on when that one is, but not when the way back
      has been asked for; else it stays. Asking for nothing is going straight on, or
      stopping when the entry past the end of the array says so. */
  lemma OnACell(d: Dims, ex: int, ey: int, s: Moment, next: Dir, fifth: bool)
    requires s.cnt == 0 && !Wins(d, ex, ey, s, next)
    ensures var t := Ticked(d, ex, ey, s, next, fifth);
      && t.m == Arrived(d, s).m
      && (if !next.Stop? && OpenAhead(d, s, next) then SetsOut(s, t, next)
          else if next.Stop? && fifth then Stays(s, t)
          else if (!next.Stop? && !s.dir.Stop? && next.DX() == -s.dir.DX() && next.DY() == -s.dir.DY()) then Stays(s, t)
          else if !s.dir.Stop? && OpenAhead(d, s, s.dir) then SetsOut(s, t, s.dir)
          else Stays(s, t))
  {
    hide Visited, FruitCells, PannedX, PannedY, Index, Stride, Steer, Turned;
    var x, y := s.px / BLOCK_DIM, s.py / BLOCK_DIM;
    TurnThenSteer(s.dir, next, OpenWays(Visited(s.m, d, x, y), d, x, y, fifth));
    VisitKeepsWalls(s.m, d, x, y, Index(d, x + next.DX(), y + next.DY()));
    VisitKeepsWalls(s.m, d, x, y, Index(d, x + s.dir.DX(), y + s.dir.DY()));
    NextDoor(d, x, y, next);
    NextDoor(d, x, y, s.dir);
  }

  lemma VisitKeepsWalls(m: seq<Cell>, d: Dims, x: int, y: int, c: int)
    ensures Open(Visited(m, d, x, y), c) == Open(m, c)
  {
    VisitedCells(m, d, x, y);
  }

  // ----- many ticks -----

  /** How far a run of ticks has come, and whether it has won. */
  datatype Course = Course(s: Moment, won: bool)

  /** The ticks in turn, until one wins. */
  ghost function TicksOf(d: Dims, ex: int, ey: int, s: Moment, inputs: seq<(Dir, bool)>): Course {
    if inputs == [] then Course(s, false)
    else
      var n := |inputs| - 1;
      var c := TicksOf(d, ex, ey, s, inputs[..n]);
      if c.won then c
      else Course(Ticked(d, ex, ey, c.s, inputs[n].0, inputs[n].1), Wins(d, ex, ey, c.s, inputs[n].0))
  }

  const MAX_TICKS := 8

  /** The ticks of one frame: no more than eight, however many are due. */
  function Due(inputs: seq<(Dir, bool)>): seq<(Dir, bool)> {
    if |inputs| > MAX_TICKS then inputs[..MAX_TICKS] else inputs
  }

  lemma DueIs(inputs: seq<(Dir, bool)>)
    ensures |Due(inputs)| == if |inputs| > 8 then 8 else |inputs|
    ensures forall k | 0 <= k < |Due(inputs)| :: Due(inputs)[k] == inputs[k]
  {
  }

  ghost function FramesOf(d: Dims, ex: int, ey: int, s: Moment, frames: seq<seq<(Dir, bool)>>): Course {
    if frames == [] then Course(s, false)
    else
      var n := |frames| - 1;
      var c := FramesOf(d, ex, ey, s, frames[..n]);
      if c.won then c else TicksOf(d, ex, ey, c.s, Due(frames[n]))
  }

  lemma NoTicks(d: Dims, ex: int, ey: int, s: Moment, inputs: seq<(Dir, bool)>)
    ensures TicksOf(d, ex, ey, s, inputs[..0]) == Course(s, false)
  {
  }

  lemma NextTick(d: Dims, ex: int, ey: int, s: Moment, inputs: seq<(Dir, bool)>, k: nat)
    requires k < |inputs|
    ensures var c := TicksOf(d, ex, ey, s, inputs[..k]);
      TicksOf(d, ex, ey, s, inputs[..k + 1]) ==
        if c.won then c
        else Course(Ticked(d, ex, ey, c.s, inputs[k].0, inputs[k].1), Wins(d, ex, ey, c.s, inputs[k].0))
  {
    assert inputs[..k + 1][..k] == inputs[..k];
  }

  /** Nothing happens after a win. */
  lemma {:induction false} WonForGood(d: Dims, ex: int, ey: int, s: Moment, inputs: seq<(Dir, bool)>, k: nat)
    requires k <= |inputs| && TicksOf(d, ex, ey, s, inputs[..k]).won
    ensures TicksOf(d, ex, ey, s, inputs) == TicksOf(d, ex, ey, s, inputs[..k])
    decreases |inputs|
  {
    hide Ticked, Wins;
    if k < |inputs| {
      var n := |inputs| - 1;
      assert inputs[..n][..k] == inputs[..k];
      WonForGood(d, ex, ey, s, inputs[..n], k);
    } else {
      assert inputs[..k] == inputs;
    }
  }

  lemma NoFrames(d: Dims, ex: int, ey: int, s: Moment, frames: seq<seq<(Dir, bool)>>)
    ensures FramesOf(d, ex, ey, s, frames[..0]) == Course(s, false)
  {
  }

  lemma NextFrame(d: Dims, ex: int, ey: int, s: Moment, frames: seq<seq<(Dir, bool)>>, k: nat)
    requires k < |frames|
    ensures var c := FramesOf(d, ex, ey, s, frames[..k]);
      FramesOf(d, ex, ey, s, frames[..k + 1]) == if c.won then c else TicksOf(d, ex, ey, c.s, Due(frames[k]))
  {
    assert frames[..k + 1][..k] == frames[..k];
  }

  lemma {:induction false} WonForever(d: Dims, ex: int, ey: int, s: Moment, frames: seq<seq<(Dir, bool)>>, k: nat)
    requires k <= |frames| && FramesOf(d, ex, ey, s, frames[..k]).won
    ensures FramesOf(d, ex, ey, s, frames) == FramesOf(d, ex, ey, s, frames[..k])
    decreases |frames|
  {
    hide TicksOf;
    if k < |frames| {
      var n := |frames| - 1;
      assert frames[..n][..k] == frames[..k];
      WonForever(d, ex, ey, s, frames[..n], k);
    } else {
      assert frames[..k] == frames;
    }
  }

  /** Input number k is the first to find the player on the exit with all fruit eaten. */
  ghost predicate WinsAt(d: Dims, ex: int, ey: int, s: Moment, inputs: seq<(Dir, bool)>, k: int) {
    && 0 <= k < |inputs| && !TicksOf(d, ex, ey, s, inputs[..k]).won
    && Wins(d, ex, ey, TicksOf(d, ex, ey, s, inputs[..k]).s, inputs[k].0)
  }

  /** A run of ticks is won exactly when there is such an input, and it stops there. */
  lemma {:induction false} WinIsAnArrival(d: Dims, ex: int, ey: int, s: Moment, inputs: seq<(Dir, bool)>)
    ensures TicksOf(d, ex, ey, s, inputs).won <==> exists k :: WinsAt(d, ex, ey, s, inputs, k)
    decreases |inputs|
  {
    hide Wins, Ticked;
    if inputs != [] {
      var n := |inputs| - 1;
      var front := inputs[..n];
      WinIsAnArrival(d, ex, ey, s, front);
      forall k | 0 <= k < n ensures WinsAt(d, ex, ey, s, front, k) <==> WinsAt(d, ex, ey, s, inputs, k) {
        assert front[..k] == inputs[..k] && front[k] == inputs[k];
      }
      if TicksOf(d, ex, ey, s, front).won {
        var k :| WinsAt(d, ex, ey, s, front, k);
        assert WinsAt(d, ex, ey, s, inputs, k);
      } else {
        assert TicksOf(d, ex, ey, s, inputs).won <==> WinsAt(d, ex, ey, s, inputs, n);
      }
    }
  }

  /** A won run has ended on the exit, with no fruit left. */
  lemma {:induction false} WonOnTheExit(d: Dims, ex: int, ey: int, s: Moment, inputs: seq<(Dir, bool)>)
    ensures TicksOf(d, ex, ey, s, inputs).won ==> AtExit(ex, ey, TicksOf(d, ex, ey, s, inputs).s)
    decreases |inputs|
  {
    if inputs != [] {
      var n := |inputs| - 1;
      WonOnTheExit(d, ex, ey, s, inputs[..n]);
      WinStops(d, ex, ey, TicksOf(d, ex, ey, s, inputs[..n]).s, inputs[n].0, inputs[n].1);
      hide Ticked, Wins, AtExit;
    }
  }

  lemma WinStops(d: Dims, ex: int, ey: int, s: Moment, next: Dir, fifth: bool)
    ensures Wins(d, ex, ey, s, next) ==> AtExit(ex, ey, Ticked(d, ex, ey, s, next, fifth))
  {
    hide Visited, FruitCells, Steered;
  }

  /** So has a won level. */
  lemma {:induction false} LevelWonOnTheExit(d: Dims, ex: int, ey: int, s: Moment, frames: seq<seq<(Dir, bool)>>)
    ensures FramesOf(d, ex, ey, s, frames).won ==> AtExit(ex, ey, FramesOf(d, ex, ey, s, frames).s)
    decreases |frames|
  {
    hide TicksOf, AtExit;
    if frames != [] {
      var n := |frames| - 1;
      LevelWonOnTheExit(d, ex, ey, s, frames[..n]);
      WonOnTheExit(d, ex, ey, FramesOf(d, ex, ey, s, frames[..n]).s, Due(frames[n]));
    }
  }
}
