// The tick loop of mp2/mazegame.c: the player's motion, the view that follows
// it, and the picture shown at the end of every frame.
module Player {
  import opened MazeGrid
  import opened MazePaths
  import opened MazeFurnish
  import opened MazeDice
  import opened MazeGen
  import opened MazeView
  import opened Bytes
  import opened ViewLayout
  import opened BuildBuffer
  import opened Display
  import opened Coherence
  import opened PlayRules
  import opened Moments
  import opened Game

  class Play {
    const board: Board
    const screen: Screen
    var mapX: int
    var mapY: int
    var playX: int
    var playY: int
    var dir: Dir
    var moveCnt: int
    var lastDir: Dir

    constructor (board: Board, screen: Screen)
      ensures this.board == board && this.screen == screen
    {
      this.board, this.screen := board, screen;
      mapX, mapY, playX, playY, moveCnt := 0, 0, 0, 0, 0;
      dir, lastDir := Stop, Up;
    }

    /** The view is where game_info says, shows the maze, and follows the player. */
    ghost predicate Viewing()
      reads this, board.mz, board.mz.maze, board.view, board.view.build
    {
      && board.Good() && mapX == board.view.showX && mapY == board.view.showY
      && Follows(board.view.Lay(), board.mz.dims, playX, playY)
    }

    /** The invariant of the tick loop. */
    ghost predicate Playing()
      reads this, board.mz, board.mz.maze, board.view, board.view.build
    {
      && Viewing() && !lastDir.Stop?
      && OnTrack(board.mz.maze[..], board.mz.dims, playX, playY, dir, moveCnt)
    }

    /** The maze, the player and the window as they are now. */
    ghost function Now(): Moment
      reads this, board.mz.maze
    {
      Moment(board.mz.maze[..], playX, playY, dir, moveCnt, lastDir, mapX, mapY)
    }

    /** move_up */
    method MoveUp()
      requires Viewing()
      modifies this`playY, this`mapY, board.view`off, board.view`showX, board.view`showY, board.view.build
      ensures Viewing() && playY == old(playY) - 1
      ensures mapY == PannedY(old(mapY), playY, board.mz.dims, Up)
      ensures board.mz.maze[..] == old(board.mz.maze[..])
    {
      hide InPlay, Coherent;
      PanFollows(board.view.Lay(), board.mz.dims, playX, playY, Up);
      playY := playY - 1;
      if playY < mapY + BLOCK_DIM * PAN_BORDER && mapY > SHOW_MIN {
        mapY := mapY - 1;
        board.PanRow(mapY, 0);
      }
    }

    /** move_right */
    method MoveRight()
      requires Viewing()
      modifies this`playX, this`mapX, board.view`off, board.view`showX, board.view`showY, board.view.build
      ensures Viewing() && playX == old(playX) + 1
      ensures mapX == PannedX(old(mapX), playX, board.mz.dims, Right)
      ensures board.mz.maze[..] == old(board.mz.maze[..])
    {
      hide InPlay, Coherent;
      PanFollows(board.view.Lay(), board.mz.dims, playX, playY, Right);
      playX := playX + 1;
      if playX > mapX + SCROLL_X_DIM - BLOCK_DIM * (PAN_BORDER + 1)
         && mapX + SCROLL_X_DIM < (2 * board.mz.dims.x + 1) * BLOCK_DIM - SHOW_MIN {
        mapX := mapX + 1;
        board.PanColumn(mapX, SCROLL_X_DIM - 1);
      }
    }

    /** move_down */
    method MoveDown()
      requires Viewing()
      modifies this`playY, this`mapY, board.view`off, board.view`showX, board.view`showY, board.view.build
      ensures Viewing() && playY == old(playY) + 1
      ensures mapY == PannedY(old(mapY), playY, board.mz.dims, Down)
      ensures board.mz.maze[..] == old(board.mz.maze[..])
    {
      hide InPlay, Coherent;
      PanFollows(board.view.Lay(), board.mz.dims, playX, playY, Down);
      playY := playY + 1;
      if playY > mapY + SCROLL_Y_DIM - BLOCK_DIM * (PAN_BORDER + 1)
         && mapY + SCROLL_Y_DIM < (2 * board.mz.dims.y + 1) * BLOCK_DIM - SHOW_MIN {
        mapY := mapY + 1;
        board.PanRow(mapY, SCROLL_Y_DIM - 1);
      }
    }

    /** move_left */
    method MoveLeft()
      requires Viewing()
      modifies this`playX, this`mapX, board.view`off, board.view`showX, board.view`showY, board.view.build
      ensures Viewing() && playX == old(playX) - 1
      ensures mapX == PannedX(old(mapX), playX, board.mz.dims, Left)
      ensures board.mz.maze[..] == old(board.mz.maze[..])
    {
      hide InPlay, Coherent;
      PanFollows(board.view.Lay(), board.mz.dims, playX, playY, Left);
      playX := playX - 1;
      if playX < mapX + BLOCK_DIM * PAN_BORDER && mapX > SHOW_MIN {
        mapX := mapX - 1;
        board.PanColumn(mapX, 0);
      }
    }
  
    /** An opposite direction takes effect at once, also between two cells. */
    method TurnBack(next: Dir)
      requires Playing()
      modifies this`dir, this`moveCnt
      ensures Playing()
      ensures Now() == TurnedBack(old(Now()), next)
      ensures Viewing() && !lastDir.Stop? && 0 <= moveCnt && (dir.Stop? ==> moveCnt == 0)
      ensures moveCnt > 0 ==> Ready(board.mz.maze[..], board.mz.dims, playX, playY, dir, moveCnt)
    {
      hide InPlay, Coherent, OnTrack, Follows, Ready;
      OnTrackIsReady(board.mz.maze[..], board.mz.dims, playX, playY, dir, moveCnt);
      if next != dir {
        if dir.Opposite(next) {
          ReverseStaysOnTrack(board.mz.maze[..], board.mz.dims, playX, playY, dir, moveCnt, next);
          if moveCnt > 0 {
            moveCnt := BLOCK_DIM - moveCnt;
          }
          dir := next;
          OnTrackIsReady(board.mz.maze[..], board.mz.dims, playX, playY, dir, moveCnt);
        }
      }
    }

    /** find_open_directions, with a fifth entry for the read past its end. */
    function OpenFrom(x: int, y: int, fifth: bool): (open: Dir -> bool)
      requires board.mz.dims.Valid() && board.mz.maze.Length == MAZE_SIZE && Interior(board.mz.dims, x, y)
      reads board.mz, board.mz.maze
      ensures forall k :: open(k) == OpenWays(board.mz.maze[..], board.mz.dims, x, y, fifth)(k)
    {
      IndexInside(board.mz.dims, x, y);
      var m, c, w := board.mz.maze[..], Index(board.mz.dims, x, y), board.mz.dims.Width();
      (k: Dir) =>
        match k
        case Up => !m[c - w].wall
        case Right => !m[c + 1].wall
        case Down => !m[c + w].wall
        case Left => !m[c - 1].wall
        case Stop => fifth
    }

    /** At a cell: choose the way to go on. */
    method ChooseDirection(next: Dir, fifth: bool)
      requires Playing() && moveCnt == 0
      modifies this`dir, this`moveCnt
      ensures Viewing() && Ready(board.mz.maze[..], board.mz.dims, playX, playY, dir, moveCnt)
      ensures Now() == Steered(board.mz.dims, old(Now()), next, fifth)
    {
      hide InPlay, Coherent, Follows, OnTrack, Ready, Interior, OpenWays;
      var x, y := playX / BLOCK_DIM, playY / BLOCK_DIM;
      ghost var m, ways := board.mz.maze[..], OpenWays(board.mz.maze[..], board.mz.dims, x, y, fifth);
      InPlaySize(m, board.mz.dims, board.mz.nFruits, board.mz.exitX, board.mz.exitY);
      FromCell(m, board.mz.dims, board.mz.nFruits, board.mz.exitX, board.mz.exitY, playX, playY, dir, Steer(dir, next, ways), fifth);
      var open := OpenFrom(x, y, fifth);
      SteerAlike(dir, next, open, ways);
      SteeringIsSafe(dir, next, ways);
      if open(next) {
        dir := next;
      }
      if dir != Stop {
        if !open(dir) {
          dir := Stop;
        } else {
          moveCnt := BLOCK_DIM;
        }
      }
    }

    /** Move the player one pixel in its direction, if it has one. */
    method Advance()
      requires Viewing() && !lastDir.Stop? && Ready(board.mz.maze[..], board.mz.dims, playX, playY, dir, moveCnt)
      modifies this`lastDir, this`moveCnt, this`playX, this`playY, this`mapX, this`mapY
      modifies board.view`off, board.view`showX, board.view`showY, board.view.build
      ensures Playing() && board.mz.maze[..] == old(board.mz.maze[..])
      ensures Now() == Advanced(board.mz.dims, old(Now()))
    {
      hide InPlay, Coherent, Follows, OnTrack, Ready;
      if dir != Stop {
        ReadyMoves(board.mz.maze[..], board.mz.dims, playX, playY, dir, moveCnt);
        lastDir := dir;
        moveCnt := moveCnt - 1;
        match dir
        case Up => MoveUp();
        case Right => MoveRight();
        case Down => MoveDown();
        case Left => MoveLeft();
      } else {
        StoppedIsOnTrack(board.mz.maze[..], board.mz.dims, playX, playY, moveCnt);
      }
    }

    /** The player has reached a cell: unveil around it and check for a win. */
    method Arrive() returns (won: bool)
      requires Playing() && moveCnt == 0
      modifies board.mz`nFruits, board.mz.maze, board.view.build
      ensures Playing() && SameWalls(old(board.mz.maze[..]), board.mz.maze[..])
      ensures playX % BLOCK_DIM == 0 && playY % BLOCK_DIM == 0
      ensures board.mz.maze[..] == Visited(old(board.mz.maze[..]), board.mz.dims, playX / BLOCK_DIM, playY / BLOCK_DIM)
      ensures won <==> && playX == board.mz.exitX * BLOCK_DIM && playY == board.mz.exitY * BLOCK_DIM
                       && FruitCells(board.mz.maze[..]) == {}
    {
      hide InPlay, Coherent, Visited, FruitCells, ReachCells, SameWalls;
      ghost var m := board.mz.maze[..];
      won := board.UnveilAround(playX, playY);
      VisitedCells(m, board.mz.dims, playX / BLOCK_DIM, playY / BLOCK_DIM);
      TrackNeedsOnlyWalls(m, board.mz.maze[..], board.mz.dims, playX, playY, dir, moveCnt);
    }

    /** The first half of a tick on which the player stands on a cell. */
    method AtCell(next: Dir, fifth: bool) returns (won: bool)
      requires Playing() && moveCnt == 0
      modifies this`dir, this`moveCnt, board.mz`nFruits, board.mz.maze, board.view.build
      ensures Viewing() && SameWalls(old(board.mz.maze[..]), board.mz.maze[..])
      ensures won <==> AtExit(board.mz.exitX, board.mz.exitY, Arrived(board.mz.dims, old(Now())))
      ensures won ==> Playing() && Now() == Arrived(board.mz.dims, old(Now()))
      ensures !won ==> Ready(board.mz.maze[..], board.mz.dims, playX, playY, dir, moveCnt)
      ensures !won ==> Now() == Steered(board.mz.dims, Arrived(board.mz.dims, old(Now())), next, fifth)
    {
      hide InPlay, Coherent, Follows, OnTrack, Ready, SameWalls, FruitCells, Visited, Steered;
      won := Arrive();
      if won { return; }
      ChooseDirection(next, fifth);
    }

    /** One tick: turn back at once if asked; at a cell unveil, eat, perhaps win, and
        choose a direction; then move one pixel. */
    method Tick(next: Dir, fifth: bool) returns (won: bool)
      requires Playing()
      modifies this`dir, this`moveCnt, this`lastDir, this`playX, this`playY, this`mapX, this`mapY
      modifies board.mz`nFruits, board.mz.maze
      modifies board.view`off, board.view`showX, board.view`showY, board.view.build
      ensures Playing() && SameWalls(old(board.mz.maze[..]), board.mz.maze[..])
      ensures Now() == Ticked(board.mz.dims, board.mz.exitX, board.mz.exitY, old(Now()), next, fifth)
      ensures won <==> Wins(board.mz.dims, board.mz.exitX, board.mz.exitY, old(Now()), next)
    {
      hide *;
      ghost var s := Now();
      TickedUnfolds(board.mz.dims, board.mz.exitX, board.mz.exitY, s, next, fifth);
      SameWallsItself(board.mz.maze[..]);
      won := false;
      TurnBack(next);
      CntIs();
      if moveCnt == 0 {
        won := AtCell(next, fifth);
        if won { return; }
      }
      Advance();
    }

    lemma CntIs()
      ensures Now().cnt == moveCnt
    {
    }

    /** What the page being displayed shows: the maze with the player over it. */
    ghost predicate FrameShown(lay: Layout)
      reads this, board.mz, board.mz.maze, screen, screen.video
    {
      && screen.Valid() && ValidPictures(board.pics) && Pictured(board.mz.maze[..], board.mz.dims)
      && WindowInMaze(lay, board.mz.dims)
      && forall x, y | lay.Sees(x, y) ::
           screen.ShownAt(lay, x, y) ==
           FramePixel(board.pics, board.mz.maze[..], board.mz.dims, board.mz.nFruits, playX, playY, Facing(lastDir), x, y)
    }

    /** The end of every frame: draw the player, show the screen, restore. The page
        shows exactly the maze with the player over it, and the buffer is byte for
        byte what it was. */
    method ShowFrame()
      requires Playing() && screen.Valid()
      modifies board.view.build, board.view.mask, screen, screen.video
      ensures Playing() && screen.Valid() && board.view.build[..] == old(board.view.build[..])
      ensures board.mz.maze[..] == old(board.mz.maze[..])
      ensures FrameShown(board.view.Lay())
    {
      hide InPlay, Follows, OnTrack, Painted, Saved, Overlay, Coherent;
      var facing := Facing(lastDir);
      ghost var b, lay, m := board.view.build[..], board.view.Lay(), board.mz.maze[..];
      PlayerIsVisible(lay, m, board.mz.dims, playX, playY, dir, moveCnt);
      CoherentSetting(b, lay, board.pics, m, board.mz.dims, board.mz.nFruits);
      board.view.DrawMaskBlock(playX, playY, board.pics[BLOCK_PLAYER_UP + facing], board.pics[BLOCK_PLAYER_MASK_UP + facing]);
      ghost var b1 := board.view.build[..];
      screen.ShowScreen(board.view);
      assert board.mz.maze[..] == m && board.view.build[..] == b1 && board.view.Lay() == lay;
      forall x, y | lay.Sees(x, y)
        ensures screen.ShownAt(lay, x, y)
             == FramePixel(board.pics, m, board.mz.dims, board.mz.nFruits, playX, playY, facing, x, y)
      {
        assert screen.ShownAt(lay, x, y) == PixelAt(b1, lay, x, y);
        SpriteOverMaze(b, b1, lay, board.pics, m, board.mz.dims, board.mz.nFruits, playX, playY, facing, x, y);
      }
      ghost var saved := board.view.mask[..];
      board.view.DrawFullBlock(playX, playY, board.view.mask[..]);
      RestoreIsIdentity(b, b1, board.view.build[..], lay, playX, playY,
        Overlay(b, lay, playX, playY, board.pics[BLOCK_PLAYER_UP + facing], board.pics[BLOCK_PLAYER_MASK_UP + facing]), saved);
    }

    /** One pass of the frame loop: up to eight ticks, each with its own input, until one
        wins, then the frame is shown. */
    method Frame(inputs: seq<(Dir, bool)>) returns (won: bool)
      requires Playing() && screen.Valid()
      modifies this`dir, this`moveCnt, this`lastDir, this`playX, this`playY, this`mapX, this`mapY
      modifies board.mz`nFruits, board.mz.maze
      modifies board.view`off, board.view`showX, board.view`showY, board.view.build, board.view.mask
      modifies screen, screen.video
      ensures Playing() && screen.Valid() && FrameShown(board.view.Lay())
      ensures SameWalls(old(board.mz.maze[..]), board.mz.maze[..])
      ensures Course(Now(), won) == TicksOf(board.mz.dims, board.mz.exitX, board.mz.exitY, old(Now()), Due(inputs))
    {
      hide *;
      ghost var m0, s, d, ex, ey, due := board.mz.maze[..], Now(), board.mz.dims, board.mz.exitX, board.mz.exitY, Due(inputs);
      SameWallsItself(m0);
      NoTicks(d, ex, ey, s, due);
      won := false;
      var ticks := if |inputs| > 8 then 8 else |inputs|;
      DueIs(inputs);
      var k := 0;
      while k < ticks && !won
        invariant 0 <= k <= ticks && Playing() && screen.Valid() && SameWalls(m0, board.mz.maze[..])
        invariant Course(Now(), won) == TicksOf(d, ex, ey, s, due[..k])
      {
        ghost var m := board.mz.maze[..];
        NextTick(d, ex, ey, s, due, k);
        won := Tick(inputs[k].0, inputs[k].1);
        SameWallsTwice(m0, m, board.mz.maze[..]);
        k := k + 1;
      }
      if won {
        WonForGood(d, ex, ey, s, due, k);
      } else {
        assert due[..k] == due;
      }
      ShowFrame();
    }

    /** A whole level, for any inputs: the maze, the player and the window end as the
        inputs make them, every frame shows the maze with the player, and the level is
        won exactly when the inputs bring the player to the exit with all fruit eaten. */
    method RunLevel(frames: seq<seq<(Dir, bool)>>) returns (won: bool)
      requires Playing() && screen.Valid()
      modifies this`dir, this`moveCnt, this`lastDir, this`playX, this`playY, this`mapX, this`mapY
      modifies board.mz`nFruits, board.mz.maze
      modifies board.view`off, board.view`showX, board.view`showY, board.view.build, board.view.mask
      modifies screen, screen.video
      ensures Playing() && screen.Valid()
      ensures frames != [] ==> FrameShown(board.view.Lay())
      ensures SameWalls(old(board.mz.maze[..]), board.mz.maze[..])
      ensures Course(Now(), won) == FramesOf(board.mz.dims, board.mz.exitX, board.mz.exitY, old(Now()), frames)
      ensures won ==> AtExit(board.mz.exitX, board.mz.exitY, Now())
    {
      hide *;
      ghost var m0, s, d, ex, ey := board.mz.maze[..], Now(), board.mz.dims, board.mz.exitX, board.mz.exitY;
      SameWallsItself(m0);
      NoFrames(d, ex, ey, s, frames);
      LevelWonOnTheExit(d, ex, ey, s, frames);
      won := false;
      var k := 0;
      while k < |frames| && !won
        invariant 0 <= k <= |frames| && Playing() && screen.Valid() && SameWalls(m0, board.mz.maze[..])
        invariant k > 0 ==> FrameShown(board.view.Lay())
        invariant k == 0 ==> !won
        invariant Course(Now(), won) == FramesOf(d, ex, ey, s, frames[..k])
      {
        ghost var m := board.mz.maze[..];
        NextFrame(d, ex, ey, s, frames, k);
        won := Frame(frames[k]);
        SameWallsTwice(m0, m, board.mz.maze[..]);
        k := k + 1;
      }
      if won {
        WonForever(d, ex, ey, s, frames, k);
      } else {
        assert frames[..k] == frames;
      }
    }

    /** prepare_maze_level: a fresh maze for the level, and a window that shows it.
        The sizes asked for are always accepted. */
    method PrepareMazeLevel(level: int) returns (r: Outcome)
      requires 1 <= level <= MAX_LEVEL && board.mz.maze.Length == MAZE_SIZE
      requires board.view.Valid() && ValidPictures(board.pics)
      modifies this`mapX, this`mapY, board.mz, board.mz.maze, board.view`off, board.view`showX, board.view`showY, board.view.build
      ensures r != Failure
      ensures r == Success ==> board.Good() && board.mz.dims == LevelDims(level) && board.mz.nFruits == LevelFruits(level)
      ensures r == Success ==> ReachCells(board.mz.maze[..]) == {}
      ensures r == Success ==> mapX == board.view.showX == SHOW_MIN && mapY == board.view.showY == SHOW_MIN
      ensures r == Success ==> board.mz.nFruits >= 0 && Made(board.mz.dims, old(board.mz.tape), board.mz.nFruits,
        board.mz.maze[..], board.mz.exitX, board.mz.exitY, board.mz.tape)
      ensures r == Success ==>
        MistOnly(board.view.build[..], board.view.Lay(), board.pics, board.mz.maze[..], board.mz.dims)
    {
      hide Fruited, CoherentRows, Coherent, InPlay, Retained, ReachCells, LevelDims, LevelFruits, MistOnly;
      hide Made, ExitCells, FruitCells, Points, Point, Index, Interior, Pictured;
      LevelsGrow(level);
      var d := LevelDims(level);
      mapX, mapY := SHOW_MIN, SHOW_MIN;
      r := board.mz.MakeMaze(d.x, d.y, LevelFruits(level));
      if r != Success { return; }
      NewMazeIsInPlay(board.mz.maze[..], d, board.mz.nFruits, board.mz.exitX, board.mz.exitY);
      board.view.SetViewWindow(mapX, mapY);
      NoRowsYet(board.view.build[..], board.view.Lay(), board.pics, board.mz.maze[..], d, board.mz.nFruits);
      board.DrawAllRows();
      NewMazeIsMist(board.view.build[..], board.view.Lay(), board.pics, board.mz.maze[..], d, board.mz.nFruits);
    }

    /** The page being displayed shows the maze, without the player. */
    ghost predicate MazeShown(lay: Layout)
      reads this, board.mz, board.mz.maze, screen, screen.video
    {
      && screen.Valid() && ValidPictures(board.pics) && Pictured(board.mz.maze[..], board.mz.dims)
      && WindowInMaze(lay, board.mz.dims)
      && forall x, y | lay.Sees(x, y) ::
           screen.ShownAt(lay, x, y) == MazePixel(board.pics, board.mz.maze[..], board.mz.dims, board.mz.nFruits, x, y)
    }

    /** The first screen of a level is shown before the player is drawn, so the
        player does not appear on it; drawing and restoring then changes nothing. */
    method ShowFirstScreen()
      requires Playing() && screen.Valid()
      modifies board.view.build, board.view.mask, screen, screen.video
      ensures Playing() && screen.Valid() && board.view.build[..] == old(board.view.build[..])
      ensures board.mz.maze[..] == old(board.mz.maze[..])
      ensures MazeShown(board.view.Lay())
    {
      hide InPlay, Follows, OnTrack, Painted, Saved, Overlay, Coherent;
      var facing := Facing(lastDir);
      ghost var b, lay, m := board.view.build[..], board.view.Lay(), board.mz.maze[..];
      PlayerIsVisible(lay, m, board.mz.dims, playX, playY, dir, moveCnt);
      CoherentSetting(b, lay, board.pics, m, board.mz.dims, board.mz.nFruits);
      screen.ShowScreen(board.view);
      assert board.mz.maze[..] == m && board.view.build[..] == b && board.view.Lay() == lay;
      forall x, y | lay.Sees(x, y)
        ensures screen.ShownAt(lay, x, y) == MazePixel(board.pics, m, board.mz.dims, board.mz.nFruits, x, y)
      {
        assert screen.ShownAt(lay, x, y) == PixelAt(b, lay, x, y);
        CoherentAt(b, lay, board.pics, m, board.mz.dims, board.mz.nFruits, x, y);
      }
      board.view.DrawMaskBlock(playX, playY, board.pics[BLOCK_PLAYER_UP + facing], board.pics[BLOCK_PLAYER_MASK_UP + facing]);
      ghost var b1, saved := board.view.build[..], board.view.mask[..];
      board.view.DrawFullBlock(playX, playY, board.view.mask[..]);
      RestoreIsIdentity(b, b1, board.view.build[..], lay, playX, playY,
        Overlay(b, lay, playX, playY, board.pics[BLOCK_PLAYER_UP + facing], board.pics[BLOCK_PLAYER_MASK_UP + facing]), saved);
    }

    method StandAtStart()
      requires board.Good() && mapX == board.view.showX == SHOW_MIN && mapY == board.view.showY == SHOW_MIN
      modifies this`playX, this`playY, this`moveCnt, this`lastDir, this`dir
      ensures Playing() && board.mz.dims.Valid() && playX == playY == BLOCK_DIM && dir == Stop && moveCnt == 0
    {
      hide Coherent, InPlay, OnTrack, Pictured, Follows, ValidPictures;
      playX, playY, moveCnt := BLOCK_DIM, BLOCK_DIM, 0;
      lastDir, dir := Up, Stop;
      StartIsInView(board.view.Lay(), board.mz.dims);
      StartIsOnTrack(board.mz.maze[..], board.mz.dims, board.mz.nFruits, board.mz.exitX, board.mz.exitY);
    }

    /** The start of a level: the player stands on (1,1), which is unveiled, and
        the tick loop's invariant holds. */
    method StartLevel(level: int) returns (r: Outcome)
      requires 1 <= level <= MAX_LEVEL && board.mz.maze.Length == MAZE_SIZE
      requires board.view.Valid() && ValidPictures(board.pics) && screen.Valid()
      modifies this, board.mz, board.mz.maze
      modifies board.view`off, board.view`showX, board.view`showY, board.view.build, board.view.mask
      modifies screen, screen.video
      ensures r != Failure
      ensures r == Success ==> Playing() && screen.Valid() && MazeShown(board.view.Lay())
      ensures r == Success ==> playX == BLOCK_DIM && playY == BLOCK_DIM && dir == Stop && moveCnt == 0
      ensures r == Success ==> board.mz.dims == LevelDims(level)
      ensures r == Success ==> forall c | 0 <= c < board.mz.maze.Length ::
        board.mz.maze[..][c].reach <==> c in Surroundings(board.mz.dims, 1, 1)
    {
      hide Playing, Board.Good, MazeShown, ReachCells, FruitCells, Surroundings, Visited;
      hide SameWalls, LevelFruits, LevelDims, ValidPictures, Made, MistOnly;
      r := PrepareMazeLevel(level);
      if r != Success { return; }
      StandAtStart();
      FirstVisit(board.mz.maze[..], board.mz.dims, 1, 1);
      var _ := Arrive();
      ShowFirstScreen();
    }
  }

  const MAX_LEVEL := 10

  /** The maze size of a level: minimum plus two per level, up to the maximum. */
  function LevelDims(level: int): (d: Dims)
    ensures level >= 1 ==> d.Valid()
  {
    var x, y := MAZE_MIN_X_DIM + 2 * (level - 1), MAZE_MIN_Y_DIM + 2 * (level - 1);
    Dims(if x > MAZE_MAX_X_DIM then MAZE_MAX_X_DIM else x, if y > MAZE_MAX_Y_DIM then MAZE_MAX_Y_DIM else y)
  }

  function LevelFruits(level: int): int {
    var n := 1 + (level - 1) / 2;
    if n > 6 then 6 else n
  }

  /** The ten levels: from the smallest maze with one fruit, two rows and columns of
      points more each level and a fruit more every other one. No upper bound is met. */
  lemma LevelsGrow(level: int)
    requires 1 <= level <= MAX_LEVEL
    ensures LevelDims(1) == Dims(14, 8) && LevelFruits(1) == LevelFruits(2) == 1
    ensures level > 1 ==> LevelDims(level) == Dims(LevelDims(level - 1).x + 2, LevelDims(level - 1).y + 2)
    ensures level > 2 ==> LevelFruits(level) == LevelFruits(level - 2) + 1
    ensures LevelDims(level).x < MAZE_MAX_X_DIM && LevelDims(level).y < MAZE_MAX_Y_DIM && 1 <= LevelFruits(level) < 6
  {
  }

  lemma NewMazeIsInPlay(m: seq<Cell>, d: Dims, n: int, ex: int, ey: int)
    requires d.Valid() && Fruited(m, Points(d), d.Width(), n)
    requires Interior(d, ex, ey) && Index(d, ex, ey) in Points(d) && ExitCells(m) == {Index(d, ex, ey)}
    ensures InPlay(m, d, n, ex, ey) && Pictured(m, d) && ReachCells(m) == {}
  {
  }

  lemma NoRowsYet(b: seq<Byte>, lay: Layout, pics: seq<seq<Byte>>, m: seq<Cell>, d: Dims, n: int)
    requires lay.Fits() && |b| == lay.Size() && ValidPictures(pics) && Pictured(m, d)
    requires lay.sx == SHOW_MIN && lay.sy == SHOW_MIN
    ensures CoherentRows(b, lay, pics, m, d, n, 0)
  {
  }

  lemma StartIsInView(lay: Layout, d: Dims)
    requires lay.sx == lay.sy == SHOW_MIN
    ensures Follows(lay, d, BLOCK_DIM, BLOCK_DIM)
  {
  }

  /** The player starts on an open cell. */
  lemma StartIsOnTrack(m: seq<Cell>, d: Dims, n: int, ex: int, ey: int)
    requires InPlay(m, d, n, ex, ey)
    ensures OnTrack(m, d, BLOCK_DIM, BLOCK_DIM, Stop, 0)
  {
    assert Point(d, 0, 0) in Points(d);
    assert Open(m, Index(d, 1, 1));
  }
}
