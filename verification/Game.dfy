// The game of mp2/mazegame.c: the maze, the player and the view, tick by tick.
module Game {
  import opened MazeGrid
  import opened MazePaths
  import opened MazeFurnish
  import opened MazeGen
  import opened MazeView
  import opened Bytes
  import opened ViewLayout
  import opened BuildBuffer
  import opened Coherence
  import opened PlayRules

  /** The maze together with the build buffer that caches its picture. */
  class Board {
    const mz: Maze
    const view: View
    const pics: seq<seq<Byte>>

    constructor (mz: Maze, view: View, pics: seq<seq<Byte>>)
      ensures this.mz == mz && this.view == view && this.pics == pics
    {
      this.mz, this.view, this.pics := mz, view, pics;
    }

    /** The maze is in play and the buffer shows it. */
    ghost predicate Good()
      reads mz, mz.maze, view, view.build
    {
      && view.Valid() && ValidPictures(pics) && mz.dims.Valid() && WindowInMaze(view.Lay(), mz.dims)
      && InPlay(mz.maze[..], mz.dims, mz.nFruits, mz.exitX, mz.exitY)
      && Coherent(view.build[..], view.Lay(), pics, mz.maze[..], mz.dims, mz.nFruits)
    }

    /** Draw block (x,y) of the maze. */
    method DrawBlock(x: int, y: int, ghost E: set<(int, int)>)
      requires view.Valid() && Drawable(mz.dims, x, y)
      requires CoherentBut(view.build[..], view.Lay(), pics, mz.maze[..], mz.dims, mz.nFruits, E)
      modifies view.build
      ensures mz.maze[..] == old(mz.maze[..])
      ensures CoherentBut(view.build[..], view.Lay(), pics, mz.maze[..], mz.dims, mz.nFruits, E - {(x, y)})
    {
      ghost var m, b := mz.maze[..], view.build[..];
      var k := FindBlock(mz.maze[..], mz.dims, mz.nFruits, x, y);
      view.DrawFullBlock(x * BLOCK_DIM, y * BLOCK_DIM, pics[k]);
      RedrawRepairs(b, view.build[..], view.Lay(), pics, m, mz.dims, mz.nFruits, E, x, y);
    }

    /** unveil_space: out of range does nothing; otherwise the cell is marked as
        seen and, the first time, redrawn. */
    method UnveilSpace(x: int, y: int)
      requires Good() && TwinHidden(view.Lay(), mz.dims, x)
      modifies mz.maze, view.build
      ensures Good() && Unveiled(old(mz.maze[..]), mz.maze[..], CellAt(mz.dims, x, y))
    {
      if x < 0 || x > 2 * mz.dims.x || y < 0 || y > 2 * mz.dims.y {
        assert mz.maze[..] == Marked(mz.maze[..], {});
        return;
      }
      ghost var m := mz.maze[..];
      UnveilSpoils(view.build[..], view.Lay(), pics, m, mz.dims, mz.nFruits, x, y);
      var c := Index(mz.dims, x, y);
      if mz.maze[c].reach {
        assert m == Marked(m, {c});
        return;
      }
      UnveilingKeepsPlay(m, mz.dims, mz.nFruits, mz.exitX, mz.exitY, c);
      mz.maze[c] := mz.maze[c].(reach := true);
      assert mz.maze[..] == m[c := m[c].(reach := true)];
      DrawBlock(x, y, {(x, y)});
      assert {(x, y)} - {(x, y)} == {};
    }

    /** check_for_fruit: out of range finds nothing; otherwise eats the fruit there,
        if any, and redraws that cell and, when it was the last fruit, the exit. */
    method CheckForFruit(x: int, y: int) returns (fnum: int)
      requires Good()
      modifies mz.maze, mz`nFruits, view.build
      ensures Good()
      ensures var inside := 0 <= x < 2 * mz.dims.x && 0 <= y < 2 * mz.dims.y; var c := Index(mz.dims, x, y);
        && (inside ==> 0 <= c < mz.maze.Length)
        && fnum == (if inside then old(mz.maze[..])[c].fruit else 0)
        && mz.maze[..] == if inside then Eaten(old(mz.maze[..]), c) else old(mz.maze[..])
    {
      if x < 0 || x >= 2 * mz.dims.x || y < 0 || y >= 2 * mz.dims.y {
        return 0;
      }
      IndexInside(mz.dims, x, y);
      var c := Index(mz.dims, x, y);
      fnum := mz.maze[c].fruit;
      assert fnum == 0 ==> mz.maze[..] == Eaten(mz.maze[..], c);
      if fnum != 0 {
        FruitIsInterior(mz.maze[..], mz.dims, mz.nFruits, mz.exitX, mz.exitY, x, y);
        EatFruit(x, y, c);
      }
    }

    method EatFruit(x: int, y: int, c: int)
      requires Good() && Interior(mz.dims, x, y) && c == Index(mz.dims, x, y)
      requires 0 <= c < mz.maze.Length && mz.maze[c].fruit != 0
      modifies mz.maze, mz`nFruits, view.build
      ensures Good() && mz.maze[..] == Eaten(old(mz.maze[..]), c)
    {
      ghost var m, n, ex, ey := mz.maze[..], mz.nFruits, mz.exitX, mz.exitY;
      EatingKeepsPlay(m, mz.dims, n, ex, ey, c);
      EatingSpoils(view.build[..], view.Lay(), pics, m, mz.dims, n, x, y, ex, ey);
      mz.maze[c] := mz.maze[c].(fruit := 0);
      assert mz.maze[..] == m[c := m[c].(fruit := 0)];
      mz.nFruits := mz.nFruits - 1;
      ghost var E := if n == 1 then {(ex, ey), (x, y)} else {(x, y)};
      if mz.nFruits == 0 {
        DrawBlock(mz.exitX, mz.exitY, E);
        E := E - {(ex, ey)};
      }
      DrawBlock(x, y, E);
      assert E - {(x, y)} == {};
    }

    /** check_for_win: exactly when the cell is the exit and no fruit is left. */
    method CheckForWin(x: int, y: int) returns (won: bool)
      requires Good()
      ensures won <==> (x, y) == (mz.exitX, mz.exitY) && FruitCells(mz.maze[..]) == {}
    {
      if x < 0 || x >= 2 * mz.dims.x || y < 0 || y >= 2 * mz.dims.y {
        return false;
      }
      IndexInside(mz.dims, x, y);
      won := mz.nFruits == 0 && mz.maze[Index(mz.dims, x, y)].exit;
      assert mz.maze[Index(mz.dims, x, y)].exit <==> Index(mz.dims, x, y) in ExitCells(mz.maze[..]);
      InteriorIndexInjective(mz.dims, x, y, mz.exitX, mz.exitY);
    }

    /** unveil_around_player, for a player on cell (x,y). */
    method UnveilAround(px: int, py: int) returns (won: bool)
      requires Good() && px % BLOCK_DIM == 0 && py % BLOCK_DIM == 0
      requires Interior(mz.dims, px / BLOCK_DIM, py / BLOCK_DIM)
      requires Follows(view.Lay(), mz.dims, px, py)
      modifies mz.maze, mz`nFruits, view.build
      ensures Good() && mz.maze[..] == Visited(old(mz.maze[..]), mz.dims, px / BLOCK_DIM, py / BLOCK_DIM)
      ensures won <==> (px / BLOCK_DIM, py / BLOCK_DIM) == (mz.exitX, mz.exitY) && FruitCells(mz.maze[..]) == {}
    {
      var x, y := px / BLOCK_DIM, py / BLOCK_DIM;
      var _ := CheckForFruit(x, y);
      ghost var m1, lay := mz.maze[..], view.Lay();
      forall k | x - 2 <= k <= x + 2 ensures TwinHidden(lay, mz.dims, k) {
        TwinsAreHidden(lay, mz.dims, px, py, k);
      }
      UnveilColumns(x, y);
      ghost var m2 := mz.maze[..];
      UnveilFarCells(x, y);
      UnveiledAgain(m1, m2, mz.maze[..], BlockCells(mz.dims, x, y, 3), FarCells(mz.dims, x, y));
      won := CheckForWin(x, y);
    }

    /** The loop of unveil_around_player over three columns. */
    method UnveilColumns(x: int, y: int)
      requires Good() && forall k | x - 1 <= k <= x + 1 :: TwinHidden(view.Lay(), mz.dims, k)
      modifies mz.maze, view.build
      ensures Good() && Unveiled(old(mz.maze[..]), mz.maze[..], BlockCells(mz.dims, x, y, 3))
    {
      hide *;
      ghost var m0 := mz.maze[..];
      NothingUnveiled(m0, mz.dims, x, y);
      var i := -1;
      while i < 2
        invariant -1 <= i <= 2 && Good() && Unveiled(m0, mz.maze[..], BlockCells(mz.dims, x, y, i + 1))
      {
        ghost var m := mz.maze[..];
        UnveilColumn(x + i, y);
        ColumnUnveiled(m0, m, mz.maze[..], mz.dims, x, y, i + 1);
        i := i + 1;
      }
    }

    /** The inner loop of unveil_around_player: three cells of one column. */
    method UnveilColumn(x: int, y: int)
      requires Good() && TwinHidden(view.Lay(), mz.dims, x)
      modifies mz.maze, view.build
      ensures Good() && Unveiled(old(mz.maze[..]), mz.maze[..], ColumnCells(mz.dims, x, y, 3))
    {
      hide *;
      ghost var m0 := mz.maze[..];
      NothingUnveiled(m0, mz.dims, x, y);
      var j := -1;
      while j < 2
        invariant -1 <= j <= 2 && Good() && Unveiled(m0, mz.maze[..], ColumnCells(mz.dims, x, y, j + 1))
      {
        ghost var m := mz.maze[..];
        UnveilSpace(x, y + j);
        CellUnveiled(m0, m, mz.maze[..], mz.dims, x, y, j + 1);
        j := j + 1;
      }
    }

    /** The four cells two steps away. */
    method UnveilFarCells(x: int, y: int)
      requires Good() && TwinHidden(view.Lay(), mz.dims, x - 2)
      requires TwinHidden(view.Lay(), mz.dims, x) && TwinHidden(view.Lay(), mz.dims, x + 2)
      modifies mz.maze, view.build
      ensures Good() && Unveiled(old(mz.maze[..]), mz.maze[..], FarCells(mz.dims, x, y))
    {
      hide *;
      ghost var m0 := mz.maze[..];
      UnveilSpace(x, y - 2);
      ghost var m1 := mz.maze[..];
      UnveilSpace(x + 2, y);
      ghost var m2 := mz.maze[..];
      UnveilSpace(x, y + 2);
      ghost var m3 := mz.maze[..];
      UnveilSpace(x - 2, y);
      FarCellsUnveiled(m0, m1, m2, m3, mz.maze[..], mz.dims, x, y);
    }

    /** draw_horiz_line: row y of the window is filled from the maze. */
    method DrawHorizLine(y: int) returns (ok: bool, ghost line: seq<Byte>)
      requires view.Valid() && Setting(view.build[..], view.Lay(), pics, mz.maze[..], mz.dims)
      modifies view.build
      ensures ok <==> 0 <= y < SCROLL_Y_DIM
      ensures !ok ==> view.build[..] == old(view.build[..])
      ensures ok ==> RowOfMaze(line, SCROLL_X_DIM, pics, mz.maze[..], mz.dims, mz.nFruits, view.showX, view.showY + y)
      ensures ok ==> RowDrawn(old(view.build[..]), view.build[..], view.Lay(), view.showY + y, line, view.showX + SCROLL_X_DIM)
      ensures mz.maze[..] == old(mz.maze[..])
    {
      if y < 0 || y >= SCROLL_Y_DIM {
        return false, [];
      }
      ghost var b, m := view.build[..], mz.maze[..];
      var buf := new Byte[SCROLL_X_DIM];
      FillHorizBuffer(mz, pics, view.showX, view.showY + y, buf);
      assert view.build[..] == b;
      line := buf[..];
      view.StoreHorizLine(view.showY + y, buf[..]);
      ok := true;
    }

    /** Draw every row of the window. */
    method DrawAllRows()
      requires view.Valid()
      requires CoherentRows(view.build[..], view.Lay(), pics, mz.maze[..], mz.dims, mz.nFruits, 0)
      modifies view.build
      ensures mz.maze[..] == old(mz.maze[..])
      ensures Coherent(view.build[..], view.Lay(), pics, mz.maze[..], mz.dims, mz.nFruits)
    {
      hide CoherentRows, RowOfMaze, RowDrawn, Setting, Coherent;
      ghost var m, lay := mz.maze[..], view.Lay();
      var i := 0;
      while i < SCROLL_Y_DIM
        invariant 0 <= i <= SCROLL_Y_DIM && mz.maze[..] == m
        invariant CoherentRows(view.build[..], lay, pics, m, mz.dims, mz.nFruits, i)
      {
        ghost var b, line := view.build[..], [];
        RowsSetting(b, lay, pics, m, mz.dims, mz.nFruits, i);
        var ok;
        ok, line := DrawHorizLine(i);
        NextRow(b, view.build[..], lay, pics, m, mz.dims, mz.nFruits, i, line);
        i := i + 1;
      }
      AllRows(view.build[..], lay, pics, m, mz.dims, mz.nFruits);
    }

    /** draw_vert_line: column x of the window is filled from the maze. */
    method DrawVertLine(x: int) returns (ok: bool, ghost line: seq<Byte>)
      requires view.Valid() && Setting(view.build[..], view.Lay(), pics, mz.maze[..], mz.dims)
      modifies view.build
      ensures ok <==> 0 <= x < SCROLL_X_DIM
      ensures !ok ==> view.build[..] == old(view.build[..])
      ensures ok ==> ColumnOfMaze(line, SCROLL_Y_DIM, pics, mz.maze[..], mz.dims, mz.nFruits, view.showX + x, view.showY)
      ensures ok ==> ColumnDrawn(old(view.build[..]), view.build[..], view.Lay(), view.showX + x, line, view.showY + SCROLL_Y_DIM)
      ensures mz.maze[..] == old(mz.maze[..])
    {
      if x < 0 || x >= SCROLL_X_DIM {
        return false, [];
      }
      ghost var b, m := view.build[..], mz.maze[..];
      var buf := new Byte[SCROLL_Y_DIM];
      FillVertBuffer(mz, pics, view.showX + x, view.showY, buf);
      assert view.build[..] == b;
      line := buf[..];
      view.StoreVertLine(view.showX + x, buf[..]);
      ok := true;
    }

    /** Pan the window one row up or down and draw the row that comes in. */
    method PanRow(y: int, row: int)
      requires Good() && WindowInMaze(view.Lay().(sy := y), mz.dims)
      requires (y == view.showY - 1 && row == 0) || (y == view.showY + 1 && row == SCROLL_Y_DIM - 1)
      modifies view`off, view`showX, view`showY, view.build
      ensures Good() && mz.maze[..] == old(mz.maze[..])
      ensures view.showX == old(view.showX) && view.showY == y
    {
      hide InPlay, Coherent, Setting, Retained, RowDrawn, RowOfMaze, ColumnDrawn, ColumnOfMaze;
      ghost var b, lay, m := view.build[..], view.Lay(), mz.maze[..];
      view.SetViewWindow(view.showX, y);
      ghost var b', lay' := view.build[..], view.Lay();
      PanKeeps(b, lay, b', lay', pics, m, mz.dims, mz.nFruits);
      ghost var line;
      var ok;
      ok, line := DrawHorizLine(row);
      RowCompletes(lay, b', view.build[..], lay', pics, m, mz.dims, mz.nFruits, y + row, line);
    }

    /** Pan the window one column left or right and draw the column that comes in. */
    method PanColumn(x: int, column: int)
      requires Good() && WindowInMaze(view.Lay().(sx := x), mz.dims)
      requires (x == view.showX - 1 && column == 0) || (x == view.showX + 1 && column == SCROLL_X_DIM - 1)
      modifies view`off, view`showX, view`showY, view.build
      ensures Good() && mz.maze[..] == old(mz.maze[..])
      ensures view.showX == x && view.showY == old(view.showY)
    {
      hide InPlay, Coherent, Setting, Retained, RowDrawn, RowOfMaze, ColumnDrawn, ColumnOfMaze;
      ghost var b, lay, m := view.build[..], view.Lay(), mz.maze[..];
      view.SetViewWindow(x, view.showY);
      ghost var b', lay' := view.build[..], view.Lay();
      PanKeeps(b, lay, b', lay', pics, m, mz.dims, mz.nFruits);
      ghost var line;
      var ok;
      ok, line := DrawVertLine(column);
      ColumnCompletes(lay, b', view.build[..], lay', pics, m, mz.dims, mz.nFruits, x + column, line);
    }
  }

  lemma InteriorIndexInjective(d: Dims, x: int, y: int, a: int, b: int)
    requires d.Valid() && 0 <= x < 2 * d.x && 0 <= y < 2 * d.y && Interior(d, a, b)
    ensures Index(d, x, y) == Index(d, a, b) <==> (x, y) == (a, b)
  {
    if Index(d, x, y) == Index(d, a, b) {
      AliasIsBoundary(d, x, y, a, b);
    }
  }

  /** Fruit lies on lattice points, never on the boundary. */
  lemma FruitIsInterior(m: seq<Cell>, d: Dims, n: int, ex: int, ey: int, x: int, y: int)
    requires InPlay(m, d, n, ex, ey) && 0 <= x < 2 * d.x && 0 <= y < 2 * d.y
    requires 0 <= Index(d, x, y) < |m| && m[Index(d, x, y)].fruit != 0
    ensures Interior(d, x, y)
  {
    assert Index(d, x, y) in FruitCells(m);
    PointCoordinates(d, x, y);
  }
}
