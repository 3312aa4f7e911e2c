// Cache coherence: the build buffer shows the maze, and what each change of the
// maze, each redrawn block and each pan does to that.
module Coherence {
  import opened MazeGrid
  import opened MazeFurnish
  import opened MazeView
  import opened Bytes
  import opened ViewLayout
  import opened BuildBuffer

  const SHOW_MIN := 6

  /** The window stays on the maze, short of the last SHOW_MIN boundary pixels. */
  predicate WindowInMaze(lay: Layout, d: Dims) {
    && SHOW_MIN <= lay.sx && lay.sx + SCROLL_X_DIM <= (2 * d.x + 1) * BLOCK_DIM - SHOW_MIN
    && SHOW_MIN <= lay.sy && lay.sy + SCROLL_Y_DIM <= (2 * d.y + 1) * BLOCK_DIM - SHOW_MIN
  }

  /** Some pixel of maze block (gx,gy) may be on screen. */
  predicate BlockOnScreen(lay: Layout, gx: int, gy: int) {
    && lay.sx < (gx + 1) * BLOCK_DIM && gx * BLOCK_DIM < lay.sx + SCROLL_X_DIM
    && lay.sy < (gy + 1) * BLOCK_DIM && gy * BLOCK_DIM < lay.sy + SCROLL_Y_DIM
  }

  ghost predicate Setting(b: seq<Byte>, lay: Layout, pics: seq<seq<Byte>>, m: seq<Cell>, d: Dims) {
    && lay.Fits() && |b| == lay.Size()
    && ValidPictures(pics) && Pictured(m, d) && WindowInMaze(lay, d)
  }

  /** Every pixel of the window shows the maze, except perhaps in the blocks of E. */
  ghost predicate CoherentBut(b: seq<Byte>, lay: Layout, pics: seq<seq<Byte>>, m: seq<Cell>, d: Dims, n: int,
                              E: set<(int, int)>) {
    && Setting(b, lay, pics, m, d)
    && forall x, y | lay.Sees(x, y) && (x / BLOCK_DIM, y / BLOCK_DIM) !in E ::
         PixelAt(b, lay, x, y) == MazePixel(pics, m, d, n, x, y)
  }

  ghost predicate Coherent(b: seq<Byte>, lay: Layout, pics: seq<seq<Byte>>, m: seq<Cell>, d: Dims, n: int) {
    CoherentBut(b, lay, pics, m, d, n, {})
  }

  lemma CoherentSetting(b: seq<Byte>, lay: Layout, pics: seq<seq<Byte>>, m: seq<Cell>, d: Dims, n: int)
    requires Coherent(b, lay, pics, m, d, n)
    ensures Setting(b, lay, pics, m, d)
  {
  }

  lemma CoherentAt(b: seq<Byte>, lay: Layout, pics: seq<seq<Byte>>, m: seq<Cell>, d: Dims, n: int, x: int, y: int)
    requires Coherent(b, lay, pics, m, d, n) && lay.Sees(x, y)
    ensures PixelAt(b, lay, x, y) == MazePixel(pics, m, d, n, x, y)
  {
  }

  /** Redrawing a block repairs it. */
  lemma RedrawRepairs(b: seq<Byte>, b': seq<Byte>, lay: Layout, pics: seq<seq<Byte>>, m: seq<Cell>, d: Dims, n: int,
                      E: set<(int, int)>, gx: int, gy: int)
    requires CoherentBut(b, lay, pics, m, d, n, E) && Drawable(d, gx, gy)
    requires Painted(b, b', lay, gx * BLOCK_DIM, gy * BLOCK_DIM, pics[FindBlock(m, d, n, gx, gy)])
    ensures CoherentBut(b', lay, pics, m, d, n, E - {(gx, gy)})
  {
    forall x, y | lay.Sees(x, y) && (x / BLOCK_DIM, y / BLOCK_DIM) !in E - {(gx, gy)}
      ensures PixelAt(b', lay, x, y) == MazePixel(pics, m, d, n, x, y)
    {
      if InBlock(gx * BLOCK_DIM, gy * BLOCK_DIM, x, y) {
        assert x / BLOCK_DIM == gx && y / BLOCK_DIM == gy;
        assert BlockIndex(gx * BLOCK_DIM, gy * BLOCK_DIM, x, y) == (y % BLOCK_DIM) * BLOCK_DIM + x % BLOCK_DIM;
      } else {
        assert (x / BLOCK_DIM, y / BLOCK_DIM) != (gx, gy);
      }
    }
  }

  /** Block (gx,gy) is drawn the same in two mazes with the same walls. */
  ghost predicate LooksTheSame(m: seq<Cell>, n: int, m': seq<Cell>, n': int, d: Dims, gx: int, gy: int)
    requires Pictured(m, d) && Pictured(m', d) && Drawable(d, gx, gy)
  {
    IndexInside(d, gx, gy);
    var c := Index(d, gx, gy);
    m'[c] == m[c] && ((n == 0) == (n' == 0) || !m[c].exit)
  }

  /** A change of the maze spoils only the blocks that look different. */
  lemma ChangeSpoils(b: seq<Byte>, lay: Layout, pics: seq<seq<Byte>>, m: seq<Cell>, n: int, m': seq<Cell>, n': int,
                     d: Dims, E: set<(int, int)>)
    requires Coherent(b, lay, pics, m, d, n) && Pictured(m', d) && SameWalls(m, m')
    requires forall gx, gy | Drawable(d, gx, gy) && BlockOnScreen(lay, gx, gy) && (gx, gy) !in E ::
      LooksTheSame(m, n, m', n', d, gx, gy)
    ensures CoherentBut(b, lay, pics, m', d, n', E)
  {
    forall x, y | lay.Sees(x, y) && (x / BLOCK_DIM, y / BLOCK_DIM) !in E
      ensures PixelAt(b, lay, x, y) == MazePixel(pics, m', d, n', x, y)
    {
      var gx, gy := x / BLOCK_DIM, y / BLOCK_DIM;
      assert LooksTheSame(m, n, m', n', d, gx, gy);
      IndexInside(d, gx, gy);
    }
  }

  /** Two cells of the picture share a byte only across the unified boundary. */
  lemma AliasIsBoundary(d: Dims, x: int, y: int, gx: int, gy: int)
    requires d.Valid() && Drawable(d, x, y) && Drawable(d, gx, gy) && Index(d, x, y) == Index(d, gx, gy)
    ensures (gx, gy) == (x, y) || (x == 2 * d.x && gx == 0) || (x == 0 && gx == 2 * d.x)
  {
    AliasPair(d.Width(), x, y + 1, gx, gy + 1);
  }

  /** The two sides of the unified boundary are never on screen together: blocks
      that are show different bytes of the maze. */
  lemma BlocksOnScreenAreApart(lay: Layout, d: Dims, x: int, y: int, gx: int, gy: int)
    requires d.Valid() && WindowInMaze(lay, d) && Drawable(d, x, y) && Drawable(d, gx, gy)
    requires BlockOnScreen(lay, x, y) && BlockOnScreen(lay, gx, gy) && Index(d, x, y) == Index(d, gx, gy)
    ensures (gx, gy) == (x, y)
  {
    AliasIsBoundary(d, x, y, gx, gy);
  }

  /** A boundary cell may be unveiled without drawing its twin when the twin's
      column is off screen. */
  predicate TwinHidden(lay: Layout, d: Dims, x: int) {
    (x == 2 * d.x ==> lay.sx >= BLOCK_DIM) && (x == 0 ==> lay.sx + SCROLL_X_DIM <= 2 * d.x * BLOCK_DIM)
  }

  /** Unveiling a cell spoils that cell's block and no other on screen. */
  lemma UnveilSpoils(b: seq<Byte>, lay: Layout, pics: seq<seq<Byte>>, m: seq<Cell>, d: Dims, n: int, x: int, y: int)
    requires Coherent(b, lay, pics, m, d, n) && Drawable(d, x, y) && TwinHidden(lay, d, x)
    ensures 0 <= Index(d, x, y) < |m|
    ensures var c := Index(d, x, y);
            CoherentBut(b, lay, pics, m[c := m[c].(reach := true)], d, n, {(x, y)})
  {
    assert 0 <= Index(d, x, y) < |m| by { IndexInside(d, x, y); }
    var c := Index(d, x, y);
    UnveilSpoilsAt(b, lay, pics, m, d, n, x, y, c);
  }

  lemma UnveilSpoilsAt(b: seq<Byte>, lay: Layout, pics: seq<seq<Byte>>, m: seq<Cell>, d: Dims, n: int, x: int, y: int, c: int)
    requires Coherent(b, lay, pics, m, d, n) && Drawable(d, x, y) && TwinHidden(lay, d, x)
    requires 0 <= c < |m| && c == Index(d, x, y)
    ensures CoherentBut(b, lay, pics, m[c := m[c].(reach := true)], d, n, {(x, y)})
  {
    var m' := m[c := m[c].(reach := true)];
    forall gx, gy | Drawable(d, gx, gy) && BlockOnScreen(lay, gx, gy) && (gx, gy) !in {(x, y)}
      ensures LooksTheSame(m, n, m', n, d, gx, gy)
    {
      UnveilLooks(lay, m, m', n, d, x, y, gx, gy);
    }
    ChangeSpoils(b, lay, pics, m, n, m', n, d, {(x, y)});
  }

  lemma UnveilLooks(lay: Layout, m: seq<Cell>, m': seq<Cell>, n: int, d: Dims, x: int, y: int, gx: int, gy: int)
    requires Pictured(m, d) && Pictured(m', d) && Drawable(d, x, y) && TwinHidden(lay, d, x)
    requires Drawable(d, gx, gy) && BlockOnScreen(lay, gx, gy) && (gx, gy) != (x, y)
    requires forall c | 0 <= c < |m| && c != Index(d, x, y) :: m'[c] == m[c]
    ensures LooksTheSame(m, n, m', n, d, gx, gy)
  {
    OtherBytes(lay, d, x, y, gx, gy);
    IndexInside(d, gx, gy);
  }

  /** A block on screen, other than (x,y), has a byte of its own. */
  lemma OtherBytes(lay: Layout, d: Dims, x: int, y: int, gx: int, gy: int)
    requires d.Valid() && Drawable(d, x, y) && TwinHidden(lay, d, x)
    requires Drawable(d, gx, gy) && BlockOnScreen(lay, gx, gy) && (gx, gy) != (x, y)
    ensures Index(d, gx, gy) != Index(d, x, y)
  {
    if Index(d, gx, gy) == Index(d, x, y) {
      AliasIsBoundary(d, x, y, gx, gy);
    }
  }

  /** A cell strictly inside the boundary. */
  predicate Interior(d: Dims, x: int, y: int) {
    0 < x < 2 * d.x && 0 < y < 2 * d.y
  }

  /** Eating a fruit spoils its own block, and the exit's when it was the last. */
  lemma EatingSpoils(b: seq<Byte>, lay: Layout, pics: seq<seq<Byte>>, m: seq<Cell>, d: Dims, n: int,
                     x: int, y: int, ex: int, ey: int)
    requires Coherent(b, lay, pics, m, d, n) && Interior(d, x, y) && Interior(d, ex, ey) && n > 0
    requires ExitCells(m) == {Index(d, ex, ey)}
    ensures 0 <= Index(d, x, y) < |m|
    ensures var c := Index(d, x, y);
            CoherentBut(b, lay, pics, m[c := m[c].(fruit := 0)], d, n - 1,
                        if n == 1 then {(ex, ey), (x, y)} else {(x, y)})
  {
    IndexInside(d, x, y);
    var c, E := Index(d, x, y), if n == 1 then {(ex, ey), (x, y)} else {(x, y)};
    var m' := m[c := m[c].(fruit := 0)];
    forall gx, gy | Drawable(d, gx, gy) && BlockOnScreen(lay, gx, gy) && (gx, gy) !in E
      ensures LooksTheSame(m, n, m', n - 1, d, gx, gy)
    {
      IndexInside(d, gx, gy);
      if Index(d, gx, gy) == c {
        AliasIsBoundary(d, x, y, gx, gy);
      } else if m[Index(d, gx, gy)].exit {
        assert Index(d, gx, gy) in ExitCells(m);
        AliasIsBoundary(d, ex, ey, gx, gy);
      }
    }
    ChangeSpoils(b, lay, pics, m, n, m', n - 1, d, E);
  }

  // ----- panning -----

  /** After a pan, the pixels the old window already showed are still right. */
  lemma PanKeeps(b: seq<Byte>, lay: Layout, b': seq<Byte>, lay': Layout, pics: seq<seq<Byte>>, m: seq<Cell>, d: Dims, n: int)
    requires Coherent(b, lay, pics, m, d, n) && Retained(b, lay, b', lay') && WindowInMaze(lay', d)
    ensures Setting(b', lay', pics, m, d)
    ensures forall x, y | lay.Sees(x, y) && lay'.Sees(x, y) :: PixelAt(b', lay', x, y) == MazePixel(pics, m, d, n, x, y)
  {
    forall x, y | lay.Sees(x, y) && lay'.Sees(x, y)
      ensures PixelAt(b', lay', x, y) == MazePixel(pics, m, d, n, x, y)
    {
      assert PixelAt(b', lay', x, y) == PixelAt(b, lay, x, y);
      assert (x / BLOCK_DIM, y / BLOCK_DIM) !in {};
    }
  }

  /** Drawing the row a vertical pan of one pixel brings in makes the window whole. */
  lemma RowCompletes(lay: Layout, b': seq<Byte>, b'': seq<Byte>, lay': Layout, pics: seq<seq<Byte>>, m: seq<Cell>, d: Dims, n: int,
                     y: int, line: seq<Byte>)
    requires Setting(b', lay', pics, m, d) && lay'.sx == lay.sx
    requires (lay'.sy == lay.sy - 1 && y == lay'.sy) || (lay'.sy == lay.sy + 1 && y == lay'.sy + SCROLL_Y_DIM - 1)
    requires forall x, r | lay.Sees(x, r) && lay'.Sees(x, r) :: PixelAt(b', lay', x, r) == MazePixel(pics, m, d, n, x, r)
    requires RowOfMaze(line, SCROLL_X_DIM, pics, m, d, n, lay'.sx, y)
    requires RowDrawn(b', b'', lay', y, line, lay'.sx + SCROLL_X_DIM)
    ensures Coherent(b'', lay', pics, m, d, n)
  {
  }

  /** Drawing the column a horizontal pan of one pixel brings in does the same. */
  lemma ColumnCompletes(lay: Layout, b': seq<Byte>, b'': seq<Byte>, lay': Layout, pics: seq<seq<Byte>>, m: seq<Cell>, d: Dims, n: int,
                        x: int, line: seq<Byte>)
    requires Setting(b', lay', pics, m, d) && lay'.sy == lay.sy
    requires (lay'.sx == lay.sx - 1 && x == lay'.sx) || (lay'.sx == lay.sx + 1 && x == lay'.sx + SCROLL_X_DIM - 1)
    requires forall c, y | lay.Sees(c, y) && lay'.Sees(c, y) :: PixelAt(b', lay', c, y) == MazePixel(pics, m, d, n, c, y)
    requires ColumnOfMaze(line, SCROLL_Y_DIM, pics, m, d, n, x, lay'.sy)
    requires ColumnDrawn(b', b'', lay', x, line, lay'.sy + SCROLL_Y_DIM)
    ensures Coherent(b'', lay', pics, m, d, n)
  {
  }

  // ----- drawing a whole window, and the player over it -----

  /** The first k rows of the window show the maze. */
  ghost predicate CoherentRows(b: seq<Byte>, lay: Layout, pics: seq<seq<Byte>>, m: seq<Cell>, d: Dims, n: int, k: int) {
    && Setting(b, lay, pics, m, d)
    && forall x, y | lay.Sees(x, y) && y < lay.sy + k :: PixelAt(b, lay, x, y) == MazePixel(pics, m, d, n, x, y)
  }

  lemma RowsSetting(b: seq<Byte>, lay: Layout, pics: seq<seq<Byte>>, m: seq<Cell>, d: Dims, n: int, k: int)
    requires CoherentRows(b, lay, pics, m, d, n, k)
    ensures Setting(b, lay, pics, m, d)
  {
  }

  lemma NextRow(b: seq<Byte>, b': seq<Byte>, lay: Layout, pics: seq<seq<Byte>>, m: seq<Cell>, d: Dims, n: int, k: int, line: seq<Byte>)
    requires CoherentRows(b, lay, pics, m, d, n, k) && 0 <= k < SCROLL_Y_DIM
    requires RowOfMaze(line, SCROLL_X_DIM, pics, m, d, n, lay.sx, lay.sy + k)
    requires RowDrawn(b, b', lay, lay.sy + k, line, lay.sx + SCROLL_X_DIM)
    ensures CoherentRows(b', lay, pics, m, d, n, k + 1)
  {
  }

  lemma AllRows(b: seq<Byte>, lay: Layout, pics: seq<seq<Byte>>, m: seq<Cell>, d: Dims, n: int)
    requires CoherentRows(b, lay, pics, m, d, n, SCROLL_Y_DIM)
    ensures Coherent(b, lay, pics, m, d, n)
  {
  }

  /** The maze with the player's sprite over it. */
  function FramePixel(pics: seq<seq<Byte>>, m: seq<Cell>, d: Dims, n: int, px: int, py: int, facing: int, x: int, y: int): Byte
    requires ValidPictures(pics) && Pictured(m, d) && OnMap(d, x, y) && 0 <= facing < 4
  {
    if InBlock(px, py, x, y) && pics[BLOCK_PLAYER_MASK_UP + facing][BlockIndex(px, py, x, y)] != 0
    then pics[BLOCK_PLAYER_UP + facing][BlockIndex(px, py, x, y)]
    else MazePixel(pics, m, d, n, x, y)
  }

  /** A coherent buffer with the player drawn over it shows the frame. */
  lemma SpriteOverMaze(b: seq<Byte>, b': seq<Byte>, lay: Layout, pics: seq<seq<Byte>>, m: seq<Cell>, d: Dims, n: int,
                       px: int, py: int, facing: int, x: int, y: int)
    requires Coherent(b, lay, pics, m, d, n) && 0 <= facing < 4 && lay.Sees(x, y)
    requires lay.Sees(px, py) && lay.Sees(px + BLOCK_DIM - 1, py + BLOCK_DIM - 1)
    requires Painted(b, b', lay, px, py,
                     Overlay(b, lay, px, py, pics[BLOCK_PLAYER_UP + facing], pics[BLOCK_PLAYER_MASK_UP + facing]))
    ensures PixelAt(b', lay, x, y) == FramePixel(pics, m, d, n, px, py, facing, x, y)
  {
    var blk, sprite := pics[BLOCK_PLAYER_UP + facing], pics[BLOCK_PLAYER_MASK_UP + facing];
    assert PixelAt(b, lay, x, y) == MazePixel(pics, m, d, n, x, y);
    if InBlock(px, py, x, y) {
      OverlayAt(b, lay, px, py, blk, sprite, x, y);
      SavedIndexInside(lay, px, py, x, y);
    }
  }
}
