// The maze as a picture: which block image each cell shows, and the line buffers
// filled from it.
module MazeView {
  import opened MazeGrid
  import opened MazeGen
  import opened Bytes
  import opened ViewLayout

  const BLOCK_EMPTY := 16
  const BLOCK_SHADOW := 17
  const BLOCK_PLAYER_UP := 18
  const BLOCK_PLAYER_MASK_UP := 22
  const BLOCK_FRUIT_1 := 26
  const BLOCK_FRUIT_SHADOW := 33
  const BLOCK_EXIT := 34
  const NUM_BLOCKS := 35

  /** The block images of blocks.s: 35 pictures of 12 x 12 bytes. */
  ghost predicate ValidPictures(pics: seq<seq<Byte>>) {
    |pics| == NUM_BLOCKS && forall k | 0 <= k < NUM_BLOCKS :: |pics[k]| == BLOCK_DIM * BLOCK_DIM
  }

  /** The maze cells that have a picture: the right boundary, column 2 * x_dim, is
      the left boundary of the next row. */
  predicate Drawable(d: Dims, x: int, y: int) {
    0 <= x <= 2 * d.x && 0 <= y <= 2 * d.y
  }

  lemma IndexInside(d: Dims, x: int, y: int)
    requires d.Valid() && 0 <= x <= 2 * d.x && 0 <= y <= 2 * d.y
    ensures d.Width() <= Index(d, x, y) && Index(d, x, y) + d.Width() < MAZE_SIZE
    ensures Index(d, x, y - 1) == Index(d, x, y) - d.Width() && Index(d, x, y + 1) == Index(d, x, y) + d.Width()
    ensures Index(d, x - 1, y) == Index(d, x, y) - 1 && Index(d, x + 1, y) == Index(d, x, y) + 1
  {
    var w := d.Width();
    RowsInside(d, y);
    Distribute(y, 1, w);
  }

  lemma RowsInside(d: Dims, y: int)
    requires d.Valid() && 0 <= y <= 2 * d.y
    ensures 0 <= y * d.Width() && (y + 3) * d.Width() < MAZE_SIZE
  {
    var w := d.Width();
    AtLeastOnce(y, w);
    AtLeastOnce(2 * MAZE_MAX_Y_DIM - y, w);
    assert (y + 3) * w <= 63 * w by { Distribute(60 - y, y + 3, w); }
  }

  /** The stencil of find_block around flat index p, in rows of width w. */
  function BlockAt(m: seq<Cell>, n: int, w: int, p: int): (k: int)
    requires 0 < w <= p && p + w < |m| && m[p].fruit <= NUM_FRUIT_TYPES
    ensures 0 <= k < NUM_BLOCKS
  {
    if n == 0 && m[p].exit then BLOCK_EXIT
    else if !m[p].reach then (if m[p].fruit != 0 then BLOCK_FRUIT_SHADOW else BLOCK_SHADOW)
    else if m[p].fruit != 0 then BLOCK_FRUIT_1 + m[p].fruit - 1
    else if !m[p].wall then BLOCK_EMPTY
    else
      (if m[p - w].wall then 1 else 0) + (if m[p + 1].wall then 2 else 0)
      + (if m[p + w].wall then 4 else 0) + (if m[p - 1].wall then 8 else 0)
  }

  /** A maze whose cells can all be drawn. */
  ghost predicate Pictured(m: seq<Cell>, d: Dims) {
    && d.Valid() && |m| == MAZE_SIZE
    && forall c | 0 <= c < |m| :: m[c].fruit <= NUM_FRUIT_TYPES
  }

  /** find_block */
  function FindBlock(m: seq<Cell>, d: Dims, n: int, x: int, y: int): (k: int)
    requires Pictured(m, d) && Drawable(d, x, y)
    ensures 0 <= k < NUM_BLOCKS
  {
    IndexInside(d, x, y);
    BlockAt(m, n, d.Width(), Index(d, x, y))
  }

  ghost predicate WallAt(m: seq<Cell>, d: Dims, x: int, y: int) {
    0 <= Index(d, x, y) < |m| && m[Index(d, x, y)].wall
  }

  /** What a picture says about its cell: the exit shows once the last fruit is eaten;
      of anything else unseen only whether it is fruit; then fruit by its type, floor,
      and walls by the walls they join. */
  lemma PictureTells(m: seq<Cell>, d: Dims, n: int, x: int, y: int)
    requires Pictured(m, d) && Drawable(d, x, y)
    ensures 0 <= Index(d, x, y) < |m|
    ensures var c, k := m[Index(d, x, y)], FindBlock(m, d, n, x, y);
      && (k == 34 <==> n == 0 && c.exit)
      && (k == 33 <==> !(n == 0 && c.exit) && !c.reach && c.fruit != 0)
      && (k == 17 <==> !(n == 0 && c.exit) && !c.reach && c.fruit == 0)
      && (26 <= k <= 32 <==> !(n == 0 && c.exit) && c.reach && c.fruit != 0) && (26 <= k <= 32 ==> c.fruit == k - 25)
      && (k == 16 <==> !(n == 0 && c.exit) && c.reach && c.fruit == 0 && !c.wall)
      && (k < 16 <==> !(n == 0 && c.exit) && c.reach && c.fruit == 0 && c.wall)
  {
    IndexInside(d, x, y);
  }

  /** The bits of a wall's picture are the walls above, right, below and left of it. */
  lemma WallPictureTells(m: seq<Cell>, d: Dims, n: int, x: int, y: int)
    requires Pictured(m, d) && Drawable(d, x, y) && FindBlock(m, d, n, x, y) < 16
    ensures var k := FindBlock(m, d, n, x, y);
      && (k % 2 == 1 <==> WallAt(m, d, x, y - 1)) && (k / 2 % 2 == 1 <==> WallAt(m, d, x + 1, y))
      && (k / 4 % 2 == 1 <==> WallAt(m, d, x, y + 1)) && (k / 8 == 1 <==> WallAt(m, d, x - 1, y))
  {
    IndexInside(d, x, y);
    hide Index;
    var p, w := Index(d, x, y), d.Width();
    WallBits(m[p - w].wall, m[p + 1].wall, m[p + w].wall, m[p - 1].wall);
  }

  lemma WallBits(up: bool, right: bool, down: bool, left: bool)
    ensures var k := (if up then 1 else 0) + (if right then 2 else 0) + (if down then 4 else 0) + (if left then 8 else 0);
      && (k % 2 == 1 <==> up) && (k / 2 % 2 == 1 <==> right) && (k / 4 % 2 == 1 <==> down) && (k / 8 == 1 <==> left)
  {
  }

  /** A maze of which nothing has been seen shows mist everywhere, with bumps where the
      fruit is: its walls cannot be told from its floor. */
  lemma UnseenIsMist(m: seq<Cell>, d: Dims, n: int, x: int, y: int)
    requires Pictured(m, d) && Drawable(d, x, y) && n != 0 && forall c | 0 <= c < |m| :: !m[c].reach
    ensures 0 <= Index(d, x, y) < |m|
    ensures FindBlock(m, d, n, x, y) == if m[Index(d, x, y)].fruit != 0 then 33 else 17
  {
    PictureTells(m, d, n, x, y);
  }

  /** The part of the logical view the maze covers. */
  predicate OnMap(d: Dims, x: int, y: int) {
    0 <= x < (2 * d.x + 1) * BLOCK_DIM && 0 <= y < (2 * d.y + 1) * BLOCK_DIM
  }

  /** The colour of pixel (x,y) of the maze. */
  function MazePixel(pics: seq<seq<Byte>>, m: seq<Cell>, d: Dims, n: int, x: int, y: int): Byte
    requires ValidPictures(pics) && Pictured(m, d) && OnMap(d, x, y)
  {
    pics[FindBlock(m, d, n, x / BLOCK_DIM, y / BLOCK_DIM)][(y % BLOCK_DIM) * BLOCK_DIM + x % BLOCK_DIM]
  }

  /** The first k bytes of `line` are the maze pixels from (x,y) rightwards. */
  ghost predicate RowOfMaze(line: seq<Byte>, k: int, pics: seq<seq<Byte>>, m: seq<Cell>, d: Dims, n: int, x: int, y: int) {
    && ValidPictures(pics) && Pictured(m, d) && 0 <= k <= |line|
    && OnMap(d, x, y) && (k > 0 ==> OnMap(d, x + k - 1, y))
    && forall a | 0 <= a < k :: line[a] == MazePixel(pics, m, d, n, x + a, y)
  }

  /** The first k bytes of `line` are the maze pixels from (x,y) downwards. */
  ghost predicate ColumnOfMaze(line: seq<Byte>, k: int, pics: seq<seq<Byte>>, m: seq<Cell>, d: Dims, n: int, x: int, y: int) {
    && ValidPictures(pics) && Pictured(m, d) && 0 <= k <= |line|
    && OnMap(d, x, y) && (k > 0 ==> OnMap(d, x, y + k - 1))
    && forall a | 0 <= a < k :: line[a] == MazePixel(pics, m, d, n, x, y + a)
  }

  lemma ExtendRow(line: seq<Byte>, k: int, pics: seq<seq<Byte>>, m: seq<Cell>, d: Dims, n: int, x: int, y: int,
                  mapX: int, mapY: int, at: int)
    requires RowOfMaze(line, k, pics, m, d, n, x, y) && k < |line|
    requires OnMap(d, x + k, y) && mapX == (x + k) / BLOCK_DIM && mapY == y / BLOCK_DIM
    requires at == (y % BLOCK_DIM) * BLOCK_DIM + (x + k) % BLOCK_DIM
    ensures RowOfMaze(line[k := pics[FindBlock(m, d, n, mapX, mapY)][at]], k + 1, pics, m, d, n, x, y)
  {
    assert pics[FindBlock(m, d, n, mapX, mapY)][at] == MazePixel(pics, m, d, n, x + k, y);
  }

  lemma ExtendColumn(line: seq<Byte>, k: int, pics: seq<seq<Byte>>, m: seq<Cell>, d: Dims, n: int, x: int, y: int,
                     mapX: int, mapY: int, at: int)
    requires ColumnOfMaze(line, k, pics, m, d, n, x, y) && k < |line|
    requires OnMap(d, x, y + k) && mapX == x / BLOCK_DIM && mapY == (y + k) / BLOCK_DIM
    requires at == ((y + k) % BLOCK_DIM) * BLOCK_DIM + x % BLOCK_DIM
    ensures ColumnOfMaze(line[k := pics[FindBlock(m, d, n, mapX, mapY)][at]], k + 1, pics, m, d, n, x, y)
  {
    assert pics[FindBlock(m, d, n, mapX, mapY)][at] == MazePixel(pics, m, d, n, x, y + k);
  }

  /** fill_horiz_buffer: the 320 pixels of row y that start at column x. */
  method FillHorizBuffer(mz: Maze, pics: seq<seq<Byte>>, x: int, y: int, buf: array<Byte>)
    requires ValidPictures(pics) && Pictured(mz.maze[..], mz.dims)
    requires OnMap(mz.dims, x, y) && OnMap(mz.dims, x + SCROLL_X_DIM - 1, y) && buf.Length == SCROLL_X_DIM
    modifies buf
    ensures RowOfMaze(buf[..], SCROLL_X_DIM, pics, mz.maze[..], mz.dims, mz.nFruits, x, y)
  {
    ghost var m := mz.maze[..];
    var mapX, mapY := x / BLOCK_DIM, y / BLOCK_DIM;
    var subX, subY := x - mapX * BLOCK_DIM, y - mapY * BLOCK_DIM;
    var idx := 0;
    while idx < SCROLL_X_DIM
      invariant 0 <= idx <= SCROLL_X_DIM && 0 <= subX < BLOCK_DIM && mz.maze[..] == m
      invariant idx < SCROLL_X_DIM ==> mapX * BLOCK_DIM + subX == x + idx
      invariant RowOfMaze(buf[..], idx, pics, m, mz.dims, mz.nFruits, x, y)
    {
      idx := FillRowFromBlock(mz, pics, x, y, mapX, mapY, subX, subY, idx, buf);
      mapX := mapX + 1;
      subX := 0;
    }
  }

  /** The inner loop of fill_horiz_buffer: one row of one block. */
  method FillRowFromBlock(mz: Maze, pics: seq<seq<Byte>>, x: int, y: int,
                          mapX: int, mapY: int, subX0: int, subY: int, idx0: int, buf: array<Byte>) returns (idx: int)
    requires ValidPictures(pics) && Pictured(mz.maze[..], mz.dims)
    requires OnMap(mz.dims, x, y) && OnMap(mz.dims, x + SCROLL_X_DIM - 1, y) && buf.Length == SCROLL_X_DIM
    requires 0 <= idx0 < SCROLL_X_DIM && 0 <= subX0 < BLOCK_DIM && 0 <= subY < BLOCK_DIM
    requires mapX * BLOCK_DIM + subX0 == x + idx0 && mapY * BLOCK_DIM + subY == y
    requires RowOfMaze(buf[..], idx0, pics, mz.maze[..], mz.dims, mz.nFruits, x, y)
    modifies buf
    ensures mz.maze[..] == old(mz.maze[..])
    ensures idx0 < idx <= SCROLL_X_DIM && (idx < SCROLL_X_DIM ==> (mapX + 1) * BLOCK_DIM == x + idx)
    ensures RowOfMaze(buf[..], idx, pics, mz.maze[..], mz.dims, mz.nFruits, x, y)
  {
    ghost var m := mz.maze[..];
    var block := FindBlock(mz.maze[..], mz.dims, mz.nFruits, mapX, mapY);
    var at, subX := subY * BLOCK_DIM + subX0, subX0;
    idx := idx0;
    while idx < SCROLL_X_DIM && subX < BLOCK_DIM
      invariant idx0 <= idx <= SCROLL_X_DIM && subX0 <= subX <= BLOCK_DIM && mz.maze[..] == m
      invariant idx - idx0 == subX - subX0 && at == subY * BLOCK_DIM + subX
      invariant RowOfMaze(buf[..], idx, pics, m, mz.dims, mz.nFruits, x, y)
    {
      ghost var line := buf[..];
      ExtendRow(line, idx, pics, m, mz.dims, mz.nFruits, x, y, mapX, mapY, at);
      buf[idx] := pics[block][at];
      assert buf[..] == line[idx := pics[block][at]];
      at, idx, subX := at + 1, idx + 1, subX + 1;
    }
  }

  /** fill_vert_buffer: the 182 pixels of column x that start at row y. */
  method FillVertBuffer(mz: Maze, pics: seq<seq<Byte>>, x: int, y: int, buf: array<Byte>)
    requires ValidPictures(pics) && Pictured(mz.maze[..], mz.dims)
    requires OnMap(mz.dims, x, y) && OnMap(mz.dims, x, y + SCROLL_Y_DIM - 1) && buf.Length == SCROLL_Y_DIM
    modifies buf
    ensures ColumnOfMaze(buf[..], SCROLL_Y_DIM, pics, mz.maze[..], mz.dims, mz.nFruits, x, y)
  {
    ghost var m := mz.maze[..];
    var mapX, mapY := x / BLOCK_DIM, y / BLOCK_DIM;
    var subX, subY := x - mapX * BLOCK_DIM, y - mapY * BLOCK_DIM;
    var idx := 0;
    while idx < SCROLL_Y_DIM
      invariant 0 <= idx <= SCROLL_Y_DIM && 0 <= subY < BLOCK_DIM && mz.maze[..] == m
      invariant idx < SCROLL_Y_DIM ==> mapY * BLOCK_DIM + subY == y + idx
      invariant ColumnOfMaze(buf[..], idx, pics, m, mz.dims, mz.nFruits, x, y)
    {
      idx := FillColumnFromBlock(mz, pics, x, y, mapX, mapY, subX, subY, idx, buf);
      mapY := mapY + 1;
      subY := 0;
    }
  }

  /** The inner loop of fill_vert_buffer: one column of one block. */
  method FillColumnFromBlock(mz: Maze, pics: seq<seq<Byte>>, x: int, y: int,
                             mapX: int, mapY: int, subX: int, subY0: int, idx0: int, buf: array<Byte>) returns (idx: int)
    requires ValidPictures(pics) && Pictured(mz.maze[..], mz.dims)
    requires OnMap(mz.dims, x, y) && OnMap(mz.dims, x, y + SCROLL_Y_DIM - 1) && buf.Length == SCROLL_Y_DIM
    requires 0 <= idx0 < SCROLL_Y_DIM && 0 <= subX < BLOCK_DIM && 0 <= subY0 < BLOCK_DIM
    requires mapY * BLOCK_DIM + subY0 == y + idx0 && mapX * BLOCK_DIM + subX == x
    requires ColumnOfMaze(buf[..], idx0, pics, mz.maze[..], mz.dims, mz.nFruits, x, y)
    modifies buf
    ensures mz.maze[..] == old(mz.maze[..])
    ensures idx0 < idx <= SCROLL_Y_DIM && (idx < SCROLL_Y_DIM ==> (mapY + 1) * BLOCK_DIM == y + idx)
    ensures ColumnOfMaze(buf[..], idx, pics, mz.maze[..], mz.dims, mz.nFruits, x, y)
  {
    ghost var m := mz.maze[..];
    var block := FindBlock(mz.maze[..], mz.dims, mz.nFruits, mapX, mapY);
    var at, subY := subY0 * BLOCK_DIM + subX, subY0;
    idx := idx0;
    while idx < SCROLL_Y_DIM && subY < BLOCK_DIM
      invariant idx0 <= idx <= SCROLL_Y_DIM && subY0 <= subY <= BLOCK_DIM && mz.maze[..] == m
      invariant idx - idx0 == subY - subY0 && at == subY * BLOCK_DIM + subX
      invariant ColumnOfMaze(buf[..], idx, pics, m, mz.dims, mz.nFruits, x, y)
    {
      ghost var line := buf[..];
      ExtendColumn(line, idx, pics, m, mz.dims, mz.nFruits, x, y, mapX, mapY, at);
      buf[idx] := pics[block][at];
      assert buf[..] == line[idx := pics[block][at]];
      at, idx, subY := at + BLOCK_DIM, idx + 1, subY + 1;
    }
  }
}
