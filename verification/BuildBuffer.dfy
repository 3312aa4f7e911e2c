// The drawing routines of mp2/modex.c on the build buffer.
module BuildBuffer {
  import opened Bytes
  import opened Limits
  import opened ViewLayout

  /** The window has moved from `lay` to `lay'`: whatever both windows show is kept. */
  ghost predicate Retained(b: seq<Byte>, lay: Layout, b': seq<Byte>, lay': Layout) {
    && lay.Fits() && lay'.Fits() && |b| == lay.Size() && |b'| == lay'.Size()
    && forall x, y | lay.Sees(x, y) && lay'.Sees(x, y) :: PixelAt(b', lay', x, y) == PixelAt(b, lay, x, y)
  }

  lemma NothingMoves(b: seq<Byte>, lay: Layout, sx: int, sy: int)
    requires lay.Fits() && lay.(sx := sx, sy := sy).Fits() && |b| == lay.Size()
    ensures Retained(b, lay, b, lay.(sx := sx, sy := sy))
  {
  }

  lemma NothingShared(b: seq<Byte>, lay: Layout, sx: int, sy: int)
    requires lay.Fits() && |b| == lay.Size()
    requires sx <= lay.sx - SCROLL_X_DIM || sx >= lay.sx + SCROLL_X_DIM
          || sy <= lay.sy - SCROLL_Y_DIM || sy >= lay.sy + SCROLL_Y_DIM
    ensures Retained(b, lay, b, Recentred(lay, sx, sy))
  {
    assert forall x, y :: !(lay.Sees(x, y) && Recentred(lay, sx, sy).Sees(x, y));
  }

  /** The stretch of the buffer that set_view_window copies. */
  datatype Span = Span(start: int, length: int)

  /** From the upper left pixel both windows show, in plane 3, to the lower right
      one, in plane 0: offsets relative to the (old or new) window origin. */
  function SharedSpan(lay: Layout, sx: int, sy: int): Span {
    var startX := if sx > lay.sx then sx else lay.sx;
    var startY := if sy > lay.sy then sy else lay.sy;
    var endX := (if sx > lay.sx then lay.sx else sx) + SCROLL_X_DIM - 1;
    var endY := (if sy > lay.sy then lay.sy else sy) + SCROLL_Y_DIM - 1;
    var start := startX / 4 + startY * SCROLL_X_WIDTH;
    Span(start, endX / 4 + endY * SCROLL_X_WIDTH + 1 - start + 3 * lay.plane)
  }

  /** The window moved to the middle of the buffer. */
  function Recentred(lay: Layout, sx: int, sy: int): (r: Layout)
    ensures lay.Roomy() ==> r.Fits()
    ensures r.plane == lay.plane && r.slack == lay.slack && r.sx == sx && r.sy == sy
  {
    lay.(off := lay.Base() - sx / 4 - sy * SCROLL_X_WIDTH, sx := sx, sy := sy)
  }

  /** The copy reads and writes inside the buffer only. */
  lemma SpanIsInside(lay: Layout, sx: int, sy: int)
    requires lay.Fits()
    ensures var s, r := SharedSpan(lay, sx, sy), Recentred(lay, sx, sy);
            s.length > 0 ==> && 0 <= lay.off + s.start && lay.off + s.start + s.length <= lay.Size()
                             && 0 <= r.off + s.start && r.off + s.start + s.length <= lay.Size()
  {
  }

  /** Every pixel both windows show is inside the copied stretch. */
  lemma SharedPixelIsInSpan(lay: Layout, sx: int, sy: int, x: int, y: int)
    requires lay.Fits() && lay.Sees(x, y) && Recentred(lay, sx, sy).Sees(x, y)
    ensures var s := SharedSpan(lay, sx, sy);
            s.start <= lay.Address(x, y) - lay.off < s.start + s.length
    ensures Recentred(lay, sx, sy).Address(x, y) - Recentred(lay, sx, sy).off == lay.Address(x, y) - lay.off
  {
  }

  /** b' is b with `length` bytes copied from `from` to `to`. */
  ghost predicate Copied(b: seq<Byte>, b': seq<Byte>, from: int, to: int, length: int) {
    && |b| == |b'|
    && (length > 0 ==> 0 <= from && from + length <= |b| && 0 <= to && to + length <= |b|)
    && (forall k {:trigger b'[k]} | 0 <= k < |b| ::
          b'[k] == if to <= k < to + length then b[from + (k - to)] else b[k])
  }

  lemma CopyRetains(b: seq<Byte>, lay: Layout, b': seq<Byte>, sx: int, sy: int)
    requires lay.Fits() && |b| == lay.Size()
    requires var s, r := SharedSpan(lay, sx, sy), Recentred(lay, sx, sy);
             Copied(b, b', lay.off + s.start, r.off + s.start, s.length)
    ensures Retained(b, lay, b', Recentred(lay, sx, sy))
  {
    var s, r := SharedSpan(lay, sx, sy), Recentred(lay, sx, sy);
    forall x, y | lay.Sees(x, y) && r.Sees(x, y)
      ensures PixelAt(b', r, x, y) == PixelAt(b, lay, x, y)
    {
      SharedPixelIsInSpan(lay, sx, sy, x, y);
      r.SeenIsInside(x, y);
      lay.SeenIsInside(x, y);
      assert b'[r.Address(x, y)] == b[lay.Address(x, y)];
    }
  }

  /** The copy loop of set_view_window: the direction depends on which of the two
      possibly overlapping stretches comes first. */
  method CopyStretch(build: array<Byte>, from: int, to: int, length: int)
    requires length > 0 ==> 0 <= from && from + length <= build.Length && 0 <= to && to + length <= build.Length
    modifies build
    ensures Copied(old(build[..]), build[..], from, to, length)
  {
    if from < to {
      var i := length;
      while i > 0
        invariant i <= length && (if length > 0 then 0 <= i else i == length)
        invariant forall k | 0 <= k < build.Length ::
          build[k] == if to + i <= k < to + length then old(build[from + (k - to)]) else old(build[k])
      {
        i := i - 1;
        build[to + i] := build[from + i];
      }
    } else {
      var i := 0;
      while i < length
        invariant 0 <= i && (length > 0 ==> i <= length)
        invariant forall k | 0 <= k < build.Length ::
          build[k] == if to <= k < to + i && i <= length then old(build[from + (k - to)]) else old(build[k])
      {
        build[to + i] := build[from + i];
        i := i + 1;
      }
    }
  }

  // ----- drawing a block -----

  /** b is b0 with the rows of a block at (px,py) above `row`, and the pixels of
      that row left of `col`, painted from blk; nothing else has changed. */
  ghost predicate PaintedUpTo(b0: seq<Byte>, b: seq<Byte>, lay: Layout, px: int, py: int, blk: seq<Byte>,
                              row: int, col: int) {
    && lay.Fits() && |b0| == |b| == lay.Size() && |blk| == BLOCK_DIM * BLOCK_DIM
    && (forall x, y | lay.Sees(x, y) ::
          PixelAt(b, lay, x, y) ==
            if InBlock(px, py, x, y) && (y < row || (y == row && x < col)) then blk[BlockIndex(px, py, x, y)]
            else PixelAt(b0, lay, x, y))
    && (forall a | 0 <= a < |b| && a !in BlockBytes(lay, px, py) :: b[a] == b0[a])
  }

  /** The whole block is painted, as far as it is on screen. */
  ghost predicate Painted(b0: seq<Byte>, b: seq<Byte>, lay: Layout, px: int, py: int, blk: seq<Byte>) {
    PaintedUpTo(b0, b, lay, px, py, blk, py + BLOCK_DIM, px)
  }

  lemma PaintPixel(b0: seq<Byte>, b: seq<Byte>, lay: Layout, px: int, py: int, blk: seq<Byte>, row: int, col: int)
    requires PaintedUpTo(b0, b, lay, px, py, blk, row, col)
    requires InBlock(px, py, col, row) && lay.Sees(col, row)
    ensures 0 <= lay.Address(col, row) < |b|
    ensures PaintedUpTo(b0, b[lay.Address(col, row) := blk[BlockIndex(px, py, col, row)]], lay, px, py, blk, row, col + 1)
  {
    StorePixel(b, lay, col, row, blk[BlockIndex(px, py, col, row)]);
    assert lay.Address(col, row) in BlockBytes(lay, px, py);
  }

  /** Columns off screen have nothing to paint. */
  lemma SkipColumns(b0: seq<Byte>, b: seq<Byte>, lay: Layout, px: int, py: int, blk: seq<Byte>,
                    row: int, col: int, row': int, col': int)
    requires PaintedUpTo(b0, b, lay, px, py, blk, row, col)
    requires forall x, y | lay.Sees(x, y) && InBlock(px, py, x, y) ::
      (y < row || (y == row && x < col)) <==> (y < row' || (y == row' && x < col'))
    ensures PaintedUpTo(b0, b, lay, px, py, blk, row', col')
  {
  }

  // ----- drawing through a mask -----

  /** The number of columns of a block that are on screen. */
  function VisibleWidth(lay: Layout, px: int): int {
    Min(px + BLOCK_DIM, lay.sx + SCROLL_X_DIM) - Max(px, lay.sx)
  }

  /** The first index of row r when rows of w pixels are stored without gaps. */
  function RowStart(w: int, r: int): int
    decreases r
  {
    if r <= 0 then 0 else RowStart(w, r - 1) + w
  }

  lemma {:induction false} RowsFit(w: int, r: int)
    requires 0 <= w <= BLOCK_DIM && 0 <= r
    ensures 0 <= RowStart(w, r) <= BLOCK_DIM * r
    ensures w == BLOCK_DIM ==> RowStart(w, r) == BLOCK_DIM * r
    decreases r
  {
    if r > 0 {
      RowsFit(w, r - 1);
    }
  }

  lemma {:induction false} RowsFollow(w: int, r: int, r': int)
    requires 0 <= w && 0 <= r < r'
    ensures RowStart(w, r) + w <= RowStart(w, r')
    decreases r'
  {
    if r < r' - 1 {
      RowsFollow(w, r, r' - 1);
    }
  }

  /** Where draw_mask_block keeps pixel (x,y): the visible pixels, row by row,
      without gaps. The player mask is read in the same order. */
  function SavedIndex(lay: Layout, px: int, py: int, x: int, y: int): int {
    RowStart(VisibleWidth(lay, px), y - Max(py, lay.sy)) + (x - Max(px, lay.sx))
  }

  lemma SavedIndexInside(lay: Layout, px: int, py: int, x: int, y: int)
    requires InBlock(px, py, x, y) && lay.Sees(x, y)
    ensures 0 <= SavedIndex(lay, px, py, x, y) < BLOCK_DIM * BLOCK_DIM
    ensures Restorable(lay, px, py) ==> SavedIndex(lay, px, py, x, y) == BlockIndex(px, py, x, y)
  {
    RowsFit(VisibleWidth(lay, px), y - Max(py, lay.sy));
  }

  /** Some part of the block at (px,py) is on screen. */
  predicate OnScreen(lay: Layout, px: int, py: int) {
    && px + BLOCK_DIM > lay.sx && px < lay.sx + SCROLL_X_DIM
    && py + BLOCK_DIM > lay.sy && py < lay.sy + SCROLL_Y_DIM
  }

  /** When what draw_mask_block saves is where draw_full_block looks for it: the block
      is off screen, or it is clipped neither above nor on the left, nor on the right
      unless a single row of it is visible. */
  predicate Restorable(lay: Layout, px: int, py: int) {
    OnScreen(lay, px, py) ==>
      && lay.sx <= px && lay.sy <= py
      && (px + BLOCK_DIM <= lay.sx + SCROLL_X_DIM || py + 1 >= lay.sy + SCROLL_Y_DIM)
  }

  /** The picture left on screen: the sprite where its mask is set, else what was
      there before. */
  ghost function Overlay(b0: seq<Byte>, lay: Layout, px: int, py: int, blk: seq<Byte>, sprite: seq<Byte>): (r: seq<Byte>)
    requires lay.Fits() && |b0| == lay.Size() && |blk| == |sprite| == BLOCK_DIM * BLOCK_DIM
    ensures |r| == BLOCK_DIM * BLOCK_DIM
  {
    seq(BLOCK_DIM * BLOCK_DIM, k requires 0 <= k < BLOCK_DIM * BLOCK_DIM =>
      OverlayPixel(b0, lay, px, py, blk, sprite, px + k % BLOCK_DIM, py + k / BLOCK_DIM))
  }

  ghost function OverlayPixel(b0: seq<Byte>, lay: Layout, px: int, py: int, blk: seq<Byte>, sprite: seq<Byte>,
                              x: int, y: int): Byte
    requires lay.Fits() && |b0| == lay.Size() && |blk| == |sprite| == BLOCK_DIM * BLOCK_DIM
    requires InBlock(px, py, x, y)
  {
    if !lay.Sees(x, y) then 0
    else
      SavedIndexInside(lay, px, py, x, y);
      if sprite[SavedIndex(lay, px, py, x, y)] != 0 then blk[BlockIndex(px, py, x, y)] else PixelAt(b0, lay, x, y)
  }

  /** What the picture left on screen is, pixel by pixel. */
  ghost predicate IsOverlay(shown: seq<Byte>, b0: seq<Byte>, lay: Layout, px: int, py: int, blk: seq<Byte>, sprite: seq<Byte>) {
    && lay.Fits() && |b0| == lay.Size() && |shown| == |blk| == |sprite| == BLOCK_DIM * BLOCK_DIM
    && forall x, y | InBlock(px, py, x, y) ::
         shown[BlockIndex(px, py, x, y)] == OverlayPixel(b0, lay, px, py, blk, sprite, x, y)
  }

  lemma OverlayAt(b0: seq<Byte>, lay: Layout, px: int, py: int, blk: seq<Byte>, sprite: seq<Byte>, x: int, y: int)
    requires lay.Fits() && |b0| == lay.Size() && |blk| == |sprite| == BLOCK_DIM * BLOCK_DIM
    requires InBlock(px, py, x, y)
    ensures Overlay(b0, lay, px, py, blk, sprite)[BlockIndex(px, py, x, y)]
         == OverlayPixel(b0, lay, px, py, blk, sprite, x, y)
  {
    var k := BlockIndex(px, py, x, y);
    assert k % BLOCK_DIM == x - px && k / BLOCK_DIM == y - py;
  }

  lemma OverlayIsOverlay(b0: seq<Byte>, lay: Layout, px: int, py: int, blk: seq<Byte>, sprite: seq<Byte>)
    requires lay.Fits() && |b0| == lay.Size() && |blk| == |sprite| == BLOCK_DIM * BLOCK_DIM
    ensures IsOverlay(Overlay(b0, lay, px, py, blk, sprite), b0, lay, px, py, blk, sprite)
  {
    forall x, y | InBlock(px, py, x, y)
      ensures Overlay(b0, lay, px, py, blk, sprite)[BlockIndex(px, py, x, y)]
           == OverlayPixel(b0, lay, px, py, blk, sprite, x, y)
    {
      OverlayAt(b0, lay, px, py, blk, sprite, x, y);
    }
  }

  /** The pixels of a block above `row`, and left of `col` on it, are in the save area. */
  ghost predicate SavedUpTo(b0: seq<Byte>, saved: seq<Byte>, lay: Layout, px: int, py: int, row: int, col: int) {
    && lay.Fits() && |b0| == lay.Size() && |saved| == BLOCK_DIM * BLOCK_DIM
    && forall x, y | lay.Sees(x, y) && InBlock(px, py, x, y) && (y < row || (y == row && x < col)) ::
         && 0 <= SavedIndex(lay, px, py, x, y) < |saved|
         && saved[SavedIndex(lay, px, py, x, y)] == PixelAt(b0, lay, x, y)
  }

  ghost predicate Saved(b0: seq<Byte>, saved: seq<Byte>, lay: Layout, px: int, py: int) {
    SavedUpTo(b0, saved, lay, px, py, py + BLOCK_DIM, px)
  }

  /** Saved pixels never overwrite each other. */
  lemma SavedIndexInjective(lay: Layout, px: int, py: int, x: int, y: int, x': int, y': int)
    requires InBlock(px, py, x, y) && lay.Sees(x, y) && InBlock(px, py, x', y') && lay.Sees(x', y')
    requires SavedIndex(lay, px, py, x, y) == SavedIndex(lay, px, py, x', y')
    ensures x == x' && y == y'
  {
    var w := VisibleWidth(lay, px);
    var r, r' := y - Max(py, lay.sy), y' - Max(py, lay.sy);
    if r < r' {
      RowsFollow(w, r, r');
    } else if r' < r {
      RowsFollow(w, r', r);
    }
  }

  lemma SavePixel(b0: seq<Byte>, saved: seq<Byte>, lay: Layout, px: int, py: int, row: int, col: int)
    requires SavedUpTo(b0, saved, lay, px, py, row, col)
    requires InBlock(px, py, col, row) && lay.Sees(col, row)
    ensures 0 <= SavedIndex(lay, px, py, col, row) < |saved|
    ensures SavedUpTo(b0, saved[SavedIndex(lay, px, py, col, row) := PixelAt(b0, lay, col, row)], lay, px, py, row, col + 1)
  {
    SavedIndexInside(lay, px, py, col, row);
    var k := SavedIndex(lay, px, py, col, row);
    var saved' := saved[k := PixelAt(b0, lay, col, row)];
    forall x, y | lay.Sees(x, y) && InBlock(px, py, x, y) && (y < row || (y == row && x < col + 1))
      ensures 0 <= SavedIndex(lay, px, py, x, y) < |saved|
      ensures saved'[SavedIndex(lay, px, py, x, y)] == PixelAt(b0, lay, x, y)
    {
      SavedIndexInside(lay, px, py, x, y);
      if SavedIndex(lay, px, py, x, y) == k {
        SavedIndexInjective(lay, px, py, x, y, col, row);
      }
    }
  }

  /** Drawing through the mask and painting the saved pixels back restores every
      byte of the buffer, for every block that can be restored. */
  lemma RestoreIsIdentity(b0: seq<Byte>, b1: seq<Byte>, b2: seq<Byte>, lay: Layout, px: int, py: int,
                          shown: seq<Byte>, saved: seq<Byte>)
    requires Restorable(lay, px, py)
    requires Painted(b0, b1, lay, px, py, shown) && Saved(b0, saved, lay, px, py)
    requires Painted(b1, b2, lay, px, py, saved)
    ensures b2 == b0
  {
    forall a | 0 <= a < |b0| ensures b2[a] == b0[a] {
      if a in BlockBytes(lay, px, py) {
        var x, y :| InBlock(px, py, x, y) && lay.Sees(x, y) && lay.Address(x, y) == a;
        RestorePixel(b0, b1, b2, lay, px, py, shown, saved, x, y);
      }
    }
  }

  lemma RestorePixel(b0: seq<Byte>, b1: seq<Byte>, b2: seq<Byte>, lay: Layout, px: int, py: int,
                     shown: seq<Byte>, saved: seq<Byte>, x: int, y: int)
    requires Restorable(lay, px, py)
    requires Painted(b0, b1, lay, px, py, shown) && Saved(b0, saved, lay, px, py)
    requires Painted(b1, b2, lay, px, py, saved)
    requires InBlock(px, py, x, y) && lay.Sees(x, y)
    ensures PixelAt(b2, lay, x, y) == PixelAt(b0, lay, x, y)
  {
    SavedIndexInside(lay, px, py, x, y);
    assert PixelAt(b2, lay, x, y) == saved[BlockIndex(px, py, x, y)];
    assert saved[SavedIndex(lay, px, py, x, y)] == PixelAt(b0, lay, x, y);
  }

  /** And for no other: there is a picture that is not restored, even when nothing is
      drawn over it. */
  lemma OthersAreNotRestored(lay: Layout, px: int, py: int) returns (b0: seq<Byte>, saved: seq<Byte>)
    requires lay.Fits() && !Restorable(lay, px, py)
    ensures Saved(b0, saved, lay, px, py)
    ensures forall b2 :: Painted(b0, b2, lay, px, py, saved) ==> b2 != b0
  {
    var x, y := Max(px, lay.sx), Max(py, lay.sy);
    if x == px && y == py {
      y := py + 1;
      assert RowStart(VisibleWidth(lay, px), 1) == RowStart(VisibleWidth(lay, px), 0) + VisibleWidth(lay, px);
    }
    SavedIndexInside(lay, px, py, x, y);
    lay.SeenIsInside(x, y);
    var k := SavedIndex(lay, px, py, x, y);
    assert k != BlockIndex(px, py, x, y);
    var blank := seq(lay.Size(), _ => 0);
    b0, saved := blank[lay.Address(x, y) := 1], seq(BLOCK_DIM * BLOCK_DIM, _ => 0)[k := 1];
    StorePixel(blank, lay, x, y, 1);
    forall c, r | lay.Sees(c, r) && InBlock(px, py, c, r)
      ensures 0 <= SavedIndex(lay, px, py, c, r) < |saved|
      ensures saved[SavedIndex(lay, px, py, c, r)] == PixelAt(b0, lay, c, r)
    {
      SavedIndexInside(lay, px, py, c, r);
      lay.SeenIsInside(c, r);
      if SavedIndex(lay, px, py, c, r) == k {
        SavedIndexInjective(lay, px, py, c, r, x, y);
      }
    }
    forall b2 | Painted(b0, b2, lay, px, py, saved) ensures b2 != b0 {
      assert PixelAt(b2, lay, x, y) == saved[BlockIndex(px, py, x, y)] == 0;
      assert PixelAt(b0, lay, x, y) == 1;
    }
  }

  /** Row dy of the clipped block is visible from end to end. */
  lemma RowIsVisible(lay: Layout, px: int, py: int, dy: int)
    requires VisibleWidth(lay, px) > 0
    requires 0 <= dy < Min(py + BLOCK_DIM, lay.sy + SCROLL_Y_DIM) - Max(py, lay.sy)
    ensures var x, y, w := Max(px, lay.sx), Max(py, lay.sy) + dy, VisibleWidth(lay, px);
            && InBlock(px, py, x, y) && InBlock(px, py, x + w - 1, y)
            && lay.Sees(x, y) && lay.Sees(x + w - 1, y)
            && SavedIndex(lay, px, py, x, y) == RowStart(w, dy)
  {
  }

  /** Both halves of draw_mask_block, up to a row and column. */
  ghost predicate MaskedUpTo(b0: seq<Byte>, b: seq<Byte>, saved: seq<Byte>, lay: Layout, px: int, py: int,
                             shown: seq<Byte>, row: int, col: int) {
    PaintedUpTo(b0, b, lay, px, py, shown, row, col) && SavedUpTo(b0, saved, lay, px, py, row, col)
  }

  /** Nothing of the block is seen above or left of the clipped corner, beyond the
      end of a clipped row, or below the last one. */
  lemma SkipMasked(b0: seq<Byte>, b: seq<Byte>, saved: seq<Byte>, lay: Layout, px: int, py: int, shown: seq<Byte>,
                   row: int, col: int, row': int, col': int)
    requires MaskedUpTo(b0, b, saved, lay, px, py, shown, row, col)
    requires var left, top := Max(px, lay.sx), Max(py, lay.sy);
             || (row == py && col == px && row' == top && col' == left)
             || (col == left + VisibleWidth(lay, px) && row' == row + 1 && col' == left)
             || (row == Min(py + BLOCK_DIM, lay.sy + SCROLL_Y_DIM) && col == left && row' == py + BLOCK_DIM && col' == px)
    ensures MaskedUpTo(b0, b, saved, lay, px, py, shown, row', col')
  {
  }

  // ----- lines and pages -----

  /** b shows `line` on row y of the window, and is b0 elsewhere in it. */
  ghost predicate RowDrawn(b0: seq<Byte>, b: seq<Byte>, lay: Layout, y: int, line: seq<Byte>, upTo: int) {
    && lay.Fits() && |b0| == |b| == lay.Size() && |line| == SCROLL_X_DIM
    && forall x, r | lay.Sees(x, r) ::
         PixelAt(b, lay, x, r) == if r == y && x < upTo then line[x - lay.sx] else PixelAt(b0, lay, x, r)
  }

  lemma RowBegins(b0: seq<Byte>, lay: Layout, y: int, line: seq<Byte>)
    requires lay.Fits() && |b0| == lay.Size() && |line| == SCROLL_X_DIM
    ensures RowDrawn(b0, b0, lay, y, line, lay.sx)
  {
  }

  lemma RowGoesOn(b0: seq<Byte>, b: seq<Byte>, lay: Layout, y: int, line: seq<Byte>, i: nat)
    requires i < |line| && RowDrawn(b0, b, lay, y, line, lay.sx + i) && lay.Sees(lay.sx + i, y)
    ensures 0 <= lay.Address(lay.sx + i, y) < |b|
    ensures RowDrawn(b0, b[lay.Address(lay.sx + i, y) := line[i]], lay, y, line, lay.sx + i + 1)
  {
    hide Layout.Address;
    StorePixel(b, lay, lay.sx + i, y, line[i]);
  }

  /** b shows `line` in column x of the window, and is b0 elsewhere in it. */
  ghost predicate ColumnDrawn(b0: seq<Byte>, b: seq<Byte>, lay: Layout, x: int, line: seq<Byte>, upTo: int) {
    && lay.Fits() && |b0| == |b| == lay.Size() && |line| == SCROLL_Y_DIM
    && forall c, y | lay.Sees(c, y) ::
         PixelAt(b, lay, c, y) == if c == x && y < upTo then line[y - lay.sy] else PixelAt(b0, lay, c, y)
  }

  lemma ColumnBegins(b0: seq<Byte>, lay: Layout, x: int, line: seq<Byte>)
    requires lay.Fits() && |b0| == lay.Size() && |line| == SCROLL_Y_DIM
    ensures ColumnDrawn(b0, b0, lay, x, line, lay.sy)
  {
  }

  lemma ColumnGoesOn(b0: seq<Byte>, b: seq<Byte>, lay: Layout, x: int, line: seq<Byte>, i: nat)
    requires i < |line| && ColumnDrawn(b0, b, lay, x, line, lay.sy + i) && lay.Sees(x, lay.sy + i)
    ensures 0 <= lay.Address(x, lay.sy + i) < |b|
    ensures ColumnDrawn(b0, b[lay.Address(x, lay.sy + i) := line[i]], lay, x, line, lay.sy + i + 1)
  {
    hide Layout.Address;
    StorePixel(b, lay, x, lay.sy + i, line[i]);
  }

  // ----- the module's static variables -----

  class View {
    const plane: int
    const slack: int
    const build: array<Byte>
    const mask: array<Byte>
    var off: int
    var showX: int
    var showY: int

    constructor (plane: int, slack: int)
      requires plane >= MIN_PLANE && slack >= 0
      ensures Valid() && fresh(build) && fresh(mask)
      ensures showX == 0 && showY == 0 && this.plane == plane && this.slack == slack
    {
      this.plane, this.slack := plane, slack;
      build := new Byte[4 * plane + 1 + slack](_ => 0);
      mask := new Byte[BLOCK_DIM * BLOCK_DIM](_ => 0);
      off, showX, showY := slack / 2, 0, 0;
    }

    function Lay(): Layout
      reads this
    {
      Layout(plane, slack, off, showX, showY)
    }

    ghost predicate Valid()
      reads this
    {
      && Lay().Fits() && build.Length == Lay().Size() && mask.Length == BLOCK_DIM * BLOCK_DIM
      && mask != build
    }

    /** set_view_window. The distance test uses old_y - 218 on one side, because
        SCROLL_Y_DIM is not parenthesised; a jump of 182 to 217 lines up is then
        copied although nothing is shared. */
    method SetViewWindow(x: int, y: int)
      requires Valid()
      modifies this`off, this`showX, this`showY, build
      ensures Valid() && showX == x && showY == y
      ensures Retained(old(build[..]), old(Lay()), build[..], Lay())
    {
      hide Retained, SharedSpan;
      var oldX, oldY, lay := showX, showY, Lay();
      showX, showY := x, y;
      if off + x / 4 + y * SCROLL_X_WIDTH >= 0
         && off + 3 * plane + (x + SCROLL_X_DIM - 1) / 4 + (y + SCROLL_Y_DIM - 1) * SCROLL_X_WIDTH < build.Length {
        NothingMoves(build[..], lay, x, y);
        return;
      }
      if x <= oldX - SCROLL_X_DIM || x >= oldX + SCROLL_X_DIM || y <= oldY - 200 - 18 || y >= oldY + SCROLL_Y_DIM {
        off := slack / 2 - x / 4 - y * SCROLL_X_WIDTH;
        assert Lay() == Recentred(lay, x, y);
        NothingShared(build[..], lay, x, y);
        return;
      }
      var s := SharedSpan(lay, x, y);
      SpanIsInside(lay, x, y);
      off := slack / 2 - x / 4 - y * SCROLL_X_WIDTH;
      assert Lay() == Recentred(lay, x, y);
      CopyStretch(build, lay.off + s.start, off + s.start, s.length);
      CopyRetains(old(build[..]), lay, build[..], x, y);
    }
  
    /** The block at (px,py) is completely off screen. */
    predicate OffScreen(px: int, py: int)
      reads this
    {
      || px + BLOCK_DIM <= showX || px >= showX + SCROLL_X_DIM
      || py + BLOCK_DIM <= showY || py >= showY + SCROLL_Y_DIM
    }

    /** draw_full_block: paints exactly the on-screen part of the block. */
    method DrawFullBlock(px: int, py: int, blk: seq<Byte>)
      requires Valid() && |blk| == BLOCK_DIM * BLOCK_DIM
      modifies build
      ensures Painted(old(build[..]), build[..], Lay(), px, py, blk)
    {
      if OffScreen(px, py) {
        return;
      }
      ghost var b0, lay := build[..], Lay();
      var xLeft := if showX - px < 0 then 0 else showX - px;
      var xRight := if showX + SCROLL_X_DIM - px > BLOCK_DIM then BLOCK_DIM else showX + SCROLL_X_DIM - px;
      var posX, at := px + xLeft, xLeft;
      xRight := xRight - xLeft;
      xLeft := BLOCK_DIM - xRight;
      var yTop := if showY - py < 0 then 0 else showY - py;
      var yBottom := if showY + SCROLL_Y_DIM - py > BLOCK_DIM then BLOCK_DIM else showY + SCROLL_Y_DIM - py;
      var posY := py + yTop;
      at := at + yTop * BLOCK_DIM;
      yBottom := yBottom - yTop;

      ghost var left, top := posX, posY;
      SkipColumns(b0, b0, lay, px, py, blk, py, px, posY, posX);
      var dy := 0;
      while dy < yBottom
        invariant 0 <= dy <= yBottom && posX == left && posY == top + dy
        invariant at == BlockIndex(px, py, posX, posY)
        invariant PaintedUpTo(b0, build[..], lay, px, py, blk, posY, posX)
      {
        DrawRow(posX, posY, xRight, px, py, blk, at, b0);
        at := at + xRight + xLeft;
        SkipColumns(b0, build[..], lay, px, py, blk, posY, posX + xRight, posY + 1, posX);
        dy, posY := dy + 1, posY + 1;
      }
      SkipColumns(b0, build[..], lay, px, py, blk, posY, posX, py + BLOCK_DIM, px);
    }

    /** One clipped row of a block: the inner loop of draw_full_block. */
    method DrawRow(x: int, y: int, count: int, ghost px: int, ghost py: int, blk: seq<Byte>, from: int, ghost b0: seq<Byte>)
      requires Valid() && count >= 0
      requires count > 0 ==> InBlock(px, py, x, y) && InBlock(px, py, x + count - 1, y)
      requires count > 0 ==> Lay().Sees(x, y) && Lay().Sees(x + count - 1, y)
      requires from == BlockIndex(px, py, x, y)
      requires PaintedUpTo(b0, build[..], Lay(), px, py, blk, y, x)
      modifies build
      ensures PaintedUpTo(b0, build[..], Lay(), px, py, blk, y, x + count)
    {
      var posX, at, dx := x, from, 0;
      while dx < count
        invariant 0 <= dx <= count && posX == x + dx && at == BlockIndex(px, py, posX, y)
        invariant PaintedUpTo(b0, build[..], Lay(), px, py, blk, y, posX)
      {
        PaintPixel(b0, build[..], Lay(), px, py, blk, y, posX);
        ghost var b := build[..];
        build[off + posX / 4 + y * SCROLL_X_WIDTH + Lay().PlaneOf(posX)] := blk[at];
        assert build[..] == b[Lay().Address(posX, y) := blk[BlockIndex(px, py, posX, y)]];
        dx, posX, at := dx + 1, posX + 1, at + 1;
      }
    }
  
    /** draw_mask_block: saves the on-screen pixels of the block in g_mask and
        draws the sprite over them. */
    method DrawMaskBlock(px: int, py: int, blk: seq<Byte>, sprite: seq<Byte>)
      requires Valid() && |blk| == |sprite| == BLOCK_DIM * BLOCK_DIM
      modifies build, mask
      ensures Painted(old(build[..]), build[..], Lay(), px, py, Overlay(old(build[..]), Lay(), px, py, blk, sprite))
      ensures Saved(old(build[..]), mask[..], Lay(), px, py)
    {
      ghost var b0, lay := build[..], Lay();
      ghost var shown := Overlay(b0, lay, px, py, blk, sprite);
      OverlayIsOverlay(b0, lay, px, py, blk, sprite);
      if OffScreen(px, py) {
        return;
      }
      var xLeft := if showX - px < 0 then 0 else showX - px;
      var xRight := if showX + SCROLL_X_DIM - px > BLOCK_DIM then BLOCK_DIM else showX + SCROLL_X_DIM - px;
      var posX, at := px + xLeft, xLeft;
      xRight := xRight - xLeft;
      xLeft := BLOCK_DIM - xRight;
      var yTop := if showY - py < 0 then 0 else showY - py;
      var yBottom := if showY + SCROLL_Y_DIM - py > BLOCK_DIM then BLOCK_DIM else showY + SCROLL_Y_DIM - py;
      var posY := py + yTop;
      at := at + yTop * BLOCK_DIM;
      yBottom := yBottom - yTop;
      SkipMasked(b0, b0, mask[..], lay, px, py, shown, py, px, posY, posX);
      DrawMaskRows(posX, posY, xRight, yBottom, xLeft, lay, px, py, blk, sprite, at, b0, shown);
      SkipMasked(b0, build[..], mask[..], lay, px, py, shown, posY + yBottom, posX, py + BLOCK_DIM, px);
    }

    /** The clipped rows of a masked block: the outer loop of draw_mask_block. */
    method DrawMaskRows(x: int, y: int, width: int, height: int, skip: int, ghost lay: Layout, ghost px: int, ghost py: int,
                        blk: seq<Byte>, sprite: seq<Byte>, from: int, ghost b0: seq<Byte>, ghost shown: seq<Byte>)
      requires Valid() && lay == Lay() && |blk| == |sprite| == BLOCK_DIM * BLOCK_DIM
      requires x == Max(px, lay.sx) && y == Max(py, lay.sy) && from == BlockIndex(px, py, x, y)
      requires width == VisibleWidth(lay, px) > 0 && skip == BLOCK_DIM - width
      requires height == Min(py + BLOCK_DIM, lay.sy + SCROLL_Y_DIM) - y > 0
      requires IsOverlay(shown, b0, lay, px, py, blk, sprite)
      requires MaskedUpTo(b0, build[..], mask[..], lay, px, py, shown, y, x)
      modifies build, mask
      ensures MaskedUpTo(b0, build[..], mask[..], lay, px, py, shown, y + height, x)
    {
      hide MaskedUpTo, IsOverlay, Saved, Painted;
      var posY, dy, at, m := y, 0, from, 0;
      while dy < height
        invariant 0 <= dy <= height && posY == y + dy && at == from + dy * BLOCK_DIM && m == RowStart(width, dy)
        invariant MaskedUpTo(b0, build[..], mask[..], lay, px, py, shown, posY, x)
      {
        RowIsVisible(lay, px, py, dy);
        DrawMaskRow(x, posY, width, lay, px, py, blk, sprite, at, m, b0, shown);
        at := at + width + skip;
        m := m + width;
        dy, posY := dy + 1, posY + 1;
      }
    }

    /** One clipped row of a masked block: the inner loop of draw_mask_block. */
    method DrawMaskRow(x: int, y: int, count: int, ghost lay: Layout, ghost px: int, ghost py: int,
                       blk: seq<Byte>, sprite: seq<Byte>,
                       from: int, fromMask: int, ghost b0: seq<Byte>, ghost shown: seq<Byte>)
      requires Valid() && lay == Lay() && |blk| == |sprite| == BLOCK_DIM * BLOCK_DIM
      requires x == Max(px, lay.sx) && count == VisibleWidth(lay, px) > 0
      requires InBlock(px, py, x, y) && InBlock(px, py, x + count - 1, y)
      requires lay.Sees(x, y) && lay.Sees(x + count - 1, y)
      requires from == BlockIndex(px, py, x, y) && fromMask == SavedIndex(lay, px, py, x, y)
      requires IsOverlay(shown, b0, lay, px, py, blk, sprite)
      requires MaskedUpTo(b0, build[..], mask[..], lay, px, py, shown, y, x)
      modifies build, mask
      ensures MaskedUpTo(b0, build[..], mask[..], lay, px, py, shown, y + 1, x)
    {
      hide MaskedUpTo, IsOverlay;
      var posX, at, m, dx := x, from, fromMask, 0;
      while dx < count
        invariant 0 <= dx <= count && posX == x + dx && at == from + dx && m == fromMask + dx
        invariant MaskedUpTo(b0, build[..], mask[..], lay, px, py, shown, y, posX)
      {
        DrawMaskPixel(posX, y, lay, px, py, blk, sprite, at, m, b0, shown);
        dx, posX, at, m := dx + 1, posX + 1, at + 1, m + 1;
      }
      SkipMasked(b0, build[..], mask[..], lay, px, py, shown, y, x + count, y + 1, x);
    }

    method DrawMaskPixel(x: int, y: int, ghost lay: Layout, ghost px: int, ghost py: int, blk: seq<Byte>, sprite: seq<Byte>,
                         at: int, m: int, ghost b0: seq<Byte>, ghost shown: seq<Byte>)
      requires Valid() && lay == Lay() && |blk| == |sprite| == BLOCK_DIM * BLOCK_DIM
      requires InBlock(px, py, x, y) && lay.Sees(x, y)
      requires at == BlockIndex(px, py, x, y) && m == SavedIndex(lay, px, py, x, y)
      requires IsOverlay(shown, b0, lay, px, py, blk, sprite)
      requires MaskedUpTo(b0, build[..], mask[..], lay, px, py, shown, y, x)
      modifies build, mask
      ensures MaskedUpTo(b0, build[..], mask[..], lay, px, py, shown, y, x + 1)
    {
      ghost var b, saved := build[..], mask[..];
      SavePixel(b0, saved, lay, px, py, y, x);
      PaintPixel(b0, b, lay, px, py, shown, y, x);
      var a := off + x / 4 + y * SCROLL_X_WIDTH + Lay().PlaneOf(x);
      assert build[a] == PixelAt(b, lay, x, y) == PixelAt(b0, lay, x, y);
      mask[m] := build[a];
      assert mask[..] == saved[m := PixelAt(b0, lay, x, y)];
      if sprite[m] != 0 {
        build[a] := blk[at];
      }
      assert build[..] == b[a := shown[BlockIndex(px, py, x, y)]];
    }
  
    /** The store loop of draw_horiz_line, for row y of the logical view. */
    method StoreHorizLine(y: int, line: seq<Byte>)
      requires Valid() && showY <= y < showY + SCROLL_Y_DIM && |line| == SCROLL_X_DIM
      modifies build
      ensures RowDrawn(old(build[..]), build[..], Lay(), y, line, showX + SCROLL_X_DIM)
    {
      hide RowDrawn;
      ghost var b0, lay := build[..], Lay();
      RowBegins(b0, lay, y, line);
      var addr, pOff, i := off + showX / 4 + y * SCROLL_X_WIDTH, 3 - showX % 4, 0;
      while i < SCROLL_X_DIM
        invariant 0 <= i <= SCROLL_X_DIM
        invariant addr == off + (showX + i) / 4 + y * SCROLL_X_WIDTH && pOff == 3 - (showX + i) % 4
        invariant RowDrawn(b0, build[..], lay, y, line, showX + i)
      {
        lay.PlanesAreReversed(showX + i);
        RowGoesOn(b0, build[..], lay, y, line, i);
        ghost var b := build[..];
        build[addr + pOff * plane] := line[i];
        assert build[..] == b[lay.Address(showX + i, y) := line[i]];
        pOff := pOff - 1;
        if pOff < 0 {
          pOff := 3;
          addr := addr + 1;
        }
        i := i + 1;
      }
    }

    /** The store loop of draw_vert_line, for column x of the logical view. */
    method StoreVertLine(x: int, line: seq<Byte>)
      requires Valid() && showX <= x < showX + SCROLL_X_DIM && |line| == SCROLL_Y_DIM
      modifies build
      ensures ColumnDrawn(old(build[..]), build[..], Lay(), x, line, showY + SCROLL_Y_DIM)
    {
      hide ColumnDrawn;
      ghost var b0, lay := build[..], Lay();
      ColumnBegins(b0, lay, x, line);
      var addr := off + x / 4 + showY * SCROLL_X_WIDTH;
      var pOff := 3 - x % 4;
      lay.PlanesAreReversed(x);
      var i := 0;
      while i < SCROLL_Y_DIM
        invariant 0 <= i <= SCROLL_Y_DIM
        invariant addr == off + x / 4 + (showY + i) * SCROLL_X_WIDTH
        invariant ColumnDrawn(b0, build[..], lay, x, line, showY + i)
      {
        ColumnGoesOn(b0, build[..], lay, x, line, i);
        ghost var b := build[..];
        build[addr + pOff * plane] := line[i];
        assert build[..] == b[lay.Address(x, showY + i) := line[i]];
        addr := addr + SCROLL_X_WIDTH;
        i := i + 1;
      }
    }
  }
}
