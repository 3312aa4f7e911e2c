// The build buffer of mp2/modex.c as a picture: four pixel planes, stored in
// reverse order in one array, showing a 320x182 window of the logical view.
module ViewLayout {
  import opened Bytes

  const SCROLL_X_DIM := 320
  const SCROLL_Y_DIM := 182
  const SCROLL_X_WIDTH := 80

  /** The smallest plane that holds the scrolling region. */
  const MIN_PLANE := SCROLL_X_WIDTH * SCROLL_Y_DIM

  /** What SCROLL_SIZE expands to, with SCROLL_Y_DIM unparenthesised. */
  const SCROLL_SIZE := SCROLL_X_WIDTH * 200 - 18

  const BLOCK_DIM := 12

  /** Where the window lies in the build buffer: img3_off, show_x and show_y, for
      planes of `plane` bytes and `slack` spare bytes at the end of the buffer. */
  datatype Layout = Layout(plane: int, slack: int, off: int, sx: int, sy: int) {

    /** BUILD_BUF_SIZE */
    function Size(): int {
      4 * plane + 1 + slack
    }

    /** BUILD_BASE_INIT */
    function Base(): int {
      slack / 2
    }

    predicate Roomy() {
      plane >= MIN_PLANE && slack >= 0
    }

    /** The window lies inside the buffer: the test set_view_window makes. */
    predicate Fits() {
      && Roomy()
      && off + sx / 4 + sy * SCROLL_X_WIDTH >= 0
      && off + 3 * plane + (sx + SCROLL_X_DIM - 1) / 4 + (sy + SCROLL_Y_DIM - 1) * SCROLL_X_WIDTH < Size()
    }

    /** Pixel (x,y) is inside the window. */
    predicate Sees(x: int, y: int) {
      sx <= x < sx + SCROLL_X_DIM && sy <= y < sy + SCROLL_Y_DIM
    }

    /** The start of the plane that holds column x: plane 3 comes first and plane
        0 last, (3 - (x & 3)) planes from the start. */
    function PlaneOf(x: int): int {
      if x % 4 == 0 then 3 * plane else if x % 4 == 1 then 2 * plane else if x % 4 == 2 then plane else 0
    }

    /** The offset of pixel (x,y) in the build buffer. */
    function Address(x: int, y: int): int {
      off + x / 4 + y * SCROLL_X_WIDTH + PlaneOf(x)
    }

    lemma PlanesAreReversed(x: int)
      ensures PlaneOf(x) == (3 - x % 4) * plane
    {
    }

    /** Every pixel of a window that fits is a byte of the buffer. */
    lemma SeenIsInside(x: int, y: int)
      requires Fits() && Sees(x, y)
      ensures 0 <= Address(x, y) < Size()
    {
    }

    /** Two pixels of one window never share a byte, even when a plane has no
        spare byte at all. */
    lemma AddressInjective(x: int, y: int, x': int, y': int)
      requires Roomy() && Sees(x, y) && Sees(x', y') && Address(x, y) == Address(x', y')
      ensures x == x' && y == y'
    {
      PlaneBand(x, y);
      PlaneBand(x', y');
    }

    /** The bytes the window uses in one plane: 14560 in a row, shifted by one in
        the planes below the window's first column. */
    lemma PlaneBand(x: int, y: int)
      requires Sees(x, y)
      ensures var shift := if x % 4 < sx % 4 then 1 else 0;
              var q := x / 4 - sx / 4 + (y - sy) * SCROLL_X_WIDTH;
              && shift <= x / 4 - sx / 4 < SCROLL_X_WIDTH + shift
              && shift <= q < MIN_PLANE + shift
              && Address(x, y) == off + sx / 4 + sy * SCROLL_X_WIDTH + q + PlaneOf(x)
    {
    }
  }

  /** The program's own buffer: its planes are larger than they have to be, and the
      window it starts with fits. */
  lemma ProgramLayoutFits()
    ensures SCROLL_SIZE == 15982 && Layout(SCROLL_SIZE, 20000, 0, 0, 0).Roomy()
    ensures var lay := Layout(SCROLL_SIZE, 20000, 0, 0, 0); lay.(off := lay.Base()).Fits()
  {
  }

  /** The bound on the plane size is exact: with one byte less, two pixels of the
      window at the origin share a byte. */
  lemma SmallerPlanesCollide(lay: Layout) returns (x: int, y: int, x': int, y': int)
    requires 0 < lay.plane < MIN_PLANE && lay.sx == 0 && lay.sy == 0
    ensures lay.Sees(x, y) && lay.Sees(x', y') && (x, y) != (x', y')
    ensures lay.Address(x, y) == lay.Address(x', y')
  {
    x, y := 4 * (lay.plane % SCROLL_X_WIDTH) + 3, lay.plane / SCROLL_X_WIDTH;
    x', y' := 2, 0;
  }

  /** Why the planes are reversed: laid out in forward order, tight planes collide
      as soon as the window starts one pixel to the right of a group of four. */
  lemma ForwardPlanesCollide(off: int, sy: int)
    ensures var forward := (x: int, y: int) => off + x / 4 + y * SCROLL_X_WIDTH + (x % 4) * MIN_PLANE;
            forward(320, sy + SCROLL_Y_DIM - 1) == forward(1, sy)
  {
  }

  /** The pixel a buffer shows at (x,y). */
  function PixelAt(b: seq<Byte>, lay: Layout, x: int, y: int): Byte
    requires lay.Fits() && lay.Sees(x, y) && |b| == lay.Size()
  {
    lay.SeenIsInside(x, y);
    b[lay.Address(x, y)]
  }

  /** Storing a byte at a pixel's address changes that pixel and no other. */
  lemma StorePixel(b: seq<Byte>, lay: Layout, x: int, y: int, v: Byte)
    requires lay.Fits() && lay.Sees(x, y) && |b| == lay.Size()
    ensures 0 <= lay.Address(x, y) < |b|
    ensures forall x', y' | lay.Sees(x', y') ::
      PixelAt(b[lay.Address(x, y) := v], lay, x', y') == if x' == x && y' == y then v else PixelAt(b, lay, x', y')
  {
    lay.SeenIsInside(x, y);
    forall x', y' | lay.Sees(x', y')
      ensures PixelAt(b[lay.Address(x, y) := v], lay, x', y') ==
              if x' == x && y' == y then v else PixelAt(b, lay, x', y')
    {
      StoreOnePixel(b, lay, x, y, v, x', y');
    }
  }

  lemma StoreOnePixel(b: seq<Byte>, lay: Layout, x: int, y: int, v: Byte, x': int, y': int)
    requires lay.Fits() && lay.Sees(x, y) && lay.Sees(x', y') && |b| == lay.Size()
    requires 0 <= lay.Address(x, y) < |b|
    ensures PixelAt(b[lay.Address(x, y) := v], lay, x', y') ==
            if x' == x && y' == y then v else PixelAt(b, lay, x', y')
  {
    lay.SeenIsInside(x', y');
    if lay.Address(x', y') == lay.Address(x, y) {
      lay.AddressInjective(x', y', x, y);
    }
  }

  /** Pixel (x,y) belongs to the block drawn at (px,py). */
  predicate InBlock(px: int, py: int, x: int, y: int) {
    px <= x < px + BLOCK_DIM && py <= y < py + BLOCK_DIM
  }

  function BlockIndex(px: int, py: int, x: int, y: int): int {
    (y - py) * BLOCK_DIM + (x - px)
  }

  /** The bytes a block covers, as far as it is on screen. */
  ghost function BlockBytes(lay: Layout, px: int, py: int): set<int> {
    set x, y | px <= x < px + BLOCK_DIM && py <= y < py + BLOCK_DIM && lay.Sees(x, y) :: lay.Address(x, y)
  }
}
