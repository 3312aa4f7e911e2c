// show_screen of mp2/modex.c: from the build buffer to one of two video pages.
module Display {
  import opened Bytes
  import opened ViewLayout
  import opened BuildBuffer

  const VIDEO_SIZE := 65536
  const FIRST_PAGE := 0x05A0
  const PAGE_FLIP := 0x4000
  const COPY_LENGTH := 16000

  /** The page shown next: bit 14 of the offset toggled. */
  function OtherPage(page: int): int {
    if page >= PAGE_FLIP then page - PAGE_FLIP else page + PAGE_FLIP
  }

  /** The offset of a pixel of the window within its plane of the page. */
  function PageOffset(lay: Layout, x: int, y: int): (r: int)
    ensures lay.Sees(x, y) ==> 0 <= r < MIN_PLANE
  {
    (y - lay.sy) * SCROLL_X_WIDTH + (x - lay.sx) / 4
  }

  /** Where show_screen finds the byte for offset 0 of video plane p. */
  function SourceOf(lay: Layout, p: int): int {
    var first := 3 - lay.sx % 4;
    lay.off + lay.sx / 4 + lay.sy * SCROLL_X_WIDTH
    + ((first - p + 4) % 4) * lay.plane + (if first < p then 1 else 0)
  }

  /** For every alignment of the window, video plane p is fed from the pixels whose
      column in the window is p modulo four. */
  lemma SourceIsPixel(lay: Layout, x: int, y: int)
    requires lay.Sees(x, y)
    ensures SourceOf(lay, (x - lay.sx) % 4) + PageOffset(lay, x, y) == lay.Address(x, y)
  {
    var p, s, first := (x - lay.sx) % 4, lay.sx % 4, 3 - lay.sx % 4;
    assert x % 4 == (s + p) % 4;
    assert (first - p + 4) % 4 == 3 - x % 4;
    lay.PlanesAreReversed(x);
  }

  /** The two pages, and the status bar below them, do not overlap: drawing one
      page never disturbs the other. */
  lemma PagesAreApart(page: int, a: int)
    requires page == FIRST_PAGE || page == FIRST_PAGE + PAGE_FLIP
    requires page <= a < page + COPY_LENGTH
    ensures FIRST_PAGE <= a < VIDEO_SIZE && OtherPage(OtherPage(page)) == page
    ensures !(OtherPage(page) <= a < OtherPage(page) + COPY_LENGTH)
  {
  }

  class Screen {
    const video: array2<Byte>
    var targetImg: int

    constructor ()
      ensures Valid() && fresh(video)
    {
      video := new Byte[4, VIDEO_SIZE]((p, a) => 0);
      targetImg := FIRST_PAGE;
    }

    ghost predicate Valid()
      reads this
    {
      && video.Length0 == 4 && video.Length1 == VIDEO_SIZE
      && (targetImg == FIRST_PAGE || targetImg == FIRST_PAGE + PAGE_FLIP)
    }

    /** copy_image: 16000 bytes into one plane. The rows below the scrolling region
        may come from past the end of the buffer; those bytes are arbitrary. */
    method CopyImage(build: array<Byte>, src: int, p: int)
      requires Valid() && 0 <= p < 4
      modifies video
      ensures forall a | targetImg <= a < targetImg + COPY_LENGTH && 0 <= src + (a - targetImg) < build.Length ::
        video[p, a] == build[src + (a - targetImg)]
      ensures forall q, a | 0 <= q < 4 && 0 <= a < VIDEO_SIZE && !(q == p && targetImg <= a < targetImg + COPY_LENGTH) ::
        video[q, a] == old(video[q, a])
    {
      var k := 0;
      while k < COPY_LENGTH
        invariant 0 <= k <= COPY_LENGTH
        invariant forall a | targetImg <= a < targetImg + k && 0 <= src + (a - targetImg) < build.Length ::
          video[p, a] == build[src + (a - targetImg)]
        invariant forall q, a | 0 <= q < 4 && 0 <= a < VIDEO_SIZE && !(q == p && targetImg <= a < targetImg + COPY_LENGTH) ::
          video[q, a] == old(video[q, a])
      {
        if 0 <= src + k < build.Length {
          video[p, targetImg + k] := build[src + k];
        } else {
          video[p, targetImg + k] := *;
        }
        k := k + 1;
      }
    }

    /** The byte of the page that shows pixel (x,y). */
    function ShownAt(lay: Layout, x: int, y: int): Byte
      requires Valid() && lay.Sees(x, y)
      reads this, video
    {
      video[(x - lay.sx) % 4, targetImg + PageOffset(lay, x, y)]
    }

    /** show_screen: pixel (show_x + c, show_y + r) appears at plane c mod 4, offset
        80 r + c / 4 of the other page; everything outside that page is untouched. */
    method ShowScreen(view: View)
      requires Valid() && view.Valid()
      modifies this, video
      ensures Valid() && targetImg == OtherPage(old(targetImg))
      ensures forall x, y | view.Lay().Sees(x, y) ::
        ShownAt(view.Lay(), x, y) == PixelAt(view.build[..], view.Lay(), x, y)
      ensures forall q, a | 0 <= q < 4 && 0 <= a < VIDEO_SIZE && !(targetImg <= a < targetImg + COPY_LENGTH) ::
        video[q, a] == old(video[q, a])
    {
      var first := 3 - view.showX % 4;
      targetImg := OtherPage(targetImg);
      var addr := view.off + view.showX / 4 + view.showY * SCROLL_X_WIDTH;
      ghost var lay := view.Lay();
      var i := 0;
      while i < 4
        invariant 0 <= i <= 4 && Valid() && targetImg == OtherPage(old(targetImg))
        invariant forall x, y | lay.Sees(x, y) && (x - lay.sx) % 4 < i ::
          ShownAt(lay, x, y) == PixelAt(view.build[..], lay, x, y)
        invariant forall q, a | 0 <= q < 4 && 0 <= a < VIDEO_SIZE && !(targetImg <= a < targetImg + COPY_LENGTH) ::
          video[q, a] == old(video[q, a])
      {
        ShowPlane(view, addr + ((first - i + 4) % 4) * view.plane + (if first < i then 1 else 0), i);
        i := i + 1;
      }
    }

    method ShowPlane(view: View, src: int, i: int)
      requires Valid() && view.Valid() && 0 <= i < 4 && src == SourceOf(view.Lay(), i)
      modifies video
      ensures forall x, y | view.Lay().Sees(x, y) ::
        ShownAt(view.Lay(), x, y) ==
          if (x - view.showX) % 4 == i then PixelAt(view.build[..], view.Lay(), x, y) else old(ShownAt(view.Lay(), x, y))
      ensures forall q, a | 0 <= q < 4 && 0 <= a < VIDEO_SIZE && !(targetImg <= a < targetImg + COPY_LENGTH) ::
        video[q, a] == old(video[q, a])
    {
      hide Layout.Address, SourceOf, PageOffset;
      CopyImage(view.build, src, i);
      ghost var lay := view.Lay();
      forall x, y | lay.Sees(x, y)
        ensures ShownAt(lay, x, y) == if (x - lay.sx) % 4 == i then PixelAt(view.build[..], lay, x, y)
                                      else old(ShownAt(lay, x, y))
      {
        SourceIsPixel(lay, x, y);
        lay.SeenIsInside(x, y);
      }
    }
  }
}
