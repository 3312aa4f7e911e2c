// Three terminals on one video page and one keyboard: mp3/student-distrib/term.c with
// the cursor and video pointer of lib.c.
module Multiplexer {
  import opened Bytes
  import opened Terminal
  import opened LineInput
  import opened KernelLimits
  import opened Limits

  /** What can happen to the terminals: a process of a group writes, or makes one of the
      three steps of a read; the user types a key, clears the screen or switches to
      a group. */
  datatype Event = Wrote(group: int, text: seq<Byte>) | ReadTaken(group: int) | ReadArmed(group: int) | ReadEnded(group: int)
                 | KeyTyped(c: Byte) | ScreenCleared | Switched(group: int)

  predicate ValidGroup(g: int) {
    0 <= g < MAX_PROCESS_GROUPS
  }

  predicate ValidEvent(e: Event) {
    e.Wrote? || e.ReadTaken? || e.ReadArmed? || e.ReadEnded? ==> ValidGroup(e.group)
  }

  /** What an event is to group h while group v is visible: keys go to v. */
  function Share(e: Event, v: int, h: int): (share: seq<Local>)
    ensures |share| <= 1
  {
    match e
    case Wrote(g, text) => if g == h then [Out(text)] else []
    case ReadTaken(g) => if g == h then [ReadTakes] else []
    case ReadArmed(g) => if g == h then [ReadArms] else []
    case ReadEnded(g) => if g == h then [ReadEnds] else []
    case KeyTyped(c) => if v == h then [In(c)] else []
    case ScreenCleared => if v == h then [Clear] else []
    case Switched(g) => []
  }

  /** The visible group after the events. */
  function VisibleAfter(events: seq<Event>, v: int): int {
    if events == [] then v
    else
      var e := events[|events| - 1];
      if e.Switched? && ValidGroup(e.group) then e.group else VisibleAfter(events[..|events| - 1], v)
  }

  /** What the events are to group h, when group v is visible at first. */
  ghost function LocalTo(events: seq<Event>, v: int, h: int): seq<Local> {
    if events == [] then []
    else
      var n := |events| - 1;
      LocalTo(events[..n], v, h) + Share(events[n], VisibleAfter(events[..n], v), h)
  }

  lemma NoEvents(events: seq<Event>, v: int, h: int)
    requires events == []
    ensures LocalTo(events, v, h) == [] && VisibleAfter(events, v) == v
  {
  }

  lemma NextEvent(events: seq<Event>, k: nat, v: int, h: int)
    requires k < |events|
    ensures LocalTo(events[..k + 1], v, h) == LocalTo(events[..k], v, h) + Share(events[k], VisibleAfter(events[..k], v), h)
    ensures VisibleAfter(events[..k + 1], v) ==
      if events[k].Switched? && ValidGroup(events[k].group) then events[k].group else VisibleAfter(events[..k], v)
  {
    assert events[..k + 1][..k] == events[..k];
  }

  /** One more event played, or none. */
  lemma PlayShare(t: Term, es: seq<Local>, share: seq<Local>)
    requires t.Valid() && |share| <= 1
    ensures Play(t, es + share) == if share == [] then Play(t, es) else Step(Play(t, es), share[0])
  {
    if share == [] {
      assert es + share == es;
    } else {
      assert share == [share[0]];
      PlayNext(t, es, share[0]);
    }
  }

  lemma TabBegins(s: Screen, line: seq<Byte>)
    requires s.Valid() && |line| < TERM_BUFFER_SIZE - 1
    ensures Write(s, Spaces(0)) == s && line + Spaces(0) == line && TabWidth(|line|) > 0
  {
    assert Spaces(0) == [];
  }

  lemma SpaceMore(s: Screen, i: nat)
    requires s.Valid()
    ensures Write(s, Spaces(i + 1)) == PrintChar(Write(s, Spaces(i)), SPACE)
    ensures Spaces(i + 1) == Spaces(i) + [SPACE]
  {
    assert Spaces(i + 1)[..i] == Spaces(i);
  }

  lemma WriteOne(s: Screen, c: Byte)
    requires s.Valid()
    ensures Write(s, [c]) == PrintChar(s, c)
  {
    assert [c][..0] == [];
  }

  /** The least common multiple of 80 and 25. */
  const ROW_CYCLE := 400

  /** Reducing a row modulo 80 is reducing it modulo 25 exactly for the first 25 rows
      of every 400; row 30, for one, stays below the screen. */
  lemma RowAsCommented(y: nat)
    ensures y % NUM_COLS == y % NUM_ROWS <==> y % ROW_CYCLE < NUM_ROWS
    ensures 30 % NUM_COLS != 30 % NUM_ROWS && 30 % NUM_COLS >= NUM_ROWS
  {
    var q, s := y / ROW_CYCLE, y % ROW_CYCLE;
    WithinCycle(s);
    OnlyRest(y, NUM_COLS, 5 * q + s / NUM_COLS, s % NUM_COLS);
    OnlyRest(y, NUM_ROWS, 16 * q + s / NUM_ROWS, s % NUM_ROWS);
  }

  /** What set_cursor makes of a place. */
  lemma PlaceTaken(x: nat, y: nat)
    ensures NUM_COLS > 0 && NUM_ROWS > 0 && ROW_CYCLE > 0
    ensures x < NUM_COLS ==> x % NUM_COLS == x
    ensures y < NUM_ROWS ==> y % NUM_COLS == y
    ensures 0 <= x % NUM_COLS < NUM_COLS && (x - x % NUM_COLS) % NUM_COLS == 0
    ensures 0 <= y % NUM_COLS < NUM_COLS && (y - y % NUM_COLS) % NUM_COLS == 0
    ensures y % NUM_COLS == y % NUM_ROWS <==> y % ROW_CYCLE < NUM_ROWS
  {
    RowAsCommented(y);
    OnlyRest(x - x % NUM_COLS, NUM_COLS, x / NUM_COLS, 0);
    OnlyRest(y - y % NUM_COLS, NUM_COLS, y / NUM_COLS, 0);
  }

  lemma WithinCycle(s: nat)
    requires s < ROW_CYCLE
    ensures s % NUM_COLS == s % NUM_ROWS <==> s < NUM_ROWS
  {
    var a, b := s / NUM_COLS, s / NUM_ROWS;
    assert s == NUM_COLS * a + s % NUM_COLS && s == NUM_ROWS * b + s % NUM_ROWS && 0 <= a < 5;
    if s % NUM_COLS == s % NUM_ROWS {
      assert 16 * a == 5 * b;
      assert a == 0 && b == 0;
    }
  }

  /** A blank page of video memory. */
  method NewPage() returns (page: array<Byte>)
    ensures fresh(page) && page.Length == PAGE_SIZE && page[..] == BlankPage()
  {
    page := new Byte[PAGE_SIZE](i => BlankAt(i));
  }

  method NewPages() returns (a: array<Byte>, b: array<Byte>, c: array<Byte>, e: array<Byte>)
    ensures fresh(a) && fresh(b) && fresh(c) && fresh(e)
    ensures a != b && a != c && a != e && b != c && b != e && c != e
    ensures a.Length == b.Length == c.Length == e.Length == PAGE_SIZE
    ensures a[..] == b[..] == c[..] == e[..] == BlankPage()
  {
    hide BlankPage;
    a := NewPage();
    b := NewPage();
    c := NewPage();
    e := NewPage();
  }

  /** One value for each group. */
  method OfEach<T>(v: T) returns (a: array<T>)
    ensures fresh(a) && a.Length == MAX_PROCESS_GROUPS && a[..] == [v, v, v]
  {
    a := new T[MAX_PROCESS_GROUPS](_ => v);
  }

  class Terminals {
    const video: array<Byte>
    const save0: array<Byte>
    const save1: array<Byte>
    const save2: array<Byte>
    const cursorX: array<int>
    const cursorY: array<int>
    const lines: array<seq<Byte>>
    const newlineSeen: array<bool>
    const reading: array<bool>
    var visible: int
    var videoMem: array<Byte>
    var screenX: int
    var screenY: int

    /** The state after boot: three blank terminals. */
    constructor ()
      ensures Valid() && visible == 0
      ensures forall g | ValidGroup(g) :: TermOf(g) == BlankTerm()
    {
      hide TermOf, BlankTerm, BlankPage;
      var shared, page0, page1, page2 := NewPages();
      video, save0, save1, save2 := shared, page0, page1, page2;
      var xs := OfEach(0);
      var ys := OfEach(0);
      var buffers := OfEach([]);
      var seen := OfEach(false);
      var waiting := OfEach(false);
      cursorX, cursorY, lines, newlineSeen, reading := xs, ys, buffers, seen, waiting;
      visible, screenX, screenY := 0, 0, 0;
      new;
      videoMem := video;
      AllBlank();
    }

    lemma AllBlank()
      requires Valid() && visible == 0 && screenX == 0 && screenY == 0
      requires video[..] == save1[..] == save2[..] == BlankPage()
      requires cursorX[..] == cursorY[..] == [0, 0, 0]
      requires lines[..] == [[], [], []] && newlineSeen[..] == reading[..] == [false, false, false]
      ensures forall g | ValidGroup(g) :: TermOf(g) == BlankTerm()
    {
      hide BlankPage;
      assert cursorX[0] == cursorX[..][0] && cursorX[1] == cursorX[..][1] && cursorX[2] == cursorX[..][2];
      assert cursorY[0] == cursorY[..][0] && cursorY[1] == cursorY[..][1] && cursorY[2] == cursorY[..][2];
      assert lines[0] == lines[..][0] && lines[1] == lines[..][1] && lines[2] == lines[..][2];
    }

    /** get_video_save_page */
    function SavePage(g: int): array<Byte>
      requires ValidGroup(g)
    {
      if g == 0 then save0 else if g == 1 then save1 else save2
    }

    ghost predicate Pages()
      reads this
    {
      && video.Length == save0.Length == save1.Length == save2.Length == PAGE_SIZE
      && video != save0 && video != save1 && video != save2
      && save0 != save1 && save0 != save2 && save1 != save2
      && cursorX.Length == cursorY.Length == MAX_PROCESS_GROUPS && cursorX != cursorY
      && lines.Length == newlineSeen.Length == reading.Length == MAX_PROCESS_GROUPS && newlineSeen != reading
      && 0 <= visible < MAX_PROCESS_GROUPS
    }

    /** Between operations the video pointer is on the shared page, and every
        cursor, live or stored, is on the screen. */
    ghost predicate Valid()
      reads this, cursorX, cursorY
    {
      && Pages() && videoMem == video
      && 0 <= screenX < NUM_COLS && 0 <= screenY < NUM_ROWS
      && (forall g | ValidGroup(g) :: 0 <= cursorX[g] < NUM_COLS && 0 <= cursorY[g] < NUM_ROWS)
    }

    /** The whole terminal of group g: its screen, the line typed so far, and the state
        of its reader. */
    ghost function TermOf(g: int): Term
      requires Valid() && ValidGroup(g)
      reads this, cursorX, cursorY, video, save0, save1, save2, lines, newlineSeen, reading
    {
      Term(ScreenOf(g), lines[g], newlineSeen[g], reading[g])
    }

    /** The line buffers hold 128 characters, the last one only ever a newline. */
    ghost predicate Ready()
      reads this, cursorX, cursorY, video, save0, save1, save2, lines, newlineSeen, reading
    {
      Valid() && forall g | ValidGroup(g) :: TermOf(g).Valid()
    }

    /** The terminal of group g: the shared page and the live cursor when g is
        visible, its save page and its stored cursor otherwise. */
    ghost function ScreenOf(g: int): Screen
      requires Valid() && ValidGroup(g)
      reads this, cursorX, cursorY, video, save0, save1, save2
    {
      if g == visible then Screen(video[..], screenX, screenY)
      else Screen(SavePage(g)[..], cursorX[g], cursorY[g])
    }

    ghost function AllTerms(): (r: seq<Term>)
      requires Ready()
      reads this, cursorX, cursorY, video, save0, save1, save2, lines, newlineSeen, reading
      ensures |r| == MAX_PROCESS_GROUPS
      ensures forall g | ValidGroup(g) :: 0 <= g < |r| && r[g] == TermOf(g) && r[g].Valid()
    {
      [TermOf(0), TermOf(1), TermOf(2)]
    }

    /** The page the video pointer is on, with the live cursor. */
    ghost function Current(): Screen
      reads this, videoMem
    {
      Screen(videoMem[..], screenX, screenY)
    }

    /** scroll_up: copies row by row, in place, and blanks the last row. */
    method ScrollUp()
      requires videoMem.Length == PAGE_SIZE
      modifies videoMem
      ensures videoMem[..] == Scrolled(old(videoMem[..]))
    {
      hide ScrolledUpTo, Scrolled;
      ghost var page := videoMem[..];
      NothingScrolled(page);
      var i := 0;
      while i < NUM_ROWS - 1
        invariant 0 <= i <= NUM_ROWS - 1 && ScrolledUpTo(page, videoMem[..], Offset(0, i))
      {
        CopyRowUp(i, page);
        i := i + 1;
      }
      BlankLastRow(page);
      AllScrolled(page, videoMem[..]);
    }

    /** The inner loop of scroll_up. */
    method CopyRowUp(i: int, ghost page: seq<Byte>)
      requires 0 <= i < NUM_ROWS - 1 && videoMem.Length == PAGE_SIZE && ScrolledUpTo(page, videoMem[..], Offset(0, i))
      modifies videoMem
      ensures ScrolledUpTo(page, videoMem[..], Offset(0, i + 1))
    {
      hide ScrolledUpTo;
      var k := 0;
      while k < NUM_COLS
        invariant 0 <= k <= NUM_COLS && ScrolledUpTo(page, videoMem[..], Offset(k, i))
      {
        ghost var now := videoMem[..];
        ScrollCell(page, now, i, k);
        videoMem[2 * (i * NUM_COLS + k)] := videoMem[2 * ((i + 1) * NUM_COLS + k)];
        videoMem[2 * (i * NUM_COLS + k) + 1] := ATTRIB;
        assert videoMem[..] == now[Offset(k, i) := now[Offset(k, i + 1)]][Offset(k, i) + 1 := ATTRIB];
        k := k + 1;
      }
    }

    /** The second loop of scroll_up. */
    method BlankLastRow(ghost page: seq<Byte>)
      requires videoMem.Length == PAGE_SIZE && ScrolledUpTo(page, videoMem[..], Offset(0, NUM_ROWS - 1))
      modifies videoMem
      ensures ScrolledUpTo(page, videoMem[..], SCREEN_BYTES)
    {
      hide ScrolledUpTo;
      var i := (NUM_ROWS - 1) * NUM_COLS;
      while i < NUM_ROWS * NUM_COLS
        invariant (NUM_ROWS - 1) * NUM_COLS <= i <= NUM_ROWS * NUM_COLS && ScrolledUpTo(page, videoMem[..], 2 * i)
      {
        ghost var now := videoMem[..];
        BlankCell(page, now, i);
        videoMem[2 * i] := SPACE;
        videoMem[2 * i + 1] := ATTRIB;
        assert videoMem[..] == now[2 * i := SPACE][2 * i + 1 := ATTRIB];
        i := i + 1;
      }
    }

    /** A character and its attribute under the cursor. */
    method StoreLive(c: Byte)
      requires Current().Valid()
      modifies videoMem
      ensures Current() == Put(old(Current()), c)
    {
      ghost var page := videoMem[..];
      videoMem[2 * (NUM_COLS * screenY + screenX)] := c;
      videoMem[2 * (NUM_COLS * screenY + screenX) + 1] := ATTRIB;
      assert videoMem[..] == page[Offset(screenX, screenY) := c][Offset(screenX, screenY) + 1 := ATTRIB];
    }

    /** putc, on whatever page the video pointer is on. */
    method PutcLive(c: Byte)
      requires Current().Valid()
      modifies this`screenX, this`screenY, videoMem
      ensures Current() == Putc(old(Current()), c)
    {
      hide Scrolled, Put;
      if c == NEWLINE || c == RETURN {
        screenY := screenY + 1;
        if screenY >= NUM_ROWS {
          ScrollUp();
          screenY := NUM_ROWS - 1;
        }
        screenX := 0;
      } else if c == BACKSPACE {
        screenX := screenX - 1;
        if screenX < 0 {
          screenY := screenY - 1;
          screenX := NUM_COLS - 1;
          if screenY < 0 {
            screenY := 0;
            screenX := 0;
          }
        }
      } else {
        StoreLive(c);
        screenX := screenX + 1;
        if (screenY + screenX / NUM_COLS) / NUM_ROWS != 0 {
          ScrollUp();
        } else {
          screenY := (screenY + screenX / NUM_COLS) % NUM_ROWS;
        }
        screenX := screenX % NUM_COLS;
      }
    }

    /** __print_char */
    method PrintCharLive(c: Byte)
      requires Current().Valid()
      modifies this`screenX, this`screenY, videoMem
      ensures Current() == PrintChar(old(Current()), c)
    {
      if c == BACKSPACE {
        PutcLive(BACKSPACE);
        PutcLive(SPACE);
        PutcLive(BACKSPACE);
      } else {
        PutcLive(c);
      }
    }

    method PrintLive(text: seq<Byte>)
      requires Current().Valid()
      modifies this`screenX, this`screenY, videoMem
      ensures Current() == Write(old(Current()), text)
    {
      ghost var s := Current();
      var i := 0;
      while i < |text|
        invariant 0 <= i <= |text| && Current() == Write(s, text[..i])
      {
        PrintCharLive(text[i]);
        i := i + 1;
        assert text[..i][..i - 1] == text[..i - 1];
      }
      assert text[..i] == text;
    }

    /** set_cursor: a place on the screen is taken as it is. Another is moved by whole
        multiples of 80 in both directions, so the row comes out as the comment says,
        modulo 25, only for some rows, and may lie below the screen. */
    method SetCursor(x: int, y: int)
      requires 0 <= x && 0 <= y
      modifies this`screenX, this`screenY
      ensures x < NUM_COLS && y < NUM_ROWS ==> screenX == x && screenY == y
      ensures 0 <= screenX < NUM_COLS && (x - screenX) % NUM_COLS == 0
      ensures 0 <= screenY < NUM_COLS && (y - screenY) % NUM_COLS == 0
      ensures screenY == y % NUM_ROWS <==> y % ROW_CYCLE < NUM_ROWS
      ensures screenY < NUM_ROWS <==> y % NUM_COLS < NUM_ROWS
    {
      PlaceTaken(x, y);
      hide *;
      screenX := x % NUM_COLS;
      screenY := y % NUM_COLS;
    }

    /** term_write by a process of group g: group g's terminal takes the text, and
        no other terminal changes, whichever group is visible. */
    method TermWrite(g: int, buf: array?<Byte>, nbytes: int) returns (written: int)
      requires Valid() && ValidGroup(g)
      requires buf != null ==> nbytes <= buf.Length
      modifies this`screenX, this`screenY, this`videoMem, video, SavePage(g), cursorX, cursorY
      ensures Valid() && visible == old(visible)
      ensures buf == null ==> written == FAILURE
      ensures buf != null ==> written == if nbytes < 0 then 0 else nbytes
      ensures forall h | ValidGroup(h) ::
        ScreenOf(h) == if h == g && buf != null then Write(old(ScreenOf(h)), old(buf[..written])) else old(ScreenOf(h))
    {
      hide Write;
      if buf == null {
        return FAILURE;
      }
      written := if nbytes < 0 then 0 else nbytes;
      var text := buf[..written];
      if visible == g {
        PrintLive(text);
      } else {
        WriteHidden(g, text);
      }
    }

    /** The part of term_write for a group that is not visible: the video pointer
        and the cursor are borrowed, and given back. */
    method WriteHidden(g: int, text: seq<Byte>)
      requires Valid() && ValidGroup(g) && g != visible
      modifies this`screenX, this`screenY, this`videoMem, SavePage(g), cursorX, cursorY
      ensures Valid() && visible == old(visible)
      ensures forall h | ValidGroup(h) ::
        ScreenOf(h) == if h == g then Write(old(ScreenOf(h)), text) else old(ScreenOf(h))
    {
      hide Write;
      var savedVideo, savedX, savedY := videoMem, screenX, screenY;
      videoMem := SavePage(g);
      SetCursor(cursorX[g], cursorY[g]);
      assert Current() == old(ScreenOf(g));
      PrintLive(text);
      cursorX[g], cursorY[g] := screenX, screenY;
      videoMem := savedVideo;
      SetCursor(savedX, savedY);
    }

    /** memcpy of one page */
    method CopyPage(dst: array<Byte>, src: array<Byte>)
      requires dst.Length == src.Length == PAGE_SIZE
      modifies dst
      ensures dst[..] == old(src[..])
    {
      forall i | 0 <= i < PAGE_SIZE {
        dst[i] := src[i];
      }
    }

    /** switch_term: a group out of range is refused; otherwise that group becomes
        visible, and no terminal's screen or cursor changes. */
    method SwitchTerm(n: int) returns (r: int)
      requires Valid()
      modifies this`visible, this`screenX, this`screenY, video, SavePage(visible), cursorX, cursorY
      ensures Valid()
      ensures r == if ValidGroup(n) then n else FAILURE
      ensures visible == if ValidGroup(n) then n else old(visible)
      ensures forall h | ValidGroup(h) :: ScreenOf(h) == old(ScreenOf(h))
    {
      if n < 0 || n >= MAX_PROCESS_GROUPS {
        return FAILURE;
      }
      cursorX[visible], cursorY[visible] := screenX, screenY;
      CopyPage(SavePage(visible), video);
      visible := n;
      SetCursor(cursorX[visible], cursorY[visible]);
      CopyPage(video, SavePage(visible));
      r := visible;
    }

    // ----- the keyboard -----

    /** The visible terminal. */
    ghost function Shown(): Term
      requires Pages()
      reads this, videoMem, lines, newlineSeen, reading
    {
      Term(Current(), lines[visible], newlineSeen[visible], reading[visible])
    }

    /** One space of a tab, in the line and on the screen. */
    method TypeSpace(ghost s: Screen, ghost line: seq<Byte>, ghost i: nat)
      requires Pages() && Current().Valid() && s.Valid()
      requires Current() == Write(s, Spaces(i)) && lines[visible] == line + Spaces(i)
      modifies this`screenX, this`screenY, videoMem, lines
      ensures Pages() && Current() == Write(s, Spaces(i + 1)) && lines[visible] == line + Spaces(i + 1)
      ensures forall h | ValidGroup(h) && h != visible :: lines[h] == old(lines[h])
    {
      hide Write, PrintChar, Spaces;
      SpaceMore(s, i);
      lines[visible] := lines[visible] + [SPACE];
      PrintCharLive(SPACE);
      assert line + Spaces(i) + [SPACE] == line + (Spaces(i) + [SPACE]);
    }

    /** A tab: spaces up to the next stop, or up to the last place but one. */
    method TypeTab()
      requires Pages() && Current().Valid() && |lines[visible]| < TERM_BUFFER_SIZE - 1
      modifies this`screenX, this`screenY, videoMem, lines
      ensures Current() == Write(old(Current()), Spaces(TabWidth(|old(lines[visible])|)))
      ensures lines[visible] == old(lines[visible]) + Spaces(TabWidth(|old(lines[visible])|))
      ensures forall h | ValidGroup(h) && h != visible :: lines[h] == old(lines[h])
    {
      hide Write, Spaces, TabWidth, Current;
      ghost var line, s := lines[visible], Current();
      TabBegins(s, line);
      var i := 0;
      while i < TAB_SIZE
        invariant 0 <= i < TabWidth(|line|) && Pages()
        invariant Current() == Write(s, Spaces(i)) && lines[visible] == line + Spaces(i)
        invariant forall h | ValidGroup(h) && h != visible :: lines[h] == old(lines[h])
      {
        TabStops(|line|, i);
        TypeSpace(s, line, i);
        i := i + 1;
        if |lines[visible]| == TERM_BUFFER_SIZE - 1 || |lines[visible]| % TAB_SIZE == 0 {
          break;
        }
      }
    }

    /** __add_char_to_term */
    method AddCharToTerm(c: Byte) returns (r: int)
      requires Pages() && Shown().Valid() && c != BACKSPACE
      modifies this`screenX, this`screenY, videoMem, lines, newlineSeen
      ensures r == if Entered(|old(lines[visible])|, c) == [] then FAILURE else 0
      ensures Shown() == Key(old(Shown()), c)
      ensures forall h | ValidGroup(h) && h != visible :: lines[h] == old(lines[h]) && newlineSeen[h] == old(newlineSeen[h])
    {
      hide Write, PrintChar, Putc, Spaces, TabWidth;
      WriteNothing(Current());
      if |lines[visible]| < TERM_BUFFER_SIZE {
        if |lines[visible]| == TERM_BUFFER_SIZE - 1 && c != NEWLINE {
          return FAILURE;
        }
        if c == TAB {
          TypeTab();
        } else {
          WriteOne(Current(), c);
          lines[visible] := lines[visible] + [c];
          PrintCharLive(c);
        }
        if c == NEWLINE {
          newlineSeen[visible] := true;
          if !reading[visible] {
            lines[visible] := [];
          }
        }
        return 0;
      }
      r := FAILURE;
    }

    /** __backspace_term */
    method BackspaceTerm()
      requires Pages() && Shown().Valid()
      modifies this`screenX, this`screenY, videoMem, lines
      ensures Shown() == Key(old(Shown()), BACKSPACE)
      ensures forall h | ValidGroup(h) && h != visible :: lines[h] == old(lines[h])
    {
      hide PrintChar, Putc, Write;
      if |lines[visible]| > 0 {
        lines[visible] := lines[visible][..|lines[visible]| - 1];
        PrintCharLive(BACKSPACE);
      }
    }

    /** add_char_term: the key goes to the visible group's terminal, as to a terminal of
        its own, and no other terminal notices. */
    method AddChar(c: Byte) returns (r: int)
      requires Ready()
      modifies this`screenX, this`screenY, video, lines, newlineSeen
      ensures Ready()
      ensures r == if c != BACKSPACE && Entered(|old(lines[visible])|, c) == [] then FAILURE else 0
      ensures forall h | ValidGroup(h) :: TermOf(h) == if h == visible then Key(old(TermOf(h)), c) else old(TermOf(h))
    {
      hide Key, Entered;
      ghost var t := Shown();
      assert t == TermOf(visible);
      if c == BACKSPACE {
        BackspaceTerm();
        r := 0;
      } else {
        r := AddCharToTerm(c);
      }
      assert Shown() == TermOf(visible) == Key(t, c);
    }

    /** clear_term: the visible screen is blank and its cursor home. */
    method ClearTerm()
      requires Ready()
      modifies this`screenX, this`screenY, video
      ensures Ready()
      ensures forall h | ValidGroup(h) :: TermOf(h) == if h == visible then Step(old(TermOf(h)), Clear) else old(TermOf(h))
    {
      ghost var page := video[..];
      var i := 0;
      while i < NUM_ROWS * NUM_COLS
        invariant 0 <= i <= NUM_ROWS * NUM_COLS && Valid()
        invariant forall a | 0 <= a < PAGE_SIZE ::
          video[a] == if a >= 2 * i then page[a] else if a % 2 == 0 then SPACE else ATTRIB
        invariant forall h | ValidGroup(h) && h != visible :: TermOf(h) == old(TermOf(h))
      {
        videoMem[2 * i] := SPACE;
        videoMem[2 * i + 1] := ATTRIB;
        i := i + 1;
      }
      screenX, screenY := 0, 0;
    }

    /** The first step of term_read: it goes on waiting while another read of the group
        has its turn. */
    method TakeTurn(g: int) returns (ok: bool)
      requires Ready() && ValidGroup(g)
      modifies reading
      ensures Ready() && ok == !old(reading[g])
      ensures forall h | ValidGroup(h) :: TermOf(h) == if h == g then Step(old(TermOf(h)), ReadTakes) else old(TermOf(h))
    {
      ok := !reading[g];
      if ok {
        reading[g] := true;
      }
    }

    /** The second step: newlines typed so far do not count. */
    method ArmRead(g: int)
      requires Ready() && ValidGroup(g) && reading[g]
      modifies newlineSeen
      ensures Ready()
      ensures forall h | ValidGroup(h) :: TermOf(h) == if h == g then Step(old(TermOf(h)), ReadArms) else old(TermOf(h))
    {
      newlineSeen[g] := false;
    }

    /** The end of term_read, once a newline has been typed: the first bytes of what has
        been typed, at most nbytes of them; the rest is dropped. A negative count is
        compared as unsigned, so it takes everything. */
    method EndRead(g: int, buf: array<Byte>, nbytes: int) returns (n: int)
      requires Ready() && ValidGroup(g) && TERM_BUFFER_SIZE <= buf.Length
      requires buf != video && buf != save0 && buf != save1 && buf != save2
      modifies lines, reading, buf
      ensures Ready()
      ensures forall h | ValidGroup(h) :: TermOf(h) == if h == g then Step(old(TermOf(h)), ReadEnds) else old(TermOf(h))
      ensures old(reading[g] && newlineSeen[g]) ==>
        && n == (if 0 <= nbytes < |old(lines[g])| then nbytes else |old(lines[g])|)
        && buf[..] == old(lines[g])[..n] + old(buf[..])[n..]
      ensures !old(reading[g] && newlineSeen[g]) ==> n == FAILURE && buf[..] == old(buf[..])
    {
      hide ScreenOf, Current;
      if !reading[g] || !newlineSeen[g] {
        return FAILURE;
      }
      ghost var was := buf[..];
      var line := lines[g];
      n := if 0 <= nbytes < |line| then nbytes else |line|;
      forall k | 0 <= k < n {
        buf[k] := line[k];
      }
      lines[g] := [];
      reading[g] := false;
    }

    /** A process of the visible group reads while its user types a text and a newline: it
        is handed what was in the line already, the text as far as the line has room for
        it, and the newline, at most nbytes bytes of that; the screen shows what was
        typed, and no other terminal changes. */
    method ReadTyped(text: seq<Byte>, buf: array<Byte>, nbytes: int) returns (n: int)
      requires Ready() && Plain(text) && |lines[visible]| < TERM_BUFFER_SIZE && !reading[visible]
      requires TERM_BUFFER_SIZE <= buf.Length && buf != video && buf != save0 && buf != save1 && buf != save2
      modifies this`screenX, this`screenY, video, lines, newlineSeen, reading, buf
      ensures Ready()
      ensures var typed := Fitting(text, |old(lines[visible])|) + [NEWLINE]; var line := old(lines[visible]) + typed;
        && n == (if 0 <= nbytes < |line| then nbytes else |line|) && buf[..] == line[..n] + old(buf[..])[n..]
        && TermOf(visible) == Term(Write(old(TermOf(visible)).screen, typed), [], true, false)
      ensures forall h | ValidGroup(h) && h != visible :: TermOf(h) == old(TermOf(h))
    {
      hide ScreenOf, Current, Write, Key, Plain, Fitting, Keys, Play;
      ghost var t := TermOf(visible);
      var _ := TakeTurn(visible);
      ArmRead(visible);
      ghost var armed := TermOf(visible);
      TypeKeys(text);
      TypedIsRead(t, text);
      var _ := AddChar(NEWLINE);
      n := EndRead(visible, buf, nbytes);
    }

    /** A user types a text. */
    method TypeKeys(text: seq<Byte>)
      requires Ready()
      modifies this`screenX, this`screenY, video, lines, newlineSeen
      ensures Ready()
      ensures TermOf(visible) == Play(old(TermOf(visible)), Keys(text))
      ensures forall h | ValidGroup(h) && h != visible :: TermOf(h) == old(TermOf(h))
    {
      hide ScreenOf, Current, Write, Key, Keys, Play;
      ghost var t := TermOf(visible);
      NothingTyped(t, text);
      var k := 0;
      while k < |text|
        invariant 0 <= k <= |text| && Ready()
        invariant TermOf(visible) == Play(t, Keys(text[..k]))
        invariant forall h | ValidGroup(h) && h != visible :: TermOf(h) == old(TermOf(h))
      {
        NextKey(t, text, k);
        var _ := AddChar(text[k]);
        k := k + 1;
      }
      assert text[..k] == text;
    }

    /** A write, seen as an event of the whole terminal. */
    method Output(g: int, text: seq<Byte>)
      requires Ready() && ValidGroup(g)
      modifies this`screenX, this`screenY, this`videoMem, video, SavePage(g), cursorX, cursorY
      ensures Ready() && visible == old(visible)
      ensures forall h | ValidGroup(h) :: TermOf(h) == if h == g then Step(old(TermOf(h)), Out(text)) else old(TermOf(h))
    {
      hide ScreenOf, Write;
      var buf := new Byte[|text|](i requires 0 <= i < |text| => text[i]);
      assert buf[..|text|] == text;
      var _ := TermWrite(g, buf, |text|);
    }

    /** What each event does to each terminal. */
    method Happen(e: Event)
      requires Ready() && ValidEvent(e)
      modifies this, video, save0, save1, save2, cursorX, cursorY, lines, newlineSeen, reading
      ensures Valid() && Ready() && visible == if e.Switched? && ValidGroup(e.group) then e.group else old(visible)
      ensures forall h | ValidGroup(h) :: TermOf(h) == var share := Share(e, old(visible), h);
        if share == [] then old(TermOf(h)) else Step(old(TermOf(h)), share[0])
    {
      hide ScreenOf, Write, Key, Cleared;
      match e
      case Wrote(g, text) => Output(g, text);
      case ReadTaken(g) => var _ := TakeTurn(g);
      case ReadArmed(g) =>
        if reading[g] {
          ArmRead(g);
        }
      case ReadEnded(g) =>
        var buf := new Byte[TERM_BUFFER_SIZE](_ => 0);
        var _ := EndRead(g, buf, TERM_BUFFER_SIZE);
      case KeyTyped(c) => var _ := AddChar(c);
      case ScreenCleared => ClearTerm();
      case Switched(g) => var _ := SwitchTerm(g);
    }

    /** The three terminals are independent: after any interleaving of output, reads,
        keys, clears and switches each is what a terminal of its own would be after what
        of it concerned its group, and shows the end of the sheet of paper on which its
        output, its echoes and its erasures have been typed. */
    method Run(events: seq<Event>)
      requires Valid() && Ready() && forall e | e in events :: ValidEvent(e)
      modifies this, video, save0, save1, save2, cursorX, cursorY, lines, newlineSeen, reading
      ensures Valid() && Ready() && visible == VisibleAfter(events, old(visible))
      ensures forall h | ValidGroup(h) ::
        old(TermOf(h)).Valid() && TermOf(h) == Play(old(TermOf(h)), LocalTo(events, old(visible), h))
      ensures forall h, p: Paper | ValidGroup(h) && p.Valid() && Shows(old(TermOf(h)).screen, p) ::
        Shows(TermOf(h).screen, Sheet(p, old(TermOf(h)), LocalTo(events, old(visible), h)))
    {
      hide *;
      ghost var v, start := visible, AllTerms();
      var k := 0;
      forall h | ValidGroup(h) ensures TermOf(h) == Play(start[h], LocalTo(events[..0], v, h)) {
        PlayNothing(start[h]);
        NoEvents(events[..0], v, h);
      }
      NoEvents(events[..0], v, 0);
      while k < |events|
        invariant 0 <= k <= |events| && Valid() && Ready() && visible == VisibleAfter(events[..k], v)
        invariant forall h | ValidGroup(h) :: TermOf(h) == Play(start[h], LocalTo(events[..k], v, h))
      {
        assert events[k] in events;
        Happen(events[k]);
        forall h | ValidGroup(h) ensures TermOf(h) == Play(start[h], LocalTo(events[..k + 1], v, h)) {
          NextEvent(events, k, v, h);
          PlayShare(start[h], LocalTo(events[..k], v, h), Share(events[k], VisibleAfter(events[..k], v), h));
        }
        NextEvent(events, k, v, 0);
        k := k + 1;
      }
      assert events[..k] == events;
      forall h, p: Paper | ValidGroup(h) && p.Valid() && Shows(start[h].screen, p)
        ensures Shows(TermOf(h).screen, Sheet(p, start[h], LocalTo(events, v, h)))
      {
        PlayOnPaper(start[h], p, LocalTo(events, v, h));
      }
    }
  }
}
