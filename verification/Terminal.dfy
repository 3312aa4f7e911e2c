// One plain text terminal: what putc of mp3/student-distrib/lib.c does to a page
// of video memory and a cursor.
module Terminal {
  import opened Bytes

  const NUM_COLS := 80
  const NUM_ROWS := 25
  const ATTRIB: Byte := 7
  const PAGE_SIZE := 4096
  const ROW_BYTES := 2 * NUM_COLS
  const SCREEN_BYTES := NUM_ROWS * ROW_BYTES

  const NEWLINE: Byte := 10
  const RETURN: Byte := 13
  const BACKSPACE: Byte := 8
  const SPACE: Byte := 32

  /** A page of video memory, character and attribute by turns, and a cursor. */
  datatype Screen = Screen(page: seq<Byte>, x: int, y: int) {
    ghost predicate Valid() {
      |page| == PAGE_SIZE && 0 <= x < NUM_COLS && 0 <= y < NUM_ROWS
    }
  }

  function Offset(x: int, y: int): int {
    2 * (NUM_COLS * y + x)
  }

  /** The page scrolled up by one row. */
  ghost function Scrolled(page: seq<Byte>): (r: seq<Byte>)
    requires |page| == PAGE_SIZE
    ensures |r| == PAGE_SIZE
  {
    seq(PAGE_SIZE, i requires 0 <= i < PAGE_SIZE => ScrolledByte(page, i))
  }

  ghost function ScrolledByte(page: seq<Byte>, i: int): Byte
    requires |page| == PAGE_SIZE && 0 <= i < PAGE_SIZE
  {
    if i >= SCREEN_BYTES then page[i]
    else if i % 2 == 1 then ATTRIB
    else if i < SCREEN_BYTES - ROW_BYTES then page[i + ROW_BYTES]
    else SPACE
  }

  /** A scrolled row shows the characters of the row below it, in the plain attribute. */
  lemma ScrolledCell(page: seq<Byte>, i: int, k: int)
    requires |page| == PAGE_SIZE && 0 <= i < NUM_ROWS - 1 && 0 <= k < NUM_COLS
    ensures ScrolledByte(page, Offset(k, i)) == page[Offset(k, i + 1)]
    ensures ScrolledByte(page, Offset(k, i) + 1) == ATTRIB
  {
  }

  /** The cells of the page before offset n are scrolled already. */
  ghost predicate ScrolledUpTo(page: seq<Byte>, now: seq<Byte>, n: int) {
    && |page| == |now| == PAGE_SIZE
    && forall a | 0 <= a < PAGE_SIZE :: now[a] == if a < n then ScrolledByte(page, a) else page[a]
  }

  /** Copying a cell from the row below scrolls one more cell. */
  lemma ScrollCell(page: seq<Byte>, now: seq<Byte>, i: int, k: int)
    requires ScrolledUpTo(page, now, Offset(k, i)) && 0 <= i < NUM_ROWS - 1 && 0 <= k < NUM_COLS
    ensures 0 <= Offset(k, i) && Offset(k, i) + 1 < Offset(k, i + 1) < |now|
    ensures ScrolledUpTo(page, now[Offset(k, i) := now[Offset(k, i + 1)]][Offset(k, i) + 1 := ATTRIB], Offset(k + 1, i))
  {
    ScrolledCell(page, i, k);
  }

  /** So does a blank in the last row. */
  lemma BlankCell(page: seq<Byte>, now: seq<Byte>, i: int)
    requires ScrolledUpTo(page, now, 2 * i) && (NUM_ROWS - 1) * NUM_COLS <= i < NUM_ROWS * NUM_COLS
    ensures ScrolledUpTo(page, now[2 * i := SPACE][2 * i + 1 := ATTRIB], 2 * (i + 1))
  {
  }

  lemma NothingScrolled(page: seq<Byte>)
    requires |page| == PAGE_SIZE
    ensures ScrolledUpTo(page, page, 0)
  {
  }

  lemma AllScrolled(page: seq<Byte>, now: seq<Byte>)
    requires ScrolledUpTo(page, now, SCREEN_BYTES)
    ensures now == Scrolled(page)
  {
  }

  /** A character stored under the cursor. */
  ghost function Put(s: Screen, c: Byte): (r: Screen)
    requires s.Valid()
    ensures r.Valid() && r.x == s.x && r.y == s.y
  {
    s.(page := s.page[Offset(s.x, s.y) := c][Offset(s.x, s.y) + 1 := ATTRIB])
  }

  /** putc */
  ghost function Putc(s: Screen, c: Byte): (r: Screen)
    requires s.Valid()
    ensures r.Valid()
  {
    if c == NEWLINE || c == RETURN then
      if s.y + 1 >= NUM_ROWS then Screen(Scrolled(s.page), 0, NUM_ROWS - 1) else Screen(s.page, 0, s.y + 1)
    else if c == BACKSPACE then
      if s.x > 0 then s.(x := s.x - 1)
      else if s.y > 0 then s.(x := NUM_COLS - 1, y := s.y - 1)
      else s
    else
      var t := Put(s, c);
      if s.x + 1 < NUM_COLS then t.(x := s.x + 1)
      else if s.y + 1 < NUM_ROWS then Screen(t.page, 0, s.y + 1)
      else Screen(Scrolled(t.page), 0, s.y)
  }

  /** __print_char: backspace also erases. */
  ghost function PrintChar(s: Screen, c: Byte): (r: Screen)
    requires s.Valid()
    ensures r.Valid()
  {
    if c == BACKSPACE then Putc(Putc(Putc(s, BACKSPACE), SPACE), BACKSPACE) else Putc(s, c)
  }

  /** A text written character by character. */
  ghost function Write(s: Screen, text: seq<Byte>): (r: Screen)
    requires s.Valid()
    ensures r.Valid()
  {
    if text == [] then s else PrintChar(Write(s, text[..|text| - 1]), text[|text| - 1])
  }

  lemma WriteNothing(s: Screen)
    requires s.Valid()
    ensures Write(s, []) == s
  {
  }

  /** Writing two texts in turn is writing them together. */
  lemma {:induction false} WriteTwice(s: Screen, a: seq<Byte>, b: seq<Byte>)
    requires s.Valid()
    ensures Write(Write(s, a), b) == Write(s, a + b)
    decreases |b|
  {
    if b == [] {
      assert a + b == a;
    } else {
      WriteTwice(s, a, b[..|b| - 1]);
      assert (a + b)[..|a + b| - 1] == a + b[..|b| - 1];
    }
  }

  // ----- the screen is the tail of an endless sheet of paper -----

  /** All rows ever written, 80 characters each, and the cursor's place among them. */
  datatype Paper = Paper(rows: seq<seq<Byte>>, x: int, row: int) {
    ghost predicate Valid() {
      && |rows| >= NUM_ROWS && (forall r | 0 <= r < |rows| :: |rows[r]| == NUM_COLS)
      && 0 <= x < NUM_COLS && Top() <= row < |rows|
    }

    /** The first row still on screen. */
    function Top(): int {
      |rows| - NUM_ROWS
    }
  }

  function BlankRow(): seq<Byte> {
    seq(NUM_COLS, _ => SPACE)
  }

  /** Go to the next row, adding one at the end of the sheet when needed. */
  ghost function NextRow(p: Paper): (r: Paper)
    requires p.Valid()
    ensures r.Valid() && r.x == 0
  {
    if p.row + 1 < |p.rows| then p.(x := 0, row := p.row + 1)
    else Paper(p.rows + [BlankRow()], 0, p.row + 1)
  }

  /** A character struck at the cursor's place. */
  ghost function Struck(p: Paper, c: Byte): (r: Paper)
    requires p.Valid()
    ensures r.Valid() && r.x == p.x && r.row == p.row && |r.rows| == |p.rows|
  {
    p.(rows := p.rows[p.row := p.rows[p.row][p.x := c]])
  }

  /** Typing on paper: nothing ever moves, the sheet only grows. */
  ghost function TypeChar(p: Paper, c: Byte): (r: Paper)
    requires p.Valid()
    ensures r.Valid()
  {
    if c == NEWLINE || c == RETURN then NextRow(p)
    else if c == BACKSPACE then
      if p.x > 0 then p.(x := p.x - 1)
      else if p.row > p.Top() then p.(x := NUM_COLS - 1, row := p.row - 1)
      else p
    else
      var q := Struck(p, c);
      if p.x + 1 < NUM_COLS then q.(x := p.x + 1) else NextRow(q)
  }

  /** The screen shows the last 25 rows of the paper, in the plain attribute. */
  ghost predicate Shows(s: Screen, p: Paper) {
    && s.Valid() && p.Valid() && s.x == p.x && s.y == p.row - p.Top()
    && forall r, c | 0 <= r < NUM_ROWS && 0 <= c < NUM_COLS ::
         s.page[Offset(c, r)] == p.rows[p.Top() + r][c] && s.page[Offset(c, r) + 1] == ATTRIB
  }

  /** Scrolling is turning the paper: a blank row comes in below. */
  lemma ScrollTurnsPaper(s: Screen, p: Paper)
    requires Shows(s, p) && p.row == |p.rows| - 1
    ensures Shows(Screen(Scrolled(s.page), 0, NUM_ROWS - 1), NextRow(p))
  {
    var s', p' := Screen(Scrolled(s.page), 0, NUM_ROWS - 1), NextRow(p);
    forall r, c | 0 <= r < NUM_ROWS && 0 <= c < NUM_COLS
      ensures s'.page[Offset(c, r)] == p'.rows[p'.Top() + r][c] && s'.page[Offset(c, r) + 1] == ATTRIB
    {
      assert s'.page[Offset(c, r)] == ScrolledByte(s.page, Offset(c, r));
      assert s'.page[Offset(c, r) + 1] == ScrolledByte(s.page, Offset(c, r) + 1);
      if r < NUM_ROWS - 1 {
        assert Offset(c, r) + ROW_BYTES == Offset(c, r + 1);
        assert s.page[Offset(c, r + 1)] == p.rows[p.Top() + (r + 1)][c];
      }
    }
  }

  lemma StoreOnPaper(s: Screen, p: Paper, ch: Byte)
    requires Shows(s, p)
    ensures Shows(Put(s, ch), Struck(p, ch))
  {
    var page, q := Put(s, ch).page, Struck(p, ch);
    forall r, c | 0 <= r < NUM_ROWS && 0 <= c < NUM_COLS
      ensures page[Offset(c, r)] == q.rows[q.Top() + r][c] && page[Offset(c, r) + 1] == ATTRIB
    {
      assert s.page[Offset(c, r)] == p.rows[p.Top() + r][c];
      if r == s.y && c != s.x {
        assert Offset(c, r) != Offset(s.x, s.y);
      }
    }
  }

  lemma SamePlaces(s: Screen, p: Paper)
    requires Shows(s, p)
    ensures s.Valid() && p.Valid() && s.x == p.x && s.y == p.row - p.Top()
  {
  }

  /** Moving the cursor alone shows the same sheet. */
  lemma CursorOnPaper(s: Screen, p: Paper, x: int, row: int)
    requires Shows(s, p) && 0 <= x < NUM_COLS && p.Top() <= row < |p.rows|
    ensures Shows(Screen(s.page, x, row - p.Top()), Paper(p.rows, x, row))
  {
  }

  /** For every character, the terminal does what the paper does. */
  lemma PutcIsTyping(s: Screen, p: Paper, c: Byte)
    requires Shows(s, p)
    ensures Shows(Putc(s, c), TypeChar(p, c))
  {
    hide Shows, Scrolled, Put, Struck;
    SamePlaces(s, p);
    if c == NEWLINE || c == RETURN {
      NewlineOnPaper(s, p);
    } else if c == BACKSPACE {
      if p.x > 0 {
        CursorOnPaper(s, p, p.x - 1, p.row);
      } else if p.row > p.Top() {
        CursorOnPaper(s, p, NUM_COLS - 1, p.row - 1);
      }
    } else {
      StoreOnPaper(s, p, c);
      var s1, p1 := Put(s, c), Struck(p, c);
      if p.x + 1 < NUM_COLS {
        CursorOnPaper(s1, p1, p1.x + 1, p1.row);
      } else {
        NewlineOnPaper(s1, p1);
      }
    }
  }

  lemma NewlineOnPaper(s: Screen, p: Paper)
    requires Shows(s, p)
    ensures Shows(if s.y + 1 >= NUM_ROWS then Screen(Scrolled(s.page), 0, NUM_ROWS - 1) else Screen(s.page, 0, s.y + 1), NextRow(p))
  {
    hide Shows, Scrolled;
    SamePlaces(s, p);
    if s.y + 1 >= NUM_ROWS {
      ScrollTurnsPaper(s, p);
    } else {
      CursorOnPaper(s, p, 0, p.row + 1);
    }
  }

  ghost function TypePrinted(p: Paper, c: Byte): (r: Paper)
    requires p.Valid()
    ensures r.Valid()
  {
    if c == BACKSPACE then TypeChar(TypeChar(TypeChar(p, BACKSPACE), SPACE), BACKSPACE) else TypeChar(p, c)
  }

  ghost function TypeText(p: Paper, text: seq<Byte>): (r: Paper)
    requires p.Valid()
    ensures r.Valid()
  {
    if text == [] then p else TypePrinted(TypeText(p, text[..|text| - 1]), text[|text| - 1])
  }

  /** No line ends and no backspaces. */
  predicate Printable(text: seq<Byte>) {
    forall k | 0 <= k < |text| :: text[k] != NEWLINE && text[k] != RETURN && text[k] != BACKSPACE
  }

  /** The sheet as one long line: the cursor's place in it, and what stands at a place. */
  function Place(p: Paper): int {
    p.row * NUM_COLS + p.x
  }

  function StandsAt(p: Paper, at: int): Byte {
    if 0 <= at / NUM_COLS < |p.rows| && at % NUM_COLS < |p.rows[at / NUM_COLS]| then p.rows[at / NUM_COLS][at % NUM_COLS]
    else SPACE
  }

  lemma CharOnPaper(p: Paper, c: Byte, at: int)
    requires p.Valid() && Printable([c])
    ensures Place(TypeChar(p, c)) == Place(p) + 1
    ensures StandsAt(TypeChar(p, c), at) == if at == Place(p) then c else StandsAt(p, at)
  {
    assert [c][0] != NEWLINE && [c][0] != RETURN && [c][0] != BACKSPACE;
    var q := Struck(p, c);
    assert at == at / NUM_COLS * NUM_COLS + at % NUM_COLS;
    assert StandsAt(q, at) == if at == Place(p) then c else StandsAt(p, at);
    if p.x + 1 == NUM_COLS {
      NewRowIsBlank(q, at);
    }
  }

  lemma NewRowIsBlank(p: Paper, at: int)
    requires p.Valid()
    ensures StandsAt(NextRow(p), at) == StandsAt(p, at)
  {
  }

  /** A line end goes to the start of the next row, and a backspace one place back, but
      not off the screen; neither changes what stands on the sheet. */
  lemma MovesOnPaper(p: Paper, c: Byte, at: int)
    requires p.Valid() && (c == 10 || c == 13 || c == 8)
    ensures StandsAt(TypeChar(p, c), at) == StandsAt(p, at)
    ensures c != 8 ==> Place(TypeChar(p, c)) == 80 * (p.row + 1)
    ensures c == 8 ==> Place(TypeChar(p, c)) == if p.x == 0 && p.row == |p.rows| - 25 then Place(p) else Place(p) - 1
  {
    if c != BACKSPACE {
      NewRowIsBlank(p, at);
    }
  }

  /** A text without line ends and backspaces stands on the sheet from the cursor's place
      on, each character at its own place, from row to row, with the cursor behind it;
      nothing else has changed. */
  lemma {:induction false} TextOnPaper(p: Paper, text: seq<Byte>, at: int)
    requires p.Valid() && Printable(text)
    ensures Place(TypeText(p, text)) == Place(p) + |text|
    ensures StandsAt(TypeText(p, text), at) ==
      if Place(p) <= at < Place(p) + |text| then text[at - Place(p)] else StandsAt(p, at)
  {
    hide TypeChar, StandsAt, Place;
    if text != [] {
      var front, c := text[..|text| - 1], text[|text| - 1];
      TextOnPaper(p, front, at);
      CharOnPaper(TypeText(p, front), c, at);
    }
  }

  /** Whatever is written, the screen is the last 25 rows of the paper. */
  lemma {:induction false} ScreenIsTailOfPaper(s: Screen, p: Paper, text: seq<Byte>)
    requires Shows(s, p)
    ensures Shows(Write(s, text), TypeText(p, text))
  {
    if text != [] {
      var front, c := text[..|text| - 1], text[|text| - 1];
      ScreenIsTailOfPaper(s, p, front);
      var t, q := Write(s, front), TypeText(p, front);
      PutcIsTyping(t, q, c);
      if c == BACKSPACE {
        PutcIsTyping(Putc(t, BACKSPACE), TypeChar(q, BACKSPACE), SPACE);
        PutcIsTyping(Putc(Putc(t, BACKSPACE), SPACE), TypeChar(TypeChar(q, BACKSPACE), SPACE), BACKSPACE);
      }
    }
  }
}
