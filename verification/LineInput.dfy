// The input side of a terminal of mp3/student-distrib/term.c: keys are echoed on the
// screen and collected in a line buffer until a newline.
module LineInput {
  import opened Bytes
  import opened Limits
  import opened Terminal

  const TERM_BUFFER_SIZE := 128
  const TAB_SIZE := 4
  const TAB: Byte := 9

  /** A terminal of its own: its screen, the line being typed, whether a newline has
      been typed since the last read began, and whether a read is waiting. */
  datatype Term = Term(screen: Screen, line: seq<Byte>, newlineSeen: bool, reading: bool) {
    /** The last place of the line buffer is only ever taken by a newline. */
    ghost predicate Valid() {
      screen.Valid() && |line| <= TERM_BUFFER_SIZE && (|line| == TERM_BUFFER_SIZE ==> line[|line| - 1] == NEWLINE)
    }
  }

  function Spaces(n: nat): (r: seq<Byte>)
    ensures |r| == n
  {
    seq(n, _ => SPACE)
  }

  /** How many spaces a tab stands for when n characters have been typed. */
  function TabWidth(n: nat): (w: nat)
    ensures n < TERM_BUFFER_SIZE - 1 ==> 1 <= w <= TAB_SIZE && n + w <= TERM_BUFFER_SIZE - 1
    ensures n < TERM_BUFFER_SIZE - 1 ==> (n + w) % TAB_SIZE == 0 || n + w == TERM_BUFFER_SIZE - 1
  {
    var toStop := TAB_SIZE - n % TAB_SIZE;
    if n + toStop < TERM_BUFFER_SIZE then toStop
    else if n < TERM_BUFFER_SIZE - 1 then TERM_BUFFER_SIZE - 1 - n
    else 0
  }

  /** Where the loop over a tab stops. */
  lemma TabStops(n: nat, i: nat)
    requires n < TERM_BUFFER_SIZE - 1 && i < TabWidth(n)
    ensures n + i + 1 == TERM_BUFFER_SIZE - 1 || (n + i + 1) % TAB_SIZE == 0 <==> i + 1 == TabWidth(n)
    ensures TabWidth(n) <= TAB_SIZE
  {
  }

  /** The characters a key other than backspace enters, with n in the buffer: none
      when the buffer has no room left for it. */
  function Entered(n: nat, c: Byte): seq<Byte> {
    if n >= TERM_BUFFER_SIZE || (n == TERM_BUFFER_SIZE - 1 && c != NEWLINE) then []
    else if c == TAB then Spaces(TabWidth(n))
    else [c]
  }

  /** add_char_term: what a key does to the terminal. */
  ghost function Key(t: Term, c: Byte): (r: Term)
    requires t.Valid()
    ensures r.Valid()
  {
    if c == BACKSPACE then
      if t.line == [] then t
      else t.(screen := PrintChar(t.screen, BACKSPACE), line := t.line[..|t.line| - 1])
    else
      var text := Entered(|t.line|, c);
      var typed := t.(screen := Write(t.screen, text), line := t.line + text);
      if c != NEWLINE || text == [] then typed
      else typed.(newlineSeen := true, line := if t.reading then typed.line else [])
  }

  /** clear */
  ghost function Cleared(s: Screen): (r: Screen)
    requires s.Valid()
    ensures r.Valid()
  {
    Screen(seq(PAGE_SIZE, i requires 0 <= i < PAGE_SIZE =>
      if i >= SCREEN_BYTES then s.page[i] else if i % 2 == 0 then SPACE else ATTRIB), 0, 0)
  }

  /** What can happen to one terminal: output, a key, the screen cleared, and the three
      steps of a read. */
  datatype Local = Out(text: seq<Byte>) | In(c: Byte) | Clear | ReadTakes | ReadArms | ReadEnds

  /** One step of a terminal of its own. A read takes its turn when no other one has it,
      then forgets any newline typed so far, and ends when a newline has been typed;
      until then it goes on waiting. */
  ghost function Step(t: Term, e: Local): (r: Term)
    requires t.Valid()
    ensures r.Valid()
  {
    match e
    case Out(text) => t.(screen := Write(t.screen, text))
    case In(c) => Key(t, c)
    case Clear => t.(screen := Cleared(t.screen))
    case ReadTakes => t.(reading := true)
    case ReadArms => if t.reading then t.(newlineSeen := false) else t
    case ReadEnds => if t.reading && t.newlineSeen then t.(reading := false, line := []) else t
  }

  ghost function Play(t: Term, es: seq<Local>): (r: Term)
    requires t.Valid()
    ensures r.Valid()
  {
    if es == [] then t else Step(Play(t, es[..|es| - 1]), es[|es| - 1])
  }

  lemma PlayNothing(t: Term)
    requires t.Valid()
    ensures Play(t, []) == t
  {
  }

  lemma PlayNext(t: Term, es: seq<Local>, e: Local)
    requires t.Valid()
    ensures Play(t, es + [e]) == Step(Play(t, es), e)
  {
    assert (es + [e])[..|es|] == es;
  }

  // ----- editing -----

  /** Backspace takes back exactly one typed character, and a tab with as many
      backspaces as it stood for. */
  lemma {:induction false} EraseTakesBack(t: Term, c: Byte, k: nat)
    requires t.Valid() && c != NEWLINE && c != BACKSPACE && k == |Entered(|t.line|, c)|
    ensures Erased(Key(t, c), k).line == t.line
  {
    var typed := Key(t, c);
    ErasedLine(typed, k);
    assert typed.line == t.line + Entered(|t.line|, c);
  }

  ghost function Erased(t: Term, k: nat): (r: Term)
    requires t.Valid()
    ensures r.Valid()
  {
    if k == 0 then t else Key(Erased(t, k - 1), BACKSPACE)
  }

  lemma {:induction false} ErasedLine(t: Term, k: nat)
    requires t.Valid() && k <= |t.line|
    ensures Erased(t, k).line == t.line[..|t.line| - k]
  {
    if k > 0 {
      ErasedLine(t, k - 1);
    }
  }

  /** On the sheet of paper behind the screen, a printed character and a backspace
      leave a space where the cursor is again; nothing above or before it changes. */
  lemma EraseOnPaper(p: Paper, c: Byte)
    requires p.Valid() && c != NEWLINE && c != RETURN && c != BACKSPACE
    ensures var q := TypePrinted(TypePrinted(p, c), BACKSPACE);
      && q.x == p.x && q.row == p.row && |p.rows| <= |q.rows|
      && q.rows[..|p.rows|] == p.rows[p.row := p.rows[p.row][p.x := SPACE]]
  {
    var p1 := TypeChar(p, c);
    TypeThenBack(p, c);
    var p2 := Paper(p1.rows, p.x, p.row);
    TypeThenBack(p2, SPACE);
    hide TypeChar;
    var q := TypePrinted(TypePrinted(p, c), BACKSPACE);
    assert q == Paper(TypeChar(p2, SPACE).rows, p.x, p.row);
    assert p1.rows[..|p.rows|][p.row] == p1.rows[p.row];
    assert p1.rows[p.row][p.x := SPACE] == p.rows[p.row][p.x := SPACE];
    assert p1.rows[p.row := p.rows[p.row][p.x := SPACE]][..|p.rows|] == p.rows[p.row := p.rows[p.row][p.x := SPACE]];
    assert q.rows[..|p1.rows|][..|p.rows|] == q.rows[..|p.rows|];
  }

  lemma TypeThenBack(p: Paper, c: Byte)
    requires p.Valid() && c != NEWLINE && c != RETURN && c != BACKSPACE
    ensures var q := TypeChar(p, c);
      && |p.rows| <= |q.rows| && q.rows[..|p.rows|] == p.rows[p.row := p.rows[p.row][p.x := c]]
      && TypeChar(q, BACKSPACE) == Paper(q.rows, p.x, p.row)
  {
  }

  /** A newline typed between the first two steps of a read is in the line but is
      forgotten: the read goes on waiting. Typed after them it ends the read. */
  lemma NewlineBetweenIsForgotten(t: Term)
    requires t.Valid() && |t.line| < TERM_BUFFER_SIZE
    ensures var late := Step(Step(Step(t, ReadTakes), In(NEWLINE)), ReadArms);
      late.line == t.line + [NEWLINE] && Step(late, ReadEnds) == late && late.reading
    ensures var timely := Step(Step(Step(t, ReadTakes), ReadArms), In(NEWLINE));
      timely.line == t.line + [NEWLINE] && Step(timely, ReadEnds).line == [] && !Step(timely, ReadEnds).reading
  {
  }

  // ----- what is typed is what is read -----

  /** Characters that are entered as they are. */
  predicate Plain(text: seq<Byte>) {
    forall k | 0 <= k < |text| :: text[k] != NEWLINE && text[k] != BACKSPACE && text[k] != TAB
  }

  function Keys(text: seq<Byte>): seq<Local> {
    seq(|text|, k requires 0 <= k < |text| => In(text[k]))
  }

  /** As much of a text as a line with n characters has room for. */
  function Fitting(text: seq<Byte>, n: nat): (r: seq<Byte>)
    ensures n <= 127 ==> |r| + n <= 127
    ensures r <= text && (|text| + n <= 127 ==> r == text) && (|text| + n > 127 >= n ==> |r| == 127 - n)
  {
    text[..Min(|text|, if n <= 127 then 127 - n else 0)]
  }

  lemma NothingTyped(t: Term, text: seq<Byte>)
    requires t.Valid()
    ensures Play(t, Keys(text[..0])) == t
  {
    assert Keys(text[..0]) == [];
    PlayNothing(t);
  }

  lemma NextKey(t: Term, text: seq<Byte>, k: nat)
    requires t.Valid() && k < |text|
    ensures Play(t, Keys(text[..k + 1])) == Key(Play(t, Keys(text[..k])), text[k])
  {
    assert Keys(text[..k + 1]) == Keys(text[..k]) + [In(text[k])];
    PlayNext(t, Keys(text[..k]), In(text[k]));
  }

  /** Typed characters land in the line and on the screen, up to 127 in the line. */
  lemma {:induction false} TypedIsEntered(t: Term, text: seq<Byte>)
    requires t.Valid() && |t.line| < 128 && Plain(text)
    ensures var r := Fitting(text, |t.line|);
      Play(t, Keys(text)) == t.(screen := Write(t.screen, r), line := t.line + r)
  {
    hide Write, Key, Play, Keys, Fitting;
    if text == [] {
      NothingTyped(t, text);
      WriteNothing(t.screen);
      assert text[..0] == text && t.line + [] == t.line;
    } else {
      var n := |text| - 1;
      var front, c := text[..n], text[n];
      TypedIsEntered(t, front);
      NextKey(t, text, n);
      assert text[..n + 1] == text;
      OneMoreTyped(t, front, c);
      assert front + [c] == text;
    }
  }

  lemma OneMoreTyped(t: Term, front: seq<Byte>, c: Byte)
    requires t.Valid() && |t.line| < 128 && c != NEWLINE && c != BACKSPACE && c != TAB
    ensures var r, r' := Fitting(front, |t.line|), Fitting(front + [c], |t.line|);
      Key(t.(screen := Write(t.screen, r), line := t.line + r), c) == t.(screen := Write(t.screen, r'), line := t.line + r')
  {
    hide PrintChar;
    var r, r' := Fitting(front, |t.line|), Fitting(front + [c], |t.line|);
    if |front| + |t.line| < 127 {
      assert r' == r + [c] && t.line + r + [c] == t.line + r';
      WriteTwice(t.screen, r, [c]);
    } else {
      assert r' == r;
      WriteNothing(Write(t.screen, r));
      assert t.line + r + [] == t.line + r;
    }
  }

  /** A read that is waiting gets what is typed: the line it ends with is what was in
      the line, the characters typed and the newline, and the screen shows them. */
  lemma TypedIsRead(t: Term, text: seq<Byte>)
    requires t.Valid() && |t.line| < 128 && Plain(text)
    ensures var typed := Fitting(text, |t.line|) + [NEWLINE];
      var armed := Step(Step(t, ReadTakes), ReadArms);
      var u := Key(Play(armed, Keys(text)), NEWLINE);
      && u == Term(Write(t.screen, typed), t.line + typed, true, true)
      && Step(u, ReadEnds) == Term(Write(t.screen, typed), [], true, false)
  {
    hide Write, Key, Play, Keys, Fitting, Plain;
    var armed := Step(Step(t, ReadTakes), ReadArms);
    TypedIsEntered(armed, text);
    var r := Fitting(text, |t.line|);
    NewlineEnds(armed.(screen := Write(t.screen, r), line := t.line + r));
    assert t.line + r + [NEWLINE] == t.line + (r + [NEWLINE]);
    WriteTwice(t.screen, r, [NEWLINE]);
  }

  lemma NewlineEnds(t: Term)
    requires t.Valid() && |t.line| < 128
    ensures Key(t, NEWLINE) ==
      Term(Write(t.screen, [NEWLINE]), if t.reading then t.line + [NEWLINE] else [], true, t.reading)
  {
    hide Write;
  }

  /** A line that nobody reads is lost with its newline. */
  lemma NobodyReads(t: Term)
    requires t.Valid() && |t.line| < 128 && !t.reading
    ensures Key(t, NEWLINE).line == [] && Key(t, NEWLINE).newlineSeen
  {
  }

  /** A tab enters blanks and nothing else, to the next place that is a multiple of
      four, or to the last place but one. */
  lemma TabIsBlanks(t: Term)
    requires t.Valid() && |t.line| < 127
    ensures var line := Key(t, TAB).line;
      && t.line < line && |line| <= |t.line| + 4 && (|line| % 4 == 0 || |line| == 127)
      && (forall k | |t.line| < k < |line| :: k % 4 != 0) && (forall k | |t.line| <= k < |line| :: line[k] == 32)
  {
    hide Write;
  }

  // ----- a whole run on the sheet of paper -----

  /** A clear turns to 25 fresh rows. */
  ghost function FreshRows(p: Paper): (r: Paper)
    requires p.Valid()
    ensures r.Valid()
  {
    Paper(p.rows + seq(NUM_ROWS, _ => BlankRow()), 0, |p.rows|)
  }

  /** What an event of terminal t types on its sheet: output, echoes and erasures. */
  ghost function Typed(p: Paper, t: Term, e: Local): (r: Paper)
    requires p.Valid()
    ensures r.Valid()
  {
    match e
    case Out(text) => TypeText(p, text)
    case In(c) =>
      if c != BACKSPACE then TypeText(p, Entered(|t.line|, c))
      else if t.line == [] then p
      else TypePrinted(p, BACKSPACE)
    case Clear => FreshRows(p)
    case ReadTakes => p
    case ReadArms => p
    case ReadEnds => p
  }

  ghost function Sheet(p: Paper, t: Term, es: seq<Local>): (r: Paper)
    requires p.Valid() && t.Valid()
    ensures r.Valid()
  {
    if es == [] then p
    else
      var front := es[..|es| - 1];
      Typed(Sheet(p, t, front), Play(t, front), es[|es| - 1])
  }

  lemma ErasedOnPaper(s: Screen, p: Paper)
    requires Shows(s, p)
    ensures Shows(PrintChar(s, BACKSPACE), TypePrinted(p, BACKSPACE))
  {
    assert s.Valid() && p.Valid();
    hide Putc, TypeChar, Shows;
    assert [BACKSPACE][..0] == [];
    WriteNothing(s);
    ScreenIsTailOfPaper(s, p, [BACKSPACE]);
    assert Write(s, [BACKSPACE]) == PrintChar(s, BACKSPACE);
    assert TypeText(p, [BACKSPACE]) == TypePrinted(p, BACKSPACE);
  }

  lemma ClearedOnPaper(s: Screen, p: Paper)
    requires Shows(s, p)
    ensures Shows(Cleared(s), FreshRows(p))
  {
  }

  lemma StepOnPaper(t: Term, p: Paper, e: Local)
    requires t.Valid() && Shows(t.screen, p)
    ensures Shows(Step(t, e).screen, Typed(p, t, e))
  {
    assert p.Valid();
    hide Shows, Write, PrintChar, TypeText, TypePrinted, Cleared, FreshRows;
    match e
    case Out(text) => ScreenIsTailOfPaper(t.screen, p, text);
    case In(c) =>
      if c != BACKSPACE {
        ScreenIsTailOfPaper(t.screen, p, Entered(|t.line|, c));
      } else if t.line != [] {
        ErasedOnPaper(t.screen, p);
      }
    case Clear => ClearedOnPaper(t.screen, p);
    case ReadTakes =>
    case ReadArms =>
    case ReadEnds =>
  }

  /** Whatever happens to a terminal, its screen is the last 25 rows of the sheet on
      which its output, its echoes and its erasures have been typed. */
  lemma {:induction false} PlayOnPaper(t: Term, p: Paper, es: seq<Local>)
    requires t.Valid() && Shows(t.screen, p)
    ensures Shows(Play(t, es).screen, Sheet(p, t, es))
  {
    assert p.Valid();
    hide Shows, Step, Typed;
    if es != [] {
      var front := es[..|es| - 1];
      PlayOnPaper(t, p, front);
      StepOnPaper(Play(t, front), Sheet(p, t, front), es[|es| - 1]);
    }
  }

  /** The sheet before anything has been written. */
  function BlankPaper(): Paper {
    Paper(seq(NUM_ROWS, _ => BlankRow()), 0, 0)
  }

  function BlankAt(i: int): Byte {
    if i % 2 == 0 then SPACE else ATTRIB
  }

  /** A terminal as the kernel starts with: blanks in the plain attribute, the cursor
      home, nothing typed and nobody reading. */
  function BlankTerm(): Term {
    Term(Screen(BlankPage(), 0, 0), [], false, false)
  }

  function BlankPage(): seq<Byte> {
    seq(PAGE_SIZE, i => BlankAt(i))
  }

  lemma BlankShows()
    ensures BlankTerm().Valid() && Shows(BlankTerm().screen, BlankPaper())
  {
    assert forall r, c :: BlankAt(Offset(c, r)) == SPACE && BlankAt(Offset(c, r) + 1) == ATTRIB;
  }
}
