/**
  The text console (kernel/console.c) and the endless page it is a window on: the screen always
  shows the last 25 rows of the page that the characters written so far make.
 */
module ConsoleModel {
  import opened CTypes

  const WIDTH: nat := 80
  const HEIGHT: nat := 25
  const CELLS: nat := 2000

  type u16 = x: int | 0 <= x < 0x1_0000 witness 0

  /** C's char on x86. */
  type schar = x: int | -0x80 <= x < 0x80

  /** A character and the attribute in force when it is written. */
  datatype Ink = Ink(ch: schar, attr: byte)

  function Inked(str: seq<schar>, attr: byte): (r: seq<Ink>)
    ensures |r| == |str| && forall i :: 0 <= i < |str| ==> r[i] == Ink(str[i], attr)
  {
    seq(|str|, i requires 0 <= i < |str| => Ink(str[i], attr))
  }

  function Glyph(attr: byte, ch: byte): u16 { attr * 0x100 + ch }

  function Blank(attr: byte): u16 { Glyph(attr, 32) }

  predicate Printable(ch: schar) { ch >= 32 }

  // ---------------------------------------------------------------- the screen

  datatype Screen = Screen(cells: seq<u16>, x: nat, y: nat)

  ghost predicate Valid(s: Screen) { |s.cells| == 2000 && s.x < 80 && s.y < 25 }

  /** console_clear. */
  function Clear(attr: byte): Screen { Screen(seq<u16>(CELLS, _ => Blank(attr)), 0, 0) }

  /** The cells after console_scroll: every line one up, a blank one at the bottom. */
  function Scrolled(cells: seq<u16>, attr: byte): (r: seq<u16>)
    requires |cells| == CELLS
    ensures |r| == CELLS
  {
    cells[WIDTH..] + seq<u16>(WIDTH, _ => Blank(attr))
  }

  /** What a character does to the cursor before wrapping and scrolling. */
  function Moved(x: nat, y: nat, ch: schar): (nat, nat) {
    if ch == 10 then (0, y + 1)
    else if ch == 13 then (0, y)
    else if ch == 9 then ((x + 8) / 8 * 8, y)
    else if Printable(ch) then (x + 1, y)
    else (x, y)
  }

  function Wrapped(x: nat, y: nat): (nat, nat) { if x >= WIDTH then (0, y + 1) else (x, y) }

  /** console_putc. */
  function Put(s: Screen, ink: Ink): Screen
    requires |s.cells| == CELLS && s.x < WIDTH && s.y < HEIGHT
  {
    var cells := if Printable(ink.ch) then s.cells[s.y * WIDTH + s.x := Glyph(ink.attr, ink.ch)] else s.cells;
    var (x0, y0) := Moved(s.x, s.y, ink.ch);
    var (x, y) := Wrapped(x0, y0);
    if y >= HEIGHT then Screen(Scrolled(cells, ink.attr), x, y - 1) else Screen(cells, x, y)
  }

  /** One character keeps the cursor on the screen. */
  lemma PutValid(s: Screen, ink: Ink)
    requires Valid(s)
    ensures Valid(Put(s, ink))
  {
  }

  /** A text on a screen cleared with attribute attr. */
  function Shown(text: seq<Ink>, attr: byte): (s: Screen)
    ensures |s.cells| == CELLS && s.x < WIDTH && s.y < HEIGHT
  {
    if text == [] then Clear(attr) else Put(Shown(text[..|text| - 1], attr), text[|text| - 1])
  }

  // ---------------------------------------------------------------- the endless page

  /** Where a character takes the cursor of the page. */
  function After(row: nat, col: nat, ch: schar): (nat, nat) {
    var (x0, y0) := Moved(col, row, ch);
    var (x, y) := Wrapped(x0, y0);
    (y, x)
  }

  /** Row and column of the cursor on the page after a text. */
  function Cursor(text: seq<Ink>): (p: (nat, nat))
    ensures p.1 < WIDTH
  {
    if text == [] then (0, 0)
    else
      var (row, col) := Cursor(text[..|text| - 1]);
      After(row, col, text[|text| - 1].ch)
  }

  /** Cell (row, col) of the page: what was last written there; a row below the first screen is
      blank in the attribute of the character that made the page reach it. */
  function Page(text: seq<Ink>, attr: byte, row: nat, col: nat): u16 {
    if text == [] then Blank(attr)
    else
      var (init, ink) := (text[..|text| - 1], text[|text| - 1]);
      if Printable(ink.ch) && Cursor(init) == (row, col) then Glyph(ink.attr, ink.ch)
      else if row >= HEIGHT && Cursor(init).0 < row == Cursor(text).0 then Blank(ink.attr)
      else Page(init, attr, row, col)
  }

  /** The page row at the top of the screen when the cursor is in a row, and after a text. */
  function TopRow(row: nat): nat { if row < HEIGHT then 0 else row - (HEIGHT - 1) }

  function Top(text: seq<Ink>): nat { TopRow(Cursor(text).0) }

  function Cell(s: Screen, y: nat, x: nat): u16
    requires |s.cells| == CELLS && y < HEIGHT && x < WIDTH
  {
    s.cells[y * WIDTH + x]
  }

  ghost predicate CellShows(s: Screen, text: seq<Ink>, attr: byte, y: nat, x: nat)
    requires Valid(s) && y < HEIGHT && x < WIDTH
  {
    Cell(s, y, x) == Page(text, attr, Top(text) + y, x)
  }

  ghost predicate Shows(s: Screen, text: seq<Ink>, attr: byte) {
    && Valid(s)
    && (s.y, s.x) == (Cursor(text).0 - Top(text), Cursor(text).1)
    && forall y: nat, x: nat :: y < HEIGHT && x < WIDTH ==> CellShows(s, text, attr, y, x)
  }

  /** The cell a character is written to, and whether it makes the screen scroll. */
  predicate Hits(s: Screen, ink: Ink, y: nat, x: nat) { Printable(ink.ch) && s.y == y && s.x == x }

  predicate Scrolls(s: Screen, ink: Ink) {
    var (x0, y0) := Moved(s.x, s.y, ink.ch);
    Wrapped(x0, y0).1 >= HEIGHT
  }

  lemma PutCell(s: Screen, ink: Ink, y: nat, x: nat)
    requires Valid(s) && y < HEIGHT && x < WIDTH
    ensures Cell(Put(s, ink), y, x) ==
            if Scrolls(s, ink) then
              if y == HEIGHT - 1 then Blank(ink.attr)
              else if Hits(s, ink, y + 1, x) then Glyph(ink.attr, ink.ch) else Cell(s, y + 1, x)
            else if Hits(s, ink, y, x) then Glyph(ink.attr, ink.ch) else Cell(s, y, x)
  {
  }

  lemma CursorAfter(init: seq<Ink>, ink: Ink)
    ensures Cursor(init + [ink]) == After(Cursor(init).0, Cursor(init).1, ink.ch)
  {
    assert (init + [ink])[..|init|] == init;
  }

  /** The same for the screen, whose top row follows the cursor down. */
  lemma PutCursor(s: Screen, row: nat, ink: Ink)
    requires Valid(s) && s.y == row - TopRow(row)
    ensures var ((row', col'), r) := (After(row, s.x, ink.ch), Put(s, ink));
            && (r.y, r.x) == (row' - TopRow(row'), col')
            && TopRow(row') == TopRow(row) + (if Scrolls(s, ink) then 1 else 0)
            && (Scrolls(s, ink) ==> s.y == HEIGHT - 1 && row' == row + 1)
            && row <= row'
  {
    hide Scrolled, Glyph;
    MovedRow(s.x, s.y, row, ink.ch);
  }

  /** A character moves the cursor by the same number of rows wherever it is. */
  lemma MovedRow(x: nat, y: nat, row: nat, ch: schar)
    ensures Moved(x, row, ch).0 == Moved(x, y, ch).0 && Moved(x, row, ch).1 - row == Moved(x, y, ch).1 - y
  {
  }

  lemma CursorStep(s: Screen, init: seq<Ink>, ink: Ink)
    requires Valid(s) && (s.y, s.x) == (Cursor(init).0 - Top(init), Cursor(init).1)
    ensures var (text, r) := (init + [ink], Put(s, ink));
            && (r.y, r.x) == (Cursor(text).0 - Top(text), Cursor(text).1)
            && Top(text) == Top(init) + (if Scrolls(s, ink) then 1 else 0)
            && (Scrolls(s, ink) ==> s.y == HEIGHT - 1 && Cursor(text).0 == Cursor(init).0 + 1)
            && Cursor(init).0 <= Cursor(text).0
  {
    hide Put, Cursor, Scrolls, After;
    CursorAfter(init, ink);
    PutCursor(s, Cursor(init).0, ink);
  }

  lemma PageStep(init: seq<Ink>, ink: Ink, attr: byte, row: nat, col: nat)
    ensures Page(init + [ink], attr, row, col) ==
            if Printable(ink.ch) && Cursor(init) == (row, col) then Glyph(ink.attr, ink.ch)
            else if row >= HEIGHT && Cursor(init).0 < row == Cursor(init + [ink]).0 then Blank(ink.attr)
            else Page(init, attr, row, col)
  {
    assert (init + [ink])[..|init|] == init;
  }

  lemma CellStep(s: Screen, init: seq<Ink>, ink: Ink, attr: byte, y: nat, x: nat)
    requires Shows(s, init, attr) && y < HEIGHT && x < WIDTH
    ensures CellShows(Put(s, ink), init + [ink], attr, y, x)
  {
    hide Put, Cell, Page, Cursor;
    PutValid(s, ink);
    PutCell(s, ink, y, x);
    CursorStep(s, init, ink);
    PageStep(init, ink, attr, Top(init + [ink]) + y, x);
    assert CellShows(s, init, attr, y, x);
    assert y + 1 < HEIGHT ==> CellShows(s, init, attr, y + 1, x);
  }

  /** The screen is the last 25 rows of the page. */
  lemma {:induction false} ScreenIsPage(text: seq<Ink>, attr: byte)
    ensures Shows(Shown(text, attr), text, attr)
  {
    hide Put, Cell, Page;
    if text == [] {
      ClearCells(attr);
    } else {
      var (init, ink) := (text[..|text| - 1], text[|text| - 1]);
      ScreenIsPage(init, attr);
      assert init + [ink] == text;
      var s := Shown(init, attr);
      PutValid(s, ink);
      CursorStep(s, init, ink);
      forall y: nat, x: nat | y < HEIGHT && x < WIDTH ensures CellShows(Put(s, ink), text, attr, y, x) {
        CellStep(s, init, ink, attr, y, x);
      }
    }
  }

  lemma ClearCells(attr: byte)
    ensures Shows(Clear(attr), [], attr)
  {
  }

  // ---------------------------------------------------------------- control characters

  /** A cell's high byte is the attribute and its low byte the character, a space in a blank one. */
  lemma GlyphIs(attr: byte, ch: byte)
    ensures Glyph(attr, ch) / 256 == attr && Glyph(attr, ch) % 256 == ch
    ensures Blank(attr) / 256 == attr && Blank(attr) % 256 == 32
  {
  }

  /** A newline goes to the start of the next row, a carriage return to the start of this one, a tab to
      the next multiple of 8, and a character one column on; past column 79 comes the next row. Other
      control characters, and those from 128 on, which are negative, do nothing. */
  lemma CursorNext(text: seq<Ink>, ink: Ink)
    ensures var (row, col) := Cursor(text);
            Cursor(text + [ink]) ==
            if ink.ch == 10 then (row + 1, 0)
            else if ink.ch == 13 then (row, 0)
            else if ink.ch == 9 then (if col >= 72 then (row + 1, 0) else (row, col - col % 8 + 8))
            else if ink.ch >= 32 then (if col == 79 then (row + 1, 0) else (row, col + 1))
            else (row, col)
  {
    hide Cursor;
    CursorAfter(text, ink);
  }

  /** Whatever stands before it, a line of printable characters after a newline starts at column 0 of
      the next row, and after a carriage return at column 0 of the same row. */
  lemma {:induction false} LineCursor(text: seq<Ink>, start: Ink, line: seq<Ink>)
    requires start.ch == 10 || start.ch == 13
    requires forall i :: 0 <= i < |line| ==> Printable(line[i].ch)
    ensures var row := Cursor(text).0 + if start.ch == 10 then 1 else 0;
            Cursor(text + [start] + line) == (row + |line| / 80, |line| % 80)
    decreases |line|
  {
    hide Cursor;
    if line == [] {
      assert text + [start] + line == text + [start];
      CursorNext(text, start);
    } else {
      var (init, last) := (line[..|line| - 1], line[|line| - 1]);
      LineCursor(text, start, init);
      CursorNext(text + [start] + init, last);
      assert (text + [start] + init) + [last] == text + [start] + line;
    }
  }

  // ---------------------------------------------------------------- plain text

  /** A text with nothing to move the cursor but its characters is broken every 80 characters:
      character n of it stands in row n / 80, column n % 80 of the page. */
  lemma {:induction false} PlainCursor(text: seq<Ink>)
    requires forall i :: 0 <= i < |text| ==> Printable(text[i].ch)
    ensures Cursor(text) == (|text| / 80, |text| % 80)
  {
    if text != [] { PlainCursor(text[..|text| - 1]); }
  }

  lemma {:induction false} PlainPage(text: seq<Ink>, attr: byte, n: nat)
    requires forall i :: 0 <= i < |text| ==> Printable(text[i].ch)
    requires n < |text| && Printable(text[n].ch)
    ensures Page(text, attr, n / 80, n % 80) == Glyph(text[n].attr, text[n].ch)
  {
    var init := text[..|text| - 1];
    PlainCursor(init);
    PlainCursor(text);
    if n < |init| { PlainPage(init, attr, n); }
  }
}
