/** The console on its video memory (kernel/console.c). */
module Console {
  import opened CTypes
  import opened ConsoleModel

  class Terminal {
    const vgaBuffer: array<u16>
    var x: nat
    var y: nat
    var attr: byte
    /** What has been written since the screen was last cleared, and the attribute it was cleared with. */
    ghost var text: seq<Ink>
    ghost var paper: byte

    ghost predicate Sized()
      reads this, vgaBuffer
    {
      vgaBuffer.Length == CELLS && x < WIDTH && y < HEIGHT
    }

    ghost function State(): Screen
      reads this, vgaBuffer
    {
      Screen(vgaBuffer[..], x, y)
    }

    /** The screen shows the end of the page that the text makes. */
    ghost predicate Valid()
      reads this, vgaBuffer
    {
      Sized() && State() == Shown(text, paper)
    }

    /** console_init on 80 by 25 cells of video memory. */
    constructor (vgaBuffer: array<u16>, attr: byte)
      requires vgaBuffer.Length == CELLS
      modifies vgaBuffer
      ensures Valid() && text == [] && this.vgaBuffer == vgaBuffer && this.attr == attr
      ensures Shows(State(), text, attr)
    {
      this.vgaBuffer, this.attr, x, y := vgaBuffer, attr, 0, 0;
      new;
      Clear();
    }

    /** console_clear. */
    method Clear()
      requires vgaBuffer.Length == CELLS
      modifies this`x, this`y, this`text, this`paper, vgaBuffer
      ensures Valid() && text == [] && paper == attr
      ensures Shows(State(), text, paper)
    {
      var row: nat := 0;
      while row < HEIGHT
        invariant row <= HEIGHT && forall i :: 0 <= i < row * WIDTH ==> vgaBuffer[i] == Blank(attr)
      {
        var col: nat := 0;
        while col < WIDTH
          invariant col <= WIDTH && forall i :: 0 <= i < row * WIDTH + col ==> vgaBuffer[i] == Blank(attr)
        {
          vgaBuffer[row * WIDTH + col] := Glyph(attr, 32);
          col := col + 1;
        }
        row := row + 1;
      }
      x, y := 0, 0;
      text, paper := [], attr;
      assert vgaBuffer[..] == ConsoleModel.Clear(attr).cells;
      ScreenIsPage(text, paper);
    }

    /** console_scroll. */
    method Scroll()
      requires vgaBuffer.Length == CELLS
      modifies this`y, vgaBuffer
      ensures vgaBuffer[..] == Scrolled(old(vgaBuffer[..]), attr)
      ensures y == if old(y) > 0 then old(y) - 1 else 0
    {
      MoveUp();
      var start := (HEIGHT - 1) * WIDTH;
      var col: nat := 0;
      while col < WIDTH
        invariant col <= WIDTH && y == old(y)
        invariant forall i :: 0 <= i < start ==> vgaBuffer[i] == old(vgaBuffer[i + WIDTH])
        invariant forall i :: start <= i < start + col ==> vgaBuffer[i] == Blank(attr)
      {
        vgaBuffer[start + col] := Glyph(attr, 32);
        col := col + 1;
      }
      if y > 0 { y := y - 1; }
    }

    /** The copying loops of console_scroll. */
    method MoveUp()
      requires vgaBuffer.Length == CELLS
      modifies vgaBuffer
      ensures forall i :: 0 <= i < CELLS - WIDTH ==> vgaBuffer[i] == old(vgaBuffer[i + WIDTH])
    {
      var row: nat := 1;
      while row < HEIGHT
        invariant 1 <= row <= HEIGHT
        invariant forall i :: 0 <= i < (row - 1) * WIDTH ==> vgaBuffer[i] == old(vgaBuffer[i + WIDTH])
        invariant forall i :: (row - 1) * WIDTH <= i < CELLS ==> vgaBuffer[i] == old(vgaBuffer[i])
      {
        MoveRow(row * WIDTH);
        row := row + 1;
      }
    }

    /** One line copied over the line above it. */
    method MoveRow(start: nat)
      requires vgaBuffer.Length == CELLS && WIDTH <= start && start + WIDTH <= CELLS
      modifies vgaBuffer
      ensures forall i :: start - WIDTH <= i < start ==> vgaBuffer[i] == old(vgaBuffer[i + WIDTH])
      ensures forall i :: 0 <= i < CELLS && !(start - WIDTH <= i < start) ==> vgaBuffer[i] == old(vgaBuffer[i])
    {
      var col: nat := 0;
      while col < WIDTH
        invariant col <= WIDTH
        invariant forall i :: start - WIDTH <= i < start - WIDTH + col ==> vgaBuffer[i] == old(vgaBuffer[i + WIDTH])
        invariant forall i :: 0 <= i < CELLS && !(start - WIDTH <= i < start - WIDTH + col) ==>
                    vgaBuffer[i] == old(vgaBuffer[i])
      {
        vgaBuffer[start - WIDTH + col] := vgaBuffer[start + col];
        col := col + 1;
      }
    }

    /** console_putc. */
    method Putc(c: schar)
      requires Valid()
      modifies this`x, this`y, this`text, vgaBuffer
      ensures Valid() && text == old(text) + [Ink(c, attr)] && State() == Put(old(State()), Ink(c, attr))
      ensures Shows(State(), text, paper)
    {
      PutCells(c);
      var was := text;
      text := text + [Ink(c, attr)];
      assert text[..|text| - 1] == was;
      ScreenIsPage(text, paper);
    }

    method PutCells(c: schar)
      requires Sized()
      modifies this`x, this`y, vgaBuffer
      ensures Sized() && State() == Put(old(State()), Ink(c, attr))
    {
      if c == 10 {
        x := 0;
        y := y + 1;
      } else if c == 13 {
        x := 0;
      } else if c == 9 {
        x := (x + 8) / 8 * 8;
      } else if c >= 32 {
        vgaBuffer[y * WIDTH + x] := Glyph(attr, c);
        x := x + 1;
      }
      if x >= WIDTH {
        x := 0;
        y := y + 1;
      }
      if y >= HEIGHT { Scroll(); }
    }

    /** console_puts, given the characters before the NUL. */
    method Puts(str: seq<schar>)
      requires Valid()
      modifies this`x, this`y, this`text, vgaBuffer
      ensures Valid() && text == old(text) + Inked(str, attr)
    {
      hide Shown, Put;
      var i := 0;
      while i < |str|
        invariant 0 <= i <= |str| && Valid()
        invariant text == old(text) + Inked(str[..i], attr)
      {
        Putc(str[i]);
        i := i + 1;
      }
      assert str[..i] == str;
    }

    /** console_set_attr. */
    method SetAttr(attr: byte)
      requires Valid()
      modifies this`attr
      ensures Valid() && this.attr == attr
    {
      this.attr := attr;
    }
  }
}
