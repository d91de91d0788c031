/**
 The text terminal (kernel/drivers/terminal.c): 25 rows of 80 cells that scroll by copying.
 It shows a window over an unbounded sheet on which nothing ever moves.
 */
module Terminal {
  import opened Words

  const WIDTH: nat := 80
  const HEIGHT: nat := 25
  const SIZE: nat := 2000
  const TAB: nat := 4

  type Char = n: nat | n < 256

  const NEWLINE: Char := 10
  const TABULATOR: Char := 9
  const BACKSPACE: Char := 8

  // ------------------------------------------------------------------- sheet

  /** An unbounded sheet, zero where nothing was written; the cursor; and the first visible row. */
  datatype Sheet = Sheet(cells: map<nat, u16>, cursor: nat, top: nat)

  ghost function Cell(s: Sheet, i: nat): u16 {
    if i in s.cells then s.cells[i] else 0
  }

  /** C extends the sign of a character above 127 over the colour. */
  function Colored(c: Char, color: u16): u16 {
    if c < 128 then color * 0x100 % 0x10000 + c else 0xFF00 + c
  }

  /** The character is in the low byte, and its colour in the high one exactly if the character has only
      7 bits or the colour is all ones anyway. */
  lemma ColoredParts(c: Char, color: u16)
    ensures Colored(c, color) % 0x100 == c
    ensures Colored(c, color) / 0x100 == color % 0x100 <==> c < 128 || color % 0x100 == 0xFF
  {
  }

  /** An accented letter of code page 437 on black turns up with every colour bit set. */
  lemma AccentLosesColor()
    ensures Colored(0x82, 0x0F) == 0xFF82
  {
  }

  /** The window follows the cursor down, one row at a time. */
  ghost function Follow(s: Sheet): Sheet {
    if s.cursor >= s.top * WIDTH + SIZE then s.(top := s.top + 1) else s
  }

  /** What a character does to the sheet before the window follows. */
  ghost function Struck(s: Sheet, c: Char, color: u16): Sheet {
    if c == NEWLINE then s.(cursor := s.cursor + (WIDTH - s.cursor % WIDTH))
    else if c == TABULATOR then s.(cursor := s.cursor + (TAB - s.cursor % WIDTH % TAB))
    else if c == BACKSPACE then
      var at := if s.cursor > s.top * WIDTH then s.cursor - 1 else s.cursor;
      s.(cells := s.cells[at := Colored(0, color)], cursor := at)
    else s.(cells := s.cells[s.cursor := Colored(c, color)], cursor := s.cursor + 1)
  }

  ghost function Type(s: Sheet, c: Char, color: u16): Sheet { Follow(Struck(s, c, color)) }

  ghost function TypeAll(s: Sheet, text: seq<Char>, color: u16): Sheet {
    if text == [] then s else Type(TypeAll(s, text[..|text| - 1], color), text[|text| - 1], color)
  }

  const BLANK := Sheet(map[], 0, 0)

  /** A newline goes to the start of the next row. */
  lemma NewlineMeans(s: Sheet, color: u16)
    ensures var t := Type(s, 10, color); t.cells == s.cells && t.cursor == (s.cursor / 80 + 1) * 80
  {
    assert s.cursor == s.cursor / WIDTH * WIDTH + s.cursor % WIDTH;
  }

  /** A tabulator goes to the next multiple of four. */
  lemma TabMeans(s: Sheet, color: u16)
    ensures var t := Type(s, 9, color);
      t.cells == s.cells && t.cursor % 4 == 0 && s.cursor < t.cursor <= s.cursor + 4
  {
    var row, column := s.cursor / WIDTH, s.cursor % WIDTH;
    assert s.cursor == row * WIDTH + column;
    assert s.cursor + (TAB - column % TAB) == (row * 20 + column / TAB + 1) * TAB;
  }

  ghost predicate IsGlyph(c: Char) { c != 8 && c != 9 && c != 10 }

  /** A text without control characters is put at the cursor, character by character, and nothing else
      changes on the sheet. */
  lemma {:induction false} GlyphsMean(s: Sheet, text: seq<Char>, color: u16)
    requires forall c <- text :: IsGlyph(c)
    ensures var t := TypeAll(s, text, color);
      && t.cursor == s.cursor + |text|
      && (forall k :: 0 <= k < |text| ==> Cell(t, s.cursor + k) == Colored(text[k], color))
      && (forall i: nat :: i < s.cursor || i >= s.cursor + |text| ==> Cell(t, i) == Cell(s, i))
  {
    if text != [] {
      var init, c := text[..|text| - 1], text[|text| - 1];
      GlyphsMean(s, init, color);
      assert IsGlyph(c);
      assert forall k :: 0 <= k < |init| ==> text[k] == init[k];
    }
  }

  /** The cursor is in the window, and nothing is written below it. */
  ghost predicate Tidy(s: Sheet) {
    && s.top * WIDTH <= s.cursor < s.top * WIDTH + SIZE
    && forall i <- s.cells.Keys :: i < s.top * WIDTH + SIZE
  }

  /** At worst the cursor is just below the window. */
  ghost predicate AlmostTidy(s: Sheet) {
    && s.top * WIDTH <= s.cursor <= s.top * WIDTH + SIZE
    && forall i <- s.cells.Keys :: i < s.top * WIDTH + SIZE
  }

  lemma StruckTidy(s: Sheet, c: Char, color: u16)
    requires Tidy(s)
    ensures AlmostTidy(Struck(s, c, color))
  {
    if c == NEWLINE {
      RowEnd(s.cursor, s.top + HEIGHT);
    } else if c == TABULATOR {
      TabStop(s.cursor, s.top + HEIGHT);
    }
  }

  /** A backspace takes back the character before it, also one that made the window move. */
  lemma BackspaceTakesBack(s: Sheet, c: Char, color: u16)
    requires Tidy(s) && IsGlyph(c)
    ensures var t := Type(Type(s, c, color), 8, color);
      t.cursor == s.cursor && forall i: nat :: Cell(t, i) == if i == s.cursor then Colored(0, color) else Cell(s, i)
  {
    StruckTidy(s, c, color);
  }

  /** In general it clears the cell before the cursor and goes there, but not over the top of the window. */
  lemma BackspaceMeans(s: Sheet, color: u16)
    requires Tidy(s)
    ensures var t := Type(s, 8, color);
      && t.cursor == (if s.cursor > s.top * 80 then s.cursor - 1 else s.cursor) && t.top == s.top
      && forall i: nat :: Cell(t, i) == if i == t.cursor then Colored(0, color) else Cell(s, i)
  {
  }

  /** The window of 25 rows moves down by one row, when the cursor leaves it, and never otherwise. */
  lemma WindowFollows(s: Sheet, c: Char, color: u16)
    requires Tidy(s)
    ensures var t := Type(s, c, color);
      && t.top == (if t.cursor >= (s.top + 25) * 80 then s.top + 1 else s.top)
      && t.top * 80 <= t.cursor < (t.top + 25) * 80
  {
    StruckTidy(s, c, color);
    FollowTidy(Struck(s, c, color));
  }

  lemma FollowTidy(s: Sheet)
    requires AlmostTidy(s)
    ensures Tidy(Follow(s))
  {
  }

  lemma RowEnd(cursor: nat, rows: nat)
    requires cursor < rows * WIDTH
    ensures cursor + (WIDTH - cursor % WIDTH) <= rows * WIDTH
  {
    assert cursor == cursor / WIDTH * WIDTH + cursor % WIDTH;
    assert cursor / WIDTH < rows;
  }

  lemma TabStop(cursor: nat, rows: nat)
    requires cursor < rows * WIDTH
    ensures cursor + (TAB - cursor % WIDTH % TAB) <= rows * WIDTH
  {
    RowEnd(cursor, rows);
    assert cursor % WIDTH + (TAB - cursor % WIDTH % TAB) <= WIDTH;
  }

  lemma SameColumn(pos: nat, top: nat)
    ensures (top * WIDTH + pos) % WIDTH == pos % WIDTH
  {
  }

  // ---------------------------------------------------------------- terminal

  /** `mmove16`: a forward copy, right for overlapping ranges when it moves down in memory. */
  method MoveForward(buf: array<u16>, dst: nat, src: nat, count: nat)
    requires dst <= src && src + count <= buf.Length
    modifies buf
    ensures forall i :: 0 <= i < buf.Length ==>
      buf[i] == if dst <= i < dst + count then old(buf[src + (i - dst)]) else old(buf[i])
  {
    for k := 0 to count
      invariant forall i :: 0 <= i < buf.Length ==>
        buf[i] == if dst <= i < dst + k then old(buf[src + (i - dst)]) else old(buf[i])
    {
      buf[dst + k] := buf[src + k];
    }
  }

  /** `mset16`. */
  method Fill(buf: array<u16>, dst: nat, val: u16, count: nat)
    requires dst + count <= buf.Length
    modifies buf
    ensures forall i :: 0 <= i < buf.Length ==> buf[i] == if dst <= i < dst + count then val else old(buf[i])
  {
    for k := 0 to count
      invariant forall i :: 0 <= i < buf.Length ==> buf[i] == if dst <= i < dst + k then val else old(buf[i])
    {
      buf[dst + k] := val;
    }
  }

  /** Every row moves up by one, and the last becomes empty. */
  method ScrollUp(buf: array<u16>)
    requires buf.Length == SIZE
    modifies buf
    ensures forall i :: 0 <= i < SIZE ==> buf[i] == if i + WIDTH < SIZE then old(buf[i + WIDTH]) else 0
  {
    MoveForward(buf, 0, WIDTH, SIZE - WIDTH);
    Fill(buf, WIDTH * (HEIGHT - 1), 0, WIDTH);
  }

  class Screen {
    const buf: array<u16>
    const color: u16
    var pos: nat

    /** The screen shows the sheet `s` through its window. */
    ghost predicate Shows(s: Sheet)
      reads this, buf
    {
      && buf.Length == SIZE
      && s.top * WIDTH <= s.cursor && pos == s.cursor - s.top * WIDTH
      && forall i :: 0 <= i < SIZE ==> buf[i] == Cell(s, s.top * WIDTH + i)
    }

    /** `terminal_clear`, on a buffer with any contents. */
    constructor (buf: array<u16>, color: u16)
      requires buf.Length == SIZE
      modifies buf
      ensures Shows(BLANK) && this.buf == buf && this.color == color
      ensures pos == 0 && forall i :: 0 <= i < 2000 ==> buf[i] == 0
    {
      this.buf, this.color, this.pos := buf, color, 0;
      new;
      Fill(buf, 0, 0, SIZE);
    }

    /** The scrolling at the end of `terminal_putc`. */
    method Scroll(ghost s: Sheet)
      requires Shows(s) && AlmostTidy(s)
      modifies this`pos, buf
      ensures Shows(Follow(s))
    {
      if pos >= SIZE {
        ScrollUp(buf);
        pos := pos - WIDTH;
        ghost var t := s.(top := s.top + 1);
        forall i | 0 <= i < SIZE ensures buf[i] == Cell(t, t.top * WIDTH + i) {
          assert t.top * WIDTH + i == s.top * WIDTH + (i + WIDTH);
          assert i + WIDTH < SIZE ==> old(buf[i + WIDTH]) == Cell(s, s.top * WIDTH + (i + WIDTH));
        }
      }
    }

    /** The cursor movements of `terminal_putc`. */
    method MoveCursor(c: Char, ghost s: Sheet)
      requires Shows(s) && Tidy(s) && (c == NEWLINE || c == TABULATOR)
      modifies this`pos
      ensures Shows(Struck(s, c, color))
    {
      var lineBegin := pos % WIDTH;
      SameColumn(pos, s.top);
      if c == NEWLINE {
        pos := pos + (WIDTH - lineBegin);
      } else {
        var tabOffs := lineBegin % TAB;
        pos := pos + (TAB - tabOffs);
      }
    }

    /** The switch of `terminal_putc`. */
    method Strike(c: Char, ghost s: Sheet)
      requires Shows(s) && Tidy(s)
      modifies this`pos, buf
      ensures Shows(Struck(s, c, color))
    {
      if c == NEWLINE || c == TABULATOR {
        MoveCursor(c, s);
      } else if c == BACKSPACE {
        if pos != 0 {
          pos := pos - 1;
        }
        buf[pos] := Colored(0, color);
      } else {
        buf[pos] := Colored(c, color);
        pos := pos + 1;
      }
    }

    /** `terminal_putc`. */
    method Putc(c: Char, ghost s: Sheet)
      requires Shows(s) && Tidy(s)
      modifies this`pos, buf
      ensures Shows(Type(s, c, color)) && Tidy(Type(s, c, color))
    {
      StruckTidy(s, c, color);
      FollowTidy(Struck(s, c, color));
      Strike(c, s);
      Scroll(Struck(s, c, color));
    }

    /** `terminal_write`: the screen always shows what typing the text on the sheet would leave there. */
    method Write(text: seq<Char>, ghost s: Sheet)
      requires Shows(s) && Tidy(s)
      modifies this`pos, buf
      ensures Shows(TypeAll(s, text, color)) && Tidy(TypeAll(s, text, color)) && pos < 2000
    {
      for i := 0 to |text|
        invariant Shows(TypeAll(s, text[..i], color)) && Tidy(TypeAll(s, text[..i], color))
      {
        assert text[..i + 1][..i] == text[..i];
        Putc(text[i], TypeAll(s, text[..i], color));
      }
      assert text[..|text|] == text;
    }
  }

  // -------------------------------------------------------- what is on a sheet

  /** Everything written is above the cursor, and the window ends in the cursor's row. */
  ghost predicate Plain(s: Sheet) {
    && (forall i <- s.cells.Keys :: i < s.cursor)
    && (forall i: nat :: i >= s.cursor ==> Cell(s, i) == 0)
    && s.top == if s.cursor / 80 >= 25 then s.cursor / 80 - 24 else 0
  }

  /** `t` has all that `s` has above its cursor. */
  ghost predicate Extends(s: Sheet, t: Sheet) {
    s.cursor <= t.cursor && forall i: nat :: i < s.cursor ==> Cell(t, i) == Cell(s, i)
  }

  lemma TypePlain(s: Sheet, c: Char, color: u16)
    requires Plain(s) && c != BACKSPACE
    ensures Plain(Type(s, c, color)) && Extends(s, Type(s, c, color))
  {
  }

  /** Without backspaces nothing written is ever changed, and the window ends in the cursor's row. */
  lemma {:induction false} AppendOnly(s: Sheet, text: seq<Char>, color: u16)
    requires Plain(s) && BACKSPACE !in text
    ensures Plain(TypeAll(s, text, color)) && Extends(s, TypeAll(s, text, color))
  {
    if text != [] {
      AppendOnly(s, text[..|text| - 1], color);
      TypePlain(TypeAll(s, text[..|text| - 1], color), text[|text| - 1], color);
    }
  }
}
