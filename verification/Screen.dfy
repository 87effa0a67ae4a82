/** screen.c: the 80 by 25 text buffer, in place, as a window on an endless grid of 80 columns. */
module Screen {
  import opened ByteMemory

  const ROWS_NUM := 25
  const COLS_NUM := 80
  const BLANK: Byte := 32
  const NEWLINE: Byte := 10
  const BACKSPACE: Byte := 8
  const TAB: Byte := 9

  /** A character and its colours. */
  datatype Cell = Cell(glyph: Byte, attributes: Byte)

  /** A blank in light gray on black: what scrolling and clearing leave. */
  const EMPTY := Cell(BLANK, 7)

  // ---------- the endless grid ----------

  /** Cells by position in reading order, empty where nothing was written; the cursor; the first visible row. */
  datatype Grid = Grid(cells: map<nat, Cell>, cursor: nat, top: nat)
  {
    function At(p: nat): Cell {
      if p in cells then cells[p] else EMPTY
    }

    function Set(p: nat, c: Cell): Grid {
      this.(cells := cells[p := c])
    }

    /** The cursor on the screen. */
    function Offset(): int {
      cursor - COLS_NUM * top
    }

    /** The position behind the last visible cell. */
    function End(): nat {
      COLS_NUM * (top + ROWS_NUM)
    }
  }

  /** The grid after i of the four blanks of a tab. */
  function Tabbed(g: Grid, blank: Cell, i: nat): Grid {
    if i == 0 then g else Tabbed(g, blank, i - 1).Set(g.cursor + i - 1, blank)
  }

  lemma {:induction false} TabbedAt(g: Grid, blank: Cell, i: nat, p: nat)
    ensures Tabbed(g, blank, i).top == g.top && Tabbed(g, blank, i).cursor == g.cursor
    ensures Tabbed(g, blank, i).At(p) == if g.cursor <= p < g.cursor + i then blank else g.At(p)
  {
    if i > 0 {
      TabbedAt(g, blank, i - 1, p);
    }
  }

  /** Writing a character on the grid: nothing scrolls, nothing is lost. */
  function Write(g: Grid, c: Byte, attributes: Byte): Grid {
    var blank := Cell(BLANK, attributes);
    if c == NEWLINE then g.(cursor := (g.cursor / COLS_NUM + 1) * COLS_NUM)
    else if c == BACKSPACE then
      if g.cursor == 0 then g else g.Set(g.cursor - 1, blank).(cursor := g.cursor - 1)
    else if c == TAB then Tabbed(g, blank, 4).(cursor := g.cursor + 4)
    else g.Set(g.cursor, Cell(c, attributes)).(cursor := g.cursor + 1)
  }

  /** The window moves down one row when the cursor leaves it. The row that comes in is empty: the colours of blanks
      that a tab has written beyond the last cell are lost. */
  function Follow(g: Grid): Grid {
    if g.Offset() < COLS_NUM * ROWS_NUM then g
    else Grid(map p | p in g.cells && p < g.End() :: g.cells[p], g.cursor, g.top + 1)
  }

  function Print(g: Grid, c: Byte, attributes: Byte): Grid {
    Follow(Write(g, c, attributes))
  }

  function PrintAll(g: Grid, s: seq<Byte>, attributes: Byte): Grid {
    if s == [] then g else Print(PrintAll(g, s[..|s| - 1], attributes), s[|s| - 1], attributes)
  }

  /** No backspace is printed with the cursor in the first cell of the screen. */
  predicate NoUnderflow(g: Grid, s: seq<Byte>, attributes: Byte) {
    s == [] ||
    (&& NoUnderflow(g, s[..|s| - 1], attributes)
     && !(s[|s| - 1] == BACKSPACE && PrintAll(g, s[..|s| - 1], attributes).Offset() == 0))
  }

  /** Below the window the grid is empty, and the cursor is in it. */
  ghost predicate InWindow(g: Grid) {
    && 0 <= g.Offset() < COLS_NUM * ROWS_NUM
    && forall p: nat :: p >= g.End() ==> g.At(p) == EMPTY
  }

  /** The visible cells are those of the grid. */
  ghost predicate Shows(video: seq<Byte>, g: Grid) {
    && |video| == 0x8000
    && forall i: nat :: i < COLS_NUM * ROWS_NUM ==> CellAt(video, i) == g.At(COLS_NUM * g.top + i)
  }

  /** Cell i of the buffer. */
  function CellAt(video: seq<Byte>, i: int): Cell {
    if 0 <= i && 2 * i + 1 < |video| then Cell(video[2 * i], video[2 * i + 1]) else EMPTY
  }

  /** The visible cells agree with the grid; below the window there are only blanks, and from `limit` on nothing. */
  ghost predicate Drawn(video: seq<Byte>, g: Grid, limit: nat) {
    && Shows(video, g)
    && (forall p: nat :: p >= g.End() ==> g.At(p).glyph == BLANK)
    && (forall p: nat :: p >= g.End() && p >= limit ==> g.At(p) == EMPTY)
  }

  /** One cell, on the screen and on the grid. */
  lemma CellDrawn(video: seq<Byte>, video': seq<Byte>, g: Grid, i: nat, c: Cell, limit: nat, limit': nat)
    requires Drawn(video, g, limit) && |video'| == |video| && 2 * i + 1 < |video|
    requires CellAt(video', i) == c && forall k :: 0 <= k < |video| && k != 2 * i && k != 2 * i + 1 ==>
      video'[k] == video[k]
    requires i < COLS_NUM * ROWS_NUM || c.glyph == BLANK
    requires limit <= limit' && COLS_NUM * g.top + i < limit'
    ensures Drawn(video', g.Set(COLS_NUM * g.top + i, c), limit')
  {
    var g' := g.Set(COLS_NUM * g.top + i, c);
    forall j: nat | j < COLS_NUM * ROWS_NUM
      ensures CellAt(video', j) == g'.At(COLS_NUM * g'.top + j)
    {
      assert CellAt(video, j) == g.At(COLS_NUM * g.top + j);
    }
    forall p: nat | p >= g'.End()
      ensures g'.At(p).glyph == BLANK && (p >= limit' ==> g'.At(p) == EMPTY)
    {
      assert g.At(p).glyph == BLANK && (p >= limit' ==> g.At(p) == EMPTY);
    }
  }

  /** What scroll does to the visible cells. */
  ghost predicate Scrolled(video: seq<Byte>, video': seq<Byte>) {
    forall i: nat :: i < 2000 ==> CellAt(video', i) == if i < 1920 then CellAt(video, i + 80) else EMPTY
  }

  /** Scrolling by a row is moving the window. */
  lemma ScrollFollows(video: seq<Byte>, video': seq<Byte>, g: Grid, limit: nat)
    requires Drawn(video, g, limit) && |video'| == |video| && 0 <= g.Offset() < COLS_NUM * (ROWS_NUM + 1)
    requires if g.Offset() < COLS_NUM * ROWS_NUM then video' == video && limit <= g.End() else Scrolled(video, video')
    ensures Shows(video', Follow(g)) && InWindow(Follow(g))
  {
    if g.Offset() >= COLS_NUM * ROWS_NUM {
      var g' := Follow(g);
      forall i: nat | i < COLS_NUM * ROWS_NUM
        ensures CellAt(video', i) == g'.At(COLS_NUM * g'.top + i)
      {
        if i < 1920 {
          assert CellAt(video, i + 80) == g.At(COLS_NUM * g.top + (i + 80));
        }
      }
    }
  }

  /** Moving the cursor draws nothing. */
  lemma MovedDrawn(video: seq<Byte>, g: Grid, cursor: nat, limit: nat)
    requires Drawn(video, g, limit)
    ensures Drawn(video, g.(cursor := cursor), limit)
  {
    var g' := g.(cursor := cursor);
    forall p: nat
      ensures g'.At(p) == g.At(p)
    {
    }
    forall i: nat | i < COLS_NUM * ROWS_NUM
      ensures CellAt(video, i) == g'.At(COLS_NUM * g'.top + i)
    {
      assert CellAt(video, i) == g.At(COLS_NUM * g.top + i);
    }
  }

  /** Where a character leaves the cursor of a screen with its cursor at `offset`, before the window follows. */
  function Moved(offset: int, c: Byte): int {
    if c == NEWLINE then (offset / COLS_NUM + 1) * COLS_NUM
    else if c == BACKSPACE then offset - 1
    else if c == TAB then offset + 4
    else offset + 1
  }

  lemma MovedBounds(offset: int, c: Byte)
    requires 0 <= offset < 2000 && !(c == BACKSPACE && offset == 0)
    ensures 0 <= Moved(offset, c) <= 2003
  {
  }

  lemma WriteOffset(g: Grid, c: Byte, attributes: Byte)
    requires 0 <= g.Offset() && !(c == BACKSPACE && g.Offset() == 0)
    ensures Write(g, c, attributes).top == g.top && Write(g, c, attributes).Offset() == Moved(g.Offset(), c)
  {
    if c == NEWLINE {
      RowsApart(g.cursor, g.top);
    }
    TabbedAt(g, Cell(BLANK, attributes), 4, 0);
  }

  lemma RowsApart(cursor: nat, top: nat)
    requires COLS_NUM * top <= cursor
    ensures (cursor - COLS_NUM * top) / COLS_NUM == cursor / COLS_NUM - top
  {
    var q, r := cursor / COLS_NUM, cursor % COLS_NUM;
    assert cursor - COLS_NUM * top == COLS_NUM * (q - top) + r;
  }

  // ---------- cell by cell ----------

  /** The cells that a character strikes with the cursor at `offset`: none for a line feed, the one before the
      cursor for a backspace, four for a tab, and else the one at the cursor. */
  predicate Strikes(offset: int, c: Byte, j: int) {
    if c == '\n' as int then false
    else if c == 8 then j == offset - 1
    else if c == '\t' as int then offset <= j < offset + 4
    else j == offset
  }

  /** What is to be seen in them: a blank for a backspace and a tab, else the character. */
  function GlyphOf(c: Byte): Byte {
    if c == 8 || c == '\t' as int then ' ' as int else c
  }

  /** Where the cursor goes. */
  function CursorTo(offset: int, c: Byte): int {
    if c == '\n' as int then (offset / 80 + 1) * 80
    else if c == 8 then offset - 1
    else if c == '\t' as int then offset + 4
    else offset + 1
  }

  /** A cell in the colours asked for. A text colour above 15 runs over into the background, as in the sum of the
      source. */
  predicate Coloured(cell: Cell, textColor: Byte, backColor: Byte) {
    && cell.attributes as int % 16 == textColor as int % 16
    && cell.attributes as int / 16 == (backColor as int + textColor as int / 16) % 16
  }

  /** What printing a character does to the screen: the struck cells show it in its colours, all others stay; the cursor
      moves; and if it has left the screen everything goes up by a row and a row of light gray blanks comes in. */
  ghost predicate Typed(video: seq<Byte>, offset: int, c: Byte, textColor: Byte, backColor: Byte,
                        video': seq<Byte>, offset': int) {
    var up := if CursorTo(offset, c) < 2000 then 0 else 80;
    && offset' == CursorTo(offset, c) - up
    && forall i: nat :: i < 2000 ==> TypedCell(video, offset, c, textColor, backColor, i + up, CellAt(video', i))
  }

  /** `cell` is what cell j of the screen has become. */
  ghost predicate TypedCell(video: seq<Byte>, offset: int, c: Byte, textColor: Byte, backColor: Byte, j: int,
                            cell: Cell) {
    if j >= 2000 then cell == Cell(' ' as int, 7)
    else if Strikes(offset, c, j) then cell.glyph == GlyphOf(c) && Coloured(cell, textColor, backColor)
    else cell == CellAt(video, j)
  }

  lemma WriteStrikes(g: Grid, c: Byte, attributes: Byte, p: nat)
    ensures Write(g, c, attributes).At(p) == if Strikes(g.cursor, c, p) then Cell(GlyphOf(c), attributes) else g.At(p)
  {
    TabbedAt(g, Cell(BLANK, attributes), 4, p);
  }

  lemma LowByte(q: nat, y: nat)
    requires y < 256
    ensures (q * 256 + y) % 256 == y
  {
  }

  lemma Nibbles(high: nat, low: nat)
    requires low < 16
    ensures (high * 16 + low) % 16 == low && (high * 16 + low) / 16 == high
  {
  }

  lemma AttributesColour(textColor: Byte, backColor: Byte, glyph: Byte)
    ensures Coloured(Cell(glyph, Attributes(textColor, backColor)), textColor, backColor)
  {
    var t, b := textColor as int, backColor as int;
    var sum := b + t / 16;
    assert b * 16 + t == sum * 16 + t % 16;
    LowByte(sum / 16, sum % 16 * 16 + t % 16);
    Nibbles(sum % 16, t % 16);
  }

  /** A blank in light gray on black is what scrolling and clearing leave. */
  lemma GrayOnBlack(cell: Cell)
    requires Coloured(cell, 7, 0) && cell.glyph as char == ' '
    ensures cell == EMPTY
  {
  }

  lemma PrintedCell(video: seq<Byte>, g: Grid, c: Byte, textColor: Byte, backColor: Byte, video': seq<Byte>, i: nat)
    requires InWindow(g) && Shows(video, g) && i < 2000 && !(c == BACKSPACE && g.Offset() == 0)
    requires Shows(video', Print(g, c, Attributes(textColor, backColor)))
    ensures var up := if CursorTo(g.Offset(), c) < 2000 then 0 else 80;
      TypedCell(video, g.Offset(), c, textColor, backColor, i + up, CellAt(video', i))
  {
    var attributes := Attributes(textColor, backColor);
    var w, g' := Write(g, c, attributes), Print(g, c, attributes);
    WriteOffset(g, c, attributes);
    AttributesColour(textColor, backColor, GlyphOf(c));
    var j := i + if CursorTo(g.Offset(), c) < 2000 then 0 else 80;
    var p := COLS_NUM * g.top + j;
    assert CellAt(video', i) == g'.At(COLS_NUM * g'.top + i) && COLS_NUM * g'.top + i == p;
    WriteStrikes(g, c, attributes, p);
    if j < 2000 {
      assert CellAt(video, j) == g.At(p);
      assert Strikes(g.cursor, c, p) == Strikes(g.Offset(), c, j);
    }
  }

  lemma PrintTyped(video: seq<Byte>, g: Grid, c: Byte, textColor: Byte, backColor: Byte, video': seq<Byte>)
    requires InWindow(g) && Shows(video, g) && !(c == BACKSPACE && g.Offset() == 0)
    requires Shows(video', Print(g, c, Attributes(textColor, backColor)))
    ensures Typed(video, g.Offset(), c, textColor, backColor, video', Print(g, c, Attributes(textColor,
      backColor)).Offset())
  {
    WriteOffset(g, c, Attributes(textColor, backColor));
    forall i: nat | i < 2000
      ensures var up := if CursorTo(g.Offset(), c) < 2000 then 0 else 80;
        TypedCell(video, g.Offset(), c, textColor, backColor, i + up, CellAt(video', i))
    {
      PrintedCell(video, g, c, textColor, backColor, video', i);
    }
  }

  // ---------- nothing but colours is lost ----------

  /** The grid when nothing ever scrolls. */
  function Endless(g: Grid, s: seq<Byte>, attributes: Byte): Grid {
    if s == [] then g else Write(Endless(g, s[..|s| - 1], attributes), s[|s| - 1], attributes)
  }

  /** The same characters and the same cursor. */
  ghost predicate SameText(g: Grid, h: Grid) {
    g.cursor == h.cursor && forall p: nat :: g.At(p).glyph == h.At(p).glyph
  }

  lemma WriteSameGlyph(g: Grid, h: Grid, c: Byte, attributes: Byte, p: nat)
    requires g.cursor == h.cursor && g.At(p).glyph == h.At(p).glyph
    ensures Write(g, c, attributes).At(p).glyph == Write(h, c, attributes).At(p).glyph
  {
    TabbedAt(g, Cell(BLANK, attributes), 4, p);
    TabbedAt(h, Cell(BLANK, attributes), 4, p);
  }

  lemma WriteSameText(g: Grid, h: Grid, c: Byte, attributes: Byte)
    requires SameText(g, h)
    ensures SameText(Write(g, c, attributes), Write(h, c, attributes))
  {
    forall p: nat
      ensures Write(g, c, attributes).At(p).glyph == Write(h, c, attributes).At(p).glyph
    {
      WriteSameGlyph(g, h, c, attributes, p);
    }
  }

  /** Below the window a write leaves only blanks. */
  lemma WriteBlankBelow(g: Grid, c: Byte, attributes: Byte, p: nat)
    requires InWindow(g) && p >= g.End()
    ensures Write(g, c, attributes).At(p).glyph == BLANK
  {
    assert g.At(p) == EMPTY && g.cursor < g.End();
    TabbedAt(g, Cell(BLANK, attributes), 4, p);
  }

  lemma FollowSameText(g: Grid)
    requires forall p: nat :: p >= g.End() ==> g.At(p).glyph == BLANK
    ensures SameText(Follow(g), g)
  {
  }

  /** What a character leaves keeps the invariant of the window. */
  lemma PrintInWindow(g: Grid, c: Byte, attributes: Byte)
    requires InWindow(g) && !(c == BACKSPACE && g.Offset() == 0)
    ensures InWindow(Print(g, c, attributes))
  {
    WriteOffset(g, c, attributes);
    MovedBounds(g.Offset(), c);
    var w := Write(g, c, attributes);
    if w.Offset() < COLS_NUM * ROWS_NUM {
      forall p: nat | p >= w.End()
        ensures w.At(p) == EMPTY
      {
        assert g.At(p) == EMPTY;
        TabbedAt(g, Cell(BLANK, attributes), 4, p);
      }
    }
  }

  /** The screen shows the characters of a grid on which nothing ever scrolls. */
  lemma {:induction false} NothingIsLost(g: Grid, s: seq<Byte>, attributes: Byte)
    requires InWindow(g) && NoUnderflow(g, s, attributes)
    ensures InWindow(PrintAll(g, s, attributes))
    ensures SameText(PrintAll(g, s, attributes), Endless(g, s, attributes))
  {
    if s != [] {
      var n := |s| - 1;
      NothingIsLost(g, s[..n], attributes);
      var g1, h1 := PrintAll(g, s[..n], attributes), Endless(g, s[..n], attributes);
      PrintInWindow(g1, s[n], attributes);
      WriteSameText(g1, h1, s[n], attributes);
      forall p: nat | p >= Write(g1, s[n], attributes).End()
        ensures Write(g1, s[n], attributes).At(p).glyph == BLANK
      {
        WriteOffset(g1, s[n], attributes);
        WriteBlankBelow(g1, s[n], attributes, p);
      }
      FollowSameText(Write(g1, s[n], attributes));
    }
  }

  class Screen {
    const video: array<Byte>
    var high: Byte
    var low: Byte

    ghost predicate Valid() {
      video.Length == 0x8000
    }

    /** The video memory, with the cursor registers as they are found. */
    constructor (video: array<Byte>, high: Byte, low: Byte)
      requires video.Length == 0x8000
      ensures Valid() && this.video == video && Cursor() == high * 0x100 + low
    {
      this.video, this.high, this.low := video, high, low;
    }

    ghost function Cursor(): int
      reads this
    {
      high * 0x100 + low
    }

    method GetCursorOffset() returns (offset: int)
      ensures offset == Cursor()
    {
      offset := high as int * 0x100;
      offset := offset + low as int;
    }

    /** The cursor register holds 16 bits. */
    method SetCursorOffset(offset: int)
      requires 0 <= offset < 0x1_0000_0000
      modifies this`high, this`low
      ensures high == offset / 0x100 % 0x100 && low == offset % 0x100 && Cursor() == offset % 0x1_0000
    {
      high := offset / 0x100 % 0x100;
      low := offset % 0x100;
    }

    /** memory_copy of one row, then the next: everything moves up by 160 bytes. */
    method CopyRows()
      requires Valid()
      modifies video
      ensures forall k :: 0 <= k < 3840 ==> video[k] == old(video[k + 160])
      ensures forall k :: 3840 <= k < video.Length ==> video[k] == old(video[k])
    {
      for i := 1 to ROWS_NUM
        invariant forall k :: 0 <= k < 160 * (i - 1) ==> video[k] == old(video[k + 160])
        invariant forall k :: 160 * (i - 1) <= k < video.Length ==> video[k] == old(video[k])
      {
        for b := 0 to 160
          invariant forall k :: 0 <= k < 160 * (i - 1) + b ==> video[k] == old(video[k + 160])
          invariant forall k :: 160 * (i - 1) + b <= k < video.Length ==> video[k] == old(video[k])
        {
          video[(i - 1) * 160 + b] := video[i * 160 + b];
        }
      }
    }

    /** memory_fill of the last row with the two bytes of the sample. */
    method BlankLastRow()
      requires Valid()
      modifies video
      ensures forall k :: 0 <= k < video.Length && !(3840 <= k < 4000) ==> video[k] == old(video[k])
      ensures forall k :: 3840 <= k < 4000 ==> video[k] == if k % 2 == 0 then BLANK else 7
    {
      for i := 0 to COLS_NUM
        invariant forall k :: 0 <= k < video.Length && !(3840 <= k < 4000) ==> video[k] == old(video[k])
        invariant forall k :: 3840 <= k < 3840 + 2 * i ==> video[k] == if k % 2 == 0 then BLANK else 7
      {
        video[3840 + i * 2 + 0] := BLANK;
        video[3840 + i * 2 + 1] := 7;
      }
    }

    method Scroll(cursorOffset: int) returns (r: int)
      requires Valid() && 0 <= cursorOffset
      modifies video
      ensures cursorOffset < 4000 ==> r == cursorOffset && video[..] == old(video[..])
      ensures cursorOffset >= 4000 ==> r == cursorOffset - 160 && Scrolled(old(video[..]), video[..])
      ensures forall k :: 4000 <= k < video.Length ==> video[k] == old(video[k])
    {
      if cursorOffset < COLS_NUM * ROWS_NUM * 2 { return cursorOffset; }
      CopyRows();
      BlankLastRow();
      r := cursorOffset - COLS_NUM * 2;
    }

    /** Write a character and its attributes. */
    method PutCell(memOffset: int, c: Byte, attributes: Byte, ghost g: Grid, ghost i: nat, ghost limit: nat,
                   ghost limit': nat)
      requires Valid() && Drawn(video[..], g, limit) && memOffset == 2 * i < 4008 && (i < 2000 || c == BLANK)
      requires limit <= limit' && COLS_NUM * g.top + i < limit'
      modifies video
      ensures Drawn(video[..], g.Set(COLS_NUM * g.top + i, Cell(c, attributes)), limit')
    {
      ghost var before := video[..];
      video[memOffset] := c;
      video[memOffset + 1] := attributes;
      CellDrawn(before, video[..], g, i, Cell(c, attributes), limit, limit');
    }

    /** The four blanks of a tab, which may lie beyond the last cell. */
    method PutTab(memOffset: int, attributes: Byte, ghost g: Grid)
      requires Valid() && Drawn(video[..], g, 0) && 0 <= memOffset < 4000 && memOffset == 2 * g.Offset()
      modifies video
      ensures Drawn(video[..], Write(g, TAB, attributes), g.cursor + 4)
    {
      ghost var p, blank := g.cursor, Cell(BLANK, attributes);
      for i := 0 to 4
        invariant Drawn(video[..], Tabbed(g, blank, i), if i == 0 then 0 else p + i)
      {
        TabbedAt(g, blank, i, 0);
        PutCell(memOffset + 2 * i, BLANK, attributes, Tabbed(g, blank, i), g.Offset() + i,
                if i == 0 then 0 else p + i, p + i + 1);
      }
      MovedDrawn(video[..], Tabbed(g, blank, 4), p + 4, p + 4);
    }

    /** print_char_color up to the call of scroll, for a line feed and a backspace... */
    method DrawControl(c: Byte, memOffset: int, attributes: Byte, ghost g: Grid) returns (r: int)
      requires Valid() && Drawn(video[..], g, 0) && 0 <= g.Offset() < 2000 && memOffset == 2 * g.Offset()
      requires c == NEWLINE || (c == BACKSPACE && g.Offset() > 0)
      modifies video
      ensures Drawn(video[..], Write(g, c, attributes), g.End()) && r == 2 * Moved(g.Offset(), c) - 2
    {
      if c == NEWLINE {
        var rows := memOffset / 2 / COLS_NUM + 1;
        r := 2 * COLS_NUM * rows - 2;
        MovedDrawn(video[..], g, Write(g, c, attributes).cursor, 0);
      } else {
        r := memOffset - 2;
        PutCell(r, BLANK, attributes, g, g.Offset() - 1, 0, g.End());
        MovedDrawn(video[..], g.Set(g.cursor - 1, Cell(BLANK, attributes)), g.cursor - 1, g.End());
        r := r - 2;
      }
    }

    /** ... and for a tab or a character to be seen. */
    method DrawText(c: Byte, memOffset: int, attributes: Byte, ghost g: Grid) returns (r: int)
      requires Valid() && Drawn(video[..], g, 0) && 0 <= g.Offset() < 2000 && memOffset == 2 * g.Offset()
      requires c != NEWLINE && c != BACKSPACE
      modifies video
      ensures Drawn(video[..], Write(g, c, attributes), Write(g, c, attributes).cursor)
      ensures r == 2 * Moved(g.Offset(), c) - 2
    {
      if c == TAB {
        PutTab(memOffset, attributes, g);
        r := memOffset + 6;
      } else {
        PutCell(memOffset, c, attributes, g, g.Offset(), 0, g.cursor + 1);
        MovedDrawn(video[..], g.Set(g.cursor, Cell(c, attributes)), g.cursor + 1, g.cursor + 1);
        r := memOffset;
      }
    }

    /** print_char_color up to the call of scroll. */
    method Draw(c: Byte, attributes: Byte, ghost g: Grid) returns (memOffset: int, ghost limit: nat)
      requires Valid() && InWindow(g) && Shows(video[..], g) && Cursor() == g.Offset()
      requires !(c == BACKSPACE && Cursor() == 0)
      modifies video
      ensures Drawn(video[..], Write(g, c, attributes), limit) && memOffset == 2 * Moved(g.Offset(), c)
      ensures Moved(g.Offset(), c) < 2000 ==> limit <= g.End()
    {
      assert Drawn(video[..], g, 0);
      var cursor := GetCursorOffset();
      memOffset := cursor * 2;
      if c == NEWLINE || c == BACKSPACE {
        memOffset := DrawControl(c, memOffset, attributes, g);
        limit := g.End();
      } else {
        memOffset := DrawText(c, memOffset, attributes, g);
        limit := Write(g, c, attributes).cursor;
      }
      memOffset := memOffset + 2;
    }

    /** The character is drawn and the window follows. */
    method DrawAndScroll(c: Byte, attributes: Byte, ghost g: Grid) returns (memOffset: int)
      requires Valid() && InWindow(g) && Shows(video[..], g) && Cursor() == g.Offset()
      requires !(c == BACKSPACE && Cursor() == 0)
      modifies video
      ensures var g' := Print(g, c, attributes);
        InWindow(g') && Shows(video[..], g') && memOffset / 2 == g'.Offset() && 0 <= memOffset < 4000
    {
      WriteOffset(g, c, attributes);
      MovedBounds(g.Offset(), c);
      ghost var limit;
      memOffset, limit := Draw(c, attributes, g);
      ghost var before := video[..];
      memOffset := Scroll(memOffset);
      ScrollFollows(before, video[..], Write(g, c, attributes), limit);
    }

    /** print_char_color. */
    method PrintCharColor(c: Byte, textColor: Byte, backColor: Byte, ghost g: Grid)
      requires Valid() && InWindow(g) && Shows(video[..], g) && Cursor() == g.Offset()
      requires !(c == BACKSPACE && Cursor() == 0)
      modifies video, this`high, this`low
      ensures var g' := Print(g, c, Attributes(textColor, backColor));
        InWindow(g') && Shows(video[..], g') && Cursor() == g'.Offset()
      ensures Typed(old(video[..]), old(Cursor()), c, textColor, backColor, video[..], Cursor())
    {
      hide InWindow, Shows, Print, Attributes, Typed;
      var memOffset := DrawAndScroll(c, Attributes(textColor, backColor), g);
      SetCursorOffset(memOffset / 2);
      PrintTyped(old(video[..]), g, c, textColor, backColor, video[..]);
    }

    /** print_string_color: up to the NUL, or `length` characters when a length is given. */
    method PrintStringColor(str: seq<Byte>, textColor: Byte, backColor: Byte, length: nat, ghost g: Grid,
                            ghost s: seq<Byte>)
      requires Valid() && InWindow(g) && Shows(video[..], g) && Cursor() == g.Offset()
      requires if length == 0 then 0 in str else length <= |str|
      requires s == (if length == 0 then UntilNul(str) else str[..length])
      requires NoUnderflow(g, s, Attributes(textColor, backColor))
      modifies video, this`high, this`low
      ensures var g' := PrintAll(g, s, Attributes(textColor, backColor));
        InWindow(g') && Shows(video[..], g') && Cursor() == g'.Offset()
    {
      hide InWindow, Shows, Print, Attributes;
      ghost var attributes := Attributes(textColor, backColor);
      ghost var g' := g;
      assert s[..|s|] == s;
      var i := 0;
      while if length == 0 then str[i] != 0 else i < length
        invariant 0 <= i <= |s| && g' == PrintAll(g, s[..i], attributes)
        invariant InWindow(g') && Shows(video[..], g') && Cursor() == g'.Offset()
        decreases |s| - i
      {
        PrintStep(g, s, i, attributes);
        assert str[i] == s[i];
        PrintCharColor(str[i], textColor, backColor, g');
        g' := Print(g', s[i], attributes);
        i := i + 1;
      }
    }

    /** clear_screen: an empty grid, seen from its top. */
    method ClearScreen()
      requires Valid()
      modifies video, this`high, this`low
      ensures var g := Grid(map[], 0, 0); InWindow(g) && Shows(video[..], g) && Cursor() == g.Offset()
    {
      for i := 0 to COLS_NUM * ROWS_NUM
        invariant forall k :: 0 <= k < 2 * i ==> video[k] == if k % 2 == 0 then BLANK else 7
      {
        video[i * 2 + 0] := BLANK;
        video[i * 2 + 1] := 7;
      }
      SetCursorOffset(0 * COLS_NUM + 0);
    }
  }

  /** `(back_color << 4) + text_color`, as a byte. */
  function Attributes(textColor: Byte, backColor: Byte): Byte {
    (backColor as int * 16 + textColor as int) % 0x100
  }

  /** What is printed when no length is given. */
  function UntilNul(str: seq<Byte>): (s: seq<Byte>)
    requires 0 in str
    ensures |s| < |str| && s == str[..|s|] && str[|s|] == 0 && 0 !in s
  {
    if str[0] == 0 then [] else [str[0]] + UntilNul(str[1..])
  }

  lemma {:induction false} PrintStep(g: Grid, s: seq<Byte>, i: int, attributes: Byte)
    requires 0 <= i < |s| && NoUnderflow(g, s, attributes)
    ensures !(s[i] == BACKSPACE && PrintAll(g, s[..i], attributes).Offset() == 0)
    ensures PrintAll(g, s[..i + 1], attributes) == Print(PrintAll(g, s[..i], attributes), s[i], attributes)
  {
    assert s[..i + 1][..i] == s[..i];
    PrefixSafe(g, s, i + 1, attributes);
  }

  lemma {:induction false} PrefixSafe(g: Grid, s: seq<Byte>, n: int, attributes: Byte)
    requires 0 <= n <= |s| && NoUnderflow(g, s, attributes)
    ensures NoUnderflow(g, s[..n], attributes)
    decreases |s|
  {
    if n == |s| {
      assert s[..n] == s;
    } else {
      PrefixSafe(g, s[..|s| - 1], n, attributes);
      assert s[..|s| - 1][..n] == s[..n];
    }
  }

  // ---------- the one character that breaks it ----------

  /** The last three lines of print_char_color in u_dword arithmetic, with the 16-bit register. */
  function Settle(memOffset: int): int {
    var advanced := (memOffset + 2) % 0x1_0000_0000;
    var scrolled := if advanced < COLS_NUM * ROWS_NUM * 2 then advanced else advanced - COLS_NUM * 2;
    scrolled / 2 % 0x1_0000
  }

  /** The cursor register after a character, with no assumption. */
  function CursorAfter(offset: int, c: Byte): int {
    Settle(if c == NEWLINE then 2 * COLS_NUM * (offset / COLS_NUM + 1) - 2
           else if c == BACKSPACE then (offset * 2 - 4) % 0x1_0000_0000
           else if c == TAB then offset * 2 + 6
           else offset * 2)
  }

  lemma SettleValue(cell: int)
    requires 0 <= cell < 2004
    ensures Settle(2 * cell - 2) == if cell < 2000 then cell else cell - COLS_NUM
  {
  }

  lemma CursorValue(offset: int, c: Byte)
    requires 0 <= offset < 2000 && !(c == BACKSPACE && offset == 0)
    ensures var moved := Moved(offset, c); CursorAfter(offset, c) == if moved < 2000 then moved else moved - COLS_NUM
  {
    MovedBounds(offset, c);
    SettleValue(Moved(offset, c));
    if c == BACKSPACE {
      WrappedSettles(offset * 2 - 4);
    }
  }

  lemma WrappedSettles(x: int)
    ensures Settle(x % 0x1_0000_0000) == Settle(x)
  {
    var q := x / 0x1_0000_0000;
    assert (x + 2) % 0x1_0000_0000 == (x % 0x1_0000_0000 + 2) % 0x1_0000_0000;
  }

  /** From any position on the screen the cursor ends on the screen, except after a backspace in the first cell. */
  lemma CursorStaysIff(offset: int, c: Byte)
    requires 0 <= offset < COLS_NUM * ROWS_NUM
    ensures 0 <= CursorAfter(offset, c) < COLS_NUM * ROWS_NUM <==> !(c == BACKSPACE && offset == 0)
    ensures CursorAfter(0, BACKSPACE) == 65455
  {
    Underflow();
    if !(c == BACKSPACE && offset == 0) {
      MovedBounds(offset, c);
      CursorValue(offset, c);
    }
  }

  lemma Underflow()
    ensures CursorAfter(0, BACKSPACE) == 65455
  {
    assert (0 * 2 - 4) % 0x1_0000_0000 == 0xffff_fffc;
    assert Settle(0xffff_fffc) == 0xffff_ff5e / 2 % 0x1_0000;
  }

  /** And it is the grid's cursor. */
  lemma CursorIsTheGrids(g: Grid, c: Byte, attributes: Byte)
    requires InWindow(g) && !(c == BACKSPACE && g.Offset() == 0)
    ensures CursorAfter(g.Offset(), c) == Print(g, c, attributes).Offset()
  {
    WriteOffset(g, c, attributes);
    CursorValue(g.Offset(), c);
  }
}
