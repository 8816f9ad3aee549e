/** src/arch/x86_64/vgatext.c: the 80x25 scrolling text terminal. */
module Terminal {
  import opened Basics

  const VGA_WIDTH := 80
  const VGA_HEIGHT := 25
  const NEWLINE: Byte := 10
  const SPACE: Byte := 32

  // ---------------------------------------------------------- the unbounded layout of a text

  /** The text cut at its newlines; always at least one piece. */
  function Paragraphs(text: seq<Byte>): (ps: seq<seq<Byte>>)
    ensures ps != []
  {
    if text == [] then [[]]
    else
      var n := |text| - 1;
      var ps := Paragraphs(text[..n]);
      var k := |ps| - 1;
      if text[n] == NEWLINE then ps + [[]] else ps[..k] + [ps[k] + [text[n]]]
  }

  /** A paragraph cut into full rows and a last one that is not full. */
  function Wrap(p: seq<Byte>): (rows: seq<seq<Byte>>)
    ensures rows != []
    ensures forall i :: 0 <= i < |rows| - 1 ==> |rows[i]| == VGA_WIDTH
    ensures |rows[|rows| - 1]| < VGA_WIDTH
    decreases |p|
  {
    if |p| < VGA_WIDTH then [p] else [p[..VGA_WIDTH]] + Wrap(p[VGA_WIDTH..])
  }

  function WrapAll(ps: seq<seq<Byte>>): (rows: seq<seq<Byte>>)
    ensures ps != [] ==> rows != [] && |rows[|rows| - 1]| < VGA_WIDTH
    ensures forall i :: 0 <= i < |rows| ==> |rows[i]| <= VGA_WIDTH
  {
    if ps == [] then [] else WrapAll(ps[..|ps| - 1]) + Wrap(ps[|ps| - 1])
  }

  function Rows(text: seq<Byte>): (rows: seq<seq<Byte>>)
    ensures rows != [] && |rows[|rows| - 1]| < VGA_WIDTH
    ensures forall i :: 0 <= i < |rows| ==> |rows[i]| <= VGA_WIDTH
  {
    WrapAll(Paragraphs(text))
  }

  /** The rows after one more character. */
  function Extend(rows: seq<seq<Byte>>, c: Byte): seq<seq<Byte>>
    requires rows != []
  {
    var k := |rows| - 1;
    if c == NEWLINE then rows + [[]]
    else if |rows[k]| + 1 < VGA_WIDTH then rows[..k] + [rows[k] + [c]]
    else rows[..k] + [rows[k] + [c], []]
  }

  lemma {:induction false} WrapExtends(p: seq<Byte>, c: Byte)
    requires c != NEWLINE
    ensures Wrap(p + [c]) == Extend(Wrap(p), c)
    decreases |p|
  {
    if |p| < VGA_WIDTH {
      if |p| + 1 == VGA_WIDTH {
        assert (p + [c])[..VGA_WIDTH] == p + [c] && (p + [c])[VGA_WIDTH..] == [];
      }
    } else {
      var rest := p[VGA_WIDTH..];
      assert (p + [c])[..VGA_WIDTH] == p[..VGA_WIDTH] && (p + [c])[VGA_WIDTH..] == rest + [c];
      WrapExtends(rest, c);
      ExtendBehind([p[..VGA_WIDTH]], Wrap(rest), c);
    }
  }

  lemma ExtendBehind(a: seq<seq<Byte>>, b: seq<seq<Byte>>, c: Byte)
    requires b != []
    ensures Extend(a + b, c) == a + Extend(b, c)
  {
    assert (a + b)[..|a + b| - 1] == a + b[..|b| - 1];
  }

  /** Writing extends the layout by what the last row has room for. */
  lemma RowsExtend(text: seq<Byte>, c: Byte)
    ensures Rows(text + [c]) == Extend(Rows(text), c)
  {
    var ps := Paragraphs(text);
    var k := |ps| - 1;
    assert (text + [c])[..|text|] == text;
    if c == NEWLINE {
      assert (ps + [[]])[..|ps|] == ps;
    } else {
      var qs := ps[..k] + [ps[k] + [c]];
      assert qs[..k] == ps[..k] && qs[k] == ps[k] + [c];
      WrapExtends(ps[k], c);
      ExtendBehind(WrapAll(ps[..k]), Wrap(ps[k]), c);
    }
  }

  /** A newline ends a row, wherever it stands. */
  lemma {:induction false} RowsOfLines(a: seq<Byte>, b: seq<Byte>)
    ensures Rows(a + [0x0A] + b) == Rows(a) + Rows(b)
    decreases |b|
  {
    hide Rows;
    if b == [] {
      EmptyRows();
      RowsExtend(a, 0x0A);
      assert a + [0x0A] + b == a + [0x0A];
    } else {
      var n := |b| - 1;
      RowsOfLines(a, b[..n]);
      RowsExtend(a + [0x0A] + b[..n], b[n]);
      RowsExtend(b[..n], b[n]);
      assert a + [0x0A] + b == a + [0x0A] + b[..n] + [b[n]] && b == b[..n] + [b[n]];
      ExtendBehind(Rows(a), Rows(b[..n]), b[n]);
    }
  }

  /** A text without newlines goes into rows of 80, and the last one, which may be empty, is not full. */
  lemma RowsOfLine(p: seq<Byte>)
    requires 0x0A !in p
    ensures |Rows(p)| == |p| / 80 + 1
    ensures forall i :: 0 <= i < |Rows(p)| ==>
      Rows(p)[i] == if i < |p| / 80 then p[80 * i..80 * i + 80] else p[80 * i..]
  {
    hide *;
    OneParagraph(p);
    LineWrapped(p);
    WrappedRow(p, 0);
    var rows := Rows(p);
    forall i | 0 <= i < |rows|
      ensures rows[i] == if i < |p| / 80 then p[80 * i..80 * i + 80] else p[80 * i..]
    {
      WrappedRow(p, i);
    }
  }

  lemma LineWrapped(p: seq<Byte>)
    requires Paragraphs(p) == [p]
    ensures Rows(p) == Wrap(p)
  {
    hide Wrap;
    assert [p][..0] == [] && WrapAll([]) == [] && [] + Wrap(p) == Wrap(p);
  }

  lemma {:induction false} OneParagraph(p: seq<Byte>)
    requires 0x0A !in p
    ensures Paragraphs(p) == [p]
    decreases |p|
  {
    if p != [] {
      var n := |p| - 1;
      OneParagraph(p[..n]);
      assert p == p[..n] + [p[n]];
    }
  }

  lemma {:induction false} WrappedRow(p: seq<Byte>, i: nat)
    ensures |Wrap(p)| == |p| / 80 + 1
    ensures i <= |p| / 80 ==> Wrap(p)[i] == if i < |p| / 80 then p[80 * i..80 * i + 80] else p[80 * i..]
    decreases |p|
  {
    hide Wrap;
    if |p| >= 80 {
      WrapStep(p);
      WrappedRow(p[80..], if i == 0 then 0 else i - 1);
      if 0 < i <= |p| / 80 {
        RowBehind(p, i);
      }
    } else {
      WrapShort(p);
    }
  }

  lemma RowBehind(p: seq<Byte>, i: nat)
    requires 0 < i <= |p| / 80
    ensures p[80..][80 * (i - 1)..] == p[80 * i..]
    ensures i < |p| / 80 ==> p[80..][80 * (i - 1)..80 * (i - 1) + 80] == p[80 * i..80 * i + 80]
  {
  }

  lemma WrapShort(p: seq<Byte>)
    requires |p| < 80
    ensures Wrap(p) == [p] && |p| / 80 == 0 && p[80 * 0..] == p
  {
  }

  lemma WrapStep(p: seq<Byte>)
    requires |p| >= 80
    ensures Wrap(p) == [p[..80]] + Wrap(p[80..])
  {
  }

  // ----------------------------------------------------------------- the window on the layout

  function VgaEntry(uc: Byte, color: Byte): int {
    uc + 256 * color
  }

  /** The first row on the screen. */
  function Top(rows: seq<seq<Byte>>): (t: nat)
    ensures t <= |rows|
  {
    if |rows| > VGA_HEIGHT then |rows| - VGA_HEIGHT else 0
  }

  /** What row `y` and column `x` of the screen show: the layout seen from its first visible row, and
      blank elsewhere. */
  function CellAt(rows: seq<seq<Byte>>, color: Byte, y: nat, x: nat): int {
    var i := Top(rows) + y;
    if i < |rows| && x < |rows[i]| then VgaEntry(rows[i][x], color) else VgaEntry(SPACE, color)
  }

  predicate ScreenShows(buffer: seq<int>, rows: seq<seq<Byte>>, color: Byte) {
    && |buffer| == VGA_WIDTH * VGA_HEIGHT
    && forall y, x :: 0 <= y < VGA_HEIGHT && 0 <= x < VGA_WIDTH ==>
         buffer[y * VGA_WIDTH + x] == CellAt(rows, color, y, x)
  }

  /** The character of row `y` and column `x` of 25 rows of 80: that of the last 25 rows of the layout, or a
      blank where there is none. */
  function CharacterAt(rows: seq<seq<Byte>>, y: nat, x: nat): int {
    var i := if |rows| > 25 then |rows| - 25 + y else y;
    if i < |rows| && x < |rows[i]| then rows[i][x] else 0x20
  }

  /** A cell: the character in the low byte, the colour in the high one. */
  predicate DisplaysAt(buffer: seq<int>, rows: seq<seq<Byte>>, color: Byte, y: nat, x: nat)
    requires |buffer| == 2000 && y < 25 && x < 80
  {
    buffer[80 * y + x] % 256 == CharacterAt(rows, y, x) && buffer[80 * y + x] / 256 == color
  }

  predicate Displays(buffer: seq<int>, rows: seq<seq<Byte>>, color: Byte) {
    |buffer| == 2000 && forall y, x :: 0 <= y < 25 && 0 <= x < 80 ==> DisplaysAt(buffer, rows, color, y, x)
  }

  /** Showing the layout is displaying it cell by cell. */
  lemma ShowsIsDisplay(buffer: seq<int>, rows: seq<seq<Byte>>, color: Byte)
    ensures ScreenShows(buffer, rows, color) <==> Displays(buffer, rows, color)
  {
    hide CellAt, DisplaysAt;
    if ScreenShows(buffer, rows, color) {
      forall y, x | 0 <= y < 25 && 0 <= x < 80
        ensures DisplaysAt(buffer, rows, color, y, x)
      {
        assert buffer[y * VGA_WIDTH + x] == CellAt(rows, color, y, x);
        CellIs(buffer, rows, color, y, x);
      }
    }
    if Displays(buffer, rows, color) {
      forall y, x | 0 <= y < VGA_HEIGHT && 0 <= x < VGA_WIDTH
        ensures buffer[y * VGA_WIDTH + x] == CellAt(rows, color, y, x)
      {
        assert DisplaysAt(buffer, rows, color, y, x);
        CellIs(buffer, rows, color, y, x);
      }
    }
  }

  lemma CellIs(buffer: seq<int>, rows: seq<seq<Byte>>, color: Byte, y: nat, x: nat)
    requires |buffer| == 2000 && y < 25 && x < 80
    ensures buffer[y * VGA_WIDTH + x] == CellAt(rows, color, y, x) <==> DisplaysAt(buffer, rows, color, y, x)
  {
    var cell := buffer[80 * y + x];
    assert y * VGA_WIDTH + x == 80 * y + x && cell == 256 * (cell / 256) + cell % 256;
  }

  /** The screen moved up by one row. */
  function Scrolled(buffer: seq<int>, color: Byte): (r: seq<int>)
    requires |buffer| == VGA_WIDTH * VGA_HEIGHT
    ensures |r| == |buffer|
  {
    buffer[VGA_WIDTH..] + seq(VGA_WIDTH, _ => VgaEntry(SPACE, color))
  }

  lemma BlankScreen(buffer: seq<int>, color: Byte)
    requires |buffer| == VGA_WIDTH * VGA_HEIGHT
    requires forall i :: 0 <= i < |buffer| ==> buffer[i] == VgaEntry(SPACE, color)
    ensures ScreenShows(buffer, Rows([]), color) && Rows([]) == [[]]
  {
    hide Rows;
    EmptyRows();
  }

  lemma EmptyRows()
    ensures Rows([]) == [[]]
  {
    assert WrapAll([]) == [] && Wrap([]) == [[]];
  }

  /** A character put behind the last row. */
  lemma CharacterShown(buffer: seq<int>, rows: seq<seq<Byte>>, color: Byte, c: Byte)
    requires rows != [] && |rows[|rows| - 1]| < VGA_WIDTH && ScreenShows(buffer, rows, color)
    ensures var k := |rows| - 1;
      && (k - Top(rows)) * VGA_WIDTH + |rows[k]| < |buffer|
      && ScreenShows(buffer[(k - Top(rows)) * VGA_WIDTH + |rows[k]| := VgaEntry(c, color)],
                     rows[..k] + [rows[k] + [c]], color)
  {
    var k := |rows| - 1;
    var at := (k - Top(rows)) * VGA_WIDTH + |rows[k]|;
    var buffer', rows' := buffer[at := VgaEntry(c, color)], rows[..k] + [rows[k] + [c]];
    forall y, x | 0 <= y < VGA_HEIGHT && 0 <= x < VGA_WIDTH
      ensures buffer'[y * VGA_WIDTH + x] == CellAt(rows', color, y, x)
    {
      assert buffer[y * VGA_WIDTH + x] == CellAt(rows, color, y, x);
      assert y * VGA_WIDTH + x == at <==> y == k - Top(rows) && x == |rows[k]|;
    }
  }

  /** The last character of the last row taken off the screen again. */
  lemma CharacterErased(buffer: seq<int>, rows: seq<seq<Byte>>, color: Byte, c: Byte)
    requires rows != [] && |rows[|rows| - 1]| < VGA_WIDTH
    requires var k := |rows| - 1; ScreenShows(buffer, rows[..k] + [rows[k] + [c]], color)
    ensures var k := |rows| - 1;
      && (k - Top(rows)) * VGA_WIDTH + |rows[k]| < |buffer|
      && ScreenShows(buffer[(k - Top(rows)) * VGA_WIDTH + |rows[k]| := VgaEntry(SPACE, color)], rows, color)
  {
    var k := |rows| - 1;
    var at := (k - Top(rows)) * VGA_WIDTH + |rows[k]|;
    var buffer', longer := buffer[at := VgaEntry(SPACE, color)], rows[..k] + [rows[k] + [c]];
    forall y, x | 0 <= y < VGA_HEIGHT && 0 <= x < VGA_WIDTH
      ensures buffer'[y * VGA_WIDTH + x] == CellAt(rows, color, y, x)
    {
      assert buffer[y * VGA_WIDTH + x] == CellAt(longer, color, y, x);
      assert y * VGA_WIDTH + x == at <==> y == k - Top(rows) && x == |rows[k]|;
    }
  }

  lemma LastCharacter(text: seq<Byte>)
    requires var rows := Rows(text); rows[|rows| - 1] != []
    ensures text != []
    ensures var shorter, c := Rows(text[..|text| - 1]), text[|text| - 1];
      var k := |shorter| - 1;
      Rows(text) == shorter[..k] + [shorter[k] + [c]]
  {
    hide Rows;
    EmptyRows();
    if text != [] {
      var n := |text| - 1;
      assert text[..n] + [text[n]] == text;
      RowsExtend(text[..n], text[n]);
    }
  }

  /** A new row: there is still room for it, or the screen moves up. */
  lemma RowShown(buffer: seq<int>, rows: seq<seq<Byte>>, color: Byte)
    requires ScreenShows(buffer, rows, color)
    ensures ScreenShows(if |rows| < VGA_HEIGHT then buffer else Scrolled(buffer, color), rows + [[]], color)
  {
    var buffer', rows' := if |rows| < VGA_HEIGHT then buffer else Scrolled(buffer, color), rows + [[]];
    forall y, x | 0 <= y < VGA_HEIGHT && 0 <= x < VGA_WIDTH
      ensures buffer'[y * VGA_WIDTH + x] == CellAt(rows', color, y, x)
    {
      assert buffer[y * VGA_WIDTH + x] == CellAt(rows, color, y, x);
      if |rows| >= VGA_HEIGHT && y < VGA_HEIGHT - 1 {
        assert buffer'[y * VGA_WIDTH + x] == buffer[(y + 1) * VGA_WIDTH + x] == CellAt(rows, color, y + 1, x);
      }
    }
  }

  lemma NewlineCursor(text: seq<Byte>)
    ensures var rows := Rows(text + [NEWLINE]);
      |rows[|rows| - 1]| == 0 && |rows| - 1 - Top(rows) > 0
  {
    hide Rows;
    RowsExtend(text, NEWLINE);
  }

  lemma BlankEntry(color: Byte)
    ensures VgaEntry(SPACE, color) == 0x20 + 256 * color
  {
  }

  /** The cell in front of a row, by the column that wraps around. */
  lemma CellBefore(row: nat)
    ensures (0 - 1) % WIDE == WIDE - 1
    ensures 0 < row < 25 ==> (row * VGA_WIDTH + (WIDE - 1)) % WIDE == 80 * row - 1
  {
  }

  class Screen {
    var row: nat
    var column: nat
    var color: Byte
    const buffer: array<int>

    /** The screen shows the last 25 rows of the layout of `text`, and the cursor stands behind it. */
    ghost predicate Shows(text: seq<Byte>)
      reads this, buffer
    {
      var rows := Rows(text);
      && buffer.Length == VGA_WIDTH * VGA_HEIGHT
      && ScreenShows(buffer[..], rows, color)
      && row == |rows| - 1 - Top(rows)
      && column == |rows[|rows| - 1]|
    }

    /** What that says of the cells and the cursor. */
    lemma WhatShows(text: seq<Byte>)
      requires Shows(text)
      ensures Displays(buffer[..], Rows(text), color)
      ensures var rows := Rows(text);
        row == (if |rows| > 25 then 24 else |rows| - 1) && column == |rows[|rows| - 1]|
    {
      hide Rows;
      ShowsIsDisplay(buffer[..], Rows(text), color);
    }

    /** terminal_initialize: cyan on black. */
    constructor (vga: array<int>)
      requires vga.Length == VGA_WIDTH * VGA_HEIGHT
      modifies vga
      ensures Shows([]) && buffer == vga && row == 0 && column == 0 && color == 3
      ensures forall i :: 0 <= i < 2000 ==> buffer[i] == 0x0320
    {
      row, column := 0, 0;
      color := 3;
      buffer := vga;
      new;
      var y := 0;
      while y < VGA_HEIGHT
        invariant 0 <= y <= VGA_HEIGHT && row == column == 0 && color == 3
        invariant forall i :: 0 <= i < y * VGA_WIDTH ==> buffer[i] == VgaEntry(SPACE, color)
      {
        var x := 0;
        while x < VGA_WIDTH
          invariant 0 <= x <= VGA_WIDTH && row == column == 0 && color == 3
          invariant forall i :: 0 <= i < y * VGA_WIDTH + x ==> buffer[i] == VgaEntry(SPACE, color)
        {
          var index := y * VGA_WIDTH + x;
          buffer[index] := VgaEntry(SPACE, color);
          x := x + 1;
        }
        y := y + 1;
      }
      hide ScreenShows;
      BlankScreen(buffer[..], color);
    }

    /** Every row takes the place of the one above it and a blank row comes in at the bottom. */
    method MoveUp()
      requires buffer.Length == VGA_WIDTH * VGA_HEIGHT && row > 0
      modifies this`row, buffer
      ensures row == old(row) - 1
      ensures buffer[..] == Scrolled(old(buffer[..]), color)
    {
      ghost var was := buffer[..];
      var y := 1;
      while y < VGA_HEIGHT
        invariant 1 <= y <= VGA_HEIGHT && row == old(row)
        invariant forall i :: 0 <= i < (y - 1) * VGA_WIDTH ==> buffer[i] == was[i + VGA_WIDTH]
        invariant forall i :: (y - 1) * VGA_WIDTH <= i < buffer.Length ==> buffer[i] == was[i]
      {
        var x := 0;
        while x < VGA_WIDTH
          invariant 0 <= x <= VGA_WIDTH && row == old(row)
          invariant forall i :: 0 <= i < (y - 1) * VGA_WIDTH + x ==> buffer[i] == was[i + VGA_WIDTH]
          invariant forall i :: (y - 1) * VGA_WIDTH + x <= i < buffer.Length ==> buffer[i] == was[i]
        {
          var index := y * VGA_WIDTH + x;
          var targetIndex := (y - 1) * VGA_WIDTH + x;
          buffer[targetIndex] := buffer[index];
          x := x + 1;
        }
        y := y + 1;
      }
      var x := 0;
      while x < VGA_WIDTH
        invariant 0 <= x <= VGA_WIDTH && row == old(row)
        invariant forall i :: 0 <= i < VGA_WIDTH * (VGA_HEIGHT - 1) ==> buffer[i] == was[i + VGA_WIDTH]
        invariant forall i :: VGA_WIDTH * (VGA_HEIGHT - 1) <= i < VGA_WIDTH * (VGA_HEIGHT - 1) + x ==>
          buffer[i] == VgaEntry(SPACE, color)
      {
        buffer[x + VGA_WIDTH * (VGA_HEIGHT - 1)] := VgaEntry(SPACE, color);
        x := x + 1;
      }
      row := row - 1;
    }

    /** terminal_putchar: one more character of the text. */
    method PutChar(c: Byte, ghost text: seq<Byte>)
      requires Shows(text)
      modifies this, buffer
      ensures Shows(text + [c]) && color == old(color)
      ensures Displays(buffer[..], Rows(text + [c]), color)
      ensures row < 25 && column < 80
    {
      hide ScreenShows, Rows, Displays;
      ghost var rows := Rows(text);
      RowsExtend(text, c);
      if c == NEWLINE {
        NextRow(rows);
      } else {
        ghost var k := |rows| - 1;
        ghost var longer := rows[..k] + [rows[k] + [c]];
        CharacterShown(buffer[..], rows, color, c);
        PutEntryAt(c, color, column, row);
        column := column + 1;
        if column == VGA_WIDTH {
          assert longer + [[]] == rows[..k] + [rows[k] + [c], []];
          NextRow(longer);
        }
      }
      WhatShows(text + [c]);
    }

    /** The cursor goes to the start of the next row, which comes in at the bottom if there is none. */
    method NextRow(ghost rows: seq<seq<Byte>>)
      requires buffer.Length == VGA_WIDTH * VGA_HEIGHT && rows != [] && row == |rows| - 1 - Top(rows)
      requires ScreenShows(buffer[..], rows, color)
      modifies this`row, this`column, buffer
      ensures ScreenShows(buffer[..], rows + [[]], color)
      ensures column == 0 && 0 < row == |rows| - Top(rows + [[]]) < VGA_HEIGHT
    {
      hide ScreenShows;
      RowShown(buffer[..], rows, color);
      column := 0;
      row := row + 1;
      if row == VGA_HEIGHT {
        MoveUp();
      }
    }

    /** terminal_putentryat: the index is computed in size_t arithmetic. */
    method PutEntryAt(c: Byte, entryColor: Byte, x: nat, y: nat)
      requires (y * VGA_WIDTH + x) % WIDE < buffer.Length
      modifies buffer
      ensures buffer[..] == old(buffer[..])[(y * VGA_WIDTH + x) % WIDE := VgaEntry(c, entryColor)]
      ensures var i := (80 * y + x) % WIDE; buffer[i] % 256 == c && buffer[i] / 256 == entryColor
    {
      buffer[(y * VGA_WIDTH + x) % WIDE] := VgaEntry(c, entryColor);
    }

    /** terminal_removelastchar: undoes the last character within its row.  At the start of a later row
        the unsigned column wraps around instead of going back a row: the last cell of the row above is
        blanked, and the screen shows no text at all any more. */
    method RemoveLastChar(ghost text: seq<Byte>)
      requires Shows(text)
      modifies this, buffer
      ensures row == old(row) && color == old(color)
      ensures old(column) > 0 ==> text != [] && Shows(text[..|text| - 1])
      ensures old(column) == 0 && old(row) == 0 ==> Shows(text)
      ensures old(column) == 0 && old(row) > 0 ==>
        && column == WIDE - 1
        && buffer[..] == old(buffer[..])[80 * row - 1 := 0x20 + 256 * color]
      ensures (exists t :: Shows(t)) <==> old(column) > 0 || old(row) == 0
    {
      hide ScreenShows, Rows, VgaEntry;
      if row > 0 || column > 0 {
        BlankEntry(color);
        CellBefore(row);
        if column > 0 {
          LastCharacter(text);
          ghost var n := |text| - 1;
          CharacterErased(buffer[..], Rows(text[..n]), color, text[n]);
        }
        column := (column - 1) % WIDE;
        PutEntryAt(SPACE, color, column, row);
      }
    }

    /** A newline is never undone: the row it started is kept, with the column far outside. */
    method NewlineNotUndone(ghost text: seq<Byte>)
      requires Shows(text)
      modifies this, buffer
      ensures row > 0 && column == WIDE - 1 && forall t :: !Shows(t)
    {
      PutChar(NEWLINE, text);
      NewlineCursor(text);
      RemoveLastChar(text + [NEWLINE]);
    }

    /** terminal_write */
    method Write(data: seq<Byte>, ghost text: seq<Byte>)
      requires Shows(text)
      modifies this, buffer
      ensures Shows(text + data) && color == old(color)
      ensures Displays(buffer[..], Rows(text + data), color)
    {
      hide Displays, Rows;
      assert text + data[..0] == text;
      for i := 0 to |data|
        invariant Shows(text + data[..i]) && color == old(color)
      {
        PutChar(data[i], text + data[..i]);
        assert text + data[..i] + [data[i]] == text + data[..i + 1];
      }
      assert data[..|data|] == data;
      WhatShows(text + data);
    }

    /** "A", a newline and "B" on a fresh screen: 0x0341 in the first cell and 0x0342 in the 81st. */
    method Samples()
      requires Shows([]) && color == 3
      modifies this, buffer
      ensures buffer.Length == 2000 && row == 1 && column == 1
      ensures forall i :: 0 <= i < 2000 ==> buffer[i] == if i == 0 then 0x0341 else if i == 80 then 0x0342 else 0x0320
    {
      hide Rows, ScreenShows;
      var data := [0x41, 0x0A, 0x42];
      assert [] + data == data == [0x41] + [0x0A] + [0x42];
      Write(data, []);
      RowsOfLines([0x41], [0x42]);
      RowsOfLine([0x41]);
      RowsOfLine([0x42]);
      assert Rows(data) == [[0x41], [0x42]];
      WhatShows(data);
      forall i | 0 <= i < 2000
        ensures buffer[i] == if i == 0 then 0x0341 else if i == 80 then 0x0342 else 0x0320
      {
        var y, x := i / 80, i % 80;
        assert i == 80 * y + x && buffer[..][80 * y + x] == buffer[i];
        assert DisplaysAt(buffer[..], [[0x41], [0x42]], color, y, x);
        assert CharacterAt([[0x41], [0x42]], y, x) == if i == 0 then 0x41 else if i == 80 then 0x42 else 0x20;
        assert buffer[i] == 256 * (buffer[i] / 256) + buffer[i] % 256;
      }
    }
  }
}
