/**
 The scrolling text screen (kernel/drivers/console.c:20-102, kernel/drivers/vga.h:7-42): an
 80 by 25 cell buffer that shows the last 25 rows of an unbounded, line-wrapped terminal.
 */
module Console {
  import opened Types

  const WIDTH: int := 80
  const HEIGHT: int := 25
  const CELLS: int := 2000

  const NEWLINE: Byte := 10
  const RETURN: Byte := 13
  const BACKSPACE: Byte := 8
  const SPACE: Byte := 32

  /** `vga_entry`: the character in the low byte, the colour in the high byte. */
  function Cell(c: Byte, color: Byte): (cell: int)
    ensures cell % 256 == c as int && cell / 256 == color as int
  {
    c as int + 256 * color as int
  }

  // ---------- the unbounded terminal ----------

  type Row = seq<int>

  // All rows ever written, and the cursor
  datatype Terminal = Terminal(rows: seq<Row>, row: int, column: int)

  function BlankRow(color: Byte): Row { Repeat(Cell(SPACE, color), 80) }

  /** The first of the 25 rows that are shown. */
  function Top(t: Terminal): int { |t.rows| - HEIGHT }

  ghost predicate WellFormed(t: Terminal) {
    && |t.rows| >= HEIGHT && (forall y | 0 <= y < |t.rows| :: |t.rows[y]| == WIDTH)
    && Top(t) <= t.row < |t.rows| && 0 <= t.column < WIDTH
  }

  /** To the start of the next row, which is added if it does not exist. */
  function NextRow(t: Terminal, color: Byte): Terminal {
    Terminal(if t.row + 1 == |t.rows| then t.rows + [BlankRow(color)] else t.rows, t.row + 1, 0)
  }

  function SetCell(t: Terminal, column: int, cell: int): Terminal
    requires 0 <= t.row < |t.rows| && 0 <= column < |t.rows[t.row]|
  {
    t.(rows := t.rows[t.row := t.rows[t.row][column := cell]])
  }

  /** What a character does to the terminal. */
  function Put(t: Terminal, c: Byte, color: Byte): Terminal
    requires 0 <= t.row < |t.rows| && 0 <= t.column < WIDTH == |t.rows[t.row]|
  {
    if c == NEWLINE then NextRow(t, color)
    else if c == RETURN then t.(column := 0)
    else if c == BACKSPACE then
      if t.column == 0 then t else SetCell(t, t.column - 1, Cell(SPACE, color)).(column := t.column - 1)
    else
      var w := SetCell(t, t.column, Cell(c, color));
      if t.column + 1 == WIDTH then NextRow(w, color) else w.(column := t.column + 1)
  }

  lemma PutWellFormed(t: Terminal, c: Byte, color: Byte)
    requires WellFormed(t)
    ensures WellFormed(Put(t, c, color))
  {
  }

  ghost function PutAll(t: Terminal, text: seq<Byte>, color: Byte): (r: Terminal)
    requires WellFormed(t)
    ensures WellFormed(r)
  {
    if text == [] then t else
      var u := PutAll(t, text[..|text| - 1], color);
      PutWellFormed(u, text[|text| - 1], color);
      Put(u, text[|text| - 1], color)
  }

  /** Rows that have scrolled off are never written again. */
  lemma {:induction false} HistoryKept(t: Terminal, text: seq<Byte>, color: Byte, y: int)
    requires WellFormed(t) && 0 <= y < Top(t)
    ensures Top(t) <= Top(PutAll(t, text, color)) && PutAll(t, text, color).rows[y] == t.rows[y]
  {
    if text != [] { HistoryKept(t, text[..|text| - 1], color, y); }
  }

  predicate Printable(c: Byte) { c != NEWLINE && c != RETURN && c != BACKSPACE }

  /**
   Plain text from the start of a row: character `k` is in column `k % 80` of the row `k / 80` rows
   further down, and the cursor is where the next character goes.
   */
  lemma {:induction false} PlainText(t: Terminal, text: seq<Byte>, color: Byte)
    requires WellFormed(t) && t.column == 0 && forall k | 0 <= k < |text| :: Printable(text[k])
    ensures var u := PutAll(t, text, color);
            && u.row == t.row + |text| / WIDTH && u.column == |text| % WIDTH
            && forall k | 0 <= k < |text| :: TextAt(u, t.row, text, color, k)
  {
    if text != [] {
      var n := |text| - 1;
      var init := text[..n];
      PlainText(t, init, color);
      var v, u := PutAll(t, init, color), PutAll(t, text, color);
      forall k | 0 <= k < |text| ensures TextAt(u, t.row, text, color, k) {
        if k < n { assert TextAt(v, t.row, init, color, k); }
      }
    }
  }

  ghost predicate TextAt(u: Terminal, row: int, text: seq<Byte>, color: Byte, k: int)
    requires 0 <= k < |text|
  {
    && 0 <= row + k / WIDTH < |u.rows| && |u.rows[row + k / WIDTH]| == WIDTH
    && u.rows[row + k / WIDTH][k % WIDTH] == Cell(text[k], color)
  }

  // ---------- where the characters of a text stand ----------

  predicate Breaks(c: Byte) { c == 10 || c == 13 }

  /**
   The index that column 0 of the line of character `k` would have if the line did not wrap: one past the last
   newline or carriage return before `k`, or the start of the text moved back by the `x` columns before it.
   */
  function LineStart(text: seq<Byte>, x: nat, k: nat): int
    requires k <= |text|
  {
    if k == 0 then 0 - x else if Breaks(text[k - 1]) then k else LineStart(text, x, k - 1)
  }

  /** The column of character `k`: lines wrap after 80 columns. */
  function ColumnOf(text: seq<Byte>, x: nat, k: nat): int
    requires k <= |text|
  {
    (k - LineStart(text, x, k)) % 80
  }

  /** Character `k` is the last of its row: a newline, or a character in the last column. */
  predicate EndsRow(text: seq<Byte>, x: nat, k: nat)
    requires k < |text|
  {
    text[k] == 10 || (!Breaks(text[k]) && ColumnOf(text, x, k) == 79)
  }

  /** The rows that end before character `k`. */
  function RowOf(text: seq<Byte>, x: nat, k: nat): nat
    requires k <= |text|
  {
    if k == 0 then 0 else RowOf(text, x, k - 1) + if EndsRow(text, x, k - 1) then 1 else 0
  }

  /** Character `k` is printed in row `row` (counted from the row of the start) and column `column`. */
  predicate StandsAt(text: seq<Byte>, x: nat, k: nat, row: int, column: int)
    requires k < |text|
  {
    !Breaks(text[k]) && RowOf(text, x, k) == row && ColumnOf(text, x, k) == column
  }

  /** The last of the first `m` characters that is printed at a place, or -1. */
  function LastAt(text: seq<Byte>, x: nat, m: nat, row: int, column: int): (k: int)
    requires m <= |text|
    ensures -1 <= k < m && (k >= 0 ==> StandsAt(text, x, k, row, column))
    ensures forall j: nat | k < j < m :: !StandsAt(text, x, j, row, column)
  {
    if m == 0 then -1
    else if StandsAt(text, x, m - 1, row, column) then m - 1
    else LastAt(text, x, m - 1, row, column)
  }

  /** What is shown at row `y` and column `c` once the first `m` characters are written. */
  ghost predicate CellAfter(t: Terminal, u: Terminal, text: seq<Byte>, color: Byte, m: nat, y: int, c: int)
    requires m <= |text| && 0 <= t.column
  {
    && 0 <= y < |u.rows| && |u.rows[y]| == WIDTH && 0 <= c < WIDTH
    && var k := LastAt(text, t.column, m, y - t.row, c);
       u.rows[y][c] == (if k >= 0 then Cell(text[k], color)
                        else if y < |t.rows| && |t.rows[y]| == WIDTH then t.rows[y][c]
                        else Cell(SPACE, color))
  }

  /** The cursor and the number of rows once the first `m` characters are written. */
  ghost predicate CursorAfter(t: Terminal, u: Terminal, text: seq<Byte>, m: nat)
    requires m <= |text| && 0 <= t.column
  {
    && u.row == t.row + RowOf(text, t.column, m) && u.column == ColumnOf(text, t.column, m)
    && |u.rows| == if u.row < |t.rows| then |t.rows| else u.row + 1
  }

  ghost predicate NoBackspace(text: seq<Byte>) {
    forall k | 0 <= k < |text| :: text[k] != 8
  }

  lemma {:induction false} LineStartBounds(text: seq<Byte>, x: nat, k: nat)
    requires k <= |text|
    ensures LineStart(text, x, k) <= k
  {
    if k > 0 { LineStartBounds(text, x, k - 1); }
  }

  /** How one more character moves the cursor. */
  lemma CursorStep(text: seq<Byte>, x: nat, m: nat)
    requires m < |text| && text[m] != 8
    ensures 0 <= ColumnOf(text, x, m) < 80
    ensures ColumnOf(text, x, m + 1) ==
            if Breaks(text[m]) || ColumnOf(text, x, m) == 79 then 0 else ColumnOf(text, x, m) + 1
  {
    LineStartBounds(text, x, m);
  }

  lemma {:induction false} RowsGrow(text: seq<Byte>, x: nat, k: nat, m: nat)
    requires k <= m <= |text|
    ensures RowOf(text, x, k) <= RowOf(text, x, m)
    decreases m
  {
    if k < m { RowsGrow(text, x, k, m - 1); }
  }

  /** A row that is not reached yet has nothing printed in it. */
  lemma NothingBelow(text: seq<Byte>, x: nat, m: nat, row: int, column: int)
    requires m <= |text| && row > RowOf(text, x, m)
    ensures LastAt(text, x, m, row, column) == -1
  {
    var k := LastAt(text, x, m, row, column);
    if k >= 0 { RowsGrow(text, x, k, m); }
  }

  /** One more character. */
  lemma LayoutStep(t: Terminal, u: Terminal, text: seq<Byte>, color: Byte, m: nat, y: int, c: int)
    requires WellFormed(t) && WellFormed(u) && m < |text| && NoBackspace(text)
    requires CursorAfter(t, u, text, m) && 0 <= c < WIDTH && 0 <= y < |Put(u, text[m], color).rows|
    requires y < |u.rows| ==> CellAfter(t, u, text, color, m, y, c)
    ensures CellAfter(t, Put(u, text[m], color), text, color, m + 1, y, c)
  {
    var v, x := Put(u, text[m], color), t.column;
    if y == |u.rows| { NothingBelow(text, x, m, y - t.row, c); }
    assert StandsAt(text, x, m, y - t.row, c) <==> !Breaks(text[m]) && y == u.row && c == u.column;
    PutCell(u, text[m], color, y, c);
  }

  /** What one character does to one cell. */
  lemma PutCell(u: Terminal, letter: Byte, color: Byte, y: int, c: int)
    requires WellFormed(u) && letter != 8 && 0 <= y < |Put(u, letter, color).rows| && 0 <= c < WIDTH
    ensures var v := Put(u, letter, color);
            && |v.rows[y]| == WIDTH
            && v.rows[y][c] == (if !Breaks(letter) && y == u.row && c == u.column then Cell(letter, color)
                                else if y < |u.rows| then u.rows[y][c] else Cell(SPACE, color))
  {
  }

  /**
   A text without backspaces, from any place on the terminal: every character stands in the row and the column
   that the newlines, the carriage returns and the wraps before it give; of several at one place the last is
   shown; every other cell is as it was, or blank in a row that was added.
   */
  lemma {:induction false} Layout(t: Terminal, text: seq<Byte>, color: Byte, m: nat)
    requires WellFormed(t) && m <= |text| && NoBackspace(text)
    ensures CursorAfter(t, PutAll(t, text[..m], color), text, m)
    ensures forall y, c | 0 <= y < |PutAll(t, text[..m], color).rows| && 0 <= c < WIDTH ::
              CellAfter(t, PutAll(t, text[..m], color), text, color, m, y, c)
  {
    if m == 0 {
      assert text[..m] == [];
      forall y, c | 0 <= y < |t.rows| && 0 <= c < WIDTH ensures CellAfter(t, t, text, color, m, y, c) {}
    } else {
      var n: nat := m - 1;
      Layout(t, text, color, n);
      assert text[..m][..n] == text[..n] && text[..m][n] == text[n];
      var u, v := PutAll(t, text[..n], color), PutAll(t, text[..m], color);
      assert v == Put(u, text[n], color);
      CursorStep(text, t.column, n);
      forall y, c | 0 <= y < |v.rows| && 0 <= c < WIDTH ensures CellAfter(t, v, text, color, m, y, c) {
        LayoutStep(t, u, text, color, n, y, c);
      }
    }
  }

  /** The terminal `u` is `t` with the whole text on it. */
  ghost predicate LaidOut(t: Terminal, u: Terminal, text: seq<Byte>, color: Byte)
    requires 0 <= t.column
  {
    && CursorAfter(t, u, text, |text|)
    && forall y, c | 0 <= y < |u.rows| && 0 <= c < 80 :: CellAfter(t, u, text, color, |text|, y, c)
  }

  lemma WholeLayout(t: Terminal, text: seq<Byte>, color: Byte)
    requires WellFormed(t) && NoBackspace(text)
    ensures LaidOut(t, PutAll(t, text, color), text, color)
  {
    assert text[..|text|] == text;
    Layout(t, text, color, |text|);
  }

  /** A plain text shorter than a row. */
  ghost predicate ShortLine(a: seq<Byte>) {
    |a| < 80 && forall k | 0 <= k < |a| :: Printable(a[k])
  }

  /** Where the characters of two short lines with a newline or a carriage return between them stand. */
  lemma {:induction false} TwoLinePlaces(a: seq<Byte>, sep: Byte, b: seq<Byte>, x: nat, k: nat)
    requires ShortLine(a) && ShortLine(b) && Breaks(sep) && k <= |a| + 1 + |b| && x == 0
    ensures var text := a + [sep] + b;
            && ColumnOf(text, x, k) == (if k <= |a| then k else k - |a| - 1)
            && LineStart(text, x, k) == (if k <= |a| then 0 else |a| + 1)
            && RowOf(text, x, k) == (if k <= |a| || sep == 13 then 0 else 1)
  {
    if k > 0 {
      TwoLinePlaces(a, sep, b, x, k - 1);
      var text := a + [sep] + b;
      assert text[k - 1] == if k <= |a| then a[k - 1] else if k == |a| + 1 then sep else b[k - |a| - 2];
    }
  }

  lemma LastIs(text: seq<Byte>, x: nat, row: int, column: int, k: nat)
    requires k < |text| && StandsAt(text, x, k, row, column)
    requires forall j: nat | k < j < |text| :: !StandsAt(text, x, j, row, column)
    ensures LastAt(text, x, |text|, row, column) == k
  {
  }

  /** Character `k` is the last at its place, unless it is in the first line and overwritten by the second. */
  lemma TwoLinesLast(a: seq<Byte>, sep: Byte, b: seq<Byte>, x: nat, k: nat, row: int, column: int)
    requires ShortLine(a) && ShortLine(b) && Breaks(sep) && k < |a| + 1 + |b| && k != |a| && x == 0
    requires k < |a| ==> sep == 10 || k >= |b|
    requires row == (if k <= |a| || sep == 13 then 0 else 1) && column == (if k <= |a| then k else k - |a| - 1)
    ensures var text := a + [sep] + b;
            && text[k] == (if k < |a| then a[k] else b[k - |a| - 1])
            && LastAt(text, x, |text|, row, column) == k
  {
    var text := a + [sep] + b;
    TwoLinePlaces(a, sep, b, x, k);
    forall j: nat | k < j < |text| ensures !StandsAt(text, x, j, row, column) {
      TwoLinePlaces(a, sep, b, x, j);
      assert text[|a|] == sep;
    }
    LastIs(text, x, row, column, k);
  }

  /** A short line, a newline or a carriage return, and another short line from the start of a row. */
  lemma TwoLines(t: Terminal, a: seq<Byte>, sep: Byte, b: seq<Byte>, color: Byte)
    requires WellFormed(t) && t.column == 0 && ShortLine(a) && ShortLine(b) && Breaks(sep)
    ensures var u, y := PutAll(t, a + [sep] + b, color), if sep == 10 then t.row + 1 else t.row;
            && u.row == y && u.column == |b|
            && (forall c | 0 <= c < |b| :: ShowsChar(u, y, c, b[c], color))
            && (forall c | 0 <= c < |a| && (sep == 10 || c >= |b|) :: ShowsChar(u, t.row, c, a[c], color))
  {
    var text := a + [sep] + b;
    var u, y := PutAll(t, text, color), if sep == 10 then t.row + 1 else t.row;
    WholeLayout(t, text, color);
    TwoLinePlaces(a, sep, b, t.column, |text|);
    forall c | 0 <= c < |b| ensures ShowsChar(u, y, c, b[c], color) {
      TwoLinesLast(a, sep, b, t.column, |a| + 1 + c, y - t.row, c);
      assert CellAfter(t, u, text, color, |text|, y, c);
    }
    forall c | 0 <= c < |a| && (sep == 10 || c >= |b|) ensures ShowsChar(u, t.row, c, a[c], color) {
      TwoLinesLast(a, sep, b, t.column, c, t.row - t.row, c);
      assert CellAfter(t, u, text, color, |text|, t.row, c);
    }
  }

  ghost predicate ShowsChar(u: Terminal, y: int, c: int, letter: Byte, color: Byte) {
    0 <= y < |u.rows| && 0 <= c < |u.rows[y]| && u.rows[y][c] == Cell(letter, color)
  }

  /** A backspace goes back one column, but not past the start of the row, and blanks the cell it comes to. */
  lemma BackspaceLaw(t: Terminal, color: Byte)
    requires WellFormed(t)
    ensures var u := Put(t, 8, color);
            && u.row == t.row && |u.rows| == |t.rows| && u.column == (if t.column == 0 then 0 else t.column - 1)
            && forall y, c | 0 <= y < |t.rows| && 0 <= c < 80 ::
                 |u.rows[y]| == 80 &&
                 u.rows[y][c] == if y == t.row && c == t.column - 1 then Cell(SPACE, color) else t.rows[y][c]
  {
  }

  /** A backspace undoes the cursor movement of a character that did not wrap, and leaves a blank. */
  lemma BackspaceErases(t: Terminal, c: Byte, color: Byte)
    requires WellFormed(t) && Printable(c) && t.column + 1 < WIDTH
    ensures Put(Put(t, c, color), BACKSPACE, color) == SetCell(t, t.column, Cell(SPACE, color))
  {
    var w := SetCell(t, t.column, Cell(c, color));
    assert w.rows[t.row][t.column := Cell(SPACE, color)] == t.rows[t.row][t.column := Cell(SPACE, color)];
  }

  /** The cells show the last 25 rows. */
  ghost predicate Shows(cells: seq<int>, rows: seq<Row>) {
    && |cells| == CELLS && |rows| >= HEIGHT && (forall y | 0 <= y < |rows| :: |rows[y]| == WIDTH)
    && forall y, x | 0 <= y < HEIGHT && 0 <= x < WIDTH :: ShowsCell(cells, rows, y, x)
  }

  ghost predicate ShowsCell(cells: seq<int>, rows: seq<Row>, y: int, x: int)
    requires |cells| == CELLS && 0 <= y < HEIGHT && 0 <= x < WIDTH
    requires |rows| >= HEIGHT && |rows[|rows| - HEIGHT + y]| == WIDTH
  {
    cells[y * WIDTH + x] == rows[|rows| - HEIGHT + y][x]
  }

  lemma ShowsWrite(cells: seq<int>, t: Terminal, y: int, x: int, cell: int)
    requires Shows(cells, t.rows) && 0 <= y < HEIGHT && 0 <= x < WIDTH && t.row == Top(t) + y
    ensures Shows(cells[y * WIDTH + x := cell], SetCell(t, x, cell).rows)
  {
    var cells', rows' := cells[y * WIDTH + x := cell], SetCell(t, x, cell).rows;
    forall v, u | 0 <= v < HEIGHT && 0 <= u < WIDTH
      ensures ShowsCell(cells', rows', v, u)
    {
      assert ShowsCell(cells, t.rows, v, u);
    }
  }

  /** The cells after a scroll show the rows with a blank one added. */
  lemma ShowsScroll(cells: seq<int>, cells': seq<int>, rows: seq<Row>, rows': seq<Row>, color: Byte)
    requires Shows(cells, rows) && |cells'| == CELLS && rows' == rows + [BlankRow(color)]
    requires forall i | 0 <= i < CELLS - WIDTH :: cells'[i] == cells[i + WIDTH]
    requires forall i | CELLS - WIDTH <= i < CELLS :: cells'[i] == Cell(SPACE, color)
    ensures Shows(cells', rows')
  {
    forall v, u | 0 <= v < HEIGHT && 0 <= u < WIDTH
      ensures ShowsCell(cells', rows', v, u)
    {
      if v < HEIGHT - 1 {
        assert ShowsCell(cells, rows, v + 1, u);
        assert cells'[v * WIDTH + u] == cells[(v + 1) * WIDTH + u];
      }
    }
  }

  // ---------- the driver ----------

  class Console {
    var row: int
    var column: int
    var color: Byte
    const buffer: array<int>
    ghost var term: Terminal

    ghost predicate Valid()
      reads this, buffer
    {
      && buffer.Length == CELLS && 0 <= row < HEIGHT && 0 <= column < WIDTH
      && WellFormed(term) && Shows(buffer[..], term.rows)
      && row == term.row - Top(term) && column == term.column
    }

    /** `console_initialize`. */
    constructor (cells: array<int>, color: Byte)
      requires cells.Length == CELLS
      modifies cells
      ensures Valid() && buffer == cells && this.color == color
      ensures term == Terminal(Repeat(BlankRow(color), 25), 0, 0)
    {
      row, column, this.color, buffer := 0, 0, color, cells;
      term := Terminal(Repeat(BlankRow(color), 25), 0, 0);
      new;
      Clear();
    }

    /** `console_clear`. */
    method Clear()
      requires buffer.Length == CELLS
      modifies this`row, this`column, this`term, buffer
      ensures Valid() && term == Terminal(Repeat(BlankRow(color), 25), 0, 0)
    {
      for y := 0 to HEIGHT
        invariant forall i | 0 <= i < y * WIDTH :: buffer[i] == Cell(SPACE, color)
      {
        for x := 0 to WIDTH
          invariant forall i | 0 <= i < y * WIDTH + x :: buffer[i] == Cell(SPACE, color)
        {
          buffer[y * WIDTH + x] := Cell(SPACE, color);
        }
      }
      row, column := 0, 0;
      term := Terminal(Repeat(BlankRow(color), 25), 0, 0);
      forall y, x | 0 <= y < HEIGHT && 0 <= x < WIDTH ensures ShowsCell(buffer[..], term.rows, y, x) {}
    }

    /** `console_scroll`: every row moves up by one and the last one is cleared. */
    method Scroll()
      requires buffer.Length == CELLS
      modifies this`row, buffer
      ensures row == HEIGHT - 1
      ensures forall i | 0 <= i < CELLS - WIDTH :: buffer[i] == old(buffer[i + WIDTH])
      ensures forall i | CELLS - WIDTH <= i < CELLS :: buffer[i] == Cell(SPACE, color)
    {
      for y := 1 to HEIGHT
        invariant forall i | 0 <= i < (y - 1) * WIDTH :: buffer[i] == old(buffer[i + WIDTH])
        invariant forall i | (y - 1) * WIDTH <= i < CELLS :: buffer[i] == old(buffer[i])
      {
        MoveRowUp(y);
      }
      for x := 0 to WIDTH
        invariant forall i | 0 <= i < CELLS - WIDTH :: buffer[i] == old(buffer[i + WIDTH])
        invariant forall i | CELLS - WIDTH <= i < CELLS - WIDTH + x :: buffer[i] == Cell(SPACE, color)
      {
        buffer[(HEIGHT - 1) * WIDTH + x] := Cell(SPACE, color);
      }
      row := HEIGHT - 1;
    }

    /** The inner loop of `console_scroll`: row `y` is copied over the row above it. */
    method MoveRowUp(y: int)
      requires buffer.Length == CELLS && 1 <= y < HEIGHT
      modifies buffer
      ensures forall i | 0 <= i < CELLS ::
                buffer[i] == if (y - 1) * WIDTH <= i < y * WIDTH then old(buffer[i + WIDTH]) else old(buffer[i])
    {
      for x := 0 to WIDTH
        invariant forall i | 0 <= i < CELLS ::
                    buffer[i] == if (y - 1) * WIDTH <= i < (y - 1) * WIDTH + x then old(buffer[i + WIDTH])
                                  else old(buffer[i])
      {
        buffer[(y - 1) * WIDTH + x] := buffer[y * WIDTH + x];
      }
    }

    /**
     The two checks at the end of `console_putchar`.  `w` is the terminal the cells show; the cursor
     is in place, past the end of its row, or already at the start of the next row.
     */
    method WrapAndScroll(ghost w: Terminal)
      requires buffer.Length == CELLS && WellFormed(w) && Shows(buffer[..], w.rows)
      requires
        || (row == w.row - Top(w) && column == w.column)
        || (row == w.row - Top(w) && column == WIDTH)
        || (row == w.row - Top(w) + 1 && column == 0)
      modifies this`row, this`column, this`term, buffer
      ensures Valid()
      ensures term == if old(row) == w.row - Top(w) && old(column) < WIDTH then w else NextRow(w, color)
    {
      if column >= WIDTH {
        column := 0;
        row := row + 1;
      }
      ghost var cells := buffer[..];
      term := if row == w.row - Top(w) then w else NextRow(w, color);
      if row >= HEIGHT {
        Scroll();
        ShowsScroll(cells, buffer[..], w.rows, term.rows, color);
      }
    }

    /** `console_putchar`; a backspace prints a space through a recursive call. */
    method Putchar(c: Byte)
      requires Valid()
      modifies this`row, this`column, this`term, buffer
      ensures Valid() && term == Put(old(term), c, color)
      decreases if c == BACKSPACE then 1 else 0
    {
      ghost var t := term;
      if c == NEWLINE {
        column := 0;
        row := row + 1;
      } else if c == RETURN {
        column := 0;
        t := t.(column := 0);
      } else if c == BACKSPACE {
        if column > 0 {
          column := column - 1;
          term := t.(column := t.column - 1);
          Putchar(SPACE);
          column := column - 1;
          t := term.(column := term.column - 1);
        }
      } else {
        var index := row * WIDTH + column;
        ShowsWrite(buffer[..], t, row, column, Cell(c, color));
        buffer[index] := Cell(c, color);
        t := SetCell(t, column, Cell(c, color));
        column := column + 1;
        if column < WIDTH { t := t.(column := column); }
      }
      WrapAndScroll(t);
    }

    /** `console_write`: the characters of a string up to its terminating zero. */
    method Write(data: seq<Byte>)
      requires Valid() && 0 in data
      modifies this`row, this`column, this`term, buffer
      ensures Valid() && term == PutAll(old(term), Text(data), color)
      ensures NoBackspace(Text(data)) ==> LaidOut(old(term), term, Text(data), color)
    {
      var i := 0;
      while data[i] != 0
        invariant 0 <= i < |data| && 0 in data[i..] && Valid()
        invariant 0 !in data[..i] && term == PutAll(old(term), data[..i], color)
        decreases |data| - i
      {
        Putchar(data[i]);
        assert data[..i + 1][..i] == data[..i];
        assert data[i..] == [data[i]] + data[i + 1..];
        i := i + 1;
      }
      TextUpTo(data, i);
      if NoBackspace(Text(data)) { WholeLayout(old(term), Text(data), color); }
    }
  }

  /** The characters before the first zero. */
  function Text(data: seq<Byte>): seq<Byte> {
    if data == [] || data[0] == 0 then [] else [data[0]] + Text(data[1..])
  }

  lemma {:induction false} TextUpTo(data: seq<Byte>, i: nat)
    requires i < |data| && data[i] == 0 && 0 !in data[..i]
    ensures Text(data) == data[..i]
  {
    if i > 0 {
      assert data[0] == data[..i][0] && data[1..][..i - 1] == data[1..i];
      assert forall b | b in data[1..i] :: b in data[..i];
      TextUpTo(data[1..], i - 1);
    }
  }
}
