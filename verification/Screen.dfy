/** The scrolling text screen: an 80 by 25 buffer shifted in place, which shows the
    end of an unbounded typescript. */
module Screen {
  const VGA_WIDTH: nat := 80
  const VGA_HEIGHT: nat := 25
  const NEWLINE: bv8 := 10
  const BLANK: bv8 := 32

  /** `(uint16_t) c`, where `char` is signed. */
  function SignExtend(c: bv8): bv16 {
    if c >= 0x80 then 0xFF00 | c as bv16 else c as bv16
  }

  function VgaEntry(c: bv8, color: bv8): bv16 {
    SignExtend(c) | ((color as bv16) << 8)
  }

  /** The cell always shows the character, but in the colour asked for exactly when
      the character has 7 bits: the sign of the others fills the colour byte. */
  lemma ColourKept(c: bv8, color: bv8)
    ensures VgaEntry(c, color) & 0xFF == c as bv16
    ensures VgaEntry(c, color) >> 8 == color as bv16 <==> c < 0x80 || color == 0xFF
  {
  }

  // ---- the typescript ----

  type Row = seq<bv8>

  /** Rows of at most 80 characters; the last one, which is being typed, has room
      for another. */
  ghost predicate Typescript(rows: seq<Row>) {
    && rows != []
    && (forall i | 0 <= i < |rows| :: |rows[i]| <= 80)
    && |rows[|rows| - 1]| < 80
  }

  function Last(rows: seq<Row>): Row
    requires rows != []
  {
    rows[|rows| - 1]
  }

  /** A newline starts a row; so does the 80th character of a row. */
  function Put(rows: seq<Row>, c: bv8): seq<Row>
    requires rows != []
  {
    if c == NEWLINE then rows + [[]]
    else
      var row := Last(rows) + [c];
      rows[|rows| - 1 := row] + if |row| >= 80 then [[]] else []
  }

  /** A backspace takes back the last character of the row being typed. */
  function Erased(rows: seq<Row>): seq<Row>
    requires rows != []
  {
    if Last(rows) == [] then rows else rows[|rows| - 1 := Last(rows)[..|Last(rows)| - 1]]
  }

  function PutAll(rows: seq<Row>, s: seq<bv8>): seq<Row>
    requires rows != []
    decreases |s|
  {
    if s == [] then rows else PutAll(Put(rows, s[0]), s[1..])
  }

  function Concat(rows: seq<Row>): seq<bv8> {
    if rows == [] then [] else Concat(rows[..|rows| - 1]) + rows[|rows| - 1]
  }

  function WithoutNewlines(s: seq<bv8>): seq<bv8> {
    if s == [] then [] else (if s[0] == NEWLINE then [] else [s[0]]) + WithoutNewlines(s[1..])
  }

  lemma PutConcat(rows: seq<Row>, c: bv8)
    requires Typescript(rows)
    ensures Typescript(Put(rows, c))
    ensures Concat(Put(rows, c)) == Concat(rows) + if c == NEWLINE then [] else [c]
  {
    var n := |rows| - 1;
    if c == NEWLINE {
      assert (rows + [[]])[..|rows|] == rows;
    } else {
      var row := rows[n] + [c];
      var once := rows[n := row];
      assert once[..n] == rows[..n];
      assert Concat(once) == Concat(rows[..n]) + (rows[n] + [c]) == Concat(rows) + [c];
      assert once + [] == once;
      assert (once + [[]])[..|once|] == once;
    }
  }

  /** The rows hold the characters typed, all of them and in order, and wrapping
      loses or repeats none. */
  lemma {:induction false} TextIsKept(rows: seq<Row>, s: seq<bv8>)
    requires Typescript(rows)
    ensures Typescript(PutAll(rows, s))
    ensures Concat(PutAll(rows, s)) == Concat(rows) + WithoutNewlines(s)
    decreases |s|
  {
    if s != [] {
      PutConcat(rows, s[0]);
      TextIsKept(Put(rows, s[0]), s[1..]);
    }
  }

  /** A line broken into rows of 80. A line that fills its last row is followed by an
      empty one, since the row is left as soon as it is full. */
  function Chunks(line: seq<bv8>): seq<Row> {
    if |line| < 80 then [line] else [line[..80]] + Chunks(line[80..])
  }

  /** Where the first newline of `s` is, or its end. */
  function LineEnd(s: seq<bv8>): (n: nat)
    ensures n <= |s|
  {
    if s == [] || s[0] == NEWLINE then 0 else 1 + LineEnd(s[1..])
  }

  /** The rows of a text: each line between newlines broken into rows. */
  function Layout(s: seq<bv8>): seq<Row>
    decreases |s|
  {
    var n := LineEnd(s);
    Chunks(s[..n]) + if n < |s| then Layout(s[n + 1..]) else []
  }

  /** The end of the line is found behind text without newlines. */
  lemma {:induction false} LineEndBehind(row: seq<bv8>, s: seq<bv8>)
    requires NEWLINE !in row
    ensures LineEnd(row + s) == |row| + LineEnd(s)
  {
    if row == [] {
      assert row + s == s;
    } else {
      LineEndBehind(row[1..], s);
      assert (row + s)[1..] == row[1..] + s;
    }
  }

  /** A full row is laid out by itself. */
  lemma FullRow(row: Row, s: seq<bv8>)
    requires |row| == 80 && NEWLINE !in row
    ensures Layout(row + s) == [row] + Layout(s)
  {
    var n := LineEnd(s);
    LineEndBehind(row, s);
    var line := (row + s)[..80 + n];
    assert line[..80] == row && line[80..] == s[..n];
    assert (row + s)[80 + n..] == s[n..];
    if n < |s| {
      assert (row + s)[80 + n + 1..] == s[n + 1..];
    }
  }

  /** A row that is not full, and the newline behind it. */
  lemma ShortRow(row: Row, s: seq<bv8>)
    requires |row| < 80 && NEWLINE !in row && (s == [] || s[0] == NEWLINE)
    ensures Layout(row + s) == [row] + if s == [] then [] else Layout(s[1..])
  {
    LineEndBehind(row, s);
    assert (row + s)[..|row|] == row;
    if s != [] {
      assert (row + s)[|row| + 1..] == s[1..];
    }
  }

  lemma PutOn(rows: seq<Row>, row: Row, c: bv8)
    requires |row| < 80
    ensures Put(rows + [row], c) ==
            if c == NEWLINE then (rows + [row]) + [[]]
            else if |row| < 79 then rows + [row + [c]] else (rows + [row + [c]]) + [[]]
  {
    assert (rows + [row])[|rows| := row + [c]] == rows + [row + [c]];
    assert rows + [row + [c]] + [] == rows + [row + [c]];
  }

  lemma {:induction false} TypedOn(rows: seq<Row>, row: Row, s: seq<bv8>)
    requires |row| < 80 && NEWLINE !in row
    ensures PutAll(rows + [row], s) == rows + Layout(row + s)
    decreases |s|
  {
    hide Put, Last, Layout, Chunks, LineEnd;
    if s == [] || s[0] == NEWLINE {
      ShortRow(row, s);
    }
    if s != [] {
      var blank: Row, longer := [], row + [s[0]];
      PutOn(rows, row, s[0]);
      assert row + s == longer + s[1..] && blank + s[1..] == s[1..];
      if s[0] == NEWLINE {
        TypedOn(rows + [row], blank, s[1..]);
      } else if |row| < 79 {
        TypedOn(rows, longer, s[1..]);
      } else {
        TypedOn(rows + [longer], blank, s[1..]);
        FullRow(longer, s[1..]);
      }
    }
  }

  /** What is typed on an empty screen is laid out line by line, in rows of 80. */
  lemma TypescriptIsLayout(s: seq<bv8>)
    ensures PutAll([[]], s) == Layout(s)
  {
    var none: seq<Row>, blank: Row := [], [];
    TypedOn(none, blank, s);
    assert none + [blank] == [[]] && blank + s == s && none + Layout(s) == Layout(s);
  }

  /** A backspace takes the last character of the row being typed and nothing else; on
      an empty row it does nothing. */
  lemma EraseTakesOne(rows: seq<Row>)
    requires Typescript(rows)
    ensures var n := |rows| - 1; var t := Erased(rows);
      && |t| == |rows| && (forall i | 0 <= i < n :: t[i] == rows[i])
      && t[n] == if rows[n] == [] then [] else rows[n][..|rows[n]| - 1]
  {
  }

  /** Backspace undoes a character exactly when that did not fill the row. */
  lemma EraseUndoes(rows: seq<Row>, c: bv8)
    requires Typescript(rows) && c != NEWLINE
    ensures Erased(Put(rows, c)) == rows <==> |Last(rows)| < 79
  {
    var n := |rows| - 1;
    var row := rows[n] + [c];
    var once := rows[n := row];
    if |rows[n]| < 79 {
      assert Put(rows, c) == once + [] == once;
      assert row[..|row| - 1] == rows[n];
      assert Erased(once) == once[n := rows[n]] == rows;
    } else {
      assert |Put(rows, c)| == |rows| + 1;
      assert Last(Put(rows, c)) == [];
    }
  }

  // ---- the window ----

  /** The first row shown. */
  function Top(rows: seq<Row>): nat { if |rows| <= 25 then 0 else |rows| - 25 }

  /** Cell `i` of a screen that shows `rows` from row `top` on. */
  function Cell(rows: seq<Row>, top: nat, i: nat, color: bv8): bv16 {
    var r := top + i / 80;
    if r < |rows| && i % 80 < |rows[r]| then VgaEntry(rows[r][i % 80], color) else VgaEntry(BLANK, color)
  }

  lemma CellIndex(row: nat, col: nat, i: nat)
    requires col < 80
    ensures i == 80 * row + col <==> i / 80 == row && i % 80 == col
  {
  }

  /** A character typed changes one cell, as long as the window does not move. */
  lemma PutCell(rows: seq<Row>, top: nat, c: bv8, i: nat, color: bv8)
    requires Typescript(rows) && top < |rows|
    ensures Cell(Put(rows, c), top, i, color) ==
            if c != NEWLINE && i == 80 * (|rows| - 1 - top) + |Last(rows)| then VgaEntry(c, color)
            else Cell(rows, top, i, color)
  {
    CellIndex(|rows| - 1 - top, |Last(rows)|, i);
    hide VgaEntry;
  }

  lemma ErasedCell(rows: seq<Row>, top: nat, i: nat, color: bv8)
    requires Typescript(rows) && top < |rows| && Last(rows) != []
    ensures Cell(Erased(rows), top, i, color) ==
            if i == 80 * (|rows| - 1 - top) + |Last(rows)| - 1 then VgaEntry(BLANK, color) else Cell(rows, top, i, color)
  {
    CellIndex(|rows| - 1 - top, |Last(rows)| - 1, i);
    hide VgaEntry;
  }

  /** The window one row on: its last row is the row just started. */
  lemma ScrolledCell(rows: seq<Row>, top: nat, i: nat, color: bv8)
    requires rows != [] && Last(rows) == [] && top + 26 == |rows| && i < 2000
    ensures Cell(rows, top + 1, i, color) == if i < 1920 then Cell(rows, top, i + 80, color) else VgaEntry(BLANK, color)
  {
    hide VgaEntry;
  }

  class Display {
    const vga: array<bv16>
    const color: bv8
    var cursorRow: nat
    var cursorCol: nat
    ghost var rows: seq<Row>

    /** The buffer is the last 25 rows of the typescript, the cursor where typing
        goes on. */
    ghost predicate Valid()
      reads this, vga
    {
      && vga.Length == 2000 && Typescript(rows)
      && cursorRow == |rows| - 1 - Top(rows) && cursorCol == |Last(rows)|
      && Shows(Top(rows))
    }

    ghost predicate Shows(top: nat)
      requires vga.Length == 2000
      reads this`rows, vga
    {
      forall i | 0 <= i < 2000 :: vga[i] == Cell(rows, top, i, color)
    }

    constructor (buffer: array<bv16>)
      ensures vga == buffer && color == 0x0F
    {
      vga, color, cursorRow, cursorCol, rows := buffer, 0x0F, 0, 0, [[]];
    }

    /** `clear_screen`: a new typescript. */
    method ClearScreen()
      requires vga.Length == 2000
      modifies this`cursorRow, this`cursorCol, this`rows, vga
      ensures Valid() && rows == [[]]
    {
      hide VgaEntry;
      for i := 0 to VGA_WIDTH * VGA_HEIGHT
        invariant forall j | 0 <= j < i :: vga[j] == VgaEntry(BLANK, color)
      {
        vga[i] := VgaEntry(BLANK, color);
      }
      cursorRow, cursorCol := 0, 0;
      rows := [[]];
    }

    /** `scroll` */
    method Scroll(ghost top: nat)
      requires vga.Length == 2000 && rows != [] && Last(rows) == [] && top + 26 == |rows| && Shows(top)
      modifies this`cursorRow, vga
      ensures Shows(top + 1) && cursorRow == 24
    {
      hide VgaEntry, Cell;
      ghost var was := vga[..];
      for i := 0 to 1920
        invariant forall j | 0 <= j < i :: vga[j] == was[j + 80]
        invariant forall j | i <= j < 2000 :: vga[j] == was[j]
      {
        vga[i] := vga[i + VGA_WIDTH];
      }
      for x := 0 to 80
        invariant forall j | 0 <= j < 1920 :: vga[j] == was[j + 80]
        invariant forall j | 1920 <= j < 1920 + x :: vga[j] == VgaEntry(BLANK, color)
      {
        vga[(VGA_HEIGHT - 1) * VGA_WIDTH + x] := VgaEntry(BLANK, color);
      }
      cursorRow := 24;
      forall i | 0 <= i < 2000 ensures vga[i] == Cell(rows, top + 1, i, color) {
        ScrolledCell(rows, top, i, color);
      }
    }

    /** The window: its 25 rows are the last of the typescript, from the first on as
        long as there are no more, and every cell shows the character there or a
        blank. */
    lemma WindowShown(i: nat)
      requires Valid() && i < 2000
      ensures var top := if |rows| <= 25 then 0 else |rows| - 25;
        && cursorRow == |rows| - 1 - top && cursorCol == |rows[|rows| - 1]|
        && vga[i] & 0xFF == if top + i / 80 < |rows| && i % 80 < |rows[top + i / 80]|
                            then rows[top + i / 80][i % 80] as bv16 else 0x20
    {
      var r := Top(rows) + i / 80;
      ColourKept(if r < |rows| && i % 80 < |rows[r]| then rows[r][i % 80] else BLANK, color);
      hide VgaEntry;
    }

    /** `putchar`, for any byte. */
    method PutChar(c: bv8)
      requires Valid()
      modifies this`cursorRow, this`cursorCol, this`rows, vga
      ensures Valid() && rows == Put(old(rows), c)
    {
      hide VgaEntry, Cell;
      ghost var top := Top(rows);
      forall i | 0 <= i < 2000
        ensures Cell(Put(rows, c), top, i, color) ==
                if c != NEWLINE && i == 80 * cursorRow + cursorCol then VgaEntry(c, color) else Cell(rows, top, i, color)
      {
        PutCell(rows, top, c, i, color);
      }
      PutConcat(rows, c);
      if c == NEWLINE {
        cursorCol := 0;
        cursorRow := cursorRow + 1;
      } else {
        vga[cursorRow * VGA_WIDTH + cursorCol] := VgaEntry(c, color);
        cursorCol := cursorCol + 1;
        if cursorCol >= VGA_WIDTH {
          cursorCol := 0;
          cursorRow := cursorRow + 1;
        }
      }
      rows := Put(rows, c);
      if cursorRow >= VGA_HEIGHT {
        Scroll(top);
      }
    }

    /** `backspace` */
    method Backspace()
      requires Valid()
      modifies this`cursorCol, this`rows, vga
      ensures Valid() && rows == Erased(old(rows))
    {
      hide VgaEntry, Cell;
      if cursorCol == 0 {
        return;
      }
      ghost var top := Top(rows);
      forall i | 0 <= i < 2000
        ensures Cell(Erased(rows), top, i, color) ==
                if i == 80 * cursorRow + cursorCol - 1 then VgaEntry(BLANK, color) else Cell(rows, top, i, color)
      {
        ErasedCell(rows, top, i, color);
      }
      cursorCol := cursorCol - 1;
      vga[cursorRow * VGA_WIDTH + cursorCol] := VgaEntry(BLANK, color);
      rows := Erased(rows);
    }

    /** `print`, up to the terminating NUL. */
    method Print(str: seq<bv8>)
      requires Valid()
      modifies this`cursorRow, this`cursorCol, this`rows, vga
      ensures Valid() && rows == PutAll(old(rows), str)
    {
      for i := 0 to |str|
        invariant Valid() && PutAll(rows, str[i..]) == PutAll(old(rows), str)
      {
        PutChar(str[i]);
      }
    }
  }
}
