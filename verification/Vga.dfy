/**
  The text screen as it runs: 25 rows of 80 cells in one array, a title row that output never
  touches, and a cursor. Output scrolls rows 1 to 24.
 */
module TextScreen {
  import opened Machine
  import opened Terminal

  const CELLS: nat := 2000
  const COLOR_HEADER: u8 := 0x1F

  /** Screen row `r` >= 1 shows line `top + r - 1`. */
  ghost predicate ShowsFrom(cells: seq<Cell>, lines: seq<Row>, top: nat)
    requires |cells| == CELLS
  {
    forall k :: 80 <= k < 2000 ==> cells[k] == CellIn(lines, top + k / 80 - 1, k % 80)
  }

  lemma WriteShows(cells: seq<Cell>, lines: seq<Row>, top: nat, c: nat, cell: Cell)
    requires |cells| == CELLS && ShowsFrom(cells, lines, top) && c < 80
    requires 1 <= |lines| - top <= 24
    ensures ShowsFrom(cells[(|lines| - top) * 80 + c := cell], SetLast(lines, c, cell), top)
  {
  }

  lemma NewLineShows(cells: seq<Cell>, lines: seq<Row>, top: nat)
    requires |cells| == CELLS && ShowsFrom(cells, lines, top)
    ensures ShowsFrom(cells, lines + [BlankRow()], top)
  {
  }

  lemma ScrollShows(cells: seq<Cell>, cells': seq<Cell>, lines: seq<Row>, top: nat)
    requires |cells| == |cells'| == CELLS && ShowsFrom(cells, lines, top)
    requires |lines| == top + 25 && lines[|lines| - 1] == BlankRow()
    requires forall k :: 80 <= k < 1920 ==> cells'[k] == cells[k + 80]
    requires forall k :: 1920 <= k < 2000 ==> cells'[k] == BLANK
    ensures ShowsFrom(cells', lines, top + 1)
  {
    forall k | 80 <= k < 2000 ensures cells'[k] == CellIn(lines, top + 1 + k / 80 - 1, k % 80) {
      if k < 1920 {
        assert (k + 80) / 80 == k / 80 + 1 && (k + 80) % 80 == k % 80;
      }
    }
  }

  /** A space, in the title row in its own colour. */
  function ClearedCell(k: nat): Cell {
    CellOf(32, if k < 80 then COLOR_HEADER else COLOR_DEFAULT)
  }

  class Vga {
    const cells: array<Cell>
    var cursorCol: nat
    var cursorRow: nat
    ghost var term: Term // everything written since the screen was cleared

    /** Rows 1 to 24 are the window on the terminal, and the cursor is where it should be. */
    ghost predicate Valid()
      reads this, cells
    {
      && cells.Length == CELLS && term.Valid()
      && cursorCol == term.col && cursorRow == CursorRow(term)
      && ShowsFrom(cells[..], term.lines, Top(term))
    }

    ghost function Title(): seq<Cell>
      requires cells.Length == CELLS
      reads cells
    {
      cells[..80]
    }

    constructor ()
      ensures cells.Length == CELLS && fresh(cells)
    {
      cells := new Cell[CELLS](_ => 0);
      cursorCol, cursorRow := 0, 0;
      term := Cleared();
    }

    // What the screen shows: in row r the r-th of the last 24 lines, or of all of them.
    lemma ScreenShows(r: nat, c: nat)
      requires Valid() && 1 <= r <= 24 && c < 80
      ensures cells[r * 80 + c] == term.At(if |term.lines| <= 24 then r - 1 else |term.lines| - 24 + r - 1, c)
      ensures cursorCol == term.col && cursorRow == Min(|term.lines|, 24)
    {
      WindowIsLast24(term, r, c);
      assert cells[..][r * 80 + c] == Shown(term, r * 80 + c);
    }

    method WriteCell(col: nat, row: nat, ch: u8, color: u8)
      requires cells.Length == CELLS && col < 80 && row < 25
      modifies cells
      ensures cells[..] == old(cells[..])[row * 80 + col := CellOf(ch, color)]
      ensures CharOf(cells[row * 80 + col]) == ch && ColorOf(cells[row * 80 + col]) == color
    {
      CellHolds(ch, color);
      cells[row * 80 + col] := CellOf(ch, color);
    }

    // Rows 2 to 24 move up by one, row 24 becomes blank.
    method Scroll()
      requires cells.Length == CELLS && cursorRow > 0
      modifies cells, `cursorRow
      ensures Title() == old(Title()) && cursorRow == old(cursorRow) - 1
      ensures forall k :: 80 <= k < 1920 ==> cells[k] == old(cells[k + 80])
      ensures forall k :: 1920 <= k < 2000 ==> cells[k] == BLANK
    {
      var row := 2;
      while row < 25
        invariant 2 <= row <= 25
        invariant forall k :: 0 <= k < 80 ==> cells[k] == old(cells[k])
        invariant forall k :: 80 <= k < row * 80 - 80 ==> cells[k] == old(cells[k + 80])
        invariant forall k :: row * 80 - 80 <= k < 2000 ==> cells[k] == old(cells[k])
        modifies cells
      {
        var col := 0;
        while col < 80
          invariant 0 <= col <= 80
          invariant forall k :: 0 <= k < 80 ==> cells[k] == old(cells[k])
          invariant forall k :: 80 <= k < row * 80 - 80 + col ==> cells[k] == old(cells[k + 80])
          invariant forall k :: row * 80 - 80 + col <= k < 2000 ==> cells[k] == old(cells[k])
          modifies cells
        {
          cells[(row - 1) * 80 + col] := cells[row * 80 + col];
          col := col + 1;
        }
        row := row + 1;
      }
      var col := 0;
      while col < 80
        invariant 0 <= col <= 80
        invariant forall k :: 0 <= k < 80 ==> cells[k] == old(cells[k])
        invariant forall k :: 80 <= k < 1920 ==> cells[k] == old(cells[k + 80])
        invariant forall k :: 1920 <= k < 1920 + col ==> cells[k] == BLANK
        modifies cells
      {
        WriteCell(col, 24, 32, COLOR_DEFAULT);
        col := col + 1;
      }
      cursorRow := cursorRow - 1;
    }

    method Clear()
      requires cells.Length == CELLS
      modifies this, cells
      ensures Valid() && term == Cleared()
      ensures forall k :: 0 <= k < 80 ==> cells[k] == 0x1F20
      ensures forall k :: 80 <= k < 2000 ==> cells[k] == 0x0F20
    {
      var row := 0;
      while row < 25
        invariant 0 <= row <= 25
        invariant forall k :: 0 <= k < row * 80 ==> cells[k] == ClearedCell(k)
        modifies cells
      {
        var color := if row == 0 then COLOR_HEADER else COLOR_DEFAULT;
        var col := 0;
        while col < 80
          invariant 0 <= col <= 80
          invariant forall k :: 0 <= k < row * 80 + col ==> cells[k] == ClearedCell(k)
          modifies cells
        {
          WriteCell(col, row, 32, color);
          col := col + 1;
        }
        row := row + 1;
      }
      cursorCol := 0;
      cursorRow := 1;
      term := Cleared();
    }

    // One character of output. The title row stays; the rest is the window on the terminal.
    method PutChar(ch: u8, color: u8)
      requires Valid()
      modifies this, cells
      ensures Valid() && term == Put(old(term), ch, color) && Title() == old(Title())
    {
      hide ShowsFrom, CharOf, ColorOf;
      CursorInWindow(term);
      ghost var t, lines, top, cs := term, term.lines, Top(term), cells[..];
      if ch == NEWLINE {
        cursorCol := 0;
        cursorRow := cursorRow + 1;
        NewLineShows(cs, lines, top);
      } else if ch == BACKSPACE {
        if cursorCol > 0 {
          cursorCol := cursorCol - 1;
          WriteCell(cursorCol, cursorRow, 32, COLOR_DEFAULT);
          WriteShows(cs, lines, top, cursorCol, BLANK);
        }
      } else {
        WriteCell(cursorCol, cursorRow, ch, color);
        WriteShows(cs, lines, top, t.col, CellOf(ch, color));
        cursorCol := cursorCol + 1;
        if cursorCol >= 80 {
          cursorCol := 0;
          cursorRow := cursorRow + 1;
          NewLineShows(cells[..], SetLast(lines, t.col, CellOf(ch, color)), top);
        }
      }
      term := Put(term, ch, color);
      if cursorRow >= 25 {
        cs := cells[..];
        Scroll();
        ScrollShows(cs, cells[..], term.lines, top);
      }
    }

    method Print(s: seq<u8>, color: u8)
      requires Valid()
      modifies this, cells
      ensures Valid() && term == Feed(old(term), s, color) && Title() == old(Title())
    {
      var i := 0;
      while i < |s|
        invariant 0 <= i <= |s| && Valid()
        invariant term == Feed(old(term), s[..i], color) && Title() == old(Title())
      {
        assert s[..i + 1][..i] == s[..i];
        PutChar(s[i], color);
        i := i + 1;
      }
      assert s[..|s|] == s;
    }
  }
}
