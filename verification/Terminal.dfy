/**
  The terminal as it would be on an endless sheet of paper: every line ever written, 80 cells
  each, and the cursor in the last one. The screen is a window on its end.
 */
module Terminal {
  import opened Machine

  const NEWLINE: u8 := 10
  const BACKSPACE: u8 := 8
  const COLOR_DEFAULT: u8 := 0x0F

  /** Colour in the high byte, character in the low byte. */
  type Cell = x: int | 0 <= x < 0x1_0000

  type Row = r: seq<Cell> | |r| == 80 witness seq(80, i => 0x0F20)

  function CellOf(ch: u8, color: u8): Cell {
    color * 256 + ch
  }

  const BLANK: Cell := 0x0F20

  function BlankRow(): Row {
    seq(80, i => BLANK)
  }

  /** The character a cell shows: its low byte. */
  function CharOf(cell: Cell): int {
    cell % 256
  }

  /** The colour it has: its high byte. */
  function ColorOf(cell: Cell): int {
    cell / 256
  }

  // A cell holds the character and the colour it was made of, in the source's shift and or.
  lemma CellHolds(ch: u8, color: u8)
    ensures CharOf(CellOf(ch, color)) == ch && ColorOf(CellOf(ch, color)) == color
    ensures CellOf(ch, color) == Or(Shl(color, 8), ch)
  {
    DivisionIs(CellOf(ch, color), 256, color, ch);
    hide Or, Shl;
    assert Pow2(8) == 256;
    OrDisjoint(color, ch, 8);
    ShlIsTimes(color, 8);
  }

  lemma BlankHolds()
    ensures CharOf(BLANK) == 32 && ColorOf(BLANK) == 0x0F
  {
  }

  datatype Term = Term(lines: seq<Row>, col: nat) {
    ghost predicate Valid() {
      lines != [] && col < 80
    }

    function Last(): Row
      requires lines != []
    {
      lines[|lines| - 1]
    }

    /** The cursor's place counted in cells from the first line on. */
    function Position(): int {
      (|lines| - 1) * 80 + col
    }

    /** The cell in line `n`, blank below the last line. */
    function At(n: nat, c: nat): Cell
      requires c < 80
    {
      CellIn(lines, n, c)
    }
  }

  function CellIn(lines: seq<Row>, n: nat, c: nat): Cell
    requires c < 80
  {
    if n < |lines| then lines[n][c] else BLANK
  }

  function SetLast(lines: seq<Row>, c: nat, cell: Cell): seq<Row>
    requires lines != [] && c < 80
  {
    lines[|lines| - 1 := lines[|lines| - 1][c := cell]]
  }

  /** One character: a line feed, a backspace that stops at the left edge, or a cell. */
  function Put(t: Term, ch: u8, color: u8): (t': Term)
    requires t.Valid()
    ensures t'.Valid()
  {
    if ch == NEWLINE then Term(t.lines + [BlankRow()], 0)
    else if ch == BACKSPACE then
      if t.col > 0 then Term(SetLast(t.lines, t.col - 1, BLANK), t.col - 1) else t
    else
      var lines := SetLast(t.lines, t.col, CellOf(ch, color));
      if t.col + 1 < 80 then Term(lines, t.col + 1) else Term(lines + [BlankRow()], 0)
  }

  /** A string, character by character. */
  function Feed(t: Term, s: seq<u8>, color: u8): (t': Term)
    requires t.Valid()
    ensures t'.Valid()
  {
    if s == [] then t else Put(Feed(t, s[..|s| - 1], color), s[|s| - 1], color)
  }

  function Erase(t: Term, n: nat): (t': Term)
    requires t.Valid()
    ensures t'.Valid()
  {
    if n == 0 then t else Put(Erase(t, n - 1), BACKSPACE, COLOR_DEFAULT)
  }

  /** The screen after it was cleared. */
  function Cleared(): (t: Term)
    ensures t.Valid()
  {
    Term([BlankRow()], 0)
  }

  // ---------- The window ----------

  /** The line shown in the first row below the title. */
  function Top(t: Term): nat {
    if |t.lines| <= 24 then 0 else |t.lines| - 24
  }

  function CursorRow(t: Term): int {
    |t.lines| - Top(t)
  }

  /** The cell at flat screen index `k`, title row excluded. */
  function Shown(t: Term, k: nat): Cell
    requires 80 <= k < 2000
  {
    t.At(Top(t) + k / 80 - 1, k % 80)
  }

  lemma CursorInWindow(t: Term)
    requires t.Valid()
    ensures 1 <= CursorRow(t) <= 24
  {
  }

  // The window is the last 24 lines, or all of them, and the cursor's row is their number.
  lemma WindowIsLast24(t: Term, r: nat, c: nat)
    requires t.Valid() && 1 <= r <= 24 && c < 80
    ensures Shown(t, r * 80 + c) == t.At(if |t.lines| <= 24 then r - 1 else |t.lines| - 24 + r - 1, c)
    ensures CursorRow(t) == Min(|t.lines|, 24)
  {
    DivisionIs(r * 80 + c, 80, r, c);
  }

  // ---------- Blank behind the cursor ----------

  ghost predicate BlankAhead(t: Term) {
    t.Valid() && forall c :: t.col <= c < 80 ==> t.Last()[c] == BLANK
  }

  lemma PutKeepsBlankAhead(t: Term, ch: u8, color: u8)
    requires BlankAhead(t)
    ensures BlankAhead(Put(t, ch, color))
  {
    var t' := Put(t, ch, color);
    if ch == NEWLINE || (ch != BACKSPACE && t.col == 79) {
      assert t'.Last() == BlankRow();
    } else if ch != BACKSPACE {
      assert t'.Last() == t.Last()[t.col := CellOf(ch, color)];
    } else if t.col > 0 {
      assert t'.Last() == t.Last()[t.col - 1 := BLANK];
    }
  }

  // Whatever is written, every cell at or behind the cursor is blank.
  lemma {:induction false} FeedKeepsBlankAhead(t: Term, s: seq<u8>, color: u8)
    requires BlankAhead(t)
    ensures BlankAhead(Feed(t, s, color))
  {
    if s != [] {
      FeedKeepsBlankAhead(t, s[..|s| - 1], color);
      PutKeepsBlankAhead(Feed(t, s[..|s| - 1], color), s[|s| - 1], color);
    }
  }

  // ---------- Printing is laying out in rows of 80 ----------

  /** Text without line feeds and backspaces. */
  ghost predicate Plain(s: seq<u8>) {
    forall i :: 0 <= i < |s| ==> s[i] != NEWLINE && s[i] != BACKSPACE && s[i] != 0
  }

  /** Which character of a text printed from `t` on lands in line `n`, column `c`. */
  function Offset(t: Term, n: nat, c: nat): int {
    n * 80 + c - t.Position()
  }

  /** The cell after printing: the character that lands there, or what was there before. */
  function LaidOut(t: Term, s: seq<u8>, color: u8, n: nat, c: nat): Cell
    requires c < 80
  {
    var k := Offset(t, n, c);
    if 0 <= k < |s| then CellOf(s[k], color) else t.At(n, c)
  }

  // Printing plain text fills consecutive cells from the cursor on, 80 to a line, and moves the
  // cursor by the length of the text; nothing else changes.
  lemma {:induction false} FeedLaysOut(t: Term, s: seq<u8>, color: u8)
    requires BlankAhead(t) && Plain(s)
    ensures var t' := Feed(t, s, color);
      && t'.Position() == t.Position() + |s|
      && forall n: nat, c: nat :: c < 80 ==> t'.At(n, c) == LaidOut(t, s, color, n, c)
  {
    if s != [] {
      var k := |s| - 1;
      var before, t1 := s[..k], Feed(t, s[..k], color);
      FeedLaysOut(t, before, color);
      FeedKeepsBlankAhead(t, before, color);
      PutLaysOut(t1, s[k], color);
      forall n: nat, c: nat | c < 80 ensures Feed(t, s, color).At(n, c) == LaidOut(t, s, color, n, c) {
        assert t1.At(n, c) == LaidOut(t, before, color, n, c);
      }
    }
  }

  lemma PutLaysOut(t: Term, ch: u8, color: u8)
    requires t.Valid() && ch != NEWLINE && ch != BACKSPACE
    ensures var t' := Put(t, ch, color);
      && t'.Position() == t.Position() + 1
      && forall n: nat, c: nat :: c < 80 ==>
           t'.At(n, c) == if Offset(t, n, c) == 0 then CellOf(ch, color) else t.At(n, c)
  {
  }

  // What can be read on the terminal after printing: where the text landed, its characters in
  // their order and its colour, and elsewhere what stood there before.
  lemma TextIsReadable(t: Term, s: seq<u8>, color: u8, n: nat, c: nat)
    requires BlankAhead(t) && Plain(s) && c < 80
    ensures var cell, k := Feed(t, s, color).At(n, c), n * 80 + c - ((|t.lines| - 1) * 80 + t.col);
      if 0 <= k < |s| then CharOf(cell) == s[k] && ColorOf(cell) == color else cell == t.At(n, c)
  {
    hide Feed, CellOf, CharOf, ColorOf;
    FeedLaysOut(t, s, color);
    var k := Offset(t, n, c);
    assert Feed(t, s, color).At(n, c) == LaidOut(t, s, color, n, c);
    if 0 <= k < |s| {
      CellHolds(s[k], color);
    }
  }

  // A line feed, in any colour, keeps every line and starts a new one of spaces.
  lemma NewlineStarts(t: Term, color: u8)
    requires t.Valid()
    ensures var t' := Put(t, 10, color);
      && t'.col == 0 && |t'.lines| == |t.lines| + 1 && t'.lines[..|t.lines|] == t.lines
      && forall c :: 0 <= c < 80 ==> CharOf(t'.Last()[c]) == 32 && ColorOf(t'.Last()[c]) == 0x0F
  {
  }

  // A backspace, in any colour, stays on its line: at the left edge it does nothing, else it
  // moves left by one and leaves a space there; every other cell stays.
  lemma BackspaceBlanks(t: Term, color: u8)
    requires t.Valid()
    ensures var t' := Put(t, 8, color);
      && |t'.lines| == |t.lines| && t'.col == Max(t.col - 1, 0) && (t.col == 0 ==> t' == t)
      && forall n: nat, c: nat :: c < 80 ==>
           t'.At(n, c) == if t.col > 0 && n == |t.lines| - 1 && c == t.col - 1 then 0x0F20 else t.At(n, c)
  {
  }

  // A cleared terminal is one line of spaces with the cursor at its start.
  lemma ClearedIsBlank()
    ensures var t := Cleared();
      && BlankAhead(t) && t.col == 0 && |t.lines| == 1
      && forall n: nat, c: nat :: c < 80 ==> t.At(n, c) == 0x0F20
  {
  }

  // Printing one text after the other is printing both.
  lemma {:induction false} FeedConcat(t: Term, a: seq<u8>, b: seq<u8>, color: u8)
    requires t.Valid()
    ensures Feed(Feed(t, a, color), b, color) == Feed(t, a + b, color)
  {
    if b == [] {
      assert a + b == a;
    } else {
      var k := |b| - 1;
      FeedConcat(t, a, b[..k], color);
      assert (a + b)[..|a + b| - 1] == a + b[..k];
    }
  }

  // ---------- Backspace ----------

  // A backspace takes back the character before it unless that character filled its line.
  lemma BackspaceUndoes(t: Term, ch: u8, color: u8)
    requires BlankAhead(t) && ch != NEWLINE && ch != BACKSPACE
    ensures Put(Put(t, ch, color), BACKSPACE, COLOR_DEFAULT) == t <==> t.col < 79
    ensures t.col == 79 ==> Put(Put(t, ch, color), BACKSPACE, COLOR_DEFAULT) == Put(t, ch, color)
  {
    if t.col < 79 {
      var row := t.Last();
      assert row[t.col := CellOf(ch, color)][t.col := BLANK] == row;
      assert SetLast(SetLast(t.lines, t.col, CellOf(ch, color)), t.col, BLANK) == t.lines;
    }
  }

  // Erasing as many characters as were printed restores the terminal exactly when the text
  // did not reach the end of its line.
  lemma {:induction false} EraseUndoesExactly(t: Term, s: seq<u8>, color: u8)
    requires BlankAhead(t) && Plain(s)
    ensures Erase(Feed(t, s, color), |s|) == t <==> t.col + |s| < 80
    ensures t.col + |s| >= 80 ==> Erase(Feed(t, s, color), |s|).Position() > t.Position()
  {
    if t.col + |s| < 80 {
      EraseUndoes(t, s, color);
    } else {
      FeedLaysOut(t, s, color);
      EraseStaysOnLine(Feed(t, s, color), |s|);
    }
  }

  lemma {:induction false} EraseUndoes(t: Term, s: seq<u8>, color: u8)
    requires BlankAhead(t) && Plain(s) && t.col + |s| < 80
    ensures Erase(Feed(t, s, color), |s|) == t
  {
    if s != [] {
      var k := |s| - 1;
      var t1 := Feed(t, s[..k], color);
      EraseUndoes(t, s[..k], color);
      FeedKeepsBlankAhead(t, s[..k], color);
      FeedLaysOut(t, s[..k], color);
      BackspaceUndoes(t1, s[k], color);
      EraseFirst(Put(t1, s[k], color), k);
    }
  }

  lemma {:induction false} EraseFirst(t: Term, n: nat)
    requires t.Valid()
    ensures Erase(t, n + 1) == Erase(Put(t, BACKSPACE, COLOR_DEFAULT), n)
  {
    if n > 0 {
      EraseFirst(t, n - 1);
    }
  }

  lemma {:induction false} EraseStaysOnLine(t: Term, n: nat)
    requires t.Valid()
    ensures |Erase(t, n).lines| == |t.lines|
  {
    if n > 0 {
      EraseStaysOnLine(t, n - 1);
    }
  }
}
