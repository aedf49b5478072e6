/**
  The shell as it runs: fixed buffers for the line and the history, a pipe buffer, and the
  text screen.
 */
module Shell {
  import opened Machine
  import opened Terminal
  import opened TextScreen
  import opened CStrings
  import opened Commands
  import opened LineEditor

  // ---------- Output and its capture ----------

  const PIPE_BUFFER_SIZE: nat := 4096

  class Output {
    const vga: Vga
    const pipeBuffer: array<u8>
    var pipePos: nat
    var capturing: bool

    ghost predicate BufferOk()
      reads this, pipeBuffer
    {
      pipeBuffer.Length == PIPE_BUFFER_SIZE && pipePos < PIPE_BUFFER_SIZE && pipeBuffer[pipePos] == 0
    }

    ghost predicate Valid()
      reads this, vga, vga.cells, pipeBuffer
    {
      BufferOk() && vga.Valid()
    }

    ghost function Piped(): seq<u8>
      requires BufferOk()
      reads this, pipeBuffer
    {
      pipeBuffer[..pipePos]
    }

    ghost function View(color: u8): Sink
      requires Valid()
      reads this, vga, vga.cells, pipeBuffer
    {
      Sink(vga.term, Piped(), color)
    }

    constructor (vga: Vga)
      requires vga.Valid()
      ensures Valid() && this.vga == vga && !capturing && Piped() == []
    {
      this.vga := vga;
      pipeBuffer := new u8[PIPE_BUFFER_SIZE](_ => 0);
      pipePos, capturing := 0, false;
    }

    method StartCapture()
      requires BufferOk()
      modifies this, pipeBuffer
      ensures BufferOk() && capturing && Piped() == []
    {
      pipePos := 0;
      pipeBuffer[0] := 0;
      capturing := true;
    }

    // While capturing, text goes to the pipe buffer as far as it fits; else to the screen.
    method Print(str: seq<u8>, color: u8)
      requires Valid()
      modifies `pipePos, pipeBuffer, vga, vga.cells
      ensures Valid()
      ensures capturing ==> Piped() == Take(old(Piped()) + str, 4095) && vga.term == old(vga.term)
      ensures !capturing ==> Piped() == old(Piped()) && vga.term == Feed(old(vga.term), str, color)
    {
      ghost var before := Piped();
      if capturing {
        var i := 0;
        while i < |str| && pipePos < PIPE_BUFFER_SIZE - 1
          invariant 0 <= i <= |str| && |before| <= pipePos == |before| + i < PIPE_BUFFER_SIZE
          invariant pipeBuffer[..pipePos] == before + str[..i]
          modifies `pipePos, pipeBuffer
        {
          pipeBuffer[pipePos] := str[i];
          pipePos := pipePos + 1;
          i := i + 1;
          assert pipeBuffer[..pipePos] == before + str[..i];
        }
        pipeBuffer[pipePos] := 0;
        assert before + str[..i] == Take(before + str, 4095);
      } else {
        vga.Print(str, color);
      }
    }

    // A command's output in order, captured or not; the colour it leaves is returned.
    method RunCommand(es: seq<Emission>, color: u8) returns (newColor: u8)
      requires Valid()
      modifies `pipePos, pipeBuffer, vga, vga.cells
      ensures Valid() && View(newColor) == EmitAll(old(View(color)), es, capturing)
      ensures capturing && old(Piped()) == [] ==> Piped() == Take(AllText(es), PIPE_CAPACITY)
    {
      hide Feed, Take;
      newColor := color;
      var i := 0;
      while i < |es|
        invariant 0 <= i <= |es| && Valid()
        invariant View(newColor) == EmitAll(old(View(color)), es[..i], capturing)
      {
        assert es[..i + 1][..i] == es[..i];
        newColor := RunStep(es[i], newColor);
        i := i + 1;
      }
      assert es[..|es|] == es;
      CaptureIsPrefix(old(View(color)), es);
      assert [] + AllText(es) == AllText(es);
    }

    method RunStep(e: Emission, color: u8) returns (newColor: u8)
      requires Valid()
      modifies `pipePos, pipeBuffer, vga, vga.cells
      ensures Valid() && View(newColor) == Emit(old(View(color)), e, capturing)
    {
      hide Feed, Take;
      newColor := color;
      match e {
        case Text(text, textColor) => Print(text, textColor);
        case Direct(text, textColor) => vga.Print(text, textColor);
        case Clear => vga.Clear();
        case Recolor(chosen) => newColor := chosen;
      }
    }

    // The captured text, up to its NUL, on the screen.
    method PrintPiped(color: u8)
      requires Valid() && 0 !in Piped()
      modifies vga, vga.cells
      ensures Valid() && vga.term == Feed(old(vga.term), Piped(), color)
    {
      CStringIs(pipeBuffer[..], Piped());
      var n := StrLen(pipeBuffer);
      vga.Print(pipeBuffer[..n], color);
    }

    // A command line. With a pipe, the buffer ends up with the first 4095 characters of
    // everything the first command printed, in however many strings.
    method ExecuteLine(line: seq<u8>, color: u8, commands: Interpreter) returns (newColor: u8)
      requires Valid() && !capturing && PrintsStrings(commands)
      modifies this, pipeBuffer, vga, vga.cells
      ensures Valid() && !capturing
      ensures var s := Execute(old(vga.term), color, line, commands);
        vga.term == s.term && newColor == s.color
      ensures if PIPE in line then Piped() == Take(AllText(commands(true, Before(line), color)), PIPE_CAPACITY)
              else Piped() == old(Piped())
    {
      hide Feed, EmitAll, Before, After, Take, AllText, NoNul;
      ghost var t := vga.term;
      var found, first, second := SplitAtPipe(line);
      if !found {
        UncapturedKeepsPipe(Sink(t, [], color), commands(false, line, color), Piped());
        newColor := RunCommand(commands(false, line, color), color);
      } else {
        StartCapture();
        CaptureHasNoNul(Sink(t, [], color), commands(true, first, color));
        newColor := RunCommand(commands(true, first, color), color);
        capturing := false;
        PrintPiped(newColor);
        ghost var s := View(newColor);
        newColor := RunCommand(commands(false, second, newColor), newColor);
        UncapturedKeepsPipe(s, commands(false, second, s.color), s.piped);
      }
    }

    // The DATE command: text that can be captured around numbers that cannot.
    method ShowDate(day: u8, month: u8, year: u16, color: u8)
      requires Valid()
      modifies `pipePos, pipeBuffer, vga, vga.cells
      ensures Valid() && View(color) == EmitAll(old(View(color)), Date(day, month, year, color), capturing)
    {
      hide Feed, Take, Padded, EmitAll;
      ghost var s := View(color);
      EmitDate(s, day, month, year, color, capturing);
      Print(DATE_IS, color);
      PrintNum(day, 2, color);
      Print(DASH, color);
      PrintNum(month, 2, color);
      Print(DASH, color);
      PrintNum(year, 4, color);
      Print(LINE_FEED, color);
    }

    // A number in decimal, straight to the screen, in a buffer filled from the last digit on.
    method PrintNum(n: u64, width: nat, color: u8)
      requires Valid() && width <= 32
      modifies vga, vga.cells
      ensures Valid() && Piped() == old(Piped())
      ensures vga.term == Feed(old(vga.term), Padded(n, width), color)
    {
      hide Digits, Padded, Feed;
      var buf, i := LastDigitFirst(n, width);
      ghost var shown := Padded(n, width);
      FeedNothing(vga.term, shown, color);
      while i > 0
        invariant 0 <= i <= |shown| <= buf.Length && Valid() && Piped() == old(Piped())
        invariant forall j :: 0 <= j < i ==> buf[j] == shown[|shown| - 1 - j]
        invariant vga.term == Feed(old(vga.term), shown[..|shown| - i], color)
        modifies vga, vga.cells
      {
        i := i - 1;
        FeedNext(old(vga.term), shown, |shown| - 1 - i, color);
        vga.PutChar(buf[i], color);
      }
      assert shown[..|shown|] == shown;
    }
  }

  lemma FeedNext(t: Term, s: seq<u8>, k: nat, color: u8)
    requires t.Valid() && k < |s|
    ensures Feed(t, s[..k + 1], color) == Put(Feed(t, s[..k], color), s[k], color)
  {
    assert s[..k + 1][..k] == s[..k];
  }

  lemma FeedNothing(t: Term, s: seq<u8>, color: u8)
    requires t.Valid()
    ensures Feed(t, s[..0], color) == t
  {
  }

  // The digits of `n` from the last one on, then zeros up to the width.
  method LastDigitFirst(n: u64, width: nat) returns (buf: array<u8>, len: nat)
    requires width <= 32
    ensures fresh(buf) && len == |Padded(n, width)| <= buf.Length
    ensures forall j :: 0 <= j < len ==> buf[j] == Padded(n, width)[len - 1 - j]
  {
    hide Digits;
    buf := new u8[32](_ => 0);
    ghost var digits := Digits(n);
    FewDigits(n);
    len := 0;
    if n == 0 {
      DigitsOfZero();
      buf[0] := 48;
      len := 1;
    } else {
      var m := n;
      while m > 0
        invariant 0 <= m && len <= |digits| <= 20
        invariant if m > 0 then digits[..|digits| - len] == Digits(m) else len == |digits|
        invariant forall j :: 0 <= j < len ==> buf[j] == digits[|digits| - 1 - j]
      {
        NextDigit(digits, len, m);
        buf[len] := 48 + m % 10;
        len := len + 1;
        m := m / 10;
      }
    }
    while len < width
      invariant |digits| <= len <= Max(width, |digits|)
      invariant forall j :: 0 <= j < |digits| ==> buf[j] == digits[|digits| - 1 - j]
      invariant forall j :: |digits| <= j < len ==> buf[j] == 48
    {
      buf[len] := 48;
      len := len + 1;
    }
  }

  lemma DigitsOfZero()
    ensures Digits(0) == [48]
  {
  }

  lemma NextDigit(digits: seq<u8>, len: nat, m: nat)
    requires m > 0 && len <= |digits| && digits[..|digits| - len] == Digits(m)
    ensures len < |digits| && digits[|digits| - 1 - len] == 48 + m % 10
    ensures if m >= 10 then digits[..|digits| - len - 1] == Digits(m / 10) else len + 1 == |digits|
  {
    var d := Digits(m);
    assert d[|d| - 1] == digits[|digits| - 1 - len];
    assert m >= 10 ==> d[..|d| - 1] == Digits(m / 10);
    assert d[..|d| - 1] == digits[..|digits| - len - 1];
  }

  function Pow10(k: nat): (p: nat)
    ensures p >= 1
  {
    if k == 0 then 1 else 10 * Pow10(k - 1)
  }

  lemma {:induction false} DigitsBound(n: nat, k: nat)
    requires n < Pow10(k) && k > 0
    ensures |Digits(n)| <= k
    decreases k
  {
    if n >= 10 {
      assert Pow10(k) == 10 * Pow10(k - 1);
      if k > 1 {
        DigitsBound(n / 10, k - 1);
      }
    }
  }

  // A 64-bit number has at most 20 digits, so a buffer of 32 holds it.
  lemma FewDigits(n: u64)
    ensures |Digits(n)| <= 20
  {
    hide Digits;
    assert Pow10(10) == 100_0000_0000 && Pow10(20) == 100_0000_0000 * Pow10(10);
    DigitsBound(n, 20);
  }

  // ---------- The line editor in its buffers ----------

  /** The buffer holds `line` and its NUL. */
  ghost predicate Holds(slot: array<u8>, line: seq<u8>)
    reads slot
  {
    Terminated(slot[..]) && CString(slot[..]) == line
  }

  lemma LineHeld(buffer: array<u8>, len: nat)
    requires len < buffer.Length && buffer[len] == 0 && Plain(buffer[..len])
    ensures Holds(buffer, buffer[..len])
  {
    CStringIs(buffer[..], buffer[..len]);
  }

  class Console {
    const vga: Vga
    const out: Output
    const cmdBuffer: array<u8>
    const history: seq<array<u8>>
    var cmdLen: nat
    var historyCount: nat
    var historyPos: int
    var color: u8
    ghost var lines: seq<seq<u8>> // the remembered lines
    ghost var start: Term         // the terminal just after the last prompt

    ghost predicate Buffers()
      reads this
    {
      && cmdBuffer.Length == 256 && |history| == 10 && vga.cells.Length == CELLS
      && (forall i :: 0 <= i < 10 ==> history[i].Length == 256 && history[i] != cmdBuffer)
      && (forall i, j :: 0 <= i < j < 10 ==> history[i] != history[j])
      && cmdLen <= 255 && historyCount == |lines| <= 10
    }

    /** The slots hold the remembered lines. */
    ghost predicate Remembers()
      reads this, history
    {
      Buffers() && forall i :: 0 <= i < historyCount ==> Holds(history[i], lines[i])
    }

    ghost predicate Consistent()
      reads this, history, vga, vga.cells
    {
      Remembers() && vga.Valid()
    }

    ghost predicate Valid()
      reads this, cmdBuffer, history, vga, vga.cells
    {
      Consistent() && EditorOk(View())
    }

    /** Commands print on the same screen, and their pipe buffer is none of the line buffers. */
    ghost predicate Connected()
      reads this, out, out.pipeBuffer
    {
      && out.vga == vga && out.BufferOk() && !out.capturing
      && out.pipeBuffer != cmdBuffer && out.pipeBuffer !in history
    }

    ghost function View(): Editor
      requires Buffers()
      reads this, cmdBuffer, vga
    {
      Editor(cmdBuffer[..cmdLen], lines, historyPos, vga.term, start, color)
    }

    // The shell starts on a screen that was cleared and prints its first prompt.
    constructor (out: Output, greeting: seq<u8>)
      requires out.Valid() && !out.capturing && BlankAhead(out.vga.term)
      modifies out.vga, out.vga.cells
      ensures Valid() && Connected() && Agrees(View()) && View().line == [] && View().history == []
    {
      this.vga, this.out := out.vga, out;
      var buffer := new u8[256](_ => 0);
      var slots: seq<array<u8>> := [];
      while |slots| < 10
        invariant |slots| <= 10
        invariant forall i :: 0 <= i < |slots| ==> slots[i].Length == 256 && slots[i] != buffer && fresh(slots[i])
        invariant forall i, j :: 0 <= i < j < |slots| ==> slots[i] != slots[j]
        modifies {}
      {
        var slot := new u8[256](_ => 0);
        slots := slots + [slot];
      }
      cmdBuffer, history := buffer, slots;
      cmdLen, historyCount, historyPos, color := 0, 0, -1, COLOR_DEFAULT;
      lines := [];
      start := Cleared();
      new;
      vga.Print(greeting, PROMPT_COLOR);
      ghost var t := vga.term;
      FeedKeepsBlankAhead(old(out.vga.term), greeting, PROMPT_COLOR);
      vga.Print(PROMPT, PROMPT_COLOR);
      FeedKeepsBlankAhead(t, PROMPT, PROMPT_COLOR);
      PromptAtPrompt(t);
      start := vga.term;
    }

    // Erases the line on the screen; the buffer stays.
    method ClearLine()
      requires vga.Valid()
      modifies vga, vga.cells
      ensures vga.Valid() && vga.term == Erase(old(vga.term), cmdLen)
    {
      var i := 0;
      while i < cmdLen
        invariant 0 <= i <= cmdLen && vga.Valid()
        invariant vga.term == Erase(old(vga.term), i)
        modifies vga, vga.cells
      {
        BackspaceAnyColor(vga.term, color);
        vga.PutChar(BACKSPACE, color);
        i := i + 1;
      }
    }

    // Writes the line in the buffer to the screen.
    method EchoLine()
      requires Buffers() && vga.Valid()
      modifies vga, vga.cells
      ensures vga.Valid() && vga.term == Feed(old(vga.term), cmdBuffer[..cmdLen], color)
    {
      hide Feed, Put, ShowsFrom;
      ghost var line := cmdBuffer[..cmdLen];
      FeedNothing(vga.term, line, color);
      var i := 0;
      while i < cmdLen
        invariant 0 <= i <= cmdLen && vga.Valid() && cmdBuffer[..cmdLen] == line
        invariant vga.term == Feed(old(vga.term), line[..i], color)
        modifies vga, vga.cells
      {
        FeedNext(old(vga.term), line, i, color);
        vga.PutChar(cmdBuffer[i], color);
        i := i + 1;
      }
      assert line[..cmdLen] == line;
    }

    // Puts a remembered line in place of the current one; out of range it does nothing.
    method LoadHistory(index: int)
      requires Consistent()
      modifies `cmdLen, cmdBuffer, vga, vga.cells
      ensures Consistent()
      ensures View() == if 0 <= index < |lines| then Replace(old(View()), lines[index]) else old(View())
    {
      hide Feed, Erase, CString, ShowsFrom;
      if index < 0 || index >= historyCount {
        return;
      }
      ClearLine();
      assert Holds(history[index], lines[index]);
      StrCopy(cmdBuffer, history[index]);
      cmdLen := StrLen(cmdBuffer);
      assert cmdBuffer[..cmdLen] == lines[index];
      EchoLine();
    }

    // The submitted line, already terminated in the buffer, goes to the end of the history.
    method AddToHistory()
      requires Remembers() && cmdLen < 256 && cmdBuffer[cmdLen] == 0 && Plain(cmdBuffer[..cmdLen])
      modifies `historyCount, `lines, history
      ensures Remembers() && lines == Remember(old(lines), cmdBuffer[..cmdLen])
    {
      hide Holds, CString;
      ghost var line := cmdBuffer[..cmdLen];
      LineHeld(cmdBuffer, cmdLen);
      if cmdBuffer[0] == 0 {
        assert line == [];
        return;
      }
      if historyCount < 10 {
        CopySlot(history[historyCount], cmdBuffer, line);
        historyCount := historyCount + 1;
        lines := lines + [line];
      } else {
        ShiftHistory();
        CopySlot(history[9], cmdBuffer, line);
        lines := lines[1..] + [line];
      }
    }

    // Every slot but the last takes the line of the next one.
    method ShiftHistory()
      requires Remembers() && historyCount == 10
      modifies history
      ensures forall i :: 0 <= i < 9 ==> Holds(history[i], lines[1..][i])
    {
      hide Holds;
      ghost var later := lines[1..];
      var i := 0;
      while i < 9
        invariant 0 <= i <= 9
        invariant forall j :: 0 <= j < i ==> Holds(history[j], later[j])
        invariant forall j :: i <= j < 10 ==> Holds(history[j], lines[j])
      {
        assert later[i] == lines[i + 1];
        CopySlot(history[i], history[i + 1], later[i]);
        i := i + 1;
      }
    }

    method CopySlot(dst: array<u8>, src: array<u8>, ghost line: seq<u8>)
      requires dst != src && Holds(src, line) && dst.Length == src.Length
      modifies dst
      ensures Holds(dst, line)
    {
      StrCopy(dst, src);
    }

    // Replaces the line by a command name.
    method StoreLine(text: seq<u8>)
      requires cmdBuffer.Length == 256 && |text| <= 255
      modifies `cmdLen, cmdBuffer
      ensures cmdLen == |text| && cmdBuffer[..cmdLen] == text
    {
      var i := 0;
      while i < |text|
        invariant 0 <= i <= |text| && cmdBuffer[..i] == text[..i]
      {
        cmdBuffer[i] := text[i];
        i := i + 1;
      }
      cmdBuffer[i] := 0;
      cmdLen := |text|;
    }

    // The typed text in upper case, as far as the local buffer of 64 bytes holds it.
    method TypedPrefix() returns (typed: seq<u8>)
      requires Buffers() && Plain(cmdBuffer[..cmdLen])
      ensures typed == UpperAll(cmdBuffer[..cmdLen][..Min(cmdLen, 63)]) && 0 !in typed
    {
      ghost var line := cmdBuffer[..cmdLen];
      var prefix := new u8[64];
      var i := 0;
      while i < cmdLen && i < 63
        invariant 0 <= i <= Min(cmdLen, 63)
        invariant forall j :: 0 <= j < i ==> prefix[j] == Upper(line[j]) && prefix[j] != 0
      {
        prefix[i] := Upper(cmdBuffer[i]);
        assert line[i] == cmdBuffer[i];
        i := i + 1;
      }
      prefix[i] := 0;
      return prefix[..i];
    }

    // The commands that begin with the typed text: the last of them, and how many there are.
    method FindMatches() returns (match_: seq<u8>, count: nat)
      requires Buffers() && Plain(cmdBuffer[..cmdLen])
      ensures var ms := Matches(COMMANDS, cmdBuffer[..cmdLen][..Min(cmdLen, 63)]);
        count == |ms| && (count > 0 ==> match_ == ms[count - 1])
    {
      hide Matches, UpperAll, Plain;
      var prefix := TypedPrefix();
      CommandsOk();
      match_, count := CountMatches(COMMANDS, prefix, cmdBuffer[..cmdLen][..Min(cmdLen, 63)]);
    }

    method CountMatches(commands: seq<seq<u8>>, prefix: seq<u8>, ghost typed: seq<u8>)
      returns (match_: seq<u8>, count: nat)
      requires forall m :: m in commands ==> Plain(m)
      requires prefix == UpperAll(typed) && 0 !in prefix
      ensures var ms := Matches(commands, typed);
        count == |ms| && (count > 0 ==> match_ == ms[count - 1])
    {
      match_, count := [], 0;
      var j := 0;
      while j < |commands|
        invariant 0 <= j <= |commands|
        invariant count == |Matches(commands[..j], typed)|
        invariant count > 0 ==> match_ == Matches(commands[..j], typed)[count - 1]
      {
        assert commands[j] in commands;
        var starts := StrStartsWith(commands[j], prefix);
        CompletesUpper(commands[j], typed);
        MatchesNext(commands, j, typed);
        if starts {
          match_ := commands[j];
          count := count + 1;
        }
        j := j + 1;
      }
      assert commands[..j] == commands;
    }

    // Completes the line when exactly one command begins with it.
    method TabComplete()
      requires Valid()
      modifies `cmdLen, cmdBuffer, vga, vga.cells
      ensures Consistent() && View() == Complete(old(View()))
    {
      hide Matches, COMMANDS, Feed, Erase, Plain;
      if cmdLen == 0 {
        return;
      }
      var match_, count := FindMatches();
      if count == 1 {
        CompletionIsCommand(View());
        CommandsOk();
        ClearLine();
        StoreLine(match_);
        EchoLine();
      }
    }

    // Up: the previous line of the history, or the newest one.
    method HandleUp()
      requires Valid()
      modifies `cmdLen, `historyPos, cmdBuffer, vga, vga.cells
      ensures Consistent() && View() == Press(old(View()), KEY_UP)
    {
      hide Complete, Feed, Erase, Put, Replace;
      if historyCount > 0 {
        if historyPos == -1 {
          historyPos := historyCount - 1;
        } else if historyPos > 0 {
          historyPos := historyPos - 1;
        }
        LoadHistory(historyPos);
      }
    }

    // Down: the next line of the history; behind the newest one an empty line.
    method HandleDown()
      requires Valid()
      modifies `cmdLen, `historyPos, cmdBuffer, vga, vga.cells
      ensures Consistent() && View() == Press(old(View()), KEY_DOWN)
    {
      hide Complete, Feed, Erase, Put, Replace;
      if historyPos != -1 {
        if historyPos < historyCount - 1 {
          historyPos := historyPos + 1;
          LoadHistory(historyPos);
        } else {
          historyPos := -1;
          ClearLine();
          cmdLen := 0;
        }
      }
    }

    // A backspace removes the last character, if any; any other key is appended, if it fits.
    method EditLine(c: u8)
      requires Valid() && c !in {0, TAB, KEY_UP, KEY_DOWN, NEWLINE}
      modifies `cmdLen, cmdBuffer, vga, vga.cells
      ensures Consistent() && View() == Press(old(View()), c)
    {
      hide Complete, Feed, Erase, Put, Replace, Recall;
      ghost var line := cmdBuffer[..cmdLen];
      if c == BACKSPACE {
        if cmdLen > 0 {
          cmdLen := cmdLen - 1;
          vga.PutChar(BACKSPACE, color);
          assert cmdBuffer[..cmdLen] == line[..cmdLen];
        }
      } else if cmdLen < 255 {
        cmdBuffer[cmdLen] := c;
        cmdLen := cmdLen + 1;
        vga.PutChar(c, color);
        assert cmdBuffer[..cmdLen] == line + [c];
      }
    }

    // One key of the input loop, the line feed excepted; 0 means that no key was pressed.
    method HandleKey(c: u8)
      requires Valid() && c != NEWLINE
      modifies `cmdLen, `historyPos, cmdBuffer, vga, vga.cells
      ensures Valid() && View() == Press(old(View()), c)
    {
      hide Complete, Feed, Erase, Put, Replace, Recall, LineOk;
      PressOk(View(), c);
      NoKey(View());
      if c == 0 {
        return;
      }
      if c == TAB {
        TabComplete();
        PressTab(old(View()));
      } else if c == KEY_UP {
        HandleUp();
      } else if c == KEY_DOWN {
        HandleDown();
      } else {
        EditLine(c);
      }
    }

    // The line feed: the line is remembered and executed, and a fresh prompt follows.
    method HandleEnter(commands: Interpreter)
      requires Valid() && Connected() && PrintsStrings(commands)
      modifies this, cmdBuffer, history, vga, vga.cells, out, out.pipeBuffer
      ensures Valid() && Connected() && View() == Submit(old(View()), commands)
      ensures var line := old(View()).line;
        if PIPE in line then out.Piped() == Take(AllText(commands(true, Before(line), old(color))), PIPE_CAPACITY)
        else out.Piped() == old(out.Piped())
    {
      hide Execute, Feed, LineOk, PrintsStrings, Take, AllText, Before;
      SubmitOk(View(), commands);
      ghost var line := cmdBuffer[..cmdLen];
      TerminateLine();
      AddToHistory();
      color := out.ExecuteLine(cmdBuffer[..cmdLen], color, commands);
      NewPrompt();
    }

    method TerminateLine()
      requires Valid()
      modifies cmdBuffer
      ensures Consistent() && View() == old(View()) && cmdBuffer[cmdLen] == 0 && Plain(cmdBuffer[..cmdLen])
    {
      ghost var line := cmdBuffer[..cmdLen];
      cmdBuffer[cmdLen] := 0;
      assert cmdBuffer[..cmdLen] == line;
    }

    method NewPrompt()
      requires Consistent()
      modifies `cmdLen, `historyPos, `start, vga, vga.cells
      ensures Consistent() && start == Feed(old(vga.term), PROMPT, PROMPT_COLOR)
      ensures View() == Editor([], lines, -1, start, start, color)
    {
      cmdLen := 0;
      historyPos := -1;
      vga.Print(PROMPT, PROMPT_COLOR);
      start := vga.term;
    }

    // The input loop over a sequence of events.
    method Run(events: seq<Event>)
      requires Valid() && Connected()
      requires forall ev :: ev in events ==> IsEvent(ev) && (ev.Enter? ==> PrintsStrings(ev.commands))
      modifies this, cmdBuffer, history, vga, vga.cells, out, out.pipeBuffer
      ensures Valid() && Connected() && View() == Session(old(View()), events)
      ensures old(Agrees(View())) ==>
                (old(AgreesThroughout(View(), events)) <==> old(SafeSession(View(), events))) &&
                (old(SafeSession(View(), events)) ==> Agrees(View()))
    {
      hide Submit, Press, PrintsStrings, LineOk, Agrees, SafeSession, AgreesThroughout;
      var i := 0;
      while i < |events|
        invariant 0 <= i <= |events| && Valid() && Connected()
        invariant Session(View(), events[i..]) == Session(old(View()), events)
      {
        assert events[i..][1..] == events[i + 1..] && events[i] in events;
        match events[i] {
          case Key(c) => HandleKey(c);
          case Enter(commands) => HandleEnter(commands);
        }
        i := i + 1;
      }
      if old(Agrees(View())) {
        SessionAgrees(old(View()), events);
        AgreesAtEnd(old(View()), events);
      }
    }
  }

  lemma NoKey(e: Editor)
    requires e.term.Valid()
    ensures Press(e, 0) == e
  {
  }

  lemma PressTab(e: Editor)
    requires e.term.Valid()
    ensures Press(e, TAB) == Complete(e)
  {
  }

  // The typed text is compared in upper case.
  lemma CompletesUpper(command: seq<u8>, typed: seq<u8>)
    ensures Completes(command, UpperAll(typed)) <==> Completes(command, typed)
  {
    hide Upper, SameLetter;
    forall c: u8, d: u8 ensures SameLetter(c, Upper(d)) <==> SameLetter(c, d) {
      UpperFolds(c, d);
      UpperFolds(d, c);
      UpperFolds(c, Upper(d));
    }
    if |typed| <= |command| {
      forall i | 0 <= i < |typed|
        ensures SameLetter(command[i], UpperAll(typed)[i]) <==> SameLetter(command[i], typed[i])
      {
        assert UpperAll(typed)[i] == Upper(typed[i]);
      }
      assert forall i :: 0 <= i < |typed| ==> command[..|typed|][i] == command[i];
    }
  }

  lemma MatchesNext(commands: seq<seq<u8>>, j: nat, typed: seq<u8>)
    requires j < |commands|
    ensures Matches(commands[..j + 1], typed) ==
            Matches(commands[..j], typed) + if Completes(commands[j], typed) then [commands[j]] else []
  {
    assert commands[..j + 1][..j] == commands[..j];
  }
}
