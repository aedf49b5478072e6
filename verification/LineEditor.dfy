/**
  The command line on values: the line being typed, the history, and the terminal it is typed
  into; what every key does to them, and when the terminal agrees with the line.
 */
module LineEditor {
  import opened Machine
  import opened Terminal
  import opened Commands

  const KEY_UP: u8 := 1
  const KEY_DOWN: u8 := 2
  const TAB: u8 := 9
  const PROMPT_COLOR: u8 := 0x0B

  /** "\n  KOS> " */
  const PROMPT: seq<u8> := [10, 32, 32, 75, 79, 83, 62, 32]

  const COMMANDS: seq<seq<u8>> := [
    [72, 69, 76, 80],                 // HELP
    [67, 76, 83],                     // CLS
    [86, 69, 82],                     // VER
    [69, 67, 72, 79],                 // ECHO
    [77, 69, 77],                     // MEM
    [67, 80, 85],                     // CPU
    [68, 65, 84, 69],                 // DATE
    [84, 73, 77, 69],                 // TIME
    [67, 79, 76, 79, 82],             // COLOR
    [80, 65, 85, 83, 69],             // PAUSE
    [82, 69, 66, 79, 79, 84],         // REBOOT
    [83, 72, 85, 84, 68, 79, 87, 78]  // SHUTDOWN
  ]

  /** `start` is the terminal just after the last prompt. */
  datatype Editor = Editor(line: seq<u8>, history: seq<seq<u8>>, pos: int, term: Term, start: Term, color: u8)

  // ---------- History ----------

  /** The ten most recent lines, oldest first; empty lines are not kept. */
  function Remember(history: seq<seq<u8>>, line: seq<u8>): seq<seq<u8>> {
    if line == [] then history
    else if |history| < 10 then history + [line]
    else history[1..] + [line]
  }

  function LastTen(lines: seq<seq<u8>>): (r: seq<seq<u8>>)
    ensures |r| == Min(|lines|, 10) && r == lines[|lines| - |r|..]
  {
    lines[Max(|lines| - 10, 0)..]
  }

  lemma RememberIsLastTen(history: seq<seq<u8>>, line: seq<u8>)
    requires line != [] && |history| <= 10
    ensures Remember(history, line) == LastTen(history + [line])
  {
  }

  lemma LastTenOfLastTen(a: seq<seq<u8>>, b: seq<seq<u8>>)
    ensures LastTen(LastTen(a) + b) == LastTen(a + b)
  {
    var k := Max(|a| - 10, 0);
    assert a + b == a[..k] + (a[k..] + b);
    var m := Max(|a[k..] + b| - 10, 0);
    assert (a + b)[k + m..] == (a[k..] + b)[m..];
  }

  // ---------- Completion ----------

  function Upper(c: u8): u8 {
    if 97 <= c <= 122 then c - 32 else c
  }

  function UpperAll(s: seq<u8>): (r: seq<u8>)
    ensures |r| == |s| && forall i :: 0 <= i < |s| ==> r[i] == Upper(s[i])
  {
    seq(|s|, i requires 0 <= i < |s| => Upper(s[i]))
  }

  /** The same character, or the same letter in upper and in lower case. */
  predicate SameLetter(c: u8, d: u8) {
    c == d || ('A' as int <= Min(c, d) <= 'Z' as int && Max(c, d) == Min(c, d) + 32)
  }

  // The source compares letters in upper case.
  lemma UpperFolds(c: u8, d: u8)
    ensures Upper(c) == Upper(d) <==> SameLetter(c, d)
    ensures !('a' as int <= Upper(c) <= 'z' as int) && SameLetter(c, Upper(c)) && Upper(Upper(c)) == Upper(c)
  {
  }

  /** The same text, letter case ignored. */
  predicate SameText(a: seq<u8>, b: seq<u8>) {
    |a| == |b| && forall i :: 0 <= i < |a| ==> SameLetter(a[i], b[i])
  }

  /** `command` begins with `prefix`, letter case ignored. */
  predicate Completes(command: seq<u8>, prefix: seq<u8>) {
    |prefix| <= |command| && SameText(command[..|prefix|], prefix)
  }

  /** The commands that complete `prefix`. */
  function Matches(commands: seq<seq<u8>>, prefix: seq<u8>): seq<seq<u8>> {
    if commands == [] then []
    else
      var rest := Matches(commands[..|commands| - 1], prefix);
      var last := commands[|commands| - 1];
      if Completes(last, prefix) then rest + [last] else rest
  }

  lemma {:induction false} MatchesAre(commands: seq<seq<u8>>, prefix: seq<u8>, m: seq<u8>)
    ensures m in Matches(commands, prefix) <==> m in commands && Completes(m, prefix)
  {
    if commands != [] {
      var n := |commands| - 1;
      MatchesAre(commands[..n], prefix, m);
      assert commands == commands[..n] + [commands[n]];
    }
  }

  /** Exactly one of the commands completes `prefix`. */
  ghost predicate OnlyMatch(commands: seq<seq<u8>>, prefix: seq<u8>, i: nat) {
    i < |commands| && forall j :: 0 <= j < |commands| ==> (Completes(commands[j], prefix) <==> j == i)
  }

  lemma {:induction false} NoMatches(commands: seq<seq<u8>>, prefix: seq<u8>)
    ensures Matches(commands, prefix) == [] <==> forall j :: 0 <= j < |commands| ==> !Completes(commands[j], prefix)
  {
    if commands != [] {
      var n := |commands| - 1;
      NoMatches(commands[..n], prefix);
      assert forall j :: 0 <= j < n ==> commands[..n][j] == commands[j];
    }
  }

  // There is one match exactly when one command alone completes the text.
  lemma {:induction false} OneMatchExactly(commands: seq<seq<u8>>, prefix: seq<u8>)
    ensures forall i: nat :: OnlyMatch(commands, prefix, i) ==> Matches(commands, prefix) == [commands[i]]
    ensures |Matches(commands, prefix)| == 1 ==> exists i: nat :: OnlyMatch(commands, prefix, i)
  {
    if commands != [] {
      hide Completes, OnlyMatch;
      var n := |commands| - 1;
      var before := commands[..n];
      OneMatchExactly(before, prefix);
      NoMatches(before, prefix);
      forall i: nat ensures OnlyMatch(commands, prefix, i) <==> OnlyMatchSplit(commands, prefix, i) {
        OnlyMatchLast(commands, prefix, i);
      }
      if |Matches(commands, prefix)| == 1 {
        if Completes(commands[n], prefix) {
          assert OnlyMatchSplit(commands, prefix, n);
        } else {
          var i: nat :| OnlyMatch(before, prefix, i);
          OnlyMatchInRange(before, prefix, i);
          assert OnlyMatchSplit(commands, prefix, i);
        }
      }
    }
  }

  /** The last command is the only match, or it is none and the only match is before it. */
  ghost predicate OnlyMatchSplit(commands: seq<seq<u8>>, prefix: seq<u8>, i: nat)
    requires commands != []
  {
    var n := |commands| - 1;
    if i == n then Completes(commands[n], prefix) && Matches(commands[..n], prefix) == []
    else i < n && !Completes(commands[n], prefix) && OnlyMatch(commands[..n], prefix, i)
  }

  lemma OnlyMatchLast(commands: seq<seq<u8>>, prefix: seq<u8>, i: nat)
    requires commands != []
    ensures OnlyMatch(commands, prefix, i) <==> OnlyMatchSplit(commands, prefix, i)
  {
    hide Completes, Matches;
    var n := |commands| - 1;
    NoMatches(commands[..n], prefix);
    assert forall j :: 0 <= j < n ==> commands[..n][j] == commands[j];
  }

  lemma OnlyMatchInRange(commands: seq<seq<u8>>, prefix: seq<u8>, i: nat)
    requires OnlyMatch(commands, prefix, i)
    ensures i < |commands|
  {
  }

  // ---------- Keys ----------

  /** The line replaced by `text` on the line and on the terminal. */
  function Replace(e: Editor, text: seq<u8>): Editor
    requires e.term.Valid()
  {
    e.(line := text, term := Feed(Erase(e.term, |e.line|), text, e.color))
  }

  function Recall(e: Editor, pos: int): Editor
    requires e.term.Valid()
  {
    var e' := e.(pos := pos);
    if 0 <= pos < |e.history| then Replace(e', e.history[pos]) else e'
  }

  function Complete(e: Editor): Editor
    requires e.term.Valid()
  {
    if e.line == [] then e
    else
      var ms := Matches(COMMANDS, e.line[..Min(|e.line|, 63)]);
      if |ms| == 1 then Replace(e, ms[0]) else e
  }

  /** Every key but the line feed; 0 means that no key is there. */
  function Press(e: Editor, c: u8): Editor
    requires e.term.Valid() && c != NEWLINE
  {
    if c == 0 then e
    else if c == BACKSPACE then
      if e.line == [] then e
      else e.(line := e.line[..|e.line| - 1], term := Put(e.term, BACKSPACE, e.color))
    else if c == TAB then Complete(e)
    else if c == KEY_UP then
      if e.history == [] then e
      else Recall(e, if e.pos == -1 then |e.history| - 1 else if e.pos > 0 then e.pos - 1 else e.pos)
    else if c == KEY_DOWN then
      if e.pos == -1 then e
      else if e.pos < |e.history| - 1 then Recall(e, e.pos + 1)
      else e.(pos := -1, line := [], term := Erase(e.term, |e.line|))
    else if |e.line| < 255 then e.(line := e.line + [c], term := Put(e.term, c, e.color))
    else e
  }

  /** The line feed: remember the line, run its commands, prompt again. */
  function Submit(e: Editor, commands: Interpreter): Editor
    requires e.term.Valid()
  {
    var ran := Execute(e.term, e.color, e.line, commands);
    var start := Feed(ran.term, PROMPT, PROMPT_COLOR);
    Editor([], Remember(e.history, e.line), -1, start, start, ran.color)
  }

  lemma BackspaceAnyColor(t: Term, color: u8)
    requires t.Valid()
    ensures Put(t, BACKSPACE, color) == Put(t, BACKSPACE, COLOR_DEFAULT)
  {
  }

  /** A key that stands for a character. */
  predicate IsText(c: u8) {
    c !in {0, BACKSPACE, TAB, NEWLINE, KEY_UP, KEY_DOWN}
  }

  /** The keys of a text one after the other. */
  function Type(e: Editor, s: seq<u8>): (e': Editor)
    requires e.term.Valid() && forall c :: c in s ==> IsText(c)
    ensures e'.term.Valid()
  {
    if s == [] then e
    else
      var k := |s| - 1;
      assert s[k] in s && IsText(s[k]);
      Press(Type(e, s[..k]), s[k])
  }

  // Typing a text on a line with room for it puts it behind the line and on the terminal.
  lemma {:induction false} TypingAppends(e: Editor, s: seq<u8>)
    requires e.term.Valid() && |e.line| + |s| <= 255 && forall c :: c in s ==> IsText(c)
    ensures Type(e, s) == e.(line := e.line + s, term := Feed(e.term, s, e.color))
  {
    if s == [] {
      assert e.line + s == e.line;
    } else {
      hide Put, Complete, Recall;
      var k := |s| - 1;
      assert s[k] in s && s[..k] + [s[k]] == s;
      TypingAppends(e, s[..k]);
      assert e.line + s[..k] + [s[k]] == e.line + s;
    }
  }

  // On a line of 255 characters it has no effect.
  lemma FullLineStays(e: Editor, c: u8)
    requires e.term.Valid() && |e.line| >= 255 && IsText(c)
    ensures Press(e, c) == e
  {
  }

  // A backspace removes the last character of the line and one on the terminal, whatever the
  // length of the line; on an empty line it has no effect.
  lemma BackspaceRemoves(e: Editor)
    requires e.term.Valid()
    ensures e.line == [] ==> Press(e, 8) == e
    ensures e.line != [] ==>
      Press(e, 8) == e.(line := e.line[..|e.line| - 1], term := Put(e.term, 8, e.color))
  {
  }

  // A backspace takes back a typed character on the line always, and on the terminal exactly
  // when the character did not fill its line.
  lemma BackspaceUndoesTyping(e: Editor, c: u8)
    requires BlankAhead(e.term) && |e.line| < 255 && IsText(c)
    ensures var e' := Press(Press(e, c), 8);
      && e'.line == e.line && e'.history == e.history && e'.pos == e.pos
      && (e' == e <==> e.term.col < 79)
  {
    hide Put, Complete, Recall;
    BackspaceUndoes(e.term, c, e.color);
    BackspaceAnyColor(Put(e.term, c, e.color), e.color);
    assert (e.line + [c])[..|e.line|] == e.line;
  }

  // What a submitted line without a pipe leaves behind, when its command prints in one colour:
  // the printed text and a fresh prompt, an empty line, and the colour the command chose.
  lemma SubmitRuns(e: Editor, commands: Interpreter, c: u8)
    requires e.term.Valid() && '|' as int !in e.line && InOneColor(commands(false, e.line, e.color), c)
    ensures var es, e' := commands(false, e.line, e.color), Submit(e, commands);
      && e'.term == Feed(Feed(e.term, AllPrinted(es), c), Ascii("\n  KOS> "), 0x0B)
      && e'.start == e'.term && e'.line == [] && e'.pos == -1 && e'.color == LastColor(es, e.color)
  {
    hide Execute, Feed, InOneColor, AllPrinted, LastColor;
    PlainLineRuns(e.term, e.color, e.line, commands, c);
    PromptText();
  }

  // With a pipe, and commands that print no numbers and clear nothing: what the first one prints,
  // up to 4095 characters in the colour it leaves, then what the second one prints.
  lemma SubmitPipes(e: Editor, commands: Interpreter, es: seq<Emission>, later: seq<Emission>, newColor: u8, c: u8)
    requires BlankAhead(e.term) && '|' as int in e.line
    requires es == commands(true, Before(e.line), e.color) && newColor == LastColor(es, e.color)
    requires later == commands(false, After(e.line), newColor)
    requires Clear !in es && AllDirect(es) == [] && InOneColor(later, c)
    ensures var shown := Feed(Feed(e.term, Take(AllText(es), 4095), newColor), AllPrinted(later), c);
      var prompted := Feed(shown, PROMPT, 0x0B);
      Submit(e, commands) == Editor([], Remember(e.history, e.line), -1, prompted, prompted, LastColor(later, newColor))
  {
    hide Execute, Feed, InOneColor, AllPrinted, AllText, AllDirect, LastColor, EmitAll, Before, After, Take;
    PipePrintsCapture(e.term, e.color, e.line, commands);
    var piped := Take(AllText(es), 4095);
    var s := Sink(Feed(e.term, piped, newColor), piped, newColor);
    UncapturedPrints(s, later, c);
    ColorLeft(s, later, false);
    PromptText();
  }

  lemma PromptText()
    ensures PROMPT == Ascii("\n  KOS> ")
  {
  }

  /** The same key `n` times. */
  function Presses(e: Editor, c: u8, n: nat): (e': Editor)
    requires e.term.Valid() && c != NEWLINE
    ensures e'.term.Valid() && e'.start == e.start
  {
    if n == 0 then e else Press(Presses(e, c, n - 1), c)
  }

  // From a fresh prompt, Up pressed n times shows the n-th newest line, or the oldest.
  lemma {:induction false} UpShowsNthNewest(e: Editor, n: nat)
    requires e.term.Valid() && e.pos == -1 && e.history != [] && n > 0
    ensures var e', k := Presses(e, 1, n), Max(|e.history| - n, 0);
      e'.history == e.history && e'.pos == k && e'.line == e.history[k]
  {
    hide Feed, Erase, Put, Matches, COMMANDS;
    if n > 1 {
      UpShowsNthNewest(e, n - 1);
    }
  }

  // Down takes back an Up; behind the newest line it leaves an empty one.
  lemma DownUndoesUp(e: Editor)
    requires e.term.Valid() && e.history != [] && -1 <= e.pos < |e.history| && e.pos != 0
    requires e.pos >= 0 ==> e.line == e.history[e.pos]
    ensures var e' := Press(Press(e, 1), 2);
      e'.pos == e.pos && e'.history == e.history && e'.line == if e.pos == -1 then [] else e.line
  {
    hide Feed, Erase, Put, Matches, COMMANDS;
  }

  // ---------- Invariants ----------

  ghost predicate LineOk(s: seq<u8>) {
    |s| <= 255 && Plain(s)
  }

  ghost predicate EditorOk(e: Editor) {
    && LineOk(e.line) && |e.history| <= 10 && -1 <= e.pos < |e.history|
    && (forall i :: 0 <= i < |e.history| ==> LineOk(e.history[i]) && e.history[i] != [])
    && BlankAhead(e.term) && BlankAhead(e.start) && AtPrompt(e.start)
  }

  /** The cursor stands behind the prompt. */
  ghost predicate AtPrompt(t: Term)
    requires t.Valid()
  {
    t.col == 7 && forall c :: 0 <= c < 7 ==> t.Last()[c] == CellOf(PROMPT[c + 1], PROMPT_COLOR)
  }

  lemma {:induction false} EraseKeepsBlankAhead(t: Term, n: nat)
    requires BlankAhead(t)
    ensures BlankAhead(Erase(t, n))
  {
    if n > 0 {
      EraseKeepsBlankAhead(t, n - 1);
      PutKeepsBlankAhead(Erase(t, n - 1), BACKSPACE, COLOR_DEFAULT);
    }
  }

  lemma ReplaceOk(e: Editor, text: seq<u8>)
    requires EditorOk(e) && LineOk(text)
    ensures EditorOk(Replace(e, text))
  {
    EraseKeepsBlankAhead(e.term, |e.line|);
    FeedKeepsBlankAhead(Erase(e.term, |e.line|), text, e.color);
  }

  lemma CommandOk(i: nat)
    requires i < 12
    ensures |COMMANDS| == 12 && LineOk(COMMANDS[i]) && 0 < |COMMANDS[i]| <= 8
  {
  }

  lemma CommandsOk()
    ensures forall m :: m in COMMANDS ==> LineOk(m) && 0 < |m| <= 8
  {
    hide LineOk;
    CommandOk(0);
    forall i | 0 <= i < |COMMANDS| ensures LineOk(COMMANDS[i]) && 0 < |COMMANDS[i]| <= 8 {
      CommandOk(i);
    }
  }

  // The commands by name.
  lemma CommandNames()
    ensures COMMANDS == [Ascii("HELP"), Ascii("CLS"), Ascii("VER"), Ascii("ECHO"), Ascii("MEM"), Ascii("CPU"),
                         Ascii("DATE"), Ascii("TIME"), Ascii("COLOR"), Ascii("PAUSE"), Ascii("REBOOT"),
                         Ascii("SHUTDOWN")]
  {
    assert COMMANDS[0] == Ascii("HELP") && COMMANDS[1] == Ascii("CLS") && COMMANDS[2] == Ascii("VER");
    assert COMMANDS[3] == Ascii("ECHO") && COMMANDS[4] == Ascii("MEM") && COMMANDS[5] == Ascii("CPU");
    assert COMMANDS[6] == Ascii("DATE") && COMMANDS[7] == Ascii("TIME") && COMMANDS[8] == Ascii("COLOR");
    assert COMMANDS[9] == Ascii("PAUSE") && COMMANDS[10] == Ascii("REBOOT") && COMMANDS[11] == Ascii("SHUTDOWN");
  }

  lemma CompletionIsCommand(e: Editor)
    requires e.line != []
    ensures var ms := Matches(COMMANDS, e.line[..Min(|e.line|, 63)]);
      |ms| == 1 ==> ms[0] in COMMANDS && |e.line| <= 8
  {
    var prefix := e.line[..Min(|e.line|, 63)];
    var ms := Matches(COMMANDS, prefix);
    if |ms| == 1 {
      MatchesAre(COMMANDS, prefix, ms[0]);
      CommandsOk();
    }
  }

  // Tab turns the typed text into a command exactly when that is the only one it can become.
  lemma TabCompletesExactly(e: Editor)
    requires e.term.Valid() && e.line != []
    ensures forall i: nat :: OnlyMatch(COMMANDS, e.line, i) ==> Press(e, 9) == Replace(e, COMMANDS[i])
    ensures (forall i: nat :: !OnlyMatch(COMMANDS, e.line, i)) ==> Press(e, 9) == e
  {
    hide Matches, COMMANDS, OnlyMatch, LineOk;
    if |e.line| <= 63 {
      OneMatchExactly(COMMANDS, e.line);
      assert e.line[..|e.line|] == e.line;
    } else {
      CompletionIsCommand(e);
      forall i: nat ensures !OnlyMatch(COMMANDS, e.line, i) {
        LongLineMatchesNone(e.line, i);
      }
    }
  }

  lemma LongLineMatchesNone(line: seq<u8>, i: nat)
    requires |line| > 8
    ensures !OnlyMatch(COMMANDS, line, i)
  {
    hide COMMANDS, LineOk;
    if i < |COMMANDS| {
      CommandsOk();
      assert COMMANDS[i] in COMMANDS;
      assert !Completes(COMMANDS[i], line);
    }
  }

  lemma PressOk(e: Editor, c: u8)
    requires EditorOk(e) && c != NEWLINE
    ensures EditorOk(Press(e, c))
  {
    hide Put, Matches, COMMANDS, Feed, Erase;
    if c == BACKSPACE || c == KEY_DOWN {
      PutKeepsBlankAhead(e.term, BACKSPACE, e.color);
      EraseKeepsBlankAhead(e.term, |e.line|);
    }
    if c == TAB && e.line != [] {
      var ms := Matches(COMMANDS, e.line[..Min(|e.line|, 63)]);
      if |ms| == 1 {
        CompletionIsCommand(e);
        CommandsOk();
        ReplaceOk(e, ms[0]);
      }
    } else if c == KEY_UP && e.history != [] {
      var pos := if e.pos == -1 then |e.history| - 1 else if e.pos > 0 then e.pos - 1 else e.pos;
      ReplaceOk(e.(pos := pos), e.history[pos]);
    } else if c == KEY_DOWN && e.pos != -1 && e.pos < |e.history| - 1 {
      ReplaceOk(e.(pos := e.pos + 1), e.history[e.pos + 1]);
    } else if |e.line| < 255 {
      PutKeepsBlankAhead(e.term, c, e.color);
    }
  }

  lemma FeedOne(t: Term, ch: u8, color: u8)
    requires t.Valid()
    ensures Feed(t, [ch], color) == Put(t, ch, color)
  {
    assert [ch][..0] == [] && Feed(t, [], color) == t;
  }

  lemma PromptAtPrompt(t: Term)
    requires t.Valid()
    ensures AtPrompt(Feed(t, PROMPT, PROMPT_COLOR))
  {
    hide Feed, Put;
    var text := PROMPT[1..];
    FreshLine(t);
    assert PROMPT == [10] + text;
    FeedConcat(t, [10], text, PROMPT_COLOR);
    FeedOne(t, 10, PROMPT_COLOR);
    TextOnFreshLine(Put(t, 10, PROMPT_COLOR), text);
  }

  lemma FreshLine(t: Term)
    requires t.Valid()
    ensures BlankAhead(Put(t, 10, PROMPT_COLOR)) && Put(t, 10, PROMPT_COLOR).col == 0
  {
  }

  lemma TextOnFreshLine(t: Term, text: seq<u8>)
    requires BlankAhead(t) && t.col == 0 && Plain(text) && |text| < 80
    ensures var t' := Feed(t, text, PROMPT_COLOR);
      t'.col == |text| && forall c :: 0 <= c < |text| ==> t'.Last()[c] == CellOf(text[c], PROMPT_COLOR)
  {
    hide Feed, Put;
    FeedLaysOut(t, text, PROMPT_COLOR);
    var t', n := Feed(t, text, PROMPT_COLOR), |t.lines| - 1;
    assert |t'.lines| == n + 1 && t'.col == |text|;
    forall c: nat | c < |text| ensures t'.Last()[c] == CellOf(text[c], PROMPT_COLOR) {
      assert t'.At(n, c) == LaidOut(t, text, PROMPT_COLOR, n, c);
    }
  }

  lemma SubmitOk(e: Editor, commands: Interpreter)
    requires EditorOk(e)
    ensures EditorOk(Submit(e, commands))
  {
    hide Feed, Execute, Erase, LineOk;
    EmptyLineOk();
    ExecuteKeepsBlankAhead(e.term, e.color, e.line, commands);
    var ran := Execute(e.term, e.color, e.line, commands);
    FeedKeepsBlankAhead(ran.term, PROMPT, PROMPT_COLOR);
    PromptAtPrompt(ran.term);
  }

  lemma EmptyLineOk()
    ensures LineOk([])
  {
  }

  // ---------- Agreement of line and terminal ----------

  /** The terminal is what printing the line after the prompt gives. */
  ghost predicate Agrees(e: Editor)
    requires e.start.Valid()
  {
    e.term == Feed(e.start, e.line, e.color)
  }

  /** What a caller can check before a key: a backspace is not at the left edge, and a line
      about to be replaced has not wrapped. */
  predicate Safe(e: Editor, c: u8) {
    && (c == BACKSPACE && e.line != [] ==> (7 + |e.line|) % 80 != 0)
    && (c == KEY_UP && e.history != [] ==> |e.line| <= 72)
    && (c == KEY_DOWN && e.pos != -1 ==> |e.line| <= 72)
  }

  lemma LineColumn(start: Term, s: seq<u8>, color: u8)
    requires BlankAhead(start) && start.col == 7 && Plain(s)
    ensures Feed(start, s, color).col == (7 + |s|) % 80
  {
    FeedLaysOut(start, s, color);
    var t := Feed(start, s, color);
    assert t.col == (|start.lines| - |t.lines|) * 80 + 7 + |s|;
  }

  lemma BackspaceAgrees(e: Editor)
    requires EditorOk(e) && Agrees(e) && e.line != []
    ensures Agrees(Press(e, BACKSPACE)) <==> (7 + |e.line|) % 80 != 0
  {
    hide Put;
    var k := |e.line| - 1;
    var t1 := Feed(e.start, e.line[..k], e.color);
    LineColumn(e.start, e.line[..k], e.color);
    FeedKeepsBlankAhead(e.start, e.line[..k], e.color);
    BackspaceUndoes(t1, e.line[k], e.color);
    BackspaceAnyColor(e.term, e.color);
  }

  // Replacing the line on the terminal works exactly for lines that did not wrap.
  lemma ReplaceAgrees(e: Editor, text: seq<u8>)
    requires EditorOk(e) && Agrees(e) && LineOk(text)
    ensures Feed(Erase(e.term, |e.line|), text, e.color) == Feed(e.start, text, e.color) <==> |e.line| <= 72
  {
    EraseUndoesExactly(e.start, e.line, e.color);
    EraseKeepsBlankAhead(e.term, |e.line|);
    FeedLaysOut(e.start, text, e.color);
    FeedLaysOut(Erase(e.term, |e.line|), text, e.color);
  }

  // For every key: the terminal keeps agreeing with the line exactly when the key was safe.
  lemma AgreesExactlyWhenSafe(e: Editor, c: u8)
    requires EditorOk(e) && Agrees(e) && c != NEWLINE
    ensures Agrees(Press(e, c)) <==> Safe(e, c)
  {
    hide Put, Matches, COMMANDS, Erase, EditorOk;
    if c == BACKSPACE {
      if e.line != [] {
        BackspaceAgrees(e);
      }
    } else if c == TAB {
      if e.line != [] {
        var ms := Matches(COMMANDS, e.line[..Min(|e.line|, 63)]);
        if |ms| == 1 {
          CompletionIsCommand(e);
          CommandsOk();
          ReplaceAgrees(e, ms[0]);
        }
      }
    } else if c == KEY_UP || c == KEY_DOWN {
      RecallAgrees(e, c);
    } else if c != 0 && |e.line| < 255 {
      assert (e.line + [c])[..|e.line|] == e.line;
    }
  }

  // Lines of at most 72 characters are safe under every key.
  lemma ShortLinesAreSafe(e: Editor, c: u8)
    requires |e.line| <= 72
    ensures Safe(e, c)
  {
  }

  lemma RecallAgrees(e: Editor, c: u8)
    requires EditorOk(e) && Agrees(e) && (c == KEY_UP || c == KEY_DOWN)
    ensures Agrees(Press(e, c)) <==> Safe(e, c)
  {
    hide Put, Erase, Complete;
    if c == KEY_UP && e.history != [] {
      var pos := if e.pos == -1 then |e.history| - 1 else if e.pos > 0 then e.pos - 1 else e.pos;
      ReplaceAgrees(e, e.history[pos]);
    } else if c == KEY_DOWN && e.pos != -1 {
      if e.pos < |e.history| - 1 {
        ReplaceAgrees(e, e.history[e.pos + 1]);
      } else {
        ReplaceAgrees(e, []);
      }
    }
  }

  // While line and terminal agree, the length of the line tells when a backspace takes back a
  // typed character altogether.
  lemma BackspaceUndoesExactly(e: Editor, c: u8)
    requires EditorOk(e) && Agrees(e) && |e.line| < 255 && IsText(c)
    ensures Press(Press(e, c), 8) == e <==> (8 + |e.line|) % 80 != 0
  {
    hide Press, Feed;
    LineColumn(e.start, e.line, e.color);
    BackspaceUndoesTyping(e, c);
  }

  // ---------- Sessions ----------

  datatype Event = Key(c: u8) | Enter(commands: Interpreter)

  /** The line feed comes as an Enter event. */
  predicate IsEvent(ev: Event) {
    ev.Key? ==> ev.c != NEWLINE
  }

  function Handle(e: Editor, ev: Event): Editor
    requires e.term.Valid() && IsEvent(ev)
  {
    match ev
    case Key(c) => Press(e, c)
    case Enter(commands) => Submit(e, commands)
  }

  lemma HandleOk(e: Editor, ev: Event)
    requires EditorOk(e) && IsEvent(ev)
    ensures EditorOk(Handle(e, ev))
  {
    match ev
    case Key(c) => PressOk(e, c);
    case Enter(commands) => SubmitOk(e, commands);
  }

  ghost function Session(e: Editor, evs: seq<Event>): (e': Editor)
    requires EditorOk(e) && forall ev :: ev in evs ==> IsEvent(ev)
    ensures EditorOk(e')
    decreases |evs|
  {
    if evs == [] then e
    else
      HandleOk(e, evs[0]);
      Session(Handle(e, evs[0]), evs[1..])
  }

  /** The non-empty lines submitted in a session, in order. */
  ghost function Submitted(e: Editor, evs: seq<Event>): seq<seq<u8>>
    requires EditorOk(e) && forall ev :: ev in evs ==> IsEvent(ev)
    decreases |evs|
  {
    if evs == [] then []
    else
      HandleOk(e, evs[0]);
      (if evs[0].Enter? && e.line != [] then [e.line] else []) + Submitted(Handle(e, evs[0]), evs[1..])
  }

  // Over every session the history is exactly the last ten non-empty lines submitted.
  lemma {:induction false} HistoryIsLastTen(e: Editor, evs: seq<Event>)
    requires EditorOk(e) && forall ev :: ev in evs ==> IsEvent(ev)
    ensures Session(e, evs).history == LastTen(e.history + Submitted(e, evs))
    decreases |evs|
  {
    hide LineOk, Handle, LastTen;
    if evs == [] {
      ShortIsLastTen(e.history);
      assert e.history + [] == e.history;
    } else {
      HandleOk(e, evs[0]);
      var e1 := Handle(e, evs[0]);
      HistoryIsLastTen(e1, evs[1..]);
      OnlyEnterRemembers(e, evs[0]);
      RememberThen(e, evs[0], Submitted(e1, evs[1..]));
    }
  }

  lemma ShortIsLastTen(lines: seq<seq<u8>>)
    requires |lines| <= 10
    ensures LastTen(lines) == lines
  {
  }

  lemma OnlyEnterRemembers(e: Editor, ev: Event)
    requires EditorOk(e) && IsEvent(ev)
    ensures Handle(e, ev).history == if ev.Enter? then Remember(e.history, e.line) else e.history
  {
    hide Put, Feed, Erase, Matches, COMMANDS, LineOk, Execute, Remember;
  }

  lemma RememberThen(e: Editor, ev: Event, later: seq<seq<u8>>)
    requires |e.history| <= 10
    ensures LastTen((if ev.Enter? then Remember(e.history, e.line) else e.history) + later) ==
            LastTen(e.history + ((if ev.Enter? && e.line != [] then [e.line] else []) + later))
  {
    hide LastTen;
    if ev.Enter? && e.line != [] {
      RememberIsLastTen(e.history, e.line);
      LastTenOfLastTen(e.history + [e.line], later);
      assert e.history + [e.line] + later == e.history + ([e.line] + later);
    } else {
      assert [] + later == later;
    }
  }

  /** The session's keys are safe, each where it comes. */
  ghost predicate SafeSession(e: Editor, evs: seq<Event>)
    requires EditorOk(e) && forall ev :: ev in evs ==> IsEvent(ev)
    decreases |evs|
  {
    evs != [] ==>
      && (evs[0].Key? ==> Safe(e, evs[0].c))
      && (HandleOk(e, evs[0]); SafeSession(Handle(e, evs[0]), evs[1..]))
  }

  /** The terminal agrees with the line after every part of the session. */
  ghost predicate AgreesThroughout(e: Editor, evs: seq<Event>)
    requires EditorOk(e) && forall ev :: ev in evs ==> IsEvent(ev)
  {
    forall k :: 0 <= k <= |evs| ==> Agrees(Session(e, evs[..k]))
  }

  // The terminal agrees with the line throughout a session exactly when each key is safe where
  // it comes.
  lemma {:induction false} SessionAgrees(e: Editor, evs: seq<Event>)
    requires EditorOk(e) && forall ev :: ev in evs ==> IsEvent(ev)
    requires Agrees(e)
    ensures AgreesThroughout(e, evs) <==> SafeSession(e, evs)
    decreases |evs|
  {
    hide LineOk, Press, Safe, Agrees, Submit, AgreesThroughout;
    if evs == [] {
      ThroughoutNothing(e);
    } else {
      HandleOk(e, evs[0]);
      match evs[0] {
        case Key(c) => AgreesExactlyWhenSafe(e, c);
        case Enter(commands) => SubmitAgrees(e, commands);
      }
      var e1 := Handle(e, evs[0]);
      ThroughoutFirst(e, evs);
      if Agrees(e1) {
        SessionAgrees(e1, evs[1..]);
      } else {
        ThroughoutStarts(e1, evs[1..]);
      }
    }
  }

  lemma ThroughoutStarts(e: Editor, evs: seq<Event>)
    requires EditorOk(e) && forall ev :: ev in evs ==> IsEvent(ev)
    ensures AgreesThroughout(e, evs) ==> Agrees(e)
  {
    hide LineOk, Agrees;
    assert evs[..0] == [] && Session(e, evs[..0]) == e;
  }

  lemma AgreesAtEnd(e: Editor, evs: seq<Event>)
    requires EditorOk(e) && forall ev :: ev in evs ==> IsEvent(ev)
    ensures AgreesThroughout(e, evs) ==> Agrees(Session(e, evs))
  {
    hide EditorOk, Agrees;
    assert evs[..|evs|] == evs;
  }

  lemma ThroughoutNothing(e: Editor)
    requires EditorOk(e)
    ensures AgreesThroughout(e, []) <==> Agrees(e)
  {
    hide EditorOk, Agrees;
    var none: seq<Event> := [];
    assert none[..0] == none && Session(e, none) == e;
  }

  lemma ThroughoutFirst(e: Editor, evs: seq<Event>)
    requires EditorOk(e) && evs != [] && forall ev :: ev in evs ==> IsEvent(ev)
    ensures EditorOk(Handle(e, evs[0]))
    ensures AgreesThroughout(e, evs) <==> Agrees(e) && AgreesThroughout(Handle(e, evs[0]), evs[1..])
  {
    hide LineOk, AtPrompt, Agrees, Handle;
    HandleOk(e, evs[0]);
    var e1 := Handle(e, evs[0]);
    assert evs[..0] == [] && Session(e, evs[..0]) == e;
    forall k | 0 < k <= |evs| ensures Session(e, evs[..k]) == Session(e1, evs[1..][..k - 1]) {
      assert evs[..k][0] == evs[0] && evs[..k][1..] == evs[1..][..k - 1];
    }
    forall j | 0 <= j <= |evs| - 1 ensures Session(e1, evs[1..][..j]) == Session(e, evs[..j + 1]) {
    }
  }

  lemma SubmitAgrees(e: Editor, commands: Interpreter)
    requires EditorOk(e)
    ensures EditorOk(Submit(e, commands)) && Agrees(Submit(e, commands))
  {
    hide Execute;
    SubmitOk(e, commands);
  }

  // What agreement looks like: a line that has not wrapped stands in the cursor's row behind
  // the prompt, in its colour, and the rest of the row is spaces.
  lemma AgreementIsVisible(e: Editor, c: nat)
    requires EditorOk(e) && Agrees(e) && |e.line| <= 72 && c < 80
    ensures e.term.col == 7 + |e.line|
    ensures var cell := Shown(e.term, CursorRow(e.term) * 80 + c);
      if c < 7 then CharOf(cell) == "  KOS> "[c] as int && ColorOf(cell) == 0x0B
      else if c < 7 + |e.line| then CharOf(cell) == e.line[c - 7] && ColorOf(cell) == e.color
      else CharOf(cell) == ' ' as int && ColorOf(cell) == 0x0F
  {
    hide CharOf, ColorOf, CellOf;
    RowOfLine(e, c);
    PromptText();
    BlankHolds();
    if c < 7 {
      CellHolds(PROMPT[c + 1], PROMPT_COLOR);
    } else if c < 7 + |e.line| {
      CellHolds(e.line[c - 7], e.color);
    }
  }

  lemma RowOfLine(e: Editor, c: nat)
    requires EditorOk(e) && Agrees(e) && |e.line| <= 72 && c < 80
    ensures e.term.col == 7 + |e.line|
    ensures Shown(e.term, CursorRow(e.term) * 80 + c) ==
            if c < 7 then CellOf(PROMPT[c + 1], PROMPT_COLOR)
            else if c < 7 + |e.line| then CellOf(e.line[c - 7], e.color)
            else BLANK
  {
    FeedLaysOut(e.start, e.line, e.color);
    var n := |e.start.lines| - 1;
    assert |e.term.lines| == n + 1 && e.term.col == 7 + |e.line|;
    assert e.term.At(n, c) == LaidOut(e.start, e.line, e.color, n, c);
    assert Offset(e.start, n, c) == c - 7;
    assert e.start.At(n, c) == e.start.Last()[c];
    var row := CursorRow(e.term);
    assert (row * 80 + c) / 80 == row && (row * 80 + c) % 80 == c;
    assert Shown(e.term, row * 80 + c) == e.term.At(n, c);
  }
}
