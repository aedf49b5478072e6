/**
  What commands print, and where it goes: to the terminal, or into the pipe buffer while the
  first command of a piped line runs.
 */
module Commands {
  import opened Machine
  import opened Terminal

  const PIPE: u8 := 124
  const SPACE: u8 := 32
  const PIPE_CAPACITY: nat := 4095 // the pipe buffer without its NUL

  /** One step of a command. Text can be captured; what is printed directly cannot. */
  datatype Emission =
    | Text(text: seq<u8>, color: u8)
    | Direct(text: seq<u8>, color: u8)
    | Clear
    | Recolor(color: u8)

  /** What a command line without a pipe does, while output is captured or not, in a colour. */
  type Interpreter = (bool, seq<u8>, u8) -> seq<Emission>

  datatype Sink = Sink(term: Term, piped: seq<u8>, color: u8)

  function Take(s: seq<u8>, n: nat): (r: seq<u8>)
    ensures |r| == Min(n, |s|)
  {
    s[..Min(n, |s|)]
  }

  function Emit(s: Sink, e: Emission, capturing: bool): (s': Sink)
    requires s.term.Valid()
    ensures s'.term.Valid()
  {
    match e
    case Text(text, color) =>
      if capturing then s.(piped := Take(s.piped + text, PIPE_CAPACITY))
      else s.(term := Feed(s.term, text, color))
    case Direct(text, color) => s.(term := Feed(s.term, text, color))
    case Clear => s.(term := Cleared())
    case Recolor(color) => s.(color := color)
  }

  function EmitAll(s: Sink, es: seq<Emission>, capturing: bool): (s': Sink)
    requires s.term.Valid()
    ensures s'.term.Valid()
  {
    if es == [] then s else Emit(EmitAll(s, es[..|es| - 1], capturing), es[|es| - 1], capturing)
  }

  // ---------- Lines with a pipe ----------

  /** The part of a line before its first pipe. */
  function Before(line: seq<u8>): (r: seq<u8>)
    ensures |r| <= |line| && r == line[..|r|] && PIPE !in r
    ensures |r| < |line| ==> line[|r|] == PIPE
  {
    if line == [] || line[0] == PIPE then []
    else
      var rest := Before(line[1..]);
      assert line[1..][..|rest|] == line[1..|rest| + 1];
      [line[0]] + rest
  }

  function SkipSpaces(s: seq<u8>): (r: seq<u8>)
    ensures |r| <= |s| && r == s[|s| - |r|..]
    ensures forall i :: 0 <= i < |s| - |r| ==> s[i] == SPACE
    ensures r != [] ==> r[0] != SPACE
  {
    if s == [] || s[0] != SPACE then s
    else
      var r := SkipSpaces(s[1..]);
      assert s[1..][|s| - 1 - |r|..] == s[|s| - |r|..];
      assert forall i :: 0 < i < |s| - |r| ==> s[i] == s[1..][i - 1];
      r
  }

  /** The part of a line behind its first pipe, without leading spaces. */
  function After(line: seq<u8>): seq<u8>
    requires PIPE in line
  {
    SkipSpaces(line[|Before(line)| + 1..])
  }

  /** The capture that the second command finds on the screen. */
  function Capture(t: Term, color: u8, line: seq<u8>, commands: Interpreter): (s: Sink)
    requires t.Valid()
    ensures s.term.Valid()
  {
    EmitAll(Sink(t, [], color), commands(true, Before(line), color), true)
  }

  /** A line without a pipe runs as it is. Else the first command runs with its output captured,
      the capture is printed in the current colour, and the second command runs. */
  function Execute(t: Term, color: u8, line: seq<u8>, commands: Interpreter): (s: Sink)
    requires t.Valid()
    ensures s.term.Valid()
  {
    if PIPE !in line then EmitAll(Sink(t, [], color), commands(false, line, color), false)
    else
      var s := Capture(t, color, line, commands);
      var printed := s.(term := Feed(s.term, s.piped, s.color));
      EmitAll(printed, commands(false, After(line), s.color), false)
  }

  // ---------- What a pipe carries ----------

  /** The text a command prints, in one piece. */
  function AllText(es: seq<Emission>): seq<u8> {
    if es == [] then []
    else
      var last := es[|es| - 1];
      AllText(es[..|es| - 1]) + if last.Text? then last.text else []
  }

  /** The colour a command leaves behind. */
  function LastColor(es: seq<Emission>, color: u8): u8 {
    if es == [] then color
    else if es[|es| - 1].Recolor? then es[|es| - 1].color
    else LastColor(es[..|es| - 1], color)
  }

  // The pipe buffer holds the beginning of everything printed, however it was cut into strings.
  lemma {:induction false} CaptureIsPrefix(s: Sink, es: seq<Emission>)
    requires s.term.Valid() && |s.piped| <= PIPE_CAPACITY
    ensures EmitAll(s, es, true).piped == Take(s.piped + AllText(es), PIPE_CAPACITY)
    ensures EmitAll(s, es, true).color == LastColor(es, s.color)
  {
    hide Feed;
    if es == [] {
      assert s.piped + [] == s.piped;
    } else {
      var n := |es| - 1;
      CaptureIsPrefix(s, es[..n]);
      var all := s.piped + AllText(es[..n]);
      if es[n].Text? {
        TakeTake(all, es[n].text);
        assert s.piped + (AllText(es[..n]) + es[n].text) == all + es[n].text;
      } else {
        assert AllText(es[..n]) + [] == AllText(es[..n]);
      }
    }
  }

  lemma TakeTake(a: seq<u8>, b: seq<u8>)
    ensures Take(Take(a, PIPE_CAPACITY) + b, PIPE_CAPACITY) == Take(a + b, PIPE_CAPACITY)
  {
    if |a| > PIPE_CAPACITY {
      assert (Take(a, PIPE_CAPACITY) + b)[..PIPE_CAPACITY] == Take(a, PIPE_CAPACITY);
      assert (a + b)[..PIPE_CAPACITY] == a[..PIPE_CAPACITY];
    }
  }

  /** The text a command prints directly, in one piece. */
  function AllDirect(es: seq<Emission>): seq<u8> {
    if es == [] then []
    else
      var last := es[|es| - 1];
      AllDirect(es[..|es| - 1]) + if last.Direct? then last.text else []
  }

  // While output is captured, the terminal moves on by what is printed directly; so it stays
  // as it is exactly when nothing is.
  lemma {:induction false} CaptureIsSilentExactly(s: Sink, es: seq<Emission>)
    requires BlankAhead(s.term) && Clear !in es && Plain(AllDirect(es))
    ensures EmitAll(s, es, true).term.Position() == s.term.Position() + |AllDirect(es)|
    ensures EmitAll(s, es, true).term == s.term <==> AllDirect(es) == []
    ensures BlankAhead(EmitAll(s, es, true).term)
  {
    if es != [] {
      var n := |es| - 1;
      var before, direct := EmitAll(s, es[..n], true), AllDirect(es[..n]);
      assert es == es[..n] + [es[n]];
      assert Plain(direct) by {
        assert forall i :: 0 <= i < |direct| ==> direct[i] == AllDirect(es)[i];
      }
      CaptureIsSilentExactly(s, es[..n]);
      if es[n].Direct? {
        assert AllDirect(es)[|direct|..] == es[n].text;
        FeedLaysOut(before.term, es[n].text, es[n].color);
        FeedKeepsBlankAhead(before.term, es[n].text, es[n].color);
      }
    }
  }

  // Without capture the pipe buffer plays no part.
  lemma {:induction false} UncapturedKeepsPipe(s: Sink, es: seq<Emission>, piped: seq<u8>)
    requires s.term.Valid()
    ensures EmitAll(s.(piped := piped), es, false) == EmitAll(s, es, false).(piped := piped)
  {
    if es != [] {
      UncapturedKeepsPipe(s, es[..|es| - 1], piped);
    }
  }

  /** The strings a command prints end at their NUL. */
  ghost predicate NoNul(es: seq<Emission>) {
    forall e :: e in es && e.Text? ==> 0 !in e.text
  }

  ghost predicate PrintsStrings(commands: Interpreter) {
    forall capturing, text, color :: NoNul(commands(capturing, text, color))
  }

  lemma {:induction false} CaptureHasNoNul(s: Sink, es: seq<Emission>)
    requires s.term.Valid() && 0 !in s.piped && NoNul(es)
    ensures 0 !in EmitAll(s, es, true).piped
  {
    if es != [] {
      var n := |es| - 1;
      assert es[n] in es;
      CaptureHasNoNul(s, es[..n]);
    }
  }

  // A pipe between a first command that prints no number and clears nothing, and a second one:
  // the terminal gains the first 4095 characters of what the first prints, nothing else, and
  // the second runs behind them, in the colour the first has left.
  lemma PipePrintsCapture(t: Term, color: u8, line: seq<u8>, commands: Interpreter)
    requires BlankAhead(t) && PIPE in line
    requires var es := commands(true, Before(line), color); Clear !in es && AllDirect(es) == []
    ensures var es := commands(true, Before(line), color);
      var newColor := LastColor(es, color);
      var piped := Take(AllText(es), PIPE_CAPACITY);
      Execute(t, color, line, commands) ==
      EmitAll(Sink(Feed(t, piped, newColor), piped, newColor), commands(false, After(line), newColor), false)
  {
    hide Feed, EmitAll;
    var es := commands(true, Before(line), color);
    var s := Sink(t, [], color);
    CaptureIsPrefix(s, es);
    CaptureIsSilentExactly(s, es);
    assert [] + AllText(es) == AllText(es);
  }

  // ---------- What a command does to the screen ----------

  // Commands act one after the other.
  lemma {:induction false} EmitConcat(s: Sink, a: seq<Emission>, b: seq<Emission>, capturing: bool)
    requires s.term.Valid()
    ensures EmitAll(s, a + b, capturing) == EmitAll(EmitAll(s, a, capturing), b, capturing)
  {
    if b == [] {
      assert a + b == a;
    } else {
      var k := |b| - 1;
      EmitConcat(s, a, b[..k], capturing);
      assert (a + b)[..|a + b| - 1] == a + b[..k];
    }
  }

  /** Everything a command prints, captured or not, in one piece. */
  function AllPrinted(es: seq<Emission>): seq<u8> {
    if es == [] then []
    else
      var last := es[|es| - 1];
      AllPrinted(es[..|es| - 1]) + if last.Text? || last.Direct? then last.text else []
  }

  /** What is printed is printed in `color`, and nothing is cleared. */
  predicate InOneColor(es: seq<Emission>, color: u8) {
    forall e :: e in es ==> !e.Clear? && (e.Text? || e.Direct? ==> e.color == color)
  }

  // Uncaptured output in one colour goes to the screen in one piece.
  lemma {:induction false} UncapturedPrints(s: Sink, es: seq<Emission>, color: u8)
    requires s.term.Valid() && InOneColor(es, color)
    ensures EmitAll(s, es, false).term == Feed(s.term, AllPrinted(es), color)
  {
    if es != [] {
      hide Feed;
      var n := |es| - 1;
      assert es[n] in es;
      UncapturedPrints(s, es[..n], color);
      FeedConcat(s.term, AllPrinted(es[..n]), if es[n].Text? || es[n].Direct? then es[n].text else [], color);
      assert AllPrinted(es[..n]) + [] == AllPrinted(es[..n]);
    } else {
      assert Feed(s.term, [], color) == s.term;
    }
  }

  // Of what comes before the last clearing nothing stays on the screen.
  lemma ClearForgets(s: Sink, before: seq<Emission>, after: seq<Emission>, color: u8)
    requires s.term.Valid() && InOneColor(after, color)
    ensures EmitAll(s, before + [Clear] + after, false).term == Feed(Cleared(), AllPrinted(after), color)
  {
    hide Feed, AllPrinted, InOneColor;
    EmitConcat(s, before + [Clear], after, false);
    assert (before + [Clear])[..|before|] == before;
    UncapturedPrints(EmitAll(s, before + [Clear], false), after, color);
  }

  // The colour a command leaves is the last one it chose, captured or not, and the one it found
  // if it chose none.
  lemma {:induction false} ColorLeft(s: Sink, es: seq<Emission>, capturing: bool)
    requires s.term.Valid()
    ensures EmitAll(s, es, capturing).color == LastColor(es, s.color)
    ensures (forall e :: e in es ==> !e.Recolor?) ==> LastColor(es, s.color) == s.color
    ensures forall i :: 0 <= i < |es| && es[i].Recolor? && (forall j :: i < j < |es| ==> !es[j].Recolor?) ==>
              LastColor(es, s.color) == es[i].color
  {
    if es != [] {
      hide Feed;
      var n := |es| - 1;
      ColorLeft(s, es[..n], capturing);
      assert es[n] in es && forall e :: e in es[..n] ==> e in es;
      assert forall j :: 0 <= j < n ==> es[..n][j] == es[j];
    }
  }

  // A line without a pipe runs as one command, uncaptured, and what it prints is on the screen.
  lemma PlainLineRuns(t: Term, color: u8, line: seq<u8>, commands: Interpreter, c: u8)
    requires t.Valid() && '|' as int !in line && InOneColor(commands(false, line, color), c)
    ensures var es, s := commands(false, line, color), Execute(t, color, line, commands);
      s.term == Feed(t, AllPrinted(es), c) && s.color == LastColor(es, color)
  {
    hide EmitAll, Feed, InOneColor, AllPrinted, LastColor;
    var es := commands(false, line, color);
    UncapturedPrints(Sink(t, [], color), es, c);
    ColorLeft(Sink(t, [], color), es, false);
  }

  // The special case of one text.
  lemma OneTextRuns(t: Term, color: u8, line: seq<u8>, commands: Interpreter, text: seq<u8>, c: u8)
    requires t.Valid() && '|' as int !in line && commands(false, line, color) == [Text(text, c)]
    ensures Execute(t, color, line, commands).term == Feed(t, text, c)
    ensures Execute(t, color, line, commands).color == color
  {
    hide EmitAll, Feed;
    PlainLineRuns(t, color, line, commands, c);
    assert [Text(text, c)][..0] == [] && AllPrinted([]) + text == text;
  }

  // A line that clears and then prints starts on a clear screen.
  lemma ClearingLineRuns(t: Term, color: u8, line: seq<u8>, commands: Interpreter,
                         before: seq<Emission>, after: seq<Emission>, c: u8)
    requires t.Valid() && '|' as int !in line && InOneColor(after, c)
    requires commands(false, line, color) == before + [Clear] + after
    ensures Execute(t, color, line, commands).term == Feed(Cleared(), AllPrinted(after), c)
  {
    hide EmitAll, Feed, InOneColor, AllPrinted;
    ClearForgets(Sink(t, [], color), before, after, c);
  }

  lemma {:induction false} EmitKeepsBlankAhead(s: Sink, es: seq<Emission>, capturing: bool)
    requires BlankAhead(s.term)
    ensures BlankAhead(EmitAll(s, es, capturing).term)
  {
    if es != [] {
      var n := |es| - 1;
      EmitKeepsBlankAhead(s, es[..n], capturing);
      var before := EmitAll(s, es[..n], capturing);
      if es[n].Text? || es[n].Direct? {
        FeedKeepsBlankAhead(before.term, es[n].text, es[n].color);
      }
    }
  }

  lemma ExecuteKeepsBlankAhead(t: Term, color: u8, line: seq<u8>, commands: Interpreter)
    requires BlankAhead(t)
    ensures BlankAhead(Execute(t, color, line, commands).term)
  {
    hide EmitAll, Feed;
    if PIPE !in line {
      EmitKeepsBlankAhead(Sink(t, [], color), commands(false, line, color), false);
    } else {
      var s := Capture(t, color, line, commands);
      EmitKeepsBlankAhead(Sink(t, [], color), commands(true, Before(line), color), true);
      FeedKeepsBlankAhead(s.term, s.piped, s.color);
      EmitKeepsBlankAhead(s.(term := Feed(s.term, s.piped, s.color)), commands(false, After(line), s.color), false);
    }
  }

  // ---------- Numbers ----------

  /** The decimal digits of `n`, at least one. */
  function Digits(n: nat): (s: seq<u8>)
    ensures s != [] && forall i :: 0 <= i < |s| ==> 48 <= s[i] <= 57
    decreases n
  {
    if n < 10 then [48 + n] else Digits(n / 10) + [48 + n % 10]
  }

  /** `print_num`: the digits with leading zeros up to a width. */
  function Padded(n: nat, width: nat): (s: seq<u8>)
    ensures |s| >= width && forall i :: 0 <= i < |s| ==> 48 <= s[i] <= 57
  {
    seq(Max(width - |Digits(n)|, 0), i => 48) + Digits(n)
  }

  /** The number that decimal digits stand for. */
  function ValueOf(s: seq<u8>): int {
    if s == [] then 0 else ValueOf(s[..|s| - 1]) * 10 + s[|s| - 1] - 48
  }

  lemma {:induction false} DigitsRoundTrip(n: nat)
    ensures ValueOf(Digits(n)) == n
    decreases n
  {
    if n >= 10 {
      DigitsRoundTrip(n / 10);
      assert Digits(n)[..|Digits(n)| - 1] == Digits(n / 10);
    } else {
      assert ValueOf([]) == 0 && [48 + n][..0] == [];
    }
  }

  lemma {:induction false} DigitsShortest(n: nat)
    ensures Digits(0) == ['0' as int]
    ensures n > 0 ==> Digits(n)[0] != '0' as int
    decreases n
  {
    if n >= 10 {
      DigitsShortest(n / 10);
      assert n / 10 > 0;
    }
  }

  // What print_num prints stands for the number, whatever the width.
  lemma PaddedRoundTrip(n: nat, width: nat)
    ensures ValueOf(Padded(n, width)) == n
  {
    DigitsRoundTrip(n);
    LeadingZeros(Max(width - |Digits(n)|, 0), Digits(n));
  }

  // It is made of decimal digits, as many as the width or, if the number needs more, as many as
  // it needs without a leading zero.
  lemma PaddedShape(n: nat, width: nat)
    ensures |Padded(n, width)| >= width
    ensures forall d :: d in Padded(n, width) ==> '0' as int <= d <= '9' as int
    ensures |Padded(n, width)| > Max(width, 1) ==> Padded(n, width)[0] != '0' as int
  {
    hide Digits;
    DigitsShortest(n);
  }

  lemma {:induction false} LeadingZeros(k: nat, s: seq<u8>)
    ensures ValueOf(seq(k, i => 48) + s) == ValueOf(s)
    decreases k + |s|
  {
    var zeros := seq(k, i => 48);
    if s != [] {
      LeadingZeros(k, s[..|s| - 1]);
      assert (zeros + s)[..k + |s| - 1] == zeros + s[..|s| - 1];
    } else {
      assert zeros + s == zeros;
      if k > 0 {
        LeadingZeros(k - 1, []);
        assert seq(k - 1, i => 48) + [] == zeros[..k - 1];
      }
    }
  }

  /** "-" and "\n" */
  const DASH: seq<u8> := [45]
  const LINE_FEED: seq<u8> := [10]

  /** "\n  Current date is: " */
  const DATE_IS: seq<u8> :=
    [10, 32, 32, 67, 117, 114, 114, 101, 110, 116, 32, 100, 97, 116, 101, 32, 105, 115, 58, 32]

  /** The DATE command: its numbers do not go through the capture. */
  function Date(day: u8, month: u8, year: u16, color: u8): seq<Emission> {
    [Text(DATE_IS, color), Direct(Padded(day, 2), color), Text(DASH, color), Direct(Padded(month, 2), color),
     Text(DASH, color), Direct(Padded(year, 4), color), Text(LINE_FEED, color)]
  }

  lemma PartsLast(es: seq<Emission>, e: Emission)
    ensures AllText(es + [e]) == AllText(es) + if e.Text? then e.text else []
    ensures AllDirect(es + [e]) == AllDirect(es) + if e.Direct? then e.text else []
  {
    assert (es + [e])[..|es|] == es;
  }

  lemma OneText(text: seq<u8>, color: u8)
    ensures AllText([Text(text, color)]) == text && AllDirect([Text(text, color)]) == []
  {
    PartsLast([], Text(text, color));
    assert [] + [Text(text, color)] == [Text(text, color)];
    assert AllText([]) == [] && AllDirect([]) == [];
  }

  // A number and a text behind it.
  lemma PartsOfNumber(es: seq<Emission>, number: seq<u8>, text: seq<u8>, color: u8)
    ensures var longer := es + [Direct(number, color), Text(text, color)];
      AllText(longer) == AllText(es) + text && AllDirect(longer) == AllDirect(es) + number
  {
    hide AllText, AllDirect;
    PartsLast(es, Direct(number, color));
    PartsLast(es + [Direct(number, color)], Text(text, color));
    assert es + [Direct(number, color)] + [Text(text, color)] == es + [Direct(number, color), Text(text, color)];
  }

  // DATE before a pipe: the digits reach the screen at once, and the pipe carries the date
  // without them.
  lemma PipedDateLeaks(s: Sink, day: u8, month: u8, year: u16)
    requires BlankAhead(s.term) && s.piped == []
    ensures var es := Date(day, month, year, s.color);
      && AllDirect(es) == Padded(day, 2) + Padded(month, 2) + Padded(year, 4)
      && EmitAll(s, es, true).term != s.term
      && EmitAll(s, es, true).piped == DATE_IS + DASH + DASH + LINE_FEED
  {
    hide Padded, EmitAll, AllText, AllDirect;
    var es := Date(day, month, year, s.color);
    var d, m, y := Padded(day, 2), Padded(month, 2), Padded(year, 4);
    var first := [Text(DATE_IS, s.color)];
    var second := first + [Direct(d, s.color), Text(DASH, s.color)];
    var third := second + [Direct(m, s.color), Text(DASH, s.color)];
    OneText(DATE_IS, s.color);
    PartsOfNumber(first, d, DASH, s.color);
    PartsOfNumber(second, m, DASH, s.color);
    PartsOfNumber(third, y, LINE_FEED, s.color);
    assert es == third + [Direct(y, s.color), Text(LINE_FEED, s.color)];
    CaptureIsPrefix(s, es);
    CaptureIsSilentExactly(s, es);
  }

  // DATE without a pipe puts the whole date on the screen.
  lemma DateOnScreen(s: Sink, day: u8, month: u8, year: u16)
    requires s.term.Valid()
    ensures var text := Ascii("\n  Current date is: ") + Padded(day, 2) + Ascii("-") + Padded(month, 2)
                        + Ascii("-") + Padded(year, 4) + Ascii("\n");
      EmitAll(s, Date(day, month, year, s.color), false).term == Feed(s.term, text, s.color)
  {
    hide Padded, EmitAll, AllPrinted, Feed;
    DateTexts();
    var c := s.color;
    var es := Date(day, month, year, c);
    var d, m, y := Padded(day, 2), Padded(month, 2), Padded(year, 4);
    UncapturedPrints(s, es, c);
    var first := [Text(DATE_IS, c)];
    PrintedOne(DATE_IS, c);
    PrintedTwo(first, d, DASH, c);
    PrintedTwo(first + [Direct(d, c), Text(DASH, c)], m, DASH, c);
    PrintedTwo(first + [Direct(d, c), Text(DASH, c)] + [Direct(m, c), Text(DASH, c)], y, LINE_FEED, c);
    assert es == first + [Direct(d, c), Text(DASH, c)] + [Direct(m, c), Text(DASH, c)]
                 + [Direct(y, c), Text(LINE_FEED, c)];
    var text := DATE_IS + d + DASH + m + DASH + y + LINE_FEED;
    assert AllPrinted(es) == text;
  }

  lemma DateTexts()
    ensures DATE_IS == Ascii("\n  Current date is: ") && DASH == Ascii("-") && LINE_FEED == Ascii("\n")
  {
  }

  lemma PrintedOne(text: seq<u8>, color: u8)
    ensures AllPrinted([Text(text, color)]) == text
  {
    assert [Text(text, color)][..0] == [] && AllPrinted([]) == [] && [] + text == text;
  }

  lemma PrintedTwo(es: seq<Emission>, number: seq<u8>, text: seq<u8>, color: u8)
    ensures AllPrinted(es + [Direct(number, color), Text(text, color)]) == AllPrinted(es) + number + text
  {
    var both := es + [Direct(number, color), Text(text, color)];
    var one := es + [Direct(number, color)];
    assert both[..|both| - 1] == one && one[..|es|] == es;
    assert AllPrinted(one) == AllPrinted(es) + number;
  }

  // The steps of DATE one after the other.
  lemma EmitDate(s: Sink, day: u8, month: u8, year: u16, color: u8, capturing: bool)
    requires s.term.Valid()
    ensures var s1 := Emit(s, Text(DATE_IS, color), capturing);
      var s2 := Emit(Emit(s1, Direct(Padded(day, 2), color), capturing), Text(DASH, color), capturing);
      var s3 := Emit(Emit(s2, Direct(Padded(month, 2), color), capturing), Text(DASH, color), capturing);
      var s4 := Emit(Emit(s3, Direct(Padded(year, 4), color), capturing), Text(LINE_FEED, color), capturing);
      EmitAll(s, Date(day, month, year, color), capturing) == s4
  {
    hide Emit, Padded, EmitAll;
    var d, m, y := Direct(Padded(day, 2), color), Direct(Padded(month, 2), color), Direct(Padded(year, 4), color);
    var dash, end := Text(DASH, color), Text(LINE_FEED, color);
    var first := [Text(DATE_IS, color)];
    EmitOne(s, first[0], capturing);
    EmitTwo(s, first, d, dash, capturing);
    EmitTwo(s, first + [d, dash], m, dash, capturing);
    EmitTwo(s, first + [d, dash] + [m, dash], y, end, capturing);
    assert Date(day, month, year, color) == first + [d, dash] + [m, dash] + [y, end];
  }

  lemma EmitOne(s: Sink, e: Emission, capturing: bool)
    requires s.term.Valid()
    ensures EmitAll(s, [e], capturing) == Emit(s, e, capturing)
  {
    assert [e][..0] == [] && EmitAll(s, [], capturing) == s;
  }

  lemma EmitTwo(s: Sink, es: seq<Emission>, e: Emission, f: Emission, capturing: bool)
    requires s.term.Valid()
    ensures EmitAll(s, es + [e, f], capturing) == Emit(Emit(EmitAll(s, es, capturing), e, capturing), f, capturing)
  {
    var both := es + [e, f];
    assert both[..|both| - 1] == es + [e] && (es + [e])[..|es|] == es;
  }
}
