/**
  Inputs on which the code falls short, one for each property that holds only under a
  condition: memory maps, requests and key strokes that the kernel can receive.
 */
module Witnesses {
  import opened Machine
  import opened Multiboot
  import opened Frames
  import opened HeapProofs
  import opened HeapLayout
  import opened Terminal
  import opened LineEditor
  import Boot
  import Model = HeapModel

  // ---------- Memory maps ----------

  // Two pages with a hole between them: the heap built on them leaves its frames on some run.
  lemma HoleBreaksHeap(es: seq<Entry>)
    requires es == [Entry(0x20_0000, 0x1000, AVAILABLE, 0), Entry(0x20_2000, 0x1000, AVAILABLE, 0)]
    ensures Boot.BootFrames(es) == {512, 514}
    ensures !IsInterval(Boot.BootFrames(es)) && !Sound(Boot.BootFrames(es))
  {
    hide Covered, MaxEnd, Sound;
    EndOfTwo(es);
    forall f: nat ensures f in Boot.BootFrames(es) <==> f == 512 || f == 514 {
      InTwo(es, 515, f);
    }
    assert 512 in Boot.BootFrames(es) && 514 in Boot.BootFrames(es) && 513 !in Boot.BootFrames(es);
    Boot.KernelHeapIsSoundIff(es);
  }

  lemma EndOfTwo(es: seq<Entry>)
    requires |es| == 2 && es[0].kind == es[1].kind == AVAILABLE
    ensures MaxEnd(es) == Max(EntryEnd(es[0]), EntryEnd(es[1]))
  {
    var none: seq<Entry> := [];
    NoEntries(0);
    MaxEndLast(none, es[0]);
    MaxEndLast([es[0]], es[1]);
    assert none + [es[0]] == [es[0]] && [es[0]] + [es[1]] == es;
  }

  lemma InTwo(es: seq<Entry>, total: nat, p: nat)
    requires |es| == 2
    ensures p in Covered(es, total) <==> p in EntryFrames(es[0], total) || p in EntryFrames(es[1], total)
  {
    CoveredIsUnion(es, total, p);
  }

  // Two entries that share a page: the counter of free pages is one too high after boot.
  lemma OverlapMiscounts(es: seq<Entry>)
    requires es == [Entry(0x20_0000, 0x2000, AVAILABLE, 0), Entry(0x20_1000, 0x2000, AVAILABLE, 0)]
    ensures TotalFor(MaxEnd(es)) == 515 && MarkCount(es, 515) == 4
    ensures Boot.BootFrames(es) == {512, 513, 514} && !FramesDisjoint(es, 515)
  {
    hide Covered, MaxEnd, MarkCount;
    EndOfTwo(es);
    forall f: nat ensures f in Boot.BootFrames(es) <==> 512 <= f <= 514 {
      InTwo(es, 515, f);
    }
    var none: seq<Entry> := [];
    NoEntries(515);
    MarksLast(none, es[0], 515);
    MarksLast([es[0]], es[1], 515);
    assert none + [es[0]] == [es[0]] && [es[0]] + [es[1]] == es;
    IntervalSize(512, 514);
    IntervalSize(513, 515);
    assert 513 in EntryFrames(es[0], 515) * EntryFrames(es[1], 515);
  }

  // An entry that starts inside a page: the frame marked free starts before the entry.
  lemma MisalignedEntryReachesOut(e: Entry)
    requires e == Entry(0x20_0800, 0x1000, AVAILABLE, 0)
    ensures Boot.BootFrames([e]) == {512} && !FrameInside(512, e)
  {
    hide Covered, MaxEnd;
    var none: seq<Entry> := [];
    NoEntries(513);
    MaxEndLast(none, e);
    MarksLast(none, e, 513);
    assert none + [e] == [e];
    IntervalGrows(512, 512);
  }

  // ---------- Requests ----------

  // However the kernel has used its heap, these requests never return, 2^64 - 4096 among them.
  lemma EndlessRequest(es: seq<Entry>, ops: seq<Op>, n: u64)
    requires Boot.BootFrames(es) != {} && RunAllowed(Start(Boot.BootFrames(es)), ops)
    requires TWO_64 - 4127 <= n <= TWO_64 - 32
    ensures var h := Run(Start(Boot.BootFrames(es)), ops);
      forall retries: nat :: !Model.HaltsWithin(h, n, retries)
  {
    hide Model.Halts, Model.HaltsWithin, Boot.BootFrames, Start;
    var h := Run(Start(Boot.BootFrames(es)), ops);
    Boot.KernelHeapIsSoundIff(es);
    HaltsOutsideWindow(h, n);
    Model.HaltsExactly(h, n);
  }

  // A fresh heap answers the largest request with a block of no bytes.
  lemma EmptyGrant(frames: set<nat>)
    requires frames != {} && Usable(frames)
    ensures Model.Halts(Start(frames), TWO_64 - 1)
    ensures var r := Model.Kmalloc(Start(frames), TWO_64 - 1);
      r.ptr == Lowest(frames) * 4096 + 25 && r.heap.blocks[0] == Model.Block(Lowest(frames) * 4096, 0, false)
  {
    hide Model.Kmalloc, Start, Model.Halts;
    StartIsConsistent(frames);
    Model.AlignCoversIffNoWrap(TWO_64 - 1);
    Model.KmallocFits(Start(frames), TWO_64 - 1, 0);
  }

  /** Nothing is in use and the statistic says so; freeing `ptr` makes it 4071 bytes too low. */
  ghost predicate MiscountsAfter(h: Model.Heap, ptr: nat) {
    var i := Find(h.blocks, ptr);
    && ReportedUsed(h) == UsedBytes(h.blocks) == 0
    && i < |h.blocks|
    && ReportedUsed(Model.Release(h, i)) == TWO_64 - 4071 && UsedBytes(Model.Release(h, i).blocks) == 0
  }

  // A block of a fresh heap, granted, freed, and freed again: the first free leaves the statistic
  // right, the second makes it wrong by the size of the block.
  lemma DoubleFreeMiscounts(frames: set<nat>, n: u64, ptr: nat, ops: seq<Op>)
    requires frames != {} && Usable(frames) && 0 < n <= 4064
    requires ptr == Lowest(frames) * 4096 + 25 && ops == [Malloc(n), Free(ptr)]
    ensures Model.Halts(Start(frames), n) && Model.Kmalloc(Start(frames), n).ptr == ptr
    ensures RunAllowed(Start(frames), ops)
    ensures MiscountsAfter(Run(Start(frames), ops), ptr)
  {
    hide Start, Model.Release, UsedBytes, FreeBytes, ReportedUsed, UsedError, Sub64,
         Model.Kmalloc, Model.AlignSize, Placed;
    var h := Start(frames);
    StartIsConsistent(frames);
    Model.AlignCoversIffNoWrap(n);
    assert Model.FirstFit(h.blocks, Model.AlignSize(n)) == 0;
    Model.KmallocFits(h, n, 0);
    GrantIsFirstFitAndTight(h, n);
    MallocThenFree(h, n);
    KmallocConserves(h, n);
    var granted := Model.Kmalloc(h, n).heap;
    assert granted.blocks[0].addr == h.blocks[0].addr && !granted.blocks[0].free;
    assert Find(granted.blocks, ptr) == 0;
    assert HeapLayout.Allowed(h, Malloc(n)) && Apply(h, Malloc(n)) == granted;
    RunTwo(h, Malloc(n), Free(ptr));
    var h' := Model.Release(granted, 0);
    ReleaseConserves(granted, 0);
    assert h'.blocks == h.blocks;
    FreedTwice(granted, h', h.blocks[0]);
  }

  lemma FreedTwice(granted: Model.Heap, h: Model.Heap, b: Model.Block)
    requires h.blocks == [b] && b.free && b.size == 4071 && granted.blocks != [] && !granted.blocks[0].free
    requires h == Model.Release(granted, 0) && UsedError(granted) == 0
    ensures ReportedUsed(h) == UsedBytes(h.blocks) == 0
    ensures ReportedUsed(Model.Release(h, 0)) == TWO_64 - 4071 && UsedBytes(Model.Release(h, 0).blocks) == 0
  {
    hide Model.Release, UsedBytes, FreeBytes, ReportedUsed, UsedError;
    ReleaseConserves(granted, 0);
    ReleaseConserves(h, 0);
    ReleaseSums(h, 0);
    PairSums(b, b);
    WithoutUsed(granted);
    WithoutUsed(h);
    WithoutUsed(Model.Release(h, 0));
    SubZero(0);
  }

  lemma WithoutUsed(h: Model.Heap)
    ensures UsedBytes(h.blocks) == 0 ==> ReportedUsed(h) == UsedError(h)
  {
    hide UsedBytes, ReportedUsed;
    SubZero(ReportedUsed(h));
  }

  lemma RunTwo(h: Model.Heap, a: Op, b: Op)
    requires HeapLayout.Allowed(h, a) && HeapLayout.Allowed(Apply(h, a), b)
    ensures RunAllowed(h, [a, b]) && Run(h, [a, b]) == Apply(Apply(h, a), b)
  {
    hide HeapLayout.Allowed, Apply;
    var ops := [a, b];
    assert ops[1..] == [b] && [b][1..] == [];
    assert RunAllowed(Apply(h, a), [b]) && Run(Apply(h, a), [b]) == Apply(Apply(h, a), b);
  }

  // ---------- Key strokes ----------

  lemma {:induction false} TypingAgrees(e: Editor, c: u8, n: nat)
    requires EditorOk(e) && Agrees(e) && e.line == [] && n <= 255 && c > TAB && c != NEWLINE
    ensures var e' := Presses(e, c, n); EditorOk(e') && Agrees(e') && |e'.line| == n && e'.history == e.history
  {
    hide LineOk, Agrees, Put, Complete, Recall;
    if n > 0 {
      TypingAgrees(e, c, n - 1);
      var before := Presses(e, c, n - 1);
      PressOk(before, c);
      AgreesExactlyWhenSafe(before, c);
    }
  }

  // After n characters at a fresh prompt, a backspace or a recall leaves something else on the
  // screen than in the line exactly for these n; 73 is the first for both.
  lemma LongLineDisagrees(e: Editor, c: u8, n: nat)
    requires EditorOk(e) && Agrees(e) && e.line == [] && n <= 255 && c > TAB && c != NEWLINE
    ensures !Agrees(Press(Presses(e, c, n), BACKSPACE)) <==> n == 73 || n == 153 || n == 233
    ensures e.history != [] ==> (!Agrees(Press(Presses(e, c, n), KEY_UP)) <==> n >= 73)
  {
    hide LineOk, Agrees, Presses;
    TypingAgrees(e, c, n);
    var typed := Presses(e, c, n);
    AgreesExactlyWhenSafe(typed, BACKSPACE);
    AgreesExactlyWhenSafe(typed, KEY_UP);
  }

  // "he" and Tab gives HELP, and leaves the line "c" alone, since CLS, CPU and COLOR begin with it.
  lemma TabOnHe(e: Editor)
    requires e.term.Valid()
    ensures e.line == Ascii("he") ==> Press(e, TAB).line == Ascii("HELP")
    ensures e.line == Ascii("c") ==> Press(e, TAB) == e
  {
    hide COMMANDS, Press, OnlyMatch, Feed, Erase;
    CommandNames();
    if e.line == Ascii("he") {
      TabCompletesExactly(e);
      OnlyHelp(e.line);
    } else if e.line == Ascii("c") {
      TabCompletesExactly(e);
      SeveralBeginWithC(e.line);
    }
  }

  lemma SeveralBeginWithC(line: seq<u8>)
    requires line == Ascii("c")
    ensures forall i: nat :: !OnlyMatch(COMMANDS, line, i)
  {
    hide COMMANDS;
    CommandNames();
    assert COMMANDS[1][..1] == Ascii("C") && COMMANDS[5][..1] == Ascii("C");
    assert Completes(COMMANDS[1], line) && Completes(COMMANDS[5], line);
  }

  lemma OnlyHelp(line: seq<u8>)
    requires line == Ascii("he")
    ensures OnlyMatch(COMMANDS, line, 0)
  {
    hide COMMANDS;
    CommandNames();
    forall j | 0 <= j < |COMMANDS| ensures Completes(COMMANDS[j], line) <==> j == 0 {
      if j == 0 {
        assert COMMANDS[0][..2] == Ascii("HE");
      } else {
        assert !SameLetter(COMMANDS[j][0], line[0]);
      }
    }
  }

  // ---------- A boot information in bytes ----------

  /** Four bytes from `at` on. */
  predicate Bytes(info: seq<u8>, at: nat, b0: u8, b1: u8, b2: u8, b3: u8) {
    at + 4 <= |info| && info[at] == b0 && info[at + 1] == b1 && info[at + 2] == b2 && info[at + 3] == b3
  }

  // A memory-map tag of 40 bytes with one entry of 24, at offset 8, and the end tag: the kernel
  // reads one available entry of 255 MiB at 1 MiB, and leaves every page from 2 MiB to 256 MiB free.
  lemma BootInformationInBytes(info: seq<u8>, tag: nat, es: seq<Entry>, f: nat)
    requires |info| == 56 && tag == 8 && es == [Entry(0x10_0000, 0xFF0_0000, 1, 0)]
    requires Bytes(info, 8, 6, 0, 0, 0) && Bytes(info, 12, 40, 0, 0, 0) && Bytes(info, 16, 24, 0, 0, 0)
    requires Bytes(info, 24, 0, 0, 0x10, 0) && Bytes(info, 28, 0, 0, 0, 0)
    requires Bytes(info, 32, 0, 0, 0xF0, 0x0F) && Bytes(info, 36, 0, 0, 0, 0)
    requires Bytes(info, 40, 1, 0, 0, 0) && Bytes(info, 44, 0, 0, 0, 0)
    requires Bytes(info, 48, 0, 0, 0, 0) && Bytes(info, 52, 8, 0, 0, 0)
    ensures TagsOk(info, tag) && Entries(info, tag) == es
    ensures f in Boot.BootFrames(es) <==> 512 <= f < 65536
  {
    hide U32At, U64At, EntryAt, Entries, TagsOk, Boot.BootFrames, Bytes;
    Word32Is(info, 8, 6, 0, 0, 0);
    Word32Is(info, 12, 40, 0, 0, 0);
    Word32Is(info, 16, 24, 0, 0, 0);
    Word32Is(info, 48, 0, 0, 0, 0);
    EntryOfWords(info);
    OneTag(info, tag, es[0]);
    FramesOfOne(es, f);
  }

  lemma FramesOfOne(es: seq<Entry>, f: nat)
    requires es == [Entry(0x10_0000, 0xFF0_0000, 1, 0)]
    ensures f in Boot.BootFrames(es) <==> 512 <= f < 65536
  {
    hide Boot.BootFrames;
    Boot.BootFramesWithoutWrap(es, f);
    assert es[0].addr / 4096 == 256 && es[0].len / 4096 == 65280;
  }

  lemma EntryOfWords(info: seq<u8>)
    requires |info| == 56
    requires Bytes(info, 24, 0, 0, 0x10, 0) && Bytes(info, 28, 0, 0, 0, 0)
    requires Bytes(info, 32, 0, 0, 0xF0, 0x0F) && Bytes(info, 36, 0, 0, 0, 0)
    requires Bytes(info, 40, 1, 0, 0, 0) && Bytes(info, 44, 0, 0, 0, 0)
    ensures EntryAt(info, 24) == Entry(0x10_0000, 0xFF0_0000, 1, 0)
  {
    hide U32At, U64At, Bytes;
    Word64Is(info, 24, 0, 0, 0x10, 0);
    Word64Is(info, 32, 0, 0, 0xF0, 0x0F);
    Word32Is(info, 40, 1, 0, 0, 0);
    Word32Is(info, 44, 0, 0, 0, 0);
  }

  lemma Word32Is(info: seq<u8>, at: nat, b0: u8, b1: u8, b2: u8, b3: u8)
    requires at + 4 <= |info| && Bytes(info, at, b0, b1, b2, b3)
    ensures U32At(info, at) == Digits256(b0, b1, b2, b3)
  {
    hide U32Of, Digits256;
    LittleEndian(info[at..at + 4]);
  }

  lemma Word64Is(info: seq<u8>, at: nat, b0: u8, b1: u8, b2: u8, b3: u8)
    requires at + 8 <= |info| && Bytes(info, at, b0, b1, b2, b3) && Bytes(info, at + 4, 0, 0, 0, 0)
    ensures U64At(info, at) == Digits256(b0, b1, b2, b3)
  {
    hide U64Of, Digits256;
    LittleEndian(info[at..at + 8]);
    NoDigits();
  }

  lemma NoDigits()
    ensures Digits256(0, 0, 0, 0) == 0
  {
  }

  lemma OneTag(info: seq<u8>, tag: nat, entry: Entry)
    requires |info| == 56 && tag == 8 && EntryAt(info, tag + 16) == entry
    requires U32At(info, 8) == 6 && U32At(info, 12) == 40 && U32At(info, 16) == 24 && U32At(info, 48) == 0
    ensures TagsOk(info, tag) && Entries(info, tag) == [entry]
  {
    hide U32At, EntryAt;
    var end := tag + 40;
    assert Stride(40) == 40;
    assert TagsOk(info, end) && Entries(info, end) == [];
    assert EntryCount(info, tag) == 1;
    assert ReadEntries(info, end, 0) == [];
    assert TagEntries(info, tag) == [entry];
  }
}
