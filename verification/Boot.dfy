/**
  The kernel as it is linked: the heap is the only client of the physical memory manager, and
  nobody gives frames back.
 */
module Boot {
  import opened Machine
  import opened Multiboot
  import opened Frames
  import opened PhysicalMemory
  import opened KernelHeap
  import opened HeapProofs
  import Model = HeapModel
  import opened HeapLayout

  /** The frames free after boot: those of the available entries, without the first 2 MiB. */
  ghost function BootFrames(es: seq<Entry>): set<nat> {
    Covered(es, TotalFor(MaxEnd(es))) - Interval(0, RESERVED)
  }

  lemma BootFramesUsable(es: seq<Entry>)
    ensures Usable(BootFrames(es))
  {
    forall f | f in BootFrames(es) ensures RESERVED <= f < MAX_FRAMES {
      CoveredIsUnion(es, TotalFor(MaxEnd(es)), f);
    }
  }

  // Which frames are free after boot, from the memory map alone: those from 2 MiB to 1 GiB that
  // some available entry contributes and that lie below the end, in 64-bit arithmetic, of some
  // available entry.
  lemma BootFramesAre(es: seq<Entry>, f: nat)
    ensures f in BootFrames(es) <==>
            512 <= f < 262144 && Contributed(es, f) && exists j: nat :: EndsAbove(es, j, f)
  {
    hide Covered, MaxEnd, TotalFor, Contributed, EndsAbove;
    BelowTotal(es, f);
    CoveredContributed(es, TotalFor(MaxEnd(es)), f);
  }

  // Managed memory ends with the highest available entry, or at 1 GiB.
  lemma BelowTotal(es: seq<Entry>, f: nat)
    ensures f < TotalFor(MaxEnd(es)) <==> f < 262144 && exists j: nat :: EndsAbove(es, j, f)
  {
    hide MaxEnd;
    MaxEndIsMaximum(es);
    if j: nat :| EndsAbove(es, j, f) {
      assert es[j] in es;
      assert EntryEnd(es[j]) / 4096 <= MaxEnd(es) / 4096;
    }
    if f < MaxEnd(es) / 4096 {
      var e :| e in es && e.kind == AVAILABLE && EntryEnd(e) == MaxEnd(es);
      var j: nat :| j < |es| && es[j] == e;
      assert EndsAbove(es, j, f);
    }
  }

  lemma CoveredContributed(es: seq<Entry>, total: nat, f: nat)
    ensures f in Covered(es, total) <==> f < total && Contributed(es, f)
  {
    hide Covered;
    CoveredIsUnion(es, total, f);
    if f < total && Contributed(es, f) {
      var i: nat :| Contributes(es, i, f);
      assert f in EntryFrames(es[i], total);
    }
    if i :| 0 <= i < |es| && f in EntryFrames(es[i], total) {
      assert Contributes(es, i, f);
    }
  }

  /** Available entry `i` has whole pages of length up to frame `f`. */
  predicate Contributes(es: seq<Entry>, i: nat, f: nat) {
    && i < |es| && es[i].kind == 1
    && es[i].addr / 4096 <= f < es[i].addr / 4096 + es[i].len / 4096
  }

  ghost predicate Contributed(es: seq<Entry>, f: nat) {
    exists i: nat :: Contributes(es, i, f)
  }

  /** Available entry `j` ends above frame `f`, wrapping at 2^64. */
  predicate EndsAbove(es: seq<Entry>, j: nat, f: nat) {
    j < |es| && es[j].kind == 1 && f < (es[j].addr + es[j].len) % 0x1_0000_0000_0000_0000 / 4096
  }

  // When no available entry wraps, they are all contributed frames from 2 MiB to 1 GiB.
  lemma BootFramesWithoutWrap(es: seq<Entry>, f: nat)
    requires forall i :: 0 <= i < |es| && es[i].kind == 1 ==> es[i].addr + es[i].len < 0x1_0000_0000_0000_0000
    ensures f in BootFrames(es) <==>
            512 <= f < 262144 &&
            exists i :: 0 <= i < |es| && es[i].kind == 1 &&
                        es[i].addr / 4096 <= f < es[i].addr / 4096 + es[i].len / 4096
  {
    hide BootFrames;
    BootFramesAre(es, f);
    if i: nat :| Contributes(es, i, f) {
      FloorSum(es[i].addr, es[i].len);
      DivisionIs(es[i].addr + es[i].len, 0x1_0000_0000_0000_0000, 0, es[i].addr + es[i].len);
      assert EndsAbove(es, i, f);
    }
    if i :| 0 <= i < |es| && es[i].kind == 1 && es[i].addr / 4096 <= f < es[i].addr / 4096 + es[i].len / 4096 {
      assert Contributes(es, i, f);
    }
  }

  // The boot sequence from the boot information to the heap.
  method Start(info: seq<u8>, mem: array<u8>) returns (pmm: Pmm, heap: Heap)
    requires TagsOk(info, 8) && |info| <= 0x1_0000_0000 && mem.Length == MEMORY_BYTES
    modifies mem
    ensures heap.pmm == pmm && heap.mem == mem && heap.Valid()
    ensures var frames := BootFrames(Entries(info, 8));
      heap.View() == if frames == {} then Model.Heap([], {}, 0, 0) else HeapLayout.Start(frames)
    ensures var es := Entries(info, 8); pmm.Drift() == 0 <==> FramesDisjoint(es, TotalFor(MaxEnd(es)))
  {
    hide Entries, Covered, Interval, MaxEnd, FramesDisjoint, TagsOk, Model.TakeFrame, Usable;
    BootFramesUsable(Entries(info, 8));
    pmm := new Pmm();
    pmm.Init(info);
    pmm.NoDriftWhenRight();
    heap := new Heap(mem, pmm);
    heap.Init();
  }

  // Whatever the memory map says, the running kernel's heap keeps its blocks disjoint and its
  // statistics right; and it stays inside memory it has taken, on all runs, exactly when the
  // frames free after boot form one interval.
  lemma KernelHeapIsSoundIff(es: seq<Entry>)
    requires BootFrames(es) != {}
    ensures forall ops :: RunAllowed(HeapLayout.Start(BootFrames(es)), ops) ==>
              var h := Run(HeapLayout.Start(BootFrames(es)), ops);
              Placed(h) && ReportedUsed(h) == UsedBytes(h.blocks)
    ensures Sound(BootFrames(es)) <==> IsInterval(BootFrames(es))
  {
    var frames := BootFrames(es);
    BootFramesUsable(es);
    forall ops | RunAllowed(HeapLayout.Start(frames), ops)
      ensures var h := Run(HeapLayout.Start(frames), ops); Placed(h) && ReportedUsed(h) == UsedBytes(h.blocks)
    {
      EveryRunIsConsistent(frames, ops);
    }
    SoundExactlyForIntervals(frames);
  }

  // The frames free after boot that an entry contributes lie inside that entry, for all entries,
  // exactly when no available entry of a page or more starts inside a page between 2 MiB and the
  // end of managed memory.
  lemma BootFramesInsideIffAligned(es: seq<Entry>)
    ensures var total := TotalFor(MaxEnd(es));
      (forall i, f :: 0 <= i < |es| && f in EntryFrames(es[i], total) && f in BootFrames(es) ==> FrameInside(f, es[i]))
      <==> forall i :: 0 <= i < |es| ==> !StartsInsidePage(es[i], RESERVED, total)
  {
    hide MaxEnd, EntryFrames, FrameInside, StartsInsidePage, BootFrames;
    var total := TotalFor(MaxEnd(es));
    if i :| 0 <= i < |es| && StartsInsidePage(es[i], RESERVED, total) {
      EntryInsideIffAligned(es[i], total, RESERVED);
      var f :| f in EntryFrames(es[i], total) && RESERVED <= f && !FrameInside(f, es[i]);
      InBootFrames(es, i, f);
    } else {
      forall i, f | 0 <= i < |es| && f in EntryFrames(es[i], total) && f in BootFrames(es)
        ensures FrameInside(f, es[i])
      {
        InBootFrames(es, i, f);
        EntryInsideIffAligned(es[i], total, RESERVED);
      }
    }
  }

  lemma InBootFrames(es: seq<Entry>, i: nat, f: nat)
    requires i < |es| && f in EntryFrames(es[i], TotalFor(MaxEnd(es)))
    ensures f in BootFrames(es) <==> RESERVED <= f
  {
    hide Covered, MaxEnd, EntryFrames;
    CoveredIsUnion(es, TotalFor(MaxEnd(es)), f);
    assert InSomeEntry(f, es, TotalFor(MaxEnd(es)));
  }

  // The usual map, in which one available entry alone reaches above 2 MiB, is such an interval.
  lemma OneEntryAboveReserved(es: seq<Entry>, k: nat)
    requires k < |es|
    requires forall i :: 0 <= i < |es| && i != k ==>
               EntryFrames(es[i], TotalFor(MaxEnd(es))) <= Interval(0, RESERVED)
    ensures IsInterval(BootFrames(es))
  {
    var total := TotalFor(MaxEnd(es));
    var frames := BootFrames(es);
    forall f: nat ensures f in frames <==> f in EntryFrames(es[k], total) && f >= RESERVED {
      CoveredIsUnion(es, total, f);
    }
  }
}
