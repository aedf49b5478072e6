/**
  Sets of page frames: the abstract state of the physical memory manager, its two
  operations on that state, and which frames the boot memory map makes available.
 */
module Frames {
  import opened Machine
  import opened Multiboot

  const RESERVED: nat := 512      // frames below 2 MiB hold firmware data and the kernel image
  const MAX_FRAMES: nat := 262144 // what the 32768-byte bitmap can describe

  // ---------- First fit ----------

  ghost predicate IsLowest(s: set<nat>, p: nat) {
    p in s && forall q :: q in s ==> p <= q
  }

  lemma {:induction false} LowestExists(s: set<nat>) returns (p: nat)
    requires s != {}
    ensures IsLowest(s, p)
    decreases |s|
  {
    p :| p in s;
    var rest := s - {p};
    assert s == rest + {p};
    if rest != {} {
      var q := LowestExists(rest);
      p := Min(p, q);
    }
  }

  ghost function Lowest(s: set<nat>): (p: nat)
    requires s != {}
    ensures IsLowest(s, p)
  {
    assert exists p :: IsLowest(s, p) by {
      var p := LowestExists(s);
    }
    var p :| IsLowest(s, p);
    p
  }

  /** Frames that the physical memory manager can hand out after initialisation. */
  ghost predicate Usable(frames: set<nat>) {
    forall f :: f in frames ==> RESERVED <= f < MAX_FRAMES
  }

  ghost predicate IsInterval(s: set<nat>) {
    forall x, y, z :: x in s && z in s && x < y < z ==> y in s
  }

  // ---------- Clients that return only frames they hold ----------

  /** The frames that are free and the frames handed out and not yet returned. */
  datatype Holdings = Holdings(free: set<nat>, outstanding: set<nat>)

  datatype Call = Alloc | Return(frame: nat)

  ghost predicate Allowed(h: Holdings, c: Call) {
    c.Return? ==> c.frame in h.outstanding
  }

  ghost function Step(h: Holdings, c: Call): Holdings
    requires Allowed(h, c)
  {
    match c
    case Alloc =>
      if h.free == {} then h
      else Holdings(h.free - {Lowest(h.free)}, h.outstanding + {Lowest(h.free)})
    case Return(p) => Holdings(h.free + {p}, h.outstanding - {p})
  }

  lemma StepKeepsUnion(h: Holdings, c: Call)
    requires Allowed(h, c)
    ensures Step(h, c).free + Step(h, c).outstanding == h.free + h.outstanding
  {
  }

  ghost predicate CallsAllowed(h: Holdings, calls: seq<Call>)
    decreases |calls|
  {
    calls != [] ==> Allowed(h, calls[0]) && CallsAllowed(Step(h, calls[0]), calls[1..])
  }

  ghost function RunCalls(h: Holdings, calls: seq<Call>): Holdings
    requires CallsAllowed(h, calls)
    decreases |calls|
  {
    if calls == [] then h else RunCalls(Step(h, calls[0]), calls[1..])
  }

  // Over every run no frame is lost, invented or held twice, and the next allocation is a
  // frame that nobody holds, the lowest one, between 2 MiB and the end of managed memory;
  // so the address 0 can only mean that no frame is free.
  lemma {:induction false} RunConservesFrames(h: Holdings, calls: seq<Call>, total: nat)
    requires h.free !! h.outstanding && CallsAllowed(h, calls)
    requires total <= MAX_FRAMES
    requires forall p :: p in h.free + h.outstanding ==> RESERVED <= p < total
    ensures var h' := RunCalls(h, calls);
      && h'.free !! h'.outstanding
      && h'.free + h'.outstanding == h.free + h.outstanding
      && |h'.free| + |h'.outstanding| == |h.free| + |h.outstanding|
      && (h'.free != {} ==>
            var p := Lowest(h'.free);
            && p !in h'.outstanding
            && p in h.free + h.outstanding
            && 0x20_0000 <= p * 4096 < total * 4096 <= 0x4000_0000)
    decreases |calls|
  {
    if calls != [] {
      var h1 := Step(h, calls[0]);
      StepKeepsUnion(h, calls[0]);
      RunConservesFrames(h1, calls[1..], total);
    }
    var h' := RunCalls(h, calls);
    if h'.free != {} {
      assert Lowest(h'.free) in h'.free + h'.outstanding;
    }
    assert |h'.free + h'.outstanding| == |h'.free| + |h'.outstanding|;
  }

  // ---------- The boot memory map ----------

  /** The end of an entry, in 64-bit arithmetic as the source computes it. */
  function EntryEnd(e: Entry): u64 {
    Add64(e.addr, e.len)
  }

  /** The largest end of an available entry. */
  ghost function MaxEnd(es: seq<Entry>): u64 {
    if es == [] then 0
    else
      var last := es[|es| - 1];
      var before := MaxEnd(es[..|es| - 1]);
      if last.kind == AVAILABLE then Max(before, EntryEnd(last)) else before
  }

  lemma MaxEndLast(es: seq<Entry>, e: Entry)
    ensures MaxEnd(es + [e]) == if e.kind == AVAILABLE then Max(MaxEnd(es), EntryEnd(e)) else MaxEnd(es)
  {
    assert (es + [e])[..|es|] == es;
  }

  lemma {:induction false} MaxEndIsMaximum(es: seq<Entry>)
    ensures forall e :: e in es && e.kind == AVAILABLE ==> EntryEnd(e) <= MaxEnd(es)
    ensures MaxEnd(es) == 0 || exists e :: e in es && e.kind == AVAILABLE && EntryEnd(e) == MaxEnd(es)
  {
    if es != [] {
      var n := |es| - 1;
      assert es == es[..n] + [es[n]];
      MaxEndIsMaximum(es[..n]);
    }
  }

  /** The number of frames managed for memory that ends at `end`. */
  function TotalFor(end: nat): nat {
    Min(end / 4096, MAX_FRAMES)
  }

  predicate Within(p: nat, lo: nat, hi: nat) {
    lo <= p < hi
  }

  /** The frames lo, ..., hi - 1 */
  ghost function Interval(lo: nat, hi: nat): (s: set<nat>)
    ensures forall p :: p in s <==> lo <= p < hi
  {
    set p: nat | p < hi && Within(p, lo, hi)
  }

  lemma {:induction false} IntervalSize(lo: nat, hi: nat)
    ensures |Interval(lo, hi)| == if lo < hi then hi - lo else 0
    decreases hi
  {
    if lo < hi {
      IntervalSize(lo, hi - 1);
      assert Interval(lo, hi) == Interval(lo, hi - 1) + {hi - 1};
    } else {
      assert Interval(lo, hi) == {};
    }
  }

  lemma EmptyInterval(lo: nat, hi: nat)
    requires hi <= lo
    ensures Interval(lo, hi) == {} == Interval(lo, lo)
  {
  }

  lemma IntervalGrows(lo: nat, hi: nat)
    requires lo <= hi
    ensures Interval(lo, lo) == {} && Interval(lo, hi + 1) == Interval(lo, hi) + {hi}
  {
  }

  /** The frames below `total` that the source marks free for one entry. */
  ghost function EntryFrames(e: Entry, total: nat): set<nat> {
    if e.kind == AVAILABLE then Interval(e.addr / 4096, Min(e.addr / 4096 + e.len / 4096, total)) else {}
  }

  ghost function Covered(es: seq<Entry>, total: nat): set<nat> {
    if es == [] then {}
    else Covered(es[..|es| - 1], total) + EntryFrames(es[|es| - 1], total)
  }

  ghost predicate InSomeEntry(p: nat, es: seq<Entry>, total: nat) {
    exists i :: 0 <= i < |es| && p in EntryFrames(es[i], total)
  }

  lemma {:induction false} CoveredIsUnion(es: seq<Entry>, total: nat, p: nat)
    ensures p in Covered(es, total) <==> InSomeEntry(p, es, total)
    ensures p in Covered(es, total) ==> p < total
  {
    if es != [] {
      var n := |es| - 1;
      CoveredIsUnion(es[..n], total, p);
      InSomeLast(p, es, total);
    }
  }

  lemma InSomeLast(p: nat, es: seq<Entry>, total: nat)
    requires es != []
    ensures InSomeEntry(p, es, total) <==>
            InSomeEntry(p, es[..|es| - 1], total) || p in EntryFrames(es[|es| - 1], total)
  {
    var before := es[..|es| - 1];
    if i :| 0 <= i < |before| && p in EntryFrames(before[i], total) {
      assert es[i] == before[i];
    }
    if i :| 0 <= i < |before| && p in EntryFrames(es[i], total) {
      assert es[i] == before[i];
    }
  }

  /** How many times a frame is marked free, summed over the entries. */
  ghost function MarkCount(es: seq<Entry>, total: nat): nat {
    if es == [] then 0
    else MarkCount(es[..|es| - 1], total) + |EntryFrames(es[|es| - 1], total)|
  }

  lemma MarksLast(es: seq<Entry>, e: Entry, total: nat)
    ensures Covered(es + [e], total) == Covered(es, total) + EntryFrames(e, total)
    ensures MarkCount(es + [e], total) == MarkCount(es, total) + |EntryFrames(e, total)|
  {
    assert (es + [e])[..|es|] == es;
  }

  lemma NoEntries(total: nat)
    ensures Covered([], total) == {} && MarkCount([], total) == 0 && MaxEnd([]) == 0
  {
  }

  // The marks are counted once for every entry and every managed frame it contributes.
  lemma {:induction false} MarksArePairs(es: seq<Entry>, total: nat)
    ensures MarkCount(es, total) == |Pairs(es, total)|
  {
    if es == [] {
      assert Pairs(es, total) == {};
    } else {
      hide Pairs, Tagged, EntryFrames;
      var n := |es| - 1;
      MarksArePairs(es[..n], total);
      TaggedSize(n, EntryFrames(es[n], total));
      PairsLast(es, total);
    }
  }

  lemma PairsLast(es: seq<Entry>, total: nat)
    requires es != []
    ensures var n := |es| - 1;
      var before, last := Pairs(es[..n], total), Tagged(n, EntryFrames(es[n], total));
      Pairs(es, total) == before + last && |Pairs(es, total)| == |before| + |last|
  {
    hide EntryFrames;
    var n := |es| - 1;
    var all, before, last := Pairs(es, total), Pairs(es[..n], total), Tagged(n, EntryFrames(es[n], total));
    forall p | p in all ensures p in before + last {
      assert p.0 < n ==> es[..n][p.0] == es[p.0];
    }
    forall p | p in before ensures p in all && p !in last {
      assert es[..n][p.0] == es[p.0];
    }
    assert all == before + last && before !! last;
  }

  /** Every entry by its index, with every managed frame it contributes. */
  ghost function Pairs(es: seq<Entry>, total: nat): set<(nat, nat)> {
    set i: nat, f: nat | Within(i, 0, |es|) && i < |es| && f in EntryFrames(es[i], total) :: (i, f)
  }

  ghost function Tagged(i: nat, s: set<nat>): set<(nat, nat)> {
    set f: nat | f in s :: (i, f)
  }

  lemma {:induction false} TaggedSize(i: nat, s: set<nat>)
    ensures |Tagged(i, s)| == |s|
    decreases |s|
  {
    if s == {} {
      assert Tagged(i, s) == {};
    } else {
      var f :| f in s;
      TaggedSize(i, s - {f});
      assert Tagged(i, s) == Tagged(i, s - {f}) + {(i, f)};
    }
  }

  lemma {:induction false} MarkCountBound(es: seq<Entry>, total: nat)
    ensures MarkCount(es, total) <= |es| * total
  {
    if es != [] {
      var last := es[|es| - 1];
      MarkCountBound(es[..|es| - 1], total);
      IntervalSize(last.addr / 4096, Min(last.addr / 4096 + last.len / 4096, total));
      assert |es| * total == (|es| - 1) * total + total;
    }
  }

  /** No two available entries share a managed frame. */
  ghost predicate FramesDisjoint(es: seq<Entry>, total: nat) {
    forall i, j :: 0 <= i < j < |es| ==> EntryFrames(es[i], total) !! EntryFrames(es[j], total)
  }

  /** No two available entries share a byte. */
  ghost predicate BytesDisjoint(es: seq<Entry>) {
    forall i, j :: 0 <= i < j < |es| && es[i].kind == AVAILABLE && es[j].kind == AVAILABLE ==>
      es[i].addr + es[i].len <= es[j].addr || es[j].addr + es[j].len <= es[i].addr
  }

  // Frames are marked at least once for each covered frame, and exactly once just when no
  // two available entries share a frame.
  lemma {:induction false} MarkCountExact(es: seq<Entry>, total: nat)
    ensures MarkCount(es, total) >= |Covered(es, total)|
    ensures MarkCount(es, total) == |Covered(es, total)| <==> FramesDisjoint(es, total)
  {
    if es != [] {
      var n := |es| - 1;
      MarkCountExact(es[..n], total);
      UnionSize(Covered(es[..n], total), EntryFrames(es[n], total));
      DisjointLast(es, total);
    }
  }

  lemma DisjointLast(es: seq<Entry>, total: nat)
    requires es != []
    ensures var n := |es| - 1;
      FramesDisjoint(es, total) <==>
      FramesDisjoint(es[..n], total) && Covered(es[..n], total) !! EntryFrames(es[n], total)
  {
    var n := |es| - 1;
    if FramesDisjoint(es, total) {
      DisjointPrefix(es, n, total);
      DisjointFromPrefix(es, total);
    }
    if FramesDisjoint(es[..n], total) && Covered(es[..n], total) !! EntryFrames(es[n], total) {
      DisjointExtend(es, total);
    }
  }

  lemma DisjointPrefix(es: seq<Entry>, n: nat, total: nat)
    requires n <= |es| && FramesDisjoint(es, total)
    ensures FramesDisjoint(es[..n], total)
  {
  }

  lemma DisjointFromPrefix(es: seq<Entry>, total: nat)
    requires es != [] && FramesDisjoint(es, total)
    ensures Covered(es[..|es| - 1], total) !! EntryFrames(es[|es| - 1], total)
  {
    var n := |es| - 1;
    var before := es[..n];
    forall p | p in Covered(before, total) ensures p !in EntryFrames(es[n], total) {
      CoveredIsUnion(before, total, p);
      var i :| 0 <= i < n && p in EntryFrames(before[i], total);
      assert EntryFrames(es[i], total) !! EntryFrames(es[n], total);
    }
  }

  lemma DisjointExtend(es: seq<Entry>, total: nat)
    requires es != [] && FramesDisjoint(es[..|es| - 1], total)
    requires Covered(es[..|es| - 1], total) !! EntryFrames(es[|es| - 1], total)
    ensures FramesDisjoint(es, total)
  {
    var n := |es| - 1;
    var before := es[..n];
    forall i, j | 0 <= i < j < |es|
      ensures EntryFrames(es[i], total) !! EntryFrames(es[j], total)
    {
      if j < n {
        assert EntryFrames(before[i], total) !! EntryFrames(before[j], total);
      } else {
        forall p | p in EntryFrames(before[i], total) ensures p in Covered(before, total) {
          CoveredIsUnion(before, total, p);
        }
      }
    }
  }

  lemma UnionSize(a: set<nat>, b: set<nat>)
    ensures |a + b| <= |a| + |b|
    ensures |a + b| == |a| + |b| <==> a !! b
  {
    assert a + b == a + (b - a);
    assert |a + (b - a)| == |a| + |b - a|;
    assert b == (b - a) + (b * a);
    assert |b| == |b - a| + |b * a|;
    if |b * a| == 0 {
      assert b * a == {};
    }
  }

  // floor(a/P) + floor(l/P) <= floor((a+l)/P): regions that share no byte share no frame.
  lemma DisjointBytesDisjointFrames(es: seq<Entry>, total: nat)
    requires BytesDisjoint(es)
    ensures FramesDisjoint(es, total)
  {
    forall i, j | 0 <= i < j < |es|
      ensures EntryFrames(es[i], total) !! EntryFrames(es[j], total)
    {
      FloorSum(es[i].addr, es[i].len);
      FloorSum(es[j].addr, es[j].len);
    }
  }

  lemma FloorSum(a: nat, l: nat)
    ensures a / 4096 + l / 4096 <= (a + l) / 4096
  {
  }

  ghost predicate FrameInside(p: nat, e: Entry) {
    e.addr <= p * 4096 && (p + 1) * 4096 <= e.addr + e.len
  }

  /** An available entry of a page or more whose first frame, between `low` and `total`, starts
      before the entry does. */
  predicate StartsInsidePage(e: Entry, low: nat, total: nat) {
    e.kind == AVAILABLE && e.len >= 4096 && low <= e.addr / 4096 < total && e.addr % 4096 != 0
  }

  // The frames at or above `low` that the entries contribute lie inside their entries exactly
  // when no entry starts inside its first such page.
  lemma FramesInsideIffAligned(es: seq<Entry>, total: nat, low: nat)
    ensures (forall i, f :: 0 <= i < |es| && f in EntryFrames(es[i], total) && low <= f ==> FrameInside(f, es[i]))
            <==> forall i :: 0 <= i < |es| ==> !StartsInsidePage(es[i], low, total)
  {
    hide FrameInside, EntryFrames, StartsInsidePage;
    forall i | 0 <= i < |es|
      ensures (forall f :: f in EntryFrames(es[i], total) && low <= f ==> FrameInside(f, es[i]))
              <==> !StartsInsidePage(es[i], low, total)
    {
      EntryInsideIffAligned(es[i], total, low);
    }
  }

  lemma EntryInsideIffAligned(e: Entry, total: nat, low: nat)
    ensures (forall f :: f in EntryFrames(e, total) && low <= f ==> FrameInside(f, e))
            <==> !StartsInsidePage(e, low, total)
  {
    if StartsInsidePage(e, low, total) {
      var p := e.addr / 4096;
      assert p in EntryFrames(e, total) && !FrameInside(p, e);
    }
  }
}
