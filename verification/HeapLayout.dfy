/**
  Where the heap's blocks lie: on every run they are ordered and disjoint, and they stay
  inside the frames taken by the heap on all runs exactly when the frames that were free at
  the start form one interval.
 */
module HeapLayout {
  import opened Machine
  import opened Frames
  import opened HeapModel
  import opened HeapProofs

  // ---------- Order ----------

  ghost predicate Ordered(blocks: seq<Block>) {
    forall i, j :: 0 <= i < j < |blocks| ==> blocks[i].End() <= blocks[j].addr
  }

  ghost predicate Below(blocks: seq<Block>, frames: set<nat>) {
    forall i, f :: 0 <= i < |blocks| && f in frames ==> blocks[i].End() <= f * 4096
  }

  ghost predicate InMemory(blocks: seq<Block>) {
    forall i :: 0 <= i < |blocks| ==> 0x20_0000 <= blocks[i].addr && blocks[i].End() <= 0x4000_0000
  }

  /** The blocks follow each other without overlap, below every frame still free. */
  ghost predicate Placed(h: Heap) {
    Ordered(h.blocks) && Below(h.blocks, h.frames) && InMemory(h.blocks) && Usable(h.frames)
  }

  lemma TakeFramePlaced(h: Heap)
    requires Placed(h) && h.frames != {}
    ensures Placed(TakeFrame(h))
  {
  }

  lemma {:induction false} ExpandPlaced(h: Heap, pages: nat)
    requires Placed(h)
    ensures Placed(Expand(h, pages).heap)
    decreases pages
  {
    if pages > 0 && h.frames != {} {
      TakeFramePlaced(h);
      ExpandPlaced(TakeFrame(h), pages - 1);
    }
  }

  // Blocks within the span of those they replace keep the order.
  lemma ReplaceOrdered(blocks: seq<Block>, i: nat, j: nat, new_: seq<Block>)
    requires Ordered(blocks) && i < j <= |blocks| && new_ != [] && Ordered(new_)
    requires blocks[i].addr <= new_[0].addr && new_[|new_| - 1].End() <= blocks[j - 1].End()
    ensures Ordered(blocks[..i] + new_ + blocks[j..])
    ensures forall k :: 0 <= k < |new_| ==> blocks[i].addr <= new_[k].addr && new_[k].End() <= blocks[j - 1].End()
  {
    var n, d := |new_|, i + |new_|;
    var g := blocks[..i] + new_ + blocks[j..];
    forall k | 0 <= k < n ensures blocks[i].addr <= new_[k].addr && new_[k].End() <= blocks[j - 1].End() {
      assert k > 0 ==> new_[0].End() <= new_[k].addr;
      assert k < n - 1 ==> new_[k].End() <= new_[n - 1].addr;
    }
    forall k, l | 0 <= k < l < |g| ensures g[k].End() <= g[l].addr {
      if k < i {
        assert g[k] == blocks[k] && g[k].End() <= blocks[i].addr;
        if l < i {
          assert g[l] == blocks[l];
        } else if l < d {
          assert g[l] == new_[l - i];
        } else {
          assert g[l] == blocks[l - d + j];
        }
      } else if k < d {
        assert g[k] == new_[k - i];
        if l < d {
          assert g[l] == new_[l - i];
        } else {
          assert g[l] == blocks[l - d + j] && blocks[j - 1].End() <= g[l].addr;
        }
      } else {
        assert g[k] == blocks[k - d + j] && g[l] == blocks[l - d + j];
      }
    }
  }

  lemma ReplacePlaced(h: Heap, i: nat, j: nat, new_: seq<Block>, g: Heap)
    requires Placed(h) && i < j <= |h.blocks| && new_ != [] && Ordered(new_)
    requires h.blocks[i].addr <= new_[0].addr && new_[|new_| - 1].End() <= h.blocks[j - 1].End()
    requires g.blocks == h.blocks[..i] + new_ + h.blocks[j..] && g.frames == h.frames
    ensures Placed(g)
  {
    hide Ordered;
    var d := i + |new_|;
    ReplaceOrdered(h.blocks, i, j, new_);
    forall k | 0 <= k < |g.blocks|
      ensures exists l :: 0 <= l < |h.blocks| && g.blocks[k].End() <= h.blocks[l].End()
      ensures 0x20_0000 <= g.blocks[k].addr
    {
      if k < i {
        assert g.blocks[k] == h.blocks[k];
      } else if k < d {
        assert g.blocks[k] == new_[k - i];
        assert g.blocks[k].End() <= h.blocks[j - 1].End();
      } else {
        assert g.blocks[k] == h.blocks[k - d + j];
      }
    }
  }

  lemma GrantPlaced(h: Heap, i: nat, request: nat, g: Heap)
    requires Placed(h) && i < |h.blocks| && h.blocks[i].Fits(request)
    requires g.blocks == Grant(h.blocks, i, request) && g.frames == h.frames
    ensures Placed(g)
  {
    hide Placed;
    var b := h.blocks[i];
    if b.size >= request + 57 {
      var parts := [Block(b.addr, request, false), Block(b.addr + 25 + request, b.size - request - 25, true)];
      ReplacePlaced(h, i, i + 1, parts, g);
    } else {
      ReplacePlaced(h, i, i + 1, [Block(b.addr, b.size, false)], g);
    }
  }

  lemma {:induction false} KmallocPlaced(h: Heap, n: u64)
    requires Placed(h) && Halts(h, n)
    ensures Placed(Kmalloc(h, n).heap)
    decreases |h.frames|
  {
    hide Placed, Grant, Expand;
    if n != 0 {
      var request := AlignSize(n);
      var i := FirstFit(h.blocks, request);
      if i < |h.blocks| {
        GrantPlaced(h, i, request, Kmalloc(h, n).heap);
      } else {
        var pages := PagesNeeded(Add64(request, 25));
        ExpandPlaced(h, pages);
        ExpandTakes(h, pages);
        AlignCoversIffNoWrap(n);
        if Expand(h, pages).ok {
          KmallocPlaced(Expand(h, pages).heap, request);
        }
      }
    }
  }

  // Even a merge of blocks that are not adjacent keeps the order: the merged block ends no
  // later than its successor did.
  lemma ReleasePlaced(h: Heap, i: nat)
    requires Placed(h) && i < |h.blocks|
    ensures Placed(Release(h, i))
  {
    var b := h.blocks[i];
    if i + 1 < |h.blocks| && h.blocks[i + 1].free {
      var c := h.blocks[i + 1];
      assert b.End() <= c.addr;
      ReplacePlaced(h, i, i + 2, [Block(b.addr, b.size + 25 + c.size, true)], Release(h, i));
    } else {
      ReplacePlaced(h, i, i + 1, [Block(b.addr, b.size, true)], Release(h, i));
    }
  }

  // ---------- Runs ----------

  datatype Op = Malloc(n: u64) | Free(ptr: nat)

  /** The index of the block whose payload starts at `ptr`, or the number of blocks. */
  function Find(blocks: seq<Block>, ptr: nat): (i: nat)
    ensures i <= |blocks|
    ensures forall j :: 0 <= j < i ==> blocks[j].addr + 25 != ptr
    ensures i < |blocks| ==> blocks[i].addr + 25 == ptr
  {
    if blocks == [] then 0
    else if blocks[0].addr + 25 == ptr then 0
    else 1 + Find(blocks[1..], ptr)
  }

  /** What the kernel's code may do: requests that return, and frees of live or null pointers. */
  ghost predicate Allowed(h: Heap, op: Op) {
    match op
    case Malloc(n) => Halts(h, n)
    case Free(ptr) => ptr == 0 || (var i := Find(h.blocks, ptr); i < |h.blocks| && !h.blocks[i].free)
  }

  ghost function Apply(h: Heap, op: Op): Heap
    requires Allowed(h, op)
  {
    match op
    case Malloc(n) => Kmalloc(h, n).heap
    case Free(ptr) => if ptr == 0 then h else Release(h, Find(h.blocks, ptr))
  }

  ghost predicate RunAllowed(h: Heap, ops: seq<Op>)
    decreases |ops|
  {
    ops == [] || (Allowed(h, ops[0]) && RunAllowed(Apply(h, ops[0]), ops[1..]))
  }

  ghost function Run(h: Heap, ops: seq<Op>): Heap
    requires RunAllowed(h, ops)
    decreases |ops|
  {
    if ops == [] then h else Run(Apply(h, ops[0]), ops[1..])
  }

  /** The heap after a successful initialisation from the free frames `frames`. */
  ghost function Start(frames: set<nat>): Heap
    requires frames != {}
  {
    TakeFrame(Heap([], frames, 0, 0))
  }

  lemma {:induction false} RunConcat(h: Heap, first: seq<Op>, then_: seq<Op>)
    requires RunAllowed(h, first) && RunAllowed(Run(h, first), then_)
    ensures RunAllowed(h, first + then_) && Run(h, first + then_) == Run(Run(h, first), then_)
    decreases |first|
  {
    if first == [] {
      assert first + then_ == then_;
    } else {
      RunConcat(Apply(h, first[0]), first[1..], then_);
      assert (first + then_)[1..] == first[1..] + then_;
    }
  }

  lemma StepKeepsInvariants(h: Heap, op: Op)
    requires Placed(h) && Allowed(h, op)
    ensures var h' := Apply(h, op);
      && Placed(h') && h'.frames <= h.frames && |h'.blocks| >= |h.blocks| - 1 && (h.blocks != [] ==> h'.blocks != [])
      && UsedError(h') == UsedError(h)
      && AllBytes(h'.blocks) + 4096 * |h'.frames| == AllBytes(h.blocks) + 4096 * |h.frames|
  {
    hide Placed, UsedError, AllBytes;
    match op
    case Malloc(n) =>
      KmallocPlaced(h, n);
      KmallocConserves(h, n);
      KmallocGrows(h, n);
    case Free(ptr) =>
      if ptr != 0 {
        var i := Find(h.blocks, ptr);
        ReleasePlaced(h, i);
        ReleaseConserves(h, i);
        SubZero(UsedError(h));
      }
  }

  lemma SubZero(a: u64)
    ensures Sub64(a, 0) == a
  {
  }

  lemma {:induction false} KmallocGrows(h: Heap, n: u64)
    requires Halts(h, n)
    ensures var h' := Kmalloc(h, n).heap; h'.frames <= h.frames && |h'.blocks| >= |h.blocks|
    decreases |h.frames|
  {
    if n != 0 && FirstFit(h.blocks, AlignSize(n)) == |h.blocks| {
      var pages := PagesNeeded(Add64(AlignSize(n), 25));
      ExpandTakes(h, pages);
      AlignCoversIffNoWrap(n);
      if Expand(h, pages).ok {
        KmallocGrows(Expand(h, pages).heap, AlignSize(n));
      }
    }
  }

  // For every run, whatever frames were free at the start: the blocks are ordered and
  // disjoint, the reported used bytes are the bytes of the live blocks, and used bytes, free
  // bytes and headers add up to the frames taken.
  lemma {:induction false} EveryRunIsConsistent(frames: set<nat>, ops: seq<Op>)
    requires frames != {} && Usable(frames) && RunAllowed(Start(frames), ops)
    ensures var h := Run(Start(frames), ops);
      && Placed(h) && h.blocks != [] && h.frames <= frames
      && UsedBytes(h.blocks) + FreeBytes(h.blocks) + 25 * |h.blocks| == 4096 * |frames - h.frames|
      && ReportedUsed(h) == UsedBytes(h.blocks)
  {
    hide Placed, UsedBytes, FreeBytes, Start, ReportedUsed;
    StartIsConsistent(frames);
    RunKeepsInvariants(Start(frames), ops);
    var h := Run(Start(frames), ops);
    assert frames == (frames - h.frames) + h.frames;
    assert |frames| == |frames - h.frames| + |h.frames|;
    FewFrames(frames);
    RightWhenNoError(ReportedUsed(h), UsedBytes(h.blocks));
  }

  lemma StartIsConsistent(frames: set<nat>)
    requires frames != {} && Usable(frames)
    ensures var h := Start(frames);
      && Placed(h) && h.blocks == [Block(Lowest(frames) * 4096, 4071, true)]
      && h.frames == frames - {Lowest(frames)}
      && UsedError(h) == 0
      && AllBytes(h.blocks) + 4096 * |h.frames| == 4096 * |frames|
  {
    var b := Block(Lowest(frames) * 4096, 4071, true);
    PairSums(b, b);
    TakeFramePlaced(Heap([], frames, 0, 0));
  }

  lemma RightWhenNoError(reported: u64, used: nat)
    requires Sub64(reported, used) == 0 && used < TWO_64
    ensures reported == used
  {
  }

  // Ordered blocks below `top` have no more bytes than fit there.
  lemma {:induction false} OrderedBytes(blocks: seq<Block>, top: nat)
    requires Ordered(blocks) && forall i :: 0 <= i < |blocks| ==> blocks[i].End() <= top
    ensures AllBytes(blocks) <= if blocks == [] then 0 else top - blocks[0].addr
  {
    if |blocks| == 1 {
      PairSums(blocks[0], blocks[0]);
      assert blocks == [blocks[0]];
    } else if blocks != [] {
      assert blocks[0].End() <= blocks[1].addr;
      OrderedBytes(blocks[1..], top);
    }
  }

  lemma FewFrames(frames: set<nat>)
    requires Usable(frames)
    ensures |frames| <= MAX_FRAMES
  {
    assert frames <= Interval(0, MAX_FRAMES);
    IntervalSize(0, MAX_FRAMES);
    assert Interval(0, MAX_FRAMES) == frames + (Interval(0, MAX_FRAMES) - frames);
  }

  lemma {:induction false} RunKeepsInvariants(h: Heap, ops: seq<Op>)
    requires Placed(h) && h.blocks != [] && RunAllowed(h, ops)
    ensures var h' := Run(h, ops);
      && Placed(h') && h'.blocks != [] && h'.frames <= h.frames
      && UsedError(h') == UsedError(h)
      && AllBytes(h'.blocks) + 4096 * |h'.frames| == AllBytes(h.blocks) + 4096 * |h.frames|
    decreases |ops|
  {
    if ops != [] {
      StepKeepsInvariants(h, ops[0]);
      RunKeepsInvariants(Apply(h, ops[0]), ops[1..]);
    }
  }

  // On blocks that lie in memory, which request kmalloc never returns from is known beforehand:
  // no block is large enough for one whose page count wraps to zero.
  lemma HaltsOutsideWindow(h: Heap, n: u64)
    requires Placed(h)
    ensures Halts(h, n) <==> !(TWO_64 - 4127 <= n <= TWO_64 - 32)
  {
    hide AlignSize, PagesNeeded, Add64, FirstFit, Ordered, Below, Usable;
    ExpansionIsEmptyIff(n);
    AlignCoversIffNoWrap(n);
    var i := FirstFit(h.blocks, AlignSize(n));
    if i < |h.blocks| {
      assert h.blocks[i].End() <= 0x4000_0000;
    }
  }

  // ---------- Tiling ----------

  ghost predicate Contiguous(blocks: seq<Block>) {
    forall i, j :: 0 <= i && j == i + 1 && j < |blocks| ==> blocks[i].End() == blocks[j].addr
  }

  /** The first frame that is not below the end of the last block. */
  ghost function Frontier(h: Heap): nat
    requires h.blocks != []
  {
    h.blocks[|h.blocks| - 1].End() / 4096
  }

  /** The blocks tile the interval of frames from the lowest initial frame to the frontier,
      which are exactly the frames taken. */
  ghost predicate Tiles(h: Heap, initial: set<nat>) {
    && h.blocks != [] && initial != {}
    && Contiguous(h.blocks)
    && h.blocks[0].addr == Lowest(initial) * 4096
    && h.blocks[|h.blocks| - 1].End() == Frontier(h) * 4096
    && Frontier(h) > 0 && Frontier(h) - 1 in initial
    && forall f :: f in h.frames <==> f in initial && Frontier(h) <= f
  }

  lemma TakeFrameTiles(h: Heap, initial: set<nat>)
    requires IsInterval(initial) && Tiles(h, initial) && h.frames != {}
    ensures Tiles(TakeFrame(h), initial)
  {
    var e := Frontier(h);
    var p := Lowest(h.frames);
    assert e - 1 < e <= p && e - 1 in initial && p in initial;
    assert e in initial && e in h.frames;
    var g := TakeFrame(h);
    assert g.blocks[|g.blocks| - 1].End() == (e + 1) * 4096;
    assert Frontier(g) == e + 1;
  }

  lemma {:induction false} ExpandTiles(h: Heap, initial: set<nat>, pages: nat)
    requires IsInterval(initial) && Tiles(h, initial)
    ensures Tiles(Expand(h, pages).heap, initial)
    decreases pages
  {
    if pages > 0 && h.frames != {} {
      TakeFrameTiles(h, initial);
      ExpandTiles(TakeFrame(h), initial, pages - 1);
    }
  }

  /** The same span of memory under a changed block list. */
  lemma SameSpanTiles(h: Heap, g: Heap, initial: set<nat>)
    requires Tiles(h, initial) && g.frames == h.frames && g.blocks != [] && Contiguous(g.blocks)
    requires g.blocks[0].addr == h.blocks[0].addr
    requires g.blocks[|g.blocks| - 1].End() == h.blocks[|h.blocks| - 1].End()
    ensures Tiles(g, initial)
  {
  }

  lemma ReplaceKeepsSpan(blocks: seq<Block>, i: nat, j: nat, new_: seq<Block>)
    requires Contiguous(blocks) && i < j <= |blocks| && new_ != [] && Contiguous(new_)
    requires new_[0].addr == blocks[i].addr && new_[|new_| - 1].End() == blocks[j - 1].End()
    ensures var g := blocks[..i] + new_ + blocks[j..];
      && Contiguous(g) && g[0].addr == blocks[0].addr && g[|g| - 1].End() == blocks[|blocks| - 1].End()
  {
    var d := i + |new_|;
    var g := blocks[..i] + new_ + blocks[j..];
    forall k, l | 0 <= k && l == k + 1 && l < |g| ensures g[k].End() == g[l].addr {
      if l < i {
        assert g[k] == blocks[k] && g[l] == blocks[l];
      } else if l == i {
        assert g[k] == blocks[k] && g[l] == new_[0];
      } else if l < d {
        assert g[k] == new_[k - i] && g[l] == new_[l - i];
      } else if l == d {
        assert g[k] == new_[|new_| - 1] && g[l] == blocks[j];
      } else {
        assert g[k] == blocks[k - d + j] && g[l] == blocks[l - d + j];
      }
    }
    if j == |blocks| {
      assert g[|g| - 1] == new_[|new_| - 1];
    } else {
      assert g[|g| - 1] == blocks[|blocks| - 1];
    }
  }

  lemma GrantKeepsSpan(blocks: seq<Block>, i: nat, request: nat)
    requires Contiguous(blocks) && i < |blocks| && blocks[i].Fits(request)
    ensures var blocks' := Grant(blocks, i, request);
      && blocks' != [] && Contiguous(blocks') && blocks'[0].addr == blocks[0].addr
      && blocks'[|blocks'| - 1].End() == blocks[|blocks| - 1].End()
  {
    hide Contiguous;
    var b := blocks[i];
    var parts := if b.size >= request + 57
      then [Block(b.addr, request, false), Block(b.addr + 25 + request, b.size - request - 25, true)]
      else [Block(b.addr, b.size, false)];
    PartsContiguous(parts);
    ReplaceKeepsSpan(blocks, i, i + 1, parts);
  }

  lemma PartsContiguous(parts: seq<Block>)
    requires |parts| == 1 || (|parts| == 2 && parts[0].End() == parts[1].addr)
    ensures Contiguous(parts)
  {
  }

  lemma ReleaseKeepsSpan(h: Heap, i: nat)
    requires Contiguous(h.blocks) && i < |h.blocks|
    ensures var blocks' := Release(h, i).blocks;
      && blocks' != [] && Contiguous(blocks') && blocks'[0].addr == h.blocks[0].addr
      && blocks'[|blocks'| - 1].End() == h.blocks[|h.blocks| - 1].End()
  {
    assert i + 1 < |h.blocks| ==> h.blocks[i].End() == h.blocks[i + 1].addr;
    hide Contiguous, Release;
    var b := h.blocks[i];
    var j, parts := i + 1, [Block(b.addr, b.size, true)];
    if i + 1 < |h.blocks| && h.blocks[i + 1].free {
      j, parts := i + 2, [Block(b.addr, b.size + 25 + h.blocks[i + 1].size, true)];
    }
    ReleasedBlocks(h, i);
    PartsContiguous(parts);
    ReplaceKeepsSpan(h.blocks, i, j, parts);
  }

  lemma ReleasedBlocks(h: Heap, i: nat)
    requires i < |h.blocks|
    ensures var b := h.blocks[i];
      Release(h, i).blocks ==
      if i + 1 < |h.blocks| && h.blocks[i + 1].free
      then h.blocks[..i] + [Block(b.addr, b.size + 25 + h.blocks[i + 1].size, true)] + h.blocks[i + 2..]
      else h.blocks[..i] + [Block(b.addr, b.size, true)] + h.blocks[i + 1..]
  {
  }

  lemma {:induction false} KmallocTiles(h: Heap, initial: set<nat>, n: u64)
    requires IsInterval(initial) && Tiles(h, initial) && Halts(h, n)
    ensures Tiles(Kmalloc(h, n).heap, initial)
    decreases |h.frames|
  {
    hide Tiles, Grant, Expand, IsInterval;
    if n != 0 {
      var request := AlignSize(n);
      var i := FirstFit(h.blocks, request);
      if i < |h.blocks| {
        GrantTiles(h, Kmalloc(h, n).heap, initial, i, request);
      } else {
        var pages := PagesNeeded(Add64(request, 25));
        ExpandTiles(h, initial, pages);
        ExpandTakes(h, pages);
        AlignCoversIffNoWrap(n);
        if Expand(h, pages).ok {
          KmallocTiles(Expand(h, pages).heap, initial, request);
        }
      }
    }
  }

  lemma GrantTiles(h: Heap, g: Heap, initial: set<nat>, i: nat, request: nat)
    requires Tiles(h, initial) && i < |h.blocks| && h.blocks[i].Fits(request)
    requires g.blocks == Grant(h.blocks, i, request) && g.frames == h.frames
    ensures Tiles(g, initial)
  {
    hide Grant;
    GrantKeepsSpan(h.blocks, i, request);
    SameSpanTiles(h, g, initial);
  }

  lemma {:induction false} RunTiles(h: Heap, initial: set<nat>, ops: seq<Op>)
    requires IsInterval(initial) && Tiles(h, initial) && RunAllowed(h, ops)
    ensures Tiles(Run(h, ops), initial)
    decreases |ops|
  {
    hide Tiles, IsInterval;
    if ops != [] {
      var g := Apply(h, ops[0]);
      match ops[0] {
        case Malloc(n) => KmallocTiles(h, initial, n);
        case Free(ptr) =>
          if ptr != 0 {
            ReleaseTiles(h, initial, Find(h.blocks, ptr));
          }
      }
      RunTiles(g, initial, ops[1..]);
    }
  }

  lemma ReleaseTiles(h: Heap, initial: set<nat>, i: nat)
    requires Tiles(h, initial) && i < |h.blocks|
    ensures Tiles(Release(h, i), initial)
  {
    hide Release;
    ReleaseKeepsSpan(h, i);
    ReleaseCases(h, i);
    SameSpanTiles(h, Release(h, i), initial);
  }

  // The theorem of the composed kernel: when the frames that are free at the start form one
  // interval, then on every run the blocks tile exactly the frames the heap has taken.
  lemma EveryRunTiles(initial: set<nat>, ops: seq<Op>)
    requires initial != {} && IsInterval(initial) && RunAllowed(Start(initial), ops)
    ensures Tiles(Run(Start(initial), ops), initial)
  {
    var p := Lowest(initial);
    var h := Start(initial);
    assert h.blocks == [Block(p * 4096, 4071, true)];
    assert Frontier(h) == p + 1;
    RunTiles(h, initial, ops);
  }

  // ---------- Soundness exactly for intervals ----------

  ghost predicate ByteIn(x: nat, frames: set<nat>) {
    x / 4096 in frames
  }

  /** Every byte of every block lies in a frame that the heap has taken. */
  ghost predicate Owned(h: Heap, initial: set<nat>) {
    forall i, x :: 0 <= i < |h.blocks| && h.blocks[i].addr <= x < h.blocks[i].End() ==>
      ByteIn(x, initial - h.frames)
  }

  lemma TilesOwned(h: Heap, initial: set<nat>)
    requires IsInterval(initial) && Tiles(h, initial) && Ordered(h.blocks)
    ensures Owned(h, initial)
  {
    var e := Frontier(h);
    forall i, x | 0 <= i < |h.blocks| && h.blocks[i].addr <= x < h.blocks[i].End()
      ensures ByteIn(x, initial - h.frames)
    {
      assert h.blocks[0].addr <= h.blocks[i].addr;
      assert h.blocks[i].End() <= h.blocks[|h.blocks| - 1].End();
      var f := x / 4096;
      assert Lowest(initial) <= f <= e - 1;
      assert f in initial;
    }
  }

  /** On every run every block stays inside the taken frames. */
  ghost predicate Sound(initial: set<nat>)
    requires initial != {}
  {
    forall ops :: RunAllowed(Start(initial), ops) ==> Owned(Run(Start(initial), ops), initial)
  }

  /** Every block is live and as large as a frame, the last one in frame `last`. */
  ghost predicate Filled(h: Heap, last: nat) {
    && h.blocks != [] && h.blocks[|h.blocks| - 1] == Block(last * 4096, 4071, false)
    && forall i :: 0 <= i < |h.blocks| ==> !h.blocks[i].free
  }

  lemma FillOne(h: Heap, last: nat)
    requires Filled(h, last) && h.frames != {}
    ensures var p := Lowest(h.frames);
      var h' := Kmalloc(h, 4064).heap;
      && Halts(h, 4064) && Filled(h', p) && h'.frames == h.frames - {p}
      && h'.blocks == h.blocks + [Block(p * 4096, 4071, false)]
  {
    var g := TakeFrame(h);
    assert AlignSize(4064) == 4064;
    OnePageServes(4064);
    assert FirstFit(h.blocks, 4064) == |h.blocks|;
    assert Expand(h, 1) == Growth(g, true) by {
      assert Expand(g, 0) == Growth(g, true);
    }
    assert forall j :: 0 <= j < |h.blocks| ==> g.blocks[j] == h.blocks[j];
    assert g.blocks[|h.blocks|].Fits(4064);
    assert Try(h, 4064) == Retry(g, 4064);
    assert Kmalloc(h, 4064) == Kmalloc(g, 4064);
  }

  // From a filled heap, one-frame requests fill every frame up to `f`.
  lemma {:induction false} FillTo(h: Heap, last: nat, f: nat) returns (ops: seq<Op>)
    requires Filled(h, last) && f in h.frames
    ensures RunAllowed(h, ops) && Filled(Run(h, ops), f)
    ensures forall q :: q in Run(h, ops).frames <==> q in h.frames && f < q
    decreases |h.frames|
  {
    FillOne(h, last);
    var p := Lowest(h.frames);
    var g := Kmalloc(h, 4064).heap;
    if p == f {
      ops := [Malloc(4064)];
      assert ops[1..] == [];
      assert Run(h, ops) == g;
    } else {
      var rest := FillTo(g, p, f);
      ops := [Malloc(4064)] + rest;
      assert ops[1..] == rest;
    }
  }

  /** `f` and `g` are free, neighbours in the set, but not adjacent frames. */
  ghost predicate Gap(frames: set<nat>, f: nat, g: nat) {
    f in frames && g in frames && f + 1 < g && forall q :: q in frames ==> q <= f || g <= q
  }

  lemma GapExists(frames: set<nat>) returns (f: nat, g: nat)
    requires !IsInterval(frames)
    ensures Gap(frames, f, g)
  {
    var x, y, z :| x in frames && z in frames && x < y < z && y !in frames;
    var above := set q | q in frames && y < q;
    var below := set q | q in frames && q < y;
    assert x in below && z in above;
    g := Lowest(above);
    f := HighestOf(below);
    forall q | q in frames ensures q <= f || g <= q {
      assert q in below || q in above;
    }
  }

  lemma {:induction false} HighestOf(s: set<nat>) returns (p: nat)
    requires s != {}
    ensures p in s && forall q :: q in s ==> q <= p
    decreases |s|
  {
    p :| p in s;
    var rest := s - {p};
    assert s == rest + {p};
    if rest != {} {
      var q := HighestOf(rest);
      p := Max(p, q);
    }
  }

  // With a gap, a run exists that merges two blocks across it.
  lemma GapLosesOwnership(initial: set<nat>, f: nat, g: nat) returns (ops: seq<Op>)
    requires Usable(initial) && Gap(initial, f, g)
    ensures RunAllowed(Start(initial), ops) && !Owned(Run(Start(initial), ops), initial)
  {
    hide Start, Placed, UsedError, AllBytes, FirstFit, Expand, Kmalloc;
    var h0 := Start(initial);
    StartIsConsistent(initial);
    var fill := FillFirst(initial, Lowest(initial), f);
    var h1 := Run(h0, fill);
    RunKeepsInvariants(h0, fill);
    FillOne(h1, f);
    assert g in h1.frames;
    assert Lowest(h1.frames) == g;
    var frees := MergeAcrossGap(h1, f, g);
    RunConcat(h0, fill, frees);
    ops := fill + frees;
    NotOwned(Run(h1, frees), |h1.blocks| - 1, f, initial);
  }

  lemma NotOwned(h: Heap, i: nat, f: nat, initial: set<nat>)
    requires i < |h.blocks| && h.blocks[i] == Block(f * 4096, 8167, true) && f + 1 !in initial
    ensures !Owned(h, initial)
  {
    var x := (f + 1) * 4096;
    assert h.blocks[i].addr <= x < h.blocks[i].End();
    assert x / 4096 == f + 1;
    assert !ByteIn(x, initial - h.frames);
  }

  // The heap fresh from initialisation, filled up to frame `f`.
  lemma FillFirst(initial: set<nat>, p: nat, f: nat) returns (ops: seq<Op>)
    requires initial != {} && Usable(initial) && p == Lowest(initial) && f in initial
    ensures RunAllowed(Start(initial), ops) && Filled(Run(Start(initial), ops), f)
    ensures forall q :: q in Run(Start(initial), ops).frames <==> q in initial && f < q
  {
    var h := Start(initial);
    var b := Block(p * 4096, 4071, true);
    StartIsConsistent(initial);
    assert AlignSize(4064) == 4064;
    KmallocFits(h, 4064, 0);
    hide FirstFit, Kmalloc;
    var g := Kmalloc(h, 4064).heap;
    assert g.blocks == [Block(p * 4096, 4071, false)];
    if p == f {
      ops := [Malloc(4064)];
      assert ops[1..] == [];
      assert Run(h, ops) == g;
    } else {
      var rest := FillTo(g, p, f);
      ops := [Malloc(4064)] + rest;
      assert ops[1..] == rest;
    }
  }

  lemma MergeAcrossGap(h1: Heap, f: nat, g: nat) returns (frees: seq<Op>)
    requires Filled(h1, f) && Placed(h1) && h1.frames != {} && g == Lowest(h1.frames)
    ensures RunAllowed(h1, frees)
    ensures var h4 := Run(h1, frees);
      |h4.blocks| == |h1.blocks| && h4.blocks[|h1.blocks| - 1] == Block(f * 4096, 8167, true)
  {
    hide FirstFit, Expand, Kmalloc, Placed;
    FillOne(h1, f);
    KmallocPlaced(h1, 4064);
    var h2 := Apply(h1, Malloc(4064));
    FreeLastTwo(h2, |h1.blocks|, f, g);
    RunThree(h1, Malloc(4064), Free(g * 4096 + 25), Free(f * 4096 + 25));
    frees := [Malloc(4064), Free(g * 4096 + 25), Free(f * 4096 + 25)];
  }

  lemma FreeLastTwo(h: Heap, n: nat, f: nat, g: nat)
    requires Placed(h) && n > 0 && |h.blocks| == n + 1
    requires h.blocks[n - 1] == Block(f * 4096, 4071, false) && h.blocks[n] == Block(g * 4096, 4071, false)
    ensures Allowed(h, Free(g * 4096 + 25))
    ensures var h3 := Apply(h, Free(g * 4096 + 25));
      Allowed(h3, Free(f * 4096 + 25)) &&
      var h4 := Apply(h3, Free(f * 4096 + 25));
      |h4.blocks| == n && h4.blocks[n - 1] == Block(f * 4096, 8167, true)
  {
    hide Placed, Find;
    FindPlaced(h, n);
    var h3 := Release(h, n);
    ReleasePlaced(h, n);
    assert h3.blocks == h.blocks[..n] + [Block(g * 4096, 4071, true)];
    assert h3.blocks[n - 1] == h.blocks[n - 1];
    FindPlaced(h3, n - 1);
  }

  lemma RunThree(h: Heap, a: Op, b: Op, c: Op)
    requires Allowed(h, a) && Allowed(Apply(h, a), b) && Allowed(Apply(Apply(h, a), b), c)
    ensures RunAllowed(h, [a, b, c]) && Run(h, [a, b, c]) == Apply(Apply(Apply(h, a), b), c)
  {
    hide Allowed, Apply;
    var ops := [a, b, c];
    assert ops[1..] == [b, c] && [b, c][1..] == [c] && [c][1..] == [];
    var h2 := Apply(Apply(h, a), b);
    assert RunAllowed(h2, [c]) && Run(h2, [c]) == Apply(h2, c);
    assert RunAllowed(Apply(h, a), [b, c]) && Run(Apply(h, a), [b, c]) == Apply(h2, c);
  }

  // Payload pointers identify blocks.
  lemma FindPlaced(h: Heap, i: nat)
    requires Placed(h) && i < |h.blocks|
    ensures Find(h.blocks, h.blocks[i].addr + 25) == i
  {
    forall j | 0 <= j < i ensures h.blocks[j].addr < h.blocks[i].addr {
      assert h.blocks[j].End() <= h.blocks[i].addr;
    }
  }

  // The heap stays inside its own frames on every run exactly when the frames free at the
  // start form one interval: kfree merges list neighbours without looking at addresses.
  lemma SoundExactlyForIntervals(initial: set<nat>)
    requires initial != {} && Usable(initial)
    ensures Sound(initial) <==> IsInterval(initial)
  {
    if IsInterval(initial) {
      forall ops | RunAllowed(Start(initial), ops) ensures Owned(Run(Start(initial), ops), initial) {
        EveryRunTiles(initial, ops);
        EveryRunIsConsistent(initial, ops);
        TilesOwned(Run(Start(initial), ops), initial);
      }
    } else {
      var f, g := GapExists(initial);
      var ops := GapLosesOwnership(initial, f, g);
    }
  }
}
