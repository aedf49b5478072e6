/**
  What one call promises: kmalloc and kfree conserve bytes and keep the used-bytes statistic,
  and every request's outcome is known from the block list and the free frames.
 */
module HeapProofs {
  import opened Machine
  import opened Frames
  import opened HeapModel

  // ---------- Bytes ----------

  function UsedBytes(blocks: seq<Block>): nat {
    if blocks == [] then 0
    else (if blocks[0].free then 0 else blocks[0].size) + UsedBytes(blocks[1..])
  }

  function FreeBytes(blocks: seq<Block>): nat {
    if blocks == [] then 0
    else (if blocks[0].free then blocks[0].size else 0) + FreeBytes(blocks[1..])
  }

  /** All bytes of the blocks: used, free, and 25 per header. */
  function AllBytes(blocks: seq<Block>): nat {
    UsedBytes(blocks) + FreeBytes(blocks) + 25 * |blocks|
  }

  lemma {:induction false} SumsConcat(a: seq<Block>, b: seq<Block>)
    ensures UsedBytes(a + b) == UsedBytes(a) + UsedBytes(b)
    ensures FreeBytes(a + b) == FreeBytes(a) + FreeBytes(b)
  {
    if a == [] {
      assert a + b == b;
    } else {
      assert (a + b)[1..] == a[1..] + b;
      SumsConcat(a[1..], b);
    }
  }

  lemma SumsReplace(before: seq<Block>, old_: seq<Block>, new_: seq<Block>, after: seq<Block>)
    ensures UsedBytes(before + new_ + after) + UsedBytes(old_) == UsedBytes(before + old_ + after) + UsedBytes(new_)
    ensures FreeBytes(before + new_ + after) + FreeBytes(old_) == FreeBytes(before + old_ + after) + FreeBytes(new_)
  {
    SumsConcat(before + new_, after);
    SumsConcat(before, new_);
    SumsConcat(before + old_, after);
    SumsConcat(before, old_);
  }

  lemma PairSums(b: Block, c: Block)
    ensures UsedBytes([b]) == (if b.free then 0 else b.size) && FreeBytes([b]) == (if b.free then b.size else 0)
    ensures UsedBytes([b, c]) == UsedBytes([b]) + UsedBytes([c])
    ensures FreeBytes([b, c]) == FreeBytes([b]) + FreeBytes([c])
  {
    assert [b, c] == [b] + [c];
    SumsConcat([b], [c]);
  }

  lemma GrantSums(blocks: seq<Block>, i: nat, request: nat)
    requires i < |blocks| && blocks[i].Fits(request)
    ensures var blocks' := Grant(blocks, i, request);
      && i < |blocks'| && !blocks'[i].free
      && UsedBytes(blocks') == UsedBytes(blocks) + blocks'[i].size
      && AllBytes(blocks') == AllBytes(blocks)
  {
    hide UsedBytes, FreeBytes;
    var b := blocks[i];
    assert blocks == blocks[..i] + [b] + blocks[i + 1..];
    var head, rest := Block(b.addr, request, false), Block(b.addr + 25 + request, Max(b.size - request - 25, 0), true);
    PairSums(b, b);
    PairSums(head, rest);
    PairSums(rest, rest);
    PairSums(Block(b.addr, b.size, false), rest);
    SumsReplace(blocks[..i], [b], [head, rest], blocks[i + 1..]);
    SumsReplace(blocks[..i], [b], [Block(b.addr, b.size, false)], blocks[i + 1..]);
  }

  lemma ReleaseSums(h: Heap, i: nat)
    requires i < |h.blocks|
    ensures var blocks' := Release(h, i).blocks;
      && UsedBytes(blocks') == UsedBytes(h.blocks) - (if h.blocks[i].free then 0 else h.blocks[i].size)
      && AllBytes(blocks') == AllBytes(h.blocks)
  {
    hide UsedBytes, FreeBytes;
    var b := h.blocks[i];
    PairSums(b, b);
    if i + 1 < |h.blocks| && h.blocks[i + 1].free {
      var c := h.blocks[i + 1];
      var merged := Block(b.addr, b.size + 25 + c.size, true);
      assert h.blocks == h.blocks[..i] + [b, c] + h.blocks[i + 2..];
      PairSums(b, c);
      PairSums(c, merged);
      PairSums(merged, c);
      SumsReplace(h.blocks[..i], [b, c], [merged], h.blocks[i + 2..]);
    } else {
      assert h.blocks == h.blocks[..i] + [b] + h.blocks[i + 1..];
      PairSums(Block(b.addr, b.size, true), b);
      SumsReplace(h.blocks[..i], [b], [Block(b.addr, b.size, true)], h.blocks[i + 1..]);
    }
  }

  lemma {:induction false} ExpandSums(h: Heap, pages: nat)
    ensures var g := Expand(h, pages).heap;
      && UsedBytes(g.blocks) == UsedBytes(h.blocks)
      && AllBytes(g.blocks) + 4096 * |g.frames| == AllBytes(h.blocks) + 4096 * |h.frames|
    decreases pages
  {
    if pages > 0 && h.frames != {} {
      var fresh_ := Block(Lowest(h.frames) * 4096, 4071, true);
      SumsConcat(h.blocks, [fresh_]);
      PairSums(fresh_, fresh_);
      ExpandSums(TakeFrame(h), pages - 1);
    }
  }

  /** The used-bytes statistic of the source, wrapping as it does. */
  function ReportedUsed(h: Heap): u64 {
    Sub64(h.granted, h.released)
  }

  /** How far the statistic is off. */
  function UsedError(h: Heap): u64 {
    Sub64(ReportedUsed(h), UsedBytes(h.blocks))
  }

  // kmalloc, on success and on failure, moves bytes between used, free and unclaimed frames
  // without losing any, and keeps the used-bytes statistic as right as it was.
  lemma {:induction false} KmallocConserves(h: Heap, n: u64)
    requires Halts(h, n)
    ensures var h' := Kmalloc(h, n).heap;
      && AllBytes(h'.blocks) + 4096 * |h'.frames| == AllBytes(h.blocks) + 4096 * |h.frames|
      && UsedError(h') == UsedError(h)
      && h'.released == h.released
    decreases |h.frames|
  {
    if n != 0 {
      var request := AlignSize(n);
      var i := FirstFit(h.blocks, request);
      if i < |h.blocks| {
        GrantSums(h.blocks, i, request);
        CounterMoves(h.granted, h.released, Grant(h.blocks, i, request)[i].size, UsedBytes(h.blocks));
      } else {
        var pages := PagesNeeded(Add64(request, 25));
        ExpandTakes(h, pages);
        ExpandSums(h, pages);
        AlignCoversIffNoWrap(n);
        if Expand(h, pages).ok {
          KmallocConserves(Expand(h, pages).heap, request);
        }
      }
    }
  }

  lemma CounterMoves(granted: u64, released: u64, size: nat, used: nat)
    ensures Sub64(Sub64(Add64(granted, size), released), used + size) == Sub64(Sub64(granted, released), used)
    ensures Sub64(Sub64(granted, Add64(released, size)), used - size) == Sub64(Sub64(granted, released), used)
  {
    hide Sub64;
    Difference(granted, size, released, 0, used + size);
    Difference(granted, 0, released, size, used - size);
    Difference(granted, 0, released, 0, used);
  }

  lemma Difference(granted: u64, more: nat, released: u64, less: nat, used: int)
    ensures Sub64(Sub64(Add64(granted, more), Add64(released, less)), used)
         == Sub64(granted + more - released - less - used, 0)
    ensures Add64(granted, 0) == granted && Add64(released, 0) == released
  {
    hide Sub64;
    SubWraps(granted + more, Add64(released, less));
    SubWraps(granted + more, released + less);
    SubIsWrap(granted + more, released + less);
    SubWraps(granted + more - (released + less), used);
    SubIsWrap(granted + more - (released + less), used);
  }

  lemma SubIsWrap(a: int, b: int)
    ensures Sub64(a, b) == (a - b) % 0x1_0000_0000_0000_0000
    ensures Sub64(a, b) == Sub64(a - b, 0)
  {
  }

  // kfree conserves bytes too. It keeps the statistic right exactly when the block was live
  // (or has no bytes): freeing a block twice subtracts its size twice.
  lemma ReleaseConserves(h: Heap, i: nat)
    requires i < |h.blocks|
    ensures var h' := Release(h, i);
      && AllBytes(h'.blocks) == AllBytes(h.blocks) && h'.frames == h.frames && h'.granted == h.granted
      && UsedError(h') == Sub64(UsedError(h), if h.blocks[i].free then h.blocks[i].size else 0)
      && (h.blocks[i].size < TWO_64 ==>
            (UsedError(h') == UsedError(h) <==> !h.blocks[i].free || h.blocks[i].size == 0))
  {
    hide Release, UsedBytes, FreeBytes, Sub64;
    ReleaseSums(h, i);
    ReleaseCases(h, i);
    var b := h.blocks[i];
    if b.free {
      DoubleFree(h.granted, h.released, b.size, UsedBytes(h.blocks));
      if b.size < TWO_64 {
        SubChanges(UsedError(h), b.size);
      }
    } else {
      CounterMoves(h.granted, h.released, b.size, UsedBytes(h.blocks));
      SubChanges(UsedError(h), 0);
    }
  }

  lemma DoubleFree(granted: u64, released: u64, size: nat, used: nat)
    ensures Sub64(Sub64(granted, Add64(released, size)), used) == Sub64(Sub64(Sub64(granted, released), used), size)
  {
    Difference(granted, 0, released, size, used);
    Difference(granted, 0, released, 0, used);
    SubIsWrap(granted - released - used, 0);
    SubWraps(granted - released - used, size);
  }

  lemma SubChanges(a: u64, size: nat)
    requires size < TWO_64
    ensures Sub64(a, size) == a <==> size == 0
  {
    if size <= a {
      assert Sub64(a, size) == a - size;
    } else {
      assert Sub64(a, size) == a - size + TWO_64;
    }
  }

  // ---------- Which requests succeed ----------

  // kmalloc grants the first free block in list order that is large enough. It is cut to the
  // aligned request, the rest becoming a free block behind it, exactly when the rest has room
  // for a header and 32 bytes; so at most 56 bytes are granted beyond the request.
  lemma GrantIsFirstFitAndTight(h: Heap, n: u64)
    requires n != 0 && FirstFit(h.blocks, AlignSize(n)) < |h.blocks|
    ensures var i := FirstFit(h.blocks, AlignSize(n));
      var r := Kmalloc(h, n);
      && r.ptr == h.blocks[i].addr + 25
      && h.blocks[i].free && h.blocks[i].size >= AlignSize(n)
      && (forall j :: 0 <= j < i ==>
            (!h.blocks[j].free || h.blocks[j].size < AlignSize(n)) && r.heap.blocks[j] == h.blocks[j])
      && r.heap.blocks[i].addr == h.blocks[i].addr && !r.heap.blocks[i].free
      && AlignSize(n) <= r.heap.blocks[i].size <= AlignSize(n) + 56
      && r.heap.frames == h.frames
    ensures var i := FirstFit(h.blocks, AlignSize(n));
      var b, granted := h.blocks[i], Kmalloc(h, n).heap.blocks;
      if b.size >= AlignSize(n) + 25 + 32 then
        && |granted| == |h.blocks| + 1 && granted[i].size == AlignSize(n)
        && granted[i + 1] == Block(b.addr + 25 + AlignSize(n), b.size - AlignSize(n) - 25, true)
        && granted[i + 2..] == h.blocks[i + 1..]
      else |granted| == |h.blocks| && granted[i].size == b.size && granted[i + 1..] == h.blocks[i + 1..]
  {
  }

  /** No block is free and has `request` bytes. */
  predicate NoneFits(blocks: seq<Block>, request: nat) {
    forall j :: 0 <= j < |blocks| ==> !blocks[j].free || blocks[j].size < request
  }

  lemma NoneFitsExactly(blocks: seq<Block>, request: nat)
    ensures NoneFits(blocks, request) <==> FirstFit(blocks, request) == |blocks|
  {
    var i := FirstFit(blocks, request);
    if i < |blocks| {
      assert blocks[i].Fits(request);
    } else {
      forall j | 0 <= j < |blocks| ensures !blocks[j].free || blocks[j].size < request {
        assert !blocks[j].Fits(request);
      }
    }
  }

  // The granted block holds the request exactly when aligning the request did not wrap.
  lemma GrantCoversRequestIff(h: Heap, n: u64)
    requires n != 0 && FirstFit(h.blocks, AlignSize(n)) < |h.blocks|
    ensures Kmalloc(h, n).heap.blocks[FirstFit(h.blocks, AlignSize(n))].size >= n <==> n <= TWO_64 - 8
  {
    hide AlignSize;
    AlignCoversIffNoWrap(n);
    GrantIsFirstFitAndTight(h, n);
  }

  // Growing does not help a request that is larger than a fresh block.
  lemma {:induction false} NoFitNeedsNewBlock(h: Heap, pages: nat, request: nat)
    requires FirstFit(h.blocks, request) == |h.blocks|
    requires request > 4071 || pages == 0 || h.frames == {}
    ensures var g := Expand(h, pages).heap;
      FirstFit(g.blocks, request) == |g.blocks|
  {
    ExpandTakes(h, pages);
    var g := Expand(h, pages).heap;
    forall j | 0 <= j < |g.blocks| && pages > 0 && h.frames != {} ensures !g.blocks[j].Fits(request) {
      if j < |h.blocks| {
        assert g.blocks[j] == h.blocks[j];
      }
    }
    if pages == 0 || h.frames == {} {
      assert g == h;
    }
  }

  lemma OnePageServes(request: u64)
    requires request <= 4064
    ensures PagesNeeded(Add64(request, 25)) == 1
  {
  }

  // The outcome of every request on which kmalloc returns. It is null exactly for a zero
  // request, or when no block fits and (a) no frame is left, (b) the aligned request is larger
  // than one frame can serve, or (c) the aligned request wrapped around to zero.
  lemma {:induction false} KmallocNullExactly(h: Heap, n: u64)
    requires Halts(h, n)
    ensures var request := AlignSize(n);
      Kmalloc(h, n).ptr == 0 <==>
      n == 0 || (NoneFits(h.blocks, request) && (h.frames == {} || request > 4064 || request == 0))
    decreases |h.frames|
  {
    hide AlignSize, PagesNeeded, Add64, FirstFit, Expand, NoneFits;
    NoneFitsExactly(h.blocks, AlignSize(n));
    var request := AlignSize(n);
    AlignCoversIffNoWrap(n);
    if request <= 4064 {
      OnePageServes(request);
    }
    if n != 0 && FirstFit(h.blocks, request) == |h.blocks| {
      var pages := PagesNeeded(Add64(request, 25));
      ExpandTakes(h, pages);
      var g := Expand(h, pages);
      if 0 < request <= 4064 {
        if g.ok {
          assert g.heap.blocks[|h.blocks|].Fits(request);
        }
      } else if g.ok && request > 4064 {
        NoFitNeedsNewBlock(h, pages, request);
        NoneFitsExactly(g.heap.blocks, request);
        KmallocNullExactly(g.heap, request);
      }
    }
  }

  // A request too large for one frame that no block fits drains the physical memory manager.
  lemma {:induction false} LargeRequestDrains(h: Heap, n: u64)
    requires Halts(h, n) && AlignSize(n) > 4064 && FirstFit(h.blocks, AlignSize(n)) == |h.blocks|
    ensures var r := Kmalloc(h, n);
      r.ptr == 0 && r.heap.frames == {} && |r.heap.blocks| == |h.blocks| + |h.frames|
    decreases |h.frames|
  {
    var request := AlignSize(n);
    AlignCoversIffNoWrap(n);
    var pages := PagesNeeded(Add64(request, 25));
    ExpandTakes(h, pages);
    var g := Expand(h, pages);
    if g.ok {
      NoFitNeedsNewBlock(h, pages, request);
      LargeRequestDrains(g.heap, request);
    }
  }

  // A request one frame can serve takes at most one frame and one retry.
  lemma SmallRequestTakesOneFrame(h: Heap, n: u64)
    requires 0 < AlignSize(n) <= 4064
    ensures Halts(h, n) && HaltsWithin(h, n, 1)
    ensures |h.frames| - 1 <= |Kmalloc(h, n).heap.frames| <= |h.frames|
  {
    var request := AlignSize(n);
    hide AlignSize, PagesNeeded, Add64, FirstFit, Expand;
    AlignCoversIffNoWrap(n);
    ExpandTakes(h, 1);
    OnePageServes(request);
    if FirstFit(h.blocks, request) == |h.blocks| && h.frames != {} {
      var g := Expand(h, 1);
      assert g.heap.blocks[|h.blocks|].Fits(request);
      assert Try(g.heap, request).Done?;
    }
  }

  // Freeing the block just granted restores the block list when the block had been split;
  // otherwise only a merge with a free successor remains.
  lemma MallocThenFree(h: Heap, n: u64)
    requires n != 0 && FirstFit(h.blocks, AlignSize(n)) < |h.blocks|
    ensures var request := AlignSize(n);
      var i := FirstFit(h.blocks, request);
      var b := h.blocks[i];
      var h' := Release(Kmalloc(h, n).heap, i);
      && UsedBytes(h'.blocks) == UsedBytes(h.blocks)
      && (b.size >= request + 57 ==> h'.blocks == h.blocks)
      && (b.size < request + 57 ==>
            h'.blocks == if i + 1 < |h.blocks| && h.blocks[i + 1].free
                         then
                           var merged := Block(b.addr, b.size + 25 + h.blocks[i + 1].size, true);
                           h.blocks[..i] + [merged] + h.blocks[i + 2..]
                         else h.blocks)
  {
    hide UsedBytes, FreeBytes, FirstFit, AlignSize, Grant, Release;
    var request: nat := AlignSize(n);
    var i := FirstFit(h.blocks, request);
    GrantSums(h.blocks, i, request);
    var granted := Kmalloc(h, n).heap;
    assert granted.blocks == Grant(h.blocks, i, request);
    ReleaseSums(granted, i);
    ReleaseDependsOnBlocks(granted, h.(blocks := granted.blocks), i);
    if h.blocks[i].size >= request + 57 {
      ReleaseOfSplit(h, i, request);
    } else {
      ReleaseOfWhole(h, i, request);
    }
  }

  lemma ReleaseDependsOnBlocks(h: Heap, g: Heap, i: nat)
    requires h.blocks == g.blocks && i < |h.blocks|
    ensures Release(h, i).blocks == Release(g, i).blocks
  {
  }

  lemma ReleaseOfSplit(h: Heap, i: nat, request: nat)
    requires i < |h.blocks| && h.blocks[i].free && h.blocks[i].size >= request + 57
    ensures Release(h.(blocks := Grant(h.blocks, i, request)), i).blocks == h.blocks
  {
    var granted := Grant(h.blocks, i, request);
    assert granted[i + 2..] == h.blocks[i + 1..];
    assert granted[..i] == h.blocks[..i];
    assert h.blocks == h.blocks[..i] + [h.blocks[i]] + h.blocks[i + 1..];
  }

  lemma ReleaseOfWhole(h: Heap, i: nat, request: nat)
    requires i < |h.blocks| && h.blocks[i].free && request <= h.blocks[i].size < request + 57
    ensures var b := h.blocks[i];
      Release(h.(blocks := Grant(h.blocks, i, request)), i).blocks ==
      if i + 1 < |h.blocks| && h.blocks[i + 1].free
      then h.blocks[..i] + [Block(b.addr, b.size + 25 + h.blocks[i + 1].size, true)] + h.blocks[i + 2..]
      else h.blocks
  {
    var granted := Grant(h.blocks, i, request);
    assert granted[..i] == h.blocks[..i] && granted[i + 1..] == h.blocks[i + 1..];
    assert h.blocks == h.blocks[..i] + [h.blocks[i]] + h.blocks[i + 1..];
    if i + 1 < |h.blocks| {
      assert granted[i + 2..] == h.blocks[i + 2..];
    }
  }
}
