/**
  The kernel heap on values: the block list in list order, the frames the heap can still
  take from the physical memory manager, and the two cumulative byte counters.
 */
module HeapModel {
  import opened Machine
  import opened Frames

  // A packed block header takes 25 bytes, so a frame holds a block of 4071 bytes, which serves
  // aligned requests of up to 4064 bytes.

  datatype Block = Block(addr: nat, size: nat, free: bool) {
    function End(): nat {
      addr + 25 + size
    }

    predicate Fits(request: nat) {
      free && size >= request
    }
  }

  datatype Heap = Heap(blocks: seq<Block>, frames: set<nat>, granted: u64, released: u64)

  // ---------- Sizes in 64-bit arithmetic ----------

  function AlignSize(n: u64): u64 {
    var padded := Add64(n, 7);
    padded - padded % 8
  }

  // The source aligns with a mask: (size + 7) & ~7ULL.
  lemma AlignIsMask(n: u64)
    ensures AlignSize(n) == And(Add64(n, 7), 0xFFFF_FFFF_FFFF_FFF8)
  {
    hide And, Shl, Shr, Pow2;
    var padded := Add64(n, 7);
    Pow2Values();
    AndFieldMask(padded, 61, 3);
    ShrIsDivide(padded, 3);
    ShlIsTimes(0x1FFF_FFFF_FFFF_FFFF, 3);
    ShlIsTimes(padded / 8 % 0x2000_0000_0000_0000, 3);
    RoundDown(padded, 0x2000_0000_0000_0000);
  }

  // Alignment covers the request exactly when it does not wrap around.
  lemma AlignCoversIffNoWrap(n: u64)
    ensures AlignSize(n) % 8 == 0 && AlignSize(AlignSize(n)) == AlignSize(n)
    ensures n <= AlignSize(n) <==> n <= TWO_64 - 8
    ensures n <= TWO_64 - 8 ==> AlignSize(n) < n + 8
    ensures n > TWO_64 - 8 ==> AlignSize(n) == 0
  {
    if n <= TWO_64 - 8 {
      DivisionIs(n + 7, 0x1_0000_0000_0000_0000, 0, n + 7);
    } else {
      DivisionIs(n + 7, 0x1_0000_0000_0000_0000, 1, n + 7 - 0x1_0000_0000_0000_0000);
    }
    var q := Add64(n, 7) / 8;
    assert AlignSize(n) == 8 * q;
    DivisionIs(8 * q, 8, q, 0);
    DivisionIs(8 * q + 7, 8, q, 7);
    DivisionIs(8 * q + 7, 0x1_0000_0000_0000_0000, 0, 8 * q + 7);
  }

  function PagesNeeded(needed: u64): nat {
    Add64(needed, 4095) / 4096
  }

  // The pages of an expansion cover the bytes needed, and one page less would not, unless the sum
  // wraps; then there are none.
  lemma PagesCover(needed: u64)
    ensures 0 < needed <= TWO_64 - 4096 ==>
              (PagesNeeded(needed) - 1) * 4096 < needed <= PagesNeeded(needed) * 4096
    ensures needed == 0 ==> PagesNeeded(needed) == 0
    ensures needed > TWO_64 - 4096 ==> PagesNeeded(needed) == 0
  {
    if needed <= TWO_64 - 4096 {
      DivisionIs(needed + 4095, 0x1_0000_0000_0000_0000, 0, needed + 4095);
    } else {
      DivisionIs(needed + 4095, 0x1_0000_0000_0000_0000, 1, needed + 4095 - 0x1_0000_0000_0000_0000);
    }
  }

  // The expansion for a request asks for no page at all in one window of huge requests.
  lemma ExpansionIsEmptyIff(n: u64)
    ensures PagesNeeded(Add64(AlignSize(n), 25)) == 0 <==> TWO_64 - 4127 <= n <= TWO_64 - 32
  {
    AlignCoversIffNoWrap(n);
    EmptyForAligned(AlignSize(n));
    MultipleOfEight(n, AlignSize(n));
  }

  lemma EmptyForAligned(request: u64)
    requires request % 8 == 0
    ensures PagesNeeded(Add64(request, 25)) == 0 <==> TWO_64 - 4120 <= request <= TWO_64 - 32
  {
    var needed := Add64(request, 25);
    if request <= TWO_64 - 32 {
      assert needed == request + 25;
      if request < TWO_64 - 4120 {
        assert Add64(needed, 4095) == request + 4120;
      } else {
        assert Add64(needed, 4095) == request + 4120 - TWO_64;
      }
    } else {
      assert needed == request + 25 - TWO_64 < 25;
      assert Add64(needed, 4095) == needed + 4095;
    }
  }

  lemma MultipleOfEight(n: u64, request: u64)
    requires request % 8 == 0 && (n <= TWO_64 - 8 ==> n <= request < n + 8) && (n > TWO_64 - 8 ==> request == 0)
    ensures TWO_64 - 4120 <= request <= TWO_64 - 32 <==> TWO_64 - 4127 <= n <= TWO_64 - 32
  {
  }

  // ---------- Searching, granting, growing, releasing ----------

  /** The first block in list order that fits, or the number of blocks. */
  function FirstFit(blocks: seq<Block>, request: nat): (i: nat)
    ensures i <= |blocks|
    ensures forall j :: 0 <= j < i ==> !blocks[j].Fits(request)
    ensures i < |blocks| ==> blocks[i].Fits(request)
  {
    if blocks == [] then 0
    else if blocks[0].Fits(request) then 0
    else 1 + FirstFit(blocks[1..], request)
  }

  /** Block `i` handed out for `request` bytes, its remainder split off when large enough. */
  function Grant(blocks: seq<Block>, i: nat, request: nat): seq<Block>
    requires i < |blocks| && blocks[i].size >= request
  {
    var b := blocks[i];
    if b.size >= request + 25 + 32 then
      blocks[..i]
      + [Block(b.addr, request, false), Block(b.addr + 25 + request, b.size - request - 25, true)]
      + blocks[i + 1..]
    else
      blocks[..i] + [Block(b.addr, b.size, false)] + blocks[i + 1..]
  }

  datatype Growth = Growth(heap: Heap, ok: bool)

  /** Appends one free block per frame until `pages` are added or no frame is left. */
  ghost function Expand(h: Heap, pages: nat): (g: Growth)
    decreases pages
  {
    if pages == 0 then Growth(h, true)
    else if h.frames == {} then Growth(h, false)
    else Expand(TakeFrame(h), pages - 1)
  }

  ghost function TakeFrame(h: Heap): Heap
    requires h.frames != {}
  {
    var p := Lowest(h.frames);
    h.(blocks := h.blocks + [Block(p * 4096, 4071, true)], frames := h.frames - {p})
  }

  /** One activation of `kmalloc`: it returns, or it calls itself again. */
  datatype Attempt = Done(heap: Heap, ptr: nat) | Retry(heap: Heap, request: u64)

  ghost function Try(h: Heap, n: u64): Attempt {
    if n == 0 then Done(h, 0)
    else
      var request := AlignSize(n);
      var i := FirstFit(h.blocks, request);
      if i < |h.blocks| then
        var blocks := Grant(h.blocks, i, request);
        Done(h.(blocks := blocks, granted := Add64(h.granted, blocks[i].size)), h.blocks[i].addr + 25)
      else
        var g := Expand(h, PagesNeeded(Add64(request, 25)));
        if g.ok then Retry(g.heap, request) else Done(g.heap, 0)
  }

  /** The requests on which `kmalloc` returns: see HaltsExactly. */
  predicate Halts(h: Heap, n: u64) {
    n == 0 || FirstFit(h.blocks, AlignSize(n)) < |h.blocks| || PagesNeeded(Add64(AlignSize(n), 25)) > 0
  }

  ghost function Kmalloc(h: Heap, n: u64): (r: Attempt)
    requires Halts(h, n)
    ensures r.Done?
    decreases |h.frames|
  {
    match Try(h, n)
    case Done(h', ptr) => Done(h', ptr)
    case Retry(h', request) =>
      RetryShrinks(h, n);
      Kmalloc(h', request)
  }

  // A retry comes with fewer free frames, and it returns too.
  lemma RetryShrinks(h: Heap, n: u64)
    requires Halts(h, n) && Try(h, n).Retry?
    ensures |Try(h, n).heap.frames| < |h.frames| && Halts(Try(h, n).heap, Try(h, n).request)
  {
    hide Expand, Grant, AlignSize, PagesNeeded, Add64;
    ExpandTakes(h, PagesNeeded(Add64(AlignSize(n), 25)));
    AlignCoversIffNoWrap(n);
  }

  /** Block `i` given back and merged with its list successor if that is free. */
  function Release(h: Heap, i: nat): Heap
    requires i < |h.blocks|
  {
    var b := h.blocks[i];
    var released := Add64(h.released, b.size);
    if i + 1 < |h.blocks| && h.blocks[i + 1].free then
      var merged := Block(b.addr, b.size + 25 + h.blocks[i + 1].size, true);
      h.(blocks := h.blocks[..i] + [merged] + h.blocks[i + 2..], released := released)
    else
      h.(blocks := h.blocks[..i] + [Block(b.addr, b.size, true)] + h.blocks[i + 1..], released := released)
  }

  lemma GrantCases(blocks: seq<Block>, i: nat, request: nat)
    requires i < |blocks| && blocks[i].Fits(request)
    ensures var b, g := blocks[i], Grant(blocks, i, request);
      i < |g| && g[i] == Block(b.addr, if b.size >= request + 57 then request else b.size, false)
  {
  }

  lemma ReleaseCases(h: Heap, i: nat)
    requires i < |h.blocks|
    ensures var h' := Release(h, i);
      h'.frames == h.frames && h'.granted == h.granted && h'.released == Add64(h.released, h.blocks[i].size)
  {
  }

  // ---------- Growth ----------

  // An expansion succeeds exactly when enough frames are free. Either way each frame it takes
  // becomes one free block at the end of the list, and a failed one takes them all.
  lemma {:induction false} ExpandTakes(h: Heap, pages: nat)
    ensures var g := Expand(h, pages);
      && (g.ok <==> |h.frames| >= pages)
      && g.heap.frames <= h.frames && |g.heap.frames| == Max(|h.frames| - pages, 0)
      && |g.heap.blocks| + |g.heap.frames| == |h.blocks| + |h.frames|
      && g.heap.granted == h.granted && g.heap.released == h.released
      && h.blocks <= g.heap.blocks
      && forall i :: |h.blocks| <= i < |g.heap.blocks| ==> g.heap.blocks[i].size == 4071 && g.heap.blocks[i].free
    decreases pages
  {
    if pages > 0 && h.frames != {} {
      ExpandTakes(TakeFrame(h), pages - 1);
    }
  }

  lemma ExpandStep(h: Heap, pages: nat)
    ensures pages == 0 ==> Expand(h, pages) == Growth(h, true)
    ensures pages > 0 && h.frames == {} ==> Expand(h, pages) == Growth(h, false)
    ensures pages > 0 && h.frames != {} ==> Expand(h, pages) == Expand(TakeFrame(h), pages - 1)
  {
  }

  lemma KmallocZero(h: Heap)
    ensures Halts(h, 0) && Kmalloc(h, 0) == Done(h, 0)
  {
  }

  // The outcome when block `i` is the first that fits.
  lemma KmallocFits(h: Heap, n: u64, i: nat)
    requires n != 0 && i < |h.blocks| && h.blocks[i].Fits(AlignSize(n))
    requires forall j :: 0 <= j < i ==> !h.blocks[j].Fits(AlignSize(n))
    ensures Halts(h, n)
    ensures var blocks := Grant(h.blocks, i, AlignSize(n));
      i < |blocks| &&
      Kmalloc(h, n) == Done(h.(blocks := blocks, granted := Add64(h.granted, blocks[i].size)), h.blocks[i].addr + 25)
  {
    hide Grant, AlignSize;
    GrantCases(h.blocks, i, AlignSize(n));
    assert FirstFit(h.blocks, AlignSize(n)) == i;
  }

  // The outcome when no block fits is that of the grown heap, or null.
  lemma KmallocExpands(h: Heap, n: u64)
    requires n != 0 && Halts(h, n) && forall j :: 0 <= j < |h.blocks| ==> !h.blocks[j].Fits(AlignSize(n))
    ensures var g := Expand(h, PagesNeeded(Add64(AlignSize(n), 25)));
      && (!g.ok ==> Kmalloc(h, n) == Done(g.heap, 0))
      && (g.ok ==> |g.heap.frames| < |h.frames| && Halts(g.heap, AlignSize(n)) &&
                   Kmalloc(h, n) == Kmalloc(g.heap, AlignSize(n)))
  {
    hide Expand;
    var request := AlignSize(n);
    assert FirstFit(h.blocks, request) == |h.blocks|;
    AlignCoversIffNoWrap(n);
    ExpandTakes(h, PagesNeeded(Add64(request, 25)));
  }

  // ---------- When kmalloc returns ----------

  ghost predicate HaltsWithin(h: Heap, n: u64, retries: nat)
    decreases retries
  {
    match Try(h, n)
    case Done(_, _) => true
    case Retry(h', request) => retries > 0 && HaltsWithin(h', request, retries - 1)
  }

  // kmalloc returns after finitely many activations exactly when the request is zero, some
  // block fits, or the expansion asks for at least one page; the frames left bound the retries.
  lemma HaltsExactly(h: Heap, n: u64)
    ensures Halts(h, n) ==> HaltsWithin(h, n, |h.frames|)
    ensures (exists retries: nat :: HaltsWithin(h, n, retries)) ==> Halts(h, n)
  {
    if Halts(h, n) {
      HaltsInTime(h, n);
    } else {
      forall retries: nat ensures !HaltsWithin(h, n, retries) {
        NeverHalts(h, n, retries);
      }
    }
  }

  lemma {:induction false} HaltsInTime(h: Heap, n: u64)
    requires Halts(h, n)
    ensures HaltsWithin(h, n, |h.frames|)
    decreases |h.frames|
  {
    hide Try, Halts;
    match Try(h, n)
    case Done(_, _) =>
    case Retry(h', request) =>
      RetryShrinks(h, n);
      HaltsInTime(h', request);
      HaltsLater(h', request, |h'.frames|, |h.frames| - 1);
  }

  lemma {:induction false} HaltsLater(h: Heap, n: u64, j: nat, k: nat)
    requires HaltsWithin(h, n, j) && j <= k
    ensures HaltsWithin(h, n, k)
    decreases j
  {
    hide Try, Halts;
    match Try(h, n)
    case Done(_, _) =>
    case Retry(h', request) => HaltsLater(h', request, j - 1, k - 1);
  }

  lemma {:induction false} NeverHalts(h: Heap, n: u64, retries: nat)
    requires !Halts(h, n)
    ensures !HaltsWithin(h, n, retries)
    decreases retries
  {
    hide AlignSize, Grant;
    AlignCoversIffNoWrap(n);
    ExpansionIsEmptyIff(n);
    assert Try(h, n) == Retry(h, AlignSize(n));
    if retries > 0 {
      NeverHalts(h, AlignSize(n), retries - 1);
    }
  }
}
