/**
  The kernel heap as it runs: block headers packed into the bytes of physical memory, linked
  by address, changed in place, and grown from the physical memory manager.
 */
module KernelHeap {
  import opened Machine
  import opened Frames
  import Model = HeapModel
  import opened HeapProofs
  import opened HeapLayout
  import opened PhysicalMemory

  type Block = Model.Block

  const MAGIC: u64 := 0xDEAD_BEEF
  const MEMORY_BYTES: nat := 0x4000_0000 // the memory that the frame bitmap can describe

  // ---------- Packed headers ----------

  datatype Header = Header(size: u64, free: bool, next: u64, magic: u64)

  function Encode(h: Header): (s: seq<u8>)
    ensures |s| == 25
  {
    ToBytes(h.size, 8) + [if h.free then 1 else 0] + ToBytes(h.next, 8) + ToBytes(h.magic, 8)
  }

  function Decode(s: seq<u8>): Header
    requires |s| == 25
  {
    Header(U64Of(s[0..8]), s[8] != 0, U64Of(s[9..17]), U64Of(s[17..25]))
  }

  // A header survives its packed layout.
  lemma DecodeEncode(h: Header)
    ensures Decode(Encode(h)) == h
  {
    hide ToBytes, FromBytes;
    var s := Encode(h);
    assert s[0..8] == ToBytes(h.size, 8);
    assert s[9..17] == ToBytes(h.next, 8);
    assert s[17..25] == ToBytes(h.magic, 8);
    WordsRoundTrip(h.size);
    WordsRoundTrip(h.next);
    WordsRoundTrip(h.magic);
  }

  // Where the parts of a header lie: the size in bytes 0 to 7, the free flag in byte 8, the link
  // in bytes 9 to 16 and the magic number 0xDEADBEEF in bytes 17 to 24, low bytes first.
  lemma HeaderLayout(s: seq<u8>)
    requires |s| == 25
    ensures var h := Decode(s);
      && h.size == Digits256(s[0], s[1], s[2], s[3]) + 0x1_0000_0000 * Digits256(s[4], s[5], s[6], s[7])
      && (h.free <==> s[8] != 0)
      && h.next == Digits256(s[9], s[10], s[11], s[12]) + 0x1_0000_0000 * Digits256(s[13], s[14], s[15], s[16])
      && h.magic == Digits256(s[17], s[18], s[19], s[20]) + 0x1_0000_0000 * Digits256(s[21], s[22], s[23], s[24])
    ensures s[17..25] == [0xEF, 0xBE, 0xAD, 0xDE, 0, 0, 0, 0] ==> Decode(s).magic == MAGIC
  {
    hide U64Of;
    LittleEndian(s[0..8]);
    LittleEndian(s[9..17]);
    LittleEndian(s[17..25]);
    var m := s[17..25];
    assert s[17] == m[0] && s[18] == m[1] && s[19] == m[2] && s[20] == m[3];
    assert s[21] == m[4] && s[22] == m[5] && s[23] == m[6] && s[24] == m[7];
  }

  /** The header at address `a`. */
  ghost function HeaderAt(m: seq<u8>, a: nat): Header
    requires a + 25 <= |m|
  {
    Decode(m[a..a + 25])
  }

  lemma SameBytesSameHeader(m: seq<u8>, m': seq<u8>, a: nat)
    requires a + 25 <= |m| == |m'| && forall x :: a <= x < a + 25 ==> m[x] == m'[x]
    ensures HeaderAt(m, a) == HeaderAt(m', a)
  {
    assert m[a..a + 25] == m'[a..a + 25];
  }

  // ---------- The block list in memory ----------

  function AddressAt(blocks: seq<Block>, i: nat): nat {
    if i < |blocks| then blocks[i].addr else 0
  }

  /** Memory `m` holds the header of every block, linked in list order. */
  ghost predicate Linked(m: seq<u8>, blocks: seq<Block>) {
    |m| == MEMORY_BYTES && InMemory(blocks) &&
    forall i :: 0 <= i < |blocks| ==> LinkAt(m, blocks, i)
  }

  /** The header of block `i`, with the link to the next block. */
  ghost predicate LinkAt(m: seq<u8>, blocks: seq<Block>, i: nat)
    requires i < |blocks|
  {
    HasHeader(m, blocks[i], AddressAt(blocks, i + 1))
  }

  ghost predicate HasHeader(m: seq<u8>, b: Block, next: nat) {
    b.addr + 25 <= |m| && b.size < TWO_64 && next < TWO_64 &&
    HeaderAt(m, b.addr) == Header(b.size, b.free, next, MAGIC)
  }

  /** `x` is a payload byte of a live block. */
  ghost predicate InLive(blocks: seq<Block>, x: nat) {
    exists i :: 0 <= i < |blocks| && !blocks[i].free && blocks[i].addr + 25 <= x < blocks[i].End()
  }

  /** The payload bytes of the live blocks are the same in both memories. */
  ghost predicate LiveBytesSame(m: seq<u8>, m': seq<u8>, blocks: seq<Block>) {
    |m| == |m'| && forall x: nat :: x < |m| && InLive(blocks, x) ==> m[x] == m'[x]
  }

  lemma LiveBytesChain(m: seq<u8>, m': seq<u8>, m'': seq<u8>, blocks: seq<Block>, longer: seq<Block>)
    requires blocks <= longer && LiveBytesSame(m, m', blocks) && LiveBytesSame(m', m'', longer)
    ensures LiveBytesSame(m, m'', blocks)
  {
    forall x: nat | x < |m| && InLive(blocks, x) ensures m[x] == m''[x] {
      LiveInLonger(blocks, longer, x);
    }
  }

  class Heap {
    const mem: array<u8>
    const pmm: Pmm
    var heapStart: u64
    var totalAllocated: u64
    var totalFreed: u64
    ghost var blocks: seq<Block>

    ghost predicate Valid()
      reads this, mem, pmm, pmm.bitmap
      ensures Valid() ==> pmm.Valid() && mem.Length == MEMORY_BYTES
    {
      && pmm.Valid()
      && Linked(mem[..], blocks)
      && Placed(View())
      && heapStart == AddressAt(blocks, 0)
    }

    ghost function View(): Model.Heap
      requires pmm.Valid()
      reads this, pmm, pmm.bitmap
    {
      Model.Heap(blocks, pmm.Free(), totalAllocated, totalFreed)
    }

    constructor (mem: array<u8>, pmm: Pmm)
      requires mem.Length == MEMORY_BYTES && pmm.Valid() && Usable(pmm.Free())
      ensures Valid() && this.mem == mem && this.pmm == pmm
      ensures View() == Model.Heap([], pmm.Free(), 0, 0)
    {
      this.mem, this.pmm := mem, pmm;
      heapStart, totalAllocated, totalFreed := 0, 0, 0;
      blocks := [];
    }

    method LoadHeader(a: nat) returns (h: Header)
      requires a + 25 <= mem.Length
      ensures h == HeaderAt(mem[..], a)
    {
      h := Decode(mem[a..a + 25]);
      assert mem[..][a..a + 25] == mem[a..a + 25];
    }

    method StoreHeader(a: nat, h: Header)
      requires a + 25 <= mem.Length
      modifies mem
      ensures HeaderAt(mem[..], a) == h
      ensures forall b: nat :: b + 25 <= mem.Length && Apart(b, a) ==>
                HeaderAt(mem[..], b) == HeaderAt(old(mem[..]), b)
      ensures forall x :: 0 <= x < mem.Length && !InHeader(x, a) ==> mem[x] == old(mem[x])
    {
      var s := Encode(h);
      var i := 0;
      while i < 25
        invariant 0 <= i <= 25
        invariant forall j :: 0 <= j < i ==> mem[a + j] == s[j]
        invariant forall x :: 0 <= x < mem.Length && (x < a || a + 25 <= x) ==> mem[x] == old(mem[x])
      {
        mem[a + i] := s[i];
        i := i + 1;
      }
      assert mem[..][a..a + 25] == s;
      DecodeEncode(h);
      forall b: nat | b + 25 <= mem.Length && Apart(b, a)
        ensures HeaderAt(mem[..], b) == HeaderAt(old(mem[..]), b)
      {
        SameBytesSameHeader(mem[..], old(mem[..]), b);
      }
    }

    // The header of block `i`, found at its address.
    method ReadBlock(a: nat, ghost i: nat) returns (h: Header)
      requires Valid() && i < |blocks| && a == blocks[i].addr
      ensures blocks[i].size < TWO_64 && AddressAt(blocks, i + 1) < TWO_64
      ensures h == Header(blocks[i].size, blocks[i].free, AddressAt(blocks, i + 1), MAGIC)
    {
      hide HeaderAt, Placed;
      assert LinkAt(mem[..], blocks, i);
      h := LoadHeader(a);
    }

    // The first frame becomes one free block; called once at boot.
    method Init()
      requires Valid() && blocks == []
      modifies this, mem, pmm, pmm.bitmap
      ensures Valid()
      ensures View() == if old(View().frames) == {} then old(View()) else Model.TakeFrame(old(View()))
      ensures pmm.Drift() == old(pmm.Drift())
    {
      hide HeaderAt, Ordered, Below, Usable, InMemory, Linked;
      ghost var before := View();
      FramesPositive();
      var phys := pmm.AllocPage();
      if phys == 0 {
        return;
      }
      TakeFramePlaced(before);
      assert Model.TakeFrame(before).blocks == [Model.Block(phys, 4071, true)];
      FirstBlockBounds(Model.TakeFrame(before));
      FirstFrame(phys);
    }

    // Writes the header of the first block.
    method FirstFrame(phys: u64)
      requires mem.Length == MEMORY_BYTES && InMemory([Model.Block(phys, 4071, true)])
      modifies `blocks, `heapStart, mem
      ensures blocks == [Model.Block(phys, 4071, true)] && heapStart == phys
      ensures Linked(mem[..], blocks)
    {
      hide HeaderAt;
      heapStart := phys;
      blocks := [Model.Block(phys, 4071, true)];
      assert blocks[0].End() <= MEMORY_BYTES;
      StoreHeader(phys, Header(4071, true, 0, MAGIC));
    }

    lemma FirstBlockBounds(h: Model.Heap)
      requires Placed(h) && h.blocks != []
      ensures h.blocks[0].End() <= MEMORY_BYTES && InMemory(h.blocks)
    {
    }

    // Appends a free block in a new frame behind the block at `last`; 0 when no frame is left.
    method AppendFrame(last: nat) returns (phys: u64)
      requires Valid() && blocks != [] && last == blocks[|blocks| - 1].addr
      modifies `blocks, mem, pmm, pmm.bitmap
      ensures Valid()
      ensures old(View().frames) == {} ==> phys == 0 && View() == old(View())
      ensures old(View().frames) != {} ==>
        phys > 0 && View() == Model.TakeFrame(old(View())) && phys == blocks[|blocks| - 1].addr
      ensures pmm.Drift() == old(pmm.Drift())
      ensures LiveBytesSame(old(mem[..]), mem[..], old(blocks))
    {
      hide HeaderAt, Ordered, Below, InMemory, Usable, InLive;
      ghost var before, m := View(), mem[..];
      FramesPositive();
      phys := pmm.AllocPage();
      if phys == 0 {
        assert mem[..] == m;
        return;
      }
      TakeFramePlaced(before);
      LinkFrame(last, phys);
    }

    // Writes the header of the new frame and the link to it.
    method LinkFrame(last: nat, phys: u64)
      requires mem.Length == MEMORY_BYTES && Linked(mem[..], blocks) && blocks != []
      requires last == blocks[|blocks| - 1].addr
      requires Ordered(blocks + [Model.Block(phys, 4071, true)]) && InMemory(blocks + [Model.Block(phys, 4071, true)])
      modifies `blocks, mem
      ensures blocks == old(blocks) + [Model.Block(phys, 4071, true)]
      ensures Linked(mem[..], blocks)
      ensures LiveBytesSame(old(mem[..]), mem[..], old(blocks))
    {
      hide HeaderAt, Ordered, InMemory, LiveBytesSame;
      ghost var m, b := mem[..], Model.Block(phys, 4071, true);
      LastHeader(m, blocks, b);
      StoreHeader(phys, Header(4071, true, 0, MAGIC));
      var h := LoadHeader(last);
      StoreHeader(last, h.(next := phys));
      LinkedAppend(m, mem[..], blocks, b);
      LinkingKeepsLive(m, mem[..], blocks, b);
      blocks := blocks + [b];
    }

    lemma FramesPositive()
      requires Valid()
      ensures forall f :: f in View().frames ==> f > 0
    {
    }

    method ExpandHeap(needed: u64) returns (ok: bool)
      requires Valid() && blocks != []
      modifies `blocks, mem, pmm, pmm.bitmap
      ensures Valid() && blocks != []
      ensures Model.Expand(old(View()), Model.PagesNeeded(needed)) == Model.Growth(View(), ok)
      ensures old(blocks) <= blocks
      ensures LiveBytesSame(old(mem[..]), mem[..], old(blocks))
      ensures pmm.Drift() == old(pmm.Drift())
    {
      hide Linked, Placed, Model.Expand, InLive, Valid;
      var pagesNeeded := Add64(needed, 4095) / 4096;
      var last := FindLast();
      var i := 0;
      while i < pagesNeeded
        invariant 0 <= i <= pagesNeeded
        invariant Valid() && blocks != [] && last == blocks[|blocks| - 1].addr
        invariant Model.Expand(old(View()), pagesNeeded) == Model.Expand(View(), pagesNeeded - i)
        invariant old(blocks) <= blocks && pmm.Drift() == old(pmm.Drift())
        invariant LiveBytesSame(old(mem[..]), mem[..], old(blocks))
      {
        ghost var before, m := blocks, mem[..];
        Model.ExpandStep(View(), pagesNeeded - i);
        var phys := AppendFrame(last);
        LiveBytesChain(old(mem[..]), m, mem[..], old(blocks), before);
        if phys == 0 {
          return false;
        }
        last := phys;
        i := i + 1;
      }
      Model.ExpandStep(View(), 0);
      return true;
    }

    method FindLast() returns (last: nat)
      requires Valid() && blocks != []
      ensures last == blocks[|blocks| - 1].addr
    {
      hide Linked, Placed;
      last := heapStart;
      ghost var i := 0;
      var h := ReadBlock(last, i);
      AddressesPositive();
      while h.next != 0
        invariant 0 <= i < |blocks| && last == blocks[i].addr
        invariant h.next == AddressAt(blocks, i + 1)
        decreases |blocks| - i
      {
        last := h.next;
        i := i + 1;
        h := ReadBlock(last, i);
      }
    }

    lemma AddressesPositive()
      requires Valid()
      ensures forall i :: 0 <= i < |blocks| ==> blocks[i].addr > 0
    {
    }

    // Block `i` handed out in place, its remainder split off when large enough.
    method GrantBlock(current: nat, request: u64, ghost i: nat)
      requires Valid() && i < |blocks| && blocks[i].Fits(request) && current == blocks[i].addr
      modifies `blocks, `totalAllocated, mem
      ensures Valid()
      ensures var granted := Model.Grant(old(blocks), i, request);
        View() == old(View()).(blocks := granted, granted := Add64(old(totalAllocated), granted[i].size))
      ensures LiveBytesSame(old(mem[..]), mem[..], old(blocks))
    {
      hide HeaderAt, Placed, Linked, LiveBytesSame, Model.Grant;
      ghost var before, m := View(), mem[..];
      BlockBounds(i);
      Model.GrantCases(blocks, i, request);
      var h := ReadBlock(current, i);
      if h.size >= Add64(request, 25 + 32) {
        var newBlock := current + 25 + request;
        StoreHeader(newBlock, Header(h.size - request - 25, true, h.next, MAGIC));
        h := h.(size := request, next := newBlock);
        StoreHeader(current, h.(free := false));
        SplitLinked(m, mem[..], before, i, request);
      } else {
        StoreHeader(current, h.(free := false));
        WholeLinked(m, mem[..], before, i, request);
      }
      totalAllocated := Add64(totalAllocated, h.size);
      blocks := Model.Grant(blocks, i, request);
      GrantPlaced(before, i, request, View());
      GrantKeepsFirst(before.blocks, i, request);
      ChangeInBlock(m, mem[..], before.blocks, i);
    }

    lemma BlockBounds(i: nat)
      requires Valid() && i < |blocks|
      ensures 0 < blocks[i].addr && blocks[i].End() <= MEMORY_BYTES && Ordered(blocks)
    {
    }

    // Returns 0 or the address of the payload. The magic number of a block never fails.
    method Kmalloc(size: u64) returns (ptr: u64)
      requires Valid() && (blocks != [] || size == 0) && Model.Halts(View(), size)
      modifies `blocks, `totalAllocated, mem, pmm, pmm.bitmap
      ensures Valid() && (old(blocks) != [] ==> blocks != [])
      ensures Model.Kmalloc(old(View()), size) == Model.Done(View(), ptr)
      ensures LiveBytesSame(old(mem[..]), mem[..], old(blocks))
      ensures pmm.Drift() == old(pmm.Drift())
      decreases |View().frames|
    {
      hide HeaderAt, Placed, Linked, LiveBytesSame, Model.Expand, Model.Grant,
           Model.FirstFit, Model.Kmalloc, Model.AlignSize;
      ghost var before, m := View(), mem[..];
      SameMemory(m, blocks);
      if size == 0 {
        Model.KmallocZero(before);
        return 0;
      }
      var request := Model.AlignSize(size);
      var current := heapStart;
      ghost var i := 0;
      AddressesPositive();
      while current != 0
        invariant Valid() && View() == before && mem[..] == m && pmm.Drift() == old(pmm.Drift())
        invariant 0 <= i <= |blocks| && current == AddressAt(blocks, i)
        invariant forall j :: 0 <= j < i ==> !blocks[j].Fits(request)
        decreases |blocks| - i
      {
        var h := ReadBlock(current, i);
        if h.magic != MAGIC {
          assert false;
        }
        if h.free && h.size >= request {
          Model.KmallocFits(before, size, i);
          BlockBounds(i);
          GrantBlock(current, request, i);
          return current + 25;
        }
        current := h.next;
        i := i + 1;
      }
      Model.KmallocExpands(before, size);
      var ok := ExpandHeap(Add64(request, 25));
      if !ok {
        return 0;
      }
      ghost var m1, grown := mem[..], blocks;
      ptr := Kmalloc(request);
      LiveBytesChain(m, m1, mem[..], before.blocks, grown);
    }

    /** The header before `ptr` lies in the payload of block `i`, and its link can be followed:
        a block merged away earlier, or bytes of a client that look like a header. */
    ghost predicate Embedded(ptr: nat, i: nat)
      requires mem.Length == MEMORY_BYTES
      reads this, mem
    {
      && i < |blocks| && blocks[i].addr + 50 <= ptr <= blocks[i].End() && ptr <= mem.Length
      && HeaderAt(mem[..], ptr - 25).next + 25 <= mem.Length
    }

    /** `ptr` is null, the payload of a block in the list, has no heap header before it, or has
        one inside a payload. */
    ghost predicate Freeable(ptr: nat)
      requires mem.Length == MEMORY_BYTES
      reads this, mem
    {
      ptr == 0 || (25 <= ptr <= mem.Length &&
                   (Find(blocks, ptr) < |blocks| || HeaderAt(mem[..], ptr - 25).magic != MAGIC ||
                    exists i: nat :: Embedded(ptr, i)))
    }

    /** The heap that frees `ptr`: a listed block is released; a header that is not in the list
        only moves the statistic. */
    ghost function Freed(ptr: nat): Model.Heap
      requires Valid() && Freeable(ptr)
      reads this, mem, pmm, pmm.bitmap
    {
      if ptr == 0 then View()
      else if Find(blocks, ptr) < |blocks| then Model.Release(View(), Find(blocks, ptr))
      else
        var h := HeaderAt(mem[..], ptr - 25);
        if h.magic != MAGIC then View() else View().(released := Add64(totalFreed, h.size))
    }

    // Gives back a block, live or not. A header outside the list damages no listed block and no
    // live payload but the one it lies in; pointers without a header before them are ignored.
    method Kfree(ptr: nat)
      requires Valid() && Freeable(ptr)
      modifies `blocks, `totalFreed, mem
      ensures Valid() && View() == old(Freed(ptr))
      ensures ptr == 0 || Find(old(blocks), ptr) < |old(blocks)| || !InLive(old(blocks), ptr - 1) ==>
                LiveBytesSame(old(mem[..]), mem[..], old(blocks))
      ensures forall x :: 0 <= x < mem.Length && !(ptr - 25 <= x < ptr) ==> mem[x] == old(mem[x])
    {
      hide HeaderAt, Placed, Linked, LiveBytesSame, InLive, Model.Release;
      ghost var before, m := View(), mem[..];
      SameMemory(m, blocks);
      if ptr == 0 {
        return;
      }
      ghost var i := Find(blocks, ptr);
      var block := ptr - 25;
      if i < |blocks| {
        HeaderOfBlock(m, before, i);
      }
      var h := LoadHeader(block);
      if h.magic != MAGIC {
        return;
      }
      FreeHeader(block);
      if i < |blocks| {
        ReleasedInPlace(m, mem[..], before, i);
        Model.ReleaseCases(before, i);
        blocks := Model.Release(before, i).blocks;
      } else {
        ghost var k: nat :| old(Embedded(ptr, k));
        InPayload(m, mem[..], before, k, block);
      }
    }

    // Marks the header at `block` free and merges it with the header it links to, if free.
    method FreeHeader(block: nat)
      requires block + 25 <= mem.Length && HeaderAt(mem[..], block).next + 25 <= mem.Length
      modifies `totalFreed, mem
      ensures totalFreed == Add64(old(totalFreed), HeaderAt(old(mem[..]), block).size)
      ensures var next := HeaderAt(old(mem[..]), block).next;
        next == 0 || Apart(next, block) ==> HeaderAt(mem[..], block) == FreedHeader(old(mem[..]), block)
      ensures forall b: nat :: b + 25 <= mem.Length && Apart(b, block) ==>
                HeaderAt(mem[..], b) == HeaderAt(old(mem[..]), b)
      ensures forall x :: 0 <= x < mem.Length && !InHeader(x, block) ==> mem[x] == old(mem[x])
    {
      hide HeaderAt;
      var h := LoadHeader(block);
      h := h.(free := true);
      StoreHeader(block, h);
      totalFreed := Add64(totalFreed, h.size);
      if h.next != 0 {
        var n := LoadHeader(h.next);
        if n.free {
          StoreHeader(block, h.(size := Add64(h.size, 25 + n.size), next := n.next));
        }
      }
    }

    // A client writes one byte of a live payload: the heap does not notice.
    method ClientWrite(x: nat, value: u8)
      requires Valid() && InLive(blocks, x)
      modifies mem
      ensures Valid() && View() == old(View())
      ensures x < mem.Length && mem[..] == old(mem[..])[x := value]
    {
      hide HeaderAt, Below, Usable;
      hide Linked;
      ghost var m, i := mem[..], InWhich(x);
      BlockBounds(i);
      mem[x] := value;
      PayloadWriteKeepsLinks(m, blocks, i, x, value);
      assert mem[..] == m[x := value];
    }

    ghost function InWhich(x: nat): (i: nat)
      requires Valid() && InLive(blocks, x)
      reads this, mem, pmm, pmm.bitmap
      ensures i < |blocks| && blocks[i].addr + 25 <= x < blocks[i].End() && x < MEMORY_BYTES
    {
      var i: nat :| i < |blocks| && !blocks[i].free && blocks[i].addr + 25 <= x < blocks[i].End();
      i
    }

    // The statistic counts the bytes of the live blocks exactly when its error is zero.
    method GetUsed() returns (bytes: u64)
      requires Valid()
      ensures bytes == ReportedUsed(View())
      ensures bytes == UsedBytes(blocks) <==> UsedError(View()) == 0
    {
      hide Linked, UsedBytes, FreeBytes;
      bytes := Sub64(totalAllocated, totalFreed);
      OrderedBytes(blocks, MEMORY_BYTES);
      if UsedError(View()) == 0 {
        RightWhenNoError(bytes, UsedBytes(blocks));
      }
    }

    method GetFree() returns (bytes: u64)
      requires Valid()
      ensures bytes == Add64(0, FreeBytes(blocks))
    {
      hide HeaderAt, Placed, Linked, FreeBytes;
      bytes := 0;
      SumStart(blocks);
      var current := heapStart;
      ghost var i := 0;
      AddressesPositive();
      while current != 0
        invariant 0 <= i <= |blocks| && current == AddressAt(blocks, i)
        invariant Add64(bytes, FreeBytes(blocks[i..])) == Add64(0, FreeBytes(blocks))
        decreases |blocks| - i
      {
        var h := ReadBlock(current, i);
        SumStep(blocks, i, bytes);
        if h.free {
          bytes := Add64(bytes, h.size);
        }
        current := h.next;
        i := i + 1;
      }
      SumEnd(blocks, bytes);
    }
  }

  lemma SumStart(blocks: seq<Block>)
    ensures Add64(0, FreeBytes(blocks[0..])) == Add64(0, FreeBytes(blocks))
  {
    assert blocks[0..] == blocks;
  }

  lemma SumEnd(blocks: seq<Block>, bytes: u64)
    ensures Add64(bytes, FreeBytes(blocks[|blocks|..])) == bytes
  {
  }

  lemma SumStep(blocks: seq<Block>, i: nat, bytes: u64)
    requires i < |blocks|
    ensures Add64(bytes, FreeBytes(blocks[i..])) ==
            if blocks[i].free then Add64(Add64(bytes, blocks[i].size), FreeBytes(blocks[i + 1..]))
            else Add64(bytes, FreeBytes(blocks[i + 1..]))
  {
    assert blocks[i..][1..] == blocks[i + 1..];
    AddWraps(bytes + blocks[i].size, FreeBytes(blocks[i + 1..]));
  }

  lemma PayloadWriteKeepsLinks(m: seq<u8>, blocks: seq<Block>, i: nat, x: nat, value: u8)
    requires Linked(m, blocks) && Ordered(blocks) && x < |m|
    requires i < |blocks| && blocks[i].addr + 25 <= x < blocks[i].End()
    ensures Linked(m[x := value], blocks)
  {
    hide HasHeader;
    var m' := m[x := value];
    forall k | 0 <= k < |blocks| ensures LinkAt(m', blocks, k) {
      assert LinkAt(m, blocks, k);
      assert k < i ==> blocks[k].End() <= blocks[i].addr;
      assert i < k ==> blocks[i].End() <= blocks[k].addr;
      OtherByteKeepsHeader(m, blocks[k], AddressAt(blocks, k + 1), x, value);
    }
  }

  lemma OtherByteKeepsHeader(m: seq<u8>, b: Block, next: nat, x: nat, value: u8)
    requires HasHeader(m, b, next) && x < |m| && !InHeader(x, b.addr)
    ensures HasHeader(m[x := value], b, next)
  {
    hide HeaderAt;
    SameBytesSameHeader(m, m[x := value], b.addr);
  }

  lemma GrantKeepsFirst(blocks: seq<Block>, i: nat, request: nat)
    requires i < |blocks| && blocks[i].Fits(request)
    ensures AddressAt(Model.Grant(blocks, i, request), 0) == AddressAt(blocks, 0)
  {
  }

  lemma ReleaseKeepsFirst(h: Model.Heap, i: nat)
    requires i < |h.blocks|
    ensures AddressAt(Model.Release(h, i).blocks, 0) == AddressAt(h.blocks, 0)
  {
  }

  lemma SplitLinked(m: seq<u8>, m': seq<u8>, h: Model.Heap, i: nat, request: nat)
    requires Linked(m, h.blocks) && Placed(h) && |m'| == |m| == MEMORY_BYTES
    requires i < |h.blocks| && h.blocks[i].Fits(request) && h.blocks[i].size >= request + 57
    requires var b, tail := h.blocks[i], h.blocks[i].addr + 25 + request;
      && AddressAt(h.blocks, i + 1) < TWO_64 && b.End() <= MEMORY_BYTES
      && HeaderAt(m', b.addr) == Header(request, false, tail, MAGIC)
      && HeaderAt(m', tail) == Header(b.size - request - 25, true, AddressAt(h.blocks, i + 1), MAGIC)
      && forall a: nat :: a + 25 <= |m'| && Apart(a, b.addr) && Apart(a, tail) ==> HeaderAt(m', a) == HeaderAt(m, a)
    ensures Linked(m', Model.Grant(h.blocks, i, request))
  {
    hide HeaderAt, Ordered, Linked, Below, Usable, InMemory;
    var b, tail := h.blocks[i], h.blocks[i].addr + 25 + request;
    var parts := [Model.Block(b.addr, request, false), Model.Block(tail, b.size - request - 25, true)];
    var g := h.blocks[..i] + parts + h.blocks[i + 1..];
    GrantPlaced(h, i, request, h.(blocks := g));
    assert g[i] == parts[0] && g[i + 1] == parts[1] && AddressAt(g, i + 2) == AddressAt(h.blocks, i + 1);
    LinkedReplace(m, m', h.blocks, i, i + 1, parts, b.addr, tail);
  }

  lemma WholeLinked(m: seq<u8>, m': seq<u8>, h: Model.Heap, i: nat, request: nat)
    requires Linked(m, h.blocks) && Placed(h) && |m'| == |m| == MEMORY_BYTES
    requires i < |h.blocks| && h.blocks[i].Fits(request) && h.blocks[i].size < request + 57
    requires var b := h.blocks[i];
      && AddressAt(h.blocks, i + 1) < TWO_64 && b.End() <= MEMORY_BYTES
      && HeaderAt(m', b.addr) == Header(b.size, false, AddressAt(h.blocks, i + 1), MAGIC)
      && forall a: nat :: a + 25 <= |m'| && Apart(a, b.addr) ==> HeaderAt(m', a) == HeaderAt(m, a)
    ensures Linked(m', Model.Grant(h.blocks, i, request))
  {
    hide HeaderAt, Ordered, Linked, Below, Usable, InMemory;
    var b := h.blocks[i];
    var parts := [Model.Block(b.addr, b.size, false)];
    var g := h.blocks[..i] + parts + h.blocks[i + 1..];
    GrantPlaced(h, i, request, h.(blocks := g));
    assert g[i] == parts[0] && AddressAt(g, i + 1) == AddressAt(h.blocks, i + 1);
    LinkedReplace(m, m', h.blocks, i, i + 1, parts, b.addr, b.addr);
  }

  lemma ReleaseLinked(m: seq<u8>, m': seq<u8>, h: Model.Heap, i: nat)
    requires Linked(m, h.blocks) && Placed(h) && |m'| == |m| == MEMORY_BYTES
    requires i < |h.blocks| && h.blocks[i].End() <= MEMORY_BYTES
    requires var b := h.blocks[i];
      && (forall a: nat :: a + 25 <= |m'| && Apart(a, b.addr) ==> HeaderAt(m', a) == HeaderAt(m, a))
      && if i + 1 < |h.blocks| && h.blocks[i + 1].free
         then b.size + 25 + h.blocks[i + 1].size < TWO_64 && AddressAt(h.blocks, i + 2) < TWO_64 &&
              HeaderAt(m', b.addr) ==
              Header(b.size + 25 + h.blocks[i + 1].size, true, AddressAt(h.blocks, i + 2), MAGIC)
         else b.size < TWO_64 && AddressAt(h.blocks, i + 1) < TWO_64 &&
              HeaderAt(m', b.addr) == Header(b.size, true, AddressAt(h.blocks, i + 1), MAGIC)
    ensures Linked(m', Model.Release(h, i).blocks)
  {
    hide HeaderAt, Linked, Below, Usable, InMemory;
    var b := h.blocks[i];
    ReleasePlaced(h, i);
    var j, parts := i + 1, [Model.Block(b.addr, b.size, true)];
    if i + 1 < |h.blocks| && h.blocks[i + 1].free {
      assert b.End() <= h.blocks[i + 1].addr;
      j, parts := i + 2, [Model.Block(b.addr, b.size + 25 + h.blocks[i + 1].size, true)];
    }
    var g := h.blocks[..i] + parts + h.blocks[j..];
    assert g == Model.Release(h, i).blocks;
    assert g[i] == parts[0] && AddressAt(g, i + 1) == AddressAt(h.blocks, j);
    LinkedReplace(m, m', h.blocks, i, j, parts, b.addr, b.addr);
  }

  /** The header at `block` marked free and merged with the header it links to, if free. */
  ghost function FreedHeader(m: seq<u8>, block: nat): Header
    requires block + 25 <= |m| && HeaderAt(m, block).next + 25 <= |m|
  {
    var h := HeaderAt(m, block).(free := true);
    if h.next == 0 then h
    else
      var n := HeaderAt(m, h.next);
      if n.free then h.(size := Add64(h.size, 25 + n.size), next := n.next) else h
  }

  lemma HeaderOfBlock(m: seq<u8>, h: Model.Heap, i: nat)
    requires Linked(m, h.blocks) && Placed(h) && i < |h.blocks|
    ensures var b, next := h.blocks[i], AddressAt(h.blocks, i + 1);
      && 0 < b.addr && b.End() <= MEMORY_BYTES && next + 25 <= MEMORY_BYTES && Apart(next, b.addr)
      && (next == 0 <==> i + 1 == |h.blocks|) && Ordered(h.blocks)
      && HeaderAt(m, b.addr) == Header(b.size, b.free, next, MAGIC)
  {
    hide HeaderAt, Below, Usable;
    assert LinkAt(m, h.blocks, i);
    if i + 1 < |h.blocks| {
      assert h.blocks[i].End() <= h.blocks[i + 1].addr;
      assert h.blocks[i + 1].End() <= MEMORY_BYTES;
    }
  }

  // Freeing a listed block in memory is releasing it in the model.
  lemma ReleasedInPlace(m: seq<u8>, m': seq<u8>, h: Model.Heap, i: nat)
    requires Linked(m, h.blocks) && Placed(h) && |m'| == |m| == MEMORY_BYTES && i < |h.blocks|
    requires h.blocks[i].addr + 25 <= |m| && HeaderAt(m, h.blocks[i].addr).next + 25 <= |m|
    requires Apart(HeaderAt(m, h.blocks[i].addr).next, h.blocks[i].addr) ==>
               HeaderAt(m', h.blocks[i].addr) == FreedHeader(m, h.blocks[i].addr)
    requires forall a: nat :: a + 25 <= |m'| && Apart(a, h.blocks[i].addr) ==> HeaderAt(m', a) == HeaderAt(m, a)
    requires forall x :: 0 <= x < |m| && !InHeader(x, h.blocks[i].addr) ==> m'[x] == m[x]
    ensures Linked(m', Model.Release(h, i).blocks) && Placed(Model.Release(h, i))
    ensures AddressAt(Model.Release(h, i).blocks, 0) == AddressAt(h.blocks, 0)
    ensures LiveBytesSame(m, m', h.blocks)
  {
    hide HeaderAt, Placed, Linked, LiveBytesSame, Model.Release;
    HeaderOfBlock(m, h, i);
    if i + 1 < |h.blocks| {
      HeaderOfBlock(m, h, i + 1);
    }
    ReleaseLinked(m, m', h, i);
    ReleasePlaced(h, i);
    ReleaseKeepsFirst(h, i);
    ChangeInBlock(m, m', h.blocks, i);
  }

  // A header written inside a payload leaves every listed header alone, and every live payload
  // but the one around it.
  lemma InPayload(m: seq<u8>, m': seq<u8>, h: Model.Heap, i: nat, block: nat)
    requires Linked(m, h.blocks) && Placed(h) && |m'| == |m| == MEMORY_BYTES && i < |h.blocks|
    requires h.blocks[i].addr + 25 <= block && block + 25 <= h.blocks[i].End()
    requires forall a: nat :: a + 25 <= |m'| && Apart(a, block) ==> HeaderAt(m', a) == HeaderAt(m, a)
    requires forall x :: 0 <= x < |m| && !InHeader(x, block) ==> m'[x] == m[x]
    ensures Linked(m', h.blocks) && forall released :: Placed(h.(released := released))
    ensures !InLive(h.blocks, block + 24) ==> LiveBytesSame(m, m', h.blocks)
  {
    hide HeaderAt, Below, Usable;
    var blocks := h.blocks;
    forall k | 0 <= k < |blocks| ensures LinkAt(m', blocks, k) {
      assert LinkAt(m, blocks, k);
      assert k < i ==> blocks[k].End() <= blocks[i].addr;
      assert i < k ==> blocks[i].End() <= blocks[k].addr;
      assert Apart(blocks[k].addr, block);
    }
    if !InLive(blocks, block + 24) {
      ChangeInBlock(m, m', blocks, i);
    }
  }

  // Blocks i, ..., j - 1 replaced by others from the same address on, in two header writes
  // within their span.
  lemma LinkedReplace(m: seq<u8>, m': seq<u8>, blocks: seq<Block>, i: nat, j: nat, parts: seq<Block>, w: nat, w': nat)
    requires Linked(m, blocks) && Ordered(blocks) && |m'| == |m|
    requires i < j <= |blocks| && parts != [] && parts[0].addr == blocks[i].addr
    requires blocks[i].addr <= w && w + 25 <= blocks[j - 1].End()
    requires blocks[i].addr <= w' && w' + 25 <= blocks[j - 1].End()
    requires forall a: nat :: a + 25 <= |m'| && Apart(a, w) && Apart(a, w') ==> HeaderAt(m', a) == HeaderAt(m, a)
    requires var g := blocks[..i] + parts + blocks[j..];
      InMemory(g) && forall k :: i <= k < i + |parts| ==> LinkAt(m', g, k)
    ensures Linked(m', blocks[..i] + parts + blocks[j..])
  {
    hide HeaderAt, Ordered;
    var g := blocks[..i] + parts + blocks[j..];
    var d := i + |parts|;
    forall k | 0 <= k < |g| ensures LinkAt(m', g, k) {
      if k < i {
        HeaderBefore(m, m', blocks, i, k, w, w');
        assert g[k] == blocks[k] && AddressAt(g, k + 1) == AddressAt(blocks, k + 1);
      } else if k >= d {
        var l := k - d + j;
        HeaderAfter(m, m', blocks, j, l, w, w');
        assert g[k] == blocks[l] && AddressAt(g, k + 1) == AddressAt(blocks, l + 1);
      }
    }
  }

  lemma HeaderBefore(m: seq<u8>, m': seq<u8>, blocks: seq<Block>, i: nat, k: nat, w: nat, w': nat)
    requires Linked(m, blocks) && Ordered(blocks) && |m'| == |m| && k < i < |blocks|
    requires blocks[i].addr <= w && blocks[i].addr <= w'
    requires forall a: nat :: a + 25 <= |m'| && Apart(a, w) && Apart(a, w') ==> HeaderAt(m', a) == HeaderAt(m, a)
    ensures LinkAt(m', blocks, k)
  {
    assert LinkAt(m, blocks, k);
    assert blocks[k].End() <= blocks[i].addr;
  }

  lemma HeaderAfter(m: seq<u8>, m': seq<u8>, blocks: seq<Block>, j: nat, l: nat, w: nat, w': nat)
    requires Linked(m, blocks) && Ordered(blocks) && |m'| == |m| && 0 < j <= l < |blocks|
    requires w + 25 <= blocks[j - 1].End() && w' + 25 <= blocks[j - 1].End()
    requires forall a: nat :: a + 25 <= |m'| && Apart(a, w) && Apart(a, w') ==> HeaderAt(m', a) == HeaderAt(m, a)
    ensures LinkAt(m', blocks, l)
  {
    assert LinkAt(m, blocks, l);
    assert blocks[j - 1].End() <= blocks[l].addr;
  }

  lemma SameMemory(m: seq<u8>, blocks: seq<Block>)
    ensures LiveBytesSame(m, m, blocks)
  {
  }

  // A change inside one block, in its header only if it is live, keeps all live payloads.
  lemma ChangeInBlock(m: seq<u8>, m': seq<u8>, blocks: seq<Block>, i: nat)
    requires Ordered(blocks) && i < |blocks| && |m| == |m'|
    requires forall x :: 0 <= x < |m| && m[x] != m'[x] ==>
               blocks[i].addr <= x < blocks[i].End() && (blocks[i].free || InHeader(x, blocks[i].addr))
    ensures LiveBytesSame(m, m', blocks)
  {
    forall x: nat | x < |m| && InLive(blocks, x) ensures m[x] == m'[x] {
      var k :| 0 <= k < |blocks| && !blocks[k].free && blocks[k].addr + 25 <= x < blocks[k].End();
      assert k < i ==> blocks[k].End() <= blocks[i].addr;
      assert i < k ==> blocks[i].End() <= blocks[k].addr;
    }
  }

  lemma LastHeader(m: seq<u8>, blocks: seq<Block>, b: Block)
    requires Linked(m, blocks) && blocks != [] && Ordered(blocks + [b]) && InMemory(blocks + [b])
    ensures HasHeader(m, blocks[|blocks| - 1], 0) && Apart(blocks[|blocks| - 1].addr, b.addr)
    ensures Ordered(blocks) && b.addr + 25 <= MEMORY_BYTES
  {
    var n := |blocks|;
    var longer := blocks + [b];
    assert forall i :: 0 <= i < n ==> longer[i] == blocks[i];
    assert longer[n] == b;
    assert longer[n - 1].End() <= longer[n].addr;
    assert LinkAt(m, blocks, n - 1);
  }

  lemma LinkingKeepsLive(m: seq<u8>, m': seq<u8>, blocks: seq<Block>, b: Block)
    requires blocks != [] && Ordered(blocks) && Ordered(blocks + [b]) && |m| == |m'|
    requires forall x :: 0 <= x < |m| && !InHeader(x, b.addr) && !InHeader(x, blocks[|blocks| - 1].addr) ==>
               m[x] == m'[x]
    ensures LiveBytesSame(m, m', blocks)
  {
    var n := |blocks|;
    forall x: nat | x < |m| && InLive(blocks, x) ensures m[x] == m'[x] {
      var i :| 0 <= i < n && !blocks[i].free && blocks[i].addr + 25 <= x < blocks[i].End();
      assert (blocks + [b])[i].End() <= (blocks + [b])[n].addr;
      assert i < n - 1 ==> blocks[i].End() <= blocks[n - 1].addr;
    }
  }

  /** `x` is a byte of the header at `a`. */
  predicate InHeader(x: int, a: nat) {
    a <= x < a + 25
  }

  lemma LinkedAppend(m: seq<u8>, m': seq<u8>, blocks: seq<Block>, b: Block)
    requires Linked(m, blocks) && Ordered(blocks) && blocks != [] && |m'| == MEMORY_BYTES
    requires InMemory(blocks + [b]) && Ordered(blocks + [b]) && b.size < TWO_64
    requires HasHeader(m', b, 0) && HasHeader(m', blocks[|blocks| - 1], b.addr)
    requires forall a: nat :: a + 25 <= |m'| && Apart(a, b.addr) && Apart(a, blocks[|blocks| - 1].addr) ==>
               HeaderAt(m', a) == HeaderAt(m, a)
    ensures Linked(m', blocks + [b])
  {
    hide HeaderAt;
    var n := |blocks|;
    forall i | 0 <= i < n + 1 ensures LinkAt(m', blocks + [b], i) {
      if i < n - 1 {
        assert blocks[i].End() <= blocks[n - 1].addr;
        assert (blocks + [b])[i].End() <= (blocks + [b])[n].addr;
        assert LinkAt(m, blocks, i);
      }
    }
  }

  /** Headers at `a` and `b` do not overlap. */
  predicate Apart(a: nat, b: nat) {
    a + 25 <= b || b + 25 <= a
  }

  lemma LiveInLonger(blocks: seq<Block>, longer: seq<Block>, x: nat)
    requires blocks <= longer && InLive(blocks, x)
    ensures InLive(longer, x)
  {
    var i :| 0 <= i < |blocks| && !blocks[i].free && blocks[i].addr + 25 <= x < blocks[i].End();
    assert longer[i] == blocks[i];
  }
}
