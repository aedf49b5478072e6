/**
  The physical memory manager: one bit per page frame in a static byte array, and a
  separately kept count of free frames.
 */
module PhysicalMemory {
  import opened Machine
  import opened Multiboot
  import opened Frames

  const BITMAP_BYTES: nat := 32768

  // ---------- One byte of the bitmap ----------

  predicate OneBit(m: bv8) {
    m == 1 || m == 2 || m == 4 || m == 8 || m == 16 || m == 32 || m == 64 || m == 128
  }

  function Mask(bit: nat): bv8
    requires bit < 8
  {
    1 << bit
  }

  lemma MasksDiffer(bit: nat, other: nat)
    requires bit < 8 && other < 8
    ensures OneBit(Mask(bit)) && OneBit(Mask(other)) && (Mask(bit) == Mask(other) <==> bit == other)
  {
    assert Mask(0) == 1 && Mask(1) == 2 && Mask(2) == 4 && Mask(3) == 8;
    assert Mask(4) == 16 && Mask(5) == 32 && Mask(6) == 64 && Mask(7) == 128;
  }

  lemma MaskedBits(b: bv8, m: bv8, n: bv8)
    requires OneBit(m) && OneBit(n)
    ensures (b | m) & n != 0 <==> n == m || b & n != 0
    ensures (b & !m) & n != 0 <==> n != m && b & n != 0
  {
  }

  predicate BitIsSet(b: bv8, bit: nat)
    requires bit < 8
  {
    b & Mask(bit) != 0
  }

  function WithBit(b: bv8, bit: nat): bv8
    requires bit < 8
  {
    b | Mask(bit)
  }

  function WithoutBit(b: bv8, bit: nat): bv8
    requires bit < 8
  {
    b & !Mask(bit)
  }

  // Setting or clearing a bit changes that bit and no neighbour in its byte.
  lemma SettingOneBit(b: bv8, bit: nat, other: nat)
    requires bit < 8 && other < 8
    ensures BitIsSet(WithBit(b, bit), other) <==> other == bit || BitIsSet(b, other)
  {
    hide Mask, OneBit;
    MasksDiffer(bit, other);
    MaskedBits(b, Mask(bit), Mask(other));
  }

  lemma ClearingOneBit(b: bv8, bit: nat, other: nat)
    requires bit < 8 && other < 8
    ensures BitIsSet(WithoutBit(b, bit), other) <==> other != bit && BitIsSet(b, other)
  {
    hide Mask, OneBit;
    MasksDiffer(bit, other);
    MaskedBits(b, Mask(bit), Mask(other));
  }

  lemma AllOnesSet(bit: nat)
    requires bit < 8
    ensures BitIsSet(0xFF, bit)
  {
  }

  class Pmm {
    const bitmap: array<bv8>
    var bitmapSize: nat
    var totalPages: nat
    var freePages: u64
    var maxMemory: u64

    /** The sizes agree, and no bit at or above `totalPages` marks a free frame. */
    ghost predicate Valid()
      reads `bitmapSize, `totalPages, bitmap
    {
      && bitmap.Length == BITMAP_BYTES
      && totalPages <= MAX_FRAMES
      && bitmapSize == (totalPages + 7) / 8
      && forall p :: totalPages <= p ==> Used(p)
    }

    /** The bit of frame `p` as the source tests it: outside the bitmap it counts as set. */
    ghost predicate Used(p: nat)
      requires bitmap.Length == BITMAP_BYTES && bitmapSize <= BITMAP_BYTES
      reads `bitmapSize, bitmap
    {
      p / 8 >= bitmapSize || BitIsSet(bitmap[p / 8], p % 8)
    }

    /** The abstract state: the set of free frames. */
    ghost function Free(): (s: set<nat>)
      requires Valid()
      reads `bitmapSize, `totalPages, bitmap
      ensures forall p :: p in s <==> !Used(p)
    {
      set p: nat | p < totalPages && !Used(p)
    }

    /** The difference between the counter and the number of clear bits. */
    ghost function Drift(): u64
      requires Valid()
      reads this, bitmap
    {
      Sub64(freePages, |Free()|)
    }

    constructor ()
      ensures Valid() && fresh(bitmap)
      ensures totalPages == 0 && freePages == 0 && maxMemory == 0
    {
      bitmap := new bv8[BITMAP_BYTES](_ => 0);
      bitmapSize, totalPages, freePages, maxMemory := 0, 0, 0, 0;
    }

    method BitmapSet(p: nat)
      requires bitmap.Length == BITMAP_BYTES && bitmapSize <= BITMAP_BYTES
      modifies bitmap
      ensures forall q :: Used(q) <==> q == p || old(Used(q))
    {
      var byte, bit := p / 8, p % 8;
      if byte < bitmapSize {
        bitmap[byte] := WithBit(bitmap[byte], bit);
        forall q | q / 8 == byte ensures Used(q) <==> q == p || old(Used(q)) {
          SettingOneBit(old(bitmap[byte]), bit, q % 8);
        }
      }
    }

    method BitmapClear(p: nat)
      requires bitmap.Length == BITMAP_BYTES && bitmapSize <= BITMAP_BYTES
      modifies bitmap
      ensures forall q :: Used(q) <==> (q != p || p / 8 >= bitmapSize) && old(Used(q))
    {
      var byte, bit := p / 8, p % 8;
      if byte < bitmapSize {
        bitmap[byte] := WithoutBit(bitmap[byte], bit);
        forall q | q / 8 == byte ensures Used(q) <==> q != p && old(Used(q)) {
          ClearingOneBit(old(bitmap[byte]), bit, q % 8);
        }
      }
    }

    method BitmapTest(p: nat) returns (set_: bool)
      requires bitmap.Length == BITMAP_BYTES && bitmapSize <= BITMAP_BYTES
      ensures set_ <==> Used(p)
    {
      var byte, bit := p / 8, p % 8;
      if byte >= bitmapSize {
        return true;
      }
      return BitIsSet(bitmap[byte], bit);
    }

    // First pass over the boot information: where available memory ends.
    method ScanMemoryMap(info: seq<u8>)
      requires TagsOk(info, 8) && maxMemory == 0
      modifies `maxMemory
      ensures maxMemory == MaxEnd(Entries(info, 8))
    {
      hide U32At, U64At, MaxEnd, TagsOk, Entries, TagEntries, Stride;
      NoEntries(totalPages);
      NextTag(info, 8);
      var tag := 8;
      ghost var done: seq<Entry> := [];
      while U32At(info, tag) != TAG_END
        invariant tag + 8 <= |info| && TagsOk(info, tag)
        invariant done + Entries(info, tag) == Entries(info, 8)
        invariant maxMemory == MaxEnd(done)
        decreases |info| - tag
      {
        NextTag(info, tag);
        ScanTag(info, tag, done);
        done := done + TagEntries(info, tag);
        tag := tag + Stride(U32At(info, tag + 4));
      }
      NextTag(info, tag);
      assert done == Entries(info, 8);
    }

    method ScanTag(info: seq<u8>, tag: nat, ghost done: seq<Entry>)
      requires TagsOk(info, tag) && U32At(info, tag) != TAG_END
      requires maxMemory == MaxEnd(done)
      modifies `maxMemory
      ensures maxMemory == MaxEnd(done + TagEntries(info, tag))
    {
      hide U32At, U64At, MaxEnd, ReadEntries;
      if U32At(info, tag) == TAG_MMAP {
        TagEntriesRead(info, tag);
        var count := EntryCount(info, tag);
        ghost var es := TagEntries(info, tag);
        var i := 0;
        assert done + es[..0] == done;
        while i < count
          invariant 0 <= i <= count
          invariant maxMemory == MaxEnd(done + es[..i])
        {
          var e := EntryAt(info, tag + 16 + i * 24);
          MaxEndLast(done + es[..i], e);
          assert done + es[..i + 1] == done + es[..i] + [e];
          if e.kind == AVAILABLE {
            var end := EntryEnd(e);
            if end > maxMemory {
              maxMemory := end;
            }
          }
          i := i + 1;
        }
        assert es[..count] == es;
      } else {
        assert done + [] == done;
      }
    }

    // Second pass: mark the whole frames of every available entry free, counting each mark.
    method MarkAvailable(info: seq<u8>)
      requires TagsOk(info, 8) && |info| <= 0x1_0000_0000
      requires Valid() && Free() == {} && freePages == 0
      modifies `freePages, bitmap
      ensures Valid() && Marked(Entries(info, 8))
    {
      hide U32At, U64At, MarkCount, Covered, Valid, Used, Free, TagsOk, Entries, TagEntries, Stride;
      NoEntries(totalPages);
      NextTag(info, 8);
      EntriesBound(info, 8);
      var tag := 8;
      ghost var done: seq<Entry> := [];
      while U32At(info, tag) != TAG_END
        invariant tag + 8 <= |info| && TagsOk(info, tag)
        invariant done + Entries(info, tag) == Entries(info, 8)
        invariant Valid() && Marked(done)
        decreases |info| - tag
      {
        NextTag(info, tag);
        MarkTag(info, tag, done);
        done := done + TagEntries(info, tag);
        tag := tag + Stride(U32At(info, tag + 4));
      }
      NextTag(info, tag);
      assert done == Entries(info, 8);
    }

    /** The entries `done` have been marked, and nothing else. */
    ghost predicate Marked(done: seq<Entry>)
      requires Valid()
      reads `bitmapSize, `totalPages, `freePages, bitmap
    {
      Free() == Covered(done, totalPages) && freePages == MarkCount(done, totalPages)
    }

    method MarkTag(info: seq<u8>, tag: nat, ghost done: seq<Entry>)
      requires TagsOk(info, tag) && U32At(info, tag) != TAG_END
      requires Valid() && Marked(done)
      requires |done| + |TagEntries(info, tag)| < 0x1_0000_0000
      modifies `freePages, bitmap
      ensures Valid() && Marked(done + TagEntries(info, tag))
    {
      hide U32At, U64At, MarkCount, Covered, ReadEntries, Valid, Used, Free;
      if U32At(info, tag) == TAG_MMAP {
        TagEntriesRead(info, tag);
        var count := EntryCount(info, tag);
        ghost var es := TagEntries(info, tag);
        var i := 0;
        assert done + es[..0] == done;
        while i < count
          invariant 0 <= i <= count
          invariant Valid() && Marked(done + es[..i])
        {
          MarkEntry(EntryAt(info, tag + 16 + i * 24), done + es[..i]);
          assert done + es[..i + 1] == done + es[..i] + [es[i]];
          i := i + 1;
        }
        assert es[..count] == es;
      } else {
        assert done + [] == done;
      }
    }

    // The marks of one entry.
    method MarkEntry(e: Entry, ghost done: seq<Entry>)
      requires |done| < 0x1_0000_0000
      requires Valid() && Marked(done)
      modifies `freePages, bitmap
      ensures Valid() && Marked(done + [e])
    {
      hide MarkCount, Covered, Used, Free, Interval;
      MarkCountBound(done, totalPages);
      MarksLast(done, e, totalPages);
      if e.kind == AVAILABLE {
        MarkFrames(e.addr / 4096, e.len / 4096);
        IntervalSize(e.addr / 4096, Min(e.addr / 4096 + e.len / 4096, totalPages));
      }
    }

    method MarkFrames(startPage: nat, pageCount: nat)
      requires Valid() && freePages + MAX_FRAMES < TWO_64 && totalPages <= MAX_FRAMES
      modifies `freePages, bitmap
      ensures var end := Min(startPage + pageCount, totalPages);
        && Valid() && Free() == old(Free()) + Interval(startPage, end)
        && freePages == old(freePages) + if startPage < end then end - startPage else 0
    {
      hide Used, Free, Interval, Valid;
      IntervalGrows(startPage, startPage);
      var p := startPage;
      while p < startPage + pageCount && p < totalPages
        invariant startPage <= p <= startPage + pageCount
        invariant p <= totalPages || p == startPage
        invariant Valid() && Free() == old(Free()) + Interval(startPage, p)
        invariant freePages == old(freePages) + (p - startPage)
        modifies `freePages, bitmap
      {
        MarkPage(p);
        IntervalGrows(startPage, p);
        p := p + 1;
      }
      if p == startPage {
        EmptyInterval(startPage, Min(startPage + pageCount, totalPages));
      }
    }

    method MarkPage(p: nat)
      requires Valid() && p < totalPages
      modifies `freePages, bitmap
      ensures Valid() && Free() == old(Free()) + {p}
      ensures freePages == Add64(old(freePages), 1)
    {
      ghost var before := Free();
      BitmapClear(p);
      FreeIs(before + {p});
      freePages := Add64(freePages, 1);
    }

    // The first 2 MiB are never handed out.
    method ReserveLow()
      requires Valid() && |Free()| <= freePages
      modifies `freePages, bitmap
      ensures Valid() && Free() == old(Free()) - Interval(0, RESERVED)
      ensures freePages - |Free()| == old(freePages - |Free()|)
    {
      hide Interval, Used, Free, Valid;
      ghost var free, slack := Free(), freePages - |Free()|;
      var p := 0;
      while p < RESERVED
        invariant 0 <= p <= RESERVED && Valid()
        invariant forall q :: q in Free() <==> p <= q && q in free
        invariant freePages - |Free()| == slack
      {
        ReservePage(p);
        p := p + 1;
      }
      assert Free() == free - Interval(0, RESERVED);
    }

    method ReservePage(p: nat)
      requires Valid() && |Free()| <= freePages
      modifies `freePages, bitmap
      ensures Valid() && Free() == old(Free()) - {p}
      ensures freePages - |Free()| == old(freePages - |Free()|)
    {
      ghost var before := Free();
      var used := BitmapTest(p);
      if !used {
        assert |before - {p}| == |before| - 1;
        freePages := Sub64(freePages, 1);
      }
      BitmapSet(p);
      FreeIs(before - {p});
    }

    // The sizes: one bit per frame, at most what the static buffer holds; every bit set.
    method SizeBitmap()
      requires bitmap.Length == BITMAP_BYTES
      modifies this, bitmap
      ensures Valid() && Free() == {} && totalPages == TotalFor(maxMemory)
      ensures totalPages == if maxMemory < 0x4000_0000 then maxMemory / 4096 else 262144
      ensures freePages == old(freePages) && maxMemory == old(maxMemory)
    {
      totalPages := maxMemory / 4096;
      bitmapSize := (totalPages + 7) / 8;
      if bitmapSize > BITMAP_BYTES {
        bitmapSize := BITMAP_BYTES;
        totalPages := bitmapSize * 8;
      }
      var i := 0;
      while i < bitmapSize
        invariant 0 <= i <= bitmapSize
        invariant forall j :: 0 <= j < i ==> bitmap[j] == 0xFF
        modifies bitmap
      {
        bitmap[i] := 0xFF;
        i := i + 1;
      }
      forall p: nat ensures Used(p) {
        AllOnesSet(p % 8);
      }
      FreeIs({});
    }

    // Builds the bitmap from the boot information; called once, on zeroed static state.
    method Init(info: seq<u8>)
      requires Valid() && maxMemory == 0 && freePages == 0
      requires TagsOk(info, 8) && |info| <= 0x1_0000_0000
      modifies this, bitmap
      ensures Valid() && totalPages == TotalFor(MaxEnd(Entries(info, 8)))
      ensures Free() == Covered(Entries(info, 8), totalPages) - Interval(0, RESERVED)
      ensures freePages - |Free()| == MarkCount(Entries(info, 8), totalPages) - |Covered(Entries(info, 8), totalPages)|
      ensures freePages == |Free()| <==> FramesDisjoint(Entries(info, 8), totalPages)
    {
      hide Covered, MarkCount, FramesDisjoint, Entries, Free, Used, Interval, MaxEnd;
      ScanMemoryMap(info);
      SizeBitmap();
      MarkAvailable(info);
      MarkCountExact(Entries(info, 8), totalPages);
      ReserveLow();
    }

    // Takes the lowest free frame. The result 0 is ambiguous only if frame 0 can be free.
    method AllocPage() returns (phys: u64)
      requires Valid()
      modifies this`freePages, bitmap
      ensures Valid() && Drift() == old(Drift())
      ensures phys == 0 <==> old(Free()) == {} || 0 in old(Free())
      ensures old(Free()) == {} ==> phys == 0 && Free() == {} && freePages == old(freePages)
      ensures old(Free()) != {} ==>
        var p := Lowest(old(Free()));
        phys == p * 4096 && Free() == old(Free()) - {p} && freePages == Sub64(old(freePages), 1)
    {
      var i := 0;
      while i < totalPages
        invariant 0 <= i <= totalPages
        invariant unchanged(this) && unchanged(bitmap)
        invariant forall p :: 0 <= p < i ==> Used(p)
      {
        var used := BitmapTest(i);
        if !used {
          assert IsLowest(Free(), i);
          ghost var before := Free();
          BitmapSet(i);
          FreeIs(before - {i});
          FewerByOne(freePages, before, i);
          freePages := Sub64(freePages, 1);
          return i * 4096;
        }
        i := i + 1;
      }
      FreeIs({});
      return 0;
    }

    // Marks the frame holding `phys` free if it is managed and in use; otherwise does nothing.
    method FreePage(phys: u64)
      requires Valid()
      modifies this`freePages, bitmap
      ensures Valid() && Drift() == old(Drift())
      ensures Free() == if phys / 4096 < totalPages then old(Free()) + {phys / 4096} else old(Free())
      ensures freePages == if Free() == old(Free()) then old(freePages) else Add64(old(freePages), 1)
    {
      hide Used, Sub64;
      var page := phys / 4096;
      if page < totalPages {
        var used := BitmapTest(page);
        if used {
          ghost var before := Free();
          BitmapClear(page);
          FreeIs(before + {page});
          MoreByOne(freePages, before, page);
          freePages := Add64(freePages, 1);
        } else {
          FreeIs(Free() + {page});
        }
      }
    }

    // Clients that return only what they hold, served call by call.
    method Serve(calls: seq<Call>, ghost outstanding: set<nat>)
      requires Valid() && CallsAllowed(Holdings(Free(), outstanding), calls)
      requires forall p :: p in Free() + outstanding ==> RESERVED <= p < totalPages
      modifies this`freePages, bitmap
      ensures Valid() && Drift() == old(Drift())
      ensures Free() == RunCalls(Holdings(old(Free()), outstanding), calls).free
    {
      hide Used, Free, Drift;
      ghost var h := Holdings(Free(), outstanding);
      var i := 0;
      while i < |calls|
        invariant 0 <= i <= |calls| && Valid() && Free() == h.free && Drift() == old(Drift())
        invariant forall p :: p in h.free + h.outstanding ==> RESERVED <= p < totalPages
        invariant CallsAllowed(h, calls[i..])
        invariant RunCalls(h, calls[i..]) == RunCalls(Holdings(old(Free()), outstanding), calls)
      {
        assert calls[i..] != [] && calls[i..][0] == calls[i] && calls[i..][1..] == calls[i + 1..];
        assert Allowed(h, calls[i]);
        match calls[i] {
          case Alloc => var phys := AllocPage();
          case Return(p) =>
            assert p in h.free + h.outstanding;
            FreePage(p * 4096);
        }
        StepKeepsUnion(h, calls[i]);
        h := Step(h, calls[i]);
        i := i + 1;
      }
    }

    lemma FreeIs(s: set<nat>)
      requires bitmap.Length == BITMAP_BYTES && totalPages <= MAX_FRAMES && bitmapSize == (totalPages + 7) / 8
      requires forall p :: p in s <==> !Used(p)
      requires forall p :: p in s ==> p < totalPages
      ensures Valid() && Free() == s
    {
    }

    method GetTotalMemory() returns (bytes: u64)
      requires Valid()
      ensures bytes == totalPages * 4096
    {
      bytes := totalPages * 4096;
    }

    lemma NoDriftWhenRight()
      requires Valid()
      ensures Drift() == 0 <==> freePages == |Free()|
    {
      FreeIsSmall();
    }

    method GetFreeMemory() returns (bytes: u64)
      requires Valid()
      ensures Drift() == 0 ==> bytes == |Free()| * 4096
    {
      FreeIsSmall();
      bytes := freePages * 4096 % 0x1_0000_0000_0000_0000;
    }

    lemma FreeIsSmall()
      requires Valid()
      ensures |Free()| <= totalPages
    {
      assert Free() <= Interval(0, totalPages);
      SubsetSize(Free(), Interval(0, totalPages));
      IntervalSize(0, totalPages);
    }
  }

  lemma FewerByOne(count: u64, s: set<nat>, p: nat)
    requires p in s
    ensures Sub64(Sub64(count, 1), |s - {p}|) == Sub64(count, |s|)
  {
    assert |s - {p}| == |s| - 1;
  }

  lemma MoreByOne(count: u64, s: set<nat>, p: nat)
    requires p !in s
    ensures Sub64(Add64(count, 1), |s + {p}|) == Sub64(count, |s|)
  {
  }

  lemma SubsetSize(a: set<nat>, b: set<nat>)
    requires a <= b
    ensures |a| <= |b|
  {
    assert b == a + (b - a);
  }
}
