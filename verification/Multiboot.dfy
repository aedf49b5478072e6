/**
  The Multiboot2 boot information: a byte layout of tags (Multiboot2 specification,
  sections 3.6.2 and 3.6.8) and what a walk over the tags reads from it.
 */
module Multiboot {
  import opened Machine

  const TAG_END: u32 := 0
  const TAG_MMAP: u32 := 6
  const AVAILABLE: u32 := 1

  datatype Entry = Entry(addr: u64, len: u64, kind: u32, zero: u32)

  // ---------- Reading ----------

  function U32At(info: seq<u8>, at: nat): u32
    requires at + 4 <= |info|
  {
    U32Of(info[at..at + 4])
  }

  function U64At(info: seq<u8>, at: nat): u64
    requires at + 8 <= |info|
  {
    U64Of(info[at..at + 8])
  }

  function EntryAt(info: seq<u8>, at: nat): Entry
    requires at + 24 <= |info|
  {
    Entry(U64At(info, at), U64At(info, at + 8), U32At(info, at + 16), U32At(info, at + 20))
  }

  function ReadEntries(info: seq<u8>, at: nat, n: nat): (es: seq<Entry>)
    requires at + n * 24 <= |info|
    ensures |es| == n
    decreases n
  {
    if n == 0 then [] else [EntryAt(info, at)] + ReadEntries(info, at + 24, n - 1)
  }

  /** The distance from a tag to the next one, in 32-bit arithmetic. */
  function Stride(size: u32): nat {
    var padded := Add32(size, 7);
    padded - padded % 8
  }

  // The source computes the stride with a mask: (size + 7) & ~7.
  lemma StrideIsMask(size: u32)
    ensures Stride(size) == And(Add32(size, 7), 0xFFFF_FFF8)
  {
    hide And, Shl, Shr, Pow2;
    var padded := Add32(size, 7);
    Pow2Values();
    AndFieldMask(padded, 29, 3);
    ShrIsDivide(padded, 3);
    ShlIsTimes(0x1FFF_FFFF, 3);
    ShlIsTimes(padded / 8 % 0x2000_0000, 3);
    RoundDown(padded, 0x2000_0000);
  }

  /** How many entries the walk reads from a memory-map tag. */
  function EntryCount(info: seq<u8>, tag: nat): nat
    requires tag + 16 <= |info|
    requires U32At(info, tag + 8) != 0
  {
    CountOf(U32At(info, tag + 4), U32At(info, tag + 8))
  }

  function CountOf(size: u32, entrySize: u32): nat
    requires entrySize != 0
  {
    var room: nat := Add32(size, -16);
    QuotientNatural(room, entrySize);
    room / entrySize
  }

  // As many entries as fit at their stated size, 24 or more, fit at 24 bytes each.
  lemma CountFits(room: nat, entrySize: nat)
    requires entrySize >= 24
    ensures room / entrySize * 24 <= room
  {
    WideEnough(room / entrySize, entrySize);
  }

  lemma WideEnough(n: nat, entrySize: nat)
    requires entrySize >= 24
    ensures n * 24 <= n * entrySize
  {
    assert n * entrySize == n * 24 + n * (entrySize - 24);
  }

  /** The tags from `tag` on are well formed up to and including an end tag, in `info`. */
  ghost predicate TagsOk(info: seq<u8>, tag: nat)
    decreases |info| - tag
  {
    tag + 8 <= |info| &&
    (U32At(info, tag) != TAG_END ==>
       var size := U32At(info, tag + 4);
       && 8 <= size
       && tag + size <= |info|
       && Stride(size) >= 8
       && (U32At(info, tag) == TAG_MMAP ==> 16 <= size && U32At(info, tag + 8) >= 24)
       && TagsOk(info, tag + Stride(size)))
  }

  /** The memory-map entries that a walk from `tag` meets, in order. */
  ghost function Entries(info: seq<u8>, tag: nat): seq<Entry>
    requires TagsOk(info, tag)
    decreases |info| - tag
  {
    if U32At(info, tag) == TAG_END then []
    else TagEntries(info, tag) + Entries(info, tag + Stride(U32At(info, tag + 4)))
  }

  /** The entries of one tag, read 24 bytes apart whatever the tag says their size is. */
  ghost function TagEntries(info: seq<u8>, tag: nat): seq<Entry>
    requires TagsOk(info, tag) && U32At(info, tag) != TAG_END
  {
    if U32At(info, tag) == TAG_MMAP then
      CountInTag(info, tag);
      ReadEntries(info, tag + 16, EntryCount(info, tag))
    else []
  }

  lemma CountInTag(info: seq<u8>, tag: nat)
    requires tag + 16 <= |info| && 16 <= U32At(info, tag + 4) && 24 <= U32At(info, tag + 8)
    ensures 16 + EntryCount(info, tag) * 24 <= U32At(info, tag + 4)
  {
    hide U32At;
    var size: nat := U32At(info, tag + 4);
    assert Add32(size, -16) == size - 16;
    CountFits(size - 16, U32At(info, tag + 8));
  }

  lemma NextTag(info: seq<u8>, tag: nat)
    requires TagsOk(info, tag)
    ensures tag + 8 <= |info|
    ensures U32At(info, tag) == TAG_END ==> Entries(info, tag) == []
    ensures U32At(info, tag) != TAG_END ==>
      var next := tag + Stride(U32At(info, tag + 4));
      && tag < next && next + 8 <= |info| && TagsOk(info, next)
      && Entries(info, tag) == TagEntries(info, tag) + Entries(info, next)
  {
  }

  lemma {:induction false} ReadEntriesAt(info: seq<u8>, at: nat, n: nat, i: nat)
    requires i < n && at + n * 24 <= |info|
    ensures ReadEntries(info, at, n)[i] == EntryAt(info, at + i * 24)
    decreases n
  {
    if i > 0 {
      ReadEntriesAt(info, at + 24, n - 1, i - 1);
      assert at + 24 + (i - 1) * 24 == at + i * 24;
    }
  }

  // A memory-map tag holds the entries it counts.
  lemma TagEntriesRead(info: seq<u8>, tag: nat)
    requires TagsOk(info, tag) && U32At(info, tag) == TAG_MMAP
    ensures var n := EntryCount(info, tag);
      && tag + 16 + n * 24 <= tag + U32At(info, tag + 4) <= |info|
      && |TagEntries(info, tag)| == n
      && forall i :: 0 <= i < n ==> TagEntries(info, tag)[i] == EntryAt(info, tag + 16 + i * 24)
  {
    hide U32At, U64At, EntryAt, ReadEntries;
    var n, size := EntryCount(info, tag), U32At(info, tag + 4);
    CountInTag(info, tag);
    forall i | 0 <= i < n ensures TagEntries(info, tag)[i] == EntryAt(info, tag + 16 + i * 24) {
      ReadEntriesAt(info, tag + 16, n, i);
    }
  }

  // Every entry read takes 24 bytes of the boot information.
  lemma {:induction false} EntriesBound(info: seq<u8>, tag: nat)
    requires TagsOk(info, tag) && |info| <= 0x1_0000_0000
    ensures |Entries(info, tag)| * 24 + tag <= |info|
    decreases |info| - tag
  {
    hide U32At, ReadEntries;
    if U32At(info, tag) != TAG_END {
      var size := U32At(info, tag + 4);
      var here, rest := TagEntries(info, tag), Entries(info, tag + Stride(size));
      assert Entries(info, tag) == here + rest;
      assert |here| * 24 <= size by {
        if U32At(info, tag) == TAG_MMAP {
          TagEntriesRead(info, tag);
        }
      }
      assert |rest| * 24 + tag + Stride(size) <= |info| by { EntriesBound(info, tag + Stride(size)); }
      StrideCovers(info, tag, size);
    }
  }

  lemma StrideCovers(info: seq<u8>, tag: nat, size: u32)
    requires tag + size <= |info| <= 0x1_0000_0000 && Stride(size) >= 8
    ensures size <= Stride(size)
  {
  }

  // ---------- Encoding ----------

  datatype Tag =
    | MemoryMap(version: u32, entrySize: u32, entries: seq<Entry>)
    | Other(kind: u32, payload: seq<u8>)
  {
    ghost predicate Fits() {
      match this
      case MemoryMap(_, entrySize, entries) => entrySize >= 24 && 16 + |entries| * entrySize + 7 < 0x1_0000_0000
      case Other(kind, payload) => kind != TAG_END && kind != TAG_MMAP && 8 + |payload| + 7 < 0x1_0000_0000
    }

    ghost function Size(): u32
      requires Fits()
    {
      match this
      case MemoryMap(_, entrySize, entries) => 16 + |entries| * entrySize
      case Other(kind, payload) => 8 + |payload|
    }

    /** The source steps through the entries by 24 bytes. */
    ghost predicate Readable() {
      MemoryMap? ==> entrySize == 24 || |entries| <= 1
    }
  }

  function Zeros(n: nat): (s: seq<u8>)
    ensures |s| == n
  {
    seq(n, i => 0)
  }

  function EncodeEntry(e: Entry): (s: seq<u8>)
    ensures |s| == 24
  {
    ToBytes(e.addr, 8) + ToBytes(e.len, 8) + ToBytes(e.kind, 4) + ToBytes(e.zero, 4)
  }

  /** Entries of `entrySize` bytes each. */
  ghost function EncodeEntries(es: seq<Entry>, entrySize: nat): (s: seq<u8>)
    requires entrySize >= 24
    ensures |s| == |es| * entrySize
  {
    if es == [] then []
    else
      assert |es| * entrySize == entrySize + (|es| - 1) * entrySize;
      EncodeEntry(es[0]) + Zeros(entrySize - 24) + EncodeEntries(es[1..], entrySize)
  }

  ghost function EncodeTag(t: Tag): (s: seq<u8>)
    requires t.Fits()
    ensures |s| == t.Size()
  {
    match t
    case MemoryMap(version, entrySize, entries) =>
      ToBytes(TAG_MMAP, 4) + ToBytes(t.Size(), 4) + ToBytes(entrySize, 4) + ToBytes(version, 4)
      + EncodeEntries(entries, entrySize)
    case Other(kind, payload) =>
      ToBytes(kind, 4) + ToBytes(t.Size(), 4) + payload
  }

  /** A tag list in memory: every tag padded to a multiple of 8 bytes, then the end tag. */
  ghost function EncodeTags(ts: seq<Tag>): seq<u8>
    requires forall t :: t in ts ==> t.Fits()
  {
    if ts == [] then ToBytes(TAG_END, 4) + ToBytes(8, 4)
    else
      EncodeTag(ts[0]) + Zeros(Stride(ts[0].Size()) - ts[0].Size()) + EncodeTags(ts[1..])
  }

  ghost function AllEntries(ts: seq<Tag>): seq<Entry> {
    if ts == [] then []
    else (if ts[0].MemoryMap? then ts[0].entries else []) + AllEntries(ts[1..])
  }

  // ---------- The walk reads what was encoded ----------

  lemma U32Encoded(info: seq<u8>, at: nat, v: u32)
    requires at + 4 <= |info| && info[at..at + 4] == ToBytes(v, 4)
    ensures U32At(info, at) == v
  {
    WordsRoundTrip(v);
  }

  lemma U64Encoded(info: seq<u8>, at: nat, v: u64)
    requires at + 8 <= |info| && info[at..at + 8] == ToBytes(v, 8)
    ensures U64At(info, at) == v
  {
    WordsRoundTrip(v);
  }

  lemma EntryEncoded(info: seq<u8>, at: nat, e: Entry)
    requires at + 24 <= |info| && info[at..at + 24] == EncodeEntry(e)
    ensures EntryAt(info, at) == e
  {
    var a, l := ToBytes(e.addr, 8), ToBytes(e.len, 8);
    var k, z := ToBytes(e.kind, 4), ToBytes(e.zero, 4);
    var s := a + l + k + z;
    SliceOfSlice(info, at, at + 24, 0, 8);
    SliceOfSlice(info, at, at + 24, 8, 16);
    SliceOfSlice(info, at, at + 24, 16, 20);
    SliceOfSlice(info, at, at + 24, 20, 24);
    assert s[0..8] == a && s[8..16] == l && s[16..20] == k && s[20..24] == z;
    U64Encoded(info, at, e.addr);
    U64Encoded(info, at + 8, e.len);
    U32Encoded(info, at + 16, e.kind);
    U32Encoded(info, at + 20, e.zero);
  }

  lemma {:induction false} EntriesEncoded(info: seq<u8>, at: nat, es: seq<Entry>, entrySize: nat)
    requires entrySize >= 24 && (entrySize == 24 || |es| <= 1)
    requires at + |es| * entrySize <= |info|
    requires info[at..at + |es| * entrySize] == EncodeEntries(es, entrySize)
    ensures at + |es| * 24 <= |info| && ReadEntries(info, at, |es|) == es
    decreases |es|
  {
    hide EntryAt, EncodeEntry;
    if es != [] {
      var n := |es| * entrySize;
      var s := info[at..at + n];
      assert n == entrySize + (|es| - 1) * entrySize;
      var rest := EncodeEntries(es[1..], entrySize);
      assert s == EncodeEntry(es[0]) + Zeros(entrySize - 24) + rest;
      SliceOfSlice(info, at, at + n, 0, 24);
      SliceOfSlice(info, at, at + n, entrySize, n);
      assert s[0..24] == EncodeEntry(es[0]) && s[entrySize..n] == rest;
      EntryEncoded(info, at, es[0]);
      if |es| > 1 {
        EntriesEncoded(info, at + 24, es[1..], 24);
      } else {
        assert es == [es[0]];
      }
    }
  }

  lemma HeaderParts(s: seq<u8>, at: nat, k: seq<u8>, z: seq<u8>, rest: seq<u8>)
    requires |k| == 4 && |z| == 4 && at + 8 + |rest| <= |s|
    requires s[at..at + 8 + |rest|] == k + z + rest
    ensures s[at..at + 4] == k && s[at + 4..at + 8] == z && s[at + 8..at + 8 + |rest|] == rest
  {
    var n := 8 + |rest|;
    assert (k + z + rest)[0..4] == k && (k + z + rest)[4..8] == z && (k + z + rest)[8..n] == rest;
    SliceOfSlice(s, at, at + n, 0, 4);
    SliceOfSlice(s, at, at + n, 4, 8);
    SliceOfSlice(s, at, at + n, 8, n);
  }

  // Every tag starts with its kind and its size.
  lemma TagHeaderEncoded(info: seq<u8>, at: nat, kind: u32, size: u32, rest: seq<u8>)
    requires at + 8 + |rest| <= |info|
    requires info[at..at + 8 + |rest|] == ToBytes(kind, 4) + ToBytes(size, 4) + rest
    ensures U32At(info, at) == kind && U32At(info, at + 4) == size
    ensures info[at + 8..at + 8 + |rest|] == rest
  {
    HeaderParts(info, at, ToBytes(kind, 4), ToBytes(size, 4), rest);
    U32Encoded(info, at, kind);
    U32Encoded(info, at + 4, size);
  }

  lemma TagEncoded(info: seq<u8>, at: nat, t: Tag)
    requires t.Fits() && at + t.Size() <= |info| && info[at..at + t.Size()] == EncodeTag(t)
    ensures U32At(info, at) == (if t.MemoryMap? then TAG_MMAP else t.kind)
    ensures U32At(info, at + 4) == t.Size()
    ensures t.MemoryMap? ==>
      && U32At(info, at + 8) == t.entrySize
      && EntryCount(info, at) == |t.entries|
      && (t.Readable() ==> at + 16 + |t.entries| * 24 <= |info| && ReadEntries(info, at + 16, |t.entries|) == t.entries)
  {
    hide ToBytes, U32At, ReadEntries;
    match t
    case MemoryMap(version, entrySize, entries) =>
      MemoryMapEncoded(info, at, version, entrySize, entries);
      CountEncoded(info, at, entrySize, |entries|);
    case Other(kind, payload) =>
      TagHeaderEncoded(info, at, kind, t.Size(), payload);
  }

  lemma CountEncoded(info: seq<u8>, at: nat, entrySize: nat, n: nat)
    requires at + 16 <= |info| && entrySize > 0 && 16 + n * entrySize < TWO_32
    requires U32At(info, at + 4) == 16 + n * entrySize && U32At(info, at + 8) == entrySize
    ensures EntryCount(info, at) == n
  {
    hide U32At;
    assert Add32(16 + n * entrySize, -16) == n * entrySize;
    DivisionIs(n * entrySize, entrySize, n, 0);
  }

  lemma MemoryMapEncoded(info: seq<u8>, at: nat, version: u32, entrySize: u32, entries: seq<Entry>)
    requires var t := MemoryMap(version, entrySize, entries);
      t.Fits() && at + t.Size() <= |info| && info[at..at + t.Size()] == EncodeTag(t)
    ensures var n := 16 + |entries| * entrySize;
      && U32At(info, at) == TAG_MMAP && U32At(info, at + 4) == n && U32At(info, at + 8) == entrySize
    ensures entrySize == 24 || |entries| <= 1 ==>
      at + 16 + |entries| * 24 <= |info| && ReadEntries(info, at + 16, |entries|) == entries
  {
    hide ToBytes, U32At, ReadEntries, EncodeEntries;
    var n: u32 := 16 + |entries| * entrySize;
    var body := EncodeEntries(entries, entrySize);
    var rest := ToBytes(entrySize, 4) + ToBytes(version, 4) + body;
    assert info[at..at + n] == ToBytes(TAG_MMAP, 4) + ToBytes(n, 4) + rest;
    TagHeaderEncoded(info, at, TAG_MMAP, n, rest);
    TagHeaderEncoded(info, at + 8, entrySize, version, body);
    if entrySize == 24 || |entries| <= 1 {
      EntriesEncoded(info, at + 16, entries, entrySize);
    }
  }

  // One step of the walk: an encoded tag followed by a well-formed rest.
  lemma WalkOneTag(info: seq<u8>, at: nat, t: Tag)
    requires t.Fits() && t.Readable()
    requires at + t.Size() <= |info| && at + Stride(t.Size()) + 8 <= |info|
    requires info[at..at + t.Size()] == EncodeTag(t)
    requires TagsOk(info, at + Stride(t.Size()))
    ensures TagsOk(info, at)
    ensures Entries(info, at) ==
            (if t.MemoryMap? then t.entries else []) + Entries(info, at + Stride(t.Size()))
  {
    hide ToBytes, U32At, ReadEntries;
    TagEncoded(info, at, t);
  }

  lemma WalkEnd(info: seq<u8>, at: nat)
    requires at + 8 <= |info| && info[at..at + 8] == ToBytes(TAG_END, 4) + ToBytes(8, 4)
    ensures TagsOk(info, at) && Entries(info, at) == []
  {
    hide ToBytes;
    HeaderParts(info, at, ToBytes(TAG_END, 4), ToBytes(8, 4), []);
    U32Encoded(info, at, TAG_END);
  }

  // The walk over an encoded tag list, wherever it lies in memory, is well defined, stops at
  // the end tag and meets exactly the encoded memory-map entries in their order.
  lemma {:induction false} WalkReadsEncodedTags(before: seq<u8>, ts: seq<Tag>, after: seq<u8>)
    requires forall t :: t in ts ==> t.Fits() && t.Readable()
    ensures TagsOk(before + EncodeTags(ts) + after, |before|)
    ensures Entries(before + EncodeTags(ts) + after, |before|) == AllEntries(ts)
    decreases |ts|
  {
    hide ToBytes, EncodeTag, U32At, Entries;
    var info := before + EncodeTags(ts) + after;
    var at := |before|;
    if ts == [] {
      WalkEnd(info, at);
    } else {
      var t := ts[0];
      var tag, pad := EncodeTag(t), Zeros(Stride(t.Size()) - t.Size());
      var here, rest := before + tag + pad, EncodeTags(ts[1..]);
      WalkReadsEncodedTags(here, ts[1..], after);
      Regroup(before, tag, pad, rest, after);
      EncodingHasEnd(ts[1..]);
      WalkOneTag(info, at, t);
    }
  }

  lemma {:induction false} EncodingHasEnd(ts: seq<Tag>)
    requires forall t :: t in ts ==> t.Fits()
    ensures |EncodeTags(ts)| >= 8
  {
    if ts != [] {
      EncodingHasEnd(ts[1..]);
    }
  }

  lemma Regroup(before: seq<u8>, tag: seq<u8>, pad: seq<u8>, rest: seq<u8>, after: seq<u8>)
    ensures before + (tag + pad + rest) + after == before + tag + pad + rest + after
    ensures (before + (tag + pad + rest) + after)[|before|..|before| + |tag|] == tag
  {
  }

  /** The walk over a list with this one tag is well defined and meets its entries. */
  ghost predicate WalkReads(t: Tag)
    requires t.Fits()
  {
    var info := EncodeTags([t]);
    TagsOk(info, 0) && Entries(info, 0) == if t.MemoryMap? then t.entries else []
  }

  // The source counts entries by their stated size but steps by 24 bytes. It reads every memory
  // map of n entries right exactly when the stated size is 24 or there is at most one entry.
  lemma ReadsBackExactly(n: nat, entrySize: u32, version: u32)
    requires entrySize >= 24 && 16 + n * entrySize + 7 < TWO_32
    ensures (forall es: seq<Entry> :: |es| == n ==> WalkReads(MemoryMap(version, entrySize, es)))
            <==> entrySize == 24 || n <= 1
  {
    hide WalkReads;
    if entrySize == 24 || n <= 1 {
      forall es: seq<Entry> | |es| == n ensures WalkReads(MemoryMap(version, entrySize, es)) {
        WalkReadsOneTag(MemoryMap(version, entrySize, es));
      }
    } else {
      var es: seq<Entry> := seq(n, i => Entry(1, 0, 1, 0));
      MisreadEntry(MemoryMap(version, entrySize, es));
    }
  }

  lemma WalkReadsOneTag(t: Tag)
    requires t.Fits() && t.Readable()
    ensures WalkReads(t)
  {
    hide EncodeTags, TagsOk, Entries;
    var ts, none := [t], [];
    WalkReadsEncodedTags([], ts, []);
    assert [] + EncodeTags(ts) + [] == EncodeTags(ts);
    assert ts[1..] == none && AllEntries(none) == [];
    assert AllEntries(ts) == if t.MemoryMap? then t.entries else [];
  }

  // Read 24 bytes behind the first entry, the second one starts in the padding of the first.
  lemma MisreadEntry(t: Tag)
    requires t.Fits() && t.MemoryMap? && t.entrySize > 24 && |t.entries| > 1 && t.entries[1].addr % 256 != 0
    ensures !WalkReads(t)
  {
    hide ToBytes, EncodeEntries, EncodeEntry, U32At, EntryAt, ReadEntries;
    var info, body, n := EncodeTags([t]), EncodeEntries(t.entries, t.entrySize), 16 + |t.entries| * t.entrySize;
    EncodingStarts(t);
    TagEncoded(info, 0, t);
    PaddingFollows(t.entries, t.entrySize);
    if TagsOk(info, 0) {
      NextTag(info, 0);
      TagEntriesRead(info, 0);
      assert TagEntries(info, 0)[1] == EntryAt(info, 40);
      FirstByte(info, 40);
      assert info[40] == info[0..n][40] == EncodeTag(t)[40] == body[24];
      assert Entries(info, 0)[1] == EntryAt(info, 40);
    }
  }

  lemma EncodingStarts(t: Tag)
    requires t.Fits()
    ensures t.Size() + 8 <= |EncodeTags([t])| && EncodeTags([t])[0..t.Size()] == EncodeTag(t)
  {
    hide EncodeTag;
    var ts, tag := [t], EncodeTag(t);
    var pad := Zeros(Stride(t.Size()) - t.Size());
    EncodingHasEnd(ts[1..]);
    StartsWith(EncodeTags(ts), tag, pad, EncodeTags(ts[1..]));
  }

  lemma StartsWith(s: seq<u8>, tag: seq<u8>, pad: seq<u8>, rest: seq<u8>)
    requires s == tag + pad + rest
    ensures |tag| + |rest| <= |s| && s[0..|tag|] == tag
  {
  }

  lemma PaddingFollows(es: seq<Entry>, entrySize: nat)
    requires es != [] && entrySize > 24
    ensures |EncodeEntries(es, entrySize)| > 24 && EncodeEntries(es, entrySize)[24] == 0
  {
    hide EncodeEntry;
  }

  lemma FirstByte(info: seq<u8>, at: nat)
    requires at + 24 <= |info|
    ensures EntryAt(info, at).addr % 256 == info[at]
  {
    var s := info[at..at + 8];
    DivisionIs(FromBytes(s), 256, FromBytes(s[1..]), s[0]);
  }
}
