/**
  Four-level page tables on values: entries, the hardware walk (Intel SDM Volume 3A,
  section 4.5), and what `vmm_init` and `vmm_map_page` do to the tables in memory.
 */
module PageTables {
  import opened Machine
  import opened Frames

  const PRESENT_WRITABLE: u32 := 3
  const PRESENT_WRITABLE_HUGE: u32 := 0x83
  const FRAME_LIMIT: nat := 0x100_0000_0000 // physical addresses have 52 bits

  type Table = t: seq<u64> | |t| == 512 witness seq(512, i => 0)

  /** Physical memory by frame. */
  type Memory = map<nat, Table>

  // ---------- Entries and indices ----------

  /** The frame an entry points to: bits 51..12. */
  function FrameOf(entry: u64): nat {
    entry / 4096 % 0x100_0000_0000
  }

  predicate IsPresent(entry: u64) {
    entry % 2 == 1
  }

  /** The page-size bit, bit 7. */
  predicate IsHuge(entry: u64) {
    entry / 128 % 2 == 1
  }

  function PteCreate(phys: u64, flags: u32): u64 {
    FrameOf(phys) * 4096 + flags % 4096
  }

  function Pml4Index(virt: u64): nat { virt / 0x80_0000_0000 % 512 }
  function PdptIndex(virt: u64): nat { virt / 0x4000_0000 % 512 }
  function PdIndex(virt: u64): nat { virt / 0x20_0000 % 512 }
  function PtIndex(virt: u64): nat { virt / 0x1000 % 512 }

  /** Bits 47..12 of an address. */
  function PageNumber(virt: u64): nat {
    virt / 4096 % 0x10_0000_0000
  }

  // The source extracts and combines the fields with shifts and masks.
  lemma AddressMask(entry: u64)
    ensures And(entry, 0x000F_FFFF_FFFF_F000) == FrameOf(entry) * 4096
  {
    hide And, Shl, Shr, Pow2;
    Pow2Values();
    AndFieldMask(entry, 40, 12);
    ShlIsTimes(0xFF_FFFF_FFFF, 12);
    ShrIsDivide(entry, 12);
    ShlIsTimes(FrameOf(entry), 12);
  }

  lemma PteCreateIsMasks(phys: u64, flags: u32)
    ensures PteCreate(phys, flags) == Or(And(phys, 0x000F_FFFF_FFFF_F000), And(flags, 0xFFF))
  {
    hide And, Or, Shl, Shr, Pow2;
    Pow2Values();
    AddressMask(phys);
    AndLowMask(flags, 12);
    OrDisjoint(FrameOf(phys), flags % 4096, 12);
    ShlIsTimes(FrameOf(phys), 12);
  }

  lemma FlagBits(entry: u64)
    ensures (And(entry, 1) != 0) == IsPresent(entry)
    ensures (And(entry, 0x80) != 0) == IsHuge(entry)
  {
    hide And, Shl, Shr, Pow2;
    Pow2Values();
    SmallPowers();
    AndLowMask(entry, 1);
    AndFieldMask(entry, 1, 7);
    ShlIsTimes(1, 7);
    ShrIsDivide(entry, 7);
    ShlIsTimes(entry / 128 % 2, 7);
  }

  lemma SmallPowers()
    ensures Pow2(1) == 2
  {
  }

  lemma IndicesAreShifts(virt: u64)
    ensures Pml4Index(virt) == And(Shr(virt, 39), 0x1FF) && PdptIndex(virt) == And(Shr(virt, 30), 0x1FF)
    ensures PdIndex(virt) == And(Shr(virt, 21), 0x1FF) && PtIndex(virt) == And(Shr(virt, 12), 0x1FF)
  {
    hide And, Shr, Pow2;
    Pow2Values();
    ShrIsDivide(virt, 39);
    ShrIsDivide(virt, 30);
    ShrIsDivide(virt, 21);
    ShrIsDivide(virt, 12);
    AndLowMask(Shr(virt, 39), 9);
    AndLowMask(Shr(virt, 30), 9);
    AndLowMask(Shr(virt, 21), 9);
    AndLowMask(Shr(virt, 12), 9);
  }

  // The four indices determine the page number and conversely.
  lemma IndicesArePageNumber(virt: u64)
    ensures PageNumber(virt) ==
            Pml4Index(virt) * 0x800_0000 + PdptIndex(virt) * 0x4_0000 + PdIndex(virt) * 0x200 + PtIndex(virt)
  {
    var v := virt / 0x1000;
    assert virt / 0x20_0000 == v / 0x200;
    assert virt / 0x4000_0000 == v / 0x4_0000;
    assert virt / 0x80_0000_0000 == v / 0x800_0000;
    FourDigits(v, v % 0x10_0000_0000);
  }

  lemma FourDigits(v: nat, w: nat)
    requires w == v % 0x10_0000_0000
    ensures w == v / 0x800_0000 % 512 * 0x800_0000 + v / 0x4_0000 % 512 * 0x4_0000 + v / 0x200 % 512 * 0x200 + v % 512
  {
    var q := v / 0x10_0000_0000;
    HigherDigits(v, q, w);
    DigitsOf(w);
  }

  lemma HigherDigits(v: nat, q: nat, w: nat)
    requires v == q * 0x10_0000_0000 + w && w < 0x10_0000_0000
    ensures v % 512 == w % 512
    ensures v / 0x200 % 512 == w / 0x200 % 512
    ensures v / 0x4_0000 % 512 == w / 0x4_0000 % 512
    ensures v / 0x800_0000 % 512 == w / 0x800_0000
  {
    DivisionIs(v, 0x200, q * 0x800_0000 + w / 0x200, w % 0x200);
    DivisionIs(v, 0x4_0000, q * 0x4_0000 + w / 0x4_0000, w % 0x4_0000);
    DivisionIs(v, 0x800_0000, q * 512 + w / 0x800_0000, w % 0x800_0000);
    DivisionIs(v / 0x200, 512, q * 0x4_0000 + w / 0x200 / 512, w / 0x200 % 512);
    DivisionIs(v / 0x4_0000, 512, q * 512 + w / 0x4_0000 / 512, w / 0x4_0000 % 512);
    DivisionIs(v / 0x800_0000, 512, q, w / 0x800_0000);
  }

  lemma DigitsOf(w: nat)
    ensures w == w / 0x800_0000 * 0x800_0000 + w / 0x4_0000 % 512 * 0x4_0000 + w / 0x200 % 512 * 0x200 + w % 512
  {
    var a := w / 0x200;
    var b := a / 512;
    assert w / 0x4_0000 == b && w / 0x800_0000 == b / 512;
    assert w == a * 512 + w % 512 && a == b * 512 + a % 512 && b == b / 512 * 512 + b % 512;
  }

  lemma SamePageIffSameIndices(v: u64, w: u64)
    ensures PageNumber(v) == PageNumber(w) <==>
            Pml4Index(v) == Pml4Index(w) && PdptIndex(v) == PdptIndex(w) &&
            PdIndex(v) == PdIndex(w) && PtIndex(v) == PtIndex(w)
  {
    hide PageNumber, Pml4Index, PdptIndex, PdIndex, PtIndex;
    IndicesArePageNumber(v);
    IndicesArePageNumber(w);
    IndexBounds(v);
    IndexBounds(w);
  }

  lemma IndexBounds(v: u64)
    ensures Pml4Index(v) < 512 && PdptIndex(v) < 512 && PdIndex(v) < 512 && PtIndex(v) < 512
  {
  }

  lemma PteFields(phys: u64, flags: u32)
    ensures FrameOf(PteCreate(phys, flags)) == FrameOf(phys)
    ensures IsPresent(PteCreate(phys, flags)) <==> flags % 2 == 1
    ensures IsHuge(PteCreate(phys, flags)) <==> flags / 128 % 2 == 1
  {
    EntryFields(FrameOf(phys), flags % 4096);
    LowBits(flags);
  }

  lemma EntryFields(f: nat, g: nat)
    requires f < FRAME_LIMIT && g < 4096
    ensures (f * 4096 + g) / 4096 == f && f % 0x100_0000_0000 == f
    ensures (f * 4096 + g) % 2 == g % 2
    ensures (f * 4096 + g) / 128 % 2 == g / 128 % 2
  {
    var e, h := f * 4096 + g, g / 128;
    DivisionIs(e, 4096, f, g);
    DivisionIs(e, 2, f * 2048 + g / 2, g % 2);
    DivisionIs(e, 128, f * 32 + h, g % 128);
    DivisionIs(f * 32 + h, 2, f * 16 + h / 2, h % 2);
  }

  lemma LowBits(flags: u32)
    ensures flags % 4096 % 2 == flags % 2
    ensures flags % 4096 / 128 % 2 == flags / 128 % 2
  {
    var q, g := flags / 4096, flags % 4096;
    DivisionIs(flags, 2, q * 2048 + g / 2, g % 2);
    DivisionIs(flags, 128, q * 32 + g / 128, g % 128);
    DivisionIs(q * 32 + g / 128, 2, q * 16 + g / 128 / 2, g / 128 % 2);
  }

  // ---------- The hardware walk ----------

  datatype Walk =
    | Unmapped
    | Small(entry: u64) // a 4 KiB page
    | Large(entry: u64) // a 2 MiB page
    | Giant(entry: u64) // a 1 GiB page

  ghost predicate Physical(mem: Memory) {
    forall f: nat :: f < FRAME_LIMIT ==> f in mem
  }

  function Leaf(pte: u64): Walk {
    if IsPresent(pte) then Small(pte) else Unmapped
  }

  /** What the processor finds for `virt` in the tables under frame `root`. */
  function Lookup(mem: Memory, root: nat, virt: u64): Walk
    requires forall f: nat :: f < FRAME_LIMIT ==> f in mem
    requires root < FRAME_LIMIT
  {
    var e4 := mem[root][Pml4Index(virt)];
    if !IsPresent(e4) then Unmapped
    else
      var e3 := mem[FrameOf(e4)][PdptIndex(virt)];
      if !IsPresent(e3) then Unmapped
      else if IsHuge(e3) then Giant(e3)
      else
        var e2 := mem[FrameOf(e3)][PdIndex(virt)];
        if !IsPresent(e2) then Unmapped
        else if IsHuge(e2) then Large(e2)
        else Leaf(mem[FrameOf(e2)][PtIndex(virt)])
  }

  /** The physical address the walk translates `virt` to. */
  function Translate(w: Walk, virt: u64): Option<nat> {
    match w
    case Unmapped => None
    case Small(e) => Some(FrameOf(e) * 4096 + virt % 4096)
    case Large(e) => Some(FrameOf(e) / 512 * 0x20_0000 + virt % 0x20_0000)
    case Giant(e) => Some(FrameOf(e) / 0x4_0000 * 0x4000_0000 + virt % 0x4000_0000)
  }

  // ---------- What the source does ----------

  datatype Paging = Paging(mem: Memory, root: nat, frames: set<nat>)

  function ZeroTable(): Table {
    seq(512, i => 0)
  }

  datatype Step = Step(st: Paging, table: Option<nat>)

  /** A zeroed table in the lowest free frame; none when no frame is left. */
  ghost function AllocTable(st: Paging): Step {
    if st.frames == {} then Step(st, None)
    else
      var g := Lowest(st.frames);
      Step(st.(mem := st.mem[g := ZeroTable()], frames := st.frames - {g}), Some(g))
  }

  function SetEntry(mem: Memory, table: nat, i: nat, entry: u64): Memory
    requires table in mem && i < 512
  {
    mem[table := mem[table][i := entry]]
  }

  /** The table that entry `i` of `table` points to, allocated and linked if it is absent. */
  ghost function NextTable(st: Paging, table: nat, i: nat): Step
    requires table in st.mem && i < 512
  {
    var e := st.mem[table][i];
    if IsPresent(e) then Step(st, Some(FrameOf(e)))
    else
      var s := AllocTable(st);
      if s.table.None? then s
      else
        var g := s.table.value;
        var entry := PteCreate(g * 4096 % 0x1_0000_0000_0000_0000, PRESENT_WRITABLE);
        Step(s.st.(mem := SetEntry(s.st.mem, table, i, entry)), s.table)
  }

  lemma AbsentEntry(st: Paging, table: nat, i: nat)
    requires table in st.mem && i < 512 && !IsPresent(st.mem[table][i]) && Usable(st.frames)
    ensures var s := AllocTable(st);
      if s.table.None? then NextTable(st, table, i) == s
      else
        table in s.st.mem && s.table.value * 4096 < TWO_64 &&
        NextTable(st, table, i) ==
        Step(s.st.(mem := SetEntry(s.st.mem, table, i, PteCreate(s.table.value * 4096, PRESENT_WRITABLE))), s.table)
  {
    hide PteCreate, IsPresent;
  }

  // A table just allocated is empty and no longer free.
  lemma NewTable(st: Paging)
    ensures var s := AllocTable(st);
      if s.table.None? then s.st == st && st.frames == {}
      else s.table.value in s.st.mem && s.st.mem[s.table.value] == ZeroTable() && s.table.value !in s.st.frames
  {
    hide ZeroTable;
  }

  // A table just allocated for an absent entry is empty.
  lemma NewTableIsEmpty(st: Paging, table: nat, i: nat, j: nat)
    requires table in st.mem && i < 512 && j < 512 && table !in st.frames && !IsPresent(st.mem[table][i])
    ensures !IsPresent(0)
    ensures var s := NextTable(st, table, i);
      s.table.Some? ==>
        && s.table.value in s.st.mem && s.st.mem[s.table.value] == ZeroTable()
        && !IsPresent(s.st.mem[s.table.value][j])
  {
    hide PteCreate;
  }

  /** The page directory for `virt`, with every missing table on the way allocated. */
  ghost function DirectoryTable(st: Paging, virt: u64): (s: Step)
    requires Physical(st.mem) && st.root < FRAME_LIMIT && Usable(st.frames)
    ensures Physical(s.st.mem) && Usable(s.st.frames) && s.st.root == st.root
    ensures s.table.Some? ==> s.table.value in s.st.mem
  {
    var s := NextTable(st, st.root, Pml4Index(virt));
    if s.table.None? then s else NextTable(s.st, s.table.value, PdptIndex(virt))
  }

  /** The last-level table for `virt`, with every missing table on the way allocated. */
  ghost function LeafTable(st: Paging, virt: u64): (s: Step)
    requires Physical(st.mem) && st.root < FRAME_LIMIT && Usable(st.frames)
    ensures s.table.Some? ==> s.table.value in s.st.mem
  {
    var s := DirectoryTable(st, virt);
    if s.table.None? then s else NextTable(s.st, s.table.value, PdIndex(virt))
  }

  datatype Mapped = Mapped(st: Paging, ok: bool)

  /** `vmm_map_page` */
  ghost function MapPage(st: Paging, virt: u64, phys: u64, flags: u32): Mapped
    requires Physical(st.mem) && st.root < FRAME_LIMIT && Usable(st.frames)
  {
    var s := LeafTable(st, virt);
    if s.table.None? then Mapped(s.st, false)
    else Mapped(s.st.(mem := SetEntry(s.st.mem, s.table.value, PtIndex(virt), PteCreate(phys, flags))), true)
  }
}
