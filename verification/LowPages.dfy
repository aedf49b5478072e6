/**
  What `vmm_map_page` does to an address in a 2 MiB page, and so to the first 16 MiB after
  `vmm_init`: it overwrites one word of the frame mapped there, which may hold a page table.
 */
module LowPages {
  import opened Machine
  import opened Frames
  import opened PageTables
  import opened PageTableTree

  // If that frame holds no table, the call changes no translation at all.
  lemma OutsideTablesNothingChanges(st: Paging, t: Tree, virt: u64, phys: u64, flags: u32)
    requires Shape(st, t) && InLargePage(st, virt)
    requires FrameOf(Lookup(st.mem, st.root, virt).entry) !in t.Values
    ensures var r := MapPage(st, virt, phys, flags);
      && r.ok && Shape(r.st, t) && r.st.root == st.root && r.st.frames == st.frames
      && forall v: u64 :: Lookup(r.st.mem, r.st.root, v) == Lookup(st.mem, st.root, v)
  {
    hide MapPage, PteCreate, Pml4Index, PdptIndex, PdIndex, PtIndex, Lookup, IsPresent, IsHuge, FrameOf;
    MapPageInLargePage(st, t, virt, phys, flags);
    var st' := MapPage(st, virt, phys, flags).st;
    SameTablesSameTree(st, st', t);
    forall v: u64 ensures Lookup(st'.mem, st'.root, v) == Lookup(st.mem, st.root, v) {
      SameTablesSameLookup(st, st', t, v);
    }
  }

  lemma SameTablesSameTree(st: Paging, st': Paging, t: Tree)
    requires Shape(st, t) && st' == st.(mem := st'.mem) && Physical(st'.mem)
    requires forall f :: f in t.Values ==> f in st'.mem && f in st.mem && st'.mem[f] == st.mem[f]
    ensures Shape(st', t)
  {
    hide IsPresent, IsHuge;
    forall p, i | p in t && |p| < 3 && 0 <= i < 512 ensures t[p] in st'.mem && EntryOk(st'.mem, t, p, i) {
      EntryIsOk(st, t, p, i);
      assert t[p] in t.Values;
    }
  }

  lemma SameTablesSameLookup(st: Paging, st': Paging, t: Tree, v: u64)
    requires Shape(st, t) && Shape(st', t) && st'.root == st.root
    requires forall f :: f in t.Values ==> f in st'.mem && f in st.mem && st'.mem[f] == st.mem[f]
    ensures Lookup(st'.mem, st'.root, v) == Lookup(st.mem, st.root, v)
  {
    hide Pml4Index, PdptIndex, PdIndex, PtIndex, Lookup, IsPresent, IsHuge, FrameOf, TablesOk, PathsOk, FramesOk;
    LookupIsTreeLookup(st, t, v);
    LookupIsTreeLookup(st', t, v);
    IndexBounds(v);
    var a, b, c := Pml4Index(v), PdptIndex(v), PdIndex(v);
    assert [a, b] in t ==> t[[a, b]] in t.Values;
    assert [a, b, c] in t ==> t[[a, b, c]] in t.Values;
  }

  // ---------- The tables of vmm_init ----------

  /** The three lowest free frames: the root, the table below it, and the page directory. */
  datatype ThreeTables = ThreeTables(root: nat, pdpt: nat, pd: nat) {
    predicate Has(f: nat) {
      f == root || f == pdpt || f == pd
    }
  }

  ghost function TablesFrom(frames: set<nat>): (x: ThreeTables)
    requires |frames| >= 3
    ensures x.root in frames && x.pdpt in frames && x.pd in frames && x.root < x.pdpt < x.pd
    ensures forall f :: f in frames && !x.Has(f) ==> x.pd < f
  {
    var root := Lowest(frames);
    var rest := frames - {root};
    assert |rest| == |frames| - 1;
    var pdpt := Lowest(rest);
    assert |rest - {pdpt}| == |rest| - 1;
    var x := ThreeTables(root, pdpt, Lowest(rest - {pdpt}));
    assert forall f :: f in frames ==> x.Has(f) || f in rest - {pdpt} - {x.pd};
    x
  }

  /** A table that is zero but for the word at `i`. */
  function OneEntry(i: nat, entry: u64): (t: Table)
    requires i < 512
    ensures t[i] == entry && forall j :: 0 <= j < 512 && j != i ==> t[j] == 0
  {
    ZeroTable()[i := entry]
  }

  lemma NextInEmpty(st: Paging, table: nat)
    requires Usable(st.frames) && table in st.mem && st.mem[table] == ZeroTable() && table !in st.frames
    ensures NextTable(st, table, 0) ==
            if st.frames == {} then Step(st, None)
            else
              var g := Lowest(st.frames);
              var mem := st.mem[g := ZeroTable()][table := OneEntry(0, g * 4096 + 3)];
              Step(Paging(mem, st.root, st.frames - {g}), Some(g))
  {
    hide PteCreate;
    ZeroEntry();
    if st.frames != {} {
      PteOfFrame(Lowest(st.frames));
    }
  }

  lemma FirstTablesAre(mem: Memory, frames: set<nat>)
    requires Physical(mem) && Usable(frames) && frames != {}
    ensures FirstTables(mem, frames).table.Some? <==> |frames| >= 3
    ensures |frames| >= 3 ==>
      var x, s := TablesFrom(frames), FirstTables(mem, frames);
      && s.table == Some(x.pd) && s.st.root == x.root && s.st.frames == frames - {x.root} - {x.pdpt} - {x.pd}
      && s.st.mem == mem[x.pd := ZeroTable()]
                        [x.pdpt := OneEntry(0, x.pd * 4096 + 3)]
                        [x.root := OneEntry(0, x.pdpt * 4096 + 3)]
  {
    hide ZeroTable, NextTable, OneEntry;
    ZeroIndices();
    var g := Lowest(frames);
    var st0 := Paging(mem[g := ZeroTable()], g, frames - {g});
    assert |frames - {g}| == |frames| - 1;
    NextInEmpty(st0, g);
    if st0.frames != {} {
      var h := Lowest(st0.frames);
      assert |st0.frames - {h}| == |st0.frames| - 1;
      NextInEmpty(NextTable(st0, g, 0).st, h);
    }
  }

  lemma {:induction false} IdentityEntriesAre(mem: Memory, pd: nat, n: nat)
    requires pd in mem && n <= 8
    ensures var mem' := IdentityEntries(mem, pd, n);
      && (forall i :: 0 <= i < n ==> mem'[pd][i] == PteCreate(i * 0x20_0000, PRESENT_WRITABLE_HUGE))
      && forall f :: f in mem && f != pd ==> f in mem' && mem'[f] == mem[f]
  {
    hide PteCreate;
    if n > 0 {
      IdentityEntriesAre(mem, pd, n - 1);
    }
  }

  lemma IdentityEntry(i: nat)
    requires i < 8
    ensures PteCreate(i * 0x20_0000, PRESENT_WRITABLE_HUGE) == i * 0x20_0000 + 0x83
  {
    DivisionIs(i * 0x20_0000, 4096, i * 512, 0);
    DivisionIs(i * 512, 0x100_0000_0000, 0, i * 512);
  }

  // Initialisation succeeds exactly with three free frames; the tables it leaves.
  lemma InitTables(mem: Memory, frames: set<nat>)
    requires Physical(mem) && Usable(frames)
    ensures Init(mem, frames).ok <==> |frames| >= 3
    ensures |frames| >= 3 ==>
      var x, st := TablesFrom(frames), Init(mem, frames).st;
      && Ready(st) && st.root == x.root && st.frames == frames - {x.root} - {x.pdpt} - {x.pd}
      && st.mem[x.root] == OneEntry(0, x.pdpt * 4096 + 3) && st.mem[x.pdpt] == OneEntry(0, x.pd * 4096 + 3)
      && (forall i :: 0 <= i < 8 ==>
            && st.mem[x.pd][i] == PteCreate(i * 0x20_0000, PRESENT_WRITABLE_HUGE)
            && st.mem[x.pd][i] == i * 0x20_0000 + 0x83)
      && forall f: nat :: f in mem && !x.Has(f) ==> f in st.mem && st.mem[f] == mem[f]
  {
    hide Init, FirstTables, IdentityEntries, OneEntry, ZeroTable, PteCreate;
    if frames == {} {
      NoRoot(mem);
    } else {
      InitSteps(mem, frames);
      FirstTablesAre(mem, frames);
      if |frames| >= 3 {
        var s := FirstTables(mem, frames);
        IdentityEntriesAre(s.st.mem, s.table.value, 8);
        forall i | 0 <= i < 8 ensures PteCreate(i * 0x20_0000, PRESENT_WRITABLE_HUGE) == i * 0x20_0000 + 0x83 {
          IdentityEntry(i);
        }
      }
    }
  }

  // ---------- Pages below 16 MiB ----------

  /** The word that a call for low address `virt` overwrites is an entry that the walk for `virt`
      itself uses: the first of the root or of the table below it, or its page-directory entry. */
  ghost predicate HitsOwnWalk(frames: set<nat>, virt: u64)
    requires |frames| >= 3
  {
    var x, f := TablesFrom(frames), PdIndex(virt) * 512;
    ((f == x.root || f == x.pdpt) && PtIndex(virt) == 0) || (f == x.pd && PtIndex(virt) == PdIndex(virt))
  }

  lemma LowIndices(virt: u64)
    requires virt < 0x100_0000
    ensures Pml4Index(virt) == 0 && PdptIndex(virt) == 0 && PdIndex(virt) < 8 && PtIndex(virt) < 512
    ensures var e := PteCreate(PdIndex(virt) * 0x20_0000, PRESENT_WRITABLE_HUGE);
      IsPresent(e) && IsHuge(e) && FrameOf(e) == PdIndex(virt) * 512
  {
    LowSixteen(virt);
    IndexBounds(virt);
    hide Pml4Index, PdptIndex, PdIndex, PtIndex, PteCreate;
    var i := PdIndex(virt);
    PteFields(i * 0x20_0000, PRESENT_WRITABLE_HUGE);
    DivisionIs(i * 0x20_0000, 4096, i * 512, 0);
    DivisionIs(i * 512, 0x100_0000_0000, 0, i * 512);
  }

  lemma LowWalk(mem: Memory, x: ThreeTables, virt: u64)
    requires Physical(mem) && virt < 0x100_0000 && x.root < MAX_FRAMES && x.pdpt < MAX_FRAMES && x.pd < MAX_FRAMES
    requires mem[x.root][0] == x.pdpt * 4096 + 3 && mem[x.pdpt][0] == x.pd * 4096 + 3 && PdIndex(virt) < 512
    requires mem[x.pd][PdIndex(virt)] == PteCreate(PdIndex(virt) * 0x20_0000, PRESENT_WRITABLE_HUGE)
    ensures Lookup(mem, x.root, virt) == IdentityWalk(virt, 8)
  {
    LowIndices(virt);
    TablePointer(x.pdpt);
    TablePointer(x.pd);
    hide Pml4Index, PdptIndex, PdIndex, PtIndex, PteCreate, IsPresent, IsHuge, FrameOf;
  }

  // After vmm_init a call for a page below 16 MiB overwrites one word of the frame that the page
  // is mapped to, and reports success. It never maps its page alone. Its page stays mapped to
  // itself, unless the word is an entry of its own walk; and no translation changes, unless the
  // frame holds one of the three tables.
  lemma LowPageStays(mem: Memory, frames: set<nat>, virt: u64, phys: u64, flags: u32)
    requires Physical(mem) && Usable(frames) && Init(mem, frames).ok && virt < 0x100_0000
    ensures |frames| >= 3
    ensures var st, pte := Init(mem, frames).st, PteCreate(phys, flags);
      && Ready(st) && InLargePage(st, virt) && PdIndex(virt) * 512 in st.mem && PtIndex(virt) < 512
      && var r := MapPage(st, virt, phys, flags);
      && r == Mapped(st.(mem := SetEntry(st.mem, PdIndex(virt) * 512, PtIndex(virt), pte)), true)
      && Ready(r.st) && !MapsOnly(st, r.st, virt, pte)
      && (!HitsOwnWalk(frames, virt) ==>
            var w := Lookup(r.st.mem, r.st.root, virt);
            w == Lookup(st.mem, st.root, virt) && w != Leaf(pte) && Translate(w, virt) == Some(virt))
      && (!TablesFrom(frames).Has(PdIndex(virt) * 512) ==>
            forall v: u64 :: Lookup(r.st.mem, r.st.root, v) == Lookup(st.mem, st.root, v))
  {
    hide Init, MapPage, IdentityWalk, Lookup, PteCreate, TablesFrom, Pml4Index, PdptIndex, PdIndex, PtIndex,
         IsPresent, IsHuge, FrameOf, Translate, TablesOk, PathsOk, FramesOk, OneEntry;
    InitTables(mem, frames);
    var st, x := Init(mem, frames).st, TablesFrom(frames);
    var t := InitMapsSixteenMegabytes(mem, frames);
    LowTarget(st, virt);
    MapPageInLargePage(st, t, virt, phys, flags);
    MapPageReady(st, Request(virt, phys, flags));
    MapsOnlyIffNotLarge(st, t, virt, phys, flags);
    var r := MapPage(st, virt, phys, flags);
    if !HitsOwnWalk(frames, virt) {
      OneEntryAt(x.pdpt * 4096 + 3);
      OneEntryAt(x.pd * 4096 + 3);
      LowWalk(r.st.mem, x, virt);
    }
    if !x.Has(PdIndex(virt) * 512) {
      OutsideTablesNothingChanges(st, t, virt, phys, flags);
    }
  }

  lemma OneEntryAt(e: u64)
    ensures OneEntry(0, e)[0] == e
  {
  }

  lemma LowTarget(st: Paging, virt: u64)
    requires Ready(st) && virt < 0x100_0000 && Lookup(st.mem, st.root, virt) == IdentityWalk(virt, 8)
    ensures InLargePage(st, virt) && FrameOf(Lookup(st.mem, st.root, virt).entry) == PdIndex(virt) * 512
    ensures PdIndex(virt) < 8 && PdIndex(virt) * 512 in st.mem && PtIndex(virt) < 512
    ensures Translate(IdentityWalk(virt, 8), virt) == Some(virt)
    ensures IdentityWalk(virt, 8) == Large(PteCreate(PdIndex(virt) * 0x20_0000, PRESENT_WRITABLE_HUGE))
    ensures forall e: u64 :: IdentityWalk(virt, 8) != Leaf(e)
  {
    LowIndices(virt);
    IdentityIsIdentity(virt);
    hide Pml4Index, PdptIndex, PdIndex, PtIndex, PteCreate, Translate, Lookup;
  }

  /** Initialisation and the call succeed, and the page ends up with the entry asked for. */
  ghost predicate MappedAsAsked(mem: Memory, frames: set<nat>, virt: u64, phys: u64, flags: u32) {
    && Physical(mem) && Usable(frames) && Init(mem, frames).ok
    && var st := Init(mem, frames).st;
    && Ready(st)
    && var r := MapPage(st, virt, phys, flags);
    r.ok && Ready(r.st) && Lookup(r.st.mem, r.st.root, virt) == Leaf(PteCreate(phys, flags))
  }

  // A page below 16 MiB can be mapped as asked, with some memory and some request, exactly when
  // the call overwrites an entry of the page's own walk.
  lemma MappableExactly(frames: set<nat>, virt: u64)
    requires Usable(frames) && |frames| >= 3 && virt < 0x100_0000
    ensures (exists mem: Memory, phys: u64, flags: u32 :: MappedAsAsked(mem, frames, virt, phys, flags))
            <==> HitsOwnWalk(frames, virt)
  {
    hide HitsOwnWalk, MappedAsAsked;
    if HitsOwnWalk(frames, virt) {
      var mem: Memory := map f: nat | f < FRAME_LIMIT && Within(f, 0, FRAME_LIMIT) :: seq(512, i => 3);
      HitMaps(mem, frames, virt);
    } else {
      forall mem: Memory, phys: u64, flags: u32 ensures !MappedAsAsked(mem, frames, virt, phys, flags) {
        MissKeeps(mem, frames, virt, phys, flags);
      }
    }
  }

  lemma MissKeeps(mem: Memory, frames: set<nat>, virt: u64, phys: u64, flags: u32)
    requires Usable(frames) && |frames| >= 3 && virt < 0x100_0000 && !HitsOwnWalk(frames, virt)
    ensures !MappedAsAsked(mem, frames, virt, phys, flags)
  {
    hide Init, MapPage, Lookup, HitsOwnWalk;
    if Physical(mem) && Init(mem, frames).ok {
      LowPageStays(mem, frames, virt, phys, flags);
    }
  }

  lemma PointerToZero()
    ensures IsPresent(3) && !IsHuge(3) && FrameOf(3) == 0 && PteCreate(0, 3) == 3
  {
  }

  // When it does, a memory whose frame 0 is full of pointers to frame 0 completes the walk.
  lemma HitMaps(mem: Memory, frames: set<nat>, virt: u64)
    requires Physical(mem) && Usable(frames) && |frames| >= 3 && virt < 0x100_0000 && HitsOwnWalk(frames, virt)
    requires forall i :: 0 <= i < 512 ==> mem[0][i] == 3
    ensures MappedAsAsked(mem, frames, virt, 0, 3)
  {
    hide Init, MapPage, IdentityWalk, PteCreate, TablesFrom, Pml4Index, PdptIndex, PdIndex, PtIndex,
         IsPresent, IsHuge, FrameOf, Translate, OneEntry;
    InitTables(mem, frames);
    LowPageStays(mem, frames, virt, 0, 3);
    PointerToZero();
    LowIndices(virt);
    var x := TablesFrom(frames);
    TablePointer(x.pdpt);
    TablePointer(x.pd);
    OneEntryAt(x.pdpt * 4096 + 3);
    OneEntryAt(x.pd * 4096 + 3);
  }

  // With the root in the first frame above 2 MiB, the call for the first page there overwrites
  // the first entry of the root, through which every low address is reached.
  lemma FirstPageOverwritesRoot(mem: Memory, frames: set<nat>, phys: u64, flags: u32)
    requires Physical(mem) && Usable(frames) && |frames| >= 3 && Lowest(frames) == 512
    ensures var st := Init(mem, frames).st;
      && Ready(st) && st.root == 512
      && MapPage(st, 0x20_0000, phys, flags)
         == Mapped(st.(mem := SetEntry(st.mem, st.root, 0, PteCreate(phys, flags))), true)
    ensures HitsOwnWalk(frames, 0x20_0000)
  {
    hide Init, MapPage, PteCreate, Lookup;
    InitTables(mem, frames);
    LowPageStays(mem, frames, 0x20_0000, phys, flags);
  }
}
