/**
  The virtual memory manager as it runs: page tables written in place in physical memory,
  with frames from the physical memory manager.
 */
module VirtualMemory {
  import opened Machine
  import opened Frames
  import Tables = PageTables
  import opened PageTableTree
  import opened PhysicalMemory

  const MEMORY_LIMIT: nat := 0x10_0000_0000_0000 // the end of the 52-bit physical address space

  class Vmm {
    const pmm: Pmm
    var mem: Tables.Memory
    var kernelPml4: u64

    ghost predicate Valid()
      reads this, pmm, pmm.bitmap
      ensures Valid() ==> pmm.Valid()
    {
      && pmm.Valid() && Usable(pmm.Free())
      && Tables.Physical(mem) && kernelPml4 < MAX_FRAMES * 4096
    }

    ghost function View(): Tables.Paging
      requires pmm.Valid()
      reads this, pmm, pmm.bitmap
    {
      Tables.Paging(mem, kernelPml4 / 4096, pmm.Free())
    }

    constructor (pmm: Pmm, mem: Tables.Memory)
      requires pmm.Valid() && Usable(pmm.Free()) && Tables.Physical(mem)
      ensures Valid() && this.pmm == pmm && this.mem == mem && kernelPml4 == 0
    {
      this.pmm, this.mem, kernelPml4 := pmm, mem, 0;
    }

    // A zeroed table in a fresh frame; 0 when there is none.
    method AllocPageTable() returns (table: u64)
      requires Valid()
      modifies `mem, pmm, pmm.bitmap
      ensures Valid() && kernelPml4 == old(kernelPml4)
      ensures pmm.Drift() == old(pmm.Drift())
      ensures var s := Tables.AllocTable(old(View()));
        && View() == s.st
        && (s.table.None? ==> table == 0)
        && (s.table.Some? ==> table == s.table.value * 4096 && 0 < table < MAX_FRAMES * 4096)
      ensures table != 0 ==> table / 4096 in mem && forall i :: 0 <= i < 512 ==> mem[table / 4096][i] == 0
    {
      table := pmm.AllocPage();
      if table == 0 {
        return;
      }
      ClearFrame(table / 4096);
    }

    method ClearFrame(f: nat)
      requires f in mem
      modifies `mem
      ensures mem == old(mem)[f := Tables.ZeroTable()]
    {
      var i := 0;
      while i < 512
        invariant 0 <= i <= 512
        invariant f in mem && mem == old(mem)[f := mem[f]]
        invariant forall j :: 0 <= j < i ==> mem[f][j] == 0
      {
        mem := mem[f := mem[f][i := 0]];
        i := i + 1;
      }
      assert mem[f] == Tables.ZeroTable();
    }

    // The table that entry `i` of `table` points to, allocated and linked if it is absent.
    method NextTable(table: u64, i: nat) returns (ok: bool, next: u64)
      requires Valid() && i < 512 && table < MEMORY_LIMIT
      modifies `mem, pmm, pmm.bitmap
      ensures Valid() && kernelPml4 == old(kernelPml4)
      ensures pmm.Drift() == old(pmm.Drift())
      ensures table / 4096 in old(mem)
      ensures var s := Tables.NextTable(old(View()), table / 4096, i);
        && View() == s.st && ok == s.table.Some?
        && (ok ==> next == s.table.value * 4096 < MEMORY_LIMIT)
    {
      hide Tables.AllocTable, Tables.IsPresent;
      var e := mem[table / 4096][i];
      if !Tables.IsPresent(e) {
        next := AllocAndLink(table, i);
        return next != 0, next;
      }
      return true, Tables.FrameOf(e) * 4096;
    }

    // A new table, entered as present and writable at entry `i` of `table`; 0 when no frame is left.
    method AllocAndLink(table: u64, i: nat) returns (next: u64)
      requires Valid() && i < 512 && table < MEMORY_LIMIT
      requires table / 4096 in mem && !Tables.IsPresent(mem[table / 4096][i])
      modifies `mem, pmm, pmm.bitmap
      ensures Valid() && kernelPml4 == old(kernelPml4)
      ensures pmm.Drift() == old(pmm.Drift())
      ensures var s := Tables.NextTable(old(View()), table / 4096, i);
        && View() == s.st
        && (s.table.None? ==> next == 0)
        && (s.table.Some? ==> next == s.table.value * 4096 && 0 < next < MAX_FRAMES * 4096)
    {
      hide Tables.PteCreate, Tables.IsPresent, Tables.NextTable, Tables.AllocTable;
      Tables.AbsentEntry(View(), table / 4096, i);
      next := AllocPageTable();
      if next != 0 {
        mem := mem[table / 4096 := mem[table / 4096][i := Tables.PteCreate(next, Tables.PRESENT_WRITABLE)]];
      }
    }

    method MapPage(virt: u64, phys: u64, flags: u32) returns (ok: bool)
      requires Valid()
      modifies `mem, pmm, pmm.bitmap
      ensures Valid() && kernelPml4 == old(kernelPml4)
      ensures pmm.Drift() == old(pmm.Drift())
      ensures Tables.MapPage(old(View()), virt, phys, flags) == Tables.Mapped(View(), ok)
    {
      hide Tables.NextTable, Tables.Pml4Index, Tables.PdptIndex, Tables.PdIndex, Tables.PtIndex,
           Tables.PteCreate, Tables.FrameOf;
      Tables.IndexBounds(virt);
      var found, pdpt, pd, pt;
      found, pdpt := NextTable(kernelPml4, Tables.Pml4Index(virt));
      if !found {
        return false;
      }
      found, pd := NextTable(pdpt, Tables.PdptIndex(virt));
      if !found {
        return false;
      }
      found, pt := NextTable(pd, Tables.PdIndex(virt));
      if !found {
        return false;
      }
      mem := mem[pt / 4096 := mem[pt / 4096][Tables.PtIndex(virt) := Tables.PteCreate(phys, flags)]];
      return true;
    }

    lemma EmptyRoot()
      requires Valid() && kernelPml4 / 4096 in mem && mem[kernelPml4 / 4096] == Tables.ZeroTable()
      ensures !Tables.IsPresent(mem[kernelPml4 / 4096][Tables.Pml4Index(0)])
    {
    }

    // The two tables between the empty root and the first page directory, and that directory.
    method BuildDirectory() returns (pd: u64)
      requires Valid() && kernelPml4 / 4096 in mem && mem[kernelPml4 / 4096] == Tables.ZeroTable()
      requires kernelPml4 / 4096 !in pmm.Free()
      modifies `mem, pmm, pmm.bitmap
      ensures Valid() && kernelPml4 == old(kernelPml4)
      ensures pmm.Drift() == old(pmm.Drift())
      ensures var s := Tables.DirectoryTable(old(View()), 0);
        && View() == s.st
        && (s.table.None? ==> pd == 0)
        && (s.table.Some? ==> pd == s.table.value * 4096 && 0 < pd < MAX_FRAMES * 4096)
    {
      hide Tables.PteCreate, Tables.NextTable, Tables.IsPresent, Tables.ZeroTable;
      ZeroIndices();
      EmptyRoot();
      Tables.NewTableIsEmpty(View(), kernelPml4 / 4096, Tables.Pml4Index(0), Tables.PdptIndex(0));
      var pdpt := AllocAndLink(kernelPml4, Tables.Pml4Index(0));
      if pdpt == 0 {
        return 0;
      }
      pd := AllocAndLink(pdpt, Tables.PdptIndex(0));
    }

    // Eight entries of 2 MiB, each mapped to itself.
    method MapIdentity(pd: u64)
      requires Valid() && pd / 4096 in mem
      modifies `mem
      ensures Valid()
      ensures View() == old(View()).(mem := IdentityEntries(old(mem), pd / 4096, 8))
    {
      hide Tables.PteCreate;
      var i := 0;
      while i < 8
        invariant 0 <= i <= 8 && Tables.Physical(mem)
        invariant mem == IdentityEntries(old(mem), pd / 4096, i)
        modifies `mem
      {
        var phys := i * 0x20_0000;
        mem := mem[pd / 4096 := mem[pd / 4096][i := Tables.PteCreate(phys, Tables.PRESENT_WRITABLE_HUGE)]];
        i := i + 1;
      }
    }

    // Builds the boot mapping; when a frame is missing, what was built so far stays.
    method Init() returns (ok: bool)
      requires Valid() && kernelPml4 == 0
      modifies `mem, `kernelPml4, pmm, pmm.bitmap
      ensures Valid()
      ensures pmm.Drift() == old(pmm.Drift())
      ensures PageTableTree.Init(old(mem), old(pmm.Free())) == Tables.Mapped(View(), ok)
    {
      hide Tables.DirectoryTable, Tables.ZeroTable, Tables.AllocTable, IdentityEntries;
      Tables.NewTable(View());
      var pml4 := AllocPageTable();
      kernelPml4 := pml4;
      if kernelPml4 == 0 {
        return false;
      }
      var pd := BuildDirectory();
      if pd == 0 {
        return false;
      }
      MapIdentity(pd);
      return true;
    }
  }
}
