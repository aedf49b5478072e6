/**
  The page tables always form a tree under the root, and `vmm_map_page` updates one page of
  the translation and nothing else: exactly when the page does not lie in a 2 MiB mapping.
 */
module PageTableTree {
  import opened Machine
  import opened Frames
  import opened PageTables

  /** The indices that lead from the root to a table. */
  type Path = seq<nat>

  /** The frame of every table, by path. */
  type Tree = map<Path, nat>

  function Child(p: Path, i: nat): Path {
    p + [i]
  }

  /** Entry `i` of the table at `p`: it points to the table below, or to no table. */
  ghost predicate EntryOk(mem: Memory, t: Tree, p: Path, i: nat)
    requires p in t && t[p] in mem && i < 512
  {
    var e := mem[t[p]][i];
    if Child(p, i) in t then e == t[Child(p, i)] * 4096 + 3
    else !IsPresent(e) || (|p| == 2 && IsHuge(e))
  }

  ghost predicate TablesOk(mem: Memory, t: Tree) {
    forall p, i :: p in t && |p| < 3 && 0 <= i < 512 ==> t[p] in mem && EntryOk(mem, t, p, i)
  }

  ghost predicate PathsOk(t: Tree) {
    && [] in t
    && (forall p :: p in t ==> |p| <= 3)
    && (forall p, i :: Child(p, i) in t ==> p in t && i < 512)
  }

  /** No frame holds two tables, and no table lies in a free frame. */
  ghost predicate FramesOk(t: Tree, frames: set<nat>) {
    && (forall p :: p in t ==> RESERVED <= t[p] < MAX_FRAMES && t[p] !in frames)
    && (forall p, q :: p in t && q in t && t[p] == t[q] ==> p == q)
  }

  ghost predicate Shape(st: Paging, t: Tree) {
    && Physical(st.mem) && st.root < FRAME_LIMIT && Usable(st.frames)
    && PathsOk(t) && t[[]] == st.root
    && FramesOk(t, st.frames)
    && TablesOk(st.mem, t)
  }

  // ---------- The walk in terms of the tree ----------

  ghost function TreeLookup(st: Paging, t: Tree, virt: u64): Walk
    requires Shape(st, t)
  {
    var a, b, c, d := Pml4Index(virt), PdptIndex(virt), PdIndex(virt), PtIndex(virt);
    if [a] !in t || [a, b] !in t then Unmapped
    else if [a, b, c] in t then Leaf(st.mem[t[[a, b, c]]][d])
    else
      var e := st.mem[t[[a, b]]][c];
      if IsPresent(e) then Large(e) else Unmapped
  }

  lemma TablePointer(g: nat)
    requires g < FRAME_LIMIT
    ensures g * 4096 + 3 < TWO_64
    ensures IsPresent(g * 4096 + 3) && !IsHuge(g * 4096 + 3) && FrameOf(g * 4096 + 3) == g
  {
    EntryFields(g, 3);
  }

  lemma LookupIsTreeLookup(st: Paging, t: Tree, virt: u64)
    requires Shape(st, t)
    ensures Lookup(st.mem, st.root, virt) == TreeLookup(st, t, virt)
  {
    hide IsPresent, IsHuge, FrameOf, Pml4Index, PdptIndex, PdIndex, PtIndex;
    IndexBounds(virt);
    var a, b, c := Pml4Index(virt), PdptIndex(virt), PdIndex(virt);
    assert EntryOk(st.mem, t, [], a);
    assert Child([], a) == [a];
    if [a] in t {
      TablePointer(t[[a]]);
      assert EntryOk(st.mem, t, [a], b);
      assert Child([a], b) == [a, b];
      if [a, b] in t {
        TablePointer(t[[a, b]]);
        assert EntryOk(st.mem, t, [a, b], c);
        assert Child([a, b], c) == [a, b, c];
        if [a, b, c] in t {
          TablePointer(t[[a, b, c]]);
        }
      }
    }
  }

  lemma EntryIsOk(st: Paging, t: Tree, p: Path, i: nat)
    requires Shape(st, t) && p in t && |p| < 3 && i < 512
    ensures t[p] in st.mem && EntryOk(st.mem, t, p, i) && t[p] !in st.frames
    ensures Child(p, i) in t ==> IsPresent(st.mem[t[p]][i])
  {
    if Child(p, i) in t {
      TablePointer(t[Child(p, i)]);
    }
  }

  lemma PrefixClosed(st: Paging, t: Tree, a: nat, b: nat, c: nat)
    requires Shape(st, t)
    ensures [a, b, c] in t ==> [a, b] in t
    ensures [a, b] in t ==> [a] in t
  {
    assert Child([a, b], c) == [a, b, c] && Child([a], b) == [a, b];
  }

  lemma ZeroEntry()
    ensures !IsPresent(0)
  {
  }

  // ---------- Adding one table ----------

  ghost function Link(st: Paging, t: Tree, p: Path, i: nat): Paging
    requires Shape(st, t) && p in t && i < 512 && st.frames != {}
  {
    var g := Lowest(st.frames);
    Paging(SetEntry(st.mem[g := ZeroTable()], t[p], i, g * 4096 + 3), st.root, st.frames - {g})
  }

  lemma PteOfFrame(g: nat)
    requires g < MAX_FRAMES
    ensures PteCreate(g * 4096 % 0x1_0000_0000_0000_0000, PRESENT_WRITABLE) == g * 4096 + 3
  {
  }

  lemma ChildInjective(p: Path, i: nat, q: Path, j: nat)
    ensures Child(p, i) == Child(q, j) <==> p == q && i == j
    ensures |Child(p, i)| == |p| + 1
  {
    if Child(p, i) == Child(q, j) {
      assert p == Child(p, i)[..|p|] && q == Child(q, j)[..|q|];
      assert Child(p, i)[|p|] == i && Child(q, j)[|q|] == j;
    }
  }

  lemma LinkShape(st: Paging, t: Tree, p: Path, i: nat)
    requires Shape(st, t) && p in t && |p| < 3 && i < 512 && st.frames != {}
    requires !IsPresent(st.mem[t[p]][i])
    ensures Shape(Link(st, t, p, i), t[Child(p, i) := Lowest(st.frames)])
  {
    var g, new_ := Lowest(st.frames), Child(p, i);
    var st', t' := Link(st, t, p, i), t[new_ := g];
    assert EntryOk(st.mem, t, p, i);
    assert new_ !in t by {
      if new_ in t {
        TablePointer(t[new_]);
      }
    }
    ChildInjective(p, i, p, i);
    forall q, j | Child(q, j) in t' ensures q in t' && j < 512 {
      ChildInjective(p, i, q, j);
    }
    forall q, j | q in t' && |q| < 3 && 0 <= j < 512 ensures t'[q] in st'.mem && EntryOk(st'.mem, t', q, j) {
      ChildInjective(p, i, q, j);
      if q == new_ {
        assert Child(q, j) !in t;
        ChildInjective(q, j, p, i);
      } else {
        assert EntryOk(st.mem, t, q, j);
      }
    }
  }

  lemma LinkKeepsLookups(st: Paging, t: Tree, p: Path, i: nat, virt: u64)
    requires Shape(st, t) && p in t && |p| < 3 && i < 512 && st.frames != {}
    requires !IsPresent(st.mem[t[p]][i])
    ensures Lookup(Link(st, t, p, i).mem, st.root, virt) == Lookup(st.mem, st.root, virt)
  {
    hide Pml4Index, PdptIndex, PdIndex, PtIndex, IsPresent, IsHuge, FrameOf, Lookup, TablesOk, PathsOk;
    var g := Lowest(st.frames);
    var st', t' := Link(st, t, p, i), t[Child(p, i) := g];
    LinkShape(st, t, p, i);
    LookupIsTreeLookup(st, t, virt);
    LookupIsTreeLookup(st', t', virt);
    IndexBounds(virt);
    var a, b, c := Pml4Index(virt), PdptIndex(virt), PdIndex(virt);
    EntryIsOk(st, t, p, i);
    ZeroEntry();
    PrefixClosed(st, t, a, b, c);
    assert Child([], a) == [a] && Child([a], b) == [a, b] && Child([a, b], c) == [a, b, c];
    ChildInjective(p, i, [], a);
    ChildInjective(p, i, [a], b);
    ChildInjective(p, i, [a, b], c);
  }

  lemma SamePath(a: nat, b: nat, c: nat, a': nat, b': nat, c': nat)
    ensures [a, b, c] == [a', b', c'] <==> a == a' && b == b' && c == c'
  {
    var p, q := [a, b, c], [a', b', c'];
    if p == q {
      assert p[0] == q[0] && p[1] == q[1] && p[2] == q[2];
    }
  }

  ghost predicate Extends(t: Tree, t': Tree) {
    forall p :: p in t ==> p in t' && t'[p] == t[p]
  }

  /** From `st` to `st'` only tables were added: every frame taken holds a table of the tree,
      and no address is translated differently. */
  ghost predicate OnlyAdds(st: Paging, t: Tree, st': Paging, t': Tree, most: nat) {
    && Shape(st, t) && Shape(st', t') && st'.root == st.root
    && Extends(t, t') && st'.frames <= st.frames
    && t'.Values == t.Values + (st.frames - st'.frames)
    && |st.frames - st'.frames| <= most
    && forall v: u64 :: Lookup(st'.mem, st'.root, v) == Lookup(st.mem, st.root, v)
  }

  lemma AddsNothing(st: Paging, t: Tree)
    requires Shape(st, t)
    ensures OnlyAdds(st, t, st, t, 0) && OnlyAdds(st, t, st, t, 1)
  {
    assert st.frames - st.frames == {};
  }

  lemma AddsThenAdds(st: Paging, t: Tree, st1: Paging, t1: Tree, m: nat, st2: Paging, t2: Tree, n: nat)
    requires OnlyAdds(st, t, st1, t1, m) && OnlyAdds(st1, t1, st2, t2, n)
    ensures OnlyAdds(st, t, st2, t2, m + n)
  {
    hide TablesOk, PathsOk, FramesOk, Lookup;
    FramesInTwoSteps(st.frames, st1.frames, st2.frames);
    ExtendsChain(t, t1, t2);
    forall v: u64 ensures Lookup(st2.mem, st2.root, v) == Lookup(st.mem, st.root, v) {
      assert Lookup(st1.mem, st1.root, v) == Lookup(st.mem, st.root, v);
    }
  }

  lemma FramesInTwoSteps(f: set<nat>, f1: set<nat>, f2: set<nat>)
    requires f1 <= f && f2 <= f1
    ensures f - f2 == (f - f1) + (f1 - f2)
    ensures |f - f2| <= |f - f1| + |f1 - f2|
  {
    assert f - f2 == (f - f1) + (f1 - f2);
    UnionSize(f - f1, f1 - f2);
  }

  lemma ExtendsChain(t: Tree, t1: Tree, t2: Tree)
    requires Extends(t, t1) && Extends(t1, t2)
    ensures Extends(t, t2)
  {
    forall p | p in t ensures p in t2 && t2[p] == t[p] {
      assert t1[p] == t[p];
    }
  }

  lemma LinkOnlyAdds(st: Paging, t: Tree, p: Path, i: nat)
    requires Shape(st, t) && p in t && |p| < 3 && i < 512 && st.frames != {}
    requires !IsPresent(st.mem[t[p]][i])
    ensures OnlyAdds(st, t, Link(st, t, p, i), t[Child(p, i) := Lowest(st.frames)], 1)
  {
    hide Lookup, IsPresent;
    var g, new_ := Lowest(st.frames), Child(p, i);
    var st', t' := Link(st, t, p, i), t[new_ := g];
    LinkShape(st, t, p, i);
    forall v: u64 ensures Lookup(st'.mem, st'.root, v) == Lookup(st.mem, st.root, v) {
      LinkKeepsLookups(st, t, p, i, v);
    }
    NotYetChild(st, t, p, i);
    assert st.frames - st'.frames == {g};
    ValuesAfterAdd(t, new_, g);
  }

  lemma NotYetChild(st: Paging, t: Tree, p: Path, i: nat)
    requires Shape(st, t) && p in t && |p| < 3 && i < 512 && !IsPresent(st.mem[t[p]][i])
    ensures Child(p, i) !in t
  {
    assert EntryOk(st.mem, t, p, i);
    if Child(p, i) in t {
      TablePointer(t[Child(p, i)]);
    }
  }

  lemma ValuesAfterAdd(t: Tree, q: Path, g: nat)
    requires q !in t
    ensures t[q := g].Values == t.Values + {g}
  {
    var t' := t[q := g];
    assert t'[q] == g;
    forall f | f in t.Values ensures f in t'.Values {
      var p :| p in t && t[p] == f;
      assert t'[p] == f;
    }
  }

  /** The tree after one step on the way to a page. */
  ghost function NextTree(st: Paging, t: Tree, p: Path, i: nat): Tree
    requires p in t && t[p] in st.mem && i < 512
  {
    if IsPresent(st.mem[t[p]][i]) || st.frames == {} then t else t[Child(p, i) := Lowest(st.frames)]
  }

  // The next table on the way to a page: the one below in the tree, or the target of a 2 MiB
  // entry, which the source takes for a table; or a new one; or none for want of a frame.
  lemma NextTableCases(st: Paging, t: Tree, p: Path, i: nat)
    requires Shape(st, t) && p in t && |p| < 3 && i < 512
    ensures t[p] in st.mem
    ensures var s, t', q := NextTable(st, t[p], i), NextTree(st, t, p, i), Child(p, i);
      if q in t then s == Step(st, Some(t[q])) && t' == t
      else if IsPresent(st.mem[t[p]][i]) then
        |p| == 2 && IsHuge(st.mem[t[p]][i]) && s == Step(st, Some(FrameOf(st.mem[t[p]][i]))) && t' == t
      else if st.frames == {} then s == Step(st, None) && t' == t
      else s == Step(Link(st, t, p, i), Some(Lowest(st.frames))) && t' == t[q := Lowest(st.frames)]
  {
    hide IsPresent, IsHuge, FrameOf, PathsOk;
    EntryIsOk(st, t, p, i);
    if Child(p, i) in t {
      TablePointer(t[Child(p, i)]);
    } else if !IsPresent(st.mem[t[p]][i]) && st.frames != {} {
      PteOfFrame(Lowest(st.frames));
    }
  }

  lemma NextTableOnlyAdds(st: Paging, t: Tree, p: Path, i: nat)
    requires Shape(st, t) && p in t && |p| < 3 && i < 512
    ensures t[p] in st.mem
    ensures OnlyAdds(st, t, NextTable(st, t[p], i).st, NextTree(st, t, p, i), 1)
  {
    hide IsPresent, IsHuge, FrameOf, OnlyAdds, NextTable, Link, Shape;
    NextTableCases(st, t, p, i);
    AddsNothing(st, t);
    if Child(p, i) !in t && !IsPresent(st.mem[t[p]][i]) && st.frames != {} {
      LinkOnlyAdds(st, t, p, i);
    }
  }

  lemma WriteLeaf(st: Paging, t: Tree, p: Path, d: nat, pte: u64)
    requires Shape(st, t) && p in t && |p| == 3 && d < 512
    ensures Shape(st.(mem := SetEntry(st.mem, t[p], d, pte)), t)
  {
    var st' := st.(mem := SetEntry(st.mem, t[p], d, pte));
    forall q, j | q in t && |q| < 3 && 0 <= j < 512 ensures t[q] in st'.mem && EntryOk(st'.mem, t, q, j) {
      assert EntryOk(st.mem, t, q, j);
    }
  }

  lemma WriteLeafLookup(st: Paging, t: Tree, virt: u64, pte: u64, v: u64)
    requires Shape(st, t)
    requires [Pml4Index(virt), PdptIndex(virt), PdIndex(virt)] in t
    ensures var table := t[[Pml4Index(virt), PdptIndex(virt), PdIndex(virt)]];
      Lookup(SetEntry(st.mem, table, PtIndex(virt), pte), st.root, v) ==
      if PageNumber(v) == PageNumber(virt) then Leaf(pte) else Lookup(st.mem, st.root, v)
  {
    hide Pml4Index, PdptIndex, PdIndex, PtIndex, PageNumber, IsPresent, IsHuge, FrameOf, Lookup, TablesOk, PathsOk;
    IndexBounds(virt);
    IndexBounds(v);
    var a, b, c := Pml4Index(virt), PdptIndex(virt), PdIndex(virt);
    var st' := st.(mem := SetEntry(st.mem, t[[a, b, c]], PtIndex(virt), pte));
    WriteLeaf(st, t, [a, b, c], PtIndex(virt), pte);
    LookupIsTreeLookup(st, t, v);
    LookupIsTreeLookup(st', t, v);
    SamePageIffSameIndices(v, virt);
    PrefixClosed(st, t, a, b, c);
    SamePath(Pml4Index(v), PdptIndex(v), PdIndex(v), a, b, c);
  }

  // ---------- vmm_map_page ----------

  /** The translation of `virt`'s page, and of no other page, is what `pte` says. */
  ghost predicate MapsOnly(st: Paging, st': Paging, virt: u64, pte: u64)
    requires Physical(st.mem) && st.root < FRAME_LIMIT && Physical(st'.mem) && st'.root < FRAME_LIMIT
  {
    forall v: u64 :: Lookup(st'.mem, st'.root, v) ==
      if PageNumber(v) == PageNumber(virt) then Leaf(pte) else Lookup(st.mem, st.root, v)
  }

  ghost predicate InLargePage(st: Paging, virt: u64)
    requires Physical(st.mem) && st.root < FRAME_LIMIT
  {
    Lookup(st.mem, st.root, virt).Large?
  }

  // An address lies in a 2 MiB page just when its tables stop at such an entry.
  lemma LargeExactly(st: Paging, t: Tree, virt: u64)
    requires Shape(st, t)
    ensures var a, b, c := Pml4Index(virt), PdptIndex(virt), PdIndex(virt);
      InLargePage(st, virt) <==>
      [a] in t && [a, b] in t && [a, b, c] !in t && t[[a, b]] in st.mem && IsPresent(st.mem[t[[a, b]]][c])
  {
    hide Pml4Index, PdptIndex, PdIndex, PtIndex, IsPresent, IsHuge, FrameOf, Lookup;
    IndexBounds(virt);
    LookupIsTreeLookup(st, t, virt);
    PrefixClosed(st, t, Pml4Index(virt), PdptIndex(virt), PdIndex(virt));
    if [Pml4Index(virt), PdptIndex(virt)] in t {
      EntryIsOk(st, t, [Pml4Index(virt), PdptIndex(virt)], PdIndex(virt));
    }
  }

  lemma RootIn(st: Paging, t: Tree)
    requires Shape(st, t)
    ensures [] in t && t[[]] == st.root && st.root in st.mem
  {
  }

  // Two steps from the root: the page directory for `virt`.
  lemma DirectoryInTree(st: Paging, t: Tree, virt: u64) returns (t': Tree)
    requires Shape(st, t)
    ensures var s := DirectoryTable(st, virt);
      var path := [Pml4Index(virt), PdptIndex(virt)];
      && OnlyAdds(st, t, s.st, t', 2)
      && (s.table.None? ==> s.st.frames == {} && path !in t')
      && (s.table.Some? ==> path in t' && s.table.value == t'[path])
      && (path in t ==> s.st == st && t' == t)
      && (forall q :: q in t' ==> q in t || |q| <= 2)
  {
    hide Pml4Index, PdptIndex, IsPresent, IsHuge, FrameOf, NextTable, NextTree, Link,
         TablesOk, PathsOk, FramesOk, Lookup, OnlyAdds;
    IndexBounds(virt);
    var a, b := Pml4Index(virt), PdptIndex(virt);
    RootIn(st, t);
    PrefixClosed(st, t, a, b, 0);
    assert Child([], a) == [a] && Child([a], b) == [a, b];
    NextTableCases(st, t, [], a);
    NextTableOnlyAdds(st, t, [], a);
    var s1, t1 := NextTable(st, st.root, a), NextTree(st, t, [], a);
    AddsShape(st, t, s1.st, t1, 1);
    PrefixClosed(s1.st, t1, a, b, 0);
    if s1.table.Some? {
      NextTableCases(s1.st, t1, [a], b);
      NextTableOnlyAdds(s1.st, t1, [a], b);
      t' := NextTree(s1.st, t1, [a], b);
      AddsThenAdds(st, t, s1.st, t1, 1, DirectoryTable(st, virt).st, t', 1);
    } else {
      t' := t1;
      AddsAtMost(st, t, s1.st, t1, 1, 2);
    }
  }

  lemma AddsShape(st: Paging, t: Tree, st': Paging, t': Tree, m: nat)
    requires OnlyAdds(st, t, st', t', m)
    ensures Shape(st, t) && Shape(st', t') && st'.root == st.root
    ensures forall v: u64 :: Lookup(st'.mem, st'.root, v) == Lookup(st.mem, st.root, v)
  {
  }

  lemma AddsAtMost(st: Paging, t: Tree, st': Paging, t': Tree, m: nat, n: nat)
    requires OnlyAdds(st, t, st', t', m) && m <= n
    ensures OnlyAdds(st, t, st', t', n)
  {
  }

  // The tables on the way to `virt`, as far as there were frames for them.
  lemma LeafTableInTree(st: Paging, t: Tree, virt: u64) returns (t': Tree)
    requires Shape(st, t)
    ensures var s := LeafTable(st, virt);
      var path := [Pml4Index(virt), PdptIndex(virt), PdIndex(virt)];
      && OnlyAdds(st, t, s.st, t', 3)
      && (s.table.None? ==> s.st.frames == {} && !InLargePage(st, virt))
      && (s.table.Some? && !InLargePage(st, virt) ==> path in t' && s.table.value == t'[path])
      && (InLargePage(st, virt) ==> s.table.Some? && s.st == st && t' == t)
  {
    hide Pml4Index, PdptIndex, PdIndex, PtIndex, IsPresent, IsHuge, FrameOf, NextTable, NextTree, Link,
         DirectoryTable, TablesOk, PathsOk, FramesOk, Lookup, OnlyAdds;
    IndexBounds(virt);
    var a, b, c := Pml4Index(virt), PdptIndex(virt), PdIndex(virt);
    LargeExactly(st, t, virt);
    assert Child([a, b], c) == [a, b, c];
    var s := DirectoryTable(st, virt);
    var t2 := DirectoryInTree(st, t, virt);
    AddsShape(st, t, s.st, t2, 2);
    LargeExactly(s.st, t2, virt);
    PrefixClosed(s.st, t2, a, b, c);
    assert InLargePage(s.st, virt) == InLargePage(st, virt);
    if s.table.Some? {
      NextTableCases(s.st, t2, [a, b], c);
      NextTableOnlyAdds(s.st, t2, [a, b], c);
      t' := NextTree(s.st, t2, [a, b], c);
      AddsThenAdds(st, t, s.st, t2, 2, LeafTable(st, virt).st, t', 1);
    } else {
      t' := t2;
      AddsAtMost(st, t, s.st, t2, 2, 3);
    }
  }

  // The theorem about one call: if `virt` lies in no 2 MiB page, then success sets the
  // translation of its page and of no other, failure changes no translation and leaves no
  // frame free, and every frame taken, at most three, holds a table of the tree.
  lemma MapPageInTree(st: Paging, t: Tree, virt: u64, phys: u64, flags: u32) returns (t': Tree)
    requires Shape(st, t) && !InLargePage(st, virt)
    ensures var r := MapPage(st, virt, phys, flags);
      && Shape(r.st, t') && r.st.root == st.root && Extends(t, t')
      && r.st.frames <= st.frames && |st.frames - r.st.frames| <= 3
      && t'.Values == t.Values + (st.frames - r.st.frames)
      && (r.ok ==> MapsOnly(st, r.st, virt, PteCreate(phys, flags)))
      && (!r.ok ==> r.st.frames == {} && forall v: u64 :: Lookup(r.st.mem, r.st.root, v) == Lookup(st.mem, st.root, v))
  {
    hide Pml4Index, PdptIndex, PdIndex, PtIndex, PageNumber, LeafTable, TablesOk, PathsOk, FramesOk, Lookup, PteCreate;
    t' := LeafTableInTree(st, t, virt);
    var s := LeafTable(st, virt);
    if s.table.Some? {
      var path := [Pml4Index(virt), PdptIndex(virt), PdIndex(virt)];
      IndexBounds(virt);
      WriteLeaf(s.st, t', path, PtIndex(virt), PteCreate(phys, flags));
      var mem' := SetEntry(s.st.mem, s.table.value, PtIndex(virt), PteCreate(phys, flags));
      forall v: u64
        ensures Lookup(mem', st.root, v) ==
                if PageNumber(v) == PageNumber(virt) then Leaf(PteCreate(phys, flags)) else Lookup(st.mem, st.root, v)
      {
        WriteLeafLookup(s.st, t', virt, PteCreate(phys, flags), v);
      }
    }
  }

  // What success means for the processor: with the present flag, every address of the page is
  // translated to the same place in the physical page asked for; without it, to none.
  lemma MapPageTranslates(st: Paging, t: Tree, virt: u64, phys: u64, flags: u32, v: u64)
    requires Shape(st, t) && !InLargePage(st, virt) && MapPage(st, virt, phys, flags).ok
    requires phys < 0x10_0000_0000_0000 && v / 4096 == virt / 4096
    ensures var st' := MapPage(st, virt, phys, flags).st;
      && Physical(st'.mem) && st'.root < FRAME_LIMIT
      && Translate(Lookup(st'.mem, st'.root, v), v) ==
         if flags % 2 == 1 then Some(phys / 4096 * 4096 + v % 4096) else None
  {
    hide MapPage, Lookup, TablesOk, PathsOk, FramesOk, PteCreate, IsPresent, FrameOf;
    var t' := MapPageInTree(st, t, virt, phys, flags);
    PteFields(phys, flags);
    FrameBelowLimit(phys);
    assert PageNumber(v) == PageNumber(virt);
  }

  lemma FrameBelowLimit(phys: u64)
    requires phys < 0x10_0000_0000_0000
    ensures FrameOf(phys) == phys / 4096
  {
    DivisionIs(phys / 4096, 0x100_0000_0000, 0, phys / 4096);
  }

  // For an address in a 2 MiB page the call writes one word of the frame that page maps, which
  // need not be a table, and reports success.
  lemma MapPageInLargePage(st: Paging, t: Tree, virt: u64, phys: u64, flags: u32)
    requires Shape(st, t) && InLargePage(st, virt)
    ensures var e := Lookup(st.mem, st.root, virt).entry;
      && FrameOf(e) in st.mem && PtIndex(virt) < 512
      && MapPage(st, virt, phys, flags)
         == Mapped(st.(mem := SetEntry(st.mem, FrameOf(e), PtIndex(virt), PteCreate(phys, flags))), true)
  {
    hide Pml4Index, PdptIndex, PdIndex, PtIndex, PteCreate;
    IndexBounds(virt);
    LargeExactly(st, t, virt);
    LookupIsTreeLookup(st, t, virt);
    var a, b, c := Pml4Index(virt), PdptIndex(virt), PdIndex(virt);
    RootIn(st, t);
    assert Child([], a) == [a] && Child([a], b) == [a, b] && Child([a, b], c) == [a, b, c];
    NextTableCases(st, t, [], a);
    NextTableCases(st, t, [a], b);
    NextTableCases(st, t, [a, b], c);
  }

  /** The address of the neighbouring page in the same 2 MiB region. */
  function Neighbour(virt: u64): u64 {
    if virt / 4096 % 2 == 0 then virt + 4096 else virt - 4096
  }

  lemma NeighbourSharesDirectory(virt: u64)
    ensures var v := Neighbour(virt);
      && Pml4Index(v) == Pml4Index(virt) && PdptIndex(v) == PdptIndex(virt) && PdIndex(v) == PdIndex(virt)
      && PageNumber(v) != PageNumber(virt)
  {
    var v := Neighbour(virt);
    var p := virt / 4096;
    assert v / 4096 == if p % 2 == 0 then p + 1 else p - 1;
    assert v / 4096 / 2 == p / 2;
    assert virt / 0x20_0000 == p / 2 / 256 && v / 0x20_0000 == v / 4096 / 2 / 256;
    assert virt / 0x4000_0000 == virt / 0x20_0000 / 512 && v / 0x4000_0000 == v / 0x20_0000 / 512;
    assert virt / 0x80_0000_0000 == virt / 0x4000_0000 / 512 && v / 0x80_0000_0000 == v / 0x4000_0000 / 512;
  }

  // Pages in one 2 MiB region are all mapped by a 2 MiB entry or none is.
  lemma LargeTogether(mem: Memory, root: nat, v: u64, w: u64)
    requires Physical(mem) && root < FRAME_LIMIT
    requires Pml4Index(v) == Pml4Index(w) && PdptIndex(v) == PdptIndex(w) && PdIndex(v) == PdIndex(w)
    ensures Lookup(mem, root, v).Large? <==> Lookup(mem, root, w).Large?
  {
    hide Pml4Index, PdptIndex, PdIndex, PtIndex, IsPresent, IsHuge, FrameOf;
    IndexBounds(v);
  }

  // A successful vmm_map_page maps its page and no other exactly when the page did not lie
  // in a 2 MiB page before the call.
  lemma MapsOnlyIffNotLarge(st: Paging, t: Tree, virt: u64, phys: u64, flags: u32)
    requires Shape(st, t) && MapPage(st, virt, phys, flags).ok
    ensures var st' := MapPage(st, virt, phys, flags).st;
      && Physical(st'.mem) && st'.root == st.root
      && (MapsOnly(st, st', virt, PteCreate(phys, flags)) <==> !InLargePage(st, virt))
  {
    hide MapPage, PteCreate, Pml4Index, PdptIndex, PdIndex, PtIndex, PageNumber, Lookup, TablesOk, PathsOk, FramesOk;
    if InLargePage(st, virt) {
      MapPageInLargePage(st, t, virt, phys, flags);
      var st' := MapPage(st, virt, phys, flags).st;
      var v := Neighbour(virt);
      NeighbourSharesDirectory(virt);
      LargeTogether(st.mem, st.root, v, virt);
      LargeTogether(st'.mem, st'.root, v, virt);
    } else {
      var t' := MapPageInTree(st, t, virt, phys, flags);
    }
  }

  /** Entry `i` of the table at `p` is a table pointer to `frame`. */
  ghost predicate PointsTo(st: Paging, t: Tree, p: Path, i: nat, frame: nat) {
    && p in t && |p| < 3 && i < 512 && t[p] in st.mem
    && IsPresent(st.mem[t[p]][i]) && !IsHuge(st.mem[t[p]][i]) && FrameOf(st.mem[t[p]][i]) == frame
  }

  // Below the root every table has exactly one entry that points to it.
  lemma UniqueParent(st: Paging, t: Tree, p: Path, i: nat)
    requires Shape(st, t) && Child(p, i) in t
    ensures PointsTo(st, t, p, i, t[Child(p, i)])
    ensures forall q, j :: PointsTo(st, t, q, j, t[Child(p, i)]) ==> q == p && j == i
  {
    hide IsPresent, IsHuge, FrameOf;
    ChildInjective(p, i, p, i);
    EntryIsOk(st, t, p, i);
    TablePointer(t[Child(p, i)]);
    forall q, j | PointsTo(st, t, q, j, t[Child(p, i)]) ensures q == p && j == i {
      EntryIsOk(st, t, q, j);
      if Child(q, j) in t {
        TablePointer(t[Child(q, j)]);
      }
      ChildInjective(p, i, q, j);
    }
  }

  // ---------- Runs ----------

  datatype Request = Request(virt: u64, phys: u64, flags: u32)

  ghost predicate Ready(st: Paging) {
    Physical(st.mem) && st.root < FRAME_LIMIT && Usable(st.frames)
  }

  ghost function RunMaps(st: Paging, rs: seq<Request>): Paging
    requires Ready(st)
    decreases |rs|
  {
    if rs == [] then st
    else
      MapPageReady(st, rs[0]);
      RunMaps(MapPage(st, rs[0].virt, rs[0].phys, rs[0].flags).st, rs[1..])
  }

  /** The pages the run mapped, each with the entry of the last successful request for it. */
  ghost function Updates(st: Paging, rs: seq<Request>): map<nat, u64>
    requires Ready(st)
    decreases |rs|
  {
    if rs == [] then map[]
    else
      var r := MapPage(st, rs[0].virt, rs[0].phys, rs[0].flags);
      MapPageReady(st, rs[0]);
      (if r.ok then map[PageNumber(rs[0].virt) := PteCreate(rs[0].phys, rs[0].flags)] else map[])
      + Updates(r.st, rs[1..])
  }

  lemma MapPageReady(st: Paging, r: Request)
    requires Ready(st)
    ensures Ready(MapPage(st, r.virt, r.phys, r.flags).st)
  {
    hide Pml4Index, PdptIndex, PdIndex, PtIndex, IsPresent, FrameOf, PteCreate;
    IndexBounds(r.virt);
  }

  /** A translation with a map of page entries laid over it. */
  function Laid(us: map<nat, u64>, page: nat, base: Walk): Walk {
    if page in us then Leaf(us[page]) else base
  }

  // Over every run that avoids the 2 MiB pages of its start, the hardware walk equals the
  // start with a last-write-wins map laid over it, and the tables stay a tree that holds every
  // frame taken.
  lemma {:induction false} RunIsLastWriteWins(st: Paging, t: Tree, rs: seq<Request>) returns (t': Tree)
    requires Shape(st, t) && forall r :: r in rs ==> !InLargePage(st, r.virt)
    ensures var st', us := RunMaps(st, rs), Updates(st, rs);
      && Shape(st', t') && st'.root == st.root && st'.frames <= st.frames
      && t'.Values == t.Values + (st.frames - st'.frames)
      && forall v: u64 :: Lookup(st'.mem, st'.root, v) == Laid(us, PageNumber(v), Lookup(st.mem, st.root, v))
    decreases |rs|
  {
    hide Pml4Index, PdptIndex, PdIndex, PtIndex, PageNumber, PteCreate, MapPage,
         TablesOk, PathsOk, FramesOk, Lookup, Extends;
    if rs == [] {
      t' := t;
      assert st.frames - st.frames == {};
    } else {
      var r := rs[0];
      var m := MapPage(st, r.virt, r.phys, r.flags);
      var t1 := MapPageInTree(st, t, r.virt, r.phys, r.flags);
      StillAvoids(st, m.st, m.ok, r, rs);
      t' := RunIsLastWriteWins(m.st, t1, rs[1..]);
      var st' := RunMaps(m.st, rs[1..]);
      assert RunMaps(st, rs) == st';
      TakenInTwoSteps(t.Values, st.frames, m.st.frames, st'.frames);
      OneMoreUpdate(st, m.st, m.ok, r, st', Updates(m.st, rs[1..]), Updates(st, rs));
    }
  }

  lemma TakenInTwoSteps(base: set<nat>, f: set<nat>, f1: set<nat>, f2: set<nat>)
    requires f1 <= f && f2 <= f1
    ensures base + (f - f1) + (f1 - f2) == base + (f - f2)
  {
  }

  lemma OneMoreUpdate(st: Paging, st1: Paging, ok: bool, r: Request, st': Paging,
                      later: map<nat, u64>, us: map<nat, u64>)
    requires Ready(st) && Ready(st1) && Ready(st')
    requires ok ==> MapsOnly(st, st1, r.virt, PteCreate(r.phys, r.flags))
    requires !ok ==> forall v: u64 :: Lookup(st1.mem, st1.root, v) == Lookup(st.mem, st.root, v)
    requires us == (if ok then map[PageNumber(r.virt) := PteCreate(r.phys, r.flags)] else map[]) + later
    requires forall v: u64 :: Lookup(st'.mem, st'.root, v) == Laid(later, PageNumber(v), Lookup(st1.mem, st1.root, v))
    ensures forall v: u64 :: Lookup(st'.mem, st'.root, v) == Laid(us, PageNumber(v), Lookup(st.mem, st.root, v))
  {
    hide Lookup, PageNumber, PteCreate;
  }

  // The remaining requests avoid the 2 MiB pages after the first request too.
  lemma StillAvoids(st: Paging, st': Paging, ok: bool, r: Request, rs: seq<Request>)
    requires Ready(st) && Ready(st') && rs != [] && forall q :: q in rs ==> !InLargePage(st, q.virt)
    requires ok ==> MapsOnly(st, st', r.virt, PteCreate(r.phys, r.flags))
    requires !ok ==> forall v: u64 :: Lookup(st'.mem, st'.root, v) == Lookup(st.mem, st.root, v)
    ensures forall q :: q in rs[1..] ==> !InLargePage(st', q.virt)
  {
    hide Lookup, PageNumber, PteCreate;
    forall q | q in rs[1..] ensures !InLargePage(st', q.virt) {
      assert q in rs;
    }
  }

  // ---------- vmm_init ----------

  /** The entries 0, ..., n - 1 of the page directory, mapping 2 MiB each to itself. */
  ghost function IdentityEntries(mem: Memory, pd: nat, n: nat): (mem': Memory)
    requires pd in mem && n <= 512
    ensures mem'.Keys == mem.Keys
  {
    if n == 0 then mem
    else SetEntry(IdentityEntries(mem, pd, n - 1), pd, n - 1, PteCreate((n - 1) * 0x20_0000, PRESENT_WRITABLE_HUGE))
  }

  /** `vmm_init`: the root table if there was a frame for it, and whether everything succeeded. */
  ghost function Init(mem: Memory, frames: set<nat>): Mapped
    requires Physical(mem) && Usable(frames)
  {
    var s0 := AllocTable(Paging(mem, 0, frames));
    if s0.table.None? then Mapped(s0.st, false)
    else
      var s := DirectoryTable(s0.st.(root := s0.table.value), 0);
      if s.table.None? then Mapped(s.st, false)
      else Mapped(s.st.(mem := IdentityEntries(s.st.mem, s.table.value, 8)), true)
  }

  lemma RootAlone(mem: Memory, frames: set<nat>)
    requires Physical(mem) && Usable(frames) && frames != {}
    ensures var g := Lowest(frames);
      var st := Paging(mem[g := ZeroTable()], g, frames - {g});
      Shape(st, map[[] := g]) && forall v: u64 :: Lookup(st.mem, st.root, v) == Unmapped
  {
    hide IsPresent, Pml4Index, PdptIndex, PdIndex, PtIndex;
    ZeroEntry();
    var g := Lowest(frames);
    forall p: Path, i | Child(p, i) in map[[] := g] ensures false {
      ChildInjective(p, i, p, i);
    }
    var st := Paging(mem[g := ZeroTable()], g, frames - {g});
    forall v: u64 ensures Lookup(st.mem, st.root, v) == Unmapped {
      IndexBounds(v);
    }
  }

  lemma WriteLarge(st: Paging, t: Tree, p: Path, i: nat, e: u64)
    requires Shape(st, t) && p in t && |p| == 2 && i < 512 && Child(p, i) !in t && IsHuge(e)
    ensures Shape(st.(mem := SetEntry(st.mem, t[p], i, e)), t)
  {
    var st' := st.(mem := SetEntry(st.mem, t[p], i, e));
    forall q, j | q in t && |q| < 3 && 0 <= j < 512 ensures t[q] in st'.mem && EntryOk(st'.mem, t, q, j) {
      EntryIsOk(st, t, q, j);
    }
  }

  lemma WriteLargeLookup(st: Paging, t: Tree, a: nat, b: nat, i: nat, e: u64, v: u64)
    requires Shape(st, t) && [a, b] in t && i < 512 && [a, b, i] !in t && IsHuge(e) && IsPresent(e)
    ensures Lookup(SetEntry(st.mem, t[[a, b]], i, e), st.root, v) ==
            if Pml4Index(v) == a && PdptIndex(v) == b && PdIndex(v) == i then Large(e) else Lookup(st.mem, st.root, v)
  {
    hide Pml4Index, PdptIndex, PdIndex, PtIndex, IsPresent, IsHuge, FrameOf, Lookup, TablesOk, PathsOk;
    var st' := st.(mem := SetEntry(st.mem, t[[a, b]], i, e));
    assert Child([a, b], i) == [a, b, i];
    WriteLarge(st, t, [a, b], i, e);
    IndexBounds(v);
    LookupIsTreeLookup(st, t, v);
    LookupIsTreeLookup(st', t, v);
    PrefixClosed(st, t, Pml4Index(v), PdptIndex(v), PdIndex(v));
    PrefixClosed(st, t, a, b, i);
    SamePath(Pml4Index(v), PdptIndex(v), PdIndex(v), a, b, i);
    SamePath(Pml4Index(v), PdptIndex(v), 0, a, b, 0);
    if [Pml4Index(v), PdptIndex(v)] == [a, b] {
      assert [Pml4Index(v), PdptIndex(v)][0] == [a, b][0] && [Pml4Index(v), PdptIndex(v)][1] == [a, b][1];
    }
  }

  // The identity entries extend the mapped range by 2 MiB each.
  lemma {:induction false} IdentityLookups(st: Paging, t: Tree, n: nat)
    requires Shape(st, t) && [0, 0] in t && n <= 8
    requires forall i: nat :: [0, 0, i] !in t
    requires forall v: u64 :: Lookup(st.mem, st.root, v) == Unmapped
    ensures var mem' := IdentityEntries(st.mem, t[[0, 0]], n);
      && Shape(st.(mem := mem'), t)
      && forall v: u64 :: Lookup(mem', st.root, v) == IdentityWalk(v, n)
    decreases n
  {
    hide Pml4Index, PdptIndex, PdIndex, PtIndex, Lookup, TablesOk, PathsOk, FramesOk, PteCreate;
    EntryIsOk(st, t, [0, 0], 0);
    if n > 0 {
      IdentityLookups(st, t, n - 1);
      var st1 := st.(mem := IdentityEntries(st.mem, t[[0, 0]], n - 1));
      var e := PteCreate((n - 1) * 0x20_0000, PRESENT_WRITABLE_HUGE);
      PteFields((n - 1) * 0x20_0000, PRESENT_WRITABLE_HUGE);
      assert Child([0, 0], n - 1) == [0, 0, n - 1];
      WriteLarge(st1, t, [0, 0], n - 1, e);
      forall v: u64 ensures Lookup(IdentityEntries(st.mem, t[[0, 0]], n), st.root, v) == IdentityWalk(v, n) {
        WriteLargeLookup(st1, t, 0, 0, n - 1, e, v);
      }
    }
  }

  /** What the walk finds when the first `n` entries of the first page directory map to themselves. */
  function IdentityWalk(virt: u64, n: nat): Walk {
    if Pml4Index(virt) == 0 && PdptIndex(virt) == 0 && PdIndex(virt) < n
    then Large(PteCreate(PdIndex(virt) * 0x20_0000, PRESENT_WRITABLE_HUGE))
    else Unmapped
  }

  // The first 16 MiB are addressed by the first eight entries, and map to themselves.
  lemma IdentityIsIdentity(virt: u64)
    ensures IdentityWalk(virt, 8).Large? <==> virt % 0x1_0000_0000_0000 < 0x100_0000
    ensures virt < 0x100_0000 ==> Translate(IdentityWalk(virt, 8), virt) == Some(virt)
    ensures !IdentityWalk(virt, 8).Large? ==> IdentityWalk(virt, 8) == Unmapped
  {
    hide PteCreate;
    LowSixteen(virt);
    var i := PdIndex(virt);
    PteFields(i * 0x20_0000, PRESENT_WRITABLE_HUGE);
    if virt < 0x100_0000 {
      assert i == virt / 0x20_0000;
      assert i * 0x20_0000 / 4096 == i * 512;
      assert FrameOf(i * 0x20_0000) == i * 512;
      assert i * 512 / 512 == i;
    }
  }

  lemma LowSixteen(virt: u64)
    ensures Pml4Index(virt) == 0 && PdptIndex(virt) == 0 && PdIndex(virt) < 8
            <==> virt % 0x1_0000_0000_0000 < 0x100_0000
  {
    var a, b, c, d := Pml4Index(virt), PdptIndex(virt), PdIndex(virt), PtIndex(virt);
    hide Pml4Index, PdptIndex, PdIndex, PtIndex, PageNumber;
    IndexBounds(virt);
    IndicesArePageNumber(virt);
    assert PageNumber(virt) < 0x1000 <==> a == 0 && b == 0 && c < 8;
    BytesOfPage(virt);
  }

  lemma BytesOfPage(virt: u64)
    ensures virt % 0x1_0000_0000_0000 < 0x100_0000 <==> PageNumber(virt) < 0x1000
  {
    var q, w := virt / 4096 / 0x10_0000_0000, PageNumber(virt);
    assert virt == (q * 0x10_0000_0000 + w) * 4096 + virt % 4096;
    assert virt % 0x1_0000_0000_0000 == w * 4096 + virt % 4096;
  }

  // After vmm_init every address below 16 MiB is translated to itself and nothing else is
  // mapped, in a tree of three tables; when it fails, nothing at all is mapped. Without a free
  // frame there is no root either, and memory stays as it is.
  lemma InitMapsSixteenMegabytes(mem: Memory, frames: set<nat>) returns (t: Tree)
    requires Physical(mem) && Usable(frames)
    ensures frames == {} ==> Init(mem, frames) == Mapped(Paging(mem, 0, {}), false)
    ensures var r := Init(mem, frames); frames != {} ==>
      && Shape(r.st, t) && r.st.root == Lowest(frames) && r.st.frames <= frames
      && t.Values == frames - r.st.frames
      && (r.ok ==> forall v: u64 :: Lookup(r.st.mem, r.st.root, v) == IdentityWalk(v, 8))
      && (!r.ok ==> r.st.frames == {} && forall v: u64 :: Lookup(r.st.mem, r.st.root, v) == Unmapped)
  {
    hide FirstTables, IdentityEntries, TablesOk, PathsOk, FramesOk, Lookup, IdentityWalk, Init, Usable, Physical;
    if frames == {} {
      NoRoot(mem);
      t := map[];
      return;
    }
    InitSteps(mem, frames);
    t := FirstDirectory(mem, frames);
    var s := FirstTables(mem, frames);
    if s.table.Some? {
      IdentityLookups(s.st, t, 8);
    }
  }

  /** The first two steps of initialisation: the root, and the tables on the way to address 0. */
  ghost function FirstTables(mem: Memory, frames: set<nat>): (s: Step)
    requires Physical(mem) && Usable(frames) && frames != {}
    ensures s.table.Some? ==> s.table.value in s.st.mem
  {
    var g := Lowest(frames);
    DirectoryTable(Paging(mem[g := ZeroTable()], g, frames - {g}), 0)
  }

  // The root and the first page directory are linked, and map nothing yet.
  lemma FirstDirectory(mem: Memory, frames: set<nat>) returns (t: Tree)
    requires Physical(mem) && Usable(frames) && frames != {}
    ensures var g, s := Lowest(frames), FirstTables(mem, frames);
      && Shape(s.st, t) && s.st.root == g && s.st.frames <= frames && t.Values == frames - s.st.frames
      && (forall v: u64 :: Lookup(s.st.mem, g, v) == Unmapped)
      && (s.table.None? ==> s.st.frames == {})
      && (s.table.Some? ==> [0, 0] in t && s.table.value == t[[0, 0]] && forall i: nat :: [0, 0, i] !in t)
  {
    hide IsPresent, IsHuge, FrameOf, DirectoryTable, TablesOk, PathsOk, FramesOk, Lookup, ZeroTable;
    var g := Lowest(frames);
    var st0, t0: Tree := Paging(mem[g := ZeroTable()], g, frames - {g}), map[[] := g];
    RootAlone(mem, frames);
    ZeroIndices();
    t := DirectoryInTree(st0, t0, 0);
    var s := DirectoryTable(st0, 0);
    AddsShape(st0, t0, s.st, t, 2);
    RootValues(t0, g);
    TakeThenTake(frames, g, s.st.frames);
    assert forall i: nat :: |[0, 0, i]| == 3;
  }

  lemma NoRoot(mem: Memory)
    requires Physical(mem)
    ensures Usable({}) && Init(mem, {}) == Mapped(Paging(mem, 0, {}), false)
  {
  }

  lemma InitSteps(mem: Memory, frames: set<nat>)
    requires Physical(mem) && Usable(frames) && frames != {}
    ensures var s := FirstTables(mem, frames);
      Init(mem, frames) ==
      if s.table.None? then Mapped(s.st, false)
      else Mapped(s.st.(mem := IdentityEntries(s.st.mem, s.table.value, 8)), true)
  {
    hide DirectoryTable, IdentityEntries;
  }

  lemma ZeroIndices()
    ensures Pml4Index(0) == 0 && PdptIndex(0) == 0
  {
  }

  lemma TakeThenTake(frames: set<nat>, g: nat, rest: set<nat>)
    requires g in frames && rest <= frames - {g}
    ensures {g} + ((frames - {g}) - rest) == frames - rest
  {
  }

  lemma RootValues(t: Tree, g: nat)
    requires t == map[[] := g]
    ensures t.Values == {g}
  {
    assert [] in t && t[[]] == g;
  }
}
