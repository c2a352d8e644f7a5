/** What an unmap does to memory, whatever is mapped, and when that is what it should do
    (paging_unmap_page in kernel/src/memory/paging.c). */
module UnmapLaws {
  import opened Options
  import opened Words
  import opened PageTables
  import opened PagingSteps
  import opened Processor
  import opened PagingLaws

  // ---------- The code ----------

  /** Clearing the present bit of an entry. */
  function Cleared(m: Memory, f: Frame, i: Index): Memory {
    Put(m, f, i, ClearPresent(m[f][i]))
  }

  /** paging_check_for_empty_table: a frame without a present word is unhooked and freed. */
  ghost function Checked(a: Moment, table: Frame, parent: Frame, idx: Index): Moment {
    if Blank(a.mem[table]) then Moment(Cleared(a.mem, parent, idx), a.free + {table}) else a
  }

  /** The end of an unmap, once it has followed the entries down to the frames pdpr, pd and pt. */
  ghost function Removed(a: Moment, root: Frame, virt: bv64, size: PageSize, pdpr: Frame, pd: Frame, pt: Frame): Moment
  {
    match size
    case Size1GB =>
      Checked(Moment(Cleared(a.mem, pdpr, PdprIndex(virt)), a.free), pdpr, root, Pml4Index(virt))
    case Size2MB =>
      var b := Checked(Moment(Cleared(a.mem, pd, PdIndex(virt)), a.free), pd, pdpr, PdprIndex(virt));
      Checked(b, pdpr, root, Pml4Index(virt))
    case Size4KB =>
      var b := Checked(Moment(Cleared(a.mem, pt, PtIndex(virt)), a.free), pt, pd, PdIndex(virt));
      var c := Checked(b, pd, pdpr, PdprIndex(virt));
      Checked(c, pdpr, root, Pml4Index(virt))
  }

  /** The frames that an unmap follows its entries to, as pointers and without a look at the size bit, or
      an error. */
  datatype Way = Way(ok: bool, pdpr: Frame, pd: Frame, pt: Frame)

  function WayOf(m: Memory, root: Frame, virt: bv64, size: PageSize): Way {
    var e4 := m[root][Pml4Index(virt)];
    if !Present(e4) then Way(false, 0, 0, 0) else
    var pdpr := Target(e4);
    var e3 := m[pdpr][PdprIndex(virt)];
    if size == Size1GB || !Present(e3) then Way(Present(e3), pdpr, 0, 0) else
    var pd := Target(e3);
    var e2 := m[pd][PdIndex(virt)];
    if size == Size2MB || !Present(e2) then Way(Present(e2), pdpr, pd, 0) else
    Way(true, pdpr, pd, Target(e2))
  }

  /** paging_unmap_page: memory and free frames after it, or None for an error. */
  ghost function UnmapCode(a: Moment, root: Frame, virt: bv64, size: PageSize): Option<Moment> {
    var way := WayOf(a.mem, root, virt, size);
    if way.ok then Some(Removed(a, root, virt, size, way.pdpr, way.pd, way.pt)) else None
  }

  /** Whatever the checks free is a page that the allocator has handed out. */
  ghost predicate CanCheck(a: Moment, managed: set<nat>, table: Frame) {
    Blank(a.mem[table]) ==> table in managed && table !in a.free
  }

  ghost predicate CanRemove(a: Moment, managed: set<nat>, root: Frame, virt: bv64, size: PageSize, pdpr: Frame,
          pd: Frame, pt: Frame) {
    match size
    case Size1GB =>
      CanCheck(Moment(Cleared(a.mem, pdpr, PdprIndex(virt)), a.free), managed, pdpr)
    case Size2MB =>
      var b := Moment(Cleared(a.mem, pd, PdIndex(virt)), a.free);
      CanCheck(b, managed, pd) && CanCheck(Checked(b, pd, pdpr, PdprIndex(virt)), managed, pdpr)
    case Size4KB =>
      var b := Moment(Cleared(a.mem, pt, PtIndex(virt)), a.free);
      var c := Checked(b, pt, pd, PdIndex(virt));
      && CanCheck(b, managed, pt) && CanCheck(c, managed, pd)
      && CanCheck(Checked(c, pd, pdpr, PdprIndex(virt)), managed, pdpr)
  }

  ghost predicate CanUnmap(a: Moment, managed: set<nat>, root: Frame, virt: bv64, size: PageSize) {
    var way := WayOf(a.mem, root, virt, size);
    way.ok ==> CanRemove(a, managed, root, virt, size, way.pdpr, way.pd, way.pt)
  }

  lemma {:induction false} CodeParts(a: Moment, table: Frame, parent: Frame, idx: Index)
    ensures Cleared(a.mem, parent, idx) == Put(a.mem, parent, idx, ClearPresent(a.mem[parent][idx]))
    ensures Checked(a, table, parent, idx) ==
            if Blank(a.mem[table]) then Moment(Cleared(a.mem, parent, idx), a.free + {table}) else a
  {
  }

  lemma {:induction false} RemovedParts(a: Moment, root: Frame, virt: bv64, size: PageSize, pdpr: Frame, pd: Frame,
          pt: Frame)
    ensures var b := Removed(a, root, virt, size, pdpr, pd, pt);
            match size
            case Size1GB =>
              b == Checked(Moment(Cleared(a.mem, pdpr, PdprIndex(virt)), a.free), pdpr, root, Pml4Index(virt))
            case Size2MB =>
              b == Checked(Checked(Moment(Cleared(a.mem, pd, PdIndex(virt)), a.free), pd, pdpr, PdprIndex(virt)),
                           pdpr, root, Pml4Index(virt))
            case Size4KB =>
              b == Checked(Checked(Checked(Moment(Cleared(a.mem, pt, PtIndex(virt)), a.free), pt, pd, PdIndex(virt)),
                                   pd, pdpr, PdprIndex(virt)), pdpr, root, Pml4Index(virt))
  {
    hide Checked, Cleared;
  }

  lemma {:induction false} CanRemoveParts(a: Moment, managed: set<nat>, root: Frame, virt: bv64, size: PageSize,
          pdpr: Frame, pd: Frame, pt: Frame)
    requires CanRemove(a, managed, root, virt, size, pdpr, pd, pt)
    ensures size == Size1GB ==> CanCheck(Moment(Cleared(a.mem, pdpr, PdprIndex(virt)), a.free), managed, pdpr)
    ensures size == Size2MB ==>
              var b := Moment(Cleared(a.mem, pd, PdIndex(virt)), a.free);
              CanCheck(b, managed, pd) && CanCheck(Checked(b, pd, pdpr, PdprIndex(virt)), managed, pdpr)
    ensures size == Size4KB ==>
              var b := Moment(Cleared(a.mem, pt, PtIndex(virt)), a.free);
              var c := Checked(b, pt, pd, PdIndex(virt));
              && CanCheck(b, managed, pt) && CanCheck(c, managed, pd)
              && CanCheck(Checked(c, pd, pdpr, PdprIndex(virt)), managed, pdpr)
  {
    hide Checked, Cleared, CanCheck;
  }

  lemma {:induction false} CodeOfWay(a: Moment, managed: set<nat>, root: Frame, virt: bv64, size: PageSize)
    ensures var way := WayOf(a.mem, root, virt, size);
            && UnmapCode(a, root, virt, size) ==
               (if way.ok then Some(Removed(a, root, virt, size, way.pdpr, way.pd, way.pt)) else None)
            && (CanUnmap(a, managed, root, virt, size) && way.ok ==>
                  CanRemove(a, managed, root, virt, size, way.pdpr, way.pd, way.pt))
  {
    hide WayOf, Removed, CanRemove;
  }

  // ---------- One check ----------

  /** The check of a table of the tree keeps the pages and all other tables. */
  lemma {:induction false} CheckedTree(root: Frame, a: Moment, p: Path, i: Index, table: Frame, parent: Frame)
    requires IsTree(a.mem, root) && TableAt(a.mem, root, p) == Some(parent)
    requires TableAt(a.mem, root, Sub(p, i)) == Some(table)
    ensures var b := Checked(a, table, parent, i);
            && IsTree(b.mem, root) && SameLeaves(b.mem, root, a.mem, root)
            && Tables(b.mem, root) <= Tables(a.mem, root) && b.free <= a.free + Tables(a.mem, root)
            && (forall r :: r != Sub(p, i) ==> TableAt(b.mem, root, r) == TableAt(a.mem, root, r))
  {
    hide Present, Large, Target, Blank;
    if Blank(a.mem[table]) {
      ClearPresentBits(a.mem[parent][i]);
      UnlinkTable(a.mem, root, p, i, ClearPresent(a.mem[parent][i]));
      InTables(a.mem, root, Sub(p, i));
    }
  }

  // ---------- What changes in memory ----------

  /** Nothing changes but present bits, which are cleared. */
  ghost predicate OnlyClearsPresent(m0: Memory, m: Memory) {
    forall f: Frame, i: Index :: WordCleared(m0[f][i], m[f][i])
  }

  predicate WordCleared(w0: bv64, w: bv64) {
    w == w0 || (w0 as nat % 2 == 1 && w as nat == w0 as nat - 1)
  }

  lemma {:induction false} NothingCleared(m: Memory)
    ensures OnlyClearsPresent(m, m)
  {
  }

  lemma {:induction false} ClearedTwice(w0: bv64, w1: bv64, w: bv64)
    requires WordCleared(w0, w1) && WordCleared(w1, w)
    ensures WordCleared(w0, w)
  {
    NotOddTwice(w0 as nat, w1 as nat);
  }

  lemma {:induction false} NotOddTwice(n: nat, k: nat)
    ensures n % 2 == 1 && k + 1 == n ==> k % 2 == 0
  {
  }

  lemma {:induction false} ClearedWord(w: bv64)
    ensures WordCleared(w, ClearPresent(w))
  {
    hide Present, ClearPresent;
    PresentBit(w);
    ClearPresentBits(w);
  }

  lemma {:induction false} ClearedOnly(m0: Memory, m: Memory, f: Frame, i: Index)
    requires OnlyClearsPresent(m0, m)
    ensures OnlyClearsPresent(m0, Cleared(m, f, i))
  {
    hide ClearPresent, WordCleared;
    ClearedWord(m[f][i]);
    ClearedTwice(m0[f][i], m[f][i], ClearPresent(m[f][i]));
  }

  lemma {:induction false} CheckedOnly(m0: Memory, a: Moment, table: Frame, parent: Frame, i: Index)
    requires OnlyClearsPresent(m0, a.mem)
    ensures OnlyClearsPresent(m0, Checked(a, table, parent, i).mem)
  {
    hide OnlyClearsPresent, Cleared, Blank;
    ClearedOnly(m0, a.mem, parent, i);
  }

  /** Whatever is mapped and whatever the size, an unmap changes only present bits, and those it clears. */
  lemma {:induction false} UnmapOnlyClears(a: Moment, root: Frame, virt: bv64, size: PageSize, b: Moment)
    requires UnmapCode(a, root, virt, size) == Some(b)
    ensures OnlyClearsPresent(a.mem, b.mem)
  {
    var way := WayOf(a.mem, root, virt, size);
    var pdpr, pd, pt := way.pdpr, way.pd, way.pt;
    RemovedParts(a, root, virt, size, pdpr, pd, pt);
    NothingCleared(a.mem);
    hide OnlyClearsPresent, WayOf, Cleared, Checked, Removed, Pml4Index, PdprIndex, PdIndex, PtIndex;
    match size {
      case Size1GB =>
        ClearedOnly(a.mem, a.mem, pdpr, PdprIndex(virt));
        CheckedOnly(a.mem, Moment(Cleared(a.mem, pdpr, PdprIndex(virt)), a.free), pdpr, root, Pml4Index(virt));
      case Size2MB =>
        ClearedOnly(a.mem, a.mem, pd, PdIndex(virt));
        var b2 := Moment(Cleared(a.mem, pd, PdIndex(virt)), a.free);
        CheckedOnly(a.mem, b2, pd, pdpr, PdprIndex(virt));
        CheckedOnly(a.mem, Checked(b2, pd, pdpr, PdprIndex(virt)), pdpr, root, Pml4Index(virt));
      case Size4KB =>
        ClearedOnly(a.mem, a.mem, pt, PtIndex(virt));
        var b3 := Moment(Cleared(a.mem, pt, PtIndex(virt)), a.free);
        CheckedOnly(a.mem, b3, pt, pd, PdIndex(virt));
        var b2 := Checked(b3, pt, pd, PdIndex(virt));
        CheckedOnly(a.mem, b2, pd, pdpr, PdprIndex(virt));
        CheckedOnly(a.mem, Checked(b2, pd, pdpr, PdprIndex(virt)), pdpr, root, Pml4Index(virt));
    }
  }

  // ---------- A size that fits ----------

  /** One check on the way up of an unmap. */
  lemma {:induction false} UnmappingChecked(m0: Memory, free0: set<nat>, a: Moment, root: Frame, slot: Path, p: Path,
          i: Index, table: Frame, parent: Frame)
    requires Unmapping(m0, free0, a.mem, a.free, root, slot, Sub(p, i))
    requires TableAt(a.mem, root, p) == Some(parent) && TableAt(a.mem, root, Sub(p, i)) == Some(table)
    ensures var b := Checked(a, table, parent, i);
            Unmapping(m0, free0, b.mem, b.free, root, slot, p) && TableAt(b.mem, root, p) == Some(parent)
  {
    hide Present, Blank, Unmapping, TableAt;
    if Blank(a.mem[table]) {
      ClearPresentBits(a.mem[parent][i]);
      UnmappingFree(m0, free0, a.mem, a.free, root, slot, p, i, table, ClearPresent(a.mem[parent][i]));
      UnmappingTable(m0, free0, a.mem, a.free, root, slot, Sub(p, i), table);
      CheckedTree(root, a, p, i, table, parent);
      NotItsChild(p, i);
    } else {
      UnmappingKeep(m0, free0, a.mem, a.free, root, slot, p, i);
    }
  }

  lemma {:induction false} NotItsChild(p: Path, i: Index)
    ensures p != Sub(p, i)
  {
    assert Depth(Sub(p, i)) == Depth(p) + 1;
  }

  /** The whole way up is an unmap, as promised, if the frames followed are the tables of the page and no
      table hangs at its place. */
  lemma {:induction false} RemovedIsUnmapped(a: Moment, root: Frame, virt: bv64, size: PageSize, pdpr: Frame,
          pd: Frame, pt: Frame)
    requires Sound(root, a) && TableAt(a.mem, root, Slot(virt, size)).None?
    requires TableAt(a.mem, root, Path1(virt)) == Some(pdpr)
    requires size != Size1GB ==> TableAt(a.mem, root, Path2(virt)) == Some(pd)
    requires size == Size4KB ==> TableAt(a.mem, root, Path3(virt)) == Some(pt)
    ensures var b := Removed(a, root, virt, size, pdpr, pd, pt);
            Unmapped(a.mem, a.free, b.mem, b.free, root, Slot(virt, size))
  {
    SlotPath(virt, size);
    SlotParts(virt, size);
    SlotIndexParts(virt);
    RootTable(a.mem, root);
    hide TableAt, LeafAt, Unmapping, Slot, Path1, Path2, Path3, Checked, Depth, Under, ClearPresent;
    hide Pml4Index, PdprIndex, PdIndex, PtIndex;
    var slot := Slot(virt, size);
    match size {
      case Size1GB =>
        var c := Moment(Cleared(a.mem, pdpr, PdprIndex(virt)), a.free);
        ClearedStart(a, root, Path1(virt), PdprIndex(virt), pdpr);
        RootTable(c.mem, root);
        UnmappingChecked(a.mem, a.free, c, root, slot, Root, Pml4Index(virt), pdpr, root);
      case Size2MB =>
        var c := Moment(Cleared(a.mem, pd, PdIndex(virt)), a.free);
        ClearedStart(a, root, Path2(virt), PdIndex(virt), pd);
        RemovedUp2(a, root, virt, slot, c, pdpr, pd);
      case Size4KB =>
        var c := Moment(Cleared(a.mem, pt, PtIndex(virt)), a.free);
        ClearedStart(a, root, Path3(virt), PtIndex(virt), pt);
        UnmappingChecked(a.mem, a.free, c, root, slot, Path2(virt), PdIndex(virt), pt, pd);
        RemovedUp2(a, root, virt, slot, Checked(c, pt, pd, PdIndex(virt)), pdpr, pd);
    }
  }

  lemma {:induction false} ClearedStart(a: Moment, root: Frame, p: Path, i: Index, table: Frame)
    requires Sound(root, a) && TableAt(a.mem, root, p) == Some(table) && TableAt(a.mem, root, Sub(p, i)).None?
    ensures Unmapping(a.mem, a.free, Cleared(a.mem, table, i), a.free, root, Sub(p, i), p)
    ensures forall r :: TableAt(Cleared(a.mem, table, i), root, r) == TableAt(a.mem, root, r)
  {
    hide Present, TableAt, Unmapping, IsTree, Populated, Tables;
    ClearPresentBits(a.mem[table][i]);
    UnmappingStart(a.mem, a.free, root, p, i, ClearPresent(a.mem[table][i]));
  }

  /** The checks from the page directory up. */
  lemma {:induction false} RemovedUp2(a: Moment, root: Frame, virt: bv64, slot: Path, c: Moment, pdpr: Frame, pd: Frame)
    requires Unmapping(a.mem, a.free, c.mem, c.free, root, slot, Path2(virt))
    requires TableAt(a.mem, root, Path1(virt)) == Some(pdpr)
    requires TableAt(c.mem, root, Path2(virt)) == Some(pd)
    ensures var d := Checked(c, pd, pdpr, PdprIndex(virt));
            var b := Checked(d, pdpr, root, Pml4Index(virt));
            Unmapping(a.mem, a.free, b.mem, b.free, root, slot, Root)
  {
    hide TableAt, Unmapping, Checked, Pml4Index, PdprIndex;
    UnmappingParent(a.mem, a.free, c.mem, c.free, root, slot, Path1(virt), PdprIndex(virt));
    UnmappingChecked(a.mem, a.free, c, root, slot, Path1(virt), PdprIndex(virt), pd, pdpr);
    var d := Checked(c, pd, pdpr, PdprIndex(virt));
    RootTable(d.mem, root);
    UnmappingChecked(a.mem, a.free, d, root, slot, Root, Pml4Index(virt), pdpr, root);
  }

  /** Where the size fits, the frames followed are the tables of the page, and an error means that one of
      them, or the large page itself, is not there. */
  lemma {:induction false} WayIsUnmapWay(m: Memory, root: Frame, virt: bv64, size: PageSize)
    requires NoLargerPage(m, root, Slot(virt, size)) && TableAt(m, root, Slot(virt, size)).None?
    ensures Slot(virt, size).Sub?
    ensures var way := WayOf(m, root, virt, size);
            UnmapWay(way.ok, m, root, virt, size, way.pdpr, way.pd, way.pt)
  {
    var slot := Slot(virt, size);
    SlotPath(virt, size);
    SlotParts(virt, size);
    RootTable(m, root);
    hide TableAt, LeafAt, Depth, Under, NoLargerPage, Slot, Path1, Path2, Path3, Present, Large, Target;
    hide Pml4Index, PdprIndex, PdIndex, PtIndex;
    OnTheWay(m, root, slot, Path1(virt));
    StepDown(m, root, Root, Pml4Index(virt), root);
    if !Present(m[root][Pml4Index(virt)]) {
      NothingOnTheWay(m, root, slot, Path1(virt));
      return;
    }
    var pdpr := Target(m[root][Pml4Index(virt)]);
    if size == Size1GB {
      StepToLeaf(m, root, Path1(virt), PdprIndex(virt), pdpr);
      return;
    }
    OnTheWay(m, root, slot, Path2(virt));
    StepDown(m, root, Path1(virt), PdprIndex(virt), pdpr);
    if !Present(m[pdpr][PdprIndex(virt)]) {
      NothingOnTheWay(m, root, slot, Path2(virt));
      return;
    }
    var pd := Target(m[pdpr][PdprIndex(virt)]);
    if size == Size2MB {
      StepToLeaf(m, root, Path2(virt), PdIndex(virt), pd);
      return;
    }
    OnTheWay(m, root, slot, Path3(virt));
    StepDown(m, root, Path2(virt), PdIndex(virt), pd);
  }

  /** The entries followed lead to the tables of the page where no larger page lies on the way. */
  lemma {:induction false} UnmapFollowsTables(m: Memory, root: Frame, virt: bv64, size: PageSize)
    requires NoLargerPage(m, root, Slot(virt, size)) && WayOf(m, root, virt, size).ok
    ensures var way := WayOf(m, root, virt, size);
            && TableAt(m, root, Path1(virt)) == Some(way.pdpr)
            && (size != Size1GB ==> TableAt(m, root, Path2(virt)) == Some(way.pd))
            && (size == Size4KB ==> TableAt(m, root, Path3(virt)) == Some(way.pt))
  {
    var slot := Slot(virt, size);
    SlotPath(virt, size);
    SlotParts(virt, size);
    RootTable(m, root);
    hide TableAt, LeafAt, NoLargerPage, Slot, Path1, Path2, Path3, Depth, Under, Present, Large, Target;
    hide Pml4Index, PdprIndex, PdIndex, PtIndex;
    var pdpr := Target(m[root][Pml4Index(virt)]);
    OnTheWay(m, root, slot, Path1(virt));
    StepDown(m, root, Root, Pml4Index(virt), root);
    if size != Size1GB {
      var pd := Target(m[pdpr][PdprIndex(virt)]);
      OnTheWay(m, root, slot, Path2(virt));
      StepDown(m, root, Path1(virt), PdprIndex(virt), pdpr);
      if size == Size4KB {
        OnTheWay(m, root, slot, Path3(virt));
        StepDown(m, root, Path2(virt), PdIndex(virt), pd);
      }
    }
  }

  // ---------- When an unmap is exact ----------

  /** The address is no longer mapped, every page elsewhere is as it was, and no table is lost. */
  ghost predicate RemovesExactly(root: Frame, a: Moment, virt: bv64, slot: Path, b: Moment) {
    && Translation(b.mem, root, virt) == None
    && (forall s :: s != slot ==> LeafAt(b.mem, root, s) == LeafAt(a.mem, root, s))
    && Tables(a.mem, root) + a.free <= Tables(b.mem, root) + b.free
  }

  /** The size given to an unmap fits what is mapped. */
  ghost predicate SizeFits(m: Memory, root: Frame, slot: Path) {
    NoLargerPage(m, root, slot) && TableAt(m, root, slot).None?
  }

  /** An unmap that reports success leaves the address unmapped and everything else as it was if and only
      if no larger page lies on the way and no table hangs at the place. */
  lemma {:induction false} UnmapIsExact(root: Frame, a: Moment, virt: bv64, size: PageSize, b: Moment)
    requires Sound(root, a) && UnmapCode(a, root, virt, size) == Some(b)
    ensures RemovesExactly(root, a, virt, Slot(virt, size), b) <==> SizeFits(a.mem, root, Slot(virt, size))
  {
    hide WayOf, Removed, Slot, TableAt, LeafAt, Translation, NoLargerPage, Sound, RemovesExactly;
    if !NoLargerPage(a.mem, root, Slot(virt, size)) {
      LargerPageNotRemoved(root, a, virt, size, b);
    } else {
      UnmapFollowsTables(a.mem, root, virt, size);
      var way := WayOf(a.mem, root, virt, size);
      var pdpr, pd, pt := way.pdpr, way.pd, way.pt;
      if TableAt(a.mem, root, Slot(virt, size)).None? {
        RemovedIsUnmapped(a, root, virt, size, pdpr, pd, pt);
        UnmappedIsExact(root, a, virt, size, b);
      } else {
        TableIsLost(root, a, virt, size, pdpr, pd, pt);
      }
    }
  }

  /** Under a larger page either the address is still mapped or that page has changed. */
  lemma {:induction false} LargerPageNotRemoved(root: Frame, a: Moment, virt: bv64, size: PageSize, b: Moment)
    requires !NoLargerPage(a.mem, root, Slot(virt, size))
    ensures !RemovesExactly(root, a, virt, Slot(virt, size), b)
  {
    hide Slot, TableAt, LeafAt, Translation, Tables;
    var s :| Under(Slot(virt, size), s) && s != Slot(virt, size) && LeafAt(a.mem, root, s).Some?;
    var large := LargerPageSize(a.mem, root, virt, size, s);
    WalkFindsPage(b.mem, root, virt);
    if LeafAt(b.mem, root, s) == LeafAt(a.mem, root, s) {
      PageFound(b.mem, root, virt, large);
    }
  }

  lemma {:induction false} PageFound(m: Memory, root: Frame, virt: bv64, size: PageSize)
    requires LeafAt(m, root, Slot(virt, size)).Some?
    ensures Translation(m, root, virt).Some?
  {
    hide Slot, LeafAt, Translation;
    WalkFindsPage(m, root, virt);
  }

  lemma {:induction false} UnmappedIsExact(root: Frame, a: Moment, virt: bv64, size: PageSize, b: Moment)
    requires Unmapped(a.mem, a.free, b.mem, b.free, root, Slot(virt, size))
    requires SizeFits(a.mem, root, Slot(virt, size))
    ensures RemovesExactly(root, a, virt, Slot(virt, size), b)
  {
    UnmappedPopulated(a.mem, a.free, b.mem, b.free, root, Slot(virt, size));
    hide Slot, TableAt, LeafAt, Translation, Tables, Unmapped, IsTree, Populated;
    WalkFindsPage(b.mem, root, virt);
    forall size' ensures LeafAt(b.mem, root, Slot(virt, size')).None? {
      if size' != size {
        OtherSizes(a.mem, root, virt, size, size');
      }
    }
  }

  /** Then every address of the page translates to nothing, and all others as before. */
  lemma {:induction false} UnmappedBecomes(root: Frame, a: Moment, virt: bv64, size: PageSize, b: Moment)
    requires Unmapped(a.mem, a.free, b.mem, b.free, root, Slot(virt, size))
    requires SizeFits(a.mem, root, Slot(virt, size))
    ensures PageBecomes(a.mem, b.mem, root, virt, size, None)
  {
    hide Slot, TableAt, LeafAt, Translation, PageNumber, Unmapped, SizeFits, RemovesExactly;
    forall v
      ensures Translation(b.mem, root, v) ==
              if PageNumber(v, LevelOf(size)) == PageNumber(virt, LevelOf(size)) then None
              else Translation(a.mem, root, v)
    {
      SlotIsPage(v, virt, size);
      if Slot(v, size) == Slot(virt, size) {
        UnmappedIsExact(root, a, v, size, b);
        RemovedTranslation(root, a, v, Slot(v, size), b);
      } else {
        OtherTranslates(root, a, virt, size, b, v);
      }
    }
  }

  lemma {:induction false} RemovedTranslation(root: Frame, a: Moment, virt: bv64, slot: Path, b: Moment)
    requires RemovesExactly(root, a, virt, slot, b)
    ensures Translation(b.mem, root, virt) == None
  {
    hide Translation, LeafAt, Tables;
  }

  lemma {:induction false} OtherTranslates(root: Frame, a: Moment, virt: bv64, size: PageSize, b: Moment, v: bv64)
    requires Unmapped(a.mem, a.free, b.mem, b.free, root, Slot(virt, size)) && Slot(v, size) != Slot(virt, size)
    ensures Translation(b.mem, root, v) == Translation(a.mem, root, v)
  {
    hide Slot, TableAt, LeafAt, Translation, Tables, IsTree, Populated;
    WalkFindsPage(a.mem, root, v);
    WalkFindsPage(b.mem, root, v);
    forall size' | Slot(v, size') == Slot(virt, size) ensures size' == size {
      SlotsDiffer(v, size', virt, size);
    }
  }

  /** Where the size fits, no page of another size contains the address. */
  lemma {:induction false} OtherSizes(m: Memory, root: Frame, virt: bv64, size: PageSize, size': PageSize)
    requires SizeFits(m, root, Slot(virt, size)) && size' != size
    ensures LeafAt(m, root, Slot(virt, size')).None?
  {
    SlotsNested(virt, size, size');
    hide Slot, TableAt, LeafAt, Under;
    if LeafAt(m, root, Slot(virt, size')).Some? && Under(Slot(virt, size'), Slot(virt, size)) {
      BelowMissing(m, root, Slot(virt, size), Slot(virt, size'));
    }
  }

  lemma {:induction false} BelowMissing(m: Memory, root: Frame, p: Path, s: Path)
    requires TableAt(m, root, p).None? && Under(s, p) && s != p
    ensures LeafAt(m, root, s).None?
  {
    NothingBelow(m, root, p, s.parent);
  }

  lemma {:induction false} SlotsNested(virt: bv64, size: PageSize, size': PageSize)
    requires size' != size
    ensures Slot(virt, size') != Slot(virt, size)
    ensures Under(Slot(virt, size), Slot(virt, size')) || Under(Slot(virt, size'), Slot(virt, size))
  {
    SlotDepth(virt, size);
    SlotDepth(virt, size');
    hide Pml4Index, PdprIndex, PdIndex, PtIndex, Depth;
    var p2 := Slot(virt, Size1GB);
    var p3 := Slot(virt, Size2MB);
    var p4 := Slot(virt, Size4KB);
    assert Under(p2, p2) && Under(p3, p3);
    assert Under(p3, p2);
    assert Under(p4, p3);
    assert p4.parent == p3 && p3.parent == p2;
    assert Under(p4.parent, p2);
  }

  // ---------- A table where the page should be ----------

  /** A check keeps a lost table lost. */
  lemma {:induction false} CheckedLost(root: Frame, a: Moment, p: Path, i: Index, table: Frame, parent: Frame, n: Frame)
    requires IsTree(a.mem, root) && TableAt(a.mem, root, p) == Some(parent)
    requires TableAt(a.mem, root, Sub(p, i)) == Some(table)
    requires n !in Tables(a.mem, root) && n !in a.free
    ensures var b := Checked(a, table, parent, i);
            && IsTree(b.mem, root) && n !in Tables(b.mem, root) && n !in b.free
            && (forall r :: r != Sub(p, i) ==> TableAt(b.mem, root, r) == TableAt(a.mem, root, r))
  {
    hide TableAt, Checked, Tables;
    CheckedTree(root, a, p, i, table, parent);
  }

  lemma {:induction false} ClearedLost(root: Frame, a: Moment, p: Path, i: Index, table: Frame)
    requires Sound(root, a) && TableAt(a.mem, root, p) == Some(table) && TableAt(a.mem, root, Sub(p, i)).Some?
    ensures var b, n := Cleared(a.mem, table, i), TableAt(a.mem, root, Sub(p, i)).value;
            && IsTree(b, root) && n !in Tables(b, root) && n in Tables(a.mem, root) && n !in a.free
            && (forall r :: !Under(r, Sub(p, i)) ==> TableAt(b, root, r) == TableAt(a.mem, root, r))
  {
    hide Present, TableAt, Populated;
    ClearPresentBits(a.mem[table][i]);
    InTables(a.mem, root, Sub(p, i));
    assert Under(Sub(p, i), Sub(p, i));
    CutOff(a.mem, root, p, i, ClearPresent(a.mem[table][i]), Sub(p, i));
    CutOffTables(a.mem, root, p, i, ClearPresent(a.mem[table][i]));
  }

  /** Then the table at the place is neither part of the tree nor free afterwards. */
  lemma {:induction false} TableIsLost(root: Frame, a: Moment, virt: bv64, size: PageSize, pdpr: Frame, pd: Frame,
          pt: Frame)
    requires Sound(root, a) && TableAt(a.mem, root, Slot(virt, size)).Some?
    requires TableAt(a.mem, root, Path1(virt)) == Some(pdpr)
    requires size != Size1GB ==> TableAt(a.mem, root, Path2(virt)) == Some(pd)
    ensures var n, b := TableAt(a.mem, root, Slot(virt, size)).value, Removed(a, root, virt, size, pdpr, pd, pt);
            && n in Tables(a.mem, root) && n !in Tables(b.mem, root) && n !in b.free
            && !RemovesExactly(root, a, virt, Slot(virt, size), b)
  {
    TableDepth(a.mem, root, Slot(virt, size));
    SlotDepth(virt, size);
    SlotPath(virt, size);
    SlotParts(virt, size);
    SlotIndexParts(virt);
    RootTable(a.mem, root);
    WayNotBelow(virt, size);
    hide TableAt, LeafAt, Slot, Path1, Path2, Path3, Checked, Depth, Under, Cleared, Sound, Translation, Tables, IsTree;
    hide Pml4Index, PdprIndex, PdIndex, PtIndex;
    var n := TableAt(a.mem, root, Slot(virt, size)).value;
    if size == Size1GB {
      var c := Moment(Cleared(a.mem, pdpr, PdprIndex(virt)), a.free);
      ClearedLost(root, a, Path1(virt), PdprIndex(virt), pdpr);
      RootTable(c.mem, root);
      CheckedLost(root, c, Root, Pml4Index(virt), pdpr, root, n);
    } else {
      var c := Moment(Cleared(a.mem, pd, PdIndex(virt)), a.free);
      ClearedLost(root, a, Path2(virt), PdIndex(virt), pd);
      CheckedLost(root, c, Path1(virt), PdprIndex(virt), pd, pdpr, n);
      var d := Checked(c, pd, pdpr, PdprIndex(virt));
      RootTable(d.mem, root);
      CheckedLost(root, d, Root, Pml4Index(virt), pdpr, root, n);
    }
  }

  /** The tables on the way to a page do not lie at or below its place. */
  lemma {:induction false} WayNotBelow(virt: bv64, size: PageSize)
    ensures !Under(Path1(virt), Slot(virt, size)) && Path1(virt) != Path2(virt)
    ensures size != Size1GB ==> !Under(Path2(virt), Slot(virt, size))
  {
    SlotPath(virt, size);
    SlotDepth(virt, size);
    hide Slot, Path1, Path2, Path3;
    if Under(Path1(virt), Slot(virt, size)) {
      UnderDepth(Path1(virt), Slot(virt, size));
    }
    if size != Size1GB && Under(Path2(virt), Slot(virt, size)) {
      UnderDepth(Path2(virt), Slot(virt, size));
    }
  }

  // ---------- A larger page where the way should go on ----------

  /** A smaller unmap under a larger page takes the word of that page for a pointer, clears the present bit
      of a word of data, and then looks whether the frame is an empty table: if no other word of it is odd
      the whole larger page is gone, and its frame is freed; otherwise no page changes. It reports success
      either way. (For one size less, and a frame that is no table of the tree.) */
  lemma {:induction false} UnmapUnderLargerPage(root: Frame, a: Moment, virt: bv64, size: PageSize, large: PageSize,
          w: bv64, b: Moment)
    requires Sound(root, a) && NextLarger(large, size) && LeafAt(a.mem, root, Slot(virt, large)) == Some(w)
    requires UnmapCode(a, root, virt, size) == Some(b) && !IsTable(a.mem, root, Target(w))
    ensures var t := Target(w);
            if Blank(Cleared(a.mem, t, SlotIndex(virt, size))[t]) then
              && t in b.free
              && (forall s :: LeafAt(b.mem, root, s) == if s == Slot(virt, large) then None else LeafAt(a.mem, root, s))
            else SameLeaves(b.mem, root, a.mem, root)
  {
    var pdpr, pd, pt := UnmapFollowsPage(a, root, virt, size, large, w, b);
    WayNotBelow(virt, size);
    hide UnmapCode, TableAt, LeafAt, Checked, Slot, Path1, Path2, Target, Blank, Sound, Depth, Under, Cleared;
    hide Pml4Index, PdprIndex, PdIndex, PtIndex, IsTable, Tables, IsTree, Populated;
    var t := Target(w);
    if size == Size2MB {
      var d := DataChecked(root, a, Path1(virt), PdprIndex(virt), pdpr, w, PdIndex(virt));
      RootTable(d.mem, root);
      CheckedTree(root, d, Root, Pml4Index(virt), pdpr, root);
      FreeStays(d, pdpr, root, Pml4Index(virt));
    } else {
      var d := DataChecked(root, a, Path2(virt), PdIndex(virt), pd, w, PtIndex(virt));
      CheckedTree(root, d, Path1(virt), PdprIndex(virt), pd, pdpr);
      FreeStays(d, pd, pdpr, PdprIndex(virt));
      var c := Checked(d, pd, pdpr, PdprIndex(virt));
      RootTable(c.mem, root);
      CheckedTree(root, c, Root, Pml4Index(virt), pdpr, root);
      FreeStays(c, pdpr, root, Pml4Index(virt));
    }
  }

  lemma {:induction false} FreeStays(a: Moment, table: Frame, parent: Frame, i: Index)
    ensures a.free <= Checked(a, table, parent, i).free
  {
  }

  lemma {:induction false} UnmapFollowsPage(a: Moment, root: Frame, virt: bv64, size: PageSize, large: PageSize,
          w: bv64, b: Moment) returns (pdpr: Frame, pd: Frame, pt: Frame)
    requires NextLarger(large, size) && LeafAt(a.mem, root, Slot(virt, large)) == Some(w)
    requires UnmapCode(a, root, virt, size) == Some(b)
    ensures b == Removed(a, root, virt, size, pdpr, pd, pt)
    ensures Slot(virt, Size1GB) == Sub(Path1(virt), PdprIndex(virt)) && Path2(virt) == Sub(Path1(virt), PdprIndex(virt))
    ensures Slot(virt, Size2MB) == Sub(Path2(virt), PdIndex(virt)) && Path1(virt) == Sub(Root, Pml4Index(virt))
    ensures SlotIndex(virt, Size2MB) == PdIndex(virt) && SlotIndex(virt, Size4KB) == PtIndex(virt)
    ensures TableAt(a.mem, root, Path1(virt)) == Some(pdpr)
    ensures if size == Size2MB then pd == Target(w)
            else TableAt(a.mem, root, Path2(virt)) == Some(pd) && pt == Target(w)
  {
    hide Present, Large, Target, Pml4Index, PdprIndex, PdIndex, PtIndex, Removed;
    var m := a.mem;
    assert TableAt(m, root, Root) == Some(root) && Depth(Root) == 0;
    assert Depth(Path1(virt)) == 1;
    assert Depth(Path2(virt)) == 2;
    pdpr := Target(m[root][Pml4Index(virt)]);
    pd := Target(m[pdpr][PdprIndex(virt)]);
    pt := if size == Size4KB then Target(m[pd][PdIndex(virt)]) else 0;
    LargerPresent(m, root, virt, large, w);
    var t1, t2 := TableAt(m, root, Path1(virt)), TableAt(m, root, Path2(virt));
  }

  /** Clearing a word of the frame that the word of a page points to, and checking that frame. */
  lemma {:induction false} DataChecked(root: Frame, a: Moment, p: Path, i: Index, parent: Frame, w: bv64, k: Index)
      returns (d: Moment)
    requires IsTree(a.mem, root) && TableAt(a.mem, root, p) == Some(parent)
    requires LeafAt(a.mem, root, Sub(p, i)) == Some(w) && !IsTable(a.mem, root, Target(w))
    ensures var t := Target(w);
            && d == Checked(Moment(Cleared(a.mem, t, k), a.free), t, parent, i)
            && IsTree(d.mem, root) && (forall r :: TableAt(d.mem, root, r) == TableAt(a.mem, root, r))
            && if Blank(Cleared(a.mem, t, k)[t]) then
                 && t in d.free
                 && (forall s :: LeafAt(d.mem, root, s) == if s == Sub(p, i) then None else LeafAt(a.mem, root, s))
               else SameLeaves(d.mem, root, a.mem, root)
  {
    var t := Target(w);
    var m1 := Cleared(a.mem, t, k);
    d := Checked(Moment(m1, a.free), t, parent, i);
    hide Present, Large, Target, Blank, ClearPresent;
    WriteElsewhere(a.mem, m1, root);
    assert TableAt(m1, root, p) == Some(parent) && LeafAt(m1, root, Sub(p, i)) == Some(w);
    if Blank(m1[t]) {
      assert !IsPointer(m1[parent][i], Depth(p));
      ClearPresentBits(m1[parent][i]);
      WriteLeaf(m1, root, p, i, ClearPresent(m1[parent][i]));
    }
  }
}
