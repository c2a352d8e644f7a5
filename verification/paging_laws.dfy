/** Laws of whole operations and of runs of them: what map and unmap promise each other, what every
    run keeps, and where the promises end. */
module PagingLaws {
  import opened Options
  import opened Words
  import opened PageTables
  import opened PagingSteps
  import opened Processor
  import opened CloneSteps

  // ---------- Translations ----------

  lemma {:induction false} SlotDepth(virt: bv64, size: PageSize)
    ensures Depth(Slot(virt, size)) == match size case Size1GB => 2 case Size2MB => 3 case Size4KB => 4
  {
    hide Pml4Index, PdprIndex, PdIndex, PtIndex;
    var p1 := Sub(Root, Pml4Index(virt));
    var p2 := Sub(p1, PdprIndex(virt));
    var p3 := Sub(p2, PdIndex(virt));
    assert Depth(p1) == 1;
    assert Depth(p2) == 2;
    assert Depth(p3) == 3;
  }

  /** Pages of different sizes are different places. */
  lemma {:induction false} SlotsDiffer(virt: bv64, size: PageSize, virt': bv64, size': PageSize)
    requires Slot(virt, size) == Slot(virt', size')
    ensures size == size'
  {
    hide Slot;
    SlotDepth(virt, size);
    SlotDepth(virt', size');
  }

  /** After a map, exactly the addresses of the page translate to the new leaf, and all others as
      before. Its physical address is the given one if and only if that is aligned and below 2^40. */
  lemma {:induction false} MappedTranslates(m0: Memory, free0: set<nat>, m: Memory, free: set<nat>, root: Frame,
          virt: bv64, size: PageSize, phys: bv64, flags: bv64, other: bv64)
    requires Mapped(m0, free0, m, free, root, Slot(virt, size), CreateEntry(phys, flags, LevelOf(size), Page))
    ensures var level, e := LevelOf(size), CreateEntry(phys, flags, LevelOf(size), Page);
            && Translation(m, root, other) ==
               (if PageNumber(other, level) == PageNumber(virt, level) then Some((level, e))
                else Translation(m0, root, other))
            && HoldsAddressAndFlags(e, phys, flags, level)
  {
    hide Translation, Slot, TableAt, LeafAt, CreateEntry, PageNumber, HoldsAddressAndFlags;
    WalkFindsPage(m, root, other);
    WalkFindsPage(m0, root, other);
    MadeLeaf(phys, flags, LevelOf(size));
    SlotIsPage(other, virt, size);
    forall size' | Slot(other, size') == Slot(virt, size) ensures size' == size {
      SlotsDiffer(other, size', virt, size);
    }
  }

  /** After an unmap, exactly the addresses of the page translate to nothing; all others translate
      as before. */
  lemma {:induction false} UnmappedTranslates(m0: Memory, free0: set<nat>, m: Memory, free: set<nat>, root: Frame,
          virt: bv64, size: PageSize, other: bv64)
    requires Unmapped(m0, free0, m, free, root, Slot(virt, size)) && LeafAt(m0, root, Slot(virt, size)).Some?
    ensures Translation(m, root, other) ==
            if PageNumber(other, LevelOf(size)) == PageNumber(virt, LevelOf(size)) then None
            else Translation(m0, root, other)
  {
    hide Translation, Slot, TableAt, LeafAt, PageNumber;
    SlotIsPage(other, virt, size);
    WalkFindsPage(m, root, other);
    WalkFindsPage(m0, root, other);
    forall size' | Slot(other, size') == Slot(virt, size) ensures size' == size {
      SlotsDiffer(other, size', virt, size);
    }
  }

  /** The addresses of one page translate to this leaf, or to nothing, and all others as before. */
  ghost predicate PageBecomes(m0: Memory, m: Memory, root: Frame, virt: bv64, size: PageSize, leaf: Option<(Level,
          bv64)>) {
    forall v :: Translation(m, root, v) ==
      if PageNumber(v, LevelOf(size)) == PageNumber(virt, LevelOf(size)) then leaf else Translation(m0, root, v)
  }

  lemma {:induction false} MappedBecomes(m0: Memory, free0: set<nat>, m: Memory, free: set<nat>, root: Frame,
          virt: bv64, size: PageSize, phys: bv64, flags: bv64)
    requires Mapped(m0, free0, m, free, root, Slot(virt, size), CreateEntry(phys, flags, LevelOf(size), Page))
    ensures PageBecomes(m0, m, root, virt, size, Some((LevelOf(size), CreateEntry(phys, flags, LevelOf(size), Page))))
  {
    hide Translation, Slot, CreateEntry, PageNumber, HoldsAddressAndFlags, Mapped;
    forall v
      ensures Translation(m, root, v) ==
              if PageNumber(v, LevelOf(size)) == PageNumber(virt, LevelOf(size))
              then Some((LevelOf(size), CreateEntry(phys, flags, LevelOf(size), Page)))
              else Translation(m0, root, v)
    {
      MappedTranslates(m0, free0, m, free, root, virt, size, phys, flags, v);
    }
  }

  // ---------- Which words are pages ----------

  /** In a page directory pointer table: a word with bits 0 and 7 is a 1 GB page, its address is bits
      39..30, and one with bit 0 only leads to the page directory in the frame of bits 39..12. */
  lemma {:induction false} PdprWords(m: Memory, root: Frame, virt: bv64, table: Frame, w: bv64)
    requires TableAt(m, root, Path1(virt)) == Some(table) && w == m[table][PdprIndex(virt)]
    ensures w & 0x81 == 0x81 ==>
              Translation(m, root, virt) == Some((PDPR, w)) && LeafAddress(w, PDPR) == w & 0xff_c000_0000
    ensures w & 0x81 == 0x01 ==> TableAt(m, root, Path2(virt)) == Some(Bits(w, 0x1000, 0x1000_0000))
    ensures w & 0x01 == 0 ==> Translation(m, root, virt) == None
  {
    LargePageBits(w);
    AddressBits(w);
    Entries(w);
    WalkIsTranslation(m, root, virt);
    hide Present, Large, Target, Bits, Translation, Pml4Index, PdprIndex, PdIndex, PtIndex, Address30, Address21;
    assert TableAt(m, root, Root) == Some(root) && Depth(Root) == 0 && Depth(Path1(virt)) == 1;
  }

  /** The same in a page directory, to which no 1 GB page is in the way, for a 2 MB page. */
  lemma {:induction false} PdWords(m: Memory, root: Frame, virt: bv64, table: Frame, w: bv64)
    requires TableAt(m, root, Path2(virt)) == Some(table) && w == m[table][PdIndex(virt)]
    ensures w & 0x81 == 0x81 ==>
              Translation(m, root, virt) == Some((PD, w)) && LeafAddress(w, PD) == w & 0xff_ffe0_0000
    ensures w & 0x81 == 0x01 ==> TableAt(m, root, Path3(virt)) == Some(Bits(w, 0x1000, 0x1000_0000))
    ensures w & 0x01 == 0 ==> Translation(m, root, virt) == None
  {
    LargePageBits(w);
    AddressBits(w);
    Entries(w);
    WalkIsTranslation(m, root, virt);
    hide Present, Large, Target, Bits, Translation, Pml4Index, PdprIndex, PdIndex, PtIndex, Address30, Address21;
    assert TableAt(m, root, Root) == Some(root) && Depth(Root) == 0 && Depth(Path1(virt)) == 1;
    assert Depth(Path2(virt)) == 2;
    var t1 := TableAt(m, root, Path1(virt));
  }

  lemma {:induction false} LargePageBits(w: bv64)
    ensures w & 0x81 == 0x81 <==> Present(w) && Large(w)
    ensures w & 0x81 == 0x01 <==> Present(w) && !Large(w)
    ensures w & 0x01 == 0 <==> !Present(w)
  {
  }

  lemma {:induction false} AddressBits(w: bv64)
    ensures Address21(w) == w & 0xff_ffe0_0000
    ensures Address30(w) == w & 0xff_c000_0000
  {
  }

  // ---------- Tables ----------

  /** A map adds exactly the missing tables on the way to the page. */
  lemma {:induction false} MapAddsTables(m0: Memory, free0: set<nat>, m: Memory, free: set<nat>, root: Frame,
          slot: Path, w: bv64, q: Path)
    requires Populated(m0, root) && Mapped(m0, free0, m, free, root, slot, w)
    ensures TableAt(m, root, q).Some? <==> TableAt(m0, root, q).Some? || (Under(slot, q) && q != slot)
  {
    hide TableAt, LeafAt, Populated, Tables, IsTree;
    RootTable(m, root);
    if q != Root {
      TableIffLeafBelow(m, root, q);
      TableIffLeafBelow(m0, root, q);
      assert LeafAt(m, root, slot).Some?;
      if TableAt(m, root, q).Some? && TableAt(m0, root, q).None? {
        var s :| Under(s, q) && s != q && LeafAt(m, root, s).Some?;
        assert s == slot;
      }
    } else {
      RootTable(m0, root);
    }
  }

  /** An unmap frees exactly the tables that hold no other page, never the root, and their frames
      are what becomes free. */
  lemma {:induction false} UnmapFreesTables(m0: Memory, free0: set<nat>, m: Memory, free: set<nat>, root: Frame,
          slot: Path, q: Path)
    requires Populated(m0, root) && IsTree(m0, root) && Tables(m0, root) !! free0
    requires Unmapped(m0, free0, m, free, root, slot)
    requires q != Root && TableAt(m0, root, q).Some?
    ensures var f := TableAt(m0, root, q).value;
            (TableAt(m, root, q).None? <==> f in free)
    ensures TableAt(m, root, q).None? <==> forall s :: Under(s, q) && s != q && LeafAt(m0, root, s).Some? ==> s == slot
  {
    UnmappedPopulated(m0, free0, m, free, root, slot);
    TableIffLeafBelow(m, root, q);
    var f := TableAt(m0, root, q).value;
    assert f in Tables(m0, root) by {
      assert IsTable(m0, root, f);
    }
    hide LeafAt;
    if TableAt(m, root, q).None? {
      assert !IsTable(m, root, f);
    } else {
      assert f in Tables(m, root) by {
        assert TableAt(m, root, q) == Some(f);
      }
    }
  }

  lemma {:induction false} UnmappedPopulated(m0: Memory, free0: set<nat>, m: Memory, free: set<nat>, root: Frame,
          slot: Path)
    requires Unmapped(m0, free0, m, free, root, slot)
    ensures Populated(m, root) && IsTree(m, root)
    ensures forall s :: LeafAt(m, root, s) == if s == slot then None else LeafAt(m0, root, s)
    ensures forall q :: TableAt(m, root, q).Some? ==> TableAt(m, root, q) == TableAt(m0, root, q)
    ensures Conserved(m0, free0, m, free, root)
  {
  }

  /** Trees with the same pages have their tables at the same places. */
  lemma {:induction false} SamePlaces(m: Memory, root: Frame, m': Memory, root': Frame)
    requires Populated(m, root) && Populated(m', root') && SameLeaves(m, root, m', root')
    ensures forall p :: TableAt(m, root, p).Some? <==> TableAt(m', root', p).Some?
  {
    hide TableAt, LeafAt, Populated;
    forall p ensures TableAt(m, root, p).Some? <==> TableAt(m', root', p).Some? {
      if p == Root {
        RootTable(m, root);
        RootTable(m', root');
      } else {
        TableIffLeafBelow(m, root, p);
        TableIffLeafBelow(m', root', p);
      }
    }
  }

  /** Mapping a fresh page and unmapping it again restores every translation, every table and the
      set of free frames. */
  lemma {:induction false} MapUnmapRestores(m0: Memory, free0: set<nat>, m1: Memory, free1: set<nat>, m2: Memory,
          free2: set<nat>, root: Frame, slot: Path, w: bv64)
    requires Populated(m0, root) && Tables(m0, root) !! free0 && LeafAt(m0, root, slot).None?
    requires Mapped(m0, free0, m1, free1, root, slot, w) && Unmapped(m1, free1, m2, free2, root, slot)
    ensures SameLeaves(m2, root, m0, root) && SameTables(m2, root, m0, root) && free2 == free0
  {
    UnmappedPopulated(m1, free1, m2, free2, root, slot);
    hide TableAt, LeafAt, Populated, IsTree, Unmapped, Blank;
    SamePlaces(m2, root, m0, root);
    forall p ensures TableAt(m2, root, p) == TableAt(m0, root, p) {
      assert TableAt(m0, root, p).Some? ==> TableAt(m1, root, p) == TableAt(m0, root, p);
    }
    assert forall f: Frame :: IsTable(m2, root, f) == IsTable(m0, root, f);
    assert Tables(m2, root) == Tables(m0, root);
    hide Tables;
    assert free2 == (Tables(m0, root) + free0) - Tables(m0, root);
  }

  /** A map at a free place succeeds, and then the page can be unmapped ... */
  lemma {:induction false} FreshMapSucceeds(ok: bool, m0: Memory, free0: set<nat>, m: Memory, free: set<nat>,
          root: Frame, slot: Path, w: bv64)
    requires MapOutcome(ok, m0, free0, m, free, root, slot, w) && slot.Sub? && NoLargerPage(m0, root, slot)
    requires LeafAt(m0, root, slot).None? && TableAt(m0, root, slot).None?
    ensures Mapped(m0, free0, m, free, root, slot, w) && LeafAt(m, root, slot).Some?
    ensures NoLargerPage(m, root, slot) && TableAt(m, root, slot).None?
  {
    hide TableAt, LeafAt, Tables, IsTree, Populated;
    LeafOrTable(m, root, slot);
  }

  /** ... which succeeds, too. */
  lemma {:induction false} UnmapSucceeds(ok: bool, m0: Memory, free0: set<nat>, m: Memory, free: set<nat>,
          root: Frame, slot: Path, size: PageSize)
    requires slot.Sub? && UnmapOutcome(ok, m0, free0, m, free, root, slot, size) && LeafAt(m0, root, slot).Some?
    ensures ok && Unmapped(m0, free0, m, free, root, slot)
  {
  }

  /** Populated trees with the same pages use equally many frames. */
  lemma {:induction false} SameSize(m: Memory, root: Frame, m': Memory, root': Frame)
    requires Populated(m, root) && Populated(m', root') && SameLeaves(m, root, m', root')
    requires IsTree(m, root) && IsTree(m', root')
    ensures |Tables(m, root)| == |Tables(m', root')|
  {
    SamePlaces(m, root, m', root');
    NotMoreTables(m, root, m', root');
    NotMoreTables(m', root', m, root);
  }

  lemma {:induction false} NotMoreTables(m: Memory, root: Frame, m': Memory, root': Frame)
    requires forall p :: TableAt(m, root, p).Some? ==> TableAt(m', root', p).Some?
    requires IsTree(m', root')
    ensures |Tables(m, root)| <= |Tables(m', root')|
  {
    var tables := Tables(m, root);
    assert forall f :: f in tables ==> IsTable(m, root, f);
    hide TableAt;
    var phi := map f | f in tables :: TableAt(m', root', PathTo(m, root, f)).value;
    forall f | f in tables ensures phi[f] in Tables(m', root') {
      assert IsTable(m', root', phi[f]);
    }
    forall f, g | f in tables && g in tables && phi[f] == phi[g] ensures f == g {
      TablesDistinct(m', root', PathTo(m, root, f), PathTo(m, root, g));
    }
    InjectionCardinality(tables, Tables(m', root'), phi);
  }

  // ---------- Runs ----------

  /** A moment of a run: physical memory and the free frames. */
  datatype Moment = Moment(mem: Memory, free: set<nat>)

  ghost predicate MapStep(root: Frame, a: Moment, b: Moment) {
    exists slot, w :: Mapped(a.mem, a.free, b.mem, b.free, root, slot, w)
  }

  ghost predicate UnmapStep(root: Frame, a: Moment, b: Moment) {
    exists slot :: Unmapped(a.mem, a.free, b.mem, b.free, root, slot)
  }

  /** One completed map or unmap, successful or not. */
  ghost predicate Step(root: Frame, a: Moment, b: Moment) {
    MapStep(root, a, b) || UnmapStep(root, a, b) || a == b
  }

  /** What the methods promise is a step. */
  lemma {:induction false} OutcomesAreSteps(ok: bool, root: Frame, a: Moment, b: Moment, slot: Path, w: bv64,
          size: PageSize)
    requires slot.Sub?
    requires || MapOutcome(ok, a.mem, a.free, b.mem, b.free, root, slot, w)
             || UnmapOutcome(ok, a.mem, a.free, b.mem, b.free, root, slot, size)
    ensures Step(root, a, b)
  {
    hide Mapped, Unmapped, TableAt, LeafAt;
  }

  ghost predicate Run(root: Frame, moments: seq<Moment>) {
    |moments| > 0 && forall i :: 0 < i < |moments| ==> Step(root, moments[i - 1], moments[i])
  }

  /** The tables form a tree of populated tables, apart from the free frames. */
  ghost predicate Sound(root: Frame, a: Moment) {
    && IsTree(a.mem, root) && Populated(a.mem, root)
    && Tables(a.mem, root) !! a.free
  }

  ghost predicate FreeIsBlank(a: Moment) {
    forall f: Frame :: f in a.free ==> Blank(a.mem[f])
  }

  lemma {:induction false} StepKeeps(root: Frame, a: Moment, b: Moment)
    requires Sound(root, a) && Step(root, a, b)
    ensures Sound(root, b) && Tables(b.mem, root) + b.free == Tables(a.mem, root) + a.free
    ensures FreeIsBlank(a) ==> FreeIsBlank(b)
  {
    hide TableAt, LeafAt, IsTree, Tables, Blank;
    if slot :| Unmapped(a.mem, a.free, b.mem, b.free, root, slot) {
      UnmappedPopulated(a.mem, a.free, b.mem, b.free, root, slot);
    }
  }

  /** Over every run of maps and unmaps the tables stay a tree of populated tables, all of them taken
      from the allocator, and tables and free frames together stay the same frames: none leaks
      and none is handed out twice. Free frames that start out blank stay blank. */
  lemma {:induction false} RunKeeps(root: Frame, moments: seq<Moment>)
    requires Run(root, moments) && Sound(root, moments[0])
    ensures var a, b := moments[0], moments[|moments| - 1];
            && Sound(root, b) && Tables(b.mem, root) + b.free == Tables(a.mem, root) + a.free
            && (FreeIsBlank(a) ==> FreeIsBlank(b))
  {
    if |moments| > 1 {
      var before := moments[..|moments| - 1];
      hide Step, Sound, Tables, Blank;
      assert Run(root, before);
      RunKeeps(root, before);
      StepKeeps(root, moments[|moments| - 2], moments[|moments| - 1]);
    }
  }

  /** No leak over any run: whenever the same pages are mapped again, whatever happened in between,
      as many frames are free as before. */
  lemma {:induction false} NoLeak(root: Frame, moments: seq<Moment>)
    requires Run(root, moments) && Sound(root, moments[0])
    requires SameLeaves(moments[0].mem, root, moments[|moments| - 1].mem, root)
    ensures |moments[|moments| - 1].free| == |moments[0].free|
  {
    var a, b := moments[0], moments[|moments| - 1];
    RunKeeps(root, moments);
    SameSize(a.mem, root, b.mem, root);
    hide Tables;
    assert |Tables(a.mem, root) + a.free| == |Tables(a.mem, root)| + |a.free|;
    assert |Tables(b.mem, root) + b.free| == |Tables(b.mem, root)| + |b.free|;
  }

  // ---------- Where the promises end: a larger page on the way ----------

  /** The frame a map ends up at if it follows every entry on the way as a pointer, as the code does
      without a look at the size bit; None if an entry is absent and a table would be added. */
  function Followed(m: Memory, root: Frame, virt: bv64, size: PageSize): Option<Frame> {
    var e4 := m[root][Pml4Index(virt)];
    if !Present(e4) then None else
    if size == Size1GB then Some(Target(e4)) else
    var e3 := m[Target(e4)][PdprIndex(virt)];
    if !Present(e3) then None else
    if size == Size2MB then Some(Target(e3)) else
    var e2 := m[Target(e3)][PdIndex(virt)];
    if !Present(e2) then None else Some(Target(e2))
  }

  /** Where no larger page lies on the way that is the table of the page. */
  lemma {:induction false} FollowedIsTable(m: Memory, root: Frame, virt: bv64, size: PageSize)
    requires NoLargerPage(m, root, Slot(virt, size))
    ensures Slot(virt, size).Sub? && Followed(m, root, virt, size) == TableAt(m, root, Slot(virt, size).parent)
  {
    var slot := Slot(virt, size);
    SlotPath(virt, size);
    SlotParts(virt, size);
    RootTable(m, root);
    hide Present, Large, Target, NoLargerPage, Slot, Path1, Path2, Path3, Pml4Index, PdprIndex, PdIndex, PtIndex;
    hide TableAt, LeafAt, Under, Depth;
    OnTheWay(m, root, slot, Path1(virt));
    StepDown(m, root, Root, Pml4Index(virt), root);
    if TableAt(m, root, Path1(virt)).None? {
      NothingOnTheWay(m, root, slot, Path1(virt));
    } else if size != Size1GB {
      OnTheWay(m, root, slot, Path2(virt));
      StepDown(m, root, Path1(virt), PdprIndex(virt), TableAt(m, root, Path1(virt)).value);
      if TableAt(m, root, Path2(virt)).None? {
        NothingOnTheWay(m, root, slot, Path2(virt));
      } else if size != Size2MB {
        OnTheWay(m, root, slot, Path3(virt));
        StepDown(m, root, Path2(virt), PdIndex(virt), TableAt(m, root, Path2(virt)).value);
      }
    }
  }

  predicate Larger(large: PageSize, size: PageSize) {
    (large == Size1GB && size != Size1GB) || (large == Size2MB && size == Size4KB)
  }

  predicate NextLarger(large: PageSize, size: PageSize) {
    (large == Size1GB && size == Size2MB) || (large == Size2MB && size == Size4KB)
  }

  /** The frame followed from the word of a large page lies in that page. */
  lemma {:induction false} FollowedIntoPage(w: bv64)
    ensures Field21(Address12(w)) == LeafAddress(w, PD) && Field30(Address12(w)) == LeafAddress(w, PDPR)
  {
  }

  /** Right under a larger page the word of that page is what is followed. */
  lemma {:induction false} FollowedFromLargerPage(m: Memory, root: Frame, virt: bv64, size: PageSize,
          large: PageSize, w: bv64)
    requires NextLarger(large, size) && LeafAt(m, root, Slot(virt, large)) == Some(w)
    ensures Followed(m, root, virt, size) == Some(Target(w))
  {
    hide Target;
    LargerPresent(m, root, virt, large, w);
    LargerWord(m, root, virt, large, w);
  }

  lemma {:induction false} LargerPresent(m: Memory, root: Frame, virt: bv64, large: PageSize, w: bv64)
    requires LeafAt(m, root, Slot(virt, large)) == Some(w)
    ensures Present(w)
  {
    hide Present, Large, Target, Pml4Index, PdprIndex, PdIndex, PtIndex;
  }

  /** What lies on the way to a page is a larger page. */
  lemma {:induction false} LargerPageSize(m: Memory, root: Frame, virt: bv64, size: PageSize, a: Path)
      returns (large: PageSize)
    requires Under(Slot(virt, size), a) && a != Slot(virt, size) && LeafAt(m, root, a).Some?
    ensures Larger(large, size) && a == Slot(virt, large)
  {
    hide Present, Large, Target, Pml4Index, PdprIndex, PdIndex, PtIndex;
    var p1 := Sub(Root, Pml4Index(virt));
    var p2 := Sub(p1, PdprIndex(virt));
    var p3 := Sub(p2, PdIndex(virt));
    assert Depth(Root) == 0;
    assert LeafAt(m, root, Root).None? && LeafAt(m, root, p1).None?;
    assert Under(Root, a) ==> a == Root;
    assert Under(p1, a) ==> a == p1 || Under(Root, a);
    assert Under(p2, a) ==> a == p2 || Under(p1, a);
    assert Under(p3, a) ==> a == p3 || Under(p2, a);
    large := if a == p2 then Size1GB else Size2MB;
  }

  /** A map that reports success makes its address translate to the new leaf if and only if no larger page
      lies on the way; otherwise the address still translates to that page. */
  lemma {:induction false} MapSucceedsIff(m0: Memory, free0: set<nat>, m: Memory, free: set<nat>, root: Frame,
          virt: bv64, size: PageSize, phys: bv64, flags: bv64)
    requires Tables(m0, root) !! free0 && Overlaid(m0, free0, m)
    requires NoLargerPage(m0, root, Slot(virt, size)) ==>
               Mapped(m0, free0, m, free, root, Slot(virt, size), CreateEntry(phys, flags, LevelOf(size), Page))
    ensures Translation(m, root, virt) == Some((LevelOf(size), CreateEntry(phys, flags, LevelOf(size), Page)))
            <==> NoLargerPage(m0, root, Slot(virt, size))
    ensures !NoLargerPage(m0, root, Slot(virt, size)) ==> Translation(m, root, virt) == Translation(m0, root, virt)
  {
    hide Translation, Slot, TableAt, LeafAt, CreateEntry, Present, Large, Tables, Mapped, Overlaid;
    if NoLargerPage(m0, root, Slot(virt, size)) {
      MappedTranslates(m0, free0, m, free, root, virt, size, phys, flags, virt);
    } else {
      var a :| Under(Slot(virt, size), a) && a != Slot(virt, size) && LeafAt(m0, root, a).Some?;
      var large := LargerPageSize(m0, root, virt, size, a);
      PagesStay(m0, free0, m, root, a);
      WalkFindsPage(m0, root, virt);
      WalkFindsPage(m, root, virt);
    }
  }

  /** Where the entries followed are present. */
  lemma {:induction false} FollowedParts(m: Memory, root: Frame, virt: bv64, size: PageSize)
    requires Followed(m, root, virt, size).Some?
    ensures var e4 := m[root][Pml4Index(virt)];
            var e3 := m[Target(e4)][PdprIndex(virt)];
            var e2 := m[Target(e3)][PdIndex(virt)];
            var t := Followed(m, root, virt, size).value;
            && Present(e4) && (size == Size1GB ==> t == Target(e4))
            && (size != Size1GB ==> Present(e3)) && (size == Size2MB ==> t == Target(e3))
            && (size == Size4KB ==> Present(e2) && t == Target(e2))
  {
    hide Present, Target, Pml4Index, PdprIndex, PdIndex;
  }

  lemma {:induction false} LargerWord(m: Memory, root: Frame, virt: bv64, large: PageSize, w: bv64)
    requires large != Size4KB && LeafAt(m, root, Slot(virt, large)) == Some(w)
    ensures large == Size1GB ==> Present(m[root][Pml4Index(virt)])
                                 && m[Target(m[root][Pml4Index(virt)])][PdprIndex(virt)] == w
    ensures large == Size2MB ==> Followed(m, root, virt, Size2MB).Some?
                                 && m[Followed(m, root, virt, Size2MB).value][PdIndex(virt)] == w
  {
    hide Present, Large, Target, Pml4Index, PdprIndex, PdIndex, PtIndex;
    var p1 := Sub(Root, Pml4Index(virt));
    var p2 := Sub(p1, PdprIndex(virt));
    assert TableAt(m, root, Root) == Some(root) && Depth(Root) == 0 && Depth(p1) == 1 && Depth(p2) == 2;
    var t1, t2 := TableAt(m, root, p1), TableAt(m, root, p2);
  }

  // ---------- Unmapping with the wrong size ----------

  /** paging_check_for_empty_table: nothing, or an empty table is unhooked and its page freed. */
  ghost predicate CheckStep(root: Frame, a: Moment, b: Moment) {
    b == a || exists p, i, w :: Unhooks(root, a, p, i, w, b)
  }

  ghost predicate Unhooks(root: Frame, a: Moment, p: Path, i: Index, w: bv64, b: Moment) {
    && TableAt(a.mem, root, p).Some? && TableAt(a.mem, root, Sub(p, i)).Some? && !Present(w)
    && Blank(a.mem[TableAt(a.mem, root, Sub(p, i)).value])
    && b.mem == Put(a.mem, TableAt(a.mem, root, p).value, i, w)
    && b.free == a.free + {TableAt(a.mem, root, Sub(p, i)).value}
  }

  /** Unmapping a large page where a table hangs loses that table and all below it: whatever the checks
      for empty tables do after that, these are no longer part of the tree, and they are not free
      either. */
  lemma {:induction false} UnmapOfTableLeaks(root: Frame, before: Moment, p: Path, i: Index, w: bv64,
          checks: seq<Moment>, q: Path)
    requires IsTree(before.mem, root) && Tables(before.mem, root) !! before.free
    requires TableAt(before.mem, root, p).Some? && !Present(w)
    requires Under(q, Sub(p, i)) && TableAt(before.mem, root, q).Some?
    requires |checks| > 0
    requires checks[0] == Moment(Put(before.mem, TableAt(before.mem, root, p).value, i, w), before.free)
    requires forall k :: 0 < k < |checks| ==> CheckStep(root, checks[k - 1], checks[k])
    ensures var n, after := TableAt(before.mem, root, q).value, checks[|checks| - 1];
            IsTree(after.mem, root) && n !in Tables(after.mem, root) && n !in after.free
  {
    var n := TableAt(before.mem, root, q).value;
    if |checks| == 1 {
      CutOff(before.mem, root, p, i, w, q);
      assert IsTable(before.mem, root, n);
    } else {
      UnmapOfTableLeaks(root, before, p, i, w, checks[..|checks| - 1], q);
      CheckKeepsLost(root, checks[|checks| - 2], checks[|checks| - 1], n);
    }
  }

  lemma {:induction false} CheckKeepsLost(root: Frame, a: Moment, b: Moment, n: Frame)
    requires IsTree(a.mem, root) && CheckStep(root, a, b) && n !in Tables(a.mem, root) && n !in a.free
    ensures IsTree(b.mem, root) && n !in Tables(b.mem, root) && n !in b.free
  {
    hide Present, Large, Target, Blank;
    if b != a {
      var p, i, w :| Unhooks(root, a, p, i, w, b);
      UnlinkTable(a.mem, root, p, i, w);
      InTables(a.mem, root, Sub(p, i));
    }
  }

  lemma {:induction false} CutOff(m: Memory, root: Frame, p: Path, i: Index, w: bv64, q: Path)
    requires IsTree(m, root) && TableAt(m, root, p).Some? && !Present(w)
    requires Under(q, Sub(p, i)) && TableAt(m, root, q).Some?
    ensures var m' := Put(m, TableAt(m, root, p).value, i, w);
            IsTree(m', root) && TableAt(m, root, q).value !in Tables(m', root)
  {
    hide Present, Large, Target;
    CutOffTables(m, root, p, i, w);
  }

  lemma {:induction false} CutOffTables(m: Memory, root: Frame, p: Path, i: Index, w: bv64)
    requires IsTree(m, root) && TableAt(m, root, p).Some? && !Present(w)
    ensures var m' := Put(m, TableAt(m, root, p).value, i, w);
            forall r :: TableAt(m', root, r) == if Under(r, Sub(p, i)) then None else TableAt(m, root, r)
  {
    hide Present, Large, Target;
    var m' := Put(m, TableAt(m, root, p).value, i, w);
    PathNotBelowChild(p, i);
    WriteAway(m, root, p, i, w, p);
    assert TableAt(m', root, Sub(p, i)).None?;
    forall r ensures TableAt(m', root, r) == if Under(r, Sub(p, i)) then None else TableAt(m, root, r) {
      if Under(r, Sub(p, i)) {
        NothingBelow(m', root, Sub(p, i), r);
      } else {
        WriteAway(m, root, p, i, w, r);
      }
    }
  }

  // ---------- Cloning into a root that is not blank ----------

  /** A run of maps, regular or not: each step takes nothing away outside the frames that are free
      before it, and frees none. */
  ghost predicate Maps(moments: seq<Moment>) {
    && |moments| > 0
    && forall i :: 0 < i < |moments| ==>
         && Overlaid(moments[i - 1].mem, moments[i - 1].free, moments[i].mem)
         && moments[i].free <= moments[i - 1].free
  }

  lemma {:induction false} MapsOverlay(moments: seq<Moment>)
    requires Maps(moments)
    ensures var a, b := moments[0], moments[|moments| - 1];
            Overlaid(a.mem, a.free, b.mem) && b.free <= a.free
  {
    hide Overlaid;
    if |moments| == 1 {
      OverlaidStart(moments[0].mem, moments[0].free);
    } else {
      var c := moments[|moments| - 2];
      MapsOverlay(moments[..|moments| - 1]);
      OverlaidTwice(moments[0].mem, moments[0].free, c.mem, c.free, moments[|moments| - 1].mem);
    }
  }

  /** A clone into a root that shows a page the source does not have, or has with another word, does not
      get the pages of the source, whatever maps it consists of: that page stays. So a root must show
      no other pages than the source's. */
  lemma {:induction false} StaleRootSpoilsClone(src: Frame, root: Frame, moments: seq<Moment>, s: Path)
    requires Maps(moments) && Tables(moments[0].mem, root) !! moments[0].free
    requires LeafAt(moments[0].mem, root, s).Some?
    requires LeafAt(moments[0].mem, root, s) != LeafAt(moments[0].mem, src, s)
    ensures LeafAt(moments[|moments| - 1].mem, root, s) == LeafAt(moments[0].mem, root, s)
    ensures !SameLeaves(moments[|moments| - 1].mem, root, moments[0].mem, src)
  {
    MapsOverlay(moments);
    PagesStay(moments[0].mem, moments[0].free, moments[|moments| - 1].mem, root, s);
  }
}
