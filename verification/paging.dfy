/** Mapping, unmapping, resolving and cloning page tables (kernel/src/memory/paging.c), together
    with the translation cache of the processor that runs on them. */
module Paging {
  import opened Options
  import opened Words
  import opened PageTables
  import opened PagingSteps
  import opened Processor
  import opened CloneSteps
  import opened PagingLaws
  import opened UnmapLaws
  import P = Pmm

  class Paging {
    var mem: Memory
    const pmm: P.Pmm

    // The static path indices of paging_clone_page_table.
    var pml4Idx: Index
    var pdprIdx: Index
    var pdIdx: Index
    var ptIdx: Index

    // The translation cache: pages it may translate, with the leaf word it read. CR3 holds
    // the root of the active tree. Both belong to the processor, not to the program.
    ghost var active: Frame
    ghost var tlb: iset<(Path, bv64)>

    constructor (mem: Memory, pmm: P.Pmm, cr3: Frame)
      ensures this.mem == mem && this.pmm == pmm && active == cr3 && tlb == iset{}
      ensures pml4Idx == pdprIdx == pdIdx == ptIdx == 0
    {
      this.mem, this.pmm, this.active, this.tlb := mem, pmm, cr3, iset{};
      pml4Idx, pdprIdx, pdIdx, ptIdx := 0, 0, 0, 0;
    }

    ghost predicate Valid()
      reads pmm, pmm.Repr
    {
      && this !in pmm.Repr && pmm.Valid()
      && forall f :: f in pmm.Managed() ==> f < FRAMES
    }

    /** The tree under a root is well formed, and its tables but the root are pages taken from
        the allocator. */
    ghost predicate Owned(root: Frame)
      requires Valid()
      reads `mem, pmm, pmm.Repr
    {
      && IsTree(mem, root) && Populated(mem, root)
      && Tables(mem, root) - {root} <= pmm.Managed()
      && Tables(mem, root) !! pmm.FreeFrames()
    }

    /** Every cached translation is one the tree under CR3 has in memory m. */
    ghost predicate Coherent(m: Memory)
      reads `active, `tlb
    {
      forall e :: e in tlb ==> LeafAt(m, active, e.0) == Some(e.1)
    }

    /** The processor may at any time drop cached translations and cache pages that are present. */
    ghost method Hardware()
      modifies this`tlb
      ensures forall e :: e in tlb ==> e in old(tlb) || LeafAt(mem, active, e.0) == Some(e.1)
    {
      var keep: iset<(Path, bv64)>, fill: iset<(Path, bv64)> := *, *;
      tlb := iset e | (e in keep && e in tlb) || (e in fill && LeafAt(mem, active, e.0) == Some(e.1));
    }

    /** INVLPG: no translation of the page that contains the address stays cached. */
    ghost method InvalidateTlb(virt: bv64)
      modifies this`tlb
      ensures forall e :: e in tlb <==> e in old(tlb) && forall size :: e.0 != Slot(virt, size)
    {
      tlb := iset e | e in tlb && forall size :: e.0 != Slot(virt, size);
    }

    /** paging_resolve_virtual_address */
    method Resolve(pml4: Frame, virt: bv64) returns (phys: bv64)
      ensures phys == match Walk(mem, pml4, virt) case None => 0 case Some((level, w)) => LeafAddress(w, level)
      ensures match Translation(mem, pml4, virt)
              case None => phys == 0
              case Some((level, w)) => phys as nat == PhysicalPage(w, level) * BytesOf(level)
    {
      ResolvedAddress(mem, pml4, virt);
      hide Target, LeafAddress, Pml4Index, PdprIndex, PdIndex, PtIndex;
      var pml4Idx, pdprIdx, pdIdx, ptIdx := Pml4Index(virt), PdprIndex(virt), PdIndex(virt), PtIndex(virt);
      if !Present(mem[pml4][pml4Idx]) {
        return 0;
      }
      var pdpr := Target(mem[pml4][pml4Idx]);
      if !Present(mem[pdpr][pdprIdx]) {
        return 0;
      }
      if Large(mem[pdpr][pdprIdx]) {
        return LeafAddress(mem[pdpr][pdprIdx], PDPR);
      }
      var pd := Target(mem[pdpr][pdprIdx]);
      if !Present(mem[pd][pdIdx]) {
        return 0;
      }
      if Large(mem[pd][pdIdx]) {
        return LeafAddress(mem[pd][pdIdx], PD);
      }
      var pt := Target(mem[pd][pdIdx]);
      if !Present(mem[pt][ptIdx]) {
        return 0;
      }
      return LeafAddress(mem[pt][ptIdx], PT);
    }

    lemma {:induction false} ResolvedAddress(m: Memory, root: Frame, virt: bv64)
      ensures match Translation(m, root, virt)
              case None => Walk(m, root, virt) == None
              case Some((level, w)) =>
                && Walk(m, root, virt) == Some((level, w))
                && LeafAddress(w, level) as nat == PhysicalPage(w, level) * BytesOf(level)
    {
      hide Translation, Walk, LeafAddress, PhysicalPage, BytesOf;
      WalkIsTranslation(m, root, virt);
      if Translation(m, root, virt).Some? {
        var (level, w) := Translation(m, root, virt).value;
        LeafAddresses(w, level);
      }
    }

    /** memset(table, 0, 0x1000) */
    method ZeroFrame(f: Frame)
      modifies this`mem
      ensures mem == old(mem)[f := ZeroTable()]
    {
      var i := 0;
      while i < 512
        invariant 0 <= i <= 512
        invariant forall g: Frame :: g != f ==> mem[g] == old(mem)[g]
        invariant forall j: Index :: if j < i then mem[f][j] == 0 else mem[f][j] == old(mem)[f][j]
      {
        mem := Put(mem, f, i, 0);
        i := i + 1;
      }
      assert mem[f] == ZeroTable();
      assert mem == old(mem)[f := ZeroTable()];
    }

    /** One level of a map's way down: follow the entry, or allocate, zero and hook in a table. When no
        frame is left the code does not notice the allocator's NULL, and frame 0 is zeroed and hooked in. */
    method Follow(table: Frame, idx: Index, level: Level) returns (next: Frame)
      requires Valid()
      modifies this`mem, pmm.Repr
      ensures Valid() && pmm.Managed() == old(pmm.Managed()) && pmm.Repr == old(pmm.Repr)
      ensures pmm.regions == old(pmm.regions)
      ensures WentDown(old(mem), old(pmm.FreeFrames()), table, idx, level, mem, pmm.FreeFrames(), next)
    {
      hide Present, Target, CreateEntry, FrameAddress, P.FreeOf, P.ManagedOf;
      var e := mem[table][idx];
      if Present(e) {
        return Target(e);
      }
      pmm.FreeIsManaged();
      var address := pmm.Alloc();
      next := address / 4096;
      ZeroFrame(next);
      mem := Put(mem, table, idx, CreateEntry(FrameAddress(next), FLAG_PRESENT | FLAG_WRITABLE, level, Pointer));
    }

    /** The same, with what it means for the tree if the map is a regular one. A table that is hooked in has
        bits 0 and 1 set in its entry, present and writable, and none but its frame besides. */
    method Descend(table: Frame, idx: Index, level: Level, ghost regular: bool, ghost m0: Memory,
            ghost free0: set<nat>, ghost root: Frame, ghost p: Path)
      returns (next: Frame)
      requires Valid()
      requires regular ==> OnItsWay(m0, free0, mem, pmm.FreeFrames(), root, p, table, idx)
      requires regular ==> Apart(m0, free0, root, active) && Coherent(m0)
      modifies this`mem, this`tlb, pmm.Repr
      ensures Valid() && pmm.Managed() == old(pmm.Managed()) && pmm.Repr == old(pmm.Repr)
      ensures pmm.regions == old(pmm.regions)
      ensures WentDown(old(mem), old(pmm.FreeFrames()), table, idx, level, mem, pmm.FreeFrames(), next)
      ensures if Present(old(mem)[table][idx]) then mem == old(mem) else mem[table][idx] as nat == 4096 * next + 3
      ensures regular ==> Mapping(m0, free0, mem, pmm.FreeFrames(), root, Sub(p, idx))
      ensures regular ==> TableAt(mem, root, Sub(p, idx)) == Some(next) && Coherent(m0)
    {
      hide *;
      PmmValid();
      ghost var m, free := mem, pmm.FreeFrames();
      next := Follow(table, idx, level);
      PmmValid();
      NewPointer(m, free, table, idx, level, mem, pmm.FreeFrames(), next);
      if regular {
        MappingGoesDown(m0, free0, m, free, root, p, table, idx, level, mem, pmm.FreeFrames(), next);
        MappingOthers(m0, free0, mem, pmm.FreeFrames(), root, Sub(p, idx), active);
        SamePagesAreOld(mem, m0, active);
      }
      HardwareRunsIf(regular, m0);
    }

    lemma {:induction false} SamePagesAreOld(m: Memory, m0: Memory, root: Frame)
      requires SameLeaves(m, root, m0, root)
      ensures forall s :: LeafAt(m, root, s).Some? ==> LeafAt(m, root, s) == LeafAt(m0, root, s)
    {
      hide LeafAt;
    }

    /** The processor runs on. While the active tree holds no page that it did not hold before, the cache
        stays within the old pages. */
    ghost method HardwareRunsIf(regular: bool, m0: Memory)
      requires Valid()
      requires regular ==> Coherent(m0)
      requires regular ==> forall s :: LeafAt(mem, active, s).Some? ==> LeafAt(mem, active, s) == LeafAt(m0, active, s)
      modifies this`tlb
      ensures Valid() && (regular ==> Coherent(m0))
      ensures pmm.FreeFrames() == old(pmm.FreeFrames()) && pmm.Managed() == old(pmm.Managed())
    {
      hide LeafAt, P.FreeOf, P.ManagedOf, P.Good;
      Hardware();
    }

    /** The last step of a map: write the leaf unless the entry is in use. */
    method PlaceLeaf(table: Frame, idx: Index, level: Level, phys: bv64, flags: bv64, ghost regular: bool,
            ghost m0: Memory, ghost free0: set<nat>, ghost root: Frame, ghost p: Path)
      returns (ok: bool)
      requires Valid()
      requires regular ==> Mapping(m0, free0, mem, pmm.FreeFrames(), root, p) && TableAt(mem, root, p) == Some(table)
      requires regular ==> level == (match Depth(p) case 1 => PDPR case 2 => PD case _ => PT) && 0 < Depth(p)
      requires regular ==> Present(flags) && (level != PT ==> Large(flags))
      requires regular ==> Apart(m0, free0, root, active) && Coherent(m0)
      modifies this`mem, this`tlb
      ensures Valid() && pmm.FreeFrames() == old(pmm.FreeFrames())
      ensures ok <==> !Present(old(mem)[table][idx])
      ensures mem == if ok then Put(old(mem), table, idx, CreateEntry(phys, flags, level, Page)) else old(mem)
      ensures regular ==> MapOutcome(ok, m0, free0, mem, pmm.FreeFrames(), root, Sub(p, idx),
                                     CreateEntry(phys, flags, level, Page))
      ensures regular ==> Coherent(mem)
    {
      hide *;
      PmmValid();
      ghost var m := mem;
      ok := !Present(mem[table][idx]);
      if ok {
        SetEntry(table, idx, CreateEntry(phys, flags, level, Page));
      }
      if regular {
        LeafPlacedOutcome(ok, m0, free0, m, mem, pmm.FreeFrames(), root, p, table, idx, level, phys, flags);
      }
      HardwareRunsIf(regular, mem);
    }

    lemma {:induction false} LeafPlacedOutcome(ok: bool, m0: Memory, free0: set<nat>, m: Memory, m': Memory,
            free: set<nat>, root: Frame, p: Path, table: Frame, idx: Index, level: Level, phys: bv64, flags: bv64)
      requires Mapping(m0, free0, m, free, root, p) && TableAt(m, root, p) == Some(table)
      requires level == (match Depth(p) case 1 => PDPR case 2 => PD case _ => PT) && 0 < Depth(p)
      requires Present(flags) && (level != PT ==> Large(flags))
      requires Apart(m0, free0, root, active) && Coherent(m0)
      requires ok <==> !Present(m[table][idx])
      requires m' == if ok then Put(m, table, idx, CreateEntry(phys, flags, level, Page)) else m
      ensures MapOutcome(ok, m0, free0, m', free, root, Sub(p, idx), CreateEntry(phys, flags, level, Page))
      ensures Coherent(m')
    {
      hide Mapping, Mapped, Missing, Apart, TableAt, LeafAt, IsLeaf, Present, Large, Target, CreateEntry;
      MappingInUse(m0, free0, m, free, root, p, idx);
      if ok {
        FreshLeaf(m0, free0, m, free, root, p, phys, flags, level);
        MappingPlace(m0, free0, m, free, root, p, idx, CreateEntry(phys, flags, level, Page));
        CoherentAfterMap(m0, free0, m', free, root, Sub(p, idx), CreateEntry(phys, flags, level, Page));
      }
    }

    /** A page that was not present was not cached either, so after a map the cache is as good
        as before, even without INVLPG. */
    lemma {:induction false} CoherentAfterMap(m0: Memory, free0: set<nat>, m: Memory, free: set<nat>, root: Frame,
            slot: Path, w: bv64)
      requires Mapped(m0, free0, m, free, root, slot, w) && LeafAt(m0, root, slot).None?
      requires Apart(m0, free0, root, active) && Coherent(m0)
      ensures Coherent(m)
    {
      if active != root {
        ApartKept(m0, free0, m, root, active);
      }
      hide LeafAt, TableAt, Tables;
    }

    /** The tree under `root` can be worked on: it is owned, the active tree is that tree or
        apart from it, and the cache is coherent. */
    ghost predicate Ready(root: Frame)
      reads `mem, `active, `tlb, pmm, pmm.Repr
    {
      Valid() && Owned(root) && Apart(mem, pmm.FreeFrames(), root, active) && Coherent(mem)
    }

    lemma {:induction false} ReadyParts(root: Frame)
      requires Ready(root)
      ensures Valid() && pmm.Valid() && Apart(mem, pmm.FreeFrames(), root, active) && Coherent(mem)
      ensures Tables(mem, root) - {root} <= pmm.Managed() && pmm.FreeFrames() <= pmm.Managed()
      ensures Tables(mem, root) !! pmm.FreeFrames() && IsTree(mem, root) && Populated(mem, root)
    {
      pmm.FreeIsManaged();
    }

    /** A regular map: a tree that can be worked on, flags that make a page of the size, no larger page on
        the way, and a free frame for each missing table. */
    ghost predicate Regular(pml4: Frame, virt: bv64, size: PageSize, flags: bv64)
      reads `mem, `active, `tlb, pmm, pmm.Repr
    {
      && Ready(pml4) && Present(flags) && (size != Size4KB ==> Large(flags))
      && NoLargerPage(mem, pml4, Slot(virt, size))
      && Missing(mem, pml4, ParentOf(Slot(virt, size))) <= |pmm.FreeFrames()|
    }

    lemma {:induction false} RegularParts(pml4: Frame, virt: bv64, size: PageSize, flags: bv64)
      requires Valid()
      ensures Slot(virt, size).Sub? && ParentOf(Slot(virt, size)) == Slot(virt, size).parent
      ensures Regular(pml4, virt, size, flags) <==>
                && Ready(pml4) && Present(flags) && (size != Size4KB ==> Large(flags))
                && NoLargerPage(mem, pml4, Slot(virt, size))
                && Missing(mem, pml4, Slot(virt, size).parent) <= |pmm.FreeFrames()|
    {
      SlotParts(virt, size);
    }

    /** The way of a map down to the table that will hold the page. */
    method DescendTo(pml4: Frame, virt: bv64, size: PageSize, ghost flags: bv64) returns (table: Frame)
      requires Valid()
      modifies this`mem, this`tlb, pmm.Repr
      ensures Valid() && pmm.Managed() == old(pmm.Managed()) && pmm.Repr == old(pmm.Repr)
      ensures pmm.regions == old(pmm.regions)
      ensures Slot(virt, size).Sub?
      ensures old(Regular(pml4, virt, size, flags)) ==>
                && Mapping(old(mem), old(pmm.FreeFrames()), mem, pmm.FreeFrames(), pml4, Slot(virt, size).parent)
                && TableAt(mem, pml4, Slot(virt, size).parent) == Some(table) && Coherent(old(mem))
      ensures Overlaid(old(mem), ScratchOf(old(pmm.FreeFrames())), mem) && pmm.FreeFrames() <= old(pmm.FreeFrames())
      ensures Followed(old(mem), pml4, virt, size).Some? ==>
                && mem == old(mem) && pmm.FreeFrames() == old(pmm.FreeFrames())
                && table == Followed(old(mem), pml4, virt, size).value
    {
      hide *;
      PmmValid();
      ghost var m0, free0, slot := mem, pmm.FreeFrames(), Slot(virt, size);
      ghost var regular, scratch := Regular(pml4, virt, size, flags), ScratchOf(free0);
      RegularParts(pml4, virt, size, flags);
      ScratchParts(free0);
      OverlaidStart(m0, scratch);
      SlotPath(virt, size);
      if regular {
        ReadyParts(pml4);
        RegularStart(m0, free0, pml4, virt, size);
      }
      table := Descend(pml4, Pml4Index(virt), PML4, regular, m0, free0, pml4, Root);
      PmmValid();
      ghost var m1, free1, pdpr := mem, pmm.FreeFrames(), table;
      OverlaidDown(m0, scratch, m0, free0, pml4, Pml4Index(virt), PML4, m1, free1, pdpr);
      if Followed(m0, pml4, virt, size).Some? {
        FollowedParts(m0, pml4, virt, size);
        WentDownPresent(m0, free0, pml4, Pml4Index(virt), PML4, m1, free1, pdpr);
      }
      if size == Size1GB {
        return;
      }
      if regular {
        RegularOnItsWay2(m0, free0, m1, free1, pml4, virt, size, pdpr);
      }
      table := Descend(table, PdprIndex(virt), PDPR, regular, m0, free0, pml4, Path1(virt));
      PmmValid();
      ghost var m2, free2, pd := mem, pmm.FreeFrames(), table;
      OverlaidDown(m0, scratch, m1, free1, pdpr, PdprIndex(virt), PDPR, m2, free2, pd);
      if Followed(m0, pml4, virt, size).Some? {
        WentDownPresent(m1, free1, pdpr, PdprIndex(virt), PDPR, m2, free2, pd);
      }
      if size == Size2MB {
        return;
      }
      if regular {
        RegularOnItsWay3(m0, free0, m2, free2, pml4, virt, size, pd);
      }
      table := Descend(table, PdIndex(virt), PD, regular, m0, free0, pml4, Path2(virt));
      PmmValid();
      OverlaidDown(m0, scratch, m2, free2, pd, PdIndex(virt), PD, mem, pmm.FreeFrames(), table);
      if Followed(m0, pml4, virt, size).Some? {
        WentDownPresent(m2, free2, pd, PdIndex(virt), PD, mem, pmm.FreeFrames(), table);
      }
    }

    /** Map one page in the tree under pml4, adding tables as needed. Whatever the tree, the flags and the
        free frames: only words without the present bit are replaced, outside the frames that were free
        (and frame 0, if those run out). Where every entry that is followed is present just one word is
        written, into the frame it ends up at. A regular map keeps all promises. */
    method MapPageWithoutTlbInvalidation(pml4: Frame, phys: bv64, virt: bv64, size: PageSize, flags: bv64)
      returns (ok: bool)
      requires Valid()
      modifies this`mem, this`tlb, pmm.Repr
      ensures Valid() && pmm.Managed() == old(pmm.Managed()) && pmm.Repr == old(pmm.Repr)
      ensures pmm.regions == old(pmm.regions)
      ensures old(Regular(pml4, virt, size, flags)) ==>
                && Ready(pml4)
                && MapOutcome(ok, old(mem), old(pmm.FreeFrames()), mem, pmm.FreeFrames(), pml4, Slot(virt, size),
                              CreateEntry(phys, flags, LevelOf(size), Page))
      ensures Overlaid(old(mem), ScratchOf(old(pmm.FreeFrames())), mem) && pmm.FreeFrames() <= old(pmm.FreeFrames())
      ensures Followed(old(mem), pml4, virt, size).Some? ==>
                var t, i := Followed(old(mem), pml4, virt, size).value, SlotIndex(virt, size);
                && (ok <==> !Present(old(mem)[t][i]))
                && mem == if ok then Put(old(mem), t, i, CreateEntry(phys, flags, LevelOf(size), Page)) else old(mem)
    {
      hide *;
      PmmValid();
      ghost var m0, free0, slot, regular := mem, pmm.FreeFrames(), Slot(virt, size), Regular(pml4, virt, size, flags);
      RegularParts(pml4, virt, size, flags);
      SlotParts(virt, size);
      if regular {
        ReadyParts(pml4);
      }
      var table := DescendTo(pml4, virt, size, flags);
      ghost var m := mem;
      ok := PlaceLeaf(table, SlotIndex(virt, size), LevelOf(size), phys, flags, regular, m0, free0, pml4, slot.parent);
      PmmValid();
      if ok {
        OverlaidWrite(m0, ScratchOf(free0), m, table, SlotIndex(virt, size),
          CreateEntry(phys, flags, LevelOf(size), Page));
      }
      if regular {
        AfterMap(ok, m0, free0, pml4, slot, CreateEntry(phys, flags, LevelOf(size), Page));
      }
    }

    /** paging_map_page: the same, and INVLPG if it succeeded. So every page of the tree stays, word for
        word; and a map that reports success makes its address translate to the new leaf if and only if no
        larger page lies on the way. */
    method MapPage(pml4: Frame, phys: bv64, virt: bv64, size: PageSize, flags: bv64) returns (ok: bool)
      requires Valid()
      modifies `mem, `tlb, pmm.Repr
      ensures Valid() && pmm.Managed() == old(pmm.Managed()) && pmm.Repr == old(pmm.Repr)
      ensures pmm.regions == old(pmm.regions)
      ensures old(Regular(pml4, virt, size, flags)) ==>
                && Ready(pml4)
                && MapOutcome(ok, old(mem), old(pmm.FreeFrames()), mem, pmm.FreeFrames(), pml4, Slot(virt, size),
                              CreateEntry(phys, flags, LevelOf(size), Page))
      ensures ok && old(Regular(pml4, virt, size, flags)) ==>
                PageBecomes(old(mem), mem, pml4, virt, size,
                            Some((LevelOf(size), CreateEntry(phys, flags, LevelOf(size), Page))))
      ensures HoldsAddressAndFlags(CreateEntry(phys, flags, LevelOf(size), Page), phys, flags, LevelOf(size))
      ensures Overlaid(old(mem), ScratchOf(old(pmm.FreeFrames())), mem) && pmm.FreeFrames() <= old(pmm.FreeFrames())
      ensures Tables(old(mem), pml4) !! ScratchOf(old(pmm.FreeFrames())) ==>
                forall s :: LeafAt(old(mem), pml4, s).Some? ==> LeafAt(mem, pml4, s) == LeafAt(old(mem), pml4, s)
      ensures && ok && old(Ready(pml4)) && |old(pmm.FreeFrames())| >= 3
              && Present(flags) && (size != Size4KB ==> Large(flags))
              ==> (Translation(mem, pml4, virt) == Some((LevelOf(size), CreateEntry(phys, flags, LevelOf(size), Page)))
                   <==> NoLargerPage(old(mem), pml4, Slot(virt, size)))
    {
      hide *;
      PmmValid();
      ghost var m0, free0, regular := mem, pmm.FreeFrames(), Regular(pml4, virt, size, flags);
      RegularParts(pml4, virt, size, flags);
      FewMissing(m0, pml4, virt, size);
      ghost var fine := Ready(pml4) && |free0| >= 3 && Present(flags) && (size != Size4KB ==> Large(flags));
      if fine {
        ReadyParts(pml4);
      }
      ok := MapPageWithoutTlbInvalidation(pml4, phys, virt, size, flags);
      PmmValid();
      if Tables(m0, pml4) !! ScratchOf(free0) {
        forall s ensures LeafAt(m0, pml4, s).Some? ==> LeafAt(mem, pml4, s) == LeafAt(m0, pml4, s) {
          PagesStay(m0, ScratchOf(free0), mem, pml4, s);
        }
      }
      MadeLeaf(phys, flags, LevelOf(size));
      if ok && regular {
        OutcomeMapped(regular, ok, m0, free0, mem, pmm.FreeFrames(), pml4, Slot(virt, size),
          CreateEntry(phys, flags, LevelOf(size), Page));
        MappedBecomes(m0, free0, mem, pmm.FreeFrames(), pml4, virt, size, phys, flags);
      }
      if ok && fine {
        ScratchParts(free0);
        OutcomeMapped(regular, ok, m0, free0, mem, pmm.FreeFrames(), pml4, Slot(virt, size),
          CreateEntry(phys, flags, LevelOf(size), Page));
        MapSucceedsIff(m0, free0, mem, pmm.FreeFrames(), pml4, virt, size, phys, flags);
      }
      if ok {
        FlushPage(pml4, virt);
      }
    }

    lemma {:induction false} OutcomeMapped(regular: bool, ok: bool, m0: Memory, free0: set<nat>, m: Memory,
            free: set<nat>, root: Frame, slot: Path, w: bv64)
      requires ok && (regular ==> MapOutcome(ok, m0, free0, m, free, root, slot, w))
      ensures regular ==> Mapped(m0, free0, m, free, root, slot, w)
    {
      hide Mapped;
    }

    ghost method FlushPage(root: Frame, virt: bv64)
      requires Valid()
      modifies `tlb
      ensures Valid() && (old(Ready(root)) ==> Ready(root))
      ensures pmm.FreeFrames() == old(pmm.FreeFrames()) && pmm.Managed() == old(pmm.Managed())
    {
      hide LeafAt, TableAt, Tables, Apart, Slot, IsTree, Populated, P.FreeOf, P.ManagedOf, P.Good;
      InvalidateTlb(virt);
    }

    lemma {:induction false} AfterMap(ok: bool, m0: Memory, free0: set<nat>, root: Frame, slot: Path, w: bv64)
      requires Valid() && Coherent(mem)
      requires MapOutcome(ok, m0, free0, mem, pmm.FreeFrames(), root, slot, w)
      requires Apart(m0, free0, root, active) && Tables(m0, root) - {root} <= pmm.Managed() && free0 <= pmm.Managed()
      requires Tables(m0, root) !! free0 && IsTree(m0, root) && Populated(m0, root)
      ensures Ready(root)
    {
      hide Apart, TableAt, LeafAt, Tables, P.FreeOf, P.ManagedOf;
      MapOutcomeApart(ok, m0, free0, mem, pmm.FreeFrames(), root, slot, w, active);
    }

    /** The scan of paging_check_for_empty_table. */
    method IsEmpty(table: Frame) returns (empty: bool)
      ensures empty == Blank(mem[table])
    {
      var i := 0;
      while i < 512
        invariant 0 <= i <= 512
        invariant forall j: Index :: j < i ==> !Present(mem[table][j])
      {
        if Present(mem[table][i]) {
          return false;
        }
        i := i + 1;
      }
      return true;
    }

    /** pmm_free of a table's page. */
    method FreeFrame(frame: Frame)
      requires Valid() && frame in pmm.Managed() && frame !in pmm.FreeFrames()
      modifies pmm.Repr
      ensures Valid() && pmm.Managed() == old(pmm.Managed()) && pmm.Repr == old(pmm.Repr)
      ensures pmm.regions == old(pmm.regions)
      ensures pmm.FreeFrames() == old(pmm.FreeFrames()) + {frame}
    {
      hide P.FreeOf, P.ManagedOf, P.Good;
      pmm.ManagedInRegion(frame);
      var err := pmm.Free(4096 * frame);
    }

    /** paging_check_for_empty_table: a table without a present entry is unhooked from its parent
        and its page is freed. `regular` says that this is part of an unmap whose size fits; then the check
        keeps what that needs. */
    method CheckForEmptyTable(table: Frame, parent: Frame, idx: Index, ghost regular: bool, ghost m0: Memory,
            ghost free0: set<nat>, ghost root: Frame, ghost slot: Path, ghost p: Path)
      requires Valid()
      requires regular ==> Unmapping(m0, free0, mem, pmm.FreeFrames(), root, slot, Sub(p, idx))
      requires regular ==> TableAt(mem, root, p) == Some(parent) && TableAt(mem, root, Sub(p, idx)) == Some(table)
      requires regular ==> Tables(m0, root) - {root} <= pmm.Managed()
      requires regular ==> Apart(m0, free0, root, active) && Coherent(m0)
      requires !regular ==> CanCheck(Moment(mem, pmm.FreeFrames()), pmm.Managed(), table)
      modifies this`mem, this`tlb, pmm.Repr
      ensures Valid() && pmm.Managed() == old(pmm.Managed()) && pmm.Repr == old(pmm.Repr)
      ensures pmm.regions == old(pmm.regions)
      ensures Moment(mem, pmm.FreeFrames()) == Checked(Moment(old(mem), old(pmm.FreeFrames())), table, parent, idx)
      ensures regular ==> Unmapping(m0, free0, mem, pmm.FreeFrames(), root, slot, p)
      ensures regular ==> TableAt(mem, root, p) == Some(parent) && Coherent(m0)
    {
      hide *;
      PmmValid();
      ghost var m, free := mem, pmm.FreeFrames();
      CodeParts(Moment(m, free), table, parent, idx);
      if regular {
        UnmappingTable(m0, free0, m, free, root, slot, Sub(p, idx), table);
        UnmappingChecked(m0, free0, Moment(m, free), root, slot, p, idx, table, parent);
        TablesManaged(m0, root, table);
      } else {
        CanCheckParts(Moment(m, free), pmm.Managed(), table);
      }
      var empty := IsEmpty(table);
      if empty {
        SetEntry(parent, idx, ClearPresent(mem[parent][idx]));
        FreeFrame(table);
        PmmValid();
      }
      if regular {
        UnmappingOthers(m0, free0, mem, pmm.FreeFrames(), root, slot, p, active);
      }
      HardwareRunsIf(regular, m0);
    }

    lemma {:induction false} TablesManaged(m0: Memory, root: Frame, table: Frame)
      requires Valid() && Tables(m0, root) - {root} <= pmm.Managed() && table in Tables(m0, root) && table != root
      ensures table in pmm.Managed()
    {
      hide P.ManagedOf, Tables;
    }

    lemma {:induction false} CanCheckParts(a: Moment, managed: set<nat>, table: Frame)
      requires CanCheck(a, managed, table)
      ensures Blank(a.mem[table]) ==> table in managed && table !in a.free
    {
      hide Blank;
    }

    lemma {:induction false} PmmValid()
      requires Valid()
      ensures pmm.Valid() && this !in pmm.Repr
    {
    }

    method SetEntry(table: Frame, idx: Index, w: bv64)
      requires Valid()
      modifies this`mem
      ensures Valid() && mem == Put(old(mem), table, idx, w) && pmm.FreeFrames() == old(pmm.FreeFrames())
      ensures pmm.Managed() == old(pmm.Managed()) && pmm.Repr == old(pmm.Repr)
      ensures pmm.regions == old(pmm.regions)
    {
      hide P.FreeOf, P.ManagedOf, P.Good;
      mem := Put(mem, table, idx, w);
    }

    /** Clearing the present bit of a page's entry. The page may stay cached for now. */
    method ClearLeaf(table: Frame, idx: Index, ghost regular: bool, ghost root: Frame, ghost p: Path)
      requires Valid()
      requires regular ==> Ready(root) && TableAt(mem, root, p) == Some(table) && TableAt(mem, root, Sub(p, idx)).None?
      modifies this`mem, this`tlb
      ensures Valid() && pmm.Managed() == old(pmm.Managed()) && pmm.FreeFrames() == old(pmm.FreeFrames())
      ensures mem == Cleared(old(mem), table, idx)
      ensures regular ==> Unmapping(old(mem), pmm.FreeFrames(), mem, pmm.FreeFrames(), root, Sub(p, idx), p)
      ensures regular ==> SameTables(mem, root, old(mem), root) && Coherent(old(mem))
    {
      hide *;
      PmmValid();
      ghost var m0, free0 := mem, pmm.FreeFrames();
      CodeParts(Moment(m0, free0), table, table, idx);
      if regular {
        ReadyParts(root);
        ClearPresentBits(m0[table][idx]);
        UnmappingStart(m0, free0, root, p, idx, ClearPresent(m0[table][idx]));
      }
      SetEntry(table, idx, ClearPresent(mem[table][idx]));
      PmmValid();
      if regular {
        UnmappingOthers(m0, free0, mem, pmm.FreeFrames(), root, Sub(p, idx), p, active);
      }
      HardwareRunsIf(regular, m0);
    }

    /** INVLPG at the end of an unmap drops the one translation that may be stale. */
    ghost method FinishUnmap(regular: bool, m0: Memory, free0: set<nat>, root: Frame, virt: bv64, size: PageSize)
      requires Valid()
      requires regular ==> Coherent(m0) && Apart(m0, free0, root, active)
      requires regular ==> Unmapped(m0, free0, mem, pmm.FreeFrames(), root, Slot(virt, size))
      requires regular ==> Tables(m0, root) - {root} <= pmm.Managed() && free0 <= pmm.Managed()
      modifies this`tlb
      ensures Valid() && (regular ==> Ready(root))
      ensures pmm.FreeFrames() == old(pmm.FreeFrames()) && pmm.Managed() == old(pmm.Managed())
    {
      hide LeafAt, TableAt, Tables, Unmapped, Unmapping, Apart, Slot, IsTree, Populated, P.FreeOf, P.ManagedOf, P.Good;
      if regular {
        UnmappedApart(m0, free0, mem, pmm.FreeFrames(), root, Slot(virt, size), active);
        UnmappedOthers(m0, free0, mem, pmm.FreeFrames(), root, Slot(virt, size), active);
      }
      InvalidateTlb(virt);
    }

    /** The way of an unmap down to the page, with its checks. */
    method FindPage(pml4: Frame, virt: bv64, size: PageSize) returns (ok: bool, pdpr: Frame, pd: Frame, pt: Frame)
      ensures Way(ok, pdpr, pd, pt) == WayOf(mem, pml4, virt, size)
    {
      hide Present, Target, Pml4Index, PdprIndex, PdIndex, PtIndex;
      pdpr, pd, pt := 0, 0, 0;
      if !Present(mem[pml4][Pml4Index(virt)]) {
        return false, pdpr, pd, pt;
      }
      pdpr := Target(mem[pml4][Pml4Index(virt)]);
      if !Present(mem[pdpr][PdprIndex(virt)]) {
        return false, pdpr, pd, pt;
      }
      if size == Size1GB {
        return true, pdpr, pd, pt;
      }
      pd := Target(mem[pdpr][PdprIndex(virt)]);
      if !Present(mem[pd][PdIndex(virt)]) {
        return false, pdpr, pd, pt;
      }
      if size == Size2MB {
        return true, pdpr, pd, pt;
      }
      pt := Target(mem[pd][PdIndex(virt)]);
      return true, pdpr, pd, pt;
    }

    /** The way of an unmap back up, from the page's table to the root. */
    method RemovePage(pml4: Frame, virt: bv64, size: PageSize, pdpr: Frame, pd: Frame, pt: Frame, ghost regular: bool)
      requires Valid() && Slot(virt, size).Sub?
      requires regular ==> Ready(pml4) && UnmapWay(true, mem, pml4, virt, size, pdpr, pd, pt)
      requires regular ==> TableAt(mem, pml4, Slot(virt, size)).None?
      requires !regular ==> CanRemove(Moment(mem, pmm.FreeFrames()), pmm.Managed(), pml4, virt, size, pdpr, pd, pt)
      modifies this`mem, this`tlb, pmm.Repr
      ensures Valid() && pmm.Managed() == old(pmm.Managed()) && pmm.Repr == old(pmm.Repr)
      ensures pmm.regions == old(pmm.regions)
      ensures Moment(mem, pmm.FreeFrames()) ==
              Removed(Moment(old(mem), old(pmm.FreeFrames())), pml4, virt, size, pdpr, pd, pt)
      ensures regular ==> && Unmapped(old(mem), old(pmm.FreeFrames()), mem, pmm.FreeFrames(), pml4, Slot(virt, size))
                          && Coherent(old(mem))
    {
      hide *;
      PmmValid();
      ghost var m0, free0, slot := mem, pmm.FreeFrames(), Slot(virt, size);
      RemovedParts(Moment(m0, free0), pml4, virt, size, pdpr, pd, pt);
      if regular {
        ReadyParts(pml4);
        UnmapWayTables(m0, pml4, virt, size, pdpr, pd, pt);
      } else {
        CanRemoveParts(Moment(m0, free0), pmm.Managed(), pml4, virt, size, pdpr, pd, pt);
      }
      SlotPath(virt, size);
      SlotParts(virt, size);
      SlotIndexParts(virt);
      match size {
        case Size1GB =>
          ClearLeaf(pdpr, PdprIndex(virt), regular, pml4, Path1(virt));
          SameTableIf(regular, m0, mem, pml4, Path1(virt));
        case Size2MB =>
          ClearLeaf(pd, PdIndex(virt), regular, pml4, Path2(virt));
          SameTableIf(regular, m0, mem, pml4, Path1(virt));
          SameTableIf(regular, m0, mem, pml4, Path2(virt));
          CheckForEmptyTable(pd, pdpr, PdprIndex(virt), regular, m0, free0, pml4, slot, Path1(virt));
        case Size4KB =>
          ClearLeaf(pt, PtIndex(virt), regular, pml4, Path3(virt));
          SameTableIf(regular, m0, mem, pml4, Path2(virt));
          SameTableIf(regular, m0, mem, pml4, Path3(virt));
          CheckForEmptyTable(pt, pd, PdIndex(virt), regular, m0, free0, pml4, slot, Path2(virt));
          PmmValid();
          if regular {
            UnmappingParent(m0, free0, mem, pmm.FreeFrames(), pml4, slot, Path1(virt), PdprIndex(virt));
          }
          CheckForEmptyTable(pd, pdpr, PdprIndex(virt), regular, m0, free0, pml4, slot, Path1(virt));
      }
      RootTable(mem, pml4);
      CheckForEmptyTable(pdpr, pml4, Pml4Index(virt), regular, m0, free0, pml4, slot, Root);
      PmmValid();
      if regular {
        UnmappedDone(m0, free0, mem, pmm.FreeFrames(), pml4, slot);
      }
    }

    lemma {:induction false} SameTableIf(regular: bool, m: Memory, m': Memory, root: Frame, p: Path)
      requires regular ==> SameTables(m', root, m, root)
      ensures regular ==> TableAt(m', root, p) == TableAt(m, root, p)
    {
    }

    /** A tree that can be worked on, and a size that fits what is mapped. */
    ghost predicate RegularUnmap(pml4: Frame, virt: bv64, size: PageSize)
      reads `mem, `active, `tlb, pmm, pmm.Repr
    {
      Ready(pml4) && SizeFits(mem, pml4, Slot(virt, size))
    }

    lemma {:induction false} RegularUnmapParts(pml4: Frame, virt: bv64, size: PageSize)
      ensures RegularUnmap(pml4, virt, size) <==>
                && Ready(pml4) && SizeFits(mem, pml4, Slot(virt, size))
                && NoLargerPage(mem, pml4, Slot(virt, size)) && TableAt(mem, pml4, Slot(virt, size)).None?
    {
      hide Ready, NoLargerPage, TableAt, Slot;
    }

    /** paging_unmap_page. What it does to memory and to the free frames is UnmapCode, whatever is mapped, as
        long as the frames it finds empty are pages that were handed out; where the size fits they are. An
        unmap that reports success is exact if and only if the size fits. */
    method UnmapPage(pml4: Frame, virt: bv64, size: PageSize) returns (ok: bool)
      requires Valid()
      requires || RegularUnmap(pml4, virt, size)
               || CanUnmap(Moment(mem, pmm.FreeFrames()), pmm.Managed(), pml4, virt, size)
      modifies this`mem, this`tlb, pmm.Repr
      ensures Valid() && pmm.Managed() == old(pmm.Managed()) && pmm.Repr == old(pmm.Repr)
      ensures pmm.regions == old(pmm.regions)
      ensures Slot(virt, size).Sub?
      ensures UnmapCode(Moment(old(mem), old(pmm.FreeFrames())), pml4, virt, size) ==
              if ok then Some(Moment(mem, pmm.FreeFrames())) else None
      ensures !ok ==> mem == old(mem) && pmm.FreeFrames() == old(pmm.FreeFrames())
      ensures old(RegularUnmap(pml4, virt, size)) ==>
                && Ready(pml4)
                && UnmapOutcome(ok, old(mem), old(pmm.FreeFrames()), mem, pmm.FreeFrames(), pml4,
                                Slot(virt, size), size)
      ensures ok && old(RegularUnmap(pml4, virt, size)) ==> PageBecomes(old(mem), mem, pml4, virt, size, None)
      ensures OnlyClearsPresent(old(mem), mem)
      ensures ok && Sound(pml4, Moment(old(mem), old(pmm.FreeFrames()))) ==>
                (RemovesExactly(pml4, Moment(old(mem), old(pmm.FreeFrames())), virt, Slot(virt, size),
                                Moment(mem, pmm.FreeFrames()))
                 <==> SizeFits(old(mem), pml4, Slot(virt, size)))
    {
      hide *;
      PmmValid();
      ghost var m0, free0, regular := mem, pmm.FreeFrames(), RegularUnmap(pml4, virt, size);
      SlotParts(virt, size);
      RegularUnmapParts(pml4, virt, size);
      CodeOfWay(Moment(m0, free0), pmm.Managed(), pml4, virt, size);
      if regular {
        ReadyParts(pml4);
        WayIsUnmapWay(m0, pml4, virt, size);
      }
      var pdpr, pd, pt;
      ok, pdpr, pd, pt := FindPage(pml4, virt, size);
      NothingCleared(m0);
      WayParts(ok, pdpr, pd, pt);
      if ok {
        RemovePage(pml4, virt, size, pdpr, pd, pt, regular);
        FinishUnmap(regular, m0, free0, pml4, virt, size);
        PmmValid();
        UnmapOnlyClears(Moment(m0, free0), pml4, virt, size, Moment(mem, pmm.FreeFrames()));
        if regular {
          UnmappedBecomes(pml4, Moment(m0, free0), virt, size, Moment(mem, pmm.FreeFrames()));
        }
        if Sound(pml4, Moment(m0, free0)) {
          UnmapIsExact(pml4, Moment(m0, free0), virt, size, Moment(mem, pmm.FreeFrames()));
        }
      }
      if regular {
        UnmapWayOutcome(ok, m0, free0, mem, pmm.FreeFrames(), pml4, virt, size, pdpr, pd, pt);
      }
    }

    lemma {:induction false} WayParts(ok: bool, pdpr: Frame, pd: Frame, pt: Frame)
      ensures var way := Way(ok, pdpr, pd, pt);
              way.ok == ok && way.pdpr == pdpr && way.pd == pd && way.pt == pt
    {
    }

    /** Mapping a fresh page and unmapping it again: every page, every table, the free frames and the
        counter of every region are as before. */
    method MapThenUnmap(pml4: Frame, phys: bv64, virt: bv64, size: PageSize, flags: bv64)
      requires Ready(pml4)
      requires Present(flags) && (size != Size4KB ==> Large(flags))
      requires NoLargerPage(mem, pml4, Slot(virt, size))
      requires LeafAt(mem, pml4, Slot(virt, size)).None? && TableAt(mem, pml4, Slot(virt, size)).None?
      requires Missing(mem, pml4, Slot(virt, size).parent) <= |pmm.FreeFrames()|
      modifies `mem, `tlb, pmm.Repr
      ensures Ready(pml4) && pmm.FreeFrames() == old(pmm.FreeFrames())
      ensures pmm.regions == old(pmm.regions)
      ensures SameLeaves(mem, pml4, old(mem), pml4) && SameTables(mem, pml4, old(mem), pml4)
      ensures forall i :: 0 <= i < |pmm.regions| ==> pmm.regions[i].freePages == old(pmm.regions[i].freePages)
    {
      hide *;
      ReadyParts(pml4);
      SlotParts(virt, size);
      ghost var m0, free0, slot := mem, pmm.FreeFrames(), Slot(virt, size);
      ghost var w := CreateEntry(phys, flags, LevelOf(size), Page);
      ghost var t := pmm.View();
      CountersIn(t);
      RegularParts(pml4, virt, size, flags);
      var ok := MapPage(pml4, phys, virt, size, flags);
      ReadyParts(pml4);
      ghost var m1, free1 := mem, pmm.FreeFrames();
      FreshMapSucceeds(ok, m0, free0, m1, free1, pml4, slot, w);
      RegularUnmapIs(pml4, virt, size);
      ok := UnmapPage(pml4, virt, size);
      ReadyParts(pml4);
      UnmapSucceeds(ok, m1, free1, mem, pmm.FreeFrames(), pml4, slot, size);
      MapUnmapRestores(m0, free0, m1, free1, mem, pmm.FreeFrames(), pml4, slot, w);
      CountersRestored(t);
    }

    lemma {:induction false} RegularUnmapIs(pml4: Frame, virt: bv64, size: PageSize)
      requires Ready(pml4)
      requires NoLargerPage(mem, pml4, Slot(virt, size)) && TableAt(mem, pml4, Slot(virt, size)).None?
      ensures RegularUnmap(pml4, virt, size)
    {
      hide Ready, NoLargerPage, TableAt, Slot;
    }

    lemma {:induction false} CountersIn(t: P.Table)
      requires Valid() && t == pmm.View()
      ensures P.Good(t) && |t| == |pmm.regions| && P.FreeOf(t) == pmm.FreeFrames()
      ensures forall i :: 0 <= i < |t| ==> t[i].freePages == pmm.regions[i].freePages
      ensures forall i :: 0 <= i < |t| ==> t[i].base == pmm.regions[i].base && t[i].length == pmm.regions[i].length
    {
      pmm.TableOrdered();
    }

    lemma {:induction false} CountersRestored(t: P.Table)
      requires Valid() && P.Good(t) && |t| == |pmm.regions| && P.FreeOf(t) == pmm.FreeFrames()
      requires forall i :: 0 <= i < |t| ==> t[i].base == pmm.regions[i].base && t[i].length == pmm.regions[i].length
      ensures forall i :: 0 <= i < |pmm.regions| ==> pmm.regions[i].freePages == t[i].freePages
    {
      hide P.Good, P.FreeOf;
      CountersIn(pmm.View());
      forall i | 0 <= i < |pmm.regions| ensures pmm.regions[i].freePages == t[i].freePages {
        P.CountersFollowFrames(pmm.View(), t, i);
      }
    }

    // ---------- Clone ----------

    /** The static indices above a level are the path to the table that is being walked. */
    ghost predicate AtPath(p: Path, level: Level)
      reads `pml4Idx, `pdprIdx, `pdIdx
    {
      match level
      case PML4 => p == Root
      case PDPR => p == Sub(Root, pml4Idx)
      case PD => p == Sub(Sub(Root, pml4Idx), pdprIdx)
      case PT => p == Sub(Sub(Sub(Root, pml4Idx), pdprIdx), pdIdx)
    }

    /** A clone in progress: what is done is copied, and the new tree can be mapped into. */
    ghost predicate CloneState(m0: Memory, free0: set<nat>, src: Frame, root: Frame, done: iset<Path>)
      reads `mem, `active, `tlb, pmm, pmm.Repr
    {
      && Ready(root) && CloneSetup(m0, free0, src, root)
      && Cloning(m0, free0, mem, pmm.FreeFrames(), src, root, done)
    }

    lemma {:induction false} CloneStateParts(m0: Memory, free0: set<nat>, src: Frame, root: Frame, done: iset<Path>)
      requires Valid()
      ensures CloneState(m0, free0, src, root, done) <==>
                && Ready(root) && CloneSetup(m0, free0, src, root)
                && Cloning(m0, free0, mem, pmm.FreeFrames(), src, root, done)
    {
    }

    lemma {:induction false} CloneStateValid(m0: Memory, free0: set<nat>, src: Frame, root: Frame, done: iset<Path>)
      requires CloneState(m0, free0, src, root, done)
      ensures Valid() && pmm.Valid() && Ready(root)
    {
    }

    lemma {:induction false} ReadyValid(root: Frame)
      requires Ready(root)
      ensures Valid() && pmm.Valid() && this !in pmm.Repr
    {
    }

    /** Copying one page: its address is put together from the static indices, its flags and
        physical address are taken from the entry, and the map fails only if the page was there from
        the start. */
    method CloneLeaf(entry: bv64, root: Frame, level: Level, ghost m0: Memory, ghost free0: set<nat>,
            ghost src: Frame, ghost done: iset<Path>)
      requires CloneState(m0, free0, src, root, done) && level != PML4
      requires LeafAt(m0, src, LeafPath(level, pml4Idx, pdprIdx, pdIdx, ptIdx)) == Some(entry)
      requires LeafPath(level, pml4Idx, pdprIdx, pdIdx, ptIdx) !in done
      modifies this`mem, this`tlb, pmm.Repr
      ensures CloneState(m0, free0, src, root, done + iset{LeafPath(level, pml4Idx, pdprIdx, pdIdx, ptIdx)})
      ensures pmm.Managed() == old(pmm.Managed()) && pmm.Repr == old(pmm.Repr)
      ensures pmm.regions == old(pmm.regions)
      ensures pml4Idx == old(pml4Idx) && pdprIdx == old(pdprIdx) && pdIdx == old(pdIdx) && ptIdx == old(ptIdx)
    {
      hide *;
      CloneStateValid(m0, free0, src, root, done);
      CloneStateParts(m0, free0, src, root, done);
      ReadyValid(root);
      ghost var m, free, slot := mem, pmm.FreeFrames(), LeafPath(level, pml4Idx, pdprIdx, pdIdx, ptIdx);
      LeafVirtSlot(level, pml4Idx, pdprIdx, pdIdx, ptIdx);
      LeafCopy(m0, src, level, pml4Idx, pdprIdx, pdIdx, ptIdx, entry);
      ReadyToCopy(m0, free0, m, free, src, root, done, slot);
      PageSizes(level);
      RegularParts(root, LeafVirt(level, pml4Idx, pdprIdx, pdIdx, ptIdx), SizeOf(level), GetFlags(entry, level, Page));
      var ok := MapPageWithoutTlbInvalidation(root, LeafAddress(entry, level),
        LeafVirt(level, pml4Idx, pdprIdx, pdIdx, ptIdx), SizeOf(level), GetFlags(entry, level, Page));
      ReadyValid(root);
      Copied(ok, m0, free0, m, free, mem, pmm.FreeFrames(), src, root, done, slot, entry);
      CloneStateParts(m0, free0, src, root, done + iset{slot});
    }

    /** Storing the loop index of a level in its static variable. */
    method SetIndex(level: Level, idx: Index, ghost p: Path)
      requires AtPath(p, level)
      modifies `pml4Idx, `pdprIdx, `pdIdx, `ptIdx
      ensures AtPath(p, level)
      ensures level != PT ==> AtPath(Sub(p, idx), NextLevel(level))
      ensures level != PML4 ==> LeafPath(level, pml4Idx, pdprIdx, pdIdx, ptIdx) == Sub(p, idx)
    {
      match level
      case PML4 => pml4Idx := idx;
      case PDPR => pdprIdx := idx;
      case PD => pdIdx := idx;
      case PT => ptIdx := idx;
    }

    lemma {:induction false} AtPathDepth(p: Path, level: Level)
      requires AtPath(p, level)
      ensures Depth(p) == LevelDepth(level)
    {
      assert Depth(Sub(Root, pml4Idx)) == 1;
      assert Depth(Sub(Sub(Root, pml4Idx), pdprIdx)) == 2;
    }

    lemma {:induction false} AtParentPath(p: Path, idx: Index, level: Level)
      requires level != PT && AtPath(Sub(p, idx), NextLevel(level))
      ensures AtPath(p, level)
    {
    }

    /** paging_clone_page_table, once the new root is there: the loop over one table of the source,
        descending into the tables it points to. Whenever it is at a table or a page, the static
        indices are the path to it, whatever the recursion below has stored in the others. */
    method CloneTable(table: Frame, root: Frame, level: Level, ghost m0: Memory, ghost free0: set<nat>,
            ghost src: Frame, ghost done: iset<Path>, ghost p: Path)
      requires CloneState(m0, free0, src, root, done)
      requires TableAt(m0, src, p) == Some(table) && AtPath(p, level)
      requires forall s :: Under(s, p) ==> s !in done
      modifies `mem, `tlb, `pml4Idx, `pdprIdx, `pdIdx, `ptIdx, pmm.Repr
      ensures CloneState(m0, free0, src, root, done + Below(p))
      ensures AtPath(p, level)
      ensures pmm.Managed() == old(pmm.Managed()) && pmm.Repr == old(pmm.Repr)
      ensures pmm.regions == old(pmm.regions)
      decreases 3 - LevelDepth(level), 1
    {
      hide *;
      CloneStateValid(m0, free0, src, root, done);
      ReadyValid(root);
      DoneNothing(done, p);
      var idx := 0;
      while idx < 512
        invariant 0 <= idx <= 512 && AtPath(p, level)
        invariant CloneState(m0, free0, src, root, DoneTo(done, p, idx)) && Valid() && pmm.Valid() && this !in pmm.Repr
        invariant pmm.Managed() == old(pmm.Managed()) && pmm.Repr == old(pmm.Repr)
        invariant pmm.regions == old(pmm.regions)
      {
        CloneEntryOf(table, idx, root, level, m0, free0, src, done, p);
        CloneStateValid(m0, free0, src, root, DoneTo(done, p, idx + 1));
        ReadyValid(root);
        idx := idx + 1;
      }
      CloneStateParts(m0, free0, src, root, DoneTo(done, p, 512));
      CloneTableDone(m0, free0, mem, pmm.FreeFrames(), src, root, done, p);
      CloneStateParts(m0, free0, src, root, done + Below(p));
    }

    /** The body of that loop. */
    method CloneEntryOf(table: Frame, idx: Index, root: Frame, level: Level, ghost m0: Memory, ghost free0: set<nat>,
            ghost src: Frame, ghost done: iset<Path>, ghost p: Path)
      requires CloneState(m0, free0, src, root, DoneTo(done, p, idx))
      requires TableAt(m0, src, p) == Some(table) && AtPath(p, level)
      requires forall s :: Under(s, p) ==> s !in done
      modifies `mem, `tlb, `pml4Idx, `pdprIdx, `pdIdx, `ptIdx, pmm.Repr
      ensures CloneState(m0, free0, src, root, DoneTo(done, p, idx + 1))
      ensures AtPath(p, level)
      ensures pmm.Managed() == old(pmm.Managed()) && pmm.Repr == old(pmm.Repr)
      ensures pmm.regions == old(pmm.regions)
      decreases 3 - LevelDepth(level), 0
    {
      hide *;
      ghost var sofar, slot := DoneTo(done, p, idx), Sub(p, idx);
      CloneStateValid(m0, free0, src, root, sofar);
      CloneStateParts(m0, free0, src, root, sofar);
      ReadyValid(root);
      AtPathDepth(p, level);
      SourceEntry(m0, free0, mem, pmm.FreeFrames(), src, root, sofar, p, table);
      EntryKind(m0, src, p, idx, table, level);
      NextNotDone(done, p, idx);
      ItselfBelow(slot);
      var entry := mem[table][idx];
      if !Present(entry) {
        CloneEntry(m0, free0, mem, pmm.FreeFrames(), src, root, done, p, idx);
        CloneStateParts(m0, free0, src, root, DoneTo(done, p, idx + 1));
        return;
      }
      SetIndex(level, idx, p);
      if level == PT || (level != PML4 && Large(entry)) {
        CloneLeaf(entry, root, level, m0, free0, src, sofar);
        CloneStateValid(m0, free0, src, root, sofar + iset{slot});
        CloneStateParts(m0, free0, src, root, sofar + iset{slot});
        CloneEntry(m0, free0, mem, pmm.FreeFrames(), src, root, done, p, idx);
      } else {
        NextLevelDepth(level);
        CloneTable(Target(entry), root, NextLevel(level), m0, free0, src, sofar, slot);
        AtParentPath(p, idx, level);
        CloneStateValid(m0, free0, src, root, sofar + Below(slot));
        CloneStateParts(m0, free0, src, root, sofar + Below(slot));
        CloneBelow(m0, free0, mem, pmm.FreeFrames(), src, root, done, p, idx);
      }
      ReadyValid(root);
      CloneStateParts(m0, free0, src, root, DoneTo(done, p, idx + 1));
    }

    /** paging_clone_page_table with a root given by the caller. The tree under it may hold pages
        already, as long as the source has the same (see CloneSetup). Afterwards both trees have exactly
        the pages the source had, at the same places and word for word, so every address translates in
        the clone as it does in the source. */
    method ClonePageTable(src: Frame, root: Frame)
      requires Ready(root) && CloneSetup(mem, pmm.FreeFrames(), src, root)
      modifies `mem, `tlb, `pml4Idx, `pdprIdx, `pdIdx, `ptIdx, pmm.Repr
      ensures Ready(root) && pmm.Managed() == old(pmm.Managed()) && pmm.Repr == old(pmm.Repr)
      ensures pmm.regions == old(pmm.regions)
      ensures SameLeaves(mem, root, old(mem), src) && SameLeaves(mem, src, old(mem), src)
      ensures SameTables(mem, src, old(mem), src)
      ensures forall virt ::
                Translation(mem, root, virt) == Translation(old(mem), src, virt) == Translation(mem, src, virt)
      ensures Conserved(old(mem), old(pmm.FreeFrames()), mem, pmm.FreeFrames(), root)
    {
      hide *;
      ReadyValid(root);
      ghost var m0, free0 := mem, pmm.FreeFrames();
      CloneStart(m0, free0, src, root);
      CloneStateParts(m0, free0, src, root, iset{});
      RootTable(m0, src);
      RootPath();
      CloneTable(src, root, PML4, m0, free0, src, iset{}, Root);
      CloneStateValid(m0, free0, src, root, iset{} + Below(Root));
      CloneStateParts(m0, free0, src, root, iset{} + Below(Root));
      CloneComplete(m0, free0, mem, pmm.FreeFrames(), src, root);
      forall virt ensures Translation(mem, root, virt) == Translation(m0, src, virt) == Translation(mem, src, virt) {
        SameLeavesSameWalk(mem, root, m0, src, virt);
        SameLeavesSameWalk(mem, src, m0, src, virt);
      }
    }

    lemma {:induction false} RootPath()
      ensures AtPath(Root, PML4)
    {
    }

    /** What a clone needs when it allocates its root itself. That page is not zeroed, and the
        allocator may hand out any free page, so the free pages must be blank. */
    ghost predicate CanCloneFresh(src: Frame)
      requires Valid()
      reads `mem, `active, `tlb, pmm, pmm.Repr
    {
      && IsTree(mem, src) && Tables(mem, src) !! pmm.FreeFrames()
      && |Tables(mem, src)| <= |pmm.FreeFrames()|
      && Tables(mem, active) !! pmm.FreeFrames() && Coherent(mem)
      && (forall f: Frame :: f in pmm.FreeFrames() ==> Blank(mem[f]))
    }

    /** The first part of paging_clone_page_table: taking a page for the new root. */
    method AllocateRoot(src: Frame) returns (root: Frame)
      requires Valid() && CanCloneFresh(src)
      modifies pmm.Repr
      ensures Valid() && pmm.Managed() == old(pmm.Managed()) && pmm.Repr == old(pmm.Repr)
      ensures pmm.regions == old(pmm.regions)
      ensures root in old(pmm.FreeFrames()) && pmm.FreeFrames() == old(pmm.FreeFrames()) - {root}
      ensures Ready(root) && CloneSetup(mem, pmm.FreeFrames(), src, root) && Tables(mem, root) == {root}
    {
      hide LeafAt, TableAt, P.FreeOf, P.ManagedOf, P.Good, IsTree, Blank, Populated;
      pmm.FreeIsManaged();
      assert src in Tables(mem, src) && active in Tables(mem, active) by {
        RootTable(mem, src);
        RootTable(mem, active);
        assert IsTable(mem, src, src) && IsTable(mem, active, active);
      }
      var address := pmm.Alloc();
      root := address / 4096;
      BlankRoot(mem, root);
    }

    /** paging_clone_page_table with no root given. */
    method ClonePageTableFresh(src: Frame) returns (root: Frame)
      requires Valid() && CanCloneFresh(src)
      modifies `mem, `tlb, `pml4Idx, `pdprIdx, `pdIdx, `ptIdx, pmm.Repr
      ensures Ready(root) && pmm.Managed() == old(pmm.Managed()) && pmm.Repr == old(pmm.Repr)
      ensures pmm.regions == old(pmm.regions)
      ensures SameLeaves(mem, root, old(mem), src) && SameLeaves(mem, src, old(mem), src)
      ensures forall virt ::
                Translation(mem, root, virt) == Translation(old(mem), src, virt) == Translation(mem, src, virt)
      ensures Tables(mem, root) + pmm.FreeFrames() == old(pmm.FreeFrames())
    {
      hide *;
      PmmValid();
      ghost var free := pmm.FreeFrames();
      root := AllocateRoot(src);
      assert {root} + (free - {root}) == free;
      PmmValid();
      ghost var m, rest := mem, pmm.FreeFrames();
      ClonePageTable(src, root);
      ReadyValid(root);
      ConservedFrames(m, rest, mem, pmm.FreeFrames(), root);
    }

    lemma {:induction false} ConservedFrames(m0: Memory, free0: set<nat>, m: Memory, free: set<nat>, root: Frame)
      requires Conserved(m0, free0, m, free, root)
      ensures Tables(m, root) + free == Tables(m0, root) + free0
    {
    }

    /** Loading CR3 with the root of a tree that has the pages of the active one. Even if nothing
        were flushed, every cached translation would be right in the new tree. */
    ghost method LoadCr3(root: Frame)
      requires Coherent(mem) && SameLeaves(mem, root, mem, active)
      modifies `active
      ensures active == root && Coherent(mem)
    {
      active := root;
    }

    /** What the kernel does at start: it clones the active tree and loads CR3 with the clone. From then
        on the clone is the tree to work on, every address translates as before, and whatever was
        cached before the switch is right after it. */
    method CloneAndSwitch(src: Frame) returns (root: Frame)
      requires Valid() && CanCloneFresh(src) && src == active
      modifies `mem, `tlb, `active, `pml4Idx, `pdprIdx, `pdIdx, `ptIdx, pmm.Repr
      ensures active == root && Ready(root) && pmm.Managed() == old(pmm.Managed()) && pmm.Repr == old(pmm.Repr)
      ensures SameLeaves(mem, root, old(mem), src)
      ensures forall virt :: Translation(mem, root, virt) == Translation(old(mem), src, virt)
      ensures Tables(mem, root) + pmm.FreeFrames() == old(pmm.FreeFrames())
    {
      hide *;
      ghost var m0 := mem;
      root := ClonePageTableFresh(src);
      SameAsSource(m0, mem, src, root);
      ReadyParts(root);
      Switch(root);
    }

    ghost method Switch(root: Frame)
      requires Ready(root) && SameLeaves(mem, root, mem, active)
      modifies `active, `tlb
      ensures active == root && Ready(root)
      ensures pmm.FreeFrames() == old(pmm.FreeFrames()) && pmm.Managed() == old(pmm.Managed())
    {
      hide LeafAt, TableAt, Tables, IsTree, Populated, P.FreeOf, P.ManagedOf, P.Good;
      LoadCr3(root);
      Hardware();
    }

    lemma {:induction false} SameAsSource(m0: Memory, m: Memory, src: Frame, root: Frame)
      requires SameLeaves(m, root, m0, src) && SameLeaves(m, src, m0, src)
      ensures SameLeaves(m, root, m, src)
    {
      hide LeafAt;
    }
  }

  lemma {:induction false} SourceEntry(m0: Memory, free0: set<nat>, m: Memory, free: set<nat>, src: Frame,
          new': Frame, done: iset<Path>, p: Path, table: Frame)
    requires CloneSetup(m0, free0, src, new') && Cloning(m0, free0, m, free, src, new', done)
    requires TableAt(m0, src, p) == Some(table)
    ensures m[table] == m0[table]
  {
    hide CloneSetup, Cloning, TableAt;
    SourceKept(m0, free0, m, free, src, new', done);
    assert IsTable(m0, src, table);
  }

  lemma {:induction false} PageSizes(level: Level)
    ensures level != PML4 ==> (SizeOf(level) == Size4KB <==> level == PT)
  {
  }

  lemma {:induction false} FreshLeaf(m0: Memory, free0: set<nat>, m: Memory, free: set<nat>, root: Frame, p: Path,
          phys: bv64, flags: bv64, level: Level)
    requires Mapping(m0, free0, m, free, root, p)
    requires level == (match Depth(p) case 1 => PDPR case 2 => PD case _ => PT) && 0 < Depth(p)
    requires Present(flags) && (level != PT ==> Large(flags))
    ensures IsLeaf(CreateEntry(phys, flags, level, Page), Depth(p))
  {
    hide Present, Large, CreateEntry;
    TableDepth(m, root, p);
    LeafEntry(phys, flags, level);
  }

  lemma {:induction false} FewMissing(m: Memory, root: Frame, virt: bv64, size: PageSize)
    ensures Slot(virt, size).Sub? && Missing(m, root, Slot(virt, size).parent) <= 3
  {
    hide Slot;
    SlotParts(virt, size);
    MissingDepth(m, root, Slot(virt, size).parent);
  }

  function ParentOf(p: Path): Path {
    match p
    case Root => Root
    case Sub(q, _) => q
  }

  /** The frames a map may write at will: those free at first, and frame 0 if they may run out. */
  ghost function ScratchOf(free: set<nat>): set<nat> {
    if |free| >= 3 then free else free + {0}
  }

  lemma {:induction false} ScratchParts(free: set<nat>)
    ensures free <= ScratchOf(free) && (|free| < 3 ==> 0 in ScratchOf(free))
    ensures |free| >= 3 ==> ScratchOf(free) == free
    ensures |free| >= 3 ==> free != {}
    ensures forall free1: set<nat> :: |free1| + 2 >= 3 ==> free1 != {}
  {
  }

  lemma {:induction false} RegularStart(m0: Memory, free0: set<nat>, root: Frame, virt: bv64, size: PageSize)
    requires IsTree(m0, root) && Populated(m0, root) && Tables(m0, root) !! free0
    requires NoLargerPage(m0, root, Slot(virt, size)) && Slot(virt, size).Sub?
    requires Missing(m0, root, Slot(virt, size).parent) <= |free0|
    ensures OnItsWay(m0, free0, m0, free0, root, Root, root, Pml4Index(virt))
  {
    hide Slot, Pml4Index, TableAt, LeafAt, Tables, IsTree, Populated, NoLargerPage, Mapping, Missing, Path1, Under;
    SlotPath(virt, size);
    RootTable(m0, root);
    MappingStart(m0, free0, root);
    OnTheWay(m0, root, Slot(virt, size), Path1(virt));
  }

  lemma {:induction false} RegularOnItsWay2(m0: Memory, free0: set<nat>, m: Memory, free: set<nat>, root: Frame,
          virt: bv64, size: PageSize, pdpr: Frame)
    requires size != Size1GB && NoLargerPage(m0, root, Slot(virt, size)) && Slot(virt, size).Sub?
    requires Missing(m0, root, Slot(virt, size).parent) <= |free0|
    requires Mapping(m0, free0, m, free, root, Path1(virt)) && TableAt(m, root, Path1(virt)) == Some(pdpr)
    ensures OnItsWay(m0, free0, m, free, root, Path1(virt), pdpr, PdprIndex(virt))
  {
    hide Slot, TableAt, LeafAt, NoLargerPage, Mapping, Missing, Path1, Path2, Under, Pml4Index, PdprIndex;
    SlotPath(virt, size);
    OnTheWay(m0, root, Slot(virt, size), Path2(virt));
  }

  lemma {:induction false} RegularOnItsWay3(m0: Memory, free0: set<nat>, m: Memory, free: set<nat>, root: Frame,
          virt: bv64, size: PageSize, pd: Frame)
    requires size == Size4KB && NoLargerPage(m0, root, Slot(virt, size)) && Slot(virt, size).Sub?
    requires Missing(m0, root, Slot(virt, size).parent) <= |free0|
    requires Mapping(m0, free0, m, free, root, Path2(virt)) && TableAt(m, root, Path2(virt)) == Some(pd)
    ensures OnItsWay(m0, free0, m, free, root, Path2(virt), pd, PdIndex(virt))
  {
    hide Slot, TableAt, LeafAt, NoLargerPage, Mapping, Missing, Path2, Path3, Under, PdprIndex, PdIndex;
    SlotPath(virt, size);
    OnTheWay(m0, root, Slot(virt, size), Path3(virt));
  }
}
