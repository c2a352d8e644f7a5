/** What mapping and unmapping a page do to physical memory and to the set of free frames,
    followed table by table (kernel/src/memory/paging.c). */
module PagingSteps {
  import opened Options
  import opened Words
  import opened PageTables
  import opened Processor

  // ---------- Virtual addresses and pages ----------

  function LevelOf(size: PageSize): Level {
    match size
    case Size4KB => PT
    case Size2MB => PD
    case Size1GB => PDPR
  }

  /** The place of the page of the given size that contains a virtual address. */
  function Slot(virt: bv64, size: PageSize): Path {
    var pdpr := Sub(Sub(Root, Pml4Index(virt)), PdprIndex(virt));
    match size
    case Size1GB => pdpr
    case Size2MB => Sub(pdpr, PdIndex(virt))
    case Size4KB => Sub(Sub(pdpr, PdIndex(virt)), PtIndex(virt))
  }

  /** The index of a page in its table. */
  function SlotIndex(virt: bv64, size: PageSize): Index {
    match size
    case Size1GB => PdprIndex(virt)
    case Size2MB => PdIndex(virt)
    case Size4KB => PtIndex(virt)
  }

  /** The tables on the way to a page. */
  function Path1(virt: bv64): Path { Sub(Root, Pml4Index(virt)) }
  function Path2(virt: bv64): Path { Sub(Path1(virt), PdprIndex(virt)) }
  function Path3(virt: bv64): Path { Sub(Path2(virt), PdIndex(virt)) }

  lemma {:induction false} SlotPath(virt: bv64, size: PageSize)
    ensures Path1(virt) == Sub(Root, Pml4Index(virt))
    ensures Path2(virt) == Sub(Path1(virt), PdprIndex(virt))
    ensures Path3(virt) == Sub(Path2(virt), PdIndex(virt))
    ensures Depth(Root) == 0 && Depth(Path1(virt)) == 1 && Depth(Path2(virt)) == 2 && Depth(Path3(virt)) == 3
    ensures Slot(virt, size).Sub?
    ensures var parent := Slot(virt, size).parent;
            && parent == (match size
                          case Size1GB => Path1(virt)
                          case Size2MB => Path2(virt)
                          case Size4KB => Path3(virt))
            && Under(parent, Path1(virt)) && (size != Size1GB ==> Under(parent, Path2(virt)))
            && (size == Size4KB ==> Under(parent, Path3(virt)))
  {
    hide Pml4Index, PdprIndex, PdIndex, PtIndex;
    var p1, p2, p3 := Path1(virt), Path2(virt), Path3(virt);
    assert Under(p1, p1) && Under(p2, p1) && Under(p2, p2) && Under(p3, p2);
  }

  lemma {:induction false} SlotIndexParts(virt: bv64)
    ensures SlotIndex(virt, Size1GB) == PdprIndex(virt) && SlotIndex(virt, Size2MB) == PdIndex(virt)
    ensures SlotIndex(virt, Size4KB) == PtIndex(virt)
  {
  }

  lemma {:induction false} SlotParts(virt: bv64, size: PageSize)
    ensures Slot(virt, size).Sub? && Slot(virt, size) == Sub(Slot(virt, size).parent, SlotIndex(virt, size))
    ensures 0 < Depth(Slot(virt, size).parent) <= 3
    ensures LevelOf(size) == match Depth(Slot(virt, size).parent) case 1 => PDPR case 2 => PD case _ => PT
    ensures LevelOf(size) == PT <==> size == Size4KB
  {
    hide Pml4Index, PdprIndex, PdIndex, PtIndex;
    var p1 := Sub(Root, Pml4Index(virt));
    var p2 := Sub(p1, PdprIndex(virt));
    assert Depth(p1) == 1;
    assert Depth(p2) == 2;
    assert Depth(Sub(p2, PdIndex(virt))) == 3;
  }

  /** What the walk of paging_resolve_virtual_address ends at: the level and word of a leaf. */
  function Walk(m: Memory, root: Frame, virt: bv64): Option<(Level, bv64)> {
    var e4 := m[root][Pml4Index(virt)];
    if !Present(e4) then None else
    var e3 := m[Target(e4)][PdprIndex(virt)];
    if !Present(e3) then None else
    if Large(e3) then Some((PDPR, e3)) else
    var e2 := m[Target(e3)][PdIndex(virt)];
    if !Present(e2) then None else
    if Large(e2) then Some((PD, e2)) else
    var e1 := m[Target(e2)][PtIndex(virt)];
    if !Present(e1) then None else Some((PT, e1))
  }

  /** The page that contains an address, looked up among the pages of the tree. */
  ghost function PageOf(m: Memory, root: Frame, virt: bv64): Option<(Level, bv64)> {
    if LeafAt(m, root, Slot(virt, Size1GB)).Some? then Some((PDPR, LeafAt(m, root, Slot(virt, Size1GB)).value))
    else if LeafAt(m, root, Slot(virt, Size2MB)).Some? then Some((PD, LeafAt(m, root, Slot(virt, Size2MB)).value))
    else if LeafAt(m, root, Slot(virt, Size4KB)).Some? then Some((PT, LeafAt(m, root, Slot(virt, Size4KB)).value))
    else None
  }

  /** The walk is the translation of the processor. */
  lemma {:induction false} WalkIsTranslation(m: Memory, root: Frame, virt: bv64)
    ensures Walk(m, root, virt) == Translation(m, root, virt)
  {
    hide Present, Large, Target, Pml4Index, PdprIndex, PdIndex, PtIndex, Bits;
    Indices(virt);
    var e4 := m[root][Pml4Index(virt)];
    Entries(e4);
    var e3 := m[Target(e4)][PdprIndex(virt)];
    Entries(e3);
    var e2 := m[Target(e3)][PdIndex(virt)];
    Entries(e2);
    var e1 := m[Target(e2)][PtIndex(virt)];
    Entries(e1);
  }

  /** Two addresses lie in the same page of a size exactly if they have the same place. */
  lemma {:induction false} SlotIsPage(u: bv64, v: bv64, size: PageSize)
    ensures Slot(u, size) == Slot(v, size) <==> PageNumber(u, LevelOf(size)) == PageNumber(v, LevelOf(size))
  {
    hide Pml4Index, PdprIndex, PdIndex, PtIndex, PageNumber;
    PageNumbers(u);
    PageNumbers(v);
    SameDigits(Pml4Index(u), PdprIndex(u), Pml4Index(v), PdprIndex(v));
    SameDigits(Pml4Index(u) * 512 + PdprIndex(u), PdIndex(u), Pml4Index(v) * 512 + PdprIndex(v), PdIndex(v));
    SameDigits((Pml4Index(u) * 512 + PdprIndex(u)) * 512 + PdIndex(u), PtIndex(u),
               (Pml4Index(v) * 512 + PdprIndex(v)) * 512 + PdIndex(v), PtIndex(v));
  }

  lemma {:induction false} SameDigits(a: nat, i: Index, b: nat, j: Index)
    ensures a * 512 + i == b * 512 + j <==> a == b && i == j
  {
  }


  /** The walk finds the page that contains the address; at most one does. So trees with
      the same pages translate alike, whatever frames their tables lie in. */
  lemma {:induction false} WalkFindsPage(m: Memory, root: Frame, virt: bv64)
    ensures Walk(m, root, virt) == Translation(m, root, virt) == PageOf(m, root, virt)
    ensures forall size, size' :: LeafAt(m, root, Slot(virt, size)).Some? && LeafAt(m, root, Slot(virt, size')).Some?
                                  ==> size == size'
  {
    hide Present, Large, Target, Pml4Index, PdprIndex, PdIndex, PtIndex, Translation;
    WalkIsTranslation(m, root, virt);
    var p1 := Sub(Root, Pml4Index(virt));
    var p2 := Sub(p1, PdprIndex(virt));
    var p3 := Sub(p2, PdIndex(virt));
    assert TableAt(m, root, Root) == Some(root);
    assert Depth(Root) == 0 && Depth(p1) == 1;
    assert Depth(p2) == 2;
    assert Depth(p3) == 3;
    var t1, t2, t3 := TableAt(m, root, p1), TableAt(m, root, p2), TableAt(m, root, p3);
  }

  lemma {:induction false} SameLeavesSameWalk(m: Memory, root: Frame, m': Memory, root': Frame, virt: bv64)
    requires SameLeaves(m, root, m', root')
    ensures Translation(m, root, virt) == Translation(m', root', virt)
  {
    hide Walk, Translation, Slot;
    WalkFindsPage(m, root, virt);
    WalkFindsPage(m', root', virt);
  }

  // ---------- Two trees in one memory ----------

  /** The tree under `other` is the one under `root`, or has no table in common with it and
      holds no free frame. */
  ghost predicate Apart(m: Memory, free: set<nat>, root: Frame, other: Frame) {
    other == root || Tables(m, other) !! Tables(m, root) + free
  }

  /** Frames that are neither tables of the tree nor free keep their contents. */
  ghost predicate OthersKept(m: Memory, free: set<nat>, root: Frame, m': Memory) {
    forall f: Frame :: f !in Tables(m, root) && f !in free ==> m'[f] == m[f]
  }

  /** So a tree apart from the one that is worked on keeps its tables and pages. */
  lemma {:induction false} ApartKept(m0: Memory, free0: set<nat>, m: Memory, root: Frame, other: Frame)
    requires Apart(m0, free0, root, other) && other != root && OthersKept(m0, free0, root, m)
    ensures SameLeaves(m, other, m0, other) && SameTables(m, other, m0, other) && Tables(m, other) == Tables(m0, other)
  {
    assert forall f: Frame :: IsTable(m0, other, f) ==> f in Tables(m0, other);
    WriteElsewhere(m0, m, other);
  }

  // ---------- Writes that take nothing away ----------

  /** Outside some scratch frames every present word is as it was. */
  ghost predicate Overlaid(m0: Memory, scratch: set<nat>, m: Memory) {
    forall f: Frame, i: Index :: f !in scratch && Present(m0[f][i]) ==> m[f][i] == m0[f][i]
  }

  lemma {:induction false} OverlaidWrite(m0: Memory, scratch: set<nat>, m: Memory, f: Frame, i: Index, w: bv64)
    requires Overlaid(m0, scratch, m) && !Present(m[f][i])
    ensures Overlaid(m0, scratch, Put(m, f, i, w))
  {
    hide Present;
  }

  lemma {:induction false} OverlaidScratch(m0: Memory, scratch: set<nat>, m: Memory, f: Frame, t: Table)
    requires Overlaid(m0, scratch, m) && f in scratch
    ensures Overlaid(m0, scratch, m[f := t])
  {
    hide Present;
  }

  lemma {:induction false} OverlaidStart(m: Memory, scratch: set<nat>)
    ensures Overlaid(m, scratch, m)
  {
    hide Present;
  }

  lemma {:induction false} OverlaidTwice(m0: Memory, scratch: set<nat>, m1: Memory, scratch': set<nat>, m: Memory)
    requires Overlaid(m0, scratch, m1) && Overlaid(m1, scratch', m) && scratch' <= scratch
    ensures Overlaid(m0, scratch, m)
  {
    hide Present;
  }

  lemma {:induction false} TablesStay(m0: Memory, scratch: set<nat>, m: Memory, root: Frame, p: Path)
    requires Overlaid(m0, scratch, m) && Tables(m0, root) !! scratch
    ensures TableAt(m0, root, p).Some? ==> TableAt(m, root, p) == TableAt(m0, root, p)
  {
    hide Present, Large, Target;
    if p != Root && TableAt(m0, root, p).Some? {
      TablesStay(m0, scratch, m, root, p.parent);
      InTables(m0, root, p.parent);
      assert Present(m0[TableAt(m0, root, p.parent).value][p.idx]);
    }
  }

  /** So a tree whose tables are no scratch frames keeps every page, word for word. */
  lemma {:induction false} PagesStay(m0: Memory, scratch: set<nat>, m: Memory, root: Frame, s: Path)
    requires Overlaid(m0, scratch, m) && Tables(m0, root) !! scratch
    ensures LeafAt(m0, root, s).Some? ==> LeafAt(m, root, s) == LeafAt(m0, root, s)
  {
    hide Present, Large, Target;
    if s != Root && LeafAt(m0, root, s).Some? {
      TablesStay(m0, scratch, m, root, s.parent);
      InTables(m0, root, s.parent);
      assert Present(m0[TableAt(m0, root, s.parent).value][s.idx]);
    }
  }

  // ---------- Mapping a page ----------

  /** Every table but the root and the one at x holds a present entry. */
  ghost predicate PopulatedBut(m: Memory, root: Frame, x: Path) {
    forall p :: p != Root && p != x && TableAt(m, root, p).Some? ==> !Blank(m[TableAt(m, root, p).value])
  }

  /** How many of the tables on the way to p, p included, are missing. */
  ghost function Missing(m: Memory, root: Frame, p: Path): nat {
    match p
    case Root => 0
    case Sub(q, _) => Missing(m, root, q) + if TableAt(m, root, p).None? then 1 else 0
  }

  /** Frames that stay free keep their contents, and frames that become free are blank. */
  ghost predicate FreeKept(m: Memory, free: set<nat>, m': Memory, free': set<nat>) {
    forall f: Frame :: f in free' ==> if f in free then m'[f] == m[f] else Blank(m'[f])
  }

  /** Tables and free frames stay apart, and no frame is lost or gained. */
  ghost predicate Conserved(m: Memory, free: set<nat>, m': Memory, free': set<nat>, root: Frame) {
    && Tables(m', root) !! free'
    && Tables(m', root) + free' == Tables(m, root) + free
  }

  /** A map on its way down: it stands at the table at p, and all it has done to the tree so far
      is to add missing tables on the way there, of which only the last is still blank. */
  ghost predicate MappingTree(m0: Memory, m: Memory, root: Frame, p: Path) {
    && IsTree(m, root) && SameLeaves(m, root, m0, root) && PopulatedBut(m, root, p)
    && TableAt(m, root, p).Some?
    && (forall q :: TableAt(m0, root, q).Some? ==> TableAt(m, root, q) == TableAt(m0, root, q))
    && (forall q :: TableAt(m, root, q).Some? && TableAt(m0, root, q).None? ==> Under(p, q))
    && (TableAt(m0, root, p).None? ==> Blank(m[TableAt(m, root, p).value]))
  }

  /** Meanwhile it has used one free frame for each table that was missing, and touched no
      frame that was neither a table nor free. */
  ghost predicate MappingFrames(m0: Memory, free0: set<nat>, m: Memory, free: set<nat>, root: Frame, p: Path) {
    && Conserved(m0, free0, m, free, root) && free <= free0
    && |free| + Missing(m0, root, p) == |free0|
    && OthersKept(m0, free0, root, m) && FreeKept(m0, free0, m, free)
    && (TableAt(m0, root, p).Some? ==> m == m0 && free == free0)
  }

  ghost predicate Mapping(m0: Memory, free0: set<nat>, m: Memory, free: set<nat>, root: Frame, p: Path) {
    MappingTree(m0, m, root, p) && MappingFrames(m0, free0, m, free, root, p)
  }

  lemma {:induction false} MappingStart(m: Memory, free: set<nat>, root: Frame)
    requires IsTree(m, root) && Populated(m, root) && Tables(m, root) !! free
    ensures Mapping(m, free, m, free, root, Root)
  {
  }

  /** Following an entry that is there already. */
  lemma {:induction false} MappingDown(m0: Memory, free0: set<nat>, m: Memory, free: set<nat>, root: Frame, p: Path,
          i: Index)
    requires Mapping(m0, free0, m, free, root, p) && TableAt(m, root, Sub(p, i)).Some?
    ensures Mapping(m0, free0, m, free, root, Sub(p, i))
  {
    hide Present, Large, Target;
    assert Present(m[TableAt(m, root, p).value][i]);
    assert m == m0;
  }

  /** The memory after a frame is zeroed and hooked into an empty entry of the table at p. */
  ghost function Added(m: Memory, root: Frame, p: Path, i: Index, n: Frame, w: bv64): Memory
    requires TableAt(m, root, p).Some?
  {
    Put(m[n := ZeroTable()], TableAt(m, root, p).value, i, w)
  }

  lemma {:induction false} AddTable(m: Memory, root: Frame, p: Path, i: Index, n: Frame, w: bv64)
    requires IsTree(m, root) && TableAt(m, root, p).Some? && !IsTable(m, root, n)
    requires !Present(m[TableAt(m, root, p).value][i]) && IsPointer(w, Depth(p)) && Target(w) == n
    ensures var m' := Added(m, root, p, i, n, w);
            && (forall q :: TableAt(m', root, q) == if q == Sub(p, i) then Some(n) else TableAt(m, root, q))
            && Tables(m', root) == Tables(m, root) + {n}
            && IsTree(m', root) && SameLeaves(m', root, m, root)
            && Blank(m'[n]) && Present(m'[TableAt(m, root, p).value][i])
            && (forall g: Frame :: g != n && g != TableAt(m, root, p).value ==> m'[g] == m[g])
  {
    var f := TableAt(m, root, p).value;
    var m1 := m[n := ZeroTable()];
    assert Blank(ZeroTable());
    hide Present, Large, Target;
    assert IsTable(m, root, f);
    WriteElsewhere(m, m1, root);
    LinkTable(m1, root, p, i, w);
  }

  lemma {:induction false} AddedPopulated(m: Memory, root: Frame, p: Path, i: Index, n: Frame, w: bv64)
    requires IsTree(m, root) && TableAt(m, root, p).Some? && !IsTable(m, root, n)
    requires !Present(m[TableAt(m, root, p).value][i]) && IsPointer(w, Depth(p)) && Target(w) == n
    requires PopulatedBut(m, root, p)
    ensures PopulatedBut(Added(m, root, p, i, n, w), root, Sub(p, i))
  {
    var f := TableAt(m, root, p).value;
    var m' := Added(m, root, p, i, n, w);
    AddTable(m, root, p, i, n, w);
    hide Present, Large, Target, Added;
    forall q | q != Root && q != Sub(p, i) && TableAt(m', root, q).Some?
      ensures !Blank(m'[TableAt(m', root, q).value])
    {
      assert TableAt(m', root, q) == TableAt(m, root, q);
      assert q != p ==> TableAt(m, root, q).value != f;
      assert IsTable(m, root, TableAt(m, root, q).value);
    }
  }

  /** Adding a table: a free frame is zeroed and hooked into an empty entry. */
  lemma {:induction false} MappingLink(m0: Memory, free0: set<nat>, m: Memory, free: set<nat>, root: Frame, p: Path,
          i: Index, n: Frame, w: bv64)
    requires Mapping(m0, free0, m, free, root, p)
    requires !Present(m[TableAt(m, root, p).value][i])
    requires n in free && IsPointer(w, Depth(p)) && Target(w) == n
    ensures var m' := Added(m, root, p, i, n, w);
            && Mapping(m0, free0, m', free - {n}, root, Sub(p, i))
            && TableAt(m', root, Sub(p, i)) == Some(n)
  {
    NothingHere(m0, free0, m, free, root, p, i);
    assert !IsTable(m, root, n) && TableAt(m, root, p).value in Tables(m, root) by {
      assert IsTable(m, root, n) ==> n in Tables(m, root);
      assert IsTable(m, root, TableAt(m, root, p).value);
    }
    MappingLinkTree(m0, m, root, p, i, n, w);
    AddTable(m, root, p, i, n, w);
    MappingLinkFrames(m0, free0, m, free, Added(m, root, p, i, n, w), root, p, i, n, TableAt(m, root, p).value);
  }

  lemma {:induction false} MappingLinkFrames(m0: Memory, free0: set<nat>, m: Memory, free: set<nat>, m': Memory,
          root: Frame, p: Path, i: Index, n: Frame, f: Frame)
    requires MappingFrames(m0, free0, m, free, root, p) && TableAt(m0, root, Sub(p, i)).None?
    requires n in free && f in Tables(m, root) && Tables(m', root) == Tables(m, root) + {n}
    requires forall g: Frame :: g != n && g != f ==> m'[g] == m[g]
    ensures MappingFrames(m0, free0, m', free - {n}, root, Sub(p, i))
  {
    hide TableAt, Tables;
    assert Missing(m0, root, Sub(p, i)) == Missing(m0, root, p) + 1;
    forall g: Frame | g !in Tables(m0, root) && g !in free0 ensures m'[g] == m0[g] {
      assert f in Tables(m0, root) + free0 && n in free0;
    }
  }

  lemma {:induction false} MappingLinkTree(m0: Memory, m: Memory, root: Frame, p: Path, i: Index, n: Frame, w: bv64)
    requires MappingTree(m0, m, root, p) && !IsTable(m, root, n)
    requires TableAt(m0, root, Sub(p, i)).None? && TableAt(m, root, Sub(p, i)).None?
    requires !Present(m[TableAt(m, root, p).value][i])
    requires IsPointer(w, Depth(p)) && Target(w) == n
    ensures MappingTree(m0, Added(m, root, p, i, n, w), root, Sub(p, i))
  {
    AddTable(m, root, p, i, n, w);
    AddedPopulated(m, root, p, i, n, w);
    hide Present, Large, Target, Added, Tables, TableAt, LeafAt, IsTree, PopulatedBut;
  }

  lemma {:induction false} NothingHere(m0: Memory, free0: set<nat>, m: Memory, free: set<nat>, root: Frame, p: Path,
          i: Index)
    requires Mapping(m0, free0, m, free, root, p) && !Present(m[TableAt(m, root, p).value][i])
    ensures TableAt(m, root, Sub(p, i)).None? && TableAt(m0, root, Sub(p, i)).None?
  {
    hide Present, Large, Target, Tables, IsTree, PopulatedBut;
    assert TableAt(m, root, Sub(p, i)).None?;
  }

  /** What a successful map does: one page is added, nothing else translates differently, no
      table moves, and frames are conserved. */
  ghost predicate Mapped(m0: Memory, free0: set<nat>, m: Memory, free: set<nat>, root: Frame, slot: Path, w: bv64) {
    && IsTree(m, root) && Populated(m, root)
    && (forall s :: LeafAt(m, root, s) == if s == slot then Some(w) else LeafAt(m0, root, s))
    && (forall q :: TableAt(m0, root, q).Some? ==> TableAt(m, root, q) == TableAt(m0, root, q))
    && Conserved(m0, free0, m, free, root) && free <= free0 && |free0| <= |free| + 3
    && OthersKept(m0, free0, root, m) && FreeKept(m0, free0, m, free)
  }

  /** The last step of a map: the leaf goes into an empty entry of the last table. */
  lemma {:induction false} MappingPlace(m0: Memory, free0: set<nat>, m: Memory, free: set<nat>, root: Frame, p: Path,
          i: Index, w: bv64)
    requires Mapping(m0, free0, m, free, root, p)
    requires !Present(m[TableAt(m, root, p).value][i]) && IsLeaf(w, Depth(p))
    ensures Mapped(m0, free0, Put(m, TableAt(m, root, p).value, i, w), free, root, Sub(p, i), w)
  {
    hide TableAt, LeafAt, Tables, IsTree, IsTable, IsLeaf, PopulatedBut, Populated, Present, Blank, Missing;
    var f := TableAt(m, root, p).value;
    InTables(m, root, p);
    TableDepth(m, root, p);
    MissingDepth(m0, root, p);
    LeafPlaced(m, root, p, i, w);
    MappingFramesPut(m0, free0, m, free, Put(m, f, i, w), root, p, f);
  }

  lemma {:induction false} MissingDepth(m: Memory, root: Frame, p: Path)
    ensures Missing(m, root, p) <= Depth(p)
  {
    if p != Root {
      MissingDepth(m, root, p.parent);
    }
  }

  lemma {:induction false} LeafPlaced(m: Memory, root: Frame, p: Path, i: Index, w: bv64)
    requires IsTree(m, root) && PopulatedBut(m, root, p) && TableAt(m, root, p).Some?
    requires !Present(m[TableAt(m, root, p).value][i]) && IsLeaf(w, Depth(p))
    ensures var m' := Put(m, TableAt(m, root, p).value, i, w);
            && IsTree(m', root) && Populated(m', root)
            && SameTables(m', root, m, root) && Tables(m', root) == Tables(m, root)
            && forall s :: LeafAt(m', root, s) == if s == Sub(p, i) then Some(w) else LeafAt(m, root, s)
  {
    var f := TableAt(m, root, p).value;
    assert Present(w) && !IsPointer(m[f][i], Depth(p)) && !IsPointer(w, Depth(p));
    hide Present, Large, Target, TableAt, LeafAt, Tables, IsTree, IsTable, IsLeaf, IsPointer, PopulatedBut, Populated;
    WriteLeaf(m, root, p, i, w);
    WrittenPopulated(m, Put(m, f, i, w), root, p, f, i);
  }

  lemma {:induction false} MappingFramesPut(m0: Memory, free0: set<nat>, m: Memory, free: set<nat>, m': Memory,
          root: Frame, p: Path, f: Frame)
    requires MappingFrames(m0, free0, m, free, root, p) && f in Tables(m, root) && Tables(m', root) == Tables(m, root)
    requires forall g: Frame :: g != f ==> m'[g] == m[g]
    ensures Conserved(m0, free0, m', free, root) && free <= free0
    ensures OthersKept(m0, free0, root, m') && FreeKept(m0, free0, m', free)
  {
    hide Tables, TableAt, Blank;
    forall g: Frame | g !in Tables(m0, root) && g !in free0 ensures m'[g] == m0[g] {
      assert f in Tables(m0, root) + free0;
    }
  }

  lemma {:induction false} WrittenPopulated(m: Memory, m': Memory, root: Frame, p: Path, f: Frame, i: Index)
    requires PopulatedBut(m, root, p) && SameTables(m', root, m, root)
    requires TableAt(m, root, p) == Some(f) && IsTree(m, root)
    requires Present(m'[f][i]) && forall g: Frame :: g != f ==> m'[g] == m[g]
    ensures Populated(m', root)
  {
    hide Present, Large, Target;
    forall q | q != Root && TableAt(m', root, q).Some? ensures !Blank(m'[TableAt(m', root, q).value]) {
      assert TableAt(m', root, q) == TableAt(m, root, q);
    }
  }

  /** If the entry is in use after all, the map has not done anything yet. */
  lemma {:induction false} MappingInUse(m0: Memory, free0: set<nat>, m: Memory, free: set<nat>, root: Frame, p: Path,
          i: Index)
    requires Mapping(m0, free0, m, free, root, p) && 0 < Depth(p)
    ensures var used := Present(m[TableAt(m, root, p).value][i]);
            && (used <==> LeafAt(m0, root, Sub(p, i)).Some? || TableAt(m0, root, Sub(p, i)).Some?)
            && (used ==> m == m0 && free == free0)
  {
    hide Present, Large, Target;
    TableDepth(m, root, p);
    if Present(m[TableAt(m, root, p).value][i]) {
      assert m == m0;
    } else {
      assert LeafAt(m, root, Sub(p, i)) == LeafAt(m0, root, Sub(p, i));
    }
  }

  // ---------- Unmapping a page ----------

  /** An unmap on its way up: the page is gone, and of the tables on the way to it those below p
      that had become empty; the one at p may be empty now. */
  ghost predicate UnmappingTree(m0: Memory, m: Memory, root: Frame, slot: Path, p: Path) {
    && IsTree(m, root) && PopulatedBut(m, root, p)
    && TableAt(m, root, p).Some?
    && (forall s :: LeafAt(m, root, s) == if s == slot then None else LeafAt(m0, root, s))
    && (forall q :: TableAt(m, root, q).Some? ==> TableAt(m, root, q) == TableAt(m0, root, q))
  }

  ghost predicate UnmappingFrames(m0: Memory, free0: set<nat>, m: Memory, free: set<nat>, root: Frame) {
    && Conserved(m0, free0, m, free, root) && free0 <= free
    && OthersKept(m0, free0, root, m) && FreeKept(m0, free0, m, free)
  }

  ghost predicate Unmapping(m0: Memory, free0: set<nat>, m: Memory, free: set<nat>, root: Frame, slot: Path, p: Path) {
    UnmappingTree(m0, m, root, slot, p) && UnmappingFrames(m0, free0, m, free, root)
  }

  /** What a successful unmap does: one page is gone, nothing else translates differently, the
      tables that remain have not moved and are not empty, and frames are conserved. */
  ghost predicate Unmapped(m0: Memory, free0: set<nat>, m: Memory, free: set<nat>, root: Frame, slot: Path) {
    Unmapping(m0, free0, m, free, root, slot, Root)
  }

  lemma {:induction false} UnmappingStart(m: Memory, free: set<nat>, root: Frame, p: Path, i: Index, w: bv64)
    requires IsTree(m, root) && Populated(m, root) && Tables(m, root) !! free
    requires TableAt(m, root, p).Some? && TableAt(m, root, Sub(p, i)).None? && !Present(w)
    ensures Unmapping(m, free, Put(m, TableAt(m, root, p).value, i, w), free, root, Sub(p, i), p)
    ensures SameTables(Put(m, TableAt(m, root, p).value, i, w), root, m, root)
  {
    var f := TableAt(m, root, p).value;
    var m' := Put(m, f, i, w);
    assert f in Tables(m, root) by {
      assert IsTable(m, root, f);
    }
    hide Present, Large, Target;
    WriteLeaf(m, root, p, i, w);
    hide TableAt, LeafAt, Tables, IsTree, IsTable;
    ClearedPopulated(m, m', root, p, f);
  }

  lemma {:induction false} ClearedPopulated(m: Memory, m': Memory, root: Frame, p: Path, f: Frame)
    requires Populated(m, root) && TableAt(m, root, p) == Some(f) && IsTree(m, root)
    requires forall q :: TableAt(m', root, q).Some? ==> TableAt(m', root, q) == TableAt(m, root, q)
    requires forall g: Frame :: g != f ==> m'[g] == m[g]
    ensures PopulatedBut(m', root, p)
  {
    hide Present, TableAt;
    forall q | q != Root && q != p && TableAt(m', root, q).Some? ensures !Blank(m'[TableAt(m', root, q).value]) {
      assert TableAt(m', root, q) == TableAt(m, root, q);
    }
  }

  /** A table that still holds a present entry stays. */
  lemma {:induction false} UnmappingKeep(m0: Memory, free0: set<nat>, m: Memory, free: set<nat>, root: Frame,
          slot: Path, p: Path, i: Index)
    requires Unmapping(m0, free0, m, free, root, slot, Sub(p, i))
    requires !Blank(m[TableAt(m, root, Sub(p, i)).value])
    ensures Unmapping(m0, free0, m, free, root, slot, p)
  {
  }

  /** A table that became empty is unhooked from its parent and its frame becomes free. */
  lemma {:induction false} UnmappingFree(m0: Memory, free0: set<nat>, m: Memory, free: set<nat>, root: Frame,
          slot: Path, p: Path, i: Index, n: Frame, w: bv64)
    requires Unmapping(m0, free0, m, free, root, slot, Sub(p, i)) && !Present(w)
    requires TableAt(m, root, Sub(p, i)) == Some(n) && Blank(m[n])
    ensures Unmapping(m0, free0, Put(m, TableAt(m, root, p).value, i, w), free + {n}, root, slot, p)
    ensures n !in free
  {
    var f := TableAt(m, root, p).value;
    var m' := Put(m, f, i, w);
    assert f in Tables(m, root) && n in Tables(m, root) by {
      assert IsTable(m, root, f) && IsTable(m, root, n);
    }
    UnmappingFreeTree(m0, m, root, slot, p, i, n, w);
    hide Present, Large, Target;
    UnlinkTable(m, root, p, i, w);
    hide TableAt, LeafAt, Tables, IsTree, IsTable;
    UnmappingFreeFrames(m0, free0, m, free, m', root, n, f);
  }

  lemma {:induction false} UnmappingFreeTree(m0: Memory, m: Memory, root: Frame, slot: Path, p: Path, i: Index,
          n: Frame, w: bv64)
    requires UnmappingTree(m0, m, root, slot, Sub(p, i)) && !Present(w)
    requires TableAt(m, root, Sub(p, i)) == Some(n) && Blank(m[n])
    ensures UnmappingTree(m0, Put(m, TableAt(m, root, p).value, i, w), root, slot, p)
  {
    hide Present, Large, Target, Blank, LeafAt, Tables, IsTable, IsTree;
    assert TableAt(m, root, p).Some?;
    hide TableAt;
    UnlinkTable(m, root, p, i, w);
    UnlinkedPopulated(m, root, p, i, w);
  }

  lemma {:induction false} UnlinkedPopulated(m: Memory, root: Frame, p: Path, i: Index, w: bv64)
    requires IsTree(m, root) && PopulatedBut(m, root, Sub(p, i)) && TableAt(m, root, p).Some?
    requires TableAt(m, root, Sub(p, i)).Some? && Blank(m[TableAt(m, root, Sub(p, i)).value]) && !Present(w)
    ensures PopulatedBut(Put(m, TableAt(m, root, p).value, i, w), root, p)
  {
    hide Present, Large, Target, Blank, Tables, TableAt;
    var m' := Put(m, TableAt(m, root, p).value, i, w);
    UnlinkTable(m, root, p, i, w);
    forall q | q != Root && q != p && TableAt(m', root, q).Some? ensures !Blank(m'[TableAt(m', root, q).value]) {
      assert TableAt(m', root, q) == TableAt(m, root, q) && q != Sub(p, i);
    }
  }

  lemma {:induction false} UnmappingFreeFrames(m0: Memory, free0: set<nat>, m: Memory, free: set<nat>, m': Memory,
          root: Frame, n: Frame, f: Frame)
    requires UnmappingFrames(m0, free0, m, free, root)
    requires n in Tables(m, root) && f in Tables(m, root) && Tables(m', root) == Tables(m, root) - {n}
    requires f != n && Blank(m[n]) && forall g: Frame :: g != f ==> m'[g] == m[g]
    ensures UnmappingFrames(m0, free0, m', free + {n}, root)
  {
    hide Tables;
    forall g: Frame | g !in Tables(m0, root) && g !in free0 ensures m'[g] == m0[g] {
      assert f in Tables(m0, root) + free0;
    }
  }

  lemma {:induction false} MappingOthers(m0: Memory, free0: set<nat>, m: Memory, free: set<nat>, root: Frame,
          p: Path, other: Frame)
    requires Mapping(m0, free0, m, free, root, p) && Apart(m0, free0, root, other)
    ensures SameLeaves(m, other, m0, other)
  {
    if other != root {
      ApartKept(m0, free0, m, root, other);
    }
  }

  /** No larger page lies on the way to a place. */
  ghost predicate NoLargerPage(m: Memory, root: Frame, slot: Path) {
    forall a :: Under(slot, a) && a != slot ==> LeafAt(m, root, a).None?
  }

  lemma {:induction false} MissingMonotone(m: Memory, root: Frame, q: Path, p: Path)
    requires Under(q, p)
    ensures Missing(m, root, p) <= Missing(m, root, q)
  {
    if q != p {
      MissingMonotone(m, root, q.parent, p);
    }
  }

  /** What a map comes to: it fails exactly when the place is in use by a page or a table, and
      then nothing has changed. */
  ghost predicate MapOutcome(ok: bool, m0: Memory, free0: set<nat>, m: Memory, free: set<nat>, root: Frame,
          slot: Path, w: bv64) {
    && (ok <==> LeafAt(m0, root, slot).None? && TableAt(m0, root, slot).None?)
    && (ok ==> Mapped(m0, free0, m, free, root, slot, w))
    && (!ok ==> m == m0 && free == free0)
  }

  /** The places on the way to a page: no page lies there, and not more tables are missing up
      to there than in all. */
  lemma {:induction false} OnTheWay(m: Memory, root: Frame, slot: Path, a: Path)
    requires NoLargerPage(m, root, slot) && slot != Root && Under(slot.parent, a)
    ensures LeafAt(m, root, a).None? && Missing(m, root, a) <= Missing(m, root, slot.parent)
  {
    UnderDepth(slot.parent, a);
    MissingMonotone(m, root, slot.parent, a);
  }

  lemma {:induction false} MapOutcomeApart(ok: bool, m0: Memory, free0: set<nat>, m: Memory, free: set<nat>,
          root: Frame, slot: Path, w: bv64, other: Frame)
    requires MapOutcome(ok, m0, free0, m, free, root, slot, w) && Apart(m0, free0, root, other)
    ensures Apart(m, free, root, other)
    ensures Tables(m, root) <= Tables(m0, root) + free0
  {
    if other != root && ok {
      ApartKept(m0, free0, m, root, other);
    }
    hide Tables, TableAt, LeafAt;
  }

  // ---------- One level of the way down ----------

  function TablePointer(f: Frame, level: Level): bv64 {
    CreateEntry(FrameAddress(f), FLAG_PRESENT | FLAG_WRITABLE, level, Pointer)
  }

  /** What the code does at one level: it follows a present entry as a pointer, or takes a frame, zeroes
      it and hooks it in. If no frame is free it takes frame 0. */
  ghost predicate WentDown(m: Memory, free: set<nat>, table: Frame, idx: Index, level: Level, m': Memory,
          free': set<nat>, next: Frame) {
    if Present(m[table][idx]) then m' == m && free' == free && next == Target(m[table][idx])
    else
      && (if free == {} then next == 0 else next in free) && free' == free - {next}
      && m' == Put(m[next := ZeroTable()], table, idx, TablePointer(next, level))
  }

  lemma {:induction false} WentDownPresent(m: Memory, free: set<nat>, table: Frame, idx: Index, level: Level,
          m': Memory, free': set<nat>, next: Frame)
    requires WentDown(m, free, table, idx, level, m', free', next) && Present(m[table][idx])
    ensures m' == m && free' == free && next == Target(m[table][idx])
  {
    hide Present, Target;
  }

  /** The entry of a new table has bits 0 and 1 set and names its frame. */
  lemma {:induction false} NewPointer(m: Memory, free: set<nat>, table: Frame, idx: Index, level: Level, m': Memory,
          free': set<nat>, next: Frame)
    requires WentDown(m, free, table, idx, level, m', free', next)
    ensures if Present(m[table][idx]) then m' == m else m'[table][idx] as nat == 4096 * next + 3
  {
    hide Present, Target, CreateEntry, FrameAddress;
    Pointers(next, level);
  }

  /** When no frame is left and an entry is absent, frame 0 is zeroed and hooked in as a table. */
  lemma {:induction false} OutOfFramesGoesUnnoticed(m: Memory, table: Frame, idx: Index, level: Level, m': Memory,
          free': set<nat>, next: Frame)
    requires WentDown(m, {}, table, idx, level, m', free', next) && !Present(m[table][idx])
    ensures next == 0 && Present(m'[table][idx]) && Target(m'[table][idx]) == 0
    ensures table != 0 ==> m'[0] == ZeroTable()
  {
    TablePointerIs(0, level, 0);
    hide Target, TablePointer, ZeroTable;
  }

  lemma {:induction false} OverlaidDown(m0: Memory, scratch: set<nat>, m: Memory, free: set<nat>, table: Frame,
          idx: Index, level: Level, m': Memory, free': set<nat>, next: Frame)
    requires Overlaid(m0, scratch, m) && free <= scratch && (0 in scratch || free != {})
    requires WentDown(m, free, table, idx, level, m', free', next)
    ensures Overlaid(m0, scratch, m') && free' <= free && |free| <= |free'| + 1
  {
    hide Overlaid, Target, TablePointer;
    if !Present(m[table][idx]) {
      assert !Present(ZeroTable()[idx]);
      hide Present, ZeroTable;
      OverlaidScratch(m0, scratch, m, next, ZeroTable());
      OverlaidWrite(m0, scratch, m[next := ZeroTable()], table, idx, TablePointer(next, level));
      assert next in free ==> |free - {next}| == |free| - 1;
    }
  }

  /** A map has come to the table at p, and what it needs to go on is there. */
  ghost predicate OnItsWay(m0: Memory, free0: set<nat>, m: Memory, free: set<nat>, root: Frame, p: Path,
          table: Frame, idx: Index) {
    && Mapping(m0, free0, m, free, root, p) && TableAt(m, root, p) == Some(table) && Depth(p) < 3
    && LeafAt(m0, root, Sub(p, idx)).None? && Missing(m0, root, Sub(p, idx)) <= |free0|
  }

  /** Then one level further down it comes to the next table, old or new. */
  lemma {:induction false} MappingGoesDown(m0: Memory, free0: set<nat>, m: Memory, free: set<nat>, root: Frame,
          p: Path, table: Frame, idx: Index, level: Level, m': Memory, free': set<nat>, next: Frame)
    requires OnItsWay(m0, free0, m, free, root, p, table, idx)
    requires WentDown(m, free, table, idx, level, m', free', next)
    ensures Mapping(m0, free0, m', free', root, Sub(p, idx)) && TableAt(m', root, Sub(p, idx)) == Some(next)
  {
    hide Mapping, Missing, TableAt, LeafAt, Present, Large, Target, TablePointer;
    if Present(m[table][idx]) {
      DescendIntoTable(m0, free0, m, free, root, p, idx);
    } else {
      MissingTable(m0, free0, m, free, root, p, idx);
      TablePointerIs(next, level, Depth(p));
      MappingLink(m0, free0, m, free, root, p, idx, next, TablePointer(next, level));
    }
  }

  lemma {:induction false} TablePointerIs(f: Frame, level: Level, depth: nat)
    requires depth < 3
    ensures IsPointer(TablePointer(f, level), depth) && Target(TablePointer(f, level)) == f
  {
    hide CreateEntry, FrameAddress, Present, Large, Target;
    PointerEntry(f, level);
  }

  lemma {:induction false} DescendIntoTable(m0: Memory, free0: set<nat>, m: Memory, free: set<nat>, root: Frame,
          p: Path, i: Index)
    requires Mapping(m0, free0, m, free, root, p) && Depth(p) < 3 && LeafAt(m0, root, Sub(p, i)).None?
    requires Present(m[TableAt(m, root, p).value][i])
    ensures TableAt(m, root, Sub(p, i)) == Some(Target(m[TableAt(m, root, p).value][i]))
    ensures Mapping(m0, free0, m, free, root, Sub(p, i))
  {
    hide Present, Large, Target;
    assert LeafAt(m, root, Sub(p, i)).None?;
    MappingDown(m0, free0, m, free, root, p, i);
  }

  lemma {:induction false} MissingTable(m0: Memory, free0: set<nat>, m: Memory, free: set<nat>, root: Frame, p: Path,
          i: Index)
    requires Mapping(m0, free0, m, free, root, p) && Missing(m0, root, Sub(p, i)) <= |free0|
    requires !Present(m[TableAt(m, root, p).value][i])
    ensures free != {}
  {
    hide Present, Large, Target;
    NothingHere(m0, free0, m, free, root, p, i);
  }

  // ---------- Unmapping and other trees ----------

  /** While a page is being unmapped, no tree gains a page. */
  lemma {:induction false} UnmappingOthers(m0: Memory, free0: set<nat>, m: Memory, free: set<nat>, root: Frame,
          slot: Path, p: Path, other: Frame)
    requires Unmapping(m0, free0, m, free, root, slot, p) && Apart(m0, free0, root, other)
    ensures forall s :: LeafAt(m, other, s).Some? ==> LeafAt(m, other, s) == LeafAt(m0, other, s)
    ensures forall s :: s != slot ==> LeafAt(m, other, s) == LeafAt(m0, other, s)
  {
    hide Unmapping;
    if other != root {
      assert OthersKept(m0, free0, root, m) by {
        UnmappingKept(m0, free0, m, free, root, slot, p);
      }
      ApartKept(m0, free0, m, root, other);
    } else {
      UnmappingLeaves(m0, free0, m, free, root, slot, p);
    }
  }

  lemma {:induction false} UnmappedOthers(m0: Memory, free0: set<nat>, m: Memory, free: set<nat>, root: Frame,
          slot: Path, other: Frame)
    requires Unmapped(m0, free0, m, free, root, slot) && Apart(m0, free0, root, other)
    ensures forall s :: s != slot ==> LeafAt(m, other, s) == LeafAt(m0, other, s)
  {
    UnmappingOthers(m0, free0, m, free, root, slot, Root, other);
  }

  lemma {:induction false} UnmappedDone(m0: Memory, free0: set<nat>, m: Memory, free: set<nat>, root: Frame, slot: Path)
    requires Unmapping(m0, free0, m, free, root, slot, Root)
    ensures Unmapped(m0, free0, m, free, root, slot)
  {
  }

  /** The parent of a table on the way up is where it was. */
  lemma {:induction false} UnmappingParent(m0: Memory, free0: set<nat>, m: Memory, free: set<nat>, root: Frame,
          slot: Path, p: Path, i: Index)
    requires Unmapping(m0, free0, m, free, root, slot, Sub(p, i))
    ensures TableAt(m, root, p) == TableAt(m0, root, p)
  {
    hide Present, Large, Target;
    assert TableAt(m, root, p).Some?;
  }

  lemma {:induction false} UnmappingKept(m0: Memory, free0: set<nat>, m: Memory, free: set<nat>, root: Frame,
          slot: Path, p: Path)
    requires Unmapping(m0, free0, m, free, root, slot, p)
    ensures OthersKept(m0, free0, root, m)
  {
  }

  lemma {:induction false} UnmappingLeaves(m0: Memory, free0: set<nat>, m: Memory, free: set<nat>, root: Frame,
          slot: Path, p: Path)
    requires Unmapping(m0, free0, m, free, root, slot, p)
    ensures forall s :: LeafAt(m, root, s) == if s == slot then None else LeafAt(m0, root, s)
  {
  }

  /** A table on the way up is one of the old ones, so it was not free. */
  lemma {:induction false} UnmappingTable(m0: Memory, free0: set<nat>, m: Memory, free: set<nat>, root: Frame,
          slot: Path, p: Path, n: Frame)
    requires Unmapping(m0, free0, m, free, root, slot, p) && TableAt(m, root, p) == Some(n)
    ensures n in Tables(m0, root) && n !in free && IsTree(m, root)
    ensures p != Root ==> n != root
  {
    hide Present, Large, Target;
    RootTable(m, root);
    assert IsTable(m, root, n) && IsTable(m0, root, n);
  }

  lemma {:induction false} UnmappedApart(m0: Memory, free0: set<nat>, m: Memory, free: set<nat>, root: Frame,
          slot: Path, other: Frame)
    requires Unmapped(m0, free0, m, free, root, slot) && Apart(m0, free0, root, other)
    ensures Apart(m, free, root, other)
    ensures IsTree(m, root) && Populated(m, root) && Tables(m, root) !! free
    ensures Tables(m, root) <= Tables(m0, root) + free0
  {
    if other != root {
      ApartKept(m0, free0, m, root, other);
    }
    hide Tables, TableAt, LeafAt;
  }

  /** What an unmap comes to. It reports an error exactly when a table on the way, or the large
      page itself, is not there; for a 4 KB page it does not look whether the page is there. */
  ghost predicate UnmapOutcome(ok: bool, m0: Memory, free0: set<nat>, m: Memory, free: set<nat>, root: Frame,
          slot: Path, size: PageSize)
    requires slot.Sub?
  {
    && (ok <==> TableAt(m0, root, slot.parent).Some? && (size == Size4KB || LeafAt(m0, root, slot).Some?))
    && (ok ==> Unmapped(m0, free0, m, free, root, slot))
    && (!ok ==> m == m0 && free == free0)
  }

  /** Where no large page lies, a present entry leads to a table. */
  lemma {:induction false} StepDown(m: Memory, root: Frame, p: Path, i: Index, t: Frame)
    requires TableAt(m, root, p) == Some(t) && Depth(p) < 3 && LeafAt(m, root, Sub(p, i)).None?
    ensures TableAt(m, root, Sub(p, i)) == if Present(m[t][i]) then Some(Target(m[t][i])) else None
  {
    hide Present, Large, Target;
  }

  /** Where no table hangs, a present entry is a page. */
  lemma {:induction false} StepToLeaf(m: Memory, root: Frame, p: Path, i: Index, t: Frame)
    requires TableAt(m, root, p) == Some(t) && 0 < Depth(p) && TableAt(m, root, Sub(p, i)).None?
    ensures LeafAt(m, root, Sub(p, i)) == if Present(m[t][i]) then Some(m[t][i]) else None
  {
    hide Present, Large, Target;
    TableDepth(m, root, p);
  }

  lemma {:induction false} NothingOnTheWay(m: Memory, root: Frame, slot: Path, p: Path)
    requires slot.Sub? && Under(slot.parent, p) && TableAt(m, root, p).None?
    ensures TableAt(m, root, slot.parent).None?
  {
    NothingBelow(m, root, p, slot.parent);
  }

  /** What the checks of an unmap establish before it changes anything. */
  ghost predicate UnmapWay(ok: bool, m: Memory, root: Frame, virt: bv64, size: PageSize, pdpr: Frame, pd: Frame,
          pt: Frame)
    requires Slot(virt, size).Sub?
  {
    && (ok <==> && TableAt(m, root, Slot(virt, size).parent).Some?
                && (size == Size4KB || LeafAt(m, root, Slot(virt, size)).Some?))
    && (ok ==> TableAt(m, root, Path1(virt)) == Some(pdpr))
    && (ok && size != Size1GB ==> TableAt(m, root, Path2(virt)) == Some(pd))
    && (ok && size == Size4KB ==> TableAt(m, root, Path3(virt)) == Some(pt))
  }

  lemma {:induction false} UnmapWayTables(m: Memory, root: Frame, virt: bv64, size: PageSize, pdpr: Frame, pd: Frame,
          pt: Frame)
    requires Slot(virt, size).Sub? && UnmapWay(true, m, root, virt, size, pdpr, pd, pt)
    ensures TableAt(m, root, Path1(virt)) == Some(pdpr)
    ensures size != Size1GB ==> TableAt(m, root, Path2(virt)) == Some(pd)
    ensures size == Size4KB ==> TableAt(m, root, Path3(virt)) == Some(pt)
  {
    hide TableAt, LeafAt, Slot, Path1, Path2, Path3;
  }

  lemma {:induction false} UnmapWayOutcome(ok: bool, m0: Memory, free0: set<nat>, m: Memory, free: set<nat>,
          root: Frame, virt: bv64, size: PageSize, pdpr: Frame, pd: Frame, pt: Frame)
    requires Slot(virt, size).Sub? && UnmapWay(ok, m0, root, virt, size, pdpr, pd, pt)
    requires if ok then Unmapped(m0, free0, m, free, root, Slot(virt, size)) else m == m0 && free == free0
    ensures UnmapOutcome(ok, m0, free0, m, free, root, Slot(virt, size), size)
  {
    hide Unmapped;
  }
}
