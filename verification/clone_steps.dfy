/** Copying the pages of one tree into another, page by page (paging_clone_page_table in
    kernel/src/memory/paging.c). */
module CloneSteps {
  import opened Options
  import opened Words
  import opened PageTables
  import opened PagingSteps

  /** The source and the new tree have no table in common and hold no free frame, the new tree has
      no page that the source does not have, and between them its tables and the free frames are as
      many as the source's tables. */
  ghost predicate CloneSetup(m0: Memory, free0: set<nat>, src: Frame, new': Frame) {
    && IsTree(m0, src) && IsTree(m0, new') && Populated(m0, new')
    && Tables(m0, src) !! free0 && Tables(m0, new') !! free0 && Tables(m0, src) !! Tables(m0, new')
    && (forall s :: LeafAt(m0, new', s).Some? ==> LeafAt(m0, new', s) == LeafAt(m0, src, s))
    && |Tables(m0, src)| <= |free0| + |Tables(m0, new')|
  }

  /** The new tree holds exactly the source's pages at the places done so far, besides those it held
      before. It has only used free frames, and changed no frame but those and its tables. */
  ghost predicate Cloning(m0: Memory, free0: set<nat>, m: Memory, free: set<nat>, src: Frame, new': Frame,
          done: iset<Path>) {
    && IsTree(m, new') && Populated(m, new')
    && (forall s :: LeafAt(m, new', s) ==
          if s in done || LeafAt(m0, new', s).Some? then LeafAt(m0, src, s) else None)
    && Conserved(m0, free0, m, free, new') && free <= free0
    && OthersKept(m0, free0, new', m)
  }

  lemma {:induction false} CloneStart(m: Memory, free: set<nat>, src: Frame, new': Frame)
    requires CloneSetup(m, free, src, new')
    ensures Cloning(m, free, m, free, src, new', iset{})
  {
    hide LeafAt, IsTree, Populated, Tables;
  }

  /** A blank root is a tree without pages. */
  lemma {:induction false} BlankRoot(m: Memory, root: Frame)
    requires Blank(m[root])
    ensures IsTree(m, root) && Populated(m, root) && Tables(m, root) == {root}
    ensures forall s :: LeafAt(m, root, s).None?
  {
    hide Present, Large, Target, Blank;
    RootTable(m, root);
    forall p ensures TableAt(m, root, p).Some? <==> p == Root {
      if p != Root {
        RootAbove(p);
        BlankBelow(m, root, Root, p);
      }
    }
    forall s ensures LeafAt(m, root, s).None? {
      if s != Root && s.parent == Root {
        RootHasNoLeaf(m, root, s.idx);
      }
    }
    assert Tables(m, root) == {root} by {
      assert IsTable(m, root, root);
      assert forall f: Frame :: IsTable(m, root, f) ==> f == root;
    }
  }

  lemma {:induction false} RootAbove(p: Path)
    ensures Under(p, Root)
  {
    if p != Root {
      RootAbove(p.parent);
    }
  }

  lemma {:induction false} RootHasNoLeaf(m: Memory, root: Frame, i: Index)
    ensures LeafAt(m, root, Sub(Root, i)).None?
  {
  }

  /** The source stays as it is. */
  lemma {:induction false} SourceKept(m0: Memory, free0: set<nat>, m: Memory, free: set<nat>, src: Frame,
          new': Frame, done: iset<Path>)
    requires CloneSetup(m0, free0, src, new') && Cloning(m0, free0, m, free, src, new', done)
    ensures SameTables(m, src, m0, src) && SameLeaves(m, src, m0, src) && Tables(m, src) == Tables(m0, src)
    ensures forall f: Frame :: IsTable(m0, src, f) ==> m[f] == m0[f]
  {
    hide TableAt, LeafAt, IsTree, Populated;
    assert forall f: Frame :: IsTable(m0, src, f) ==> f in Tables(m0, src);
    WriteElsewhere(m0, m, src);
  }

  /** Places without a page do not matter. */
  lemma {:induction false} CloneSkip(m0: Memory, free0: set<nat>, m: Memory, free: set<nat>, src: Frame, new': Frame,
          done: iset<Path>, done': iset<Path>)
    requires Cloning(m0, free0, m, free, src, new', done)
    requires forall s :: (s in done) != (s in done') ==> LeafAt(m0, src, s).None?
    ensures Cloning(m0, free0, m, free, src, new', done')
  {
    hide TableAt, LeafAt, IsTree, Populated, Tables;
  }

  /** Mapping a page of the source at its own place. */
  lemma {:induction false} CloneMap(m0: Memory, free0: set<nat>, m: Memory, free: set<nat>, m': Memory,
          free': set<nat>, src: Frame, new': Frame, done: iset<Path>, slot: Path, w: bv64)
    requires Cloning(m0, free0, m, free, src, new', done)
    requires Mapped(m, free, m', free', new', slot, w) && LeafAt(m0, src, slot) == Some(w)
    ensures Cloning(m0, free0, m', free', src, new', done + iset{slot})
  {
    hide TableAt, LeafAt, IsTree, Populated, Tables;
    forall f: Frame | f !in Tables(m0, new') && f !in free0 ensures m'[f] == m0[f] {
      assert f !in Tables(m, new') + free;
    }
  }

  /** A page that the new tree held from the start. */
  lemma {:induction false} CloneHeld(m0: Memory, free0: set<nat>, m: Memory, free: set<nat>, src: Frame, new': Frame,
          done: iset<Path>, slot: Path)
    requires Cloning(m0, free0, m, free, src, new', done) && LeafAt(m0, new', slot).Some?
    ensures Cloning(m0, free0, m, free, src, new', done + iset{slot})
  {
    hide TableAt, LeafAt, IsTree, Populated, Tables;
  }

  /** The tables of the new tree mirror tables of the source. */
  lemma {:induction false} MirroredTable(m0: Memory, free0: set<nat>, m: Memory, free: set<nat>, src: Frame,
          new': Frame, done: iset<Path>, p: Path)
    requires Cloning(m0, free0, m, free, src, new', done) && TableAt(m, new', p).Some?
    ensures TableAt(m0, src, p).Some?
  {
    hide Present, Large, Target;
    if p != Root {
      var s := LeafBelow(m, new', p);
      assert LeafAt(m0, src, s).Some?;
      LeafParent(m0, src, s, p);
    }
  }

  lemma {:induction false} LeafParent(m: Memory, root: Frame, s: Path, p: Path)
    requires LeafAt(m, root, s).Some? && Under(s, p) && s != p
    ensures TableAt(m, root, p).Some?
  {
    AncestorTable(m, root, s.parent, p);
  }

  /** No earlier map got in the way of a page still to be copied: no table stands at its place, no page
      unless it was there from the start, and no larger page lies on the way. */
  lemma {:induction false} PlaceIsFree(m0: Memory, free0: set<nat>, m: Memory, free: set<nat>, src: Frame,
          new': Frame, done: iset<Path>, slot: Path)
    requires Cloning(m0, free0, m, free, src, new', done) && slot !in done && LeafAt(m0, src, slot).Some?
    ensures LeafAt(m, new', slot).None? <==> LeafAt(m0, new', slot).None?
    ensures TableAt(m, new', slot).None? && NoLargerPage(m, new', slot)
  {
    hide Present, Large, Target;
    if TableAt(m, new', slot).Some? {
      MirroredTable(m0, free0, m, free, src, new', done, slot);
      LeafOrTable(m0, src, slot);
    }
    forall a | Under(slot, a) && a != slot ensures LeafAt(m, new', a).None? {
      LeafParent(m0, src, slot, a);
      LeafOrTable(m0, src, a);
    }
  }

  lemma {:induction false} LeafOrTable(m: Memory, root: Frame, s: Path)
    ensures LeafAt(m, root, s).None? || TableAt(m, root, s).None?
  {
    hide Present, Large, Target;
  }

  // ---------- Enough free frames ----------

  lemma {:induction false} InjectionCardinality<T, U>(a: set<T>, b: set<U>, phi: map<T, U>)
    requires a <= phi.Keys && forall x :: x in a ==> phi[x] in b
    requires forall x, y :: x in a && y in a && phi[x] == phi[y] ==> x == y
    ensures |a| <= |b|
  {
    if a != {} {
      var x :| x in a;
      InjectionCardinality(a - {x}, b - {phi[x]}, phi);
    }
  }

  /** The source tables on the way to p that the new tree lacks. */
  ghost function Lacking(m0: Memory, src: Frame, m: Memory, new': Frame, p: Path): set<nat>
    requires TableAt(m0, src, p).Some?
  {
    match p
    case Root => {}
    case Sub(q, _) =>
      Lacking(m0, src, m, new', q) + if TableAt(m, new', p).None? then {TableAt(m0, src, p).value} else {}
  }

  lemma {:induction false} LackingTables(m0: Memory, src: Frame, m: Memory, new': Frame, p: Path, f: nat)
    requires TableAt(m0, src, p).Some? && f in Lacking(m0, src, m, new', p)
    ensures exists q :: Under(p, q) && TableAt(m0, src, q) == Some(f) && TableAt(m, new', q).None?
  {
    hide Present, Large, Target;
    if f in Lacking(m0, src, m, new', p.parent) {
      LackingTables(m0, src, m, new', p.parent, f);
      var q :| Under(p.parent, q) && TableAt(m0, src, q) == Some(f) && TableAt(m, new', q).None?;
      assert Under(p, q) by { UnderParent(p, q); }
    } else {
      assert Under(p, p);
    }
  }

  lemma {:induction false} UnderParent(p: Path, q: Path)
    requires p.Sub? && Under(p.parent, q)
    ensures Under(p, q)
  {
  }

  lemma {:induction false} LackingCount(m0: Memory, src: Frame, m: Memory, new': Frame, p: Path)
    requires IsTree(m0, src) && TableAt(m0, src, p).Some?
    ensures |Lacking(m0, src, m, new', p)| == Missing(m, new', p)
  {
    hide Present, Large, Target, IsTree;
    if p != Root {
      var f := TableAt(m0, src, p).value;
      LackingCount(m0, src, m, new', p.parent);
      if f in Lacking(m0, src, m, new', p.parent) {
        LackingTables(m0, src, m, new', p.parent, f);
        var q :| Under(p.parent, q) && TableAt(m0, src, q) == Some(f) && TableAt(m, new', q).None?;
        TablesDistinct(m0, src, p, q);
        UnderDepth(p.parent, q);
      }
    }
  }

  lemma {:induction false} TablesDistinct(m: Memory, root: Frame, p: Path, q: Path)
    requires IsTree(m, root) && TableAt(m, root, p).Some? && TableAt(m, root, p) == TableAt(m, root, q)
    ensures p == q
  {
  }

  ghost function PathTo(m: Memory, root: Frame, f: Frame): Path
    requires IsTable(m, root, f)
  {
    var p :| TableAt(m, root, p) == Some(f); p
  }

  /** The tables of the new tree and those still missing on the way to p mirror distinct tables of the
      source. */
  lemma {:induction false} MirrorCount(m0: Memory, free0: set<nat>, m: Memory, free: set<nat>, src: Frame,
          new': Frame, done: iset<Path>, p: Path)
    requires IsTree(m0, src) && IsTree(m, new') && Cloning(m0, free0, m, free, src, new', done)
    requires TableAt(m0, src, p).Some?
    ensures |Tables(m, new')| + Missing(m, new', p) <= |Tables(m0, src)|
  {
    hide Cloning, Lacking, Missing;
    var lacking := Lacking(m0, src, m, new', p);
    LackingCount(m0, src, m, new', p);
    var tables := Tables(m, new');
    assert forall f :: f in tables ==> IsTable(m, new', f);
    hide TableAt, LeafAt;
    forall f | f in tables ensures TableAt(m0, src, PathTo(m, new', f)).Some? {
      MirroredTable(m0, free0, m, free, src, new', done, PathTo(m, new', f));
    }
    var phi := map f | f in tables :: TableAt(m0, src, PathTo(m, new', f)).value;
    var rest := Tables(m0, src) - lacking;
    forall f | f in tables ensures phi[f] in rest {
      InTables(m0, src, PathTo(m, new', f));
      if phi[f] in lacking {
        LackingTables(m0, src, m, new', p, phi[f]);
      }
    }
    forall f, g | f in tables && g in tables && phi[f] == phi[g] ensures f == g {
      TablesDistinct(m0, src, PathTo(m, new', f), PathTo(m, new', g));
    }
    InjectionCardinality(tables, rest, phi);
    forall f | f in lacking ensures f in Tables(m0, src) {
      LackingTables(m0, src, m, new', p, f);
      var q :| Under(p, q) && TableAt(m0, src, q) == Some(f) && TableAt(m, new', q).None?;
      InTables(m0, src, q);
    }
    assert |rest| == |Tables(m0, src)| - |lacking|;
  }

  /** So there is always room for the next page. */
  lemma {:induction false} EnoughFrames(m0: Memory, free0: set<nat>, m: Memory, free: set<nat>, src: Frame,
          new': Frame, done: iset<Path>, p: Path)
    requires CloneSetup(m0, free0, src, new') && Cloning(m0, free0, m, free, src, new', done)
    requires TableAt(m0, src, p).Some?
    ensures Missing(m, new', p) <= |free|
  {
    hide Missing, TableAt, LeafAt, Tables, IsTree, Populated, OthersKept;
    MirrorCount(m0, free0, m, free, src, new', done, p);
    assert |Tables(m, new') + free| == |Tables(m, new')| + |free|;
    assert |Tables(m0, new') + free0| == |Tables(m0, new')| + |free0|;
  }

  // ---------- The walk over the source ----------

  /** All places at or below p. */
  ghost function Below(p: Path): iset<Path> {
    iset s | Under(s, p)
  }

  /** Progress of the loop over the table at p: the places done before, and all those that
      lie under its first i entries. */
  ghost function DoneTo(done: iset<Path>, p: Path, i: nat): iset<Path> {
    iset s | s in done || exists j: Index :: j < i && Under(s, Sub(p, j))
  }

  lemma {:induction false} DoneNothing(done: iset<Path>, p: Path)
    ensures DoneTo(done, p, 0) == done
  {
  }

  lemma {:induction false} DoneOneMore(done: iset<Path>, p: Path, i: Index)
    ensures DoneTo(done, p, i + 1) == DoneTo(done, p, i) + Below(Sub(p, i))
  {
    hide Under;
    forall s ensures s in DoneTo(done, p, i + 1) <==> s in DoneTo(done, p, i) || s in Below(Sub(p, i)) {
    }
  }

  /** At the end of the loop only p itself may still count as not done. */
  lemma {:induction false} DoneAll(done: iset<Path>, p: Path)
    ensures forall s :: (s in DoneTo(done, p, 512)) != (s in done + Below(p)) ==> s == p
  {
    forall s | s != p ensures s in DoneTo(done, p, 512) <==> s in done + Below(p) {
      if Under(s, p) {
        var j := Branch(s, p);
        assert s in DoneTo(done, p, 512);
      } else if s in DoneTo(done, p, 512) && s !in done {
        var j: Index :| Under(s, Sub(p, j));
        assert Under(Sub(p, j), p);
        UnderTransitive(s, Sub(p, j), p);
      }
    }
  }

  /** What lies under the next entry has not been done yet. */
  lemma {:induction false} NextNotDone(done: iset<Path>, p: Path, i: Index)
    requires forall s :: Under(s, p) ==> s !in done
    ensures forall s :: Under(s, Sub(p, i)) ==> s !in DoneTo(done, p, i)
  {
    forall s | Under(s, Sub(p, i)) ensures s !in DoneTo(done, p, i) {
      assert Under(Sub(p, i), p);
      UnderTransitive(s, Sub(p, i), p);
      forall j: Index | j < i && Under(s, Sub(p, j)) ensures false {
        BranchUnique(s, p, i, j);
      }
    }
  }

  /** Under an entry that leads to no table there is at most the page in the entry itself. */
  lemma {:induction false} OnlyTheEntry(m: Memory, root: Frame, p: Path, i: Index)
    requires TableAt(m, root, Sub(p, i)).None?
    ensures forall s :: Under(s, Sub(p, i)) && s != Sub(p, i) ==> LeafAt(m, root, s).None?
  {
    hide Present, Large, Target;
    forall s | Under(s, Sub(p, i)) && s != Sub(p, i) ensures LeafAt(m, root, s).None? {
      NothingBelow(m, root, Sub(p, i), s.parent);
    }
  }

  /** One step of the loop at an entry that is absent or a page: `done'` differs from what is done
      at most in that page. */
  lemma {:induction false} CloneEntry(m0: Memory, free0: set<nat>, m: Memory, free: set<nat>, src: Frame,
          new': Frame, done: iset<Path>, p: Path, i: Index)
    requires TableAt(m0, src, Sub(p, i)).None?
    requires LeafAt(m0, src, Sub(p, i)).None? ==> Cloning(m0, free0, m, free, src, new', DoneTo(done, p, i))
    requires LeafAt(m0, src, Sub(p, i)).Some? ==>
               Cloning(m0, free0, m, free, src, new', DoneTo(done, p, i) + iset{Sub(p, i)})
    ensures Cloning(m0, free0, m, free, src, new', DoneTo(done, p, i + 1))
  {
    hide Cloning, TableAt, LeafAt, Under, DoneTo;
    OnlyTheEntry(m0, src, p, i);
    DoneOneMore(done, p, i);
    var before := if LeafAt(m0, src, Sub(p, i)).Some? then DoneTo(done, p, i) + iset{Sub(p, i)} else DoneTo(done, p, i);
    ItselfBelow(Sub(p, i));
    CloneSkip(m0, free0, m, free, src, new', before, DoneTo(done, p, i + 1));
  }

  /** One step at a pointer: the recursion has copied all that lies below it. */
  lemma {:induction false} CloneBelow(m0: Memory, free0: set<nat>, m: Memory, free: set<nat>, src: Frame,
          new': Frame, done: iset<Path>, p: Path, i: Index)
    requires Cloning(m0, free0, m, free, src, new', DoneTo(done, p, i) + Below(Sub(p, i)))
    ensures Cloning(m0, free0, m, free, src, new', DoneTo(done, p, i + 1))
  {
    hide Cloning, DoneTo, Below;
    DoneOneMore(done, p, i);
  }

  lemma {:induction false} ItselfBelow(p: Path)
    ensures Under(p, p)
  {
  }

  /** The loop over a whole table. */
  lemma {:induction false} CloneTableDone(m0: Memory, free0: set<nat>, m: Memory, free: set<nat>, src: Frame,
          new': Frame, done: iset<Path>, p: Path)
    requires Cloning(m0, free0, m, free, src, new', DoneTo(done, p, 512)) && TableAt(m0, src, p).Some?
    ensures Cloning(m0, free0, m, free, src, new', done + Below(p))
  {
    hide Cloning, TableAt, LeafAt, Under, DoneTo;
    DoneAll(done, p);
    LeafOrTable(m0, src, p);
    CloneSkip(m0, free0, m, free, src, new', DoneTo(done, p, 512), done + Below(p));
  }

  /** A finished clone: the new tree has exactly the pages of the source. */
  lemma {:induction false} CloneComplete(m0: Memory, free0: set<nat>, m: Memory, free: set<nat>, src: Frame,
          new': Frame)
    requires CloneSetup(m0, free0, src, new')
    requires Cloning(m0, free0, m, free, src, new', iset{} + Below(Root))
    ensures SameLeaves(m, new', m0, src) && SameLeaves(m, src, m0, src) && SameTables(m, src, m0, src)
    ensures Conserved(m0, free0, m, free, new')
  {
    SourceKept(m0, free0, m, free, src, new', iset{} + Below(Root));
    hide TableAt, LeafAt, Tables, IsTree, Populated;
    forall s ensures s in iset{} + Below(Root) {
      RootAbove(s);
    }
  }

  function LevelDepth(level: Level): nat {
    match level
    case PML4 => 0
    case PDPR => 1
    case PD => 2
    case PT => 3
  }

  function NextLevel(level: Level): Level {
    match level
    case PML4 => PDPR
    case PDPR => PD
    case _ => PT
  }

  lemma {:induction false} NextLevelDepth(level: Level)
    ensures LevelDepth(level) <= 3 && (level != PT ==> LevelDepth(NextLevel(level)) == LevelDepth(level) + 1)
    ensures LevelDepth(level) == 3 <==> level == PT
    ensures LevelDepth(level) == 0 <==> level == PML4
  {
  }

  /** What an entry of the source is, as the walk decides it: absent, a page, or a pointer. */
  lemma {:induction false} EntryKind(m: Memory, root: Frame, p: Path, i: Index, table: Frame, level: Level)
    requires TableAt(m, root, p) == Some(table) && Depth(p) == LevelDepth(level)
    ensures var e := m[table][i];
            var leaf := Present(e) && level != PML4 && (level == PT || Large(e));
            && LeafAt(m, root, Sub(p, i)) == (if leaf then Some(e) else None)
            && TableAt(m, root, Sub(p, i)) == (if Present(e) && !leaf then Some(Target(e)) else None)
  {
    hide Present, Large, Target;
  }

  // ---------- One page ----------

  function SizeOf(level: Level): PageSize {
    match level
    case PDPR => Size1GB
    case PD => Size2MB
    case _ => Size4KB
  }

  /** The place and the address that the path indices stand for when a page is met at a level. */
  function LeafPath(level: Level, a: Index, b: Index, c: Index, d: Index): Path {
    match level
    case PDPR => Sub(Sub(Root, a), b)
    case PD => Sub(Sub(Sub(Root, a), b), c)
    case _ => Sub(Sub(Sub(Sub(Root, a), b), c), d)
  }

  function LeafVirt(level: Level, a: Index, b: Index, c: Index, d: Index): bv64 {
    match level
    case PDPR => VirtOf(a, b, 0, 0)
    case PD => VirtOf(a, b, c, 0)
    case _ => VirtOf(a, b, c, d)
  }

  /** They belong together. */
  lemma {:induction false} LeafVirtSlot(level: Level, a: Index, b: Index, c: Index, d: Index)
    ensures Slot(LeafVirt(level, a, b, c, d), SizeOf(level)) == LeafPath(level, a, b, c, d)
    ensures level != PML4 ==> LevelOf(SizeOf(level)) == level
    ensures LeafPath(level, a, b, c, d).Sub?
  {
    hide Pml4Index, PdprIndex, PdIndex, PtIndex, VirtOf;
    SplitJoin(a, b, 0, 0);
    SplitJoin(a, b, c, 0);
    SplitJoin(a, b, c, d);
  }

  /** The flags taken from a page keep its present and size bits, and with the address taken from
      it they make the same word again. */
  lemma {:induction false} LeafCopy(m: Memory, root: Frame, level: Level, a: Index, b: Index, c: Index, d: Index,
          w: bv64)
    requires level != PML4 && LeafAt(m, root, LeafPath(level, a, b, c, d)) == Some(w)
    ensures Present(GetFlags(w, level, Page)) && (level != PT ==> Large(GetFlags(w, level, Page)))
    ensures CreateEntry(LeafAddress(w, level), GetFlags(w, level, Page), level, Page) == w
  {
    hide Present, Large, Target, GetFlags, LeafAddress, CreateEntry;
    LeafWord(m, root, level, a, b, c, d, w);
    RecreateLeaf(w, level);
    LeafEntry(LeafAddress(w, level), GetFlags(w, level, Page), level);
  }

  lemma {:induction false} LeafWord(m: Memory, root: Frame, level: Level, a: Index, b: Index, c: Index, d: Index,
          w: bv64)
    requires level != PML4 && LeafAt(m, root, LeafPath(level, a, b, c, d)) == Some(w)
    ensures Present(w) && (level != PT ==> Large(w))
  {
    hide Present, Large, Target;
    var p2 := Sub(Sub(Root, a), b);
    var p3 := Sub(p2, c);
    assert Depth(Sub(Root, a)) == 1;
    assert Depth(p2) == 2;
    assert Depth(p3) == 3;
  }

  /** Before a page is copied there is room for it, and nothing is in the way. */
  lemma {:induction false} ReadyToCopy(m0: Memory, free0: set<nat>, m: Memory, free: set<nat>, src: Frame,
          new': Frame, done: iset<Path>, slot: Path)
    requires CloneSetup(m0, free0, src, new') && Cloning(m0, free0, m, free, src, new', done)
    requires slot.Sub? && slot !in done && LeafAt(m0, src, slot).Some?
    ensures NoLargerPage(m, new', slot) && Missing(m, new', slot.parent) <= |free|
    ensures TableAt(m, new', slot).None? && (LeafAt(m, new', slot).None? <==> LeafAt(m0, new', slot).None?)
  {
    hide Present, Large, Target, CloneSetup, Cloning;
    PlaceIsFree(m0, free0, m, free, src, new', done, slot);
    EnoughFrames(m0, free0, m, free, src, new', done, slot.parent);
  }

  /** So the map fails only if the page was there from the start; either way it is there now, bit by
      bit. */
  lemma {:induction false} Copied(ok: bool, m0: Memory, free0: set<nat>, m: Memory, free: set<nat>, m': Memory,
          free': set<nat>, src: Frame, new': Frame, done: iset<Path>, slot: Path, w: bv64)
    requires Cloning(m0, free0, m, free, src, new', done)
    requires MapOutcome(ok, m, free, m', free', new', slot, w) && LeafAt(m0, src, slot) == Some(w)
    requires TableAt(m, new', slot).None? && (LeafAt(m, new', slot).None? <==> LeafAt(m0, new', slot).None?)
    ensures ok <==> LeafAt(m0, new', slot).None?
    ensures Cloning(m0, free0, m', free', src, new', done + iset{slot})
  {
    hide Cloning, Mapped;
    if ok {
      CloneMap(m0, free0, m, free, m', free', src, new', done, slot, w);
    } else {
      CloneHeld(m0, free0, m, free, src, new', done, slot);
    }
  }
}
