/** Any sequence of maps and unmaps, seen from outside: a page table behaves like a map from places to
    leaf words (kernel/src/memory/paging.c). */
module PagingRuns {
  import opened Words
  import opened PageTables
  import opened PagingSteps
  import opened CloneSteps
  import P = Paging

  // ---------- Pages as a map ----------

  type Pages = imap<Path, bv64>

  ghost function PagesOf(m: Memory, root: Frame): Pages {
    imap s | LeafAt(m, root, s).Some? :: LeafAt(m, root, s).value
  }

  /** Some page lies below p. */
  ghost predicate PageBelow(pages: Pages, p: Path) {
    exists s :: s in pages && Under(s, p) && s != p
  }

  /** No larger page lies on the way to a place. */
  ghost predicate WayClear(pages: Pages, slot: Path) {
    forall a :: Under(slot, a) && a != slot ==> a !in pages
  }

  datatype Request = MapRequest(phys: bv64, virt: bv64, size: PageSize, flags: bv64)
                   | UnmapRequest(virt: bv64, size: PageSize)

  function PlaceOf(r: Request): (s: Path)
    ensures s.Sub? && s.parent != Root
  {
    SlotParts(r.virt, r.size);
    Slot(r.virt, r.size)
  }

  function WordOf(r: Request): bv64
    requires r.MapRequest?
  {
    CreateEntry(r.phys, r.flags, LevelOf(r.size), Page)
  }

  /** What a caller has to see to: flags that make a page of the size asked for, and a size that fits
      what is mapped. */
  ghost predicate Accepts(pages: Pages, r: Request) {
    match r
    case MapRequest(_, _, size, flags) =>
      Present(flags) && (size != Size4KB ==> Large(flags)) && WayClear(pages, PlaceOf(r))
    case UnmapRequest(_, _) =>
      WayClear(pages, PlaceOf(r)) && !PageBelow(pages, PlaceOf(r))
  }

  /** Whether a request succeeds. A map does if its place is free. An unmap does if the page is there; for a
      4 KB page it is enough that some page shares its table. */
  ghost predicate Succeeds(pages: Pages, r: Request) {
    match r
    case MapRequest(_, _, _, _) => PlaceOf(r) !in pages && !PageBelow(pages, PlaceOf(r))
    case UnmapRequest(_, size) =>
      PageBelow(pages, PlaceOf(r).parent) && (size == Size4KB || PlaceOf(r) in pages)
  }

  ghost function After(pages: Pages, r: Request): Pages {
    if !Succeeds(pages, r) then pages
    else if r.MapRequest? then pages[PlaceOf(r) := WordOf(r)]
    else pages - {PlaceOf(r)}
  }

  ghost function AfterAll(pages: Pages, rs: seq<Request>): Pages {
    if rs == [] then pages else After(AfterAll(pages, rs[..|rs| - 1]), rs[|rs| - 1])
  }

  ghost predicate AllAccepted(pages: Pages, rs: seq<Request>) {
    forall i :: 0 <= i < |rs| ==> Accepts(AfterAll(pages, rs[..i]), rs[i])
  }

  // ---------- Which pages are there in the end ----------

  /** The i-th request succeeds and is about the place s. */
  ghost predicate Touches(pages: Pages, rs: seq<Request>, i: nat, s: Path)
    requires i < |rs|
  {
    PlaceOf(rs[i]) == s && Succeeds(AfterAll(pages, rs[..i]), rs[i])
  }

  ghost predicate LastTouch(pages: Pages, rs: seq<Request>, n: nat, s: Path)
    requires n < |rs|
  {
    Touches(pages, rs, n, s) && forall i :: n < i < |rs| ==> !Touches(pages, rs, i, s)
  }

  lemma {:induction false} Untouched(pages: Pages, rs: seq<Request>, n: nat, s: Path)
    requires n <= |rs| && forall i :: n <= i < |rs| ==> !Touches(pages, rs, i, s)
    ensures s in AfterAll(pages, rs) <==> s in AfterAll(pages, rs[..n])
    ensures s in AfterAll(pages, rs) ==> AfterAll(pages, rs)[s] == AfterAll(pages, rs[..n])[s]
    decreases rs
  {
    hide PlaceOf, WordOf, Succeeds;
    if n == |rs| {
      assert rs[..n] == rs;
    } else {
      var before := rs[..|rs| - 1];
      forall i | n <= i < |before| ensures !Touches(pages, before, i, s) {
        assert before[..i] == rs[..i] && before[i] == rs[i];
        assert !Touches(pages, rs, i, s);
      }
      Untouched(pages, before, n, s);
      assert before[..n] == rs[..n];
      assert !Touches(pages, rs, |rs| - 1, s);
    }
  }

  /** In the end a page is there exactly if the last request that succeeded at its place was a map, with
      the word of that map, or if none did and it was there at first. */
  lemma {:induction false} LastRequestDecides(pages: Pages, rs: seq<Request>, s: Path)
    ensures (forall i :: 0 <= i < |rs| ==> !Touches(pages, rs, i, s)) ==>
              && (s in AfterAll(pages, rs) <==> s in pages)
              && (s in pages ==> AfterAll(pages, rs)[s] == pages[s])
    ensures forall n :: 0 <= n < |rs| && LastTouch(pages, rs, n, s)
              ==> && (s in AfterAll(pages, rs) <==> rs[n].MapRequest?)
                  && (rs[n].MapRequest? ==> AfterAll(pages, rs)[s] == WordOf(rs[n]))
  {
    hide PlaceOf, WordOf, Succeeds;
    if forall i :: 0 <= i < |rs| ==> !Touches(pages, rs, i, s) {
      Untouched(pages, rs, 0, s);
      assert rs[..0] == [];
    }
    forall n | 0 <= n < |rs| && LastTouch(pages, rs, n, s)
      ensures s in AfterAll(pages, rs) <==> rs[n].MapRequest?
      ensures rs[n].MapRequest? ==> AfterAll(pages, rs)[s] == WordOf(rs[n])
    {
      Untouched(pages, rs, n + 1, s);
      assert rs[..n + 1][..n] == rs[..n];
    }
  }

  // ---------- The tables behave like that map ----------

  lemma {:induction false} WayIsClear(m: Memory, root: Frame, slot: Path)
    ensures WayClear(PagesOf(m, root), slot) <==> NoLargerPage(m, root, slot)
  {
    hide LeafAt;
  }

  lemma {:induction false} TableIffPageBelow(m: Memory, root: Frame, p: Path)
    requires Populated(m, root) && p != Root
    ensures TableAt(m, root, p).Some? <==> PageBelow(PagesOf(m, root), p)
  {
    TableIffLeafBelow(m, root, p);
    hide LeafAt, TableAt, Populated;
    assert forall s :: s in PagesOf(m, root) <==> LeafAt(m, root, s).Some?;
  }

  lemma {:induction false} MapIsAfter(ok: bool, m0: Memory, free0: set<nat>, m: Memory, free: set<nat>, root: Frame,
          r: Request)
    requires Populated(m0, root) && r.MapRequest?
    requires MapOutcome(ok, m0, free0, m, free, root, PlaceOf(r), WordOf(r)) && Tables(m0, root) !! free0
    ensures Conserved(m0, free0, m, free, root)
    ensures ok == Succeeds(PagesOf(m0, root), r) && PagesOf(m, root) == After(PagesOf(m0, root), r)
  {
    hide LeafAt, TableAt, Populated, Tables, IsTree, PlaceOf, WordOf, PageBelow;
    TableIffPageBelow(m0, root, PlaceOf(r));
  }

  lemma {:induction false} UnmapIsAfter(ok: bool, m0: Memory, free0: set<nat>, m: Memory, free: set<nat>,
          root: Frame, r: Request)
    requires Populated(m0, root) && r.UnmapRequest?
    requires UnmapOutcome(ok, m0, free0, m, free, root, PlaceOf(r), r.size) && Tables(m0, root) !! free0
    ensures Conserved(m0, free0, m, free, root)
    ensures ok == Succeeds(PagesOf(m0, root), r) && PagesOf(m, root) == After(PagesOf(m0, root), r)
  {
    hide LeafAt, TableAt, Populated, Tables, IsTree, PlaceOf, PageBelow;
    TableIffPageBelow(m0, root, PlaceOf(r).parent);
  }

  // ---------- Enough frames ----------

  /** So many frames hold the tables for the pages: one for the root, and one for each other place with
      a page below it. */
  ghost predicate FitsIn(pages: Pages, frames: nat) {
    exists places: set<Path> :: |places| < frames && CoversTables(pages, places)
  }

  ghost predicate CoversTables(pages: Pages, places: set<Path>) {
    forall p :: p != Root && PageBelow(pages, p) ==> p in places
  }

  /** A tree always fits into its own tables, so no run can do with less. */
  lemma {:induction false} TablesFit(m: Memory, root: Frame)
    requires IsTree(m, root) && Populated(m, root)
    ensures FitsIn(PagesOf(m, root), |Tables(m, root)|)
  {
    RootTable(m, root);
    InTables(m, root, Root);
    var others := Tables(m, root) - {root};
    assert forall f :: f in others ==> IsTable(m, root, f);
    hide LeafAt, Populated;
    var places := set f | f in others :: PathTo(m, root, f);
    var phi := map p | p in places :: TableAt(m, root, p).value;
    forall p | p in places ensures phi[p] in others {
      var f :| f in others && p == PathTo(m, root, f);
    }
    forall p, q | p in places && q in places && phi[p] == phi[q] ensures p == q {
      var f :| f in others && p == PathTo(m, root, f);
      var g :| g in others && q == PathTo(m, root, g);
      TablesDistinct(m, root, p, q);
    }
    InjectionCardinality(places, others, phi);
    forall p | p != Root && PageBelow(PagesOf(m, root), p) ensures p in places {
      TableIffPageBelow(m, root, p);
      InTables(m, root, p);
      var f := TableAt(m, root, p).value;
      TableNotRoot(m, root, p);
      TablesDistinct(m, root, p, PathTo(m, root, f));
    }
    assert CoversTables(PagesOf(m, root), places);
  }

  lemma {:induction false} TableNotRoot(m: Memory, root: Frame, p: Path)
    requires IsTree(m, root) && p != Root && TableAt(m, root, p).Some?
    ensures TableAt(m, root, p).value != root
  {
    RootTable(m, root);
  }

  /** The places on the way to p without a table. */
  ghost function MissingPlaces(m: Memory, root: Frame, p: Path): set<Path> {
    match p
    case Root => {}
    case Sub(q, _) => MissingPlaces(m, root, q) + if TableAt(m, root, p).None? then {p} else {}
  }

  lemma {:induction false} MissingPlacesAre(m: Memory, root: Frame, p: Path)
    ensures |MissingPlaces(m, root, p)| == Missing(m, root, p)
    ensures forall q :: q in MissingPlaces(m, root, p) ==> Under(p, q) && q != Root && TableAt(m, root, q).None?
  {
    hide TableAt;
    if p != Root {
      MissingPlacesAre(m, root, p.parent);
      if p in MissingPlaces(m, root, p.parent) {
        UnderDepth(p.parent, p);
      }
    }
  }

  /** Where the pages with the new one fit, there is a free frame for each missing table. */
  lemma {:induction false} EnoughForMap(m: Memory, free: set<nat>, root: Frame, r: Request)
    requires IsTree(m, root) && Populated(m, root) && Tables(m, root) !! free
    requires r.MapRequest? && FitsIn(After(PagesOf(m, root), r), |Tables(m, root)| + |free|)
    ensures Missing(m, root, PlaceOf(r).parent) <= |free|
  {
    var pages, slot := PagesOf(m, root), PlaceOf(r);
    if Succeeds(pages, r) {
      var places: set<Path> :| |places| < |Tables(m, root)| + |free| && CoversTables(After(pages, r), places);
      MissingInPlaces(m, root, slot, WordOf(r), places);
    } else {
      NothingMissing(m, root, slot);
    }
  }

  lemma {:induction false} MissingInPlaces(m: Memory, root: Frame, slot: Path, w: bv64, places: set<Path>)
    requires IsTree(m, root) && Populated(m, root) && slot.Sub?
    requires CoversTables(PagesOf(m, root)[slot := w], places)
    ensures |Tables(m, root)| + Missing(m, root, slot.parent) <= |places| + 1
  {
    var pages := PagesOf(m, root);
    var missing := MissingPlaces(m, root, slot.parent);
    MissingPlacesAre(m, root, slot.parent);
    RootTable(m, root);
    InTables(m, root, Root);
    var others := Tables(m, root) - {root};
    assert forall f :: f in others ==> IsTable(m, root, f);
    hide LeafAt, Populated, PagesOf, CoversTables, Missing, MissingPlaces;
    var phi := map f | f in others :: PathTo(m, root, f);
    forall f | f in others ensures phi[f] in places - missing {
      TableIffPageBelow(m, root, phi[f]);
      PlaceCovered(pages, slot, w, places, phi[f]);
    }
    forall q | q in missing ensures q in places {
      BelowParent(slot, q);
      PlaceCovered(pages, slot, w, places, q);
    }
    InjectionCardinality(others, places - missing, phi);
    assert |places - missing| == |places| - |missing|;
    assert |others| == |Tables(m, root)| - 1;
  }

  lemma {:induction false} BelowParent(slot: Path, q: Path)
    requires slot.Sub? && Under(slot.parent, q)
    ensures Under(slot, q) && q != slot
  {
    if q == slot {
      UnderDepth(slot.parent, q);
    }
  }

  lemma {:induction false} PlaceCovered(pages: Pages, slot: Path, w: bv64, places: set<Path>, p: Path)
    requires CoversTables(pages[slot := w], places) && p != Root
    requires PageBelow(pages, p) || (Under(slot, p) && slot != p)
    ensures p in places
  {
    hide Under;
    if PageBelow(pages, p) {
      var s :| s in pages && Under(s, p) && s != p;
      assert s in pages[slot := w];
    } else {
      assert slot in pages[slot := w];
    }
    assert PageBelow(pages[slot := w], p);
  }

  lemma {:induction false} NothingMissing(m: Memory, root: Frame, slot: Path)
    requires Populated(m, root) && slot.Sub? && (slot in PagesOf(m, root) || PageBelow(PagesOf(m, root), slot))
    ensures Missing(m, root, slot.parent) == 0
  {
    hide Populated;
    TableIffPageBelow(m, root, slot);
    assert TableAt(m, root, slot.parent).Some?;
    NoneMissing(m, root, slot.parent);
  }

  lemma {:induction false} NoneMissing(m: Memory, root: Frame, p: Path)
    requires TableAt(m, root, p).Some?
    ensures Missing(m, root, p) == 0
  {
    if p != Root {
      NoneMissing(m, root, p.parent);
    }
  }

  // ---------- Performing requests ----------

  /** One request. A map needs the frames for its pages, an unmap needs none. */
  method PerformOne(paging: P.Paging, root: Frame, r: Request) returns (ok: bool)
    requires paging.Ready(root) && Accepts(PagesOf(paging.mem, root), r)
    requires r.MapRequest? ==> FitsIn(After(PagesOf(paging.mem, root), r), FramesOf(paging, root))
    modifies paging`mem, paging`tlb, paging.pmm.Repr
    ensures paging.Ready(root) && paging.pmm.Repr == old(paging.pmm.Repr)
    ensures ok == Succeeds(PagesOf(old(paging.mem), root), r)
    ensures PagesOf(paging.mem, root) == After(PagesOf(old(paging.mem), root), r)
    ensures Conserved(old(paging.mem), old(paging.pmm.FreeFrames()), paging.mem, paging.pmm.FreeFrames(), root)
    ensures FramesOf(paging, root) == old(FramesOf(paging, root))
  {
    hide *;
    paging.ReadyParts(root);
    ghost var m0, free0 := paging.mem, paging.pmm.FreeFrames();
    FramesAre(paging, root);
    AcceptedRequest(m0, root, r);
    WayIsClear(m0, root, Slot(r.virt, r.size));
    match r {
      case MapRequest(phys, virt, size, flags) =>
        EnoughForMap(m0, free0, root, r);
        paging.RegularParts(root, virt, size, flags);
        ok := paging.MapPage(root, phys, virt, size, flags);
        paging.ReadyParts(root);
        MapIsAfter(ok, m0, free0, paging.mem, paging.pmm.FreeFrames(), root, r);
      case UnmapRequest(virt, size) =>
        TableIffPageBelow(m0, root, Slot(virt, size));
        paging.RegularUnmapIs(root, virt, size);
        ok := paging.UnmapPage(root, virt, size);
        paging.ReadyParts(root);
        UnmapIsAfter(ok, m0, free0, paging.mem, paging.pmm.FreeFrames(), root, r);
    }
    FramesAre(paging, root);
    SameFrames(m0, free0, paging.mem, paging.pmm.FreeFrames(), root);
  }

  /** The frames there are for the tree: its own and the free ones. */
  ghost function FramesOf(paging: P.Paging, root: Frame): nat
    requires paging.Ready(root)
    reads paging, paging.pmm, paging.pmm.Repr
  {
    paging.ReadyParts(root);
    |Tables(paging.mem, root)| + |paging.pmm.FreeFrames()|
  }

  lemma {:induction false} FramesAre(paging: P.Paging, root: Frame)
    requires paging.Ready(root) && paging.Valid() && paging.pmm.Valid()
    ensures FramesOf(paging, root) == |Tables(paging.mem, root)| + |paging.pmm.FreeFrames()|
  {
    hide Tables, P.Paging.Ready;
  }

  lemma {:induction false} SameFrames(m0: Memory, free0: set<nat>, m: Memory, free: set<nat>, root: Frame)
    requires Conserved(m0, free0, m, free, root) && Tables(m0, root) !! free0
    ensures |Tables(m, root)| + |free| == |Tables(m0, root)| + |free0|
  {
    hide Tables;
    assert |Tables(m, root) + free| == |Tables(m, root)| + |free|;
    assert |Tables(m0, root) + free0| == |Tables(m0, root)| + |free0|;
  }

  lemma {:induction false} AcceptedRequest(m: Memory, root: Frame, r: Request)
    requires Accepts(PagesOf(m, root), r)
    ensures PlaceOf(r) == Slot(r.virt, r.size) && Slot(r.virt, r.size).Sub? && Slot(r.virt, r.size) != Root
    ensures WayClear(PagesOf(m, root), Slot(r.virt, r.size))
    ensures r.MapRequest? ==> && Present(r.flags) && (r.size != Size4KB ==> Large(r.flags))
                              && WordOf(r) == CreateEntry(r.phys, r.flags, LevelOf(r.size), Page)
    ensures r.UnmapRequest? ==> !PageBelow(PagesOf(m, root), Slot(r.virt, r.size))
  {
    hide PagesOf, WayClear, PageBelow, Slot, Present, Large, CreateEntry;
  }

  /** At every moment of the run the tables for the pages fit into so many frames. */
  ghost predicate AlwaysFits(pages: Pages, rs: seq<Request>, frames: nat) {
    forall i :: 0 < i <= |rs| ==> FitsIn(AfterAll(pages, rs[..i]), frames)
  }

  /** Any sequence of requests that are in order, of any length, whose pages always fit: each succeeds or
      fails as the map says, and in the end the tree has the pages of the map. */
  method Perform(paging: P.Paging, root: Frame, rs: seq<Request>) returns (answers: seq<bool>)
    requires paging.Ready(root) && AllAccepted(PagesOf(paging.mem, root), rs)
    requires AlwaysFits(PagesOf(paging.mem, root), rs, FramesOf(paging, root))
    modifies paging`mem, paging`tlb, paging.pmm.Repr
    ensures paging.Ready(root) && paging.pmm.Repr == old(paging.pmm.Repr)
    ensures PagesOf(paging.mem, root) == AfterAll(PagesOf(old(paging.mem), root), rs)
    ensures Conserved(old(paging.mem), old(paging.pmm.FreeFrames()), paging.mem, paging.pmm.FreeFrames(), root)
    ensures |answers| == |rs|
    ensures forall i :: 0 <= i < |rs| ==>
              answers[i] == Succeeds(AfterAll(PagesOf(old(paging.mem), root), rs[..i]), rs[i])
  {
    hide *;
    ghost var pages, m0, frames := PagesOf(paging.mem, root), paging.mem, FramesOf(paging, root);
    NothingYet(pages);
    paging.ReadyParts(root);
    ghost var free0 := paging.pmm.FreeFrames();
    StillConserved(m0, free0, m0, free0, m0, free0, root);
    answers := [];
    assert rs[..0] == [];
    while |answers| < |rs|
      invariant |answers| <= |rs| && paging.Ready(root) && paging.Valid() && paging.pmm.Valid()
      invariant paging.pmm.Repr == old(paging.pmm.Repr) && FramesOf(paging, root) == frames
      invariant Conserved(m0, free0, paging.mem, paging.pmm.FreeFrames(), root)
      invariant PagesOf(paging.mem, root) == AfterAll(pages, rs[..|answers|])
      invariant forall i :: 0 <= i < |answers| ==> answers[i] == Succeeds(AfterAll(pages, rs[..i]), rs[i])
    {
      OneMore(pages, rs, |answers|, frames);
      ghost var m1, free1 := paging.mem, paging.pmm.FreeFrames();
      var ok := PerformOne(paging, root, rs[|answers|]);
      paging.ReadyParts(root);
      StillConserved(m0, free0, m1, free1, paging.mem, paging.pmm.FreeFrames(), root);
      answers := answers + [ok];
    }
    assert rs[..|rs|] == rs;
  }

  lemma {:induction false} StillConserved(m0: Memory, free0: set<nat>, m1: Memory, free1: set<nat>, m: Memory,
          free: set<nat>, root: Frame)
    requires Tables(m0, root) !! free0
    ensures Conserved(m0, free0, m0, free0, root)
    ensures Conserved(m0, free0, m1, free1, root) && Conserved(m1, free1, m, free, root)
            ==> Conserved(m0, free0, m, free, root)
  {
  }

  lemma {:induction false} NothingYet(pages: Pages)
    ensures AfterAll(pages, []) == pages
  {
  }

  lemma {:induction false} OneMore(pages: Pages, rs: seq<Request>, i: nat, frames: nat)
    requires i < |rs| && AllAccepted(pages, rs) && AlwaysFits(pages, rs, frames)
    ensures Accepts(AfterAll(pages, rs[..i]), rs[i])
    ensures AfterAll(pages, rs[..i + 1]) == After(AfterAll(pages, rs[..i]), rs[i])
    ensures FitsIn(After(AfterAll(pages, rs[..i]), rs[i]), frames)
  {
    hide After, Accepts, FitsIn;
    assert rs[..i + 1][..i] == rs[..i];
    assert FitsIn(AfterAll(pages, rs[..i + 1]), frames);
  }
}
