/** The page allocator: a table of regions, each with its bitmap (kernel/src/memory/pmm.c). */
module Pmm {
  import opened Bitmaps
  import opened PmmRegion
  import opened PmmLayout
  import opened Powers

  const PMM_PAGE_FREE: nat := 0
  const PMM_PAGE_USED: nat := 1
  const PMM_PAGE_NOT_FOUND: nat := 2

  datatype ErrorCode = PmmOk | InitFailed | AddressNotFound

  /** What a region lookup comes to. `Stray` is a probe past the end of the region table,
      which C leaves undefined. */
  datatype Lookup = Found(index: nat) | NotFound | Stray(index: nat)

  // size_t arithmetic.
  function Wrap(x: int): nat { x % 0x1_0000_0000_0000_0000 }

  // ---------- The region table as a value ----------

  type Table = seq<RegionView>

  /** Every region is consistent, and they lie in memory in order. */
  ghost predicate Good(t: Table) {
    && |t| < 0x1_0000_0000
    && (forall i :: 0 <= i < |t| ==> t[i].Ok())
    && (forall i, j :: 0 <= i < j < |t| ==> t[i].base + t[i].length <= t[j].base)
  }

  /** The free frames: what alloc chooses from. */
  ghost function FreeOf(t: Table): set<nat>
    requires Good(t)
  {
    set i, f | 0 <= i < |t| && f in t[i].Free() :: f
  }

  /** All frames of usable regions, free or not. */
  ghost function ManagedOf(t: Table): set<nat> {
    set i, f | 0 <= i < |t| && t[i].kind == Usable && f in t[i].Frames() :: f
  }

  /** Two regions share no frame. */
  lemma {:induction false} RegionsDisjoint(t: Table, i: nat, j: nat, f: nat)
    requires Good(t) && i < |t| && j < |t| && i != j && f in t[i].Frames()
    ensures f !in t[j].Frames()
  {
  }

  ghost function Taken(r: RegionView, address: nat): RegionView
    requires r.Ok() && address / 4096 in r.Free()
  {
    TakeConsistent(r.bytes, r.base, r.length, r.freePages, r.kind, address);
    r.(bytes := MarkedUsed(r.bytes, (address - r.base) / 4096), freePages := r.freePages - 1)
  }

  ghost function Given(r: RegionView, address: nat): RegionView
    requires r.Ok() && r.kind == Usable
    requires address / 4096 in FrameRange(r.base / 4096, r.length / 4096) && address / 4096 !in r.Free()
  {
    GiveConsistent(r.bytes, r.base, r.length, r.freePages, address);
    r.(bytes := MarkedFree(r.bytes, (address - r.base) / 4096), freePages := r.freePages + 1)
  }

  /** Taking a free page from one region takes exactly that frame from the allocator. */
  lemma {:induction false} TakeFromTable(t: Table, i: nat, address: nat)
    requires Good(t) && i < |t| && address / 4096 in t[i].Free()
    ensures var t' := t[i := Taken(t[i], address)];
            Good(t') && FreeOf(t') == FreeOf(t) - {address / 4096} && ManagedOf(t') == ManagedOf(t)
  {
    var t' := t[i := Taken(t[i], address)];
    TakeConsistent(t[i].bytes, t[i].base, t[i].length, t[i].freePages, t[i].kind, address);
    OthersUntouched(t, t', i, address / 4096);
  }

  /** The free frames determine the counters: two states of the same regions with the same free
      frames count the same free pages, region by region. */
  lemma {:induction false} CountersFollowFrames(t: Table, t': Table, i: nat)
    requires Good(t) && Good(t') && |t| == |t'| && i < |t| && FreeOf(t) == FreeOf(t')
    requires forall j :: 0 <= j < |t| ==> t[j].base == t'[j].base && t[j].length == t'[j].length
    ensures t[i].freePages == t'[i].freePages
  {
    hide Consistent, FreeIn, FrameRange;
    FreeHere(t, i);
    FreeHere(t', i);
    SameCount(t[i], t'[i]);
  }

  lemma {:induction false} FreeHere(t: Table, i: nat)
    requires Good(t) && i < |t|
    ensures t[i].Free() == FreeOf(t) * t[i].Frames()
  {
    hide Consistent, FreeIn, FrameRange;
    FreeAreFrames(t[i]);
    forall f | f in FreeOf(t) && f in t[i].Frames() ensures f in t[i].Free() {
      FreeInRegion(t, i, f);
    }
  }

  lemma {:induction false} SameCount(r: RegionView, r': RegionView)
    requires r.Ok() && r'.Ok() && r.base == r'.base && r.length == r'.length && r.Free() == r'.Free()
    ensures r.freePages == r'.freePages
  {
    hide Used, CountFree;
    forall p: nat | p < r.length / 4096 ensures Used(r.bytes, p) == Used(r'.bytes, p) {
      var f := r.base / 4096 + p;
      assert (f in r.Free()) == !Used(r.bytes, p);
      assert (f in r'.Free()) == !Used(r'.bytes, p);
    }
    CountSame(r.bytes, r'.bytes, r.length / 4096);
  }

  /** Giving a page back to one region gives exactly that frame to the allocator. */
  lemma {:induction false} GiveToTable(t: Table, i: nat, address: nat)
    requires Good(t) && i < |t| && t[i].kind == Usable
    requires address / 4096 in t[i].Frames() && address / 4096 !in t[i].Free()
    ensures var t' := t[i := Given(t[i], address)];
            Good(t') && FreeOf(t') == FreeOf(t) + {address / 4096} && ManagedOf(t') == ManagedOf(t)
  {
    var t' := t[i := Given(t[i], address)];
    GiveConsistent(t[i].bytes, t[i].base, t[i].length, t[i].freePages, address);
    OthersUntouched(t, t', i, address / 4096);
  }

  lemma {:induction false} OthersUntouched(t: Table, t': Table, i: nat, frame: nat)
    requires Good(t) && i < |t| == |t'| && t' == t[i := t'[i]] && frame in t[i].Frames() && t'[i].Ok()
    requires t'[i].base == t[i].base && t'[i].length == t[i].length && t'[i].kind == t[i].kind
    ensures Good(t') && ManagedOf(t') == ManagedOf(t)
    ensures t'[i].Free() == t[i].Free() - {frame} ==> FreeOf(t') == FreeOf(t) - {frame}
    ensures t'[i].Free() == t[i].Free() + {frame} ==> FreeOf(t') == FreeOf(t) + {frame}
  {
    hide Consistent, FreeIn, FrameRange;
    FreeAreFrames(t[i]);
    forall j | 0 <= j < |t| && j != i ensures t[j].Free() !! t[i].Frames() {
      FreeAreFrames(t[j]);
      forall f | f in t[j].Free() ensures f !in t[i].Frames() {
        RegionsDisjoint(t, j, i, f);
      }
    }
    forall j | 0 <= j < |t| ensures t'[j].Ok() && t'[j].Frames() == t[j].Frames() {
    }
    assert t'[i].Free() <= t[i].Frames() by { FreeAreFrames(t'[i]); }
    forall f ensures f in FreeOf(t') <==> if f in t[i].Frames() then f in t'[i].Free() else f in FreeOf(t) {
      if f !in t[i].Frames() && f in FreeOf(t) {
        var j :| 0 <= j < |t| && f in t[j].Free();
        assert f in t'[j].Free();
      }
    }
    forall f | f in t[i].Frames() ensures f in FreeOf(t) <==> f in t[i].Free() {
    }
  }

  lemma {:induction false} FreeAreFrames(r: RegionView)
    requires r.Ok()
    ensures r.Free() <= r.Frames()
    ensures r.kind != Usable ==> r.Free() == {}
  {
  }

  lemma {:induction false} FreeOfUsable(t: Table)
    requires Good(t)
    ensures FreeOf(t) <= ManagedOf(t)
  {
    forall f | f in FreeOf(t) ensures f in ManagedOf(t) {
      var i :| 0 <= i < |t| && f in t[i].Free();
      FreeAreFrames(t[i]);
    }
  }

  // ---------- Binary search ----------

  /** For an address in no region the search window runs empty, its unsigned bounds wrap,
      and the next probe lies past the table - unless the probes run out first. That they do
      only for at most two regions. */
  predicate SearchEnds(t: seq<Region>, address: nat) {
    |t| <= 1 || (|t| == 2 && t[0].base <= address)
  }

  ghost predicate Ordered(t: seq<Region>) {
    && |t| < 0x1_0000_0000
    && (forall i :: 0 <= i < |t| ==> 0 < t[i].length)
    && (forall i, j :: 0 <= i < j < |t| ==> t[i].base + t[i].length <= t[j].base)
  }

  // A window of w slots reached after i halvings of one of n.
  ghost predicate Halved(i: nat, w: nat, n: nat) {
    Pow2(i) * w <= n
  }

  lemma {:induction false} HalveAgain(i: nat, w: nat, w': nat, n: nat)
    requires Halved(i, w, n) && 2 * w' <= w
    ensures Halved(i + 1, w', n)
  {
    assert Pow2(i + 1) * w' == Pow2(i) * (2 * w');
    assert Pow2(i) * (2 * w') <= Pow2(i) * w;
  }

  lemma {:induction false} ProbesSoFar(i: nat, w: nat, n: nat)
    requires Halved(i, w, n) && 0 < w
    ensures Pow2(i) <= n && i < n
    ensures i + 1 >= n ==> n <= 2
  {
    hide Pow2;
    assert Pow2(i) * 1 <= Pow2(i) * w;
    Pow2Grows(i);
  }

  /** Where the search probes: in the middle of a window that is not empty, past the table
      for one that is (its upper bound is lower - 1, wrapped). */
  function Probe(lower: nat, upper: nat): nat {
    Wrap(lower + Wrap(upper - lower) / 2)
  }

  lemma {:induction false} ProbeInWindow(lower: nat, end: nat, n: nat)
    requires lower <= end <= n < 0x1_0000_0000
    ensures var index := Probe(lower, Wrap(end - 1));
            if lower == end then index >= n else lower <= index < end && index == lower + (end - 1 - lower) / 2
  {
    hide Wrap;
    WrapSmall(end - 1);
    if lower == end {
      if end > 0 {
        assert Wrap(end - 1) - lower == -1;
      }
      WrapSmall(lower + SIZE_MAX / 2);
      WrapSmall(SIZE_MAX);
    } else {
      WrapSmall(end - 1 - lower);
      WrapSmall(lower + (end - 1 - lower) / 2);
    }
  }

  lemma {:induction false} WrapSmall(x: int)
    ensures 0 <= x <= SIZE_MAX ==> Wrap(x) == x
    ensures Wrap(-1) == SIZE_MAX
  {
  }

  /** The state of the search after i probes, all in vain: the regions before `lower` end at
      or below the address, those from `end` on start above it, and the window between has
      halved with every probe. */
  ghost predicate Searching(t: seq<Region>, address: nat, i: nat, lower: nat, end: nat) {
    && lower <= end <= |t| && i <= |t|
    && (forall j :: 0 <= j < lower ==> t[j].base + t[j].length <= address)
    && (forall j :: end <= j < |t| ==> address < t[j].base)
    && Halved(i, end - lower, |t|)
    && (i == 0 ==> lower == 0 && end == |t|)
    && (|t| == 2 && i == 1 ==> if address < t[0].base then end == 0 else lower == 1 && end == 2)
    && (i == |t| ==> SearchEnds(t, address))
  }

  lemma {:induction false} SearchStarts(t: seq<Region>, address: nat)
    requires Ordered(t)
    ensures |t| < 0x1_0000_0000 && Searching(t, address, 0, 0, |t|)
  {
  }

  lemma {:induction false} SearchHits(t: seq<Region>, address: nat, i: nat, lower: nat, end: nat, index: nat)
    requires Ordered(t) && Searching(t, address, i, lower, end) && lower < end && index < |t|
    requires t[index].base <= address <= t[index].base + t[index].length - 1
    ensures t[index].Contains(address) && Pow2(i) <= |t|
  {
    hide Pow2, Halved;
    ProbesSoFar(i, end - lower, |t|);
  }

  lemma {:induction false} SearchBelow(t: seq<Region>, address: nat, i: nat, lower: nat, end: nat)
    requires Ordered(t) && Searching(t, address, i, lower, end) && lower < end && i < |t|
    requires address < t[lower + (end - 1 - lower) / 2].base
    ensures Searching(t, address, i + 1, lower, lower + (end - 1 - lower) / 2)
  {
    var index := lower + (end - 1 - lower) / 2;
    hide Pow2, Halved;
    ProbesSoFar(i, end - lower, |t|);
    HalveAgain(i, end - lower, index - lower, |t|);
    assert forall j :: index < j < |t| ==> t[index].base + t[index].length <= t[j].base;
  }

  lemma {:induction false} SearchAbove(t: seq<Region>, address: nat, i: nat, lower: nat, end: nat)
    requires Ordered(t) && Searching(t, address, i, lower, end) && lower < end && i < |t|
    requires var index := lower + (end - 1 - lower) / 2; t[index].base + t[index].length <= address
    ensures Searching(t, address, i + 1, lower + (end - 1 - lower) / 2 + 1, end)
  {
    var index := lower + (end - 1 - lower) / 2;
    hide Pow2, Halved;
    ProbesSoFar(i, end - lower, |t|);
    HalveAgain(i, end - lower, end - index - 1, |t|);
    assert forall j :: 0 <= j < index ==> t[j].base + t[j].length <= t[index].base;
  }

  lemma {:induction false} SearchFails(t: seq<Region>, address: nat, i: nat, lower: nat, end: nat)
    requires Searching(t, address, i, lower, end) && (lower == end || i == |t|)
    ensures forall j :: 0 <= j < |t| ==> !t[j].Contains(address)
    ensures i < |t| ==> !SearchEnds(t, address)
    ensures i == |t| ==> SearchEnds(t, address)
  {
    if lower < end {
      ProbesSoFar(i, end - lower, |t|);
    }
  }

  /** get_region_containing_page. An address in a region is found, in at most
      floor(log2 n) + 1 probes, so the cap of n probes never cuts the search short. For any
      other address the outcome depends on the number of regions, see SearchEnds. */
  method FindRegion(regions: seq<Region>, address: nat) returns (r: Lookup, ghost probes: nat)
    requires Ordered(regions)
    ensures r.Found? ==> && r.index < |regions| && regions[r.index].Contains(address)
                         && 0 < probes <= |regions| && Pow2(probes - 1) <= |regions|
    ensures !r.Found? ==> forall i :: 0 <= i < |regions| ==> !regions[i].Contains(address)
    ensures r.NotFound? ==> SearchEnds(regions, address)
    ensures r.Stray? ==> !SearchEnds(regions, address) && r.index >= |regions|
  {
    hide *;
    var lower, upper := 0, Wrap(|regions| - 1);
    ghost var end := |regions|;  // one past the upper bound, which wraps when this is 0
    SearchStarts(regions, address);
    var i := 0;
    probes := 0;
    while i < |regions|
      invariant i <= |regions| && probes == i && lower <= end <= |regions| && upper == Wrap(end - 1)
      invariant Searching(regions, address, i, lower, end)
    {
      ProbeInWindow(lower, end, |regions|);
      var index := Probe(lower, upper);
      if index >= |regions| {
        SearchFails(regions, address, i, lower, end);
        return Stray(index), probes;
      }
      probes := probes + 1;
      if regions[index].base > address {
        SearchBelow(regions, address, i, lower, end);
        upper := Wrap(index - 1);
        end := index;
      } else if address > regions[index].base + regions[index].length - 1 {
        SearchAbove(regions, address, i, lower, end);
        lower := index + 1;
      } else {
        SearchHits(regions, address, i, lower, end, index);
        return Found(index), probes;
      }
      i := i + 1;
    }
    SearchFails(regions, address, i, lower, end);
    r := NotFound;
  }

  // ---------- Rotating scans ----------

  /** Scanning n slots from a cached position c: slot j of the scan is this one. */
  lemma {:induction false} RotatedIndex(j: nat, c: nat, n: nat)
    requires j < n
    ensures (j + c) % n == if c % n + j < n then c % n + j else c % n + j - n
  {
    var q, r := c / n, c % n;
    assert c == q * n + r;
    ModUnique(j + c, n, if r + j < n then q else q + 1, if r + j < n then r + j else r + j - n);
  }

  lemma {:induction false} ModUnique(x: nat, n: nat, q: nat, r: nat)
    requires 0 < n && r < n && x == q * n + r
    ensures x % n == r
  {
    var d := x / n - q;
    assert x == x / n * n + x % n;
    assert d * n == r - x % n;
  }

  /** The slot a scan of n slots looks at in its j-th step, when it starts at a cached position. */
  function ScanSlot(j: nat, cache: nat, n: nat): (slot: nat)
    requires 0 < n
    ensures slot < n
  {
    (j + cache) % n
  }

  // Slot b is among the first j slots of that scan.
  ghost predicate Scanned(b: nat, j: nat, cache: nat, n: nat)
    requires 0 < n
  {
    cache % n <= b < cache % n + j || b + n < cache % n + j
  }

  lemma {:induction false} ScanNext(j: nat, cache: nat, n: nat)
    requires j < n
    ensures ScanSlot(j, cache, n) < n
    ensures forall b: nat :: b < n && Scanned(b, j + 1, cache, n) ==>
              b == ScanSlot(j, cache, n) || Scanned(b, j, cache, n)
  {
    RotatedIndex(j, cache, n);
  }

  /** A scan starts with no slot seen and wraps around to see every one. */
  lemma {:induction false} ScanAll(cache: nat, n: nat)
    requires 0 < n
    ensures forall b: nat :: b < n ==> !Scanned(b, 0, cache, n) && Scanned(b, n, cache, n)
  {
  }

  /** A region whose counter promises a free page has a byte other than 0xFF. */
  lemma {:induction false} SomeByteNotFull(bytes: seq<bv8>, base: nat, length: nat, freePages: nat, kind: MemoryType)
    requires Consistent(bytes, base, length, freePages, kind) && freePages > 0
    ensures exists b :: 0 <= b < |bytes| && bytes[b] != 0xff
  {
    CountPositive(bytes, length / 4096);
    var p: nat :| p < length / 4096 && !Used(bytes, p);
    FullByte(bytes[p / 8]);
  }

  /** The lowest clear bit of any byte other than 0xFF stands for a page of the region. */
  lemma {:induction false} LowestClearIsPage(bytes: seq<bv8>, base: nat, length: nat, freePages: nat,
          kind: MemoryType, index: nat, k: nat)
    requires Consistent(bytes, base, length, freePages, kind) && freePages > 0
    requires index < |bytes| && k < 8 && !Bit(bytes[index], k)
    requires forall l: nat :: l < k ==> Bit(bytes[index], l)
    ensures 8 * index + k < length / 4096 && !Used(bytes, 8 * index + k)
  {
    hide Bit, Used;
    CountPositive(bytes, length / 4096);
    if kind == Usable {
      LowestClearInside(bytes, length / 4096, index, k);
    }
    assert Used(bytes, 8 * index + k) == Bit(bytes[index], k) by { UsedBit(bytes, index, k); }
  }

  lemma {:induction false} UsedBit(bytes: seq<bv8>, index: nat, k: nat)
    requires index < |bytes| && k < 8
    ensures Used(bytes, 8 * index + k) == Bit(bytes[index], k)
  {
  }

  // ---------- Page counts ----------

  ghost predicate LowestClear(byte: bv8, k: nat) {
    k < 8 && !Bit(byte, k) && forall l: nat :: l < k ==> Bit(byte, l)
  }

  lemma {:induction false} LowestClearInside(bytes: seq<bv8>, pages: nat, index: nat, k: nat)
    requires pages % 8 == 0 || pages < 8
    requires |bytes| == BitmapSize(pages) && CountFree(bytes, pages) > 0
    requires index < |bytes| && LowestClear(bytes[index], k)
    ensures 8 * index + k < pages
  {
    hide Bit;
    CountPositive(bytes, pages);
    var p: nat :| p < pages && !Used(bytes, p);
    if pages < 8 {
      assert p / 8 == 0 == index;
    }
  }

  /** What the scan of pmm_alloc does with a bitmap, from a cached position on: it stops at the first
      byte that is not 0xFF, remembers it, and picks the page of its lowest clear bit. */
  ghost predicate Picks(bytes: seq<bv8>, cache: nat, cache': nat, page: nat) {
    && page / 8 == cache' < |bytes| && LowestClear(bytes[cache'], page % 8)
    && exists j: nat :: j < |bytes| && StopsAt(bytes, cache, j) && ScanSlot(j, cache, |bytes|) == cache'
  }

  ghost predicate StopsAt(bytes: seq<bv8>, cache: nat, j: nat)
    requires j < |bytes|
  {
    && bytes[ScanSlot(j, cache, |bytes|)] != 0xff
    && forall i: nat :: i < j ==> bytes[ScanSlot(i, cache, |bytes|)] == 0xff
  }

  lemma {:induction false} PickedPage(bytes: seq<bv8>, cache: nat, j: nat, index: nat, k: nat)
    requires j < |bytes| && index == ScanSlot(j, cache, |bytes|) && StopsAt(bytes, cache, j)
    requires index < |bytes| && LowestClear(bytes[index], k)
    ensures Picks(bytes, cache, index, 8 * index + k)
  {
    assert k < 8;
    hide ScanSlot, StopsAt, LowestClear;
  }

  /** The region pmm_alloc chooses: the first from the cached one on that counts a free page. */
  ghost predicate FirstWithFree(t: Table, cache: nat, index: nat) {
    && index < |t| && t[index].freePages != 0
    && exists j: nat :: j < |t| && ScanSlot(j, cache, |t|) == index && NoneBefore(t, cache, j)
  }

  ghost predicate NoneBefore(t: Table, cache: nat, j: nat)
    requires |t| > 0
  {
    forall i: nat :: i < j ==> t[ScanSlot(i, cache, |t|)].freePages == 0
  }

  /** The page pmm_alloc chooses, and what it remembers of it. */
  ghost predicate Chooses(t: Table, regionCache: nat, bitmapCache: nat, index: nat, byte: nat, address: nat) {
    && FirstWithFree(t, regionCache, index)
    && exists page :: PickedAt(t[index], bitmapCache, byte, page, address)
  }

  ghost predicate PickedAt(r: RegionView, cache: nat, cache': nat, page: nat, address: nat) {
    address == r.base + 4096 * page && Picks(r.bytes, cache, cache', page)
  }

  lemma {:induction false} ChosenPage(t: Table, regionCache: nat, bitmapCache: nat, index: nat, byte: nat, page: nat,
          address: nat)
    requires FirstWithFree(t, regionCache, index) && PickedAt(t[index], bitmapCache, byte, page, address)
    ensures Chooses(t, regionCache, bitmapCache, index, byte, address)
  {
    hide PickedAt;
  }

  lemma {:induction false} FirstFound(t: Table, cache: nat, j: nat, index: nat)
    requires j < |t| && ScanSlot(j, cache, |t|) == index < |t| && t[index].freePages != 0
    requires NoneBefore(t, cache, j)
    ensures FirstWithFree(t, cache, index)
  {
    hide ScanSlot, NoneBefore;
  }

  class Pmm {
    var regions: seq<Region>
    var regionCache: nat
    var bitmapCache: nat
    ghost var Repr: set<object>

    ghost function View(): Table
      requires forall i :: 0 <= i < |regions| ==> regions[i] in Repr && regions[i].bitmap in Repr
      reads this, Repr
    {
      seq(|regions|, i requires 0 <= i < |regions| && regions[i] in Repr && regions[i].bitmap in Repr
                        reads this, Repr => regions[i].View())
    }

    ghost predicate Valid()
      reads this, Repr
    {
      && this in Repr
      && (forall i :: 0 <= i < |regions| ==>
            regions[i] in Repr && regions[i].bitmap in Repr && regions[i].bitmapSize == regions[i].bitmap.Length)
      && (forall i, j :: 0 <= i < j < |regions| ==>
            regions[i] != regions[j] && regions[i].bitmap != regions[j].bitmap)
      && Good(View())
    }

    ghost function FreeFrames(): set<nat>
      requires Valid()
      reads this, Repr
    {
      FreeOf(View())
    }

    ghost function Managed(): set<nat>
      requires Valid()
      reads this, Repr
    {
      ManagedOf(View())
    }

    /** Only frames of usable regions are ever free. */
    lemma {:induction false} FreeIsManaged()
      requires Valid()
      ensures FreeFrames() <= Managed()
    {
      FreeOfUsable(View());
    }

    /** The scan of pmm_alloc over the bits of a byte. */
    method FindClearBit(byte: bv8) returns (k: nat)
      requires byte != 0xff
      ensures k < 8 && !Bit(byte, k) && forall l: nat :: l < k ==> Bit(byte, l)
    {
      k := 0;
      while k < 8 && Bit(byte, k)
        invariant k <= 8 && forall l: nat :: l < k ==> Bit(byte, l)
      {
        k := k + 1;
      }
      FullByte(byte);
    }

    /** The scan of pmm_alloc over a bitmap, for any region that has a byte other than 0xFF. */
    method ScanBitmap(r: Region) returns (page: nat)
      requires r.bitmapSize == r.bitmap.Length && exists b :: 0 <= b < |r.bitmap[..]| && r.bitmap[..][b] != 0xff
      modifies this`bitmapCache
      ensures Picks(r.bitmap[..], old(bitmapCache), bitmapCache, page)
    {
      hide *;
      page := 0;
      ghost var bytes, n, cache := r.bitmap[..], r.bitmapSize, bitmapCache;
      ScanAll(bitmapCache, n);
      var j := 0;
      while j < r.bitmapSize
        invariant j <= n && bitmapCache == cache
        invariant forall b: nat :: b < n && Scanned(b, j, cache, n) ==> bytes[b] == 0xff
        invariant forall i: nat :: i < j ==> bytes[ScanSlot(i, cache, n)] == 0xff
      {
        ScanNext(j, bitmapCache, n);
        var index := ScanSlot(j, bitmapCache, r.bitmapSize);
        if r.bitmap[index] == 0xff {
          j := j + 1;
          continue;
        }
        bitmapCache := index;
        var k := FindClearBit(r.bitmap[index]);
        StopsHere(bytes, cache, j, index, k);
        return 8 * index + k;
      }
      assert false;
    }

    lemma {:induction false} StopsHere(bytes: seq<bv8>, cache: nat, j: nat, index: nat, k: nat)
      requires j < |bytes| && index == ScanSlot(j, cache, |bytes|) && bytes[index] != 0xff
      requires forall i: nat :: i < j ==> bytes[ScanSlot(i, cache, |bytes|)] == 0xff
      requires k < 8 && !Bit(bytes[index], k) && forall l: nat :: l < k ==> Bit(bytes[index], l)
      ensures Picks(bytes, cache, index, 8 * index + k)
    {
      hide ScanSlot, Bit;
      PickedPage(bytes, cache, j, index, k);
    }

    /** The same for a region that is in order and whose counter promises a free page: the scan does
        find one, and that page is one of the region's. */
    method FindFreePage(r: Region) returns (page: nat)
      requires r.Valid() && r.freePages != 0
      modifies this`bitmapCache
      ensures page < r.length / 4096 <= 8 * r.bitmap.Length && !Used(r.bitmap[..], page)
      ensures Picks(r.bitmap[..], old(bitmapCache), bitmapCache, page)
    {
      hide *;
      ghost var bytes := r.bitmap[..];
      ValidRegion(r);
      SomeByteNotFull(bytes, r.base, r.length, r.freePages, r.kind);
      page := ScanBitmap(r);
      PickIsPage(bytes, r.base, r.length, r.freePages, r.kind, bitmapCache, page);
    }

    lemma {:induction false} PickIsPage(bytes: seq<bv8>, base: nat, length: nat, freePages: nat, kind: MemoryType,
            cache': nat, page: nat)
      requires Consistent(bytes, base, length, freePages, kind) && freePages > 0
      requires exists cache :: Picks(bytes, cache, cache', page)
      ensures page < length / 4096 && !Used(bytes, page)
    {
      hide Consistent, Bit, Used;
      LowestClearIsPage(bytes, base, length, freePages, kind, cache', page % 8);
    }

    lemma {:induction false} ValidRegion(r: Region)
      requires r.Valid()
      ensures Consistent(r.bitmap[..], r.base, r.length, r.freePages, r.kind)
      ensures r.bitmapSize == r.bitmap.Length && r.length / 4096 <= 8 * r.bitmap.Length
      ensures r.freePages != 0 ==> 0 < r.bitmap.Length
    {
      CountPositive(r.bitmap[..], r.length / 4096);
    }

    /** The inner part of pmm_alloc: take a page of a region that has a free one. */
    method TakeFromRegion(r: Region, ghost index: nat) returns (address: nat)
      requires Valid() && index < |regions| && regions[index] == r && r.freePages != 0
      modifies `bitmapCache, r`freePages, r.bitmap
      ensures address != 0 && address % 4096 == 0 && address / 4096 in old(FreeFrames())
      ensures Valid() && FreeFrames() == old(FreeFrames()) - {address / 4096} && Managed() == old(Managed())
      ensures exists page :: PickedAt(old(r.View()), old(bitmapCache), bitmapCache, page, address)
    {
      hide Consistent, FreeIn, FrameRange, CountFree, Used, FreeOf, ManagedOf, Good, Picks;
      ghost var t := View();
      RegionInTable(r, index);
      var page := FindFreePage(r);
      assert View() == t;
      address := r.base + page * 4096;
      assert PickedAt(old(r.View()), old(bitmapCache), bitmapCache, page, address);
      FoundPage(t, index, page);
      MarkUsed(r, index, address);
    }

    /** A region of the table is as the table says. */
    lemma {:induction false} RegionInTable(r: Region, index: nat)
      requires Valid() && index < |regions| && regions[index] == r
      ensures r.Valid() && View()[index] == r.View()
    {
      assert View()[index] == r.View();
    }

    lemma {:induction false} TableCounters()
      requires Valid()
      ensures forall i :: 0 <= i < |regions| ==> regions[i] in Repr && regions[i].bitmap in Repr
      ensures |View()| == |regions| && forall i :: 0 <= i < |regions| ==> View()[i].freePages == regions[i].freePages
      ensures |regions| > 0 ==> NoneBefore(View(), regionCache, 0)
    {
      forall i | 0 <= i < |regions| ensures View()[i].freePages == regions[i].freePages {
        RegionInTable(regions[i], i);
      }
    }

    lemma {:induction false} NoneYet(t: Table, cache: nat, j: nat)
      requires |t| > 0 && NoneBefore(t, cache, j) && t[ScanSlot(j, cache, |t|)].freePages == 0
      ensures NoneBefore(t, cache, j + 1)
    {
    }

    /** The outer scan of pmm_alloc: it visits every region, whatever the cache says, so it
        misses (and returns |regions|) only when no region counts a free page. */
    method FindRegionWithFreePage() returns (index: nat)
      requires Valid()
      ensures index < |regions| ==> regions[index].freePages != 0
      ensures index < |regions| ==> FirstWithFree(View(), regionCache, index)
      ensures index >= |regions| ==> forall i :: 0 <= i < |regions| ==> regions[i].freePages == 0
    {
      hide *;
      TableCounters();
      ghost var n, t := |regions|, View();
      if n > 0 {
        ScanAll(regionCache, n);
      }
      var i := 0;
      while i < |regions|
        invariant i <= n
        invariant forall b: nat :: b < n && Scanned(b, i, regionCache, n) ==> regions[b].freePages == 0
        invariant n > 0 ==> NoneBefore(t, regionCache, i)
      {
        ScanNext(i, regionCache, n);
        index := ScanSlot(i, regionCache, |regions|);
        if regions[index].freePages != 0 {
          FirstFound(t, regionCache, i, index);
          return;
        }
        NoneYet(t, regionCache, i);
        i := i + 1;
      }
      index := |regions|;
    }

    /** pmm_alloc: hands out a free page, and NULL (0) exactly when there is none. Which page it is depends
        on what the caches remember of the last one. */
    method Alloc() returns (address: nat)
      requires Valid()
      modifies Repr
      ensures Valid() && Repr == old(Repr) && regions == old(regions) && Managed() == old(Managed())
      ensures address == 0 <==> old(FreeFrames()) == {}
      ensures address == 0 ==> FreeFrames() == old(FreeFrames())
      ensures address != 0 ==> && address % 4096 == 0 && address / 4096 in old(FreeFrames())
                               && FreeFrames() == old(FreeFrames()) - {address / 4096}
      ensures address != 0 ==>
                Chooses(old(View()), old(regionCache), old(bitmapCache), regionCache, bitmapCache, address)
    {
      hide Consistent, FreeOf, ManagedOf, FirstWithFree, PickedAt;
      var index := FindRegionWithFreePage();
      if index >= |regions| {
        NothingFree(View());
        return 0;
      }
      ghost var t := View();
      regionCache := index;
      assert View() == t;
      RegionInTable(regions[index], index);
      address := TakeFromRegion(regions[index], index);
      ghost var page :| PickedAt(t[index], old(bitmapCache), bitmapCache, page, address);
      ChosenPage(t, old(regionCache), old(bitmapCache), index, bitmapCache, page, address);
    }

    ghost predicate InSomeRegion(address: nat)
      reads this
    {
      exists i :: 0 <= i < |regions| && regions[i].Contains(address)
    }

    /** The table that lookups and frees see is in order. */
    lemma {:induction false} TableOrdered()
      requires Valid()
      ensures Ordered(regions)
      ensures forall i :: 0 <= i < |regions| ==> View()[i] == regions[i].View()
    {
      assert forall i :: 0 <= i < |regions| ==> View()[i] == regions[i].View();
      forall i, j | 0 <= i < j < |regions| ensures regions[i].base + regions[i].length <= regions[j].base {
        assert View()[i].base + View()[i].length <= View()[j].base;
      }
      forall i | 0 <= i < |regions| ensures 0 < regions[i].length {
        assert View()[i].Ok();
      }
    }

    /** The address of a managed frame lies in a region. */
    lemma {:induction false} ManagedInRegion(frame: nat)
      requires Valid() && frame in Managed()
      ensures InSomeRegion(4096 * frame)
    {
      TableOrdered();
      var i :| 0 <= i < |regions| && View()[i].kind == Usable && frame in View()[i].Frames();
      assert View()[i].Ok() && regions[i].Contains(4096 * frame);
    }

    /** pmm_check_page. The status is the masked bitmap byte: zero exactly for a free page, but
        for a used page it is PMM_PAGE_USED only at every eighth page, and at the page after
        each of those it reads as PMM_PAGE_NOT_FOUND. */
    method CheckPage(address: nat) returns (status: nat, ghost index: nat)
      requires Valid()
      requires !InSomeRegion(address) ==> SearchEnds(regions, address)
      ensures !InSomeRegion(address) ==> status == PMM_PAGE_NOT_FOUND
      ensures InSomeRegion(address) ==>
                && index < |regions| && regions[index].Contains(address)
                && var page := (address - regions[index].base) / 4096;
                && page < 8 * regions[index].bitmap.Length
                && (status == PMM_PAGE_FREE <==> !Used(regions[index].bitmap[..], page))
                && (status == PMM_PAGE_FREE <==> address / 4096 in FreeFrames())
                && (status != PMM_PAGE_FREE ==> status == Pow2(page % 8))
                && (status == PMM_PAGE_USED <==> Used(regions[index].bitmap[..], page) && page % 8 == 0)
                && (status == PMM_PAGE_NOT_FOUND <==> Used(regions[index].bitmap[..], page) && page % 8 == 1)
    {
      hide Bit, Mask, Used, Consistent, Pow2, Ordered, Good, SearchEnds;
      TableOrdered();
      var r, _ := FindRegion(regions, address);
      if !r.Found? {
        return PMM_PAGE_NOT_FOUND, 0;
      }
      index := r.index;
      RegionInTable(regions[r.index], index);
      FreeMeansClear(View(), index, address);
      status := StatusIn(regions[r.index], index, address);
    }

    method StatusIn(region: Region, ghost index: nat, address: nat) returns (status: nat)
      requires Valid() && index < |regions| && regions[index] == region && region.Contains(address)
      ensures var page := (address - region.base) / 4096;
              && page < 8 * region.bitmap.Length
              && (status == PMM_PAGE_FREE <==> !Used(region.bitmap[..], page))
              && (status != PMM_PAGE_FREE ==> status == Pow2(page % 8))
              && (status == PMM_PAGE_USED <==> Used(region.bitmap[..], page) && page % 8 == 0)
              && (status == PMM_PAGE_NOT_FOUND <==> Used(region.bitmap[..], page) && page % 8 == 1)
    {
      hide Bit, Mask, Consistent, Good;
      RegionInTable(region, index);
      PageInBitmap(region.View(), address);
      var page := (address - region.base) / 4096;
      StatusCode(region.bitmap[page / 8], page % 8);
      status := (region.bitmap[page / 8] & Mask(page % 8)) as nat;
    }

    /** pmm_free: gives back a page that was handed out. */
    method Free(address: nat) returns (err: ErrorCode)
      requires Valid()
      requires if InSomeRegion(address) then address / 4096 in Managed() && address / 4096 !in FreeFrames()
               else SearchEnds(regions, address)
      modifies Repr
      ensures Valid() && Repr == old(Repr) && regions == old(regions) && Managed() == old(Managed())
      ensures err == PmmOk <==> old(InSomeRegion(address))
      ensures err == PmmOk ==> FreeFrames() == old(FreeFrames()) + {address / 4096}
      ensures err != PmmOk ==> err == AddressNotFound && FreeFrames() == old(FreeFrames())
    {
      hide *;
      TableOrdered();
      InSomeRegionIs(address);
      var r, _ := FindRegion(regions, address);
      if !r.Found? {
        return AddressNotFound;
      }
      GiveToRegion(regions[r.index], r.index, address);
      return PmmOk;
    }

    lemma {:induction false} InSomeRegionIs(address: nat)
      requires Valid()
      ensures InSomeRegion(address) <==> exists i :: 0 <= i < |regions| && regions[i].Contains(address)
      ensures forall i :: 0 <= i < |regions| ==> regions[i] in Repr && regions[i].bitmap in Repr
    {
    }

    method GiveToRegion(r: Region, ghost index: nat, address: nat)
      requires Valid() && index < |regions| && regions[index] == r && r.Contains(address)
      requires address / 4096 in Managed() && address / 4096 !in FreeFrames()
      modifies r`freePages, r.bitmap
      ensures Valid() && FreeFrames() == old(FreeFrames()) + {address / 4096} && Managed() == old(Managed())
    {
      hide FreeIn, FrameRange, CountFree, Used;
      ghost var t := View();
      assert t[index] == r.View();
      AllocatedInRegion(t, index, address);
      GiveToTable(t, index, address);
      GiveConsistent(r.bitmap[..], r.base, r.length, r.freePages, address);
      var ok := r.MarkPageFree(address);
      assert View() == t[index := Given(t[index], address)];
    }

    // ---------- Init ----------

    /** An allocator before pmm_init: it manages nothing. */
    constructor ()
      ensures Valid() && FreeFrames() == {} && regions == []
      ensures regionCache == bitmapCache == 0
    {
      regions, regionCache, bitmapCache := [], 0, 0;
      Repr := {this};
    }

    /** The regions describe the first entries of the memory map, each with its own bitmap at its
        own place behind the structs. */
    ghost predicate Describes(rs: seq<Region>, memmap: seq<Entry>, base: nat)
      reads rs, set r | r in rs :: r.bitmap
    {
      && |rs| <= |memmap|
      && (forall i :: 0 <= i < |rs| ==> DescribesEntry(rs[i], memmap[i], BitmapAddress(memmap, base, i)))
      && (forall i, j :: 0 <= i < j < |rs| ==> rs[i] != rs[j] && rs[i].bitmap != rs[j].bitmap)
    }

    static ghost predicate DescribesEntry(r: Region, e: Entry, bitmapBase: nat)
      reads r, r.bitmap
    {
      r.bitmapSize == r.bitmap.Length && r.View() == FreshOf(e) && r.bitmapBase == bitmapBase
    }

    /** The first loop of pmm_init_region_structs: a struct and a bitmap for every entry. */
    method BuildRegions(memmap: seq<Entry>, base: nat) returns (rs: seq<Region>)
      ensures |rs| == |memmap| && Describes(rs, memmap, base)
      ensures forall r :: r in rs ==> fresh(r) && fresh(r.bitmap)
    {
      rs := [];
      var bitmapBase := base + |memmap| * STRUCT_SIZE;
      var i := 0;
      while i < |memmap|
        invariant |rs| == i <= |memmap| && bitmapBase == BitmapAddress(memmap, base, i)
        invariant Describes(rs, memmap, base)
        invariant forall r :: r in rs ==> fresh(r) && fresh(r.bitmap)
      {
        hide *;
        ghost var before := rs;
        var r := BuildRegion(memmap[i], bitmapBase);
        NextBitmap(memmap, base, i);
        DescribesOneMore(before, r, memmap, base);
        bitmapBase := bitmapBase + r.bitmapSize;
        rs := rs + [r];
        i := i + 1;
      }
    }

    lemma {:induction false} DescribesOneMore(rs: seq<Region>, r: Region, memmap: seq<Entry>, base: nat)
      requires Describes(rs, memmap, base) && |rs| < |memmap|
      requires DescribesEntry(r, memmap[|rs|], BitmapAddress(memmap, base, |rs|))
      requires forall q :: q in rs ==> q != r && q.bitmap != r.bitmap
      ensures Describes(rs + [r], memmap, base)
    {
      hide DescribesEntry, BitmapAddress;
      var all := rs + [r];
      forall i | 0 <= i < |all| ensures DescribesEntry(all[i], memmap[i], BitmapAddress(memmap, base, i)) {
        assert i < |rs| ==> all[i] == rs[i];
      }
      forall i, j | 0 <= i < j < |all| ensures all[i] != all[j] && all[i].bitmap != all[j].bitmap {
        assert all[i] == rs[i] && rs[i] in rs;
      }
    }

    method BuildRegion(e: Entry, bitmapBase: nat) returns (r: Region)
      ensures fresh(r) && fresh(r.bitmap) && DescribesEntry(r, e, bitmapBase)
      ensures r.bitmapSize == BitmapSize(e.length / 4096)
    {
      hide FreshView;
      r := new Region(bitmapBase, e.base, e.length, e.kind);
    }

    /** The second loop of pmm_init_region_structs: the first pages of the host region are taken. */
    method MarkMetadata(r: Region, ghost index: nat, required: nat)
      requires Valid() && index < |regions| && regions[index] == r
      requires required * 4096 <= r.length && FrameRange(r.base / 4096, r.length / 4096) <= FreeFrames()
      requires r.base % 4096 == 0
      modifies r`freePages, r.bitmap
      ensures Valid() && FreeFrames() == old(FreeFrames()) - FrameRange(r.base / 4096, required)
      ensures Managed() == old(Managed())
    {
      hide *;
      var page := 0;
      NoFrames(r.base / 4096);
      while page < required
        invariant 0 <= page <= required && Valid() && Managed() == old(Managed())
        invariant FreeFrames() == old(FreeFrames()) - FrameRange(r.base / 4096, page)
      {
        var address := r.base + page * 4096;
        NextFrame(old(FreeFrames()), r.base, r.length, page);
        MarkUsed(r, index, address);
        page := page + 1;
      }
    }

    /** pmm_region_mark_page_used on a free page of one of the regions. */
    method MarkUsed(r: Region, ghost index: nat, address: nat)
      requires Valid() && index < |regions| && regions[index] == r
      requires address / 4096 in FreeFrames() && address / 4096 in FrameRange(r.base / 4096, r.length / 4096)
      modifies r`freePages, r.bitmap
      ensures Valid() && FreeFrames() == old(FreeFrames()) - {address / 4096} && Managed() == old(Managed())
    {
      hide FreeIn, FrameRange, CountFree, Used;
      ghost var t := View();
      assert t[index] == r.View();
      FreeInRegion(t, index, address / 4096);
      TakeFromTable(t, index, address);
      TakeConsistent(r.bitmap[..], r.base, r.length, r.freePages, r.kind, address);
      var ok := r.MarkPageUsed(address);
      assert View() == t[index := Taken(t[index], address)];
    }

    /** The table built becomes the allocator's. */
    method Install(rs: seq<Region>, ghost memmap: seq<Entry>, ghost base: nat)
      requires this in Repr && WellFormed(memmap) && |rs| == |memmap| && Describes(rs, memmap, base)
      modifies `regions, `Repr
      ensures regions == rs && Repr == {this} + Footprint(rs)
      ensures Valid() && FreeFrames() == Managed() == UsableFrames(memmap)
    {
      hide FreshView, WellFormed, Consistent, BitmapAddress;
      regions := rs;
      Repr := {this} + Footprint(rs);
      FreshTableGood(memmap);
      assert forall i :: 0 <= i < |rs| ==>
          rs[i] in rs && DescribesEntry(rs[i], memmap[i], BitmapAddress(memmap, base, i));
      assert View() == FreshTable(memmap);
    }

    /** The loops of pmm_detect_memory and pmm_init that only look at the memory map. */
    static method DetectMemory(memmap: seq<Entry>) returns (regions: nat, pages: nat)
      ensures regions == |memmap| && pages == SumLengths(memmap, |memmap|) / 4096
    {
      var bytes, i := 0, 0;
      while i < |memmap|
        invariant 0 <= i <= |memmap| && bytes == SumLengths(memmap, i)
      {
        bytes := bytes + memmap[i].length;
        i := i + 1;
      }
      return |memmap|, bytes / 4096;
    }

    static method FindHost(memmap: seq<Entry>, required: nat) returns (host: nat)
      requires required == Required(memmap)
      ensures host < |memmap| ==> IsHost(memmap, host)
      ensures host >= |memmap| ==> forall i :: !IsHost(memmap, i)
    {
      hide Required;
      host := 0;
      while host < |memmap|
        invariant 0 <= host <= |memmap|
        invariant forall i :: 0 <= i < host ==> memmap[i].kind != Usable || memmap[i].length < required * 4096
      {
        if memmap[host].kind == Usable && memmap[host].length >= required * 4096 {
          return;
        }
        host := host + 1;
      }
    }

    /** pmm_init: it succeeds exactly when some usable region is large enough for the allocator's own
        data. Then every page of every usable region is free, except the first pages of the first
        such region, as many as were computed for the data. */
    method Init(memmap: seq<Entry>) returns (err: ErrorCode, ghost host: nat)
      requires this in Repr && WellFormed(memmap)
      modifies this
      ensures err == PmmOk <==> exists i :: IsHost(memmap, i)
      ensures err != PmmOk ==> err == InitFailed
      ensures err == PmmOk ==> && Valid() && fresh(Repr - {this}) && IsHost(memmap, host)
                               && FreeFrames() == FreeAfterInit(memmap, host) && Managed() == UsableFrames(memmap)
      ensures err == PmmOk ==> && |regions| == |memmap|
                               && forall i :: 0 <= i < |regions| ==>
                                    && regions[i].base == memmap[i].base && regions[i].length == memmap[i].length
                                    && regions[i].bitmapBase == BitmapAddress(memmap, memmap[host].base, i)
    {
      hide *;
      var n, pages := DetectMemory(memmap);
      RequiredIs(memmap);
      var required := RequiredPages(n, pages);
      var found := FindHost(memmap, required);
      host := found;
      if found >= |memmap| {
        return InitFailed, host;
      }
      HostFacts(memmap, host);
      var base := memmap[found].base;
      var rs := BuildRegions(memmap, base);
      DescribesFacts(rs, memmap, base);
      FootprintMembers(rs);
      assert rs[found] in rs;
      Install(rs, memmap, base);
      MarkMetadata(rs[found], host, required);
      FreeAfterInitIs(memmap, host);
      return PmmOk, host;
    }

    lemma {:induction false} DescribesFacts(rs: seq<Region>, memmap: seq<Entry>, base: nat)
      requires |rs| == |memmap| && Describes(rs, memmap, base)
      ensures forall i :: 0 <= i < |rs| ==>
                && rs[i].base == memmap[i].base && rs[i].length == memmap[i].length
                && rs[i].bitmapBase == BitmapAddress(memmap, base, i)
    {
      hide BitmapAddress;
      forall i | 0 <= i < |rs|
        ensures rs[i].base == memmap[i].base && rs[i].length == memmap[i].length
        ensures rs[i].bitmapBase == BitmapAddress(memmap, base, i)
      {
        assert DescribesEntry(rs[i], memmap[i], BitmapAddress(memmap, base, i));
      }
    }
  }

  lemma {:induction false} RequiredIs(memmap: seq<Entry>)
    ensures Required(memmap) == RequiredPages(|memmap|, SumLengths(memmap, |memmap|) / 4096)
  {
  }

  lemma {:induction false} HostFacts(memmap: seq<Entry>, host: nat)
    requires WellFormed(memmap) && IsHost(memmap, host)
    ensures host < |memmap| && Required(memmap) * 4096 <= memmap[host].length && memmap[host].base % 4096 == 0
    ensures FrameRange(memmap[host].base / 4096, memmap[host].length / 4096) <= UsableFrames(memmap)
  {
    hide Required, FrameRange, SumLengths;
  }

  lemma {:induction false} FreeAfterInitIs(memmap: seq<Entry>, host: nat)
    requires host < |memmap|
    ensures FreeAfterInit(memmap, host) == UsableFrames(memmap) - FrameRange(memmap[host].base / 4096, Required(memmap))
  {
  }

  ghost function FreshTable(memmap: seq<Entry>): Table {
    seq(|memmap|, i requires 0 <= i < |memmap| => FreshOf(memmap[i]))
  }

  lemma {:induction false} FreshTableGood(memmap: seq<Entry>)
    requires WellFormed(memmap)
    ensures var t := FreshTable(memmap);
            Good(t) && FreeOf(t) == UsableFrames(memmap) && ManagedOf(t) == UsableFrames(memmap)
  {
    hide Consistent, FreeIn, FrameRange, SumLengths;
    var t := FreshTable(memmap);
    forall i | 0 <= i < |memmap|
      ensures t[i].Ok() && t[i].Free() == if memmap[i].kind == Usable then t[i].Frames() else {}
    {
      FreshRegion(memmap[i].base, memmap[i].length, memmap[i].kind);
    }
    forall f ensures f in FreeOf(t) <==> f in UsableFrames(memmap) {
      if f in UsableFrames(memmap) {
        var i :| 0 <= i < |memmap| && memmap[i].kind == Usable
                 && f in FrameRange(memmap[i].base / 4096, memmap[i].length / 4096);
        assert f in t[i].Free();
      }
    }
  }

  ghost function Footprint(rs: seq<Region>): set<object> {
    (set r: Region | r in rs :: r as object) + (set r: Region | r in rs :: r.bitmap as object)
  }

  lemma {:induction false} FootprintMembers(rs: seq<Region>)
    ensures forall o :: o in Footprint(rs) ==> exists r :: r in rs && (o == r || o == r.bitmap)
  {
  }

  lemma {:induction false} NextBitmap(memmap: seq<Entry>, base: nat, i: nat)
    requires i < |memmap|
    ensures BitmapAddress(memmap, base, i + 1) == BitmapAddress(memmap, base, i) + BitmapSize(memmap[i].length / 4096)
  {
  }

  function FreshOf(e: Entry): RegionView { FreshView(e.base, e.length, e.kind) }

  lemma {:induction false} FreeInRegion(t: Table, index: nat, frame: nat)
    requires Good(t) && index < |t| && frame in t[index].Frames() && frame in FreeOf(t)
    ensures frame in t[index].Free()
  {
    hide Consistent, FreeIn, FrameRange;
    var i :| 0 <= i < |t| && frame in t[i].Free();
    FreeAreFrames(t[i]);
    if i != index {
      RegionsDisjoint(t, i, index, frame);
    }
  }

  lemma {:induction false} NoFrames(first: nat)
    ensures FrameRange(first, 0) == {}
  {
  }

  /** One more page of the host region. */
  lemma {:induction false} NextFrame(free: set<nat>, base: nat, length: nat, page: nat)
    requires base % 4096 == 0 && (page + 1) * 4096 <= length && FrameRange(base / 4096, length / 4096) <= free
    ensures var f := (base + page * 4096) / 4096;
            && f in free - FrameRange(base / 4096, page) && f in FrameRange(base / 4096, length / 4096)
            && FrameRange(base / 4096, page + 1) == FrameRange(base / 4096, page) + {f}
  {
    var f := (base + page * 4096) / 4096;
    assert f == base / 4096 + page;
    assert InRange(f, base / 4096, length / 4096);
    assert f in FrameRange(base / 4096, length / 4096);
  }

  lemma {:induction false} PageInBitmap(r: RegionView, address: nat)
    requires r.Ok() && r.Contains(address)
    ensures (address - r.base) / 4096 < r.length / 4096 <= 8 * |r.bytes|
  {
  }

  lemma {:induction false} StatusCode(byte: bv8, k: nat)
    requires k < 8
    ensures var status := (byte & Mask(k)) as nat;
            && (status == 0 <==> !Bit(byte, k)) && (status != 0 ==> status == Pow2(k))
            && (status == 1 <==> Bit(byte, k) && k == 0)
            && (status == 2 <==> Bit(byte, k) && k == 1)
  {
    MaskValue(k);
  }

  lemma {:induction false} AllocatedInRegion(t: Table, index: nat, address: nat)
    requires Good(t) && index < |t| && t[index].Contains(address)
    requires address / 4096 in ManagedOf(t) && address / 4096 !in FreeOf(t)
    ensures t[index].kind == Usable && address / 4096 in t[index].Frames() && address / 4096 !in t[index].Free()
  {
    FrameInRegion(t[index], address);
    var i :| 0 <= i < |t| && t[i].kind == Usable && address / 4096 in t[i].Frames();
    assert i == index;
  }

  lemma {:induction false} FrameInRegion(r: RegionView, address: nat)
    requires r.Ok() && r.Contains(address)
    ensures address / 4096 in FrameRange(r.base / 4096, r.length / 4096)
  {
  }

  lemma {:induction false} PageIsFree(r: RegionView, page: nat)
    requires r.Ok() && page < r.length / 4096 && !Used(r.bytes, page)
    ensures var address := r.base + page * 4096;
            address != 0 && address % 4096 == 0 && address / 4096 in r.Free() && (address - r.base) / 4096 == page
  {
  }

  /** A frame is free exactly if its bit is clear. */
  lemma {:induction false} FreeMeansClear(t: Table, index: nat, address: nat)
    requires Good(t) && index < |t| && t[index].Contains(address)
    ensures (address - t[index].base) / 4096 < 8 * |t[index].bytes|
    ensures address / 4096 in FreeOf(t) <==> !Used(t[index].bytes, (address - t[index].base) / 4096)
  {
    var r := t[index];
    PageInBitmap(r, address);
    FrameInRegion(r, address);
    assert r.Ok();
    PageOffset(r, address);
    assert address / 4096 in r.Free() <==> !Used(r.bytes, (address - r.base) / 4096);
    hide Consistent, FreeIn, FrameRange, Used;
    if address / 4096 in FreeOf(t) {
      FreeInRegion(t, index, address / 4096);
    }
  }

  lemma {:induction false} PageOffset(r: RegionView, address: nat)
    requires r.Ok() && r.Contains(address)
    ensures (address - r.base) / 4096 == address / 4096 - r.base / 4096
    ensures InRange(address / 4096, r.base / 4096, r.length / 4096)
  {
  }

  lemma {:induction false} FoundPage(t: Table, index: nat, page: nat)
    requires Good(t) && index < |t| && page < t[index].length / 4096 && !Used(t[index].bytes, page)
    ensures var address := t[index].base + page * 4096;
            && address != 0 && address % 4096 == 0 && address / 4096 in FreeOf(t)
            && address / 4096 in FrameRange(t[index].base / 4096, t[index].length / 4096)
  {
    PageIsFree(t[index], page);
    FreeAreFrames(t[index]);
    hide Consistent, FreeIn, FrameRange, Used;
  }

  lemma {:induction false} NothingFree(t: Table)
    requires Good(t) && forall i :: 0 <= i < |t| ==> t[i].freePages == 0
    ensures FreeOf(t) == {}
  {
    forall i | 0 <= i < |t| ensures t[i].Free() == {} {
      CountPositive(t[i].bytes, t[i].length / 4096);
    }
  }
}
