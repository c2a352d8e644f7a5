/** Where the allocator keeps its own data: the region structs, then one bitmap after the other
    (pmm_init and its helpers in kernel/src/memory/pmm.c). */
module PmmLayout {
  import opened Bitmaps
  import opened PmmRegion

  const STRUCT_SIZE: nat := 48  // sizeof(struct pmm_region_t)

  datatype Entry = Entry(base: nat, length: nat, kind: MemoryType)

  /** What the allocator needs of the memory map. */
  ghost predicate WellFormed(memmap: seq<Entry>) {
    && |memmap| < 0x1_0000_0000
    && (forall i :: 0 <= i < |memmap| ==>
          && memmap[i].base % 4096 == 0 && memmap[i].length % 4096 == 0
          && 0 < memmap[i].base && 0 < memmap[i].length && memmap[i].base + memmap[i].length <= SIZE_MAX
          && (memmap[i].kind == Usable ==> memmap[i].length / 4096 % 8 == 0 || memmap[i].length / 4096 < 8))
    && (forall i, j :: 0 <= i < j < |memmap| ==> memmap[i].base + memmap[i].length <= memmap[j].base)
    && SumLengths(memmap, |memmap|) <= SIZE_MAX
  }

  function SumLengths(memmap: seq<Entry>, k: nat): nat
    requires k <= |memmap|
  {
    if k == 0 then 0 else SumLengths(memmap, k - 1) + memmap[k - 1].length
  }

  /** pmm_get_num_required_pages */
  function RequiredBytes(regions: nat, pages: nat): nat { regions * STRUCT_SIZE + (pages + 7) / 8 }
  function RequiredPages(regions: nat, pages: nat): nat { (RequiredBytes(regions, pages) + 4095) / 4096 }

  function Required(memmap: seq<Entry>): nat {
    RequiredPages(|memmap|, SumLengths(memmap, |memmap|) / 4096)
  }

  /** The size computed is 48 bytes a region and one bit a page, rounded up to bytes and then to pages. */
  lemma {:induction false} RequiredSize(regions: nat, pages: nat)
    ensures var bytes := RequiredBytes(regions, pages) - 48 * regions;
            pages <= 8 * bytes < pages + 8
    ensures RequiredBytes(regions, pages) <= 4096 * RequiredPages(regions, pages) < RequiredBytes(regions, pages) + 4096
    ensures pages <= 8 * BitmapSize(pages) < pages + 8
  {
  }

  /** The bytes of the first k bitmaps, and where the k-th one starts. */
  function BitmapBytes(memmap: seq<Entry>, k: nat): nat
    requires k <= |memmap|
  {
    if k == 0 then 0 else BitmapBytes(memmap, k - 1) + BitmapSize(memmap[k - 1].length / 4096)
  }

  function BitmapAddress(memmap: seq<Entry>, base: nat, k: nat): nat
    requires k <= |memmap|
  {
    base + |memmap| * STRUCT_SIZE + BitmapBytes(memmap, k)
  }

  function MetadataEnd(memmap: seq<Entry>, base: nat): nat {
    BitmapAddress(memmap, base, |memmap|)
  }

  /** The bitmaps lie behind the structs, one after the other, and do not overlap. */
  lemma {:induction false} BitmapsDisjoint(memmap: seq<Entry>, base: nat, i: nat, j: nat)
    requires i < j <= |memmap|
    ensures BitmapAddress(memmap, base, 0) == base + 48 * |memmap| <= BitmapAddress(memmap, base, i)
    ensures BitmapAddress(memmap, base, i) + BitmapSize(memmap[i].length / 4096) <= BitmapAddress(memmap, base, j)
  {
    if j > i + 1 {
      BitmapsDisjoint(memmap, base, i, j - 1);
    }
  }

  /** Rounding each bitmap up to whole bytes costs less than one byte a region more than the
      computed size, and nothing at all if every page count is a multiple of 8. */
  lemma {:induction false} BitmapExcess(memmap: seq<Entry>, k: nat)
    requires k <= |memmap| && forall i :: 0 <= i < |memmap| ==> memmap[i].length % 4096 == 0
    ensures SumLengths(memmap, k) % 4096 == 0
    ensures var pages := SumLengths(memmap, k) / 4096;
            && pages <= 8 * BitmapBytes(memmap, k) <= pages + 7 * k
            && ((forall i :: 0 <= i < k ==> memmap[i].length / 4096 % 8 == 0) ==> pages == 8 * BitmapBytes(memmap, k))
  {
    if k > 0 {
      BitmapExcess(memmap, k - 1);
      var a, b := SumLengths(memmap, k - 1), memmap[k - 1].length;
      assert (a + b) / 4096 == a / 4096 + b / 4096;
    }
  }

  /** So the data never exceeds the computed number of bytes by as much as one byte a region, and
      with page counts that are multiples of 8 it fits into the computed pages. */
  lemma {:induction false} MetadataSize(memmap: seq<Entry>, base: nat)
    requires WellFormed(memmap) && |memmap| > 0
    ensures var bytes := RequiredBytes(|memmap|, SumLengths(memmap, |memmap|) / 4096);
            base + bytes <= MetadataEnd(memmap, base) < base + bytes + |memmap|
    ensures (forall i :: 0 <= i < |memmap| ==> memmap[i].length / 4096 % 8 == 0) ==>
              MetadataEnd(memmap, base) <= base + 4096 * Required(memmap)
  {
    BitmapExcess(memmap, |memmap|);
  }

  // ---------- What is free after a successful init ----------

  ghost function UsableFrames(memmap: seq<Entry>): set<nat> {
    set i, f | 0 <= i < |memmap| && memmap[i].kind == Usable
               && f in FrameRange(memmap[i].base / 4096, memmap[i].length / 4096) :: f
  }

  /** The region that will hold the data: the first usable one that is large enough. */
  ghost predicate IsHost(memmap: seq<Entry>, host: nat) {
    && host < |memmap| && memmap[host].kind == Usable && memmap[host].length >= Required(memmap) * 4096
    && forall i :: 0 <= i < host ==> memmap[i].kind != Usable || memmap[i].length < Required(memmap) * 4096
  }

  ghost function FreeAfterInit(memmap: seq<Entry>, host: nat): set<nat>
    requires host < |memmap|
  {
    UsableFrames(memmap) - FrameRange(memmap[host].base / 4096, Required(memmap))
  }

  /** A page holds some of the allocator's data. */
  predicate HoldsMetadata(memmap: seq<Entry>, base: nat, frame: nat) {
    4096 * frame < MetadataEnd(memmap, base) && base < 4096 * frame + 4096
  }

  /** The data reaches a usable page behind the pages computed for it. */
  ghost predicate Spills(memmap: seq<Entry>, host: nat)
    requires host < |memmap|
  {
    exists f :: f in UsableFrames(memmap) && BehindRequired(memmap, host, f)
  }

  predicate BehindRequired(memmap: seq<Entry>, host: nat, f: nat)
    requires host < |memmap|
  {
    memmap[host].base / 4096 + Required(memmap) <= f && 4096 * f < MetadataEnd(memmap, memmap[host].base)
  }

  lemma {:induction false} UsableAligned(memmap: seq<Entry>, host: nat)
    requires WellFormed(memmap) && host < |memmap|
    ensures memmap[host].base % 4096 == 0
  {
  }

  /** Some free page holds some of the allocator's data exactly when the data spills. */
  lemma {:induction false} FreePagesHoldNoMetadata(memmap: seq<Entry>, host: nat)
    requires WellFormed(memmap) && IsHost(memmap, host)
    ensures (forall f :: f in FreeAfterInit(memmap, host) ==> !HoldsMetadata(memmap, memmap[host].base, f))
            <==> !Spills(memmap, host)
  {
    UsableAligned(memmap, host);
    hide Required, MetadataEnd, UsableFrames, WellFormed, SumLengths;
    var base, required := memmap[host].base, Required(memmap);
    forall f | f in UsableFrames(memmap)
      ensures BehindRequired(memmap, host, f) <==>
              f in FreeAfterInit(memmap, host) && HoldsMetadata(memmap, base, f)
    {
      assert f in FrameRange(base / 4096, required) <==> InRange(f, base / 4096, required);
    }
  }

  /** It does not spill where it fits into the computed pages, as it does if every page count is a
      multiple of 8. */
  lemma {:induction false} FittingDataStays(memmap: seq<Entry>, host: nat)
    requires WellFormed(memmap) && IsHost(memmap, host)
    requires MetadataEnd(memmap, memmap[host].base) <= memmap[host].base + 4096 * Required(memmap)
    ensures !Spills(memmap, host)
  {
    UsableAligned(memmap, host);
    hide Required, MetadataEnd, UsableFrames, WellFormed, SumLengths;
  }

  // A reserved region and two usable ones of one page each: one page is computed, but the data ends
  // two bytes behind it, in the other usable page.
  function SpillingMap(): seq<Entry> {
    [Entry(4096, 31614 * 4096, Reserved), Entry(31615 * 4096, 4096, Usable), Entry(31616 * 4096, 4096, Usable)]
  }

  /** The data can spill: here is a memory map after whose init a free page holds some of it. */
  lemma {:induction false} MetadataMaySpill()
    ensures WellFormed(SpillingMap()) && IsHost(SpillingMap(), 1) && Spills(SpillingMap(), 1)
    ensures 31616 in FreeAfterInit(SpillingMap(), 1) && HoldsMetadata(SpillingMap(), 31615 * 4096, 31616)
  {
    var memmap := SpillingMap();
    SpillingMapIsWellFormed();
    SpillingMapHost();
    SpillingSums();
    FrameOutside();
    hide Required, MetadataEnd, SumLengths, FrameRange, WellFormed;
    assert memmap[2].kind == Usable && memmap[2].base / 4096 == 31616 && memmap[2].length / 4096 == 1;
    assert 31616 in UsableFrames(memmap);
    assert BehindRequired(memmap, 1, 31616);
  }

  lemma {:induction false} SpillingMapIsWellFormed()
    ensures WellFormed(SpillingMap())
  {
    SpillingSums();
    hide SumLengths;
    var memmap := SpillingMap();
    PageMultiple(31614);
    PageMultiple(31615);
    PageMultiple(31616);
    assert memmap[0].kind == Reserved && memmap[1].length / 4096 == memmap[2].length / 4096 == 1;
  }

  lemma {:induction false} PageMultiple(n: nat)
    ensures n * 4096 % 4096 == 0
  {
  }

  lemma {:induction false} SpillingMapHost()
    ensures IsHost(SpillingMap(), 1)
  {
    SpillingSums();
    hide Required;
  }

  lemma {:induction false} FrameOutside()
    ensures 31616 !in FrameRange(31615, 1) && 31616 in FrameRange(31616, 1)
  {
    assert !InRange(31616, 31615, 1) && InRange(31616, 31616, 1);
  }

  lemma {:induction false} SpillingSums()
    ensures SumLengths(SpillingMap(), 3) == 31616 * 4096
    ensures Required(SpillingMap()) == 1
    ensures MetadataEnd(SpillingMap(), 31615 * 4096) == 31615 * 4096 + 4098
  {
    var memmap := SpillingMap();
    assert SumLengths(memmap, 1) == SumLengths(memmap, 0) + 31614 * 4096;
    assert SumLengths(memmap, 2) == SumLengths(memmap, 1) + 4096;
    assert SumLengths(memmap, 3) == SumLengths(memmap, 2) + 4096;
    assert BitmapBytes(memmap, 1) == BitmapBytes(memmap, 0) + 3952;
    assert BitmapBytes(memmap, 2) == BitmapBytes(memmap, 1) + 1;
    assert BitmapBytes(memmap, 3) == BitmapBytes(memmap, 2) + 1;
    hide SumLengths, BitmapBytes;
  }
}
