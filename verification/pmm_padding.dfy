/** Which page counts the allocator's scan gets along with. A bitmap has whole bytes, so behind the last
    page of a region there may be padding bits, and these are clear (kernel/src/memory/pmm.c and
    pmm_region.c). */
module PmmPadding {
  import opened Bitmaps
  import opened PmmRegion
  import opened Pmm

  /** One region as alloc and free see it: its bitmap, its counter and the cached byte. */
  datatype Scan = Scan(bytes: seq<bv8>, cache: nat, freePages: nat)

  function FreshScan(pages: nat): Scan {
    Scan(seq(BitmapSize(pages), _ => 0), 0, pages)
  }

  /** An allocation from a region of so many pages picks this page, whether it is one of the region's
      or not. Marking it used only fails if it lies behind the page just past the region; alloc does
      not look ... */
  ghost predicate Takes(pages: nat, a: Scan, page: nat, b: Scan) {
    && a.freePages > 0 && Picks(a.bytes, a.cache, b.cache, page) && page < 8 * |a.bytes|
    && b.bytes == (if page <= pages then MarkedUsed(a.bytes, page) else a.bytes)
    && b.freePages == if page <= pages then a.freePages - 1 else a.freePages
  }

  /** ... and a page of the region that is taken is given back. */
  ghost predicate Gives(pages: nat, a: Scan, page: nat, b: Scan) {
    && page < pages && page < 8 * |a.bytes| && Used(a.bytes, page)
    && b == Scan(MarkedFree(a.bytes, page), a.cache, a.freePages + 1)
  }

  ghost predicate ScanStep(pages: nat, a: Scan, b: Scan) {
    exists page :: Takes(pages, a, page, b) || Gives(pages, a, page, b)
  }

  /** Any allocations and frees from the fresh region on. */
  ghost predicate ScanRun(pages: nat, scans: seq<Scan>) {
    && |scans| > 0 && scans[0] == FreshScan(pages)
    && forall i :: 0 < i < |scans| ==> ScanStep(pages, scans[i - 1], scans[i])
  }

  ghost predicate Reached(pages: nat, a: Scan) {
    exists scans :: ScanRun(pages, scans) && scans[|scans| - 1] == a
  }

  /** Over every such run the next page picked is one of the region's. */
  ghost predicate StaysInRegion(pages: nat) {
    forall a: Scan, page: nat, b: Scan :: Reached(pages, a) && Takes(pages, a, page, b) ==> page < pages
  }

  /** That holds exactly for regions whose page count is a multiple of 8 or less than 8. In any other
      region, after all pages are taken and page 0 is given back, the next page picked is the one just
      past the region. */
  lemma {:induction false} PageCountCondition(pages: nat)
    ensures StaysInRegion(pages) <==> pages % 8 == 0 || pages < 8
  {
    hide Takes, ScanStep;
    if pages % 8 == 0 || pages < 8 {
      forall a: Scan, page: nat, b: Scan | Reached(pages, a) && Takes(pages, a, page, b) ensures page < pages {
        var scans :| ScanRun(pages, scans) && scans[|scans| - 1] == a;
        RunCounts(pages, scans);
        PickInside(pages, a, page, b);
      }
    } else {
      var scans, b := PastTheEndRun(pages);
      assert Reached(pages, scans[|scans| - 1]) && Takes(pages, scans[|scans| - 1], pages, b);
    }
  }

  // ---------- Regions without padding, or with one byte only ----------

  ghost predicate Counts(pages: nat, a: Scan) {
    |a.bytes| == BitmapSize(pages) && a.freePages == CountFree(a.bytes, pages)
  }

  lemma {:induction false} FreshCounts(pages: nat)
    ensures Counts(pages, FreshScan(pages))
    ensures forall p: nat :: p < 8 * |FreshScan(pages).bytes| ==> !Used(FreshScan(pages).bytes, p)
  {
    var bytes := FreshScan(pages).bytes;
    forall p: nat | p < 8 * |bytes| ensures !Used(bytes, p) {
      MaskValue(p % 8);
    }
    hide Used;
    CountAll(bytes, pages);
  }

  lemma {:induction false} PickInside(pages: nat, a: Scan, page: nat, b: Scan)
    requires pages % 8 == 0 || pages < 8
    requires Counts(pages, a) && Takes(pages, a, page, b)
    ensures page < pages && !Used(a.bytes, page)
  {
    hide CountFree, Bit, StopsAt, ScanSlot;
    LowestClearInside(a.bytes, pages, page / 8, page % 8);
  }

  lemma {:induction false} StepCounts(pages: nat, a: Scan, b: Scan)
    requires pages % 8 == 0 || pages < 8
    requires Counts(pages, a) && ScanStep(pages, a, b)
    ensures Counts(pages, b)
  {
    var page :| Takes(pages, a, page, b) || Gives(pages, a, page, b);
    if Takes(pages, a, page, b) {
      PickInside(pages, a, page, b);
      hide Used, Picks, CountFree;
      TakePage(a.bytes, 0, pages, page);
    } else {
      hide Used, Picks, CountFree;
      GivePage(a.bytes, 0, pages, page);
    }
  }

  lemma {:induction false} RunCounts(pages: nat, scans: seq<Scan>)
    requires pages % 8 == 0 || pages < 8
    requires ScanRun(pages, scans)
    ensures Counts(pages, scans[|scans| - 1])
  {
    hide Counts, ScanStep;
    if |scans| == 1 {
      FreshCounts(pages);
    } else {
      RunCounts(pages, scans[..|scans| - 1]);
      StepCounts(pages, scans[|scans| - 2], scans[|scans| - 1]);
    }
  }

  // ---------- Regions with padding ----------

  /** The first n pages are taken, one after the other. */
  ghost predicate Filled(pages: nat, n: nat, a: Scan) {
    && |a.bytes| == BitmapSize(pages) && a.freePages + n == pages
    && (forall p: nat :: p < 8 * |a.bytes| ==> (Used(a.bytes, p) <==> p < n))
    && a.cache == if n == 0 then 0 else (n - 1) / 8
  }

  /** Whatever page is taken next is the lowest one not yet taken. */
  lemma {:induction false} TakesLowest(pages: nat, n: nat, a: Scan) returns (b: Scan)
    requires Filled(pages, n, a) && n < pages
    ensures Takes(pages, a, n, b) && Filled(pages, n + 1, b)
  {
    FilledByte(pages, n, a);
    PicksLowest(a.bytes, a.cache, n);
    MarkedBits(a.bytes, n);
    b := Scan(MarkedUsed(a.bytes, n), n / 8, a.freePages - 1);
    hide Used, Picks, MarkedUsed;
  }

  lemma {:induction false} FilledByte(pages: nat, n: nat, a: Scan)
    requires Filled(pages, n, a) && n < 8 * |a.bytes|
    ensures n / 8 < |a.bytes| && LowestClear(a.bytes[n / 8], n % 8) && a.bytes[n / 8] != 0xff
    ensures a.cache == n / 8 || (a.cache + 1 == n / 8 && a.bytes[a.cache] == 0xff)
  {
    hide Bit;
    ByteOf(a.bytes, n, n / 8);
    FullByte(a.bytes[n / 8]);
    if a.cache != n / 8 {
      ByteOf(a.bytes, n, a.cache);
      FullByte(a.bytes[a.cache]);
    }
  }

  /** The bits of one byte, where the pages taken are the first n. */
  lemma {:induction false} ByteOf(bytes: seq<bv8>, n: nat, index: nat)
    requires index < |bytes| && forall p: nat :: p < 8 * |bytes| ==> (Used(bytes, p) <==> p < n)
    ensures forall l: nat :: l < 8 ==> (Bit(bytes[index], l) <==> 8 * index + l < n)
  {
    forall l: nat | l < 8 ensures Bit(bytes[index], l) <==> 8 * index + l < n {
      UsedBit(bytes, index, l);
    }
  }

  lemma {:induction false} PicksLowest(bytes: seq<bv8>, cache: nat, page: nat)
    requires page / 8 < |bytes| && LowestClear(bytes[page / 8], page % 8) && bytes[page / 8] != 0xff
    requires cache == page / 8 || (cache + 1 == page / 8 && bytes[cache] == 0xff)
    ensures Picks(bytes, cache, page / 8, page)
  {
    hide LowestClear;
    SlotHere(cache, |bytes|);
    if cache == page / 8 {
      assert StopsAt(bytes, cache, 0);
    } else {
      assert StopsAt(bytes, cache, 1);
    }
  }

  lemma {:induction false} SlotHere(cache: nat, n: nat)
    requires cache < n
    ensures ScanSlot(0, cache, n) == cache
    ensures cache + 1 < n ==> ScanSlot(1, cache, n) == cache + 1
  {
    ModUnique(0 + cache, n, 0, cache);
    if cache + 1 < n {
      ModUnique(1 + cache, n, 0, cache + 1);
    }
  }

  /** Taking n pages from the fresh region. */
  lemma {:induction false} FillRun(pages: nat, n: nat) returns (scans: seq<Scan>)
    requires n <= pages
    ensures ScanRun(pages, scans) && Filled(pages, n, scans[|scans| - 1])
  {
    hide Filled, Takes, Gives;
    if n == 0 {
      scans := [FreshScan(pages)];
      FreshFilled(pages);
    } else {
      scans := FillRun(pages, n - 1);
      var b := TakesLowest(pages, n - 1, scans[|scans| - 1]);
      assert ScanStep(pages, scans[|scans| - 1], b);
      scans := scans + [b];
    }
  }

  lemma {:induction false} FreshFilled(pages: nat)
    ensures Filled(pages, 0, FreshScan(pages))
  {
    hide Used;
    FreshCounts(pages);
  }

  /** When all pages are taken and page 0 is given back, the scan goes on in the last byte, where the
      padding is, and picks the first padding bit. */
  lemma {:induction false} PastTheEndRun(pages: nat) returns (scans: seq<Scan>, b: Scan)
    requires pages % 8 != 0 && pages > 8
    ensures ScanRun(pages, scans) && Takes(pages, scans[|scans| - 1], pages, b)
  {
    scans := FillRun(pages, pages);
    var full := scans[|scans| - 1];
    var again := Scan(MarkedFree(full.bytes, 0), full.cache, full.freePages + 1);
    FilledByte(pages, pages, full);
    PicksLowest(again.bytes, again.cache, pages);
    b := Scan(MarkedUsed(again.bytes, pages), pages / 8, 0);
    hide Picks, MarkedUsed, MarkedFree;
    assert Gives(pages, full, 0, again);
    hide Takes, Gives;
    assert ScanStep(pages, full, again);
    scans := scans + [again];
  }

  // ---------- The methods take these steps ----------

  ghost function ScanOf(pmm: Pmm, r: Region): Scan
    reads pmm, r, r.bitmap
  {
    Scan(r.bitmap[..], pmm.bitmapCache, r.freePages)
  }

  /** What pmm_alloc does in a region it has chosen, with or without padding. */
  method TakeAnyPage(pmm: Pmm, r: Region) returns (address: nat, ghost page: nat)
    requires r.bitmapSize == r.bitmap.Length == BitmapSize(r.length / 4096) && r.length % 4096 == 0
    requires r.freePages != 0
    requires exists b :: 0 <= b < |r.bitmap[..]| && r.bitmap[..][b] != 0xff
    modifies pmm`bitmapCache, r`freePages, r.bitmap
    ensures address == r.base + page * 4096
    ensures Takes(r.length / 4096, old(ScanOf(pmm, r)), page, ScanOf(pmm, r))
  {
    hide Picks, MarkedUsed;
    var picked := pmm.ScanBitmap(r);
    page := picked;
    InBitmap(r.bitmap[..], old(pmm.bitmapCache), pmm.bitmapCache, page);
    address := r.base + picked * 4096;
    PageOfAddress(r.base, r.length, page);
    var ok := r.MarkPageUsed(address);
  }

  lemma {:induction false} InBitmap(bytes: seq<bv8>, cache: nat, cache': nat, page: nat)
    requires Picks(bytes, cache, cache', page)
    ensures page < 8 * |bytes|
  {
  }

  lemma {:induction false} PageOfAddress(base: nat, length: nat, page: nat)
    requires length % 4096 == 0
    ensures (base + page * 4096 - base) / 4096 == page
    ensures base + page * 4096 <= base + length <==> page <= length / 4096
  {
  }

  /** What pmm_free does to a page of a region that is taken. */
  method GivePageBack(pmm: Pmm, r: Region, page: nat)
    requires r.bitmap.Length == BitmapSize(r.length / 4096) && r.length % 4096 == 0
    requires page < r.length / 4096 && Used(r.bitmap[..], page) && r.freePages < SIZE_MAX
    modifies r`freePages, r.bitmap
    ensures Gives(r.length / 4096, old(ScanOf(pmm, r)), page, ScanOf(pmm, r))
  {
    hide Used, MarkedFree;
    PageOfAddress(r.base, r.length, page);
    var ok := r.MarkPageFree(r.base + page * 4096);
  }
}
