/** One memory region and its bitmap (kernel/src/memory/pmm_region.c). */
module PmmRegion {
  import opened Bitmaps

  const SIZE_MAX: nat := 0xffff_ffff_ffff_ffff

  datatype MemoryType = Usable | Reserved | AcpiReclaimable | AcpiNonVolatile
                      | BadMemory | BootloaderReclaimable | KernelAndModules | Framebuffer

  // Bytes needed for the bitmap of so many pages.
  function BitmapSize(pages: nat): nat { (pages + 7) / 8 }

  /** A region's bitmap and counter agree, and describe its pages. */
  ghost predicate Consistent(bytes: seq<bv8>, base: nat, length: nat, freePages: nat, kind: MemoryType) {
    && base % 4096 == 0 && length % 4096 == 0 && 0 < base && 0 < length && base + length <= SIZE_MAX
    && |bytes| == BitmapSize(length / 4096)
    && freePages == CountFree(bytes, length / 4096)
    && (kind != Usable ==> forall p: nat :: p < 8 * |bytes| ==> Used(bytes, p))
    // Otherwise the bitmap of a usable region has clear bits that stand for no page.
    && (kind == Usable ==> length / 4096 % 8 == 0 || length / 4096 < 8)
  }

  lemma {:induction false} PageOf(address: nat, base: nat, length: nat)
    requires base % 4096 == 0 && length % 4096 == 0
    requires InRange(address / 4096, base / 4096, length / 4096)
    ensures base <= address < base + length
    ensures (address - base) / 4096 == address / 4096 - base / 4096
  {
  }

  /** Marking a free page used keeps the region consistent and takes exactly that frame. */
  lemma {:induction false} TakeConsistent(bytes: seq<bv8>, base: nat, length: nat, freePages: nat, kind: MemoryType,
          address: nat)
    requires Consistent(bytes, base, length, freePages, kind)
    requires address / 4096 in FreeIn(bytes, base / 4096, length / 4096)
    ensures base <= address < base + length && freePages > 0
    ensures var bytes' := MarkedUsed(bytes, (address - base) / 4096);
            && Consistent(bytes', base, length, freePages - 1, kind)
            && FreeIn(bytes', base / 4096, length / 4096) ==
               FreeIn(bytes, base / 4096, length / 4096) - {address / 4096}
  {
    hide Used;
    PageOf(address, base, length);
    TakePage(bytes, base / 4096, length / 4096, (address - base) / 4096);
    MarkedBits(bytes, (address - base) / 4096);
  }

  /** Marking a used page of a usable region free keeps it consistent and returns exactly that frame. */
  lemma {:induction false} GiveConsistent(bytes: seq<bv8>, base: nat, length: nat, freePages: nat, address: nat)
    requires Consistent(bytes, base, length, freePages, Usable)
    requires InRange(address / 4096, base / 4096, length / 4096)
    requires address / 4096 !in FreeIn(bytes, base / 4096, length / 4096)
    ensures base <= address < base + length && freePages < SIZE_MAX
    ensures var bytes' := MarkedFree(bytes, (address - base) / 4096);
            && Consistent(bytes', base, length, freePages + 1, Usable)
            && FreeIn(bytes', base / 4096, length / 4096) ==
               FreeIn(bytes, base / 4096, length / 4096) + {address / 4096}
  {
    hide Used;
    PageOf(address, base, length);
    CountPositive(bytes, length / 4096);
    GivePage(bytes, base / 4096, length / 4096, (address - base) / 4096);
  }

  /** A region as a value. */
  datatype RegionView = RegionView(bytes: seq<bv8>, base: nat, length: nat, freePages: nat, kind: MemoryType) {
    ghost predicate Ok() {
      Consistent(bytes, base, length, freePages, kind)
    }

    predicate Contains(address: nat) {
      base <= address < base + length
    }

    /** The region's frames, and the free ones among them. */
    ghost function Frames(): set<nat> {
      FrameRange(base / 4096, length / 4096)
    }

    ghost function Free(): set<nat>
      requires Ok()
    {
      FreeIn(bytes, base / 4096, length / 4096)
    }
  }

  /** A region as pmm_region_init leaves it. */
  function FreshView(base: nat, length: nat, kind: MemoryType): RegionView {
    var byte: bv8 := if kind == Usable then 0 else 0xff;
    var freePages := if kind == Usable then length / 4096 else 0;
    RegionView(seq(BitmapSize(length / 4096), _ => byte), base, length, freePages, kind)
  }

  lemma {:induction false} FreshRegion(base: nat, length: nat, kind: MemoryType)
    requires base % 4096 == 0 && length % 4096 == 0 && 0 < base && 0 < length && base + length <= SIZE_MAX
    requires kind == Usable ==> length / 4096 % 8 == 0 || length / 4096 < 8
    ensures var r := FreshView(base, length, kind);
            r.Ok() && r.Free() == if kind == Usable then r.Frames() else {}
  {
    hide Consistent, FreeIn, FrameRange;
    FilledBitmap(FreshView(base, length, kind).bytes, base, length, kind);
  }

  class Region {
    // Set once by pmm_region_init.
    const bitmap: array<bv8>
    const bitmapSize: nat
    const bitmapBase: nat  // where the bitmap lies in physical memory
    const base: nat
    const length: nat
    const kind: MemoryType

    var freePages: nat

    predicate Contains(address: nat) {
      base <= address < base + length
    }

    ghost function View(): RegionView
      reads this, bitmap
    {
      RegionView(bitmap[..], base, length, freePages, kind)
    }

    ghost predicate Valid()
      reads this, bitmap
    {
      bitmapSize == bitmap.Length && View().Ok()
    }

    /** pmm_region_init */
    constructor (bitmapBase: nat, base: nat, length: nat, kind: MemoryType)
      ensures this.bitmapBase == bitmapBase && View() == FreshView(base, length, kind)
      ensures fresh(bitmap) && bitmapSize == bitmap.Length == BitmapSize(length / 4096)
    {
      this.base := base;
      this.length := length;
      this.kind := kind;
      this.freePages := if kind == Usable then length / 4096 else 0;
      this.bitmapSize := BitmapSize(length / 4096);
      this.bitmapBase := bitmapBase;
      var byte: bv8 := if kind == Usable then 0 else 0xff;
      this.bitmap := new bv8[BitmapSize(length / 4096)](_ => byte);
      new;
      assert bitmap[..] == seq(BitmapSize(length / 4096), _ => byte);
    }

    /** pmm_region_mark_page_used. The bound test lets the address just past the region through. */
    method MarkPageUsed(address: nat) returns (ok: bool)
      requires bitmap.Length == BitmapSize(length / 4096)
      requires base <= address <= base + length ==> (address - base) / 4096 < 8 * bitmap.Length
      modifies this`freePages, bitmap
      ensures ok <==> base <= address <= base + length
      ensures !ok ==> freePages == old(freePages) && bitmap[..] == old(bitmap[..])
      ensures ok ==> && bitmap[..] == MarkedUsed(old(bitmap[..]), (address - base) / 4096)
                     && freePages == if old(freePages) == 0 then SIZE_MAX else old(freePages) - 1
    {
      ghost var before := bitmap[..];
      if address < base || address > base + length {
        return false;
      }
      var page := (address - base) / 4096;
      bitmap[page / 8] := WithBit(bitmap[page / 8], page % 8);
      freePages := if freePages == 0 then SIZE_MAX else freePages - 1;
      assert bitmap[..] == MarkedUsed(before, page);
      return true;
    }

    /** pmm_region_mark_page_free */
    method MarkPageFree(address: nat) returns (ok: bool)
      requires bitmap.Length == BitmapSize(length / 4096)
      requires base <= address <= base + length ==> (address - base) / 4096 < 8 * bitmap.Length
      modifies this`freePages, bitmap
      ensures ok <==> base <= address <= base + length
      ensures !ok ==> freePages == old(freePages) && bitmap[..] == old(bitmap[..])
      ensures ok ==> && bitmap[..] == MarkedFree(old(bitmap[..]), (address - base) / 4096)
                     && freePages == if old(freePages) == SIZE_MAX then 0 else old(freePages) + 1
    {
      ghost var before := bitmap[..];
      if address < base || address > base + length {
        return false;
      }
      var page := (address - base) / 4096;
      bitmap[page / 8] := WithoutBit(bitmap[page / 8], page % 8);
      freePages := if freePages == SIZE_MAX then 0 else freePages + 1;
      assert bitmap[..] == MarkedFree(before, page);
      return true;
    }
  }

  /** A bitmap filled with zero or 0xFF bytes describes a region with all or no pages free. */
  lemma {:induction false} FilledBitmap(bytes: seq<bv8>, base: nat, length: nat, kind: MemoryType)
    requires base % 4096 == 0 && length % 4096 == 0 && 0 < base && 0 < length && base + length <= SIZE_MAX
    requires |bytes| == BitmapSize(length / 4096)
    requires forall i: nat :: i < |bytes| ==> bytes[i] == if kind == Usable then 0 else 0xff
    requires kind == Usable ==> length / 4096 % 8 == 0 || length / 4096 < 8
    ensures Consistent(bytes, base, length, if kind == Usable then length / 4096 else 0, kind)
    ensures FreeIn(bytes, base / 4096, length / 4096) ==
            if kind == Usable then FrameRange(base / 4096, length / 4096) else {}
  {
    forall p: nat | p < 8 * |bytes| ensures Used(bytes, p) == (kind != Usable) {
      MaskValue(p % 8);
      FullByte(0xff);
    }
    hide Used;
    if kind == Usable {
      CountAll(bytes, length / 4096);
    } else {
      CountPositive(bytes, length / 4096);
    }
  }
}
