/** Page bitmaps: one bit a page, clear when the page is free
    (kernel/src/memory/pmm_region.c). */
module Bitmaps {

  function Mask(k: nat): bv8
    requires k < 8
  {
    1 << k
  }

  predicate Bit(b: bv8, k: nat)
    requires k < 8
  {
    b & Mask(k) != 0
  }

  function WithBit(b: bv8, k: nat): bv8
    requires k < 8
  {
    b | Mask(k)
  }

  function WithoutBit(b: bv8, k: nat): bv8
    requires k < 8
  {
    b & !Mask(k)
  }

  lemma {:induction false} SetBit(b: bv8, k: nat, l: nat)
    requires k < 8 && l < 8
    ensures Bit(WithBit(b, k), l) <==> l == k || Bit(b, l)
  {
    MaskBits(k, l);
    OrBits(b, Mask(k), Mask(l));
  }

  lemma {:induction false} ClearBit(b: bv8, k: nat, l: nat)
    requires k < 8 && l < 8
    ensures Bit(WithoutBit(b, k), l) <==> l != k && Bit(b, l)
  {
    MaskBits(k, l);
    AndBits(b, Mask(k), Mask(l));
  }

  lemma {:induction false} MaskBits(k: nat, l: nat)
    requires k < 8 && l < 8
    ensures Mask(k) & Mask(l) == if k == l then Mask(k) else 0
    ensures Mask(k) != 0
  {
    MaskValue(k);
    MaskValue(l);
  }

  // The eight masks.
  lemma {:induction false} MaskValue(k: nat)
    requires k < 8
    ensures Mask(k) == match k case 0 => 1 case 1 => 2 case 2 => 4 case 3 => 8
                               case 4 => 16 case 5 => 32 case 6 => 64 case _ => 128
  {
  }

  lemma {:induction false} OrBits(b: bv8, x: bv8, y: bv8)
    requires x & y == 0 || x == y
    ensures (b | x) & y == if x == y then y else b & y
  {
  }

  lemma {:induction false} AndBits(b: bv8, x: bv8, y: bv8)
    requires x & y == 0 || x == y
    ensures (b & !x) & y == if x == y then 0 else b & y
  {
  }

  /** A byte is 0xFF exactly when all its bits are set. */
  lemma {:induction false} FullByte(b: bv8)
    ensures b == 0xff <==> forall k: nat :: k < 8 ==> Bit(b, k)
  {
    if forall k: nat :: k < 8 ==> Bit(b, k) {
      assert Bit(b, 0) && Bit(b, 1) && Bit(b, 2) && Bit(b, 3);
      assert Bit(b, 4) && Bit(b, 5) && Bit(b, 6) && Bit(b, 7);
    }
    if b == 0xff {
      forall k: nat | k < 8 ensures Bit(b, k) {
        MaskValue(k);
      }
    }
  }

  /** The bit of a page. */
  predicate Used(bytes: seq<bv8>, page: nat)
    requires page < 8 * |bytes|
  {
    Bit(bytes[page / 8], page % 8)
  }

  /** How many of the first n pages are free. */
  ghost function CountFree(bytes: seq<bv8>, n: nat): nat
    requires n <= 8 * |bytes|
  {
    if n == 0 then 0 else CountFree(bytes, n - 1) + if Used(bytes, n - 1) then 0 else 1
  }

  lemma {:induction false} CountPositive(bytes: seq<bv8>, n: nat)
    requires n <= 8 * |bytes|
    ensures CountFree(bytes, n) > 0 <==> exists p: nat :: p < n && !Used(bytes, p)
    ensures CountFree(bytes, n) <= n
  {
    if n > 0 {
      CountPositive(bytes, n - 1);
    }
  }

  /** Changing the bit of one page changes the count by one if that page is counted. */
  lemma {:induction false} CountChange(bytes: seq<bv8>, bytes': seq<bv8>, page: nat, n: nat)
    requires |bytes'| == |bytes| && page < 8 * |bytes| && n <= 8 * |bytes|
    requires forall p: nat :: p < 8 * |bytes| && p != page ==> Used(bytes', p) == Used(bytes, p)
    requires !Used(bytes, page) && Used(bytes', page)
    ensures CountFree(bytes, n) == CountFree(bytes', n) + if page < n then 1 else 0
  {
    if n > 0 {
      CountChange(bytes, bytes', page, n - 1);
    }
  }

  lemma {:induction false} CountAll(bytes: seq<bv8>, n: nat)
    requires n <= 8 * |bytes|
    requires forall p: nat :: p < n ==> !Used(bytes, p)
    ensures CountFree(bytes, n) == n
  {
    if n > 0 {
      CountAll(bytes, n - 1);
    }
  }

  lemma {:induction false} CountSame(bytes: seq<bv8>, bytes': seq<bv8>, n: nat)
    requires n <= 8 * |bytes| && n <= 8 * |bytes'|
    requires forall p: nat :: p < n ==> Used(bytes, p) == Used(bytes', p)
    ensures CountFree(bytes, n) == CountFree(bytes', n)
  {
    if n > 0 {
      CountSame(bytes, bytes', n - 1);
    }
  }

  function MarkedUsed(bytes: seq<bv8>, page: nat): seq<bv8>
    requires page < 8 * |bytes|
  {
    bytes[page / 8 := WithBit(bytes[page / 8], page % 8)]
  }

  function MarkedFree(bytes: seq<bv8>, page: nat): seq<bv8>
    requires page < 8 * |bytes|
  {
    bytes[page / 8 := WithoutBit(bytes[page / 8], page % 8)]
  }

  /** Setting or clearing the bit of a page changes that page and no other. */
  lemma {:induction false} MarkedBits(bytes: seq<bv8>, page: nat)
    requires page < 8 * |bytes|
    ensures forall p: nat :: p < 8 * |bytes| ==>
              && (Used(MarkedUsed(bytes, page), p) <==> p == page || Used(bytes, p))
              && (Used(MarkedFree(bytes, page), p) <==> p != page && Used(bytes, p))
  {
    forall p: nat | p < 8 * |bytes|
      ensures Used(MarkedUsed(bytes, page), p) <==> p == page || Used(bytes, p)
      ensures Used(MarkedFree(bytes, page), p) <==> p != page && Used(bytes, p)
    {
      hide Bit, Mask, WithBit, WithoutBit;
      MarkedBit(bytes, page / 8, page % 8, p / 8, p % 8);
      assert p == page <==> p / 8 == page / 8 && p % 8 == page % 8;
    }
  }

  lemma {:induction false} MarkedBit(bytes: seq<bv8>, i: nat, k: nat, j: nat, l: nat)
    requires i < |bytes| && j < |bytes| && k < 8 && l < 8
    ensures Bit(bytes[i := WithBit(bytes[i], k)][j], l) <==> (j == i && l == k) || Bit(bytes[j], l)
    ensures Bit(bytes[i := WithoutBit(bytes[i], k)][j], l) <==> !(j == i && l == k) && Bit(bytes[j], l)
  {
    hide Bit, Mask, WithBit, WithoutBit;
    SetBit(bytes[i], k, l);
    ClearBit(bytes[i], k, l);
  }

  // ---------- The free frames of a region ----------

  predicate InRange(f: nat, first: nat, pages: nat) {
    first <= f < first + pages
  }

  predicate FreeAt(bytes: seq<bv8>, first: nat, pages: nat, f: nat)
    requires pages <= 8 * |bytes|
  {
    InRange(f, first, pages) && !Used(bytes, f - first)
  }

  /** The frames of `pages` pages that start at frame `first`. */
  ghost function FrameRange(first: nat, pages: nat): set<nat> {
    set f: nat | first <= f < first + pages && InRange(f, first, pages)
  }

  ghost function FreeIn(bytes: seq<bv8>, first: nat, pages: nat): set<nat>
    requires pages <= 8 * |bytes|
  {
    set f: nat | first <= f < first + pages && FreeAt(bytes, first, pages, f)
  }

  /** Marking a free page used takes one frame out and lowers the count by one. */
  lemma {:induction false} TakePage(bytes: seq<bv8>, first: nat, pages: nat, page: nat)
    requires page < pages <= 8 * |bytes| && !Used(bytes, page)
    ensures var bytes' := MarkedUsed(bytes, page);
            && FreeIn(bytes', first, pages) == FreeIn(bytes, first, pages) - {first + page}
            && CountFree(bytes, pages) == CountFree(bytes', pages) + 1
  {
    var bytes' := MarkedUsed(bytes, page);
    MarkedBits(bytes, page);
    CountChange(bytes, bytes', page, pages);
    hide Used, MarkedUsed, CountFree;
    forall f: nat ensures FreeAt(bytes', first, pages, f) <==> FreeAt(bytes, first, pages, f) && f != first + page {
    }
  }

  /** Marking a used page free puts one frame in and raises the count by one. */
  lemma {:induction false} GivePage(bytes: seq<bv8>, first: nat, pages: nat, page: nat)
    requires page < pages <= 8 * |bytes| && Used(bytes, page)
    ensures var bytes' := MarkedFree(bytes, page);
            && FreeIn(bytes', first, pages) == FreeIn(bytes, first, pages) + {first + page}
            && CountFree(bytes', pages) == CountFree(bytes, pages) + 1
  {
    var bytes' := MarkedFree(bytes, page);
    MarkedBits(bytes, page);
    CountChange(bytes', bytes, page, pages);
    hide Used, MarkedFree, CountFree;
    forall f: nat ensures FreeAt(bytes', first, pages, f) <==> FreeAt(bytes, first, pages, f) || f == first + page {
    }
  }
}
