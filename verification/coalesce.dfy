/** Grouping the pages of a page table dump into blocks that are contiguous in virtual and in
    physical memory (tools/paging/analyze_pt_dump.py). */
module Coalesce {
  import opened Words

  datatype DumpSize = Dump4kB | Dump2MB

  datatype DumpPage = DumpPage(virt: nat, phys: nat, size: DumpSize) {
    function Bytes(): nat { if size == Dump4kB then 0x1000 else 2 * 0x10_0000 }
  }

  datatype Block = Block(virt: int, phys: int, size: nat)

  // ---------- Physical addresses in a dump ----------

  /** get_phys_address_from_line, on the number in the line: the word of the leaf. */
  function DumpPhys(word: bv64): bv64 { (word & !0x7ff) & 0xff_ffff_ffff }

  /** It is the address the kernel resolves to exactly if bit 11 of the leaf is clear ... */
  lemma {:induction false} DumpPhys4kB(word: bv64)
    ensures DumpPhys(word) == LeafAddress(word, PT) <==> word & 0x800 == 0
  {
    hide DumpPhys, Address12;
    DumpBits4kB(word);
  }

  /** ... or, for a 2 MB page, bits 11 to 20, which include its PAT bit. */
  lemma {:induction false} DumpPhys2MB(word: bv64)
    ensures DumpPhys(word) == LeafAddress(word, PD) <==> word & 0x1f_f800 == 0
  {
    hide DumpPhys, Address21;
    DumpBits2MB(word);
  }

  lemma {:induction false} DumpBits4kB(word: bv64)
    ensures DumpPhys(word) == Address12(word) <==> word & 0x800 == 0
  {
  }

  lemma {:induction false} DumpBits2MB(word: bv64)
    ensures DumpPhys(word) == Address21(word) <==> word & 0x1f_f800 == 0
  {
  }

  // ---------- What pages and blocks map ----------

  /** n bytes from virt on, mapped to n bytes from phys on. */
  function Stretch(virt: int, phys: int, n: nat): (s: seq<(int, int)>)
    ensures |s| == n && forall i :: 0 <= i < n ==> s[i] == (virt + i, phys + i)
  {
    seq(n, i => (virt + i, phys + i))
  }

  function BlocksMap(blocks: seq<Block>): seq<(int, int)> {
    if blocks == [] then [] else Stretch(blocks[0].virt, blocks[0].phys, blocks[0].size) + BlocksMap(blocks[1..])
  }

  /** A page is a block of its own. */
  function PageBlocks(pages: seq<DumpPage>): (blocks: seq<Block>)
    ensures |blocks| == |pages|
    ensures forall i :: 0 <= i < |pages| ==> blocks[i] == Block(pages[i].virt, pages[i].phys, pages[i].Bytes())
  {
    seq(|pages|, i requires 0 <= i < |pages| => Block(pages[i].virt, pages[i].phys, pages[i].Bytes()))
  }

  function TotalSize(blocks: seq<Block>): nat {
    if blocks == [] then 0 else blocks[0].size + TotalSize(blocks[1..])
  }

  lemma {:induction false} MapSize(blocks: seq<Block>)
    ensures |BlocksMap(blocks)| == TotalSize(blocks)
  {
    if blocks != [] {
      MapSize(blocks[1..]);
    }
  }

  lemma {:induction false} MapAppend(blocks: seq<Block>, b: Block)
    ensures BlocksMap(blocks + [b]) == BlocksMap(blocks) + Stretch(b.virt, b.phys, b.size)
  {
    if blocks == [] {
      assert blocks + [b] == [b] && [b][1..] == [];
    } else {
      MapAppend(blocks[1..], b);
      assert (blocks + [b])[1..] == blocks[1..] + [b];
    }
  }

  lemma {:induction false} StretchJoin(virt: int, phys: int, n: nat, k: nat)
    ensures Stretch(virt, phys, n + k) == Stretch(virt, phys, n) + Stretch(virt + n, phys + n, k)
  {
  }

  /** A page holds an address pair: the virtual address lies in it, at the offset at which the physical
      address lies in its physical page. */
  predicate Holds(p: DumpPage, pair: (int, int)) {
    && pair.0 - p.virt == pair.1 - p.phys
    && 0 <= pair.0 - p.virt < match p.size case Dump4kB => 4096 case Dump2MB => 2_097_152
  }

  function CountOf(pages: seq<DumpPage>, size: DumpSize): nat {
    if pages == [] then 0 else (if pages[0].size == size then 1 else 0) + CountOf(pages[1..], size)
  }

  /** The blocks of the pages, each by itself, map exactly what the pages hold, and their sizes add up to
      2^12 for each 4 KB page and 2^21 for each 2 MB page. */
  lemma {:induction false} PagesHold(pages: seq<DumpPage>)
    ensures forall pair :: pair in BlocksMap(PageBlocks(pages)) <==> exists p :: p in pages && Holds(p, pair)
    ensures TotalSize(PageBlocks(pages)) == 4096 * CountOf(pages, Dump4kB) + 2_097_152 * CountOf(pages, Dump2MB)
  {
    if pages == [] {
      assert PageBlocks(pages) == [];
    } else {
      var p, rest := pages[0], pages[1..];
      PagesHold(rest);
      assert PageBlocks(pages)[1..] == PageBlocks(rest);
      assert pages == [p] + rest;
      OnePageHolds(p);
    }
  }

  lemma {:induction false} OnePageHolds(p: DumpPage)
    ensures forall pair :: pair in Stretch(p.virt, p.phys, p.Bytes()) <==> Holds(p, pair)
  {
    var s := Stretch(p.virt, p.phys, p.Bytes());
    forall pair | Holds(p, pair) ensures pair in s {
      assert s[pair.0 - p.virt] == pair;
    }
  }

  // ---------- Maximal blocks ----------

  predicate Contiguous(a: Block, b: Block) {
    b.virt == a.virt + a.size && b.phys == a.phys + a.size
  }

  /** No block is empty and none could be joined with the next. */
  predicate Maximal(blocks: seq<Block>) {
    && (forall i :: 0 <= i < |blocks| ==> blocks[i].size > 0)
    && (forall i :: 0 < i < |blocks| ==> !Contiguous(blocks[i - 1], blocks[i]))
  }

  lemma {:induction false} MaximalRest(blocks: seq<Block>)
    requires Maximal(blocks) && blocks != []
    ensures Maximal(blocks[1..])
    ensures |blocks| > 1 ==> !Contiguous(blocks[0], blocks[1])
  {
    var rest := blocks[1..];
    forall i | 0 < i < |rest| ensures !Contiguous(rest[i - 1], rest[i]) {
      assert rest[i - 1] == blocks[i] && rest[i] == blocks[i + 1];
    }
    if |blocks| > 1 {
      assert !Contiguous(blocks[1 - 1], blocks[1]);
    }
  }

  /** There is only one way to divide a mapping into maximal blocks. */
  lemma {:induction false} MaximalUnique(a: seq<Block>, b: seq<Block>)
    requires Maximal(a) && Maximal(b) && BlocksMap(a) == BlocksMap(b)
    ensures a == b
  {
    if a == [] || b == [] {
      EmptyMap(a);
      EmptyMap(b);
    } else {
      FirstNotLonger(a, b);
      FirstNotLonger(b, a);
      FirstOf(a);
      FirstOf(b);
      MaximalRest(a);
      MaximalRest(b);
      assert BlocksMap(a)[a[0].size..] == BlocksMap(a[1..]) && BlocksMap(b)[b[0].size..] == BlocksMap(b[1..]);
      MaximalUnique(a[1..], b[1..]);
      assert a == [a[0]] + a[1..] && b == [b[0]] + b[1..];
    }
  }

  lemma {:induction false} EmptyMap(a: seq<Block>)
    requires Maximal(a)
    ensures BlocksMap(a) == [] <==> a == []
  {
    if a != [] {
      FirstOf(a);
    }
  }

  lemma {:induction false} FirstOf(a: seq<Block>)
    requires Maximal(a) && a != []
    ensures 0 < a[0].size <= |BlocksMap(a)|
    ensures forall i :: 0 <= i < a[0].size ==> BlocksMap(a)[i] == (a[0].virt + i, a[0].phys + i)
    ensures BlocksMap(a)[0] == (a[0].virt, a[0].phys)
    ensures |a| > 1 ==> a[0].size < |BlocksMap(a)| && BlocksMap(a)[a[0].size] == (a[1].virt, a[1].phys)
    ensures |a| == 1 ==> |BlocksMap(a)| == a[0].size
  {
    if |a| > 1 {
      assert a[1..][0] == a[1] && a[1].size > 0;
      assert BlocksMap(a[1..])[0] == (a[1].virt, a[1].phys);
    }
  }

  lemma {:induction false} FirstNotLonger(a: seq<Block>, b: seq<Block>)
    requires Maximal(a) && Maximal(b) && BlocksMap(a) == BlocksMap(b) && a != [] && b != []
    ensures b[0].size <= a[0].size
    ensures a[0].virt == b[0].virt && a[0].phys == b[0].phys
  {
    FirstOf(a);
    FirstOf(b);
    MaximalRest(a);
  }

  // ---------- The loop ----------

  /** get_memory_blocks: the blocks map what the pages map, in the same order, and are maximal. For no
      pages it returns a block that means nothing. */
  method GetMemoryBlocks(pages: seq<DumpPage>) returns (blocks: seq<Block>)
    ensures pages == [] ==> blocks == [Block(-1, -1, 0)]
    ensures pages != [] ==> BlocksMap(blocks) == BlocksMap(PageBlocks(pages)) && Maximal(blocks)
    ensures pages != [] ==> forall pair :: pair in BlocksMap(blocks) <==> exists p :: p in pages && Holds(p, pair)
    ensures TotalSize(blocks) == 4096 * CountOf(pages, Dump4kB) + 2_097_152 * CountOf(pages, Dump2MB)
  {
    PagesHold(pages);
    blocks := [];
    var virtBase: int, physBase: int, size: nat := -1, -1, 0;
    var lastVirt: int, lastPhys: int, lastSize: int := -1, -1, -1;
    var i := 0;
    while i < |pages|
      invariant 0 <= i <= |pages|
      invariant i == 0 ==> blocks == [] && virtBase == physBase == -1 && size == 0
      invariant i > 0 ==> 0 <= virtBase && lastVirt + lastSize == virtBase + size
      invariant i > 0 ==> lastPhys + lastSize == physBase + size
      invariant i > 0 ==> BlocksMap(blocks + [Block(virtBase, physBase, size)]) == BlocksMap(PageBlocks(pages[..i]))
      invariant i > 0 ==> Maximal(blocks + [Block(virtBase, physBase, size)])
    {
      hide *;
      var page := pages[i];
      var pageSize := page.Bytes();
      ghost var current := Block(virtBase, physBase, size);
      NextPage(pages, i);
      CanJoin(current, lastVirt, lastPhys, lastSize, page);
      if virtBase < 0 {
        virtBase, physBase, size := page.virt, page.phys, pageSize;
        FirstPage(page);
      } else if page.phys - lastPhys != lastSize || page.virt - lastVirt != lastSize {
        blocks := blocks + [Block(virtBase, physBase, size)];
        virtBase, physBase, size := page.virt, page.phys, pageSize;
        NextBlock(blocks, page);
      } else {
        size := size + pageSize;
        LongerBlock(blocks, current, page);
      }
      lastVirt, lastPhys, lastSize := page.virt, page.phys, pageSize;
      i := i + 1;
    }
    assert pages[..i] == pages;
    blocks := blocks + [Block(virtBase, physBase, size)];
    MapSize(blocks);
    MapSize(PageBlocks(pages));
  }

  lemma {:induction false} NextPage(pages: seq<DumpPage>, i: nat)
    requires i < |pages|
    ensures var p := pages[i];
            BlocksMap(PageBlocks(pages[..i + 1])) ==
            BlocksMap(PageBlocks(pages[..i])) + Stretch(p.virt, p.phys, p.Bytes())
    ensures i == 0 ==> BlocksMap(PageBlocks(pages[..i])) == []
    ensures pages[i].Bytes() > 0
  {
    var p := pages[i];
    assert PageBlocks(pages[..i + 1]) == PageBlocks(pages[..i]) + [Block(p.virt, p.phys, p.Bytes())];
    MapAppend(PageBlocks(pages[..i]), Block(p.virt, p.phys, p.Bytes()));
  }

  lemma {:induction false} CanJoin(b: Block, lastVirt: int, lastPhys: int, lastSize: int, p: DumpPage)
    ensures lastVirt + lastSize == b.virt + b.size && lastPhys + lastSize == b.phys + b.size ==>
              (Contiguous(b, Block(p.virt, p.phys, p.Bytes())) <==>
               p.phys - lastPhys == lastSize && p.virt - lastVirt == lastSize)
  {
  }

  lemma {:induction false} FirstPage(p: DumpPage)
    ensures var b := Block(p.virt, p.phys, p.Bytes());
            BlocksMap([] + [b]) == [] + Stretch(p.virt, p.phys, p.Bytes()) && Maximal([] + [b])
  {
    var b := Block(p.virt, p.phys, p.Bytes());
    MapAppend([], b);
    MaximalAppend([], b);
  }

  lemma {:induction false} MaximalAppend(blocks: seq<Block>, b: Block)
    requires Maximal(blocks) && b.size > 0
    requires blocks != [] ==> !Contiguous(blocks[|blocks| - 1], b)
    ensures Maximal(blocks + [b])
  {
    hide Contiguous;
  }

  lemma {:induction false} NextBlock(blocks: seq<Block>, p: DumpPage)
    requires blocks != [] && Maximal(blocks)
    requires !Contiguous(blocks[|blocks| - 1], Block(p.virt, p.phys, p.Bytes()))
    ensures var b := Block(p.virt, p.phys, p.Bytes());
            && BlocksMap(blocks + [b]) == BlocksMap(blocks) + Stretch(p.virt, p.phys, p.Bytes())
            && Maximal(blocks + [b])
  {
    var b := Block(p.virt, p.phys, p.Bytes());
    assert b.size > 0;
    hide *;
    MapAppend(blocks, b);
    MaximalAppend(blocks, b);
  }

  lemma {:induction false} LongerBlock(blocks: seq<Block>, b: Block, p: DumpPage)
    requires Maximal(blocks + [b]) && Contiguous(b, Block(p.virt, p.phys, p.Bytes()))
    ensures var c := Block(b.virt, b.phys, b.size + p.Bytes());
            && BlocksMap(blocks + [c]) == BlocksMap(blocks + [b]) + Stretch(p.virt, p.phys, p.Bytes())
            && Maximal(blocks + [c])
  {
    var c := Block(b.virt, b.phys, b.size + p.Bytes());
    LongerMaximal(blocks, b, c);
    StretchJoin(b.virt, b.phys, b.size, p.Bytes());
    hide BlocksMap, Stretch, Maximal;
    MapAppend(blocks, b);
    MapAppend(blocks, c);
  }

  lemma {:induction false} LongerMaximal(blocks: seq<Block>, b: Block, c: Block)
    requires Maximal(blocks + [b]) && c.virt == b.virt && c.phys == b.phys && c.size >= b.size
    ensures Maximal(blocks + [c])
  {
    var old', new' := blocks + [b], blocks + [c];
    forall i | 0 <= i < |new'| ensures new'[i].size > 0 {
      assert old'[i].size > 0;
    }
    forall i | 0 < i < |new'| ensures !Contiguous(new'[i - 1], new'[i]) {
      assert !Contiguous(old'[i - 1], old'[i]);
    }
  }
}
