/** Page table words of 4-level paging: the bit fields of the entry unions in
    kernel/include/memory/paging.h and the helpers of kernel/src/memory/paging.c
    that pack and unpack them. A word is a `bv64`; frame numbers and table indices
    are natural numbers, so that tables can be indexed and frames counted. */
module Words {

  // The base_address field of a pointer entry has 28 bits: frames 0 .. 2^28 - 1.
  const FRAMES: nat := 0x1000_0000
  type Frame = f: nat | f < 0x1000_0000
  type Index = i: nat | i < 512

  datatype Level = PML4 | PDPR | PD | PT
  datatype EntryType = Pointer | Page
  datatype PageSize = Size4KB | Size2MB | Size1GB

  const FLAG_PRESENT: bv64 := 1
  const FLAG_WRITABLE: bv64 := 2

  // ---------- Frame numbers and 28-bit fields ----------

  /** The value of a 7-bit digit. */
  function Value7(b: bv7): (n: nat)
    ensures n < 0x80
  {
    b as nat
  }

  /** The value of a 28-bit field, read as four 7-bit digits. */
  function Number(b: bv28): (n: nat)
    ensures n < 0x1000_0000
  {
    Value7((b >> 21) as bv7) * 0x20_0000 + Value7(((b >> 14) & 0x7f) as bv7) * 0x4000
      + Value7(((b >> 7) & 0x7f) as bv7) * 0x80 + Value7((b & 0x7f) as bv7)
  }

  function Join7(a: bv7, b: bv7, c: bv7, d: bv7): bv28 {
    ((a as bv28) << 21) | ((b as bv28) << 14) | ((c as bv28) << 7) | (d as bv28)
  }

  /** The 28-bit field that holds a frame number. */
  function Field(n: Frame): bv28 {
    Join7((n / 0x20_0000) as bv7, (n / 0x4000 % 0x80) as bv7, (n / 0x80 % 0x80) as bv7, (n % 0x80) as bv7)
  }

  lemma {:induction false} Join7Parts(a: bv7, b: bv7, c: bv7, d: bv7)
    ensures var x := Join7(a, b, c, d);
            && (x >> 21) as bv7 == a && ((x >> 14) & 0x7f) as bv7 == b
            && ((x >> 7) & 0x7f) as bv7 == c && (x & 0x7f) as bv7 == d
  {
  }

  lemma {:induction false} NumberOfDigits(a: bv7, b: bv7, c: bv7, d: bv7)
    ensures Number(Join7(a, b, c, d)) ==
            Value7(a) * 0x20_0000 + Value7(b) * 0x4000 + Value7(c) * 0x80 + Value7(d)
  {
    hide Join7;
    Join7Parts(a, b, c, d);
  }

  lemma {:induction false} DigitOf(n: nat) returns (b: bv7)
    requires n < 0x80
    ensures b as nat == n
  {
    if n == 0 {
      b := 0;
    } else {
      var a := DigitOf(n - 1);
      assert a != 0x7f;
      b := a + 1;
    }
  }

  lemma {:induction false} Digit(n: nat)
    requires n < 0x80
    ensures (n as bv7) as nat == n
  {
    var b := DigitOf(n);
    assert (b as nat) as bv7 == b;
  }

  lemma {:induction false} SumOfDigits(n: nat)
    ensures n == n / 0x20_0000 * 0x20_0000 + n / 0x4000 % 0x80 * 0x4000 + n / 0x80 % 0x80 * 0x80 + n % 0x80
  {
    var q := n / 0x80;
    assert n / 0x4000 == q / 0x80;
    assert n / 0x20_0000 == q / 0x80 / 0x80;
  }

  /** No frame number is lost in a 28-bit field. */
  lemma {:induction false} NumberField(n: Frame)
    ensures Number(Field(n)) == n
  {
    hide Join7, Number;
    var a, b, c, d := n / 0x20_0000, n / 0x4000 % 0x80, n / 0x80 % 0x80, n % 0x80;
    Digit(a); Digit(b); Digit(c); Digit(d);
    NumberOfDigits(a as bv7, b as bv7, c as bv7, d as bv7);
    SumOfDigits(n);
  }

  // ---------- Entries ----------

  predicate Present(w: bv64) { w & 1 != 0 }

  // The page_size bit of PDPR and PD entries.
  predicate Large(w: bv64) { w & 0x80 != 0 }

  function ClearPresent(w: bv64): bv64 { w & !1 }

  /** The table a pointer entry names: its base_address field. */
  function Target(w: bv64): Frame { Number(PointerField(w)) }

  function PointerField(w: bv64): bv28 { ((w >> 12) & 0xfff_ffff) as bv28 }

  function FrameAddress(f: Frame): bv64 { (Field(f) as bv64) << 12 }

  // Assigning a bit field keeps the low bits of the value and the other fields of the word.
  function SetBase12(w: bv64, v: bv64): bv64 { (w & !0xff_ffff_f000) | ((v & 0xfff_ffff) << 12) }
  function SetBase21(w: bv64, v: bv64): bv64 { (w & !0xff_ffe0_0000) | ((v & 0x7_ffff) << 21) }
  function SetBase30(w: bv64, v: bv64): bv64 { (w & !0xff_c000_0000) | ((v & 0x3ff) << 30) }

  // Entries whose base_address field starts at bit 12, 21 or 30: the entry made from an address and
  // flags, and the address and the flags taken from an entry.
  function Entry12(base: bv64, flags: bv64): bv64 { SetBase12(flags, base >> 12) }
  function Entry21(base: bv64, flags: bv64): bv64 { SetBase21(flags, base >> 21) }
  function Entry30(base: bv64, flags: bv64): bv64 { SetBase30(flags, base >> 30) }

  function Address12(w: bv64): bv64 { ((w >> 12) & 0xfff_ffff) << 12 }
  function Address21(w: bv64): bv64 { ((w >> 21) & 0x7_ffff) << 21 }
  function Address30(w: bv64): bv64 { ((w >> 30) & 0x3ff) << 30 }

  function Flags12(w: bv64): bv64 { w & !0xff_ffff_f000 }
  function Flags21(w: bv64): bv64 { w & !0xff_ffe0_0000 }
  function Flags30(w: bv64): bv64 { w & !0xff_c000_0000 }

  // The bits of an address that such an entry keeps.
  function Field12(phys: bv64): bv64 { phys & 0xff_ffff_f000 }
  function Field21(phys: bv64): bv64 { phys & 0xff_ffe0_0000 }
  function Field30(phys: bv64): bv64 { phys & 0xff_c000_0000 }

  predicate Aligned12(phys: bv64) { phys & 0xfff == 0 }
  predicate Aligned21(phys: bv64) { phys & 0x1f_ffff == 0 }
  predicate Aligned30(phys: bv64) { phys & 0x3fff_ffff == 0 }

  // Below 2^40, the physical addresses an entry can hold.
  predicate Reachable(phys: bv64) { phys < 0x100_0000_0000 }

  /** paging_create_entry */
  function CreateEntry(base: bv64, flags: bv64, level: Level, kind: EntryType): bv64 {
    match level
    case PML4 => Entry12(base, flags)
    case PDPR => if kind == Page then Entry30(base, flags) else Entry12(base, flags)
    case PD => if kind == Page then Entry21(base, flags) else Entry12(base, flags)
    case PT => Entry12(base, flags)
  }

  /** paging_get_flags_from_entry */
  function GetFlags(w: bv64, level: Level, kind: EntryType): bv64 {
    if kind == Pointer || level == PT then Flags12(w)
    else if level == PDPR then Flags30(w)
    else if level == PD then Flags21(w)
    else 0
  }

  /** The physical address in a leaf: its base_address field, shifted back. */
  function LeafAddress(w: bv64, level: Level): bv64 {
    match level
    case PDPR => Address30(w)
    case PD => Address21(w)
    case _ => Address12(w)
  }

  predicate AlignedFor(phys: bv64, level: Level) {
    match level
    case PDPR => Aligned30(phys)
    case PD => Aligned21(phys)
    case _ => Aligned12(phys)
  }

  lemma {:induction false} Recreate12(w: bv64)
    ensures Entry12(Address12(w), Flags12(w)) == w
  {
  }

  lemma {:induction false} Recreate21(w: bv64)
    ensures Entry21(Address21(w), Flags21(w)) == w
  {
  }

  lemma {:induction false} Recreate30(w: bv64)
    ensures Entry30(Address30(w), Flags30(w)) == w
  {
  }

  /** Rebuilding a leaf from its own flags and address gives the same 64 bits, whatever they are. */
  lemma {:induction false} RecreateLeaf(w: bv64, level: Level)
    requires level != PML4
    ensures CreateEntry(LeafAddress(w, level), GetFlags(w, level, Page), level, Page) == w
  {
    hide Entry12, Entry21, Entry30, Address12, Address21, Address30, Flags12, Flags21, Flags30;
    match level
    case PDPR => Recreate30(w);
    case PD => Recreate21(w);
    case PT => Recreate12(w);
  }

  lemma {:induction false} EntryFlags12(phys: bv64, flags: bv64)
    ensures Present(Entry12(phys, flags)) == Present(flags) && Large(Entry12(phys, flags)) == Large(flags)
  {
  }

  lemma {:induction false} EntryFlags21(phys: bv64, flags: bv64)
    ensures Present(Entry21(phys, flags)) == Present(flags) && Large(Entry21(phys, flags)) == Large(flags)
  {
  }

  lemma {:induction false} EntryFlags30(phys: bv64, flags: bv64)
    ensures Present(Entry30(phys, flags)) == Present(flags) && Large(Entry30(phys, flags)) == Large(flags)
  {
  }

  lemma {:induction false} EntryAddress12(phys: bv64, flags: bv64)
    ensures Address12(Entry12(phys, flags)) == phys <==> Aligned12(phys) && Reachable(phys)
  {
    hide Address12, Entry12, Aligned12, Reachable, Field12;
    EntryField12(phys, flags);
    WholeField12(phys);
  }

  lemma {:induction false} EntryField12(phys: bv64, flags: bv64)
    ensures Address12(Entry12(phys, flags)) == Field12(phys)
  {
  }

  lemma {:induction false} WholeField12(phys: bv64)
    ensures Field12(phys) == phys <==> Aligned12(phys) && Reachable(phys)
  {
  }

  lemma {:induction false} EntryAddress21(phys: bv64, flags: bv64)
    ensures Address21(Entry21(phys, flags)) == phys <==> Aligned21(phys) && Reachable(phys)
  {
    hide Address21, Entry21, Aligned21, Reachable, Field21;
    EntryField21(phys, flags);
    WholeField21(phys);
  }

  lemma {:induction false} EntryField21(phys: bv64, flags: bv64)
    ensures Address21(Entry21(phys, flags)) == Field21(phys)
  {
  }

  lemma {:induction false} WholeField21(phys: bv64)
    ensures Field21(phys) == phys <==> Aligned21(phys) && Reachable(phys)
  {
  }

  lemma {:induction false} EntryAddress30(phys: bv64, flags: bv64)
    ensures Address30(Entry30(phys, flags)) == phys <==> Aligned30(phys) && Reachable(phys)
  {
    hide Address30, Entry30, Aligned30, Reachable, Field30;
    EntryField30(phys, flags);
    WholeField30(phys);
  }

  lemma {:induction false} EntryField30(phys: bv64, flags: bv64)
    ensures Address30(Entry30(phys, flags)) == Field30(phys)
  {
  }

  lemma {:induction false} WholeField30(phys: bv64)
    ensures Field30(phys) == phys <==> Aligned30(phys) && Reachable(phys)
  {
  }

  /** What a leaf made from `phys` and `flags` carries: exactly the present and size bits
      of the flags, and the whole address if and only if that is aligned to the page and
      below 2^40. */
  ghost predicate LeafHolds(phys: bv64, flags: bv64, level: Level) {
    var e := CreateEntry(phys, flags, level, Page);
    && Present(e) == Present(flags) && Large(e) == Large(flags)
    && (LeafAddress(e, level) == phys <==> AlignedFor(phys, level) && Reachable(phys))
  }

  lemma {:induction false} LeafEntry(phys: bv64, flags: bv64, level: Level)
    requires level != PML4
    ensures LeafHolds(phys, flags, level)
  {
    hide Entry12, Entry21, Entry30, Address12, Address21, Address30, Present, Large;
    hide Aligned12, Aligned21, Aligned30, Reachable;
    match level
    case PDPR =>
      EntryFlags30(phys, flags);
      EntryAddress30(phys, flags);
    case PD =>
      EntryFlags21(phys, flags);
      EntryAddress21(phys, flags);
    case PT =>
      EntryFlags12(phys, flags);
      EntryAddress12(phys, flags);
  }

  // The word a pointer entry becomes when its base_address field is set to `b`.
  ghost function PointerWord(b: bv28): bv64 {
    Entry12((b as bv64) << 12, FLAG_PRESENT | FLAG_WRITABLE)
  }

  lemma {:induction false} PointerBits(b: bv28)
    ensures Present(PointerWord(b)) && !Large(PointerWord(b)) && PointerField(PointerWord(b)) == b
  {
  }

  lemma {:induction false} PointerIsBase12(f: Frame, level: Level)
    ensures CreateEntry(FrameAddress(f), FLAG_PRESENT | FLAG_WRITABLE, level, Pointer) == PointerWord(Field(f))
  {
    hide Field, Entry12, Entry21, Entry30;
  }

  /** A pointer made for a table is present, is no large page and names that table. */
  lemma {:induction false} PointerEntry(f: Frame, level: Level)
    ensures var e := CreateEntry(FrameAddress(f), FLAG_PRESENT | FLAG_WRITABLE, level, Pointer);
            Present(e) && !Large(e) && Target(e) == f
  {
    hide Field, Number, PointerWord, PointerField, Present, Large, CreateEntry, FrameAddress;
    PointerIsBase12(f, level);
    PointerBits(Field(f));
    NumberField(f);
  }

  lemma {:induction false} ClearPresentBits(w: bv64)
    ensures !Present(ClearPresent(w))
    ensures !Present(w) ==> ClearPresent(w) == w
  {
  }

  // ---------- Virtual addresses ----------

  function Bits39(virt: bv64): bv9 { ((virt >> 39) & 0x1ff) as bv9 }
  function Bits30(virt: bv64): bv9 { ((virt >> 30) & 0x1ff) as bv9 }
  function Bits21(virt: bv64): bv9 { ((virt >> 21) & 0x1ff) as bv9 }
  function Bits12(virt: bv64): bv9 { ((virt >> 12) & 0x1ff) as bv9 }

  function Pml4Index(virt: bv64): Index { Bits39(virt) as nat }
  function PdprIndex(virt: bv64): Index { Bits30(virt) as nat }
  function PdIndex(virt: bv64): Index { Bits21(virt) as nat }
  function PtIndex(virt: bv64): Index { Bits12(virt) as nat }

  function Join9(a: bv9, b: bv9, c: bv9, d: bv9): bv64 {
    var sign: bv64 := if (a as bv64) >> 8 == 1 then 0xffff else 0;
    (sign << 48) | ((a as bv64) << 39) | ((b as bv64) << 30) | ((c as bv64) << 21) | ((d as bv64) << 12)
  }

  /** paging_get_virt_address_from_indices */
  function VirtOf(a: Index, b: Index, c: Index, d: Index): bv64 {
    Join9(a as bv9, b as bv9, c as bv9, d as bv9)
  }

  // Bits 63..48 repeat bit 47.
  predicate Canonical(virt: bv64) { virt >> 47 == 0 || virt >> 47 == 0x1_ffff }

  lemma {:induction false} IndexBits(n: Index) returns (b: bv9)
    ensures b as nat == n
  {
    if n == 0 {
      b := 0;
    } else {
      var a := IndexBits(n - 1);
      assert a != 0x1ff;
      b := a + 1;
    }
  }

  lemma {:induction false} IndexDigit(n: Index)
    ensures (n as bv9) as nat == n
  {
    var b := IndexBits(n);
    assert (b as nat) as bv9 == b;
  }

  lemma {:induction false} Join9Parts(a: bv9, b: bv9, c: bv9, d: bv9)
    ensures var x := Join9(a, b, c, d);
            Bits39(x) == a && Bits30(x) == b && Bits21(x) == c && Bits12(x) == d
  {
  }

  /** Splitting the address made from four indices gives the indices back ... */
  lemma {:induction false} SplitJoin(a: Index, b: Index, c: Index, d: Index)
    ensures var v := VirtOf(a, b, c, d);
            Pml4Index(v) == a && PdprIndex(v) == b && PdIndex(v) == c && PtIndex(v) == d
  {
    hide Join9, Bits39, Bits30, Bits21, Bits12;
    IndexDigit(a); IndexDigit(b); IndexDigit(c); IndexDigit(d);
    Join9Parts(a as bv9, b as bv9, c as bv9, d as bv9);
  }

  /** ... and joining the indices of an address gives the address back exactly when it
      is canonical and page-aligned. */
  lemma {:induction false} JoinSplit(v: bv64)
    ensures VirtOf(Pml4Index(v), PdprIndex(v), PdIndex(v), PtIndex(v)) == v <==> Canonical(v) && Aligned12(v)
  {
    hide Join9, Bits39, Bits30, Bits21, Bits12, Canonical, Aligned12;
    assert VirtOf(Pml4Index(v), PdprIndex(v), PdIndex(v), PtIndex(v)) == Rejoined(v);
    JoinSplitBits(v);
  }

  function Rejoined(v: bv64): bv64 { Join9(Bits39(v), Bits30(v), Bits21(v), Bits12(v)) }

  predicate Upper(v: bv64) { v & 0x8000_0000_0000 != 0 }

  lemma {:induction false} JoinSplitBits(v: bv64)
    ensures Rejoined(v) == v <==> Canonical(v) && Aligned12(v)
  {
    hide Rejoined, Upper, Canonical, Aligned12, Extended, Truncated;
    if Upper(v) {
      JoinUpper(v);
      UpperBits(v);
    } else {
      JoinLower(v);
      LowerBits(v);
    }
  }

  function Extended(v: bv64): bv64 { (v & 0xffff_ffff_f000) | 0xffff_0000_0000_0000 }
  function Truncated(v: bv64): bv64 { v & 0xffff_ffff_f000 }

  lemma {:induction false} JoinUpper(v: bv64)
    requires Upper(v)
    ensures Rejoined(v) == Extended(v)
  {
  }

  lemma {:induction false} JoinLower(v: bv64)
    requires !Upper(v)
    ensures Rejoined(v) == Truncated(v)
  {
  }

  lemma {:induction false} UpperBits(v: bv64)
    requires Upper(v)
    ensures Extended(v) == v <==> Canonical(v) && Aligned12(v)
  {
  }

  lemma {:induction false} LowerBits(v: bv64)
    requires !Upper(v)
    ensures Truncated(v) == v <==> Canonical(v) && Aligned12(v)
  {
  }
}
