/** How the processor reads table words and addresses with 4-level paging (section 4.5 of the Intel SDM,
    Volume 3A), in plain numbers, and that the fields of the program's entries are those. */
module Processor {
  import opened Options
  import opened Words
  import opened PageTables

  /** The field of a word or an address that starts at the bit of this place value and has so many
      values. */
  function Bits(w: bv64, place: nat, values: nat): (n: nat)
    requires place > 0 && values > 0
    ensures n < values
  {
    w as nat / place % values
  }

  /** What an address translates to under a root: the level of the leaf, and its word. Bit 0 of an entry
      says that it is present, bit 7 that it is a large page, and bits 39..12 are the frame of the next
      table; bits 47..39, 38..30, 29..21 and 20..12 of the address are the indices. */
  function Translation(m: Memory, root: Frame, virt: bv64): Option<(Level, bv64)> {
    var e4 := m[root][Bits(virt, 0x80_0000_0000, 512)];
    if Bits(e4, 1, 2) == 0 then None else
    var e3 := m[Bits(e4, 0x1000, 0x1000_0000)][Bits(virt, 0x4000_0000, 512)];
    if Bits(e3, 1, 2) == 0 then None else
    if Bits(e3, 0x80, 2) == 1 then Some((PDPR, e3)) else
    var e2 := m[Bits(e3, 0x1000, 0x1000_0000)][Bits(virt, 0x20_0000, 512)];
    if Bits(e2, 1, 2) == 0 then None else
    if Bits(e2, 0x80, 2) == 1 then Some((PD, e2)) else
    var e1 := m[Bits(e2, 0x1000, 0x1000_0000)][Bits(virt, 0x1000, 512)];
    if Bits(e1, 1, 2) == 0 then None else Some((PT, e1))
  }

  /** The size of a page in bytes. */
  function BytesOf(level: Level): nat {
    match level
    case PDPR => 0x4000_0000
    case PD => 0x20_0000
    case _ => 0x1000
  }

  /** Physical addresses have 40 bits, virtual ones 48 that count. */
  const PHYSICAL: nat := 0x100_0000_0000
  const VIRTUAL: nat := 0x1_0000_0000_0000

  /** The page of a size that an address lies in, or its physical page. */
  function PageNumber(virt: bv64, level: Level): nat { virt as nat % VIRTUAL / BytesOf(level) }
  function PhysicalPage(w: bv64, level: Level): nat { w as nat % PHYSICAL / BytesOf(level) }

  // ---------- Words and addresses put together from their fields ----------

  lemma {:induction false} Sum12(high: bv24, base: bv28, low: bv12)
    ensures (((high as bv64) << 40) | ((base as bv64) << 12) | (low as bv64)) as nat ==
            high as nat * 0x100_0000_0000 + base as nat * 0x1000 + low as nat
  {
  }

  lemma {:induction false} Sum21(high: bv24, base: bv19, low: bv21)
    ensures (((high as bv64) << 40) | ((base as bv64) << 21) | (low as bv64)) as nat ==
            high as nat * 0x100_0000_0000 + base as nat * 0x20_0000 + low as nat
  {
  }

  lemma {:induction false} Sum30(high: bv24, base: bv10, low: bv30)
    ensures (((high as bv64) << 40) | ((base as bv64) << 30) | (low as bv64)) as nat ==
            high as nat * 0x100_0000_0000 + base as nat * 0x4000_0000 + low as nat
  {
  }

  lemma {:induction false} SumAddress(sign: bv16, a: bv9, b: bv9, c: bv9, d: bv9, low: bv12)
    ensures (((sign as bv64) << 48) | ((a as bv64) << 39) | ((b as bv64) << 30) | ((c as bv64) << 21)
             | ((d as bv64) << 12) | (low as bv64)) as nat ==
            sign as nat * 0x1_0000_0000_0000 + a as nat * 0x80_0000_0000 + b as nat * 0x4000_0000
            + c as nat * 0x20_0000 + d as nat * 0x1000 + low as nat
  {
  }

  lemma {:induction false} SplitAddress(v: bv64)
    ensures v == ((((v >> 48) as bv16) as bv64) << 48) | ((Bits39(v) as bv64) << 39) | ((Bits30(v) as bv64) << 30)
                 | ((Bits21(v) as bv64) << 21) | ((Bits12(v) as bv64) << 12) | (((v & 0xfff) as bv12) as bv64)
  {
  }

  lemma {:induction false} AddressParts(v: bv64) returns (sign: nat, low: nat)
    ensures low < 0x1000
    ensures v as nat ==
            sign * 0x1_0000_0000_0000 + Pml4Index(v) * 0x80_0000_0000 + PdprIndex(v) * 0x4000_0000
            + PdIndex(v) * 0x20_0000 + PtIndex(v) * 0x1000 + low
  {
    sign, low := ((v >> 48) as bv16) as nat, ((v & 0xfff) as bv12) as nat;
    hide Bits39, Bits30, Bits21, Bits12;
    SplitAddress(v);
    SumAddress((v >> 48) as bv16, Bits39(v), Bits30(v), Bits21(v), Bits12(v), (v & 0xfff) as bv12);
  }

  lemma {:induction false} JoinBits(a: bv9, b: bv9, c: bv9, d: bv9)
    ensures var sign: bv16 := if a < 256 then 0 else 0xffff;
            Join9(a, b, c, d) == ((sign as bv64) << 48) | ((a as bv64) << 39) | ((b as bv64) << 30)
                                 | ((c as bv64) << 21) | ((d as bv64) << 12) | ((0 as bv12) as bv64)
  {
  }

  lemma {:induction false} JoinSum(a: bv9, b: bv9, c: bv9, d: bv9)
    ensures Join9(a, b, c, d) as nat == (if a < 256 then 0 else 0xffff_0000_0000_0000)
            + a as nat * 0x80_0000_0000 + b as nat * 0x4000_0000 + c as nat * 0x20_0000 + d as nat * 0x1000
  {
    hide Join9;
    JoinBits(a, b, c, d);
    SumAddress(if a < 256 then 0 else 0xffff, a, b, c, d, 0);
  }

  lemma {:induction false} UpperHalf(a: bv9)
    ensures a < 256 <==> a as nat < 256
  {
  }

  /** The address made from four indices, with bit 47 repeated above. */
  lemma {:induction false} JoinedAddress(a: Index, b: Index, c: Index, d: Index)
    ensures VirtOf(a, b, c, d) as nat == (if a < 256 then 0 else 0xffff_0000_0000_0000)
            + a * 0x80_0000_0000 + b * 0x4000_0000 + c * 0x20_0000 + d * 0x1000
  {
    hide Join9;
    IndexDigit(a);
    IndexDigit(b);
    IndexDigit(c);
    IndexDigit(d);
    UpperHalf(a as bv9);
    JoinSum(a as bv9, b as bv9, c as bv9, d as bv9);
  }

  lemma {:induction false} FieldNumber(n: nat, place: nat, values: nat, above: nat, f: nat, below: nat)
    requires n == (above * values + f) * place + below && f < values && below < place
    ensures n / place % values == f
  {
    Quotient(n, place, above * values + f, below);
    Quotient(above * values + f, values, above, f);
  }

  lemma {:induction false} Quotient(n: nat, d: nat, q: nat, r: nat)
    requires n == q * d + r && r < d
    ensures n / d == q && n % d == r
  {
    var k := n / d - q;
    assert n == n / d * d + n % d;
    assert k * d == r - n % d;
    Multiple(k, d);
  }

  lemma {:induction false} Multiple(k: int, d: nat)
    ensures k >= 1 ==> k * d >= d
    ensures k <= -1 ==> k * d + d <= 0
  {
  }

  lemma {:induction false} IndexNumbers(n: nat, sign: nat, a: nat, b: nat, c: nat, d: nat, low: nat)
    requires a < 512 && b < 512 && c < 512 && d < 512 && low < 0x1000
    requires n == sign * 0x1_0000_0000_0000 + a * 0x80_0000_0000 + b * 0x4000_0000 + c * 0x20_0000 + d * 0x1000 + low
    ensures n / 0x80_0000_0000 % 512 == a
    ensures n / 0x4000_0000 % 512 == b
    ensures n / 0x20_0000 % 512 == c
    ensures n / 0x1000 % 512 == d
  {
    FieldNumber(n, 0x80_0000_0000, 512, sign, a, b * 0x4000_0000 + c * 0x20_0000 + d * 0x1000 + low);
    FieldNumber(n, 0x4000_0000, 512, sign * 512 + a, b, c * 0x20_0000 + d * 0x1000 + low);
    FieldNumber(n, 0x20_0000, 512, (sign * 512 + a) * 512 + b, c, d * 0x1000 + low);
    FieldNumber(n, 0x1000, 512, ((sign * 512 + a) * 512 + b) * 512 + c, d, low);
  }

  /** The indices of an address are bits 47..39, 38..30, 29..21 and 20..12. */
  lemma {:induction false} Indices(v: bv64)
    ensures Pml4Index(v) == Bits(v, 0x80_0000_0000, 512) && PdprIndex(v) == Bits(v, 0x4000_0000, 512)
    ensures PdIndex(v) == Bits(v, 0x20_0000, 512) && PtIndex(v) == Bits(v, 0x1000, 512)
  {
    hide Pml4Index, PdprIndex, PdIndex, PtIndex;
    var sign, low := AddressParts(v);
    IndexNumbers(v as nat, sign, Pml4Index(v), PdprIndex(v), PdIndex(v), PtIndex(v), low);
  }

  // ---------- Entries ----------

  lemma {:induction false} Sum7(a: bv7, b: bv7, c: bv7, d: bv7)
    ensures (((a as bv28) << 21) | ((b as bv28) << 14) | ((c as bv28) << 7) | (d as bv28)) as nat ==
            a as nat * 0x20_0000 + b as nat * 0x4000 + c as nat * 0x80 + d as nat
  {
  }

  function Digit3(x: bv28): bv7 { (x >> 21) as bv7 }
  function Digit2(x: bv28): bv7 { ((x >> 14) & 0x7f) as bv7 }
  function Digit1(x: bv28): bv7 { ((x >> 7) & 0x7f) as bv7 }
  function Digit0(x: bv28): bv7 { (x & 0x7f) as bv7 }

  lemma {:induction false} SplitField(x: bv28)
    ensures x == ((Digit3(x) as bv28) << 21) | ((Digit2(x) as bv28) << 14) | ((Digit1(x) as bv28) << 7)
                 | (Digit0(x) as bv28)
  {
  }

  lemma {:induction false} DigitSum(x: bv28)
    ensures Number(x) == Digit3(x) as nat * 0x20_0000 + Digit2(x) as nat * 0x4000 + Digit1(x) as nat * 0x80
                         + Digit0(x) as nat
  {
  }

  lemma {:induction false} FieldValue(x: bv28)
    ensures Number(x) == x as nat
  {
    hide Digit0, Digit1, Digit2, Digit3, Number;
    SplitField(x);
    DigitSum(x);
    Sum7(Digit3(x), Digit2(x), Digit1(x), Digit0(x));
  }

  function From1(w: bv64): bv63 { (w >> 1) as bv63 }
  function From8(w: bv64): bv56 { (w >> 8) as bv56 }
  function Bit0(w: bv64): bv1 { (w & 1) as bv1 }
  function Bit7(w: bv64): bv1 { ((w >> 7) & 1) as bv1 }
  function Below7(w: bv64): bv7 { (w & 0x7f) as bv7 }

  lemma {:induction false} SumPresent(high: bv63, bit: bv1)
    ensures (((high as bv64) << 1) | (bit as bv64)) as nat == high as nat * 2 + bit as nat
    ensures bit as nat == if bit == 0 then 0 else 1
  {
  }

  lemma {:induction false} SumCleared(high: bv63)
    ensures ((high as bv64) << 1) as nat == high as nat * 2
  {
  }

  lemma {:induction false} SplitPresent(w: bv64)
    ensures w == ((From1(w) as bv64) << 1) | (Bit0(w) as bv64)
    ensures ClearPresent(w) == (From1(w) as bv64) << 1
    ensures Present(w) <==> Bit0(w) != 0
  {
  }

  function Half(w: bv64): nat { From1(w) as nat }
  function Bit0Value(w: bv64): nat { Bit0(w) as nat }

  lemma {:induction false} PresentSum(w: bv64)
    ensures w as nat == Half(w) * 2 + Bit0Value(w)
  {
    hide Present, ClearPresent, From1, Bit0;
    SplitPresent(w);
    SumPresent(From1(w), Bit0(w));
  }

  lemma {:induction false} ClearedSum(w: bv64)
    ensures ClearPresent(w) as nat == Half(w) * 2
  {
    hide Present, ClearPresent, From1, Bit0;
    SplitPresent(w);
    SumCleared(From1(w));
  }

  lemma {:induction false} Bit0Is(w: bv64)
    ensures Bit0Value(w) == if Present(w) then 1 else 0
  {
    hide Present, ClearPresent, From1, Bit0;
    SplitPresent(w);
    SumPresent(From1(w), Bit0(w));
  }

  /** Clearing the present bit takes bit 0 away and leaves all others. */
  lemma {:induction false} PresentBit(w: bv64)
    ensures Present(w) <==> Bits(w, 1, 2) == 1
    ensures ClearPresent(w) as nat == w as nat - Bits(w, 1, 2)
  {
    hide Present, ClearPresent, Half, Bit0Value;
    PresentSum(w);
    ClearedSum(w);
    Bit0Is(w);
    FieldNumber(w as nat, 1, 2, Half(w), Bit0Value(w), 0);
  }

  lemma {:induction false} SumLarge(high: bv56, bit: bv1, low: bv7)
    ensures (((high as bv64) << 8) | ((bit as bv64) << 7) | (low as bv64)) as nat ==
            high as nat * 0x100 + bit as nat * 0x80 + low as nat
    ensures bit as nat == if bit == 0 then 0 else 1
  {
  }

  lemma {:induction false} SplitLarge(w: bv64)
    ensures w == ((From8(w) as bv64) << 8) | ((Bit7(w) as bv64) << 7) | (Below7(w) as bv64)
    ensures Large(w) <==> Bit7(w) != 0
  {
  }

  lemma {:induction false} LargeBit(w: bv64)
    ensures Large(w) <==> Bits(w, 0x80, 2) == 1
  {
    hide Large, From8, Bit7, Below7;
    SplitLarge(w);
    SumLarge(From8(w), Bit7(w), Below7(w));
    FieldNumber(w as nat, 0x80, 2, From8(w) as nat, Bit7(w) as nat, Below7(w) as nat);
  }

  // ---------- Leaves ----------

  /** What a leaf made from an address and flags holds: the address in the bits from the page size up to
      bit 39, and the flags in all others. */
  ghost predicate HoldsAddressAndFlags(e: bv64, phys: bv64, flags: bv64, level: Level) {
    && PhysicalPage(e, level) == PhysicalPage(phys, level)
    && e as nat % BytesOf(level) == flags as nat % BytesOf(level)
    && e as nat / PHYSICAL == flags as nat / PHYSICAL
  }

  function High(w: bv64): bv24 { (w >> 40) as bv24 }
  function Base21(w: bv64): bv19 { ((w >> 21) & 0x7_ffff) as bv19 }
  function Base30(w: bv64): bv10 { ((w >> 30) & 0x3ff) as bv10 }
  function Below12(w: bv64): bv12 { (w & 0xfff) as bv12 }
  function Below21(w: bv64): bv21 { (w & 0x1f_ffff) as bv21 }
  function Below30(w: bv64): bv30 { (w & 0x3fff_ffff) as bv30 }

  lemma {:induction false} Made12(phys: bv64, flags: bv64)
    ensures Entry12(phys, flags) ==
            ((High(flags) as bv64) << 40) | ((PointerField(phys) as bv64) << 12) | (Below12(flags) as bv64)
    ensures Address12(phys) == (PointerField(phys) as bv64) << 12
  {
  }

  lemma {:induction false} Whole12(w: bv64)
    ensures Entry12(w, w) == w
  {
  }

  lemma {:induction false} Made21(phys: bv64, flags: bv64)
    ensures Entry21(phys, flags) ==
            ((High(flags) as bv64) << 40) | ((Base21(phys) as bv64) << 21) | (Below21(flags) as bv64)
    ensures Address21(phys) == (Base21(phys) as bv64) << 21
  {
  }

  lemma {:induction false} Whole21(w: bv64)
    ensures Entry21(w, w) == w
  {
  }

  lemma {:induction false} Made30(phys: bv64, flags: bv64)
    ensures Entry30(phys, flags) ==
            ((High(flags) as bv64) << 40) | ((Base30(phys) as bv64) << 30) | (Below30(flags) as bv64)
    ensures Address30(phys) == (Base30(phys) as bv64) << 30
  {
  }

  lemma {:induction false} Whole30(w: bv64)
    ensures Entry30(w, w) == w
  {
  }

  // The bits of a word above and below its address field, and the field itself.
  function Upper(w: bv64): nat { High(w) as nat }
  function Base(w: bv64, level: Level): nat {
    match level
    case PDPR => Base30(w) as nat
    case PD => Base21(w) as nat
    case _ => PointerField(w) as nat
  }
  function Lower(w: bv64, level: Level): nat {
    match level
    case PDPR => Below30(w) as nat
    case PD => Below21(w) as nat
    case _ => Below12(w) as nat
  }

  lemma {:induction false} EntrySum12(phys: bv64, flags: bv64)
    ensures Entry12(phys, flags) as nat ==
            Upper(flags) * 0x100_0000_0000 + Base(phys, PT) * 0x1000 + Lower(flags, PT)
  {
    hide PointerField, High, Below12, Entry12;
    Made12(phys, flags);
    Sum12(High(flags), PointerField(phys), Below12(flags));
  }

  lemma {:induction false} EntrySum21(phys: bv64, flags: bv64)
    ensures Entry21(phys, flags) as nat ==
            Upper(flags) * 0x100_0000_0000 + Base(phys, PD) * 0x20_0000 + Lower(flags, PD)
  {
    hide Base21, High, Below21, Entry21;
    Made21(phys, flags);
    Sum21(High(flags), Base21(phys), Below21(flags));
  }

  lemma {:induction false} EntrySum30(phys: bv64, flags: bv64)
    ensures Entry30(phys, flags) as nat ==
            Upper(flags) * 0x100_0000_0000 + Base(phys, PDPR) * 0x4000_0000 + Lower(flags, PDPR)
  {
    hide Base30, High, Below30, Entry30;
    Made30(phys, flags);
    Sum30(High(flags), Base30(phys), Below30(flags));
  }

  lemma {:induction false} SameAsPT(phys: bv64, flags: bv64)
    ensures Base(phys, PML4) == Base(phys, PT) && Lower(flags, PML4) == Lower(flags, PT)
  {
  }

  lemma {:induction false} EntrySum(phys: bv64, flags: bv64, level: Level)
    ensures CreateEntry(phys, flags, level, Page) as nat ==
            Upper(flags) * 0x100_0000_0000 + Base(phys, level) * BytesOf(level) + Lower(flags, level)
  {
    SameAsPT(phys, flags);
    hide Upper, Base, Lower, Entry12, Entry21, Entry30;
    match level {
      case PDPR => EntrySum30(phys, flags);
      case PD => EntrySum21(phys, flags);
      case _ => EntrySum12(phys, flags);
    }
  }

  lemma {:induction false} WordSum(w: bv64, level: Level)
    ensures w as nat == Upper(w) * 0x100_0000_0000 + Base(w, level) * BytesOf(level) + Lower(w, level)
  {
    hide Upper, Base, Lower, Entry12, Entry21, Entry30, BytesOf;
    EntrySum(w, w, level);
    Whole12(w);
    Whole21(w);
    Whole30(w);
  }

  lemma {:induction false} WordBounds(w: bv64, level: Level)
    ensures Lower(w, level) < BytesOf(level)
    ensures Base(w, level) < PHYSICAL / BytesOf(level)
  {
  }

  lemma {:induction false} Shifted(a: bv28, b: bv19, c: bv10)
    ensures ((a as bv64) << 12) as nat == a as nat * 0x1000
    ensures ((b as bv64) << 21) as nat == b as nat * 0x20_0000
    ensures ((c as bv64) << 30) as nat == c as nat * 0x4000_0000
  {
  }

  lemma {:induction false} AddressValues(w: bv64)
    ensures Address12(w) as nat == PointerField(w) as nat * 0x1000
    ensures Address21(w) as nat == Base21(w) as nat * 0x20_0000
    ensures Address30(w) as nat == Base30(w) as nat * 0x4000_0000
  {
    hide PointerField, Base21, Base30, Address12, Address21, Address30, Entry12, Entry21, Entry30;
    Shifted(PointerField(w), Base21(w), Base30(w));
    Made12(w, w);
    Made21(w, w);
    Made30(w, w);
  }

  lemma {:induction false} AddressSum(w: bv64, level: Level)
    ensures LeafAddress(w, level) as nat == Base(w, level) * BytesOf(level)
  {
    hide PointerField, Base21, Base30, Address12, Address21, Address30;
    AddressValues(w);
  }

  lemma {:induction false} SumParts(n: nat, high: nat, base: nat, low: nat, level: Level)
    requires n == high * 0x100_0000_0000 + base * BytesOf(level) + low
    requires low < BytesOf(level) && base < PHYSICAL / BytesOf(level)
    ensures n % PHYSICAL / BytesOf(level) == base && n % BytesOf(level) == low && n / PHYSICAL == high
  {
    var rest := base * BytesOf(level) + low;
    assert rest < PHYSICAL;
    Quotient(n, PHYSICAL, high, rest);
    Quotient(rest, BytesOf(level), base, low);
    Quotient(n, BytesOf(level), high * (PHYSICAL / BytesOf(level)) + base, low);
  }

  lemma {:induction false} BaseIsTarget(w: bv64)
    ensures Target(w) == Base(w, PT)
  {
    hide PointerField, Number;
    FieldValue(PointerField(w));
  }

  /** Bit 0 of an entry says that it is present, bit 7 that it is a large page, and bits 39..12 name the
      next table. */
  lemma {:induction false} Entries(w: bv64)
    ensures Present(w) <==> Bits(w, 1, 2) == 1
    ensures Large(w) <==> Bits(w, 0x80, 2) == 1
    ensures Target(w) == Bits(w, 0x1000, 0x1000_0000)
  {
    hide Target, Present, Large, Upper, Base, Lower;
    BaseIsTarget(w);
    WordSum(w, PT);
    WordBounds(w, PT);
    FieldNumber(w as nat, 0x1000, 0x1000_0000, Upper(w), Target(w), Lower(w, PT));
    PresentBit(w);
    LargeBit(w);
  }

  /** The address in a leaf is that of its physical page. */
  lemma {:induction false} LeafAddresses(w: bv64, level: Level)
    ensures LeafAddress(w, level) as nat == PhysicalPage(w, level) * BytesOf(level)
  {
    hide LeafAddress, Upper, Base, Lower;
    WordSum(w, level);
    WordBounds(w, level);
    AddressSum(w, level);
    SumParts(w as nat, Upper(w), Base(w, level), Lower(w, level), level);
  }

  lemma {:induction false} WordParts(w: bv64, level: Level)
    ensures PhysicalPage(w, level) == Base(w, level) && w as nat % BytesOf(level) == Lower(w, level)
    ensures w as nat / PHYSICAL == Upper(w)
  {
    hide Upper, Base, Lower, BytesOf;
    WordSum(w, level);
    WordBounds(w, level);
    SumParts(w as nat, Upper(w), Base(w, level), Lower(w, level), level);
  }

  lemma {:induction false} FlagsMade(w: bv64)
    ensures Flags12(w) == Entry12(0, w) && Flags21(w) == Entry21(0, w) && Flags30(w) == Entry30(0, w)
  {
  }

  lemma {:induction false} NoBase(level: Level)
    ensures Base(0, level) == 0
  {
  }

  lemma {:induction false} FlagsAreMade(w: bv64, level: Level)
    ensures GetFlags(w, level, Page) == if level == PML4 then 0 else CreateEntry(0, w, level, Page)
  {
    hide Flags12, Flags21, Flags30, Entry12, Entry21, Entry30;
    FlagsMade(w);
  }

  lemma {:induction false} PointerFlagsAreMade(w: bv64, level: Level)
    ensures GetFlags(w, level, EntryType.Pointer) == CreateEntry(0, w, PT, Page)
  {
    hide Flags12, Flags21, Flags30, Entry12, Entry21, Entry30;
    FlagsMade(w);
  }

  /** The flags taken from an entry are its word without the address; there are none for a page at the top
      level. */
  lemma {:induction false} FlagsTaken(w: bv64, level: Level)
    ensures level != PML4 ==> GetFlags(w, level, Page) as nat == w as nat - PhysicalPage(w, level) * BytesOf(level)
    ensures GetFlags(w, level, EntryType.Pointer) as nat == w as nat - PhysicalPage(w, PT) * BytesOf(PT)
    ensures GetFlags(w, PML4, Page) == 0
  {
    hide GetFlags, CreateEntry, PhysicalPage, BytesOf;
    FlagsAreMade(w, level);
    FlagsAreMade(w, PML4);
    PointerFlagsAreMade(w, level);
    FlagsSum(w, level);
    FlagsSum(w, PT);
  }

  lemma {:induction false} FlagsSum(w: bv64, level: Level)
    ensures CreateEntry(0, w, level, Page) as nat == w as nat - PhysicalPage(w, level) * BytesOf(level)
  {
    hide CreateEntry, Upper, Base, Lower, BytesOf, PhysicalPage;
    EntrySum(0, w, level);
    NoBase(level);
    WordSum(w, level);
    WordParts(w, level);
  }

  /** And a leaf made from an address and flags holds these. */
  lemma {:induction false} MadeLeaf(phys: bv64, flags: bv64, level: Level)
    ensures HoldsAddressAndFlags(CreateEntry(phys, flags, level, Page), phys, flags, level)
  {
    hide CreateEntry, Upper, Base, Lower, BytesOf;
    WordParts(phys, level);
    WordParts(flags, level);
    WordBounds(phys, level);
    WordBounds(flags, level);
    EntrySum(phys, flags, level);
    SumParts(CreateEntry(phys, flags, level, Page) as nat, Upper(flags), Base(phys, level), Lower(flags, level), level);
  }

  // ---------- Pointers ----------

  lemma {:induction false} PointerWordIs(b: bv28)
    ensures PointerWord(b) == (((0 as bv24) as bv64) << 40) | ((b as bv64) << 12) | ((3 as bv12) as bv64)
  {
  }

  lemma {:induction false} ShiftedField(b: bv28)
    ensures ((b as bv64) << 12) as nat == b as nat * 0x1000
  {
  }

  lemma {:induction false} PointerValue(b: bv28)
    ensures PointerWord(b) as nat == b as nat * 0x1000 + 3
  {
    hide PointerWord;
    PointerWordIs(b);
    Sum12(0, b, 3);
  }

  lemma {:induction false} FieldIs(f: Frame)
    ensures Field(f) as nat == f
  {
    hide Number, Field;
    NumberField(f);
    FieldValue(Field(f));
  }

  /** The address of a frame, and the pointer made for a table: bits 0 and 1 are set, present and
      writable, and no others below the frame number. */
  lemma {:induction false} Pointers(f: Frame, level: Level)
    ensures FrameAddress(f) as nat == 4096 * f
    ensures CreateEntry(FrameAddress(f), FLAG_PRESENT | FLAG_WRITABLE, level, EntryType.Pointer) as nat == 4096 * f + 3
  {
    hide Field, Number, PointerWord, CreateEntry;
    PointerIsBase12(f, level);
    PointerValue(Field(f));
    ShiftedField(Field(f));
    FieldIs(f);
  }

  // ---------- Pages ----------

  lemma {:induction false} PageNumberParts(n: nat, sign: nat, a: nat, b: nat, c: nat, d: nat, low: nat)
    requires a < 512 && b < 512 && c < 512 && d < 512 && low < 0x1000
    requires n == sign * 0x1_0000_0000_0000 + a * 0x80_0000_0000 + b * 0x4000_0000 + c * 0x20_0000 + d * 0x1000 + low
    ensures n % VIRTUAL / 0x4000_0000 == a * 512 + b
    ensures n % VIRTUAL / 0x20_0000 == (a * 512 + b) * 512 + c
    ensures n % VIRTUAL / 0x1000 == ((a * 512 + b) * 512 + c) * 512 + d
  {
    var rest := a * 0x80_0000_0000 + b * 0x4000_0000 + c * 0x20_0000 + d * 0x1000 + low;
    Quotient(n, VIRTUAL, sign, rest);
    Quotient(rest, 0x4000_0000, a * 512 + b, c * 0x20_0000 + d * 0x1000 + low);
    Quotient(rest, 0x20_0000, (a * 512 + b) * 512 + c, d * 0x1000 + low);
    Quotient(rest, 0x1000, ((a * 512 + b) * 512 + c) * 512 + d, low);
  }

  /** The page an address lies in is given by its indices. */
  lemma {:induction false} PageNumbers(v: bv64)
    ensures PageNumber(v, PDPR) == Pml4Index(v) * 512 + PdprIndex(v)
    ensures PageNumber(v, PD) == (Pml4Index(v) * 512 + PdprIndex(v)) * 512 + PdIndex(v)
    ensures PageNumber(v, PT) == ((Pml4Index(v) * 512 + PdprIndex(v)) * 512 + PdIndex(v)) * 512 + PtIndex(v)
  {
    hide Pml4Index, PdprIndex, PdIndex, PtIndex;
    var sign, low := AddressParts(v);
    PageNumberParts(v as nat, sign, Pml4Index(v), PdprIndex(v), PdIndex(v), PtIndex(v), low);
  }
}
