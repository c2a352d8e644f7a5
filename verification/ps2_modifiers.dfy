/** Modifier tracking (ps2_kbd_set_modifiers in kernel/src/drivers/ps2_keyboard.c). */
module Ps2Modifiers {
  import opened Options
  import opened Ps2Decoder

  datatype Flag = Shift | CapsLock | Alt | AltGr | Strg | NumLock | ScrollLock | LSuper | RSuper

  function Mask(f: Flag): bv16 {
    match f
    case Shift => 1
    case CapsLock => 2
    case Alt => 4
    case AltGr => 8
    case Strg => 16
    case NumLock => 32
    case ScrollLock => 64
    case LSuper => 128
    case RSuper => 256
  }

  predicate Meets(w: bv16, mask: bv16) { w & mask != 0 }
  function Or(w: bv16, mask: bv16): bv16 { w | mask }
  function AndNot(w: bv16, mask: bv16): bv16 { w & !mask }
  function Xor(w: bv16, mask: bv16): bv16 { w ^ mask }

  predicate Set(flags: bv16, f: Flag) { Meets(flags, Mask(f)) }

  /** The flag a key acts on. */
  function FlagOf(key: bv8): Option<Flag> {
    match key
    case 0x3a => Some(CapsLock)
    case 0x45 => Some(NumLock)
    case 0x46 => Some(ScrollLock)
    case 0x2a => Some(Shift)
    case 0x36 => Some(Shift)
    case 0x1d => Some(Strg)
    case 0x9d => Some(Strg)
    case 0x38 => Some(Alt)
    case 0xb8 => Some(AltGr)
    case 0xdb => Some(LSuper)
    case 0xdc => Some(RSuper)
    case _ => None
  }

  predicate Locks(f: Flag) { f == CapsLock || f == NumLock || f == ScrollLock }

  // Shift and Strg have two keys each; the first of them comes first.
  predicate Paired(f: Flag) { f == Shift || f == Strg }

  function KeyFor(f: Flag): bv8 {
    match f
    case Shift => 0x2a
    case CapsLock => 0x3a
    case Alt => 0x38
    case AltGr => 0xb8
    case Strg => 0x1d
    case NumLock => 0x45
    case ScrollLock => 0x46
    case LSuper => 0xdb
    case RSuper => 0xdc
  }

  function SecondKeyFor(f: Flag): bv8
    requires Paired(f)
  {
    if f == Shift then 0x36 else 0x9d
  }

  lemma {:induction false} KeysOf(f: Flag, key: bv8)
    ensures FlagOf(key) == Some(f) <==> key == KeyFor(f) || (Paired(f) && key == SecondKeyFor(f))
    ensures Paired(f) ==> KeyFor(f) != SecondKeyFor(f)
  {
  }

  // ---------- One stroke ----------

  // uint8_t
  type Counter = n: nat | n < 256

  function Increment(n: Counter): Counter { (n + 1) % 256 }
  function Decrement(n: Counter): Counter { (n + 255) % 256 }

  /** The static variables of ps2_kbd_set_modifiers. */
  datatype Modifiers = Modifiers(flags: bv16, shifts: Counter, strgs: Counter) {
    function Count(f: Flag): Counter
      requires Paired(f)
    {
      if f == Shift then shifts else strgs
    }
  }

  /** What one stroke does to them. */
  function After(m: Modifiers, k: Stroke): Modifiers {
    match FlagOf(k.key)
    case None => m
    case Some(f) =>
      if Locks(f) then
        if k.pressed then m.(flags := Xor(m.flags, Mask(f))) else m
      else if Paired(f) then
        var n := if k.pressed then Increment(m.Count(f)) else Decrement(m.Count(f));
        var m' := if f == Shift then m.(shifts := n) else m.(strgs := n);
        if k.pressed then m'.(flags := Or(m.flags, Mask(f)))
        else if n == 0 then m'.(flags := AndNot(m.flags, Mask(f)))
        else m'
      else if k.pressed then m.(flags := Or(m.flags, Mask(f)))
      else m.(flags := AndNot(m.flags, Mask(f)))
  }

  lemma {:induction false} AfterLock(m: Modifiers, k: Stroke, f: Flag)
    requires FlagOf(k.key) == Some(f) && Locks(f)
    ensures After(m, k) == Modifiers(if k.pressed then Xor(m.flags, Mask(f)) else m.flags, m.shifts, m.strgs)
  {
    hide Mask, FlagOf, Increment, Decrement, Or, AndNot, Xor;
  }

  lemma {:induction false} AfterSingle(m: Modifiers, k: Stroke, f: Flag)
    requires FlagOf(k.key) == Some(f) && !Locks(f) && !Paired(f)
    ensures var flags := if k.pressed then Or(m.flags, Mask(f)) else AndNot(m.flags, Mask(f));
            After(m, k) == Modifiers(flags, m.shifts, m.strgs)
  {
    hide Mask, FlagOf, Increment, Decrement, Or, AndNot, Xor;
  }

  lemma {:induction false} AfterPaired(m: Modifiers, k: Stroke, f: Flag)
    requires FlagOf(k.key) == Some(f) && Paired(f)
    ensures var n := if k.pressed then Increment(m.Count(f)) else Decrement(m.Count(f));
            var flags := if k.pressed then Or(m.flags, Mask(f))
                         else if n == 0 then AndNot(m.flags, Mask(f)) else m.flags;
            After(m, k) == if f == Shift then Modifiers(flags, n, m.strgs) else Modifiers(flags, m.shifts, n)
  {
    hide Mask, FlagOf, Increment, Decrement, Or, AndNot, Xor;
  }

  lemma {:induction false} Masks(f: Flag, g: Flag)
    ensures Meets(Mask(f), Mask(g)) <==> f == g
    ensures SingleBit(Mask(f))
  {
  }

  predicate SingleBit(mask: bv16) { mask != 0 && mask & (mask - 1) == 0 }

  lemma {:induction false} OthersKept(w: bv16, x: bv16, y: bv16)
    requires !Meets(x, y)
    ensures Meets(Or(w, x), y) == Meets(w, y)
  {
  }

  lemma {:induction false} OthersCleared(w: bv16, x: bv16, y: bv16)
    requires !Meets(x, y)
    ensures Meets(AndNot(w, x), y) == Meets(w, y)
  {
  }

  lemma {:induction false} OthersToggled(w: bv16, x: bv16, y: bv16)
    requires !Meets(x, y)
    ensures Meets(Xor(w, x), y) == Meets(w, y)
  {
  }

  lemma {:induction false} ItselfChanged(w: bv16, x: bv16)
    requires Meets(x, x)
    ensures Meets(Or(w, x), x) && !Meets(AndNot(w, x), x)
  {
  }

  lemma {:induction false} ItselfToggled(w: bv16, x: bv16)
    requires SingleBit(x)
    ensures Meets(Xor(w, x), x) == !Meets(w, x)
  {
  }

  /** Setting, clearing or toggling one flag changes no other. */
  lemma {:induction false} FlagChanges(w: bv16, f: Flag, g: Flag)
    ensures Set(Or(w, Mask(f)), g) <==> f == g || Set(w, g)
    ensures Set(AndNot(w, Mask(f)), g) <==> f != g && Set(w, g)
    ensures Set(Xor(w, Mask(f)), g) <==> if f == g then !Set(w, g) else Set(w, g)
  {
    hide Mask, Meets, Or, AndNot, Xor, SingleBit;
    Masks(f, g);
    if f == g {
      ItselfChanged(w, Mask(g));
      ItselfToggled(w, Mask(g));
    } else {
      OthersKept(w, Mask(f), Mask(g));
      OthersCleared(w, Mask(f), Mask(g));
      OthersToggled(w, Mask(f), Mask(g));
    }
  }

  /** What one stroke does to one flag. */
  lemma {:induction false} StrokeOnFlag(m: Modifiers, k: Stroke, g: Flag)
    ensures var m' := After(m, k);
            Set(m'.flags, g) <==>
              if FlagOf(k.key) != Some(g) then Set(m.flags, g)
              else if Locks(g) then k.pressed != Set(m.flags, g)
              else if Paired(g) then k.pressed || (m'.Count(g) != 0 && Set(m.flags, g))
              else k.pressed
  {
    hide Mask, Set, FlagOf, Increment, Decrement, Or, AndNot, Xor;
    if FlagOf(k.key).Some? {
      var f := FlagOf(k.key).value;
      FlagChanges(m.flags, f, g);
    }
  }

  /** The first press of a key gives this number. */
  lemma {:induction false} FirstPress(key: bv8)
    ensures After(Modifiers(0, 0, 0), Stroke(true, key)).flags ==
            match key
            case 0x2a => 1
            case 0x36 => 1
            case 0x3a => 2
            case 0x38 => 4
            case 0xb8 => 8
            case 0x1d => 16
            case 0x9d => 16
            case 0x45 => 32
            case 0x46 => 64
            case 0xdb => 128
            case 0xdc => 256
            case _ => 0
  {
  }

  // ---------- Streams of strokes ----------

  function Tracked(ks: seq<Stroke>): Modifiers {
    if ks == [] then Modifiers(0, 0, 0) else After(Tracked(ks[..|ks| - 1]), ks[|ks| - 1])
  }

  /** The key is down: its last stroke was a press. */
  predicate Held(ks: seq<Stroke>, key: bv8) {
    ks != [] && if ks[|ks| - 1].key == key then ks[|ks| - 1].pressed else Held(ks[..|ks| - 1], key)
  }

  function Presses(ks: seq<Stroke>, key: bv8): nat {
    if ks == [] then 0
    else Presses(ks[..|ks| - 1], key) + if ks[|ks| - 1] == Stroke(true, key) then 1 else 0
  }

  function Releases(ks: seq<Stroke>, key: bv8): nat {
    if ks == [] then 0
    else Releases(ks[..|ks| - 1], key) + if ks[|ks| - 1] == Stroke(false, key) then 1 else 0
  }

  /** How often the key was pressed while it was down: what a keyboard sends when it repeats a key. */
  function Repeats(ks: seq<Stroke>, key: bv8): nat {
    if ks == [] then 0
    else Repeats(ks[..|ks| - 1], key) + if ks[|ks| - 1] == Stroke(true, key) && Held(ks[..|ks| - 1], key) then 1 else 0
  }

  /** The key is released only when it is down. */
  predicate Orderly(ks: seq<Stroke>, key: bv8) {
    ks == [] ||
    (Orderly(ks[..|ks| - 1], key) && (ks[|ks| - 1] == Stroke(false, key) ==> Held(ks[..|ks| - 1], key)))
  }

  /** A lock flag is the parity of the presses of its key, over every stream. */
  lemma {:induction false} LockIsParity(ks: seq<Stroke>, f: Flag)
    requires Locks(f)
    ensures Set(Tracked(ks).flags, f) <==> Presses(ks, KeyFor(f)) % 2 == 1
  {
    hide After, FlagOf, KeyFor, Mask;
    if ks != [] {
      LockIsParity(ks[..|ks| - 1], f);
      KeysOf(f, ks[|ks| - 1].key);
      StrokeOnFlag(Tracked(ks[..|ks| - 1]), ks[|ks| - 1], f);
    } else {
      NoFlags(f);
    }
  }

  lemma {:induction false} NoFlags(f: Flag)
    ensures !Set(0, f)
  {
  }

  /** A flag with one key is set exactly while that key is held, over every stream. */
  lemma {:induction false} SingleIsHeld(ks: seq<Stroke>, f: Flag)
    requires !Locks(f) && !Paired(f)
    ensures Set(Tracked(ks).flags, f) <==> Held(ks, KeyFor(f))
  {
    hide After, FlagOf, KeyFor, Mask;
    if ks != [] {
      SingleIsHeld(ks[..|ks| - 1], f);
      KeysOf(f, ks[|ks| - 1].key);
      StrokeOnFlag(Tracked(ks[..|ks| - 1]), ks[|ks| - 1], f);
    } else {
      NoFlags(f);
    }
  }

  // ---------- Flags with two keys ----------

  function PressesOf(ks: seq<Stroke>, f: Flag): nat
    requires Paired(f)
  {
    Presses(ks, KeyFor(f)) + Presses(ks, SecondKeyFor(f))
  }

  function ReleasesOf(ks: seq<Stroke>, f: Flag): nat
    requires Paired(f)
  {
    Releases(ks, KeyFor(f)) + Releases(ks, SecondKeyFor(f))
  }

  function RepeatsOf(ks: seq<Stroke>, f: Flag): nat
    requires Paired(f)
  {
    Repeats(ks, KeyFor(f)) + Repeats(ks, SecondKeyFor(f))
  }

  /** How many of the two keys are down. */
  function HeldOf(ks: seq<Stroke>, f: Flag): nat
    requires Paired(f)
  {
    (if Held(ks, KeyFor(f)) then 1 else 0) + (if Held(ks, SecondKeyFor(f)) then 1 else 0)
  }

  predicate OrderlyPair(ks: seq<Stroke>, f: Flag)
    requires Paired(f)
  {
    Orderly(ks, KeyFor(f)) && Orderly(ks, SecondKeyFor(f))
  }

  /** Releases of the flag's keys since one of them was pressed. */
  function ReleasesSincePress(ks: seq<Stroke>, f: Flag): nat {
    if ks == [] then 0
    else if FlagOf(ks[|ks| - 1].key) != Some(f) then ReleasesSincePress(ks[..|ks| - 1], f)
    else if ks[|ks| - 1].pressed then 0
    else ReleasesSincePress(ks[..|ks| - 1], f) + 1
  }

  /** The counter before the last i releases. */
  function Earlier(n: Counter, i: nat): Counter { (n + i) % 256 }

  /** The counter reached 0 at none of the last t releases. */
  predicate NeverZero(n: Counter, t: nat) {
    forall i: nat :: i < t ==> Earlier(n, i) != 0
  }

  lemma {:induction false} NeverZeroStep(n: Counter, t: nat)
    ensures NeverZero(n, 0)
    ensures NeverZero(Decrement(n), t + 1) <==> Decrement(n) != 0 && NeverZero(n, t)
  {
    forall i: nat ensures Earlier(Decrement(n), i + 1) == Earlier(n, i) {
    }
    assert Earlier(Decrement(n), 0) == Decrement(n);
    hide Earlier, Decrement;
    if Decrement(n) != 0 && NeverZero(n, t) {
      forall i: nat | i < t + 1 ensures Earlier(Decrement(n), i) != 0 {
        if i > 0 {
          assert Earlier(Decrement(n), (i - 1) + 1) == Earlier(n, i - 1);
        }
      }
    }
    if NeverZero(Decrement(n), t + 1) {
      forall i: nat | i < t ensures Earlier(n, i) != 0 {
        assert Earlier(Decrement(n), i + 1) == Earlier(n, i);
      }
    }
  }

  lemma {:induction false} CountAfter(m: Modifiers, k: Stroke, f: Flag)
    requires Paired(f)
    ensures After(m, k).Count(f) == if FlagOf(k.key) != Some(f) then m.Count(f)
                                    else if k.pressed then Increment(m.Count(f)) else Decrement(m.Count(f))
  {
    hide FlagOf, Mask, Increment, Decrement;
  }

  lemma {:induction false} CounterSteps(n: int)
    ensures Increment(n % 256) == (n + 1) % 256
    ensures Decrement(n % 256) == (n - 1) % 256
  {
    var q, c := n / 256, n % 256;
    if c == 255 { Remainder(n + 1, q + 1, 0); } else { Remainder(n + 1, q, c + 1); }
    if c == 0 { Remainder(n - 1, q - 1, 255); } else { Remainder(n - 1, q, c - 1); }
  }

  lemma {:induction false} Remainder(n: int, q: int, c: Counter)
    requires n == 256 * q + c
    ensures n % 256 == c
  {
  }

  lemma {:induction false} KeyStep(before: seq<Stroke>, k: Stroke, key: bv8)
    ensures Held(before + [k], key) == if k.key == key then k.pressed else Held(before, key)
    ensures Presses(before + [k], key) == Presses(before, key) + if k == Stroke(true, key) then 1 else 0
    ensures Releases(before + [k], key) == Releases(before, key) + if k == Stroke(false, key) then 1 else 0
    ensures Repeats(before + [k], key) ==
            Repeats(before, key) + if k == Stroke(true, key) && Held(before, key) then 1 else 0
    ensures Orderly(before + [k], key) <==> Orderly(before, key) && (k == Stroke(false, key) ==> Held(before, key))
  {
    assert (before + [k])[..|before|] == before;
  }

  lemma {:induction false} SinceStep(before: seq<Stroke>, k: Stroke, f: Flag)
    ensures ReleasesSincePress(before + [k], f) ==
            if FlagOf(k.key) != Some(f) then ReleasesSincePress(before, f)
            else if k.pressed then 0 else ReleasesSincePress(before, f) + 1
  {
    hide FlagOf;
    assert (before + [k])[..|before|] == before;
  }

  /** The effect of one more stroke on what is counted about the two keys. */
  lemma {:induction false} PairStep(before: seq<Stroke>, k: Stroke, f: Flag)
    requires Paired(f)
    ensures var ks, mine := before + [k], FlagOf(k.key) == Some(f);
            PressesOf(ks, f) == PressesOf(before, f) + (if mine && k.pressed then 1 else 0) &&
            ReleasesOf(ks, f) == ReleasesOf(before, f) + if mine && !k.pressed then 1 else 0
  {
    hide FlagOf, KeyFor, SecondKeyFor;
    KeysOf(f, k.key);
    KeyStep(before, k, KeyFor(f));
    KeyStep(before, k, SecondKeyFor(f));
  }

  /** And, where keys are released only when they are down, on how many are held. */
  lemma {:induction false} OrderlyStep(before: seq<Stroke>, k: Stroke, f: Flag)
    requires Paired(f) && OrderlyPair(before + [k], f)
    ensures OrderlyPair(before, f)
    ensures HeldOf(before + [k], f) + RepeatsOf(before + [k], f) ==
            HeldOf(before, f) + RepeatsOf(before, f)
            + if FlagOf(k.key) != Some(f) then 0 else if k.pressed then 1 else -1
    ensures FlagOf(k.key) != Some(f) ==> HeldOf(before + [k], f) == HeldOf(before, f)
    ensures FlagOf(k.key) == Some(f) && k.pressed ==> 1 <= HeldOf(before + [k], f) <= 2
    ensures FlagOf(k.key) == Some(f) && !k.pressed ==> HeldOf(before + [k], f) == HeldOf(before, f) - 1
  {
    hide FlagOf, KeyFor, SecondKeyFor;
    KeysOf(f, k.key);
    KeyStep(before, k, KeyFor(f));
    KeyStep(before, k, SecondKeyFor(f));
  }

  lemma {:induction false} NothingYet(f: Flag)
    requires Paired(f)
    ensures PressesOf([], f) == ReleasesOf([], f) == HeldOf([], f) == RepeatsOf([], f) == 0
    ensures Tracked([]).Count(f) == 0 && !Set(Tracked([]).flags, f)
  {
    NoFlags(f);
  }

  /** Over every stream the counter of Shift and of Strg is the number of presses less that of
      releases, modulo 256, and the flag is set exactly if one of its keys was ever pressed and the
      counter has not been 0 since the last press. */
  lemma {:induction false} PairCounts(ks: seq<Stroke>, f: Flag)
    requires Paired(f)
    ensures Tracked(ks).Count(f) == (PressesOf(ks, f) - ReleasesOf(ks, f)) % 256
    ensures Set(Tracked(ks).flags, f) <==>
              PressesOf(ks, f) > 0 && NeverZero(Tracked(ks).Count(f), ReleasesSincePress(ks, f))
  {
    hide Increment, Decrement, After, FlagOf, KeyFor, SecondKeyFor, Mask, Set, PressesOf, ReleasesOf;
    hide ReleasesSincePress, NeverZero;
    if ks != [] {
      var before, k := ks[..|ks| - 1], ks[|ks| - 1];
      assert before + [k] == ks;
      PairStep(before, k, f);
      SinceStep(before, k, f);
      PairCounts(before, f);
      CountAfter(Tracked(before), k, f);
      CounterSteps(PressesOf(before, f) - ReleasesOf(before, f));
      StrokeOnFlag(Tracked(before), k, f);
      NeverZeroStep(Tracked(before).Count(f), ReleasesSincePress(before, f));
      NeverZeroStep(Tracked(ks).Count(f), 0);
    } else {
      NothingYet(f);
    }
  }

  /** Modifiers as a number: Shift counts 1, Caps Lock 2, Alt 4, AltGr 8, Strg 16, Num Lock 32, Scroll
      Lock 64, and the Super keys 128 and 256. */
  function FlagSum(shift: bool, capsLock: bool, alt: bool, altGr: bool, strg: bool, numLock: bool, scrollLock: bool,
          lSuper: bool, rSuper: bool): bv16
  {
    (if shift then 1 else 0) + (if capsLock then 2 else 0) + (if alt then 4 else 0) + (if altGr then 8 else 0)
    + (if strg then 16 else 0) + (if numLock then 32 else 0) + (if scrollLock then 64 else 0)
    + (if lSuper then 128 else 0) + (if rSuper then 256 else 0)
  }

  /** What they are after these strokes. */
  function FlagNumber(ks: seq<Stroke>): bv16 {
    FlagSum(PairSet(ks, Shift), Presses(ks, 0x3a) % 2 == 1, Held(ks, 0x38), Held(ks, 0xb8), PairSet(ks, Strg),
            Presses(ks, 0x45) % 2 == 1, Presses(ks, 0x46) % 2 == 1, Held(ks, 0xdb), Held(ks, 0xdc))
  }

  /** One of the two keys was ever pressed, and the presses less the releases have not been a multiple of
      256 at a release since. */
  predicate PairSet(ks: seq<Stroke>, f: Flag)
    requires Paired(f)
  {
    PressesOf(ks, f) > 0 && NeverZero((PressesOf(ks, f) - ReleasesOf(ks, f)) % 256, ReleasesSincePress(ks, f))
  }

  // No bits but those of the nine flags.
  predicate NineFlags(w: bv16) { w & 0x1ff == w }

  lemma {:induction false} NineFlagsKept(w: bv16, mask: bv16)
    requires NineFlags(w) && NineFlags(mask)
    ensures NineFlags(Or(w, mask)) && NineFlags(AndNot(w, mask)) && NineFlags(Xor(w, mask))
  {
  }

  lemma {:induction false} MaskOfNine(f: Flag)
    ensures NineFlags(Mask(f))
  {
  }

  lemma {:induction false} AfterNine(m: Modifiers, k: Stroke)
    requires NineFlags(m.flags)
    ensures NineFlags(After(m, k).flags)
  {
    hide FlagOf, Mask, NineFlags, Or, AndNot, Xor, Increment, Decrement;
    if FlagOf(k.key).Some? {
      MaskOfNine(FlagOf(k.key).value);
      NineFlagsKept(m.flags, Mask(FlagOf(k.key).value));
    }
  }

  lemma {:induction false} TrackedNine(ks: seq<Stroke>)
    ensures NineFlags(Tracked(ks).flags)
  {
    hide After;
    if ks != [] {
      TrackedNine(ks[..|ks| - 1]);
      AfterNine(Tracked(ks[..|ks| - 1]), ks[|ks| - 1]);
    }
  }

  lemma {:induction false} SumOfFlags(w: bv16)
    requires NineFlags(w)
    ensures w == FlagSum(Set(w, Shift), Set(w, CapsLock), Set(w, Alt), Set(w, AltGr), Set(w, Strg), Set(w, NumLock),
                         Set(w, ScrollLock), Set(w, LSuper), Set(w, RSuper))
  {
  }

  /** Over every stream the modifiers are this number. */
  lemma {:induction false} FlagsAreNumber(ks: seq<Stroke>)
    ensures Tracked(ks).flags == FlagNumber(ks)
  {
    hide Set, Tracked, Presses, Held, PressesOf, ReleasesOf, ReleasesSincePress, NineFlags, NeverZero, FlagSum;
    LockIsParity(ks, CapsLock);
    LockIsParity(ks, NumLock);
    LockIsParity(ks, ScrollLock);
    SingleIsHeld(ks, Alt);
    SingleIsHeld(ks, AltGr);
    SingleIsHeld(ks, LSuper);
    SingleIsHeld(ks, RSuper);
    PairCounts(ks, Shift);
    PairCounts(ks, Strg);
    TrackedNine(ks);
    SumOfFlags(Tracked(ks).flags);
  }

  /** Where keys are released only when they are down, the presses not yet released are the keys held
      and the repeats, and at most two keys are held or have been released since the last press. */
  lemma {:induction false} OrderlyCounts(ks: seq<Stroke>, f: Flag)
    requires Paired(f) && OrderlyPair(ks, f)
    ensures PressesOf(ks, f) - ReleasesOf(ks, f) == HeldOf(ks, f) + RepeatsOf(ks, f)
    ensures PressesOf(ks, f) > 0 ==> 1 <= HeldOf(ks, f) + ReleasesSincePress(ks, f) <= 2
    ensures PressesOf(ks, f) == 0 ==> HeldOf(ks, f) == RepeatsOf(ks, f) == ReleasesSincePress(ks, f) == 0
  {
    hide FlagOf, KeyFor, SecondKeyFor, HeldOf, RepeatsOf, PressesOf, ReleasesOf, OrderlyPair, ReleasesSincePress;
    if ks != [] {
      var before, k := ks[..|ks| - 1], ks[|ks| - 1];
      assert before + [k] == ks;
      PairStep(before, k, f);
      OrderlyStep(before, k, f);
      SinceStep(before, k, f);
      OrderlyCounts(before, f);
    } else {
      NothingYet(f);
      NoneSince(f);
    }
  }

  lemma {:induction false} NoneSince(f: Flag)
    ensures ReleasesSincePress([], f) == 0
  {
  }

  /** When the Shift (Strg) flag is right, for r repeats so far (modulo 256), held keys and t releases
      since the last press. With no key held it is right if there was no repeat; with one held it is
      wrong only if the other was released when the counter had come round to 0. */
  predicate FlagRight(r: nat, held: nat, t: nat) {
    if held == 0 then r == 0 || (r == 255 && t == 2) else t == 0 || r != 255
  }

  lemma {:induction false} FewReleases(held: nat, repeats: nat, t: nat)
    requires held + t <= 2
    ensures var r := repeats % 256;
            NeverZero((held + repeats) % 256, t) <==>
              t == 0 || if held == 1 then r != 255 else r != 0 && (t == 2 ==> r != 255)
  {
    var q, r := repeats / 256, repeats % 256;
    var n := (held + repeats) % 256;
    if held + r == 256 { Remainder(held + repeats, q + 1, 0); }
    if held + r < 256 { Remainder(held + repeats, q, held + r); }
    assert Earlier(n, 0) == n && Earlier(n, 1) == (n + 1) % 256;
    hide Earlier;
  }

  /** So, over every stream in which keys are released only when they are down, the flag tells whether
      one of its keys is held exactly under this condition. Where each key alternates press and
      release, it always does. */
  lemma {:induction false} PairIsHeld(ks: seq<Stroke>, f: Flag)
    requires Paired(f) && OrderlyPair(ks, f)
    ensures (Set(Tracked(ks).flags, f) <==> HeldOf(ks, f) > 0) <==>
              FlagRight(RepeatsOf(ks, f) % 256, HeldOf(ks, f), ReleasesSincePress(ks, f))
  {
    hide HeldOf, RepeatsOf, PressesOf, ReleasesOf, Set, NeverZero;
    PairCounts(ks, f);
    OrderlyCounts(ks, f);
    FewReleases(HeldOf(ks, f), RepeatsOf(ks, f), ReleasesSincePress(ks, f));
  }

  /** Both Shift keys held and the left one repeated n times. */
  function BothHeld(n: nat): seq<Stroke> {
    if n == 0 then [Stroke(true, 0x2a), Stroke(true, 0x36)] else BothHeld(n - 1) + [Stroke(true, 0x2a)]
  }

  lemma {:induction false} NoStrokes(key: bv8)
    ensures !Held([], key) && Repeats([], key) == 0 && Orderly([], key)
  {
  }

  lemma {:induction false} BothPressed(key: bv8)
    requires key == 0x2a || key == 0x36
    ensures Orderly(BothHeld(0), key) && Held(BothHeld(0), key) && Repeats(BothHeld(0), key) == 0
  {
    var left, right := Stroke(true, 0x2a), Stroke(true, 0x36);
    NoStrokes(key);
    hide Held, Repeats, Orderly;
    assert [] + [left] == [left] && [left] + [right] == BothHeld(0);
    KeyStep([], left, key);
    KeyStep([left], right, key);
  }

  lemma {:induction false} BothAreHeld(n: nat)
    ensures var ks := BothHeld(n);
            OrderlyPair(ks, Shift) && Held(ks, 0x2a) && Held(ks, 0x36) && RepeatsOf(ks, Shift) == n
  {
    if n == 0 {
      BothPressed(0x2a);
      BothPressed(0x36);
    } else {
      hide Held, Repeats, Orderly;
      BothAreHeld(n - 1);
      KeyStep(BothHeld(n - 1), Stroke(true, 0x2a), 0x2a);
      KeyStep(BothHeld(n - 1), Stroke(true, 0x2a), 0x36);
    }
  }

  /** After 255 repeats the release of one Shift key clears the flag although the other is held. */
  lemma {:induction false} HeldShiftLost()
    ensures var ks := BothHeld(255) + [Stroke(false, 0x36)];
            OrderlyPair(ks, Shift) && Held(ks, 0x2a) && !Set(Tracked(ks).flags, Shift)
  {
    hide Set, BothHeld, After;
    var before, up := BothHeld(255), Stroke(false, 0x36);
    var ks := before + [up];
    BothAreHeld(255);
    KeyStep(before, up, 0x2a);
    KeyStep(before, up, 0x36);
    hide Held, Repeats, Orderly;
    SinceStep(before, up, Shift);
    PairIsHeld(ks, Shift);
  }

  /** A Shift key that repeats once before it is released leaves the flag set. */
  lemma {:induction false} RepeatedShiftSticks()
    ensures var ks := [Stroke(true, 0x2a), Stroke(true, 0x2a), Stroke(false, 0x2a)];
            OrderlyPair(ks, Shift) && HeldOf(ks, Shift) == 0 && Set(Tracked(ks).flags, Shift)
  {
    hide Set, Mask, After;
    OneRepeat(0x2a);
    OneRepeat(0x36);
    hide Held, Repeats, Orderly;
    PairIsHeld([Stroke(true, 0x2a), Stroke(true, 0x2a), Stroke(false, 0x2a)], Shift);
  }

  lemma {:induction false} OneRepeat(key: bv8)
    ensures var ks := [Stroke(true, 0x2a), Stroke(true, 0x2a), Stroke(false, 0x2a)];
            Orderly(ks, key) && !Held(ks, key) && Repeats(ks, key) == if key == 0x2a then 1 else 0
  {
    var down, up := Stroke(true, 0x2a), Stroke(false, 0x2a);
    NoStrokes(key);
    hide Held, Repeats, Orderly;
    assert [] + [down] == [down] && [down] + [down] == [down, down] && [down, down] + [up] == [down, down, up];
    KeyStep([], down, key);
    KeyStep([down], down, key);
    KeyStep([down, down], up, key);
  }
}
