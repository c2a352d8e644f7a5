/** The PS/2 keyboard driver: each interrupt hands it one byte, and it fills the buffer of key
    events (kernel/src/drivers/ps2_keyboard.c). */
module Ps2Keyboard {
  import opened Keyboard
  import opened Options
  import opened Ps2Decoder
  import opened Ps2Modifiers

  // ---------- Strokes with their modifiers ----------

  function AfterAll(m: Modifiers, ks: seq<Stroke>): Modifiers
    decreases ks
  {
    if ks == [] then m else AfterAll(After(m, ks[0]), ks[1..])
  }

  /** The events that strokes become: each carries the modifiers as they are after it. */
  function Events(m: Modifiers, ks: seq<Stroke>): (es: seq<KeyEvent>)
    ensures |es| == |ks|
    decreases ks
  {
    if ks == [] then [] else
    [KeyEvent(ks[0].pressed, ks[0].key, After(m, ks[0]).flags)] + Events(After(m, ks[0]), ks[1..])
  }

  lemma {:induction false} EventsAppend(m: Modifiers, a: seq<Stroke>, b: seq<Stroke>)
    ensures AfterAll(m, a + b) == AfterAll(AfterAll(m, a), b)
    ensures Events(m, a + b) == Events(m, a) + Events(AfterAll(m, a), b)
    decreases a
  {
    hide After;
    if a == [] {
      assert a + b == b;
    } else {
      assert (a + b)[1..] == a[1..] + b;
      EventsAppend(After(m, a[0]), a[1..], b);
    }
  }

  lemma {:induction false} OneEvent(m: Modifiers, k: Stroke)
    ensures AfterAll(m, [k]) == After(m, k)
    ensures Events(m, [k]) == [KeyEvent(k.pressed, k.key, After(m, k).flags)]
  {
    hide After;
    assert AfterAll(After(m, k), []) == After(m, k) && Events(After(m, k), []) == [];
  }

  /** Each stroke with the number of the modifiers over all strokes up to it. */
  function Stamped(ks: seq<Stroke>): (es: seq<KeyEvent>)
    ensures |es| == |ks|
    ensures forall i :: 0 <= i < |ks| ==> es[i] == KeyEvent(ks[i].pressed, ks[i].key, FlagNumber(ks[..i + 1]))
  {
    seq(|ks|, i requires 0 <= i < |ks| => KeyEvent(ks[i].pressed, ks[i].key, FlagNumber(ks[..i + 1])))
  }

  /** From power-on, these are the events. */
  lemma {:induction false} EventsAreStamped(ks: seq<Stroke>)
    ensures Events(Modifiers(0, 0, 0), ks) == Stamped(ks)
  {
    hide Tracked, FlagNumber, After;
    EventsTrack(ks);
    forall i | 0 <= i < |ks| ensures Events(Modifiers(0, 0, 0), ks)[i] == Stamped(ks)[i] {
      FlagsAreNumber(ks[..i + 1]);
    }
  }

  /** The i-th event is the i-th stroke with the modifiers tracked over all strokes up to it. */
  lemma {:induction false} EventsTrack(ks: seq<Stroke>)
    ensures AfterAll(Modifiers(0, 0, 0), ks) == Tracked(ks)
    ensures forall i :: 0 <= i < |ks| ==>
              Events(Modifiers(0, 0, 0), ks)[i] == KeyEvent(ks[i].pressed, ks[i].key, Tracked(ks[..i + 1]).flags)
  {
    hide After;
    if ks != [] {
      var zero, n := Modifiers(0, 0, 0), |ks| - 1;
      var before, k := ks[..n], ks[n];
      assert ks == before + [k];
      EventsTrack(before);
      EventsAppend(zero, before, [k]);
      OneEvent(Tracked(before), k);
      forall i | 0 <= i < |ks|
        ensures Events(zero, ks)[i] == KeyEvent(ks[i].pressed, ks[i].key, Tracked(ks[..i + 1]).flags)
      {
        if i < n {
          assert ks[..i + 1] == before[..i + 1];
        } else {
          assert ks[..i + 1] == ks;
        }
      }
    }
  }

  // ---------- The driver ----------

  class Driver {
    var state: State
    const buffer: KeyEventBuffer

    // The static variables of ps2_kbd_set_modifiers.
    var modifiersOld: bv16
    var numShiftKeysPressed: Counter
    var numStrgKeysPressed: Counter

    ghost function Tracking(): Modifiers
      reads this
    {
      Modifiers(modifiersOld, numShiftKeysPressed, numStrgKeysPressed)
    }

    /** The driver after ps2_kbd_init, with an empty buffer. */
    constructor ()
      ensures state == Normal && Tracking() == Modifiers(0, 0, 0)
      ensures fresh(buffer) && fresh(buffer.events) && buffer.Valid() && buffer.Contents() == []
    {
      state := Normal;
      modifiersOld, numShiftKeysPressed, numStrgKeysPressed := 0, 0, 0;
      buffer := new KeyEventBuffer();
    }

    // The label APPLY_TOGGLED_MODIFIERS_MASK.
    method ApplyToggledMask(pressed: bool, mask: bv16)
      modifies `modifiersOld
      ensures modifiersOld == if pressed then Xor(old(modifiersOld), mask) else old(modifiersOld)
    {
      if pressed {
        modifiersOld := Xor(modifiersOld, mask);
      }
    }

    // The label APPLY_PRESSED_RELEASED_MODIFIERS_MASK.
    method ApplyPressedReleasedMask(pressed: bool, mask: bv16)
      modifies `modifiersOld
      ensures modifiersOld == if pressed then Or(old(modifiersOld), mask) else AndNot(old(modifiersOld), mask)
    {
      if pressed {
        modifiersOld := Or(modifiersOld, mask);
      } else {
        modifiersOld := AndNot(modifiersOld, mask);
      }
    }

    /** The cases of the Shift and the Strg keys. */
    method CountKeys(k: Stroke, flag: Flag)
      requires FlagOf(k.key) == Some(flag) && Paired(flag)
      modifies `modifiersOld, `numShiftKeysPressed, `numStrgKeysPressed
      ensures Tracking() == After(old(Tracking()), k)
    {
      AfterPaired(Tracking(), k, flag);
      hide Mask, Or, AndNot, Xor, FlagOf, After, Increment, Decrement;
      ClearNothing(modifiersOld);
      var n := if flag == Shift then numShiftKeysPressed else numStrgKeysPressed;
      var mask: bv16 := 0;
      if k.pressed {
        n := Increment(n);
        mask := Mask(flag);
      } else {
        n := Decrement(n);
        if n == 0 {
          mask := Mask(flag);
        }
      }
      if flag == Shift {
        numShiftKeysPressed := n;
      } else {
        numStrgKeysPressed := n;
      }
      ApplyPressedReleasedMask(k.pressed, mask);
    }

    /** ps2_kbd_set_modifiers */
    method SetModifiers(k: Stroke) returns (modifiers: bv16)
      modifies `modifiersOld, `numShiftKeysPressed, `numStrgKeysPressed
      ensures Tracking() == After(old(Tracking()), k) && modifiers == Tracking().flags
    {
      var flag := FlagOf(k.key);
      if flag.None? {
        return modifiersOld;
      }
      hide Mask, Or, AndNot, Xor, FlagOf, After;
      if Locks(flag.value) {
        AfterLock(Tracking(), k, flag.value);
        ApplyToggledMask(k.pressed, Mask(flag.value));
      } else if Paired(flag.value) {
        CountKeys(k, flag.value);
      } else {
        AfterSingle(Tracking(), k, flag.value);
        ApplyPressedReleasedMask(k.pressed, Mask(flag.value));
      }
      return modifiersOld;
    }

    /** ps2_kbd_irq_callback */
    method IrqCallback(raw: bv8)
      requires buffer.Valid()
      modifies this, buffer, buffer.events
      ensures buffer.Valid() && state == StateAfter(old(state), [raw])
      ensures Tracking() == AfterAll(old(Tracking()), Strokes(old(state), [raw]))
      ensures buffer.Contents() == Recent(old(buffer.Contents()) + Events(old(Tracking()), Strokes(old(state), [raw])))
    {
      hide Transition, Window, After, StrokeOf, StateAfter, Strokes;
      OneByte(state, raw);
      var next := Transition(state, raw);
      if next.Some? {
        state := next.value;
        return;
      }
      var k := StrokeOf(raw, state != Normal);
      OneEvent(Tracking(), k);
      var modifiers := SetModifiers(k);
      buffer.Append(KeyEvent(k.pressed, k.key, modifiers));
      state := Normal;
    }

    /** A stream of interrupts, none of the events read in between. */
    method Receive(bytes: seq<bv8>)
      requires buffer.Valid()
      modifies this, buffer, buffer.events
      ensures buffer.Valid() && state == StateAfter(old(state), bytes)
      ensures Tracking() == AfterAll(old(Tracking()), Strokes(old(state), bytes))
      ensures buffer.Contents() == Recent(old(buffer.Contents()) + Events(old(Tracking()), Strokes(old(state), bytes)))
    {
      hide *;
      ghost var s0, m0, c0 := state, Tracking(), buffer.Contents();
      NothingReceived(s0, m0, c0);
      buffer.AtMost32();
      var i := 0;
      while i < |bytes|
        invariant 0 <= i <= |bytes| && buffer.Valid() && state == StateAfter(s0, bytes[..i])
        invariant Tracking() == AfterAll(m0, Strokes(s0, bytes[..i]))
        invariant buffer.Contents() == Recent(c0 + Events(m0, Strokes(s0, bytes[..i])))
      {
        IrqCallback(bytes[i]);
        assert bytes[..i] + [bytes[i]] == bytes[..i + 1];
        OneMore(s0, m0, c0, bytes[..i], bytes[i]);
        i := i + 1;
      }
      assert bytes[..i] == bytes;
    }

    /** Complete scan codes typed on a driver just started and then read: the events are those of the
        codes, in order, the most recent 32 of them, each with the number of the modifiers up to it. */
    method TypeThenRead(codes: seq<Code>) returns (events: seq<KeyEvent>)
      requires state == Normal && Tracking() == Modifiers(0, 0, 0)
      requires buffer.Valid() && buffer.Contents() == []
      requires forall c :: c in codes ==> Complete(c)
      modifies this, buffer, buffer.events
      ensures state == Normal && buffer.Valid() && buffer.Contents() == []
      ensures Tracking() == Tracked(Meanings(codes))
      ensures events == Recent(Stamped(Meanings(codes)))
    {
      hide *;
      DecodesAll(codes);
      EventsTrack(Meanings(codes));
      EventsAreStamped(Meanings(codes));
      Receive(AllBytes(codes));
      assert [] + Events(Modifiers(0, 0, 0), Meanings(codes)) == Events(Modifiers(0, 0, 0), Meanings(codes));
      events := buffer.Drain();
    }
  }

  lemma {:induction false} ClearNothing(w: bv16)
    ensures AndNot(w, 0) == w
  {
  }

  lemma {:induction false} NothingReceived(s: State, m: Modifiers, c: seq<KeyEvent>)
    ensures StateAfter(s, []) == s && Strokes(s, []) == [] && AfterAll(m, []) == m && Events(m, []) == []
    ensures |c| <= 32 ==> Recent(c + Events(m, Strokes(s, []))) == c
  {
    assert c + [] == c;
  }

  lemma {:induction false} OneMore(s: State, m: Modifiers, c: seq<KeyEvent>, bytes: seq<bv8>, raw: bv8)
    ensures var ks, k := Strokes(s, bytes), Strokes(StateAfter(s, bytes), [raw]);
            && StateAfter(StateAfter(s, bytes), [raw]) == StateAfter(s, bytes + [raw])
            && AfterAll(AfterAll(m, ks), k) == AfterAll(m, Strokes(s, bytes + [raw]))
            && Recent(Recent(c + Events(m, ks)) + Events(AfterAll(m, ks), k))
               == Recent(c + Events(m, Strokes(s, bytes + [raw])))
  {
    hide *;
    var ks, k := Strokes(s, bytes), Strokes(StateAfter(s, bytes), [raw]);
    Concatenated(s, bytes, [raw]);
    EventsAppend(m, ks, k);
    RecentRecent(c + Events(m, ks), Events(AfterAll(m, ks), k));
    assert c + Events(m, ks) + Events(AfterAll(m, ks), k) == c + (Events(m, ks) + Events(AfterAll(m, ks), k));
  }
}
