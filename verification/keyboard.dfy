/** The ring buffer of key events (kernel/src/drivers/keyboard.c). */
module Keyboard {
  import opened Options

  /** A key is known by its place in the scan code table of the driver. */
  datatype KeyEvent = KeyEvent(pressed: bool, key: bv8, modifiers: bv16)

  /** The most recent 32 of a sequence of events. */
  function Recent(s: seq<KeyEvent>): seq<KeyEvent> {
    if |s| <= 32 then s else s[|s| - 32..]
  }

  lemma {:induction false} RecentRecent(s: seq<KeyEvent>, t: seq<KeyEvent>)
    ensures Recent(Recent(s) + t) == Recent(s + t)
    ensures |Recent(s)| <= 32
  {
  }

  function Slot(i: nat): (j: nat)
    ensures j < 32
  {
    i % 32
  }

  lemma {:induction false} SlotStep(front: nat, i: nat)
    ensures Slot(Slot(front + 1) + i) == Slot(front + (i + 1))
    ensures front < 32 ==> Slot(front + 32) == front
  {
  }

  /** What a ring of 32 slots holds, oldest first. */
  function Window(ring: seq<KeyEvent>, front: nat, size: nat): (w: seq<KeyEvent>)
    requires |ring| == 32
    ensures |w| == size && forall i :: 0 <= i < size ==> w[i] == ring[Slot(front + i)]
  {
    seq(size, i requires 0 <= i => ring[Slot(front + i)])
  }

  lemma {:induction false} WindowAppend(ring: seq<KeyEvent>, front: nat, size: nat, e: KeyEvent)
    requires |ring| == 32 && front < 32 && size < 32
    ensures Window(ring[Slot(front + size) := e], front, size + 1) == Window(ring, front, size) + [e]
    ensures Recent(Window(ring, front, size) + [e]) == Window(ring, front, size) + [e]
  {
  }

  lemma {:induction false} WindowOverwrite(ring: seq<KeyEvent>, front: nat, e: KeyEvent)
    requires |ring| == 32 && front < 32
    ensures Window(ring[Slot(front + 32) := e], Slot(front + 1), 32) == Recent(Window(ring, front, 32) + [e])
  {
    var a := Window(ring[Slot(front + 32) := e], Slot(front + 1), 32);
    var b := Window(ring, front, 32)[1..] + [e];
    forall i: nat | i < 32 ensures a[i] == b[i] {
      SlotStep(front, i);
    }
    assert Recent(Window(ring, front, 32) + [e]) == b;
  }

  lemma {:induction false} WindowRemove(ring: seq<KeyEvent>, front: nat, size: nat)
    requires |ring| == 32 && front < 32 && 0 < size
    ensures Window(ring, front, size) == [ring[front]] + Window(ring, Slot(front + 1), size - 1)
  {
    var a, b := Window(ring, Slot(front + 1), size - 1), Window(ring, front, size)[1..];
    forall i: nat | i < size - 1 ensures a[i] == b[i] {
      SlotStep(front, i);
    }
  }

  class KeyEventBuffer {
    const events: array<KeyEvent>
    var size: nat
    var front: nat

    ghost predicate Valid()
      reads this
    {
      events.Length == 32 && size <= 32 && front < 32
    }

    /** The events not yet read, oldest first. */
    ghost function Contents(): seq<KeyEvent>
      requires Valid()
      reads this, events
    {
      Window(events[..], front, size)
    }

    lemma {:induction false} AtMost32()
      requires Valid()
      ensures |Contents()| <= 32
    {
    }

    constructor ()
      ensures Valid() && Contents() == [] && fresh(events) && front == 0
    {
      events := new KeyEvent[32](_ => KeyEvent(false, 0, 0));
      size, front := 0, 0;
    }

    /** kbd_append_key_event_to_buffer: when the buffer is full the oldest event gives way. */
    method Append(e: KeyEvent)
      requires Valid()
      modifies this, events
      ensures Valid() && Contents() == Recent(old(Contents()) + [e])
    {
      hide Recent, Window, Slot;
      ghost var ring := events[..];
      var rear := Slot(front + size);
      events[rear] := e;
      assert events[..] == ring[rear := e];
      if size < 32 {
        WindowAppend(ring, front, size, e);
        size := size + 1;
      } else {
        WindowOverwrite(ring, front, e);
        front := Slot(front + 1);
      }
    }

    /** kbd_get_key_event_from_buffer: the oldest event, if there is one. */
    method Get() returns (e: Option<KeyEvent>)
      requires Valid()
      modifies this`size, this`front
      ensures Valid() && (e.None? <==> old(Contents()) == [])
      ensures e.None? ==> Contents() == []
      ensures e.Some? ==> old(Contents()) == [e.value] + Contents()
    {
      hide Window, Slot;
      if size <= 0 {
        return None;
      }
      WindowRemove(events[..], front, size);
      e := Some(events[front]);
      front := Slot(front + 1);
      size := size - 1;
    }

    /** A reader that takes events until none is left gets all of them, first in, first out. */
    method Drain() returns (s: seq<KeyEvent>)
      requires Valid()
      modifies this`size, this`front
      ensures Valid() && Contents() == [] && s == old(Contents())
    {
      hide Window;
      s := [];
      var e := Get();
      while e.Some?
        invariant Valid()
        invariant old(Contents()) == s + (if e.Some? then [e.value] else []) + Contents()
        invariant e.None? ==> Contents() == []
        decreases if e.Some? then size + 1 else 0
      {
        s := s + [e.value];
        e := Get();
      }
    }
  }
}
