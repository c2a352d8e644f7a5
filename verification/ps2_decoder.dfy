/** The scan code decoder: a machine that tells from one byte to the next whether a scan code
    (set 1) is complete (kernel/src/drivers/ps2_keyboard.c). */
module Ps2Decoder {
  import opened Options

  datatype State = Uninitialized | Normal | E0 | E02A | E02AE0 | E0B7 | E0B7E0
                 | E1 | E11D | E11D45 | E11D45E1 | E11D45E19D | Invalid

  /** A key going down or up. */
  datatype Stroke = Stroke(pressed: bool, key: bv8)

  /** The place of a key in the scan code table: the last byte without its release bit, which
      then tells codes with a prefix from those without (ps2_kbd_scancode_to_keycode). */
  function KeyOf(raw: bv8, prefixed: bool): bv8 {
    if prefixed then (raw & 0x7f) | 0x80 else raw & 0x7f
  }

  function StrokeOf(raw: bv8, prefixed: bool): Stroke {
    Stroke(raw & 0x80 == 0, KeyOf(raw, prefixed))
  }

  /** The switch of ps2_kbd_irq_callback: the next state, or None when the byte completes a code. */
  function Transition(s: State, raw: bv8): Option<State> {
    match s
    case Normal => if raw == 0xe0 then Some(E0) else if raw == 0xe1 then Some(E1) else None
    case E0 => if raw == 0x2a then Some(E02A) else if raw == 0xb7 then Some(E0B7) else None
    case E02A => Some(if raw == 0xe0 then E02AE0 else Invalid)
    case E02AE0 => if raw != 0x37 then Some(Normal) else None
    case E0B7 => Some(if raw == 0xe0 then E02AE0 else Invalid)
    case E0B7E0 => if raw != 0xaa then Some(Normal) else None
    case E1 => Some(if raw == 0x1d then E11D else Invalid)
    case E11D => Some(if raw == 0x45 then E11D45 else Invalid)
    case E11D45 => Some(if raw == 0xe1 then E11D45E1 else Invalid)
    case E11D45E1 => Some(if raw == 0x9d then E11D45E19D else Invalid)
    case E11D45E19D => if raw != 0xc5 then Some(Normal) else None
    case Invalid => Some(if raw == 0x37 || raw == 0xaa || raw == 0xc5 then Normal else Invalid)
    case Uninitialized => None
  }

  function NextState(s: State, raw: bv8): State {
    if Transition(s, raw).None? then Normal else Transition(s, raw).value
  }

  /** The stroke a byte completes, if it does. */
  function Emits(s: State, raw: bv8): seq<Stroke> {
    if Transition(s, raw).None? then [StrokeOf(raw, s != Normal)] else []
  }

  /** The state and the strokes after a stream of bytes. */
  function StateAfter(s: State, bytes: seq<bv8>): State
    decreases bytes
  {
    if bytes == [] then s else StateAfter(NextState(s, bytes[0]), bytes[1..])
  }

  function Strokes(s: State, bytes: seq<bv8>): seq<Stroke>
    decreases bytes
  {
    if bytes == [] then [] else Emits(s, bytes[0]) + Strokes(NextState(s, bytes[0]), bytes[1..])
  }

  lemma {:induction false} FirstByte(s: State, a: bv8, rest: seq<bv8>)
    ensures StateAfter(s, [a] + rest) == StateAfter(NextState(s, a), rest)
    ensures Strokes(s, [a] + rest) == Emits(s, a) + Strokes(NextState(s, a), rest)
    ensures StateAfter(s, []) == s && Strokes(s, []) == []
  {
    hide Emits, NextState;
    assert ([a] + rest)[1..] == rest;
  }

  lemma {:induction false} Concatenated(s: State, a: seq<bv8>, b: seq<bv8>)
    ensures StateAfter(s, a + b) == StateAfter(StateAfter(s, a), b)
    ensures Strokes(s, a + b) == Strokes(s, a) + Strokes(StateAfter(s, a), b)
    decreases a
  {
    hide *;
    if a == [] {
      FirstByte(s, 0, []);
      assert a + b == b;
    } else {
      var next, rest := NextState(s, a[0]), a[1..];
      Concatenated(next, rest, b);
      FirstByte(s, a[0], rest);
      FirstByte(s, a[0], rest + b);
      assert a == [a[0]] + rest && a + b == [a[0]] + (rest + b);
    }
  }

  // ---------- The scan codes of set 1 ----------

  datatype Code = Plain(b: bv8) | Extended(b: bv8) | PrintScreen | PrintScreenReleased | Pause

  predicate Complete(c: Code) {
    match c
    case Plain(b) => b != 0xe0 && b != 0xe1
    case Extended(b) => b != 0x2a && b != 0xb7
    case _ => true
  }

  function Bytes(c: Code): seq<bv8> {
    match c
    case Plain(b) => [b]
    case Extended(b) => [0xe0, b]
    case PrintScreen => [0xe0, 0x2a, 0xe0, 0x37]
    case PrintScreenReleased => [0xe0, 0xb7, 0xe0, 0xaa]
    case Pause => [0xe1, 0x1d, 0x45, 0xe1, 0x9d, 0xc5]
  }

  /** The stroke a code stands for. The release of Print Screen has none: its third byte leads the
      decoder into the state meant for the press (line 463), where the fourth is not expected. */
  function Meaning(c: Code): seq<Stroke> {
    match c
    case Plain(b) => [Stroke(b < 0x80, b & 0x7f)]
    case Extended(b) => [Stroke(b < 0x80, b | 0x80)]
    case PrintScreen => [Stroke(true, 0xb7)]
    case PrintScreenReleased => []
    case Pause => [Stroke(false, 0xc5)]
  }

  function AllBytes(codes: seq<Code>): seq<bv8> {
    if codes == [] then [] else Bytes(codes[0]) + AllBytes(codes[1..])
  }

  function Meanings(codes: seq<Code>): seq<Stroke> {
    if codes == [] then [] else Meaning(codes[0]) + Meanings(codes[1..])
  }

  lemma {:induction false} StrokeBits(b: bv8)
    ensures StrokeOf(b, false) == Stroke(b < 0x80, b & 0x7f) && StrokeOf(b, true) == Stroke(b < 0x80, b | 0x80)
  {
  }

  lemma {:induction false} OneByte(s: State, a: bv8)
    ensures StateAfter(s, [a]) == NextState(s, a) && Strokes(s, [a]) == Emits(s, a)
  {
    assert StateAfter(NextState(s, a), []) == NextState(s, a) && Strokes(NextState(s, a), []) == [];
  }

  lemma {:induction false} TwoBytes(s: State, a: bv8, b: bv8)
    ensures StateAfter(s, [a, b]) == NextState(NextState(s, a), b)
    ensures Strokes(s, [a, b]) == Emits(s, a) + Emits(NextState(s, a), b)
  {
    hide NextState, Emits;
    Concatenated(s, [a], [b]);
    assert [a] + [b] == [a, b];
    OneByte(s, a);
    OneByte(NextState(s, a), b);
  }

  lemma {:induction false} OneCode(c: Code)
    requires Complete(c)
    ensures StateAfter(Normal, Bytes(c)) == Normal && Strokes(Normal, Bytes(c)) == Meaning(c)
  {
    hide StateAfter, Strokes, StrokeOf;
    match c
    case Plain(b) =>
      OneByte(Normal, b);
      StrokeBits(b);
    case Extended(b) =>
      TwoBytes(Normal, 0xe0, b);
      StrokeBits(b);
    case PrintScreen =>
      PrintScreenCode();
    case PrintScreenReleased =>
      PrintScreenReleasedCode();
    case Pause =>
      PauseCode();
  }

  lemma {:induction false} PrintScreenCode()
    ensures StateAfter(Normal, Bytes(PrintScreen)) == Normal
    ensures Strokes(Normal, Bytes(PrintScreen)) == Meaning(PrintScreen)
  {
    hide StateAfter, Strokes, StrokeOf;
    TwoBytes(Normal, 0xe0, 0x2a);
    TwoBytes(E02A, 0xe0, 0x37);
    Concatenated(Normal, [0xe0, 0x2a], [0xe0, 0x37]);
    assert Bytes(PrintScreen) == [0xe0, 0x2a] + [0xe0, 0x37];
    StrokeBits(0x37);
  }

  lemma {:induction false} PrintScreenReleasedCode()
    ensures StateAfter(Normal, Bytes(PrintScreenReleased)) == Normal
    ensures Strokes(Normal, Bytes(PrintScreenReleased)) == Meaning(PrintScreenReleased)
  {
    hide StateAfter, Strokes, StrokeOf;
    TwoBytes(Normal, 0xe0, 0xb7);
    TwoBytes(E0B7, 0xe0, 0xaa);
    Concatenated(Normal, [0xe0, 0xb7], [0xe0, 0xaa]);
    assert Bytes(PrintScreenReleased) == [0xe0, 0xb7] + [0xe0, 0xaa];
  }

  lemma {:induction false} PauseCode()
    ensures StateAfter(Normal, Bytes(Pause)) == Normal && Strokes(Normal, Bytes(Pause)) == Meaning(Pause)
  {
    hide StateAfter, Strokes, StrokeOf;
    var a: seq<bv8>, b: seq<bv8>, c: seq<bv8> := [0xe1, 0x1d], [0x45, 0xe1], [0x9d, 0xc5];
    TwoBytes(Normal, 0xe1, 0x1d);
    TwoBytes(E11D, 0x45, 0xe1);
    TwoBytes(E11D45E1, 0x9d, 0xc5);
    Concatenated(Normal, a, b);
    Concatenated(Normal, a + b, c);
    assert Bytes(Pause) == a + b + c;
    StrokeBits(0xc5);
  }

  /** Any sequence of complete scan codes, fed byte by byte, gives the strokes of the codes in order
      and leaves the decoder ready for the next. */
  lemma {:induction false} DecodesAll(codes: seq<Code>)
    requires forall c :: c in codes ==> Complete(c)
    ensures StateAfter(Normal, AllBytes(codes)) == Normal
    ensures Strokes(Normal, AllBytes(codes)) == Meanings(codes)
  {
    hide Bytes, Meaning, NextState, Emits;
    if codes != [] {
      OneCode(codes[0]);
      DecodesAll(codes[1..]);
      Concatenated(Normal, Bytes(codes[0]), AllBytes(codes[1..]));
    }
  }

  /** So there is one event for each code exactly if Print Screen is never released. */
  lemma {:induction false} OneEventEach(codes: seq<Code>)
    ensures |Meanings(codes)| <= |codes|
    ensures |Meanings(codes)| == |codes| <==> PrintScreenReleased !in codes
  {
    if codes != [] {
      OneEventEach(codes[1..]);
      assert codes == [codes[0]] + codes[1..];
    }
  }

  /** Two codes go to the same place in the scan code table, with the same direction, only if they are
      the same, or if a two-byte code ends in the last byte of Print Screen or of Pause. (Places that
      the table leaves empty share one key code, unknown.) */
  lemma {:induction false} NoCollisions(c: Code, d: Code)
    requires Complete(c) && Complete(d) && c != PrintScreenReleased && d != PrintScreenReleased
    ensures Meaning(c) == Meaning(d) <==>
            || c == d
            || (c == Extended(0x37) && d == PrintScreen) || (c == PrintScreen && d == Extended(0x37))
            || (c == Extended(0xc5) && d == Pause) || (c == Pause && d == Extended(0xc5))
  {
    SameKeyBits(if c.Plain? || c.Extended? then c.b else 0, if d.Plain? || d.Extended? then d.b else 0);
  }

  lemma {:induction false} SameKeyBits(a: bv8, b: bv8)
    ensures (a < 0x80) == (b < 0x80) && a & 0x7f == b & 0x7f <==> a == b
    ensures (a < 0x80) == (b < 0x80) && a | 0x80 == b | 0x80 <==> a == b
    ensures a & 0x7f != b | 0x80
    ensures a < 0x80 && a | 0x80 == 0xb7 <==> a == 0x37
    ensures a >= 0x80 && a | 0x80 == 0xc5 <==> a == 0xc5
  {
  }

  // ---------- Any bytes at all ----------

  /** The bytes of a code read so far. */
  function Read(s: State): seq<bv8>
    requires s != Uninitialized && s != Invalid
  {
    match s
    case Normal => []
    case E0 => [0xe0]
    case E02A => [0xe0, 0x2a]
    case E02AE0 => [0xe0, 0x2a, 0xe0]
    case E0B7 => [0xe0, 0xb7]
    case E0B7E0 => [0xe0, 0xb7, 0xe0]
    case E1 => [0xe1]
    case E11D => [0xe1, 0x1d]
    case E11D45 => [0xe1, 0x1d, 0x45]
    case E11D45E1 => [0xe1, 0x1d, 0x45, 0xe1]
    case E11D45E19D => [0xe1, 0x1d, 0x45, 0xe1, 0x9d]
  }

  ghost predicate IsCode(bytes: seq<bv8>) {
    exists c :: Complete(c) && Bytes(c) == bytes
  }

  /** The beginning of a code, with more bytes to come. */
  ghost predicate Begins(bytes: seq<bv8>) {
    exists c :: Complete(c) && |bytes| < |Bytes(c)| && Bytes(c)[..|bytes|] == bytes
  }

  /** Some byte would complete a code. */
  ghost predicate CouldEnd(s: State)
    requires s != Uninitialized && s != Invalid
  {
    exists raw :: IsCode(Read(s) + [raw])
  }

  lemma {:induction false} WhenEnd(s: State)
    requires s != Uninitialized && s != Invalid
    ensures CouldEnd(s) <==> s in {Normal, E0, E02AE0, E0B7E0, E11D45E19D}
  {
    forall raw ensures IsCode(Read(s) + [raw]) <==> Completes(s, raw) {
      WhenCode(s, raw);
    }
    hide IsCode;
    assert Completes(s, if s == E02AE0 then 0x37 else if s == E0B7E0 then 0xaa else 0xc5) <==>
           s in {Normal, E0, E02AE0, E0B7E0, E11D45E19D};
  }

  predicate Completes(s: State, raw: bv8) {
    match s
    case Normal => raw != 0xe0 && raw != 0xe1
    case E0 => raw != 0x2a && raw != 0xb7
    case E02AE0 => raw == 0x37
    case E0B7E0 => raw == 0xaa
    case E11D45E19D => raw == 0xc5
    case _ => false
  }

  predicate GoesOn(s: State, raw: bv8) {
    match s
    case Normal => raw == 0xe0 || raw == 0xe1
    case E0 => raw == 0x2a || raw == 0xb7
    case E02A => raw == 0xe0
    case E0B7 => raw == 0xe0
    case E1 => raw == 0x1d
    case E11D => raw == 0x45
    case E11D45 => raw == 0xe1
    case E11D45E1 => raw == 0x9d
    case _ => false
  }

  function CodeWith(s: State, raw: bv8): Code {
    match s
    case Normal => if raw == 0xe0 then Extended(0) else if raw == 0xe1 then Pause else Plain(raw)
    case E0 => if raw == 0x2a then PrintScreen else if raw == 0xb7 then PrintScreenReleased else Extended(raw)
    case E02A => PrintScreen
    case E02AE0 => PrintScreen
    case E0B7 => PrintScreenReleased
    case E0B7E0 => PrintScreenReleased
    case _ => Pause
  }

  lemma {:induction false} WhenCode(s: State, raw: bv8)
    requires s != Uninitialized && s != Invalid
    ensures IsCode(Read(s) + [raw]) <==> Completes(s, raw)
  {
    var bytes := Read(s) + [raw];
    forall c | Complete(c) && Bytes(c) == bytes ensures Completes(s, raw) {
      CodeBytes(c, s, raw);
    }
    if Completes(s, raw) {
      assert Complete(CodeWith(s, raw)) && Bytes(CodeWith(s, raw)) == bytes;
    }
  }

  lemma {:induction false} CodeBytes(c: Code, s: State, raw: bv8)
    requires s != Uninitialized && s != Invalid && Complete(c) && Bytes(c) == Read(s) + [raw]
    ensures Completes(s, raw)
  {
    var bytes := Bytes(c);
    assert |bytes| == |Read(s)| + 1 && bytes[|Read(s)|] == raw;
    assert forall i :: 0 <= i < |Read(s)| ==> bytes[i] == Read(s)[i];
    if |Read(s)| > 1 { assert bytes[1] == Read(s)[1]; }
  }

  lemma {:induction false} WhenBegun(s: State, raw: bv8)
    requires s != Uninitialized && s != Invalid
    ensures Begins(Read(s) + [raw]) <==> GoesOn(s, raw)
  {
    var bytes := Read(s) + [raw];
    forall c | Complete(c) && |bytes| < |Bytes(c)| && Bytes(c)[..|bytes|] == bytes ensures GoesOn(s, raw) {
      BeginningBytes(c, s, raw);
    }
    if GoesOn(s, raw) {
      var c := CodeWith(s, raw);
      assert Complete(c) && |bytes| < |Bytes(c)| && Bytes(c)[..|bytes|] == bytes;
    }
  }

  lemma {:induction false} BeginningBytes(c: Code, s: State, raw: bv8)
    requires s != Uninitialized && s != Invalid && Complete(c)
    requires |Read(s)| + 1 < |Bytes(c)| && Bytes(c)[..|Read(s)| + 1] == Read(s) + [raw]
    ensures GoesOn(s, raw)
  {
    var n := |Read(s)|;
    var bytes := Bytes(c)[..n + 1];
    assert bytes[n] == raw == Bytes(c)[n];
    assert forall i :: 0 <= i < n ==> Bytes(c)[i] == bytes[i] == Read(s)[i];
    if n > 1 { assert Bytes(c)[1] == Read(s)[1]; }
    if n > 0 { assert Bytes(c)[0] == Read(s)[0]; }
  }

  /** Every byte in every state: one that completes a code gives its stroke, one that a code goes on with
      is remembered, and any other gives nothing: where a long code should end the decoder is ready for
      the next one, before that it waits for a byte that could end a long code. Only after 0xe0 0xb7
      0xe0 it goes on as if it had read 0xe0 0x2a 0xe0 (line 463). */
  lemma {:induction false} EveryByte(s: State, raw: bv8)
    requires s != Uninitialized && s != Invalid
    ensures var bytes, next := Read(s) + [raw], NextState(s, raw);
            if IsCode(bytes) then Emits(s, raw) == [StrokeOf(raw, s != Normal)] && next == Normal
            else
              && Emits(s, raw) == []
              && if Begins(bytes) then
                   && next != Uninitialized && next != Invalid
                   && Read(next) == if s == E0B7 then [0xe0, 0x2a, 0xe0] else bytes
                 else next == if CouldEnd(s) then Normal else Invalid
  {
    hide *;
    WhenCode(s, raw);
    WhenBegun(s, raw);
    WhenEnd(s);
    ByteWhen(s, raw);
  }

  lemma {:induction false} ByteWhen(s: State, raw: bv8)
    requires s != Uninitialized && s != Invalid
    ensures var next := NextState(s, raw);
            if Completes(s, raw) then Emits(s, raw) == [StrokeOf(raw, s != Normal)] && next == Normal
            else
              && Emits(s, raw) == []
              && if GoesOn(s, raw) then
                   && next != Uninitialized && next != Invalid
                   && Read(next) == if s == E0B7 then [0xe0, 0x2a, 0xe0] else Read(s) + [raw]
                 else next == if s in {Normal, E0, E02AE0, E0B7E0, E11D45E19D} then Normal else Invalid
  {
    hide StrokeOf;
  }

  /** While the decoder waits for the end of a long code no byte gives anything. */
  lemma {:induction false} WaitsForEnd(raw: bv8)
    ensures Emits(Invalid, raw) == []
    ensures NextState(Invalid, raw) == if raw == 0x37 || raw == 0xaa || raw == 0xc5 then Normal else Invalid
    ensures Emits(Uninitialized, raw) == [StrokeOf(raw, true)] && NextState(Uninitialized, raw) == Normal
  {
  }

  /** Whatever the bytes, the decoder never enters the state meant for the release of Print Screen, is
      initialized after the first, and gives at most one event a byte. */
  lemma {:induction false} AnyBytes(s: State, bytes: seq<bv8>)
    requires s != E0B7E0
    ensures StateAfter(s, bytes) != E0B7E0
    ensures bytes != [] || s != Uninitialized ==> StateAfter(s, bytes) != Uninitialized
    ensures |Strokes(s, bytes)| <= |bytes|
    decreases bytes
  {
    if bytes != [] {
      AnyBytes(NextState(s, bytes[0]), bytes[1..]);
    }
  }

  /** And it never gets stuck: these two bytes bring it back to the normal state from anywhere. */
  lemma {:induction false} Resynchronizes(s: State)
    ensures StateAfter(s, [0x37, 0xc5]) == Normal
  {
    TwoBytes(s, 0x37, 0xc5);
  }
}
