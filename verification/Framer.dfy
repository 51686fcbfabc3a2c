/** The transmit framer.

  A state machine that emits one nibble a cycle: preamble, start delimiter, body, padding,
  check sequence, then the inter-frame gap. `Wire` is the frame it has to send and
  `Sending` the relation between its registers and the number of cycles since the start.
 */
module Framer {

  import opened Words
  import opened Mii
  import opened FrameParser
  import C = Crc32

  type Word11 = w: int | 0 <= w < 0x800

  const FRAME_BODY_BYTES := HEADER_BYTES + MAX_PAYLOAD

  const MIN_FRAME_BODY: Word11 := 60

  const IFG_NIBBLES := 24

  datatype TxState = Idle | Preamble | Data | Fcs | Ifg

  datatype Framer = Framer(
    state: TxState,
    phase: bool,
    byteIndex: Word11,
    fcsIndex: nat,
    ifgCount: nat,
    crc: bv32,
    fcs: bv32,
    len: Word11,
    bodyLen: Word11,
    toggle: bool)
  {
    predicate Shape() { fcsIndex < 4 && ifgCount < 0x40 }
  }

  // The outputs of one cycle. `idle` goes to the ring that feeds the framer, not to a pin.
  datatype TxOut = TxOut(line: Sample, active: bool, toggle: bool, idle: bool)

  const QUIET := Sample(false, 0, false)

  // tx_frame_body_byte
  function BodyByte(buffer: seq<Byte>, index: Word11, len: Word11): Byte
    requires |buffer| == FRAME_BODY_BYTES
  {
    if index >= len || index >= FRAME_BODY_BYTES then 0 else buffer[index]
  }

  // crc32_next_byte on a byte of the frame body
  function FoldByte(crc: bv32, b: Byte): bv32 { C.CrcByte(crc, b as bv8) }

  // Byte k of the check sequence.
  function FcsByte(fcs: bv32, k: nat): Byte
    requires k < 4
  {
    C.Lane(fcs, k) as int
  }

  function Inc11(w: Word11): Word11 { (w + 1) % 0x800 }

  function Emit(b: Byte, phase: bool): Sample { Sample(true, NibbleOf(b, phase), false) }

  function FramerStep(f: Framer, start: bool, startLen: Word11, buffer: seq<Byte>): (r: (Framer, TxOut))
    requires f.Shape() && |buffer| == FRAME_BODY_BYTES
    ensures r.0.Shape()
  {
    match f.state
    case Idle =>
      var g := f.(phase := false, byteIndex := 0, fcsIndex := 0, crc := C.INIT);
      if start then
        (g.(len := startLen,
            bodyLen := if startLen < MIN_FRAME_BODY then MIN_FRAME_BODY else startLen,
            state := Preamble),
         TxOut(QUIET, false, f.toggle, false))
      else
        (g, TxOut(QUIET, false, f.toggle, true))
    case Preamble =>
      var line := Emit(if f.byteIndex == 7 then SFD else PREAMBLE, f.phase);
      var g := f.(phase := !f.phase);
      (if !f.phase then g
       else if f.byteIndex == 7 then g.(byteIndex := 0, state := Data)
       else g.(byteIndex := Inc11(f.byteIndex)),
       TxOut(line, true, f.toggle, false))
    case Data =>
      var b := BodyByte(buffer, f.byteIndex, f.len);
      var next := FoldByte(f.crc, b);
      var g := f.(phase := !f.phase);
      (if !f.phase then g
       else if f.byteIndex == (f.bodyLen - 1) % 0x800 then
         g.(crc := next, fcs := C.Not(next), fcsIndex := 0, state := Fcs)
       else g.(crc := next, byteIndex := Inc11(f.byteIndex)),
       TxOut(Emit(b, f.phase), true, f.toggle, false))
    case Fcs =>
      var line := Emit(FcsByte(f.fcs, f.fcsIndex), f.phase);
      var g := f.(phase := !f.phase);
      if !f.phase then (g, TxOut(line, true, f.toggle, false))
      else if f.fcsIndex == 3 then
        (g.(toggle := !f.toggle, ifgCount := 0, state := Ifg), TxOut(line, true, !f.toggle, false))
      else
        (g.(fcsIndex := f.fcsIndex + 1), TxOut(line, true, f.toggle, false))
    case Ifg =>
      if f.ifgCount == IFG_NIBBLES - 1 then
        (f.(state := Idle), TxOut(QUIET, false, f.toggle, true))
      else
        (f.(ifgCount := (f.ifgCount + 1) % 0x40), TxOut(QUIET, false, f.toggle, false))
  }

  // ----- What goes on the wire ------------------------------------------------------

  function FrameBytes(len: Word11): Word11 {
    if len < 60 then 60 else len
  }

  // The body with its padding; bytes of the buffer past the length do not matter.
  function Padded(buffer: seq<Byte>, len: Word11): (body: seq<Byte>)
    requires |buffer| == FRAME_BODY_BYTES
    ensures |body| == FrameBytes(len)
  {
    seq(FrameBytes(len), i requires 0 <= i < FrameBytes(len) => BodyByte(buffer, i, len))
  }

  function ToBits(bs: seq<Byte>): (r: seq<bv8>)
    ensures |r| == |bs|
  {
    seq(|bs|, i requires 0 <= i < |bs| => bs[i] as bv8)
  }

  // The register after the first n bytes of a body.
  function CrcUpTo(body: seq<Byte>, n: nat): bv32
    requires n <= |body|
  {
    C.Crc(C.INIT, ToBits(body[..n]))
  }

  // The check sequence of a body, as bytes on the wire.
  function CheckBytes(body: seq<Byte>): (r: seq<Byte>)
    ensures |r| == 4
  {
    var fcs := C.Fcs(C.Crc(C.INIT, ToBits(body)));
    seq(4, i requires 0 <= i < 4 => fcs[i] as int)
  }

  const PREAMBLE_AND_SFD: seq<Byte> :=
    [0x55, 0x55, 0x55, 0x55, 0x55, 0x55, 0x55, 0xD5]

  function Wire(body: seq<Byte>): (r: seq<Byte>)
    ensures |r| == 8 + |body| + 4
  {
    PREAMBLE_AND_SFD + body + CheckBytes(body)
  }

  // Cycles from the start of a frame until the framer is idle again.
  function Duration(len: Word11): nat { 49 + 2 * FrameBytes(len) }

  // ----- The registers during a frame -----------------------------------------------

  // About to send nibble `phase` of byte j of the frame.
  ghost predicate Emitting(f: Framer, buffer: seq<Byte>, len: Word11, j: nat, phase: bool)
    requires |buffer| == FRAME_BODY_BYTES
  {
    var n: nat := FrameBytes(len);
    var body := Padded(buffer, len);
    && f.Shape()
    && f.len == len && f.bodyLen == n && f.phase == phase
    && j < 12 + n
    && if j < 8 then
         f.state == Preamble && f.byteIndex == j && f.crc == C.INIT
       else if j < 8 + n then
         f.state == Data && f.byteIndex == j - 8 && f.crc == CrcUpTo(body, j - 8)
       else
         f.state == Fcs && f.fcsIndex == j - 8 - n && f.fcs == C.Not(CrcUpTo(body, n))
  }

  ghost predicate InGap(f: Framer, count: nat) {
    f.Shape() && f.state == Ifg && f.ifgCount == count < IFG_NIBBLES
  }

  lemma CrcOfNext(body: seq<Byte>, i: nat)
    requires i < |body|
    ensures CrcUpTo(body, i + 1) == FoldByte(CrcUpTo(body, i), body[i])
  {
    var b := ToBits(body[..i + 1]);
    assert b[..|b| - 1] == ToBits(body[..i]);
    hide C.CrcByte;
  }

  lemma CrcOfNone(body: seq<Byte>)
    ensures CrcUpTo(body, 0) == C.INIT
  {
    assert ToBits(body[..0]) == [];
  }

  lemma WireByte(body: seq<Byte>, j: nat)
    requires j < 12 + |body|
    ensures Wire(body)[j] == if j < 8 then (if j == 7 then SFD else PREAMBLE)
                             else if j < 8 + |body| then body[j - 8]
                             else FcsByte(C.Not(CrcUpTo(body, |body|)), j - 8 - |body|)
  {
    hide C.Lane, C.Not, C.Crc, ToBits;
    assert body[..|body|] == body;
  }

  lemma PaddedByte(buffer: seq<Byte>, len: Word11, i: nat)
    requires |buffer| == FRAME_BODY_BYTES && i < FrameBytes(len)
    ensures Padded(buffer, len)[i] == BodyByte(buffer, i, len)
  {
  }

  lemma FirstNibble(f: Framer, start: bool, startLen: Word11, buffer: seq<Byte>, len: Word11, j: nat)
    requires |buffer| == FRAME_BODY_BYTES && Emitting(f, buffer, len, j, false)
    ensures var (g, o) := FramerStep(f, start, startLen, buffer);
            && Emitting(g, buffer, len, j, true)
            && o == TxOut(Emit(Wire(Padded(buffer, len))[j], false), true, f.toggle, false)
            && g.toggle == f.toggle
  {
    hide CrcUpTo, FoldByte, C.Not, FcsByte, NibbleOf, Wire, Padded, BodyByte;
    var n: nat := FrameBytes(len);
    WireByte(Padded(buffer, len), j);
    if 8 <= j < 8 + n {
      PaddedByte(buffer, len, j - 8);
    }
  }

  // The cycle that sends the second nibble of byte j.
  ghost predicate ByteEnds(f: Framer, g: Framer, o: TxOut, buffer: seq<Byte>, len: Word11, j: nat)
    requires |buffer| == FRAME_BODY_BYTES && j < 12 + FrameBytes(len)
  {
    var last := j == 11 + FrameBytes(len);
    && (if last then InGap(g, 0) else Emitting(g, buffer, len, j + 1, false))
    && g.toggle == (if last then !f.toggle else f.toggle)
    && o == TxOut(Emit(Wire(Padded(buffer, len))[j], true), true, g.toggle, false)
  }

  lemma PreambleByteEnds(f: Framer, start: bool, startLen: Word11, buffer: seq<Byte>, len: Word11, j: nat)
    requires |buffer| == FRAME_BODY_BYTES && Emitting(f, buffer, len, j, true)
    requires j < 8
    ensures var (g, o) := FramerStep(f, start, startLen, buffer); ByteEnds(f, g, o, buffer, len, j)
  {
    hide CrcUpTo, NibbleOf, Wire, Padded, BodyByte;
    var body := Padded(buffer, len);
    WireByte(body, j);
    CrcOfNone(body);
  }

  lemma DataSecondNibble(f: Framer, start: bool, startLen: Word11, buffer: seq<Byte>)
    requires |buffer| == FRAME_BODY_BYTES && f.Shape() && f.state == Data && f.phase
    requires f.byteIndex < f.bodyLen
    ensures var (g, o) := FramerStep(f, start, startLen, buffer);
            var b := BodyByte(buffer, f.byteIndex, f.len);
            var crc := FoldByte(f.crc, b);
            && o == TxOut(Emit(b, true), true, f.toggle, false)
            && g == if f.byteIndex + 1 == f.bodyLen then
                      f.(phase := false, crc := crc, fcs := C.Not(crc), fcsIndex := 0, state := Fcs)
                    else
                      f.(phase := false, crc := crc, byteIndex := f.byteIndex + 1)
  {
    hide FoldByte, BodyByte, C.Not;
  }

  lemma BodyByteEnds(f: Framer, start: bool, startLen: Word11, buffer: seq<Byte>, len: Word11, j: nat)
    requires |buffer| == FRAME_BODY_BYTES && Emitting(f, buffer, len, j, true)
    requires 8 <= j < 8 + FrameBytes(len)
    ensures var (g, o) := FramerStep(f, start, startLen, buffer); ByteEnds(f, g, o, buffer, len, j)
  {
    hide CrcUpTo, FoldByte, C.Not, NibbleOf, Wire, Padded, BodyByte, FramerStep;
    var body := Padded(buffer, len);
    var i := j - 8;
    var (g, o) := FramerStep(f, start, startLen, buffer);
    WireByte(body, j);
    PaddedByte(buffer, len, i);
    CrcOfNext(body, i);
    DataSecondNibble(f, start, startLen, buffer);
  }

  lemma CheckByteEnds(f: Framer, start: bool, startLen: Word11, buffer: seq<Byte>, len: Word11, j: nat)
    requires |buffer| == FRAME_BODY_BYTES && Emitting(f, buffer, len, j, true)
    requires 8 + FrameBytes(len) <= j
    ensures var (g, o) := FramerStep(f, start, startLen, buffer); ByteEnds(f, g, o, buffer, len, j)
  {
    hide CrcUpTo, C.Not, FcsByte, NibbleOf, Wire, Padded, BodyByte;
    WireByte(Padded(buffer, len), j);
  }

  lemma SecondNibble(f: Framer, start: bool, startLen: Word11, buffer: seq<Byte>, len: Word11, j: nat)
    requires |buffer| == FRAME_BODY_BYTES && Emitting(f, buffer, len, j, true)
    ensures var (g, o) := FramerStep(f, start, startLen, buffer); ByteEnds(f, g, o, buffer, len, j)
  {
    hide *;
    if j < 8 {
      PreambleByteEnds(f, start, startLen, buffer, len, j);
    } else if j < 8 + FrameBytes(len) {
      BodyByteEnds(f, start, startLen, buffer, len, j);
    } else {
      CheckByteEnds(f, start, startLen, buffer, len, j);
    }
  }

  // ----- The registers `age` cycles into a frame ------------------------------------

  ghost predicate Sending(f: Framer, buffer: seq<Byte>, len: Word11, age: nat, toggle: bool)
    requires |buffer| == FRAME_BODY_BYTES
  {
    var k, nibbles: nat := age - 1, 24 + 2 * FrameBytes(len);
    && 1 <= age < Duration(len)
    && if k < nibbles then Emitting(f, buffer, len, k / 2, k % 2 == 1) && f.toggle == toggle
       else InGap(f, k - nibbles) && f.toggle == !toggle
  }

  // The line after `age` cycles: the frame's nibbles, then quiet.
  function LineAt(buffer: seq<Byte>, len: Word11, age: nat): Sample
    requires |buffer| == FRAME_BODY_BYTES
  {
    var w := Wire(Padded(buffer, len));
    if 1 <= age <= 2 * |w| then Sample(true, Nibbles(w)[age - 1], false) else Sample(false, 0, false)
  }

  lemma StartSends(f: Framer, buffer: seq<Byte>, len: Word11)
    requires f.Shape() && |buffer| == FRAME_BODY_BYTES && f.state == Idle
    ensures var (g, o) := FramerStep(f, true, len, buffer);
            Sending(g, buffer, len, 1, f.toggle)
            && o == TxOut(LineAt(buffer, len, 0), false, f.toggle, false)
  {
    hide C.Crc;
  }

  // The age at which nibble `phase` of byte j is sent.
  function AgeOf(j: nat, phase: bool): nat { 1 + 2 * j + if phase then 1 else 0 }

  lemma LineEmits(buffer: seq<Byte>, len: Word11, j: nat, phase: bool)
    requires |buffer| == FRAME_BODY_BYTES && j < 12 + FrameBytes(len)
    ensures LineAt(buffer, len, AgeOf(j, phase)) == Emit(Wire(Padded(buffer, len))[j], phase)
  {
    hide Wire;
    var k := AgeOf(j, phase) - 1;
    assert k / 2 == j && (k % 2 == 1) == phase;
  }

  lemma SendingEmits(f: Framer, buffer: seq<Byte>, len: Word11, j: nat, phase: bool, toggle: bool)
    requires |buffer| == FRAME_BODY_BYTES && j < 12 + FrameBytes(len)
    ensures Sending(f, buffer, len, AgeOf(j, phase), toggle)
       <==> Emitting(f, buffer, len, j, phase) && f.toggle == toggle
  {
    hide Emitting;
    var k := AgeOf(j, phase) - 1;
    assert k / 2 == j && (k % 2 == 1) == phase;
  }

  lemma SendingGap(f: Framer, buffer: seq<Byte>, len: Word11, count: nat, toggle: bool)
    requires |buffer| == FRAME_BODY_BYTES && count < IFG_NIBBLES
    ensures Sending(f, buffer, len, AgeOf(12 + FrameBytes(len), false) + count, toggle)
       <==> InGap(f, count) && f.toggle == !toggle
    ensures LineAt(buffer, len, AgeOf(12 + FrameBytes(len), false) + count) == QUIET
    ensures AgeOf(12 + FrameBytes(len), false) + IFG_NIBBLES == Duration(len)
  {
    hide Wire;
  }

  // What a cycle `age` cycles into a frame puts on the line and leaves in the registers.
  ghost predicate Advances(f: Framer, g: Framer, o: TxOut, buffer: seq<Byte>, len: Word11,
                           age: nat, toggle: bool)
    requires |buffer| == FRAME_BODY_BYTES
  {
    && o.line == LineAt(buffer, len, age)
    && o.active == o.line.dv
    && o.idle == (age + 1 == Duration(len))
    && o.toggle == g.toggle
    && (if o.idle then g.state == Idle && g.Shape() && g.toggle == !toggle
        else Sending(g, buffer, len, age + 1, toggle))
  }

  lemma EmittingBound(f: Framer, buffer: seq<Byte>, len: Word11, j: nat, phase: bool)
    requires |buffer| == FRAME_BODY_BYTES && Emitting(f, buffer, len, j, phase)
    ensures j < 12 + FrameBytes(len)
  {
    hide CrcUpTo;
  }

  lemma FirstNibbleAdvances(f: Framer, buffer: seq<Byte>, len: Word11, j: nat,
                            start: bool, startLen: Word11)
    requires |buffer| == FRAME_BODY_BYTES && Emitting(f, buffer, len, j, false) && f.Shape()
    ensures var (g, o) := FramerStep(f, start, startLen, buffer);
            Advances(f, g, o, buffer, len, AgeOf(j, false), f.toggle)
  {
    hide FramerStep, Emitting, Sending, Wire, Padded, NibbleOf, LineAt, InGap;
    var (g, o) := FramerStep(f, start, startLen, buffer);
    EmittingBound(f, buffer, len, j, false);
    FirstNibble(f, start, startLen, buffer, len, j);
    LineEmits(buffer, len, j, false);
    SendingEmits(g, buffer, len, j, true, f.toggle);
  }

  lemma SecondNibbleAdvances(f: Framer, buffer: seq<Byte>, len: Word11, j: nat,
                             start: bool, startLen: Word11)
    requires |buffer| == FRAME_BODY_BYTES && Emitting(f, buffer, len, j, true) && f.Shape()
    ensures var (g, o) := FramerStep(f, start, startLen, buffer);
            Advances(f, g, o, buffer, len, AgeOf(j, true), f.toggle)
  {
    hide FramerStep, Emitting, Sending, Wire, Padded, NibbleOf, LineAt, InGap;
    var (g, o) := FramerStep(f, start, startLen, buffer);
    EmittingBound(f, buffer, len, j, true);
    SecondNibble(f, start, startLen, buffer, len, j);
    LineEmits(buffer, len, j, true);
    if j == 11 + FrameBytes(len) {
      SendingGap(g, buffer, len, 0, f.toggle);
    } else {
      SendingEmits(g, buffer, len, j + 1, false, f.toggle);
    }
  }

  lemma GapStep(f: Framer, buffer: seq<Byte>, len: Word11, count: nat, start: bool, startLen: Word11)
    requires |buffer| == FRAME_BODY_BYTES && InGap(f, count)
    ensures var (g, o) := FramerStep(f, start, startLen, buffer);
            Advances(f, g, o, buffer, len, AgeOf(12 + FrameBytes(len), false) + count, !f.toggle)
  {
    hide Sending, LineAt;
    var (g, o) := FramerStep(f, start, startLen, buffer);
    SendingGap(f, buffer, len, count, !f.toggle);
    if count + 1 < IFG_NIBBLES {
      SendingGap(g, buffer, len, count + 1, !f.toggle);
    }
  }

  // One cycle of a frame: the nibble on the line is the one the frame has there, and the
  // framer is idle again exactly at the end of the gap.
  lemma SendingStep(f: Framer, buffer: seq<Byte>, len: Word11, age: nat, toggle: bool,
                    start: bool, startLen: Word11)
    requires |buffer| == FRAME_BODY_BYTES && Sending(f, buffer, len, age, toggle) && f.Shape()
    ensures var (g, o) := FramerStep(f, start, startLen, buffer);
            Advances(f, g, o, buffer, len, age, toggle)
  {
    var k, nibbles: nat := age - 1, 24 + 2 * FrameBytes(len);
    hide FramerStep, Advances, Emitting, InGap;
    if k < nibbles {
      var j := k / 2;
      if k % 2 == 0 {
        assert AgeOf(j, false) == age;
        FirstNibbleAdvances(f, buffer, len, j, start, startLen);
      } else {
        assert AgeOf(j, true) == age;
        SecondNibbleAdvances(f, buffer, len, j, start, startLen);
      }
    } else {
      GapStep(f, buffer, len, k - nibbles, start, startLen);
    }
  }

  lemma SendingIsNotIdle(f: Framer, buffer: seq<Byte>, len: Word11, age: nat, toggle: bool)
    requires |buffer| == FRAME_BODY_BYTES && Sending(f, buffer, len, age, toggle)
    ensures f.state != Idle
  {
  }

  lemma ToggleIsShown(f: Framer, start: bool, startLen: Word11, buffer: seq<Byte>)
    requires f.Shape() && |buffer| == FRAME_BODY_BYTES
    ensures var (g, o) := FramerStep(f, start, startLen, buffer); o.toggle == g.toggle
  {
    hide BodyByte, FoldByte, NibbleOf, FcsByte, C.Not, Emit, C.CrcByte, Inc11;
  }
}
