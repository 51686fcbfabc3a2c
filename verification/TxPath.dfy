/** The transmit side as objects that are updated in place.

  The framer's state machine with its counters and its CRC register, and the step that
  feeds it from the transmit ring. Their `Step` methods are proved against `FramerStep` and
  `TxStep`.
 */
module TxPath {

  import opened Words
  import opened Mii
  import opened FrameParser
  import opened PacketQueue
  import opened PacketSlots
  import opened Framer
  import opened TxQueue
  import C = Crc32

  // ethernet_tx_framer_step
  class TxFramer {
    var state: TxState
    var nibblePhase: bool
    var byteIndex: Word11
    var fcsIndex: nat
    var ifgCount: nat
    var crc: bv32
    var fcs: bv32
    var len: Word11
    var frameBodyLen: Word11
    var frame: bool

    function Model(): Framer
      reads this
    {
      Framer(state, nibblePhase, byteIndex, fcsIndex, ifgCount, crc, fcs, len, frameBodyLen, frame)
    }

    ghost predicate Valid()
      reads this
    {
      Model().Shape()
    }

    constructor ()
      ensures Valid() && Model() == Framer(Idle, false, 0, 0, 0, C.INIT, 0, 0, 0, false)
    {
      state, nibblePhase, byteIndex, fcsIndex, ifgCount := Idle, false, 0, 0, 0;
      crc, fcs, len, frameBodyLen, frame := C.INIT, 0, 0, 0, false;
    }

    // mii_tx_emit_byte_step
    method EmitByte(b: Byte) returns (line: Sample, byteDone: bool)
      modifies this`nibblePhase
      ensures line == Emit(b, old(nibblePhase)) && byteDone == old(nibblePhase) && nibblePhase == !old(nibblePhase)
    {
      line := Sample(true, if nibblePhase then HighNibble(b) else LowNibble(b), false);
      byteDone := nibblePhase;
      nibblePhase := !nibblePhase;
    }

    method IdleStep(start: bool, startLen: Word11, buffer: array<Byte>) returns (out: TxOut)
      requires Valid() && buffer.Length == FRAME_BODY_BYTES && state == Idle
      modifies this
      ensures Valid() && (Model(), out) == FramerStep(old(Model()), start, startLen, buffer[..])
    {
      nibblePhase := false;
      byteIndex := 0;
      fcsIndex := 0;
      crc := C.INIT;
      if start {
        len := startLen;
        frameBodyLen := if startLen < MIN_FRAME_BODY then MIN_FRAME_BODY else startLen;
        state := Preamble;
      }
      out := TxOut(QUIET, false, frame, !start);
    }

    method PreambleStep(start: bool, startLen: Word11, buffer: array<Byte>) returns (out: TxOut)
      requires Valid() && buffer.Length == FRAME_BODY_BYTES && state == Preamble
      modifies this
      ensures Valid() && (Model(), out) == FramerStep(old(Model()), start, startLen, buffer[..])
    {
      hide NibbleOf;
      var line, byteDone := EmitByte(if byteIndex == 7 then SFD else PREAMBLE);
      if byteDone {
        if byteIndex == 7 {
          byteIndex := 0;
          state := Data;
        } else {
          byteIndex := Inc11(byteIndex);
        }
      }
      out := TxOut(line, true, frame, false);
    }

    // tx_frame_body_byte
    method FrameBodyByte(buffer: array<Byte>) returns (b: Byte)
      requires buffer.Length == FRAME_BODY_BYTES
      ensures b == BodyByte(buffer[..], byteIndex, len)
    {
      b := if byteIndex >= len || byteIndex >= FRAME_BODY_BYTES then 0 else buffer[byteIndex];
    }

    method Fold(b: Byte)
      modifies this`crc
      ensures crc == FoldByte(old(crc), b)
    {
      hide C.CrcByte;
      crc := C.Crc32NextByte(crc, b as bv8);
    }

    method DataStep(start: bool, startLen: Word11, buffer: array<Byte>) returns (out: TxOut)
      requires Valid() && buffer.Length == FRAME_BODY_BYTES && state == Data
      modifies this
      ensures Valid() && (Model(), out) == FramerStep(old(Model()), start, startLen, buffer[..])
    {
      hide NibbleOf, FoldByte, BodyByte, FcsByte, C.Not;
      var b := FrameBodyByte(buffer);
      var line, byteDone := EmitByte(b);
      if byteDone {
        Fold(b);
        if byteIndex == (frameBodyLen - 1) % 0x800 {
          fcs := C.Not(crc);
          fcsIndex := 0;
          state := Fcs;
        } else {
          byteIndex := Inc11(byteIndex);
        }
      }
      out := TxOut(line, true, frame, false);
    }

    method FcsStep(start: bool, startLen: Word11, buffer: array<Byte>) returns (out: TxOut)
      requires Valid() && buffer.Length == FRAME_BODY_BYTES && state == Fcs
      modifies this
      ensures Valid() && (Model(), out) == FramerStep(old(Model()), start, startLen, buffer[..])
    {
      hide NibbleOf, FcsByte;
      var line, byteDone := EmitByte(FcsByte(fcs, fcsIndex));
      if byteDone {
        if fcsIndex == 3 {
          frame := !frame;
          ifgCount := 0;
          state := Ifg;
        } else {
          fcsIndex := fcsIndex + 1;
        }
      }
      out := TxOut(line, true, frame, false);
    }

    method GapStep(start: bool, startLen: Word11, buffer: array<Byte>) returns (out: TxOut)
      requires Valid() && buffer.Length == FRAME_BODY_BYTES && state == Ifg
      modifies this
      ensures Valid() && (Model(), out) == FramerStep(old(Model()), start, startLen, buffer[..])
    {
      var idle := false;
      if ifgCount == IFG_NIBBLES - 1 {
        state := Idle;
        idle := true;
      } else {
        ifgCount := (ifgCount + 1) % 0x40;
      }
      out := TxOut(QUIET, false, frame, idle);
    }

    method Step(start: bool, startLen: Word11, buffer: array<Byte>) returns (out: TxOut)
      requires Valid() && buffer.Length == FRAME_BODY_BYTES
      modifies this
      ensures Valid() && (Model(), out) == FramerStep(old(Model()), start, startLen, buffer[..])
    {
      hide FramerStep;
      match state {
        case Idle => out := IdleStep(start, startLen, buffer);
        case Preamble => out := PreambleStep(start, startLen, buffer);
        case Data => out := DataStep(start, startLen, buffer);
        case Fcs => out := FcsStep(start, startLen, buffer);
        case Ifg => out := GapStep(start, startLen, buffer);
      }
    }
  }

  // ethernet_tx_queue_step
  class TxSender {
    const framer: TxFramer
    var framerActive: bool
    var framerSlotIdx: nat

    ghost function Footprint(): set<object> {
      {this, framer}
    }

    ghost predicate Valid()
      reads Footprint()
    {
      framer.Valid() && framerSlotIdx < TX_SLOTS
    }

    ghost function Model(): (t: TxSide)
      requires Valid()
      reads Footprint()
      ensures t.Shape()
    {
      TxSide(framer.Model(), framerActive, framerSlotIdx)
    }

    constructor ()
      ensures Valid() && fresh(Footprint()) && forall o | o in Footprint() :: allocated(o)
      ensures Model() == TxSide(Framer(Idle, false, 0, 0, 0, C.INIT, 0, 0, 0, false), false, 0)
    {
      framer := new TxFramer();
      framerActive, framerSlotIdx := false, 0;
    }

    ghost predicate Fits(queue: PacketSlotQueue<TxMeta>)
      reads queue
    {
      queue.Valid() && queue.slots == TX_SLOTS && queue.size == FRAME_BODY_BYTES && queue.Footprint() !! Footprint()
    }

    method Step(queue: PacketSlotQueue<TxMeta>) returns (out: TxOut)
      requires Valid() && Fits(queue)
      modifies Footprint(), queue, queue.valid
      ensures Valid() && Fits(queue)
      ensures (Model(), queue.Model(), out) == TxStep(old(Model()), old(queue.Model()))
    {
      hide FramerStep, Ring<TxMeta>.Consume;
      var valid := queue.ReadSlotValid();
      var start := !framerActive && valid;
      var startLen := queue.meta[queue.readIdx].bodyLen;
      if start {
        framerActive := true;
        framerSlotIdx := queue.readIdx;
      }
      out := framer.Step(start, startLen, queue.bytes[framerSlotIdx]);
      if framerActive && out.idle {
        queue.ConsumeReadSlot();
        framerActive := false;
      }
    }
  }
}
