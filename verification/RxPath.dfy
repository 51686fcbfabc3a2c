/** The receive side as objects that are updated in place.

  One class for each function with static variables: the nibble assembler, the streaming
  parser with its header register and delay line, and the step that joins them to the
  receive ring. Each `Step` is proved against the function on values that the rest of the
  proofs use: `AssemblerStep`, `ParserStep`, `RxStep`.
 */
module RxPath {

  import opened Words
  import opened Mii
  import opened FrameParser
  import opened PacketQueue
  import opened PacketSlots
  import opened RxQueue

  // mii_rx_byte_assembler_step
  class ByteAssembler {
    var inFrame: bool
    var haveLow: bool
    var lowNibble: Nibble

    function Model(): Assembler
      reads this
    {
      Assembler(inFrame, haveLow, lowNibble)
    }

    constructor ()
      ensures Model() == Assembler(false, false, 0)
    {
      inFrame, haveLow, lowNibble := false, false, 0;
    }

    method Step(dv: bool, d: Nibble) returns (frameStart: bool, byteValid: bool, data: Byte, frameEnd: bool)
      modifies this
      ensures (Model(), Assembled(frameStart, byteValid, data, frameEnd)) == AssemblerStep(old(Model()), dv, d)
    {
      frameStart, byteValid, frameEnd, data := false, false, false, 0;
      if dv {
        if !inFrame {
          inFrame := true;
          haveLow := false;
          frameStart := true;
        }
        if haveLow {
          data := JoinNibbles(lowNibble, d);
          byteValid := true;
        } else {
          lowNibble := d;
        }
        haveLow := !haveLow;
      } else {
        if inFrame {
          frameEnd := true;
        }
        inFrame := false;
        haveLow := false;
      }
    }
  }

  datatype RxState = Search | Data

  // ethernet_rx_parser_step
  class StreamParser {
    var state: RxState
    var preambleCount: nat
    var byteIndex: Word16
    var frameError: bool
    var header: Header
    const fcsTail: array<Byte>
    var fcsTailCount: nat
    var payloadCount: nat
    var truncated: bool

    ghost predicate Valid()
      reads this, fcsTail
    {
      fcsTail.Length == 4 && Model().Shape()
    }

    ghost function Model(): Parser
      reads this, fcsTail
    {
      Parser(state == Search, preambleCount, byteIndex, frameError, header, fcsTail[..], fcsTailCount, payloadCount,
             truncated)
    }

    constructor ()
      ensures Valid() && fresh(fcsTail)
      ensures Model() == Parser(true, 0, 0, false, NO_HEADER, [0, 0, 0, 0], 0, 0, false)
    {
      state, preambleCount, byteIndex, frameError, header := Search, 0, 0, false, NO_HEADER;
      fcsTail := new Byte[4](_ => 0);
      fcsTailCount, payloadCount, truncated := 0, 0, false;
    }

    // rx_capture_payload_byte
    method CapturePayloadByte(buffer: array<Byte>, data: Byte)
      requires Valid() && buffer.Length == MAX_PAYLOAD && buffer != fcsTail
      modifies this`fcsTailCount, this`payloadCount, this`truncated, fcsTail, buffer
      ensures Valid()
      ensures (Model(), buffer[..]) == Capture(old(Model()), old(buffer[..]), data)
    {
      if fcsTailCount < 4 {
        fcsTail[fcsTailCount] := data;
        fcsTailCount := fcsTailCount + 1;
        return;
      }
      var payloadByte := fcsTail[0];
      fcsTail[0] := fcsTail[1];
      fcsTail[1] := fcsTail[2];
      fcsTail[2] := fcsTail[3];
      fcsTail[3] := data;
      assert fcsTail[..] == old(fcsTail[..])[1..] + [data];
      if payloadCount < MAX_PAYLOAD {
        buffer[payloadCount] := payloadByte;
        payloadCount := payloadCount + 1;
      } else {
        truncated := true;
      }
    }

    method ProcessDataByte(buffer: array<Byte>, data: Byte)
      requires Valid() && buffer.Length == MAX_PAYLOAD && buffer != fcsTail
      modifies this, fcsTail, buffer
      ensures Valid()
      ensures (Model(), buffer[..]) == DataByte(old(Model()), old(buffer[..]), data)
    {
      if byteIndex < HEADER_BYTES {
        header := SetHeaderByte(header, byteIndex, data);
      } else {
        CapturePayloadByte(buffer, data);
      }
      byteIndex := (byteIndex + 1) % 0x1_0000;
    }

    method AcceptDataByte(buffer: array<Byte>, data: Byte)
      requires Valid() && buffer.Length == MAX_PAYLOAD && buffer != fcsTail
      modifies this, fcsTail, buffer
      ensures Valid()
      ensures (Model(), buffer[..]) == AcceptByte(old(Model()), old(buffer[..]), data)
    {
      var process := false;
      if state == Search {
        if data == PREAMBLE {
          if preambleCount != 15 {
            preambleCount := preambleCount + 1;
          }
        } else if data == SFD && preambleCount != 0 {
          state := Data;
          byteIndex := 0;
        } else {
          state := Data;
          process := true;
        }
      } else {
        process := true;
      }
      if process {
        ProcessDataByte(buffer, data);
      }
    }

    method Start()
      requires Valid()
      modifies this
      ensures Valid() && Model() == StartFrame(old(Model()))
    {
      state := Search;
      preambleCount := 0;
      byteIndex := 0;
      frameError := false;
      header := NO_HEADER;
      fcsTailCount := 0;
      payloadCount := 0;
      truncated := false;
    }

    method Finish() returns (meta: FrameMeta)
      requires Valid()
      modifies this
      ensures Valid() && (Model(), meta) == EndFrame(old(Model()))
    {
      meta := FrameMeta(byteIndex >= HEADER_BYTES + 4 && fcsTailCount == 4 && !frameError, truncated, header,
                        payloadCount);
      state := Search;
      preambleCount := 0;
      byteIndex := 0;
      frameError := false;
      fcsTailCount := 0;
      payloadCount := 0;
      truncated := false;
    }

    method Step(frameStart: bool, byteValid: bool, data: Byte, frameEnd: bool, err: bool, buffer: array<Byte>)
      returns (meta: FrameMeta)
      requires Valid() && buffer.Length == MAX_PAYLOAD && buffer != fcsTail
      modifies this, fcsTail, buffer
      ensures Valid()
      ensures Parsed(Model(), buffer[..], meta) ==
        ParserStep(old(Model()), old(buffer[..]), Assembled(frameStart, byteValid, data, frameEnd), err)
    {
      hide AcceptByte, StartFrame, EndFrame;
      meta := NO_META;
      if frameStart {
        Start();
      }
      frameError := frameError || err;
      if byteValid {
        AcceptDataByte(buffer, data);
      }
      if frameEnd {
        meta := Finish();
      }
    }
  }

  // ethernet_rx_queue_step
  class RxReceiver {
    const assembler: ByteAssembler
    const parser: StreamParser
    const dropPayload: array<Byte>
    var dropCurrent: bool

    ghost function Footprint(): set<object> {
      {this, assembler, parser, parser.fcsTail, dropPayload}
    }

    ghost predicate Valid()
      reads Footprint()
    {
      && parser.Valid() && dropPayload.Length == MAX_PAYLOAD && dropPayload != parser.fcsTail
    }

    ghost function Model(): (r: RxSide)
      requires Valid()
      reads Footprint()
      ensures r.Shape()
    {
      RxSide(assembler.Model(), parser.Model(), dropCurrent, dropPayload[..])
    }

    constructor ()
      ensures Valid() && fresh(Footprint()) && forall o | o in Footprint() :: allocated(o)
      ensures Model() == RxSide(Assembler(false, false, 0),
                                Parser(true, 0, 0, false, NO_HEADER, [0, 0, 0, 0], 0, 0, false),
                                false, Blank(MAX_PAYLOAD))
    {
      assembler := new ByteAssembler();
      parser := new StreamParser();
      dropPayload := new Byte[MAX_PAYLOAD](_ => 0);
      dropCurrent := false;
    }

    // The ring may be handed to the step: right size, and nothing in common with the receiver.
    ghost predicate Fits(queue: PacketSlotQueue<RxMeta>)
      reads queue
    {
      queue.Valid() && queue.slots == RX_SLOTS && queue.size == MAX_PAYLOAD && queue.Footprint() !! Footprint()
    }

    // Runs the parser on the reserved slot, or on a buffer of no further use.
    method Parse(o: Assembled, err: bool, queue: PacketSlotQueue<RxMeta>) returns (meta: FrameMeta)
      requires Valid() && Fits(queue)
      modifies parser, parser.fcsTail, dropPayload, queue.bytes[queue.writeIdx]
      ensures Valid() && Fits(queue)
      ensures var q := old(queue.Model());
              var p := ParserStep(old(parser.Model()),
                                  if dropCurrent then old(dropPayload[..]) else q.bytes[q.writeIdx], o, err);
              && parser.Model() == p.parser && meta == p.meta
              && dropPayload[..] == (if dropCurrent then p.buffer else old(dropPayload[..]))
              && queue.Model() == if dropCurrent then q else q.Store(q.writeIdx, p.buffer)
    {
      hide ParserStep;
      if dropCurrent {
        meta := parser.Step(o.frameStart, o.byteValid, o.data, o.frameEnd, err, dropPayload);
      } else {
        var buffer := queue.bytes[queue.writeIdx];
        meta := parser.Step(o.frameStart, o.byteValid, o.data, o.frameEnd, err, buffer);
        queue.BufferWritten(queue.writeIdx);
      }
    }

    // A frame that starts reserves the write slot, or is dropped.
    method Reserve(frameStart: bool, queue: PacketSlotQueue<RxMeta>)
      requires Valid() && Fits(queue)
      modifies this, queue
      ensures Valid() && Fits(queue)
      ensures var q := old(queue.Model());
              && dropCurrent == (if frameStart then !q.WriteSlotAvailable() else old(dropCurrent))
              && queue.Model() == if frameStart && dropCurrent then q.DropWrite() else q
      ensures Model() == old(Model()).(drop := dropCurrent)
    {
      if frameStart {
        var available := queue.WriteSlotAvailable();
        dropCurrent := !available;
        if dropCurrent {
          queue.DropWrite();
        }
      }
    }

    // A frame that ends publishes its slot, if it is good.
    method Release(frameEnd: bool, meta: FrameMeta, queue: PacketSlotQueue<RxMeta>)
      requires Valid() && Fits(queue)
      modifies this, queue, queue.meta, queue.valid
      ensures Valid() && Fits(queue)
      ensures var q := old(queue.Model());
              queue.Model() ==
                if frameEnd && !old(dropCurrent) && meta.valid then
                  q.Publish(RxMeta(meta.header, meta.payloadLen, meta.truncated))
                else q
      ensures Model() == old(Model()).(drop := if frameEnd then false else old(dropCurrent))
    {
      hide Ring<RxMeta>.Publish;
      if frameEnd {
        if !dropCurrent && meta.valid {
          queue.PublishWriteSlot(RxMeta(meta.header, meta.payloadLen, meta.truncated));
        }
        dropCurrent := false;
      }
    }

    method Step(dv: bool, d: Nibble, err: bool, queue: PacketSlotQueue<RxMeta>) returns (rxActive: bool)
      requires Valid() && Fits(queue)
      modifies Footprint(), queue.Footprint()
      ensures Valid() && Fits(queue)
      ensures (Model(), queue.Model()) == RxStep(old(Model()), old(queue.Model()), Sample(dv, d, err))
      ensures rxActive == dv
    {
      hide AssemblerStep, ParserStep, Ring<RxMeta>.Publish;
      rxActive := dv;
      var frameStart, byteValid, data, frameEnd := assembler.Step(dv, d);
      Reserve(frameStart, queue);
      var meta := Parse(Assembled(frameStart, byteValid, data, frameEnd), err, queue);
      Release(frameEnd, meta, queue);
    }
  }
}
