/** The protocol handler as an object that is updated in place.

  All the static variables of the handler and of its two timers. `Step` calls one method
  for each part of a cycle, and each is proved against the function of module Protocol that
  describes that part.
 */
module ProtocolPath {

  import opened Words
  import opened FrameParser
  import opened PacketQueue
  import opened PacketSlots
  import opened RxQueue
  import opened Framer
  import opened TxQueue
  import opened Arp
  import opened TxPayloads
  import opened Timers
  import opened Protocol

  // periodic_tx_timer_step
  class PeriodicTimers {
    var beaconCount: Word32
    var gratuitousArpCount: Word32

    function Model(): Timers
      reads this
    {
      Timers(beaconCount, gratuitousArpCount)
    }

    constructor ()
      ensures Model() == Timers(0, 0)
    {
      beaconCount, gratuitousArpCount := 0, 0;
    }

    // periodic_counter_tick
    static method Tick(interval: Word32, counter: Word32) returns (next: Word32, tick: bool)
      requires interval > 0
      ensures (next, tick) == CounterTick(interval, counter)
    {
      if counter == interval - 1 {
        return 0, true;
      }
      return Inc32(counter), false;
    }

    method Step() returns (ticks: Ticks)
      modifies this
      ensures (Model(), ticks) == TimersStep(old(Model()))
    {
      hide CounterTick;
      var beacon, gratuitousArp;
      beaconCount, beacon := Tick(BEACON_INTERVAL, beaconCount);
      gratuitousArpCount, gratuitousArp := Tick(GRATUITOUS_ARP_INTERVAL, gratuitousArpCount);
      ticks := Ticks(beacon, gratuitousArp);
    }
  }

  // The registers of the serial ARP parser.
  class ArpRegisters {
    var hwType: Half
    var protoType: Half
    var hwLen: Byte
    var protoLen: Byte
    var opcode: Half
    var senderMac: Mac
    var senderIp: Ip
    var targetIp: Ip

    function Model(): ArpRegs
      reads this
    {
      ArpRegs(hwType, protoType, hwLen, protoLen, opcode, senderMac, senderIp, targetIp)
    }

    constructor ()
      ensures Model() == NO_REGS
    {
      hwType, protoType, hwLen, protoLen, opcode := ZERO_HALF, ZERO_HALF, 0, 0, ZERO_HALF;
      senderMac, senderIp, targetIp := ZERO_MAC, ZERO_IP, ZERO_IP;
    }

    method Clear()
      modifies this
      ensures Model() == NO_REGS
    {
      hwType, protoType, hwLen, protoLen, opcode := ZERO_HALF, ZERO_HALF, 0, 0, ZERO_HALF;
      senderMac, senderIp, targetIp := ZERO_MAC, ZERO_IP, ZERO_IP;
    }

    method Shift(i: nat, b: Byte)
      modifies this
      ensures Model() == ArpByte(old(Model()), i, b)
    {
      if i < 2 {
        hwType := hwType[i := b];
      } else if i < 4 {
        protoType := protoType[i - 2 := b];
      } else if i == 4 {
        hwLen := b;
      } else if i == 5 {
        protoLen := b;
      } else if i < 8 {
        opcode := opcode[i - 6 := b];
      } else if i < 14 {
        senderMac := senderMac[i - 8 := b];
      } else if i < 18 {
        senderIp := senderIp[i - 14 := b];
      } else if 24 <= i < 28 {
        targetIp := targetIp[i - 24 := b];
      }
    }
  }

  // protocol_queue_step
  class ProtocolHandler {
    const timers: PeriodicTimers
    const regs: ArpRegisters
    var state: ProtocolState
    var preparing: bool
    var request: TxRequest
    var prepareIndex: Word11
    var prepareSlot: nat
    var rxProtocolDrops: Word32
    var rxPackets: Word32
    var arpReplies: Word32
    var beacons: Word32
    var parseSlot: nat
    var parseIndex: nat

    ghost function Footprint(): set<object> {
      {this, timers, regs}
    }

    function Model(): Proto
      reads this, timers, regs
    {
      Proto(state, preparing, request, prepareIndex, prepareSlot, rxProtocolDrops, rxPackets, arpReplies, beacons,
            parseSlot, parseIndex, regs.Model(), timers.Model())
    }

    ghost predicate Valid()
      reads Footprint()
    {
      Model().Shape()
    }

    constructor (none: TxRequest)
      ensures Valid() && fresh(Footprint()) && forall o | o in Footprint() :: allocated(o)
      ensures Model() == Proto(ProtoIdle, false, none, 0, 0, 0, 0, 0, 0, 0, 0, NO_REGS, Timers(0, 0))
    {
      timers := new PeriodicTimers();
      regs := new ArpRegisters();
      state, preparing, request, prepareIndex, prepareSlot := ProtoIdle, false, none, 0, 0;
      rxProtocolDrops, rxPackets, arpReplies, beacons, parseSlot, parseIndex := 0, 0, 0, 0, 0, 0;
    }

    ghost predicate FitsRx(rx: PacketSlotQueue<RxMeta>)
      reads rx
    {
      rx.Valid() && rx.slots == RX_SLOTS && rx.size == MAX_PAYLOAD && rx.Footprint() !! Footprint()
    }

    ghost predicate FitsTx(tx: PacketSlotQueue<TxMeta>)
      reads tx
    {
      tx.Valid() && tx.slots == TX_SLOTS && tx.size == FRAME_BODY_BYTES && tx.Footprint() !! Footprint()
    }

    method TickTimers() returns (ticks: Ticks)
      requires Valid()
      modifies timers
      ensures Valid()
      ensures var (t, k) := TimersStep(old(timers.Model())); Model() == old(Model()).(timers := t) && ticks == k
    {
      hide TimersStep, Proper;
      ticks := timers.Step();
    }

    // The oldest packet: to be read as ARP, or dropped.
    method InspectPacket(rx: PacketSlotQueue<RxMeta>)
      requires Valid() && FitsRx(rx)
      modifies this, regs, rx, rx.valid
      ensures Valid() && FitsRx(rx)
      ensures Handled(Model(), rx.Model(), None) == Inspect(old(Model()), old(rx.Model()))
    {
      hide Proper, Ring<RxMeta>.Consume, IsCandidate, PacketSlotQueue<RxMeta>.Separate;
      var m := rx.meta[rx.readIdx];
      rxPackets := Inc32(rxPackets);
      var candidate := IsCandidate(m.header, m.payloadLen, m.truncated);
      if candidate {
        parseSlot := rx.readIdx;
        parseIndex := 0;
        regs.Clear();
        state := ProtoParseArp;
      } else {
        rxProtocolDrops := Inc32(rxProtocolDrops);
        rx.ConsumeReadSlot();
      }
    }

    // The verdict on a packet read as ARP, after its last byte.
    method Decide(rx: PacketSlotQueue<RxMeta>) returns (reply: Option<TxRequest>)
      requires Valid() && FitsRx(rx)
      modifies this, rx, rx.valid
      ensures Valid() && FitsRx(rx)
      ensures var p, r := old(Model()), old(regs.Model());
              && rx.Model() == old(rx.Model()).Consume()
              && (Model(), reply) ==
                   if r.IsRequestForUs() then
                     (p.(state := ProtoIdle, arpReplies := Inc32(p.arpReplies)),
                      Some(ArpReplyRequest(r.senderMac, r.senderIp)))
                   else
                     (p.(state := ProtoIdle, rxProtocolDrops := Inc32(p.rxProtocolDrops)), None)
    {
      hide Proper, Ring<RxMeta>.Consume, ArpRegs.IsRequestForUs, ArpReplyRequest, PacketSlotQueue<RxMeta>.Separate;
      reply := None;
      var valid := regs.Model().IsRequestForUs();
      if valid {
        reply := Some(ArpReplyRequest(regs.senderMac, regs.senderIp));
        arpReplies := Inc32(arpReplies);
      } else {
        rxProtocolDrops := Inc32(rxProtocolDrops);
      }
      rx.ConsumeReadSlot();
      state := ProtoIdle;
    }

    // One byte of the packet read as ARP.
    method ParseArpByte(rx: PacketSlotQueue<RxMeta>) returns (reply: Option<TxRequest>)
      requires Valid() && FitsRx(rx)
      modifies this, regs, rx, rx.valid
      ensures Valid() && FitsRx(rx)
      ensures Handled(Model(), rx.Model(), reply) == ParseByte(old(Model()), old(rx.Model()))
    {
      hide Proper, Ring<RxMeta>.Consume, ArpByte, ArpRegs.IsRequestForUs, ArpReplyRequest,
        PacketSlotQueue<RxMeta>.Separate;
      reply := None;
      regs.Shift(parseIndex, rx.bytes[parseSlot][parseIndex]);
      if parseIndex == ARP_PAYLOAD_BYTES - 1 {
        reply := Decide(rx);
      } else {
        parseIndex := (parseIndex + 1) % 0x20;
      }
    }

    method TakePacketOrTick(rx: PacketSlotQueue<RxMeta>, txDrops: Word32, ticks: Ticks)
      returns (reply: Option<TxRequest>)
      requires Valid() && FitsRx(rx)
      modifies this, regs, rx, rx.valid
      ensures Valid() && FitsRx(rx)
      ensures Handled(Model(), rx.Model(), reply) == Handle(old(Model()), old(rx.Model()), txDrops, ticks)
    {
      hide Inspect, ParseByte, BeaconNow, GratuitousArpRequest, Proper, BeaconRequest;
      reply := None;
      if !preparing && state == ProtoIdle {
        var waiting := rx.ReadSlotValid();
        if waiting {
          InspectPacket(rx);
        } else if ticks.gratuitousArp {
          reply := Some(GratuitousArpRequest());
        } else if ticks.beacon {
          reply := Some(BeaconNow(Model(), rx.dropCount, txDrops));
        }
      } else if !preparing && state == ProtoParseArp {
        reply := ParseArpByte(rx);
      }
    }

    // Takes a request into work.
    method Keep(r: TxRequest, slot: nat)
      requires Valid() && Proper(r) && slot < TX_SLOTS
      modifies this
      ensures Valid()
      ensures Model() == old(Model()).(preparing := true, request := r, prepareIndex := 0, prepareSlot := slot,
                                       beacons := if r.kind == Beacon then Inc32(old(beacons)) else old(beacons))
    {
      hide Proper;
      ProperLength(r);
      preparing := true;
      request := r;
      prepareIndex := 0;
      prepareSlot := slot;
      if r.kind == Beacon {
        beacons := Inc32(beacons);
      }
    }

    // start_protocol_tx_request
    method StartTx(reply: Option<TxRequest>, tx: PacketSlotQueue<TxMeta>)
      requires Valid() && FitsTx(tx)
      requires reply.Some? ==> Proper(reply.value)
      modifies this, tx
      ensures Valid() && FitsTx(tx)
      ensures (Model(), tx.Model()) == StartRequest(old(Model()), old(tx.Model()), reply)
    {
      hide Proper, PacketSlotQueue<TxMeta>.Separate, Proto.Shape;
      if reply.Some? {
        var available := tx.WriteSlotAvailable();
        if !available {
          tx.DropWrite();
        } else {
          Keep(reply.value, tx.writeIdx);
        }
      }
    }

    // prepare_tx_slot_frame_body_step
    method PrepareByte(tx: PacketSlotQueue<TxMeta>) returns (done: bool)
      requires Valid() && FitsTx(tx) && preparing
      modifies tx.bytes[prepareSlot]
      ensures Valid() && FitsTx(tx)
      ensures var t := old(tx.Model());
              tx.Model() ==
                t.Store(prepareSlot, t.bytes[prepareSlot][prepareIndex := FrameBodyByte(request, prepareIndex)])
      ensures done == (request.len == 0 || prepareIndex == request.len - 1)
    {
      hide FrameBodyByte;
      tx.bytes[prepareSlot][prepareIndex] := FrameBodyByte(request, prepareIndex);
      done := request.len == 0 || prepareIndex == request.len - 1;
      tx.BufferWritten(prepareSlot);
    }

    method BuildBody(tx: PacketSlotQueue<TxMeta>)
      requires Valid() && FitsTx(tx)
      modifies this, tx, tx.meta, tx.valid, tx.bytes[prepareSlot]
      ensures Valid() && FitsTx(tx)
      ensures (Model(), tx.Model()) == Build(old(Model()), old(tx.Model()))
    {
      hide FrameBodyByte, Ring<TxMeta>.Publish, Proper;
      if preparing {
        var done := PrepareByte(tx);
        if done {
          tx.PublishWriteSlot(TxMeta(request.len));
          preparing := false;
          request := request.(valid := false, kind := NoKind);
        } else {
          prepareIndex := Inc11(prepareIndex);
        }
      }
    }

    // Starts a request if there is one, and builds one byte of what is in work.
    method Respond(reply: Option<TxRequest>, tx: PacketSlotQueue<TxMeta>)
      requires Valid() && FitsTx(tx)
      requires reply.Some? ==> Proper(reply.value)
      modifies this, tx.Footprint()
      ensures Valid() && FitsTx(tx)
      ensures var (q, t) := StartRequest(old(Model()), old(tx.Model()), reply);
              q.Shape() && TxRing(t) && (Model(), tx.Model()) == Build(q, t)
    {
      hide StartRequest, Build, Proper;
      StartTx(reply, tx);
      BuildBody(tx);
    }

    method Step(rx: PacketSlotQueue<RxMeta>, tx: PacketSlotQueue<TxMeta>)
      requires Valid() && FitsRx(rx) && FitsTx(tx) && rx.Footprint() !! tx.Footprint()
      modifies Footprint(), rx, rx.valid, tx.Footprint()
      ensures Valid() && FitsRx(rx) && FitsTx(tx)
      ensures (Model(), rx.Model(), tx.Model()) == ProtocolStep(old(Model()), old(rx.Model()), old(tx.Model()))
    {
      hide Handle, StartRequest, Build, TimersStep, Proper, Proto.Shape, PacketSlotQueue<TxMeta>.Separate,
        PacketSlotQueue<RxMeta>.Separate;
      var ticks := TickTimers();
      HandleShape(Model(), rx.Model(), tx.dropCount, ticks);
      var reply := TakePacketOrTick(rx, tx.dropCount, ticks);
      Respond(reply, tx);
    }
  }
}
