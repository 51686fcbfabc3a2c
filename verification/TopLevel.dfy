/** The whole endpoint as an object: two rings and three steps a cycle, in a fixed order.

  `Cycle` is the top-level function of the design. The ghost fields record the samples seen
  and the samples sent since reset, and `Valid` says that the registers are those of
  `Endpoint.Run` on that input; so everything that module Guarantees proves about runs holds
  of this object in every state it can reach.
 */
module TopLevel {

  import opened Mii
  import opened FrameParser
  import opened PacketQueue
  import opened PacketSlots
  import opened RxQueue
  import opened RxPath
  import opened Framer
  import opened TxQueue
  import opened TxPath
  import opened ProtocolPath
  import E = Endpoint
  import F = FrameFormat
  import G = Guarantees
  import N = EndToEnd

  // ethernet_l2_endpoint_hls
  class EthernetEndpoint {
    const rxQueue: PacketSlotQueue<RxMeta>
    const txQueue: PacketSlotQueue<TxMeta>
    const receiver: RxReceiver
    const handler: ProtocolHandler
    const sender: TxSender
    ghost var heard: seq<Sample>
    ghost var sent: seq<Sample>

    ghost function Parts(): set<object> {
      rxQueue.Footprint() + txQueue.Footprint() + receiver.Footprint() + handler.Footprint() + sender.Footprint()
    }

    // The parts fit together and share nothing.
    ghost predicate Wired()
      reads rxQueue, txQueue
    {
      && receiver.Fits(rxQueue) && handler.FitsRx(rxQueue)
      && sender.Fits(txQueue) && handler.FitsTx(txQueue)
      && rxQueue.Footprint() !! txQueue.Footprint()
      && receiver.Footprint() !! (txQueue.Footprint() + handler.Footprint() + sender.Footprint())
      && handler.Footprint() !! sender.Footprint()
      && sender.Footprint() !! rxQueue.Footprint()
      && this !in Parts()
    }

    ghost predicate Ready()
      reads Parts()
    {
      Wired() && receiver.Valid() && handler.Valid() && sender.Valid()
    }

    ghost function Model(): (e: E.Endpoint)
      requires Ready()
      reads Parts()
      ensures e.Shape()
    {
      E.Endpoint(receiver.Model(), rxQueue.Model(), handler.Model(), sender.Model(), txQueue.Model())
    }

    ghost predicate Valid()
      reads this, Parts()
    {
      Ready() && Model() == E.Run(heard) && sent == E.TxLines(heard)
    }

    // Connects the parts, all as they are at reset.
    constructor (rxQueue: PacketSlotQueue<RxMeta>, txQueue: PacketSlotQueue<TxMeta>, receiver: RxReceiver,
                 handler: ProtocolHandler, sender: TxSender)
      requires receiver.Fits(rxQueue) && handler.FitsRx(rxQueue) && sender.Fits(txQueue) && handler.FitsTx(txQueue)
      requires rxQueue.Footprint() !! txQueue.Footprint()
      requires receiver.Footprint() !! (txQueue.Footprint() + handler.Footprint() + sender.Footprint())
      requires handler.Footprint() !! sender.Footprint() && sender.Footprint() !! rxQueue.Footprint()
      requires receiver.Valid() && handler.Valid() && sender.Valid()
      requires E.Endpoint(receiver.Model(), rxQueue.Model(), handler.Model(), sender.Model(), txQueue.Model())
            == E.Reset()
      ensures Valid() && heard == []
      ensures this.rxQueue == rxQueue && this.txQueue == txQueue
      ensures this.receiver == receiver && this.handler == handler && this.sender == sender
    {
      hide E.Reset, E.Run, E.TxLines, Protocol.Proto.Shape, RxSide.Shape, RxReceiver.Valid, ProtocolHandler.Valid,
        TxSender.Valid, RxReceiver.Model, ProtocolHandler.Model, TxSender.Model, PacketSlotQueue<RxMeta>.Model,
        PacketSlotQueue<TxMeta>.Model;
      this.rxQueue, this.txQueue, this.receiver, this.handler, this.sender :=
        rxQueue, txQueue, receiver, handler, sender;
      heard, sent := [], [];
      new;
      AtReset();
    }

    // The endpoint as it starts.
    static method PowerOn() returns (e: EthernetEndpoint)
      ensures fresh(e) && fresh(e.Parts())
      ensures e.Valid() && e.heard == []
    {
      hide EthernetEndpoint.Valid, EthernetEndpoint.Ready, EthernetEndpoint.Wired, EthernetEndpoint.Model, EmptyRing,
        E.RESET_REQUEST, Protocol.Proto.Shape, RxSide.Shape, E.Run, E.TxLines, PacketSlotQueue<RxMeta>.Footprint,
        PacketSlotQueue<TxMeta>.Footprint, RxReceiver.Footprint, ProtocolHandler.Footprint, TxSender.Footprint,
        PacketSlotQueue<RxMeta>.Separate, PacketSlotQueue<TxMeta>.Separate, RxReceiver.Valid, ProtocolHandler.Valid,
        TxSender.Valid, RxReceiver.Model, ProtocolHandler.Model, TxSender.Model, PacketSlotQueue<RxMeta>.Model,
        PacketSlotQueue<TxMeta>.Model;
      var rxQueue := new PacketSlotQueue<RxMeta>(RX_SLOTS, MAX_PAYLOAD, RxMeta(NO_HEADER, 0, false));
      var txQueue := new PacketSlotQueue<TxMeta>(TX_SLOTS, FRAME_BODY_BYTES, TxMeta(0));
      var receiver := new RxReceiver();
      var handler := new ProtocolHandler(E.RESET_REQUEST);
      var sender := new TxSender();
      e := new EthernetEndpoint(rxQueue, txQueue, receiver, handler, sender);
    }

    static lemma AtReset()
      ensures E.Run([]) == E.Reset() && E.TxLines([]) == []
    {
    }

    method Receive(x: Sample) returns (rxActive: bool)
      requires Ready()
      modifies receiver.Footprint(), rxQueue.Footprint()
      ensures Ready()
      ensures (receiver.Model(), rxQueue.Model()) == RxStep(old(receiver.Model()), old(rxQueue.Model()), x)
      ensures handler.Model() == old(handler.Model()) && sender.Model() == old(sender.Model())
      ensures txQueue.Model() == old(txQueue.Model()) && rxActive == x.dv
    {
      hide RxStep, Protocol.Proto.Shape, RxSide.Shape;
      rxActive := receiver.Step(x.dv, x.d, x.err, rxQueue);
    }

    method Handle()
      requires Ready()
      modifies handler.Footprint(), rxQueue, rxQueue.valid, txQueue.Footprint()
      ensures Ready()
      ensures (handler.Model(), rxQueue.Model(), txQueue.Model())
           == Protocol.ProtocolStep(old(handler.Model()), old(rxQueue.Model()), old(txQueue.Model()))
      ensures receiver.Model() == old(receiver.Model()) && sender.Model() == old(sender.Model())
    {
      hide Protocol.ProtocolStep, Protocol.Proto.Shape, RxSide.Shape;
      handler.Step(rxQueue, txQueue);
    }

    method Send() returns (out: TxOut)
      requires Ready()
      modifies sender.Footprint(), txQueue, txQueue.valid
      ensures Ready()
      ensures (sender.Model(), txQueue.Model(), out) == TxStep(old(sender.Model()), old(txQueue.Model()))
      ensures receiver.Model() == old(receiver.Model()) && handler.Model() == old(handler.Model())
      ensures rxQueue.Model() == old(rxQueue.Model())
    {
      hide TxStep, Protocol.Proto.Shape, RxSide.Shape;
      out := sender.Step(txQueue);
    }

    method Step(x: Sample) returns (pins: E.Pins)
      requires Ready()
      modifies Parts()
      ensures Ready()
      ensures (Model(), pins) == E.EndpointStep(old(Model()), x)
    {
      hide RxStep, Protocol.ProtocolStep, TxStep, Protocol.Proto.Shape, RxSide.Shape, Ready,
        PacketSlotQueue<RxMeta>.Model, PacketSlotQueue<TxMeta>.Model, RxReceiver.Model, ProtocolHandler.Model,
        TxSender.Model;
      var rxActive := Receive(x);
      Handle();
      var out := Send();
      pins := E.Pins(out.line, out.toggle, rxActive, out.active);
    }

    // One clock cycle.
    method Cycle(x: Sample) returns (pins: E.Pins)
      requires Valid()
      modifies this, Parts()
      ensures Valid()
      ensures heard == old(heard) + [x]
      ensures sent == old(sent) + [pins.line]
      ensures pins == E.LastPins(heard)
    {
      hide Model, Parts, E.EndpointStep;
      pins := Step(x);
      heard := heard + [x];
      sent := sent + [pins.line];
      assert heard[..|heard| - 1] == old(heard);
    }

    // In every state the object can reach: what it has sent is explained by what it has
    // heard, every frame of it is in the format of the standards, it has lost nothing it
    // heard, and its ring slots have one owner each.
    lemma InEveryState()
      requires Valid()
      ensures exists rs :: G.Explains(rs, Decode(sent), N.PacketsOf(Decode(heard).done))
      ensures F.AllInFormat(Decode(sent).done)
      ensures rxQueue.dropCount == 0
      ensures G.SlotsOwned(Model())
    {
      hide G.Explains, G.SlotsOwned, F.AllInFormat, Decode, N.PacketsOf, E.Run, E.TxLines, Ready;
      F.FramesInFormat(heard);
      G.EndToEnd(heard);
      G.Accounting(heard);
      G.SlotOwnership(heard);
      assert Model().rxQueue.dropCount == rxQueue.dropCount;
    }
  }
}
