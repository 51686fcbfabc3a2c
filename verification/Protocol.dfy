/** The protocol handler between the two rings.

  One call a cycle. It inspects the oldest received packet, reads an ARP candidate one byte
  a cycle, answers timers when nothing is waiting, and builds one frame body at a time, one
  byte a cycle, in the free slot of the transmit ring.
 */
module Protocol {

  import opened Words
  import opened FrameParser
  import opened PacketQueue
  import opened RxQueue
  import opened Framer
  import opened TxQueue
  import opened Arp
  import opened TxPayloads
  import opened Timers

  datatype ProtocolState = ProtoIdle | ProtoParseArp | ProtoPrepareTx

  datatype Proto = Proto(
    state: ProtocolState,
    preparing: bool,
    request: TxRequest,
    prepareIndex: Word11,
    prepareSlot: nat,
    rxProtocolDrops: Word32,
    rxPackets: Word32,
    arpReplies: Word32,
    beacons: Word32,
    parseSlot: nat,
    parseIndex: nat,
    regs: ArpRegs,
    timers: Timers)
  {
    // Indices within their buffers.
    predicate Shape() {
      && prepareSlot < TX_SLOTS && parseSlot < RX_SLOTS && parseIndex < 0x20
      && (preparing ==> Proper(request) && prepareIndex < request.len)
    }
  }

  // What a packet must be for the endpoint to read its payload as ARP.
  predicate IsCandidate(header: Header, payloadLen: nat, truncated: bool) {
    && !truncated
    && (header.dst == FPGA_MAC || header.dst == BROADCAST_MAC)
    && header.etherType == ARP_ETHERTYPE
    && payloadLen >= ARP_PAYLOAD_BYTES
  }

  // ----- Taking packets and ticks ---------------------------------------------------

  datatype Handled = Handled(p: Proto, rx: Ring<RxMeta>, request: Option<TxRequest>)

  function Inspect(p: Proto, rx: Ring<RxMeta>): Handled
    requires RxRing(rx)
  {
    var m := rx.meta[rx.readIdx];
    var q := p.(rxPackets := Inc32(p.rxPackets));
    if IsCandidate(m.header, m.payloadLen, m.truncated) then
      Handled(q.(parseSlot := rx.readIdx, parseIndex := 0, regs := NO_REGS, state := ProtoParseArp),
              rx, None)
    else
      Handled(q.(rxProtocolDrops := Inc32(p.rxProtocolDrops)), rx.Consume(), None)
  }

  function ParseByte(p: Proto, rx: Ring<RxMeta>): Handled
    requires RxRing(rx) && p.Shape()
  {
    var regs := ArpByte(p.regs, p.parseIndex, rx.bytes[p.parseSlot][p.parseIndex]);
    var q := p.(regs := regs);
    if p.parseIndex == ARP_PAYLOAD_BYTES - 1 then
      var idle := q.(state := ProtoIdle);
      if regs.IsRequestForUs() then
        Handled(idle.(arpReplies := Inc32(p.arpReplies)), rx.Consume(),
                Some(ArpReplyRequest(regs.senderMac, regs.senderIp)))
      else
        Handled(idle.(rxProtocolDrops := Inc32(p.rxProtocolDrops)), rx.Consume(), None)
    else
      Handled(q.(parseIndex := (p.parseIndex + 1) % 0x20), rx, None)
  }

  // A beacon that reports the counters as they are now.
  function BeaconNow(p: Proto, rxDrops: Word32, txDrops: Word32): TxRequest {
    BeaconRequest().(rxPackets := p.rxPackets, rxQueueDrops := rxDrops,
      rxProtocolDrops := p.rxProtocolDrops, txDrops := txDrops, arpReplies := p.arpReplies,
      udpReplies := 0, beacons := p.beacons)
  }

  function Handle(p: Proto, rx: Ring<RxMeta>, txDrops: Word32, ticks: Ticks): Handled
    requires RxRing(rx) && p.Shape()
  {
    if p.preparing || p.state == ProtoPrepareTx then Handled(p, rx, None)
    else if p.state == ProtoParseArp then ParseByte(p, rx)
    else if rx.ReadSlotValid() then Inspect(p, rx)
    else if ticks.gratuitousArp then Handled(p, rx, Some(GratuitousArpRequest()))
    else if ticks.beacon then Handled(p, rx, Some(BeaconNow(p, rx.dropCount, txDrops)))
    else Handled(p, rx, None)
  }

  // start_protocol_tx_request, and the beacon count kept by its caller.
  function StartRequest(p: Proto, tx: Ring<TxMeta>, request: Option<TxRequest>): (Proto, Ring<TxMeta>)
    requires TxRing(tx)
  {
    match request
    case None => (p, tx)
    case Some(r) =>
      if !tx.WriteSlotAvailable() then (p, tx.DropWrite())
      else
        var q := p.(preparing := true, request := r, prepareIndex := 0, prepareSlot := tx.writeIdx);
        (if r.kind == Beacon then q.(beacons := Inc32(p.beacons)) else q, tx)
  }

  // One byte of the body under construction.
  function Build(p: Proto, tx: Ring<TxMeta>): (Proto, Ring<TxMeta>)
    requires TxRing(tx) && p.Shape()
  {
    if !p.preparing then (p, tx)
    else
      var buffer := tx.bytes[p.prepareSlot][p.prepareIndex := FrameBodyByte(p.request, p.prepareIndex)];
      var stored := tx.Store(p.prepareSlot, buffer);
      if p.request.len == 0 || p.prepareIndex == p.request.len - 1 then
        (p.(preparing := false, request := p.request.(valid := false, kind := NoKind)),
         stored.Publish(TxMeta(p.request.len)))
      else
        (p.(prepareIndex := Inc11(p.prepareIndex)), stored)
  }

  function ProtocolStep(p: Proto, rx: Ring<RxMeta>, tx: Ring<TxMeta>): (Proto, Ring<RxMeta>, Ring<TxMeta>)
    requires RxRing(rx) && TxRing(tx) && p.Shape()
  {
    var (timers, ticks) := TimersStep(p.timers);
    var h := Handle(p.(timers := timers), rx, tx.dropCount, ticks);
    HandleShape(p.(timers := timers), rx, tx.dropCount, ticks);
    var (q, tx1) := StartRequest(h.p, tx, h.request);
    var (q', tx2) := Build(q, tx1);
    (q', h.rx, tx2)
  }

  lemma HandleShape(p: Proto, rx: Ring<RxMeta>, txDrops: Word32, ticks: Ticks)
    requires RxRing(rx) && p.Shape()
    ensures var h := Handle(p, rx, txDrops, ticks);
            && h.p.Shape() && RxRing(h.rx)
            && (h.request.Some? ==> !h.p.preparing && Proper(h.request.value))
  {
    hide ArpByte, ArpRegs.IsRequestForUs;
  }
}
