/** The endpoint: three steps a cycle, always in the same order.

  `EndpointStep` is what one clock cycle does to all registers. `Follows` relates them to
  the reference model, and `StepFollows` proves that one cycle of the endpoint is one cycle
  of the model, with the same nibble on the transmit line. `RunFollows` lifts this to every
  run from reset.
 */
module Endpoint {

  import opened Words
  import opened Mii
  import opened FrameParser
  import opened PacketQueue
  import opened RxQueue
  import opened Framer
  import opened TxQueue
  import opened Arp
  import opened TxPayloads
  import opened Timers
  import opened Protocol
  import R = Reference
  import C = Crc32

  datatype Endpoint = Endpoint(rx: RxSide, rxQueue: Ring<RxMeta>, proto: Proto, tx: TxSide,
                               txQueue: Ring<TxMeta>)
  {
    predicate Shape() {
      rx.Shape() && RxRing(rxQueue) && proto.Shape() && tx.Shape() && TxRing(txQueue)
    }
  }

  // The output pins.
  datatype Pins = Pins(line: Sample, frameToggle: bool, rxActive: bool, txActive: bool)

  function EndpointStep(e: Endpoint, x: Sample): (r: (Endpoint, Pins))
    requires e.Shape()
    ensures r.0.Shape()
  {
    var (rx, rxq1) := RxStep(e.rx, e.rxQueue, x);
    var (proto, rxq2, txq1) := ProtocolStep(e.proto, rxq1, e.txQueue);
    ProtocolShape(e.proto, rxq1, e.txQueue);
    var (tx, txq2, out) := TxStep(e.tx, txq1);
    (Endpoint(rx, rxq2, proto, tx, txq2), Pins(out.line, out.toggle, x.dv, out.active))
  }

  lemma BuildShape(p: Proto, tx: Ring<TxMeta>)
    requires TxRing(tx) && p.Shape()
    ensures var (q, t) := Build(p, tx); q.Shape() && TxRing(t)
  {
    hide FrameBodyByte;
  }

  lemma ProtocolShape(p: Proto, rx: Ring<RxMeta>, tx: Ring<TxMeta>)
    requires RxRing(rx) && TxRing(tx) && p.Shape()
    ensures var (q, r, t) := ProtocolStep(p, rx, tx); q.Shape() && RxRing(r) && TxRing(t)
  {
    var (timers, ticks) := TimersStep(p.timers);
    var h := Handle(p.(timers := timers), rx, tx.dropCount, ticks);
    HandleShape(p.(timers := timers), rx, tx.dropCount, ticks);
    hide Handle, Build, TimersStep;
    var (q, tx1) := StartRequest(h.p, tx, h.request);
    BuildShape(q, tx1);
  }

  // ----- The relation to the model --------------------------------------------------

  // The entries of the receive ring are these packets.
  ghost predicate RxEntries(es: seq<Entry<RxMeta>>, pending: seq<R.Arrival>) {
    |es| == |pending| && forall k | 0 <= k < |es| :: Carries(es[k], pending[k].packet)
  }

  ghost predicate RxPart(rx: RxSide, q: Ring<RxMeta>, m: R.Model)
    requires m.Shape()
  {
    var n := |m.RxPending()|;
    && RxRing(q) && q.Occupied(n)
    && RxEntries(q.Contents(n), m.RxPending())
    && RxFollows(rx, q, m.seen.cur)
    && rx.drop == m.drop
    && q.dropCount == Count32(m.rxDrops)
  }

  // `replies` counts a reply that has been requested but is not yet an attempt.
  ghost predicate CountersFollow(p: Proto, m: R.Model, replies: nat) {
    && p.rxPackets == Count32(m.handled + if m.mode.Parsing? then 1 else 0)
    && p.rxProtocolDrops == Count32(m.discarded)
    && p.arpReplies == Count32(R.Replies(m.attempts) + replies)
    && p.beacons == Count32(R.KeptBeacons(m.attempts))
  }

  ghost predicate ModeFollows(p: Proto, rx: Ring<RxMeta>, tx: Ring<TxMeta>, m: R.Model)
    requires m.Shape() && RxRing(rx) && TxRing(tx)
  {
    && p.Shape()
    && p.state == (if m.mode.Parsing? then ProtoParseArp else ProtoIdle)
    && p.preparing == m.mode.Building?
    && match m.mode
       case Waiting => true
       case Parsing(k) =>
         && p.parseSlot == rx.readIdx && p.parseIndex == k
         && p.regs == RegsAfter(m.arrived[m.handled].packet.payload, k)
       case Building(r, k) =>
         && p.request == r && p.prepareIndex == k && p.prepareSlot == tx.writeIdx
         && tx.bytes[tx.writeIdx][..k] == FrameBody(r)[..k]
  }

  // The entry of the transmit ring is the body of this request.
  ghost predicate Holds(e: Entry<TxMeta>, r: TxRequest) {
    && Proper(r)
    && e.meta.bodyLen == r.len <= |e.bytes|
    && e.bytes[..r.len] == FrameBody(r)
  }

  ghost predicate TxEntries(es: seq<Entry<TxMeta>>, pending: seq<R.Built>) {
    |es| == |pending| && forall k | 0 <= k < |es| :: Holds(es[k], pending[k].request)
  }

  ghost predicate TxPart(q: Ring<TxMeta>, m: R.Model)
    requires m.Shape()
  {
    var n := |m.TxPending()|;
    && TxRing(q) && q.Occupied(n)
    && TxEntries(q.Contents(n), m.TxPending())
    && q.dropCount == Count32(R.Dropped(m.attempts))
  }

  // Frames sent so far, modulo two, is the frame toggle before the current frame.
  predicate Toggle(m: R.Model) { m.sent % 2 == 1 }

  ghost predicate Follows(e: Endpoint, m: R.Model)
    requires m.Shape()
  {
    && RxPart(e.rx, e.rxQueue, m)
    && TxPart(e.txQueue, m)
    && e.proto.timers == TimersAt(m.now)
    && CountersFollow(e.proto, m, 0)
    && ModeFollows(e.proto, e.rxQueue, e.txQueue, m)
    && TxFollows(e.tx, e.txQueue, |m.TxPending()|, m.age, Toggle(m))
  }

  // ----- Receive --------------------------------------------------------------------

  lemma ActiveFollows(rx: RxSide, q: Ring<RxMeta>, m: R.Model, x: Sample)
    requires m.Shape() && RxPart(rx, q, m) && x.dv
    ensures R.Receive(m, x).Shape()
    ensures var (rx', q') := RxStep(rx, q, x);
            && RxPart(rx', q', R.Receive(m, x))
            && q'.readIdx == q.readIdx
  {
    R.ReceiveShape(m, x);
    var m' := R.Receive(m, x);
    hide RxFollows, ParseFrame, RxEntries, Ring<RxMeta>.Occupied, Ring<RxMeta>.Contents, DecodeStep;
    ActiveCycle(rx, q, |m.RxPending()|, m.seen, x);
    Count32Next(m.rxDrops);
    assert m'.RxPending() == m.RxPending();
    hide RxStep;
  }

  lemma QuietFollows(rx: RxSide, q: Ring<RxMeta>, m: R.Model, x: Sample)
    requires m.Shape() && RxPart(rx, q, m) && !x.dv && m.seen.cur.None?
    ensures R.Receive(m, x).Shape()
    ensures var (rx', q') := RxStep(rx, q, x);
            && RxPart(rx', q', R.Receive(m, x))
            && q'.readIdx == q.readIdx
  {
    R.ReceiveShape(m, x);
    hide RxFollows, RxStep, RxEntries;
    QuietCycle(rx, q, m.seen, x);
    assert R.Receive(m, x).RxPending() == m.RxPending();
  }

  lemma EndFollowsModel(rx: RxSide, q: Ring<RxMeta>, m: R.Model, x: Sample)
    requires m.Shape() && RxPart(rx, q, m) && !x.dv && m.seen.cur.Some?
    ensures R.Receive(m, x).Shape()
    ensures var (rx', q') := RxStep(rx, q, x);
            && RxPart(rx', q', R.Receive(m, x))
            && q'.readIdx == q.readIdx
  {
    hide RxFollows, RxStep, Carries, ParseFrame, Ring<RxMeta>.Occupied, Ring<RxMeta>.Contents, R.Candidate, Proper,
      R.AllProper;
    R.ReceiveShape(m, x);
    EndCycle(rx, q, |m.RxPending()|, m.seen, x);
    if Publishes(rx, m.seen, x) {
      assert R.Receive(m, x).RxPending() == m.RxPending() + [R.Arrival(PacketAt(m.seen, x).value, m.now)];
    } else {
      assert R.Receive(m, x).RxPending() == m.RxPending();
    }
  }

  lemma ReceiveFollows(rx: RxSide, q: Ring<RxMeta>, m: R.Model, x: Sample)
    requires m.Shape() && RxPart(rx, q, m)
    ensures R.Receive(m, x).Shape()
    ensures var (rx', q') := RxStep(rx, q, x);
            && RxPart(rx', q', R.Receive(m, x))
            && q'.readIdx == q.readIdx
  {
    hide *;
    if x.dv {
      ActiveFollows(rx, q, m, x);
    } else if m.seen.cur.None? {
      QuietFollows(rx, q, m, x);
    } else {
      EndFollowsModel(rx, q, m, x);
    }
  }

  // ----- Protocol handler: packets and ticks ----------------------------------------

  lemma ConsumeKeepsRx(rx: RxSide, q: Ring<RxMeta>, m: R.Model, m': R.Model)
    requires m.Shape() && RxPart(rx, q, m) && m.handled < |m.arrived|
    requires m'.Shape()
    requires m'.seen == m.seen && m'.drop == m.drop && m'.rxDrops == m.rxDrops && m'.arrived == m.arrived
    requires m'.handled == m.handled + 1
    ensures RxPart(rx, q.Consume(), m')
  {
    var n := |m.RxPending()|;
    ConsumeRemovesFirst(q, n, RX_SLOTS, MAX_PAYLOAD);
    var q' := q.Consume();
    assert RxFollows(rx, q', m.seen.cur) by {
      hide Ring<RxMeta>.Occupied, Ring<RxMeta>.Contents, ParserFollows, RxEntries;
    }
    hide RxFollows, Ring<RxMeta>.Occupied, Ring<RxMeta>.Contents, Ring<RxMeta>.Consume, Carries;
    assert m'.RxPending() == m.RxPending()[1..];
  }

  // The oldest packet, as its slot shows it.
  lemma HeadSlot(rx: RxSide, q: Ring<RxMeta>, m: R.Model)
    requires m.Shape() && RxPart(rx, q, m)
    ensures q.ReadSlotValid() <==> m.handled < |m.arrived|
    ensures m.handled < |m.arrived| ==>
      Carries(Entry(q.meta[q.readIdx], q.bytes[q.readIdx]), m.arrived[m.handled].packet)
  {
    var n := |m.RxPending()|;
    FullRingHasNoSlot(q, n, RX_SLOTS, MAX_PAYLOAD);
    if n > 0 {
      assert q.Contents(n)[0] == Entry(q.meta[q.readIdx], q.bytes[q.readIdx]);
      assert Carries(q.Contents(n)[0], m.RxPending()[0].packet);
    }
    hide RxFollows, Carries;
  }

  lemma CandidateSlot(rx: RxSide, q: Ring<RxMeta>, m: R.Model)
    requires m.Shape() && RxPart(rx, q, m) && m.handled < |m.arrived|
    ensures RxRing(q)
    ensures R.Candidate(m.arrived[m.handled].packet) ==
      IsCandidate(q.meta[q.readIdx].header, q.meta[q.readIdx].payloadLen, q.meta[q.readIdx].truncated)
  {
    hide IsCandidate, RxFollows, RxEntries, Ring<RxMeta>.Occupied, Ring<RxMeta>.Contents;
    HeadSlot(rx, q, m);
  }

  lemma RxPartMode(rx: RxSide, q: Ring<RxMeta>, m: R.Model, m': R.Model)
    requires m.Shape() && m'.Shape() && RxPart(rx, q, m)
    requires m' == m.(mode := m'.mode)
    ensures RxPart(rx, q, m')
  {
    hide RxFollows, RxEntries, Ring<RxMeta>.Occupied, Ring<RxMeta>.Contents, R.Candidate, Proper, R.AllProper;
    assert m'.RxPending() == m.RxPending();
  }

  ghost predicate Serves(h: Handled, s: R.Served, rx: RxSide, tx: Ring<TxMeta>)
    requires s.m.Shape() && TxRing(tx)
  {
    && h.request == s.request
    && RxPart(rx, h.rx, s.m)
    && CountersFollow(h.p, s.m, if s.request.Some? && s.request.value.kind == ArpReply then 1 else 0)
    && ModeFollows(h.p, h.rx, tx, s.m)
  }

  lemma InspectFollows(p: Proto, rx: RxSide, q: Ring<RxMeta>, tx: Ring<TxMeta>, m: R.Model)
    requires m.Shape() && RxPart(rx, q, m) && TxRing(tx)
    requires CountersFollow(p, m, 0) && ModeFollows(p, q, tx, m)
    requires m.mode.Waiting? && m.handled < |m.arrived|
    ensures R.Serve(m).m.Shape()
    ensures Serves(Inspect(p, q), R.Serve(m), rx, tx)
  {
    hide IsCandidate, Count32, Inc32, RxPart, Proper, R.AllProper, FrameBody;
    R.ServeShape(m);
    CandidateSlot(rx, q, m);
    Count32Next(m.handled);
    Count32Next(m.discarded);
    if !R.Candidate(m.arrived[m.handled].packet) {
      ConsumeKeepsRx(rx, q, m, R.Serve(m).m);
    } else {
      RxPartMode(rx, q, m, R.Serve(m).m);
    }
  }

  // The registers after this cycle's byte.
  lemma ParsedRegs(p: Proto, rx: RxSide, q: Ring<RxMeta>, tx: Ring<TxMeta>, m: R.Model)
    requires m.Shape() && RxPart(rx, q, m) && TxRing(tx)
    requires CountersFollow(p, m, 0) && ModeFollows(p, q, tx, m)
    requires m.mode.Parsing?
    ensures var payload := m.arrived[m.handled].packet.payload;
            && R.Candidate(m.arrived[m.handled].packet)
            && |payload| >= ARP_PAYLOAD_BYTES
            && ArpByte(p.regs, p.parseIndex, q.bytes[p.parseSlot][p.parseIndex])
               == RegsAfter(payload, m.mode.k + 1)
  {
    HeadSlot(rx, q, m);
    var payload := m.arrived[m.handled].packet.payload;
    assert q.bytes[q.readIdx][..|payload|][m.mode.k] == payload[m.mode.k];
    hide ArpByte, RxFollows, RxEntries, Ring<RxMeta>.Occupied, Ring<RxMeta>.Contents;
  }

  lemma ParseNextFollows(p: Proto, rx: RxSide, q: Ring<RxMeta>, tx: Ring<TxMeta>, m: R.Model)
    requires m.Shape() && RxPart(rx, q, m) && TxRing(tx)
    requires CountersFollow(p, m, 0) && ModeFollows(p, q, tx, m)
    requires m.mode.Parsing?
    requires m.mode.k + 1 < ARP_PAYLOAD_BYTES
    ensures R.Serve(m).m.Shape()
    ensures Serves(ParseByte(p, q), R.Serve(m), rx, tx)
  {
    hide ArpByte, RegsAfter, Carries, ArpRegs.IsRequestForUs, Count32, RxFollows, RxEntries, R.Candidate, Proper,
      R.AllProper, FrameBody, R.Asks, Ring<RxMeta>.Occupied, Ring<RxMeta>.Contents;
    R.ServeShape(m);
    ParsedRegs(p, rx, q, tx, m);
    assert R.Serve(m).m.RxPending() == m.RxPending();
  }

  // After the last byte the registers hold what the one-shot parser finds.
  lemma LastByteDecides(p: Proto, rx: RxSide, q: Ring<RxMeta>, tx: Ring<TxMeta>, m: R.Model)
    requires m.Shape() && RxPart(rx, q, m) && TxRing(tx)
    requires CountersFollow(p, m, 0) && ModeFollows(p, q, tx, m)
    requires m.mode.Parsing? && m.mode.k + 1 == ARP_PAYLOAD_BYTES
    ensures var regs := ArpByte(p.regs, p.parseIndex, q.bytes[p.parseSlot][p.parseIndex]);
            R.Asks(m.arrived[m.handled].packet) ==
              if regs.IsRequestForUs() then Some((regs.senderMac, regs.senderIp)) else None
  {
    hide RxPart, ArpByte, RegsAfter, ArpRegs.IsRequestForUs, Count32, ParseArpIpv4Request, R.Candidate, Proper,
      R.AllProper, FrameBody;
    ParsedRegs(p, rx, q, tx, m);
    SerialEqualsOneShot(m.arrived[m.handled].packet.payload);
  }

  lemma ParseLastFollows(p: Proto, rx: RxSide, q: Ring<RxMeta>, tx: Ring<TxMeta>, m: R.Model)
    requires m.Shape() && RxPart(rx, q, m) && TxRing(tx)
    requires CountersFollow(p, m, 0) && ModeFollows(p, q, tx, m)
    requires m.mode.Parsing?
    requires m.mode.k + 1 == ARP_PAYLOAD_BYTES
    ensures R.Serve(m).m.Shape()
    ensures Serves(ParseByte(p, q), R.Serve(m), rx, tx)
  {
    hide RxPart, ArpByte, RegsAfter, ArpRegs.IsRequestForUs, Count32, Inc32, ParseArpIpv4Request, R.Candidate,
      Proper, R.AllProper, FrameBody, R.Asks;
    R.ServeShape(m);
    ParsedRegs(p, rx, q, tx, m);
    LastByteDecides(p, rx, q, tx, m);
    Count32Next(m.discarded);
    Count32Next(R.Replies(m.attempts));
    ConsumeKeepsRx(rx, q, m, R.Serve(m).m);
  }

  lemma HandleFollows(p: Proto, rx: RxSide, q: Ring<RxMeta>, tx: Ring<TxMeta>, m: R.Model)
    requires m.Shape() && RxPart(rx, q, m) && TxPart(tx, m)
    requires CountersFollow(p, m, 0) && ModeFollows(p, q, tx, m)
    ensures R.Serve(m).m.Shape()
    ensures Serves(Handle(p, q, tx.dropCount, TicksAt(m.now)), R.Serve(m), rx, tx)
  {
    R.ServeShape(m);
    HeadSlot(rx, q, m);
    if m.mode.Parsing? {
      if m.mode.k + 1 < ARP_PAYLOAD_BYTES {
        ParseNextFollows(p, rx, q, tx, m);
      } else {
        ParseLastFollows(p, rx, q, tx, m);
      }
      hide Serves, ParseByte;
    } else if m.mode.Waiting? && m.handled < |m.arrived| {
      InspectFollows(p, rx, q, tx, m);
      hide Serves, Inspect;
    } else {
      BeaconIsTruthful(p, rx, q, tx, m);
      hide RxPart, BeaconNow, R.TruthfulBeacon, TicksAt, Count32, BeaconRequest, GratuitousArpRequest;
      assert R.Serve(m).m == m;
      assert BeaconNow(p, q.dropCount, tx.dropCount).kind == Beacon by { RequestKinds(p, q.dropCount, tx.dropCount); }
      RequestKinds(p, q.dropCount, tx.dropCount);
    }
  }

  lemma RequestKinds(p: Proto, rxDrops: Word32, txDrops: Word32)
    ensures BeaconNow(p, rxDrops, txDrops).kind == Beacon
    ensures GratuitousArpRequest().kind == GratuitousArp
  {
  }

  // The counters a beacon snapshots tell the history.
  lemma BeaconIsTruthful(p: Proto, rx: RxSide, q: Ring<RxMeta>, tx: Ring<TxMeta>, m: R.Model)
    requires m.Shape() && RxPart(rx, q, m) && TxPart(tx, m)
    requires CountersFollow(p, m, 0) && !m.mode.Parsing?
    ensures BeaconNow(p, q.dropCount, tx.dropCount) == R.TruthfulBeacon(m)
  {
    hide RxFollows, Count32, Ring<RxMeta>.Occupied, Ring<TxMeta>.Occupied, TxEntries, RxEntries;
  }

  // ----- Protocol handler: starting and building ------------------------------------

  // What the registers are after a request was started, or dropped, or not made.
  ghost predicate Starts(p': Proto, rx: RxSide, q: Ring<RxMeta>, tx: Ring<TxMeta>, tx': Ring<TxMeta>, m': R.Model)
    requires m'.Shape() && RxRing(q)
  {
    && RxPart(rx, q, m') && TxPart(tx', m')
    && CountersFollow(p', m', 0) && ModeFollows(p', q, tx', m')
    && tx'.bytes == tx.bytes && tx'.meta == tx.meta && tx'.readIdx == tx.readIdx
  }

  lemma StartModel(m: R.Model, r: TxRequest)
    requires m.Shape() && m.mode.Waiting? && Proper(r)
    ensures var m' := R.Start(m, Some(r));
            var a := R.Attempt(r, |m.TxPending()| < TX_SLOTS);
            && m'.Shape() && m'.attempts == m.attempts + [a]
            && m' == m.(attempts := m'.attempts, mode := m'.mode)
            && m'.TxPending() == m.TxPending() && m'.RxPending() == m.RxPending()
            && R.Replies(m'.attempts) == R.Replies(m.attempts) + (if r.kind == ArpReply then 1 else 0)
            && R.Dropped(m'.attempts) == R.Dropped(m.attempts) + (if a.kept then 0 else 1)
            && R.KeptBeacons(m'.attempts) == R.KeptBeacons(m.attempts) + if a.kept && r.kind == Beacon then 1 else 0
  {
    hide Proper, R.AllProper, R.Candidate, R.Replies, R.Dropped, R.KeptBeacons;
    ProperLength(r);
    R.CountsAppend(m.attempts, R.Attempt(r, |m.TxPending()| < TX_SLOTS));
  }

  // The receive side does not see what the handler starts.
  lemma StartKeepsRx(rx: RxSide, q: Ring<RxMeta>, m: R.Model, m': R.Model)
    requires m.Shape() && m'.Shape() && RxPart(rx, q, m)
    requires m' == m.(attempts := m'.attempts, mode := m'.mode)
    ensures RxPart(rx, q, m')
  {
    hide RxFollows, RxEntries, Ring<RxMeta>.Occupied, Ring<RxMeta>.Contents, R.Candidate, Proper, R.AllProper;
    assert m'.RxPending() == m.RxPending();
  }

  lemma DropFollows(p: Proto, rx: RxSide, q: Ring<RxMeta>, tx: Ring<TxMeta>, m: R.Model, r: TxRequest)
    requires m.Shape() && RxPart(rx, q, m) && TxPart(tx, m) && ModeFollows(p, q, tx, m)
    requires m.mode.Waiting? && Proper(r) && |m.TxPending()| == TX_SLOTS
    requires CountersFollow(p, m, if r.kind == ArpReply then 1 else 0)
    ensures var (p', tx') := StartRequest(p, tx, Some(r));
            var m' := R.Start(m, Some(r));
            m'.Shape() && Starts(p', rx, q, tx, tx', m')
  {
    hide RxPart, TxEntries, Proper, R.AllProper, FrameBody, Ring<TxMeta>.Occupied, Ring<TxMeta>.Contents, Inc32,
      Count32, R.Replies, R.Dropped, R.KeptBeacons, RegsAfter;
    StartModel(m, r);
    FullRingHasNoSlot(tx, TX_SLOTS, TX_SLOTS, FRAME_BODY_BYTES);
    DropKeepsContents(tx, TX_SLOTS, TX_SLOTS, FRAME_BODY_BYTES);
    Count32Next(R.Dropped(m.attempts));
    StartKeepsRx(rx, q, m, R.Start(m, Some(r)));
  }

  lemma KeepFollows(p: Proto, rx: RxSide, q: Ring<RxMeta>, tx: Ring<TxMeta>, m: R.Model, r: TxRequest)
    requires m.Shape() && RxPart(rx, q, m) && TxPart(tx, m) && ModeFollows(p, q, tx, m)
    requires m.mode.Waiting? && Proper(r) && |m.TxPending()| < TX_SLOTS
    requires CountersFollow(p, m, if r.kind == ArpReply then 1 else 0)
    ensures var (p', tx') := StartRequest(p, tx, Some(r));
            var m' := R.Start(m, Some(r));
            m'.Shape() && Starts(p', rx, q, tx, tx', m')
  {
    hide RxPart, TxEntries, Proper, R.AllProper, FrameBody, Ring<TxMeta>.Occupied, Ring<TxMeta>.Contents, Inc32,
      Count32, R.Replies, R.Dropped, R.KeptBeacons, RegsAfter;
    StartModel(m, r);
    FullRingHasNoSlot(tx, |m.TxPending()|, TX_SLOTS, FRAME_BODY_BYTES);
    ProperLength(r);
    Count32Next(R.KeptBeacons(m.attempts));
    StartKeepsRx(rx, q, m, R.Start(m, Some(r)));
  }

  lemma StartFollows(p: Proto, rx: RxSide, q: Ring<RxMeta>, tx: Ring<TxMeta>, m: R.Model, request: Option<TxRequest>)
    requires m.Shape() && RxPart(rx, q, m) && TxPart(tx, m) && ModeFollows(p, q, tx, m)
    requires request.Some? ==> m.mode.Waiting? && Proper(request.value)
    requires CountersFollow(p, m, if request.Some? && request.value.kind == ArpReply then 1 else 0)
    ensures var (p', tx') := StartRequest(p, tx, request);
            var m' := R.Start(m, request);
            m'.Shape() && Starts(p', rx, q, tx, tx', m')
  {
    hide RxPart, TxPart, CountersFollow, ModeFollows, Proper, R.AllProper, R.Candidate;
    if request.Some? {
      hide StartRequest, R.Start, Starts;
      if |m.TxPending()| < TX_SLOTS {
        KeepFollows(p, rx, q, tx, m, request.value);
      } else {
        DropFollows(p, rx, q, tx, m, request.value);
      }
    }
  }

  lemma PrefixGrows(buffer: seq<Byte>, body: seq<Byte>, k: nat, b: Byte)
    requires k < |buffer| && k < |body| && buffer[..k] == body[..k] && b == body[k]
    ensures buffer[k := b][..k + 1] == body[..k + 1]
  {
    assert buffer[k := b][..k + 1] == buffer[..k] + [b];
  }

  // Storing one more byte of the body in the free slot.
  lemma BuildStores(p: Proto, q: Ring<RxMeta>, tx: Ring<TxMeta>, m: R.Model) returns (stored: Ring<TxMeta>)
    requires m.Shape() && TxPart(tx, m) && RxRing(q) && ModeFollows(p, q, tx, m) && m.mode.Building?
    ensures TxPart(stored, m)
    ensures stored.readIdx == tx.readIdx && stored.writeIdx == tx.writeIdx && stored.WriteSlotAvailable()
    ensures stored.Contents(|m.TxPending()|) == tx.Contents(|m.TxPending()|)
    ensures stored.bytes[tx.writeIdx][..m.mode.k + 1] == FrameBody(m.mode.request)[..m.mode.k + 1]
    ensures var r, k := m.mode.request, m.mode.k;
            Build(p, tx) ==
              if k + 1 == r.len then
                (p.(preparing := false, request := r.(valid := false, kind := NoKind)), stored.Publish(TxMeta(r.len)))
              else
                (p.(prepareIndex := k + 1), stored)
  {
    hide FrameBody, FrameBodyByte, TxEntries, Proper, Ring<TxMeta>.Occupied, Ring<TxMeta>.Contents,
      Ring<TxMeta>.Publish, R.Candidate, RegsAfter;
    var n := |m.TxPending()|;
    var r, k := m.mode.request, m.mode.k;
    ProperLength(r);
    var before := tx.bytes[tx.writeIdx];
    var buffer := before[k := FrameBodyByte(r, k)];
    FrameBodyByteIsBody(r, k);
    PrefixGrows(before, FrameBody(r), k, FrameBodyByte(r, k));
    StoreKeepsContents(tx, n, TX_SLOTS, FRAME_BODY_BYTES, buffer);
    stored := tx.Store(tx.writeIdx, buffer);
  }

  lemma BodyHolds(buffer: seq<Byte>, r: TxRequest)
    requires Proper(r) && r.len <= |buffer| && buffer[..r.len] == FrameBody(r)[..r.len]
    ensures Holds(Entry(TxMeta(r.len), buffer), r)
  {
    hide FrameBody, Proper;
    assert FrameBody(r)[..r.len] == FrameBody(r);
  }

  lemma BuildLast(stored: Ring<TxMeta>, m: R.Model, m': R.Model)
    requires m.Shape() && TxPart(stored, m) && m.mode.Building? && m.mode.k + 1 == m.mode.request.len
    requires stored.bytes[stored.writeIdx][..m.mode.request.len] == FrameBody(m.mode.request)[..m.mode.request.len]
    requires m' == R.BuildByte(m) && m'.Shape()
    ensures var tx' := stored.Publish(TxMeta(m.mode.request.len));
            && TxPart(tx', m')
            && tx'.readIdx == stored.readIdx
            && tx'.Contents(|m'.TxPending()|)[..|m.TxPending()|] == stored.Contents(|m.TxPending()|)
  {
    hide Holds, FrameBody, Ring<TxMeta>.Occupied, Ring<TxMeta>.Contents, Ring<TxMeta>.Publish, Proper, R.Candidate;
    var n := |m.TxPending()|;
    var r := m.mode.request;
    var tx' := stored.Publish(TxMeta(r.len));
    PublishAppends(stored, n, TX_SLOTS, FRAME_BODY_BYTES, TxMeta(r.len));
    ProperLength(r);
    BodyHolds(stored.bytes[stored.writeIdx], r);
    assert m'.TxPending() == m.TxPending() + [R.Built(r, m.now)];
  }

  // The oldest entry, which may be on the wire, is not touched.
  ghost predicate SameHead(tx: Ring<TxMeta>, tx': Ring<TxMeta>, n: nat)
    requires TxRing(tx) && TxRing(tx')
  {
    tx'.readIdx == tx.readIdx
    && (n > 0 ==> tx'.bytes[tx.readIdx] == tx.bytes[tx.readIdx] && tx'.meta[tx.readIdx] == tx.meta[tx.readIdx])
  }

  lemma SameContentsSameHead(tx: Ring<TxMeta>, tx': Ring<TxMeta>, n: nat, n': nat)
    requires TxRing(tx) && TxRing(tx') && tx.Occupied(n) && tx'.Occupied(n') && n <= n'
    requires tx'.readIdx == tx.readIdx && tx'.Contents(n')[..n] == tx.Contents(n)
    ensures SameHead(tx, tx', n)
  {
    if n > 0 {
      assert tx'.Contents(n')[..n][0] == tx.Contents(n)[0];
      assert tx.Contents(n)[0] == Entry(tx.meta[tx.readIdx], tx.bytes[tx.readIdx]);
      assert tx'.Contents(n')[0] == Entry(tx'.meta[tx.readIdx], tx'.bytes[tx.readIdx]);
    }
  }

  ghost predicate BuildsOn(p': Proto, q: Ring<RxMeta>, rx: RxSide, tx: Ring<TxMeta>, tx': Ring<TxMeta>, m: R.Model)
    requires m.Shape() && R.BuildByte(m).Shape() && TxRing(tx) && RxRing(q)
  {
    var m' := R.BuildByte(m);
    && RxPart(rx, q, m') && TxPart(tx', m')
    && CountersFollow(p', m', 0) && ModeFollows(p', q, tx', m')
    && SameHead(tx, tx', |m.TxPending()|)
  }

  lemma BuildNextFollows(p: Proto, rx: RxSide, q: Ring<RxMeta>, tx: Ring<TxMeta>, m: R.Model)
    requires m.Shape() && RxPart(rx, q, m) && TxPart(tx, m) && ModeFollows(p, q, tx, m)
    requires CountersFollow(p, m, 0) && m.mode.Building? && m.mode.k + 1 < m.mode.request.len
    ensures R.BuildByte(m).Shape()
    ensures var (p', tx') := Build(p, tx); BuildsOn(p', q, rx, tx, tx', m)
  {
    hide RxFollows, Count32, FrameBody, Build, RxEntries, TxEntries, Proper, Ring<RxMeta>.Occupied,
      Ring<RxMeta>.Contents, Ring<TxMeta>.Occupied, Ring<TxMeta>.Contents, SameHead, R.Candidate;
    var n := |m.TxPending()|;
    var stored := BuildStores(p, q, tx, m);
    var m' := R.BuildByte(m);
    assert m'.RxPending() == m.RxPending() && m'.TxPending() == m.TxPending();
    SameContentsSameHead(tx, stored, n, n);
  }

  lemma BuildLastFollows(p: Proto, rx: RxSide, q: Ring<RxMeta>, tx: Ring<TxMeta>, m: R.Model)
    requires m.Shape() && RxPart(rx, q, m) && TxPart(tx, m) && ModeFollows(p, q, tx, m)
    requires CountersFollow(p, m, 0) && m.mode.Building? && m.mode.k + 1 == m.mode.request.len
    ensures R.BuildByte(m).Shape()
    ensures var (p', tx') := Build(p, tx); BuildsOn(p', q, rx, tx, tx', m)
  {
    hide RxFollows, Count32, FrameBody, Build, RxEntries, TxEntries, Proper, Ring<RxMeta>.Occupied,
      Ring<RxMeta>.Contents, Ring<TxMeta>.Occupied, Ring<TxMeta>.Contents, SameHead, Ring<TxMeta>.Publish,
      R.Candidate;
    var n := |m.TxPending()|;
    var stored := BuildStores(p, q, tx, m);
    var m' := R.BuildByte(m);
    BuildLast(stored, m, m');
    assert m'.RxPending() == m.RxPending();
    SameContentsSameHead(tx, stored.Publish(TxMeta(m.mode.request.len)), n, n + 1);
  }

  lemma BuildFollows(p: Proto, rx: RxSide, q: Ring<RxMeta>, tx: Ring<TxMeta>, m: R.Model)
    requires m.Shape() && RxPart(rx, q, m) && TxPart(tx, m) && ModeFollows(p, q, tx, m)
    requires CountersFollow(p, m, 0)
    ensures R.BuildByte(m).Shape()
    ensures var (p', tx') := Build(p, tx); BuildsOn(p', q, rx, tx, tx', m)
  {
    if !m.mode.Building? {
      hide RxPart, TxPart;
    } else {
      hide *;
      if m.mode.k + 1 < m.mode.request.len {
        BuildNextFollows(p, rx, q, tx, m);
      } else {
        BuildLastFollows(p, rx, q, tx, m);
      }
    }
  }

  // ----- Transmit -------------------------------------------------------------------

  lemma PaddedBody(e: Entry<TxMeta>, r: TxRequest)
    requires Holds(e, r) && |e.bytes| == FRAME_BODY_BYTES
    ensures Padded(e.bytes, r.len) == R.Pad(FrameBody(r))
  {
    var body := FrameBody(r);
    assert forall i | 0 <= i < r.len :: e.bytes[i] == e.bytes[..r.len][i];
    hide FrameBody;
  }

  // The line of the model is the line of the ring's oldest entry.
  lemma LineFollows(q: Ring<TxMeta>, m: R.Model)
    requires m.Shape() && TxPart(q, m)
    ensures Line(q, |m.TxPending()|, m.age) == R.TxLine(m)
    ensures HeadLen(q, |m.TxPending()|) ==
      if m.sent == |m.built| then None else Some(m.built[m.sent].request.len)
  {
    hide Padded, FrameBody, Wire, Nibbles, Ring<TxMeta>.Occupied, Proper, R.Candidate;
    var n := |m.TxPending()|;
    if n > 0 {
      var e := q.Contents(n)[0];
      assert e == Entry(q.meta[q.readIdx], q.bytes[q.readIdx]);
      PaddedBody(e, m.built[m.sent].request);
    }
  }

  lemma TransmitShape(m: R.Model)
    requires m.Shape()
    ensures R.Transmit(m).Shape()
  {
    hide R.TxLine, Duration, R.Candidate, Proper, R.AllProper;
  }

  lemma EntriesTail(es: seq<Entry<TxMeta>>, pending: seq<R.Built>)
    requires TxEntries(es, pending) && es != []
    ensures TxEntries(es[1..], pending[1..])
  {
    hide Holds;
  }

  lemma TransmitModel(m: R.Model)
    requires m.Shape()
    ensures var head := if m.sent == |m.built| then None else Some(m.built[m.sent].request.len);
            var m' := R.Transmit(m);
            var done := |m.TxPending()| > 0 && m'.age == 0;
            && m'.Shape()
            && m'.age == NextAge(m.age, head)
            && m'.sent == (if done then m.sent + 1 else m.sent)
            && m'.TxPending() == (if done then m.TxPending()[1..] else m.TxPending())
            && m'.attempts == m.attempts
            && Toggle(m') == (if done then !Toggle(m) else Toggle(m))
  {
    hide R.TxLine, NextAge, R.Candidate, Proper, R.AllProper;
    TransmitShape(m);
    var m' := R.Transmit(m);
    assert m'.built == m.built && m'.attempts == m.attempts;
    if m'.sent == m.sent + 1 {
      assert m.built[m.sent..][1..] == m.built[m.sent + 1..];
    }
  }

  lemma TransmitFollows(tx: TxSide, q: Ring<TxMeta>, m: R.Model)
    requires m.Shape() && TxPart(q, m) && TxFollows(tx, q, |m.TxPending()|, m.age, Toggle(m))
    ensures R.Transmit(m).Shape()
    ensures var (tx', q', out) := TxStep(tx, q);
            var m' := R.Transmit(m);
            && TxPart(q', m')
            && TxFollows(tx', q', |m'.TxPending()|, m'.age, Toggle(m'))
            && out.line == R.TxLine(m) && out.active == out.line.dv
            && q'.writeIdx == q.writeIdx && q'.bytes == q.bytes
  {
    var n := |m.TxPending()|;
    var m' := R.Transmit(m);
    TransmitModel(m);
    TxStepSends(tx, q, n, m.age, Toggle(m));
    LineFollows(q, m);
    if n > 0 {
      EntriesTail(q.Contents(n), m.TxPending());
    }
    hide TxStep, TxFollows, Line, R.TxLine, HeadLen, NextAge, TxEntries, R.Transmit, R.Model.Shape, Toggle,
      Ring<TxMeta>.Occupied, Ring<TxMeta>.Contents;
  }

  // ----- One cycle and every run ----------------------------------------------------

  lemma TxFollowsSameHead(t: TxSide, q: Ring<TxMeta>, q': Ring<TxMeta>, n: nat, n': nat, age: nat, toggle: bool)
    requires TxRing(q) && TxRing(q') && q.Occupied(n) && q'.Occupied(n') && n <= n'
    requires SameHead(q, q', n) && TxFollows(t, q, n, age, toggle)
    ensures TxFollows(t, q', n', age, toggle)
  {
    hide Sending, Ring<TxMeta>.Occupied;
  }

  // Nothing in the handler but the timer step changes the timers.
  lemma TimersKept(p: Proto, q: Ring<RxMeta>, tx: Ring<TxMeta>, txDrops: Word32, ticks: Ticks,
                   request: Option<TxRequest>)
    requires RxRing(q) && TxRing(tx) && p.Shape()
    ensures Handle(p, q, txDrops, ticks).p.timers == p.timers
    ensures StartRequest(p, tx, request).0.timers == p.timers
    ensures Build(p, tx).0.timers == p.timers
  {
    hide ArpByte, ArpRegs.IsRequestForUs, FrameBodyByte, Proper, IsCandidate;
  }

  // What serving and building leave alone.
  lemma WorkLeaves(m: R.Model)
    requires m.Shape()
    ensures var s := R.Serve(m);
            && s.m.Shape() && R.Start(s.m, s.request).Shape() && R.Work(m).Shape()
            && s.m.TxPending() == m.TxPending()
            && R.Start(s.m, s.request).TxPending() == m.TxPending()
            && |R.Work(m).TxPending()| >= |m.TxPending()|
            && R.Work(m).age == m.age && R.Work(m).sent == m.sent && R.Work(m).seen == m.seen
            && R.Work(m).now == m.now && R.Work(m).shown == m.shown
            && R.Work(m) == R.BuildByte(R.Start(s.m, s.request))
  {
    R.ServeShape(m);
    R.ServeChanges(m);
    R.WorkShape(m);
    R.WorkChanges(m);
    hide R.Serve, R.Candidate, Proper, R.AllProper;
  }

  // The protocol handler's part of a cycle.
  ghost predicate Works(p': Proto, q': Ring<RxMeta>, tx: Ring<TxMeta>, tx': Ring<TxMeta>, rx: RxSide, m: R.Model)
    requires m.Shape() && R.Work(m).Shape() && TxRing(tx)
  {
    var m' := R.Work(m);
    && RxPart(rx, q', m') && TxPart(tx', m')
    && p'.timers == TimersAt(m.now + 1) && CountersFollow(p', m', 0) && ModeFollows(p', q', tx', m')
    && SameHead(tx, tx', |m.TxPending()|)
  }

  lemma ProtocolPhases(p: Proto, q: Ring<RxMeta>, tx: Ring<TxMeta>, now: nat)
    requires RxRing(q) && TxRing(tx) && p.Shape() && p.timers == TimersAt(now)
    ensures var p0 := p.(timers := TimersAt(now + 1));
            var h := Handle(p0, q, tx.dropCount, TicksAt(now));
            && p0.Shape() && h.p.Shape()
            && var (p1, tx1) := StartRequest(h.p, tx, h.request);
               && p1.Shape() && TxRing(tx1)
               && var (p2, tx2) := Build(p1, tx1);
                  && ProtocolStep(p, q, tx) == (p2, h.rx, tx2)
                  && p2.timers == TimersAt(now + 1)
  {
    var p0 := p.(timers := TimersAt(now + 1));
    TimersKeepTime(now);
    var h := Handle(p0, q, tx.dropCount, TicksAt(now));
    HandleShape(p0, q, tx.dropCount, TicksAt(now));
    hide Handle, Build, TimersStep, Proper, TimersAt, TicksAt;
    TimersKept(p0, q, tx, tx.dropCount, TicksAt(now), None);
    var (p1, tx1) := StartRequest(h.p, tx, h.request);
    TimersKept(h.p, q, tx, tx.dropCount, TicksAt(now), h.request);
    TimersKept(p1, q, tx1, tx.dropCount, TicksAt(now), None);
  }

  lemma ServeKeepsTx(tx: Ring<TxMeta>, m: R.Model)
    requires m.Shape() && TxPart(tx, m)
    ensures R.Serve(m).m.Shape() && TxPart(tx, R.Serve(m).m)
  {
    hide Ring<TxMeta>.Occupied, Ring<TxMeta>.Contents, TxEntries, R.Candidate, R.Asks, TicksAt,
      R.TruthfulBeacon, GratuitousArpRequest, ArpReplyRequest, Proper, R.AllProper;
    R.ServeShape(m);
  }

  lemma Retimed(p: Proto, q: Ring<RxMeta>, tx: Ring<TxMeta>, m: R.Model, timers: Timers)
    requires m.Shape() && RxRing(q) && TxRing(tx) && p.Shape()
    requires CountersFollow(p, m, 0) && ModeFollows(p, q, tx, m)
    ensures var p0 := p.(timers := timers);
            p0.Shape() && CountersFollow(p0, m, 0) && ModeFollows(p0, q, tx, m)
  {
    hide R.Model.Shape, Proper, FrameBody, RegsAfter, Count32;
  }

  lemma WorkFollows(p: Proto, rx: RxSide, q: Ring<RxMeta>, tx: Ring<TxMeta>, m: R.Model)
    requires m.Shape() && RxPart(rx, q, m) && TxPart(tx, m) && RxRing(q) && TxRing(tx) && p.Shape()
    requires p.timers == TimersAt(m.now) && CountersFollow(p, m, 0) && ModeFollows(p, q, tx, m)
    ensures R.Work(m).Shape()
    ensures var (p', q', tx') := ProtocolStep(p, q, tx); Works(p', q', tx, tx', rx, m)
  {
    hide RxPart, TxPart, CountersFollow, ModeFollows, Handle, StartRequest, Build, ProtocolStep, TimersAt, TicksAt,
      R.Serve, R.Start, R.BuildByte, R.Work, R.Model.Shape, Proto.Shape, R.Model.TxPending, Ring<TxMeta>.Shape,
      Ring<RxMeta>.Shape;
    var p0 := p.(timers := TimersAt(m.now + 1));
    Retimed(p, q, tx, m, TimersAt(m.now + 1));
    R.ServeShape(m);
    WorkLeaves(m);
    ProtocolPhases(p, q, tx, m.now);
    HandleFollows(p0, rx, q, tx, m);
    var h, s := Handle(p0, q, tx.dropCount, TicksAt(m.now)), R.Serve(m);
    ServeKeepsTx(tx, m);
    StartFollows(h.p, rx, h.rx, tx, s.m, s.request);
    var (p1, tx1) := StartRequest(h.p, tx, h.request);
    BuildFollows(p1, rx, h.rx, tx1, R.Start(s.m, s.request));
  }

  // Receiving touches nothing that the handler and the transmit side follow.
  lemma ReceiveLeaves(m: R.Model, x: Sample)
    requires m.Shape()
    ensures var m1 := R.Receive(m, x);
            && m1.Shape()
            && m1 == m.(seen := m1.seen, drop := m1.drop, rxDrops := m1.rxDrops, arrived := m1.arrived)
            && m.arrived <= m1.arrived
  {
    R.ReceiveShape(m, x);
    hide DecodeStep, PacketAt, R.Model.Shape;
  }

  lemma ReceiveKeeps(p: Proto, q: Ring<RxMeta>, q': Ring<RxMeta>, tx: Ring<TxMeta>, m: R.Model, x: Sample)
    requires m.Shape() && RxRing(q) && RxRing(q') && TxPart(tx, m) && q'.readIdx == q.readIdx
    requires CountersFollow(p, m, 0) && ModeFollows(p, q, tx, m)
    ensures var m1 := R.Receive(m, x);
            && m1.Shape() && TxPart(tx, m1) && CountersFollow(p, m1, 0) && ModeFollows(p, q', tx, m1)
            && m1.TxPending() == m.TxPending() && m1.age == m.age && m1.sent == m.sent
            && m1.now == m.now && m1.shown == m.shown
  {
    hide R.Receive, Ring<TxMeta>.Occupied, Ring<TxMeta>.Contents, TxEntries, R.Candidate, Proto.Shape,
      RegsAfter, FrameBody, Count32, Proper, R.AllProper;
    ReceiveLeaves(m, x);
    var m1 := R.Receive(m, x);
    if m.mode.Parsing? {
      assert m1.arrived[m.handled] == m.arrived[m.handled];
    }
  }

  // Transmitting touches nothing that the receive side and the handler follow.
  lemma TransmitKeeps(p: Proto, rx: RxSide, q: Ring<RxMeta>, tx: Ring<TxMeta>, tx': Ring<TxMeta>, m: R.Model)
    requires m.Shape() && RxPart(rx, q, m) && TxRing(tx) && TxRing(tx')
    requires tx'.writeIdx == tx.writeIdx && tx'.bytes == tx.bytes
    requires CountersFollow(p, m, 0) && ModeFollows(p, q, tx, m)
    ensures var m' := R.Transmit(m);
            && m'.Shape() && RxPart(rx, q, m') && CountersFollow(p, m', 0) && ModeFollows(p, q, tx', m')
            && m'.now == m.now + 1 && m'.shown == DecodeStep(m.shown, R.TxLine(m))
  {
    TransmitShape(m);
    hide Ring<RxMeta>.Occupied, Ring<RxMeta>.Contents, RxEntries, RxFollows, R.Candidate, DecodeStep, R.TxLine,
      NextAge, Proto.Shape, RegsAfter, FrameBody, Count32;
    assert R.Transmit(m).RxPending() == m.RxPending();
  }

  // The data pins are low whenever enable is.
  predicate AtRest(line: Sample) { !line.dv ==> line == Sample(false, 0, false) }

  lemma ModelAtRest(m: R.Model)
    requires m.Shape()
    ensures AtRest(R.TxLine(m))
  {
    hide Proper, R.AllProper, R.Candidate, R.WireOf, Nibbles;
  }

  ghost predicate StepsTo(e': Endpoint, pins: Pins, m: R.Model, x: Sample)
    requires m.Shape()
  {
    var m' := R.Step(m, x);
    && Follows(e', m')
    && m'.shown == DecodeStep(m.shown, pins.line) && AtRest(pins.line)
    && pins.txActive == pins.line.dv && pins.rxActive == x.dv
  }

  // The registers between the handler and the transmit side.
  ghost predicate FollowsAfterWork(e: Endpoint, m: R.Model)
    requires m.Shape()
  {
    && RxPart(e.rx, e.rxQueue, m)
    && TxPart(e.txQueue, m)
    && e.proto.timers == TimersAt(m.now + 1)
    && CountersFollow(e.proto, m, 0)
    && ModeFollows(e.proto, e.rxQueue, e.txQueue, m)
    && TxFollows(e.tx, e.txQueue, |m.TxPending()|, m.age, Toggle(m))
  }

  function FirstHalf(e: Endpoint, x: Sample): (e': Endpoint)
    requires e.Shape()
    ensures e'.Shape()
  {
    var (rx, rxq1) := RxStep(e.rx, e.rxQueue, x);
    var (proto, rxq2, txq1) := ProtocolStep(e.proto, rxq1, e.txQueue);
    ProtocolShape(e.proto, rxq1, e.txQueue);
    Endpoint(rx, rxq2, proto, e.tx, txq1)
  }

  lemma TxPartFacts(q: Ring<TxMeta>, m: R.Model)
    requires m.Shape() && TxPart(q, m)
    ensures m.sent <= |m.built| && TxRing(q) && q.Occupied(|m.TxPending()|)
  {
    hide R.AllProper, Holds;
  }

  lemma FirstHalfFollows(e: Endpoint, m: R.Model, x: Sample)
    requires m.Shape() && Follows(e, m) && e.Shape()
    ensures R.Receive(m, x).Shape() && R.Work(R.Receive(m, x)).Shape()
    ensures FollowsAfterWork(FirstHalf(e, x), R.Work(R.Receive(m, x)))
    ensures R.Work(R.Receive(m, x)).shown == m.shown
  {
    hide RxPart, TxPart, CountersFollow, ModeFollows, TxFollows, RxStep, ProtocolStep, TimersAt,
      R.Receive, R.Work, R.Model.Shape, Proto.Shape, R.Model.TxPending, Ring<TxMeta>.Shape,
      Ring<RxMeta>.Shape, SameHead, Ring<TxMeta>.Occupied;
    var (rx, rxq1) := RxStep(e.rx, e.rxQueue, x);
    var m1 := R.Receive(m, x);
    ReceiveFollows(e.rx, e.rxQueue, m, x);
    ReceiveKeeps(e.proto, e.rxQueue, rxq1, e.txQueue, m, x);
    WorkFollows(e.proto, rx, rxq1, e.txQueue, m1);
    WorkLeaves(m1);
    var (proto, rxq2, txq1) := ProtocolStep(e.proto, rxq1, e.txQueue);
    var m2 := R.Work(m1);
    TxPartFacts(e.txQueue, m1);
    TxPartFacts(txq1, m2);
    TxFollowsSameHead(e.tx, e.txQueue, txq1, |m1.TxPending()|, |m2.TxPending()|, m.age, Toggle(m));
  }

  lemma SecondHalfFollows(e: Endpoint, m: R.Model)
    requires m.Shape() && e.Shape() && FollowsAfterWork(e, m)
    ensures var (tx, txq, out) := TxStep(e.tx, e.txQueue);
            var m' := R.Transmit(m);
            && m'.Shape() && Follows(e.(tx := tx, txQueue := txq), m')
            && m'.shown == DecodeStep(m.shown, out.line)
            && out.active == out.line.dv && AtRest(out.line)
  {
    hide RxPart, TxPart, CountersFollow, ModeFollows, TxFollows, TxStep, TimersAt, R.Transmit, R.Model.Shape,
      Proto.Shape, R.Model.TxPending, Ring<TxMeta>.Shape, Ring<RxMeta>.Shape, Toggle, DecodeStep, R.TxLine,
      Ring<TxMeta>.Occupied, AtRest;
    ModelAtRest(m);
    TransmitFollows(e.tx, e.txQueue, m);
    var (tx, txq, out) := TxStep(e.tx, e.txQueue);
    TransmitKeeps(e.proto, e.rx, e.rxQueue, e.txQueue, txq, m);
  }

  // One cycle of the endpoint is one cycle of the model.
  lemma StepFollows(e: Endpoint, m: R.Model, x: Sample)
    requires m.Shape() && Follows(e, m) && e.Shape()
    ensures var (e', pins) := EndpointStep(e, x); StepsTo(e', pins, m, x)
  {
    hide Follows, FollowsAfterWork, RxStep, ProtocolStep, TxStep, R.Receive, R.Work, R.Transmit, R.Model.Shape,
      DecodeStep, AtRest;
    FirstHalfFollows(e, m, x);
    SecondHalfFollows(FirstHalf(e, x), R.Work(R.Receive(m, x)));
  }

  // ----- Every run ------------------------------------------------------------------

  const RESET_REQUEST := TxRequest(false, Header(ZERO_MAC, FPGA_MAC, ARP_ETHERTYPE), 0, NoKind,
                                   ZERO_MAC, ZERO_IP, 0, 0, 0, 0, 0, 0, 0)

  const RESET_RX := RxSide(Assembler(false, false, 0), Parser(true, 0, 0, false, NO_HEADER, [0, 0, 0, 0], 0, 0, false),
                           false, Blank(MAX_PAYLOAD))

  const RESET_PROTO := Proto(ProtoIdle, false, RESET_REQUEST, 0, 0, 0, 0, 0, 0, 0, 0, NO_REGS, Timers(0, 0))

  const RESET_TX := TxSide(Framer(Idle, false, 0, 0, 0, C.INIT, 0, 0, 0, false), false, 0)

  function Reset(): (e: Endpoint)
    ensures e.Shape()
  {
    Endpoint(RESET_RX, EmptyRing(RX_SLOTS, MAX_PAYLOAD, RxMeta(NO_HEADER, 0, false)), RESET_PROTO, RESET_TX,
             EmptyRing(TX_SLOTS, FRAME_BODY_BYTES, TxMeta(0)))
  }

  // The registers after a run from reset.
  function Run(xs: seq<Sample>): (e: Endpoint)
    ensures e.Shape()
    decreases |xs|
  {
    if xs == [] then Reset() else EndpointStep(Run(xs[..|xs| - 1]), xs[|xs| - 1]).0
  }

  // The pins in the last cycle of a run.
  function LastPins(xs: seq<Sample>): Pins
    requires xs != []
  {
    EndpointStep(Run(xs[..|xs| - 1]), xs[|xs| - 1]).1
  }

  // The transmit line over a run.
  function TxLines(xs: seq<Sample>): (ys: seq<Sample>)
    ensures |ys| == |xs|
    decreases |xs|
  {
    if xs == [] then [] else TxLines(xs[..|xs| - 1]) + [LastPins(xs).line]
  }

  lemma ResetRx()
    ensures RxPart(RESET_RX, Reset().rxQueue, R.RESET)
  {
    var q := Reset().rxQueue;
    assert q.Contents(0) == [] && R.RESET.RxPending() == [];
    hide Ring<RxMeta>.Occupied, Ring<RxMeta>.Contents;
  }

  lemma ResetTx()
    ensures TxPart(Reset().txQueue, R.RESET)
    ensures TxFollows(RESET_TX, Reset().txQueue, 0, 0, false)
  {
    var q := Reset().txQueue;
    assert q.Contents(0) == [] && R.RESET.TxPending() == [];
    hide Ring<TxMeta>.Occupied, Ring<TxMeta>.Contents;
  }

  lemma ResetModelShape()
    ensures R.RESET.Shape()
  {
  }

  lemma ResetMode(q: Ring<RxMeta>, tx: Ring<TxMeta>)
    requires RxRing(q) && TxRing(tx)
    requires R.RESET.Shape()
    ensures CountersFollow(RESET_PROTO, R.RESET, 0) && ModeFollows(RESET_PROTO, q, tx, R.RESET)
    ensures RESET_PROTO.timers == TimersAt(0)
  {
    hide Proper, FrameBody, RegsAfter, RESET_REQUEST, NO_REGS, R.Model.Shape;
  }

  lemma ResetFollows()
    ensures Follows(Reset(), R.RESET)
  {
    hide RxPart, TxPart, TxFollows, EmptyRing, Proper, R.AllProper, FrameBody, ModeFollows, CountersFollow;
    ResetModelShape();
    ResetRx();
    ResetTx();
    ResetMode(Reset().rxQueue, Reset().txQueue);
  }

  // Every run of the endpoint is the run of the model, and puts the model's frames on the wire.
  lemma {:induction false} RunFollows(xs: seq<Sample>)
    ensures Follows(Run(xs), R.Run(xs))
    ensures R.Run(xs).now == |xs|
    ensures R.Run(xs).seen == Decode(xs)
    ensures R.Run(xs).shown == Decode(TxLines(xs))
    decreases |xs|
  {
    hide Follows, EndpointStep, R.Step, DecodeStep, Reset, R.Model.Shape;
    if xs == [] {
      ResetFollows();
    } else {
      var init, x := xs[..|xs| - 1], xs[|xs| - 1];
      RunFollows(init);
      StepFollows(Run(init), R.Run(init), x);
      StepClock(R.Run(init), x);
      var ys := TxLines(xs);
      assert ys[..|ys| - 1] == TxLines(init);
    }
  }

  // What the model records of the two lines is what is on them.
  lemma RunReads(xs: seq<Sample>)
    ensures R.Run(xs).now == |xs|
    ensures R.Run(xs).seen == Decode(xs)
    ensures R.Run(xs).shown == Decode(TxLines(xs))
  {
    hide Follows, R.Run, Run, Decode, TxLines;
    RunFollows(xs);
  }

  // While the transmit line is not enabled its data pins are zero.
  lemma {:induction false} LineAtRest(xs: seq<Sample>, i: nat)
    requires i < |xs|
    ensures !TxLines(xs)[i].dv ==> TxLines(xs)[i] == Sample(false, 0, false)
    decreases |xs|
  {
    hide Follows, EndpointStep, R.Run, Run, R.Step, DecodeStep, R.Model.Shape;
    var init, x := xs[..|xs| - 1], xs[|xs| - 1];
    if i < |init| {
      LineAtRest(init, i);
    } else {
      RunFollows(init);
      StepFollows(Run(init), R.Run(init), x);
    }
  }

  lemma StepClock(m: R.Model, x: Sample)
    requires m.Shape()
    ensures R.Step(m, x).now == m.now + 1 && R.Step(m, x).seen == DecodeStep(m.seen, x)
  {
    ReceiveLeaves(m, x);
    WorkLeaves(R.Receive(m, x));
    hide R.Work, R.TxLine, DecodeStep;
  }
}
