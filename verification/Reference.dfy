/** The endpoint without its registers: a reference model with its whole history.

  Received packets, transmission attempts and built bodies are sequences that only grow;
  the two rings are the unconsumed ends of two of them. There are no slots, indices, valid
  bits, partial headers or nibble phases. Module Endpoint proves that the endpoint follows
  this model cycle by cycle; what holds over every run is then proved about the model.
 */
module Reference {

  import opened Words
  import opened Mii
  import opened FrameParser
  import opened Arp
  import opened Framer
  import opened TxPayloads
  import opened Timers
  import opened Protocol
  import opened RxQueue
  import opened TxQueue

  datatype Arrival = Arrival(packet: Packet, time: nat)

  datatype Attempt = Attempt(request: TxRequest, kept: bool)

  datatype Built = Built(request: TxRequest, time: nat)

  datatype Mode = Waiting | Parsing(k: nat) | Building(request: TxRequest, k: nat)

  datatype Model = Model(
    now: nat,                // cycles since reset
    seen: Decoded,           // the receive line, read as frames
    shown: Decoded,          // the transmit line, read as frames
    drop: bool,              // the frame now arriving found the receive ring full
    rxDrops: nat,            // how many frames did
    arrived: seq<Arrival>,   // packets put into the receive ring
    handled: nat,            // how many of them were taken out again
    discarded: nat,          // how many of those called for no reply
    mode: Mode,
    attempts: seq<Attempt>,  // every request made, and whether there was a slot for it
    built: seq<Built>,       // frame bodies put into the transmit ring
    sent: nat,               // how many of them were sent and taken out again
    age: nat)                // cycles since the first of the others was started
  {
    function RxPending(): seq<Arrival>
      requires handled <= |arrived|
    {
      arrived[handled..]
    }

    function TxPending(): seq<Built>
      requires sent <= |built|
    {
      built[sent..]
    }

    // The entries of each history that are still in a ring.
    predicate Shape() {
      && handled <= |arrived| && |arrived| - handled <= 8
      && (seen.cur.Some? && !drop ==> |arrived| - handled < 8)
      && sent <= |built| && |built| - sent <= 4
      && (mode.Parsing? ==> handled < |arrived| && mode.k < 28
                            && Candidate(arrived[handled].packet))
      && (mode.Building? ==> Proper(mode.request) && mode.k < mode.request.len && |built| - sent < 4)
      && AllProper(built)
    }
  }

  predicate AllProper(built: seq<Built>) {
    forall i | 0 <= i < |built| :: Proper(built[i].request)
  }

  predicate Candidate(p: Packet) { IsCandidate(p.header, |p.payload|, p.truncated) }

  // ----- Counting attempts ----------------------------------------------------------

  function Replies(attempts: seq<Attempt>): (n: nat)
    ensures n <= |attempts|
  {
    if attempts == [] then 0
    else Replies(attempts[..|attempts| - 1]) +
         if attempts[|attempts| - 1].request.kind == ArpReply then 1 else 0
  }

  function Dropped(attempts: seq<Attempt>): (n: nat)
    ensures n <= |attempts|
  {
    if attempts == [] then 0
    else Dropped(attempts[..|attempts| - 1]) + if attempts[|attempts| - 1].kept then 0 else 1
  }

  function KeptBeacons(attempts: seq<Attempt>): (n: nat)
    ensures n <= |attempts|
  {
    if attempts == [] then 0
    else
      var last := attempts[|attempts| - 1];
      KeptBeacons(attempts[..|attempts| - 1]) + if last.kept && last.request.kind == Beacon then 1 else 0
  }

  lemma CountsAppend(attempts: seq<Attempt>, a: Attempt)
    ensures Replies(attempts + [a]) == Replies(attempts) + if a.request.kind == ArpReply then 1 else 0
    ensures Dropped(attempts + [a]) == Dropped(attempts) + if a.kept then 0 else 1
    ensures KeptBeacons(attempts + [a]) ==
      KeptBeacons(attempts) + if a.kept && a.request.kind == Beacon then 1 else 0
  {
    assert (attempts + [a])[..|attempts|] == attempts;
  }

  // ----- One cycle ------------------------------------------------------------------

  // The receive line. A frame that starts when the ring is full is dropped.
  function Receive(m: Model, x: Sample): Model
    requires m.Shape()
  {
    var starts := m.seen.cur.None? && x.dv;
    var full := |m.RxPending()| == 8;
    var p := PacketAt(m.seen, x);
    m.(seen := DecodeStep(m.seen, x),
       drop := if starts then full else if x.dv then m.drop else false,
       rxDrops := if starts && full then m.rxDrops + 1 else m.rxDrops,
       arrived := if p.Some? && !m.drop then m.arrived + [Arrival(p.value, m.now)] else m.arrived)
  }

  // What a candidate says, if it is a request for this endpoint: whom to answer.
  function Asks(p: Packet): Option<(Mac, Ip)> {
    var info := ParseArpIpv4Request(p.payload, 0, |p.payload|);
    if Candidate(p) && info.valid then Some((info.senderMac, info.senderIp)) else None
  }

  // A beacon that tells the history.
  function TruthfulBeacon(m: Model): TxRequest {
    BeaconRequest().(
      rxPackets := Count32(m.handled),
      rxQueueDrops := Count32(m.rxDrops),
      rxProtocolDrops := Count32(m.discarded),
      txDrops := Count32(Dropped(m.attempts)),
      arpReplies := Count32(Replies(m.attempts)),
      udpReplies := 0,
      beacons := Count32(KeptBeacons(m.attempts)))
  }

  datatype Served = Served(m: Model, request: Option<TxRequest>)

  // Packets first, then timers; nothing while a body is being built.
  function Serve(m: Model): Served
    requires m.Shape()
  {
    match m.mode
    case Building(_, _) => Served(m, None)
    case Parsing(k) =>
      if k + 1 < 28 then Served(m.(mode := Parsing(k + 1)), None)
      else
        var done := m.(mode := Waiting, handled := m.handled + 1);
        (match Asks(m.arrived[m.handled].packet)
         case Some((mac, ip)) => Served(done, Some(ArpReplyRequest(mac, ip)))
         case None => Served(done.(discarded := m.discarded + 1), None))
    case Waiting =>
      if m.handled < |m.arrived| then
        if Candidate(m.arrived[m.handled].packet) then Served(m.(mode := Parsing(0)), None)
        else Served(m.(handled := m.handled + 1, discarded := m.discarded + 1), None)
      else if TicksAt(m.now).gratuitousArp then Served(m, Some(GratuitousArpRequest()))
      else if TicksAt(m.now).beacon then Served(m, Some(TruthfulBeacon(m)))
      else Served(m, None)
  }

  // A request is kept if the transmit ring has a free slot, and dropped otherwise.
  function Start(m: Model, request: Option<TxRequest>): Model
    requires m.Shape()
  {
    match request
    case None => m
    case Some(r) =>
      var kept := |m.TxPending()| < 4;
      m.(attempts := m.attempts + [Attempt(r, kept)], mode := if kept then Building(r, 0) else m.mode)
  }

  function BuildByte(m: Model): Model {
    match m.mode
    case Building(r, k) =>
      if k + 1 == r.len then m.(built := m.built + [Built(r, m.now)], mode := Waiting)
      else m.(mode := Building(r, k + 1))
    case _ => m
  }

  // A body, padded to the minimum size of a frame.
  function Pad(body: seq<Byte>): (padded: seq<Byte>)
    ensures |padded| == if |body| < 60 then 60 else |body|
  {
    if |body| < 60 then body + seq(60 - |body|, _ => 0) else body
  }

  // The bytes of the frame that carries a request.
  function WireOf(r: TxRequest): seq<Byte>
    requires Proper(r)
  {
    Wire(Pad(FrameBody(r)))
  }

  // What the transmit line shows: nothing, or a nibble of the frame of the oldest body.
  function TxLine(m: Model): Sample
    requires m.Shape()
  {
    if m.sent == |m.built| then Sample(false, 0, false)
    else
      var w := WireOf(m.built[m.sent].request);
      if 1 <= m.age <= 2 * |w| then Sample(true, Nibbles(w)[m.age - 1], false) else Sample(false, 0, false)
  }

  function Transmit(m: Model): Model
    requires m.Shape()
  {
    var head := if m.sent == |m.built| then None else Some(m.built[m.sent].request.len);
    var age := NextAge(m.age, head);
    m.(shown := DecodeStep(m.shown, TxLine(m)),
       age := age,
       sent := if head.Some? && age == 0 then m.sent + 1 else m.sent,
       now := m.now + 1)
  }

  // The model after the protocol handler's part of a cycle.
  function Work(m: Model): Model
    requires m.Shape()
  {
    var s := Serve(m);
    ServeShape(m);
    BuildByte(Start(s.m, s.request))
  }

  function Step(m: Model, x: Sample): (m': Model)
    requires m.Shape()
    ensures m'.Shape()
  {
    ReceiveShape(m, x);
    WorkShape(Receive(m, x));
    Transmit(Work(Receive(m, x)))
  }

  const RESET := Model(0, Decoded([], None), Decoded([], None), false, 0, [], 0, 0, Waiting, [], [], 0, 0)

  // The model after a run from reset.
  function Run(xs: seq<Sample>): (m: Model)
    ensures m.Shape()
    decreases |xs|
  {
    if xs == [] then RESET else Step(Run(xs[..|xs| - 1]), xs[|xs| - 1])
  }

  lemma ReceiveShape(m: Model, x: Sample)
    requires m.Shape()
    ensures Receive(m, x).Shape()
  {
    hide ParseFrame;
  }

  lemma ServeShape(m: Model)
    requires m.Shape()
    ensures var s := Serve(m);
            && s.m.Shape()
            && (s.request.Some? ==> s.m.mode == Waiting && Proper(s.request.value))
  {
  }

  lemma WorkShape(m: Model)
    requires m.Shape()
    ensures Work(m).Shape()
  {
    var s := Serve(m);
    ServeShape(m);
    hide Serve, Candidate;
    var m1 := Start(s.m, s.request);
    assert m1.Shape();
  }

  // What serving may change.
  lemma ServeChanges(m: Model)
    requires m.Shape()
    ensures var s := Serve(m).m;
            && s == m.(mode := s.mode, handled := s.handled, discarded := s.discarded)
            && m.handled <= s.handled
  {
    hide Candidate, Asks, Proper, AllProper, TruthfulBeacon, TicksAt, ArpReplyRequest, GratuitousArpRequest;
  }

  // What the handler's part of a cycle may change.
  lemma WorkChanges(m: Model)
    requires m.Shape()
    ensures var w := Work(m);
            && w.Shape()
            && w == m.(mode := w.mode, handled := w.handled, discarded := w.discarded, attempts := w.attempts,
                       built := w.built)
            && m.handled <= w.handled && m.attempts <= w.attempts
            && (w.built == m.built || exists r :: w.built == m.built + [Built(r, m.now)])
  {
    ServeShape(m);
    ServeChanges(m);
    WorkShape(m);
    hide Serve, Model.Shape, Model.TxPending;
  }

  lemma RunNext(xs: seq<Sample>, x: Sample)
    ensures Run(xs + [x]) == Step(Run(xs), x)
  {
    hide Step, Model.Shape;
    assert (xs + [x])[..|xs|] == xs;
  }
}
