/** Two inputs on which the announcement that is due after five seconds is not sent.

  In the first a packet arrives in the very cycle of the tick. In the second the handler is
  idle in that cycle, but four replies are waiting to be sent: the line has been full of
  requests for a while. The frames of both are valid requests as a conforming sender sends
  them. `Serving` gives every register of interest at any time while the replies are made.
 */
module LostTicks {

  import opened Words
  import opened Mii
  import opened FrameParser
  import opened RxQueue
  import opened Framer
  import opened TxPayloads
  import opened Timers
  import opened Reference
  import opened Traffic
  import opened Ticks
  import opened OnLine
  import S = Schedule
  import T = Timing
  import N = EndToEnd
  import E = Endpoint
  import G = Guarantees

  const FIVE_SECONDS: nat := 125000000

  // However the run goes on for the next five seconds, the announcement is not on the line,
  // unless somebody asks for it by calling itself by this endpoint's address.
  ghost predicate NotAnnounced(xs: seq<Sample>) {
    forall zs: seq<Sample> | |zs| < FIVE_SECONDS && !AskedBySelf(xs + zs) ::
      AnnouncementFrame() !in Decode(E.TxLines(xs + zs)).done
  }

  predicate AskedBySelf(xs: seq<Sample>) { SELF in N.Askers(N.PacketsOf(Decode(xs).done)) }

  lemma NoTick(n: nat)
    requires n + 1 < 2 * FIVE_SECONDS && n + 1 != FIVE_SECONDS
    ensures TickKind(n) != GratuitousArp
  {
  }

  lemma FirstTick()
    ensures TickKind(FIVE_SECONDS - 1) == GratuitousArp
  {
  }

  // Only the tick after five seconds can be served in the first ten.
  lemma {:induction false} ServedOnce(xs: seq<Sample>)
    requires |xs| < 2 * FIVE_SECONDS
    requires |xs| >= FIVE_SECONDS ==>
      !CanServe(E.Run(xs[..FIVE_SECONDS - 1]), xs[FIVE_SECONDS - 1])
    ensures TicksServed(xs, GratuitousArp) == 0
    decreases |xs|
  {
    hide TickKind, CanServe, E.Run;
    if xs != [] {
      var init := xs[..|xs| - 1];
      if |xs| == FIVE_SECONDS {
        assert init == xs[..FIVE_SECONDS - 1];
      } else {
        NoTick(|init|);
        if |xs| > FIVE_SECONDS {
          assert init[..FIVE_SECONDS - 1] == xs[..FIVE_SECONDS - 1];
        }
      }
      ServedOnce(init);
    }
  }

  // If the tick cannot be served there is no announcement.
  lemma LostTickIsNotAnnounced(xs: seq<Sample>, x: Sample)
    requires |xs| == FIVE_SECONDS - 1 && !CanServe(E.Run(xs), x)
    ensures NotAnnounced(xs + [x])
  {
    hide CanServe, E.Run, E.TxLines, Decode, AnnouncementFrame, TicksServed, N.Askers, N.PacketsOf;
    forall zs: seq<Sample> | |zs| < FIVE_SECONDS && !AskedBySelf(xs + [x] + zs)
      ensures AnnouncementFrame() !in Decode(E.TxLines(xs + [x] + zs)).done
    {
      var all := xs + [x] + zs;
      assert all[..FIVE_SECONDS - 1] == xs && all[FIVE_SECONDS - 1] == x;
      ServedOnce(all);
      NoTickNoAnnouncement(all);
    }
  }

  // ----- A packet in the cycle of the tick ------------------------------------------

  // One request, the frame of which ends when the announcement is due.
  const SILENCE: nat := FIVE_SECONDS - PERIOD

  lemma PacketOfPeriod(i: nat, u: nat)
    requires u < PERIOD
    ensures PacketAt(Heard(i, u), PeriodSample(u)) == if u + 1 == PERIOD then Some(RequestPacket()) else None
  {
    hide RequestNibbles, ParseFrame, RequestPacket, Frames;
    RequestParses();
    var ns := RequestNibbles();
    assert u + 1 == PERIOD ==> ns[..u - LEAD] == ns;
  }

  lemma BusyInTickCycle()
    ensures var xs := FullLoad(SILENCE, 1, FIVE_SECONDS - 1);
            !CanServe(E.Run(xs), TrafficAt(1, PERIOD - 1))
  {
    hide Run, E.Run, Model.Shape, E.Follows, E.Endpoint.Shape, HandlerIdle, Decode, E.TxLines, FullLoad, Heard,
      PeriodSample, RequestPacket, PacketAt;
    var xs := FullLoad(SILENCE, 1, FIVE_SECONDS - 1);
    var m, x := Run(xs), TrafficAt(1, PERIOD - 1);
    E.RunFollows(xs);
    E.RunReads(xs);
    DecodeTraffic(SILENCE, 1, FIVE_SECONDS - 1);
    PacketOfPeriod(0, PERIOD - 1);
    T.ReceiveRingNeverFull(xs);
    ArrivalIsNotIdle(m, x);
    IdleRegisters(E.Run(xs), m, x);
  }

  lemma ArrivalIsNotIdle(m: Model, x: Sample)
    requires m.Shape() && !m.drop && PacketAt(m.seen, x).Some?
    ensures Receive(m, x).Shape() && !S.Idle(Receive(m, x))
  {
    hide ParseFrame, Proper, AllProper, Candidate, DecodeStep;
    ReceiveShape(m, x);
  }

  // The documentation promises an announcement every five seconds. When a frame ends in the
  // cycle of the tick, none is sent for ten, whatever follows, unless it is asked for.
  lemma AnnouncementCanBeLost()
    ensures |FullLoad(SILENCE, 1, FIVE_SECONDS)| == FIVE_SECONDS && TickKind(FIVE_SECONDS - 1) == GratuitousArp
    ensures NotAnnounced(FullLoad(SILENCE, 1, FIVE_SECONDS))
  {
    hide NotAnnounced, CanServe, E.Run, FullLoad, TrafficAt;
    FirstTick();
    BusyInTickCycle();
    TrafficNext(SILENCE, 1, FIVE_SECONDS - 1);
    LostTickIsNotAnnounced(FullLoad(SILENCE, 1, FIVE_SECONDS - 1), TrafficAt(1, PERIOD - 1));
  }

  // ----- Replies to a full line -----------------------------------------------------

  function Reply(): TxRequest { ArpReplyRequest(ASKER_MAC, ASKER_IP) }

  // What has become of the first i requests, u cycles after the last of them arrived: it is
  // inspected at once, read for 28 cycles and answered in 42, the first of which is the last
  // reading cycle.
  function HandledAt(i: nat, u: nat): nat { if i > 0 && u < 28 then i - 1 else i }

  function BuiltAt(i: nat, u: nat): nat { if i > 0 && u < 69 then i - 1 else i }

  function ModeAt(i: nat, u: nat): Mode {
    if i == 0 || u >= 69 then Waiting else if u < 28 then Parsing(u) else Building(Reply(), u - 27)
  }

  ghost predicate AllRequestPackets(arrived: seq<Arrival>) {
    forall j | 0 <= j < |arrived| :: arrived[j].packet == RequestPacket()
  }

  ghost predicate RepliesFrom(built: seq<Built>, b: nat) {
    forall j | b <= j < |built| :: built[j].request == Reply()
  }

  // The transmit side has been sending without a break since the first reply was built.
  // b bodies had been sent before.
  ghost predicate SendingAt(m: Model, b: nat, i: nat, u: nat) {
    if BuiltAt(i, u) == 0 then m.sent == b && m.age == 0
    else b <= m.sent && m.age < 169 && PERIOD * i + u == 236 + 169 * (m.sent - b) + m.age
  }

  ghost predicate Serving(m: Model, b: nat, i: nat, u: nat)
    requires m.Shape()
  {
    && !m.drop && u < PERIOD
    && |m.arrived| == i && AllRequestPackets(m.arrived)
    && m.handled == HandledAt(i, u) && m.mode == ModeAt(i, u)
    && |m.built| == b + BuiltAt(i, u) && RepliesFrom(m.built, b)
    && SendingAt(m, b, i, u)
  }

  lemma ReplyFacts()
    ensures Proper(Reply()) && Reply().len == 42 && Duration(Reply().len) == 169
  {
  }

  // The model between receiving and transmitting.
  ghost predicate ServesOn(w: Model, m: Model, i: nat, u: nat)
    requires w.Shape()
  {
    && w.now == m.now && w.sent == m.sent && w.age == m.age && !w.drop
    && w.arrived == m.arrived
    && w.handled == HandledAt(i, u) && w.mode == ModeAt(i, u)
    && (w.built == m.built || (BuiltAt(i, u) == i && w.built == m.built + [Built(Reply(), m.now)]))
  }

  // The handler's part of a cycle, after the packet that has just arrived was received.
  lemma LooksAtPacket(m: Model, i: nat)
    requires m.Shape() && m.mode.Waiting? && m.handled == i && |m.arrived| == i + 1 && !m.drop
    requires AllRequestPackets(m.arrived)
    ensures Work(m).Shape() && ServesOn(Work(m), m, i + 1, 0) && Work(m).built == m.built
  {
    hide Proper, AllProper, RequestPacket, Reply, Candidate;
    RequestAsks();
    WorkShape(m);
  }

  lemma ReadsOn(m: Model, i: nat, u: nat)
    requires m.Shape() && i > 0 && u < 27 && m.mode == Parsing(u) && m.handled == i - 1 && !m.drop
    ensures Work(m).Shape() && ServesOn(Work(m), m, i, u + 1) && Work(m).built == m.built
  {
    hide Proper, AllProper, Candidate, Reply;
    WorkShape(m);
  }

  lemma Answers(m: Model, i: nat)
    requires m.Shape() && i > 0 && m.mode == Parsing(27) && m.handled == i - 1 && |m.arrived| == i && !m.drop
    requires AllRequestPackets(m.arrived) && |m.TxPending()| < 4
    ensures Work(m).Shape() && ServesOn(Work(m), m, i, 28) && Work(m).built == m.built
  {
    hide Proper, AllProper, Candidate, RequestPacket, Asks;
    RequestAsks();
    WorkShape(m);
    ReplyFacts();
  }

  lemma BuildsOn(m: Model, i: nat, u: nat)
    requires m.Shape() && i > 0 && 28 <= u < 69 && m.mode == Building(Reply(), u - 27) && m.handled == i && !m.drop
    ensures Work(m).Shape() && ServesOn(Work(m), m, i, u + 1)
    ensures Work(m).built == if u == 68 then m.built + [Built(Reply(), m.now)] else m.built
  {
    hide Proper, AllProper, Candidate;
    WorkShape(m);
    ReplyFacts();
  }

  lemma Rests(m: Model, i: nat, u: nat)
    requires m.Shape() && m.mode.Waiting? && m.handled == |m.arrived| == i && !m.drop
    requires i == 0 || 69 <= u
    requires TickKind(m.now) == NoKind
    ensures Work(m).Shape() && ServesOn(Work(m), m, i, u + 1) && Work(m).built == m.built
  {
    hide Proper, AllProper, Candidate, Reply, TicksAt;
    WorkShape(m);
    AnnouncementIsBeaconTick(m.now);
  }

  // Fewer than four replies wait when one more is called for.
  lemma RoomForReply(m: Model, b: nat, i: nat)
    requires m.Shape() && Serving(m, b, i, 27) && 0 < i <= 400
    ensures |m.TxPending()| < 4
  {
    hide Proper, AllProper, Candidate, Reply, RequestPacket;
  }

  // The model after receiving.
  lemma ReceiveServes(m: Model, x: Sample, b: nat, i: nat, u: nat)
    requires m.Shape() && Serving(m, b, i, u) && T.OnTime(m)
    requires PacketAt(m.seen, x).Some? ==> PacketAt(m.seen, x) == Some(RequestPacket())
    ensures var m1 := Receive(m, x);
            && m1.Shape() && !m1.drop && AllRequestPackets(m1.arrived)
            && m1 == m.(seen := m1.seen, drop := m1.drop, rxDrops := m1.rxDrops, arrived := m1.arrived)
            && |m1.arrived| == if PacketAt(m.seen, x).Some? then i + 1 else i
  {
    hide Proper, AllProper, Candidate, RequestPacket, Reply, PacketAt, DecodeStep, T.OnTime, T.Bounded;
    E.ReceiveLeaves(m, x);
    T.ReceiveOnTime(m, x);
  }

  // The place in the schedule one cycle later.
  function Next(i: nat, u: nat, arrives: bool): (nat, nat) { if arrives then (i + 1, 0) else (i, u + 1) }

  lemma WorkServes(m: Model, m1: Model, b: nat, i: nat, u: nat, arrives: bool)
    requires m.Shape() && Serving(m, b, i, u) && i <= 400 && (arrives ==> u + 1 == PERIOD)
    requires m1.Shape() && !m1.drop && AllRequestPackets(m1.arrived)
    requires m1 == m.(seen := m1.seen, drop := m1.drop, rxDrops := m1.rxDrops, arrived := m1.arrived)
    requires |m1.arrived| == (if arrives then i + 1 else i)
    requires TickKind(m.now) == NoKind
    ensures var (i', u') := Next(i, u, arrives);
            && Work(m1).Shape() && ServesOn(Work(m1), m1, i', u')
            && Work(m1).built == if i > 0 && u == 68 then m.built + [Built(Reply(), m.now)] else m.built
  {
    hide Work, Proper, AllProper, Candidate, RequestPacket, Reply, TickKind, ServesOn, AllRequestPackets, RepliesFrom,
      SendingAt;
    if arrives {
      LooksAtPacket(m1, i);
    } else if i == 0 || u >= 69 {
      Rests(m1, i, u);
    } else if u < 27 {
      ReadsOn(m1, i, u);
    } else if u == 27 {
      RoomForReply(m, b, i);
      Answers(m1, i);
    } else {
      BuildsOn(m1, i, u);
    }
  }

  // While there is something to send, the line is not idle.
  lemma AlwaysMore(m: Model, w: Model, b: nat, i: nat, u: nat)
    requires m.Shape() && Serving(m, b, i, u) && BuiltAt(i, u) > 0
    requires |w.built| == b + (if u == 68 then i else BuiltAt(i, u)) && w.sent == m.sent
    ensures b <= w.sent < |w.built|
  {
    hide Proper, AllProper, Candidate, Reply, RequestPacket;
  }

  lemma TransmitServes(m: Model, m1: Model, w: Model, b: nat, i: nat, u: nat, arrives: bool)
    requires m.Shape() && Serving(m, b, i, u) && (if arrives then u + 1 == PERIOD else u + 1 < PERIOD)
    requires m1 == m.(seen := m1.seen, drop := m1.drop, rxDrops := m1.rxDrops, arrived := m1.arrived)
    requires var (i', u') := Next(i, u, arrives); w.Shape() && ServesOn(w, m1, i', u')
    requires w.built == if i > 0 && u == 68 then m.built + [Built(Reply(), m.now)] else m.built
    ensures var (i', u') := Next(i, u, arrives);
            var m' := Transmit(w);
            && m'.Shape() && m'.handled == HandledAt(i', u') && m'.mode == ModeAt(i', u')
            && m'.arrived == w.arrived && m'.drop == w.drop
            && |m'.built| == b + BuiltAt(i', u') && RepliesFrom(m'.built, b) && SendingAt(m', b, i', u')
  {
    hide Proper, AllProper, Candidate, Reply, RequestPacket, AllRequestPackets, Duration, TxLine, DecodeStep;
    ReplyFacts();
    N.TransmitMoves(w);
    if BuiltAt(i, u) > 0 {
      AlwaysMore(m, w, b, i, u);
      assert w.built[w.sent].request == Reply();
    } else if w.sent < |w.built| {
      assert w.built[w.sent].request == Reply();
    }
  }

  lemma StepServes(m: Model, x: Sample, b: nat, i: nat, u: nat)
    requires m.Shape() && Serving(m, b, i, u) && T.OnTime(m) && i <= 400 && TickKind(m.now) == NoKind
    requires PacketAt(m.seen, x) == if u + 1 == PERIOD then Some(RequestPacket()) else None
    ensures var (i', u') := Next(i, u, u + 1 == PERIOD); Serving(Step(m, x), b, i', u')
  {
    hide Receive, Work, Transmit, Model.Shape, T.OnTime, PacketAt, TickKind, RequestPacket, Reply, AllRequestPackets,
      RepliesFrom, SendingAt, ModeAt, HandledAt, BuiltAt;
    var arrives := u + 1 == PERIOD;
    ReceiveServes(m, x, b, i, u);
    var m1 := Receive(m, x);
    WorkServes(m, m1, b, i, u, arrives);
    TransmitServes(m, m1, Work(m1), b, i, u, arrives);
  }

  // ----- A full ring in the cycle of the tick ---------------------------------------

  const REQUESTS: nat := 400

  // The tick comes when the last reply has just been built.
  const LOADED := PERIOD * REQUESTS + 69

  const SILENCE_BEFORE: nat := FIVE_SECONDS - 1 - LOADED

  // The first c cycles of the requests, after the silence.
  function Loaded(c: nat): (xs: seq<Sample>)
    ensures |xs| == SILENCE_BEFORE + c
  {
    FullLoad(SILENCE_BEFORE, REQUESTS, SILENCE_BEFORE + c)
  }

  // The bodies that were built in the silence.
  function BuiltBefore(): nat { |Run(Loaded(0)).built| }

  lemma NoTickYet(c: nat)
    requires c < LOADED
    ensures TickKind(SILENCE_BEFORE + c) == NoKind
  {
  }

  lemma LoadedNext(c: nat)
    ensures Loaded(c + 1) == Loaded(c) + [TrafficAt(REQUESTS, c)]
    ensures Decode(Loaded(c)) == HeardAt(SILENCE_BEFORE, REQUESTS, SILENCE_BEFORE + c)
  {
    hide FullLoad, TrafficAt, HeardAt, Decode;
    TrafficNext(SILENCE_BEFORE, REQUESTS, SILENCE_BEFORE + c);
    DecodeTraffic(SILENCE_BEFORE, REQUESTS, SILENCE_BEFORE + c);
  }

  lemma QuietPacket()
    ensures PacketAt(Heard(REQUESTS, 0), SILENT) == None
  {
  }

  // The packet of cycle c.
  lemma LoadedPacket(c: nat)
    requires c < LOADED
    ensures PacketAt(Decode(Loaded(c)), TrafficAt(REQUESTS, c))
         == if c % PERIOD + 1 == PERIOD then Some(RequestPacket()) else None
    ensures c / PERIOD <= REQUESTS
  {
    hide Heard, PeriodSample, RequestPacket, PacketAt, Decode, Loaded;
    LoadedNext(c);
    PacketOfPeriod(c / PERIOD, c % PERIOD);
    QuietPacket();
    NothingYet();
  }

  lemma NothingYet()
    ensures HeardAt(SILENCE_BEFORE, REQUESTS, SILENCE_BEFORE) == Heard(0, 0)
    ensures Heard(0, 0) == Decoded([], None)
  {
  }

  lemma ServingAtFirst()
    ensures Serving(Run(Loaded(0)), BuiltBefore(), 0, 0)
  {
    hide Run, E.TxLines, Model.Shape, Decode, FullLoad, T.OnTime, T.TxOnTime;
    var xs := Loaded(0);
    var q, p := 4, 24932730;
    LoadedNext(0);
    NothingYet();
    N.NoFramesNoPackets();
    S.RunQuiet(xs);
    T.RunTxOnTime(xs);
    T.ReceiveRingNeverFull(xs);
    S.IdleAtTick(Run(xs), q, p);
    T.NothingStarted(Run(xs));
  }

  lemma {:induction false} RunServes(c: nat)
    requires c <= LOADED
    ensures Serving(Run(Loaded(c)), BuiltBefore(), c / PERIOD, c % PERIOD)
    decreases c
  {
    hide Run, E.TxLines, Decode, Step, Model.Shape, Serving, T.OnTime, PacketAt, TickKind, Loaded, BuiltBefore,
      RequestPacket, TrafficAt;
    if c == 0 {
      ServingAtFirst();
    } else {
      var xs, x := Loaded(c - 1), TrafficAt(REQUESTS, c - 1);
      RunServes(c - 1);
      T.RunOnTime(xs);
      E.RunReads(xs);
      NoTickYet(c - 1);
      LoadedPacket(c - 1);
      StepServes(Run(xs), x, BuiltBefore(), (c - 1) / PERIOD, (c - 1) % PERIOD);
      LoadedNext(c - 1);
      RunNext(xs, x);
      Periods(c - 1, REQUESTS + 1);
    }
  }

  lemma FullAndIdle(m: Model, b: nat)
    requires m.Shape() && Serving(m, b, REQUESTS, 69) && PacketAt(m.seen, SILENT) == None
    ensures Receive(m, SILENT).Shape() && S.Idle(Receive(m, SILENT))
    ensures |m.TxPending()| == 4
  {
    hide Proper, AllProper, Candidate, Reply, RequestPacket, PacketAt, DecodeStep;
    ReceiveShape(m, SILENT);
  }

  // The documentation promises an announcement every five seconds. When the line has been
  // full of requests for a while, none is sent for ten unless it is asked for, although the
  // handler is idle when the announcement is due.
  lemma AnnouncementCanBeDropped()
    ensures |Loaded(LOADED) + [SILENT]| == FIVE_SECONDS && TickKind(FIVE_SECONDS - 1) == GratuitousArp
    ensures HandlerIdle(E.Run(Loaded(LOADED)), SILENT)
    ensures NotAnnounced(Loaded(LOADED) + [SILENT])
  {
    hide Run, E.Run, E.TxLines, Decode, Model.Shape, E.Follows, E.Endpoint.Shape, Serving, HandlerIdle, PacketAt,
      NotAnnounced, Loaded, BuiltBefore, Heard, S.Idle;
    var xs := Loaded(LOADED);
    var m := Run(xs);
    FirstTick();
    RunServes(LOADED);
    E.RunFollows(xs);
    E.RunReads(xs);
    LoadedNext(LOADED);
    QuietPacket();
    FullAndIdle(m, BuiltBefore());
    IdleRegisters(E.Run(xs), m, SILENT);
    G.FreeSlot(E.Run(xs), m);
    LostTickIsNotAnnounced(xs, SILENT);
  }
}
