/** Which ticks of the timers lead to a frame.

  A tick is served if in that very cycle the handler is idle and the transmit ring has a free
  slot, and is lost otherwise. `TickIsKept` says so of a single cycle in terms of the
  registers and `TicksAreKept` of whole runs: as many announcements and beacons are kept as
  ticks were served. Module OnLine says what this means for the transmit line, and module
  LostTicks gives two inputs on which a tick is lost, one for either reason.
 */
module Ticks {

  import opened Mii
  import opened RxQueue
  import opened TxQueue
  import opened TxPayloads
  import opened Timers
  import opened Protocol
  import opened Reference
  import S = Schedule
  import N = EndToEnd
  import E = Endpoint
  import G = Guarantees

  // The kind of request that is due in cycle n.
  function TickKind(n: nat): TxKind {
    var ticks := TicksAt(n);
    if ticks.gratuitousArp then GratuitousArp else if ticks.beacon then Beacon else NoKind
  }

  // After what is received in this cycle, the handler has nothing in work and nothing to
  // look at.
  predicate HandlerIdle(e: E.Endpoint, x: Sample)
    requires e.Shape()
  {
    var (_, q) := RxStep(e.rx, e.rxQueue, x);
    !e.proto.preparing && e.proto.state == ProtoIdle && !q.ReadSlotValid()
  }

  // The tick of this cycle, if there is one of this kind, can be served.
  predicate CanServe(e: E.Endpoint, x: Sample)
    requires e.Shape()
  {
    HandlerIdle(e, x) && e.txQueue.WriteSlotAvailable()
  }

  lemma IdleRegisters(e: E.Endpoint, m: Model, x: Sample)
    requires m.Shape() && E.Follows(e, m) && e.Shape()
    ensures Receive(m, x).Shape()
    ensures HandlerIdle(e, x) <==> S.Idle(Receive(m, x))
  {
    hide RxStep, E.TxPart, E.RxPart, TxFollows, E.CountersFollow, Proper, AllProper, Candidate, Receive, TimersAt,
      FrameBody, Arp.RegsAfter;
    E.ReceiveLeaves(m, x);
    E.ReceiveFollows(e.rx, e.rxQueue, m, x);
    var (rx, q) := RxStep(e.rx, e.rxQueue, x);
    E.HeadSlot(rx, q, Receive(m, x));
  }

  // ----- One cycle ------------------------------------------------------------------

  // A request of this kind was made in the last cycle and found a slot.
  predicate KeptNow(before: seq<Attempt>, after: seq<Attempt>, kind: TxKind) {
    |after| == |before| + 1 && after[|before|].kept && after[|before|].request.kind == kind
  }

  lemma ModelTickIsKept(m: Model, x: Sample, kind: TxKind)
    requires m.Shape() && (kind == GratuitousArp || kind == Beacon)
    ensures Receive(m, x).Shape() && m.sent <= |m.built|
    ensures KeptNow(m.attempts, Step(m, x).attempts, kind)
       <==> TickKind(m.now) == kind && S.Idle(Receive(m, x)) && |m.TxPending()| < 4
  {
    hide Step, Receive, Model.Shape, TicksAt, S.Idle;
    S.TickIsTaken(m, x);
    G.StepKeeps(m, x);
    AnnouncementIsBeaconTick(m.now);
  }

  lemma AnnouncementIsBeaconTick(n: nat)
    ensures TicksAt(n).gratuitousArp ==> TicksAt(n).beacon
  {
    hide TicksAt;
    TimersInPhase(n);
  }

  // The beacon or announcement that is due in a cycle is made and kept if and only if the
  // handler is idle in that cycle and the transmit ring has a free slot.
  lemma TickIsKept(xs: seq<Sample>, x: Sample, kind: TxKind)
    requires kind == GratuitousArp || kind == Beacon
    ensures KeptNow(Run(xs).attempts, Run(xs + [x]).attempts, kind)
       <==> TickKind(|xs|) == kind && CanServe(E.Run(xs), x)
  {
    hide Run, E.Run, Step, Receive, Model.Shape, E.Follows, E.Endpoint.Shape, HandlerIdle, TickKind, KeptNow, S.Idle,
      Decode, E.TxLines;
    var m := Run(xs);
    E.RunFollows(xs);
    RunNext(xs, x);
    ModelTickIsKept(m, x, kind);
    IdleRegisters(E.Run(xs), m, x);
    G.FreeSlot(E.Run(xs), m);
  }

  // ----- Every run ------------------------------------------------------------------

  // How many ticks of a kind have been served.
  function TicksServed(xs: seq<Sample>, kind: TxKind): nat
    decreases |xs|
  {
    if xs == [] then 0
    else
      var init, x := xs[..|xs| - 1], xs[|xs| - 1];
      TicksServed(init, kind) + if TickKind(|init|) == kind && CanServe(E.Run(init), x) then 1 else 0
  }

  lemma CountAppend(rs: seq<TxRequest>, r: TxRequest, kind: TxKind)
    ensures N.CountOf(rs + [r], kind) == N.CountOf(rs, kind) + if r.kind == kind then 1 else 0
  {
    assert (rs + [r])[..|rs|] == rs;
  }

  lemma KeptGrowsBy(before: seq<Attempt>, after: seq<Attempt>, kind: TxKind)
    requires before <= after && |after| <= |before| + 1
    ensures N.CountOf(N.Kept(after), kind)
         == N.CountOf(N.Kept(before), kind) + if KeptNow(before, after, kind) then 1 else 0
  {
    hide N.CountOf, N.Kept;
    if |after| == |before| {
      assert after == before;
    } else {
      assert after[..|after| - 1] == before;
      N.KeptNext(after);
      CountAppend(N.Kept(before), after[|before|].request, kind);
    }
  }

  // In every run as many beacons and announcements are kept as ticks were served.
  lemma {:induction false} TicksAreKept(xs: seq<Sample>, kind: TxKind)
    requires kind == GratuitousArp || kind == Beacon
    ensures N.CountOf(N.Kept(Run(xs).attempts), kind) == TicksServed(xs, kind)
    decreases |xs|
  {
    hide Run, E.Run, CanServe, KeptNow, TickKind, Step, Model.Shape;
    if xs == [] {
      NoneKept(kind);
    } else {
      var init, x := xs[..|xs| - 1], xs[|xs| - 1];
      assert xs == init + [x];
      TicksAreKept(init, kind);
      TickIsKept(init, x, kind);
      S.TickIsTaken(Run(init), x);
      RunNext(init, x);
      KeptGrowsBy(Run(init).attempts, Run(xs).attempts, kind);
    }
  }

  lemma NoneKept(kind: TxKind)
    ensures N.CountOf(N.Kept(Run([]).attempts), kind) == 0
  {
  }

  lemma {:induction false} CountOfPrefix(a: seq<TxRequest>, b: seq<TxRequest>, kind: TxKind)
    requires a <= b
    ensures N.CountOf(a, kind) <= N.CountOf(b, kind)
    decreases |b|
  {
    if |a| == |b| {
      assert a == b;
    } else {
      assert a <= b[..|b| - 1];
      CountOfPrefix(a, b[..|b| - 1], kind);
    }
  }
}
