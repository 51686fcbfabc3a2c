/** What the timers make the endpoint send.

  Both timers start together and one period is five of the other's, so every fifth tick is
  an announcement and the others are beacons. A tick is never kept for later: `TickIsTaken`
  says exactly when it leads to an attempt. While no packet arrives no tick is lost, and
  between two ticks there is time for the whole frame: `QuietSchedule` gives every attempt of
  any such run. What happens to ticks in any other run is the subject of module Ticks.
 */
module Schedule {

  import opened Words
  import opened Mii
  import opened TxPayloads
  import opened Framer
  import opened Timers
  import opened FrameParser
  import opened RxQueue
  import opened Reference
  import T = Timing
  import N = EndToEnd
  import E = Endpoint
  import TxQueue

  // No frame on the line leaves a packet, whatever else there may be.
  ghost predicate NoPackets(xs: seq<Sample>) {
    N.PacketsOf(Decode(xs).done) == []
  }

  // The kind of attempt number i.
  function KindAt(i: nat): TxKind { if (i + 1) % 5 == 0 then GratuitousArp else Beacon }

  ghost predicate OnSchedule(attempts: seq<Attempt>) {
    forall i | 0 <= i < |attempts| :: attempts[i].kept && attempts[i].request.kind == KindAt(i)
  }

  // q periods and p cycles after reset: what there is to do came with the last tick.
  ghost predicate Quiet(m: Model, q: nat, p: nat)
    requires m.Shape()
  {
    && m.now == 25000000 * q + p && p < 25000000
    && m.arrived == [] && m.handled == 0
    && |m.attempts| == q && OnSchedule(m.attempts)
    && (m.mode.Waiting? || (m.mode.Building? && m.mode.k == p + 1 && m.sent == |m.built|))
    && (m.sent < |m.built| ==>
          && m.sent + 1 == |m.built| && m.mode.Waiting?
          && p + 2 == m.built[m.sent].request.len + m.age)
  }

  lemma TickAt(n: nat, q: nat, p: nat)
    requires n == 25000000 * q + p && p < 25000000
    ensures TicksAt(n).beacon == (p + 1 == 25000000)
    ensures TicksAt(n).gratuitousArp == (p + 1 == 25000000 && (q + 1) % 5 == 0)
  {
    var a, b := (q + 1) / 5, (q + 1) % 5;
    if p + 1 == 25000000 {
      assert n + 1 == 25000000 * (q + 1) == 125000000 * a + 25000000 * b;
    } else {
      var c, d := q / 5, q % 5;
      assert n + 1 == 25000000 * q + (p + 1) == 125000000 * c + (25000000 * d + (p + 1));
    }
  }

  lemma ReceiveQuiet(m: Model, x: Sample, q: nat, p: nat)
    requires m.Shape() && Quiet(m, q, p) && PacketAt(m.seen, x) == None
    ensures Receive(m, x).Shape() && Quiet(Receive(m, x), q, p)
    ensures T.TxOnTime(m) ==> T.TxOnTime(Receive(m, x))
  {
    hide Proper, AllProper, T.TxOnTime, ParseFrame, DecodeStep;
    ReceiveShape(m, x);
    if T.TxOnTime(m) {
      T.ReceiveTxOnTime(m, x);
    }
  }

  // A request made in an idle cycle.
  lemma ServeQuiet(m: Model, q: nat, p: nat)
    requires m.Shape() && Quiet(m, q, p)
    ensures var s := Serve(m);
            && s.m == m
            && s.request.Some? == (m.mode.Waiting? && p + 1 == 25000000)
            && (s.request.Some? ==> Proper(s.request.value) && s.request.value.kind == KindAt(q))
  {
    hide Proper, AllProper, TruthfulBeacon, TicksAt, GratuitousArpRequest, Candidate;
    TickAt(m.now, q, p);
    ServeShape(m);
    N.TimerKinds(m);
  }

  lemma ShortLength(r: TxRequest)
    requires Proper(r)
    ensures 40 < r.len <= 143 && 0 < Duration(r.len) <= 335
  {
  }

  // When a tick comes, all that the last one brought has long been sent.
  lemma IdleAtTick(m: Model, q: nat, p: nat)
    requires m.Shape() && Quiet(m, q, p) && T.TxOnTime(m) && p > 1000
    ensures m.mode.Waiting? && m.sent == |m.built|
  {
    hide Proper, Candidate, Duration, T.TxWorkBefore;
    if m.mode.Building? {
      ShortLength(m.mode.request);
    }
    if m.sent < |m.built| {
      ShortLength(m.built[m.sent].request);
    }
  }

  lemma WorkQuiet(m: Model, q: nat, p: nat)
    requires m.Shape() && Quiet(m, q, p) && T.TxOnTime(m)
    ensures Work(m).Shape()
    ensures var w := Work(m);
            && w.arrived == m.arrived && w.handled == m.handled && w.now == m.now
            && w.sent == m.sent && w.age == m.age
            && if p + 1 == 25000000 then
                 && |w.attempts| == q + 1 && OnSchedule(w.attempts)
                 && w.mode.Building? && w.mode.k == 1 && w.sent == |w.built|
               else
                 && w.attempts == m.attempts
                 && if m.mode.Building? && p + 2 == m.mode.request.len then
                      && w.mode.Waiting? && w.built == m.built + [Built(m.mode.request, m.now)]
                    else
                      && w.built == m.built
                      && w.mode == if m.mode.Building? then Building(m.mode.request, p + 2) else Waiting
  {
    hide Proper, AllProper, Candidate, Serve, T.TxOnTime;
    WorkShape(m);
    WorkChanges(m);
    ServeQuiet(m, q, p);
    var s := Serve(m);
    if p + 1 == 25000000 {
      IdleAtTick(m, q, p);
      ShortLength(s.request.value);
    }
  }

  lemma TransmitQuiet(w: Model, q: nat, p: nat)
    requires w.Shape() && T.TxOnTime(w)
    requires w.now + 1 == 25000000 * q + p && p < 25000000
    requires w.arrived == [] && w.handled == 0
    requires |w.attempts| == q && OnSchedule(w.attempts)
    requires w.mode.Waiting? || (w.mode.Building? && w.mode.k == p + 1 && w.sent == |w.built|)
    requires w.sent < |w.built| ==>
               w.sent + 1 == |w.built| && w.mode.Waiting? && p + 1 == w.built[w.sent].request.len + w.age
    ensures Transmit(w).Shape() && Quiet(Transmit(w), q, p)
  {
    hide Proper, AllProper, Candidate, TxLine, DecodeStep, OnSchedule, Duration, T.TxWorkBefore;
    N.TransmitMoves(w);
  }

  lemma StepQuiet(m: Model, x: Sample, q: nat, p: nat)
    requires m.Shape() && Quiet(m, q, p) && T.TxOnTime(m) && PacketAt(m.seen, x) == None
    ensures if p + 1 == 25000000 then Quiet(Step(m, x), q + 1, 0) else Quiet(Step(m, x), q, p + 1)
  {
    hide Receive, Transmit, Work, Proper, AllProper, Candidate, OnSchedule, T.TxOnTime, PacketAt;
    ReceiveQuiet(m, x, q, p);
    var m1 := Receive(m, x);
    WorkQuiet(m1, q, p);
    T.NothingStarted(m1);
    T.WorkKeepsTxOnTime(m1);
    if p + 1 == 25000000 {
      TransmitQuiet(Work(m1), q + 1, 0);
    } else {
      TransmitQuiet(Work(m1), q, p + 1);
    }
  }

  // A packet that completes in a cycle is one of the packets of the line.
  lemma NoPacketYet(xs: seq<Sample>)
    requires xs != [] && NoPackets(xs)
    ensures var init, x := xs[..|xs| - 1], xs[|xs| - 1];
            NoPackets(init) && PacketAt(Decode(init), x) == None
  {
    hide ParseFrame;
    var init, x := xs[..|xs| - 1], xs[|xs| - 1];
    var before, after := Decode(init), Decode(xs);
    if after.done != before.done {
      assert after.done[..|after.done| - 1] == before.done;
    }
  }

  lemma {:induction false} RunQuiet(xs: seq<Sample>)
    requires NoPackets(xs)
    ensures Quiet(Run(xs), |xs| / 25000000, |xs| % 25000000)
    decreases |xs|
  {
    hide Step, Model.Shape, Quiet, T.TxOnTime, NoPackets, PacketAt, Decode, E.TxLines;
    if xs == [] {
      ResetQuiet();
    } else {
      var init, x := xs[..|xs| - 1], xs[|xs| - 1];
      NoPacketYet(xs);
      RunQuiet(init);
      E.RunReads(init);
      T.RunTxOnTime(init);
      StepQuiet(Run(init), x, |init| / 25000000, |init| % 25000000);
    }
  }

  lemma ResetQuiet()
    ensures Quiet(RESET, 0, 0)
  {
  }

  // An endpoint that receives no packet makes one attempt every second, every fifth one an
  // announcement and the others beacons, and none of them is dropped.
  lemma QuietSchedule(xs: seq<Sample>)
    requires NoPackets(xs)
    ensures var m := Run(xs);
            && |m.attempts| == |xs| / 25000000
            && forall i | 0 <= i < |m.attempts| ::
                 m.attempts[i].kept && m.attempts[i].request.kind == KindAt(i)
  {
    hide Run, KindAt, NoPackets;
    RunQuiet(xs);
  }

  // ----- When a tick is lost --------------------------------------------------------

  // The handler has nothing in work and nothing to look at.
  predicate Idle(m: Model)
    requires m.Shape()
  {
    m.mode.Waiting? && m.RxPending() == []
  }

  // The request made in the last cycle, if any.
  function NewKind(before: seq<Attempt>, after: seq<Attempt>): TxKind {
    if |after| == |before| + 1 then after[|before|].request.kind else NoKind
  }

  // A tick leads to an attempt exactly if the handler is idle in that very cycle, after
  // what was received in it; otherwise it is lost.
  lemma TickIsTaken(m: Model, x: Sample)
    requires m.Shape()
    ensures Receive(m, x).Shape()
    ensures m.attempts <= Step(m, x).attempts && |Step(m, x).attempts| <= |m.attempts| + 1
    ensures var kind := NewKind(m.attempts, Step(m, x).attempts);
            var ticks := TicksAt(m.now);
            && (kind == GratuitousArp <==> ticks.gratuitousArp && Idle(Receive(m, x)))
            && (kind == Beacon <==> ticks.beacon && !ticks.gratuitousArp && Idle(Receive(m, x)))
  {
    hide Proper, AllProper, Candidate, PacketAt, DecodeStep, TxLine, TxQueue.NextAge, TruthfulBeacon,
      GratuitousArpRequest, ArpReplyRequest, TicksAt, Asks, Work;
    ReceiveShape(m, x);
    WorkChanges(Receive(m, x));
    WorkKinds(Receive(m, x));
  }

  lemma WorkKinds(m: Model)
    requires m.Shape()
    ensures m.attempts <= Work(m).attempts && |Work(m).attempts| <= |m.attempts| + 1
    ensures var kind := NewKind(m.attempts, Work(m).attempts);
            var ticks := TicksAt(m.now);
            && (kind == GratuitousArp <==> ticks.gratuitousArp && Idle(m))
            && (kind == Beacon <==> ticks.beacon && !ticks.gratuitousArp && Idle(m))
  {
    hide Proper, AllProper, Candidate, TruthfulBeacon, GratuitousArpRequest, ArpReplyRequest, TicksAt, Asks,
      Model.Shape;
    ServeShape(m);
    ServeKinds(m);
    hide Serve;
  }

  lemma ServeKinds(m: Model)
    requires m.Shape()
    ensures var s := Serve(m);
            && s.m.attempts == m.attempts
            && (s.request.Some? && s.request.value.kind == GratuitousArp <==> TicksAt(m.now).gratuitousArp && Idle(m))
            && (s.request.Some? && s.request.value.kind == Beacon <==>
                  TicksAt(m.now).beacon && !TicksAt(m.now).gratuitousArp && Idle(m))
  {
    hide Proper, AllProper, Candidate, TruthfulBeacon, GratuitousArpRequest, TicksAt, Asks;
    N.TimerKinds(m);
  }
}
