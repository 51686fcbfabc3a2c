/** Real-time bounds over every run.

  The receive ring is served at its own pace: one cycle for a packet that is not for this
  endpoint, up to 70 for one that must be read as ARP and answered. Packets cannot arrive
  closer than their length on the wire allows. `OnTime` puts the two together: the work
  still ahead of a waiting packet and its age never exceed 212 cycles, so the ring of eight
  slots never holds more than six packets and no frame is ever dropped on receive.
 */
module Timing {

  import opened Words
  import opened Mii
  import opened FrameParser
  import opened TxPayloads
  import opened Framer
  import opened RxQueue
  import opened Reference

  // ----- Work ahead -----------------------------------------------------------------

  const DEADLINE := 212

  // Inspecting, reading 28 bytes, building 42 bytes of which the first in the last
  // reading cycle.
  const ARP_COST := 70

  // The cycles left of a body of maximal length after the cycle that starts it.
  const LONGEST_BUILD := 142

  function Cost(p: Packet): nat { if Candidate(p) then ARP_COST else 1 }

  function Total(arrived: seq<Arrival>, lo: nat, hi: nat): nat
    requires lo <= hi <= |arrived|
    decreases hi - lo
  {
    if lo == hi then 0 else Cost(arrived[lo].packet) + Total(arrived, lo + 1, hi)
  }

  // Cycles until the handler looks at the ring again.
  function Busy(mode: Mode): int {
    match mode
    case Waiting => 0
    case Parsing(k) => ARP_COST - 1 - k
    case Building(r, k) => r.len - k
  }

  // The first packet that has not been looked at.
  function First(m: Model): nat { if m.mode.Parsing? then m.handled + 1 else m.handled }

  // Cycles until packet i has been dealt with, if nothing else arrives.
  function WorkTo(m: Model, i: nat): int
    requires m.Shape() && m.handled <= i < |m.arrived|
  {
    Busy(m.mode) + Total(m.arrived, First(m), i + 1)
  }

  function Backlog(m: Model): int
    requires m.Shape()
  {
    Busy(m.mode) + Total(m.arrived, First(m), |m.arrived|)
  }

  function Age(m: Model, i: nat): int
    requires i < |m.arrived|
  {
    m.now - m.arrived[i].time
  }

  function NibblesSoFar(seen: Decoded): nat {
    match seen.cur
    case None => 0
    case Some(f) => |f.nibbles|
  }

  // ----- The invariant --------------------------------------------------------------

  ghost predicate FarApart(arrived: seq<Arrival>) {
    forall i | 0 <= i < |arrived| - 1 :: arrived[i].time + 37 <= arrived[i + 1].time
  }

  // Arrivals are as far apart as the shortest frame that leaves a packet.
  ghost predicate Spaced(m: Model) {
    && FarApart(m.arrived)
    && (m.arrived != [] ==> Age(m, |m.arrived| - 1) >= 1 + NibblesSoFar(m.seen))
  }

  ghost predicate Bounded(m: Model)
    requires m.Shape()
  {
    && (Backlog(m) <= LONGEST_BUILD
        || (m.arrived != [] && Backlog(m) + Age(m, |m.arrived| - 1) <= DEADLINE))
    && (forall i: nat | m.handled <= i < |m.arrived| :: WorkTo(m, i) + Age(m, i) <= DEADLINE)
  }

  ghost predicate OnTime(m: Model)
    requires m.Shape()
  {
    && Spaced(m)
    && Bounded(m)
    && m.rxDrops == 0 && !m.drop
  }

  // ----- Arrivals -------------------------------------------------------------------

  lemma {:induction false} TotalAppend(arrived: seq<Arrival>, a: Arrival, lo: nat, hi: nat)
    requires lo <= hi <= |arrived|
    ensures Total(arrived + [a], lo, hi) == Total(arrived, lo, hi)
    decreases hi - lo
  {
    hide Cost;
    if lo < hi {
      TotalAppend(arrived, a, lo + 1, hi);
    }
  }

  lemma {:induction false} TotalLast(arrived: seq<Arrival>, lo: nat, hi: nat)
    requires lo < hi <= |arrived|
    ensures Total(arrived, lo, hi) == Total(arrived, lo, hi - 1) + Cost(arrived[hi - 1].packet)
    decreases hi - lo
  {
    hide Cost;
    if lo + 1 < hi {
      TotalLast(arrived, lo + 1, hi);
    }
  }

  // The oldest waiting packet bounds how many there are.
  lemma {:induction false} AgesAreSpaced(m: Model, i: nat)
    requires Spaced(m) && i < |m.arrived|
    ensures Age(m, i) >= 37 * (|m.arrived| - 1 - i) + 1
    decreases |m.arrived| - i
  {
    if i + 1 < |m.arrived| {
      AgesAreSpaced(m, i + 1);
    }
  }

  lemma BusyIsPositive(m: Model, i: nat)
    requires m.Shape() && m.handled <= i < |m.arrived|
    ensures WorkTo(m, i) >= 1
  {
    hide Cost, Proper, AllProper, Candidate;
    if First(m) <= i {
      TotalLast(m.arrived, First(m), i + 1);
      CostIsPositive(m.arrived[i].packet);
    }
  }

  lemma CostIsPositive(p: Packet)
    ensures Cost(p) >= 1
  {
  }

  lemma AtMostSix(m: Model)
    requires m.Shape() && OnTime(m)
    ensures |m.RxPending()| <= 6
  {
    hide WorkTo, Proper, AllProper, Candidate;
    if m.handled < |m.arrived| {
      BusyIsPositive(m, m.handled);
      AgesAreSpaced(m, m.handled);
    }
  }

  // A new packet finds little enough work ahead of it: the more work it brings, the longer
  // it was on the wire.
  lemma ArrivalIsBounded(m: Model, m1: Model, p: Packet)
    requires m.Shape() && m1.Shape() && Bounded(m)
    requires m1.arrived == m.arrived + [Arrival(p, m.now)]
    requires m1.mode == m.mode && m1.handled == m.handled && m1.now == m.now
    requires m.arrived != [] ==> Age(m, |m.arrived| - 1) >= 37
    requires m.arrived != [] && Candidate(p) ==> Age(m, |m.arrived| - 1) >= 93
    ensures Bounded(m1)
  {
    hide Candidate, Proper, AllProper, Total, Busy;
    var n := |m.arrived|;
    var a := Arrival(p, m.now);
    TotalAppend(m.arrived, a, First(m), n);
    TotalLast(m1.arrived, First(m1), n + 1);
    forall i: nat | m.handled <= i < n
      ensures WorkTo(m1, i) == WorkTo(m, i) && Age(m1, i) == Age(m, i)
    {
      TotalAppend(m.arrived, a, First(m), i + 1);
    }
  }

  lemma ReceiveOnTime(m: Model, x: Sample)
    requires m.Shape() && OnTime(m)
    ensures var m1 := Receive(m, x);
            && m1.Shape() && Bounded(m1) && FarApart(m1.arrived)
            && m1.rxDrops == 0 && !m1.drop
            && m1.now == m.now
            && (m1.arrived != [] ==> Age(m1, |m1.arrived| - 1) >= NibblesSoFar(m1.seen))
  {
    hide Candidate, Proper, AllProper, Total, Busy, ParseFrame, WorkTo, Backlog;
    ReceiveShape(m, x);
    AtMostSix(m);
    var m1 := Receive(m, x);
    var p := PacketAt(m.seen, x);
    if p.Some? {
      PacketAtTakesTime(m.seen, x);
      ArrivalIsBounded(m, m1, p.value);
    } else {
      SameArrivals(m, m1);
    }
  }

  lemma PacketAtTakesTime(seen: Decoded, x: Sample)
    requires PacketAt(seen, x).Some?
    ensures NibblesSoFar(seen) >= 36
    ensures Candidate(PacketAt(seen, x).value) ==> NibblesSoFar(seen) >= 92
    ensures DecodeStep(seen, x).cur == None
  {
    hide ParseFrame;
    PacketTakesTime(RawFrame(seen.cur.value.nibbles, seen.cur.value.err || x.err));
  }

  lemma SameArrivals(m: Model, m1: Model)
    requires m.Shape() && m1.Shape() && Bounded(m)
    requires m1.arrived == m.arrived && m1.mode == m.mode && m1.handled == m.handled && m1.now == m.now
    ensures Bounded(m1)
  {
    hide Candidate, Proper, AllProper, Total, Busy;
    forall i: nat | m.handled <= i < |m.arrived|
      ensures WorkTo(m1, i) == WorkTo(m, i) && Age(m1, i) == Age(m, i)
    {
    }
  }

  // ----- Service --------------------------------------------------------------------

  // What one cycle of the handler does to the mode and to the number of packets handled:
  // while it builds,
  lemma BuildingEffect(m: Model)
    requires m.Shape() && m.mode.Building?
    ensures var w := Work(m);
            w.handled == m.handled
            && w.mode == if m.mode.k + 1 == m.mode.request.len then Waiting else Building(m.mode.request, m.mode.k + 1)
  {
    hide Proper, AllProper, Candidate;
  }

  // while it reads a packet as ARP,
  lemma ParsingEffect(m: Model)
    requires m.Shape() && m.mode.Parsing?
    ensures var w := Work(m);
            if m.mode.k + 1 < 28 then w.handled == m.handled && w.mode == Parsing(m.mode.k + 1)
            else w.handled == m.handled + 1 && Busy(w.mode) <= 41
                 && !w.mode.Parsing?
  {
    hide Proper, AllProper, Candidate, Asks;
  }

  // and otherwise.
  lemma WaitingEffect(m: Model)
    requires m.Shape() && m.mode.Waiting?
    ensures var w := Work(m);
            if m.handled == |m.arrived| then
              w.handled == m.handled && Busy(w.mode) <= LONGEST_BUILD && !w.mode.Parsing?
            else if Candidate(m.arrived[m.handled].packet) then
              w.handled == m.handled && w.mode == Parsing(0)
            else
              w.handled == m.handled + 1 && w.mode == Waiting
  {
    hide Proper, AllProper, Candidate, TruthfulBeacon, GratuitousArpRequest, Timers.TicksAt;
    TimerRequests(m);
  }

  lemma WorkEffect(m: Model)
    requires m.Shape()
    ensures var w := Work(m);
            && w.Shape() && w.arrived == m.arrived && w.now == m.now
            && w.rxDrops == m.rxDrops && w.drop == m.drop && w.seen == m.seen
            && match m.mode
               case Building(r, k) =>
                 w.handled == m.handled && w.mode == (if k + 1 == r.len then Waiting else Building(r, k + 1))
               case Parsing(k) =>
                 if k + 1 < 28 then w.handled == m.handled && w.mode == Parsing(k + 1)
                 else w.handled == m.handled + 1 && Busy(w.mode) <= 41
                      && !w.mode.Parsing?
               case Waiting =>
                 if m.handled == |m.arrived| then
                   w.handled == m.handled && Busy(w.mode) <= LONGEST_BUILD && !w.mode.Parsing?
                 else if Candidate(m.arrived[m.handled].packet) then
                   w.handled == m.handled && w.mode == Parsing(0)
                 else
                   w.handled == m.handled + 1 && w.mode == Waiting
  {
    hide Work, Proper, AllProper, Candidate, Busy;
    WorkChanges(m);
    match m.mode {
      case Building(_, _) => BuildingEffect(m);
      case Parsing(_) => ParsingEffect(m);
      case Waiting => WaitingEffect(m);
    }
  }

  lemma TimerRequests(m: Model)
    ensures TruthfulBeacon(m).len == LONGEST_BUILD + 1
    ensures GratuitousArpRequest().len == 42
  {
    hide Replies, Dropped, KeptBeacons;
  }

  // In one cycle every waiting packet gets one cycle closer, and an idle handler takes on
  // at most one timer's body.
  lemma WorkProgress(m: Model)
    requires m.Shape()
    ensures var w := Work(m);
            && w.Shape() && w.handled >= m.handled && w.arrived == m.arrived
            && Backlog(w) <= (if Backlog(m) > 0 then Backlog(m) - 1 else LONGEST_BUILD)
            && (forall i: nat | w.handled <= i < |w.arrived| :: WorkTo(w, i) <= WorkTo(m, i) - 1)
  {
    hide Work, Candidate, Proper, AllProper;
    WorkEffect(m);
    var w := Work(m);
    if m.mode.Waiting? && m.handled < |m.arrived| {
      assert Total(m.arrived, m.handled, |m.arrived|)
          == Cost(m.arrived[m.handled].packet) + Total(m.arrived, m.handled + 1, |m.arrived|);
    }
  }

  // ----- Every run ------------------------------------------------------------------

  lemma StepOnTime(m: Model, x: Sample)
    requires m.Shape() && OnTime(m)
    ensures OnTime(Step(m, x))
  {
    hide Candidate, Proper, AllProper, Total, Busy, ParseFrame, WorkTo, Backlog, Work, Receive, TxLine, DecodeStep;
    ReceiveOnTime(m, x);
    var m1 := Receive(m, x);
    WorkEffect(m1);
    WorkProgress(m1);
    var w := Work(m1);
    var m' := Step(m, x);
    BoundedTransmit(w, m');
  }

  lemma BoundedTransmit(w: Model, m': Model)
    requires w.Shape() && m'.Shape()
    requires m'.arrived == w.arrived && m'.mode == w.mode && m'.handled == w.handled
    ensures Backlog(m') == Backlog(w)
    ensures forall i: nat | w.handled <= i < |w.arrived| :: WorkTo(m', i) == WorkTo(w, i)
  {
    hide Candidate, Proper, AllProper, Total, Busy;
  }

  lemma {:induction false} RunOnTime(xs: seq<Sample>)
    ensures OnTime(Run(xs))
    decreases |xs|
  {
    hide OnTime, Step, Model.Shape;
    if xs == [] {
      ResetOnTime();
    } else {
      RunOnTime(xs[..|xs| - 1]);
      StepOnTime(Run(xs[..|xs| - 1]), xs[|xs| - 1]);
    }
  }

  lemma ResetOnTime()
    ensures OnTime(RESET)
  {
    hide Candidate, Proper;
  }

  // Whatever arrives, the receive ring holds at most six packets and drops none.
  lemma ReceiveRingNeverFull(xs: seq<Sample>)
    ensures |Run(xs).RxPending()| <= 6
    ensures Run(xs).rxDrops == 0 && !Run(xs).drop
  {
    hide Proper, AllProper, Candidate, Bounded, Spaced;
    RunOnTime(xs);
    AtMostSix(Run(xs));
  }

  // Whatever else arrives, a packet has been dealt with 212 cycles after it arrived.
  lemma HandledByDeadline(xs: seq<Sample>, i: nat)
    requires i < |Run(xs).arrived| && Age(Run(xs), i) >= DEADLINE
    ensures i < Run(xs).handled
  {
    hide WorkTo, Proper, AllProper, Candidate;
    RunOnTime(xs);
    if i >= Run(xs).handled {
      BusyIsPositive(Run(xs), i);
    }
  }

  // ----- Transmit side --------------------------------------------------------------

  // The slot time of a beacon, the longest frame: start cycle, frame and gap.
  const LONGEST_FRAME := 335

  // That of the shortest.
  const SHORTEST_FRAME := 169

  const TX_DEADLINE := 4 * LONGEST_FRAME

  const START_DEADLINE := 3 * LONGEST_FRAME

  function Durations(built: seq<Built>, lo: nat, hi: nat): nat
    requires lo <= hi <= |built|
    decreases hi - lo
  {
    if lo == hi then 0 else Duration(built[lo].request.len) + Durations(built, lo + 1, hi)
  }

  // Cycles until body j is started.
  function TxWorkBefore(m: Model, j: nat): int
    requires m.Shape() && m.sent <= j < |m.built|
  {
    Durations(m.built, m.sent, j) - m.age
  }

  ghost predicate TxOnTime(m: Model)
    requires m.Shape()
  {
    && (if m.sent == |m.built| then m.age == 0 else m.age < Duration(m.built[m.sent].request.len))
    && forall j: nat | m.sent <= j < |m.built| :: TxWorkBefore(m, j) + m.now - m.built[j].time <= START_DEADLINE
  }

  lemma ProperDuration(r: TxRequest)
    requires Proper(r)
    ensures 0 < Duration(r.len) <= LONGEST_FRAME
  {
  }

  lemma {:induction false} DurationsBound(built: seq<Built>, lo: nat, hi: nat)
    requires lo <= hi <= |built| && AllProper(built)
    ensures hi - lo <= Durations(built, lo, hi) <= (hi - lo) * LONGEST_FRAME
    decreases hi - lo
  {
    hide Proper, Duration;
    if lo < hi {
      ProperDuration(built[lo].request);
      DurationsBound(built, lo + 1, hi);
    }
  }

  lemma {:induction false} DurationsAtLeast(built: seq<Built>, lo: nat, hi: nat)
    requires lo <= hi <= |built|
    ensures Durations(built, lo, hi) >= (hi - lo) * SHORTEST_FRAME
    decreases hi - lo
  {
    if lo < hi {
      DurationsAtLeast(built, lo + 1, hi);
    }
  }

  lemma {:induction false} DurationsAppend(built: seq<Built>, b: Built, lo: nat, hi: nat)
    requires lo <= hi <= |built|
    ensures Durations(built + [b], lo, hi) == Durations(built, lo, hi)
    decreases hi - lo
  {
    hide Duration;
    if lo < hi {
      DurationsAppend(built, b, lo + 1, hi);
    }
  }

  lemma WorkTxOnTime(m: Model)
    requires m.Shape() && TxOnTime(m)
    ensures Work(m).Shape()
    ensures var w := Work(m);
            forall j: nat | w.sent <= j < |w.built| :: TxWorkBefore(w, j) + w.now - w.built[j].time <= START_DEADLINE
    ensures var w := Work(m);
            if w.sent == |w.built| then w.age == 0 else w.age < Duration(w.built[w.sent].request.len)
  {
    hide Work, Proper, Candidate, Duration;
    WorkChanges(m);
    var w := Work(m);
    forall j: nat | w.sent <= j < |w.built|
      ensures TxWorkBefore(w, j) + w.now - w.built[j].time <= START_DEADLINE
    {
      if j < |m.built| {
        if w.built != m.built {
          DurationsAppend(m.built, w.built[|m.built|], m.sent, j);
        }
        assert TxWorkBefore(w, j) == TxWorkBefore(m, j);
      } else {
        DurationsBound(w.built, w.sent, j);
      }
    }
    if w.sent < |w.built| {
      assert AllProper(w.built);
      ProperDuration(w.built[w.sent].request);
    }
  }

  lemma TransmitTxOnTime(w: Model)
    requires w.Shape() && TxOnTime(w)
    ensures Transmit(w).Shape() && TxOnTime(Transmit(w))
  {
    hide Proper, Candidate, Duration, TxLine, DecodeStep;
    var m' := Transmit(w);
    if w.sent < |w.built| {
      ProperDuration(w.built[w.sent].request);
      if m'.sent < |m'.built| {
        ProperDuration(m'.built[m'.sent].request);
      }
      forall j: nat | m'.sent <= j < |m'.built|
        ensures TxWorkBefore(m', j) == TxWorkBefore(w, j) - 1
      {
        if m'.sent > w.sent {
          DurationsSplitFirst(w.built, w.sent, j);
        }
      }
    }
  }

  lemma NothingStarted(m: Model)
    requires m.Shape() && TxOnTime(m)
    ensures m.sent == |m.built| ==> m.age == 0
  {
    hide TxWorkBefore, Proper, Candidate;
  }

  lemma {:induction false} RunTxOnTime(xs: seq<Sample>)
    ensures TxOnTime(Run(xs))
    decreases |xs|
  {
    hide Work, Receive, Transmit, Proper, AllProper, Candidate, TxOnTime;
    if xs == [] {
      ResetTxOnTime();
    } else {
      var m, x := Run(xs[..|xs| - 1]), xs[|xs| - 1];
      RunTxOnTime(xs[..|xs| - 1]);
      ReceiveShape(m, x);
      ReceiveTxOnTime(m, x);
      WorkKeepsTxOnTime(Receive(m, x));
      TransmitTxOnTime(Work(Receive(m, x)));
    }
  }

  lemma WorkKeepsTxOnTime(m: Model)
    requires m.Shape() && TxOnTime(m)
    ensures Work(m).Shape() && TxOnTime(Work(m))
  {
    hide Work, Proper, AllProper, Candidate, TxWorkBefore;
    WorkTxOnTime(m);
  }

  lemma ReceiveTxOnTime(m: Model, x: Sample)
    requires m.Shape() && TxOnTime(m)
    ensures Receive(m, x).Shape() && TxOnTime(Receive(m, x))
  {
    hide Proper, AllProper, Candidate, Durations, Duration, PacketAt, DecodeStep;
    ReceiveShape(m, x);
    forall j: nat | m.sent <= j < |m.built|
      ensures TxWorkBefore(Receive(m, x), j) == TxWorkBefore(m, j)
    {
    }
  }

  lemma ResetTxOnTime()
    ensures TxOnTime(RESET)
  {
    hide Proper, Candidate;
  }

  // A body that was put into the transmit ring is the one on the wire after the time of
  // three of the longest frames at most, and its slot is free again after its own.
  lemma SentByDeadline(xs: seq<Sample>, j: nat)
    requires j < |Run(xs).built|
    ensures var m := Run(xs);
            var waited := m.now - m.built[j].time;
            && (waited >= START_DEADLINE ==> j <= m.sent)
            && (waited >= START_DEADLINE + Duration(m.built[j].request.len) ==> j < m.sent)
            && (waited >= TX_DEADLINE ==> j < m.sent)
  {
    hide Run, Model.Shape, TxOnTime, Duration;
    RunTxOnTime(xs);
    SentOnTime(Run(xs), j);
  }

  lemma SentOnTime(m: Model, j: nat)
    requires m.Shape() && TxOnTime(m) && j < |m.built|
    ensures var waited := m.now - m.built[j].time;
            && (waited >= START_DEADLINE ==> j <= m.sent)
            && (waited >= START_DEADLINE + Duration(m.built[j].request.len) ==> j < m.sent)
            && (waited >= TX_DEADLINE ==> j < m.sent)
  {
    hide Proper, AllProper, Candidate, Duration, TxWorkBefore;
    if j >= m.sent {
      BuiltIsProper(m, j);
      ProperDuration(m.built[j].request);
      StillAhead(m, j);
    }
  }

  lemma BuiltIsProper(m: Model, j: nat)
    requires m.Shape() && j < |m.built|
    ensures Proper(m.built[j].request)
  {
    hide Proper, Candidate;
  }

  // While a body waits there is work before it; while it is on the wire it has its own.
  lemma StillAhead(m: Model, j: nat)
    requires m.Shape() && TxOnTime(m) && m.sent <= j < |m.built|
    ensures j > m.sent ==> TxWorkBefore(m, j) > 0
    ensures TxWorkBefore(m, j) + Duration(m.built[j].request.len) > 0
  {
    hide Proper, Candidate, Duration;
    ProperDuration(m.built[j].request);
    if j > m.sent {
      DurationsSplitFirst(m.built, m.sent, j);
      DurationsBound(m.built, m.sent + 1, j);
    }
  }

  lemma {:induction false} DurationsSplit(built: seq<Built>, lo: nat, hi: nat)
    requires lo <= hi < |built|
    ensures Durations(built, lo, hi + 1) == Durations(built, lo, hi) + Duration(built[hi].request.len)
    decreases hi - lo
  {
    hide Duration;
    if lo < hi {
      DurationsSplit(built, lo + 1, hi);
    }
  }

  lemma DurationsSplitFirst(built: seq<Built>, lo: nat, hi: nat)
    requires lo < hi <= |built|
    ensures Durations(built, lo, hi) == Duration(built[lo].request.len) + Durations(built, lo + 1, hi)
  {
  }
}
