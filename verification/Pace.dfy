/** A pace at which every request is answered.

  If requests for this endpoint's address end at least 213 cycles apart, the transmit ring is
  never full when something is to be sent: no reply, beacon or announcement is dropped,
  whatever else is on the line, and every request is answered in time (`AllAnswered`). The
  proof weighs what is still to be sent against the time since the last request and since
  the last tick: a request brings 169 cycles of work and at least 213 cycles to do it in.
 */
module Pace {

  import opened Words
  import opened Mii
  import opened Arp
  import opened RxQueue
  import opened Framer
  import opened TxQueue
  import opened TxPayloads
  import opened Timers
  import opened Reference
  import T = Timing
  import N = EndToEnd
  import E = Endpoint
  import G = Guarantees
  import L = OnLine

  const APART := 213

  // A frame that asks for a reply ends in cycle n.
  predicate AskEndsAt(xs: seq<Sample>, n: nat)
    requires n < |xs|
  {
    var p := PacketAt(Decode(xs[..n]), xs[n]);
    p.Some? && Asks(p.value).Some?
  }

  ghost predicate Paced(xs: seq<Sample>) {
    forall i, j | 0 <= i < j < |xs| && AskEndsAt(xs, i) && AskEndsAt(xs, j) :: i + APART <= j
  }

  // ----- Requests among the packets -------------------------------------------------

  predicate Asking(a: Arrival) { Asks(a.packet).Some? }

  ghost predicate AsksApart(arrived: seq<Arrival>) {
    forall i, j | 0 <= i < j < |arrived| && Asking(arrived[i]) && Asking(arrived[j]) ::
      arrived[i].time + APART <= arrived[j].time
  }

  // Cycles since the last request arrived, or long ago if there was none.
  function SinceAsk(arrived: seq<Arrival>, now: nat): int {
    if arrived == [] then 1000
    else if Asking(arrived[|arrived| - 1]) then now - arrived[|arrived| - 1].time
    else SinceAsk(arrived[..|arrived| - 1], now)
  }

  // How many of the packets from number lo on are requests.
  function AsksFrom(arrived: seq<Arrival>, lo: nat): nat {
    if |arrived| <= lo then 0
    else AsksFrom(arrived[..|arrived| - 1], lo) + if Asking(arrived[|arrived| - 1]) then 1 else 0
  }

  lemma {:induction false} LastAsk(arrived: seq<Arrival>, lo: nat, now: nat) returns (i: nat)
    requires AsksFrom(arrived, lo) > 0
    ensures lo <= i < |arrived| && Asking(arrived[i])
    ensures SinceAsk(arrived, now) == now - arrived[i].time
    ensures AsksFrom(arrived[..i], lo) == AsksFrom(arrived, lo) - 1
    decreases |arrived|
  {
    hide Asking;
    var n := |arrived| - 1;
    if Asking(arrived[n]) {
      i := n;
    } else {
      i := LastAsk(arrived[..n], lo, now);
      assert arrived[..n][..i] == arrived[..i];
    }
  }

  lemma {:induction false} AsksFromNext(arrived: seq<Arrival>, lo: nat)
    requires lo < |arrived|
    ensures AsksFrom(arrived, lo) == AsksFrom(arrived, lo + 1) + if Asking(arrived[lo]) then 1 else 0
    decreases |arrived|
  {
    hide Asking;
    if lo + 1 < |arrived| {
      AsksFromNext(arrived[..|arrived| - 1], lo);
    }
  }

  // What waits, waits within the deadline.
  ghost predicate InTime(m: Model)
    requires m.Shape()
  {
    forall i: nat | m.handled <= i < |m.arrived| :: T.Age(m, i) >= 0 && T.Age(m, i) < T.DEADLINE
  }

  lemma FarOlder(m: Model, j: nat, i: nat)
    requires j < i < |m.arrived| && Asking(m.arrived[j]) && Asking(m.arrived[i]) && AsksApart(m.arrived)
    ensures T.Age(m, j) >= T.Age(m, i) + APART
  {
    hide Asking;
  }

  // At most one request waits, and it is the last that arrived.
  lemma OneAsks(m: Model)
    requires m.Shape() && InTime(m) && AsksApart(m.arrived)
    ensures AsksFrom(m.arrived, m.handled) <= 1
    ensures AsksFrom(m.arrived, m.handled) == 1 ==> 0 <= SinceAsk(m.arrived, m.now) < T.DEADLINE
  {
    hide Asking, AsksFrom, SinceAsk, Proper, AllProper, Candidate;
    if AsksFrom(m.arrived, m.handled) > 0 {
      var i := LastAsk(m.arrived, m.handled, m.now);
      assert T.Age(m, i) < T.DEADLINE;
      if AsksFrom(m.arrived, m.handled) > 1 {
        var j := LastAsk(m.arrived[..i], m.handled, m.now);
        FarOlder(m, j, i);
      }
    }
  }

  // The request that is being read is the last that arrived.
  lemma ReadIsLast(m: Model)
    requires m.Shape() && InTime(m) && AsksApart(m.arrived)
    requires m.handled < |m.arrived| && Asking(m.arrived[m.handled])
    ensures SinceAsk(m.arrived, m.now) == T.Age(m, m.handled)
    ensures AsksFrom(m.arrived, m.handled) == 1 && AsksFrom(m.arrived, m.handled + 1) == 0
  {
    hide Asking, AsksFrom, SinceAsk, Proper, AllProper, Candidate;
    OneAsks(m);
    AsksFromNext(m.arrived, m.handled);
    var i := LastAsk(m.arrived, m.handled, m.now);
    if i > m.handled {
      FarOlder(m, m.handled, i);
    }
  }

  // ----- What is still to be sent ---------------------------------------------------

  function Ahead(m: Model): int
    requires m.Shape()
  {
    T.Durations(m.built, m.sent, |m.built|) - m.age
  }

  function InWork(m: Model): nat {
    match m.mode
    case Building(r, _) => Duration(r.len)
    case _ => 0
  }

  // Cycles of line time called for and not yet used.
  function Owed(m: Model): int
    requires m.Shape()
  {
    Ahead(m) + InWork(m) + T.SHORTEST_FRAME * AsksFrom(m.arrived, m.handled)
  }

  // Cycles since a tick was due.
  function SinceTick(now: nat): nat { now % 25000000 }

  function Max(a: int, b: int): int { if a < b then b else a }

  // What a tick adds, and how it is worked off.
  function TickShare(z: nat): int {
    if z <= 143 then APART * T.LONGEST_FRAME else Max(0, APART * T.LONGEST_FRAME - 44 * (z - 143))
  }

  // What the last request adds, and how it is worked off.
  function AskShare(a: int): int { T.SHORTEST_FRAME * Max(0, APART + T.DEADLINE - a) }

  ghost predicate Calm(m: Model)
    requires m.Shape()
  {
    APART * Owed(m) <= AskShare(SinceAsk(m.arrived, m.now)) + TickShare(SinceTick(m.now))
  }

  // When a body that is being built was called for.
  ghost predicate BuildsInTime(m: Model)
    requires m.Shape()
  {
    m.mode.Building? ==>
      && m.mode.k > 0
      && if m.mode.request.kind == ArpReply then
           m.mode.request.len - m.mode.k + SinceAsk(m.arrived, m.now) <= T.DEADLINE
           && SinceAsk(m.arrived, m.now) >= 0
           && AsksFrom(m.arrived, m.handled) == 0
         else m.mode.k == SinceTick(m.now) + 1
  }

  ghost predicate Relaxed(m: Model)
    requires m.Shape()
  {
    Calm(m) && BuildsInTime(m) && Dropped(m.attempts) == 0
  }

  lemma FullRingIsAhead(m: Model)
    requires m.Shape() && T.TxOnTime(m) && |m.TxPending()| == 4
    ensures Ahead(m) > 3 * T.SHORTEST_FRAME
  {
    hide T.Durations, T.TxWorkBefore, Proper, AllProper, Candidate;
    T.DurationsSplitFirst(m.built, m.sent, |m.built|);
    T.DurationsAtLeast(m.built, m.sent + 1, |m.built|);
  }

  // A calm endpoint has room for a reply that is called for, and for a timer's frame.
  lemma RoomForReply(m: Model)
    requires m.Shape() && T.TxOnTime(m) && Calm(m)
    requires AsksFrom(m.arrived, m.handled) == 1 && SinceAsk(m.arrived, m.now) >= 0
    ensures |m.TxPending()| < 4
  {
    hide Ahead, AsksFrom, SinceAsk, T.TxOnTime, Proper, AllProper, Candidate, SinceTick, Duration;
    if |m.TxPending()| == 4 {
      FullRingIsAhead(m);
      assert false;
    }
  }

  lemma RoomForTick(m: Model)
    requires m.Shape() && T.TxOnTime(m) && Calm(m) && SinceTick(m.now) == 24999999
    requires SinceAsk(m.arrived, m.now) >= 0
    ensures |m.TxPending()| < 4
  {
    hide Ahead, AsksFrom, SinceAsk, T.TxOnTime, Proper, AllProper, Candidate, SinceTick, Duration;
    if |m.TxPending()| == 4 {
      FullRingIsAhead(m);
      assert false;
    }
  }

  // ----- One cycle ------------------------------------------------------------------

  lemma BoundedInTime(m: Model)
    requires m.Shape() && T.Bounded(m)
    requires forall i: nat | m.handled <= i < |m.arrived| :: T.Age(m, i) >= 0
    ensures InTime(m)
  {
    hide T.WorkTo, T.Age, Proper, AllProper, Candidate;
    forall i: nat | m.handled <= i < |m.arrived|
      ensures T.Age(m, i) < T.DEADLINE
    {
      T.BusyIsPositive(m, i);
    }
  }

  // No request arrives too early.
  lemma NewAskIsLate(m: Model, a: Arrival)
    requires AsksApart(m.arrived + [a]) && Asking(a) && a.time == m.now
    ensures SinceAsk(m.arrived, m.now) >= APART
  {
    NewAskAfter(m.arrived, m.arrived + [a], m.now);
  }

  lemma {:induction false} NewAskAfter(arrived: seq<Arrival>, all: seq<Arrival>, now: nat)
    requires arrived < all && AsksApart(all) && Asking(all[|all| - 1]) && all[|all| - 1].time == now
    ensures SinceAsk(arrived, now) >= APART
    decreases |arrived|
  {
    hide Asking;
    if arrived != [] {
      NewAskAfter(arrived[..|arrived| - 1], all, now);
    }
  }

  lemma AsksAppend(arrived: seq<Arrival>, a: Arrival, lo: nat, now: nat)
    requires lo <= |arrived|
    ensures SinceAsk(arrived + [a], now) == if Asking(a) then now - a.time else SinceAsk(arrived, now)
    ensures AsksFrom(arrived + [a], lo) == AsksFrom(arrived, lo) + if Asking(a) then 1 else 0
  {
    hide Asking;
    assert (arrived + [a])[..|arrived|] == arrived;
  }

  lemma ReceiveRelaxed(m: Model, x: Sample)
    requires m.Shape() && Relaxed(m) && AsksApart(Receive(m, x).arrived)
    ensures var m1 := Receive(m, x);
            && m1.Shape() && Calm(m1) && BuildsInTime(m1)
            && m1 == m.(seen := m1.seen, drop := m1.drop, rxDrops := m1.rxDrops, arrived := m1.arrived)
  {
    hide Receive, Asking, AsksApart, AsksFrom, SinceAsk, SinceTick, T.Durations, Proper, AllProper, Candidate, Duration,
      TickShare;
    E.ReceiveLeaves(m, x);
    ArrivalOf(m, x);
    var m1 := Receive(m, x);
    if m1.arrived != m.arrived {
      var a := m1.arrived[|m.arrived|];
      AsksAppend(m.arrived, a, m.handled, m.now);
      if Asking(a) {
        NewAskIsLate(m, a);
      }
    }
  }

  lemma ArrivalOf(m: Model, x: Sample)
    requires m.Shape()
    ensures var all := Receive(m, x).arrived;
            all == m.arrived || (|all| == |m.arrived| + 1 && all == m.arrived + [all[|m.arrived|]]
                                 && all[|m.arrived|].time == m.now)
  {
    hide PacketAt, DecodeStep, Model.Shape;
  }

  // Whether the beacon timer ticks in this cycle.
  predicate Ticks(now: nat) { SinceTick(now) == 24999999 }

  lemma TicksAreTicks(now: nat)
    ensures TicksAt(now).beacon == Ticks(now)
    ensures TicksAt(now).gratuitousArp ==> Ticks(now)
    ensures SinceTick(now + 1) == if Ticks(now) then 0 else SinceTick(now) + 1
  {
    TimersInPhase(now);
    var q, r := now / 25000000, now % 25000000;
    assert now + 1 == 25000000 * q + (r + 1);
    hide TimersAt;
  }

  // BuildsInTime, seen from the cycle before.
  ghost predicate WillBuildInTime(w: Model)
    requires w.Shape()
  {
    w.mode.Building? ==>
      && w.mode.k > 0
      && if w.mode.request.kind == ArpReply then
           w.mode.request.len - w.mode.k + SinceAsk(w.arrived, w.now) + 1 <= T.DEADLINE
           && SinceAsk(w.arrived, w.now) >= 0
           && AsksFrom(w.arrived, w.handled) == 0
         else w.mode.k == SinceTick(w.now + 1) + 1
  }

  // The handler's part of a cycle only moves what is owed, except for a timer's frame.
  ghost predicate WorksOff(w: Model, m: Model, extra: nat)
    requires w.Shape() && m.Shape()
  {
    && w.arrived == m.arrived && w.now == m.now
    && Owed(w) == Owed(m) + extra
    && Dropped(w.attempts) == 0 && WillBuildInTime(w)
    && (extra > 0 ==> Ticks(m.now) && extra <= T.LONGEST_FRAME && AsksFrom(m.arrived, m.handled) == 0
                      && w.handled == m.handled)
  }

  // Building goes on, and what is built is ahead of the line.
  lemma BuildingWorksOff(m: Model)
    requires m.Shape() && m.mode.Building? && BuildsInTime(m) && Dropped(m.attempts) == 0
    ensures Work(m).Shape() && WorksOff(Work(m), m, 0)
  {
    hide Proper, AllProper, Candidate, Asking, AsksFrom, SinceAsk, SinceTick, T.Durations, Duration, Dropped, Work;
    var r, k := m.mode.request, m.mode.k;
    WorkShape(m);
    BuildingWork(m);
    T.ProperDuration(r);
    TicksAreTicks(m.now);
    ShortBodies(r);
    if k + 1 == r.len {
      var b := Built(r, m.now);
      T.DurationsAppend(m.built, b, m.sent, |m.built|);
      T.DurationsSplit(m.built + [b], m.sent, |m.built|);
    }
  }

  lemma ShortBodies(r: TxRequest)
    requires Proper(r)
    ensures 40 < r.len <= 143
    ensures r.kind == ArpReply ==> r.len == 42 && Duration(r.len) == T.SHORTEST_FRAME
  {
  }

  lemma BuildingWork(m: Model)
    requires m.Shape() && m.mode.Building?
    ensures var r, k := m.mode.request, m.mode.k;
            Work(m) == if k + 1 == r.len then m.(built := m.built + [Built(r, m.now)], mode := Waiting)
                       else m.(mode := Building(r, k + 1))
  {
    hide Proper, AllProper, Candidate;
  }

  // A packet that asks becomes a reply in work.
  lemma AnswerWorksOff(m: Model)
    requires m.Shape() && m.mode == Parsing(27) && Dropped(m.attempts) == 0
    requires T.Bounded(m) && InTime(m) && AsksApart(m.arrived) && T.TxOnTime(m) && Calm(m)
    requires Asking(m.arrived[m.handled])
    ensures Work(m).Shape() && WorksOff(Work(m), m, 0)
  {
    hide Proper, AllProper, Candidate, AsksFrom, SinceAsk, SinceTick, T.Durations, Dropped, Work, Calm, T.TxOnTime,
      Asks, T.Total, Duration;
    WorkShape(m);
    ReadIsLast(m);
    RoomForReply(m);
    AnswerWork(m);
    LeftToRead(m);
    var ask := Asks(m.arrived[m.handled].packet).value;
    ReplyLength(ask.0, ask.1);
    CountsAppend(m.attempts, Attempt(ArpReplyRequest(ask.0, ask.1), true));
    hide ArpReplyRequest;
  }

  lemma ReplyLength(mac: Mac, ip: Ip)
    ensures ArpReplyRequest(mac, ip).kind == ArpReply && ArpReplyRequest(mac, ip).len == 42
    ensures Duration(ArpReplyRequest(mac, ip).len) == T.SHORTEST_FRAME
  {
  }

  lemma LeftToRead(m: Model)
    requires m.Shape() && m.mode == Parsing(27) && T.Bounded(m)
    ensures T.Age(m, m.handled) <= 170
  {
    hide Proper, AllProper, Candidate, T.Age;
    assert T.WorkTo(m, m.handled) == 42;
  }

  lemma AnswerWork(m: Model)
    requires m.Shape() && m.mode == Parsing(27) && Asking(m.arrived[m.handled]) && |m.TxPending()| < 4
    ensures var ask := Asks(m.arrived[m.handled].packet).value;
            var r := ArpReplyRequest(ask.0, ask.1);
            Work(m) == m.(handled := m.handled + 1, attempts := m.attempts + [Attempt(r, true)],
                          mode := Building(r, 1))
  {
    hide Proper, AllProper, Candidate, Asks;
  }

  // Any other packet is worked off without a trace.
  lemma PacketWorksOff(m: Model)
    requires m.Shape() && Dropped(m.attempts) == 0
    requires m.mode.Parsing? || (m.mode.Waiting? && m.handled < |m.arrived|)
    requires m.mode == Parsing(27) ==> !Asking(m.arrived[m.handled])
    ensures Work(m).Shape() && WorksOff(Work(m), m, 0)
  {
    hide Proper, AllProper, AsksFrom, SinceAsk, SinceTick, T.Durations, Dropped, Work, Duration, Asking;
    WorkShape(m);
    PacketWork(m);
    AsksFromNext(m.arrived, m.handled);
  }

  lemma PacketWork(m: Model)
    requires m.Shape()
    requires m.mode.Parsing? || (m.mode.Waiting? && m.handled < |m.arrived|)
    requires m.mode == Parsing(27) ==> !Asking(m.arrived[m.handled])
    ensures var w := Work(m);
            && w == m.(mode := w.mode, handled := w.handled, discarded := w.discarded)
            && !w.mode.Building?
            && (w.handled == m.handled || (w.handled == m.handled + 1 && !Asking(m.arrived[m.handled])))
  {
    hide Proper, AllProper, ParseArpIpv4Request;
  }

  // The body a timer asks for in this cycle, if any.
  function Due(m: Model): Option<TxRequest> {
    if TicksAt(m.now).gratuitousArp then Some(GratuitousArpRequest())
    else if TicksAt(m.now).beacon then Some(TruthfulBeacon(m))
    else None
  }

  lemma TimerWork(m: Model)
    requires m.Shape() && m.mode.Waiting? && m.handled == |m.arrived|
    requires Due(m).Some? ==> |m.TxPending()| < 4
    ensures Work(m) == match Due(m)
                       case None => m
                       case Some(r) => m.(attempts := m.attempts + [Attempt(r, true)], mode := Building(r, 1))
  {
    hide Proper, AllProper, Candidate, TicksAt, Replies, Dropped, KeptBeacons;
    DueFacts(m);
  }

  lemma DueFacts(m: Model)
    ensures match Due(m)
            case None => !Ticks(m.now)
            case Some(r) => Ticks(m.now) && r.kind != ArpReply && r.len > 1 && 0 < Duration(r.len) <= T.LONGEST_FRAME
  {
    hide TicksAt, Ticks, Replies, Dropped, KeptBeacons;
    TicksAreTicks(m.now);
    T.TimerRequests(m);
    N.TimerKinds(m);
  }

  // A timer's frame is taken on only when nothing else waits.
  lemma TimerWorksOff(m: Model) returns (extra: nat)
    requires m.Shape() && m.mode.Waiting? && m.handled == |m.arrived| && Dropped(m.attempts) == 0
    requires T.TxOnTime(m) && Calm(m) && SinceAsk(m.arrived, m.now) >= 0
    ensures Work(m).Shape() && WorksOff(Work(m), m, extra)
  {
    hide Proper, AllProper, Candidate, SinceAsk, SinceTick, T.Durations, Dropped, Work, Calm, T.TxOnTime, Due,
      Duration, Asking;
    WorkShape(m);
    DueFacts(m);
    TicksAreTicks(m.now);
    if Due(m).Some? {
      RoomForTick(m);
      CountsAppend(m.attempts, Attempt(Due(m).value, true));
      extra := Duration(Due(m).value.len);
    } else {
      extra := 0;
    }
    TimerWork(m);
  }

  // Every cycle of the handler is one of these.
  lemma EveryCycleWorksOff(m: Model) returns (extra: nat)
    requires m.Shape() && Calm(m) && BuildsInTime(m) && Dropped(m.attempts) == 0
    requires T.Bounded(m) && InTime(m) && AsksApart(m.arrived) && T.TxOnTime(m) && SinceAsk(m.arrived, m.now) >= 0
    ensures Work(m).Shape() && WorksOff(Work(m), m, extra)
  {
    hide Work, WorksOff, Calm, BuildsInTime, T.Bounded, InTime, AsksApart, T.TxOnTime, SinceAsk, Asking, Proper,
      AllProper, Candidate, Dropped;
    extra := 0;
    if m.mode.Building? {
      BuildingWorksOff(m);
    } else if m.mode == Parsing(27) && Asking(m.arrived[m.handled]) {
      AnswerWorksOff(m);
    } else if m.mode.Parsing? || m.handled < |m.arrived| {
      PacketWorksOff(m);
    } else {
      extra := TimerWorksOff(m);
    }
  }

  // ----- The transmit side ----------------------------------------------------------

  lemma TransmitOwes(w: Model)
    requires w.Shape() && T.TxOnTime(w)
    ensures var m' := Transmit(w);
            && m'.Shape() && m'.arrived == w.arrived && m'.handled == w.handled && m'.mode == w.mode
            && m'.attempts == w.attempts && m'.now == w.now + 1
            && Owed(m') == (if w.sent < |w.built| then Owed(w) - 1 else Owed(w))
            && (w.sent == |w.built| ==> Ahead(m') == 0)
  {
    hide Proper, AllProper, Candidate, Asking, AsksFrom, Duration, TxLine, DecodeStep, T.TxWorkBefore, T.Durations;
    TransmitAhead(w);
    TransmitLeaves(w);
  }

  lemma TransmitLeaves(w: Model)
    requires w.Shape()
    ensures var m' := Transmit(w);
            && m'.arrived == w.arrived && m'.handled == w.handled && m'.mode == w.mode && m'.attempts == w.attempts
            && m'.now == w.now + 1
  {
    hide Proper, AllProper, Candidate, NextAge, TxLine, DecodeStep;
  }

  lemma TransmitAhead(w: Model)
    requires w.Shape() && T.TxOnTime(w)
    ensures var m' := Transmit(w);
            && m'.Shape() && w.sent <= |w.built|
            && Ahead(m') == (if w.sent < |w.built| then Ahead(w) - 1 else Ahead(w))
            && (w.sent == |w.built| ==> Ahead(m') == 0)
  {
    hide Proper, AllProper, Candidate, Duration, TxLine, DecodeStep, T.TxWorkBefore;
    N.TransmitMoves(w);
    if w.sent < |w.built| {
      T.DurationsSplitFirst(w.built, w.sent, |w.built|);
    }
    hide T.Durations;
  }

  lemma SinceAskNext(arrived: seq<Arrival>, now: nat)
    ensures SinceAsk(arrived, now + 1) == SinceAsk(arrived, now) + 1
         || (SinceAsk(arrived, now + 1) == SinceAsk(arrived, now) == 1000)
    decreases |arrived|
  {
    hide Asking;
    if arrived != [] {
      SinceAskNext(arrived[..|arrived| - 1], now);
    }
  }

  lemma AskShareNext(arrived: seq<Arrival>, now: nat)
    ensures AskShare(SinceAsk(arrived, now + 1)) >= AskShare(SinceAsk(arrived, now)) - T.SHORTEST_FRAME
  {
    hide SinceAsk;
    SinceAskNext(arrived, now);
  }

  lemma TickShareNext(now: nat)
    ensures TickShare(SinceTick(now + 1)) >= TickShare(SinceTick(now)) - 44
    ensures Ticks(now) ==> TickShare(SinceTick(now)) == 0 && TickShare(SinceTick(now + 1)) == APART * T.LONGEST_FRAME
  {
    hide SinceTick, TicksAt;
    TicksAreTicks(now);
  }

  lemma BuildsInTimeNext(w: Model, m': Model)
    requires w.Shape() && m'.Shape() && WillBuildInTime(w)
    requires m'.arrived == w.arrived && m'.handled == w.handled && m'.mode == w.mode && m'.now == w.now + 1
    ensures BuildsInTime(m')
  {
    hide Proper, AllProper, Candidate, AsksFrom, SinceAsk, SinceTick, Asking;
    SinceAskNext(w.arrived, w.now);
  }

  // With nothing on the line, little is owed.
  lemma IdleIsCalm(m: Model)
    requires m.Shape() && Ahead(m) == 0 && BuildsInTime(m) && InTime(m) && AsksApart(m.arrived)
    ensures Calm(m)
  {
    hide Proper, AllProper, Candidate, AsksFrom, SinceAsk, SinceTick, Ahead, Asking, Duration, AsksApart, InTime;
    OneAsks(m);
    if m.mode.Building? {
      ShortBodies(m.mode.request);
      T.ProperDuration(m.mode.request);
    }
  }

  lemma BusyIsCalm(m: Model, w: Model, m': Model, extra: nat)
    requires m.Shape() && w.Shape() && m'.Shape() && Calm(m) && WorksOff(w, m, extra)
    requires Owed(m') == Owed(w) - 1 && m'.arrived == m.arrived && m'.now == m.now + 1
    ensures Calm(m')
  {
    hide Proper, AllProper, Candidate, AsksFrom, SinceAsk, SinceTick, Owed, WillBuildInTime, Dropped, AskShare,
      TickShare, Ticks;
    AskShareNext(m.arrived, m.now);
    TickShareNext(m.now);
  }

  // Nothing is dropped in a cycle, and the endpoint stays calm.
  lemma StepRelaxed(m: Model, x: Sample)
    requires m.Shape() && Relaxed(m) && T.OnTime(m) && T.TxOnTime(m) && G.InThePast(m)
    requires AsksApart(Step(m, x).arrived) && InTime(Step(m, x))
    ensures Relaxed(Step(m, x))
  {
    hide Receive, Work, Transmit, Calm, BuildsInTime, T.Bounded, InTime, AsksApart, T.TxOnTime, T.OnTime, SinceAsk,
      Proper, AllProper, Candidate, Dropped, Owed, Ahead, WillBuildInTime, G.InThePast;
    ReceiveShape(m, x);
    var m1 := Receive(m, x);
    T.ReceiveOnTime(m, x);
    T.ReceiveTxOnTime(m, x);
    WorkChanges(m1);
    N.TransmitMoves(Work(m1));
    TransmitLeaves(Work(m1));
    ReceiveRelaxed(m, x);
    AgesAfterReceive(m, x);
    BoundedInTime(m1);
    var extra := EveryCycleWorksOff(m1);
    var w := Work(m1);
    T.WorkKeepsTxOnTime(m1);
    TransmitOwes(w);
    var m' := Step(m, x);
    BuildsInTimeNext(w, m');
    if w.sent < |w.built| {
      BusyIsCalm(m1, w, m', extra);
    } else {
      IdleIsCalm(m');
    }
  }

  lemma AgesAfterReceive(m: Model, x: Sample)
    requires m.Shape() && G.InThePast(m)
    ensures Receive(m, x).Shape()
    ensures var m1 := Receive(m, x);
            && (forall i: nat | i < |m1.arrived| :: T.Age(m1, i) >= 0)
            && SinceAsk(m1.arrived, m1.now) >= 0
  {
    hide Receive, Asking, Proper, AllProper, Candidate, SinceAsk;
    E.ReceiveLeaves(m, x);
    ArrivalOf(m, x);
    var m1 := Receive(m, x);
    SinceAskPositive(m1.arrived, m1.now);
  }

  lemma {:induction false} SinceAskPositive(arrived: seq<Arrival>, now: nat)
    requires forall i | 0 <= i < |arrived| :: arrived[i].time <= now
    ensures SinceAsk(arrived, now) >= 0
    decreases |arrived|
  {
    hide Asking;
    if arrived != [] {
      SinceAskPositive(arrived[..|arrived| - 1], now);
    }
  }

  // ----- Every run ------------------------------------------------------------------

  // Where the packets come from.
  ghost predicate From(arrived: seq<Arrival>, xs: seq<Sample>) {
    forall i | 0 <= i < |arrived| ::
      && arrived[i].time < |xs|
      && PacketAt(Decode(xs[..arrived[i].time]), xs[arrived[i].time]) == Some(arrived[i].packet)
  }

  lemma FromLonger(arrived: seq<Arrival>, xs: seq<Sample>, x: Sample)
    requires From(arrived, xs)
    ensures From(arrived, xs + [x])
  {
    hide PacketAt, Decode;
    var all := xs + [x];
    forall i | 0 <= i < |arrived|
      ensures all[..arrived[i].time] == xs[..arrived[i].time] && all[arrived[i].time] == xs[arrived[i].time]
    {
    }
  }

  lemma NewFrom(m: Model, xs: seq<Sample>, x: Sample)
    requires m.Shape() && m.now == |xs| && m.seen == Decode(xs) && From(m.arrived, xs)
    ensures From(Step(m, x).arrived, xs + [x])
  {
    hide PacketAt, Decode, Work, Transmit, From, Model.Shape;
    ReceiveShape(m, x);
    WorkChanges(Receive(m, x));
    N.TransmitMoves(Work(Receive(m, x)));
    TransmitLeaves(Work(Receive(m, x)));
    FromLonger(m.arrived, xs, x);
    FromAppend(m.arrived, xs, x);
  }

  lemma FromAppend(arrived: seq<Arrival>, xs: seq<Sample>, x: Sample)
    requires From(arrived, xs + [x])
    ensures PacketAt(Decode(xs), x).Some? ==>
      From(arrived + [Arrival(PacketAt(Decode(xs), x).value, |xs|)], xs + [x])
  {
    hide PacketAt, Decode;
    assert (xs + [x])[..|xs|] == xs;
  }

  lemma {:induction false} RunFrom(xs: seq<Sample>)
    ensures From(Run(xs).arrived, xs)
    decreases |xs|
  {
    hide Step, Model.Shape, From, Decode, E.TxLines;
    if xs == [] {
      NoneFrom();
    } else {
      var init, x := xs[..|xs| - 1], xs[|xs| - 1];
      assert xs == init + [x];
      RunFrom(init);
      E.RunReads(init);
      NewFrom(Run(init), init, x);
    }
  }

  lemma NoneFrom()
    ensures From(RESET.arrived, [])
  {
  }

  lemma {:induction false} TimesIncrease(arrived: seq<Arrival>, i: nat, j: nat)
    requires T.FarApart(arrived) && i < j < |arrived|
    ensures arrived[i].time < arrived[j].time
    decreases j
  {
    if i + 1 < j {
      TimesIncrease(arrived, i, j - 1);
    }
  }

  // The requests among the packets are as far apart as they are on the line.
  lemma PacedIsApart(xs: seq<Sample>)
    requires Paced(xs)
    ensures AsksApart(Run(xs).arrived)
  {
    hide Run, Decode, PacketAt, Asks, T.Bounded;
    RunFrom(xs);
    T.RunOnTime(xs);
    var arrived := Run(xs).arrived;
    forall i, j | 0 <= i < j < |arrived| && Asking(arrived[i]) && Asking(arrived[j])
      ensures arrived[i].time + APART <= arrived[j].time
    {
      TimesIncrease(arrived, i, j);
      assert AskEndsAt(xs, arrived[i].time) && AskEndsAt(xs, arrived[j].time);
    }
  }

  lemma RunInTime(xs: seq<Sample>)
    ensures InTime(Run(xs))
  {
    hide Run, Model.Shape, T.Bounded, T.Spaced;
    T.RunOnTime(xs);
    G.RunInThePast(xs);
    BoundedInTime(Run(xs));
  }

  lemma PacedBefore(xs: seq<Sample>, x: Sample)
    requires Paced(xs + [x])
    ensures Paced(xs)
  {
    hide AskEndsAt;
    var all := xs + [x];
    forall i | 0 <= i < |xs|
      ensures AskEndsAt(xs, i) == AskEndsAt(all, i)
    {
      AskEndsBefore(xs, x, i);
    }
  }

  lemma AskEndsBefore(xs: seq<Sample>, x: Sample, i: nat)
    requires i < |xs|
    ensures AskEndsAt(xs, i) == AskEndsAt(xs + [x], i)
  {
    hide PacketAt, Decode, Asks;
    assert (xs + [x])[..i] == xs[..i];
  }

  lemma {:induction false} RunRelaxed(xs: seq<Sample>)
    requires Paced(xs)
    ensures Relaxed(Run(xs))
    decreases |xs|
  {
    hide Step, Model.Shape, Relaxed, Paced, T.OnTime, T.TxOnTime, InTime, AsksApart, G.InThePast;
    if xs == [] {
      ResetRelaxed();
    } else {
      var init, x := xs[..|xs| - 1], xs[|xs| - 1];
      assert xs == init + [x];
      PacedBefore(init, x);
      RunRelaxed(init);
      T.RunOnTime(init);
      T.RunTxOnTime(init);
      G.RunInThePast(init);
      PacedIsApart(xs);
      RunInTime(xs);
      StepRelaxed(Run(init), x);
    }
  }

  lemma ResetRelaxed()
    ensures Relaxed(RESET)
  {
    hide Asking;
  }

  // When requests end at least 213 cycles apart, nothing is ever dropped, whatever else is on
  // the line: every request has its reply complete on the transmit line 1695 cycles later,
  // and each station has as many frames addressed to it there as it asked for.
  lemma AllAnswered(xs: seq<Sample>, n: nat, mac: Mac)
    requires Paced(xs)
    ensures E.Run(xs).txQueue.dropCount == 0 && Dropped(Run(xs).attempts) == 0
    ensures n + 1695 <= |xs| ==>
      && N.Askers(N.PacketsOf(Decode(xs[..n]).done)) <= N.Targets(G.SentRequests(Run(xs)))
      && L.AddressedTo(Decode(E.TxLines(xs)).done, mac)
           >= L.TimesAmong(N.Askers(N.PacketsOf(Decode(xs[..n]).done)), mac)
    ensures N.AllRequests(G.SentRequests(Run(xs)))
    ensures Decode(E.TxLines(xs)).done == N.FramesOf(G.SentRequests(Run(xs)))
  {
    hide Run, E.Run, E.TxLines, Decode, Model.Shape, Calm, BuildsInTime, Dropped, N.Askers, N.PacketsOf, N.Targets,
      G.SentRequests, N.FramesOf, N.AllRequests, E.Follows, Paced, L.AddressedTo, L.TimesAmong;
    RunRelaxed(xs);
    E.RunFollows(xs);
    G.CountersTell(E.Run(xs), Run(xs));
    Count32Zero();
    G.FramesSent(xs);
    if n + 1695 <= |xs| {
      G.Prompt(xs, n);
      var sent := G.SentRequests(Run(xs));
      L.RepliesAddressed(sent, mac);
      L.TimesAmongPrefix(N.Askers(N.PacketsOf(Decode(xs[..n]).done)), N.Targets(sent), mac);
    }
  }
}
