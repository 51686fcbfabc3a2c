/** Which requests are answered.

  A reply is called for in the cycle in which the last of its 28 bytes is read, and is kept
  if the transmit ring has a free slot in that very cycle. `ReplyIsKept` says so of a single
  cycle in terms of the registers, and `RepliesAreKept` of whole runs: the replies kept are
  exactly those called for in such cycles, in that order.
 */
module Answers {

  import opened Words
  import opened Mii
  import opened RxQueue
  import opened TxQueue
  import opened Arp
  import opened TxPayloads
  import opened Protocol
  import opened Reference
  import N = EndToEnd
  import E = Endpoint
  import G = Guarantees

  // Whom a reply is called for in this cycle, if anyone: what the registers say with the
  // last byte of the packet that is being read.
  function CalledFor(e: E.Endpoint, x: Sample): Option<(Mac, Ip)>
    requires e.Shape()
  {
    var (_, q) := RxStep(e.rx, e.rxQueue, x);
    var p := e.proto;
    if p.preparing || p.state != ProtoParseArp || p.parseIndex != 27 then None
    else
      var regs := ArpByte(p.regs, p.parseIndex, q.bytes[p.parseSlot][p.parseIndex]);
      if regs.IsRequestForUs() then Some((regs.senderMac, regs.senderIp)) else None
  }

  // The same of the reference model, after receiving.
  function ModelCalls(m: Model): Option<(Mac, Ip)>
    requires m.Shape()
  {
    if m.mode.Parsing? && m.mode.k == 27 then Asks(m.arrived[m.handled].packet) else None
  }

  lemma CallsFollow(e: E.Endpoint, m: Model, x: Sample)
    requires m.Shape() && E.Follows(e, m) && e.Shape()
    ensures Receive(m, x).Shape()
    ensures CalledFor(e, x) == ModelCalls(Receive(m, x))
  {
    hide RxStep, E.TxPart, E.RxPart, TxFollows, E.CountersFollow, Proper, AllProper, Candidate, Receive,
      Timers.TimersAt, TxPayloads.FrameBody, RegsAfter, Asks, ArpByte, ArpRegs.IsRequestForUs;
    ReceiveShape(m, x);
    E.ReceiveFollows(e.rx, e.rxQueue, m, x);
    var (rx, q) := RxStep(e.rx, e.rxQueue, x);
    E.ReceiveKeeps(e.proto, e.rxQueue, q, e.txQueue, m, x);
    var m1 := Receive(m, x);
    if m1.mode.Parsing? && m1.mode.k == 27 {
      E.LastByteDecides(e.proto, rx, q, e.txQueue, m1);
    }
  }

  // The reply kept in the last cycle, if any.
  function NewReply(before: seq<Attempt>, after: seq<Attempt>): seq<(Mac, Ip)> {
    if |after| == |before| + 1 && after[|before|].kept then N.TargetOf(Some(after[|before|].request)) else []
  }

  function OneIf(call: Option<(Mac, Ip)>, room: bool): seq<(Mac, Ip)> {
    if call.Some? && room then [call.value] else []
  }

  lemma ModelReplyIsKept(m: Model, x: Sample)
    requires m.Shape()
    ensures Receive(m, x).Shape() && m.sent <= |m.built|
    ensures m.attempts <= Step(m, x).attempts && |Step(m, x).attempts| <= |m.attempts| + 1
    ensures NewReply(m.attempts, Step(m, x).attempts)
         == OneIf(ModelCalls(Receive(m, x)), |m.TxPending()| < 4)
  {
    hide Work, Model.Shape, ModelCalls, DecodeStep, PacketAt, TxLine, NextAge, NewReply, OneIf;
    E.ReceiveLeaves(m, x);
    var m1 := Receive(m, x);
    WorkChanges(m1);
    WorkReplies(m1);
    PendingKept(m, m1);
  }

  lemma PendingKept(m: Model, m1: Model)
    requires m.Shape() && m1.Shape() && m1.built == m.built && m1.sent == m.sent
    ensures m.sent <= |m.built| && m1.TxPending() == m.TxPending()
  {
    hide Proper, AllProper, Candidate;
  }

  lemma WorkReplies(m: Model)
    requires m.Shape()
    ensures m.sent <= |m.built|
    ensures m.attempts <= Work(m).attempts && |Work(m).attempts| <= |m.attempts| + 1
    ensures NewReply(m.attempts, Work(m).attempts) == OneIf(ModelCalls(m), |m.TxPending()| < 4)
  {
    hide Proper, AllProper, Candidate, Asks, TruthfulBeacon, GratuitousArpRequest, Timers.TicksAt;
    ServeShape(m);
    N.TimerKinds(m);
  }

  // The reply that is kept in a cycle is the one that the registers call for, if the transmit
  // ring has a free slot, and there is none otherwise.
  lemma ReplyIsKept(xs: seq<Sample>, x: Sample)
    ensures Run(xs).attempts <= Run(xs + [x]).attempts && |Run(xs + [x]).attempts| <= |Run(xs).attempts| + 1
    ensures NewReply(Run(xs).attempts, Run(xs + [x]).attempts)
         == OneIf(CalledFor(E.Run(xs), x), E.Run(xs).txQueue.WriteSlotAvailable())
  {
    hide Run, E.Run, Step, Receive, Model.Shape, E.Follows, E.Endpoint.Shape, CalledFor, ModelCalls, NewReply, OneIf,
      Decode, E.TxLines;
    E.RunFollows(xs);
    RunNext(xs, x);
    ModelReplyIsKept(Run(xs), x);
    CallsFollow(E.Run(xs), Run(xs), x);
    G.FreeSlot(E.Run(xs), Run(xs));
  }

  // The replies called for when there was a free slot.
  function Answered(xs: seq<Sample>): seq<(Mac, Ip)>
    decreases |xs|
  {
    if xs == [] then []
    else
      var init, x := xs[..|xs| - 1], xs[|xs| - 1];
      Answered(init) + OneIf(CalledFor(E.Run(init), x), E.Run(init).txQueue.WriteSlotAvailable())
  }

  lemma KeptRepliesGrow(before: seq<Attempt>, after: seq<Attempt>)
    requires before <= after && |after| <= |before| + 1
    ensures N.Targets(N.Kept(after)) == N.Targets(N.Kept(before)) + NewReply(before, after)
  {
    hide N.Targets, N.Kept;
    if |after| == |before| {
      assert after == before;
    } else {
      assert after == before + [after[|before|]];
      N.KeptTargetsNext(before, after[|before|]);
    }
  }

  // In every run exactly these replies are kept, in this order.
  lemma {:induction false} RepliesAreKept(xs: seq<Sample>)
    ensures N.Targets(N.Kept(Run(xs).attempts)) == Answered(xs)
    decreases |xs|
  {
    hide Run, E.Run, CalledFor, NewReply, OneIf, Step, Model.Shape;
    if xs == [] {
      NoneKept();
    } else {
      var init, x := xs[..|xs| - 1], xs[|xs| - 1];
      assert xs == init + [x];
      RepliesAreKept(init);
      ReplyIsKept(init, x);
      KeptRepliesGrow(Run(init).attempts, Run(xs).attempts);
    }
  }

  lemma NoneKept()
    ensures N.Targets(N.Kept(Run([]).attempts)) == []
  {
  }
}
