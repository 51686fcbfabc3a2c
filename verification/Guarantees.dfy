/** What holds of the endpoint over every run from reset, whatever arrives.

  The lemmas here speak about the pins and the registers of the endpoint. They put together
  what was proved about the reference model: `EndToEnd` what the transmit line may show,
  `Accounting` that nothing is lost uncounted, `Prompt` that nothing waits for ever.
 */
module Guarantees {

  import opened Words
  import opened Mii
  import opened FrameParser
  import opened PacketQueue
  import opened Arp
  import opened TxPayloads
  import opened Framer
  import opened TxQueue
  import opened RxQueue
  import opened Reference
  import T = Timing
  import E = Endpoint
  import N = EndToEnd
  import B = Beacons
  import RT = RoundTrip

  // ----- Which frames ask -----------------------------------------------------------

  // Whom a frame asks to be answered, if anyone.
  function FrameAsks(f: RawFrame): Option<(Mac, Ip)> {
    var p := ParseFrame(f);
    if p.Some? then Asks(p.value) else None
  }

  // The data bytes of a frame that asks, in numbers: sent to 02:00:00:00:00:01 or to everyone,
  // an ARP request (RFC 826) for 192.168.1.100, with 14 bytes of Ethernet header before it and
  // 4 bytes of check sequence after it.
  predicate IsRequest(d: seq<Byte>, mac: Mac, ip: Ip) {
    && |d| >= 46
    && (d[..6] == [2, 0, 0, 0, 0, 1] || d[..6] == [0xFF, 0xFF, 0xFF, 0xFF, 0xFF, 0xFF])
    && d[12..22] == [8, 6, 0, 1, 8, 0, 6, 4, 0, 1]
    && d[22..28] == mac && d[28..32] == ip
    && d[38..42] == [192, 168, 1, 100]
  }

  lemma SameSlice(d: seq<Byte>, b: seq<Byte>, i: nat, j: nat)
    requires |d| >= 42 && b == d[14..42] && i <= j <= 28
    ensures b[i..j] == d[14 + i..14 + j]
  {
    forall k | 0 <= k < j - i
      ensures b[i..j][k] == d[14 + i..14 + j][k]
    {
      assert b[i..j][k] == b[i + k] == d[14 + i + k];
    }
  }

  lemma Fields(d: seq<Byte>, b: seq<Byte>)
    requires |d| >= 42 && b == d[14..42]
    ensures b[0..2] == d[14..16] && b[2..4] == d[16..18] && b[4] == d[18] && b[5] == d[19]
    ensures b[6..8] == d[20..22] && b[8..14] == d[22..28] && b[14..18] == d[28..32] && b[24..28] == d[38..42]
  {
    SameSlice(d, b, 0, 2);
    SameSlice(d, b, 2, 4);
    SameSlice(d, b, 6, 8);
    SameSlice(d, b, 8, 14);
    SameSlice(d, b, 14, 18);
    SameSlice(d, b, 24, 28);
  }

  // The ten bytes from the EtherType to the opcode, field by field.
  lemma TypeFields(d: seq<Byte>)
    requires |d| >= 22
    ensures d[12..22] == [8, 6, 0, 1, 8, 0, 6, 4, 0, 1]
       <==> && d[12..14] == [8, 6] && d[14..16] == [0, 1] && d[16..18] == [8, 0]
            && d[18] == 6 && d[19] == 4 && d[20..22] == [0, 1]
  {
    assert d[12..22] == [d[12], d[13], d[14], d[15], d[16], d[17], d[18], d[19], d[20], d[21]];
    assert d[12..14] == [d[12], d[13]] && d[14..16] == [d[14], d[15]];
    assert d[16..18] == [d[16], d[17]] && d[20..22] == [d[20], d[21]];
  }

  lemma RequestFields(d: seq<Byte>, payload: seq<Byte>)
    requires |d| >= 18 && payload == d[14..|d| - 4]
    ensures var info := ParseArpIpv4Request(payload, 0, |payload|);
            |payload| >= 28 ==>
              && info.senderMac == d[22..28] && info.senderIp == d[28..32]
              && (info.valid <==>
                    && d[14..16] == [0, 1] && d[16..18] == [8, 0] && d[18] == 6 && d[19] == 4
                    && d[20..22] == [0, 1] && d[38..42] == [192, 168, 1, 100])
  {
    if |payload| >= 28 {
      var b := payload[0..28];
      assert b == d[14..42];
      Fields(d, b);
    }
  }

  // A frame has effect exactly if it arrived without error, is not too long, and is a
  // request for this endpoint's address. So a frame with the error line raised in any of
  // its cycles, or with more than 1500 payload bytes, has none, however long it is.
  lemma FrameAsksExactly(f: RawFrame, mac: Mac, ip: Ip)
    ensures var d := Strip(Bytes(f.nibbles));
            FrameAsks(f) == Some((mac, ip)) <==> !f.err && |d| <= 1518 && IsRequest(d, mac, ip)
  {
    hide ParseArpIpv4Request, ParseData, Strip, Bytes;
    var d := Strip(Bytes(f.nibbles));
    KeptFrames(d, f.err);
    if !f.err && 18 <= |d| <= 1518 {
      RequestFields(d, d[14..|d| - 4]);
      if |d| >= 22 {
        TypeFields(d);
      }
    }
  }

  // Such a frame and no other adds to what the endpoint may answer.
  lemma FrameAdds(frames: seq<RawFrame>, f: RawFrame)
    ensures N.Askers(N.PacketsOf(frames + [f])) ==
      N.Askers(N.PacketsOf(frames)) + if FrameAsks(f).Some? then [FrameAsks(f).value] else []
  {
    hide ParseFrame, Asks;
    assert (frames + [f])[..|frames|] == frames;
    var p, ps := ParseFrame(f), N.PacketsOf(frames);
    if p.Some? {
      assert N.PacketsOf(frames + [f]) == ps + [p.value];
      assert (ps + [p.value])[..|ps|] == ps;
    } else {
      assert N.PacketsOf(frames + [f]) == ps;
    }
  }

  // ----- What the transmit line may show --------------------------------------------

  // Requests that may be sent after these packets: the replies among them answer some of the
  // packets, and the beacons among them are numbered and consistent.
  ghost predicate Justified(rs: seq<TxRequest>, packets: seq<Packet>) {
    && N.AllRequests(rs)
    && N.Subsequence(N.Targets(rs), N.Askers(packets))
    && B.Numbered(rs)
  }

  // What there is of an unfinished frame begins the frame of a request that may come next.
  ghost predicate Continues(rs: seq<TxRequest>, f: RawFrame, packets: seq<Packet>) {
    exists r :: Proper(r) && Justified(rs + [r], packets) && !f.err && f.nibbles <= N.FrameOf(r).nibbles
  }

  // The frames on a line are exactly those of these requests, and of the one that comes next.
  ghost predicate Explains(rs: seq<TxRequest>, line: Decoded, packets: seq<Packet>) {
    && Justified(rs, packets)
    && line.done == N.FramesOf(rs)
    && (line.cur.Some? ==> Continues(rs, line.cur.value, packets))
  }

  // The requests whose frames are complete on the line.
  function SentRequests(m: Model): (rs: seq<TxRequest>)
    requires m.Shape()
    ensures |rs| <= |m.built|
  {
    N.Requests(m.built)[..N.Complete(m)]
  }

  lemma BuiltIsKept(m: Model, n: nat)
    requires m.Shape() && N.Accounted(m) && n <= |m.built|
    ensures n <= |N.Kept(m.attempts)| && N.Requests(m.built)[..n] == N.Kept(m.attempts)[..n]
  {
    hide N.Kept, N.Called, N.Askers, N.PacketsOf, Replies, Proper, AllProper, Candidate;
    assert (N.Requests(m.built) + N.Current(m))[..n] == N.Requests(m.built)[..n];
  }

  lemma TargetsOfPrefix(rs: seq<TxRequest>, n: nat)
    requires n <= |rs|
    ensures N.Targets(rs[..n]) <= N.Targets(rs)
  {
    hide N.Targets;
    N.TargetsAppend(rs[..n], rs[n..]);
    assert rs == rs[..n] + rs[n..];
  }

  lemma {:induction false} AskersAppend(a: seq<Packet>, b: seq<Packet>)
    ensures N.Askers(a) <= N.Askers(a + b)
    decreases |b|
  {
    hide Asks;
    if b == [] {
      assert a + b == a;
    } else {
      var n := |b| - 1;
      assert (a + b)[..|a + b| - 1] == a + b[..n];
      AskersAppend(a, b[..n]);
    }
  }

  lemma RepliesAnswer(m: Model, n: nat)
    requires m.Shape() && N.Accounted(m) && n <= |N.Kept(m.attempts)|
    ensures N.Subsequence(N.Targets(N.Kept(m.attempts)[..n]), N.Askers(N.PacketsOf(m.seen.done)))
  {
    hide N.Kept, N.Targets, N.Askers, N.PacketsOf, N.Subsequence, N.Requests, Replies, Proper, AllProper, Candidate,
      N.Called;
    var kept := N.Kept(m.attempts);
    N.KeptTargets(m.attempts);
    TargetsOfPrefix(kept, n);
    var t := N.Targets(kept[..n]);
    assert t == N.Targets(kept)[..|t|];
    N.PrefixOfSubsequence(N.Targets(kept), N.Called(m.attempts), |t|);
    var ps := N.Packets(m.arrived);
    AskersAppend(ps[..m.handled], ps[m.handled..]);
    assert ps == ps[..m.handled] + ps[m.handled..];
    var before, all := N.Askers(ps[..m.handled]), N.Askers(ps);
    assert all == before + all[|before|..];
    N.SubsequenceOfLonger(t, before, all[|before|..]);
  }

  lemma ShapeIsProper(m: Model)
    requires m.Shape()
    ensures AllProper(m.built)
  {
    hide Proper, Candidate;
  }

  // Whatever was built was justified.
  lemma BuiltIsJustified(m: Model, n: nat)
    requires m.Shape() && N.Accounted(m) && B.Told(m.attempts) && n <= |m.built|
    ensures Justified(N.Requests(m.built)[..n], N.PacketsOf(m.seen.done))
  {
    hide Model.Shape, N.Accounted, B.Told, B.Numbered, AllProper, N.AllRequests, N.Kept, N.Targets, N.Askers,
      N.PacketsOf, N.Subsequence, N.Requests;
    BuiltIsKept(m, n);
    ShapeIsProper(m);
    N.RequestsAreProper(m.built, n);
    RepliesAnswer(m, n);
    B.KeptNumbered(m.attempts);
    B.NumberedPrefix(N.Kept(m.attempts), n);
  }

  lemma PartialHasHead(m: Model)
    requires m.Shape() && N.Partial(m).Some?
    ensures m.sent < |m.built|
  {
    hide Proper, AllProper, Candidate, WireOf, Nibbles;
  }

  lemma OneMoreRequest(built: seq<Built>, n: nat)
    requires n < |built|
    ensures N.Requests(built)[..n + 1] == N.Requests(built)[..n] + [built[n].request]
  {
  }

  lemma PartialIsHead(m: Model)
    requires m.Shape() && N.Partial(m).Some?
    ensures m.sent < |m.built| && Proper(m.built[m.sent].request) && N.Complete(m) == m.sent
    ensures !N.Partial(m).value.err && N.Partial(m).value.nibbles <= N.FrameOf(m.built[m.sent].request).nibbles
    ensures N.Requests(m.built)[..m.sent + 1] == N.Requests(m.built)[..m.sent] + [m.built[m.sent].request]
  {
    hide Model.Shape, Proper, N.Partial, N.Complete, N.FrameOf, N.Requests;
    PartialHasHead(m);
    N.HeadIsProper(m);
    N.PartialAt(m);
    OneMoreRequest(m.built, m.sent);
  }

  lemma PartialContinues(m: Model)
    requires m.Shape() && N.Accounted(m) && B.Told(m.attempts) && N.Partial(m).Some?
    ensures Continues(SentRequests(m), N.Partial(m).value, N.PacketsOf(m.seen.done))
  {
    hide Model.Shape, N.Accounted, B.Told, N.Requests, Justified, N.Partial, N.Complete, N.FrameOf, Proper, N.PacketsOf;
    PartialIsHead(m);
    BuiltIsJustified(m, m.sent + 1);
  }

  // Every frame the endpoint ever sends is a beacon, an announcement of its own address or
  // a reply. The replies answer, in order and at most once each, requests for its address.
  lemma EndToEnd(xs: seq<Sample>)
    ensures exists rs :: Explains(rs, Decode(E.TxLines(xs)), N.PacketsOf(Decode(xs).done))
  {
    hide Run, Decode, E.TxLines, N.Accounted, Model.Shape, N.FramesOf, N.PacketsOf, B.Told, N.OnWire, Justified,
      Continues, N.Partial, N.Complete;
    var m := Run(xs);
    E.RunReads(xs);
    N.RunOnWire(xs);
    N.RunAccounted(xs);
    B.RunTold(xs);
    SentOnWire(m);
    BuiltIsJustified(m, N.Complete(m));
    if N.Partial(m).Some? {
      PartialContinues(m);
    }
    assert Explains(SentRequests(m), Decode(E.TxLines(xs)), N.PacketsOf(Decode(xs).done));
  }

  lemma SentOnWire(m: Model)
    requires m.Shape() && N.OnWire(m)
    ensures N.AllRequests(SentRequests(m))
    ensures m.shown == Decoded(N.FramesOf(SentRequests(m)), N.Partial(m))
  {
    hide Proper, N.FramesOf, N.AllRequests, N.Requests, N.Complete, N.Partial;
  }

  // The frames on the line are those of the requests that were sent.
  lemma FramesSent(xs: seq<Sample>)
    ensures N.AllRequests(SentRequests(Run(xs)))
    ensures Decode(E.TxLines(xs)).done == N.FramesOf(SentRequests(Run(xs)))
  {
    hide Run, E.TxLines, Decode, Model.Shape, N.OnWire, N.FramesOf, N.AllRequests, SentRequests, N.Partial;
    E.RunReads(xs);
    N.RunOnWire(xs);
    SentOnWire(Run(xs));
  }

  // ----- Nothing is lost uncounted --------------------------------------------------

  // The registers that the history determines.
  lemma CountersTell(e: E.Endpoint, m: Model)
    requires m.Shape() && E.Follows(e, m)
    ensures e.rxQueue.dropCount == Count32(m.rxDrops)
    ensures e.txQueue.dropCount == Count32(Dropped(m.attempts))
    ensures e.proto.rxProtocolDrops == Count32(m.discarded)
    ensures e.proto.arpReplies == Count32(Replies(m.attempts))
    ensures e.proto.beacons == Count32(KeptBeacons(m.attempts))
    ensures e.proto.preparing == m.mode.Building?
  {
    hide E.RxEntries, E.TxEntries, RxFollows, TxFollows, Ring<TxMeta>.Occupied, Ring<RxMeta>.Occupied, Proper,
      Model.Shape, FrameBody, RegsAfter, Ring<TxMeta>.Contents, Ring<RxMeta>.Contents, Timers.TimersAt;
  }

  // Every packet handled was discarded or answered by exactly one attempt to send a reply to
  // it, and every attempt was built, is being built, or is counted as a drop.
  lemma Accounting(xs: seq<Sample>)
    ensures var m, e := Run(xs), E.Run(xs);
            && m.handled <= |N.PacketsOf(Decode(xs).done)|
            && N.Called(m.attempts) == N.Askers(N.PacketsOf(Decode(xs).done)[..m.handled])
            && m.handled == m.discarded + Replies(m.attempts)
            && e.proto.rxProtocolDrops == Count32(m.discarded)
            && e.proto.arpReplies == Count32(Replies(m.attempts))
            && |m.attempts| == Dropped(m.attempts) + |m.built| + (if e.proto.preparing then 1 else 0)
            && e.txQueue.dropCount == Count32(Dropped(m.attempts))
            && e.rxQueue.dropCount == 0
  {
    hide Run, E.Run, Decode, E.Follows, Proper, AllProper, Candidate, N.Targets, N.Askers, N.PacketsOf, N.Kept,
      N.Called, Dropped, Replies, Count32;
    var m := Run(xs);
    E.RunFollows(xs);
    N.RunAccounted(xs);
    T.ReceiveRingNeverFull(xs);
    N.KeptOrDropped(m.attempts);
    CountersTell(E.Run(xs), m);
    Count32Zero();
  }

  // An attempt is kept exactly if the transmit ring has a free slot when it is made.
  lemma AttemptIsKept(xs: seq<Sample>, x: Sample)
    ensures var m, m' := Run(xs), Run(xs + [x]);
            |m'.attempts| > |m.attempts| ==>
              && |m'.attempts| == |m.attempts| + 1
              && (m'.attempts[|m.attempts|].kept <==> E.Run(xs).txQueue.WriteSlotAvailable())
  {
    hide Run, E.Run, Step, Model.Shape, E.Follows, E.Endpoint.Shape;
    var m := Run(xs);
    assert (xs + [x])[..|xs|] == xs;
    RunNext(xs, x);
    StepKeeps(m, x);
    E.RunFollows(xs);
    FreeSlot(E.Run(xs), m);
  }

  lemma FreeSlot(e: E.Endpoint, m: Model)
    requires m.Shape() && E.Follows(e, m)
    ensures e.txQueue.Shape(4, 1514)
    ensures e.txQueue.WriteSlotAvailable() <==> |m.TxPending()| < 4
  {
    hide E.RxPart, E.TxEntries, TxFollows, E.CountersFollow, E.ModeFollows, Proper, AllProper, Candidate;
    FullRingHasNoSlot(e.txQueue, |m.TxPending()|, 4, 1514);
  }

  lemma StepKeeps(m: Model, x: Sample)
    requires m.Shape()
    ensures m.sent <= |m.built|
    ensures var after := Step(m, x).attempts;
            |after| > |m.attempts| ==>
              && |after| == |m.attempts| + 1
              && (after[|m.attempts|].kept <==> |m.TxPending()| < 4)
  {
    hide Proper, AllProper, Candidate, PacketAt, DecodeStep, TxLine, NextAge, Serve;
    ReceiveShape(m, x);
    ServeShape(Receive(m, x));
    ServeChanges(Receive(m, x));
    WorkShape(Receive(m, x));
  }

  // ----- The frame toggle -----------------------------------------------------------

  lemma TogglePin(t: TxSide, q: Ring<TxMeta>)
    requires t.Shape() && TxRing(q)
    ensures var (t', q', out) := TxStep(t, q); out.toggle == t'.framer.toggle
  {
    hide FramerStep;
    var start := !t.active && q.ReadSlotValid();
    ToggleIsShown(t.framer, start, q.meta[q.readIdx].bodyLen, q.bytes[if start then q.readIdx else t.slotIdx]);
  }

  lemma FramerToggle(e: E.Endpoint, m: Model)
    requires m.Shape() && E.Follows(e, m)
    requires N.Partial(m).None?
    ensures e.tx.framer.toggle == (N.Complete(m) % 2 == 1)
  {
    hide E.RxPart, E.CountersFollow, E.ModeFollows, Proper, AllProper, Candidate, Emitting, WireOf, E.Holds,
      Ring<TxMeta>.Occupied, Nibbles;
    if m.sent < |m.built| {
      N.HeadIsProper(m);
      var q, n := e.txQueue, |m.TxPending()|;
      assert q.Contents(n)[0] == Entry(q.meta[q.readIdx], q.bytes[q.readIdx]);
      HoldsLength(q.Contents(n)[0], m.built[m.sent].request);
    }
  }

  lemma HoldsLength(e: Entry<TxMeta>, r: TxRequest)
    requires E.Holds(e, r)
    ensures e.meta.bodyLen == r.len
  {
    hide Proper, FrameBody;
  }

  // Whenever the line is quiet, the toggle pin is the number of frames sent, modulo two.
  lemma FrameToggle(xs: seq<Sample>)
    requires xs != [] && !E.LastPins(xs).line.dv
    ensures E.LastPins(xs).frameToggle == (|Decode(E.TxLines(xs)).done| % 2 == 1)
  {
    hide E.Follows, E.EndpointStep, Model.Shape, N.OnWire, DecodeStep, Proper, TxStep, N.Complete, N.Partial,
      RxStep, Protocol.ProtocolStep, N.FramesOf, N.AllRequests, N.Requests;
    E.RunFollows(xs);
    N.RunOnWire(xs);
    var m := Run(xs);
    SentOnWire(m);
    QuietLine(xs);
    FramerToggle(E.Run(xs), m);
    LastToggle(xs);
  }

  lemma LastToggle(xs: seq<Sample>)
    requires xs != []
    ensures E.LastPins(xs).frameToggle == E.Run(xs).tx.framer.toggle
  {
    hide TxStep, RxStep, Protocol.ProtocolStep;
    var e := E.Run(xs[..|xs| - 1]);
    var h := E.FirstHalf(e, xs[|xs| - 1]);
    TogglePin(h.tx, h.txQueue);
  }

  lemma QuietLine(xs: seq<Sample>)
    requires xs != [] && !E.LastPins(xs).line.dv
    ensures Decode(E.TxLines(xs)).cur.None?
  {
    hide E.EndpointStep;
    var ys := E.TxLines(xs);
    assert ys[|ys| - 1] == E.LastPins(xs).line;
  }

  // ----- Nothing waits for ever -----------------------------------------------------

  // Histories only grow.
  ghost predicate Grows(m: Model, m': Model) {
    && m.arrived <= m'.arrived && m.attempts <= m'.attempts && m.built <= m'.built
    && m.handled <= m'.handled && m.sent <= m'.sent && m.now <= m'.now
  }

  lemma StepGrows(m: Model, x: Sample)
    requires m.Shape()
    ensures Grows(m, Step(m, x))
  {
    hide Proper, AllProper, Candidate, Asks, TruthfulBeacon, PacketAt, DecodeStep, TxLine, NextAge, Work;
    ReceiveShape(m, x);
    WorkChanges(Receive(m, x));
  }

  lemma {:induction false} RunGrows(xs: seq<Sample>, n: nat)
    requires n <= |xs|
    ensures Grows(Run(xs[..n]), Run(xs))
    decreases |xs|
  {
    hide Step, Model.Shape;
    if n == |xs| {
      assert xs[..n] == xs;
    } else {
      var init := xs[..|xs| - 1];
      assert init[..n] == xs[..n];
      RunGrows(init, n);
      StepGrows(Run(init), xs[|xs| - 1]);
    }
  }

  ghost predicate InThePast(m: Model) {
    && (forall i | 0 <= i < |m.arrived| :: m.arrived[i].time < m.now)
    && (forall j | 0 <= j < |m.built| :: m.built[j].time < m.now)
  }

  lemma StepInThePast(m: Model, x: Sample)
    requires m.Shape() && InThePast(m)
    ensures InThePast(Step(m, x))
  {
    hide Proper, AllProper, Candidate, PacketAt, DecodeStep, TxLine, NextAge, Work;
    ReceiveShape(m, x);
    WorkChanges(Receive(m, x));
  }

  lemma {:induction false} RunInThePast(xs: seq<Sample>)
    ensures InThePast(Run(xs))
    decreases |xs|
  {
    hide Step, Model.Shape;
    if xs == [] {
    } else {
      RunInThePast(xs[..|xs| - 1]);
      StepInThePast(Run(xs[..|xs| - 1]), xs[|xs| - 1]);
    }
  }

  // A packet has been dealt with 212 cycles after the end of its frame.
  lemma HandledInTime(xs: seq<Sample>, n: nat)
    requires n + 212 <= |xs|
    ensures |Run(xs[..n]).arrived| <= Run(xs).handled
  {
    hide Run, E.TxLines, Model.Shape, Decode;
    var k := |Run(xs[..n]).arrived|;
    RunGrows(xs, n);
    RunInThePast(xs[..n]);
    E.RunReads(xs);
    E.RunReads(xs[..n]);
    if k > 0 {
      T.HandledByDeadline(xs, k - 1);
    }
  }

  lemma PacketsGrow(a: seq<Arrival>, b: seq<Arrival>)
    requires a <= b
    ensures N.Packets(b)[..|a|] == N.Packets(a)
  {
  }

  // Attempted replies and packets handled, over a run.
  lemma RepliesSoFar(xs: seq<Sample>)
    ensures var m := Run(xs);
            && m.handled <= |m.arrived|
            && N.Packets(m.arrived) == N.PacketsOf(Decode(xs).done)
            && N.Called(m.attempts) == N.Askers(N.Packets(m.arrived)[..m.handled])
  {
    hide Run, E.TxLines, Decode, N.Askers, N.Targets, N.PacketsOf, N.Called, N.Kept, Replies, N.Packets, Proper,
      AllProper, Candidate;
    E.RunReads(xs);
    N.RunAccounted(xs);
  }

  // Within 212 cycles of its last nibble, every request for the endpoint's address has led
  // to an attempt to answer it.
  lemma AttemptedInTime(xs: seq<Sample>, n: nat)
    requires n + 212 <= |xs|
    ensures N.Askers(N.PacketsOf(Decode(xs[..n]).done)) <= N.Called(Run(xs).attempts)
  {
    hide Run, E.TxLines, Decode, Model.Shape, N.Askers, N.Targets, N.PacketsOf, N.Called, N.Packets, Asks;
    var m0, m := Run(xs[..n]), Run(xs);
    HandledInTime(xs, n);
    RunGrows(xs, n);
    RepliesSoFar(xs[..n]);
    RepliesSoFar(xs);
    PacketsGrow(m0.arrived, m.arrived);
    var ps, k := N.Packets(m.arrived), |m0.arrived|;
    assert ps[..m.handled] == ps[..k] + ps[k..m.handled];
    AskersAppend(ps[..k], ps[k..m.handled]);
  }

  // A body under construction gets its next byte, or is put into the ring.
  lemma StepBuilds(m: Model, x: Sample)
    requires m.Shape() && m.mode.Building?
    ensures var r, k, m' := m.mode.request, m.mode.k, Step(m, x);
            if k + 1 == r.len then m'.built == m.built + [Built(r, m.now)]
            else m'.built == m.built && m'.mode == Building(r, k + 1)
  {
    hide Proper, AllProper, Candidate, PacketAt, DecodeStep, TxLine, NextAge;
    ReceiveShape(m, x);
    WorkShape(Receive(m, x));
  }

  lemma {:induction false} BuildFinishes(xs: seq<Sample>, n: nat)
    requires n <= |xs|
    requires Run(xs[..n]).mode.Building?
    requires n + Run(xs[..n]).mode.request.len - Run(xs[..n]).mode.k <= |xs|
    ensures var m0 := Run(xs[..n]);
            Taken(m0) <= N.Requests(Run(xs).built)
    decreases |xs| - n
  {
    hide Step, Proper, AllProper, Candidate;
    var m0 := Run(xs[..n]);
    var r, k := m0.mode.request, m0.mode.k;
    var next := xs[..n + 1];
    assert next[..n] == xs[..n];
    StepBuilds(m0, xs[n]);
    if k + 1 == r.len {
      RunGrows(xs, n + 1);
    } else {
      BuildFinishes(xs, n + 1);
    }
  }

  // The requests that have a slot, the one under construction last.
  function Taken(m: Model): seq<TxRequest> { N.Requests(m.built) + N.Current(m) }

  lemma TakenIsBuilt(m: Model, built: seq<Built>)
    requires m.built <= built && !m.mode.Building?
    ensures Taken(m) <= N.Requests(built)
  {
    BuiltGrows(m.built, built);
  }

  lemma BuiltInTime(xs: seq<Sample>, n: nat)
    requires n + T.LONGEST_BUILD + 1 <= |xs|
    ensures Taken(Run(xs[..n])) <= N.Requests(Run(xs).built)
  {
    hide Run, Candidate, AllProper, Proper, Taken, N.Requests;
    var m0 := Run(xs[..n]);
    RunGrows(xs, n);
    if m0.mode.Building? {
      ShortBuild(m0);
      BuildFinishes(xs, n);
    } else {
      TakenIsBuilt(m0, Run(xs).built);
    }
  }

  lemma ShortBuild(m: Model)
    requires m.Shape() && m.mode.Building?
    ensures m.mode.request.len - m.mode.k <= T.LONGEST_BUILD + 1
  {
    hide Candidate, AllProper;
  }

  // A request that found a slot has been sent within 143 cycles of building and the time of
  // four of the longest frames.
  lemma SentInTime(xs: seq<Sample>, n: nat)
    requires n + 1483 <= |xs|
    ensures N.Kept(Run(xs[..n]).attempts) <= SentRequests(Run(xs))
  {
    hide Run, Decode, E.Follows, Model.Shape, N.Askers, N.Targets, N.PacketsOf, N.Called, N.Kept, Replies,
      N.Packets, N.Requests, N.Current;
    var p := n + T.LONGEST_BUILD + 1;
    var m1, m := Run(xs[..p]), Run(xs);
    assert xs[..p][..n] == xs[..n];
    N.RunAccounted(xs[..n]);
    BuiltInTime(xs[..p], n);
    RingIsSent(xs, p);
    BuiltGrows(m1.built, m.built);
  }

  // What was in the transmit ring has left it.
  lemma RingIsSent(xs: seq<Sample>, n: nat)
    requires n + T.TX_DEADLINE <= |xs|
    ensures Run(xs[..n]).built <= Run(xs).built && |Run(xs[..n]).built| <= Run(xs).sent
  {
    hide Run, E.TxLines, Decode, Model.Shape;
    RunGrows(xs, n);
    RunInThePast(xs[..n]);
    E.RunReads(xs);
    E.RunReads(xs[..n]);
    var k := |Run(xs[..n]).built|;
    if k > 0 {
      T.SentByDeadline(xs, k - 1);
    }
  }

  lemma BuiltGrows(a: seq<Built>, b: seq<Built>)
    requires a <= b
    ensures N.Requests(a) <= N.Requests(b)
  {
  }

  lemma {:induction false} NoneDropped(attempts: seq<Attempt>)
    requires Dropped(attempts) == 0
    ensures N.Targets(N.Kept(attempts)) == N.Called(attempts)
    decreases |attempts|
  {
    if attempts != [] {
      var init, a := attempts[..|attempts| - 1], attempts[|attempts| - 1];
      assert attempts == init + [a];
      NoneDropped(init);
      N.KeptTargetsNext(init, a);
      hide N.Kept, N.Targets;
    }
  }

  lemma {:induction false} DroppedGrows(a: seq<Attempt>, b: seq<Attempt>)
    requires a <= b
    ensures Dropped(a) <= Dropped(b)
    decreases |b|
  {
    if |a| < |b| {
      assert a <= b[..|b| - 1];
      DroppedGrows(a, b[..|b| - 1]);
    } else {
      assert a == b;
    }
  }

  // Within 1695 cycles, every request for the endpoint's address has its reply complete on
  // the transmit line, in order, unless the transmit ring was ever full.
  lemma Prompt(xs: seq<Sample>, n: nat)
    requires n + 1695 <= |xs|
    ensures var m := Run(xs[..n + 212]);
            && N.Askers(N.PacketsOf(Decode(xs[..n]).done)) <= N.Called(m.attempts)
            && N.Kept(m.attempts) <= SentRequests(Run(xs))
    ensures Dropped(Run(xs).attempts) == 0 ==>
      N.Askers(N.PacketsOf(Decode(xs[..n]).done)) <= N.Targets(SentRequests(Run(xs)))
    ensures N.AllRequests(SentRequests(Run(xs)))
    ensures Decode(E.TxLines(xs)).done == N.FramesOf(SentRequests(Run(xs)))
  {
    hide Run, E.TxLines, Decode, Model.Shape, N.Askers, N.Targets, N.PacketsOf, N.Called, N.Kept, SentRequests, Dropped,
      N.FramesOf, N.AllRequests;
    FramesSent(xs);
    var p := n + 212;
    var m := Run(xs[..p]);
    assert xs[..p][..n] == xs[..n];
    AttemptedInTime(xs[..p], n);
    SentInTime(xs, p);
    if Dropped(Run(xs).attempts) == 0 {
      RunGrows(xs, p);
      DroppedGrows(m.attempts, Run(xs).attempts);
      NoneDropped(m.attempts);
      var sent := SentRequests(Run(xs));
      assert sent[..|N.Kept(m.attempts)|] == N.Kept(m.attempts);
      TargetsOfPrefix(sent, |N.Kept(m.attempts)|);
    }
  }

  // ----- No reply loops -------------------------------------------------------------

  // An endpoint that hears nothing but frames of such endpoints never answers.
  lemma HearsOwnKind(xs: seq<Sample>, rs: seq<TxRequest>)
    requires N.AllRequests(rs) && Decode(xs).done == N.FramesOf(rs)
    ensures Replies(Run(xs).attempts) == 0
  {
    hide Run, E.TxLines, Decode, N.Askers, N.Targets, N.PacketsOf, N.Called, N.Packets, N.FramesOf, N.AllRequests,
      Replies, Asks;
    var m := Run(xs);
    RepliesSoFar(xs);
    N.RepliesAreCalled(m.attempts);
    RT.OwnPackets(rs);
    var ps := N.Packets(m.arrived);
    assert ps == ps[..m.handled] + ps[m.handled..];
    AskersAppend(ps[..m.handled], ps[m.handled..]);
  }

  // Whatever one endpoint is sent, what it transmits makes no other endpoint reply.
  lemma NoReplyLoop(xs: seq<Sample>)
    ensures Replies(Run(E.TxLines(xs)).attempts) == 0
  {
    hide Run, Decode, E.TxLines, N.Askers, N.PacketsOf, N.FramesOf, N.AllRequests, Replies, N.Subsequence, B.Numbered,
      N.Targets, Continues;
    EndToEnd(xs);
    var rs :| Explains(rs, Decode(E.TxLines(xs)), N.PacketsOf(Decode(xs).done));
    HearsOwnKind(E.TxLines(xs), rs);
  }

  // ----- Who may touch which slot ---------------------------------------------------

  // The slot being filled by the receiver, the slot being read as ARP, the slot being built
  // and the slot on the wire. The writers' slots are free and the readers' are valid, so no
  // two of them in one ring are the same.
  ghost predicate SlotsOwned(e: E.Endpoint)
    requires e.Shape()
  {
    && (e.rx.assembler.inFrame ==> !e.rx.drop && e.rxQueue.WriteSlotAvailable())
    && (e.proto.state == Protocol.ProtoParseArp ==>
          !e.proto.preparing && e.proto.parseSlot == e.rxQueue.readIdx && e.rxQueue.valid[e.proto.parseSlot])
    && e.proto.state != Protocol.ProtoPrepareTx
    && (e.proto.preparing ==>
          e.proto.prepareSlot == e.txQueue.writeIdx && !e.txQueue.valid[e.proto.prepareSlot])
    && (e.tx.active == (e.tx.framer.state != Idle))
    && (e.tx.active ==> e.tx.slotIdx == e.txQueue.readIdx && e.txQueue.valid[e.tx.slotIdx])
  }

  lemma RxSlotsOwned(e: E.Endpoint, m: Model)
    requires m.Shape() && E.RxPart(e.rx, e.rxQueue, m) && !m.drop
    ensures e.rxQueue.ReadSlotValid() <==> m.handled < |m.arrived|
    ensures e.rx.assembler.inFrame ==> !e.rx.drop && e.rxQueue.WriteSlotAvailable()
  {
    hide E.RxEntries, FrameParser.ParserFollows, Proper, AllProper, Candidate, Ring<RxMeta>.Contents;
    FullRingHasNoSlot(e.rxQueue, |m.RxPending()|, 8, 1500);
    hide Ring<RxMeta>.Occupied;
  }

  lemma TxSlotsOwned(e: E.Endpoint, m: Model)
    requires m.Shape() && E.TxPart(e.txQueue, m)
    requires TxFollows(e.tx, e.txQueue, |m.TxPending()|, m.age, E.Toggle(m))
    ensures m.mode.Building? ==> e.txQueue.WriteSlotAvailable()
    ensures e.tx.active ==> e.tx.slotIdx == e.txQueue.readIdx && e.txQueue.ReadSlotValid()
    ensures e.tx.active == (e.tx.framer.state != Idle)
  {
    hide E.TxEntries, Proper, AllProper, Ring<TxMeta>.Contents, Sending, Candidate;
    FullRingHasNoSlot(e.txQueue, |m.TxPending()|, 4, 1514);
    if m.age > 0 {
      var q := e.txQueue;
      SendingIsNotIdle(e.tx.framer, q.bytes[q.readIdx], q.meta[q.readIdx].bodyLen, m.age, E.Toggle(m));
    }
  }

  // Both rings are bounded queues in every reachable state, and their slots have one owner.
  lemma SlotOwnership(xs: seq<Sample>)
    ensures SlotsOwned(E.Run(xs))
    ensures var e, m := E.Run(xs), Run(xs);
            && e.rxQueue.Occupied(|m.RxPending()|) && |m.RxPending()| == |m.arrived| - m.handled <= 6
            && e.txQueue.Occupied(|m.TxPending()|) && |m.TxPending()| == |m.built| - m.sent
  {
    hide Run, E.Run, Decode, E.RxPart, E.TxPart, TxFollows, E.CountersFollow, Timers.TimersAt, Proper, AllProper,
      Candidate, FrameBody, Arp.RegsAfter, Ring<TxMeta>.Occupied, Ring<RxMeta>.Occupied, Model.Shape;
    var e, m := E.Run(xs), Run(xs);
    E.RunFollows(xs);
    T.ReceiveRingNeverFull(xs);
    RxSlotsOwned(e, m);
    TxSlotsOwned(e, m);
    Occupancies(e, m);
  }

  lemma Occupancies(e: E.Endpoint, m: Model)
    requires m.Shape() && E.Follows(e, m)
    ensures e.rxQueue.Shape(8, 1500) && e.rxQueue.Occupied(|m.RxPending()|)
    ensures e.txQueue.Shape(4, 1514) && e.txQueue.Occupied(|m.TxPending()|)
    ensures |m.RxPending()| == |m.arrived| - m.handled && |m.TxPending()| == |m.built| - m.sent
    ensures m.mode.Parsing? ==> m.handled < |m.arrived|
  {
    hide E.RxEntries, E.TxEntries, RxFollows, TxFollows, E.CountersFollow, E.ModeFollows, Proper, AllProper, Candidate;
  }
}
