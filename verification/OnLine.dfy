/** The frames on the transmit line, one for each thing that was called for.

  Here frames are told apart by their bytes alone. `ArpOnLine` says which ARP frames are on
  the line, and in which order: those of the announcements and replies that were due when the
  transmit ring had a free slot. `BeaconsOnLine` counts the beacons. An announcement and the
  reply to a request whose sender calls itself by the broadcast address and this endpoint's
  own IP are the same frame (`SameAsAnnouncement`), so `AnnouncementsOnLine` counts both.
 */
module OnLine {

  import opened Words
  import opened Mii
  import opened FrameParser
  import opened Arp
  import opened TxPayloads
  import opened Reference
  import opened Ticks
  import opened Answers
  import N = EndToEnd
  import E = Endpoint
  import G = Guarantees
  import RT = RoundTrip

  // ----- Telling frames apart -------------------------------------------------------

  // Sender of a request, as it states itself, that is answered by an announcement.
  const SELF: (Mac, Ip) := ([0xFF, 0xFF, 0xFF, 0xFF, 0xFF, 0xFF], [192, 168, 1, 100])

  lemma AnnouncementIsProper()
    ensures Proper(GratuitousArpRequest())
  {
  }

  function AnnouncementFrame(): RawFrame {
    AnnouncementIsProper();
    N.FrameOf(GratuitousArpRequest())
  }

  // The target fields of an ARP packet, and of a frame that carries one.
  function TargetFields(p: Packet): Option<(Mac, Ip)> {
    if p.header.etherType == [8, 6] && |p.payload| >= 28 then
      Some((p.payload[18..24], p.payload[24..28]))
    else None
  }

  function ArpTarget(f: RawFrame): Option<(Mac, Ip)> {
    match ParseFrame(f)
    case None => None
    case Some(p) => TargetFields(p)
  }

  predicate IsBeacon(f: RawFrame) {
    var p := ParseFrame(f);
    p.Some? && p.value.header.etherType == [0x88, 0xB5]
  }

  // The target of a request that is sent as ARP.
  function ArpOf(r: TxRequest): Option<(Mac, Ip)> {
    if r.kind == ArpReply || r.kind == GratuitousArp then Some((r.requesterMac, r.requesterIp)) else None
  }

  lemma KindOf(r: TxRequest)
    requires Proper(r)
    ensures r.kind != NoKind
    ensures r.kind == GratuitousArp ==> r == GratuitousArpRequest() && (r.requesterMac, r.requesterIp) == SELF
  {
  }

  lemma ArpTargetFields(mac: Mac, ip: Ip, payload: seq<Byte>)
    requires ReplyPacket(mac, ip) <= payload
    ensures |payload| >= 28 && payload[18..24] == mac && payload[24..28] == ip
  {
    var arp := ReplyPacket(mac, ip);
    assert arp[18..24] == mac && arp[24..28] == ip;
    hide ReplyPacket;
    assert payload[18..24] == arp[18..24] && payload[24..28] == arp[24..28];
  }

  // Frames of this endpoint show their target, and whether they are beacons.
  lemma OwnFrameShows(r: TxRequest)
    requires Proper(r)
    ensures ArpTarget(N.FrameOf(r)) == ArpOf(r)
    ensures IsBeacon(N.FrameOf(r)) <==> r.kind == Beacon
  {
    hide Proper, ParseFrame, PayloadText, ReplyPacket, N.FrameOf;
    RT.OwnFrame(r);
    KindOf(r);
    if r.kind != Beacon {
      RT.ArpText(r);
      ArpTargetFields(r.requesterMac, r.requesterIp, ParseFrame(N.FrameOf(r)).value.payload);
    }
  }

  lemma EchoIsAnnouncement()
    ensures Proper(ArpReplyRequest(SELF.0, SELF.1)) && Proper(GratuitousArpRequest())
    ensures N.FrameOf(ArpReplyRequest(SELF.0, SELF.1)) == N.FrameOf(GratuitousArpRequest())
  {
    hide Mii.Nibbles, Framer.Wire, Pad, FrameBody;
    EchoBody();
  }

  lemma EchoBody()
    ensures Proper(ArpReplyRequest(SELF.0, SELF.1)) && Proper(GratuitousArpRequest())
    ensures FrameBody(ArpReplyRequest(SELF.0, SELF.1)) == FrameBody(GratuitousArpRequest())
  {
    hide ReplyPacket, BeaconText;
    var echo, own := ArpReplyRequest(SELF.0, SELF.1), GratuitousArpRequest();
    assert EthernetHeader(echo) == EthernetHeader(own);
    assert PayloadText(echo) == PayloadText(own);
  }

  lemma ReplyOf(r: TxRequest)
    requires Proper(r) && r.kind == ArpReply
    ensures r == ArpReplyRequest(r.requesterMac, r.requesterIp)
  {
  }

  // Which requests put the announcement on the line.
  lemma SameAsAnnouncement(r: TxRequest)
    requires Proper(r)
    ensures N.FrameOf(r) == AnnouncementFrame()
       <==> r == GratuitousArpRequest() || r == ArpReplyRequest(SELF.0, SELF.1)
    ensures N.FrameOf(r) == AnnouncementFrame() <==> ArpOf(r) == Some(SELF)
  {
    hide Proper, N.FrameOf, ArpTarget, IsBeacon, GratuitousArpRequest, ArpReplyRequest;
    AnnouncementIsProper();
    OwnFrameShows(r);
    OwnFrameShows(GratuitousArpRequest());
    KindOf(r);
    KindsOfArp();
    if r.kind == ArpReply {
      ReplyOf(r);
      EchoIsAnnouncement();
    }
  }

  lemma KindsOfArp()
    ensures GratuitousArpRequest().kind == GratuitousArp && ArpOf(GratuitousArpRequest()) == Some(SELF)
    ensures ArpOf(ArpReplyRequest(SELF.0, SELF.1)) == Some(SELF)
  {
  }

  // ----- To whom frames go ----------------------------------------------------------

  predicate GoesTo(f: RawFrame, mac: Mac) {
    var p := ParseFrame(f);
    p.Some? && p.value.header.dst == mac
  }

  // How many of the frames are addressed to this station.
  function AddressedTo(frames: seq<RawFrame>, mac: Mac): nat {
    if frames == [] then 0
    else AddressedTo(frames[..|frames| - 1], mac) + if GoesTo(frames[|frames| - 1], mac) then 1 else 0
  }

  // How often this station is among those to answer.
  function TimesAmong(targets: seq<(Mac, Ip)>, mac: Mac): nat {
    if targets == [] then 0
    else
      var last := targets[|targets| - 1];
      TimesAmong(targets[..|targets| - 1], mac) + if last.0 == mac then 1 else 0
  }

  // Every reply is addressed to whom it answers, and nothing else to one station alone.
  lemma {:induction false} RepliesAddressed(rs: seq<TxRequest>, mac: Mac)
    requires N.AllRequests(rs)
    ensures AddressedTo(N.FramesOf(rs), mac) >= TimesAmong(N.Targets(rs), mac)
    ensures mac != [0xFF, 0xFF, 0xFF, 0xFF, 0xFF, 0xFF] ==>
      AddressedTo(N.FramesOf(rs), mac) == TimesAmong(N.Targets(rs), mac)
    decreases |rs|
  {
    hide Proper, N.FrameOf, GoesTo, TimesAmong;
    if rs == [] {
      NoTimes(mac);
    } else {
      var init, r := rs[..|rs| - 1], rs[|rs| - 1];
      var fs := N.FramesOf(rs);
      assert fs[..|fs| - 1] == N.FramesOf(init);
      RepliesAddressed(init, mac);
      OwnFrameGoesTo(r, mac);
      if r.kind == ArpReply {
        TimesAmongNext(N.Targets(init), (r.requesterMac, r.requesterIp), mac);
      } else {
        assert N.Targets(init) + [] == N.Targets(init);
      }
    }
  }

  lemma NoTimes(mac: Mac)
    ensures TimesAmong([], mac) == 0
  {
  }

  lemma OwnFrameGoesTo(r: TxRequest, mac: Mac)
    requires Proper(r)
    ensures GoesTo(N.FrameOf(r), mac) <==>
      if r.kind == ArpReply then r.requesterMac == mac else mac == [0xFF, 0xFF, 0xFF, 0xFF, 0xFF, 0xFF]
  {
    hide Proper, ParseFrame, N.FrameOf, PayloadText;
    RT.OwnFrame(r);
  }

  lemma TimesAmongNext(targets: seq<(Mac, Ip)>, t: (Mac, Ip), mac: Mac)
    ensures TimesAmong(targets + [t], mac) == TimesAmong(targets, mac) + if t.0 == mac then 1 else 0
  {
    assert (targets + [t])[..|targets|] == targets;
  }

  lemma {:induction false} TimesAmongPrefix(a: seq<(Mac, Ip)>, b: seq<(Mac, Ip)>, mac: Mac)
    requires a <= b
    ensures TimesAmong(a, mac) <= TimesAmong(b, mac) <= |b|
    decreases |b|
  {
    if |a| == |b| {
      assert a == b;
      if b != [] {
        TimesAmongPrefix(a[..|a| - 1], b[..|b| - 1], mac);
      }
    } else {
      TimesAmongPrefix(a, b[..|b| - 1], mac);
    }
  }

  // ----- Frames and requests --------------------------------------------------------

  function Opt<A>(a: Option<A>): seq<A> { if a.Some? then [a.value] else [] }

  function ArpTargets(frames: seq<RawFrame>): seq<(Mac, Ip)> {
    if frames == [] then []
    else ArpTargets(frames[..|frames| - 1]) + Opt(ArpTarget(frames[|frames| - 1]))
  }

  function BeaconFrames(frames: seq<RawFrame>): nat {
    if frames == [] then 0
    else BeaconFrames(frames[..|frames| - 1]) + if IsBeacon(frames[|frames| - 1]) then 1 else 0
  }

  function ArpsOf(rs: seq<TxRequest>): seq<(Mac, Ip)> {
    if rs == [] then [] else ArpsOf(rs[..|rs| - 1]) + Opt(ArpOf(rs[|rs| - 1]))
  }

  lemma {:induction false} FramesShow(rs: seq<TxRequest>)
    requires N.AllRequests(rs)
    ensures ArpTargets(N.FramesOf(rs)) == ArpsOf(rs)
    ensures BeaconFrames(N.FramesOf(rs)) == N.CountOf(rs, Beacon)
    decreases |rs|
  {
    hide Proper, N.FrameOf, ArpTarget, IsBeacon, ArpOf;
    if rs != [] {
      var init, r := rs[..|rs| - 1], rs[|rs| - 1];
      var fs := N.FramesOf(rs);
      assert fs[..|fs| - 1] == N.FramesOf(init);
      FramesShow(init);
      OwnFrameShows(r);
    }
  }

  lemma {:induction false} AnnouncementsShow(rs: seq<TxRequest>)
    requires N.AllRequests(rs)
    ensures multiset(N.FramesOf(rs))[AnnouncementFrame()] == multiset(ArpsOf(rs))[SELF]
    decreases |rs|
  {
    hide Proper, N.FrameOf, ArpOf, AnnouncementFrame;
    if rs != [] {
      var init, r := rs[..|rs| - 1], rs[|rs| - 1];
      var fs := N.FramesOf(rs);
      assert fs == N.FramesOf(init) + [N.FrameOf(r)];
      AnnouncementsShow(init);
      SameAsAnnouncement(r);
    }
  }

  lemma {:induction false} ArpsAppend(a: seq<TxRequest>, b: seq<TxRequest>)
    ensures ArpsOf(a + b) == ArpsOf(a) + ArpsOf(b)
    decreases |b|
  {
    hide ArpOf;
    if b == [] {
      assert a + b == a;
    } else {
      var n := |b| - 1;
      assert (a + b)[..|a + b| - 1] == a + b[..n];
      ArpsAppend(a, b[..n]);
    }
  }

  lemma ArpsOfPrefix(a: seq<TxRequest>, b: seq<TxRequest>)
    requires a <= b
    ensures ArpsOf(a) <= ArpsOf(b)
  {
    hide ArpsOf;
    ArpsAppend(a, b[|a|..]);
    assert b == a + b[|a|..];
  }

  // ----- What is due ----------------------------------------------------------------

  // The target of the ARP frame that is due in cycle n and finds a slot, if there is one.
  function DueNow(e: E.Endpoint, x: Sample, n: nat): seq<(Mac, Ip)>
    requires e.Shape()
  {
    if TickKind(n) == GratuitousArp && CanServe(e, x) then [SELF]
    else OneIf(CalledFor(e, x), e.txQueue.WriteSlotAvailable())
  }

  function ArpDue(xs: seq<Sample>): seq<(Mac, Ip)>
    decreases |xs|
  {
    if xs == [] then []
    else
      var init, x := xs[..|xs| - 1], xs[|xs| - 1];
      ArpDue(init) + DueNow(E.Run(init), x, |init|)
  }

  lemma NewIsProper(m: Model, x: Sample)
    requires m.Shape()
    ensures var after := Step(m, x).attempts;
            |after| == |m.attempts| + 1 ==> Proper(after[|m.attempts|].request)
  {
    hide Proper, AllProper, Candidate, RxQueue.PacketAt, DecodeStep, TxLine, TxQueue.NextAge, Serve;
    ReceiveShape(m, x);
    ServeShape(Receive(m, x));
    ServeChanges(Receive(m, x));
    WorkShape(Receive(m, x));
  }

  lemma KeptArpsGrow(before: seq<Attempt>, after: seq<Attempt>)
    requires before <= after && |after| <= |before| + 1
    requires |after| == |before| + 1 ==> Proper(after[|before|].request)
    ensures ArpsOf(N.Kept(after)) ==
      ArpsOf(N.Kept(before)) + if KeptNow(before, after, GratuitousArp) then [SELF] else NewReply(before, after)
  {
    hide N.Kept, ArpsOf, Proper;
    if |after| == |before| {
      assert after == before;
    } else {
      var a := after[|before|];
      assert after[..|after| - 1] == before;
      KindOf(a.request);
      N.KeptNext(after);
      ArpsAppend(N.Kept(before), [a.request]);
      ArpsOfOne(a.request);
    }
  }

  lemma ArpsOfOne(r: TxRequest)
    ensures ArpsOf([r]) == Opt(ArpOf(r))
  {
    assert [r][..0] == [];
  }

  lemma {:induction false} ArpsAreKept(xs: seq<Sample>)
    ensures ArpsOf(N.Kept(Run(xs).attempts)) == ArpDue(xs)
    decreases |xs|
  {
    hide Run, E.Run, CalledFor, CanServe, TickKind, NewReply, KeptNow, OneIf, Step, Model.Shape, Proper, ArpsOf;
    if xs == [] {
      NoArps();
    } else {
      var init, x := xs[..|xs| - 1], xs[|xs| - 1];
      assert xs == init + [x];
      ArpsAreKept(init);
      ReplyIsKept(init, x);
      TickIsKept(init, x, GratuitousArp);
      RunNext(init, x);
      NewIsProper(Run(init), x);
      KeptArpsGrow(Run(init).attempts, Run(xs).attempts);
    }
  }

  lemma NoArps()
    ensures ArpsOf(N.Kept(Run([]).attempts)) == []
  {
  }

  // ----- On the line ----------------------------------------------------------------

  lemma SentIsKept(xs: seq<Sample>)
    ensures G.SentRequests(Run(xs)) <= N.Kept(Run(xs).attempts)
  {
    hide Run, Model.Shape, N.Accounted, N.Kept, N.Requests, N.Complete;
    N.RunAccounted(xs);
    G.BuiltIsKept(Run(xs), N.Complete(Run(xs)));
  }

  // The ARP frames on the line are those of the announcements and replies that were due when
  // the transmit ring had a free slot, in this order, each within 1483 cycles.
  lemma ArpOnLine(xs: seq<Sample>, n: nat)
    ensures ArpTargets(Decode(E.TxLines(xs)).done) <= ArpDue(xs)
    ensures n + 1483 <= |xs| ==> ArpDue(xs[..n]) <= ArpTargets(Decode(E.TxLines(xs)).done)
  {
    hide Run, E.TxLines, Decode, Model.Shape, N.Kept, G.SentRequests, N.FramesOf, N.AllRequests, ArpTargets, ArpsOf,
      ArpDue;
    var sent := G.SentRequests(Run(xs));
    G.FramesSent(xs);
    FramesShow(sent);
    SentIsKept(xs);
    ArpsOfPrefix(sent, N.Kept(Run(xs).attempts));
    ArpsAreKept(xs);
    if n + 1483 <= |xs| {
      G.SentInTime(xs, n);
      ArpsOfPrefix(N.Kept(Run(xs[..n]).attempts), sent);
      ArpsAreKept(xs[..n]);
    }
  }

  // There are as many beacons on the line as ticks were served, each within 1483 cycles.
  lemma BeaconsOnLine(xs: seq<Sample>, n: nat)
    ensures BeaconFrames(Decode(E.TxLines(xs)).done) <= TicksServed(xs, Beacon)
    ensures n + 1483 <= |xs| ==>
      TicksServed(xs[..n], Beacon) <= BeaconFrames(Decode(E.TxLines(xs)).done)
  {
    hide Run, E.TxLines, Decode, Model.Shape, N.Kept, G.SentRequests, N.FramesOf, N.AllRequests, BeaconFrames,
      TicksServed, N.CountOf;
    var sent := G.SentRequests(Run(xs));
    G.FramesSent(xs);
    FramesShow(sent);
    SentIsKept(xs);
    CountOfPrefix(sent, N.Kept(Run(xs).attempts), Beacon);
    TicksAreKept(xs, Beacon);
    if n + 1483 <= |xs| {
      G.SentInTime(xs, n);
      CountOfPrefix(N.Kept(Run(xs[..n]).attempts), sent, Beacon);
      TicksAreKept(xs[..n], Beacon);
    }
  }

  // How many announcements have been called for and kept: by the timer, and by those who
  // call themselves by this endpoint's address.
  function AnnouncementsDue(xs: seq<Sample>): nat {
    TicksServed(xs, GratuitousArp) + multiset(Answered(xs))[SELF]
  }

  lemma {:induction false} DueAnnouncements(xs: seq<Sample>)
    ensures multiset(ArpDue(xs))[SELF] == AnnouncementsDue(xs)
    decreases |xs|
  {
    hide E.Run, CalledFor, HandlerIdle, TickKind;
    if xs == [] {
    } else {
      var init, x := xs[..|xs| - 1], xs[|xs| - 1];
      DueAnnouncements(init);
      NotBoth(E.Run(init), x);
    }
  }

  // An idle handler calls for no reply.
  lemma NotBoth(e: E.Endpoint, x: Sample)
    requires e.Shape()
    ensures HandlerIdle(e, x) ==> CalledFor(e, x) == None
  {
    hide RxQueue.RxStep, ArpByte;
  }

  lemma MultisetOfPrefix<A>(a: seq<A>, b: seq<A>, x: A)
    requires a <= b
    ensures multiset(a)[x] <= multiset(b)[x]
  {
    assert b == a + b[|a|..];
  }

  // The announcement is on the line as often as it was due, each time within 1483 cycles.
  lemma AnnouncementsOnLine(xs: seq<Sample>, n: nat)
    ensures multiset(Decode(E.TxLines(xs)).done)[AnnouncementFrame()] <= AnnouncementsDue(xs)
    ensures n + 1483 <= |xs| ==>
      AnnouncementsDue(xs[..n]) <= multiset(Decode(E.TxLines(xs)).done)[AnnouncementFrame()]
  {
    hide Run, E.TxLines, Decode, Model.Shape, G.SentRequests, N.FramesOf, N.AllRequests, ArpTargets, ArpsOf, ArpDue,
      AnnouncementsDue, AnnouncementFrame;
    var sent, done := G.SentRequests(Run(xs)), Decode(E.TxLines(xs)).done;
    G.FramesSent(xs);
    FramesShow(sent);
    AnnouncementsShow(sent);
    ArpOnLine(xs, n);
    MultisetOfPrefix(ArpTargets(done), ArpDue(xs), SELF);
    DueAnnouncements(xs);
    if n + 1483 <= |xs| {
      MultisetOfPrefix(ArpDue(xs[..n]), ArpTargets(done), SELF);
      DueAnnouncements(xs[..n]);
    }
  }

  // ----- Without such a request -----------------------------------------------------

  lemma {:induction false} InLonger<A>(a: seq<A>, b: seq<A>, x: A)
    requires N.Subsequence(a, b) && x in a
    ensures x in b
    decreases |b|
  {
    var a', b' := a[..|a| - 1], b[..|b| - 1];
    if a[|a| - 1] == b[|b| - 1] && N.Subsequence(a', b') {
      if x != a[|a| - 1] {
        InLonger(a', b', x);
      }
    } else {
      InLonger(a, b', x);
    }
  }

  // Only who asks is answered.
  lemma AnsweredAsks(xs: seq<Sample>, who: (Mac, Ip))
    requires who !in N.Askers(N.PacketsOf(Decode(xs).done))
    ensures who !in Answered(xs)
  {
    hide Run, E.TxLines, Decode, Answered, N.Kept, N.Targets, N.Called, N.Askers, N.PacketsOf, N.Packets, Asks,
      N.Subsequence;
    var m := Run(xs);
    RepliesAreKept(xs);
    N.KeptTargets(m.attempts);
    G.RepliesSoFar(xs);
    var ps := N.Packets(m.arrived);
    assert ps == ps[..m.handled] + ps[m.handled..];
    G.AskersAppend(ps[..m.handled], ps[m.handled..]);
    if who in Answered(xs) {
      InLonger(Answered(xs), N.Called(m.attempts), who);
    }
  }

  // Where nobody asks by this endpoint's own address, the announcement is on the line only
  // if a tick was served.
  lemma NoTickNoAnnouncement(xs: seq<Sample>)
    requires SELF !in N.Askers(N.PacketsOf(Decode(xs).done)) && TicksServed(xs, GratuitousArp) == 0
    ensures AnnouncementFrame() !in Decode(E.TxLines(xs)).done
  {
    hide E.TxLines, Decode, TicksServed, Answered, N.Askers, N.PacketsOf, AnnouncementFrame;
    AnsweredAsks(xs, SELF);
    AnnouncementsOnLine(xs, 0);
  }
}
