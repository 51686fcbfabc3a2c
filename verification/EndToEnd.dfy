/** From the receive line to the transmit line, over every run.

  `OnWire` says that the transmit line shows exactly the frames of what was built, and
  `Accounted` that every packet handled and every attempt to send is accounted for. Both
  hold of the reference model after every run (`RunOnWire`, `RunAccounted`); module
  Guarantees says what follows for the two lines.
 */
module EndToEnd {

  import opened Words
  import opened Mii
  import opened FrameParser
  import opened Arp
  import opened TxPayloads
  import opened Framer
  import opened RxQueue
  import opened Reference
  import T = Timing
  import E = Endpoint

  // ----- Frames on the transmit line ------------------------------------------------

  function FrameOf(r: TxRequest): RawFrame
    requires Proper(r)
  {
    RawFrame(Nibbles(WireOf(r)), false)
  }

  ghost predicate AllRequests(rs: seq<TxRequest>) {
    forall i | 0 <= i < |rs| :: Proper(rs[i])
  }

  ghost function FramesOf(rs: seq<TxRequest>): (fs: seq<RawFrame>)
    requires AllRequests(rs)
    ensures |fs| == |rs|
  {
    seq(|rs|, i requires 0 <= i < |rs| => FrameOf(rs[i]))
  }

  function Requests(built: seq<Built>): (rs: seq<TxRequest>)
    ensures |rs| == |built|
  {
    seq(|built|, i requires 0 <= i < |built| => built[i].request)
  }

  lemma RequestsAreProper(built: seq<Built>, n: nat)
    requires AllProper(built) && n <= |built|
    ensures AllRequests(Requests(built)[..n])
  {
    hide Proper;
  }

  // How many frames are complete on the line, and what there is of the next one.
  function Complete(m: Model): (n: nat)
    requires m.Shape()
    ensures m.sent <= n <= |m.built|
  {
    if m.sent < |m.built| && m.age >= 2 * |WireOf(m.built[m.sent].request)| + 2 then m.sent + 1 else m.sent
  }

  function Partial(m: Model): Option<RawFrame>
    requires m.Shape()
  {
    if m.sent == |m.built| then None
    else
      var ns := Nibbles(WireOf(m.built[m.sent].request));
      if 2 <= m.age <= |ns| + 1 then Some(RawFrame(ns[..m.age - 1], false)) else None
  }

  ghost predicate OnWire(m: Model)
    requires m.Shape()
  {
    && AllRequests(Requests(m.built)[..Complete(m)])
    && m.shown == Decoded(FramesOf(Requests(m.built)[..Complete(m)]), Partial(m))
  }

  lemma WireLength(r: TxRequest)
    requires Proper(r)
    ensures 2 * |WireOf(r)| == 24 + 2 * FrameBytes(r.len) == Duration(r.len) - 25
  {
    hide FrameBody, Wire;
  }

  // The line of one cycle appended to what was shown before it.
  lemma LineShown(m: Model, done: seq<RawFrame>)
    requires m.Shape() && m.sent < |m.built| && m.age < Duration(m.built[m.sent].request.len)
    ensures var f := FrameOf(m.built[m.sent].request);
            var n := |f.nibbles|;
            var shown := Decoded(if m.age >= n + 2 then done + [f] else done, Partial(m));
            DecodeStep(shown, TxLine(m)) ==
              if m.age <= n then
                Decoded(done, if m.age == 0 then None else Some(RawFrame(f.nibbles[..m.age], false)))
              else Decoded(done + [f], None)
  {
    hide Proper, Candidate, WireOf;
    WireLength(m.built[m.sent].request);
    var ns := Nibbles(WireOf(m.built[m.sent].request));
    if 1 <= m.age <= |ns| {
      assert ns[..m.age - 1] + [ns[m.age - 1]] == ns[..m.age];
      assert ns[..1] == [ns[0]];
    }
    var f := FrameOf(m.built[m.sent].request);
    assert f.nibbles == ns && !f.err;
    if m.age == |ns| + 1 {
      assert ns[..m.age - 1] == ns;
      assert RawFrame(ns[..m.age - 1], false) == f;
    }
  }

  lemma FramesAppend(built: seq<Built>, k: nat)
    requires AllProper(built) && k < |built|
    ensures AllRequests(Requests(built)[..k]) && AllRequests(Requests(built)[..k + 1])
    ensures FramesOf(Requests(built)[..k + 1]) == FramesOf(Requests(built)[..k]) + [FrameOf(built[k].request)]
  {
    hide Proper, WireOf;
    RequestsAreProper(built, k);
    RequestsAreProper(built, k + 1);
  }

  lemma HeadIsProper(m: Model)
    requires m.Shape() && m.sent < |m.built|
    ensures Proper(m.built[m.sent].request)
    ensures var n := |FrameOf(m.built[m.sent].request).nibbles|;
            n == 2 * |WireOf(m.built[m.sent].request)| == Duration(m.built[m.sent].request.len) - 25
  {
    hide Proper, Candidate, WireOf;
    WireLength(m.built[m.sent].request);
  }

  lemma PartialAt(m: Model)
    requires m.Shape() && m.sent < |m.built|
    ensures var f := FrameOf(m.built[m.sent].request);
            && Complete(m) == (if m.age >= |f.nibbles| + 2 then m.sent + 1 else m.sent)
            && Partial(m) == if 2 <= m.age <= |f.nibbles| + 1 then Some(RawFrame(f.nibbles[..m.age - 1], false))
                             else None
  {
    hide Proper, Candidate, WireOf;
  }

  lemma TransmitMoves(m: Model)
    requires m.Shape()
    ensures var m' := Transmit(m);
            && m'.Shape() && m'.built == m.built && m'.shown == DecodeStep(m.shown, TxLine(m))
            && (if m.sent == |m.built| then m'.sent == m.sent && m'.age == 0
                else if m.age + 1 == Duration(m.built[m.sent].request.len) then m'.sent == m.sent + 1 && m'.age == 0
                else m'.sent == m.sent && m'.age == m.age + 1)
  {
    hide Proper, AllProper, Candidate, Duration, TxLine, DecodeStep;
    E.TransmitShape(m);
  }

  lemma TransmitOnWire(m: Model)
    requires m.Shape() && OnWire(m) && T.TxOnTime(m)
    ensures Transmit(m).Shape() && OnWire(Transmit(m))
  {
    hide Proper, AllProper, Candidate, WireOf, TxLine, DecodeStep, FramesOf, Requests, FrameOf, Duration, Nibbles,
      AllRequests, T.TxWorkBefore, Transmit, Complete, Partial;
    TransmitMoves(m);
    var m' := Transmit(m);
    if m'.sent == |m'.built| {
      NothingPartial(m');
    }
    if m.sent < |m.built| {
      HeadIsProper(m);
      PartialAt(m);
      FramesAppendOf(m);
      LineShown(m, FramesOf(Requests(m.built)[..m.sent]));
      if m'.sent < |m'.built| {
        HeadIsProper(m');
        PartialAt(m');
      }
    } else {
      NothingPartial(m);
      QuietShown(m);
    }
  }

  lemma FramesAppendOf(m: Model)
    requires m.Shape() && m.sent < |m.built|
    ensures var k := m.sent;
            && AllRequests(Requests(m.built)[..k]) && AllRequests(Requests(m.built)[..k + 1])
            && FramesOf(Requests(m.built)[..k + 1]) ==
                 FramesOf(Requests(m.built)[..k]) + [FrameOf(m.built[k].request)]
  {
    hide Proper, Candidate, FrameOf, Requests, FramesOf;
    FramesAppend(m.built, m.sent);
  }

  lemma NothingPartial(m: Model)
    requires m.Shape() && m.sent == |m.built|
    ensures Complete(m) == m.sent && Partial(m) == None
  {
    hide Proper, AllProper, Candidate;
  }

  lemma QuietShown(m: Model)
    requires m.Shape() && m.sent == |m.built|
    ensures forall dc: Decoded | dc.cur == None :: DecodeStep(dc, TxLine(m)) == dc
  {
    hide Proper, AllProper, Candidate;
  }

  lemma WorkOnWire(m: Model)
    requires m.Shape() && OnWire(m) && T.TxOnTime(m)
    ensures Work(m).Shape() && OnWire(Work(m))
  {
    hide Proper, AllProper, Candidate, WireOf, FramesOf, Requests, FrameOf, Duration, AllRequests, T.TxWorkBefore,
      Work, Complete, Partial;
    WorkChanges(m);
    var w := Work(m);
    if m.sent < |m.built| {
      SameHead(m, w);
    } else {
      NothingPartial(m);
      if w.sent < |w.built| {
        PartialAt(w);
      } else {
        NothingPartial(w);
      }
    }
    SameRequests(m, w);
  }

  lemma SameHead(m: Model, w: Model)
    requires m.Shape() && w.Shape() && m.sent < |m.built|
    requires w.sent == m.sent && w.age == m.age && m.built <= w.built
    ensures Complete(w) == Complete(m) && Partial(w) == Partial(m)
  {
    hide Proper, Candidate, WireOf, Nibbles;
  }

  lemma SameRequests(m: Model, w: Model)
    requires m.Shape() && w.Shape() && m.built <= w.built
    ensures Requests(w.built)[..Complete(m)] == Requests(m.built)[..Complete(m)]
  {
    hide Proper, AllProper, Candidate, WireOf;
  }

  lemma ReceiveOnWire(m: Model, x: Sample)
    requires m.Shape() && OnWire(m)
    ensures Receive(m, x).Shape() && OnWire(Receive(m, x))
  {
    hide Proper, AllProper, Candidate, WireOf, FramesOf, Requests, AllRequests, PacketAt, DecodeStep, Nibbles;
    ReceiveShape(m, x);
  }

  lemma {:induction false} RunOnWire(xs: seq<Sample>)
    ensures OnWire(Run(xs))
    decreases |xs|
  {
    hide OnWire, Work, Receive, Transmit, Model.Shape, T.TxOnTime;
    if xs == [] {
      ResetOnWire();
    } else {
      var init, x := xs[..|xs| - 1], xs[|xs| - 1];
      var m := Run(init);
      RunOnWire(init);
      ReceiveShape(m, x);
      ReceiveOnWire(m, x);
      T.RunTxOnTime(init);
      T.ReceiveTxOnTime(m, x);
      var m1 := Receive(m, x);
      WorkOnWire(m1);
      T.WorkKeepsTxOnTime(m1);
      TransmitOnWire(Work(m1));
    }
  }

  lemma ResetOnWire()
    ensures OnWire(RESET)
  {
    hide Proper, Candidate, WireOf;
    assert FramesOf(Requests(RESET.built)[..0]) == [];
  }

  // ----- What the requests are ------------------------------------------------------

  // The requests that found a slot.
  function Kept(attempts: seq<Attempt>): seq<TxRequest> {
    if attempts == [] then []
    else
      var last := attempts[|attempts| - 1];
      Kept(attempts[..|attempts| - 1]) + if last.kept then [last.request] else []
  }

  // How many requests of a kind there are.
  function CountOf(rs: seq<TxRequest>, kind: TxKind): nat {
    if rs == [] then 0
    else CountOf(rs[..|rs| - 1], kind) + if rs[|rs| - 1].kind == kind then 1 else 0
  }

  // Whom the replies in a sequence of requests go to.
  function Targets(rs: seq<TxRequest>): seq<(Mac, Ip)> {
    if rs == [] then []
    else
      var last := rs[|rs| - 1];
      Targets(rs[..|rs| - 1]) + if last.kind == ArpReply then [(last.requesterMac, last.requesterIp)] else []
  }

  function TargetOf(r: Option<TxRequest>): seq<(Mac, Ip)> {
    if r.Some? && r.value.kind == ArpReply then [(r.value.requesterMac, r.value.requesterIp)] else []
  }

  // Whom all replies that were called for go to, kept or dropped.
  function Called(attempts: seq<Attempt>): seq<(Mac, Ip)> {
    if attempts == [] then []
    else Called(attempts[..|attempts| - 1]) + TargetOf(Some(attempts[|attempts| - 1].request))
  }

  // Who asks for this endpoint's address in a sequence of packets.
  function Askers(packets: seq<Packet>): seq<(Mac, Ip)> {
    if packets == [] then []
    else
      var asks := Asks(packets[|packets| - 1]);
      Askers(packets[..|packets| - 1]) + if asks.Some? then [asks.value] else []
  }

  // The packets that frames on the receive line leave.
  function PacketsOf(frames: seq<RawFrame>): seq<Packet> {
    if frames == [] then []
    else
      var p := ParseFrame(frames[|frames| - 1]);
      PacketsOf(frames[..|frames| - 1]) + if p.Some? then [p.value] else []
  }

  lemma NoFramesNoPackets()
    ensures PacketsOf([]) == []
  {
  }

  function Packets(arrived: seq<Arrival>): (ps: seq<Packet>)
    ensures |ps| == |arrived|
  {
    seq(|arrived|, i requires 0 <= i < |arrived| => arrived[i].packet)
  }

  function Current(m: Model): seq<TxRequest> {
    match m.mode
    case Building(r, _) => [r]
    case _ => []
  }

  // Every attempt is accounted for, and every packet handled.
  ghost predicate Accounted(m: Model)
    requires m.Shape()
  {
    && Kept(m.attempts) == Requests(m.built) + Current(m)
    && Called(m.attempts) == Askers(Packets(m.arrived)[..m.handled])
    && Packets(m.arrived) == PacketsOf(m.seen.done)
    && m.handled == m.discarded + Replies(m.attempts)
  }

  lemma HandledAdds(m: Model)
    requires m.Shape() && Accounted(m)
    ensures m.handled == m.discarded + Replies(m.attempts)
  {
    hide Kept, Called, Askers, PacketsOf, Replies, Proper, AllProper, Candidate;
  }

  lemma ReceiveAccounted(m: Model, x: Sample)
    requires m.Shape() && Accounted(m) && !m.drop
    ensures Receive(m, x).Shape() && Accounted(Receive(m, x))
  {
    hide Proper, AllProper, Candidate, ParseFrame, Kept, Targets, Askers, Replies, Asks, Called, Requests;
    ReceiveShape(m, x);
    var m1 := Receive(m, x);
    var p := PacketAt(m.seen, x);
    if m1.seen.done != m.seen.done {
      assert m1.seen.done[..|m1.seen.done| - 1] == m.seen.done;
      if p.Some? {
        assert Packets(m1.arrived) == Packets(m.arrived) + [p.value];
      }
    }
    assert Packets(m1.arrived)[..m.handled] == Packets(m.arrived)[..m.handled];
  }

  lemma AskersNext(ps: seq<Packet>, n: nat)
    requires n < |ps|
    ensures Askers(ps[..n + 1]) == Askers(ps[..n]) + if Asks(ps[n]).Some? then [Asks(ps[n]).value] else []
  {
    hide Asks;
    assert ps[..n + 1][..n] == ps[..n];
  }

  // Serving: a packet that asks gets exactly one request, and any other is discarded.
  lemma ServeAccounted(m: Model)
    requires m.Shape() && Accounted(m)
    ensures var s := Serve(m);
            && s.m.Shape()
            && s.m.attempts == m.attempts && s.m.built == m.built && s.m.arrived == m.arrived && s.m.seen == m.seen
            && Current(s.m) == Current(m) && (s.request.Some? ==> Current(m) == [])
            && Called(m.attempts) + TargetOf(s.request) == Askers(Packets(m.arrived)[..s.m.handled])
            && s.m.handled == s.m.discarded + Replies(m.attempts) + |TargetOf(s.request)|
  {
    hide Proper, AllProper, Candidate, ParseArpIpv4Request, Kept, Targets, Askers, Replies, Called, Requests,
      PacketsOf, TruthfulBeacon, Timers.TicksAt;
    ServeShape(m);
    TimerKinds(m);
    if m.handled < |m.arrived| {
      AskersNext(Packets(m.arrived), m.handled);
    }
  }

  lemma TimerKinds(m: Model)
    ensures TruthfulBeacon(m).kind == Beacon && GratuitousArpRequest().kind == GratuitousArp
  {
    hide Replies, Dropped, KeptBeacons;
  }

  lemma AttemptsAppend(attempts: seq<Attempt>, a: Attempt)
    ensures Kept(attempts + [a]) == Kept(attempts) + if a.kept then [a.request] else []
    ensures Called(attempts + [a]) == Called(attempts) + TargetOf(Some(a.request))
  {
    assert (attempts + [a])[..|attempts|] == attempts;
  }

  lemma KeptNext(attempts: seq<Attempt>)
    requires attempts != []
    ensures var init, a := Kept(attempts[..|attempts| - 1]), attempts[|attempts| - 1];
            Kept(attempts) == if a.kept then init + [a.request] else init
  {
  }

  lemma {:induction false} KeptOrDropped(attempts: seq<Attempt>)
    ensures |attempts| == Dropped(attempts) + |Kept(attempts)|
    decreases |attempts|
  {
    if attempts != [] {
      KeptOrDropped(attempts[..|attempts| - 1]);
    }
  }

  lemma {:induction false} RepliesAreCalled(attempts: seq<Attempt>)
    ensures |Called(attempts)| == Replies(attempts)
    decreases |attempts|
  {
    if attempts != [] {
      RepliesAreCalled(attempts[..|attempts| - 1]);
    }
  }

  lemma StartAccounted(m: Model, request: Option<TxRequest>)
    requires m.Shape() && (request.Some? ==> Current(m) == [])
    requires Kept(m.attempts) == Requests(m.built) + Current(m)
    ensures var m' := Start(m, request);
            && Kept(m'.attempts) == Requests(m'.built) + Current(m')
            && Called(m'.attempts) == Called(m.attempts) + TargetOf(request)
            && Replies(m'.attempts) == Replies(m.attempts) + |TargetOf(request)|
  {
    hide Proper, AllProper, Candidate, Kept, Targets, Replies, Called, Requests;
    if request.Some? {
      var a := Attempt(request.value, |m.TxPending()| < 4);
      AttemptsAppend(m.attempts, a);
      CountsAppend(m.attempts, a);
    }
  }

  lemma BuildAccounted(m: Model)
    ensures Requests(BuildByte(m).built) + Current(BuildByte(m)) == Requests(m.built) + Current(m)
  {
  }

  lemma WorkAccounted(m: Model)
    requires m.Shape() && Accounted(m)
    ensures Work(m).Shape() && Accounted(Work(m))
  {
    hide Proper, AllProper, Candidate, Kept, Targets, Askers, Replies, Called, Requests, PacketsOf, Serve,
      Current;
    WorkShape(m);
    ServeAccounted(m);
    var s := Serve(m);
    StartAccounted(s.m, s.request);
    BuildAccounted(Start(s.m, s.request));
  }

  lemma {:induction false} RunAccounted(xs: seq<Sample>)
    ensures Accounted(Run(xs))
    decreases |xs|
  {
    hide Work, Receive, Model.Shape, Accounted;
    if xs == [] {
      ResetAccounted();
    } else {
      var init, x := xs[..|xs| - 1], xs[|xs| - 1];
      var m := Run(init);
      RunAccounted(init);
      T.ReceiveRingNeverFull(init);
      ReceiveShape(m, x);
      ReceiveAccounted(m, x);
      WorkAccounted(Receive(m, x));
      TransmitAccounted(Work(Receive(m, x)));
    }
  }

  lemma ResetAccounted()
    ensures Accounted(RESET)
  {
    hide Proper, Candidate, Asks;
    assert Packets(RESET.arrived)[..0] == [];
  }

  lemma TransmitAccounted(m: Model)
    requires m.Shape() && Accounted(m)
    ensures Transmit(m).Shape() && Accounted(Transmit(m))
  {
    hide Proper, AllProper, Candidate, Kept, Targets, Askers, Replies, Called, Requests, PacketsOf, TxLine,
      DecodeStep, Duration;
    E.TransmitShape(m);
  }

  // ----- Subsequences ---------------------------------------------------------------

  // b with some of its elements left out.
  ghost predicate Subsequence<A>(a: seq<A>, b: seq<A>)
    decreases |b|
  {
    if a == [] then true
    else if b == [] then false
    else
      || (a[|a| - 1] == b[|b| - 1] && Subsequence(a[..|a| - 1], b[..|b| - 1]))
      || Subsequence(a, b[..|b| - 1])
  }

  lemma {:induction false} SubsequenceOfLonger<A>(a: seq<A>, b: seq<A>, c: seq<A>)
    requires Subsequence(a, b)
    ensures Subsequence(a, b + c)
    decreases |c|
  {
    if c == [] {
      assert b + c == b;
    } else {
      var n := |c| - 1;
      assert (b + c)[..|b + c| - 1] == b + c[..n];
      SubsequenceOfLonger(a, b, c[..n]);
    }
  }

  lemma {:induction false} PrefixOfSubsequence<A>(a: seq<A>, b: seq<A>, n: nat)
    requires n <= |a| && Subsequence(a, b)
    ensures Subsequence(a[..n], b)
    decreases |b|
  {
    if n == |a| {
      assert a[..n] == a;
    } else {
      var a', b' := a[..|a| - 1], b[..|b| - 1];
      if a[|a| - 1] == b[|b| - 1] && Subsequence(a', b') {
        assert a[..n] == a'[..n];
        PrefixOfSubsequence(a', b', n);
      } else {
        PrefixOfSubsequence(a, b', n);
      }
      assert b == b' + [b[|b| - 1]];
      SubsequenceOfLonger(a[..n], b', [b[|b| - 1]]);
    }
  }

  lemma KeptTargetsNext(attempts: seq<Attempt>, a: Attempt)
    ensures Targets(Kept(attempts + [a])) ==
      Targets(Kept(attempts)) + if a.kept then TargetOf(Some(a.request)) else []
  {
    AttemptsAppend(attempts, a);
    if a.kept {
      TargetsAppend(Kept(attempts), [a.request]);
      TargetsOne(a.request);
    } else {
      assert Kept(attempts) + [] == Kept(attempts);
      assert Targets(Kept(attempts)) + [] == Targets(Kept(attempts));
    }
  }

  // The replies that were kept answer some of those that were called for, in order.
  lemma {:induction false} KeptTargets(attempts: seq<Attempt>)
    ensures Subsequence(Targets(Kept(attempts)), Called(attempts))
    decreases |attempts|
  {
    hide Subsequence, TargetOf, Called;
    if attempts == [] {
      NothingIsSubsequence<(Mac, Ip)>(Called(attempts));
    } else {
      var init, a := attempts[..|attempts| - 1], attempts[|attempts| - 1];
      assert attempts == init + [a];
      KeptTargets(init);
      AttemptsAppend(init, a);
      KeptTargetsNext(init, a);
      TargetOfOne(Some(a.request));
      AppendBoth(Targets(Kept(init)), Called(init), TargetOf(Some(a.request)), a.kept);
      assert Targets(Kept(init)) + [] == Targets(Kept(init));
    }
  }

  lemma TargetOfOne(r: Option<TxRequest>)
    ensures |TargetOf(r)| <= 1
  {
  }

  lemma NothingIsSubsequence<A>(b: seq<A>)
    ensures Subsequence([], b)
  {
  }

  lemma TargetsOne(r: TxRequest)
    ensures Targets([r]) == TargetOf(Some(r))
  {
    assert [r][..0] == [];
  }

  lemma {:induction false} TargetsAppend(a: seq<TxRequest>, b: seq<TxRequest>)
    ensures Targets(a + b) == Targets(a) + Targets(b)
    decreases |b|
  {
    if b == [] {
      assert a + b == a;
    } else {
      var n := |b| - 1;
      assert (a + b)[..|a + b| - 1] == a + b[..n];
      TargetsAppend(a, b[..n]);
    }
  }

  // Appending at most one element to the longer one, and the same or nothing to the other.
  lemma AppendBoth<A>(a: seq<A>, b: seq<A>, t: seq<A>, both: bool)
    requires Subsequence(a, b) && |t| <= 1
    ensures Subsequence(if both then a + t else a, b + t)
  {
    if both && |t| == 1 {
      assert (a + t)[..|a + t| - 1] == a && (b + t)[..|b + t| - 1] == b;
    } else {
      if both {
        assert a + t == a;
      }
      SubsequenceOfLonger(a, b, t);
    }
  }
}
