/** How many frames the endpoint can send, and a load it cannot answer.

  A frame occupies the transmit line for at least 169 cycles with its gap, one more than a
  conforming sender needs. `Capacity` bounds what can be kept in any run, and
  `RequestsGoUnanswered` says on the two lines what follows: when enough requests come at
  full rate, fewer replies are sent than requests were received, however long one waits. When
  exactly a reply is dropped is `Guarantees.AttemptIsKept`.
 */
module Load {

  import opened Mii
  import opened TxPayloads
  import opened Framer
  import opened Reference
  import T = Timing
  import N = EndToEnd
  import E = Endpoint
  import G = Guarantees
  import L = OnLine
  import opened Traffic

  // ----- What can be sent in a given time -------------------------------------------

  // The frames sent so far took at least this long.
  ghost predicate TimeSpent(m: Model)
    requires m.Shape()
  {
    T.Durations(m.built, 0, m.sent) + m.age <= m.now
  }

  lemma TransmitSpends(w: Model)
    requires w.Shape() && TimeSpent(w) && T.TxOnTime(w)
    ensures Transmit(w).Shape() && TimeSpent(Transmit(w))
  {
    hide Proper, AllProper, Candidate, Duration, TxLine, DecodeStep, T.TxOnTime, T.Durations;
    N.TransmitMoves(w);
    if w.sent < |w.built| {
      T.DurationsSplit(w.built, 0, w.sent);
    } else {
      T.NothingStarted(w);
    }
  }

  lemma StepSpends(m: Model, x: Sample)
    requires m.Shape() && TimeSpent(m) && T.TxOnTime(m)
    ensures TimeSpent(Step(m, x))
  {
    hide Proper, AllProper, Candidate, RxQueue.PacketAt, DecodeStep, TxLine, Work, Transmit, T.TxOnTime, T.Durations;
    ReceiveShape(m, x);
    var m1 := Receive(m, x);
    WorkChanges(m1);
    T.ReceiveTxOnTime(m, x);
    T.WorkKeepsTxOnTime(m1);
    if Work(m1).built != m1.built {
      T.DurationsAppend(m1.built, Work(m1).built[|m1.built|], 0, m1.sent);
    }
    TransmitSpends(Work(m1));
  }

  lemma {:induction false} RunSpends(xs: seq<Sample>)
    ensures TimeSpent(Run(xs))
    decreases |xs|
  {
    hide Step, Model.Shape, TimeSpent, T.TxOnTime;
    if xs == [] {
      ResetSpends();
    } else {
      RunSpends(xs[..|xs| - 1]);
      T.RunTxOnTime(xs[..|xs| - 1]);
      StepSpends(Run(xs[..|xs| - 1]), xs[|xs| - 1]);
    }
  }

  lemma ResetSpends()
    ensures TimeSpent(RESET)
  {
  }

  // What the ring, the builder and the line have taken on since reset.
  lemma Capacity(xs: seq<Sample>)
    ensures |N.Kept(Run(xs).attempts)| <= |xs| / 169 + 5
  {
    hide Run, E.TxLines, Decode, N.Kept, Replies, N.Targets, N.Askers, N.PacketsOf, T.Durations, Proper, AllProper,
      Candidate;
    var m := Run(xs);
    RunSpends(xs);
    T.DurationsAtLeast(m.built, 0, m.sent);
    N.RunAccounted(xs);
    E.RunReads(xs);
  }

  // ----- Replies on the line --------------------------------------------------------

  lemma {:induction false} TargetsAtMost(rs: seq<TxRequest>)
    ensures |N.Targets(rs)| <= |rs|
    decreases |rs|
  {
    if rs != [] {
      TargetsAtMost(rs[..|rs| - 1]);
    }
  }

  // Later attempts keep no more replies than they call for.
  lemma {:induction false} KeptSince(a: seq<Attempt>, b: seq<Attempt>)
    requires a <= b
    ensures |N.Targets(N.Kept(b))| - |N.Targets(N.Kept(a))| <= |N.Called(b)| - |N.Called(a)|
    decreases |b|
  {
    if |a| == |b| {
      assert a == b;
    } else {
      var init, last := b[..|b| - 1], b[|b| - 1];
      assert b == init + [last];
      KeptSince(a, init);
      N.AttemptsAppend(init, last);
      N.KeptTargetsNext(init, last);
      hide N.Called, N.Targets, N.Kept;
    }
  }

  lemma CalledAtMost(xs: seq<Sample>)
    ensures |N.Called(Run(xs).attempts)| <= |N.Askers(N.PacketsOf(Decode(xs).done))|
  {
    hide Run, E.TxLines, Decode, N.Askers, N.Called, N.PacketsOf, N.Packets, Asks;
    var m := Run(xs);
    G.RepliesSoFar(xs);
    var ps := N.Packets(m.arrived);
    assert ps == ps[..m.handled] + ps[m.handled..];
    G.AskersAppend(ps[..m.handled], ps[m.handled..]);
  }

  // ----- More requests than can be answered -----------------------------------------

  const ENOUGH := 1058

  // After k requests at full rate fewer than k replies are kept, now and later.
  lemma FewerKept(k: nat, n: nat)
    requires k >= ENOUGH
    ensures |N.Targets(N.Kept(Run(FullLoad(0, k, n)).attempts))| < k
  {
    hide Run, E.TxLines, Decode, FullLoad, N.Kept, N.Targets, N.Called, N.Askers, N.PacketsOf;
    var asked := PERIOD * k;
    var p := asked + T.DEADLINE;
    var xs := FullLoad(0, k, n);
    if n <= p {
      Capacity(xs);
      TargetsAtMost(N.Kept(Run(xs).attempts));
    } else {
      TrafficPrefix(0, k, p, n);
      TrafficPrefix(0, k, asked, n);
      TrafficAsks(0, k, asked);
      TrafficAsks(0, k, n);
      var a := Run(xs[..p]).attempts;
      assert xs[..p][..asked] == xs[..asked];
      G.AttemptedInTime(xs[..p], asked);
      Capacity(xs[..p]);
      TargetsAtMost(N.Kept(a));
      G.RunGrows(xs, p);
      KeptSince(a, Run(xs).attempts);
      CalledAtMost(xs);
    }
  }

  lemma SentTargets(xs: seq<Sample>)
    ensures |N.Targets(G.SentRequests(Run(xs)))| <= |N.Targets(N.Kept(Run(xs).attempts))|
  {
    hide Run, N.Accounted, Model.Shape, N.Kept, N.Targets, N.Requests, N.Complete;
    var m := Run(xs);
    N.RunAccounted(xs);
    G.BuiltIsKept(m, N.Complete(m));
    G.TargetsOfPrefix(N.Kept(m.attempts), N.Complete(m));
  }

  // The documentation promises a reply to every valid request. On a line full of valid
  // requests, k of them with k at least 1058, fewer than k frames are ever sent to the
  // sender, at whatever time n one looks.
  lemma RequestsGoUnanswered(k: nat, n: nat)
    requires k >= ENOUGH
    ensures var xs := FullLoad(0, k, n);
            && L.AddressedTo(Decode(E.TxLines(xs)).done, ASKER_MAC) < k
            && (n >= PERIOD * k ==> |N.Askers(N.PacketsOf(Decode(xs).done))| == k)
  {
    hide Run, E.TxLines, Decode, FullLoad, Model.Shape, N.Kept, N.Targets, N.Askers, N.PacketsOf, N.FramesOf,
      N.AllRequests, G.SentRequests, L.AddressedTo;
    var xs := FullLoad(0, k, n);
    if n >= PERIOD * k {
      TrafficAsks(0, k, n);
    }
    FewerKept(k, n);
    SentTargets(xs);
    G.FramesSent(xs);
    var sent := G.SentRequests(Run(xs));
    L.RepliesAddressed(sent, ASKER_MAC);
    L.TimesAmongPrefix(N.Targets(sent), N.Targets(sent), ASKER_MAC);
  }
}
