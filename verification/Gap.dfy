/** The gap between frames on the transmit line.

  IEEE 802.3 asks for 96 bit times between frames, 24 nibbles. `GapBetweenFrames` says that
  the line was quiet for the 25 cycles before any frame starts, whatever the endpoint does.
 */
module Gap {

  import opened Mii
  import opened TxPayloads
  import opened Framer
  import opened Reference
  import T = Timing
  import E = Endpoint
  import N = EndToEnd

  // The last n cycles, or all there were, were quiet.
  ghost predicate Rested(ys: seq<Sample>, n: nat) {
    forall i: nat | |ys| - n <= i < |ys| :: !ys[i].dv
  }

  // Every frame starts on a rested line.
  ghost predicate Spaced(ys: seq<Sample>) {
    forall i | 0 <= i < |ys| && ys[i].dv && (i > 0 ==> !ys[i - 1].dv) :: Rested(ys[..i], 25)
  }

  // How long the line has been quiet at least.
  function QuietFor(m: Model): nat
    requires m.Shape()
  {
    if m.age == 0 || m.sent == |m.built| then 24
    else
      var nibbles := Duration(m.built[m.sent].request.len) - 25;
      if m.age == 1 then 25
      else if m.age <= nibbles + 1 then 0
      else m.age - nibbles - 1
  }

  lemma LineActive(xs: seq<Sample>)
    requires xs != []
    ensures E.TxLines(xs)[|xs| - 1].dv == N.Partial(Run(xs)).Some?
  {
    hide Run, N.Partial, N.Complete, N.FramesOf, N.AllRequests, N.Requests, E.TxLines;
    E.RunReads(xs);
    N.RunOnWire(xs);
    DecodeEnds(E.TxLines(xs));
  }

  lemma DecodeEnds(ys: seq<Sample>)
    ensures ys != [] ==> ys[|ys| - 1].dv == Decode(ys).cur.Some?
  {
  }

  // The transmit side's clock, from one cycle to the next.
  lemma StepAges(m: Model, x: Sample)
    requires m.Shape() && T.TxOnTime(m)
    ensures m.sent <= |m.built|
    ensures var m' := Step(m, x);
            if m.sent == |m.built| then
              m.age == 0 && m'.sent == m.sent && m'.age == (if m'.sent < |m'.built| then 1 else 0)
            else
              var len := m.built[m.sent].request.len;
              && m.age < Duration(len) && Proper(m.built[m.sent].request)
              && if m.age + 1 == Duration(len) then m'.age == 0 && m'.sent == m.sent + 1
                 else m'.age == m.age + 1 && m'.sent == m.sent && m'.sent < |m'.built|
                      && m'.built[m.sent] == m.built[m.sent]
  {
    hide Proper, AllProper, Candidate, TxLine, DecodeStep, RxQueue.PacketAt, Work, Duration, T.TxWorkBefore, Transmit;
    ReceiveShape(m, x);
    WorkChanges(Receive(m, x));
    var w := Work(Receive(m, x));
    N.TransmitMoves(w);
    if w.sent < |w.built| {
      N.HeadIsProper(w);
      T.ProperDuration(w.built[w.sent].request);
      ShortestDuration(w.built[w.sent].request.len);
    }
  }

  lemma ShortestDuration(len: Word11)
    ensures Duration(len) > 25
  {
  }

  lemma PartialByAge(m: Model)
    requires m.Shape()
    ensures N.Partial(m).Some? <==>
      m.sent < |m.built| && 2 <= m.age <= Duration(m.built[m.sent].request.len) - 24
  {
    hide Proper, AllProper, Candidate, Duration;
    if m.sent < |m.built| {
      N.HeadIsProper(m);
      N.PartialAt(m);
    }
    hide N.Partial, N.FrameOf;
  }

  lemma StepQuiet(m: Model, x: Sample, ys: seq<Sample>, y: Sample)
    requires m.Shape() && T.TxOnTime(m) && Rested(ys, QuietFor(m)) && Spaced(ys)
    requires y.dv == N.Partial(Step(m, x)).Some?
    requires ys != [] ==> ys[|ys| - 1].dv == N.Partial(m).Some?
    requires ys == [] ==> m.age == 0
    ensures Rested(ys + [y], QuietFor(Step(m, x))) && Spaced(ys + [y])
  {
    hide Step, Proper, Model.Shape, Duration, N.Partial, Spaced, Rested;
    StepAges(m, x);
    PartialByAge(m);
    PartialByAge(Step(m, x));
    RestedAppend(ys, QuietFor(m), y, QuietFor(Step(m, x)));
    SpacedAppend(ys, y);
  }

  lemma RestedAppend(ys: seq<Sample>, n: nat, y: Sample, n': nat)
    requires Rested(ys, n)
    ensures n' == 0 || (!y.dv && n' <= n + 1) ==> Rested(ys + [y], n')
  {
  }

  lemma SpacedAppend(ys: seq<Sample>, y: Sample)
    requires Spaced(ys)
    requires y.dv && (ys != [] ==> !ys[|ys| - 1].dv) ==> Rested(ys, 25)
    ensures Spaced(ys + [y])
  {
    var zs := ys + [y];
    forall i | 0 <= i < |zs| && zs[i].dv && (i > 0 ==> !zs[i - 1].dv)
      ensures Rested(zs[..i], 25)
    {
      if i < |ys| {
        assert zs[..i] == ys[..i];
        assert ys[i].dv && (i > 0 ==> !ys[i - 1].dv);
        assert Rested(ys[..i], 25);
      } else {
        assert zs[..i] == ys;
      }
    }
  }

  // Whatever happens, the line is quiet for 25 cycles before a frame.
  lemma {:induction false} GapBetweenFrames(xs: seq<Sample>)
    ensures Spaced(E.TxLines(xs))
    ensures Rested(E.TxLines(xs), QuietFor(Run(xs)))
    decreases |xs|
  {
    hide Step, Model.Shape, T.TxOnTime, QuietFor, Spaced, Rested, E.LastPins, N.Partial;
    if xs == [] {
      NothingSent();
    } else {
      var init, x := xs[..|xs| - 1], xs[|xs| - 1];
      GapBetweenFrames(init);
      T.RunTxOnTime(init);
      LineActive(xs);
      if init != [] {
        LineActive(init);
      }
      var y := E.LastPins(xs).line;
      assert E.TxLines(xs)[|xs| - 1] == y;
      StepQuiet(Run(init), x, E.TxLines(init), y);
    }
  }

  lemma NothingSent()
    ensures Spaced([]) && Rested([], QuietFor(RESET))
  {
  }
}
