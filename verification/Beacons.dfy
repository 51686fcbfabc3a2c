/** What the beacons say, over every run.

  A beacon prints seven counters. They are copied when nothing is waiting and nothing is
  being read, so in every beacon on the wire they agree with each other: received packets
  are answered plus discarded, and the beacons on the wire are numbered without gaps.
 */
module Beacons {

  import opened Words
  import opened Mii
  import opened FrameParser
  import opened TxPayloads
  import opened RxQueue
  import opened Reference
  import E = Endpoint
  import T = Timing
  import N = EndToEnd

  function Sum32(a: Word32, b: Word32): Word32 { (a + b) % 0x1_0000_0000 }

  // The counters agree with each other.
  predicate Consistent(r: TxRequest) {
    && r.rxPackets == Sum32(r.rxProtocolDrops, r.arpReplies)
    && r.udpReplies == 0
    && r.rxQueueDrops == 0
  }

  // In a sequence of requests every beacon is consistent and carries its own number.
  ghost predicate Numbered(rs: seq<TxRequest>) {
    forall j | 0 <= j < |rs| && rs[j].kind == Beacon ::
      Consistent(rs[j]) && rs[j].beacons == Count32(N.CountOf(rs[..j], Beacon))
  }

  // Every beacon that was attempted, sent or not, tells what had happened before it.
  ghost predicate Told(attempts: seq<Attempt>) {
    forall i | 0 <= i < |attempts| && attempts[i].request.kind == Beacon ::
      var r, before := attempts[i].request, attempts[..i];
      && Consistent(r)
      && r.arpReplies == Count32(Replies(before))
      && r.txDrops == Count32(Dropped(before))
      && r.beacons == Count32(KeptBeacons(before))
  }

  lemma TruthIsConsistent(m: Model)
    requires m.Shape() && N.Accounted(m) && m.rxDrops == 0
    ensures Consistent(TruthfulBeacon(m))
  {
    hide Replies, Dropped, KeptBeacons, N.Accounted, Count32, Sum32;
    N.HandledAdds(m);
    Sum32Counts(m.discarded, Replies(m.attempts));
    Count32Zero();
  }

  lemma Sum32Counts(a: nat, b: nat)
    ensures Sum32(Count32(a), Count32(b)) == Count32(a + b)
  {
    hide Count32;
    Count32Add(a, b);
  }

  lemma ToldAppend(attempts: seq<Attempt>, a: Attempt)
    requires Told(attempts)
    requires a.request.kind == Beacon ==>
      && Consistent(a.request)
      && a.request.arpReplies == Count32(Replies(attempts))
      && a.request.txDrops == Count32(Dropped(attempts))
      && a.request.beacons == Count32(KeptBeacons(attempts))
    ensures Told(attempts + [a])
  {
    hide Replies, Dropped, KeptBeacons, Consistent;
    var all := attempts + [a];
    forall i | 0 <= i < |all|
      ensures all[..i] == if i < |attempts| then attempts[..i] else attempts
    {
    }
  }

  lemma TruthTells(m: Model)
    ensures var r := TruthfulBeacon(m);
            && r.arpReplies == Count32(Replies(m.attempts))
            && r.txDrops == Count32(Dropped(m.attempts))
            && r.beacons == Count32(KeptBeacons(m.attempts))
    ensures GratuitousArpRequest().kind == GratuitousArp
  {
    hide Replies, Dropped, KeptBeacons;
  }

  // Whatever serving a model requests, it is a truthful beacon or no beacon.
  lemma ServedBeacon(m: Model)
    requires m.Shape()
    ensures var s := Serve(m);
            && s.m.Shape() && s.m.attempts == m.attempts
            && (s.request.Some? && s.request.value.kind == Beacon ==> s.request.value == TruthfulBeacon(m))
  {
    hide TruthfulBeacon, Timers.TicksAt, Candidate, Asks, Proper, AllProper;
    ServeShape(m);
    TruthTells(m);
  }

  lemma WorkTold(m: Model)
    requires m.Shape() && N.Accounted(m) && m.rxDrops == 0 && Told(m.attempts)
    ensures Work(m).Shape() && Told(Work(m).attempts)
  {
    hide Serve, TruthfulBeacon, Told, Candidate, Proper, AllProper, Consistent, N.Accounted, Replies, Dropped,
      KeptBeacons;
    WorkShape(m);
    ServeShape(m);
    ServedBeacon(m);
    TruthTells(m);
    TruthIsConsistent(m);
    var s := Serve(m);
    if s.request.Some? {
      ToldAppend(m.attempts, Attempt(s.request.value, |s.m.TxPending()| < 4));
    }
  }

  lemma {:induction false} RunTold(xs: seq<Sample>)
    ensures Told(Run(xs).attempts)
    decreases |xs|
  {
    hide Work, Receive, Model.Shape, Told, N.Accounted;
    if xs == [] {
      NothingTold();
    } else {
      var init, x := xs[..|xs| - 1], xs[|xs| - 1];
      var m := Run(init);
      RunTold(init);
      ReceiveShape(m, x);
      N.RunAccounted(init);
      T.RunOnTime(init);
      T.ReceiveRingNeverFull(init);
      N.ReceiveAccounted(m, x);
      ReceiveTold(m, x);
      WorkTold(Receive(m, x));
      TransmitTold(Work(Receive(m, x)));
    }
  }

  lemma NothingTold()
    ensures Told(RESET.attempts)
  {
  }

  lemma ReceiveTold(m: Model, x: Sample)
    requires m.Shape() && T.OnTime(m)
    ensures Receive(m, x).Shape() && Receive(m, x).attempts == m.attempts && Receive(m, x).rxDrops == 0
  {
    hide T.OnTime, PacketAt, DecodeStep, Candidate, Proper, AllProper;
    ReceiveShape(m, x);
    T.ReceiveOnTime(m, x);
  }

  lemma TransmitTold(m: Model)
    requires m.Shape()
    ensures Transmit(m).attempts == m.attempts
  {
    hide TxLine, DecodeStep, Candidate, Proper, AllProper;
  }

  // ----- The beacons that were kept -------------------------------------------------

  lemma {:induction false} KeptNumbered(attempts: seq<Attempt>)
    requires Told(attempts)
    ensures Numbered(N.Kept(attempts)) && N.CountOf(N.Kept(attempts), Beacon) == KeptBeacons(attempts)
    decreases |attempts|
  {
    hide Told, Consistent, Numbered, Replies, Dropped;
    if attempts == [] {
      NoneNumbered();
    } else {
      var init, a := attempts[..|attempts| - 1], attempts[|attempts| - 1];
      ToldBefore(attempts);
      KeptNumbered(init);
      N.KeptNext(attempts);
      NumberedAppend(N.Kept(init), a.request);
    }
  }

  lemma NoneNumbered()
    ensures Numbered([])
  {
  }

  lemma ToldBefore(attempts: seq<Attempt>)
    requires Told(attempts) && attempts != []
    ensures Told(attempts[..|attempts| - 1])
    ensures var a, before := attempts[|attempts| - 1], attempts[..|attempts| - 1];
            a.request.kind == Beacon ==>
              Consistent(a.request) && a.request.beacons == Count32(KeptBeacons(before))
  {
    hide Consistent, Replies, Dropped, KeptBeacons;
    var init := attempts[..|attempts| - 1];
    forall i | 0 <= i < |init|
      ensures init[..i] == attempts[..i]
    {
    }
  }

  lemma NumberedAppend(rs: seq<TxRequest>, r: TxRequest)
    requires Numbered(rs)
    requires r.kind == Beacon ==> Consistent(r) && r.beacons == Count32(N.CountOf(rs, Beacon))
    ensures Numbered(rs + [r])
    ensures N.CountOf(rs + [r], Beacon) == N.CountOf(rs, Beacon) + if r.kind == Beacon then 1 else 0
  {
    hide Consistent;
    var all := rs + [r];
    forall j | 0 <= j < |all|
      ensures all[..j] == if j < |rs| then rs[..j] else rs
    {
    }
    assert all[..|rs|] == rs;
  }

  lemma NumberedPrefix(rs: seq<TxRequest>, n: nat)
    requires Numbered(rs) && n <= |rs|
    ensures Numbered(rs[..n])
  {
    hide Consistent, N.CountOf;
    forall j | 0 <= j < n
      ensures rs[..n][..j] == rs[..j]
    {
    }
  }

  // ----- What a beacon says of the receive line --------------------------------------

  // A beacon that was attempted after the requests in `before` and the packets received: RX
  // counts the packets, ARP those that ask, RXP the others, TXD the requests that found no
  // slot and UP the beacons that did.
  ghost predicate Tells(r: TxRequest, before: seq<Attempt>, packets: seq<Packet>) {
    var asks := |N.Askers(packets)|;
    var kept := N.Kept(before);
    && asks <= |packets| && |kept| <= |before|
    && r.rxPackets == Count32(|packets|)
    && r.rxQueueDrops == 0
    && r.rxProtocolDrops == Count32(|packets| - asks)
    && r.txDrops == Count32(|before| - |kept|)
    && r.arpReplies == Count32(asks)
    && r.udpReplies == 0
    && r.beacons == Count32(N.CountOf(kept, Beacon))
  }

  // A beacon is served only when every packet received so far has been handled.
  lemma BeaconWaits(m: Model)
    requires m.Shape()
    ensures var s := Serve(m).request;
            s.Some? && s.value.kind == Beacon ==> m.handled == |m.arrived| && s.value == TruthfulBeacon(m)
  {
    hide TruthfulBeacon, Timers.TicksAt, Candidate, Asks, Proper, AllProper;
    TruthTells(m);
  }

  lemma TruthOfLine(m: Model)
    requires m.Shape() && N.Accounted(m) && Told(m.attempts) && m.rxDrops == 0 && m.handled == |m.arrived|
    ensures Tells(TruthfulBeacon(m), m.attempts, N.PacketsOf(m.seen.done))
  {
    hide Replies, Dropped, KeptBeacons, N.Called, N.Askers, N.PacketsOf, N.Kept, N.CountOf, Told, Count32, Proper,
      AllProper, Candidate;
    N.KeptOrDropped(m.attempts);
    N.RepliesAreCalled(m.attempts);
    KeptNumbered(m.attempts);
    Count32Zero();
    assert N.Packets(m.arrived)[..m.handled] == N.Packets(m.arrived);
  }

  lemma WorkTells(m: Model)
    requires m.Shape() && N.Accounted(m) && Told(m.attempts) && m.rxDrops == 0
    ensures var before, after := m.attempts, Work(m).attempts;
            && before <= after && |after| <= |before| + 1
            && (|after| > |before| && after[|before|].request.kind == Beacon ==>
                  Tells(after[|before|].request, before, N.PacketsOf(m.seen.done)))
  {
    hide Serve, TruthfulBeacon, Tells, Told, N.Accounted, Candidate, Proper, AllProper;
    ServeShape(m);
    ServedBeacon(m);
    BeaconWaits(m);
    if m.handled == |m.arrived| {
      TruthOfLine(m);
    }
  }

  // In the cycle of the last sample a beacon tells what the whole line has been.
  lemma BeaconTells(xs: seq<Sample>, x: Sample)
    ensures var before, after := Run(xs).attempts, Run(xs + [x]).attempts;
            && before <= after && |after| <= |before| + 1
            && (|after| > |before| && after[|before|].request.kind == Beacon ==>
                  Tells(after[|before|].request, before, N.PacketsOf(Decode(xs + [x]).done)))
  {
    hide Run, Work, Receive, Transmit, Model.Shape, Told, Tells, N.Accounted, N.PacketsOf, Decode, E.TxLines;
    var m := Run(xs);
    RunNext(xs, x);
    E.RunReads(xs + [x]);
    RunTold(xs);
    N.RunAccounted(xs);
    T.RunOnTime(xs);
    T.ReceiveRingNeverFull(xs);
    N.ReceiveAccounted(m, x);
    ReceiveTold(m, x);
    var m1 := Receive(m, x);
    WorkTells(m1);
    WorkShape(m1);
    WorkChanges(m1);
    TransmitTold(Work(m1));
    N.TransmitMoves(Work(m1));
    TransmitReads(Work(m1));
  }

  lemma TransmitReads(m: Model)
    requires m.Shape()
    ensures Transmit(m).seen == m.seen
  {
    hide TxLine, DecodeStep, Candidate, Proper, AllProper;
  }

  // Every beacon ever attempted tells what the line had been up to some time: that of the
  // cycle in which it was attempted.
  lemma {:induction false} EveryBeaconTells(xs: seq<Sample>, i: nat) returns (n: nat)
    requires i < |Run(xs).attempts| && Run(xs).attempts[i].request.kind == Beacon
    ensures n <= |xs| && |Run(xs[..n]).attempts| == i + 1 && Run(xs[..n]).attempts == Run(xs).attempts[..i + 1]
    ensures Tells(Run(xs).attempts[i].request, Run(xs).attempts[..i], N.PacketsOf(Decode(xs[..n]).done))
    decreases |xs|
  {
    hide Step, Model.Shape, Tells, N.PacketsOf, Decode;
    var init, x := xs[..|xs| - 1], xs[|xs| - 1];
    assert xs == init + [x];
    var before, all := Run(init).attempts, Run(xs).attempts;
    BeaconTells(init, x);
    if i < |before| {
      n := EveryBeaconTells(init, i);
      assert init[..n] == xs[..n];
      assert before[..i] == all[..i] && before[..i + 1] == all[..i + 1];
    } else {
      n := |xs|;
      assert xs[..n] == xs;
      assert all[..i] == before && all[..i + 1] == all;
    }
  }

  // ----- Reading a beacon back ------------------------------------------------------

  function DigitValue(b: Byte): Option<nat> {
    if '0' as int <= b <= '9' as int then Some(b - '0' as int)
    else if 'A' as int <= b <= 'F' as int then Some(b - 'A' as int + 10)
    else None
  }

  // The value of a hexadecimal number, if all its bytes are digits.
  function HexValue(bs: seq<Byte>): Option<nat> {
    if bs == [] then Some(0)
    else
      match (HexValue(bs[..|bs| - 1]), DigitValue(bs[|bs| - 1]))
      case (Some(h), Some(d)) => Some(h * 0x10 + d)
      case _ => None
  }

  function Pow16(n: nat): nat { if n == 0 then 1 else 0x10 * Pow16(n - 1) }

  lemma DigitReads(v: Nibble)
    ensures DigitValue(HexDigit(v)) == Some(v)
  {
    hide HexDigit;
    HexDigits(v);
  }

  lemma {:induction false} HexValueOfHex(value: nat, n: nat)
    requires value < Pow16(n)
    ensures HexValue(Hex(value, n)) == Some(value)
    decreases n
  {
    hide HexDigit, DigitValue;
    if n == 0 {
    } else {
      var h := Hex(value / 0x10, n - 1);
      var d := HexDigit(value % 0x10);
      HexValueOfHex(value / 0x10, n - 1);
      DigitReads(value % 0x10);
      assert Hex(value, n) == h + [d];
      assert (h + [d])[..|h + [d]| - 1] == h;
    }
  }

  // Where the digits of counter k stand in a beacon.
  function DigitsAt(k: nat): nat
    requires k < FIELDS
  {
    40 + FieldStart(k) + |Label(k)|
  }

  // The eight bytes after the label of a counter are digits, and read as the counter.
  lemma CounterReadsBack(r: TxRequest, k: nat)
    requires k < FIELDS
    ensures DigitsAt(k) + 8 <= 129
    ensures HexValue(BeaconText(r)[DigitsAt(k)..DigitsAt(k) + 8]) == Some(Counter(r, k))
  {
    hide BeaconText, Counter, Hex, HexValue, FieldStart, Label, Hex32Byte;
    BeaconFieldByte(r, k, |Label(k)| + 7);
    var digits := BeaconText(r)[DigitsAt(k)..DigitsAt(k) + 8];
    forall i: nat | i < 8
      ensures digits[i] == Hex(Counter(r, k), 8)[i]
    {
      BeaconFieldByte(r, k, |Label(k)| + i);
      Hex32IsHex(Counter(r, k), i);
    }
    assert digits == Hex(Counter(r, k), 8);
    Pow16Of8();
    HexValueOfHex(Counter(r, k), 8);
  }

  lemma Pow16Of8()
    ensures Pow16(8) == 0x1_0000_0000
  {
    assert Pow16(4) == 0x1_0000;
    assert Pow16(6) == 0x100_0000;
  }
}
