/** From the framer back through the receive path.

  What the framer sends for a body is what the receive path stores: the header, and the
  payload padded with zeros to the minimum size, without the check sequence. So a frame of
  one endpoint asks nothing of another: `OwnFramesAskNothing`.
 */
module RoundTrip {

  import opened Words
  import opened Mii
  import opened FrameParser
  import opened PacketQueue
  import opened RxQueue
  import opened Framer
  import opened Arp
  import opened TxPayloads
  import opened Reference
  import N = EndToEnd
  import C = Crc32
  import A = Crc32Algebra
  import D = Crc32Division

  // ----- The frame of a body, parsed ------------------------------------------------

  lemma StripWire(body: seq<Byte>)
    ensures Strip(Wire(body)) == body + CheckBytes(body)
  {
    hide CheckBytes, LeadingPreamble;
    var w := Wire(body);
    assert w[7] == 0xD5 && forall i | 0 <= i < 7 :: w[i] == 0x55;
    assert LeadingPreamble(w) == 7;
  }

  // A body of legal size, up to 1514 bytes, comes back whole.
  lemma ParseWire(body: seq<Byte>)
    requires 14 <= |body| <= 1514
    ensures ParseFrame(RawFrame(Nibbles(Wire(body)), false)) ==
      Some(Packet(Header(body[..6], body[6..12], body[12..14]), body[14..], false))
  {
    var d := body + CheckBytes(body);
    StripWire(body);
    BytesOfNibbles(Wire(body));
    KeptFrames(d, false);
    hide CheckBytes, Wire, Strip, ParseData, Bytes, Nibbles;
    assert d[..6] == body[..6] && d[6..12] == body[6..12] && d[12..14] == body[12..14];
    assert d[14..|d| - 4] == body[14..];
  }

  // The payload as it arrives: padded with zeros to 46 bytes.
  function Delivered(payload: seq<Byte>): (p: seq<Byte>)
    ensures |p| == if |payload| < 46 then 46 else |payload|
  {
    if |payload| < 46 then payload + seq(46 - |payload|, _ => 0) else payload
  }

  lemma PaddedParts(buffer: seq<Byte>, len: Word11)
    requires |buffer| == 1514 && 14 <= len <= 1514
    ensures var body := Padded(buffer, len);
            && body[..6] == buffer[..6] && body[6..12] == buffer[6..12] && body[12..14] == buffer[12..14]
            && body[14..] == Delivered(buffer[14..len])
  {
  }

  // ----- The framer from start to idle ----------------------------------------------

  // n cycles of the framer on one buffer, the first with a start request.
  function FramerRun(f: Framer, buffer: seq<Byte>, len: Word11, n: nat): (r: (Framer, seq<Sample>))
    requires f.Shape() && |buffer| == FRAME_BODY_BYTES
    ensures r.0.Shape() && |r.1| == n
  {
    if n == 0 then (f, [])
    else
      var (g, lines) := FramerRun(f, buffer, len, n - 1);
      var (h, o) := FramerStep(g, n == 1, len, buffer);
      (h, lines + [o.line])
  }

  // The line during a frame: one quiet cycle, the frame's nibbles, the gap.
  function LinesOf(buffer: seq<Byte>, len: Word11): (ys: seq<Sample>)
    requires |buffer| == FRAME_BODY_BYTES
    ensures |ys| == Duration(len)
  {
    seq(Duration(len), age requires 0 <= age < Duration(len) => LineAt(buffer, len, age))
  }

  lemma {:induction false} FramerRunSends(f: Framer, buffer: seq<Byte>, len: Word11, n: nat)
    requires f.Shape() && |buffer| == FRAME_BODY_BYTES && f.state == Idle && 1 <= n <= Duration(len)
    ensures var (g, ys) := FramerRun(f, buffer, len, n);
            && ys == LinesOf(buffer, len)[..n]
            && if n == Duration(len) then g.state == Idle && g.toggle == !f.toggle
               else Sending(g, buffer, len, n, f.toggle)
    decreases n
  {
    hide FramerStep, Sending, LineAt, Wire;
    var (g, ys) := FramerRun(f, buffer, len, n - 1);
    if n == 1 {
      StartSends(f, buffer, len);
    } else {
      FramerRunSends(f, buffer, len, n - 1);
      SendingStep(g, buffer, len, n - 1, f.toggle, false, len);
    }
  }

  // ----- One frame on the receive line ----------------------------------------------

  // The lines of a frame, decoded: n cycles into it, and at its end.
  lemma {:induction false} DecodeLines(dc: Decoded, buffer: seq<Byte>, len: Word11, n: nat)
    requires |buffer| == FRAME_BODY_BYTES && dc.cur == None && n <= Duration(len)
    ensures var ns := Nibbles(Wire(Padded(buffer, len)));
            DecodeFrom(dc, LinesOf(buffer, len)[..n]) ==
              if n <= 1 then dc
              else if n <= |ns| + 1 then Decoded(dc.done, Some(RawFrame(ns[..n - 1], false)))
              else Decoded(dc.done + [RawFrame(ns, false)], None)
    decreases n
  {
    hide Wire, Nibbles, Padded;
    var ns := Nibbles(Wire(Padded(buffer, len)));
    var ys := LinesOf(buffer, len)[..n];
    if n > 0 {
      DecodeLines(dc, buffer, len, n - 1);
      assert ys[..n - 1] == LinesOf(buffer, len)[..n - 1];
      assert ys[n - 1] == LineAt(buffer, len, n - 1);
      if 2 <= n <= |ns| + 1 {
        assert ns[..n - 2] + [ns[n - 2]] == ns[..n - 1];
        assert n == 2 ==> [ns[n - 2]] == ns[..n - 1];
      } else if n == |ns| + 2 {
        assert ns[..n - 2] == ns;
      }
    }
  }

  function RxRun(r: RxSide, q: Ring<RxMeta>, xs: seq<Sample>): (o: (RxSide, Ring<RxMeta>))
    requires r.Shape() && RxRing(q)
    ensures o.0.Shape() && RxRing(o.1)
    decreases |xs|
  {
    if xs == [] then (r, q)
    else
      var (r', q') := RxRun(r, q, xs[..|xs| - 1]);
      RxStep(r', q', xs[|xs| - 1])
  }

  // What the receive side has done with the frames that ended since dc.
  ghost predicate Captured(r: RxSide, q: Ring<RxMeta>, n: nat, q0: Ring<RxMeta>, dc: Decoded, dc0: Decoded)
    requires RxRing(q) && RxRing(q0) && n < 8
  {
    && RxFollows(r, q, dc.cur) && !r.drop
    && q.dropCount == q0.dropCount
    && if dc.done == dc0.done then q.Occupied(n) && q.Contents(n) == q0.Contents(n)
       else if dc.cur.None? && |dc.done| == |dc0.done| + 1 && ParseFrame(dc.done[|dc0.done|]).Some? then
         && q.Occupied(n + 1) && q.Contents(n + 1)[..n] == q0.Contents(n)
         && Carries(q.Contents(n + 1)[n], ParseFrame(dc.done[|dc0.done|]).value)
       else true
  }

  lemma CaptureStep(r: RxSide, q: Ring<RxMeta>, n: nat, q0: Ring<RxMeta>, dc: Decoded, dc0: Decoded, x: Sample)
    requires RxRing(q) && RxRing(q0) && n < 8 && Captured(r, q, n, q0, dc, dc0)
    requires dc.done == dc0.done || (dc.cur.None? && !x.dv)
    ensures var (r', q') := RxStep(r, q, x);
            RxRing(q') && Captured(r', q', n, q0, DecodeStep(dc, x), dc0)
  {
    hide RxStep, RxFollows, ParseFrame, Carries, Ring<RxMeta>.Occupied, Ring<RxMeta>.Contents;
    if x.dv {
      ActiveCycle(r, q, n, dc, x);
    } else if dc.cur.None? {
      QuietCycle(r, q, dc, x);
    } else {
      EndCycle(r, q, n, dc, x);
    }
  }

  lemma {:induction false} RunCaptures(r: RxSide, q: Ring<RxMeta>, n: nat, dc: Decoded, buffer: seq<Byte>,
                                       len: Word11, k: nat)
    requires RxRing(q) && q.Occupied(n) && n < 8 && RxFollows(r, q, None) && dc.cur == None && !r.drop
    requires |buffer| == FRAME_BODY_BYTES && k <= Duration(len)
    ensures var (r', q') := RxRun(r, q, LinesOf(buffer, len)[..k]);
            RxRing(q') && Captured(r', q', n, q, DecodeFrom(dc, LinesOf(buffer, len)[..k]), dc)
    decreases k
  {
    hide RxStep, RxFollows, ParseFrame, Carries, LinesOf, Ring<RxMeta>.Occupied, Ring<RxMeta>.Contents, Captured,
      DecodeStep, Wire, Nibbles, Padded;
    var ys := LinesOf(buffer, len);
    NothingCaptured(r, q, n, dc);
    if k > 0 {
      assert ys[..k][..k - 1] == ys[..k - 1];
      RunCaptures(r, q, n, dc, buffer, len, k - 1);
      DecodeLines(dc, buffer, len, k - 1);
      LinesQuiet(buffer, len, k - 1);
      var (r', q') := RxRun(r, q, ys[..k - 1]);
      CaptureStep(r', q', n, q, DecodeFrom(dc, ys[..k - 1]), dc, ys[k - 1]);
    }
  }

  lemma NothingCaptured(r: RxSide, q: Ring<RxMeta>, n: nat, dc: Decoded)
    requires RxRing(q) && q.Occupied(n) && n < 8 && RxFollows(r, q, None) && dc.cur == None && !r.drop
    ensures r.Shape() && Captured(r, q, n, q, dc, dc)
  {
  }

  lemma LinesQuiet(buffer: seq<Byte>, len: Word11, age: nat)
    requires |buffer| == FRAME_BODY_BYTES && age < Duration(len)
    ensures age > |Nibbles(Wire(Padded(buffer, len)))| ==> !LinesOf(buffer, len)[age].dv
  {
    hide Wire;
  }

  // Sending a body of any legal length and receiving it again, from register to register:
  // the framer is idle again, and the ring has one more entry, which holds the header and
  // the padded payload.
  lemma RoundTrip(f: Framer, buffer: seq<Byte>, len: Word11, r: RxSide, q: Ring<RxMeta>, n: nat)
    requires f.Shape() && f.state == Idle
    requires |buffer| == 1514 && 14 <= len <= 1514
    requires RxRing(q) && q.Occupied(n) && n < 8 && RxFollows(r, q, None)
    ensures var (g, line) := FramerRun(f, buffer, len, Duration(len));
            var (r', q') := RxRun(r, q, line);
            && g.state == Idle && g.toggle == !f.toggle
            && RxFollows(r', q', None)
            && q'.Occupied(n + 1) && q'.Contents(n + 1)[..n] == q.Contents(n)
            && q'.dropCount == q.dropCount
            && Carries(q'.Contents(n + 1)[n],
                       Packet(Header(buffer[..6], buffer[6..12], buffer[12..14]),
                              Delivered(buffer[14..len]), false))
  {
    hide FramerStep, RxStep, RxFollows, ParseFrame, Carries, Ring<RxMeta>.Occupied, Ring<RxMeta>.Contents, Wire,
      Nibbles, Padded, LinesOf, Delivered, RxRun, FramerRun, DecodeFrom;
    var dc := Decoded([], None);
    var d, ys := Duration(len), LinesOf(buffer, len);
    assert ys[..d] == ys;
    NoDropWhenIdle(r, q);
    FramerRunSends(f, buffer, len, d);
    DecodeLines(dc, buffer, len, d);
    RunCaptures(r, q, n, dc, buffer, len, d);
    ParseWire(Padded(buffer, len));
    PaddedParts(buffer, len);
  }

  lemma NoDropWhenIdle(r: RxSide, q: Ring<RxMeta>)
    requires RxRing(q) && RxFollows(r, q, None)
    ensures !r.drop
  {
  }

  // ----- No reply loops -------------------------------------------------------------

  lemma PadKeeps(body: seq<Byte>)
    requires |body| >= 14
    ensures var p := Pad(body);
            && p[..6] == body[..6] && p[6..12] == body[6..12] && p[12..14] == body[12..14]
            && body[14..] <= p[14..]
  {
  }

  lemma BodyParts(r: TxRequest)
    requires Proper(r)
    ensures |FrameBody(r)| == if r.kind == Beacon then 143 else 42
    ensures var body := FrameBody(r);
            && body[..6] == EthernetHeader(r)[..6] && body[6..12] == EthernetHeader(r)[6..12]
            && body[12..14] == EthernetHeader(r)[12..14] && body[14..] == PayloadText(r)
  {
    BodyLength(r);
    hide Proper, EthernetHeader, PayloadText;
  }

  lemma BodyLength(r: TxRequest)
    requires Proper(r)
    ensures |FrameBody(r)| == if r.kind == Beacon then 143 else 42
  {
  }

  // The packet that a frame of this endpoint leaves where it is received: a reply is
  // addressed to whom it answers, anything else to everyone, all of it comes from
  // 02:00:00:00:00:01, and beacons have EtherType 0x88B5 and the others 0x0806.
  lemma OwnFrame(r: TxRequest)
    requires Proper(r)
    ensures var p := ParseFrame(N.FrameOf(r));
            && p.Some? && !p.value.truncated
            && p.value.header.dst ==
                 (if r.kind == ArpReply then r.requesterMac else [0xFF, 0xFF, 0xFF, 0xFF, 0xFF, 0xFF])
            && p.value.header.src == [2, 0, 0, 0, 0, 1]
            && p.value.header.etherType == (if r.kind == Beacon then [0x88, 0xB5] else [8, 6])
            && PayloadText(r) <= p.value.payload
  {
    hide Proper, PayloadText, EthernetHeader, FrameBody, Wire, Nibbles, ParseFrame, Pad;
    var body := FrameBody(r);
    ProperLength(r);
    PadKeeps(body);
    ParseWire(Pad(body));
    BodyParts(r);
    HeaderParts(r);
  }

  lemma HeaderParts(r: TxRequest)
    requires Proper(r)
    ensures var h := EthernetHeader(r);
            && h[..6] == (if r.kind == ArpReply then r.requesterMac else [0xFF, 0xFF, 0xFF, 0xFF, 0xFF, 0xFF])
            && h[6..12] == [2, 0, 0, 0, 0, 1]
            && h[12..14] == if r.kind == Beacon then [0x88, 0xB5] else [8, 6]
  {
  }

  lemma OthersAskNothing(p: Packet)
    requires p.header.etherType == [0x88, 0xB5]
    ensures Asks(p) == None
  {
    hide ParseArpIpv4Request;
  }

  lemma ReplyAsksNothing(payload: seq<Byte>, mac: Mac, ip: Ip)
    requires ReplyPacket(mac, ip) <= payload
    ensures !ParseArpIpv4Request(payload, 0, |payload|).valid
  {
    hide ParseArpIpv4Request, ArpPacket;
    var arp := ReplyPacket(mac, ip);
    RequestIsRecognised([0, 2], [2, 0, 0, 0, 0, 1], [192, 168, 1, 100], mac, ip, payload[28..]);
    assert payload == arp + payload[28..];
  }

  lemma ArpText(r: TxRequest)
    requires Proper(r) && r.kind != Beacon
    ensures PayloadText(r) == ReplyPacket(r.requesterMac, r.requesterIp)
  {
    hide ReplyPacket;
  }

  lemma OwnFramesAskNothing(r: TxRequest)
    requires Proper(r)
    ensures ParseFrame(N.FrameOf(r)).Some?
    ensures Asks(ParseFrame(N.FrameOf(r)).value) == None
  {
    hide ParseFrame, ParseArpIpv4Request, FrameBody, PayloadText, ReplyPacket, N.FrameOf, Proper;
    OwnFrame(r);
    if r.kind == Beacon {
      OthersAskNothing(ParseFrame(N.FrameOf(r)).value);
    } else {
      ArpText(r);
      ReplyAsksNothing(ParseFrame(N.FrameOf(r)).value.payload, r.requesterMac, r.requesterIp);
    }
  }

  lemma {:induction false} OwnPackets(rs: seq<TxRequest>)
    requires N.AllRequests(rs)
    ensures N.Askers(N.PacketsOf(N.FramesOf(rs))) == []
    decreases |rs|
  {
    hide Proper, N.FrameOf, ParseFrame, Asks, N.Askers, N.PacketsOf;
    if rs == [] {
      NoneAsk();
    } else {
      var init, r := rs[..|rs| - 1], rs[|rs| - 1];
      OwnPackets(init);
      OwnFramesAskNothing(r);
      assert N.FramesOf(rs) == N.FramesOf(init) + [N.FrameOf(r)];
      AddsNobody(N.FramesOf(init), N.FrameOf(r));
    }
  }

  lemma NoneAsk()
    ensures N.Askers(N.PacketsOf([])) == []
  {
  }

  lemma AddsNobody(frames: seq<RawFrame>, f: RawFrame)
    requires ParseFrame(f).Some? && Asks(ParseFrame(f).value) == None
    ensures N.Askers(N.PacketsOf(frames + [f])) == N.Askers(N.PacketsOf(frames))
  {
    hide ParseFrame, Asks;
    assert (frames + [f])[..|frames|] == frames;
    var p, ps := ParseFrame(f).value, N.PacketsOf(frames);
    assert N.PacketsOf(frames + [f]) == ps + [p];
    assert (ps + [p])[..|ps|] == ps;
  }

  // ----- The check sequence on the wire ---------------------------------------------

  lemma BitsAppend(a: seq<Byte>, b: seq<Byte>)
    ensures ToBits(a + b) == ToBits(a) + ToBits(b)
  {
  }

  lemma CheckBits(body: seq<Byte>)
    ensures ToBits(CheckBytes(body)) == C.Fcs(C.Crc(C.INIT, ToBits(body)))
  {
    hide C.Fcs, C.Crc;
  }

  // What follows the start delimiter of every frame the endpoint sends ends with the check
  // sequence that IEEE 802.3 section 3.2.9 defines for the rest, so the register of any
  // receiver that checks it ends at the residue.
  lemma SentFramesCheck(r: TxRequest)
    requires Proper(r)
    ensures var body := Pad(FrameBody(r));
            var frame := ToBits(WireOf(r)[8..]);
            && frame[..|body|] == ToBits(body)
            && D.WireBits(frame[|body|..]) == D.CheckSequence(D.WireBits(ToBits(body)))
            && C.Crc(C.INIT, frame) == C.RESIDUE
  {
    hide Proper, FrameBody, C.Crc, C.Fcs, D.CheckSequence, D.WireBits, ToBits, CheckBytes;
    var body := Pad(FrameBody(r));
    assert WireOf(r)[8..] == body + CheckBytes(body);
    BitsAppend(body, CheckBytes(body));
    CheckBits(body);
    A.FrameResidue(ToBits(body));
    D.FcsIsIeeeCheckSequence(ToBits(body));
  }
}
