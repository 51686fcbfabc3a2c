/** A receive line full of requests.

  Valid ARP requests for this endpoint's address, in frames of minimal size with preamble,
  padding and check sequence, 24 quiet cycles apart: what a conforming sender can send at
  most. `DecodeTraffic` says which frames are on the line at any time, and `RequestPacket`
  what each of them leaves.
 */
module Traffic {

  import opened Words
  import opened Mii
  import opened FrameParser
  import opened Arp
  import opened Framer
  import opened Reference
  import N = EndToEnd
  import G = Guarantees
  import RT = RoundTrip

  const ASKER_MAC: Mac := [2, 0, 0, 0, 0, 2]

  const ASKER_IP: Ip := [192, 168, 1, 1]

  function RequestBody(): (body: seq<Byte>)
    ensures |body| == 42
  {
    [0xFF, 0xFF, 0xFF, 0xFF, 0xFF, 0xFF] + ASKER_MAC + [8, 6]
    + ArpPacket([0, 1], ASKER_MAC, ASKER_IP, [0, 0, 0, 0, 0, 0], [192, 168, 1, 100])
  }

  const FRAME_NIBBLES := 24 + 2 * 60

  function RequestNibbles(): (ns: seq<Nibble>)
    ensures |ns| == FRAME_NIBBLES
  {
    Nibbles(Wire(Pad(RequestBody())))
  }

  function RequestFrame(): RawFrame { RawFrame(RequestNibbles(), false) }

  // The packet that such a frame leaves.
  function RequestPacket(): Packet {
    Packet(Header([0xFF, 0xFF, 0xFF, 0xFF, 0xFF, 0xFF], ASKER_MAC, [8, 6]), Pad(RequestBody())[14..], false)
  }

  lemma RequestParses()
    ensures ParseFrame(RequestFrame()) == Some(RequestPacket())
  {
    var body := RequestBody();
    assert body[..6] == [0xFF, 0xFF, 0xFF, 0xFF, 0xFF, 0xFF] && body[6..12] == ASKER_MAC && body[12..14] == [8, 6];
    RT.PadKeeps(body);
    hide RequestBody, Pad, Wire, Nibbles, ParseFrame;
    RT.ParseWire(Pad(body));
  }

  lemma RequestAsks()
    ensures Candidate(RequestPacket()) && Asks(RequestPacket()) == Some((ASKER_MAC, ASKER_IP))
  {
    var body := RequestBody();
    var arp := ArpPacket([0, 1], ASKER_MAC, ASKER_IP, [0, 0, 0, 0, 0, 0], [192, 168, 1, 100]);
    var payload := RequestPacket().payload;
    assert body[14..] == arp;
    RT.PadKeeps(body);
    assert payload == arp + payload[|arp|..];
    RequestIsRecognised([0, 1], ASKER_MAC, ASKER_IP, [0, 0, 0, 0, 0, 0], [192, 168, 1, 100], payload[|arp|..]);
    hide RequestBody, Pad, ArpPacket, ParseArpIpv4Request;
  }

  lemma RequestFrameAsks()
    ensures G.FrameAsks(RequestFrame()) == Some((ASKER_MAC, ASKER_IP))
  {
    hide ParseFrame, RequestFrame, RequestPacket, Asks;
    RequestParses();
    RequestAsks();
  }

  // ----- The line -------------------------------------------------------------------

  const SILENT := Sample(false, 0, false)

  // The cycles of one frame and its gap. The frame ends with the last of them.
  const PERIOD := FRAME_NIBBLES + 24

  const LEAD := 23

  function PeriodSample(u: nat): Sample
    requires u < PERIOD
  {
    if LEAD <= u < LEAD + FRAME_NIBBLES then Sample(true, RequestNibbles()[u - LEAD], false) else SILENT
  }

  // Cycle c of k frames one after the other, and of the silence before and after them.
  function TrafficAt(k: nat, c: int): Sample {
    if 0 <= c < PERIOD * k then PeriodSample(c % PERIOD) else SILENT
  }

  // The first n cycles: s of silence, k frames, and silence again.
  function FullLoad(s: nat, k: nat, n: nat): (xs: seq<Sample>)
    ensures |xs| == n
  {
    seq(n, j => TrafficAt(k, j - s))
  }

  lemma TrafficNext(s: nat, k: nat, n: nat)
    ensures FullLoad(s, k, n + 1) == FullLoad(s, k, n) + [TrafficAt(k, n - s)]
  {
    hide TrafficAt;
  }

  lemma TrafficPrefix(s: nat, k: nat, m: nat, n: nat)
    requires m <= n
    ensures FullLoad(s, k, n)[..m] == FullLoad(s, k, m)
  {
    hide TrafficAt;
  }

  function Frames(i: nat): (fs: seq<RawFrame>)
    ensures |fs| == i
  {
    seq(i, _ => RequestFrame())
  }

  // The line decoded, u cycles into frame number i.
  function Heard(i: nat, u: nat): Decoded
    requires u < PERIOD
  {
    Decoded(Frames(i), if u <= LEAD then None else Some(RawFrame(RequestNibbles()[..u - LEAD], false)))
  }

  lemma HeardNext(i: nat, u: nat)
    requires u < PERIOD
    ensures DecodeStep(Heard(i, u), PeriodSample(u)) == if u + 1 < PERIOD then Heard(i, u + 1) else Heard(i + 1, 0)
  {
    hide RequestNibbles;
    var ns := RequestNibbles();
    if u < LEAD {
    } else if u + 1 < PERIOD {
      assert ns[..u + 1 - LEAD] == ns[..u - LEAD] + [ns[u - LEAD]];
      assert u == LEAD ==> ns[..u + 1 - LEAD] == [ns[0]];
    } else {
      assert ns[..u - LEAD] == ns;
      assert Frames(i + 1) == Frames(i) + [RequestFrame()];
    }
  }

  // What is on the line after n cycles.
  function HeardAt(s: nat, k: nat, n: nat): Decoded {
    var c := n - s;
    if c <= 0 then Heard(0, 0)
    else if c < PERIOD * k then Heard(c / PERIOD, c % PERIOD)
    else Heard(k, 0)
  }

  lemma Periods(c: nat, k: nat)
    requires c < PERIOD * k
    ensures c / PERIOD < k
    ensures if c % PERIOD + 1 < PERIOD then
              (c + 1) / PERIOD == c / PERIOD && (c + 1) % PERIOD == c % PERIOD + 1 && c + 1 < PERIOD * k
            else
              (c + 1) / PERIOD == c / PERIOD + 1 && (c + 1) % PERIOD == 0
              && (c + 1 < PERIOD * k <==> c / PERIOD + 1 < k)
  {
    var q, r := c / 168, c % 168;
    assert c == 168 * q + r;
  }

  lemma HeardAtNext(s: nat, k: nat, n: nat)
    ensures DecodeStep(HeardAt(s, k, n), TrafficAt(k, n - s)) == HeardAt(s, k, n + 1)
  {
    hide Heard, PeriodSample, DecodeStep;
    var c := n - s;
    if 0 <= c < PERIOD * k {
      Periods(c, k);
      HeardNext(c / PERIOD, c % PERIOD);
    } else {
      HeardIdle(if c < 0 then 0 else k);
    }
  }

  lemma HeardIdle(i: nat)
    ensures DecodeStep(Heard(i, 0), SILENT) == Heard(i, 0)
  {
  }

  lemma {:induction false} DecodeTraffic(s: nat, k: nat, n: nat)
    ensures Decode(FullLoad(s, k, n)) == HeardAt(s, k, n)
    decreases n
  {
    hide HeardAt, TrafficAt, DecodeStep;
    if n == 0 {
      NothingHeard(s, k);
    } else {
      DecodeTraffic(s, k, n - 1);
      HeardAtNext(s, k, n - 1);
      TrafficNext(s, k, n - 1);
      var xs := FullLoad(s, k, n);
      assert xs[..|xs| - 1] == FullLoad(s, k, n - 1);
    }
  }

  lemma NothingHeard(s: nat, k: nat)
    ensures HeardAt(s, k, 0) == Decoded([], None)
  {
  }

  lemma {:induction false} FramesAsk(i: nat)
    ensures |N.Askers(N.PacketsOf(Frames(i)))| == i
    decreases i
  {
    hide N.Askers, N.PacketsOf, G.FrameAsks, RequestFrame;
    if i == 0 {
      NoneAsk();
    } else {
      FramesAsk(i - 1);
      RequestFrameAsks();
      G.FrameAdds(Frames(i - 1), RequestFrame());
      assert Frames(i) == Frames(i - 1) + [RequestFrame()];
    }
  }

  lemma NoneAsk()
    ensures Frames(0) == [] && N.Askers(N.PacketsOf([])) == []
  {
  }

  // The k requests have been received when the last period is over.
  lemma TrafficAsks(s: nat, k: nat, n: nat)
    requires n >= s + PERIOD * k
    ensures |N.Askers(N.PacketsOf(Decode(FullLoad(s, k, n)).done))| == k
  {
    hide N.Askers, N.PacketsOf, Decode, FullLoad, Frames;
    DecodeTraffic(s, k, n);
    FramesAsk(k);
  }
}
