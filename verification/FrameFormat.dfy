/** Every frame on the transmit line, byte by byte.

  `InFormat` says in the numbers of IEEE 802.3 and RFC 826 what a complete frame looks like:
  preamble, start delimiter, addresses, EtherType, text, padding and check sequence. It names
  nothing of the endpoint, so it can be read without it.
 */
module FrameFormat {

  import opened Words
  import opened Mii
  import opened Arp
  import opened Framer
  import opened TxPayloads
  import opened Reference
  import N = EndToEnd
  import E = Endpoint
  import G = Guarantees
  import RT = RoundTrip
  import D = Crc32Division

  // An ARP reply from 02:00:00:00:00:01 at 192.168.1.100 to the station that the Ethernet
  // header addresses, padded with zeros; b begins after the start delimiter.
  predicate IsArpReply(b: seq<Byte>) {
    && |b| == 64
    && b[6..14] == [2, 0, 0, 0, 0, 1, 8, 6]
    && b[14..32] == [0, 1, 8, 0, 6, 4, 0, 2, 2, 0, 0, 0, 0, 1, 192, 168, 1, 100]
    && b[32..38] == b[..6]
    && forall i | 42 <= i < 60 :: b[i] == 0
  }

  // A beacon from the same station to everyone, with EtherType 0x88B5 and some seven counters.
  ghost predicate IsBeaconText(b: seq<Byte>) {
    && |b| == 147
    && b[..14] == [0xFF, 0xFF, 0xFF, 0xFF, 0xFF, 0xFF, 2, 0, 0, 0, 0, 1, 0x88, 0xB5]
    && exists r: TxRequest :: b[14..143] == BeaconText(r)
  }

  // The last four bytes are the check sequence of IEEE 802.3 section 3.2.9 for the others.
  predicate IsChecked(b: seq<Byte>) {
    && |b| >= 60
    && var n := |b| - 4;
       D.WireBits(ToBits(b[n..])) == D.CheckSequence(D.WireBits(ToBits(b[..n])))
  }

  ghost predicate InFormat(f: RawFrame) {
    var bs := Bytes(f.nibbles);
    && !f.err && |f.nibbles| == 2 * |bs| && |bs| >= 72
    && bs[..8] == [0x55, 0x55, 0x55, 0x55, 0x55, 0x55, 0x55, 0xD5]
    && (IsArpReply(bs[8..]) || IsBeaconText(bs[8..]))
    && IsChecked(bs[8..])
  }

  lemma ReplyPacketParts(mac: Mac, ip: Ip)
    ensures ReplyPacket(mac, ip)[..18] == [0, 1, 8, 0, 6, 4, 0, 2, 2, 0, 0, 0, 0, 1, 192, 168, 1, 100]
    ensures ReplyPacket(mac, ip)[18..24] == mac
  {
  }

  lemma SliceOfSlice(b: seq<Byte>, p: seq<Byte>, i: nat, j: nat)
    requires 14 + |p| <= |b| && b[14..14 + |p|] == p && i <= j <= |p|
    ensures b[14 + i..14 + j] == p[i..j]
  {
    forall k | 0 <= k < j - i
      ensures b[14 + i..14 + j][k] == p[i..j][k]
    {
      assert b[14..14 + |p|][i + k] == p[i + k];
    }
  }

  lemma ReplyFormat(r: TxRequest)
    requires Proper(r) && r.kind != Beacon
    ensures IsArpReply(Pad(FrameBody(r)) + CheckBytes(Pad(FrameBody(r))))
  {
    hide CheckBytes, Proper, EthernetHeader, FrameBody, ReplyPacket;
    RT.BodyParts(r);
    RT.HeaderParts(r);
    RT.ArpText(r);
    var body, p := FrameBody(r), ReplyPacket(r.requesterMac, r.requesterIp);
    var b := Pad(body) + CheckBytes(Pad(body));
    assert b[..6] == body[..6] && b[6..14] == body[6..12] + body[12..14];
    assert b[14..14 + |p|] == body[14..];
    ReplyPacketParts(r.requesterMac, r.requesterIp);
    SliceOfSlice(b, p, 0, 18);
    SliceOfSlice(b, p, 18, 24);
    OwnTarget(r);
  }

  lemma OwnTarget(r: TxRequest)
    requires Proper(r) && r.kind != Beacon
    ensures r.requesterMac ==
      if r.kind == ArpReply then r.requesterMac else [0xFF, 0xFF, 0xFF, 0xFF, 0xFF, 0xFF]
  {
  }

  lemma BeaconFormat(r: TxRequest)
    requires Proper(r) && r.kind == Beacon
    ensures IsBeaconText(FrameBody(r) + CheckBytes(FrameBody(r)))
  {
    hide CheckBytes, Proper, FrameBody, BeaconText;
    RT.BodyParts(r);
    var body := FrameBody(r);
    var b := body + CheckBytes(body);
    assert b[..14] == body[..6] + body[6..12] + body[12..14];
    assert b[14..143] == body[14..] == BeaconText(r);
  }

  lemma Checked(r: TxRequest)
    requires Proper(r)
    ensures var body := Pad(FrameBody(r)); IsChecked(body + CheckBytes(body))
  {
    hide Proper, FrameBody, CheckBytes, D.CheckSequence, D.WireBits, ToBits;
    var body := Pad(FrameBody(r));
    var b := body + CheckBytes(body);
    assert b[..|body|] == body && b[|body|..] == CheckBytes(body);
    RT.CheckBits(body);
    D.FcsIsIeeeCheckSequence(ToBits(body));
  }

  // So is every frame that the endpoint makes.
  lemma OwnFormat(r: TxRequest)
    requires Proper(r)
    ensures InFormat(N.FrameOf(r))
  {
    hide Proper, FrameBody, CheckBytes, Bytes, Nibbles, IsArpReply, IsBeaconText, IsChecked;
    var w := WireOf(r);
    BytesOfNibbles(w);
    RT.BodyLength(r);
    var body := Pad(FrameBody(r));
    assert w[8..] == body + CheckBytes(body);
    Checked(r);
    if r.kind == Beacon {
      BeaconFormat(r);
    } else {
      ReplyFormat(r);
    }
  }

  ghost predicate AllInFormat(frames: seq<RawFrame>) {
    forall i | 0 <= i < |frames| :: InFormat(frames[i])
  }

  lemma RequestsInFormat(rs: seq<TxRequest>)
    requires N.AllRequests(rs)
    ensures AllInFormat(N.FramesOf(rs))
  {
    hide Proper, N.FrameOf, InFormat;
    forall i | 0 <= i < |rs|
      ensures InFormat(N.FrameOf(rs[i]))
    {
      OwnFormat(rs[i]);
    }
  }

  // Every complete frame ever on the transmit line.
  lemma FramesInFormat(xs: seq<Sample>)
    ensures AllInFormat(Decode(E.TxLines(xs)).done)
  {
    hide Run, E.TxLines, Decode, Model.Shape, G.SentRequests, N.FramesOf, N.AllRequests, AllInFormat;
    G.FramesSent(xs);
    RequestsInFormat(G.SentRequests(Run(xs)));
  }
}
