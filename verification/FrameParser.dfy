/** The streaming receive parser.

  The parser sees one byte at a time and keeps a few registers: it skips the preamble,
  shifts header bytes into place and delays the payload by four bytes, so that the check
  sequence has not been stored when the frame ends. `ParseFrame` is the function of the
  whole frame that this computes; `ParserFollows` is the relation the stream keeps.
 */
module FrameParser {

  import opened Words
  import opened Mii

  const MAX_PAYLOAD := 1500

  const HEADER_BYTES := 14

  const PREAMBLE: Byte := 0x55

  const SFD: Byte := 0xD5

  datatype Header = Header(dst: Mac, src: Mac, etherType: Half)

  const NO_HEADER := Header(ZERO_MAC, ZERO_MAC, ZERO_HALF)

  datatype FrameMeta = FrameMeta(valid: bool, truncated: bool, header: Header, payloadLen: nat)

  const NO_META := FrameMeta(false, false, NO_HEADER, 0)

  // What the endpoint keeps of a received frame.
  datatype Packet = Packet(header: Header, payload: seq<Byte>, truncated: bool)

  datatype Parser = Parser(
    searching: bool,
    preambleCount: nat,
    byteIndex: Word16,
    frameError: bool,
    header: Header,
    tail: seq<Byte>,
    tailCount: nat,
    payloadCount: nat,
    truncated: bool)
  {
    predicate Shape() {
      && preambleCount < 16 && |tail| == 4 && tailCount <= 4 && payloadCount <= MAX_PAYLOAD
    }
  }

  function SetHeaderByte(h: Header, i: nat, b: Byte): Header
    requires i < HEADER_BYTES
  {
    if i < 6 then h.(dst := h.dst[i := b])
    else if i < 12 then h.(src := h.src[i - 6 := b])
    else h.(etherType := h.etherType[i - 12 := b])
  }

  function StartFrame(p: Parser): Parser {
    Parser(true, 0, 0, false, NO_HEADER, p.tail, 0, 0, false)
  }

  // rx_capture_payload_byte
  function Capture(p: Parser, buffer: seq<Byte>, b: Byte): (r: (Parser, seq<Byte>))
    requires p.Shape() && |buffer| == MAX_PAYLOAD
    ensures r.0.Shape() && |r.1| == |buffer|
  {
    if p.tailCount < 4 then
      (p.(tail := p.tail[p.tailCount := b], tailCount := p.tailCount + 1), buffer)
    else
      var q := p.(tail := p.tail[1..] + [b]);
      if p.payloadCount < MAX_PAYLOAD then
        (q.(payloadCount := p.payloadCount + 1), buffer[p.payloadCount := p.tail[0]])
      else
        (q.(truncated := true), buffer)
  }

  function DataByte(p: Parser, buffer: seq<Byte>, b: Byte): (r: (Parser, seq<Byte>))
    requires p.Shape() && |buffer| == MAX_PAYLOAD
    ensures r.0.Shape() && |r.1| == |buffer|
  {
    var next := (p.byteIndex + 1) % 0x1_0000;
    if p.byteIndex < HEADER_BYTES then
      (p.(header := SetHeaderByte(p.header, p.byteIndex, b), byteIndex := next), buffer)
    else
      var (q, buffer') := Capture(p, buffer, b);
      (q.(byteIndex := next), buffer')
  }

  function AcceptByte(p: Parser, buffer: seq<Byte>, b: Byte): (r: (Parser, seq<Byte>))
    requires p.Shape() && |buffer| == MAX_PAYLOAD
    ensures r.0.Shape() && |r.1| == |buffer|
  {
    if p.searching then
      if b == PREAMBLE then
        (p.(preambleCount := if p.preambleCount != 15 then p.preambleCount + 1 else 15), buffer)
      else if b == SFD && p.preambleCount != 0 then
        (p.(searching := false, byteIndex := 0), buffer)
      else
        DataByte(p.(searching := false), buffer, b)
    else
      DataByte(p, buffer, b)
  }

  function EndFrame(p: Parser): (Parser, FrameMeta) {
    (Parser(true, 0, 0, false, p.header, p.tail, 0, 0, false),
     FrameMeta(p.byteIndex >= HEADER_BYTES + 4 && p.tailCount == 4 && !p.frameError,
               p.truncated, p.header, p.payloadCount))
  }

  // One call of the parser: the new registers, the new buffer, the frame's description.
  datatype Parsed = Parsed(parser: Parser, buffer: seq<Byte>, meta: FrameMeta)

  function ParserStep(p: Parser, buffer: seq<Byte>, o: Assembled, err: bool): (r: Parsed)
    requires p.Shape() && |buffer| == MAX_PAYLOAD
    ensures r.parser.Shape() && |r.buffer| == |buffer|
  {
    var p1 := if o.frameStart then StartFrame(p) else p;
    var p2 := p1.(frameError := p1.frameError || err);
    var (p3, buffer') := if o.byteValid then AcceptByte(p2, buffer, o.data) else (p2, buffer);
    if o.frameEnd then
      var (p4, meta) := EndFrame(p3);
      Parsed(p4, buffer', meta)
    else
      Parsed(p3, buffer', NO_META)
  }

  // ----- The function of a whole frame ----------------------------------------------

  // The number of preamble bytes at the front.
  function LeadingPreamble(bs: seq<Byte>): (n: nat)
    ensures n <= |bs|
    ensures n < |bs| ==> bs[n] != 0x55
    ensures forall i | 0 <= i < n :: bs[i] == 0x55
  {
    if bs == [] || bs[0] != 0x55 then 0 else 1 + LeadingPreamble(bs[1..])
  }

  predicate OnlyPreamble(bs: seq<Byte>) { LeadingPreamble(bs) == |bs| }

  // The data bytes: what follows the preamble, and the start delimiter if there was one.
  function Strip(bs: seq<Byte>): seq<Byte> {
    var n := LeadingPreamble(bs);
    if 0 < n < |bs| && bs[n] == 0xD5 then bs[n + 1..] else bs[n..]
  }

  // The 16-bit index of data byte n.
  function Position(n: nat): Word16 { n % 0x1_0000 }

  // The header as collected from the data bytes. The byte index has 16 bits, so in a frame
  // of 65536 data bytes or more later bytes overwrite it.
  function HeaderOf(d: seq<Byte>): Header
    decreases |d|
  {
    if d == [] then NO_HEADER
    else
      var n := |d| - 1;
      var i := Position(n);
      if i < 14 then SetHeaderByte(HeaderOf(d[..n]), i, d[n]) else HeaderOf(d[..n])
  }

  // The data bytes that are not taken for header bytes.
  function Body(d: seq<Byte>): (c: seq<Byte>)
    ensures |c| <= |d|
    decreases |d|
  {
    if d == [] then []
    else
      var n := |d| - 1;
      if Position(n) < 14 then Body(d[..n]) else Body(d[..n]) + [d[n]]
  }

  function Min(a: nat, b: nat): nat { if a < b then a else b }

  // How much of the body is payload: all but the four check-sequence bytes, up to the limit.
  function PayloadCount(c: seq<Byte>): (n: nat)
    ensures n <= |c|
  {
    if |c| < 4 then 0 else Min(|c| - 4, 1500)
  }

  function ParseData(d: seq<Byte>, err: bool): Option<Packet> {
    var c := Body(d);
    if Position(|d|) >= 18 && |c| >= 4 && !err then
      Some(Packet(HeaderOf(d), c[..PayloadCount(c)], |c| - 4 > 1500))
    else
      None
  }

  function ParseFrame(f: RawFrame): Option<Packet> {
    ParseData(Strip(Bytes(f.nibbles)), f.err)
  }

  // ----- The stream computes it -----------------------------------------------------

  // The last bytes of the body c are in the delay line, those before them in the buffer.
  ghost predicate DelayLineHolds(p: Parser, buffer: seq<Byte>, c: seq<Byte>) {
    && p.Shape() && |buffer| == MAX_PAYLOAD
    && p.tailCount == Min(|c|, 4)
    && p.tail[..p.tailCount] == c[|c| - p.tailCount..]
    && p.payloadCount == PayloadCount(c)
    && buffer[..p.payloadCount] == c[..p.payloadCount]
    && p.truncated == (|c| - 4 > 1500)
  }

  // The registers after the data bytes d.
  ghost predicate DataFollows(p: Parser, buffer: seq<Byte>, d: seq<Byte>) {
    && p.byteIndex == Position(|d|)
    && p.header == HeaderOf(d)
    && DelayLineHolds(p, buffer, Body(d))
  }

  // The registers after the bytes bs of a frame.
  ghost predicate ParserFollows(p: Parser, buffer: seq<Byte>, bs: seq<Byte>, err: bool) {
    && p.searching == OnlyPreamble(bs)
    && (p.searching ==> (p.preambleCount != 0) == (bs != []))
    && p.frameError == err
    && DataFollows(p, buffer, Strip(bs))
  }

  lemma {:induction false} LeadingPreambleAppend(bs: seq<Byte>, b: Byte)
    ensures LeadingPreamble(bs + [b]) ==
      if OnlyPreamble(bs) && b == PREAMBLE then |bs| + 1 else LeadingPreamble(bs)
    decreases |bs|
  {
    if bs == [] {
      assert (bs + [b])[1..] == [];
    } else {
      assert (bs + [b])[1..] == bs[1..] + [b];
      LeadingPreambleAppend(bs[1..], b);
    }
  }

  lemma StripAppend(bs: seq<Byte>, b: Byte)
    ensures !OnlyPreamble(bs) ==> Strip(bs + [b]) == Strip(bs) + [b] && !OnlyPreamble(bs + [b])
    ensures OnlyPreamble(bs) ==>
      && Strip(bs) == []
      && OnlyPreamble(bs + [b]) == (b == PREAMBLE)
      && Strip(bs + [b]) == if b == PREAMBLE || (b == SFD && bs != []) then [] else [b]
  {
    LeadingPreambleAppend(bs, b);
  }

  lemma IndexAdvances(n: nat)
    ensures (Position(n) + 1) % 0x1_0000 == Position(n + 1)
  {
  }

  lemma BodyLast(d: seq<Byte>)
    requires d != []
    ensures var n := |d| - 1;
            && Body(d) == (if Position(n) < HEADER_BYTES then Body(d[..n]) else Body(d[..n]) + [d[n]])
            && HeaderOf(d) == (if Position(n) < HEADER_BYTES then
                                 SetHeaderByte(HeaderOf(d[..n]), Position(n), d[n])
                               else HeaderOf(d[..n]))
  {
  }

  lemma BodyAppend(d: seq<Byte>, b: Byte)
    ensures Body(d + [b]) == if Position(|d|) < HEADER_BYTES then Body(d) else Body(d) + [b]
    ensures HeaderOf(d + [b]) ==
      if Position(|d|) < HEADER_BYTES then SetHeaderByte(HeaderOf(d), Position(|d|), b)
      else HeaderOf(d)
  {
    var d' := d + [b];
    BodyLast(d');
    hide Body, HeaderOf, SetHeaderByte, Position;
    assert d'[..|d'| - 1] == d;
  }

  // The delay line before it is full.
  lemma FillFollows(p: Parser, buffer: seq<Byte>, c: seq<Byte>, b: Byte)
    requires DelayLineHolds(p, buffer, c) && p.tailCount < 4
    ensures var (q, buffer') := Capture(p, buffer, b);
            && DelayLineHolds(q, buffer', c + [b])
            && q == p.(tail := q.tail, tailCount := q.tailCount)
  {
    assert p.tail[p.tailCount := b][..p.tailCount + 1] == p.tail[..p.tailCount] + [b];
  }

  // The delay line when a byte falls out of it.
  lemma ShiftFollows(p: Parser, buffer: seq<Byte>, c: seq<Byte>, b: Byte)
    requires DelayLineHolds(p, buffer, c) && p.tailCount == 4
    ensures var (q, buffer') := Capture(p, buffer, b);
            && DelayLineHolds(q, buffer', c + [b])
            && q == p.(tail := q.tail, payloadCount := q.payloadCount, truncated := q.truncated)
  {
    var c' := c + [b];
    assert p.tail[..4] == p.tail;
    assert p.tail[0] == c[|c| - 4];
    assert c'[|c'| - 4..] == c[|c| - 4..][1..] + [b];
    var n := p.payloadCount;
    if n < MAX_PAYLOAD {
      assert buffer[n := p.tail[0]][..n + 1] == buffer[..n] + [p.tail[0]];
      assert c'[..n + 1] == c[..n] + [c[n]];
    }
  }

  // The delay line after one more captured byte.
  lemma CaptureFollows(p: Parser, buffer: seq<Byte>, c: seq<Byte>, b: Byte)
    requires DelayLineHolds(p, buffer, c)
    ensures var (q, buffer') := Capture(p, buffer, b);
            && DelayLineHolds(q, buffer', c + [b])
            && q == p.(tail := q.tail, tailCount := q.tailCount, payloadCount := q.payloadCount,
                       truncated := q.truncated)
  {
    if p.tailCount < 4 {
      FillFollows(p, buffer, c, b);
    } else {
      ShiftFollows(p, buffer, c, b);
    }
    hide Capture;
  }

  lemma DataByteFollows(p: Parser, buffer: seq<Byte>, d: seq<Byte>, b: Byte)
    requires p.Shape() && |buffer| == MAX_PAYLOAD && DataFollows(p, buffer, d)
    ensures var (q, buffer') := DataByte(p, buffer, b);
            && DataFollows(q, buffer', d + [b])
            && q.searching == p.searching && q.frameError == p.frameError
  {
    hide Capture, Body, HeaderOf, SetHeaderByte, Position;
    BodyAppend(d, b);
    CaptureFollows(p, buffer, Body(d), b);
    IndexAdvances(|d|);
  }

  // Starting a frame empties the registers.
  lemma StartFollows(p: Parser, buffer: seq<Byte>, err: bool)
    requires p.Shape() && |buffer| == MAX_PAYLOAD
    ensures ParserFollows(StartFrame(p).(frameError := err), buffer, [], err)
  {
    assert Strip([]) == [];
    assert Body([]) == [];
  }

  // One more byte of the frame.
  lemma AcceptFollows(p: Parser, buffer: seq<Byte>, bs: seq<Byte>, b: Byte, err: bool)
    requires p.Shape() && |buffer| == MAX_PAYLOAD && ParserFollows(p, buffer, bs, err)
    ensures var (q, buffer') := AcceptByte(p, buffer, b);
            ParserFollows(q, buffer', bs + [b], err)
  {
    StripAppend(bs, b);
    var d := Strip(bs);
    var (q, buffer') := AcceptByte(p, buffer, b);
    if !p.searching {
      hide DataByte, DataFollows, Strip, OnlyPreamble;
      DataByteFollows(p, buffer, d, b);
    } else if b != PREAMBLE && !(b == SFD && p.preambleCount != 0) {
      var p' := p.(searching := false);
      assert d + [b] == [b];
      assert DataFollows(p', buffer, d);
      hide DataByte, DataFollows, Strip, OnlyPreamble;
      DataByteFollows(p', buffer, d, b);
    } else {
      assert DataFollows(q, buffer, []) by {
        hide Body, HeaderOf, Strip, OnlyPreamble;
      }
      hide DataFollows, Strip, OnlyPreamble;
    }
  }

  // At the end of the frame the description and the buffer are the frame's packet.
  lemma EndFollows(p: Parser, buffer: seq<Byte>, f: RawFrame)
    requires ParserFollows(p, buffer, Bytes(f.nibbles), f.err)
    ensures var meta := EndFrame(p).1;
            && meta.valid == ParseFrame(f).Some?
            && meta.payloadLen <= MAX_PAYLOAD
            && (meta.valid ==>
                  ParseFrame(f).value ==
                    Packet(meta.header, buffer[..meta.payloadLen], meta.truncated))
  {
  }

  // ----- What the packet of a frame is ----------------------------------------------

  // Byte i of the header on the wire.
  function HeaderByte(h: Header, i: nat): Byte
    requires i < HEADER_BYTES
  {
    if i < 6 then h.dst[i] else if i < 12 then h.src[i - 6] else h.etherType[i - 12]
  }

  lemma {:induction false} HeaderBytes(d: seq<Byte>, i: nat)
    requires |d| <= 0x1_0000 && i < HEADER_BYTES
    ensures HeaderByte(HeaderOf(d), i) == if i < |d| then d[i] else 0
    decreases |d|
  {
    hide HeaderOf, Body, HeaderByte, SetHeaderByte;
    if d == [] {
      NoHeaderBytes(i);
    } else {
      var n := |d| - 1;
      BodyLast(d);
      HeaderBytes(d[..n], i);
      if n < HEADER_BYTES {
        SetHeaderByteSets(HeaderOf(d[..n]), n, d[n], i);
      }
    }
  }

  lemma NoHeaderBytes(i: nat)
    requires i < HEADER_BYTES
    ensures HeaderByte(HeaderOf([]), i) == 0
  {
  }

  lemma SetHeaderByteSets(h: Header, k: nat, b: Byte, i: nat)
    requires k < HEADER_BYTES && i < HEADER_BYTES
    ensures HeaderByte(SetHeaderByte(h, k, b), i) == if i == k then b else HeaderByte(h, i)
  {
  }

  lemma HeaderOfData(d: seq<Byte>)
    requires HEADER_BYTES <= |d| <= 0x1_0000
    ensures HeaderOf(d) == Header(d[..6], d[6..12], d[12..14])
  {
    var h := HeaderOf(d);
    hide HeaderOf;
    forall i: nat | i < HEADER_BYTES
      ensures HeaderByte(h, i) == d[i]
    {
      HeaderBytes(d, i);
    }
    forall i: nat | i < 6
      ensures h.dst[i] == d[i] && h.src[i] == d[i + 6]
    {
      assert HeaderByte(h, i) == d[i] && HeaderByte(h, i + 6) == d[i + 6];
    }
    assert h.etherType[0] == HeaderByte(h, 12) && h.etherType[1] == HeaderByte(h, 13);
  }

  lemma {:induction false} BodyOfData(d: seq<Byte>)
    requires |d| <= 0x1_0000
    ensures Body(d) == if |d| <= HEADER_BYTES then [] else d[HEADER_BYTES..]
    decreases |d|
  {
    hide HeaderOf, SetHeaderByte;
    if d == [] {
    } else {
      BodyLast(d);
      BodyOfData(d[..|d| - 1]);
    }
  }

  lemma {:induction false} BodyLength(d: seq<Byte>)
    ensures |d| <= HEADER_BYTES ==> Body(d) == []
    ensures |d| >= HEADER_BYTES ==> |Body(d)| <= |d| - HEADER_BYTES
    decreases |d|
  {
    if d == [] {
    } else {
      BodyLast(d);
      hide Body, HeaderOf;
      BodyLength(d[..|d| - 1]);
    }
  }

  lemma {:induction false} BodyGrows(d: seq<Byte>, n: nat)
    requires n <= |d|
    ensures |Body(d[..n])| <= |Body(d)|
    decreases |d|
  {
    if n == |d| {
      assert d[..n] == d;
    } else {
      BodyLast(d);
      hide Body, HeaderOf;
      assert d[..|d| - 1][..n] == d[..n];
      BodyGrows(d[..|d| - 1], n);
    }
  }

  // The longest data a frame may have and still be kept whole.
  const MAX_DATA := 1518

  // However long the frame is, even past the wrap of the byte index.
  lemma OversizedIsTruncated(d: seq<Byte>, err: bool)
    requires |d| > 1518 && ParseData(d, err).Some?
    ensures ParseData(d, err).value.truncated
  {
    var k := MAX_DATA + 1;
    BodyOfData(d[..k]);
    BodyGrows(d, k);
  }

  // Exactly the frames without error and of legal size give an untruncated packet, and
  // the packet is the header and the payload, without the check sequence.
  lemma KeptFrames(d: seq<Byte>, err: bool)
    ensures ParseData(d, err).Some? && !ParseData(d, err).value.truncated
       <==> !err && 18 <= |d| <= 1518
    ensures !err && 18 <= |d| <= 1518 ==>
      ParseData(d, err) == Some(Packet(Header(d[..6], d[6..12], d[12..14]), d[14..|d| - 4], false))
  {
    if |d| > MAX_DATA {
      if ParseData(d, err).Some? {
        OversizedIsTruncated(d, err);
      }
    } else {
      BodyOfData(d);
      if |d| >= HEADER_BYTES {
        HeaderOfData(d);
      }
      hide Body, HeaderOf;
      if |d| >= HEADER_BYTES + 4 {
        assert d[HEADER_BYTES..][..|d| - HEADER_BYTES - 4] == d[HEADER_BYTES..|d| - 4];
      }
    }
  }

  lemma {:induction false} LeadingPreambleOf(k: nat, d: seq<Byte>)
    ensures LeadingPreamble(seq(k, _ => 0x55) + d) == k + LeadingPreamble(d)
    decreases k
  {
    var bs := seq(k, _ => 0x55) + d;
    if k == 0 {
      assert bs == d;
    } else {
      assert bs[1..] == seq(k - 1, _ => 0x55) + d;
      LeadingPreambleOf(k - 1, d);
    }
  }

  // A preamble of any length, and the start delimiter 0xD5 after at least one byte of it, are
  // not data. The delimiter may be missing: data begins with the first byte that is neither.
  lemma PreambleInNumbers(k: nat, d: seq<Byte>)
    ensures k > 0 ==> Strip(seq(k, _ => 0x55) + [0xD5] + d) == d
    ensures Strip(seq(k, _ => 0x55) + d) == d <==> (d != [] ==> d[0] != 0x55 && (k > 0 ==> d[0] != 0xD5))
  {
    LeadingPreambleOf(k, [0xD5] + d);
    LeadingPreambleOf(k, d);
    hide LeadingPreamble;
    assert seq(k, _ => 0x55) + [0xD5] + d == seq(k, _ => 0x55) + ([0xD5] + d);
  }

  // A frame as IEEE 802.3 sections 3.2.1 and 3.2.2 want it, low nibbles first: seven bytes of
  // preamble and the start delimiter before the data.
  lemma StandardFrame(d: seq<Byte>, err: bool)
    ensures var bs := [0x55, 0x55, 0x55, 0x55, 0x55, 0x55, 0x55, 0xD5] + d;
            ParseFrame(RawFrame(Nibbles(bs), err)) == ParseData(d, err)
  {
    hide ParseData, Strip, Bytes, Nibbles;
    var bs := [0x55, 0x55, 0x55, 0x55, 0x55, 0x55, 0x55, 0xD5] + d;
    assert bs == seq(7, _ => 0x55) + [0xD5] + d;
    PreambleInNumbers(7, d);
    BytesOfNibbles(bs);
  }

  // How long a frame must be on the wire to leave a packet, and a packet of ARP size.
  lemma PacketTakesTime(f: RawFrame)
    requires ParseFrame(f).Some?
    ensures |f.nibbles| >= 36
    ensures |ParseFrame(f).value.payload| >= 28 ==> |f.nibbles| >= 92
  {
    var d := Strip(Bytes(f.nibbles));
    BodyLength(d);
    hide Body, HeaderOf;
  }
}
