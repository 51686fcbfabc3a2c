/** The receive side: assembler, parser and the write end of the receive ring.

  A frame reserves the write slot when it starts; the parser writes the payload straight
  into that slot, and the end of a good frame publishes it. `ActiveCycle`, `QuietCycle`
  and `EndCycle` say what one cycle does to the ring, in terms of the reference reading of
  the wire.
 */
module RxQueue {

  import opened Words
  import opened Mii
  import opened FrameParser
  import opened PacketQueue

  const RX_SLOTS := 8

  datatype RxMeta = RxMeta(header: Header, payloadLen: nat, truncated: bool)

  datatype RxSide = RxSide(assembler: Assembler, parser: Parser, drop: bool, dropBuffer: seq<Byte>)
  {
    predicate Shape() { parser.Shape() && |dropBuffer| == MAX_PAYLOAD }
  }

  predicate RxRing(q: Ring<RxMeta>) { q.Shape(RX_SLOTS, MAX_PAYLOAD) }

  function RxStep(r: RxSide, q: Ring<RxMeta>, x: Sample): (o: (RxSide, Ring<RxMeta>))
    requires r.Shape() && RxRing(q)
    ensures o.0.Shape() && RxRing(o.1)
  {
    var (asm, o) := AssemblerStep(r.assembler, x.dv, x.d);
    var drop := if o.frameStart then !q.WriteSlotAvailable() else r.drop;
    var q1 := if o.frameStart && drop then q.DropWrite() else q;
    var buffer := if drop then r.dropBuffer else q1.bytes[q1.writeIdx];
    var p := ParserStep(r.parser, buffer, o, x.err);
    var q2 := if drop then q1 else q1.Store(q1.writeIdx, p.buffer);
    var q3 := if o.frameEnd && !drop && p.meta.valid then
                q2.Publish(RxMeta(p.meta.header, p.meta.payloadLen, p.meta.truncated))
              else q2;
    (RxSide(asm, p.parser, if o.frameEnd then false else drop, if drop then p.buffer else r.dropBuffer),
     q3)
  }

  // The entry of the ring holds this packet.
  ghost predicate Carries(e: Entry<RxMeta>, p: Packet) {
    && e.meta.header == p.header && e.meta.truncated == p.truncated
    && e.meta.payloadLen == |p.payload| <= |e.bytes|
    && e.bytes[..|p.payload|] == p.payload
  }

  // Between two cycles: the registers are those of the frame on the wire, and its payload
  // so far is in the reserved slot, which is not one of the valid ones.
  ghost predicate RxFollows(r: RxSide, q: Ring<RxMeta>, cur: Option<RawFrame>)
    requires RxRing(q)
  {
    && r.Shape()
    && AssemblerFollows(r.assembler, cur)
    && (cur.None? ==> !r.drop)
    && (cur.Some? && !r.drop ==>
          && q.WriteSlotAvailable()
          && ParserFollows(r.parser, q.bytes[q.writeIdx], Bytes(cur.value.nibbles), cur.value.err))
  }

  // The packet that the cycle completes, whether or not there is room for it.
  function PacketAt(dc: Decoded, x: Sample): Option<Packet> {
    if dc.cur.Some? && !x.dv then
      ParseFrame(RawFrame(dc.cur.value.nibbles, dc.cur.value.err || x.err))
    else
      None
  }

  lemma ParserIdle(p: Parser, buffer: seq<Byte>, bs: seq<Byte>, err: bool, more: bool)
    requires ParserFollows(p, buffer, bs, err)
    ensures ParserFollows(p.(frameError := p.frameError || more), buffer, bs, err || more)
  {
    hide LeadingPreamble, Strip, Body, HeaderOf;
  }

  // The parser step of a cycle inside a frame.
  lemma ParserStepFollows(p: Parser, buffer: seq<Byte>, o: Assembled, x: Sample, dc: Decoded)
    requires p.Shape() && |buffer| == MAX_PAYLOAD
    requires x.dv
    requires dc.cur.Some? ==> ParserFollows(p, buffer, Bytes(dc.cur.value.nibbles), dc.cur.value.err)
    requires o.frameStart == dc.cur.None? && !o.frameEnd
    requires o.byteValid ==> dc.cur.Some?
    requires var before := if dc.cur.Some? then Bytes(dc.cur.value.nibbles) else [];
             Bytes(DecodeStep(dc, x).cur.value.nibbles) == if o.byteValid then before + [o.data] else before
    ensures var s := ParserStep(p, buffer, o, x.err);
            var f := DecodeStep(dc, x).cur.value;
            ParserFollows(s.parser, s.buffer, Bytes(f.nibbles), f.err)
  {
    hide Bytes, Strip, Body, HeaderOf, ParserFollows, AcceptByte;
    if dc.cur.None? {
      StartFollows(p, buffer, x.err);
    } else {
      var f := dc.cur.value;
      ParserIdle(p, buffer, Bytes(f.nibbles), f.err, x.err);
      if o.byteValid {
        AcceptFollows(p.(frameError := p.frameError || x.err), buffer, Bytes(f.nibbles), o.data,
                      f.err || x.err);
      }
    }
  }

  lemma StoreSame<M>(q: Ring<M>, i: nat)
    requires i < |q.bytes|
    ensures q.Store(i, q.bytes[i]) == q
  {
    assert q.bytes[i := q.bytes[i]] == q.bytes;
  }

  // A cycle with the line active stores at most into the reserved slot.
  lemma ActiveCycle(r: RxSide, q: Ring<RxMeta>, n: nat, dc: Decoded, x: Sample)
    requires RxRing(q) && q.Occupied(n) && RxFollows(r, q, dc.cur) && x.dv
    ensures var (r', q') := RxStep(r, q, x);
            && q'.Occupied(n) && q'.Contents(n) == q.Contents(n)
            && RxFollows(r', q', DecodeStep(dc, x).cur)
            && r'.drop == (if dc.cur.None? then n == RX_SLOTS else r.drop)
            && q'.readIdx == q.readIdx
            && q'.dropCount == if dc.cur.None? && n == RX_SLOTS then Inc32(q.dropCount) else q.dropCount
  {
    var (asm, o) := AssemblerStep(r.assembler, x.dv, x.d);
    AssemblerDecodes(r.assembler, dc, x);
    FullRingHasNoSlot(q, n, RX_SLOTS, MAX_PAYLOAD);
    var drop := if o.frameStart then n == RX_SLOTS else r.drop;
    hide AssemblerStep, ParserStep, ParserFollows, Bytes, AssemblerFollows;
    if drop {
      DropKeepsContents(q, n, RX_SLOTS, MAX_PAYLOAD);
    } else {
      var buffer := q.bytes[q.writeIdx];
      ParserStepFollows(r.parser, buffer, o, x, dc);
      StoreKeepsContents(q, n, RX_SLOTS, MAX_PAYLOAD, ParserStep(r.parser, buffer, o, x.err).buffer);
    }
  }

  // A quiet cycle between frames changes nothing in the ring.
  lemma QuietCycle(r: RxSide, q: Ring<RxMeta>, dc: Decoded, x: Sample)
    requires RxRing(q) && RxFollows(r, q, dc.cur) && !x.dv && dc.cur.None?
    ensures var (r', q') := RxStep(r, q, x);
            q' == q && RxFollows(r', q', None) && !r'.drop
  {
    StoreSame(q, q.writeIdx);
    hide ParserFollows;
  }

  // Whether the cycle publishes a packet.
  predicate Publishes(r: RxSide, dc: Decoded, x: Sample) {
    !r.drop && PacketAt(dc, x).Some?
  }

  // What the parser says in the first cycle after a frame.
  lemma EndParsed(p: Parser, buffer: seq<Byte>, f: RawFrame, err: bool)
    requires p.Shape() && |buffer| == MAX_PAYLOAD && ParserFollows(p, buffer, Bytes(f.nibbles), f.err)
    ensures var s := ParserStep(p, buffer, Assembled(false, false, 0, true), err);
            var packet := ParseFrame(RawFrame(f.nibbles, f.err || err));
            && s.buffer == buffer
            && s.meta.valid == packet.Some?
            && (packet.Some? ==>
                  Carries(Entry(RxMeta(s.meta.header, s.meta.payloadLen, s.meta.truncated), buffer), packet.value))
  {
    var p2 := p.(frameError := p.frameError || err);
    ParserIdle(p, buffer, Bytes(f.nibbles), f.err, err);
    EndFollows(p2, buffer, RawFrame(f.nibbles, f.err || err));
    hide ParserFollows, Bytes, ParseFrame;
  }

  lemma EndOfDropped(r: RxSide, q: Ring<RxMeta>, dc: Decoded, x: Sample)
    requires RxRing(q) && RxFollows(r, q, dc.cur) && !x.dv && dc.cur.Some? && r.drop
    ensures var (r', q') := RxStep(r, q, x);
            q' == q && RxFollows(r', q', None) && !r'.drop
  {
    AssemblerDecodes(r.assembler, dc, x);
    hide ParserFollows, Bytes, ParserStep;
  }

  lemma EndOfKept(r: RxSide, q: Ring<RxMeta>, dc: Decoded, x: Sample)
    requires RxRing(q) && RxFollows(r, q, dc.cur) && !x.dv && dc.cur.Some? && !r.drop
    ensures var (r', q') := RxStep(r, q, x);
            && RxFollows(r', q', None) && !r'.drop
            && match PacketAt(dc, x)
               case None => q' == q
               case Some(p) =>
                 exists m :: q' == q.Publish(m) && Carries(Entry(m, q.bytes[q.writeIdx]), p)
  {
    AssemblerDecodes(r.assembler, dc, x);
    EndParsed(r.parser, q.bytes[q.writeIdx], dc.cur.value, x.err);
    StoreSame(q, q.writeIdx);
    hide ParserFollows, Bytes, ParserStep, ParseFrame, Carries, Ring<RxMeta>.Publish;
  }

  // The first cycle after a frame publishes its packet, if it has one and a slot was reserved.
  lemma EndCycle(r: RxSide, q: Ring<RxMeta>, n: nat, dc: Decoded, x: Sample)
    requires RxRing(q) && q.Occupied(n) && RxFollows(r, q, dc.cur) && !x.dv && dc.cur.Some?
    ensures var (r', q') := RxStep(r, q, x);
            var n' := if Publishes(r, dc, x) then n + 1 else n;
            && RxFollows(r', q', None) && !r'.drop
            && q'.dropCount == q.dropCount && q'.readIdx == q.readIdx
            && n' <= RX_SLOTS && q'.Occupied(n')
            && q'.Contents(n')[..n] == q.Contents(n)
            && (Publishes(r, dc, x) ==> Carries(q'.Contents(n')[n], PacketAt(dc, x).value))
  {
    if r.drop {
      EndOfDropped(r, q, dc, x);
      hide RxStep, RxFollows;
    } else {
      EndOfKept(r, q, dc, x);
      FullRingHasNoSlot(q, n, RX_SLOTS, MAX_PAYLOAD);
      hide RxStep, RxFollows, Carries, ParseFrame, Ring<RxMeta>.Publish, Ring<RxMeta>.Occupied, Ring<RxMeta>.Contents;
      if PacketAt(dc, x).Some? {
        var (_, q') := RxStep(r, q, x);
        var m :| q' == q.Publish(m) && Carries(Entry(m, q.bytes[q.writeIdx]), PacketAt(dc, x).value);
        PublishAppends(q, n, RX_SLOTS, MAX_PAYLOAD, m);
      }
    }
  }
}
