/** The 4-bit MII interface: nibbles to bytes on receive, bytes to nibbles on transmit.

  `Decode` is a reference reading of a nibble stream: every maximal run of cycles with the
  data-valid line high is one frame. It serves for both directions. The assembler keeps
  one nibble and two flags; `AssemblerFollows` says how these follow the reference.
 */
module Mii {

  import opened Words

  // One clock cycle of a 4-bit interface. On transmit there is no error line.
  datatype Sample = Sample(dv: bool, d: Nibble, err: bool)

  datatype RawFrame = RawFrame(nibbles: seq<Nibble>, err: bool)

  datatype Decoded = Decoded(done: seq<RawFrame>, cur: Option<RawFrame>)

  // The error line counts from the first cycle of a frame to the first one after it.
  function DecodeStep(dc: Decoded, x: Sample): Decoded {
    match dc.cur
    case None =>
      if x.dv then dc.(cur := Some(RawFrame([x.d], x.err))) else dc
    case Some(f) =>
      var err := f.err || x.err;
      if x.dv then dc.(cur := Some(RawFrame(f.nibbles + [x.d], err)))
      else Decoded(dc.done + [RawFrame(f.nibbles, err)], None)
  }

  function DecodeFrom(dc: Decoded, xs: seq<Sample>): Decoded
    decreases |xs|
  {
    if xs == [] then dc else DecodeStep(DecodeFrom(dc, xs[..|xs| - 1]), xs[|xs| - 1])
  }

  function Decode(xs: seq<Sample>): Decoded {
    DecodeFrom(Decoded([], None), xs)
  }

  // The data of a frame, and whether the error line was high in any of its cycles.
  function DataOf(xs: seq<Sample>): (ns: seq<Nibble>)
    ensures |ns| == |xs|
  {
    seq(|xs|, i requires 0 <= i < |xs| => xs[i].d)
  }

  predicate AnyError(xs: seq<Sample>) { exists i | 0 <= i < |xs| :: xs[i].err }

  predicate AllValid(xs: seq<Sample>) { forall i | 0 <= i < |xs| :: xs[i].dv }

  lemma AnyErrorNext(xs: seq<Sample>, x: Sample)
    ensures AnyError(xs + [x]) <==> AnyError(xs) || x.err
  {
    var all := xs + [x];
    if AnyError(xs) {
      var i :| 0 <= i < |xs| && xs[i].err;
      assert all[i].err;
    }
    if x.err {
      assert all[|xs|].err;
    }
  }

  lemma {:induction false} FrameGrows(dc: Decoded, xs: seq<Sample>)
    requires dc.cur == None && AllValid(xs)
    ensures DecodeFrom(dc, xs) == if xs == [] then dc
                                  else dc.(cur := Some(RawFrame(DataOf(xs), AnyError(xs))))
    decreases |xs|
  {
    if xs != [] {
      var init, x := xs[..|xs| - 1], xs[|xs| - 1];
      FrameGrows(dc, init);
      assert xs == init + [x];
      AnyErrorNext(init, x);
      assert DataOf(xs) == DataOf(init) + [x.d];
      assert init == [] ==> DataOf(xs) == [x.d];
    }
  }

  // Some cycles with data valid and one without, on a line that was quiet, are one frame. It
  // is in error if the error line was high in any of them, the quiet one included.
  lemma FrameDecodes(dc: Decoded, xs: seq<Sample>, y: Sample)
    requires dc.cur == None && xs != [] && AllValid(xs) && !y.dv
    ensures DecodeFrom(dc, xs + [y]) ==
      Decoded(dc.done + [RawFrame(DataOf(xs), AnyError(xs + [y]))], None)
  {
    FrameGrows(dc, xs);
    assert (xs + [y])[..|xs|] == xs;
    AnyErrorNext(xs, y);
  }

  // The first nibble on the wire is the low one.
  function ByteOf(first: int, second: int): Byte
    requires 0 <= first < 0x10 && 0 <= second < 0x10
  {
    first + 0x10 * second
  }

  // The bytes of a frame; an odd last nibble is lost.
  function Bytes(ns: seq<Nibble>): (bs: seq<Byte>)
    ensures |bs| == |ns| / 2
  {
    seq(|ns| / 2, i requires 0 <= i < |ns| / 2 => ByteOf(ns[2 * i], ns[2 * i + 1]))
  }

  function NibbleOf(b: Byte, second: bool): Nibble {
    if second then HighNibble(b) else LowNibble(b)
  }

  function Nibbles(bs: seq<Byte>): (ns: seq<Nibble>)
    ensures |ns| == 2 * |bs|
  {
    seq(2 * |bs|, i requires 0 <= i < 2 * |bs| => if i % 2 == 0 then bs[i / 2] % 0x10 else bs[i / 2] / 0x10)
  }

  lemma BytesOfNibbles(bs: seq<Byte>)
    ensures Bytes(Nibbles(bs)) == bs
  {
    forall i | 0 <= i < |bs|
      ensures Bytes(Nibbles(bs))[i] == bs[i]
    {
      assert (2 * i) / 2 == i && (2 * i + 1) / 2 == i;
    }
  }

  // ----- Receive assembler ----------------------------------------------------------

  datatype Assembler = Assembler(inFrame: bool, haveLow: bool, low: Nibble)

  datatype Assembled = Assembled(frameStart: bool, byteValid: bool, data: Byte, frameEnd: bool)

  function AssemblerStep(a: Assembler, dv: bool, d: Nibble): (Assembler, Assembled) {
    if dv then
      var start := !a.inFrame;
      var haveLow := if start then false else a.haveLow;
      if haveLow then
        (Assembler(true, false, a.low), Assembled(start, true, JoinNibbles(a.low, d), false))
      else
        (Assembler(true, true, d), Assembled(start, false, 0, false))
    else
      (Assembler(false, false, a.low), Assembled(false, false, 0, a.inFrame))
  }

  // The assembler's registers are those of the frame now on the wire.
  ghost predicate AssemblerFollows(a: Assembler, cur: Option<RawFrame>) {
    match cur
    case None => !a.inFrame && !a.haveLow
    case Some(f) =>
      && a.inFrame && f.nibbles != []
      && a.haveLow == (|f.nibbles| % 2 == 1)
      && (a.haveLow ==> a.low == f.nibbles[|f.nibbles| - 1])
  }

  lemma AssemblerDecodes(a: Assembler, dc: Decoded, x: Sample)
    requires AssemblerFollows(a, dc.cur)
    ensures var (a', o) := AssemblerStep(a, x.dv, x.d);
            var dc' := DecodeStep(dc, x);
            var before := if dc.cur.Some? then Bytes(dc.cur.value.nibbles) else [];
            && AssemblerFollows(a', dc'.cur)
            && o.frameStart == (x.dv && dc.cur.None?)
            && o.frameEnd == (!x.dv && dc.cur.Some?)
            && (x.dv ==> dc'.cur.Some? && Bytes(dc'.cur.value.nibbles) ==
                         if o.byteValid then before + [o.data] else before)
            && (o.byteValid ==> x.dv && dc.cur.Some?)
  {
    var (a', o) := AssemblerStep(a, x.dv, x.d);
    var dc' := DecodeStep(dc, x);
    if x.dv && dc.cur.Some? {
      var ns := dc.cur.value.nibbles;
      var n := |ns| / 2;
      assert forall i | 0 <= i < n :: Bytes(ns + [x.d])[i] == Bytes(ns)[i];
      if a.haveLow {
        assert Bytes(ns + [x.d])[n] == JoinNibbles(ns[2 * n], x.d);
        assert Bytes(ns + [x.d]) == Bytes(ns) + [o.data];
      } else {
        assert Bytes(ns + [x.d]) == Bytes(ns);
      }
    } else if x.dv {
      assert Bytes([x.d]) == [];
    }
  }
}
