/** What the check sequence detects.

  The register is linear over GF(2) and no step loses a set bit. So a frame followed by its
  own check sequence always leaves the same constant in the register (`FrameResidue`), and
  two bodies that differ only within four consecutive bytes never have the same check
  sequence (`BurstDetected`).
 */
module Crc32Algebra {

  import opened Crc32

  // ----- Algebra of the register --------------------------------------------------

  function Tap(b: bool): bv32 { if b then POLY else 0 }

  function Xor(a: bv32, b: bv32): bv32 { a ^ b }

  function Shr(a: bv32): bv32 { a >> 1 }

  lemma BitForm(a: bv32, d: bool)
    ensures CrcBit(a, d) == Xor(Shr(a), Tap(Low(a) != d))
  {
    if Low(a) != d {} else {}
  }

  lemma XorAssociates(x: bv32, y: bv32, z: bv32)
    ensures Xor(Xor(x, y), z) == Xor(x, Xor(y, z))
    ensures Xor(x, y) == Xor(y, x)
  {
  }

  lemma XorSwap(x: bv32, p: bv32, y: bv32, q: bv32)
    ensures Xor(Xor(x, p), Xor(y, q)) == Xor(Xor(x, y), Xor(p, q))
  {
    hide *;
    calc {
      Xor(Xor(x, p), Xor(y, q));
      { XorAssociates(x, p, Xor(y, q)); XorAssociates(p, y, q); XorAssociates(y, p, q); }
      Xor(x, Xor(y, Xor(p, q)));
      { XorAssociates(x, y, Xor(p, q)); }
      Xor(Xor(x, y), Xor(p, q));
    }
  }

  lemma TapXor(p: bool, q: bool)
    ensures Xor(Tap(p), Tap(q)) == Tap(p != q)
  {
    if p { if q {} else {} } else { if q {} else {} }
  }

  lemma ShiftXor(a: bv32, b: bv32)
    ensures Xor(Shr(a), Shr(b)) == Shr(Xor(a, b))
    ensures Low(Xor(a, b)) == (Low(a) != Low(b))
  {
  }

  lemma BitLinear(a: bv32, d: bool, b: bv32, e: bool)
    ensures Xor(CrcBit(a, d), CrcBit(b, e)) == CrcBit(Xor(a, b), d != e)
  {
    hide *;
    BitForm(a, d);
    BitForm(b, e);
    BitForm(Xor(a, b), d != e);
    ShiftXor(a, b);
    var p, q := Low(a) != d, Low(b) != e;
    TapXor(p, q);
    XorSwap(Shr(a), Tap(p), Shr(b), Tap(q));
    assert (Low(Xor(a, b)) != (d != e)) == ((Low(a) != d) != (Low(b) != e));
  }

  // ----- Bits of the register ----------------------------------------------------

  function ShrN(r: bv32, n: nat): bv32 {
    if n == 0 then r else Shr(ShrN(r, n - 1))
  }

  // crc[i]
  predicate BitAt(r: bv32, i: nat) { Low(ShrN(r, i)) }

  lemma {:induction false} ShrNAdd(r: bv32, m: nat, n: nat)
    ensures ShrN(ShrN(r, m), n) == ShrN(r, m + n)
    decreases n
  {
    if n == 0 {
    } else {
      hide Shr;
      ShrNAdd(r, m, n - 1);
    }
  }

  lemma {:induction false} ShrNXor(a: bv32, b: bv32, n: nat)
    ensures ShrN(Xor(a, b), n) == Xor(ShrN(a, n), ShrN(b, n))
  {
    if n == 0 {
    } else {
      hide Shr, Xor;
      ShrNXor(a, b, n - 1);
      ShiftXor(ShrN(a, n - 1), ShrN(b, n - 1));
    }
  }

  // a has no bit that m lacks
  predicate Within(a: bv32, m: bv32) { a & m == a }

  lemma ShrWithin(a: bv32, m: bv32)
    requires Within(a, m)
    ensures Within(Shr(a), Shr(m))
  {
  }

  lemma AllWithin(r: bv32)
    ensures Within(r, 0xFFFF_FFFF)
    ensures Within(r, 0) ==> r == 0
  {
  }

  lemma {:induction false} ShrNWithin(r: bv32, m: bv32, n: nat)
    requires Within(r, m)
    ensures Within(ShrN(r, n), ShrN(m, n))
  {
    hide Within, Shr;
    if n == 0 {
    } else {
      ShrNWithin(r, m, n - 1);
      ShrWithin(ShrN(r, n - 1), ShrN(m, n - 1));
    }
  }

  lemma ShiftedOut(r: bv32)
    ensures ShrN(r, 32) == 0
  {
    assert ShrN(0xFFFF_FFFF, 2) == 0x3FFFFFFF;
    assert ShrN(0xFFFF_FFFF, 4) == 0xFFFFFFF;
    assert ShrN(0xFFFF_FFFF, 6) == 0x3FFFFFF;
    assert ShrN(0xFFFF_FFFF, 8) == 0xFFFFFF;
    assert ShrN(0xFFFF_FFFF, 10) == 0x3FFFFF;
    assert ShrN(0xFFFF_FFFF, 12) == 0xFFFFF;
    assert ShrN(0xFFFF_FFFF, 14) == 0x3FFFF;
    assert ShrN(0xFFFF_FFFF, 16) == 0xFFFF;
    assert ShrN(0xFFFF_FFFF, 18) == 0x3FFF;
    assert ShrN(0xFFFF_FFFF, 20) == 0xFFF;
    assert ShrN(0xFFFF_FFFF, 22) == 0x3FF;
    assert ShrN(0xFFFF_FFFF, 24) == 0xFF;
    assert ShrN(0xFFFF_FFFF, 26) == 0x3F;
    assert ShrN(0xFFFF_FFFF, 28) == 0xF;
    assert ShrN(0xFFFF_FFFF, 30) == 0x3;
    assert ShrN(0xFFFF_FFFF, 32) == 0x0;
    hide Within;
    AllWithin(r);
    ShrNWithin(r, 0xFFFF_FFFF, 32);
    AllWithin(ShrN(r, 32));
  }

  lemma EqualHalves(a: bv32, b: bv32)
    requires Shr(a) == Shr(b) && Low(a) == Low(b)
    ensures a == b
  {
  }

  lemma {:induction false} EqualBits(a: bv32, b: bv32, n: nat)
    requires n <= 32
    requires forall i: nat | n <= i < 32 :: BitAt(a, i) == BitAt(b, i)
    ensures ShrN(a, n) == ShrN(b, n)
    decreases 32 - n
  {
    if n == 32 {
      ShiftedOut(a);
      ShiftedOut(b);
    } else {
      EqualBits(a, b, n + 1);
      assert BitAt(a, n) == BitAt(b, n);
      EqualHalves(ShrN(a, n), ShrN(b, n));
    }
  }

  // ----- A byte step is linear in the register and the data together --------------

  function XorByte(x: Byte, y: Byte): Byte { x ^ y }

  lemma DataXor(x: Byte, y: Byte, i: nat)
    requires i < 8
    ensures DataBit(XorByte(x, y), i) == (DataBit(x, i) != DataBit(y, i))
  {
    if i == 0 {} else if i == 1 {} else if i == 2 {} else if i == 3 {}
    else if i == 4 {} else if i == 5 {} else if i == 6 {} else {}
  }

  lemma NoBits(crc: bv32, b: Byte)
    ensures CrcBits(crc, b, 0) == crc
  {
    hide CrcBit, DataBit;
  }

  lemma {:induction false} BitsLinear(a: bv32, x: Byte, b: bv32, y: Byte, n: nat)
    requires n <= 8
    ensures Xor(CrcBits(a, x, n), CrcBits(b, y, n)) == CrcBits(Xor(a, b), XorByte(x, y), n)
  {
    hide *;
    if n == 0 {
      NoBits(a, x);
      NoBits(b, y);
      NoBits(Xor(a, b), XorByte(x, y));
    } else {
      BitsLinear(a, x, b, y, n - 1);
      CrcBitsNext(a, x, n - 1);
      CrcBitsNext(b, y, n - 1);
      CrcBitsNext(Xor(a, b), XorByte(x, y), n - 1);
      DataXor(x, y, n - 1);
      BitLinear(CrcBits(a, x, n - 1), DataBit(x, n - 1), CrcBits(b, y, n - 1), DataBit(y, n - 1));
    }
  }

  function XorBytes(x: seq<Byte>, y: seq<Byte>): (z: seq<Byte>)
    requires |x| == |y|
    ensures |z| == |x|
    ensures forall i | 0 <= i < |x| :: z[i] == XorByte(x[i], y[i])
  {
    seq(|x|, i requires 0 <= i < |x| => XorByte(x[i], y[i]))
  }

  lemma {:induction false} CrcLinear(a: bv32, x: seq<Byte>, b: bv32, y: seq<Byte>)
    requires |x| == |y|
    ensures Xor(Crc(a, x), Crc(b, y)) == Crc(Xor(a, b), XorBytes(x, y))
    decreases |x|
  {
    var n := |x|;
    if n == 0 {
    } else {
      var z, x', y' := XorBytes(x, y), x[..n - 1], y[..n - 1];
      assert z[..n - 1] == XorBytes(x', y');
      assert z[n - 1] == XorByte(x[n - 1], y[n - 1]);
      CrcLast(a, x);
      CrcLast(b, y);
      CrcLast(Xor(a, b), z);
      hide *;
      CrcLinear(a, x', b, y');
      BitsLinear(Crc(a, x'), x[n - 1], Crc(b, y'), y[n - 1], 8);
    }
  }

  // ----- Feeding a register its own contents clears it ------------------------------

  function LowByte(r: bv32): Byte { (r & 0xFF) as Byte }

  lemma LowByteShift(r: bv32, i: nat)
    requires i < 8
    ensures i == 0 ==> DataBit(LowByte(r), i) == Low(r)
    ensures i > 0 ==> DataBit(LowByte(r), i) == DataBit(LowByte(Shr(r)), i - 1)
  {
    if i == 0 {} else if i == 1 {} else if i == 2 {} else if i == 3 {}
    else if i == 4 {} else if i == 5 {} else if i == 6 {} else {}
  }

  lemma {:induction false} LowByteBits(r: bv32, i: nat)
    requires i < 8
    ensures DataBit(LowByte(r), i) == BitAt(r, i)
    decreases i
  {
    hide Low, LowByte, DataBit, Shr;
    LowByteShift(r, i);
    if i == 0 {
    } else {
      LowByteBits(Shr(r), i - 1);
      ShrNAdd(r, 1, i - 1);
      assert ShrN(r, 1) == Shr(ShrN(r, 0));
    }
  }

  lemma CancelBit(r: bv32)
    ensures CrcBit(r, Low(r)) == Shr(r)
  {
  }

  lemma {:induction false} CancelBits(r: bv32, n: nat)
    requires n <= 8
    ensures CrcBits(r, LowByte(r), n) == ShrN(r, n)
  {
    if n == 0 {
    } else {
      var s := ShrN(r, n - 1);
      assert ShrN(r, n) == Shr(s) && BitAt(r, n - 1) == Low(s);
      hide *;
      CancelBits(r, n - 1);
      CrcBitsNext(r, LowByte(r), n - 1);
      LowByteBits(r, n - 1);
      CancelBit(s);
    }
  }

  // The register's bytes, low byte first.
  function RegisterBytes(r: bv32): (bytes: seq<Byte>)
    ensures |bytes| == 4
  {
    [LowByte(r), LowByte(ShrN(r, 8)), LowByte(ShrN(r, 16)), LowByte(ShrN(r, 24))]
  }

  lemma Crc4(r: bv32, b: seq<Byte>)
    requires |b| == 4
    ensures Crc(r, b) == CrcByte(CrcByte(CrcByte(CrcByte(r, b[0]), b[1]), b[2]), b[3])
  {
    hide CrcByte;
    var b3, b2, b1 := b[..3], b[..2], b[..1];
    assert b3[..2] == b2 && b2[..1] == b1 && b1[..0] == [];
    assert Crc(r, b) == CrcByte(Crc(r, b3), b[3]);
    assert Crc(r, b3) == CrcByte(Crc(r, b2), b3[2]);
    assert Crc(r, b2) == CrcByte(Crc(r, b1), b2[1]);
    assert Crc(r, b1) == CrcByte(Crc(r, []), b1[0]);
  }

  lemma RegisterBytesAre(r: bv32)
    ensures var b := RegisterBytes(r);
            |b| == 4 && b[0] == LowByte(r) && b[1] == LowByte(ShrN(r, 8)) && b[2] == LowByte(ShrN(r, 16))
            && b[3] == LowByte(ShrN(r, 24))
  {
    hide LowByte, ShrN;
  }

  lemma CancelRegister(r: bv32)
    ensures Crc(r, RegisterBytes(r)) == 0
  {
    hide Crc, CrcBits, LowByte, ShrN, RegisterBytes;
    RegisterBytesAre(r);
    ShiftedOut(r);
    Crc4(r, RegisterBytes(r));
    CancelBits(r, 8);
    CancelBits(ShrN(r, 8), 8);
    CancelBits(ShrN(r, 16), 8);
    CancelBits(ShrN(r, 24), 8);
    ShrNAdd(r, 8, 8);
    ShrNAdd(r, 16, 8);
    ShrNAdd(r, 24, 8);
  }

  // ----- Main results about the check sequence --------------------------------------

  function Shr2(r: bv32): bv32 { r >> 2 }

  function Shr4(r: bv32): bv32 { r >> 4 }

  function Shr8(r: bv32): bv32 { r >> 8 }

  lemma ShrTwice(r: bv32)
    ensures Shr(Shr(r)) == Shr2(r)
  {
    assert (r >> 1) >> 1 == r >> 2;
  }

  lemma Shr2Twice(r: bv32)
    ensures Shr2(Shr2(r)) == Shr4(r)
  {
    assert (r >> 2) >> 2 == r >> 4;
  }

  lemma Shr4Twice(r: bv32)
    ensures Shr4(Shr4(r)) == Shr8(r)
  {
    assert (r >> 4) >> 4 == r >> 8;
  }

  lemma ShrN8(r: bv32)
    ensures ShrN(r, 8) == Shr8(r)
  {
    hide Shr, Shr2, Shr4, Shr8;
    forall x: bv32
      ensures ShrN(x, 2) == Shr2(x)
    {
      assert ShrN(x, 1) == Shr(ShrN(x, 0));
      ShrTwice(x);
    }
    forall x: bv32
      ensures ShrN(x, 4) == Shr4(x)
    {
      ShrNAdd(x, 2, 2);
      Shr2Twice(x);
    }
    ShrNAdd(r, 4, 4);
    Shr4Twice(r);
  }

  lemma LaneShift(v: bv32, k: nat)
    requires k < 4
    ensures k == 0 ==> Lane(v, k) == LowByte(v)
    ensures k > 0 ==> Lane(v, k) == Lane(Shr8(v), k - 1)
  {
    if k == 0 {} else if k == 1 {} else if k == 2 {} else {}
  }

  lemma {:induction false} LaneOfRegister(v: bv32, k: nat)
    requires k < 4
    ensures Lane(v, k) == LowByte(ShrN(v, 8 * k))
    decreases k
  {
    hide Lane, LowByte, Shr8, Shr;
    LaneShift(v, k);
    if k == 0 {
    } else {
      var w := Shr8(v);
      LaneOfRegister(w, k - 1);
      ShrN8(v);
      ShrNAdd(v, 8, 8 * (k - 1));
    }
  }

  lemma FcsIsRegister(r: bv32)
    ensures Fcs(r) == RegisterBytes(Not(r))
  {
    var v := Not(r);
    assert ShrN(v, 0) == v;
    hide Lane, LowByte, ShrN, Not;
    LaneOfRegister(v, 0);
    LaneOfRegister(v, 1);
    LaneOfRegister(v, 2);
    LaneOfRegister(v, 3);
  }

  lemma {:induction false} XorOfLowBytes(a: bv32, b: bv32)
    ensures XorByte(LowByte(a), LowByte(b)) == LowByte(Xor(a, b))
  {
  }

  lemma XorOfLanes(a: bv32, b: bv32, n: nat)
    ensures XorByte(LowByte(ShrN(a, n)), LowByte(ShrN(b, n))) == LowByte(ShrN(Xor(a, b), n))
  {
    hide *;
    ShrNXor(a, b, n);
    XorOfLowBytes(ShrN(a, n), ShrN(b, n));
  }

  lemma XorOfRegisterBytes(a: bv32, b: bv32)
    ensures XorBytes(RegisterBytes(a), RegisterBytes(b)) == RegisterBytes(Xor(a, b))
  {
    hide Xor, XorByte, LowByte, ShrN, XorBytes;
    XorOfLowBytes(a, b);
    XorOfLanes(a, b, 8);
    XorOfLanes(a, b, 16);
    XorOfLanes(a, b, 24);
    var z := XorBytes(RegisterBytes(a), RegisterBytes(b));
    assert z[0] == LowByte(Xor(a, b));
    assert z[1] == LowByte(ShrN(Xor(a, b), 8));
    assert z[2] == LowByte(ShrN(Xor(a, b), 16));
    assert z[3] == LowByte(ShrN(Xor(a, b), 24));
  }

  // Constant of the register: its contents are cancelled, the complement is not.
  lemma ComplementSplits(r: bv32)
    ensures Not(r) == Xor(r, 0xFFFF_FFFF)
    ensures r == Xor(r, 0) && 0 == Xor(r, r)
  {
  }

  lemma OnesBytes()
    ensures RegisterBytes(0xFFFF_FFFF) == [0xFF, 0xFF, 0xFF, 0xFF]
  {
    ShrN8(0xFFFF_FFFF);
    ShrN8(0xFF_FFFF);
    ShrN8(0xFFFF);
    ShrNAdd(0xFFFF_FFFF, 8, 8);
    ShrNAdd(0xFFFF_FFFF, 16, 8);
    hide ShrN;
  }

  lemma ResidueOfOnes()
    ensures Crc(0, RegisterBytes(0xFFFF_FFFF)) == RESIDUE
  {
    Crc4(0, RegisterBytes(0xFFFF_FFFF));
    OnesBytes();
    assert CrcBits(0x0, 0xFF, 1) == 0xEDB88320;
    assert CrcBits(0x0, 0xFF, 2) == 0x9B64C2B0;
    assert CrcBits(0x0, 0xFF, 3) == 0xA00AE278;
    assert CrcBits(0x0, 0xFF, 4) == 0xBDBDF21C;
    assert CrcBits(0x0, 0xFF, 5) == 0xB3667A2E;
    assert CrcBits(0x0, 0xFF, 6) == 0xB40BBE37;
    assert CrcBits(0x0, 0xFF, 7) == 0x5A05DF1B;
    assert CrcBits(0x0, 0xFF, 8) == 0x2D02EF8D;
    assert CrcBits(0x2D02EF8D, 0xFF, 1) == 0x168177C6;
    assert CrcBits(0x2D02EF8D, 0xFF, 2) == 0xE6F838C3;
    assert CrcBits(0x2D02EF8D, 0xFF, 3) == 0x737C1C61;
    assert CrcBits(0x2D02EF8D, 0xFF, 4) == 0x39BE0E30;
    assert CrcBits(0x2D02EF8D, 0xFF, 5) == 0xF1678438;
    assert CrcBits(0x2D02EF8D, 0xFF, 6) == 0x950B413C;
    assert CrcBits(0x2D02EF8D, 0xFF, 7) == 0xA73D23BE;
    assert CrcBits(0x2D02EF8D, 0xFF, 8) == 0xBE2612FF;
    assert CrcBits(0xBE2612FF, 0xFF, 1) == 0x5F13097F;
    assert CrcBits(0xBE2612FF, 0xFF, 2) == 0x2F8984BF;
    assert CrcBits(0xBE2612FF, 0xFF, 3) == 0x17C4C25F;
    assert CrcBits(0xBE2612FF, 0xFF, 4) == 0xBE2612F;
    assert CrcBits(0xBE2612FF, 0xFF, 5) == 0x5F13097;
    assert CrcBits(0xBE2612FF, 0xFF, 6) == 0x2F8984B;
    assert CrcBits(0xBE2612FF, 0xFF, 7) == 0x17C4C25;
    assert CrcBits(0xBE2612FF, 0xFF, 8) == 0xBE2612;
    assert CrcBits(0xBE2612, 0xFF, 1) == 0xEDE79029;
    assert CrcBits(0xBE2612, 0xFF, 2) == 0x76F3C814;
    assert CrcBits(0xBE2612, 0xFF, 3) == 0xD6C1672A;
    assert CrcBits(0xBE2612, 0xFF, 4) == 0x86D830B5;
    assert CrcBits(0xBE2612, 0xFF, 5) == 0x436C185A;
    assert CrcBits(0xBE2612, 0xFF, 6) == 0xCC0E8F0D;
    assert CrcBits(0xBE2612, 0xFF, 7) == 0x66074786;
    assert CrcBits(0xBE2612, 0xFF, 8) == 0xDEBB20E3;
  }

  // A register that is fed its own check sequence always ends at the same constant.
  lemma Residue(r: bv32)
    ensures Crc(r, Fcs(r)) == RESIDUE
  {
    var ones := 0xFFFF_FFFF;
    FcsIsRegister(r);
    ComplementSplits(r);
    XorOfRegisterBytes(r, ones);
    CancelRegister(r);
    ResidueOfOnes();
    ComplementSplits(RESIDUE);
    hide *;
    CrcLinear(r, RegisterBytes(r), 0, RegisterBytes(ones));
    XorAssociates(0, RESIDUE, 0);
  }

  // A receiver that runs the same register over body and check sequence sees the constant.
  lemma FrameResidue(body: seq<Byte>)
    ensures Crc(INIT, body + Fcs(Crc(INIT, body))) == RESIDUE
  {
    CrcAppend(INIT, body, Fcs(Crc(INIT, body)));
    Residue(Crc(INIT, body));
  }

  // The generator has a constant term, so the register never loses a set bit.
  lemma BitKernel(v: bv32)
    requires CrcBit(v, false) == 0
    ensures v == 0
  {
    if Low(v) {
    } else {
      assert v >> 1 == 0;
    }
  }

  lemma XorIsZero(a: bv32, b: bv32)
    ensures Xor(a, b) == 0 <==> a == b
  {
  }

  lemma BitInjective(a: bv32, b: bv32, d: bool)
    requires CrcBit(a, d) == CrcBit(b, d)
    ensures a == b
  {
    hide *;
    BitLinear(a, d, b, d);
    XorIsZero(CrcBit(a, d), CrcBit(b, d));
    BitKernel(Xor(a, b));
    XorIsZero(a, b);
  }

  lemma {:induction false} BitsInjective(a: bv32, b: bv32, x: Byte, n: nat)
    requires n <= 8 && CrcBits(a, x, n) == CrcBits(b, x, n)
    ensures a == b
  {
    if n == 0 {
    } else {
      hide CrcBit, DataBit;
      BitInjective(CrcBits(a, x, n - 1), CrcBits(b, x, n - 1), DataBit(x, n - 1));
      BitsInjective(a, b, x, n - 1);
    }
  }

  // Two registers that differ still differ after any common tail.
  lemma {:induction false} CrcInjective(a: bv32, b: bv32, tail: seq<Byte>)
    requires Crc(a, tail) == Crc(b, tail)
    ensures a == b
    decreases |tail|
  {
    if tail == [] {
    } else {
      hide CrcBits;
      var init := tail[..|tail| - 1];
      BitsInjective(Crc(a, init), Crc(b, init), tail[|tail| - 1], 8);
      CrcInjective(a, b, init);
    }
  }

  function Word(b: seq<Byte>): bv32
    requires |b| == 4
  {
    (b[0] as bv32) | ((b[1] as bv32) << 8) | ((b[2] as bv32) << 16) | ((b[3] as bv32) << 24)
  }

  lemma LanesOfWord(b0: Byte, b1: Byte, b2: Byte, b3: Byte)
    ensures var w := Word([b0, b1, b2, b3]);
            Lane(w, 0) == b0 && Lane(w, 1) == b1 && Lane(w, 2) == b2 && Lane(w, 3) == b3
  {
  }

  lemma RegisterBytesOfWord(b: seq<Byte>)
    requires |b| == 4
    ensures RegisterBytes(Word(b)) == b
  {
    var w := Word(b);
    assert b == [b[0], b[1], b[2], b[3]];
    LanesOfWord(b[0], b[1], b[2], b[3]);
    hide Word, Lane, LowByte, Shr;
    assert ShrN(w, 0) == w;
    hide ShrN;
    LaneOfRegister(w, 0);
    LaneOfRegister(w, 1);
    LaneOfRegister(w, 2);
    LaneOfRegister(w, 3);
  }

  lemma XorZero(x: Byte, y: Byte)
    requires XorByte(x, y) == 0
    ensures x == y
  {
  }

  lemma ZeroRegister()
    ensures RegisterBytes(0) == [0, 0, 0, 0]
  {
    assert Word([0, 0, 0, 0]) == 0;
    RegisterBytesOfWord([0, 0, 0, 0]);
  }

  // Four data bytes are seen in full: the register after them tells them apart.
  lemma WindowInjective(s: bv32, x: seq<Byte>, y: seq<Byte>)
    requires |x| == |y| == 4
    requires Crc(s, x) == Crc(s, y)
    ensures x == y
  {
    var d := XorBytes(x, y);
    var w := Word(d);
    ComplementSplits(s);
    ComplementSplits(Crc(s, x));
    hide Crc, CrcByte, Word, Xor, XorByte, RegisterBytes;
    CrcLinear(s, x, s, y);
    RegisterBytesOfWord(d);
    CancelRegister(w);
    CrcInjective(0, w, d);
    ZeroRegister();
    forall i | 0 <= i < 4
      ensures x[i] == y[i]
    {
      assert d[i] == XorByte(x[i], y[i]);
      XorZero(x[i], y[i]);
    }
  }

  lemma NotInjective(a: bv32, b: bv32)
    requires Not(a) == Not(b)
    ensures a == b
  {
    assert !(!a) == !(!b);
  }

  lemma RegisterBytesInjective(v: bv32, w: bv32)
    requires RegisterBytes(v) == RegisterBytes(w)
    ensures v == w
  {
    assert ShrN(v, 0) == v && ShrN(w, 0) == w;
    hide *;
    forall i: nat | i < 32
      ensures BitAt(v, i) == BitAt(w, i)
    {
      BitOfRegisterBytes(v, i);
      BitOfRegisterBytes(w, i);
    }
    EqualBits(v, w, 0);
  }

  lemma FcsInjective(a: bv32, b: bv32)
    requires Fcs(a) == Fcs(b)
    ensures a == b
  {
    hide *;
    FcsIsRegister(a);
    FcsIsRegister(b);
    RegisterBytesInjective(Not(a), Not(b));
    NotInjective(a, b);
  }

  lemma BitOfRegisterBytes(v: bv32, i: nat)
    requires i < 32
    ensures BitAt(v, i) == DataBit(RegisterBytes(v)[i / 8], i % 8)
  {
    var k, j := i / 8, i % 8;
    var lane := ShrN(v, 8 * k);
    assert RegisterBytes(v)[k] == LowByte(lane) by {
      hide LowByte, Shr;
      assert ShrN(v, 0) == v;
    }
    hide RegisterBytes, LowByte, DataBit;
    LowByteBits(lane, j);
    ShrNAdd(v, 8 * k, j);
  }

  lemma SameFcsSameWindow(pre: seq<Byte>, x: seq<Byte>, y: seq<Byte>, suf: seq<Byte>)
    requires |x| == |y| <= 4
    requires Fcs(Crc(INIT, pre + x + suf)) == Fcs(Crc(INIT, pre + y + suf))
    ensures x == y
  {
    hide *;
    var s := Crc(INIT, pre);
    var pad: seq<Byte> := seq(4 - |x|, _ => 0);
    FcsInjective(Crc(INIT, pre + x + suf), Crc(INIT, pre + y + suf));
    CrcAppend(INIT, pre + x, suf);
    CrcAppend(INIT, pre + y, suf);
    CrcInjective(Crc(INIT, pre + x), Crc(INIT, pre + y), suf);
    CrcAppend(INIT, pre, x);
    CrcAppend(INIT, pre, y);
    CrcAppend(s, x, pad);
    CrcAppend(s, y, pad);
    WindowInjective(s, x + pad, y + pad);
    assert x == (x + pad)[..|x|] && y == (y + pad)[..|x|];
  }

  // Equal-length bodies that differ only within four consecutive bytes never share
  // a check sequence.
  lemma BurstDetected(pre: seq<Byte>, x: seq<Byte>, y: seq<Byte>, suf: seq<Byte>)
    requires |x| == |y| <= 4 && x != y
    ensures Fcs(Crc(INIT, pre + x + suf)) != Fcs(Crc(INIT, pre + y + suf))
  {
    if Fcs(Crc(INIT, pre + x + suf)) == Fcs(Crc(INIT, pre + y + suf)) {
      SameFcsSameWindow(pre, x, y, suf);
    }
  }
}
