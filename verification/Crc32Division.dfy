/** The check sequence as the standard defines it.

  `LongDivision` is an independent definition of the frame check sequence: schoolbook
  division by the generator polynomial over GF(2), on bit sequences, as section 3.2.9 of
  IEEE 802.3 words it. `FcsIsIeeeCheckSequence` says that the register computes it.
 */
module Crc32Division {

  import opened Crc32
  import opened Crc32Algebra

  // ----- IEEE 802.3 section 3.2.9: division over GF(2) ------------------------------

  // Powers of x in the generator polynomial below x^32.
  const GENERATOR_POWERS: set<int> := {26, 23, 22, 16, 12, 11, 10, 8, 7, 5, 4, 2, 1, 0}

  // Its coefficients, highest power first.
  function Generator(): (g: seq<bool>)
    ensures |g| == 32
  {
    seq(32, k requires 0 <= k < 32 => (31 - k) in GENERATOR_POWERS)
  }

  function Zeros(n: nat): (z: seq<bool>)
    ensures |z| == n
  {
    seq(n, _ => false)
  }

  function Complement(a: seq<bool>): (c: seq<bool>)
    ensures |c| == |a|
  {
    seq(|a|, i requires 0 <= i < |a| => !a[i])
  }

  // Adds p to the leading coefficients of a.
  function AddLeading(a: seq<bool>, p: seq<bool>): (c: seq<bool>)
    requires |p| <= |a|
    ensures |c| == |a|
  {
    seq(|a|, i requires 0 <= i < |a| => if i < |p| then a[i] != p[i] else a[i])
  }

  // Schoolbook long division: while the dividend has a term of degree 32 or more, clear
  // its leading coefficient by adding the generator there when that coefficient is one.
  function LongDivision(dividend: seq<bool>): (remainder: seq<bool>)
    requires |dividend| >= 32
    ensures |remainder| == 32
    decreases |dividend|
  {
    if |dividend| == 32 then dividend
    else if dividend[0] then LongDivision(AddLeading(dividend[1..], Generator()))
    else LongDivision(dividend[1..])
  }

  // The bits of a byte string in the order they leave the transmitter.
  function WireBits(bytes: seq<Byte>): (bits: seq<bool>)
    ensures |bits| == 8 * |bytes|
  {
    seq(8 * |bytes|, i requires 0 <= i < 8 * |bytes| => DataBit(bytes[i / 8], i % 8))
  }

  // The check sequence of a frame, as the standard defines it: complement the first 32
  // bits of the frame, multiply by x^32, divide by the generator, complement the remainder.
  function CheckSequence(frame: seq<bool>): (fcs: seq<bool>)
    requires |frame| >= 32
    ensures |fcs| == 32
  {
    var complemented := Complement(frame[..32]) + frame[32..];
    Complement(LongDivision(complemented + Zeros(32)))
  }

  // ----- The register is the remainder of the division ------------------------------

  // The register as coefficients, highest power of x first.
  function Coefficients(r: bv32): (c: seq<bool>)
    ensures |c| == 32
  {
    seq(32, i requires 0 <= i < 32 => BitAt(r, i))
  }

  function CrcOfBits(r: bv32, bits: seq<bool>): bv32
    decreases |bits|
  {
    if bits == [] then r else CrcOfBits(CrcBit(r, bits[0]), bits[1..])
  }

  const POLY_BYTES: seq<Byte> := [0x20, 0x83, 0xB8, 0xED]

  lemma PolyBytes()
    ensures RegisterBytes(POLY) == POLY_BYTES
  {
    assert Word(POLY_BYTES) == POLY;
    RegisterBytesOfWord(POLY_BYTES);
  }

  lemma PolyBit(i: nat)
    requires i < 32
    ensures DataBit(POLY_BYTES[i / 8], i % 8) == ((31 - i) in GENERATOR_POWERS)
  {
    if i < 8 {
      assert i / 8 == 0;
    } else if i < 16 {
      assert i / 8 == 1;
    } else if i < 24 {
      assert i / 8 == 2;
    } else {
      assert i / 8 == 3;
    }
  }

  lemma CoefficientsOfPoly()
    ensures Coefficients(POLY) == Generator()
  {
    forall i: nat | i < 32
      ensures Coefficients(POLY)[i] == Generator()[i]
    {
      hide BitAt, RegisterBytes, DataBit;
      PolyBytes();
      BitOfRegisterBytes(POLY, i);
      PolyBit(i);
    }
  }

  lemma CoefficientsOfStep(r: bv32, d: bool)
    ensures var shifted := Coefficients(r)[1..] + [false];
            Coefficients(CrcBit(r, d)) ==
              if Low(r) != d then AddLeading(shifted, Generator()) else shifted
  {
    var shifted := Coefficients(r)[1..] + [false];
    forall i: nat | i < 32
      ensures BitAt(Shr(r), i) == shifted[i]
    {
      hide Shr;
      assert ShrN(r, 1) == Shr(ShrN(r, 0));
      ShrNAdd(r, 1, i);
      ShiftedOut(r);
      LowOfZero();
    }
    BitForm(r, d);
    CoefficientsOfPoly();
    forall i: nat | i < 32
      ensures BitAt(Xor(Shr(r), POLY), i) == (shifted[i] != Generator()[i])
    {
      hide Shr, Xor, Generator;
      assert Coefficients(POLY)[i] == BitAt(POLY, i);
      ShrNXor(Shr(r), POLY, i);
      ShiftXor(ShrN(Shr(r), i), ShrN(POLY, i));
    }
    CrcBitCases(r, d);
    hide BitAt, CrcBit, Generator;
  }

  lemma LowOfZero()
    ensures !Low(0)
  {
  }

  lemma LowIsFirst(r: bv32)
    ensures Coefficients(r)[0] == Low(r)
  {
    assert ShrN(r, 0) == r;
  }

  // Feeding message bits to the register r is dividing the message, followed by 32 zeros,
  // with r added to its first 32 bits.
  lemma {:induction false} RegisterDivides(r: bv32, message: seq<bool>)
    ensures LongDivision(AddLeading(message + Zeros(32), Coefficients(r)))
         == Coefficients(CrcOfBits(r, message))
    decreases |message|
  {
    var dividend := AddLeading(message + Zeros(32), Coefficients(r));
    hide BitAt, CrcBit, Low, Generator;
    if message == [] {
      assert dividend == Coefficients(r);
    } else {
      var rest := message[1..];
      var next := CrcBit(r, message[0]);
      assert (message + Zeros(32))[1..] == rest + Zeros(32);
      LowIsFirst(r);
      CoefficientsOfStep(r, message[0]);
      var reduced := if dividend[0] then AddLeading(dividend[1..], Generator()) else dividend[1..];
      assert reduced == AddLeading(rest + Zeros(32), Coefficients(next)) by {
        hide CrcOfBits, LongDivision, Coefficients;
      }
      RegisterDivides(next, rest);
    }
  }

  lemma {:induction false} CrcOfBitsAppend(r: bv32, a: seq<bool>, b: seq<bool>)
    ensures CrcOfBits(r, a + b) == CrcOfBits(CrcOfBits(r, a), b)
    decreases |a|
  {
    if a == [] {
      assert a + b == b;
    } else {
      assert (a + b)[1..] == a[1..] + b;
      CrcOfBitsAppend(CrcBit(r, a[0]), a[1..], b);
    }
  }

  lemma {:induction false} BitsOfByte(r: bv32, b: Byte, n: nat)
    requires n <= 8
    ensures CrcBits(r, b, n) == CrcOfBits(r, WireBits([b])[..n])
  {
    hide CrcBit, DataBit;
    if n == 0 {
    } else {
      BitsOfByte(r, b, n - 1);
      var prefix := WireBits([b])[..n];
      assert prefix == prefix[..n - 1] + [DataBit(b, n - 1)];
      assert prefix[..n - 1] == WireBits([b])[..n - 1];
      CrcOfBitsAppend(r, prefix[..n - 1], [DataBit(b, n - 1)]);
      assert CrcOfBits(CrcOfBits(r, prefix[..n - 1]), [DataBit(b, n - 1)])
          == CrcBit(CrcOfBits(r, prefix[..n - 1]), DataBit(b, n - 1));
    }
  }

  lemma {:induction false} CrcIsBitwise(r: bv32, bytes: seq<Byte>)
    ensures Crc(r, bytes) == CrcOfBits(r, WireBits(bytes))
    decreases |bytes|
  {
    hide CrcBit, DataBit;
    if bytes == [] {
    } else {
      var n := |bytes| - 1;
      CrcIsBitwise(r, bytes[..n]);
      assert WireBits(bytes) == WireBits(bytes[..n]) + WireBits([bytes[n]]);
      CrcOfBitsAppend(r, WireBits(bytes[..n]), WireBits([bytes[n]]));
      BitsOfByte(Crc(r, bytes[..n]), bytes[n], 8);
      assert WireBits([bytes[n]])[..8] == WireBits([bytes[n]]);
    }
  }

  lemma WireBitsOfFcs(r: bv32)
    ensures WireBits(Fcs(r)) == Complement(Coefficients(r))
  {
    FcsIsRegister(r);
    forall i: nat | i < 32
      ensures WireBits(Fcs(r))[i] == !BitAt(r, i)
    {
      hide Fcs, RegisterBytes, DataBit;
      BitOfRegisterBytes(Not(r), i);
      BitOfNot(r, i);
    }
    hide Fcs, BitAt;
  }

  lemma BitOfNot(r: bv32, i: nat)
    requires i < 32
    ensures BitAt(Not(r), i) == !BitAt(r, i)
  {
    ComplementSplits(r);
    ShrNXor(r, 0xFFFF_FFFF, i);
    ShiftXor(ShrN(r, i), ShrN(0xFFFF_FFFF, i));
    OnesBit(i);
    hide Shr, ShrN, Xor, Not, Low;
  }

  lemma OnesBit(i: nat)
    requires i < 32
    ensures BitAt(0xFFFF_FFFF, i)
  {
    hide BitAt, ShrN, LowByte;
    OnesBytes();
    BitOfRegisterBytes(0xFFFF_FFFF, i);
    assert RegisterBytes(0xFFFF_FFFF)[i / 8] == 0xFF;
  }

  lemma CoefficientsOfInit(i: nat)
    requires i < 32
    ensures Coefficients(INIT)[i]
  {
    OnesBit(i);
  }

  lemma AddLeadingOnes(m: seq<bool>, ones: seq<bool>)
    requires |m| >= 32 && |ones| == 32 && forall i | 0 <= i < 32 :: ones[i]
    ensures AddLeading(m + Zeros(32), ones) == Complement(m[..32]) + m[32..] + Zeros(32)
  {
  }

  // The bytes the framer sends after a body are the check sequence of the standard.
  lemma FcsIsIeeeCheckSequence(body: seq<Byte>)
    requires |body| >= 4
    ensures WireBits(Fcs(Crc(INIT, body))) == CheckSequence(WireBits(body))
  {
    var m := WireBits(body);
    assert CheckSequence(m) == Complement(LongDivision(Complement(m[..32]) + m[32..] + Zeros(32)));
    hide *;
    CrcIsBitwise(INIT, body);
    WireBitsOfFcs(Crc(INIT, body));
    RegisterDivides(INIT, m);
    forall i: nat | i < 32
      ensures Coefficients(INIT)[i]
    {
      CoefficientsOfInit(i);
    }
    AddLeadingOnes(m, Coefficients(INIT));
  }
}
