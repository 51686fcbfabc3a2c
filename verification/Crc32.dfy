/** The Ethernet CRC-32 of the transmit framer.

  `Crc32NextByte` is the loop the framer runs for every body byte; `CrcByte` and
  `Crc` are the functions it is proved against. Module Crc32Algebra proves what the
  check sequence is good for, and module Crc32Division that it is the standard's.
 */
module Crc32 {

  type Byte = bv8

  // The generator polynomial without its x^32 term, bit-reflected:
  // bit i is the coefficient of x^(31-i).
  const POLY: bv32 := 0xEDB88320

  const INIT: bv32 := 0xFFFF_FFFF

  // What is left in the register once a frame's own check sequence has gone through it.
  const RESIDUE: bv32 := 0xDEBB20E3

  // crc[0]
  predicate Low(crc: bv32) {
    crc & 1 == 1
  }

  function CrcBit(crc: bv32, d: bool): bv32 {
    if Low(crc) != d then (crc >> 1) ^ POLY else crc >> 1
  }

  // data_in[i]
  predicate DataBit(b: Byte, i: nat)
    requires i < 8
  {
    (match i
     case 0 => b & 0x01
     case 1 => b & 0x02
     case 2 => b & 0x04
     case 3 => b & 0x08
     case 4 => b & 0x10
     case 5 => b & 0x20
     case 6 => b & 0x40
     case _ => b & 0x80) != 0
  }

  lemma CrcBitCases(crc: bv32, d: bool)
    ensures Low(crc) != d ==> CrcBit(crc, d) == (crc >> 1) ^ POLY
    ensures Low(crc) == d ==> CrcBit(crc, d) == crc >> 1
  {
  }

  // The register after the low n bits of a byte went in, lowest bit first.
  function CrcBits(crc: bv32, b: Byte, n: nat): bv32
    requires n <= 8
  {
    if n == 0 then crc else CrcBit(CrcBits(crc, b, n - 1), DataBit(b, n - 1))
  }

  lemma CrcBitsNext(crc: bv32, b: Byte, n: nat)
    requires n < 8
    ensures CrcBits(crc, b, n + 1) == CrcBit(CrcBits(crc, b, n), DataBit(b, n))
  {
  }

  function CrcByte(crc: bv32, b: Byte): bv32 {
    CrcBits(crc, b, 8)
  }

  function Crc(crc: bv32, bytes: seq<Byte>): bv32 {
    if bytes == [] then crc else CrcByte(Crc(crc, bytes[..|bytes| - 1]), bytes[|bytes| - 1])
  }

  lemma CrcLast(crc: bv32, bytes: seq<Byte>)
    requires bytes != []
    ensures Crc(crc, bytes) == CrcBits(Crc(crc, bytes[..|bytes| - 1]), bytes[|bytes| - 1], 8)
  {
  }

  method Crc32NextByte(crcIn: bv32, dataIn: Byte) returns (crc: bv32)
    ensures crc == CrcByte(crcIn, dataIn)
  {
    crc := crcIn;
    for i := 0 to 8
      invariant crc == CrcBits(crcIn, dataIn, i)
    {
      hide *;
      CrcBitsNext(crcIn, dataIn, i);
      CrcBitCases(crc, DataBit(dataIn, i));
      if Low(crc) != DataBit(dataIn, i) {
        crc := (crc >> 1) ^ POLY;
      } else {
        crc := crc >> 1;
      }
    }
  }

  // Byte k of the register, byte 0 being the low one.
  function Lane(v: bv32, k: nat): Byte
    requires k < 4
  {
    match k
    case 0 => (v & 0xFF) as Byte
    case 1 => ((v >> 8) & 0xFF) as Byte
    case 2 => ((v >> 16) & 0xFF) as Byte
    case _ => ((v >> 24) & 0xFF) as Byte
  }

  function Not(v: bv32): bv32 { !v }

  // The four check-sequence bytes: the complemented register, low byte first.
  function Fcs(crc: bv32): (bytes: seq<Byte>)
    ensures |bytes| == 4
  {
    var v := Not(crc);
    [Lane(v, 0), Lane(v, 1), Lane(v, 2), Lane(v, 3)]
  }

  lemma {:induction false} CrcAppend(crc: bv32, a: seq<Byte>, b: seq<Byte>)
    ensures Crc(crc, a + b) == Crc(Crc(crc, a), b)
    decreases |b|
  {
    if b == [] {
      assert a + b == a;
    } else {
      var n := |b| - 1;
      assert (a + b)[..|a + b| - 1] == a + b[..n];
      CrcAppend(crc, a, b[..n]);
    }
  }
}
