/** Machine words and bytes.

  Counters and indices are integers with their bound, and every increment of the design
  that can wrap is written with its modulus. Addresses and EtherTypes are only ever moved
  byte by byte or compared as a whole, so a 48-, 32- or 16-bit field is held as its bytes,
  most significant first: `w.range(47, 40) = b` is `w[0 := b]`.
 */
module Words {

  type Byte = b: int | 0 <= b < 0x100

  type Nibble = n: int | 0 <= n < 0x10

  type Mac = w: seq<Byte> | |w| == 6 witness [0, 0, 0, 0, 0, 0]

  type Ip = w: seq<Byte> | |w| == 4 witness [0, 0, 0, 0]

  type Half = w: seq<Byte> | |w| == 2 witness [0, 0]

  const ZERO_MAC: Mac := [0, 0, 0, 0, 0, 0]

  const ZERO_IP: Ip := [0, 0, 0, 0]

  const ZERO_HALF: Half := [0, 0]

  type Word16 = w: int | 0 <= w < 0x1_0000

  // A 32-bit counter.
  type Word32 = w: int | 0 <= w < 0x1_0000_0000

  function Inc32(w: Word32): Word32 { (w + 1) % 0x1_0000_0000 }

  // The value of a 32-bit counter after n increments from zero.
  function Count32(n: nat): Word32 { n % 0x1_0000_0000 }

  lemma Count32Next(n: nat)
    ensures Count32(n + 1) == Inc32(Count32(n))
  {
  }

  lemma Count32Add(a: nat, b: nat)
    ensures (Count32(a) + Count32(b)) % 0x1_0000_0000 == Count32(a + b)
  {
  }

  lemma Count32Zero()
    ensures Count32(0) == 0
  {
  }

  datatype Option<+T> = None | Some(value: T)

  // Two nibbles make a byte, the first one on the wire being the low one.
  function JoinNibbles(low: Nibble, high: Nibble): Byte { high * 0x10 + low }

  function LowNibble(b: Byte): Nibble { b % 0x10 }

  function HighNibble(b: Byte): Nibble { b / 0x10 }
}
