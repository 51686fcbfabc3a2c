/** What the endpoint transmits: request records and the bytes of their frame bodies.

  The source prints a body one byte at a time, by position. `FrameBody` is the same body
  written down as a whole: a header followed by an ARP packet or by the text of a beacon.
 */
module TxPayloads {

  import opened Words
  import opened Arp
  import opened FrameParser
  import opened Framer

  const BEACON_ETHERTYPE: Half := [0x88, 0xB5]

  const BEACON_BYTES := 129

  datatype TxKind = NoKind | Beacon | ArpReply | GratuitousArp

  datatype TxRequest = TxRequest(
    valid: bool,
    header: Header,
    len: Word11,
    kind: TxKind,
    requesterMac: Mac,
    requesterIp: Ip,
    rxPackets: Word32,
    rxQueueDrops: Word32,
    rxProtocolDrops: Word32,
    txDrops: Word32,
    arpReplies: Word32,
    udpReplies: Word32,
    beacons: Word32)

  // ----- Printers, byte by byte -----------------------------------------------------

  function HexDigitByte(v: Nibble): Byte {
    if v < 10 then '0' as int + v else 'A' as int + v - 10
  }

  // hex32_byte: index has three bits.
  function Hex32Byte(value: Word32, index: nat): Byte
    requires index < 8
  {
    match index
    case 0 => HexDigitByte(value / 0x1000_0000)
    case 1 => HexDigitByte(value / 0x100_0000 % 0x10)
    case 2 => HexDigitByte(value / 0x10_0000 % 0x10)
    case 3 => HexDigitByte(value / 0x1_0000 % 0x10)
    case 4 => HexDigitByte(value / 0x1000 % 0x10)
    case 5 => HexDigitByte(value / 0x100 % 0x10)
    case 6 => HexDigitByte(value / 0x10 % 0x10)
    case _ => HexDigitByte(value % 0x10)
  }

  function Hex48Byte(value: Mac, index: nat): Byte
    requires index < 12
  {
    HexDigitByte(if index % 2 == 0 then HighNibble(value[index / 2]) else LowNibble(value[index / 2]))
  }

  function Decimal3Byte(value: Byte, index: nat): Byte {
    '0' as int + (if index == 0 then value / 100 else if index == 1 then value / 10 % 10 else value % 10)
  }

  function Ipv4FixedByte(ip: Ip, index: nat): Byte
    requires index < 15
  {
    match index
    case 0 => Decimal3Byte(ip[0], 0)
    case 1 => Decimal3Byte(ip[0], 1)
    case 2 => Decimal3Byte(ip[0], 2)
    case 3 => '.' as int
    case 4 => Decimal3Byte(ip[1], 0)
    case 5 => Decimal3Byte(ip[1], 1)
    case 6 => Decimal3Byte(ip[1], 2)
    case 7 => '.' as int
    case 8 => Decimal3Byte(ip[2], 0)
    case 9 => Decimal3Byte(ip[2], 1)
    case 10 => Decimal3Byte(ip[2], 2)
    case 11 => '.' as int
    case 12 => Decimal3Byte(ip[3], 0)
    case 13 => Decimal3Byte(ip[3], 1)
    case _ => Decimal3Byte(ip[3], 2)
  }

  // beacon_payload_literal_byte: the index has eight bits.
  function BeaconByte(index: nat, request: TxRequest): Byte
    requires index < 0x100
  {
    if 8 <= index < 23 then Ipv4FixedByte(FPGA_IP, index - 8)
    else if 28 <= index < 40 then Hex48Byte(FPGA_MAC, index - 28)
    else if 44 <= index < 52 then Hex32Byte(request.rxPackets, index - 44)
    else if 57 <= index < 65 then Hex32Byte(request.rxQueueDrops, index - 57)
    else if 70 <= index < 78 then Hex32Byte(request.rxProtocolDrops, index - 70)
    else if 83 <= index < 91 then Hex32Byte(request.txDrops, index - 83)
    else if 96 <= index < 104 then Hex32Byte(request.arpReplies, index - 96)
    else if 109 <= index < 117 then Hex32Byte(request.udpReplies, index - 109)
    else if 121 <= index < 129 then Hex32Byte(request.beacons, index - 121)
    else
      match index
      case 0 => 'A' as int
      case 1 => 'R' as int
      case 2 => 'T' as int
      case 3 => 'Y' as int
      case 4 => ' ' as int
      case 5 => 'I' as int
      case 6 => 'P' as int
      case 7 => '=' as int
      case 23 | 40 | 52 | 65 | 78 | 91 | 104 | 117 => ' ' as int
      case 24 => 'M' as int
      case 25 => 'A' as int
      case 26 => 'C' as int
      case 27 | 43 | 56 | 69 | 82 | 95 | 108 | 120 => '=' as int
      case 41 => 'R' as int
      case 42 => 'X' as int
      case 53 => 'R' as int
      case 54 => 'X' as int
      case 55 => 'Q' as int
      case 66 => 'R' as int
      case 67 => 'X' as int
      case 68 => 'P' as int
      case 79 => 'T' as int
      case 80 => 'X' as int
      case 81 => 'D' as int
      case 92 => 'A' as int
      case 93 => 'R' as int
      case 94 => 'P' as int
      case 105 => 'U' as int
      case 106 => 'D' as int
      case 107 => 'P' as int
      case 118 => 'U' as int
      case 119 => 'P' as int
      case _ => '0' as int
  }

  function PayloadLen(kind: TxKind): Word11 {
    match kind
    case Beacon => BEACON_BYTES
    case ArpReply | GratuitousArp => ARP_PAYLOAD_BYTES
    case NoKind => 0
  }

  function FrameBodyLen(kind: TxKind): Word11 { HEADER_BYTES + PayloadLen(kind) }

  // protocol_tx_payload_byte: the index is cut to the width each printer takes.
  function PayloadByte(request: TxRequest, index: nat): Byte {
    if request.kind == ArpReply || request.kind == GratuitousArp then
      ArpReplyPayloadByte(index % 0x20, request.requesterMac, request.requesterIp)
    else
      BeaconByte(index % 0x100, request)
  }

  // ethernet_header_byte
  function EthernetHeaderByte(h: Header, index: nat): Byte
    requires index < 0x10
  {
    if index < 6 then h.dst[index]
    else if index < 12 then h.src[index - 6]
    else if index == 12 then h.etherType[0]
    else h.etherType[1]
  }

  function FrameBodyByte(request: TxRequest, index: Word11): Byte {
    if index < HEADER_BYTES then EthernetHeaderByte(request.header, index)
    else PayloadByte(request, index - HEADER_BYTES)
  }

  // ----- Requests -------------------------------------------------------------------

  function BeaconRequest(): TxRequest {
    TxRequest(true, Header(BROADCAST_MAC, FPGA_MAC, BEACON_ETHERTYPE), FrameBodyLen(Beacon), Beacon,
              ZERO_MAC, ZERO_IP, 0, 0, 0, 0, 0, 0, 0)
  }

  function GratuitousArpRequest(): TxRequest {
    TxRequest(true, Header(BROADCAST_MAC, FPGA_MAC, ARP_ETHERTYPE), FrameBodyLen(GratuitousArp),
              GratuitousArp, BROADCAST_MAC, FPGA_IP, 0, 0, 0, 0, 0, 0, 0)
  }

  function ArpReplyRequest(mac: Mac, ip: Ip): TxRequest {
    TxRequest(true, Header(mac, FPGA_MAC, ARP_ETHERTYPE), FrameBodyLen(ArpReply), ArpReply,
              mac, ip, 0, 0, 0, 0, 0, 0, 0)
  }

  // The requests the endpoint ever makes.
  predicate Proper(r: TxRequest) {
    && r.valid
    && match r.kind
       case Beacon =>
         r.header == Header(BROADCAST_MAC, FPGA_MAC, BEACON_ETHERTYPE) && r.len == FrameBodyLen(Beacon)
       case ArpReply => r == ArpReplyRequest(r.requesterMac, r.requesterIp)
       case GratuitousArp => r == GratuitousArpRequest()
       case NoKind => false
  }

  lemma ProperLength(r: TxRequest)
    requires Proper(r)
    ensures HEADER_BYTES < r.len < FRAME_BODY_BYTES
  {
  }

  // ----- The bodies as a whole ------------------------------------------------------

  function Ascii(s: string): (bs: seq<Byte>)
    requires forall i | 0 <= i < |s| :: s[i] < 128 as char
    ensures |bs| == |s|
  {
    seq(|s|, i requires 0 <= i < |s| => s[i] as int)
  }

  function HexDigit(v: Nibble): Byte { Ascii("0123456789ABCDEF")[v] }

  // n hexadecimal digits, most significant first.
  function Hex(value: nat, n: nat): (bs: seq<Byte>)
    ensures |bs| == n
  {
    if n == 0 then [] else Hex(value / 0x10, n - 1) + [HexDigit(value % 0x10)]
  }

  const FIELDS := 7

  // The fields of a beacon: a label and a counter in hexadecimal.
  function Label(k: nat): string
    requires k < FIELDS
  {
    match k
    case 0 => " RX="
    case 1 => " RXQ="
    case 2 => " RXP="
    case 3 => " TXD="
    case 4 => " ARP="
    case 5 => " UDP="
    case _ => " UP="
  }

  function Counter(r: TxRequest, k: nat): Word32
    requires k < FIELDS
  {
    match k
    case 0 => r.rxPackets
    case 1 => r.rxQueueDrops
    case 2 => r.rxProtocolDrops
    case 3 => r.txDrops
    case 4 => r.arpReplies
    case 5 => r.udpReplies
    case _ => r.beacons
  }

  function FieldStart(k: nat): nat
    requires k <= FIELDS
  {
    if k == 0 then 0 else FieldStart(k - 1) + |Label(k - 1)| + 8
  }

  function FieldText(r: TxRequest, k: nat): (bs: seq<Byte>)
    requires k < FIELDS
    ensures |bs| == |Label(k)| + 8
  {
    Ascii(Label(k)) + Hex(Counter(r, k), 8)
  }

  // The fields from number k on.
  function Fields(r: TxRequest, k: nat): seq<Byte>
    requires k <= FIELDS
    decreases FIELDS - k
  {
    if k == FIELDS then [] else FieldText(r, k) + Fields(r, k + 1)
  }

  function Identity(): (bs: seq<Byte>)
    ensures |bs| == 40
  {
    Ascii("ARTY IP=") + Ascii("192.168.001.100") + Ascii(" MAC=") + Ascii("020000000001")
  }

  // The text of a beacon.
  function BeaconText(r: TxRequest): (bs: seq<Byte>)
    ensures |bs| == 129
  {
    FieldStarts();
    FieldsLength(r, 0);
    Identity() + Fields(r, 0)
  }

  lemma {:induction false} FieldsLength(r: TxRequest, k: nat)
    requires k <= FIELDS
    ensures FieldStart(k) + |Fields(r, k)| == FieldStart(FIELDS)
    decreases FIELDS - k
  {
    hide FieldText, Label;
    if k < FIELDS {
      FieldsLength(r, k + 1);
    }
  }

  lemma FieldStarts()
    ensures FieldStart(0) == 0 && FieldStart(1) == 12 && FieldStart(2) == 25 && FieldStart(3) == 38
    ensures FieldStart(4) == 51 && FieldStart(5) == 64 && FieldStart(6) == 77 && FieldStart(7) == 89
  {
    assert FieldStart(2) == 25;
    assert FieldStart(4) == 51;
    assert FieldStart(6) == 77;
  }

  // The Ethernet header in front of a body, in numbers: a beacon (0x88B5) and an announcement
  // (0x0806) go to everyone, a reply to whom it answers, all from 02:00:00:00:00:01.
  function EthernetHeader(r: TxRequest): (h: seq<Byte>)
    ensures |h| == 14
  {
    match r.kind
    case ArpReply => r.requesterMac + [2, 0, 0, 0, 0, 1, 8, 6]
    case GratuitousArp => [0xFF, 0xFF, 0xFF, 0xFF, 0xFF, 0xFF, 2, 0, 0, 0, 0, 1, 8, 6]
    case _ => [0xFF, 0xFF, 0xFF, 0xFF, 0xFF, 0xFF, 2, 0, 0, 0, 0, 1, 0x88, 0xB5]
  }

  // What follows the header: the text of a beacon, or an ARP reply. An announcement is a
  // reply to everyone at this endpoint's own address.
  function PayloadText(r: TxRequest): (p: seq<Byte>)
    ensures |p| == if r.kind == ArpReply || r.kind == GratuitousArp then 28 else 129
  {
    match r.kind
    case ArpReply => ReplyPacket(r.requesterMac, r.requesterIp)
    case GratuitousArp => ReplyPacket([0xFF, 0xFF, 0xFF, 0xFF, 0xFF, 0xFF], [192, 168, 1, 100])
    case _ => BeaconText(r)
  }

  function FrameBody(r: TxRequest): (bs: seq<Byte>)
    requires Proper(r)
    ensures |bs| == r.len
  {
    EthernetHeader(r) + PayloadText(r)
  }

  lemma HexDigits(v: Nibble)
    ensures HexDigitByte(v) == HexDigit(v)
  {
  }

  // The last digit, and the digits before it.
  lemma HexLast(value: nat, n: nat, i: nat)
    requires i < n
    ensures Hex(value, n)[i] == if i == n - 1 then HexDigit(value % 0x10) else Hex(value / 0x10, n - 1)[i]
  {
    hide HexDigit;
    assert Hex(value, n) == Hex(value / 0x10, n - 1) + [HexDigit(value % 0x10)];
  }

  lemma HexOfEight(value: Word32, i: nat)
    requires i < 8
    ensures Hex(value, 8)[i] == HexDigit(Digit(value, i))
  {
    hide Hex, HexDigit;
    HexLast(value, 8, i);
    if i < 7 {
      HexLast(value / 0x10, 7, i);
    }
    if i < 6 {
      HexLast(value / 0x100, 6, i);
    }
    if i < 5 {
      HexLast(value / 0x1000, 5, i);
    }
    if i < 4 {
      HexLast(value / 0x1_0000, 4, i);
    }
    if i < 3 {
      HexLast(value / 0x10_0000, 3, i);
    }
    if i < 2 {
      HexLast(value / 0x100_0000, 2, i);
    }
    if i < 1 {
      HexLast(value / 0x1000_0000, 1, i);
    }
    Shifts(value);
  }

  lemma Shifts(value: nat)
    ensures value / 0x10 / 0x10 == value / 0x100 && value / 0x100 / 0x10 == value / 0x1000
    ensures value / 0x1000 / 0x10 == value / 0x1_0000 && value / 0x1_0000 / 0x10 == value / 0x10_0000
    ensures value / 0x10_0000 / 0x10 == value / 0x100_0000 && value / 0x100_0000 / 0x10 == value / 0x1000_0000
  {
  }

  // Digit i of eight, the most significant one first.
  function Digit(value: Word32, i: nat): Nibble
    requires i < 8
  {
    match i
    case 0 => value / 0x1000_0000
    case 1 => value / 0x100_0000 % 0x10
    case 2 => value / 0x10_0000 % 0x10
    case 3 => value / 0x1_0000 % 0x10
    case 4 => value / 0x1000 % 0x10
    case 5 => value / 0x100 % 0x10
    case 6 => value / 0x10 % 0x10
    case _ => value % 0x10
  }

  lemma Hex32IsHex(value: Word32, i: nat)
    requires i < 8
    ensures Hex32Byte(value, i) == HexDigit(Digit(value, i)) == Hex(value, 8)[i]
  {
    hide Hex, HexDigit, HexDigitByte;
    HexOfEight(value, i);
    HexDigits(Digit(value, i));
  }

  lemma {:induction false} FieldAt(r: TxRequest, k: nat, j: nat)
    requires k <= FIELDS && j < |Fields(r, k)|
    ensures FieldStart(k) + j < |Fields(r, 0)|
    ensures Fields(r, 0)[FieldStart(k) + j] == Fields(r, k)[j]
    decreases k
  {
    hide FieldText, Label;
    FieldStarts();
    if k == 0 {
    } else {
      FieldAt(r, k - 1, |FieldText(r, k - 1)| + j);
      assert Fields(r, k - 1) == FieldText(r, k - 1) + Fields(r, k);
    }
  }

  // Byte j of field k, in the label or in the digits.
  lemma BeaconFieldByte(r: TxRequest, k: nat, j: nat)
    requires k < FIELDS && j < |Label(k)| + 8
    ensures 40 + FieldStart(k) + j < BEACON_BYTES
    ensures BeaconText(r)[40 + FieldStart(k) + j] ==
      if j < |Label(k)| then Label(k)[j] as int else Hex32Byte(Counter(r, k), j - |Label(k)|)
  {
    hide *;
    FieldTextByte(r, k, j);
    FieldFirst(r, k, j);
    FieldAt(r, k, j);
    AfterIdentity(r, FieldStart(k) + j);
  }

  lemma FieldFirst(r: TxRequest, k: nat, j: nat)
    requires k < FIELDS && j < |Label(k)| + 8
    ensures j < |Fields(r, k)| && Fields(r, k)[j] == FieldText(r, k)[j]
  {
    hide FieldText, Label;
    assert Fields(r, k) == FieldText(r, k) + Fields(r, k + 1);
  }

  lemma AfterIdentity(r: TxRequest, i: nat)
    requires i < |Fields(r, 0)|
    ensures 40 + i < BEACON_BYTES && BeaconText(r)[40 + i] == Fields(r, 0)[i]
  {
    hide Identity, Fields;
    FieldStarts();
    FieldsLength(r, 0);
  }

  lemma FieldTextByte(r: TxRequest, k: nat, j: nat)
    requires k < FIELDS && j < |Label(k)| + 8
    ensures FieldText(r, k)[j] ==
      if j < |Label(k)| then Label(k)[j] as int else Hex32Byte(Counter(r, k), j - |Label(k)|)
  {
    if j >= |Label(k)| {
      Hex32IsHex(Counter(r, k), j - |Label(k)|);
    }
    hide Hex, Hex32Byte, Counter, Label;
  }

  lemma IdentityBytes(r: TxRequest, i: nat)
    requires i < 40
    ensures BeaconByte(i, r) == Identity()[i]
  {
    if 8 <= i < 23 {
      IpBytes(i - 8);
    } else if 28 <= i < 40 {
      MacBytes(i - 28);
    }
    hide Hex32Byte, Ipv4FixedByte, Hex48Byte;
  }

  lemma IpBytes(i: nat)
    requires i < 15
    ensures Ipv4FixedByte(FPGA_IP, i) == Identity()[8 + i]
  {
  }

  lemma MacBytes(i: nat)
    requires i < 12
    ensures Hex48Byte(FPGA_MAC, i) == Identity()[28 + i]
  {
  }

  // The printer by position prints the text.
  lemma BeaconByteIsText(r: TxRequest, i: nat)
    requires i < BEACON_BYTES
    ensures BeaconByte(i, r) == BeaconText(r)[i]
  {
    FieldStarts();
    hide FieldStart, Fields, Hex32Byte, Identity, Ipv4FixedByte, Hex48Byte;
    if i < 40 {
      IdentityBytes(r, i);
    } else {
      hide BeaconText;
      if i < 52 {
        BeaconFieldByte(r, 0, i - 40);
      } else if i < 65 {
        BeaconFieldByte(r, 1, i - 52);
      } else if i < 78 {
        BeaconFieldByte(r, 2, i - 65);
      } else if i < 91 {
        BeaconFieldByte(r, 3, i - 78);
      } else if i < 104 {
        BeaconFieldByte(r, 4, i - 91);
      } else if i < 117 {
        BeaconFieldByte(r, 5, i - 104);
      } else {
        BeaconFieldByte(r, 6, i - 117);
      }
    }
  }

  lemma FrameBodyAt(r: TxRequest, i: nat)
    requires Proper(r) && i < r.len
    ensures FrameBody(r)[i] == if i < 14 then EthernetHeader(r)[i] else PayloadText(r)[i - 14]
  {
    hide Proper, EthernetHeader, PayloadText;
  }

  lemma HeaderBytesAre(r: TxRequest, i: nat)
    requires Proper(r) && i < 14
    ensures FrameBodyByte(r, i) == EthernetHeader(r)[i]
  {
    hide PayloadByte;
  }

  lemma PayloadBytesAre(r: TxRequest, i: nat)
    requires Proper(r) && i < r.len - 14
    ensures FrameBodyByte(r, 14 + i) == PayloadText(r)[i]
  {
    hide ReplyPacket, BeaconText, BeaconByte, ArpReplyPayloadByte;
    if r.kind == Beacon {
      BeaconByteIsText(r, i);
    } else {
      ReplyIsArpPacket(r.requesterMac, r.requesterIp, i);
    }
  }

  // Byte by byte, the builder writes the frame body of the request.
  lemma FrameBodyByteIsBody(r: TxRequest, i: nat)
    requires Proper(r) && i < r.len
    ensures FrameBodyByte(r, i) == FrameBody(r)[i]
  {
    hide *;
    FrameBodyAt(r, i);
    if i < 14 {
      HeaderBytesAre(r, i);
    } else {
      PayloadBytesAre(r, i - 14);
    }
  }
}
