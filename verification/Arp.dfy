/** ARP over Ethernet and IPv4 (RFC 826).

  `ParseArpIpv4Request` reads a stored payload in one go. The endpoint instead shifts the
  payload in one byte a cycle (`ArpByte`); `SerialEqualsOneShot` says that after the last
  byte both have the same fields and come to the same verdict.
 */
module Arp {

  import opened Words

  const FPGA_MAC: Mac := [0x02, 0x00, 0x00, 0x00, 0x00, 0x01]

  const BROADCAST_MAC: Mac := [0xFF, 0xFF, 0xFF, 0xFF, 0xFF, 0xFF]

  const FPGA_IP: Ip := [192, 168, 1, 100]

  const ARP_ETHERTYPE: Half := [0x08, 0x06]

  const HW_TYPE_ETHERNET: Half := [0, 1]

  const PROTO_TYPE_IPV4: Half := [0x08, 0x00]

  const HW_LEN_ETHERNET: Byte := 6

  const PROTO_LEN_IPV4: Byte := 4

  const OPCODE_REQUEST: Half := [0, 1]

  const OPCODE_REPLY: Half := [0, 2]

  const ARP_PAYLOAD_BYTES := 28

  // ----- One-shot parser ------------------------------------------------------------

  datatype ArpRequestInfo = ArpRequestInfo(valid: bool, senderMac: Mac, senderIp: Ip)

  function ParseArpIpv4Request(bytes: seq<Byte>, offset: nat, len: nat): ArpRequestInfo
    requires len >= ARP_PAYLOAD_BYTES ==> offset + ARP_PAYLOAD_BYTES <= |bytes|
  {
    if len < ARP_PAYLOAD_BYTES then
      ArpRequestInfo(false, ZERO_MAC, ZERO_IP)
    else
      var b := bytes[offset..offset + ARP_PAYLOAD_BYTES];
      ArpRequestInfo(
        b[0..2] == HW_TYPE_ETHERNET && b[2..4] == PROTO_TYPE_IPV4
        && b[4] == HW_LEN_ETHERNET && b[5] == PROTO_LEN_IPV4
        && b[6..8] == OPCODE_REQUEST && b[24..28] == FPGA_IP,
        b[8..14],
        b[14..18])
  }

  // ----- Serial parser --------------------------------------------------------------

  datatype ArpRegs = ArpRegs(
    hwType: Half,
    protoType: Half,
    hwLen: Byte,
    protoLen: Byte,
    opcode: Half,
    senderMac: Mac,
    senderIp: Ip,
    targetIp: Ip)
  {
    predicate IsRequestForUs() {
      && hwType == HW_TYPE_ETHERNET && protoType == PROTO_TYPE_IPV4
      && hwLen == HW_LEN_ETHERNET && protoLen == PROTO_LEN_IPV4
      && opcode == OPCODE_REQUEST && targetIp == FPGA_IP
    }
  }

  const NO_REGS := ArpRegs(ZERO_HALF, ZERO_HALF, 0, 0, ZERO_HALF, ZERO_MAC, ZERO_IP, ZERO_IP)

  function ArpByte(r: ArpRegs, i: nat, b: Byte): ArpRegs {
    if i < 2 then r.(hwType := r.hwType[i := b])
    else if i < 4 then r.(protoType := r.protoType[i - 2 := b])
    else if i == 4 then r.(hwLen := b)
    else if i == 5 then r.(protoLen := b)
    else if i < 8 then r.(opcode := r.opcode[i - 6 := b])
    else if i < 14 then r.(senderMac := r.senderMac[i - 8 := b])
    else if i < 18 then r.(senderIp := r.senderIp[i - 14 := b])
    else if 24 <= i < 28 then r.(targetIp := r.targetIp[i - 24 := b])
    else r
  }

  // The registers after the first k bytes.
  function RegsAfter(bytes: seq<Byte>, k: nat): ArpRegs
    requires k <= |bytes|
  {
    if k == 0 then NO_REGS else ArpByte(RegsAfter(bytes, k - 1), k - 1, bytes[k - 1])
  }

  // The register byte that byte j of the payload goes to; the target MAC goes nowhere.
  function RegByte(r: ArpRegs, j: nat): Byte {
    if j < 2 then r.hwType[j]
    else if j < 4 then r.protoType[j - 2]
    else if j == 4 then r.hwLen
    else if j == 5 then r.protoLen
    else if j < 8 then r.opcode[j - 6]
    else if j < 14 then r.senderMac[j - 8]
    else if j < 18 then r.senderIp[j - 14]
    else if 24 <= j < 28 then r.targetIp[j - 24]
    else 0
  }

  lemma ArpByteSets(r: ArpRegs, i: nat, b: Byte, j: nat)
    requires j < 18 || 24 <= j < 28
    ensures RegByte(ArpByte(r, i, b), j) == if i == j then b else RegByte(r, j)
  {
  }

  lemma {:induction false} RegBytes(bytes: seq<Byte>, k: nat, j: nat)
    requires k <= |bytes| && (j < 18 || 24 <= j < 28)
    ensures RegByte(RegsAfter(bytes, k), j) == if j < k then bytes[j] else 0
    decreases k
  {
    if k == 0 {
      assert RegByte(NO_REGS, j) == 0;
    } else {
      hide RegByte, ArpByte;
      RegBytes(bytes, k - 1, j);
      ArpByteSets(RegsAfter(bytes, k - 1), k - 1, bytes[k - 1], j);
    }
  }

  lemma RegFields(r: ArpRegs, b: seq<Byte>)
    requires |b| == ARP_PAYLOAD_BYTES
    requires forall j: nat | j < 18 || 24 <= j < 28 :: RegByte(r, j) == b[j]
    ensures r.hwType == b[0..2] && r.protoType == b[2..4]
    ensures r.hwLen == b[4] && r.protoLen == b[5] && r.opcode == b[6..8]
    ensures r.senderMac == b[8..14] && r.senderIp == b[14..18] && r.targetIp == b[24..28]
  {
    assert b[0] == RegByte(r, 0) && b[1] == RegByte(r, 1);
    assert b[2] == RegByte(r, 2) && b[3] == RegByte(r, 3);
    assert b[4] == RegByte(r, 4) && b[5] == RegByte(r, 5);
    assert b[6] == RegByte(r, 6) && b[7] == RegByte(r, 7);
    forall j: nat | j < 6
      ensures b[8..14][j] == r.senderMac[j]
    {
      assert b[j + 8] == RegByte(r, j + 8);
    }
    forall j: nat | j < 4
      ensures b[14..18][j] == r.senderIp[j] && b[24..28][j] == r.targetIp[j]
    {
      assert b[j + 14] == RegByte(r, j + 14) && b[j + 24] == RegByte(r, j + 24);
    }
  }

  // One byte a cycle or all at once: the same fields and the same verdict.
  lemma SerialEqualsOneShot(bytes: seq<Byte>)
    requires |bytes| >= ARP_PAYLOAD_BYTES
    ensures var r := RegsAfter(bytes, ARP_PAYLOAD_BYTES);
            ParseArpIpv4Request(bytes, 0, |bytes|) ==
              ArpRequestInfo(r.IsRequestForUs(), r.senderMac, r.senderIp)
  {
    var r := RegsAfter(bytes, ARP_PAYLOAD_BYTES);
    hide RegsAfter, RegByte;
    forall j: nat | j < 18 || 24 <= j < 28
      ensures RegByte(r, j) == bytes[j]
    {
      RegBytes(bytes, ARP_PAYLOAD_BYTES, j);
    }
    var b := bytes[0..ARP_PAYLOAD_BYTES];
    RegFields(r, b);
  }

  // Only the first 28 bytes matter.
  lemma {:induction false} RegsDependOnPrefix(a: seq<Byte>, b: seq<Byte>, k: nat)
    requires k <= |a| && k <= |b| && a[..k] == b[..k]
    ensures RegsAfter(a, k) == RegsAfter(b, k)
    decreases k
  {
    if k == 0 {
    } else {
      hide ArpByte;
      assert a[..k][k - 1] == b[..k][k - 1];
      assert a[..k - 1] == a[..k][..k - 1] && b[..k - 1] == b[..k][..k - 1];
      RegsDependOnPrefix(a, b, k - 1);
    }
  }

  // ----- Packets --------------------------------------------------------------------

  // An ARP packet for Ethernet and IPv4, field by field, in the numbers of RFC 826: hardware
  // type 1, protocol type 0x0800, address lengths 6 and 4.
  function ArpPacket(opcode: Half, senderMac: Mac, senderIp: Ip, targetMac: Mac, targetIp: Ip): (p: seq<Byte>)
    ensures |p| == 28
  {
    [0, 1, 8, 0, 6, 4] + opcode + senderMac + senderIp + targetMac + targetIp
  }

  // The reply of this endpoint, 02:00:00:00:00:01 at 192.168.1.100, to a station.
  function ReplyPacket(mac: Mac, ip: Ip): (p: seq<Byte>)
    ensures |p| == 28
  {
    ArpPacket([0, 2], [2, 0, 0, 0, 0, 1], [192, 168, 1, 100], mac, ip)
  }

  // arp_reply_payload_byte: the index has five bits.
  function ArpReplyPayloadByte(index: nat, requesterMac: Mac, requesterIp: Ip): Byte
    requires index < 0x20
  {
    match index
    case 0 => HW_TYPE_ETHERNET[0]
    case 1 => HW_TYPE_ETHERNET[1]
    case 2 => PROTO_TYPE_IPV4[0]
    case 3 => PROTO_TYPE_IPV4[1]
    case 4 => HW_LEN_ETHERNET
    case 5 => PROTO_LEN_IPV4
    case 6 => OPCODE_REPLY[0]
    case 7 => OPCODE_REPLY[1]
    case 8 => FPGA_MAC[0]
    case 9 => FPGA_MAC[1]
    case 10 => FPGA_MAC[2]
    case 11 => FPGA_MAC[3]
    case 12 => FPGA_MAC[4]
    case 13 => FPGA_MAC[5]
    case 14 => FPGA_IP[0]
    case 15 => FPGA_IP[1]
    case 16 => FPGA_IP[2]
    case 17 => FPGA_IP[3]
    case 18 => requesterMac[0]
    case 19 => requesterMac[1]
    case 20 => requesterMac[2]
    case 21 => requesterMac[3]
    case 22 => requesterMac[4]
    case 23 => requesterMac[5]
    case 24 => requesterIp[0]
    case 25 => requesterIp[1]
    case 26 => requesterIp[2]
    case _ => requesterIp[3]
  }

  // The reply goes back to the requester, with this endpoint's addresses as the sender's.
  lemma ReplyIsArpPacket(mac: Mac, ip: Ip, i: nat)
    requires i < 28
    ensures ArpReplyPayloadByte(i, mac, ip) == ReplyPacket(mac, ip)[i]
  {
  }

  // A packet is recognised as a request exactly when it asks for 192.168.1.100.
  lemma RequestIsRecognised(opcode: Half, senderMac: Mac, senderIp: Ip, targetMac: Mac, targetIp: Ip,
                            padding: seq<Byte>)
    ensures var payload := ArpPacket(opcode, senderMac, senderIp, targetMac, targetIp) + padding;
            ParseArpIpv4Request(payload, 0, |payload|) ==
              ArpRequestInfo(opcode == [0, 1] && targetIp == [192, 168, 1, 100], senderMac, senderIp)
  {
    var p := ArpPacket(opcode, senderMac, senderIp, targetMac, targetIp);
    var payload := p + padding;
    assert payload[0..28] == p;
    assert p[0..2] == [0, 1] && p[2..4] == [8, 0] && p[6..8] == opcode;
    assert p[8..14] == senderMac && p[14..18] == senderIp && p[24..28] == targetIp;
  }
}
