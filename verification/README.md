# A model of the Layer-2 Ethernet endpoint

The hardware endpoint `ethernet_l2_endpoint_hls` is a closed, deterministic state machine.
Each 25 MHz cycle it takes one nibble from the receive line, lets the protocol handler work
for one cycle and puts one nibble on the transmit line. This project models all of its state
and proves what it does over every run from reset, for every input.

## How the model is laid out

- **Components on values.** `Mii`, `FrameParser`, `RxQueue`, `Framer`, `TxQueue`, `Arp`,
  `TxPayloads`, `Timers`, `Protocol` and `PacketQueue` give one function for each step of the
  source, from registers to registers, and prove it against an independent description: the
  frames on a nibble stream, the function of a whole frame, the bytes of a frame on the wire,
  the text of a beacon, the fields of an ARP packet, time modulo an interval, a queue.
- **Check sequence.** `Crc32` holds the loop of the source, `Crc32Algebra` what the check
  sequence detects, `Crc32Division` the definition of IEEE 802.3 section 3.2.9.
- **The endpoint.** `Endpoint` composes the three steps of a cycle. `Reference` is a second
  model of the whole endpoint that has no registers at all, only histories that grow: packets
  arrived, attempts to send, bodies built. `Endpoint.StepFollows` proves that one cycle of the
  registers is one step of the histories.
- **Every run.** `Timing`, `EndToEnd`, `Beacons`, `Gap`, `Schedule` and `RoundTrip` prove what
  holds after every run; `Guarantees` says it of the pins and registers.
- **On the wire.** `FrameFormat` says, without a name from the endpoint, what every complete
  frame on the transmit line looks like.
- **What is promised and when it is kept.** `Ticks` and `Answers` say exactly when beacons,
  announcements and replies are kept, `OnLine` what this puts on the transmit line. `LostTicks`,
  `Load` and `Pace` say when the promises fail and when they hold; `Traffic` is a line full of
  requests.
- **Objects updated in place.** `PacketSlots`, `RxPath`, `TxPath`, `ProtocolPath` and
  `TopLevel` are the source's static variables and arrays as classes. Their methods are proved
  against the functions on values, and `TopLevel.EthernetEndpoint` carries its whole input and
  output as ghost fields, so the results about runs hold of every state of the object.

`dafny verify dfyconfig.toml` checks the whole project.

## What is named and what is a number

The steps of the source use its named constants: `SFD`, `MAX_PAYLOAD`, `FPGA_IP`, `TX_SLOTS` and
so on. What they are proved against does not. It has the numbers of IEEE 802.3, of RFC 826 and
of the documentation written out: seven bytes 0x55 and one 0xD5, 60 to 1514 bytes of body, the
EtherTypes 0x0806 and 0x88B5, the address 02:00:00:00:00:01, 192.168.1.100, the digits
`0123456789ABCDEF`, 25000000 and 125000000 cycles, eight and four slots. A wrong constant, or a
wrong address in a header, is therefore a proof that fails, in `FrameParser.AcceptFollows`,
`Guarantees.FrameAsksExactly`, `TxPayloads.FrameBodyByteIsBody` or `Timers.TimersKeepTime`, to
name four.

## How the source's data is represented

- A byte is an integer from 0 to 255; a 48-, 32- or 16-bit field that is only moved byte by
  byte or compared is the sequence of its bytes, most significant first.
- Counters and indices are integers with their bounds; every increment that can wrap is
  written with its modulus (32-bit counters, the 16-bit byte index of the parser, the 11-bit
  indices of framer and builder, the slot indices). `Word11` arithmetic and the 5-, 6- and
  8-bit index parameters are cut to their width where the source cuts them.
- The CRC register and its bytes are bit vectors.
- A frame is a maximal run of cycles with data valid. Its error flag covers the cycle after
  it as well, as in the source.
- Static storage starts as the source initialises it, and as zeros where it has no
  initialiser.

## Where the documentation and the code differ

- `README.md:27` promises a reply to every valid request. A reply is dropped, and counted,
  exactly if the transmit ring is full in the cycle in which it is called for
  (`Answers.ReplyIsKept`, `Answers.RepliesAreKept`). `Load.RequestsGoUnanswered` gives inputs of
  conforming frames on which that happens; `Pace.AllAnswered` gives a pace at which it never
  does.
- `README.md:138` promises an announcement every five seconds. A tick leads to an announcement
  exactly if, in that cycle, the handler is idle and the transmit ring has a free slot;
  otherwise it is lost (`Ticks.TickIsKept`). `LostTicks.AnnouncementCanBeLost` and
  `LostTicks.AnnouncementCanBeDropped` give an input for either reason.
- A request whose sender calls itself by the broadcast address and by 192.168.1.100 brings an
  announcement of its own: the reply to it has the same bytes (`OnLine.SameAsAnnouncement`).
  `OnLine.AnnouncementsOnLine` therefore counts both, and the inputs above leave the line
  without announcements only while nobody asks in that way.
- The handler has a state `PROTO_PREPARE_TX` that nothing enters. The model keeps it, and
  `Guarantees.SlotOwnership` proves that it is never reached.

## Model

| member | source | states |
|---|---|---|
| Guarantees.EndToEnd | hls_ethernet/src/ethernet_l2_endpoint_hls.cpp:43-52 | for every input there is a sequence of requests such that the frames decoded from the transmit line are exactly the frames of these requests, an unfinished frame is a prefix of the frame of one that may come next, the replies among them go, in order and at most once each, to senders of requests that arrived whole, and the beacons among them are numbered without gaps and consistent |
| Guarantees.FrameAsksExactly | hls_ethernet/src/ethernet_protocol_handler.h:81-111 | a received frame asks for a reply if and only if the error line stayed low from its first cycle to the first after it, it has at most 1518 data bytes, at least 46, and among them: bytes 0 to 5 are 02:00:00:00:00:01 or six 0xFF, bytes 12 to 21 are 08 06 00 01 08 00 06 04 00 01, bytes 22 to 31 the asker, bytes 38 to 41 are 192.168.1.100; for frames of any length, past the wrap of the 16-bit byte index too |
| Guarantees.FrameAdds | hls_ethernet/src/ethernet_protocol_handler.h:81-256 | a frame that asks adds its sender to those who may be answered, any other frame adds nobody |
| Guarantees.Accounting | hls_ethernet/src/ethernet_protocol_handler.h:216-276 | after every run each handled packet was discarded or led to exactly one attempt to reply to its sender, in order; attempts are dropped plus built plus in work; the drop and reply counters are these numbers modulo 2^32; the receive ring has dropped nothing |
| Guarantees.AttemptIsKept | hls_ethernet/src/ethernet_protocol_handler.h:29-36 | an attempt to send is kept if and only if the transmit ring has a free slot in that cycle |
| Answers.ReplyIsKept | hls_ethernet/src/ethernet_protocol_handler.h:216-247 | the reply kept in a cycle is the one that the parse registers call for in that cycle, if the transmit ring has a free slot, and there is none otherwise |
| Answers.RepliesAreKept | hls_ethernet/src/ethernet_protocol_handler.h:216-256 | in every run the replies kept are exactly those called for in cycles with a free transmit slot, in this order |
| Load.Capacity | hls_ethernet/src/ethernet_tx_queue.h:23-46 | no run keeps more attempts than one in 169 cycles, plus five |
| Load.RequestsGoUnanswered | README.md:27 | on a line full of k valid requests, for any k from 1058 on, fewer than k frames are ever sent to their sender, at whatever time one looks, against the documented promise |
| Pace.AllAnswered | README.md:27 | if requests end at least 213 cycles apart, whatever else is on the line, nothing is ever dropped and each has its reply complete on the line 1695 cycles later; for every station, at least as many complete frames are addressed to it then as it sent requests |
| Pace.StepRelaxed | hls_ethernet/src/ethernet_protocol_handler.h:29-36 | the invariant behind it: line time owed stays within what the last request and the last tick may add, so the ring has room whenever something is called for |
| Traffic.DecodeTraffic | hls_ethernet/src/ethernet_mii.h:27-51 | which frames are on a line full of requests at any time |
| Guarantees.AttemptedInTime | hls_ethernet/src/ethernet_protocol_handler.h:80-256 | 212 cycles after its frame every request for this address has led to its attempt |
| Guarantees.SentInTime | hls_ethernet/src/ethernet_tx_queue.h:23-46 | a kept attempt is complete on the transmit line 1483 cycles later: 143 of building and four longest frames |
| Guarantees.Prompt | hls_ethernet/src/ethernet_l2_endpoint_hls.cpp:43-52 | whatever else arrives, 1695 cycles after its frame every request has its reply among the complete frames on the line, in order, if nothing was dropped |
| Guarantees.NoReplyLoop | hls_ethernet/src/ethernet_protocol_handler.h:216-252 | for every input of one endpoint, a second one that hears what the first transmits never attempts a reply |
| Guarantees.HearsOwnKind | hls_ethernet/src/ethernet_protocol_handler.h:87-111 | the same for any line that carries frames of such endpoints only |
| Guarantees.FrameToggle | hls_ethernet/src/ethernet_framer.h:164-169 | whenever the transmit line is quiet, the toggle pin is the parity of the number of complete frames on it |
| Guarantees.SlotOwnership | hls_ethernet/src/ethernet_packet_queue.h:61-98 | in every reachable state both rings are cyclic intervals of valid slots, published is consumed plus occupancy, the slots being received into and built in are free, and the slots being parsed and sent are valid and at the read index |
| Timing.ReceiveRingNeverFull | hls_ethernet/src/ethernet_rx_queue.h:38-44 | for every input the receive ring holds at most six of its eight slots, so no frame is dropped on receive |
| Timing.HandledByDeadline | hls_ethernet/src/ethernet_protocol_handler.h:80-277 | every received packet is handled within 212 cycles of its arrival, whatever arrives after it |
| Timing.SentByDeadline | hls_ethernet/src/ethernet_tx_queue.h:20-46 | a published body is the one on the wire within the time of three longest frames, and has left its slot after its own frame time more |
| Timing.RunOnTime | hls_ethernet/src/ethernet_protocol_handler.h:80-277 | the invariant behind both bounds: work ahead of a packet plus its age stays below the deadline, and arrivals are 37 cycles apart |
| Timing.ArrivalIsBounded | hls_ethernet/src/ethernet_rx.h:161-168 | a new packet keeps the bound, because a packet that costs more was longer on the wire |
| Timing.WorkProgress | hls_ethernet/src/ethernet_protocol_handler.h:80-277 | one cycle of the handler brings every waiting packet one cycle closer and starts a timer job only when nothing waits |
| Gap.GapBetweenFrames | hls_ethernet/src/ethernet_framer.h:177-188 | in every run the line is quiet for at least 25 cycles before a frame starts |
| FrameFormat.FramesInFormat | hls_ethernet/src/ethernet_framer.h:97-156 | every complete frame on the transmit line of every run is, byte by byte, seven 0x55 and a 0xD5 and then either an ARP reply from 02:00:00:00:00:01 at 192.168.1.100 whose Ethernet destination is its ARP target, with 18 zeros of padding, or a beacon to everyone with EtherType 0x88B5 and the text of some counters; and the check sequence of IEEE 802.3 section 3.2.9 for these bytes |
| Endpoint.LineAtRest | hls_ethernet/src/ethernet_framer.h:76-78 | in every run the data pins are zero in every cycle in which transmit enable is low |
| Schedule.QuietSchedule | hls_ethernet/src/ethernet_protocol_handler.h:112-140 | while no packet arrives there is exactly one attempt in 25 million cycles, every fifth an announcement and the others beacons, and none is dropped |
| Schedule.TickIsTaken | hls_ethernet/src/ethernet_protocol_handler.h:80-139 | a tick leads to an attempt if and only if nothing is in work and nothing waits in that very cycle |
| Ticks.TickIsKept | hls_ethernet/src/ethernet_protocol_handler.h:29-36 | the beacon or announcement due in a cycle is made and finds a slot if and only if, in the registers of that cycle, the handler is idle and the transmit ring has a free slot |
| Ticks.TicksAreKept | hls_ethernet/src/ethernet_protocol_handler.h:112-140 | in every run as many beacons, and as many announcements, are kept as ticks met that condition |
| OnLine.ArpOnLine | hls_ethernet/src/ethernet_l2_endpoint_hls.cpp:43-52 | the ARP frames on the transmit line, read by their target fields, are those of the announcements and replies that were due in cycles with a free transmit slot, in this order, each within 1483 cycles and no others |
| OnLine.AnnouncementsOnLine | README.md:137-138 | the announcement is on the transmit line as often as announcement ticks met the condition and senders that call themselves by the broadcast address and this IP were answered, up to those of the last 1483 cycles |
| OnLine.BeaconsOnLine | hls_ethernet/src/ethernet_protocol_handler.h:121-139 | there are as many beacons on the transmit line as beacon ticks met the condition, up to those of the last 1483 cycles |
| OnLine.SameAsAnnouncement | hls_ethernet/src/ethernet_tx_payloads.h:335-354 | exactly two requests have the bytes of the announcement: the announcement itself and the reply to a sender with the broadcast address and this IP |
| OnLine.RepliesAddressed | hls_ethernet/src/ethernet_protocol_handler.h:226 | of the frames of any requests, as many are addressed to a station as there are replies to it, and at least as many if the station is everyone |
| LostTicks.AnnouncementCanBeLost | README.md:137-138 | an input on which the announcement is not on the transmit line in the first ten seconds, however it goes on, unless a sender with the broadcast address and this IP asks for it, against the documented promise: a request ends when the tick comes |
| LostTicks.AnnouncementCanBeDropped | README.md:137-138 | another one, with the same conclusion, on which the handler is idle when the tick comes: four replies to a line full of requests are waiting |
| RoundTrip.RoundTrip | hls_ethernet/src/ethernet_framer.h:49-196 | for any buffer of 1514 bytes and any length from 14 to 1514: what the framer sends, fed to an idle receive path with a free slot, appends exactly one entry with the header and the payload padded with zeros to 46 bytes, and leaves the older entries alone |
| RoundTrip.ParseWire | hls_ethernet/src/ethernet_rx.h:42-178 | preamble, body and check sequence parse to the header and payload of the body, for bodies of 14 to 1514 bytes |
| RoundTrip.OwnFramesAskNothing | hls_ethernet/src/ethernet_tx_payloads.h:276-354 | no frame of this endpoint asks for a reply where it is received |
| RoundTrip.OwnFrame | hls_ethernet/src/ethernet_protocol_handler.h:224-232 | the packet that a frame of this endpoint leaves where it is received: destination the requester for a reply and everyone otherwise, source 02:00:00:00:00:01, EtherType 0x88B5 for beacons and 0x0806 for the others, and the text of its kind |
| RoundTrip.FramerRunSends | hls_ethernet/src/ethernet_framer.h:73-195 | from start to idle the framer takes 49 plus twice the padded length cycles, puts the frame on the line nibble by nibble and flips the toggle |
| RoundTrip.SentFramesCheck | hls_ethernet/src/ethernet_framer.h:130-156 | the four bytes that end every frame sent are the check sequence of IEEE 802.3 section 3.2.9 for its body, and the whole leaves the residue in the register |
| Beacons.RunTold | hls_ethernet/src/ethernet_protocol_handler.h:121-139 | every beacon attempted in any run reports the replies, drops and beacons counted up to then, RX = RXP + ARP modulo 2^32, UDP = 0 and RXQ = 0 |
| Beacons.BeaconTells | hls_ethernet/src/ethernet_protocol_handler.h:121-139 | a beacon attempted in any cycle tells what the receive line has been: RX is the number of packets received on it so far, ARP of those that ask, RXP of the others, TXD of the requests that found no slot, UP of the beacons that did, all modulo 2^32 |
| Beacons.EveryBeaconTells | hls_ethernet/src/ethernet_protocol_handler.h:121-139 | the same of every beacon ever attempted in any run, for the line up to the cycle of its attempt |
| Beacons.KeptNumbered | hls_ethernet/src/ethernet_protocol_handler.h:129-139 | the beacons that are sent carry 0, 1, 2, … as UP, without gaps, whatever was dropped between them |
| Beacons.CounterReadsBack | hls_ethernet/src/ethernet_tx_payloads.h:143-160 | the eight bytes after the label of any counter in a beacon are hexadecimal digits, and reading them gives the counter; the reader takes no other byte |
| Endpoint.RunFollows | hls_ethernet/src/ethernet_l2_endpoint_hls.cpp:31-52 | after every run the registers stand for the reference model, and the transmit line shows the frames of the model |
| Endpoint.StepFollows | hls_ethernet/src/ethernet_l2_endpoint_hls.cpp:43-52 | one cycle of all registers is one step of the reference model, with the same nibble on the line |
| Endpoint.ReceiveFollows | hls_ethernet/src/ethernet_rx_queue.h:10-78 | the receive step appends the packet of a good frame to the pending ones and changes nothing else |
| Endpoint.HandleFollows | hls_ethernet/src/ethernet_protocol_handler.h:80-256 | the handler takes the packet, byte or tick that the model takes, and makes the same request |
| Endpoint.LastByteDecides | hls_ethernet/src/ethernet_protocol_handler.h:216-247 | after the 28th byte the registers hold the verdict and the sender that the one-shot parser finds in the stored payload |
| Endpoint.StartFollows | hls_ethernet/src/ethernet_protocol_handler.h:17-37 | a request is kept or dropped as the model says, and every counter follows |
| Endpoint.BuildStores | hls_ethernet/src/ethernet_protocol_handler.h:258-276 | each cycle adds one right byte to the body in the free slot and leaves the published entries alone |
| Endpoint.BuildLast | hls_ethernet/src/ethernet_protocol_handler.h:266-273 | the published slot holds exactly the header and payload of its request |
| Endpoint.TransmitFollows | hls_ethernet/src/ethernet_tx_queue.h:10-47 | the transmit step shows the nibble of the oldest body at its age and frees its slot at the end of the gap |
| EndToEnd.RunOnWire | hls_ethernet/src/ethernet_tx_queue.h:10-47 | the line shows the complete frames of the bodies sent, in order, and the beginning of the current one |
| EndToEnd.RunAccounted | hls_ethernet/src/ethernet_protocol_handler.h:80-277 | kept requests are those built and the one in work; attempted replies are the askers among the packets handled |
| EndToEnd.KeptTargets | hls_ethernet/src/ethernet_protocol_handler.h:29-36 | the replies that were kept are a subsequence of those called for |
| PacketQueue.PublishAppends | hls_ethernet/src/ethernet_packet_queue.h:61-74 | publishing into a ring that is not full appends one entry, and never counts a drop |
| PacketQueue.ConsumeRemovesFirst | hls_ethernet/src/ethernet_packet_queue.h:91-98 | consuming removes the oldest entry and keeps the others |
| PacketQueue.FullRingHasNoSlot | hls_ethernet/src/ethernet_packet_queue.h:53-89 | a write slot is free exactly if the ring is not full, the read slot is valid exactly if it is not empty |
| PacketQueue.StoreKeepsContents | hls_ethernet/src/ethernet_rx_queue.h:55-63 | writing the reserved slot changes no entry |
| PacketQueue.DropKeepsContents | hls_ethernet/src/ethernet_packet_queue.h:100-105 | counting a drop changes no entry |
| Mii.AssemblerDecodes | hls_ethernet/src/ethernet_mii.h:10-52 | the assembler reports starts, bytes and ends of exactly the frames on the line, low nibble first, without an odd last nibble |
| Mii.FrameDecodes | hls_ethernet/src/ethernet_mii.h:27-51 | the reference reading: cycles with data valid and one without are one frame, with their nibbles, in error if the error line was high in any of these cycles |
| FrameParser.CaptureFollows | hls_ethernet/src/ethernet_rx.h:10-36 | the delay line holds the last four bytes and the buffer those before them, up to 1500 |
| FrameParser.AcceptFollows | hls_ethernet/src/ethernet_rx.h:84-159 | one byte more keeps the relation between the registers and the function of the whole frame, in which 0x55 is preamble and 0xD5 the start delimiter |
| FrameParser.PreambleInNumbers | hls_ethernet/src/ethernet_rx.h:84-102 | any number of bytes 0x55 and a 0xD5 after at least one of them are not data; without the 0xD5 the data is everything after the preamble exactly if it begins with neither |
| FrameParser.StandardFrame | hls_ethernet/src/ethernet_rx.h:84-102 | a frame of seven bytes 0x55 and one 0xD5 before data d, low nibbles first, leaves what d leaves |
| FrameParser.EndFollows | hls_ethernet/src/ethernet_rx.h:161-168 | at the end of a frame the description and the buffer are the packet of the whole frame |
| FrameParser.KeptFrames | hls_ethernet/src/ethernet_rx.h:161-168 | exactly the frames without error with 18 to 1518 data bytes leave an untruncated packet, which is the header and the payload without the check sequence |
| FrameParser.OversizedIsTruncated | hls_ethernet/src/ethernet_rx.h:30-35 | any longer frame that leaves a packet leaves a truncated one, however long it is |
| RxQueue.ActiveCycle | hls_ethernet/src/ethernet_rx_queue.h:38-64 | a cycle inside a frame writes at most into the reserved slot, and drops the frame only if the ring was full when it started |
| RxQueue.EndCycle | hls_ethernet/src/ethernet_rx_queue.h:66-77 | the end of a frame publishes its packet if it has one and a slot was reserved |
| Framer.SendingStep | hls_ethernet/src/ethernet_framer.h:73-195 | at any age within a frame the framer puts the right nibble on the line, that of seven bytes 0x55, one 0xD5, the body padded with zeros to 60 bytes and the check sequence, and 24 quiet cycles after them; stale bytes of the buffer do not matter |
| Framer.StartSends | hls_ethernet/src/ethernet_framer.h:74-95 | an idle framer starts a frame with one quiet cycle |
| TxQueue.TxStepSends | hls_ethernet/src/ethernet_tx_queue.h:10-47 | the oldest entry stays in its slot, valid, until the gap after it is over |
| Crc32.Crc32NextByte | hls_ethernet/src/ethernet_framer.h:19-31 | the eight-step loop is the bit-serial register |
| Crc32Division.FcsIsIeeeCheckSequence | hls_ethernet/src/ethernet_framer.h:130-136 | for every body of four bytes or more the complemented register is the remainder that IEEE 802.3 section 3.2.9 defines by long division over GF(2) |
| Crc32Division.RegisterDivides | hls_ethernet/src/ethernet_framer.h:19-31 | the register is the remainder of the division after any number of bits |
| Crc32Algebra.FrameResidue | hls_ethernet/src/ethernet_framer.h:144-156 | a body followed by its check sequence leaves 0xDEBB20E3 in the register |
| Crc32Algebra.BurstDetected | hls_ethernet/src/ethernet_framer.h:19-31 | two bodies that differ only within four consecutive bytes never have the same check sequence |
| Crc32Algebra.CrcLinear | hls_ethernet/src/ethernet_framer.h:19-31 | the register is linear over GF(2) in its start value and the data |
| Crc32Algebra.CrcInjective | hls_ethernet/src/ethernet_framer.h:19-31 | for fixed data the register is a bijection of its start value |
| Arp.SerialEqualsOneShot | hls_ethernet/src/arp.h:24-55 | 28 bytes shifted in one at a time give the fields and the verdict of the one-shot parser |
| Arp.RegsDependOnPrefix | hls_ethernet/src/ethernet_protocol_handler.h:141-214 | what is read does not depend on anything past the bytes read |
| Arp.ReplyIsArpPacket | hls_ethernet/src/arp.h:57-120 | the reply bytes are 0 1 8 0 6 4 0 2, 02:00:00:00:00:01, 192.168.1.100 and the requester's addresses (RFC 826) |
| Arp.RequestIsRecognised | hls_ethernet/src/arp.h:24-55 | an ARP packet is recognised exactly if its opcode is 1 and its target is 192.168.1.100, whatever padding follows, and its sender is read |
| TxPayloads.BeaconByteIsText | hls_ethernet/src/ethernet_tx_payloads.h:143-257 | the printer by position prints the text of the beacon: `ARTY IP=192.168.001.100 MAC=020000000001` and seven labelled counters |
| TxPayloads.Hex32IsHex | hls_ethernet/src/ethernet_tx_payloads.h:41-61 | the digits are those of the value, most significant first, each the character of `0123456789ABCDEF` at its nibble |
| TxPayloads.FrameBodyByteIsBody | hls_ethernet/src/ethernet_tx_payloads.h:296-312 | byte by byte the builder writes the Ethernet header and payload of the request's kind, in numbers: a reply is addressed to its requester, everything else to everyone |
| Timers.TimersKeepTime | hls_ethernet/src/ethernet_periodic_timers.h:24-36 | after n cycles the counters are n modulo their intervals, and a tick comes in the last cycle of each |
| Timers.TimersInPhase | hls_ethernet/src/ethernet_periodic_timers.h:24-36 | one counter is the other modulo its interval, so every announcement tick is a beacon tick |
| TopLevel.EthernetEndpoint.Cycle | hls_ethernet/src/ethernet_l2_endpoint_hls.cpp:11-53 | one clock cycle of the object extends its recorded input and output, and its registers stay those of the run on that input |
| TopLevel.EthernetEndpoint.Step | hls_ethernet/src/ethernet_l2_endpoint_hls.cpp:43-52 | the three steps in place, in order, change all registers as the function on values does |
| TopLevel.EthernetEndpoint.PowerOn | hls_ethernet/src/ethernet_l2_endpoint_hls.cpp:31-37 | a new object has the registers of the reset state and shares nothing |
| TopLevel.EthernetEndpoint.InEveryState | hls_ethernet/src/ethernet_l2_endpoint_hls.cpp:43-52 | in every state of the object the end-to-end property holds of its recorded lines, every frame sent is in format, nothing was lost on receive and every slot has one owner |
| PacketSlots.PacketSlotQueue.PublishWriteSlot | hls_ethernet/src/ethernet_packet_queue.h:61-74 | in place: the whole ring becomes the ring with one more entry, or one more drop |
| PacketSlots.PacketSlotQueue.ConsumeReadSlot | hls_ethernet/src/ethernet_packet_queue.h:91-98 | in place: the whole ring becomes the ring without its oldest entry |
| PacketSlots.PacketSlotQueue.DropWrite | hls_ethernet/src/ethernet_packet_queue.h:100-105 | in place: the ring becomes the same ring with one more drop |
| PacketSlots.PacketSlotQueue.WriteSlotAvailable | hls_ethernet/src/ethernet_packet_queue.h:53-59 | whether the slot at the write index is free |
| PacketSlots.PacketSlotQueue.ReadSlotValid | hls_ethernet/src/ethernet_packet_queue.h:83-89 | whether the slot at the read index is valid |
| PacketSlots.PacketSlotQueue.BufferWritten | hls_ethernet/src/ethernet_rx_queue.h:55-63 | writing through the reference to one slot changes that slot of the ring and no other |
| RxPath.ByteAssembler.Step | hls_ethernet/src/ethernet_mii.h:10-52 | in place: registers and outputs are those of the function on values |
| RxPath.StreamParser.CapturePayloadByte | hls_ethernet/src/ethernet_rx.h:10-36 | in place: shifts the delay line and writes the payload buffer as the function on values |
| RxPath.StreamParser.AcceptDataByte | hls_ethernet/src/ethernet_rx.h:84-159 | in place: preamble search, header and payload bytes |
| RxPath.StreamParser.Step | hls_ethernet/src/ethernet_rx.h:42-178 | in place: registers, buffer and description of the frame |
| RxPath.RxReceiver.Parse | hls_ethernet/src/ethernet_rx_queue.h:46-64 | the parser writes into the reserved slot, or into the buffer of dropped frames, and nowhere else |
| RxPath.RxReceiver.Step | hls_ethernet/src/ethernet_rx_queue.h:10-78 | in place: receiver and ring |
| TxPath.TxFramer.EmitByte | hls_ethernet/src/ethernet_mii.h:56-67 | one nibble of a byte, low nibble first, done with the second |
| TxPath.TxFramer.DataStep | hls_ethernet/src/ethernet_framer.h:119-142 | in place: a body or padding byte goes out and into the register |
| TxPath.TxFramer.Step | hls_ethernet/src/ethernet_framer.h:49-196 | in place: the five states of the framer |
| TxPath.TxSender.Step | hls_ethernet/src/ethernet_tx_queue.h:10-47 | in place: framer and transmit ring |
| ProtocolPath.PeriodicTimers.Step | hls_ethernet/src/ethernet_periodic_timers.h:24-36 | in place: both counters and ticks |
| ProtocolPath.ArpRegisters.Shift | hls_ethernet/src/ethernet_protocol_handler.h:145-214 | in place: the byte goes into its register |
| ProtocolPath.ProtocolHandler.InspectPacket | hls_ethernet/src/ethernet_protocol_handler.h:85-111 | in place: a candidate is parsed, anything else counted and dropped |
| ProtocolPath.ProtocolHandler.ParseArpByte | hls_ethernet/src/ethernet_protocol_handler.h:141-256 | in place: one byte, and after the last the verdict and the reply to the sender that was read |
| ProtocolPath.ProtocolHandler.TakePacketOrTick | hls_ethernet/src/ethernet_protocol_handler.h:80-256 | in place: packets first, then announcements, then beacons |
| ProtocolPath.ProtocolHandler.StartTx | hls_ethernet/src/ethernet_protocol_handler.h:17-37 | in place: a request is taken into work or counted as dropped |
| ProtocolPath.ProtocolHandler.PrepareByte | hls_ethernet/src/ethernet_tx_payloads.h:296-312 | in place: one byte of the body goes into the slot and nothing else changes |
| ProtocolPath.ProtocolHandler.BuildBody | hls_ethernet/src/ethernet_protocol_handler.h:258-276 | in place: a byte, and the publication after the last |
| ProtocolPath.ProtocolHandler.Step | hls_ethernet/src/ethernet_protocol_handler.h:41-277 | in place: handler and both rings |

## Left out

- `parse_ipv4_view`, `ipv4_is_unfragmented` and `parse_udp_view` (`hls_ethernet/src/packet_views.h`): nothing in the endpoint calls them; they are single-branch bounds checks.
- `ethernet_status_hls`, `mii_rx_monitor.v`, `status_led.v`: LED counters.
- `hls_top.v`: PLL, clock buffers, reset and synchronisers are vendor primitives; the endpoint is one synchronous step for each receive clock edge after reset.
- Synthesis pragmas: the model has the semantics of the C++ code.
- Checking the CRC of received frames: the source does not do it (`hls_ethernet/src/ethernet_rx.h:41`), and no result here assumes a correct check sequence on a received frame.
- The C++ test bench, the Python tests, build scripts and constraints.
- A bound on replies alone under arbitrary load: replies can be called for faster than they can be sent, so drops are accounted for (`Guarantees.Accounting`), bounded (`Load.Capacity`) and excluded at a given pace (`Pace.AllAnswered`) instead.
- The five states of the framer and the parts of a handler cycle are separate methods of the classes; the source has them in one function body each.
