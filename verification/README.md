# Packet sniffers: ring, dissection and dump

The repository holds two packet sniffers in C. One reads frames from a ring of slots shared with the
kernel, counts them by protocol and writes TCP packets to a log as a hex dump (`sniff_afpacket`). The
other gets frames from a capture library and dissects Ethernet, IPv4, UDP, TCP and DNS (`sniff`). This
project models both and proves what they compute.

| file | what it models |
|---|---|
| `Wire.dfy` | bytes, and the two- and four-byte big-endian reads |
| `Ring.dfy` | the ring as a transition system: one step per kernel action and per point of the reader's loop |
| `RingInvariant.dfy` | slot ownership, indexed by the reader's position, kept by every step |
| `RingFifo.dfy` | the ring over whole runs: an unbounded FIFO queue, conservation, ownership |
| `RingDrain.dfy` | emptying the ring, by either loop and under every schedule |
| `RingPolling.dfy` | the polling loop's "no more packets" exit |
| `RingDelivery.dfy` | no accepted packet can get stuck |
| `CaptureLog.dfy` | what processing adds to the counters and to the log, told of encoded frames |
| `Capture.dfy` | the two loops as written, over an array of slots, refined to `Ring.dfy` |
| `Names.dfy` | domain names as labels, on the wire and as dotted text |
| `QueryName.dfy` | the label loop with its growing buffer |
| `Dns.dfy` | DNS header and question |
| `Tcp.dfy` | the TCP header |
| `Frame.dfy` | UDP header, layered dissection, the DNS frame round trip |
| `HexDump.dfy` | the hex dump |
| `TcpFrame.dfy` | header totals of both sniffers, the TCP frame round trip, payload printing |

## How the ring is modelled

A slot holds the TP_STATUS_USER bit, the bytes written so far and `tp_len`. The reader's position is
one of: loop head, poll, check, process, count, release, cursor advance. An action that is not enabled
changes nothing, so every sequence of actions is a schedule and the theorems quantify over all of them.
The ring size is any positive number; NUM_FRAMES is 64.

The kernel is the environment. The comments at lines 494-496 say that a slot that is not ready may be
empty or still being filled. The assumptions about the kernel are these, and they are the enabling
conditions of `Ring.KernelStep`:

- It reserves slots in cyclic order, and only a slot it owns that is not already reserved. Otherwise it
  drops the packet.
- It writes a reserved slot in any number of pieces and publishes it only when bytes and length are
  complete. Slots may be published in any order.
- It does not touch a published slot.
- A packet offers at least 24 readable bytes from `tp_mac` on, which is what ProcessPacket reads. For a
  shorter frame these include whatever follows it in the slot.

Reading a slot that does not hold 24 bytes is the position `Fault`; it is proved unreachable.

`RingPolling` adds two conditions where it needs them: the kernel publishes its oldest reserved slot
first, and `poll` is positive only when the slot reserved last has been published.

## Findings

- The polling loop tests `fds.events` where the returned events were meant (line 609), so its first
  branch is dead (`HangupBranchIsDead`), and an error event on an empty ring ends the loop
  (`ErrorEventReachesExit`).
- The polling loop can leave by its "no more packets" exit with accepted packets unread
  (`OvertakingReachesExit`). After any positive poll and any kernel activity up to the slot test, it exits
  exactly if everything accepted has been processed or the oldest unread packet is not published, and it
  leaves packets unread exactly in the second case (`ExitExactlyWhenNothingToTake`; over whole runs,
  for every way of leaving, `RunLeavesExactlyWhenSomeStepDoes`). At the poll itself, the exit is ruled out whatever the kernel does
  next exactly if the oldest unread packet is published by then (`NoExitFromPollExactlyWhenReady`).
- `strlen(name) + 2` is the wire length exactly for names with a label, without zero bytes and below
  65536 wire bytes (`NameLenMatchesWire`). The root name is misread (`RootNameMisread`).
- The text of a name can be encoded again exactly when the name has a label and no label holds a dot
  (`TextReencodes`); the label "." splits into two empty ones (`DottedLabelIsMissplit`).
- The dump's text column shows bytes 32 to 128 inclusive (`ByteIsShown`), where the comment at line 372 speaks of numbers
  and letters; the cell at line 380 is printed for every byte, whatever its indentation suggests.
- The payload pointer at `sniff/src/sniff.c:160` adds the payload length where the comment at lines
  199-201 calls for the header total. For every TCP frame with legal header lengths the bytes printed were
  captured exactly when the payload is no longer than the headers (`PrintStaysInsideExactly`), and with given headers every
  payload of a length is printed exactly when that length is zero or the length of the headers
  (`PrintsEveryPayloadExactly`). A one-byte payload that is misprinted: `OneBytePayloadMisprinted`.

## Model

| member | source | states |
|---|---|---|
| RingInvariant.InitInv | sniff_afpacket/src/source-af-packet.c:483-487 | the fresh ring, with cursor and counters at zero, satisfies the ownership invariant |
| RingInvariant.KernelKeepsInv | sniff_afpacket/src/source-af-packet.c:494-497 | every kernel action, at every point of the reader's loop, keeps the ownership invariant |
| RingInvariant.ProcessKeepsInv | sniff_afpacket/src/source-af-packet.c:502-504 | the packet processed is the oldest accepted one that was not processed, complete |
| RingInvariant.ReaderKeepsInv | sniff_afpacket/src/source-af-packet.c:489-513 | every step of either loop keeps the ownership invariant |
| RingInvariant.ExecKeepsInv | sniff_afpacket/src/source-af-packet.c:489-513 | every interleaving keeps the ownership invariant |
| RingFifo.StepRefinesFifo | sniff_afpacket/src/source-af-packet.c:489-513 | each step of the ring is one enqueue, one dequeue or nothing on an unbounded queue |
| RingFifo.RunRefinesFifo | sniff_afpacket/src/source-af-packet.c:604-643 | every run of either loop is a run of the same unbounded FIFO queue, in which no dequeue finds the queue empty |
| RingFifo.ProcessedIsPrefixOfAccepted | sniff_afpacket/src/source-af-packet.c:489-513 | for all ring sizes, loops and schedules the processed packets are a prefix of the accepted ones; at most N are unread; no half-written slot is read |
| RingFifo.CountersAtLoopHead | sniff_afpacket/src/source-af-packet.c:149-181 | at each loop head every processed packet has been counted once, by its byte 23: icmp for 1, igmp for 2, tcp for 6, udp for 17, else others; total and packets_processed are their number, bytes_processed is the sum of lengths, the cursor is packets_processed mod N |
| RingFifo.CountIsPlaces | sniff_afpacket/src/source-af-packet.c:154-176 | the count of a protocol is the number of places whose packet has that byte 23 |
| RingFifo.SumLengthsConcat | sniff_afpacket/src/source-af-packet.c:507 | lengths add up, one packet counting its own |
| RingFifo.TakenSlotsAreCyclicInterval | sniff_afpacket/src/source-af-packet.c:491-511 | at the loop head the slots the kernel may not reserve are exactly the cyclic interval from the cursor to the kernel's head |
| RingFifo.KernelLeavesClaimedSlot | sniff_afpacket/src/source-af-packet.c:497-510 | between the ready check and the release no kernel activity changes the slot |
| RingFifo.ReadinessIsStable | sniff_afpacket/src/source-af-packet.c:497 | a slot found ready stays ready until the reader releases it |
| RingFifo.RefillBeforeAdvance | sniff_afpacket/src/source-af-packet.c:510-511 | between release and cursor advance the kernel can refill the very slot the cursor still points at, and the invariant holds |
| RingFifo.DropsOnlyWhenFull | sniff_afpacket/src/source-af-packet.c:509-511 | a packet is dropped exactly when all N slots hold packets not yet handed back, and accepted otherwise |
| RingFifo.ArrivalsAreAcceptedOrDropped | sniff_afpacket/src/source-af-packet.c:489-513 | every arrival is accepted or dropped, once, and histories only grow |
| RingDrain.BodyTakesOne | sniff_afpacket/src/source-af-packet.c:502-511 | from a check that succeeds the loop body takes the oldest unread packet and returns to the loop head |
| RingDrain.DrainTakes | sniff_afpacket/src/source-af-packet.c:489-513 | with everything published, k iterations take exactly the k oldest packets |
| RingDrain.DrainEmptiesRing | sniff_afpacket/src/source-af-packet.c:497-511 | accepted minus processed iterations empty the ring, leave every slot to the kernel and process everything accepted |
| RingDrain.ReaderStepDrains | sniff_afpacket/src/source-af-packet.c:489-513 | with everything published, every reader step, from any position, brings the end of the drain one step nearer |
| RingDrain.EveryScheduleDrains | sniff_afpacket/src/source-af-packet.c:489-513 | with everything published and no arrivals, under every schedule and from any position of either loop, everything accepted has been processed exactly when the reader has had the computed number of steps |
| RingDelivery.KernelCanPublishAll | sniff_afpacket/src/source-af-packet.c:494-496 | the kernel can finish every slot still being filled, oldest first, without arrivals |
| RingDelivery.EveryAcceptedPacketCanBeProcessed | sniff_afpacket/src/source-af-packet.c:604-643 | from every state in which the reader has not left there is a continuation without arrivals that processes every accepted packet; for the polling loop it publishes in order and polls honestly |
| RingPolling.ExitExactlyWhenNothingToTake | sniff_afpacket/src/source-af-packet.c:607-623 | after any positive poll and any kernel activity the loop exits with "no more packets" exactly if everything accepted is processed or the oldest unread packet is unpublished, and leaves packets unread exactly in the second case |
| RingPolling.NoExitFromPollExactlyWhenReady | sniff_afpacket/src/source-af-packet.c:607-623 | from a positive poll the exit is excluded for all kernel activity exactly if the oldest unread packet is published at the poll |
| RingPolling.RunLeavesExactlyWhenSomeStepDoes | sniff_afpacket/src/source-af-packet.c:604-643 | a run of either loop has left for a reason exactly if some step gave it: `running` cleared at the head, a negative poll, or a slot test of the polling loop with nothing to take; a timeout gives none |
| RingPolling.InOrderPollFindsPacket | sniff_afpacket/src/source-af-packet.c:616-625 | with publication in order up to an honest positive poll the slot test succeeds, whatever the kernel does in between |
| RingPolling.HonestScheduleKeepsPollInv | sniff_afpacket/src/source-af-packet.c:604-643 | with in-order publication and honest polling every check finds its slot ready |
| RingPolling.NoMorePacketsExitUnreachable | sniff_afpacket/src/source-af-packet.c:620-623 | with in-order publication and honest polling the "no more packets" exit is never taken |
| RingPolling.OvertakingReachesExit | sniff_afpacket/src/source-af-packet.c:620-623 | a schedule with 64 slots in which the second packet is published first ends the loop with both packets unread |
| RingPolling.ErrorEventReachesExit | sniff_afpacket/src/source-af-packet.c:607-623 | a positive poll without a readable packet ends the loop on an empty ring |
| Capture.RunTurnsIsExec | sniff_afpacket/src/source-af-packet.c:489-513 | the runs of the loops are schedules of the transition system |
| Capture.LoopsRefineFifo | sniff_afpacket/src/source-af-packet.c:604-643 | a run of either loop, from any state that satisfies the invariant, is a run of the same unbounded FIFO queue |
| CaptureLog.ProtocolOfFrame | sniff_afpacket/src/source-af-packet.c:151-154 | the byte that classifies a packet is the protocol byte of its IPv4 header |
| CaptureLog.FrameRaisesOneCounter | sniff_afpacket/src/source-af-packet.c:149-181 | processing a frame raises the total and exactly the counter its protocol calls for |
| CaptureLog.TcpFrameLogsPayload | sniff_afpacket/src/source-af-packet.c:165-168 | a TCP frame, whatever follows it in its slot, logs the dump of its payload |
| CaptureLog.PayloadReadsBack | sniff_afpacket/src/source-af-packet.c:226-275 | what a packet logs reads back as its TCP payload; another protocol logs nothing |
| CaptureLog.LogReadsBack | sniff_afpacket/src/source-af-packet.c:226-275 | the log of any packets reads back as the payloads of the TCP frames among them, in order |
| CaptureLog.LogOfPrefixTells | sniff_afpacket/src/source-af-packet.c:489-513 | the log of a run reads back as the payloads of the TCP frames processed so far |
| CaptureLog.LogIsPrefix | sniff_afpacket/src/source-af-packet.c:165-168 | the log of a prefix of the packets is a prefix of the log of all of them |
| Capture.Capture.ProcessPacket | sniff_afpacket/src/source-af-packet.c:149-181 | raises the total and the one counter that byte 23 calls for, and logs the payload dump of a TCP packet |
| Capture.Capture.TestRunning | sniff_afpacket/src/source-af-packet.c:489 | the loop condition, after any kernel activity, is the reader's step at the loop head |
| Capture.Capture.Poll | sniff_afpacket/src/source-af-packet.c:607 | the poll, after any kernel activity, is the reader's step at the poll |
| Capture.Capture.TestSlot | sniff_afpacket/src/source-af-packet.c:492-500 | the flag test, after any kernel activity, is the reader's step at the check |
| Capture.Capture.ProcessSlot | sniff_afpacket/src/source-af-packet.c:502-504 | processing the slot under the cursor is the reader's process step |
| Capture.Capture.CountSlot | sniff_afpacket/src/source-af-packet.c:506-507 | updating the two statistics is the reader's count step |
| Capture.Capture.ReleaseSlot | sniff_afpacket/src/source-af-packet.c:509-510 | clearing the flag is the reader's release step |
| Capture.Capture.AdvanceCursor | sniff_afpacket/src/source-af-packet.c:511 | moving the wrapping cursor is the reader's advance step |
| Capture.Capture.TakeFrame | sniff_afpacket/src/source-af-packet.c:625-634 | the body after a successful check takes four turns and ends at the loop head, with the invariant kept |
| Capture.Capture.BusyWaitLoop | sniff_afpacket/src/source-af-packet.c:483-513 | the loop's final state is that of the transition system after the turns taken; it ends at its head or interrupted; the counters agree; every processed packet is counted by its byte 23; the processed packets are a prefix of the accepted ones; the log reads back as their TCP payloads in order |
| Capture.Capture.PollingLoop | sniff_afpacket/src/source-af-packet.c:594-643 | the same for the polling loop, with its exits |
| Wire.Conv4BytesToInt | sniff/src/utils.c:18-27 | the step-by-step read is the big-endian value of the four bytes |
| Wire.BigEndian16 | sniff/src/utils.c:13-16 | the first byte counts 256 |
| Wire.BigEndian32 | sniff/src/utils.c:18-27 | the bytes count 2^24, 2^16, 2^8 and 1 |
| Wire.ReadOfPutU16 | sniff/src/utils.c:13-16 | reading a 16-bit value in network order gives the value |
| Wire.PutOfReadU16 | sniff/src/utils.c:13-16 | the two bytes read are the value's network form |
| Names.EncodeOfLabels | sniff/src/dns.c:138-163 | what the label loop consumes is the RFC 1035 encoding of the labels it finds, each of 1 to 255 bytes |
| Names.LabelsOfEncode | sniff/src/dns.c:138-163 | reading the encoding of any labels, wherever it stands, gives them back and stops right after the root octet |
| Names.NameAloneSuffices | sniff/src/dns.c:138-163 | no byte after the root octet matters |
| Names.JoinOfSplit | sniff/src/dns.c:155-162 | every dotted text is the join of its parts |
| Names.SplitOfJoin | sniff/src/dns.c:155-162 | the labels can be recovered from the text exactly when there is one and none holds a dot |
| Names.TextReencodes | sniff/src/dns.c:132-172 | encoding the split text gives the wire bytes exactly when there is a label and none holds a dot |
| Names.DottedLabelIsMissplit | sniff/src/dns.c:155-162 | the name with the one label "." is read as a text that splits into two empty labels |
| Names.WireIsTextPlusTwo | sniff/src/dns.c:187-189 | a name with labels takes two bytes more on the wire than as text, the root name one |
| Names.TextByPlace | sniff/src/dns.c:138-163 | the text is the name without its first and root octets, with a period (46) for each further length octet and every label byte in its place |
| Names.GithubCom | sniff/src/dns.c:188-189 | the bytes 6github3com0 are read as github.com |
| QueryName.GrowthDoubles | sniff/src/dns.c:142-149 | doubling a full buffer keeps the capacity a power of two below twice the length, and the requested sizes at twice the capacity less one |
| QueryName.Append | sniff/src/dns.c:142-151 | stores one byte within capacity, growing first when full |
| QueryName.AppendLabel | sniff/src/dns.c:139-152 | stores exactly the bytes of the label |
| QueryName.AppendPart | sniff/src/dns.c:138-163 | stores one label, and the byte 46 exactly when another label follows |
| QueryName.ExtractQueryName | sniff/src/dns.c:132-172 | on any terminated name: the text by its place on the wire, periods for the inner length octets, then a zero byte; consumption up to the root octet; capacity a power of two at most 2 len - 1; requested sizes linear in the length |
| Dns.HeaderOfEncode | sniff/src/dns.c:88-109 | an encoded RFC 1035 header is read back field by field |
| Dns.EncodeOfHeader | sniff/src/dns.c:8-74 | the thirteen fields have their widths and determine all twelve bytes |
| Dns.HeaderLayout | sniff/src/dns.c:8-74 | each field is at its place and bits of the twelve bytes, in numbers |
| Dns.DnsHeader.Extract | sniff/src/dns.c:88-109 | the filled structure holds the header's fields |
| Dns.StrlenOf | sniff/src/dns.c:187 | the first zero byte of the terminated name |
| Dns.NameLenMatchesWire | sniff/src/dns.c:186-189 | `strlen + 2`, in 16 bits, is the number of wire bytes exactly for nonempty names whose labels have no zero byte, below 65536 wire bytes |
| Dns.RootNameMisread | sniff/src/dns.c:186-192 | for the root name QTYPE is read one byte late |
| Dns.QuestionOfEncode | sniff/src/dns.c:182-197 | name, QTYPE and QCLASS of an encoded question are recovered, whatever surrounds it |
| Dns.QuestionLayout | sniff/src/dns.c:182-217 | for such names QTYPE is the two bytes after the root octet and QCLASS the next two |
| Dns.DnsQuestion.Extract | sniff/src/dns.c:182-217 | the filled structure holds the name, terminated, its length, QTYPE and QCLASS |
| Tcp.FieldsOfEncode | sniff/src/tcp.c:120-147 | an encoded RFC 793 header is read back field by field |
| Tcp.EncodeOfFields | sniff/src/tcp.c:5-92 | the fields have their widths and determine all twenty fixed bytes |
| Tcp.TcpLayout | sniff/src/tcp.c:5-92 | each field and flag is at its place and bits of the twenty bytes, in numbers |
| Tcp.TcpHeader.Extract | sniff/src/tcp.c:120-147 | the filled structure holds the header's fields |
| Frame.UdpOfEncode | sniff/src/udp.c:15-25 | an encoded UDP header is read back field by field |
| Frame.EncodeOfUdp | sniff/src/udp.c:15-25 | the four fields determine all eight bytes |
| Frame.UdpLayout | sniff/src/udp.c:15-25 | the four fields are the four big-endian byte pairs in order |
| Frame.UdpHeader.Extract | sniff/src/udp.c:15-25 | the filled structure holds the header's fields |
| Frame.ProcessUdpPacket | sniff/src/sniff.c:94-126 | the structures filled are those of the dissection; DNS is parsed exactly for destination port 53 |
| Frame.ProcessTcpPacket | sniff/src/sniff.c:128-159 | header fields, header total and payload length are those of the dissection |
| Frame.WhatDecides | sniff/src/sniff.c:121-247 | byte 23 decides: 6 is TCP, 17 is UDP, and UDP is a DNS query exactly for destination port 53 |
| Frame.TransportOffset | sniff/src/sniff.c:208-230 | the transport header starts 40 bytes after byte 14 for ether type 0x86DD, and four times the low nibble of byte 14 after it for 0x0800 |
| Frame.Callback | sniff/src/sniff.c:169-248 | for every readable packet the structures filled are those of the dissection: TCP exactly for protocol 6, UDP exactly for 17, DNS exactly for UDP to port 53 |
| Frame.IpPartOfEncode | sniff/src/sniff.c:203-240 | ether type, protocol byte and transport offset of an encoded Ethernet II and IPv4 front, for any legal header length |
| Frame.EncodeOfIpPart | sniff/src/sniff.c:203-240 | every packet with ether type 0x0800, version 4 and a legal header length begins with an encoded front |
| Frame.DnsFrameRoundTrip | sniff/src/sniff.c:94-248 | dissecting an encoded DNS query frame to port 53 recovers every header field, the name, QTYPE and QCLASS, whatever follows |
| Frame.OtherUdpFrameRoundTrip | sniff/src/sniff.c:110-126 | an encoded UDP frame to any other port gives its four fields and no DNS |
| Frame.OtherFrameIgnored | sniff/src/sniff.c:239-247 | an encoded frame of any other protocol fills nothing |
| TcpFrame.SameHeaderTotal | sniff_afpacket/src/source-af-packet.c:230-235 | both sniffers compute the same header total, 14 + 4 ihl + 4 doff |
| TcpFrame.FrameFromParts | sniff/src/sniff.c:137-158 | the front, the re-encoded TCP fields, the options and the payload concatenate to the frame |
| TcpFrame.TcpFrameRoundTrip | sniff/src/sniff.c:128-159 | dissecting an encoded TCP frame recovers every field, and the payload starts right after the headers |
| TcpFrame.PrintPayload | sniff_afpacket/src/source-af-packet.c:226-270 | the dump of the bytes between the headers and `Size`, nothing when the headers exceed it |
| TcpFrame.PayloadFromDump | sniff_afpacket/src/source-af-packet.c:269-270 | the payload of an encoded frame can be read back from its dump |
| TcpFrame.PrintTcpPayload | sniff/src/sniff.c:59-69 | the loop writes the bytes the coded pointer leads to, and runs outside the capture exactly when twice the payload length exceeds it |
| TcpFrame.PrintStaysInsideExactly | sniff/src/sniff.c:155-163 | a TCP frame prints only captured bytes exactly when its payload is no longer than its headers |
| TcpFrame.PrintsItsPayloadExactly | sniff/src/sniff.c:155-163 | a TCP frame prints its payload exactly when the payload is no longer than the headers and equals the bytes from its own length to twice that |
| TcpFrame.PrintsEveryPayloadExactly | sniff/src/sniff.c:155-163 | with given headers, every payload of a length is printed exactly when that length is zero or the length of the headers |
| TcpFrame.OneBytePayloadMisprinted | sniff/src/sniff.c:160 | a frame with 54 bytes of headers and one byte of payload prints an address byte |
| HexDump.PrintText | sniff_afpacket/src/source-af-packet.c:369-375 | bytes 32 to 128 as they are, periods for the rest |
| HexDump.PrintPadding | sniff_afpacket/src/source-af-packet.c:384-387 | three blanks for each missing cell |
| HexDump.FlushLine | sniff_afpacket/src/source-af-packet.c:366-377 | the late flush completes the dump of all bytes before the index |
| HexDump.PrintCell | sniff_afpacket/src/source-af-packet.c:379-380 | adds one cell, after the margin when the line is new |
| HexDump.FinishLine | sniff_afpacket/src/source-af-packet.c:382-404 | the special last line completes the dump |
| HexDump.DumpLine | sniff_afpacket/src/source-af-packet.c:366-404 | line m of a dump starts at 77 m and shows bytes 16 m to 16 m + 15 |
| HexDump.DumpIsLaidOut | sniff_afpacket/src/source-af-packet.c:361-406 | every column of every line: margin, a blank and two upper-case hex digits per byte, blanks, the text column from 60 on, newline; and nothing else |
| HexDump.ByteIsShown | sniff_afpacket/src/source-af-packet.c:371-380 | byte i shows in line i / 16, column i % 16, as its two hex digits and as itself from 32 to 128, else as a period (46) |
| HexDump.PrintData | sniff_afpacket/src/source-af-packet.c:361-406 | for every size the loop writes the concatenation of the rendered 16-byte lines, laid out column by column |
| HexDump.DumpSplitsExactlyWhenAligned | sniff_afpacket/src/source-af-packet.c:364-405 | dumping two parts one after the other gives the dump of the whole exactly when the first ends a line or the second is empty |
| HexDump.ReadBackOfDump | sniff_afpacket/src/source-af-packet.c:379-380 | the hex columns give the data back |
| HexDump.ReadBackOfDumpThen | sniff_afpacket/src/source-af-packet.c:379-380 | dumps written one after the other read back one after the other |
| HexDump.DumpIsInjective | sniff_afpacket/src/source-af-packet.c:361-406 | equal dumps come from equal data |
| HexDump.DumpLength | sniff_afpacket/src/source-af-packet.c:361-406 | n bytes take 61 ceil(n/16) + n bytes of dump |
| HexDump.LineEndsWithOnlyNewline | sniff_afpacket/src/source-af-packet.c:369-376 | a line's only newline is its last byte |
| HexDump.DumpNewlines | sniff_afpacket/src/source-af-packet.c:376-403 | the dump of n bytes has ceil(n/16) newlines |

## Left out

- Sockets, mapping, binding, signals, sleeping, the log file and the clock: what the loops read from their surroundings is passed in as turns, and what PrintData writes is its result.
- The loops stop when the given turns run out; a turn sequence of any length is allowed.
- Capture.Capture.ProcessPacket: of what print_tcp_packet logs it writes the payload dump only, and nothing for a TCP packet whose header lengths or `tp_len` point outside its bytes, where the program's reads are undefined.
- Overflow of the `int` protocol counters and of the 64-bit statistics: counters are natural numbers.
- Overflow of the `int` name length in the label loop, and failing allocation.
- AFPPacketProcessPoll, which has no ring, and the unused ring setup at lines 70-146.
- DNS compression pointers, which the program does not handle, and the sections after the question, which it does not parse.
- Frame.Callback: its requirement asks that every byte the program reads was captured and that, before UDP or TCP is parsed, the ether type is IPv4 or IPv6, because the program leaves the header length unset for the others.
- The "IP Header" and "TCP Header" dumps at lines 263-267, and the field listings of the print functions.
- Ethernet address copying, device listing, prompts, capture-library calls and the `ssl` directory.
