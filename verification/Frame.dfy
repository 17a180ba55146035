/**
 Layered dissection of a captured frame (`sniff/src/sniff.c:94-248`, `sniff/src/udp.c`), and the whole
 frame round trips. Offsets and lengths are in bytes.
 */
module Frame {
  import opened Wire
  import opened Names
  import D = Dns
  import T = Tcp

  const ETHERNET_LENGTH: nat := 14
  const IPV6_LENGTH: nat := 40
  const UDP_LENGTH: nat := 8
  const ETHERTYPE_IP: bv16 := 0x0800
  const ETHERTYPE_IPV6: bv16 := 0x86DD
  const IPPROTO_TCP: byte := 6
  const IPPROTO_UDP: byte := 17
  const DNS_PORT: bv16 := 53

  // ----- UDP header -----

  datatype UdpFields = UdpFields(srcPort: bv16, dstPort: bv16, len: bv16, sum: bv16)

  /** extractUdpHeader: the header at `off`. */
  function UdpFieldsOf(p: seq<byte>, off: nat): UdpFields
    requires off + UDP_LENGTH <= |p|
  {
    UdpFields(ReadU16(p, off), ReadU16(p, off + 2), ReadU16(p, off + 4), ReadU16(p, off + 6))
  }

  function EncodeUdp(u: UdpFields): (p: seq<byte>)
    ensures |p| == UDP_LENGTH
  {
    [HighByte(u.srcPort), LowByte(u.srcPort), HighByte(u.dstPort), LowByte(u.dstPort),
     HighByte(u.len), LowByte(u.len), HighByte(u.sum), LowByte(u.sum)]
  }

  lemma UdpOfEncode(buf: seq<byte>, off: nat, u: UdpFields)
    requires At(buf, off, EncodeUdp(u))
    ensures UdpFieldsOf(buf, off) == u
  {
    hide ReadU16, HighByte, LowByte;
    var e := EncodeUdp(u);
    ReadInside(buf, off, e, 0, u.srcPort);
    ReadInside(buf, off, e, 2, u.dstPort);
    ReadInside(buf, off, e, 4, u.len);
    ReadInside(buf, off, e, 6, u.sum);
  }

  /** The four fields determine all eight bytes. */
  lemma EncodeOfUdp(buf: seq<byte>, off: nat)
    requires off + UDP_LENGTH <= |buf|
    ensures At(buf, off, EncodeUdp(UdpFieldsOf(buf, off)))
  {
    hide ReadU16, HighByte, LowByte;
    PutOfReadU16(buf, off);
    PutOfReadU16(buf, off + 2);
    PutOfReadU16(buf, off + 4);
    PutOfReadU16(buf, off + 6);
  }

  /** Source port, destination port, length and checksum, two bytes each. */
  lemma UdpLayout(p: seq<byte>, off: nat)
    requires off + 8 <= |p|
    ensures var u := UdpFieldsOf(p, off);
            && u.srcPort == U16(p[off], p[off + 1]) && u.dstPort == U16(p[off + 2], p[off + 3])
            && u.len == U16(p[off + 4], p[off + 5]) && u.sum == U16(p[off + 6], p[off + 7])
  {
    BigEndian16(p, off);
    BigEndian16(p, off + 2);
    BigEndian16(p, off + 4);
    BigEndian16(p, off + 6);
    hide ReadU16, U16;
  }

  /** `struct udpHeader`, filled field by field. */
  class UdpHeader {
    var srcPort: bv16
    var dstPort: bv16
    var len: bv16
    var sum: bv16

    function Fields(): UdpFields
      reads this
    {
      UdpFields(srcPort, dstPort, len, sum)
    }

    constructor Extract(p: seq<byte>, off: nat)
      requires off + UDP_LENGTH <= |p|
      ensures Fields() == UdpFieldsOf(p, off) == UdpFields(srcPort, dstPort, len, sum)
    {
      srcPort := ReadU16(p, off);
      dstPort := ReadU16(p, off + 2);
      len := ReadU16(p, off + 4);
      sum := ReadU16(p, off + 6);
    }
  }

  // ----- Dissection -----

  datatype Outcome =
    | Ignored
    | Udp(udp: UdpFields)
    | DnsQuery(udp: UdpFields, header: D.HeaderFields, question: D.QuestionFields)
    | Tcp(tcp: T.TcpFields, headersTotal: nat, payloadLength: int)

  function EtherType(packet: seq<byte>): bv16
    requires |packet| >= ETHERNET_LENGTH
  {
    ReadU16(packet, 12)
  }

  /** The length callback works out, for the two ether types it works one out for. */
  function IpHeaderLength(packet: seq<byte>): nat
    requires |packet| > ETHERNET_LENGTH
  {
    if EtherType(packet) == ETHERTYPE_IPV6 then IPV6_LENGTH
    else Value(packet[ETHERNET_LENGTH] & 0x0F) * 4
  }

  /** `((*(tcpHeaderPtr + 12)) & 0xF0) >> 4`, times four. */
  function TcpHeaderLength(packet: seq<byte>, off: nat): nat
    requires off + 12 < |packet|
  {
    Value((packet[off + 12] & 0xF0) >> 4) * 4
  }

  /**
   What the program needs of a packet: every byte it reads was captured, and the IP header length is
   one it has set.
   */
  predicate Readable(packet: seq<byte>) {
    && ETHERNET_LENGTH + 20 <= |packet|
    && var protocol := packet[ETHERNET_LENGTH + 9];
       var off := ETHERNET_LENGTH + IpHeaderLength(packet);
       && (protocol == IPPROTO_UDP || protocol == IPPROTO_TCP ==>
             EtherType(packet) == ETHERTYPE_IP || EtherType(packet) == ETHERTYPE_IPV6)
       && (protocol == IPPROTO_UDP ==> UdpReadable(packet, off))
       && (protocol == IPPROTO_TCP ==>
             && off + T.FIXED_LENGTH <= |packet|
             && T.FIXED_LENGTH <= TcpHeaderLength(packet, off) <= |packet| - off)
  }

  predicate UdpReadable(packet: seq<byte>, off: nat) {
    && off + UDP_LENGTH <= |packet|
    && (UdpFieldsOf(packet, off).dstPort == DNS_PORT ==>
          && off + UDP_LENGTH + D.HEADER_LENGTH <= |packet|
          && D.QuestionReadable(packet, off + UDP_LENGTH + D.HEADER_LENGTH))
  }

  /** What the packet says, layer by layer. */
  function Dissect(packet: seq<byte>): Outcome
    requires Readable(packet)
  {
    var off := ETHERNET_LENGTH + IpHeaderLength(packet);
    match packet[ETHERNET_LENGTH + 9]
    case 17 => DissectUdp(packet, off)
    case 6 =>
      var total := off + TcpHeaderLength(packet, off);
      Tcp(T.TcpFieldsOf(packet, off), total, |packet| - total)
    case _ => Ignored
  }

  function DissectUdp(packet: seq<byte>, off: nat): Outcome
    requires UdpReadable(packet, off)
  {
    var udp := UdpFieldsOf(packet, off);
    var dns := off + UDP_LENGTH;
    if udp.dstPort == DNS_PORT
    then DnsQuery(udp, D.HeaderOf(packet, dns), D.QuestionOf(packet, dns + D.HEADER_LENGTH))
    else Udp(udp)
  }

  /** Where the transport header starts: the ether type and the header length field, in numbers. */
  lemma TransportOffset(packet: seq<byte>)
    requires |packet| > 14
    ensures EtherType(packet) == U16(packet[12], packet[13])
    ensures packet[12] == 0x86 && packet[13] == 0xDD ==> IpHeaderLength(packet) == 40
    ensures packet[12] == 0x08 && packet[13] == 0x00 ==> IpHeaderLength(packet) == 4 * Value(packet[14] % 16)
  {
    BigEndian16(packet, 12);
    assert packet[14] & 0x0F == packet[14] % 16;
    hide ReadU16, Value;
  }

  /**
   What decides on the layers above IP: byte 23, and for UDP the destination port. In numbers, 17 is
   UDP, 6 is TCP, and the DNS message is looked at exactly for port 53.
   */
  lemma WhatDecides(packet: seq<byte>)
    requires Readable(packet)
    ensures var o := Dissect(packet);
            && (o.Tcp? <==> packet[23] == 6)
            && (o.Udp? || o.DnsQuery? <==> packet[23] == 17)
            && (o.Ignored? <==> packet[23] != 6 && packet[23] != 17)
    ensures packet[23] == 17 ==>
      var port := 14 + IpHeaderLength(packet) + 2;
      && port + 2 <= |packet|
      && (Dissect(packet).DnsQuery? <==> packet[port] == 0 && packet[port + 1] == 53)
  {
    if packet[23] == 17 {
      UdpLayout(packet, 14 + IpHeaderLength(packet));
    }
  }

  /** processDNS and processUdpPacket, lines 94-126. */
  method ProcessUdpPacket(packet: seq<byte>, ethernetHeaderLength: nat, ipHeaderLength: nat)
    returns (udp: UdpHeader, header: D.DnsHeader?, question: D.DnsQuestion?)
    requires UdpReadable(packet, ethernetHeaderLength + ipHeaderLength)
    ensures var o := DissectUdp(packet, ethernetHeaderLength + ipHeaderLength);
            && udp.Fields() == o.udp
            && (o.DnsQuery? <==> header != null)
            && (o.DnsQuery? <==> question != null)
            && (header != null <==> udp.dstPort == 53)
            && (o.DnsQuery? ==> header.Fields() == o.header && question.Holds(o.question))
  {
    header, question := null, null;
    var udpHeaderPtr := ethernetHeaderLength + ipHeaderLength;
    udp := new UdpHeader.Extract(packet, udpHeaderPtr);
    if udp.dstPort == DNS_PORT {
      var dnsHeaderPtr := udpHeaderPtr + 8;
      header := new D.DnsHeader.Extract(packet, dnsHeaderPtr);
      question := new D.DnsQuestion.Extract(packet, dnsHeaderPtr + 12);
    }
  }

  /** processTcpPacket, lines 128-159. */
  method ProcessTcpPacket(packet: seq<byte>, ethernetHeaderLength: nat, ipHeaderLength: nat)
    returns (tcp: T.TcpHeader, totalHeadersSize: nat, payloadLength: int)
    requires var off := ethernetHeaderLength + ipHeaderLength;
             && off + T.FIXED_LENGTH <= |packet|
             && T.FIXED_LENGTH <= TcpHeaderLength(packet, off) <= |packet| - off
    ensures var off := ethernetHeaderLength + ipHeaderLength;
            && tcp.Fields() == T.TcpFieldsOf(packet, off)
            && totalHeadersSize == off + TcpHeaderLength(packet, off)
            && payloadLength == |packet| - totalHeadersSize
  {
    var tcpHeaderPtr := ethernetHeaderLength + ipHeaderLength;
    var tcpHeaderLength := Value((packet[tcpHeaderPtr + 12] & 0xF0) >> 4);
    tcpHeaderLength := tcpHeaderLength * 4;
    var tcpHeader := packet[tcpHeaderPtr..tcpHeaderPtr + tcpHeaderLength];
    tcp := new T.TcpHeader.Extract(tcpHeader, 0);
    CopyKeepsFields(packet, tcpHeaderPtr, tcpHeaderLength);
    totalHeadersSize := ethernetHeaderLength + ipHeaderLength + tcpHeaderLength;
    payloadLength := |packet| - totalHeadersSize;
  }

  /** Two places with the same two, or four, bytes are read alike. */
  lemma SameReads(a: seq<byte>, i: nat, b: seq<byte>, j: nat)
    requires i + 4 <= |a| && j + 4 <= |b|
    requires a[i] == b[j] && a[i + 1] == b[j + 1] && a[i + 2] == b[j + 2] && a[i + 3] == b[j + 3]
    ensures Conv2BytesToInt(a, i) == Conv2BytesToInt(b, j)
    ensures Conv2BytesToInt(a, i + 2) == Conv2BytesToInt(b, j + 2)
    ensures ReadU32(a, i) == ReadU32(b, j)
  {
    hide Assemble;
  }

  lemma SliceBytes(a: seq<byte>, from: nat, to: nat, k: nat)
    requires from + k + 4 <= to <= |a|
    ensures var s := a[from..to];
            s[k] == a[from + k] && s[k + 1] == a[from + k + 1]
            && s[k + 2] == a[from + k + 2] && s[k + 3] == a[from + k + 3]
  {
  }

  /** The copy of the header that the program parses says what the packet says. */
  lemma CopyKeepsFields(packet: seq<byte>, off: nat, len: nat)
    requires T.FIXED_LENGTH <= len && off + len <= |packet|
    ensures T.TcpFieldsOf(packet[off..off + len], 0) == T.TcpFieldsOf(packet, off)
  {
    hide Conv2BytesToInt, ReadU32, T.ExtractOffset, T.ExtractReserved, T.ExtractFlags;
    var copy := packet[off..off + len];
    SliceBytes(packet, off, off + len, 0);
    SliceBytes(packet, off, off + len, 4);
    SliceBytes(packet, off, off + len, 8);
    SliceBytes(packet, off, off + len, 12);
    SliceBytes(packet, off, off + len, 16);
    SameReads(copy, 0, packet, off);
    SameReads(copy, 4, packet, off + 4);
    SameReads(copy, 8, packet, off + 8);
    SameReads(copy, 12, packet, off + 12);
    SameReads(copy, 16, packet, off + 16);
  }

  /** The structures the program has filled, and the lengths it has worked out, say `o`. */
  ghost predicate Shows(o: Outcome, udp: UdpHeader?, header: D.DnsHeader?, question: D.DnsQuestion?,
                        tcp: T.TcpHeader?, headersTotal: nat, payloadLength: int)
    reads udp, header, question, if question == null then {} else {question.qname}, tcp
  {
    && (udp != null <==> o.Udp? || o.DnsQuery?)
    && (udp != null ==> udp.Fields() == o.udp)
    && (header != null <==> o.DnsQuery?)
    && (header != null ==> header.Fields() == o.header)
    && (question != null <==> o.DnsQuery?)
    && (question != null ==> question.Holds(o.question))
    && (tcp != null <==> o.Tcp?)
    && (tcp != null ==> o == Tcp(tcp.Fields(), headersTotal, payloadLength))
  }

  /** callback, lines 169-248. */
  method Callback(packet: seq<byte>)
    returns (udp: UdpHeader?, header: D.DnsHeader?, question: D.DnsQuestion?,
             tcp: T.TcpHeader?, headersTotal: nat, payloadLength: int)
    requires Readable(packet)
    ensures Shows(Dissect(packet), udp, header, question, tcp, headersTotal, payloadLength)
    ensures (tcp != null <==> packet[23] == 6) && (udp != null <==> packet[23] == 17)
    ensures header != null <==> udp != null && udp.dstPort == 53
    ensures question != null <==> udp != null && udp.dstPort == 53
  {
    udp, header, question, tcp, headersTotal, payloadLength := null, null, null, null, 0, 0;
    var etherType := EtherType(packet);
    var ethernetHeaderLength := 14;
    var ipHeaderPtr := ethernetHeaderLength;
    var ipHeaderLength: int := *;
    if etherType == ETHERTYPE_IPV6 {
      ipHeaderLength := 40;
    } else if etherType == ETHERTYPE_IP {
      ipHeaderLength := Value(packet[ipHeaderPtr] & 0x0F);
      ipHeaderLength := ipHeaderLength * 4;
    }
    var protocol := packet[ipHeaderPtr + 9];
    if protocol == IPPROTO_UDP {
      udp, header, question := ProcessUdpPacket(packet, ethernetHeaderLength, ipHeaderLength);
    } else if protocol == IPPROTO_TCP {
      tcp, headersTotal, payloadLength := ProcessTcpPacket(packet, ethernetHeaderLength, ipHeaderLength);
    }
  }

  // ----- Frames by encoder -----

  /** Everything in front of the transport header: Ethernet II and IPv4 with any options. */
  datatype IpPart = IpPart(macs: seq<byte>, ihl: byte, rest: seq<byte>)

  predicate ValidIpPart(p: IpPart, protocol: byte) {
    && |p.macs| == 12
    && 5 <= p.ihl <= 15
    && |p.rest| == 4 * Value(p.ihl) - 1
    && p.rest[8] == protocol
  }

  /** `rest` is the IPv4 header after its first byte, which holds version 4 and the header length. */
  function EncodeIpPart(p: IpPart): seq<byte> {
    p.macs + [0x08, 0x00] + [0x40 | p.ihl] + p.rest
  }

  lemma IpPartOfEncode(packet: seq<byte>, p: IpPart, protocol: byte)
    requires ValidIpPart(p, protocol) && EncodeIpPart(p) <= packet
    ensures ETHERNET_LENGTH + 20 <= |packet|
    ensures EtherType(packet) == ETHERTYPE_IP
    ensures packet[ETHERNET_LENGTH + 9] == protocol
    ensures ETHERNET_LENGTH + IpHeaderLength(packet) == |EncodeIpPart(p)|
  {
    hide Value, ReadU16;
    var e := EncodeIpPart(p);
    assert Value(p.ihl) >= 5 && (0x40 | p.ihl) & 0x0F == p.ihl by { LegalIhl(p.ihl); }
    assert packet[12] == e[12] == 0x08 && packet[13] == e[13] == 0x00;
    BigEndian16(packet, 12);
    assert packet[14] == e[14] == 0x40 | p.ihl;
    assert packet[23] == e[23] == p.rest[8];
  }

  /** The front of a packet, as its parts. */
  function IpPartOf(packet: seq<byte>): IpPart
    requires |packet| > 14 && packet[14] % 16 >= 5 && |packet| >= 14 + 4 * Value(packet[14] % 16)
  {
    IpPart(packet[..12], packet[14] % 16, packet[15..14 + 4 * Value(packet[14] % 16)])
  }

  /** Every packet with ether type 0x0800, IP version 4 and a legal header length is by encoder. */
  lemma EncodeOfIpPart(packet: seq<byte>)
    requires |packet| > 14 && packet[12] == 0x08 && packet[13] == 0x00
    requires packet[14] / 16 == 4 && packet[14] % 16 >= 5 && |packet| >= 14 + 4 * Value(packet[14] % 16)
    ensures |packet| >= 34 && ValidIpPart(IpPartOf(packet), packet[23]) && EncodeIpPart(IpPartOf(packet)) <= packet
  {
    var ihl := packet[14] % 16;
    LegalIhl(ihl);
    VersionAndLength(packet[14]);
    hide Value;
    var n := 14 + 4 * Value(ihl);
    assert packet[..n] == packet[..12] + [packet[12], packet[13]] + [packet[14]] + packet[15..n];
  }

  lemma VersionAndLength(b: byte)
    requires b / 16 == 4
    ensures 0x40 | (b % 16) == b && b % 16 <= 15
  {
  }

  lemma LegalIhl(ihl: byte)
    requires 5 <= ihl <= 15
    ensures Value(ihl) >= 5 && (0x40 | ihl) & 0x0F == ihl
  {
  }

  function EncodeDnsFrame(ip: IpPart, udp: UdpFields, h: D.HeaderFields, ls: seq<Label>, qtype: bv16, qclass: bv16,
                          tail: seq<byte>): seq<byte>
    requires D.InWidth(h) && WireLabels(ls)
  {
    EncodeIpPart(ip) + (EncodeUdp(udp) + (D.EncodeHeader(h) + (D.EncodeQuestion(ls, qtype, qclass) + tail)))
  }

  /** Where the parts of an encoded frame stand. */
  lemma DnsFrameLayout(ip: IpPart, udp: UdpFields, h: D.HeaderFields, ls: seq<Label>, qtype: bv16, qclass: bv16,
                       tail: seq<byte>)
    requires D.InWidth(h) && WireLabels(ls)
    ensures var packet, off := EncodeDnsFrame(ip, udp, h, ls, qtype, qclass, tail), |EncodeIpPart(ip)|;
            && EncodeIpPart(ip) <= packet
            && At(packet, off, EncodeUdp(udp))
            && At(packet, off + 8, D.EncodeHeader(h))
            && At(packet, off + 20, D.EncodeQuestion(ls, qtype, qclass))
  {
    hide EncodeIpPart, EncodeUdp, D.EncodeHeader, D.EncodeQuestion, D.InWidth, At;
    var packet := EncodeDnsFrame(ip, udp, h, ls, qtype, qclass, tail);
    var a, b, c, q := EncodeIpPart(ip), EncodeUdp(udp), D.EncodeHeader(h), D.EncodeQuestion(ls, qtype, qclass);
    AtSuffix(a, b + (c + (q + tail)));
    AtSplit(packet, |a|, b, c + (q + tail));
    AtSplit(packet, |a| + 8, c, q + tail);
    AtSplit(packet, |a| + 20, q, tail);
  }

  /** A packet with a DNS query at offset `off` is dissected into that query. */
  lemma DissectsQuery(packet: seq<byte>, off: nat, udp: UdpFields, h: D.HeaderFields, ls: seq<Label>,
                      qtype: bv16, qclass: bv16)
    requires ETHERNET_LENGTH + 20 <= |packet| && packet[ETHERNET_LENGTH + 9] == IPPROTO_UDP
    requires EtherType(packet) == ETHERTYPE_IP && ETHERNET_LENGTH + IpHeaderLength(packet) == off
    requires udp.dstPort == DNS_PORT && At(packet, off, EncodeUdp(udp))
    requires D.InWidth(h) && At(packet, off + 8, D.EncodeHeader(h))
    requires WireLabels(ls) && D.PlainName(ls) && At(packet, off + 20, D.EncodeQuestion(ls, qtype, qclass))
    ensures Readable(packet)
    ensures Dissect(packet) == DnsQuery(udp, h, D.QuestionFields(Join(ls), |EncodeName(ls)|, qtype, qclass))
  {
    hide EncodeUdp, IpHeaderLength, EtherType, UdpFieldsOf, D.EncodeHeader, D.EncodeQuestion, D.HeaderOf, D.QuestionOf;
    hide D.QuestionReadable, D.PlainName, D.InWidth, EncodeName, Join, At;
    AtFits(packet, off + 8, D.EncodeHeader(h));
    UdpOfEncode(packet, off, udp);
    D.HeaderOfEncode(packet, off + 8, h);
    D.QuestionOfEncode(packet, off + 20, ls, qtype, qclass);
  }

  /**
   Whole-frame round trip: whatever the addresses, the IP options and the trailing bytes, dissecting
   a DNS query over UDP and IPv4 recovers every field, the name and the question.
   */
  lemma DnsFrameRoundTrip(ip: IpPart, udp: UdpFields, h: D.HeaderFields, ls: seq<Label>, qtype: bv16, qclass: bv16,
                          tail: seq<byte>)
    requires ValidIpPart(ip, 17) && udp.dstPort == 53 && D.InWidth(h)
    requires WireLabels(ls) && D.PlainName(ls)
    ensures var packet := EncodeDnsFrame(ip, udp, h, ls, qtype, qclass, tail);
            && Readable(packet)
            && Dissect(packet)
               == DnsQuery(udp, h, D.QuestionFields(Join(ls), |EncodeName(ls)|, qtype, qclass))
  {
    hide EncodeDnsFrame, EncodeIpPart, Readable, Dissect, At, D.PlainName, D.InWidth;
    var packet := EncodeDnsFrame(ip, udp, h, ls, qtype, qclass, tail);
    DnsFrameLayout(ip, udp, h, ls, qtype, qclass, tail);
    IpPartOfEncode(packet, ip, 17);
    DissectsQuery(packet, |EncodeIpPart(ip)|, udp, h, ls, qtype, qclass);
  }

  function EncodeUdpFrame(ip: IpPart, udp: UdpFields, body: seq<byte>): seq<byte> {
    EncodeIpPart(ip) + (EncodeUdp(udp) + body)
  }

  /** To any other port, a UDP frame gives its four fields, and its body is not looked at. */
  lemma OtherUdpFrameRoundTrip(ip: IpPart, udp: UdpFields, body: seq<byte>)
    requires ValidIpPart(ip, 17) && udp.dstPort != 53
    ensures var packet := EncodeUdpFrame(ip, udp, body);
            Readable(packet) && Dissect(packet) == Udp(udp)
  {
    hide EncodeIpPart, EncodeUdp, At, UdpFieldsOf, ValidIpPart, EtherType, IpHeaderLength;
    var packet := EncodeUdpFrame(ip, udp, body);
    IpPartOfEncode(packet, ip, 17);
    AtSuffix(EncodeIpPart(ip), EncodeUdp(udp) + body);
    AtSplit(packet, |EncodeIpPart(ip)|, EncodeUdp(udp), body);
    AtFits(packet, |EncodeIpPart(ip)|, EncodeUdp(udp));
    UdpOfEncode(packet, |EncodeIpPart(ip)|, udp);
  }

  /** A frame with any other protocol is ignored, whatever it holds. */
  lemma OtherFrameIgnored(ip: IpPart, protocol: byte, body: seq<byte>)
    requires ValidIpPart(ip, protocol) && protocol != 6 && protocol != 17
    ensures var packet := EncodeIpPart(ip) + body;
            Readable(packet) && Dissect(packet) == Ignored
  {
    IpPartOfEncode(EncodeIpPart(ip) + body, ip, protocol);
    hide EncodeIpPart, ValidIpPart, EtherType, IpHeaderLength;
  }

  lemma AtSuffix(a: seq<byte>, b: seq<byte>)
    ensures At(a + b, |a|, b)
  {
  }

  lemma AtFits(buf: seq<byte>, off: nat, e: seq<byte>)
    requires At(buf, off, e)
    ensures off + |e| <= |buf|
  {
  }
}
