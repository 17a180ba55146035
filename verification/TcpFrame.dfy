/**
 TCP over IPv4 in both sniffers: the header total of `sniff/src/sniff.c:144-158` and of
 `sniff_afpacket/src/source-af-packet.c:230-235`, and the payload each prints.
 */
module TcpFrame {
  import opened Wire
  import opened Frame
  import T = Tcp
  import HexDump

  // ----- The header total -----

  /** An IPv4 packet long enough for the fixed TCP header its header length points at. */
  predicate HasTcpHeader(packet: seq<byte>) {
    && ETHERNET_LENGTH + 20 <= |packet|
    && EtherType(packet) == ETHERTYPE_IP
    && ETHERNET_LENGTH + IpHeaderLength(packet) + T.FIXED_LENGTH <= |packet|
  }

  /** The IP and TCP header lengths as the ring sniffer's bit fields give them, in 32-bit words. */
  function Ihl(packet: seq<byte>): byte
    requires |packet| > ETHERNET_LENGTH
  {
    packet[ETHERNET_LENGTH] % 16
  }

  function Doff(packet: seq<byte>, off: nat): byte
    requires off + 12 < |packet|
  {
    packet[off + 12] / 16
  }

  /** The two bytes print_tcp_packet reads to work out where the payload starts are there. */
  predicate SizesReadable(buffer: seq<byte>) {
    |buffer| > ETHERNET_LENGTH && ETHERNET_LENGTH + Value(Ihl(buffer)) * 4 + 12 < |buffer|
  }

  /** `header_size` of print_tcp_packet; `iphdrlen` is an `unsigned short`. */
  function HeaderSize(buffer: seq<byte>): nat
    requires SizesReadable(buffer)
  {
    var iphdrlen := Value(Ihl(buffer)) * 4;
    ETHERNET_LENGTH + iphdrlen + Value(Doff(buffer, ETHERNET_LENGTH + iphdrlen)) * 4
  }

  /** `totalHeadersSize` of processTcpPacket. */
  function HeadersTotal(packet: seq<byte>): nat
    requires HasTcpHeader(packet)
  {
    var off := ETHERNET_LENGTH + IpHeaderLength(packet);
    off + TcpHeaderLength(packet, off)
  }

  lemma FieldsAreNibbles(b: byte)
    ensures b % 16 == b & 0x0F && b / 16 == (b & 0xF0) >> 4
    ensures Value(b & 0x0F) <= 15
  {
    NibbleValue(b & 0x0F);
  }

  lemma NibbleValue(n: byte)
    requires n <= 15
    ensures Value(n) <= 15
  {
  }

  /** Both sniffers compute the same header total for every IPv4/TCP frame. */
  lemma SameHeaderTotal(packet: seq<byte>)
    requires HasTcpHeader(packet)
    ensures SizesReadable(packet) && HeaderSize(packet) == HeadersTotal(packet)
    ensures var off := 14 + 4 * Value(packet[14] % 16);
            off + 20 <= |packet| && HeadersTotal(packet) == off + 4 * Value(packet[off + 12] / 16)
  {
    hide Value;
    var off := ETHERNET_LENGTH + IpHeaderLength(packet);
    assert EtherType(packet) != ETHERTYPE_IPV6;
    FieldsAreNibbles(packet[ETHERNET_LENGTH]);
    FieldsAreNibbles(packet[off + 12]);
  }

  // ----- Taking a frame apart and putting it together -----

  /**
   The parsed TCP fields, written back between the bytes in front of them and the options and payload
   behind them, give the frame: the layers are ordered, do not overlap and leave nothing out.
   */
  lemma FrameFromParts(packet: seq<byte>)
    requires HasTcpHeader(packet) && packet[ETHERNET_LENGTH + 9] == IPPROTO_TCP && Readable(packet)
    ensures var off := ETHERNET_LENGTH + IpHeaderLength(packet);
            && Dissect(packet).Tcp? && T.InWidth(Dissect(packet).tcp)
            && off + T.FIXED_LENGTH <= Dissect(packet).headersTotal <= |packet|
            && packet == packet[..off] + T.EncodeTcp(Dissect(packet).tcp)
                         + packet[off + T.FIXED_LENGTH..Dissect(packet).headersTotal]
                         + packet[Dissect(packet).headersTotal..]
            && |packet[Dissect(packet).headersTotal..]| == Dissect(packet).payloadLength
  {
    var off := ETHERNET_LENGTH + IpHeaderLength(packet);
    var f, total := T.TcpFieldsOf(packet, off), HeadersTotal(packet);
    T.EncodeOfFields(packet, off);
    hide T.TcpFieldsOf, T.EncodeTcp, EtherType, IpHeaderLength, TcpHeaderLength;
    var e := T.EncodeTcp(f);
    assert e == packet[off..off + T.FIXED_LENGTH];
  }

  function EncodeTcpFrame(ip: IpPart, f: T.TcpFields, options: seq<byte>, payload: seq<byte>): seq<byte>
    requires T.InWidth(f)
  {
    EncodeIpPart(ip) + (T.EncodeTcp(f) + (options + payload))
  }

  lemma TcpFrameLayout(ip: IpPart, f: T.TcpFields, options: seq<byte>, payload: seq<byte>)
    requires T.InWidth(f)
    ensures var packet, off := EncodeTcpFrame(ip, f, options, payload), |EncodeIpPart(ip)|;
            && EncodeIpPart(ip) <= packet
            && At(packet, off, T.EncodeTcp(f))
            && At(packet, off + 20 + |options|, payload)
            && |packet| == off + 20 + |options| + |payload|
  {
    hide EncodeIpPart, T.EncodeTcp, T.InWidth, At;
    var packet := EncodeTcpFrame(ip, f, options, payload);
    var a, t := EncodeIpPart(ip), T.EncodeTcp(f);
    AtSuffix(a, t + (options + payload));
    AtSplit(packet, |a|, t, options + payload);
    AtSplit(packet, |a| + 20, options, payload);
  }

  lemma HeaderLengthOfEncode(packet: seq<byte>, off: nat, f: T.TcpFields)
    requires T.InWidth(f) && At(packet, off, T.EncodeTcp(f))
    ensures off + T.FIXED_LENGTH <= |packet|
    ensures (packet[off + 12] & 0xF0) >> 4 == f.offset as byte
  {
    hide T.OffsetByte;
    T.WordsOfHeader(packet, off, f);
    AtFirst(packet, off + 12, T.ControlWord(f));
    T.OffsetByteParts(f);
  }

  /** A packet with a TCP header, options and payload from offset `off` on is dissected into them. */
  lemma DissectsTcp(packet: seq<byte>, off: nat, f: T.TcpFields, options: seq<byte>, payload: seq<byte>)
    requires ETHERNET_LENGTH + 20 <= |packet| && packet[ETHERNET_LENGTH + 9] == IPPROTO_TCP
    requires EtherType(packet) == ETHERTYPE_IP && ETHERNET_LENGTH + IpHeaderLength(packet) == off
    requires T.InWidth(f) && At(packet, off, T.EncodeTcp(f))
    requires |options| == 4 * Value(f.offset as byte) - T.FIXED_LENGTH
    requires |packet| == off + 20 + |options| + |payload| && At(packet, off + 20 + |options|, payload)
    ensures Readable(packet) && HasTcpHeader(packet)
    ensures Dissect(packet) == Tcp(f, |packet| - |payload|, |payload|)
    ensures HeadersTotal(packet) == |packet| - |payload|
    ensures packet[HeadersTotal(packet)..] == payload
  {
    HeaderLengthOfEncode(packet, off, f);
    T.FieldsOfEncode(packet, off, f);
    AtEnd(packet, off + 20 + |options|, payload);
    hide At, T.EncodeTcp, T.InWidth, T.TcpFieldsOf, IpHeaderLength, EtherType, Value;
    assert TcpHeaderLength(packet, off) == T.FIXED_LENGTH + |options|;
  }

  lemma AtEnd(buf: seq<byte>, off: nat, e: seq<byte>)
    requires At(buf, off, e) && |buf| == off + |e|
    ensures buf[off..] == e
  {
  }

  /**
   TCP frame round trip: whatever the addresses, IP options, TCP options and payload, dissection
   recovers every field, and the payload starts right after the headers.
   */
  lemma TcpFrameRoundTrip(ip: IpPart, f: T.TcpFields, options: seq<byte>, payload: seq<byte>)
    requires ValidIpPart(ip, 6) && T.InWidth(f)
    requires |options| == 4 * Value(f.offset as byte) - 20
    ensures var packet := EncodeTcpFrame(ip, f, options, payload);
            && Readable(packet) && HasTcpHeader(packet)
            && Dissect(packet) == Tcp(f, |packet| - |payload|, |payload|)
            && HeadersTotal(packet) == |packet| - |payload|
            && packet[HeadersTotal(packet)..] == payload
  {
    var packet, off := EncodeTcpFrame(ip, f, options, payload), |EncodeIpPart(ip)|;
    TcpFrameLayout(ip, f, options, payload);
    IpPartOfEncode(packet, ip, 6);
    hide EncodeTcpFrame, EncodeIpPart, IpHeaderLength, EtherType, Value, At, T.EncodeTcp;
    DissectsTcp(packet, off, f, options, payload);
  }

  // ----- What the two sniffers print of the payload -----

  lemma PrefixOfSuffix(b: seq<byte>, from: nat, to: nat)
    requires from <= to <= |b|
    ensures b[from..][..to - from] == b[from..to]
  {
  }

  /** The "Data Payload" dump of print_tcp_packet, lines 269-270. */
  method PrintPayload(buffer: seq<byte>, size: nat) returns (out: seq<byte>)
    requires SizesReadable(buffer) && size <= |buffer|
    ensures out == if HeaderSize(buffer) < size then HexDump.Dump(buffer[HeaderSize(buffer)..size]) else []
  {
    hide HexDump.LaidOut, HexDump.Dump, SizesReadable, HeaderSize;
    var headerSize := HeaderSize(buffer);
    var payload := if headerSize <= |buffer| then buffer[headerSize..] else [];
    out := HexDump.PrintData(payload, size - headerSize);
    if headerSize < size { PrefixOfSuffix(buffer, headerSize, size); }
  }

  /** The ring sniffer's dump of an encoded frame determines its payload. */
  lemma PayloadFromDump(ip: IpPart, f: T.TcpFields, options: seq<byte>, payload: seq<byte>)
    requires ValidIpPart(ip, 6) && T.InWidth(f)
    requires |options| == 4 * Value(f.offset as byte) - 20
    ensures var packet := EncodeTcpFrame(ip, f, options, payload);
            && SizesReadable(packet) && HeaderSize(packet) <= |packet|
            && HexDump.ReadBack(HexDump.Dump(packet[HeaderSize(packet)..])) == payload
  {
    hide EncodeTcpFrame, HasTcpHeader, SizesReadable, HeaderSize, HeadersTotal, HexDump.Dump, HexDump.ReadBack, Readable, Dissect;
    var packet := EncodeTcpFrame(ip, f, options, payload);
    TcpFrameRoundTrip(ip, f, options, payload);
    SameHeaderTotal(packet);
    HexDump.ReadBackOfDump(payload);
  }

  /**
   What the other sniffer prints of a packet: `payloadLength` bytes from `packet + payloadLength`
   (`sniff/src/sniff.c:158-163`), where the header total was meant.  They need not all be captured.
   */
  predicate PrintStaysInside(packet: seq<byte>)
    requires HasTcpHeader(packet) && HeadersTotal(packet) <= |packet|
  {
    2 * (|packet| - HeadersTotal(packet)) <= |packet|
  }

  function PrintedPayload(packet: seq<byte>): seq<byte>
    requires HasTcpHeader(packet) && HeadersTotal(packet) <= |packet| && PrintStaysInside(packet)
  {
    packet[|packet| - HeadersTotal(packet)..2 * (|packet| - HeadersTotal(packet))]
  }

  /** It prints the payload: the bytes printed were captured and are those after the headers. */
  predicate PrintsItsPayload(packet: seq<byte>) {
    && HasTcpHeader(packet) && HeadersTotal(packet) <= |packet|
    && PrintStaysInside(packet) && PrintedPayload(packet) == packet[HeadersTotal(packet)..]
  }

  /** The bytes printPayload writes for a packet; `inside` turns false at the first one that was not captured. */
  method PrintTcpPayload(packet: seq<byte>) returns (out: seq<byte>, inside: bool)
    requires HasTcpHeader(packet) && HeadersTotal(packet) <= |packet|
    ensures inside <==> PrintStaysInside(packet)
    ensures inside ==> out == PrintedPayload(packet)
  {
    var payloadLength := |packet| - HeadersTotal(packet);
    var payloadPtr := payloadLength;
    out, inside := [], true;
    var byteCount, tempPointer := 0, payloadPtr;
    while byteCount < payloadLength && inside
      invariant 0 <= byteCount <= payloadLength && tempPointer == payloadPtr + byteCount
      invariant inside ==> tempPointer <= |packet| && out == packet[payloadPtr..tempPointer]
      invariant !inside ==> |packet| < payloadPtr + payloadLength
      decreases payloadLength - byteCount, inside
    {
      if tempPointer < |packet| {
        out := out + [packet[tempPointer]];
        byteCount, tempPointer := byteCount + 1, tempPointer + 1;
      } else {
        inside := false;
      }
    }
  }

  /** The headers of a TCP frame take as many bytes as both sniffers work out. */
  function HeadersOf(ip: IpPart, options: seq<byte>): nat {
    |EncodeIpPart(ip)| + T.FIXED_LENGTH + |options|
  }

  /** A TCP frame prints only captured bytes exactly when its payload is no longer than its headers. */
  lemma PrintStaysInsideExactly(ip: IpPart, f: T.TcpFields, options: seq<byte>, payload: seq<byte>)
    requires ValidIpPart(ip, 6) && T.InWidth(f)
    requires |options| == 4 * Value(f.offset as byte) - 20
    ensures var packet := EncodeTcpFrame(ip, f, options, payload);
            && HasTcpHeader(packet)
            && HeadersTotal(packet) == HeadersOf(ip, options) == |packet| - |payload|
            && (PrintStaysInside(packet) <==> |payload| <= HeadersOf(ip, options))
  {
    TcpFrameRoundTrip(ip, f, options, payload);
    hide HasTcpHeader, HeadersTotal, Dissect, Readable, EncodeIpPart, T.EncodeTcp;
  }

  /** What the frame with payload `p` prints, as bytes of the frame. */
  lemma PrintsItsPayloadExactly(ip: IpPart, f: T.TcpFields, options: seq<byte>, p: seq<byte>)
    requires ValidIpPart(ip, 6) && T.InWidth(f)
    requires |options| == 4 * Value(f.offset as byte) - 20
    ensures var packet := EncodeTcpFrame(ip, f, options, p);
            && |packet| == HeadersOf(ip, options) + |p|
            && packet[HeadersOf(ip, options)..] == p
            && (PrintsItsPayload(packet) <==> |p| <= HeadersOf(ip, options) && packet[|p|..2 * |p|] == p)
  {
    TcpFrameRoundTrip(ip, f, options, p);
    PrintStaysInsideExactly(ip, f, options, p);
    hide HasTcpHeader, HeadersTotal, Dissect, Readable, EncodeTcpFrame, HeadersOf;
  }

  /** Below the end of the headers, frames that differ only in their payload are alike. */
  lemma SameHeaders(ip: IpPart, f: T.TcpFields, options: seq<byte>, a: seq<byte>, b: seq<byte>, i: nat)
    requires T.InWidth(f) && i < HeadersOf(ip, options)
    ensures |EncodeTcpFrame(ip, f, options, a)| == HeadersOf(ip, options) + |a|
    ensures |EncodeTcpFrame(ip, f, options, b)| == HeadersOf(ip, options) + |b|
    ensures EncodeTcpFrame(ip, f, options, a)[i] == EncodeTcpFrame(ip, f, options, b)[i]
  {
    hide EncodeIpPart, T.EncodeTcp;
    var h := EncodeIpPart(ip) + T.EncodeTcp(f) + options;
    assert EncodeTcpFrame(ip, f, options, a) == h + a;
    assert EncodeTcpFrame(ip, f, options, b) == h + b;
  }

  /** As long as the headers, the payload is where the pointer leads. */
  lemma PrintsPayloadAsLongAsHeaders(ip: IpPart, f: T.TcpFields, options: seq<byte>, p: seq<byte>)
    requires ValidIpPart(ip, 6) && T.InWidth(f)
    requires |options| == 4 * Value(f.offset as byte) - 20
    requires p == [] || |p| == HeadersOf(ip, options)
    ensures PrintsItsPayload(EncodeTcpFrame(ip, f, options, p))
  {
    PrintsItsPayloadExactly(ip, f, options, p);
    hide ValidIpPart, T.InWidth, Value, EncodeTcpFrame, HeadersOf, PrintsItsPayload;
    SliceOfTwiceIsSuffix(EncodeTcpFrame(ip, f, options, p), HeadersOf(ip, options), p);
  }

  lemma SliceOfTwiceIsSuffix(b: seq<byte>, h: nat, p: seq<byte>)
    requires |b| == h + |p| && b[h..] == p && (p == [] || |p| == h)
    ensures 2 * |p| <= |b| && b[|p|..2 * |p|] == p
  {
    if p != [] { assert b[h..|b|] == b[h..]; }
  }

  /** A shorter payload is printed from inside the headers: its first byte comes from there. */
  lemma PrintedFromHeaders(ip: IpPart, f: T.TcpFields, options: seq<byte>, p: seq<byte>)
    requires ValidIpPart(ip, 6) && T.InWidth(f)
    requires |options| == 4 * Value(f.offset as byte) - 20
    requires 0 < |p| < HeadersOf(ip, options) && PrintsItsPayload(EncodeTcpFrame(ip, f, options, p))
    ensures |EncodeTcpFrame(ip, f, options, [])| == HeadersOf(ip, options)
    ensures p[0] == EncodeTcpFrame(ip, f, options, [])[|p|]
  {
    PrintsItsPayloadExactly(ip, f, options, p);
    SameHeaders(ip, f, options, p, [], |p|);
    hide ValidIpPart, T.InWidth, Value, EncodeTcpFrame, HeadersOf, PrintsItsPayload;
    var packet := EncodeTcpFrame(ip, f, options, p);
    assert packet[|p|..2 * |p|][0] == packet[|p|];
  }

  /** Otherwise two payloads with different first bytes cannot both be printed. */
  lemma NotBothPrinted(ip: IpPart, f: T.TcpFields, options: seq<byte>, a: seq<byte>, b: seq<byte>)
    requires ValidIpPart(ip, 6) && T.InWidth(f)
    requires |options| == 4 * Value(f.offset as byte) - 20
    requires |a| == |b| && a != [] && |a| != HeadersOf(ip, options) && a[0] != b[0]
    ensures !PrintsItsPayload(EncodeTcpFrame(ip, f, options, a)) || !PrintsItsPayload(EncodeTcpFrame(ip, f, options, b))
  {
    hide EncodeTcpFrame, HeadersOf, PrintsItsPayload;
    if PrintsItsPayload(EncodeTcpFrame(ip, f, options, a)) && PrintsItsPayload(EncodeTcpFrame(ip, f, options, b)) {
      PrintsItsPayloadExactly(ip, f, options, a);
      PrintedFromHeaders(ip, f, options, a);
      PrintedFromHeaders(ip, f, options, b);
    }
  }

  /**
   Whatever the headers of a TCP frame: it prints every payload of length `k` exactly when `k` is zero
   or the length of the headers.
   */
  lemma PrintsEveryPayloadExactly(ip: IpPart, f: T.TcpFields, options: seq<byte>, k: nat)
    requires ValidIpPart(ip, 6) && T.InWidth(f)
    requires |options| == 4 * Value(f.offset as byte) - 20
    ensures (forall payload: seq<byte> :: |payload| == k ==> PrintsItsPayload(EncodeTcpFrame(ip, f, options, payload)))
            <==> k == 0 || k == HeadersOf(ip, options)
  {
    hide PrintsItsPayload, EncodeTcpFrame, HeadersOf, ValidIpPart, T.InWidth, Value;
    if k == 0 || k == HeadersOf(ip, options) {
      forall payload: seq<byte> | |payload| == k ensures PrintsItsPayload(EncodeTcpFrame(ip, f, options, payload)) {
        PrintsPayloadAsLongAsHeaders(ip, f, options, payload);
      }
    } else {
      NotBothPrinted(ip, f, options, seq(k, _ => 0), seq(k, _ => 1));
    }
  }

  // ----- A frame whose payload is misprinted -----

  const SAMPLE_IP := IpPart(seq(12, _ => 0), 5, seq(19, i => if i == 8 then 6 else 0))

  const SAMPLE_TCP := T.TcpFields(80, 40000, 0, 0, 5, 0, T.Flags(false, false, false, false, true, true, false, false, false),
                                  0, 0, 0)

  /** A frame with 54 bytes of headers and the one-byte payload 65 prints its second address byte, 0. */
  lemma OneBytePayloadMisprinted()
    ensures ValidIpPart(SAMPLE_IP, 6) && T.InWidth(SAMPLE_TCP)
    ensures var packet := EncodeTcpFrame(SAMPLE_IP, SAMPLE_TCP, [], [65]);
            && Readable(packet) && HasTcpHeader(packet) && HeadersTotal(packet) == 54 && |packet| == 55
            && packet[HeadersTotal(packet)..] == [65]
            && PrintStaysInside(packet) && PrintedPayload(packet) == [0]
  {
    var packet := EncodeTcpFrame(SAMPLE_IP, SAMPLE_TCP, [], [65]);
    assert Value(5) == 5;
    TcpFrameRoundTrip(SAMPLE_IP, SAMPLE_TCP, [], [65]);
    PrintsItsPayloadExactly(SAMPLE_IP, SAMPLE_TCP, [], [65]);
    hide HasTcpHeader, HeadersTotal, Dissect, Readable;
    assert packet[1] == SAMPLE_IP.macs[1] == 0;
  }
}
