/**
 What processing a packet does to the counters and to the log
 (`sniff_afpacket/src/source-af-packet.c:149-181` and `:226-275`), told of frames by encoder.
 */
module CaptureLog {
  import opened Wire
  import opened Ring
  import F = Frame
  import T = Tcp
  import HexDump
  import TcpFrame

  // ----- The counters -----

  /** The byte that classifies a packet is the protocol byte of its IPv4 header. */
  lemma ProtocolOfFrame(ip: F.IpPart, protocol: byte, p: Packet)
    requires F.ValidIpPart(ip, protocol) && F.EncodeIpPart(ip) <= p.bytes
    ensures ValidPacket(p) && Protocol(p) == p.bytes[23] == protocol
  {
    F.IpPartOfEncode(p.bytes, ip, protocol);
  }

  /** Processing a frame raises the total and the one counter its protocol calls for. */
  lemma FrameRaisesOneCounter(ip: F.IpPart, protocol: byte, p: Packet, c: Counters)
    requires F.ValidIpPart(ip, protocol) && F.EncodeIpPart(ip) <= p.bytes
    ensures ValidPacket(p)
    ensures var d := Classify(c, Protocol(p));
            && d.total == c.total + 1
            && d.icmp == c.icmp + (if protocol == 1 then 1 else 0)
            && d.igmp == c.igmp + (if protocol == 2 then 1 else 0)
            && d.tcp == c.tcp + (if protocol == 6 then 1 else 0)
            && d.udp == c.udp + (if protocol == 17 then 1 else 0)
            && d.others == c.others + (if protocol in {1, 2, 6, 17} then 0 else 1)
  {
    ProtocolOfFrame(ip, protocol, p);
    hide F.ValidIpPart, F.EncodeIpPart;
  }

  // ----- The log of TCP payloads -----

  /** A TCP packet of which print_tcp_packet reads only bytes that are there. */
  predicate Loggable(p: Packet) {
    ValidPacket(p) && Protocol(p) == 6 && TcpFrame.SizesReadable(p.bytes) && p.len <= |p.bytes|
  }

  /** The payload dump that processing `p` adds to the log. */
  function PayloadText(p: Packet): seq<byte> {
    if Loggable(p) && TcpFrame.HeaderSize(p.bytes) < p.len
    then HexDump.Dump(p.bytes[TcpFrame.HeaderSize(p.bytes)..p.len])
    else []
  }

  function LogOf(ps: seq<Packet>): seq<byte> {
    if ps == [] then [] else LogOf(ps[..|ps| - 1]) + PayloadText(ps[|ps| - 1])
  }

  lemma LogOfSnoc(ps: seq<Packet>, p: Packet)
    ensures LogOf(ps + [p]) == LogOf(ps) + PayloadText(p)
  {
    assert (ps + [p])[..|ps|] == ps;
  }

  /** Processing packets in the order of their acceptance makes the log a prefix of the full log. */
  lemma {:induction false} LogIsPrefix(ps: seq<Packet>, qs: seq<Packet>)
    requires ps <= qs
    ensures LogOf(ps) <= LogOf(qs)
    decreases |qs|
  {
    if |ps| < |qs| {
      LogIsPrefix(ps, qs[..|qs| - 1]);
    } else {
      assert ps == qs;
    }
  }

  // ----- Reading the log back -----

  /** A TCP frame by encoder as the slot shows it, with whatever follows it there, or a packet of another kind. */
  datatype Sent =
    | TcpFrameSent(ip: F.IpPart, fields: T.TcpFields, options: seq<byte>, payload: seq<byte>, trailer: seq<byte>)
    | OtherSent(packet: Packet)

  predicate Legal(s: Sent) {
    match s
    case TcpFrameSent(ip, f, options, _, _) =>
      F.ValidIpPart(ip, 6) && T.InWidth(f) && |options| == 4 * Value(f.offset as byte) - 20
    case OtherSent(p) => |p.bytes| > 23 && p.bytes[23] != 6
  }

  function PacketOf(s: Sent): Packet
    requires Legal(s)
  {
    match s
    case TcpFrameSent(ip, f, options, payload, trailer) =>
      var frame := TcpFrame.EncodeTcpFrame(ip, f, options, payload);
      Packet(frame + trailer, |frame|)
    case OtherSent(p) => p
  }

  function PayloadOf(s: Sent): seq<byte> {
    if s.TcpFrameSent? then s.payload else []
  }

  predicate AllLegal(ss: seq<Sent>) {
    forall s <- ss :: Legal(s)
  }

  function PacketsOf(ss: seq<Sent>): (ps: seq<Packet>)
    requires AllLegal(ss)
    ensures |ps| == |ss|
  {
    seq(|ss|, i requires 0 <= i < |ss| => PacketOf(ss[i]))
  }

  function PayloadsOf(ss: seq<Sent>): seq<byte> {
    if ss == [] then [] else PayloadsOf(ss[..|ss| - 1]) + PayloadOf(ss[|ss| - 1])
  }

  /** The header sizes are read from the frame, not from what follows it. */
  lemma TrailerDoesNotMatter(frame: seq<byte>, trailer: seq<byte>)
    requires TcpFrame.SizesReadable(frame)
    ensures TcpFrame.SizesReadable(frame + trailer)
    ensures TcpFrame.HeaderSize(frame + trailer) == TcpFrame.HeaderSize(frame)
  {
    hide Value;
    var b := frame + trailer;
    assert b[F.ETHERNET_LENGTH] == frame[F.ETHERNET_LENGTH];
  }

  lemma PayloadTextOf(p: Packet, frame: seq<byte>, trailer: seq<byte>)
    requires p == Packet(frame + trailer, |frame|) && ValidPacket(p) && Protocol(p) == 6
    requires TcpFrame.SizesReadable(frame) && TcpFrame.HeaderSize(frame) <= |frame|
    ensures PayloadText(p) == HexDump.Dump(frame[TcpFrame.HeaderSize(frame)..])
  {
    TrailerDoesNotMatter(frame, trailer);
    hide TcpFrame.SizesReadable, TcpFrame.HeaderSize;
    var h := TcpFrame.HeaderSize(frame);
    assert (frame + trailer)[h..|frame|] == frame[h..];
    assert HexDump.Dump([]) == [];
  }

  /** A TCP frame logs the dump of its payload. */
  lemma TcpFrameLogsPayload(ip: F.IpPart, f: T.TcpFields, options: seq<byte>, payload: seq<byte>, trailer: seq<byte>)
    requires Legal(TcpFrameSent(ip, f, options, payload, trailer))
    ensures PayloadText(PacketOf(TcpFrameSent(ip, f, options, payload, trailer))) == HexDump.Dump(payload)
  {
    var frame := TcpFrame.EncodeTcpFrame(ip, f, options, payload);
    var p := PacketOf(TcpFrameSent(ip, f, options, payload, trailer));
    assert F.EncodeIpPart(ip) <= p.bytes;
    ProtocolOfFrame(ip, 6, p);
    TcpFrame.TcpFrameRoundTrip(ip, f, options, payload);
    TcpFrame.SameHeaderTotal(frame);
    hide TcpFrame.EncodeTcpFrame, TcpFrame.HasTcpHeader, TcpFrame.HeadersTotal, TcpFrame.SizesReadable;
    hide TcpFrame.HeaderSize, F.Readable, F.Dissect, PayloadText, HexDump.Dump, Value;
    PayloadTextOf(p, frame, trailer);
  }

  /** What a packet adds to the log reads back as its TCP payload, and as nothing for another protocol. */
  lemma PayloadReadsBack(s: Sent)
    requires Legal(s)
    ensures PayloadText(PacketOf(s)) == HexDump.Dump(PayloadOf(s))
    ensures HexDump.ReadBack(PayloadText(PacketOf(s))) == PayloadOf(s)
    ensures s.OtherSent? ==> PayloadText(s.packet) == []
  {
    if s.TcpFrameSent? {
      TcpFrameLogsPayload(s.ip, s.fields, s.options, s.payload, s.trailer);
    } else {
      assert HexDump.Dump([]) == [];
    }
    HexDump.ReadBackOfDump(PayloadOf(s));
  }

  /** The log of a run reads back as the payloads of its TCP frames, in order. */
  lemma {:induction false} LogReadsBack(ss: seq<Sent>, tail: seq<byte>)
    requires AllLegal(ss)
    ensures HexDump.ReadBack(LogOf(PacketsOf(ss)) + tail) == PayloadsOf(ss) + HexDump.ReadBack(tail)
    decreases |ss|
  {
    hide PayloadText, PacketOf, HexDump.ReadBack, HexDump.Dump;
    if ss == [] {
      assert LogOf(PacketsOf(ss)) + tail == tail;
    } else {
      var front, last := ss[..|ss| - 1], ss[|ss| - 1];
      var text := HexDump.Dump(PayloadOf(last));
      assert PacketsOf(ss)[..|ss| - 1] == PacketsOf(front);
      PayloadReadsBack(last);
      assert LogOf(PacketsOf(ss)) + tail == LogOf(PacketsOf(front)) + (text + tail);
      LogReadsBack(front, text + tail);
      HexDump.ReadBackOfDumpThen(PayloadOf(last), tail);
    }
  }

  /** Whatever frames were accepted, the log reads back as the payloads of those processed. */
  ghost predicate LogTells(accepted: seq<Packet>, processed: seq<Packet>, log: seq<byte>) {
    && |processed| <= |accepted|
    && forall ss: seq<Sent> :: AllLegal(ss) && PacketsOf(ss) == accepted ==>
         HexDump.ReadBack(log) == PayloadsOf(ss[..|processed|])
  }

  lemma LogOfPrefixTells(accepted: seq<Packet>, processed: seq<Packet>)
    requires processed <= accepted
    ensures LogTells(accepted, processed, LogOf(processed))
  {
    hide LogOf, HexDump.ReadBack;
    forall ss: seq<Sent> | AllLegal(ss) && PacketsOf(ss) == accepted
      ensures HexDump.ReadBack(LogOf(processed)) == PayloadsOf(ss[..|processed|])
    {
      assert PacketsOf(ss[..|processed|]) == processed;
      LogReadsBack(ss[..|processed|], []);
      assert LogOf(processed) + [] == LogOf(processed);
      HexDump.ReadBackOfNothing();
    }
  }
}
