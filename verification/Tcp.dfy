/** The TCP header (`sniff/src/tcp.c`), section 3.1 of RFC 793 with the nine flags in use since. */
module Tcp {
  import opened Wire

  datatype Flags = Flags(
    ns: bool, cwr: bool, ece: bool, urg: bool, ack: bool, psh: bool, rst: bool, sync: bool, fin: bool)

  datatype TcpFields = TcpFields(
    srcPort: bv32, dstPort: bv32, seqNumber: bv32, ackNumber: bv32, offset: bv32, reserved: bv32,
    flags: Flags, window: bv32, checksum: bv32, urgentPointer: bv32)

  const FIXED_LENGTH: nat := 20

  function ExtractOffset(b: byte): bv32 { (b >> 4) as bv32 }
  function ExtractReserved(b: byte): bv32 { ((b >> 1) & 0x07) as bv32 }

  function ExtractFlags(b12: byte, b13: byte): Flags {
    Flags(b12 & 0x01 != 0,
          b13 & 0x80 != 0, b13 & 0x40 != 0, b13 & 0x20 != 0, b13 & 0x10 != 0,
          b13 & 0x08 != 0, b13 & 0x04 != 0, b13 & 0x02 != 0, b13 & 0x01 != 0)
  }

  /** extractTcpHeader, lines 120-147: the header at `off`. */
  function TcpFieldsOf(p: seq<byte>, off: nat): TcpFields
    requires off + FIXED_LENGTH <= |p|
  {
    TcpFields(Conv2BytesToInt(p, off), Conv2BytesToInt(p, off + 2), ReadU32(p, off + 4), ReadU32(p, off + 8),
              ExtractOffset(p[off + 12]), ExtractReserved(p[off + 12]), ExtractFlags(p[off + 12], p[off + 13]),
              Conv2BytesToInt(p, off + 14), Conv2BytesToInt(p, off + 16), Conv2BytesToInt(p, off + 18))
  }

  /** Where RFC 793 puts the fields of the fixed header, in numbers. */
  lemma TcpLayout(p: seq<byte>, off: nat)
    requires off + 20 <= |p|
    ensures var f := TcpFieldsOf(p, off);
            && f.srcPort == U16(p[off], p[off + 1]) as bv32 && f.dstPort == U16(p[off + 2], p[off + 3]) as bv32
            && f.seqNumber == U32(p[off + 4], p[off + 5], p[off + 6], p[off + 7])
            && f.ackNumber == U32(p[off + 8], p[off + 9], p[off + 10], p[off + 11])
            && f.offset == (p[off + 12] / 16) as bv32 && f.reserved == (p[off + 12] / 2 % 8) as bv32
            && IsFlags(f.flags, p[off + 12], p[off + 13])
            && f.window == U16(p[off + 14], p[off + 15]) as bv32
            && f.checksum == U16(p[off + 16], p[off + 17]) as bv32
            && f.urgentPointer == U16(p[off + 18], p[off + 19]) as bv32
  {
    ControlLayout(p[off + 12], p[off + 13]);
    BigEndian16(p, off);
    BigEndian16(p, off + 2);
    BigEndian32(p, off + 4);
    BigEndian32(p, off + 8);
    BigEndian16(p, off + 14);
    BigEndian16(p, off + 16);
    BigEndian16(p, off + 18);
    hide Conv2BytesToInt, ReadU16, ReadU32, ExtractOffset, ExtractReserved, ExtractFlags, U16, U32;
  }

  /** NS is the last bit of the first byte, the others are the bits of the second, CWR first. */
  predicate IsFlags(f: Flags, b12: byte, b13: byte) {
    && (f.ns <==> b12 % 2 == 1)
    && (f.cwr <==> b13 / 128 == 1) && (f.ece <==> b13 / 64 % 2 == 1) && (f.urg <==> b13 / 32 % 2 == 1)
    && (f.ack <==> b13 / 16 % 2 == 1) && (f.psh <==> b13 / 8 % 2 == 1) && (f.rst <==> b13 / 4 % 2 == 1)
    && (f.sync <==> b13 / 2 % 2 == 1) && (f.fin <==> b13 % 2 == 1)
  }

  lemma ControlLayout(b12: byte, b13: byte)
    ensures ExtractOffset(b12) == (b12 / 16) as bv32 && ExtractReserved(b12) == (b12 / 2 % 8) as bv32
    ensures IsFlags(ExtractFlags(b12, b13), b12, b13)
  {
  }

  /** Each field fits the width the header gives it. */
  predicate InWidth(f: TcpFields) {
    && f.srcPort <= 0xFFFF && f.dstPort <= 0xFFFF && f.offset <= 15 && f.reserved <= 7
    && f.window <= 0xFFFF && f.checksum <= 0xFFFF && f.urgentPointer <= 0xFFFF
  }

  function Bit(b: bool, mask: byte): byte { if b then mask else 0 }

  /** Data offset, reserved bits and NS. */
  function OffsetByte(f: TcpFields): byte
    requires InWidth(f)
  {
    ((f.offset as byte) << 4) | ((f.reserved as byte) << 1) | Bit(f.flags.ns, 0x01)
  }

  function FlagByte(f: Flags): byte {
    Bit(f.cwr, 0x80) | Bit(f.ece, 0x40) | Bit(f.urg, 0x20) | Bit(f.ack, 0x10)
    | Bit(f.psh, 0x08) | Bit(f.rst, 0x04) | Bit(f.sync, 0x02) | Bit(f.fin, 0x01)
  }

  function High(v: bv32): byte
    requires v <= 0xFFFF
  {
    HighByte(v as bv16)
  }

  function Low(v: bv32): byte
    requires v <= 0xFFFF
  {
    LowByte(v as bv16)
  }

  /** The five 32-bit words of the fixed header. */
  function PortWord(f: TcpFields): seq<byte>
    requires InWidth(f)
  {
    [High(f.srcPort), Low(f.srcPort), High(f.dstPort), Low(f.dstPort)]
  }

  function NumberWord(v: bv32): seq<byte> {
    [Byte3(v), Byte2(v), Byte1(v), Byte0(v)]
  }

  function ControlWord(f: TcpFields): seq<byte>
    requires InWidth(f)
  {
    [OffsetByte(f), FlagByte(f.flags), High(f.window), Low(f.window)]
  }

  function LastWord(f: TcpFields): seq<byte>
    requires InWidth(f)
  {
    [High(f.checksum), Low(f.checksum), High(f.urgentPointer), Low(f.urgentPointer)]
  }

  function EncodeTcp(f: TcpFields): (p: seq<byte>)
    requires InWidth(f)
    ensures |p| == FIXED_LENGTH
  {
    PortWord(f) + (NumberWord(f.seqNumber) + (NumberWord(f.ackNumber) + (ControlWord(f) + LastWord(f))))
  }

  /** A header stands at `off` when its five words stand one after the other. */
  lemma WordsOfHeader(buf: seq<byte>, off: nat, f: TcpFields)
    requires InWidth(f)
    ensures At(buf, off, EncodeTcp(f)) <==>
            && At(buf, off, PortWord(f)) && At(buf, off + 4, NumberWord(f.seqNumber))
            && At(buf, off + 8, NumberWord(f.ackNumber)) && At(buf, off + 12, ControlWord(f))
            && At(buf, off + 16, LastWord(f))
  {
    hide At, High, Low, Byte3, Byte2, Byte1, Byte0, OffsetByte, FlagByte;
    var a, b, c, d, e := PortWord(f), NumberWord(f.seqNumber), NumberWord(f.ackNumber), ControlWord(f), LastWord(f);
    AtSplit(buf, off, a, b + (c + (d + e)));
    AtSplit(buf, off + 4, b, c + (d + e));
    AtSplit(buf, off + 8, c, d + e);
    AtSplit(buf, off + 12, d, e);
  }

  lemma OffsetByteParts(f: TcpFields)
    requires InWidth(f)
    ensures ExtractOffset(OffsetByte(f)) == f.offset && ExtractReserved(OffsetByte(f)) == f.reserved
    ensures OffsetByte(f) & 0x01 != 0 <==> f.flags.ns
    ensures (OffsetByte(f) & 0xF0) >> 4 == f.offset as byte
  {
  }

  lemma FlagByteParts(f: Flags, b12: byte)
    requires b12 & 0x01 != 0 <==> f.ns
    ensures ExtractFlags(b12, FlagByte(f)) == f
  {
  }

  lemma PartsOfBytes(f: TcpFields, b12: byte, b13: byte)
    requires f.offset == ExtractOffset(b12) && f.reserved == ExtractReserved(b12)
    requires f.flags == ExtractFlags(b12, b13)
    requires InWidth(f)
    ensures OffsetByte(f) == b12 && FlagByte(f.flags) == b13
  {
  }

  lemma WidthOfParts(b: byte)
    ensures ExtractOffset(b) <= 15 && ExtractReserved(b) <= 7
  {
  }

  lemma ReadHighLow(buf: seq<byte>, off: nat, e: seq<byte>, k: nat, v: bv32)
    requires At(buf, off, e) && k + 2 <= |e| && v <= 0xFFFF && e[k] == High(v) && e[k + 1] == Low(v)
    ensures Conv2BytesToInt(buf, off + k) == v
  {
    ReadInside(buf, off, e, k, v as bv16);
  }

  lemma HighLowOfRead(p: seq<byte>, off: nat)
    requires off + 2 <= |p|
    ensures High(Conv2BytesToInt(p, off)) == p[off] && Low(Conv2BytesToInt(p, off)) == p[off + 1]
  {
    PutOfReadU16(p, off);
  }

  lemma ReadWordPair(buf: seq<byte>, off: nat, v: bv32, w: bv32)
    requires v <= 0xFFFF && w <= 0xFFFF && At(buf, off, [High(v), Low(v), High(w), Low(w)])
    ensures Conv2BytesToInt(buf, off) == v && Conv2BytesToInt(buf, off + 2) == w
  {
    hide Conv2BytesToInt, High, Low;
    var e := [High(v), Low(v), High(w), Low(w)];
    ReadHighLow(buf, off, e, 0, v);
    ReadHighLow(buf, off, e, 2, w);
  }

  lemma ReadControlWord(buf: seq<byte>, off: nat, f: TcpFields)
    requires InWidth(f) && At(buf, off, ControlWord(f))
    ensures ExtractOffset(buf[off]) == f.offset && ExtractReserved(buf[off]) == f.reserved
    ensures ExtractFlags(buf[off], buf[off + 1]) == f.flags && Conv2BytesToInt(buf, off + 2) == f.window
  {
    hide Conv2BytesToInt, High, Low, OffsetByte, FlagByte, ExtractFlags, ExtractOffset, ExtractReserved;
    var e := ControlWord(f);
    assert buf[off + 0] == e[0] && buf[off + 1] == e[1];
    OffsetByteParts(f);
    FlagByteParts(f.flags, OffsetByte(f));
    ReadHighLow(buf, off, e, 2, f.window);
  }

  /** An encoded header is read back field by field, wherever it stands. */
  lemma FieldsOfEncode(buf: seq<byte>, off: nat, f: TcpFields)
    requires InWidth(f) && At(buf, off, EncodeTcp(f))
    ensures off + FIXED_LENGTH <= |buf| && TcpFieldsOf(buf, off) == f
  {
    assert off + FIXED_LENGTH <= |buf|;
    WordsOfHeader(buf, off, f);
    ReadWordPair(buf, off, f.srcPort, f.dstPort);
    ReadU32Inside(buf, off + 4, NumberWord(f.seqNumber), 0, f.seqNumber);
    ReadU32Inside(buf, off + 8, NumberWord(f.ackNumber), 0, f.ackNumber);
    ReadControlWord(buf, off + 12, f);
    ReadWordPair(buf, off + 16, f.checksum, f.urgentPointer);
    hide At, EncodeTcp, ReadU32, Conv2BytesToInt, ExtractFlags, ExtractOffset, ExtractReserved;
    assert TcpFieldsOf(buf, off) == f;
  }

  lemma FourBytesAt(buf: seq<byte>, off: nat, e: seq<byte>)
    requires off + 4 <= |buf| && |e| == 4
    requires e[0] == buf[off] && e[1] == buf[off + 1] && e[2] == buf[off + 2] && e[3] == buf[off + 3]
    ensures At(buf, off, e)
  {
  }

  /** The fields determine all twenty bytes: every bit of the fixed header is covered once. */
  lemma EncodeOfFields(buf: seq<byte>, off: nat)
    requires off + FIXED_LENGTH <= |buf|
    ensures InWidth(TcpFieldsOf(buf, off)) && At(buf, off, EncodeTcp(TcpFieldsOf(buf, off)))
  {
    var f := TcpFieldsOf(buf, off);
    WidthOfParts(buf[off + 12]);
    hide ReadU32, Conv2BytesToInt, High, Low, Byte3, Byte2, Byte1, Byte0, EncodeTcp;
    hide OffsetByte, FlagByte, ExtractFlags, ExtractOffset, ExtractReserved;
    PartsOfBytes(f, buf[off + 12], buf[off + 13]);
    HighLowOfRead(buf, off);
    HighLowOfRead(buf, off + 2);
    HighLowOfRead(buf, off + 14);
    HighLowOfRead(buf, off + 16);
    HighLowOfRead(buf, off + 18);
    hide At;
    FourBytesAt(buf, off, PortWord(f));
    FourBytesAt(buf, off + 4, NumberWord(f.seqNumber));
    FourBytesAt(buf, off + 8, NumberWord(f.ackNumber));
    FourBytesAt(buf, off + 12, ControlWord(f));
    FourBytesAt(buf, off + 16, LastWord(f));
    WordsOfHeader(buf, off, f);
  }

  /** `struct tcpHeader`, filled field by field. */
  class TcpHeader {
    var srcPort: bv32
    var dstPort: bv32
    var seqNumber: bv32
    var ackNumber: bv32
    var offset: bv32
    var reserved: bv32
    var flags: Flags
    var window: bv32
    var checksum: bv32
    var urgentPointer: bv32

    function Fields(): TcpFields
      reads this
    {
      TcpFields(srcPort, dstPort, seqNumber, ackNumber, offset, reserved, flags, window, checksum, urgentPointer)
    }

    constructor Extract(p: seq<byte>, off: nat)
      requires off + FIXED_LENGTH <= |p|
      ensures Fields() == TcpFieldsOf(p, off)
              == TcpFields(srcPort, dstPort, seqNumber, ackNumber, offset, reserved, flags, window, checksum, urgentPointer)
    {
      srcPort := Conv2BytesToInt(p, off);
      dstPort := Conv2BytesToInt(p, off + 2);
      var number := Conv4BytesToInt(p, off + 4);
      seqNumber := number;
      number := Conv4BytesToInt(p, off + 8);
      ackNumber := number;
      offset := ExtractOffset(p[off + 12]);
      reserved := ExtractReserved(p[off + 12]);
      flags := ExtractFlags(p[off + 12], p[off + 13]);
      window := Conv2BytesToInt(p, off + 14);
      checksum := Conv2BytesToInt(p, off + 16);
      urgentPointer := Conv2BytesToInt(p, off + 18);
    }
  }
}
