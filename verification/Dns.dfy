/** The DNS message header and question (`sniff/src/dns.c`), and their wire form by RFC 1035. */
module Dns {
  import opened Wire
  import opened Names
  import opened QueryName

  // ----- Header, section 4.1.1 of RFC 1035 -----

  datatype HeaderFields = HeaderFields(
    id: bv16, qr: bv16, opcode: bv16, aa: bv16, tc: bv16, rd: bv16, ra: bv16, z: bv16, rcode: bv16,
    qdcount: bv16, ancount: bv16, nscount: bv16, arcount: bv16)

  const HEADER_LENGTH: nat := 12

  function ExtractQR(b: byte): bv16 { (b >> 7) as bv16 }
  function ExtractOpCode(b: byte): bv16 { ((b & 0x78) >> 3) as bv16 }
  function ExtractAA(b: byte): bv16 { ((b & 0x04) >> 2) as bv16 }
  function ExtractTC(b: byte): bv16 { ((b & 0x02) >> 1) as bv16 }
  function ExtractRD(b: byte): bv16 { (b & 0x01) as bv16 }
  function ExtractRA(b: byte): bv16 { (b >> 7) as bv16 }
  function ExtractZ(b: byte): bv16 { ((b & 0x70) >> 4) as bv16 }
  function ExtractRCode(b: byte): bv16 { (b & 0x0F) as bv16 }

  /** extractDnsHeader, lines 88-109: the header at `off`. */
  function HeaderOf(p: seq<byte>, off: nat): HeaderFields
    requires off + HEADER_LENGTH <= |p|
  {
    var b2, b3 := p[off + 2], p[off + 3];
    HeaderFields(ReadU16(p, off),
                 ExtractQR(b2), ExtractOpCode(b2), ExtractAA(b2), ExtractTC(b2), ExtractRD(b2),
                 ExtractRA(b3), ExtractZ(b3), ExtractRCode(b3),
                 ReadU16(p, off + 4), ReadU16(p, off + 6), ReadU16(p, off + 8), ReadU16(p, off + 10))
  }

  /** Each field fits the width the header gives it. */
  predicate InWidth(h: HeaderFields) {
    && h.qr <= 1 && h.opcode <= 15 && h.aa <= 1 && h.tc <= 1 && h.rd <= 1
    && h.ra <= 1 && h.z <= 7 && h.rcode <= 15
  }

  /** QR, Opcode, AA, TC, RD, from the most significant bit down. */
  function FlagByte2(h: HeaderFields): byte
    requires InWidth(h)
  {
    ((h.qr << 7) | (h.opcode << 3) | (h.aa << 2) | (h.tc << 1) | h.rd) as byte
  }

  /** RA, Z, RCODE. */
  function FlagByte3(h: HeaderFields): byte
    requires InWidth(h)
  {
    ((h.ra << 7) | (h.z << 4) | h.rcode) as byte
  }

  function EncodeHeader(h: HeaderFields): (p: seq<byte>)
    requires InWidth(h)
    ensures |p| == HEADER_LENGTH
  {
    [HighByte(h.id), LowByte(h.id), FlagByte2(h), FlagByte3(h),
     HighByte(h.qdcount), LowByte(h.qdcount), HighByte(h.ancount), LowByte(h.ancount),
     HighByte(h.nscount), LowByte(h.nscount), HighByte(h.arcount), LowByte(h.arcount)]
  }

  lemma FlagsOfBytes(h: HeaderFields)
    requires InWidth(h)
    ensures var b := FlagByte2(h);
            && ExtractQR(b) == h.qr && ExtractOpCode(b) == h.opcode && ExtractAA(b) == h.aa
            && ExtractTC(b) == h.tc && ExtractRD(b) == h.rd
    ensures var b := FlagByte3(h);
            ExtractRA(b) == h.ra && ExtractZ(b) == h.z && ExtractRCode(b) == h.rcode
  {
  }

  lemma BytesOfFlags(h: HeaderFields, b: byte, c: byte)
    requires h.qr == ExtractQR(b) && h.opcode == ExtractOpCode(b) && h.aa == ExtractAA(b)
    requires h.tc == ExtractTC(b) && h.rd == ExtractRD(b)
    requires h.ra == ExtractRA(c) && h.z == ExtractZ(c) && h.rcode == ExtractRCode(c)
    ensures InWidth(h) && FlagByte2(h) == b && FlagByte3(h) == c
  {
  }

  /** An encoded header is read back field by field, wherever it stands. */
  lemma HeaderOfEncode(buf: seq<byte>, off: nat, h: HeaderFields)
    requires InWidth(h) && At(buf, off, EncodeHeader(h))
    ensures HeaderOf(buf, off) == h
  {
    hide ReadU16, HighByte, LowByte, FlagByte2, FlagByte3;
    hide ExtractQR, ExtractOpCode, ExtractAA, ExtractTC, ExtractRD, ExtractRA, ExtractZ, ExtractRCode;
    var e := EncodeHeader(h);
    assert buf[off + 2] == e[2] && buf[off + 3] == e[3];
    FlagsOfBytes(h);
    ReadInside(buf, off, e, 0, h.id);
    ReadInside(buf, off, e, 4, h.qdcount);
    ReadInside(buf, off, e, 6, h.ancount);
    ReadInside(buf, off, e, 8, h.nscount);
    ReadInside(buf, off, e, 10, h.arcount);
  }

  /** The fields determine all twelve bytes, so the reader drops nothing. */
  lemma EncodeOfHeader(buf: seq<byte>, off: nat)
    requires off + HEADER_LENGTH <= |buf|
    ensures InWidth(HeaderOf(buf, off)) && At(buf, off, EncodeHeader(HeaderOf(buf, off)))
  {
    BytesOfFlags(HeaderOf(buf, off), buf[off + 2], buf[off + 3]);
    PutOfReadU16(buf, off);
    PutOfReadU16(buf, off + 4);
    PutOfReadU16(buf, off + 6);
    PutOfReadU16(buf, off + 8);
    PutOfReadU16(buf, off + 10);
    hide ReadU16, HighByte, LowByte, FlagByte2, FlagByte3;
    hide ExtractQR, ExtractOpCode, ExtractAA, ExtractTC, ExtractRD, ExtractRA, ExtractZ, ExtractRCode;
    var e := EncodeHeader(HeaderOf(buf, off));
    assert forall i: nat :: i < HEADER_LENGTH ==> buf[off + i] == e[i];
  }

  /** Where RFC 1035 puts the header's fields, in numbers. */
  lemma HeaderLayout(p: seq<byte>, off: nat)
    requires off + 12 <= |p|
    ensures var h := HeaderOf(p, off);
            && h.id == U16(p[off], p[off + 1])
            && h.qr == (p[off + 2] / 128) as bv16 && h.opcode == (p[off + 2] / 8 % 16) as bv16
            && h.aa == (p[off + 2] / 4 % 2) as bv16 && h.tc == (p[off + 2] / 2 % 2) as bv16
            && h.rd == (p[off + 2] % 2) as bv16
            && h.ra == (p[off + 3] / 128) as bv16 && h.z == (p[off + 3] / 16 % 8) as bv16
            && h.rcode == (p[off + 3] % 16) as bv16
            && h.qdcount == U16(p[off + 4], p[off + 5]) && h.ancount == U16(p[off + 6], p[off + 7])
            && h.nscount == U16(p[off + 8], p[off + 9]) && h.arcount == U16(p[off + 10], p[off + 11])
  {
    FlagLayout(p[off + 2], p[off + 3]);
    BigEndian16(p, off);
    BigEndian16(p, off + 4);
    BigEndian16(p, off + 6);
    BigEndian16(p, off + 8);
    BigEndian16(p, off + 10);
    hide ReadU16, ExtractQR, ExtractOpCode, ExtractAA, ExtractTC, ExtractRD, ExtractRA, ExtractZ, ExtractRCode;
  }

  lemma FlagLayout(b: byte, c: byte)
    ensures ExtractQR(b) == (b / 128) as bv16 && ExtractOpCode(b) == (b / 8 % 16) as bv16
    ensures ExtractAA(b) == (b / 4 % 2) as bv16 && ExtractTC(b) == (b / 2 % 2) as bv16
    ensures ExtractRD(b) == (b % 2) as bv16
    ensures ExtractRA(c) == (c / 128) as bv16 && ExtractZ(c) == (c / 16 % 8) as bv16
    ensures ExtractRCode(c) == (c % 16) as bv16
  {
  }

  // ----- Question, section 4.1.2 of RFC 1035 -----

  /** `name` is the text before its terminator; `nameLen` is the `uint16_t` the offsets are built on. */
  datatype QuestionFields = QuestionFields(name: seq<byte>, nameLen: nat, qtype: bv16, qclass: bv16)

  /** Line 187: `strlen` of the text plus two, in a `uint16_t`. */
  function NameLenOf(text: seq<byte>): nat {
    (Strlen(text + [NUL]) + 2) % 0x10000
  }

  /** What the program needs to be able to read: a terminated name, and four bytes at `nameLen`. */
  predicate QuestionReadable(buf: seq<byte>, off: nat) {
    WellFormedName(buf, off) && off + NameLenOf(Join(Labels(buf, off))) + 4 <= |buf|
  }

  /** extractDnsQuestion, lines 182-197. */
  function QuestionOf(buf: seq<byte>, off: nat): QuestionFields
    requires QuestionReadable(buf, off)
  {
    var text := Join(Labels(buf, off));
    var n := NameLenOf(text);
    QuestionFields(text, n, ReadU16(buf, off + n), ReadU16(buf, off + n + 2))
  }

  function EncodeQuestion(ls: seq<Label>, qtype: bv16, qclass: bv16): seq<byte>
    requires WireLabels(ls)
  {
    EncodeName(ls) + (PutU16(qtype) + PutU16(qclass))
  }

  /** The names the length formula is right for. */
  predicate PlainName(ls: seq<Label>)
    requires WireLabels(ls)
  {
    ls != [] && ZeroFree(ls) && |EncodeName(ls)| < 0x10000
  }

  lemma NameLenOfLabels(ls: seq<Label>)
    requires WireLabels(ls)
    ensures NameLenOf(Join(ls)) == |EncodeName(ls)| <==> PlainName(ls)
  {
    hide EncodeName, Join, Strlen;
    WireIsTextPlusTwo(ls);
    StrlenOfTerminated(Join(ls));
    ZeroInJoin(ls);
  }

  /**
   The length formula meets the wire exactly for nonempty names without zero bytes whose wire form
   fits 16 bits; only then are QTYPE and QCLASS read right after the name.
   */
  lemma NameLenMatchesWire(buf: seq<byte>, off: nat)
    requires WellFormedName(buf, off)
    ensures WireLabels(Labels(buf, off))
    ensures NameLenOf(Join(Labels(buf, off))) == NameEnd(buf, off) - off
            <==> buf[off] != 0 && (forall l: Label <- Labels(buf, off) :: 0 !in l) && NameEnd(buf, off) - off < 65536
  {
    EncodeOfLabels(buf, off);
    NameLenOfLabels(Labels(buf, off));
    assert |buf[off..NameEnd(buf, off)]| == NameEnd(buf, off) - off;
  }

  lemma FieldsAfterName(buf: seq<byte>, off: nat, e: nat)
    requires QuestionReadable(buf, off) && off + NameLenOf(Join(Labels(buf, off))) == e
    ensures e + 4 <= |buf|
    ensures var q := QuestionOf(buf, off);
            && q.name == Join(Labels(buf, off)) && q.nameLen == e - off
            && q.qtype == U16(buf[e], buf[e + 1]) && q.qclass == U16(buf[e + 2], buf[e + 3])
  {
    assert e + 4 <= |buf|;
    hide Join, Labels, NameLenOf, WellFormedName, ReadU16, U16;
    BigEndian16(buf, e);
    BigEndian16(buf, e + 2);
  }

  /** Of a readable question with such a name, QTYPE is the two bytes after the root octet, QCLASS the next two. */
  lemma QuestionLayout(buf: seq<byte>, off: nat)
    requires QuestionReadable(buf, off)
    requires buf[off] != 0 && (forall l: Label <- Labels(buf, off) :: 0 !in l) && NameEnd(buf, off) - off < 65536
    ensures var q, e := QuestionOf(buf, off), NameEnd(buf, off);
            && e + 4 <= |buf| && q.nameLen == e - off && |q.name| == e - off - 2 && ReadsInPlace(buf, off, q.name)
            && q.qtype == U16(buf[e], buf[e + 1]) && q.qclass == U16(buf[e + 2], buf[e + 3])
  {
    hide Join, Labels, NameEnd, NameLenOf, ReadsInPlace, QuestionOf, U16;
    NameLenMatchesWire(buf, off);
    FieldsAfterName(buf, off, NameEnd(buf, off));
    TextByPlace(buf, off);
  }

  /** The root name takes one byte, but the formula gives two: QTYPE is read one byte late. */
  lemma RootNameMisread()
    ensures EncodeQuestion([], 1, 1) == [0, 0, 1, 0, 1]
    ensures var buf: seq<byte> := [0, 0, 1, 0, 1, 0];
            QuestionReadable(buf, 0) && QuestionOf(buf, 0).qtype == 0x0100
  {
    var buf: seq<byte> := [0, 0, 1, 0, 1, 0];
    assert Labels(buf, 0) == [];
    assert ([NUL])[0] == NUL;
    assert Join([]) + [NUL] == [NUL];
    assert NameLenOf([]) == 2;
  }

  /** A name at which the formula is right is read back, with the two fields after it. */
  lemma QuestionOfEncode(buf: seq<byte>, off: nat, ls: seq<Label>, qtype: bv16, qclass: bv16)
    requires WireLabels(ls) && PlainName(ls) && At(buf, off, EncodeQuestion(ls, qtype, qclass))
    ensures QuestionReadable(buf, off)
    ensures QuestionOf(buf, off) == QuestionFields(Join(ls), |EncodeName(ls)|, qtype, qclass)
  {
    hide EncodeName, PutU16, Join, ReadU16, HighByte, LowByte, NameLenOf, PlainName, At;
    var n, t, c := EncodeName(ls), PutU16(qtype), PutU16(qclass);
    AtSplit(buf, off, n, t + c);
    AtSplit(buf, off + |n|, t, c);
    LabelsOfEncode(buf, off, ls);
    NameLenOfLabels(ls);
    U16At(buf, off + |n|, qtype);
    U16At(buf, off + |n| + 2, qclass);
  }

  lemma U16At(buf: seq<byte>, off: nat, v: bv16)
    requires At(buf, off, PutU16(v))
    ensures |PutU16(v)| == 2 && off + 2 <= |buf| && ReadU16(buf, off) == v
  {
    ReadInside(buf, off, PutU16(v), 0, v);
  }

  // ----- The structures the program allocates -----

  /** `struct dnsHeader`. */
  class DnsHeader {
    var id: bv16
    var qr: bv16
    var opcode: bv16
    var aa: bv16
    var tc: bv16
    var rd: bv16
    var ra: bv16
    var z: bv16
    var rcode: bv16
    var qdcount: bv16
    var ancount: bv16
    var nscount: bv16
    var arcount: bv16

    function Fields(): HeaderFields
      reads this
    {
      HeaderFields(id, qr, opcode, aa, tc, rd, ra, z, rcode, qdcount, ancount, nscount, arcount)
    }

    constructor Extract(p: seq<byte>, off: nat)
      requires off + HEADER_LENGTH <= |p|
      ensures Fields() == HeaderOf(p, off)
              == HeaderFields(id, qr, opcode, aa, tc, rd, ra, z, rcode, qdcount, ancount, nscount, arcount)
    {
      id := ReadU16(p, off);
      qr := ExtractQR(p[off + 2]);
      opcode := ExtractOpCode(p[off + 2]);
      aa := ExtractAA(p[off + 2]);
      tc := ExtractTC(p[off + 2]);
      rd := ExtractRD(p[off + 2]);
      ra := ExtractRA(p[off + 3]);
      z := ExtractZ(p[off + 3]);
      rcode := ExtractRCode(p[off + 3]);
      qdcount := ReadU16(p, off + 4);
      ancount := ReadU16(p, off + 6);
      nscount := ReadU16(p, off + 8);
      arcount := ReadU16(p, off + 10);
    }
  }

  /** `strlen`. */
  method StrlenOf(s: array<byte>, ghost text: seq<byte>) returns (n: nat)
    requires |text| < s.Length && s[..|text|] == text && s[|text|] == NUL
    ensures n == Strlen(text + [NUL])
  {
    n := 0;
    while s[n] != NUL
      invariant n <= |text| && NUL !in text[..n]
      decreases |text| - n
    {
      assert text[..n + 1] == text[..n] + [text[n]];
      n := n + 1;
    }
    StrlenIsFirstZero(text + [NUL], n);
  }

  /** `struct dnsQuestion`. */
  class DnsQuestion {
    var qname: array<byte>
    var qnamelen: nat
    var qtype: bv16
    var qclass: bv16

    ghost predicate Holds(f: QuestionFields)
      reads this, qname
    {
      && |f.name| < qname.Length && qname[..|f.name|] == f.name && qname[|f.name|] == NUL
      && qnamelen == f.nameLen && qtype == f.qtype && qclass == f.qclass
    }

    constructor Extract(buf: seq<byte>, off: nat)
      requires QuestionReadable(buf, off)
      ensures Holds(QuestionOf(buf, off))
    {
      ghost var text := Join(Labels(buf, off));
      var name, _, _, _ := ExtractQueryName(buf, off);
      qname := name;
      var n := StrlenOf(name, text);
      var len := (n + 2) % 0x10000;
      qnamelen := len;
      qtype := ReadU16(buf, off + len);
      qclass := ReadU16(buf, off + len + 2);
    }
  }
}
