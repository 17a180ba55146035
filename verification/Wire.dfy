/**
 Bytes and the big-endian integers built from them (`sniff/src/utils.c`).
 A C pointer into a packet is the packet's bytes and an offset.
 */
module Wire {

  type byte = bv8

  /** A byte as a number, and back. */
  function Value(b: byte): (n: nat)
    ensures n < 256
    ensures n == 0 <==> b == 0
  {
    b as nat
  }

  lemma ValueOfSuccessor(b: byte)
    requires b < 255
    ensures Value(b + 1) == Value(b) + 1
  {
  }

  lemma ValueIsInjective(a: byte, b: byte)
    requires Value(a) == Value(b)
    ensures a == b
  {
  }

  /** The byte whose value is `n`, counted up from zero. */
  function Octet(n: nat): (b: byte)
    requires n < 256
    ensures Value(b) == n
  {
    if n == 0 then 0
    else
      ValueOfSuccessor(Octet(n - 1));
      Octet(n - 1) + 1
  }

  lemma OctetOfValue(b: byte)
    ensures Octet(Value(b)) == b
  {
    ValueIsInjective(Octet(Value(b)), b);
  }

  /** The bytes `e` stand in `buf` from offset `off` on. */
  predicate At(buf: seq<byte>, off: nat, e: seq<byte>) {
    off + |e| <= |buf| && forall i: nat :: i < |e| ==> buf[off + i] == e[i]
  }

  lemma AtFirst(buf: seq<byte>, off: nat, e: seq<byte>)
    requires At(buf, off, e) && e != []
    ensures buf[off] == e[0]
  {
    var i: nat := 0;
    assert buf[off + i] == e[i];
  }

  lemma AtSplit(buf: seq<byte>, off: nat, a: seq<byte>, b: seq<byte>)
    ensures At(buf, off, a + b) <==> At(buf, off, a) && At(buf, off + |a|, b)
  {
    if At(buf, off, a + b) {
      assert forall i: nat :: i < |a| ==> (a + b)[i] == a[i];
      forall i: nat | i < |b| ensures buf[off + |a| + i] == b[i] {
        assert buf[off + (|a| + i)] == (a + b)[|a| + i];
      }
    }
    if At(buf, off, a) && At(buf, off + |a|, b) {
      forall i: nat | i < |a + b| ensures buf[off + i] == (a + b)[i] {
        if i >= |a| { assert buf[off + |a| + (i - |a|)] == b[i - |a|]; }
      }
    }
  }

  // ----- Two bytes -----

  /** The two-byte big-endian read used by every header extractor. */
  function Conv2BytesToInt(p: seq<byte>, off: nat): (r: bv32)
    requires off + 2 <= |p|
    ensures r <= 0xFFFF
  {
    ((p[off] as bv32) << 8) | (p[off + 1] as bv32)
  }

  /** The same, stored in a `uint16_t`. */
  function ReadU16(p: seq<byte>, off: nat): bv16
    requires off + 2 <= |p|
  {
    Conv2BytesToInt(p, off) as bv16
  }

  /** The number two bytes stand for in network order. */
  function U16(high: byte, low: byte): bv16 {
    (high as bv16) * 256 + (low as bv16)
  }

  /** Both reads are big-endian. */
  lemma BigEndian16(p: seq<byte>, off: nat)
    requires off + 2 <= |p|
    ensures ReadU16(p, off) == U16(p[off], p[off + 1])
    ensures Conv2BytesToInt(p, off) == U16(p[off], p[off + 1]) as bv32
  {
  }

  function HighByte(v: bv16): byte { (v >> 8) as byte }

  function LowByte(v: bv16): byte { (v & 0xFF) as byte }

  /** A 16-bit value in network byte order. */
  function PutU16(v: bv16): seq<byte> {
    [HighByte(v), LowByte(v)]
  }

  lemma ReadOfPutU16(p: seq<byte>, off: nat, v: bv16)
    requires off + 2 <= |p| && p[off] == HighByte(v) && p[off + 1] == LowByte(v)
    ensures ReadU16(p, off) == v && Conv2BytesToInt(p, off) == v as bv32
  {
  }

  /** The same inside an encoding `e` that stands at `off`. */
  lemma ReadInside(buf: seq<byte>, off: nat, e: seq<byte>, k: nat, v: bv16)
    requires At(buf, off, e) && k + 2 <= |e| && e[k] == HighByte(v) && e[k + 1] == LowByte(v)
    ensures ReadU16(buf, off + k) == v && Conv2BytesToInt(buf, off + k) == v as bv32
  {
    assert buf[off + (k + 1)] == e[k + 1];
    ReadOfPutU16(buf, off + k, v);
  }

  lemma PutOfReadU16(p: seq<byte>, off: nat)
    requires off + 2 <= |p|
    ensures HighByte(ReadU16(p, off)) == p[off] && LowByte(ReadU16(p, off)) == p[off + 1]
    ensures ReadU16(p, off) as bv32 == Conv2BytesToInt(p, off)
  {
  }

  // ----- Four bytes -----

  /** The four bytes of a 32-bit value, most significant first. */
  function Byte3(v: bv32): byte { ((v >> 24) & 0xFF) as byte }

  function Byte2(v: bv32): byte { ((v >> 16) & 0xFF) as byte }

  function Byte1(v: bv32): byte { ((v >> 8) & 0xFF) as byte }

  function Byte0(v: bv32): byte { (v & 0xFF) as byte }

  lemma BytesDetermineU32(v: bv32, w: bv32)
    requires Byte3(v) == Byte3(w) && Byte2(v) == Byte2(w) && Byte1(v) == Byte1(w) && Byte0(v) == Byte0(w)
    ensures v == w
  {
  }

  function Assemble(a: byte, b: byte, c: byte, d: byte): bv32 {
    (((((((a as bv32) << 8) | (b as bv32)) << 8) | (c as bv32)) << 8) | (d as bv32))
  }

  /** Shifting four bytes in from the right and cutting them out again. */
  lemma ShiftInShiftOut(a: byte, b: byte, c: byte, d: byte)
    ensures var v := Assemble(a, b, c, d);
            Byte3(v) == a && Byte2(v) == b && Byte1(v) == c && Byte0(v) == d
  {
  }

  /** The four-byte read: the value whose bytes, in network order, are the four read. */
  function ReadU32(p: seq<byte>, off: nat): (r: bv32)
    requires off + 4 <= |p|
    ensures Byte3(r) == p[off] && Byte2(r) == p[off + 1] && Byte1(r) == p[off + 2] && Byte0(r) == p[off + 3]
  {
    ShiftInShiftOut(p[off], p[off + 1], p[off + 2], p[off + 3]);
    Assemble(p[off], p[off + 1], p[off + 2], p[off + 3])
  }

  /** The number four bytes stand for in network order. */
  function U32(a: byte, b: byte, c: byte, d: byte): bv32 {
    (a as bv32) * 0x100_0000 + (b as bv32) * 0x1_0000 + (c as bv32) * 0x100 + (d as bv32)
  }

  lemma BigEndian32(p: seq<byte>, off: nat)
    requires off + 4 <= |p|
    ensures ReadU32(p, off) == U32(p[off], p[off + 1], p[off + 2], p[off + 3])
  {
  }

  lemma ReadU32Inside(buf: seq<byte>, off: nat, e: seq<byte>, k: nat, v: bv32)
    requires At(buf, off, e) && k + 4 <= |e|
    requires e[k] == Byte3(v) && e[k + 1] == Byte2(v) && e[k + 2] == Byte1(v) && e[k + 3] == Byte0(v)
    ensures ReadU32(buf, off + k) == v
  {
    hide Byte3, Byte2, Byte1, Byte0;
    assert buf[off + (k + 1)] == e[k + 1] && buf[off + (k + 2)] == e[k + 2] && buf[off + (k + 3)] == e[k + 3];
    BytesDetermineU32(ReadU32(buf, off + k), v);
  }

  /** The read as the program performs it, step by step. */
  method Conv4BytesToInt(p: seq<byte>, off: nat) returns (res: bv32)
    requires off + 4 <= |p|
    ensures res == ReadU32(p, off) == U32(p[off], p[off + 1], p[off + 2], p[off + 3])
  {
    BigEndian32(p, off);
    res := p[off] as bv32;
    res := (res << 8) | (p[off + 1] as bv32);
    res := (res << 8) | (p[off + 2] as bv32);
    res := (res << 8) | (p[off + 3] as bv32);
  }
}
