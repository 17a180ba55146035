/** The hex dump of a byte block (`sniff_afpacket/src/source-af-packet.c:361-406`). */
module HexDump {
  import opened Wire

  const SPACE: byte := 32
  const NEWLINE: byte := 10
  const PERIOD: byte := 46

  // ----- One byte -----

  /** One digit of `%02X`. */
  function HexDigit(n: byte): (c: byte)
    requires n < 16
  {
    if n < 10 then 48 + n else 55 + n
  }

  /** ` %02X` */
  function Cell(b: byte): seq<byte> {
    [SPACE, HexDigit(b >> 4), HexDigit(b & 0x0F)]
  }

  /** The text column: bytes 32 to 128 as they are, a period for the rest. */
  function Text(b: byte): byte {
    if 32 <= b && b <= 128 then b else PERIOD
  }

  predicate IsHexDigit(c: byte) {
    (48 <= c && c <= 57) || (65 <= c && c <= 70)
  }

  function HexValue(c: byte): byte {
    if c <= 57 then c - 48 else c - 55
  }

  /** The byte that two hex digits write. */
  function HexByte(high: byte, low: byte): byte {
    (HexValue(high) << 4) | HexValue(low)
  }

  lemma CellIsReadable(b: byte)
    ensures IsHexDigit(Cell(b)[1]) && IsHexDigit(Cell(b)[2])
    ensures HexByte(Cell(b)[1], Cell(b)[2]) == b
    ensures Cell(b)[1] != NEWLINE && Cell(b)[2] != NEWLINE
  {
  }

  // ----- Lines -----

  function Spaces(n: nat): (s: seq<byte>)
    ensures |s| == n
    ensures forall i: nat :: i < n ==> s[i] == SPACE
  {
    seq(n, _ => SPACE)
  }

  function Cells(c: seq<byte>): (s: seq<byte>)
    ensures |s| == 3 * |c|
  {
    if c == [] then [] else Cells(c[..|c| - 1]) + Cell(c[|c| - 1])
  }

  function Texts(c: seq<byte>): (s: seq<byte>)
    ensures |s| == |c|
    ensures forall i: nat :: i < |c| ==> s[i] == Text(c[i])
  {
    seq(|c|, i requires 0 <= i < |c| => Text(c[i]))
  }

  /** A line of at most 16 bytes: margin, cells, padding, gap, text, newline. */
  function Line(c: seq<byte>): (s: seq<byte>)
    requires |c| <= 16
    ensures |s| == 61 + |c|
  {
    Spaces(3) + Cells(c) + Spaces(3 * (16 - |c|)) + Spaces(9) + Texts(c) + [NEWLINE]
  }

  /** The first line's bytes and the rest. */
  function First(d: seq<byte>): (c: seq<byte>)
    ensures |c| <= 16 && (d != [] ==> c != []) && c <= d
  {
    if |d| <= 16 then d else d[..16]
  }

  function Rest(d: seq<byte>): (r: seq<byte>)
    ensures d == First(d) + r
  {
    if |d| <= 16 then [] else d[16..]
  }

  /** The dump: split into lines of 16 bytes and render each. */
  function Dump(d: seq<byte>): seq<byte>
    decreases |d|
  {
    if d == [] then [] else Line(First(d)) + Dump(Rest(d))
  }

  function LineCount(n: nat): nat { (n + 15) / 16 }

  // ----- Splitting -----

  lemma Associate(a: seq<byte>, b: seq<byte>, c: seq<byte>)
    ensures a + b + c == a + (b + c)
  {
  }

  lemma FirstLineOf(a: seq<byte>, b: seq<byte>)
    requires |a| >= 16
    ensures First(a + b) == First(a) && Rest(a + b) == Rest(a) + b
    ensures |Rest(a)| == |a| - 16
  {
  }

  /** Dumping distributes over a split after `m` whole lines. */
  lemma {:induction false} DumpAligned(a: seq<byte>, m: nat, b: seq<byte>)
    requires |a| == 16 * m
    ensures Dump(a + b) == Dump(a) + Dump(b)
    decreases m
  {
    hide First, Rest, Line;
    if m == 0 {
      assert a + b == b;
    } else {
      FirstLineOf(a, b);
      DumpAligned(Rest(a), m - 1, b);
      Associate(Line(First(a)), Dump(Rest(a)), Dump(b));
    }
  }

  lemma DumpOneLine(c: seq<byte>)
    requires 0 < |c| <= 16
    ensures Dump(c) == Line(c)
  {
    assert Rest(c) == [];
    assert Dump([]) == [];
  }

  // ----- Reading a line's columns -----

  lemma {:induction false} CellsAt(c: seq<byte>, j: nat)
    requires j < |c|
    ensures Cells(c)[3 * j..3 * j + 3] == Cell(c[j])
    decreases |c|
  {
    var front := c[..|c| - 1];
    if j < |c| - 1 {
      CellsAt(front, j);
      assert Cells(c)[3 * j..3 * j + 3] == Cells(front)[3 * j..3 * j + 3];
    }
  }

  /** Column `j` of a line: a cell where there is a byte, blanks where there is none. */
  lemma LineAt(c: seq<byte>, j: nat)
    requires |c| <= 16 && j < 16
    ensures Line(c)[3 + 3 * j..6 + 3 * j] == if j < |c| then Cell(c[j]) else Spaces(3)
  {
    var l := Line(c);
    if j < |c| {
      CellsAt(c, j);
      assert l[3 + 3 * j..6 + 3 * j] == Cells(c)[3 * j..3 * j + 3];
    } else {
      assert l[3 + 3 * |c|..51] == Spaces(3 * (16 - |c|));
      assert l[3 + 3 * j..6 + 3 * j] == l[3 + 3 * |c|..51][3 * (j - |c|)..3 * (j - |c|) + 3];
    }
  }

  /** The first digit of column `j`. */
  lemma LineDigit(c: seq<byte>, j: nat)
    requires |c| <= 16 && j < 16
    ensures j < |c| ==> IsHexDigit(Line(c)[4 + 3 * j])
    ensures j >= |c| ==> Line(c)[4 + 3 * j] == SPACE
  {
    LineAt(c, j);
    hide Line;
    assert Line(c)[4 + 3 * j] == Line(c)[3 + 3 * j..6 + 3 * j][1];
    if j < |c| { CellIsReadable(c[j]); }
  }

  /** A short line cannot be followed by more: its padding stands where a cell would. */
  lemma ShortLineDiffers(part: seq<byte>, b: seq<byte>)
    requires 0 < |part| < 16 && b != []
    ensures Dump(part + b) != Line(part) + Dump(b)
  {
    hide Line;
    var c, j := First(part + b), |part|;
    LineDigit(c, j);
    LineDigit(part, j);
    assert Dump(part + b)[4 + 3 * j] == Line(c)[4 + 3 * j];
    assert (Line(part) + Dump(b))[4 + 3 * j] == Line(part)[4 + 3 * j];
  }

  lemma PrefixCancels(w: seq<byte>, x: seq<byte>, y: seq<byte>)
    ensures w + x == w + y <==> x == y
  {
    assert (w + x)[|w|..] == x && (w + y)[|w|..] == y;
  }

  lemma MisalignedSplit(whole: seq<byte>, m: nat, part: seq<byte>, b: seq<byte>)
    requires |whole| == 16 * m && 0 < |part| < 16 && b != []
    ensures Dump(whole + part + b) != Dump(whole + part) + Dump(b)
  {
    hide Dump, Line;
    DumpAligned(whole, m, part);
    DumpAligned(whole, m, part + b);
    DumpOneLine(part);
    ShortLineDiffers(part, b);
    PrefixCancels(Dump(whole), Dump(part + b), Line(part) + Dump(b));
    Associate(whole, part, b);
    Associate(Dump(whole), Line(part), Dump(b));
  }

  /** The seamless splits are exactly those at a line boundary, and the one with nothing after it. */
  lemma DumpSplitsExactlyWhenAligned(a: seq<byte>, b: seq<byte>)
    ensures Dump(a + b) == Dump(a) + Dump(b) <==> |a| % 16 == 0 || b == []
  {
    var m := |a| / 16;
    if |a| % 16 == 0 {
      DumpAligned(a, m, b);
    } else if b == [] {
      assert a + b == a && Dump(b) == [];
    } else {
      hide Dump;
      assert a == a[..16 * m] + a[16 * m..];
      MisalignedSplit(a[..16 * m], m, a[16 * m..], b);
    }
  }

  // ----- Reading a dump back -----

  /** How many cells the line at the front of `t` has, counted from column `j` on. */
  function CellCount(t: seq<byte>, j: nat): (k: nat)
    requires j <= 16
    ensures j <= k <= 16 && (k == j || 3 * k + 3 <= |t|)
    decreases 16 - j
  {
    if j < 16 && 6 + 3 * j <= |t| && IsHexDigit(t[4 + 3 * j]) then CellCount(t, j + 1) else j
  }

  /** Reads the hex columns of a dump, ignoring the rest. */
  function ReadBack(t: seq<byte>): seq<byte>
    decreases |t|
  {
    var k := CellCount(t, 0);
    if k == 0 then []
    else
      var line := seq(k, j requires 0 <= j < k => HexByte(t[4 + 3 * j], t[5 + 3 * j]));
      if |t| <= 61 + k then line else line + ReadBack(t[61 + k..])
  }

  lemma {:induction false} CellCountOfLine(c: seq<byte>, t: seq<byte>, j: nat)
    requires |c| <= 16 && j <= |c| && Line(c) <= t
    ensures CellCount(t, j) == |c|
    decreases |c| - j
  {
    if j < 16 {
      LineAt(c, j);
      assert t[3 + 3 * j..6 + 3 * j] == Line(c)[3 + 3 * j..6 + 3 * j];
      assert t[4 + 3 * j] == t[3 + 3 * j..6 + 3 * j][1];
      if j < |c| {
        CellIsReadable(c[j]);
        CellCountOfLine(c, t, j + 1);
      }
    }
  }

  lemma ReadLine(c: seq<byte>, t: seq<byte>, j: nat)
    requires |c| <= 16 && j < |c| && Line(c) <= t
    ensures HexByte(t[4 + 3 * j], t[5 + 3 * j]) == c[j]
  {
    LineAt(c, j);
    var cell := t[3 + 3 * j..6 + 3 * j];
    assert cell == Line(c)[3 + 3 * j..6 + 3 * j];
    assert t[4 + 3 * j] == cell[1] && t[5 + 3 * j] == cell[2];
    CellIsReadable(c[j]);
  }

  /** Reading back takes one line at a time. */
  lemma ReadBackLine(c: seq<byte>, rest: seq<byte>)
    requires 0 < |c| <= 16
    ensures ReadBack(Line(c) + rest) == c + ReadBack(rest)
  {
    hide Line, HexByte;
    var t := Line(c) + rest;
    CellCountOfLine(c, t, 0);
    forall j: nat | j < |c|
      ensures HexByte(t[4 + 3 * j], t[5 + 3 * j]) == c[j]
    {
      ReadLine(c, t, j);
    }
    assert seq(|c|, j requires 0 <= j < |c| => HexByte(t[4 + 3 * j], t[5 + 3 * j])) == c;
    assert t[61 + |c|..] == rest;
    assert ReadBack([]) == [];
  }

  /** The dump is invertible: its hex columns give the data back. */
  lemma {:induction false} ReadBackOfDump(d: seq<byte>)
    ensures ReadBack(Dump(d)) == d
    decreases |d|
  {
    if d != [] {
      hide Line, ReadBack;
      ReadBackOfDump(Rest(d));
      ReadBackLine(First(d), Dump(Rest(d)));
    }
  }

  lemma ReadBackOfNothing()
    ensures ReadBack([]) == []
  {
  }

  lemma DumpStep(d: seq<byte>, t: seq<byte>)
    requires d != []
    ensures Dump(d) + t == Line(First(d)) + (Dump(Rest(d)) + t)
  {
    hide Line;
    Associate(Line(First(d)), Dump(Rest(d)), t);
  }

  lemma DumpOfNothing(t: seq<byte>)
    ensures Dump([]) + t == t
  {
  }

  lemma ReadBackFirst(d: seq<byte>, t: seq<byte>)
    requires d != [] && ReadBack(Dump(Rest(d)) + t) == Rest(d) + ReadBack(t)
    ensures ReadBack(Dump(d) + t) == d + ReadBack(t)
  {
    hide Line, ReadBack, Dump;
    DumpStep(d, t);
    ReadBackLine(First(d), Dump(Rest(d)) + t);
    hide First, Rest;
    Associate(First(d), Rest(d), ReadBack(t));
  }

  /** Reading back a dump goes on into what follows it. */
  lemma {:induction false} ReadBackOfDumpThen(d: seq<byte>, t: seq<byte>)
    ensures ReadBack(Dump(d) + t) == d + ReadBack(t)
    decreases |d|
  {
    if d == [] {
      DumpOfNothing(t);
    } else {
      ReadBackOfDumpThen(Rest(d), t);
      ReadBackFirst(d, t);
    }
  }

  lemma DumpIsInjective(d: seq<byte>, e: seq<byte>)
    requires Dump(d) == Dump(e)
    ensures d == e
  {
    ReadBackOfDump(d);
    ReadBackOfDump(e);
  }

  // ----- Shape -----

  lemma LineCountStep(n: nat)
    requires n > 16
    ensures LineCount(n) == 1 + LineCount(n - 16)
  {
  }

  /** The dump of n bytes has ceil(n / 16) lines, each 61 bytes and one byte per byte dumped. */
  lemma {:induction false} DumpLength(d: seq<byte>)
    ensures |Dump(d)| == 61 * LineCount(|d|) + |d|
    decreases |d|
  {
    if |d| > 16 {
      DumpLength(Rest(d));
      LineCountStep(|d|);
      hide LineCount;
      assert |Dump(d)| == |Line(First(d))| + |Dump(Rest(d))|;
    } else if d != [] {
      DumpOneLine(d);
    }
  }

  lemma {:induction false} CellsHaveNoNewline(c: seq<byte>)
    ensures NEWLINE !in Cells(c)
    decreases |c|
  {
    if c != [] {
      CellsHaveNoNewline(c[..|c| - 1]);
      CellIsReadable(c[|c| - 1]);
    }
  }

  /** A line holds one newline, its last byte. */
  lemma LineEndsWithOnlyNewline(c: seq<byte>)
    requires |c| <= 16
    ensures var s := Line(c); s[|s| - 1] == NEWLINE && NEWLINE !in s[..|s| - 1]
  {
    CellsHaveNoNewline(c);
    var s := Line(c);
    var body := Spaces(3) + Cells(c) + Spaces(3 * (16 - |c|)) + Spaces(9) + Texts(c);
    assert s == body + [NEWLINE];
    assert s[..|s| - 1] == body;
    assert NEWLINE !in Texts(c);
    assert NEWLINE !in Spaces(3) && NEWLINE !in Spaces(9) && NEWLINE !in Spaces(3 * (16 - |c|));
  }

  function Count(t: seq<byte>, b: byte): nat {
    if t == [] then 0 else (if t[0] == b then 1 else 0) + Count(t[1..], b)
  }

  lemma {:induction false} CountConcat(a: seq<byte>, t: seq<byte>, b: byte)
    ensures Count(a + t, b) == Count(a, b) + Count(t, b)
    decreases |a|
  {
    if a == [] {
      assert a + t == t;
    } else {
      assert (a + t)[1..] == a[1..] + t;
      CountConcat(a[1..], t, b);
    }
  }

  lemma {:induction false} CountAbsent(t: seq<byte>, b: byte)
    requires b !in t
    ensures Count(t, b) == 0
    decreases |t|
  {
    if t != [] { CountAbsent(t[1..], b); }
  }

  /** The dump of n bytes has ceil(n / 16) newlines. */
  lemma {:induction false} DumpNewlines(d: seq<byte>)
    ensures Count(Dump(d), NEWLINE) == LineCount(|d|)
    decreases |d|
  {
    if d != [] {
      hide Line;
      var s := Line(First(d));
      var body := s[..|s| - 1];
      LineEndsWithOnlyNewline(First(d));
      assert s == body + [NEWLINE];
      CountAbsent(body, NEWLINE);
      CountConcat(body, [NEWLINE], NEWLINE);
      CountConcat(s, Dump(Rest(d)), NEWLINE);
      DumpNewlines(Rest(d));
      if |d| > 16 { LineCountStep(|d|); }
    }
  }

  // ----- Every column, by its place -----

  /**
   `l` shows the bytes `c` of one line: byte `j` takes columns 3 + 3j to 5 + 3j (a blank and two
   upper-case hex digits) and column 60 + j (itself from 32 to 128, else a period); the other columns
   before 60 are blank and a newline ends the line.
   */
  predicate IsLine(l: seq<byte>, c: seq<byte>) {
    && |c| <= 16 && |l| == 61 + |c|
    && (forall k: nat :: k < 60 && (k < 3 || 3 + 3 * |c| <= k) ==> l[k] == 32)
    && (forall j: nat :: j < |c| ==> IsCell(l[3 + 3 * j], l[4 + 3 * j], l[5 + 3 * j], c[j]))
    && (forall j: nat :: j < |c| ==> l[60 + j] == if 32 <= c[j] && c[j] <= 128 then c[j] else 46)
    && l[60 + |c|] == 10
  }

  /** A blank and the two upper-case hex digits of `b`. */
  predicate IsCell(blank: byte, high: byte, low: byte, b: byte) {
    && blank == 32
    && high == (if b / 16 < 10 then 48 + b / 16 else 55 + b / 16)
    && low == (if b % 16 < 10 then 48 + b % 16 else 55 + b % 16)
  }

  /** The bytes of line `m`. */
  function Chunk(d: seq<byte>, m: nat): (c: seq<byte>)
    requires 16 * m < |d|
    ensures 0 < |c| <= 16
  {
    d[16 * m..if |d| < 16 * m + 16 then |d| else 16 * m + 16]
  }

  /** `t` is nothing but the lines of `d`, 16 bytes each: line `m` starts at 77m. */
  ghost predicate LaidOut(d: seq<byte>, t: seq<byte>) {
    && |t| == 61 * ((|d| + 15) / 16) + |d|
    && forall m: nat :: 16 * m < |d| ==>
         var c := Chunk(d, m); 77 * m + 61 + |c| <= |t| && IsLine(t[77 * m..77 * m + 61 + |c|], c)
  }

  lemma CellIsCell(b: byte)
    ensures IsCell(Cell(b)[0], Cell(b)[1], Cell(b)[2], b)
  {
  }

  lemma LineIsLine(c: seq<byte>)
    requires |c| <= 16
    ensures IsLine(Line(c), c)
  {
    hide Cell, IsCell, IsHexDigit;
    var l := Line(c);
    forall j: nat | j < |c| ensures IsCell(l[3 + 3 * j], l[4 + 3 * j], l[5 + 3 * j], c[j]) {
      CellIsCell(c[j]);
      LineAt(c, j);
      CellOfSlice(l, 3 + 3 * j, c[j]);
    }
    forall k: nat | k < 3 || 3 + 3 * |c| <= k < 60 ensures l[k] == 32 {
      BlankOfLine(c, k);
    }
  }

  lemma BlankOfLine(c: seq<byte>, k: nat)
    requires |c| <= 16 && (k < 3 || 3 + 3 * |c| <= k < 60)
    ensures Line(c)[k] == 32
  {
  }

  lemma CellOfSlice(l: seq<byte>, k: nat, b: byte)
    requires k + 3 <= |l| && l[k..k + 3] == Cell(b)
    ensures l[k] == Cell(b)[0] && l[k + 1] == Cell(b)[1] && l[k + 2] == Cell(b)[2]
  {
    assert l[k..k + 3][0] == l[k] && l[k..k + 3][1] == l[k + 1] && l[k..k + 3][2] == l[k + 2];
  }

  lemma WholeLines(m: nat)
    ensures LineCount(16 * m) == m
  {
  }

  lemma FirstAfter(d: seq<byte>, m: nat)
    requires 16 * m < |d|
    ensures d == d[..16 * m] + d[16 * m..] && d[16 * m..] != [] && First(d[16 * m..]) == Chunk(d, m)
  {
  }

  lemma SliceOfMiddle(a: seq<byte>, l: seq<byte>, z: seq<byte>)
    ensures (a + (l + z))[|a|..|a| + |l|] == l
  {
  }

  /** Line `m` of a dump starts at 77m: the lines before it are whole. */
  lemma DumpLine(d: seq<byte>, m: nat)
    requires 16 * m < |d|
    ensures var l := Line(Chunk(d, m)); 77 * m + |l| <= |Dump(d)| && Dump(d)[77 * m..77 * m + |l|] == l
  {
    hide Line, LineCount, First, Rest, Chunk;
    var whole, rest := d[..16 * m], d[16 * m..];
    FirstAfter(d, m);
    DumpAligned(whole, m, rest);
    DumpLength(whole);
    WholeLines(m);
    SliceOfMiddle(Dump(whole), Line(First(rest)), Dump(Rest(rest)));
  }

  /** Every column of every line of a dump, and nothing else. */
  lemma DumpIsLaidOut(d: seq<byte>)
    ensures LaidOut(d, Dump(d))
  {
    hide Line, Dump, IsLine, Chunk;
    DumpLength(d);
    forall m: nat | 16 * m < |d|
      ensures var c := Chunk(d, m);
              77 * m + 61 + |c| <= |Dump(d)| && IsLine(Dump(d)[77 * m..77 * m + 61 + |c|], c)
    {
      LineIsLine(Chunk(d, m));
      DumpLine(d, m);
    }
  }

  /** Byte `i` is shown in line `i / 16`, column `i % 16`: two hex digits, and its character or a period. */
  lemma ByteIsShown(d: seq<byte>, t: seq<byte>, i: nat)
    requires LaidOut(d, t) && i < |d|
    ensures |t| >= 77 * (i / 16) + 61 + i % 16
    ensures t[77 * (i / 16) + 60 + i % 16] == if 32 <= d[i] && d[i] <= 128 then d[i] else 46
    ensures t[77 * (i / 16) + 4 + 3 * (i % 16)] == if d[i] / 16 < 10 then 48 + d[i] / 16 else 55 + d[i] / 16
    ensures t[77 * (i / 16) + 5 + 3 * (i % 16)] == if d[i] % 16 < 10 then 48 + d[i] % 16 else 55 + d[i] % 16
  {
    var m, j := i / 16, i % 16;
    var c := Chunk(d, m);
    var l := t[77 * m..77 * m + 61 + |c|];
    assert IsLine(l, c) && c[j] == d[i];
    assert l[60 + j] == t[77 * m + 60 + j];
    assert IsCell(l[3 + 3 * j], l[4 + 3 * j], l[5 + 3 * j], c[j]);
  }

  // ----- The loop -----

  /** What the loop has written after the lines of `whole` and the cells of the next line's bytes `c`:
      that line still lacks its text and its newline. */
  function Partial(whole: seq<byte>, c: seq<byte>): seq<byte> {
    Dump(whole) + (Spaces(3) + Cells(c))
  }

  lemma PartialStart(whole: seq<byte>)
    ensures Partial(whole, []) == Dump(whole) + Spaces(3)
  {
  }

  lemma PartialExtends(whole: seq<byte>, c: seq<byte>, b: byte)
    ensures Partial(whole, c + [b]) == Partial(whole, c) + Cell(b)
  {
    assert (c + [b])[..|c|] == c;
    Associate(Spaces(3), Cells(c), Cell(b));
    Associate(Dump(whole), Spaces(3) + Cells(c), Cell(b));
  }

  /** Padding, gap, text and newline complete a line that has its cells. */
  lemma TextCompletesLine(whole: seq<byte>, m: nat, c: seq<byte>)
    requires |whole| == 16 * m && 0 < |c| <= 16
    ensures Partial(whole, c) + Spaces(3 * (16 - |c|)) + Spaces(9) + Texts(c) + [NEWLINE] == Dump(whole + c)
    ensures |c| == 16 ==> Partial(whole, c) + Spaces(9) + Texts(c) + [NEWLINE] == Dump(whole + c)
  {
    DumpAligned(whole, m, c);
    DumpOneLine(c);
    var a, p, g, t := Spaces(3) + Cells(c), Spaces(3 * (16 - |c|)), Spaces(9), Texts(c);
    assert Line(c) == a + p + g + t + [NEWLINE];
    AssociateLine(Dump(whole), a, p, g, t, [NEWLINE]);
    assert |c| == 16 ==> Partial(whole, c) + p == Partial(whole, c);
  }

  lemma AssociateLine(w: seq<byte>, a: seq<byte>, p: seq<byte>, g: seq<byte>, t: seq<byte>, n: seq<byte>)
    ensures w + a + p + g + t + n == w + (a + p + g + t + n)
  {
  }

  /** The text columns of `data[from..to]`: the inner loops of lines 369-375 and 391-401. */
  method PrintText(data: seq<byte>, from: nat, to: nat) returns (out: seq<byte>)
    requires from <= to <= |data|
    ensures out == Texts(data[from..to])
  {
    out := [];
    var j := from;
    while j < to
      invariant from <= j <= to
      invariant out == Texts(data[from..j])
    {
      if data[j] >= 32 && data[j] <= 128 {
        out := out + [data[j]];
      } else {
        out := out + [PERIOD];
      }
      j := j + 1;
    }
  }

  /** The blanks of lines 384-387. */
  method PrintPadding(count: nat) returns (out: seq<byte>)
    ensures out == Spaces(3 * count)
  {
    out := [];
    var j := 0;
    while j < count
      invariant j <= count
      invariant out == Spaces(3 * j)
    {
      out := out + [SPACE, SPACE, SPACE];
      j := j + 1;
    }
  }

  /** The column of index `i` in line `m`. */
  lemma Column(i: nat, m: nat)
    requires 16 * m <= i <= 16 * m + 16
    ensures i % 16 == if i == 16 * m + 16 then 0 else i - 16 * m
  {
  }

  lemma SliceSnoc(data: seq<byte>, q: nat, i: nat)
    requires q <= i < |data|
    ensures data[q..i + 1] == data[q..i] + [data[i]]
  {
  }

  /** What the loop has written when line `m` is current and the bytes before `i` are handled. */
  function Written(data: seq<byte>, m: nat, i: nat): seq<byte>
    requires 16 * m <= i <= |data|
  {
    Partial(data[..16 * m], data[16 * m..i])
  }

  /** Lines 366-377: completes line `m`, whose last byte is the one before `i`. */
  method FlushLine(data: seq<byte>, i: nat, ghost m: nat, out: seq<byte>) returns (out': seq<byte>)
    requires i <= |data| && i == 16 * m + 16
    requires out == Written(data, m, i)
    ensures out' == Dump(data[..i])
  {
    hide Dump, Partial;
    var text := PrintText(data, i - 16, i);
    TextCompletesLine(data[..16 * m], m, data[16 * m..i]);
    assert data[..16 * m] + data[16 * m..i] == data[..i];
    out' := out + Spaces(9) + text + [NEWLINE];
  }

  /** Lines 379-380: the margin of a new line, and one cell of line `m`. */
  method PrintCell(data: seq<byte>, i: nat, ghost m: nat, out: seq<byte>) returns (out': seq<byte>)
    requires 16 * m <= i < 16 * m + 16 && i < |data|
    requires out == if i == 16 * m then Dump(data[..i]) else Written(data, m, i)
    ensures out' == Written(data, m, i + 1)
  {
    hide Dump, Partial, Cell;
    out' := out;
    Column(i, m);
    if i % 16 == 0 {
      out' := out' + Spaces(3);
      PartialStart(data[..i]);
      assert data[i..i] == [];
    }
    out' := out' + Cell(data[i]);
    PartialExtends(data[..16 * m], data[16 * m..i], data[i]);
    SliceSnoc(data, 16 * m, i);
  }

  /** Lines 382-404: completes the last line. */
  method FinishLine(data: seq<byte>, i: nat, ghost m: nat, out: seq<byte>) returns (out': seq<byte>)
    requires 16 * m <= i < 16 * m + 16 && i < |data|
    requires out == Written(data, m, i + 1)
    ensures out' == Dump(data[..i + 1])
  {
    hide Dump, Partial, Spaces;
    Column(i, m);
    var padding := PrintPadding(15 - i % 16);
    var text := PrintText(data, i - i % 16, i + 1);
    ghost var whole, c := data[..16 * m], data[16 * m..i + 1];
    TextCompletesLine(whole, m, c);
    assert padding == Spaces(3 * (16 - |c|)) && text == Texts(c);
    assert whole + c == data[..i + 1];
    out' := out + padding + Spaces(9) + text + [NEWLINE];
  }

  /** Lines 366-380 for index `i`; `m` is the line of the index before. */
  method PrintIndex(data: seq<byte>, i: nat, ghost m: nat, out: seq<byte>)
    returns (out': seq<byte>, ghost m': nat)
    requires i < |data| && 16 * m <= i <= 16 * m + 16 && (i > 0 ==> 16 * m < i)
    requires out == if i == 0 then Dump(data[..0]) else Written(data, m, i)
    ensures 16 * m' <= i < 16 * m' + 16 && out' == Written(data, m', i + 1)
  {
    out', m' := out, m;
    Column(i, m);
    if i != 0 && i % 16 == 0 {
      out' := FlushLine(data, i, m, out');
      m' := m + 1;
    }
    out' := PrintCell(data, i, m', out');
  }

  /** PrintData, lines 361-406; what it writes to the log file is returned. */
  method PrintData(data: seq<byte>, size: int) returns (out: seq<byte>)
    requires size <= |data|
    ensures out == if size <= 0 then [] else Dump(data[..size])
    ensures size > 0 ==> LaidOut(data[..size], out)
  {
    out := [];
    var i := 0;
    ghost var m: nat := 0;
    assert Dump(data[..0]) == [];
    while i < size
      invariant 0 <= i && if size <= 0 then i == 0 else i <= size
      invariant 16 * m <= i <= 16 * m + 16 && (i > 0 ==> 16 * m < i)
      invariant i == 0 ==> out == []
      invariant 0 < i < size ==> out == Written(data, m, i)
      invariant 0 < i == size ==> out == Dump(data[..size])
    {
      out, m := PrintIndex(data, i, m, out);
      if i == size - 1 {
        out := FinishLine(data, i, m, out);
      }
      i := i + 1;
    }
    if size > 0 { DumpIsLaidOut(data[..size]); }
  }
}
