/**
 Domain names as labels, on the wire (section 3.1 of RFC 1035) and as dotted text.
 The reader of the wire form is the one of `sniff/src/dns.c:132-172`: a length octet of any value from
 1 to 255 introduces a label, so the top two bits are not taken as a compression mark.
 */
module Names {
  import opened Wire

  type Label = seq<byte>

  const DOT: byte := 46
  const NUL: byte := 0

  predicate WireLabels(ls: seq<Label>) {
    forall l <- ls :: 1 <= |l| <= 255
  }

  // ----- Wire form -----

  /** Length octet and bytes of each label, then the zero octet of the root. */
  function EncodeName(ls: seq<Label>): seq<byte>
    requires WireLabels(ls)
  {
    if ls == [] then [0] else [Octet(|ls[0]|)] + ls[0] + EncodeName(ls[1..])
  }

  /** The label whose length octet is at `off`, and where the next length octet is. */
  function NextOctet(buf: seq<byte>, off: nat): nat
    requires off < |buf|
  {
    off + 1 + Value(buf[off])
  }

  /** A terminated name starts at `off`: every length octet up to the root's lies in the buffer. */
  predicate WellFormedName(buf: seq<byte>, off: nat)
    decreases |buf| - off
  {
    off < |buf| && (buf[off] == 0 || (NextOctet(buf, off) < |buf| && WellFormedName(buf, NextOctet(buf, off))))
  }

  function Labels(buf: seq<byte>, off: nat): seq<Label>
    requires WellFormedName(buf, off)
    decreases |buf| - off
  {
    if buf[off] == 0 then []
    else [buf[off + 1..NextOctet(buf, off)]] + Labels(buf, NextOctet(buf, off))
  }

  /** One past the root octet. */
  function NameEnd(buf: seq<byte>, off: nat): (e: nat)
    requires WellFormedName(buf, off)
    ensures off < e <= |buf|
    decreases |buf| - off
  {
    if buf[off] == 0 then off + 1 else NameEnd(buf, NextOctet(buf, off))
  }

  lemma SliceAtLabel(buf: seq<byte>, off: nat, next: nat, end: nat)
    requires off < next <= end <= |buf|
    ensures buf[off..end] == [buf[off]] + buf[off + 1..next] + buf[next..end]
  {
  }

  /** What the reader consumed is the encoding of the labels it found. */
  lemma {:induction false} EncodeOfLabels(buf: seq<byte>, off: nat)
    requires WellFormedName(buf, off)
    ensures WireLabels(Labels(buf, off))
    ensures buf[off..NameEnd(buf, off)] == EncodeName(Labels(buf, off))
    decreases |buf| - off
  {
    hide Value, Octet;
    if buf[off] != 0 {
      var next := NextOctet(buf, off);
      EncodeOfLabels(buf, next);
      var ls := Labels(buf, off);
      assert Octet(|ls[0]|) == buf[off] by { OctetOfValue(buf[off]); }
      assert ls[0] == buf[off + 1..next] && ls[1..] == Labels(buf, next);
      SliceAtLabel(buf, off, next, NameEnd(buf, next));
    }
  }

  /** Reading an encoding, wherever it stands and whatever follows it, gives its labels back. */
  lemma {:induction false} LabelsOfEncode(buf: seq<byte>, off: nat, ls: seq<Label>)
    requires WireLabels(ls) && At(buf, off, EncodeName(ls))
    ensures WellFormedName(buf, off)
    ensures Labels(buf, off) == ls
    ensures NameEnd(buf, off) == off + |EncodeName(ls)|
    decreases |ls|
  {
    hide Value, Octet;
    if ls == [] {
      AtFirst(buf, off, EncodeName(ls));
    } else {
      var l, rest := ls[0], ls[1..];
      AtSplit(buf, off, [Octet(|l|)] + l, EncodeName(rest));
      AtSplit(buf, off, [Octet(|l|)], l);
      AtFirst(buf, off, [Octet(|l|)]);
      LabelsOfEncode(buf, off + 1 + |l|, rest);
      assert NextOctet(buf, off) == off + 1 + |l| && NameEnd(buf, off) == NameEnd(buf, off + 1 + |l|);
      assert |EncodeName(ls)| == 1 + |l| + |EncodeName(rest)|;
      assert buf[off + 1..off + 1 + |l|] == l;
    }
  }

  /** The reader looks at no byte after the root octet: the name alone is enough to read it. */
  lemma NameAloneSuffices(buf: seq<byte>, off: nat)
    requires WellFormedName(buf, off)
    ensures var cut := buf[..NameEnd(buf, off)];
            WellFormedName(cut, off) && Labels(cut, off) == Labels(buf, off) && NameEnd(cut, off) == |cut|
  {
    hide WellFormedName, Labels, NameEnd, EncodeName;
    var ls, cut := Labels(buf, off), buf[..NameEnd(buf, off)];
    EncodeOfLabels(buf, off);
    assert At(cut, off, EncodeName(ls)) by {
      assert EncodeName(ls) == cut[off..];
    }
    LabelsOfEncode(cut, off, ls);
  }

  // ----- Dotted text -----

  function Join(ls: seq<Label>): seq<byte> {
    if ls == [] then []
    else if |ls| == 1 then ls[0]
    else ls[0] + [DOT] + Join(ls[1..])
  }

  function Split(t: seq<byte>): (ls: seq<Label>)
    ensures ls != []
  {
    if t == [] then [[]]
    else if t[0] == DOT then [[]] + Split(t[1..])
    else var ls := Split(t[1..]); [[t[0]] + ls[0]] + ls[1..]
  }

  predicate DotFree(ls: seq<Label>) {
    forall l <- ls :: DOT !in l
  }

  lemma {:induction false} SplitIsDotFree(t: seq<byte>)
    ensures DotFree(Split(t))
    decreases |t|
  {
    if t != [] { SplitIsDotFree(t[1..]); }
  }

  lemma {:induction false} JoinOfSplit(t: seq<byte>)
    ensures Join(Split(t)) == t
    decreases |t|
  {
    if t != [] {
      JoinOfSplit(t[1..]);
      var ls := Split(t[1..]);
      if t[0] == DOT {
        assert Split(t)[1..] == ls;
      } else {
        assert Split(t)[1..] == ls[1..];
      }
    }
  }

  lemma {:induction false} SplitAtDot(l: Label, t: seq<byte>)
    requires DOT !in l
    ensures Split(l) == [l]
    ensures Split(l + [DOT] + t) == [l] + Split(t)
    decreases |l|
  {
    var all := l + [DOT] + t;
    if l == [] {
      assert all[1..] == t;
    } else {
      SplitAtDot(l[1..], t);
      assert all[1..] == l[1..] + [DOT] + t;
      assert l == [l[0]] + l[1..];
    }
  }

  /** The labels can be recovered from the text exactly when there are some and none holds a dot. */
  lemma {:induction false} SplitOfJoin(ls: seq<Label>)
    ensures Split(Join(ls)) == ls <==> ls != [] && DotFree(ls)
    decreases |ls|
  {
    if ls != [] && DotFree(ls) {
      if |ls| == 1 {
        SplitAtDot(ls[0], []);
      } else {
        SplitOfJoin(ls[1..]);
        SplitAtDot(ls[0], Join(ls[1..]));
        assert ls == [ls[0]] + ls[1..];
      }
    } else {
      SplitIsDotFree(Join(ls));
    }
  }

  /**
   Splitting the text that was read and encoding it again gives the wire bytes exactly when the name
   has a label and no label holds a dot.
   */
  lemma TextReencodes(buf: seq<byte>, off: nat)
    requires WellFormedName(buf, off)
    ensures var ls := Labels(buf, off);
            var again := Split(Join(ls));
            WireLabels(again) && EncodeName(again) == buf[off..NameEnd(buf, off)] <==> ls != [] && DotFree(ls)
  {
    var ls, wire := Labels(buf, off), buf[off..NameEnd(buf, off)];
    var again := Split(Join(ls));
    EncodeOfLabels(buf, off);
    SplitOfJoin(ls);
    if WireLabels(again) && EncodeName(again) == wire {
      LabelsOfEncode(wire, 0, again);
      LabelsOfEncode(wire, 0, ls);
    }
  }

  /** Whether `j` is the place of a length octet of the name at `off`: the first one, or one that an earlier leads to. */
  predicate IsLengthOctet(buf: seq<byte>, off: nat, j: nat)
    decreases |buf| - off
  {
    j == off || (off < |buf| && buf[off] != 0 && IsLengthOctet(buf, off + 1 + (buf[off] as int), j))
  }

  lemma {:induction false} LengthOctetsFollow(buf: seq<byte>, off: nat, j: nat)
    requires IsLengthOctet(buf, off, j)
    ensures off <= j
    decreases |buf| - off
  {
    if j != off { LengthOctetsFollow(buf, off + 1 + (buf[off] as int), j); }
  }

  /** Inside the first label there is no length octet, and after it those of the rest of the name. */
  lemma LengthOctetsAfter(buf: seq<byte>, off: nat, j: nat)
    requires off < |buf| && buf[off] != 0 && off < j
    ensures var next := off + 1 + (buf[off] as int);
            && (j < next ==> !IsLengthOctet(buf, off, j))
            && (next <= j ==> (IsLengthOctet(buf, off, j) <==> IsLengthOctet(buf, next, j)))
  {
    var next := off + 1 + (buf[off] as int);
    if IsLengthOctet(buf, next, j) { LengthOctetsFollow(buf, next, j); }
  }

  lemma TextOfFirst(buf: seq<byte>, off: nat)
    requires WellFormedName(buf, off) && buf[off] != 0
    ensures var next := off + 1 + (buf[off] as int);
            && next < |buf| && WellFormedName(buf, next) && NameEnd(buf, off) == NameEnd(buf, next)
            && Join(Labels(buf, off))
               == buf[off + 1..next] + (if buf[next] == 0 then [] else [46] + Join(Labels(buf, next)))
  {
    var next := NextOctet(buf, off);
    var l, rest := buf[off + 1..next], Labels(buf, next);
    assert Labels(buf, off) == [l] + rest && ([l] + rest)[1..] == rest;
    assert l + [DOT] + Join(rest) == l + ([DOT] + Join(rest));
  }

  /**
   `text` by its place on the wire: the name without its first octet, where each further length octet
   has become a period (46) and every other byte is itself.
   */
  predicate ReadsInPlace(buf: seq<byte>, off: nat, text: seq<byte>) {
    && off + 1 + |text| <= |buf|
    && forall i: nat :: i < |text| ==> text[i] == if IsLengthOctet(buf, off, off + 1 + i) then 46 else buf[off + 1 + i]
  }

  lemma InPlaceAt(buf: seq<byte>, off: nat, text: seq<byte>, i: nat)
    requires ReadsInPlace(buf, off, text) && i < |text|
    ensures text[i] == if IsLengthOctet(buf, off, off + 1 + i) then 46 else buf[off + 1 + i]
  {
    hide IsLengthOctet;
  }

  lemma FirstLabelInPlaceAt(buf: seq<byte>, off: nat, tail: seq<byte>, i: nat)
    requires off < |buf| && buf[off] != 0 && i < (buf[off] as int) + |tail|
    requires var next := off + 1 + (buf[off] as int);
             && next < |buf| && next + |tail| <= |buf|
             && (tail == [] || (tail[0] == 46 && ReadsInPlace(buf, next, tail[1..])))
    ensures var text := buf[off + 1..off + 1 + (buf[off] as int)] + tail;
            text[i] == if IsLengthOctet(buf, off, off + 1 + i) then 46 else buf[off + 1 + i]
  {
    var next, j := off + 1 + (buf[off] as int), off + 1 + i;
    LengthOctetsAfter(buf, off, j);
    assert IsLengthOctet(buf, next, next);
    hide IsLengthOctet, ReadsInPlace;
    if j > next { InPlaceAt(buf, next, tail[1..], j - next - 1); }
  }

  lemma FirstLabelInPlace(buf: seq<byte>, off: nat, tail: seq<byte>)
    requires off < |buf| && buf[off] != 0
    requires var next := off + 1 + (buf[off] as int);
             && next < |buf|
             && (tail == [] || (tail[0] == 46 && ReadsInPlace(buf, next, tail[1..])))
    ensures ReadsInPlace(buf, off, buf[off + 1..off + 1 + (buf[off] as int)] + tail)
  {
    hide IsLengthOctet;
    var text := buf[off + 1..off + 1 + (buf[off] as int)] + tail;
    forall i: nat | i < |text|
      ensures text[i] == if IsLengthOctet(buf, off, off + 1 + i) then 46 else buf[off + 1 + i]
    {
      FirstLabelInPlaceAt(buf, off, tail, i);
    }
  }

  lemma TextStepByPlace(buf: seq<byte>, off: nat)
    requires WellFormedName(buf, off) && buf[off] != 0
    requires var next := off + 1 + (buf[off] as int);
             next < |buf| && WellFormedName(buf, next) && ReadsInPlace(buf, next, Join(Labels(buf, next)))
    ensures ReadsInPlace(buf, off, Join(Labels(buf, off)))
  {
    hide Join, Labels, WellFormedName, NameEnd, ReadsInPlace;
    var next := off + 1 + (buf[off] as int);
    TextOfFirst(buf, off);
    var tail := if buf[next] == 0 then [] else [46] + Join(Labels(buf, next));
    assert tail != [] ==> tail[1..] == Join(Labels(buf, next));
    FirstLabelInPlace(buf, off, tail);
  }

  /** The text is the name in place, up to but not including the root octet. */
  lemma {:induction false} TextByPlace(buf: seq<byte>, off: nat)
    requires WellFormedName(buf, off)
    ensures buf[NameEnd(buf, off) - 1] == 0 && IsLengthOctet(buf, off, NameEnd(buf, off) - 1)
    ensures buf[off] == 0 ==> NameEnd(buf, off) == off + 1 && Join(Labels(buf, off)) == []
    ensures buf[off] != 0 ==> |Join(Labels(buf, off))| == NameEnd(buf, off) - off - 2
    ensures ReadsInPlace(buf, off, Join(Labels(buf, off)))
    decreases |buf| - off
  {
    if buf[off] != 0 {
      TextOfFirst(buf, off);
      TextByPlace(buf, off + 1 + (buf[off] as int));
      TextStepByPlace(buf, off);
    }
  }

  /** 6github3com0 is read as github.com. */
  lemma GithubCom()
    ensures var wire: seq<byte> := [6, 103, 105, 116, 104, 117, 98, 3, 99, 111, 109, 0];
            && WellFormedName(wire, 0) && NameEnd(wire, 0) == 12
            && Join(Labels(wire, 0)) == [103, 105, 116, 104, 117, 98, 46, 99, 111, 109]
  {
    var wire: seq<byte> := [6, 103, 105, 116, 104, 117, 98, 3, 99, 111, 109, 0];
    assert Value(6) == 6 && Value(3) == 3;
    assert NextOctet(wire, 0) == 7 && NextOctet(wire, 7) == 11;
    assert wire[1..7] == [103, 105, 116, 104, 117, 98] && wire[8..11] == [99, 111, 109];
    assert Labels(wire, 11) == [] && Labels(wire, 7) == [wire[8..11]];
    var ls := Labels(wire, 0);
    assert ls == [wire[1..7], wire[8..11]] && ls[1..] == [wire[8..11]];
  }

  /** The one label "." is read as the text ".", which splits into two empty labels: no name at all. */
  lemma DottedLabelIsMissplit()
    ensures var wire: seq<byte> := [1, 46, 0];
            && WellFormedName(wire, 0) && NameEnd(wire, 0) == |wire|
            && Labels(wire, 0) == [[46]] && Join(Labels(wire, 0)) == [46]
            && Split([46]) == [[], []] && !WireLabels([[], []])
  {
    var wire: seq<byte> := [1, DOT, 0];
    var ls: seq<Label> := [[DOT]];
    ValueIsInjective(Octet(1), 1);
    assert ls[1..] == [] && EncodeName(ls) == wire;
    LabelsOfEncode(wire, 0, ls);
    assert [DOT][1..] == [];
  }

  // ----- Lengths -----

  /** A nonempty name takes two bytes more on the wire than as text. */
  lemma {:induction false} WireIsTextPlusTwo(ls: seq<Label>)
    requires WireLabels(ls)
    ensures |EncodeName(ls)| == |Join(ls)| + (if ls == [] then 1 else 2)
    decreases |ls|
  {
    if ls != [] {
      WireIsTextPlusTwo(ls[1..]);
      assert |ls| == 1 ==> ls[1..] == [];
    }
  }

  /** `strlen` of a byte string that holds a zero byte. */
  function Strlen(s: seq<byte>): (n: nat)
    requires NUL in s
    ensures n < |s| && s[n] == 0 && NUL !in s[..n]
  {
    if s[0] == 0 then 0
    else
      var n := Strlen(s[1..]);
      assert s[..n + 1] == [s[0]] + s[1..][..n];
      n + 1
  }

  lemma {:induction false} StrlenIsFirstZero(s: seq<byte>, k: nat)
    requires k < |s| && s[k] == NUL && NUL !in s[..k]
    ensures Strlen(s) == k
    decreases |s|
  {
    if k > 0 {
      assert s[0] == s[..k][0];
      assert s[..k] == [s[0]] + s[1..][..k - 1];
      StrlenIsFirstZero(s[1..], k - 1);
    }
  }

  predicate ZeroFree(ls: seq<Label>) {
    forall l <- ls :: NUL !in l
  }

  lemma {:induction false} ZeroInJoin(ls: seq<Label>)
    ensures NUL in Join(ls) <==> !ZeroFree(ls)
    decreases |ls|
  {
    if |ls| > 1 {
      ZeroInJoin(ls[1..]);
      assert ls == [ls[0]] + ls[1..];
    }
  }

  /** `strlen` of a terminated text sees all of it exactly when the text has no zero byte. */
  lemma StrlenOfTerminated(t: seq<byte>)
    ensures Strlen(t + [NUL]) <= |t|
    ensures Strlen(t + [NUL]) == |t| <==> NUL !in t
  {
    var s := t + [NUL];
    var n := Strlen(s);
    assert n < |t| ==> t[n] == 0;
    assert s[..|t|] == t;
  }
}
