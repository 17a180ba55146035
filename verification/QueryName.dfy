/** extractQueryName (`sniff/src/dns.c:132-172`): the label loop and its hand-grown buffer. */
module QueryName {
  import opened Wire
  import opened Names

  predicate PowerOfTwo(n: nat) {
    n == 1 || (n > 1 && n % 2 == 0 && PowerOfTwo(n / 2))
  }

  lemma DoublePowerOfTwo(n: nat)
    requires PowerOfTwo(n)
    ensures PowerOfTwo(2 * n)
  {
    assert 2 * n / 2 == n;
  }

  /** What the capacity and the sum of requested sizes are worth once `len` bytes are stored. */
  predicate Growth(cap: nat, len: nat, requested: nat) {
    && len <= cap
    && if len == 0 then cap == 0 && requested == 0
       else PowerOfTwo(cap) && cap <= 2 * len - 1 && requested == 2 * cap - 1
  }

  lemma NoGrowthNeeded(cap: nat, len: nat, requested: nat)
    requires Growth(cap, len, requested) && len < cap
    ensures Growth(cap, len + 1, requested)
  {
  }

  lemma GrowthDoubles(cap: nat, len: nat, requested: nat)
    requires Growth(cap, len, requested) && cap <= len
    ensures var bigger := if cap == 0 then 1 else 2 * cap;
            Growth(bigger, len + 1, requested + bigger)
  {
    if cap != 0 { DoublePowerOfTwo(cap); }
  }

  /** C's `realloc` to a size that is not smaller: a block that begins with the old contents. */
  method Realloc(a: array<byte>, size: nat) returns (b: array<byte>)
    requires size >= a.Length
    ensures fresh(b) && b.Length == size && b[..a.Length] == a[..]
  {
    b := new byte[size];
    forall i | 0 <= i < a.Length { b[i] := a[i]; }
    assert b[..a.Length] == a[..];
  }

  /** Stores one byte at the end, growing the block first when it is full. */
  method Append(name: array<byte>, len: nat, c: byte, ghost requested: nat)
    returns (name': array<byte>, ghost requested': nat)
    requires Growth(name.Length, len, requested)
    modifies name
    ensures Growth(name'.Length, len + 1, requested')
    ensures name'[..len + 1] == old(name[..len]) + [c]
    ensures name' == name || fresh(name')
  {
    name', requested' := name, requested;
    var cap := name.Length;
    if cap <= len {
      GrowthDoubles(cap, len, requested);
      if cap == 0 {
        cap := 1;
      } else {
        cap := cap * 2;
      }
      name' := Realloc(name, cap);
      requested' := requested + cap;
    } else {
      NoGrowthNeeded(cap, len, requested);
    }
    assert name'[..len] == old(name[..len]);
    name'[len] := c;
    assert name'[..len + 1] == name'[..len] + [name'[len]];
  }

  /** The inner loop, lines 140-152: stores the label whose length octet is at `cur`. */
  method AppendLabel(name: array<byte>, start: nat, buf: seq<byte>, cur: nat, ghost requested: nat)
    returns (name': array<byte>, len: nat, ghost requested': nat)
    requires cur < |buf| && NextOctet(buf, cur) <= |buf|
    requires Growth(name.Length, start, requested)
    modifies name
    ensures len == start + Value(buf[cur]) && Growth(name'.Length, len, requested')
    ensures name'[..len] == old(name[..start]) + buf[cur + 1..NextOctet(buf, cur)]
    ensures name' == name || fresh(name')
  {
    hide Value, PowerOfTwo;
    name', len, requested' := name, start, requested;
    var octetCount := Value(buf[cur]);
    ghost var before, piece := name[..start], buf[cur + 1..NextOctet(buf, cur)];
    for i := 1 to octetCount + 1
      invariant len == start + i - 1 <= name'.Length && Growth(name'.Length, len, requested')
      invariant name' == name || fresh(name')
      invariant name'[..len] == before + piece[..i - 1]
    {
      name', requested' := Append(name', len, buf[cur + i], requested');
      len := len + 1;
      assert piece[..i] == piece[..i - 1] + [piece[i - 1]];
    }
    assert piece[..octetCount] == piece;
  }

  /** Taking one label off the front of what is still to come. */
  lemma TextStep(before: seq<byte>, l: Label, rest: seq<Label>)
    ensures var text := before + Join([l] + rest);
            && (rest == [] ==> before + l == text)
            && (rest != [] ==> before + l + [DOT] + Join(rest) == text)
  {
    assert ([l] + rest)[1..] == rest;
  }

  /** What the length octet at `cur` says. */
  lemma OctetStep(buf: seq<byte>, cur: nat)
    requires WellFormedName(buf, cur)
    ensures cur < |buf|
    ensures buf[cur] == 0 ==> Labels(buf, cur) == [] && NameEnd(buf, cur) == cur + 1
    ensures buf[cur] != 0 ==>
      var next := NextOctet(buf, cur);
      && cur < next < |buf| && WellFormedName(buf, next)
      && Labels(buf, cur) == [buf[cur + 1..next]] + Labels(buf, next)
      && NameEnd(buf, cur) == NameEnd(buf, next)
  {
  }

  /** The outer loop's body, lines 139-162: one label, and a dot if another label follows. */
  method AppendPart(name: array<byte>, start: nat, buf: seq<byte>, cur: nat, ghost requested: nat)
    returns (name': array<byte>, len: nat, cur': nat, ghost requested': nat)
    requires WellFormedName(buf, cur) && buf[cur] != 0
    requires Growth(name.Length, start, requested)
    modifies name
    ensures cur' == NextOctet(buf, cur) < |buf| && Growth(name'.Length, len, requested')
    ensures name'[..len] == old(name[..start]) + buf[cur + 1..cur'] + (if buf[cur'] != 0 then [46] else [])
    ensures name' == name || fresh(name')
  {
    OctetStep(buf, cur);
    name', len, requested' := AppendLabel(name, start, buf, cur, requested);
    cur' := cur + Value(buf[cur]) + 1;
    if buf[cur'] != 0 {
      name', requested' := Append(name', len, DOT, requested');
      len := len + 1;
    }
  }

  /** The text produced so far, once a label and perhaps a dot have been added to it. */
  lemma PartExtendsText(buf: seq<byte>, cur: nat, before: seq<byte>, text: seq<byte>)
    requires WellFormedName(buf, cur) && buf[cur] != 0 && before + Join(Labels(buf, cur)) == text
    ensures var next := NextOctet(buf, cur);
            && cur < next < |buf| && WellFormedName(buf, next) && NameEnd(buf, next) == NameEnd(buf, cur)
            && before + buf[cur + 1..next] + (if buf[next] != 0 then [DOT] else []) + Join(Labels(buf, next)) == text
  {
    var next := NextOctet(buf, cur);
    OctetStep(buf, cur);
    OctetStep(buf, next);
    TextStep(before, buf[cur + 1..next], Labels(buf, next));
  }

  /**
   The name at `start` as dotted text, zero-terminated. `consumed` counts the wire bytes read,
   `capacity` is the block size before the terminator is stored and `requested` the sum of all sizes
   asked of `realloc`.
   */
  method ExtractQueryName(buf: seq<byte>, start: nat)
    returns (queryName: array<byte>, ghost consumed: nat, ghost capacity: nat, ghost requested: nat)
    requires WellFormedName(buf, start)
    ensures var text := Join(Labels(buf, start));
            && |text| < queryName.Length
            && queryName[..|text|] == text
            && queryName[|text|] == NUL
    ensures start + consumed == NameEnd(buf, start)
    ensures buf[start] == 0 ==> consumed == 1 && queryName[0] == 0
    ensures buf[start] != 0 ==>
      && 2 <= consumed && queryName.Length >= consumed - 1 && queryName[consumed - 2] == 0
      && ReadsInPlace(buf, start, queryName[..consumed - 2])
    ensures var n := |Join(Labels(buf, start))|;
            && (n >= 1 ==> PowerOfTwo(capacity) && n <= capacity <= 2 * n - 1)
            && queryName.Length <= 2 * n + 1
            && requested <= 4 * n + 1
  {
    queryName := new byte[0];
    requested := 0;
    var len: nat := 0;
    var cur: nat := start;
    ghost var text := Join(Labels(buf, start));
    while buf[cur] != 0
      invariant start <= cur < |buf| && WellFormedName(buf, cur) && NameEnd(buf, cur) == NameEnd(buf, start)
      invariant fresh(queryName) && Growth(queryName.Length, len, requested)
      invariant queryName[..len] + Join(Labels(buf, cur)) == text
      decreases |buf| - cur
    {
      PartExtendsText(buf, cur, queryName[..len], text);
      queryName, len, cur, requested := AppendPart(queryName, len, buf, cur, requested);
    }
    assert queryName[..len] == text by {
      assert Labels(buf, cur) == [] && queryName[..len] + [] == text;
    }
    consumed := cur + 1 - start;
    capacity := queryName.Length;
    if queryName.Length <= len {
      queryName := Realloc(queryName, queryName.Length + 1);
      requested := requested + queryName.Length;
    }
    queryName[len] := NUL;
    TextByPlace(buf, start);
  }
}
