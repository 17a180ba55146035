/**
 The ring's ownership invariant, indexed by the reader's position, and the proof that every action
 of the kernel and of the reader keeps it.

 The k-th accepted packet (counting from 0) has ticket k and lives in slot k % N.
 */
module RingInvariant {
  import opened Wire
  import opened Ring

  // ----- Tickets -----

  /** The one ticket in [base, base + n) that belongs to slot `i`. */
  function Ticket(base: nat, n: nat, i: nat): (k: nat)
    requires i < n
    ensures base <= k < base + n
  {
    var c := base % n;
    if c <= i then base + (i - c) else base + (i - c) + n
  }

  lemma MultipleOutside(n: nat, q: int)
    ensures q >= 1 ==> n * q >= n
    ensures q <= -1 ==> n * q <= -(n as int)
  {
  }

  lemma SmallMod(i: nat, n: nat)
    requires i < n
    ensures i % n == i
  {
  }

  lemma ModUnique(a: nat, b: nat, n: nat)
    requires n > 0 && a % n == b % n && a <= b < a + n
    ensures a == b
  {
    var q := b / n - a / n;
    assert b - a == n * q by {
      assert a == n * (a / n) + a % n;
      assert b == n * (b / n) + b % n;
    }
    MultipleOutside(n, q);
  }

  /** A ticket belongs to its slot. */
  lemma TicketSlot(base: nat, n: nat, i: nat)
    requires i < n
    ensures Ticket(base, n, i) % n == i
  {
    var q, c := base / n, base % n;
    assert base == n * q + c;
    var d := if c <= i then q else q + 1;
    assert n * (q + 1) == n * q + n;
    var t: nat := Ticket(base, n, i);
    assert t == i + n * d;
    ModShift(i, d, n);
    SmallMod(i, n);
  }

  lemma ModShift(a: int, q: int, n: nat)
    requires n > 0
    ensures (a + n * q) % n == a % n
  {
    var x := a + n * q;
    assert x == n * (a / n + q) + a % n;
    assert x == n * (x / n) + x % n;
    var d := a / n + q - x / n;
    assert n * d == x % n - a % n;
    MultipleOutside(n, d);
  }

  /** Tickets of the window and slots correspond one to one. */
  lemma TicketUnique(base: nat, n: nat, k: nat)
    requires n > 0 && base <= k < base + n
    ensures Ticket(base, n, k % n) == k
  {
    var t := Ticket(base, n, k % n);
    TicketSlot(base, n, k % n);
    if t <= k { ModUnique(t, k, n); } else { ModUnique(k, t, n); }
  }

  /** When the window moves by one, the slot it leaves gets the window's new last ticket. */
  lemma TicketAdvance(base: nat, n: nat, i: nat)
    requires i < n
    ensures Ticket(base + 1, n, i) == if i == base % n then base + n else Ticket(base, n, i)
  {
    var t := Ticket(base, n, i);
    TicketSlot(base, n, i);
    if i == base % n {
      TicketUnique(base, n, base);
      ModShift(base, 1, n);
      TicketUnique(base + 1, n, base + n);
    } else {
      TicketUnique(base + 1, n, t);
    }
  }

  lemma ModSuccessor(k: nat, n: nat)
    requires n > 0
    ensures (k % n + 1) % n == (k + 1) % n
  {
    ModShift(k % n + 1, k / n, n);
    assert k % n + 1 + n * (k / n) == k + 1;
  }

  // ----- Counters -----

  /** How many packets of `ps` carry protocol byte `b`. */
  function CountProtocol(ps: seq<Packet>, b: byte): nat
    requires forall p <- ps :: ValidPacket(p)
  {
    if ps == [] then 0
    else CountProtocol(ps[..|ps| - 1], b) + (if Protocol(ps[|ps| - 1]) == b then 1 else 0)
  }

  function SumLengths(ps: seq<Packet>): nat {
    if ps == [] then 0 else SumLengths(ps[..|ps| - 1]) + ps[|ps| - 1].len
  }

  predicate CountersMatch(c: Counters, ps: seq<Packet>)
    requires forall p <- ps :: ValidPacket(p)
  {
    && c.total == |ps|
    && c.icmp == CountProtocol(ps, 1)
    && c.igmp == CountProtocol(ps, 2)
    && c.tcp == CountProtocol(ps, 6)
    && c.udp == CountProtocol(ps, 17)
    && c.total == c.icmp + c.igmp + c.tcp + c.udp + c.others
  }

  lemma ClassifyKeepsMatch(c: Counters, ps: seq<Packet>, p: Packet)
    requires (forall q <- ps :: ValidPacket(q)) && ValidPacket(p)
    requires CountersMatch(c, ps)
    ensures forall q <- ps + [p] :: ValidPacket(q)
    ensures CountersMatch(Classify(c, Protocol(p)), ps + [p])
  {
    assert (ps + [p])[..|ps|] == ps;
  }

  // ----- The invariant -----

  /** The reader holds the slot under its cursor: it has seen the flag and not yet cleared it. */
  predicate Claims(pc: PC) {
    pc.Process? || pc.Count? || pc.Release?
  }

  /** How many packets the reader has handed back. */
  function Released(r: Reader): nat {
    if (r.pc.Count? || r.pc.Release?) && r.processed != [] then |r.processed| - 1 else |r.processed|
  }

  /** How many times the reader has moved its cursor. */
  function Advanced(r: Reader): int {
    Released(r) - (if r.pc.Advance? then 1 else 0)
  }

  /** Slot `i` holds a packet that was accepted and not yet handed back. */
  predicate Outstanding(s: State, i: nat)
    requires s.WellFormed() && i < |s.slots|
  {
    Ticket(Released(s.reader), |s.slots|, i) < |s.kernel.accepted|
  }

  /** Slot `i` is in exactly one of three conditions: free, reserved and being filled, or published. */
  predicate SlotOK(s: State, i: nat)
    requires s.WellFormed() && i < |s.slots|
  {
    var slot := s.slots[i];
    if Outstanding(s, i) then
      var p := s.kernel.accepted[Ticket(Released(s.reader), |s.slots|, i)];
      if i in s.kernel.pending then !slot.user && s.kernel.pending[i] == p && slot.data <= p.bytes
      else slot.user && slot.Seen() == p
    else i !in s.kernel.pending && !slot.user
  }

  predicate ReaderOK(s: State)
    requires s.WellFormed()
  {
    var r := s.reader;
    && Advanced(r) >= 0
    && (r.pc.Count? || r.pc.Release? ==> r.processed != [])
    && r.cursor == Advanced(r) % |s.slots|
    && !r.pc.Fault?
    && r.processed <= s.kernel.accepted
    && (forall p <- r.processed :: ValidPacket(p))
    && (Claims(r.pc) ==> s.slots[r.cursor].user)
    && r.packets == |r.processed| - (if r.pc.Count? then 1 else 0)
    && r.bytes == SumLengths(r.processed[..r.packets])
  }

  predicate KernelOK(s: State)
    requires s.WellFormed()
  {
    && (forall p <- s.kernel.accepted :: ValidPacket(p))
    && s.kernel.head == |s.kernel.accepted| % |s.slots|
    && Released(s.reader) <= |s.kernel.accepted| <= Released(s.reader) + |s.slots|
  }

  predicate Inv(s: State) {
    && s.WellFormed()
    && ReaderOK(s)
    && KernelOK(s)
    && CountersMatch(s.reader.counters, s.reader.processed)
    && (forall i: nat :: i < |s.slots| ==> SlotOK(s, i))
  }

  lemma InitInv(n: nat)
    requires n > 0
    ensures Inv(Init(n))
  {
    var s := Init(n);
    assert s.reader.processed == [] && s.kernel.accepted == [];
    forall i: nat | i < n ensures SlotOK(s, i) {
      assert s.slots[i] == EMPTY_SLOT;
    }
  }

  lemma ArriveKeepsInv(s: State, p: Packet)
    requires Inv(s)
    ensures Inv(KernelStep(s, Arrive(p)))
  {
    var t := KernelStep(s, Arrive(p));
    var k, n, base := s.kernel, |s.slots|, Released(s.reader);
    if t.kernel.accepted != k.accepted {
      assert SlotOK(s, k.head);
      assert |k.accepted| < base + n;
      TicketUnique(base, n, |k.accepted|);
      ModSuccessor(|k.accepted|, n);
      forall i: nat | i < n ensures SlotOK(t, i) {
        assert SlotOK(s, i);
        TicketSlot(base, n, i);
      }
      if Claims(s.reader.pc) {
        assert SlotOK(s, s.reader.cursor);
      }
    } else {
      forall i: nat | i < n ensures SlotOK(t, i) { assert SlotOK(s, i); }
    }
  }

  lemma KernelKeepsInv(s: State, a: KernelAction)
    requires Inv(s)
    ensures Inv(KernelStep(s, a))
  {
    if a.Arrive? {
      ArriveKeepsInv(s, a.p);
    } else {
      var t := KernelStep(s, a);
      assert SlotOK(s, s.reader.cursor);
      forall i: nat | i < |s.slots| ensures SlotOK(t, i) { assert SlotOK(s, i); }
    }
  }

  lemma ProcessKeepsInv(mode: Mode, s: State, running: bool, poll: int)
    requires Inv(s) && s.reader.pc.Process?
    ensures Inv(ReaderStep(mode, s, running, poll))
    ensures ReaderStep(mode, s, running, poll).reader.pc.Count?
    ensures |s.reader.processed| < |s.kernel.accepted|
    ensures ReaderStep(mode, s, running, poll).reader.processed == s.reader.processed + [s.kernel.accepted[|s.reader.processed|]]
  {
    var r, n := s.reader, |s.slots|;
    var t := ReaderStep(mode, s, running, poll);
    assert SlotOK(s, r.cursor);
    TicketUnique(Released(r), n, Released(r));
    var p := s.slots[r.cursor].Seen();
    assert p == s.kernel.accepted[|r.processed|];
    ClassifyKeepsMatch(r.counters, r.processed, p);
    assert t.reader.processed[..|r.processed|] == r.processed[..|r.processed|];
    forall i: nat | i < n ensures SlotOK(t, i) { assert SlotOK(s, i); }
  }

  lemma CountKeepsInv(mode: Mode, s: State, running: bool, poll: int)
    requires Inv(s) && s.reader.pc.Count?
    ensures Inv(ReaderStep(mode, s, running, poll))
  {
    var r, n := s.reader, |s.slots|;
    var t := ReaderStep(mode, s, running, poll);
    assert SlotOK(s, r.cursor);
    TicketUnique(Released(r), n, Released(r));
    assert s.slots[r.cursor].Seen() == r.processed[Released(r)];
    assert r.processed[..|r.processed|] == r.processed;
    forall i: nat | i < n ensures SlotOK(t, i) { assert SlotOK(s, i); }
  }

  lemma ReleaseKeepsInv(mode: Mode, s: State, running: bool, poll: int)
    requires Inv(s) && s.reader.pc.Release?
    ensures Inv(ReaderStep(mode, s, running, poll))
  {
    var r, n, base := s.reader, |s.slots|, Released(s.reader);
    var t := ReaderStep(mode, s, running, poll);
    assert SlotOK(s, r.cursor);
    forall i: nat | i < n ensures SlotOK(t, i) {
      assert SlotOK(s, i);
      TicketAdvance(base, n, i);
    }
  }

  lemma ReaderKeepsInv(mode: Mode, s: State, running: bool, poll: int)
    requires Inv(s)
    ensures Inv(ReaderStep(mode, s, running, poll))
  {
    var t := ReaderStep(mode, s, running, poll);
    if s.reader.pc.Process? {
      ProcessKeepsInv(mode, s, running, poll);
    } else if s.reader.pc.Count? {
      CountKeepsInv(mode, s, running, poll);
    } else if s.reader.pc.Release? {
      ReleaseKeepsInv(mode, s, running, poll);
    } else {
      ModSuccessor(Advanced(s.reader), |s.slots|);
      forall i: nat | i < |s.slots| ensures SlotOK(t, i) { assert SlotOK(s, i); }
    }
  }

  /** Every schedule, from any state that satisfies the invariant, keeps it. */
  lemma {:induction false} ExecKeepsInv(mode: Mode, s: State, acts: seq<Action>)
    requires Inv(s)
    ensures Inv(Exec(mode, s, acts))
    decreases |acts|
  {
    if acts != [] {
      match acts[0] {
        case Env(a) => KernelKeepsInv(s, a);
        case Tick(running, poll) => ReaderKeepsInv(mode, s, running, poll);
      }
      ExecKeepsInv(mode, Next(mode, s, acts[0]), acts[1..]);
    }
  }
}
