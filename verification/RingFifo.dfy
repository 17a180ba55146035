/**
 What the ring does over whole runs: it is an unbounded FIFO queue, whatever the interleaving of
 kernel and reader, and whichever of the two reader loops runs.
 */
module RingFifo {
  import opened Wire
  import opened Ring
  import opened RingInvariant

  // ----- The specification: an unbounded queue -----

  datatype Fifo = Fifo(queue: seq<Packet>, out: seq<Packet>)

  datatype FifoOp = Enqueue(p: Packet) | Dequeue | Stutter

  datatype Option<T> = None | Some(value: T)

  /** Runs queue operations; None when some Dequeue finds the queue empty. */
  function FifoRun(f: Fifo, ops: seq<FifoOp>): Option<Fifo>
    decreases |ops|
  {
    if ops == [] then Some(f)
    else match ops[0]
      case Enqueue(p) => FifoRun(Fifo(f.queue + [p], f.out), ops[1..])
      case Dequeue => if f.queue == [] then None else FifoRun(Fifo(f.queue[1..], f.out + [f.queue[0]]), ops[1..])
      case Stutter => FifoRun(f, ops[1..])
  }

  /** The slot at the kernel's head can be reserved. */
  predicate HeadFree(s: State)
    requires s.WellFormed()
  {
    !s.slots[s.kernel.head].user && s.kernel.head !in s.kernel.pending
  }

  /** What an action means to the queue. It does not depend on the reader loop. */
  function OpOf(s: State, a: Action): FifoOp
    requires s.WellFormed()
  {
    match a
    case Env(Arrive(p)) => if ValidPacket(p) && HeadFree(s) then Enqueue(p) else Stutter
    case Env(_) => Stutter
    case Tick(_, _) => if s.reader.pc.Process? then Dequeue else Stutter
  }

  function OpsOf(mode: Mode, s: State, acts: seq<Action>): seq<FifoOp>
    requires s.WellFormed()
    decreases |acts|
  {
    if acts == [] then [] else [OpOf(s, acts[0])] + OpsOf(mode, Next(mode, s, acts[0]), acts[1..])
  }

  /** The queue a ring state stands for: accepted but unprocessed packets, and processed ones. */
  function Abstract(s: State): Fifo
    requires |s.reader.processed| <= |s.kernel.accepted|
  {
    Fifo(s.kernel.accepted[|s.reader.processed|..], s.reader.processed)
  }

  lemma NextKeepsInv(mode: Mode, s: State, a: Action)
    requires Inv(s)
    ensures Inv(Next(mode, s, a))
  {
    match a
    case Env(k) => KernelKeepsInv(s, k);
    case Tick(running, poll) => ReaderKeepsInv(mode, s, running, poll);
  }

  lemma FifoRunOne(f: Fifo, op: FifoOp)
    requires op.Dequeue? ==> f.queue != []
    ensures FifoRun(f, [op]) == Some(
              match op
              case Enqueue(p) => Fifo(f.queue + [p], f.out)
              case Dequeue => Fifo(f.queue[1..], f.out + [f.queue[0]])
              case Stutter => f)
  {
    assert [op][1..] == [];
  }

  /** One action of the ring is one operation of the queue. */
  lemma StepRefinesFifo(mode: Mode, s: State, a: Action)
    requires Inv(s)
    ensures Inv(Next(mode, s, a))
    ensures FifoRun(Abstract(s), [OpOf(s, a)]) == Some(Abstract(Next(mode, s, a)))
  {
    NextKeepsInv(mode, s, a);
    if OpOf(s, a).Enqueue? {
      assert Abstract(Next(mode, s, a)).queue == Abstract(s).queue + [a.a.p];
    } else if OpOf(s, a).Dequeue? {
      ProcessKeepsInv(mode, s, a.running, a.poll);
      assert Abstract(Next(mode, s, a)).queue == Abstract(s).queue[1..];
    } else {
      StutterKeepsAbstract(mode, s, a);
    }
    FifoRunOne(Abstract(s), OpOf(s, a));
  }

  lemma StutterKeepsAbstract(mode: Mode, s: State, a: Action)
    requires s.WellFormed() && OpOf(s, a).Stutter?
    ensures Next(mode, s, a).kernel.accepted == s.kernel.accepted
    ensures Next(mode, s, a).reader.processed == s.reader.processed
  {
  }

  lemma FifoRunCons(f: Fifo, op: FifoOp, rest: seq<FifoOp>)
    ensures FifoRun(f, [op] + rest)
            == match FifoRun(f, [op]) { case None => None case Some(g) => FifoRun(g, rest) }
  {
    assert ([op] + rest)[1..] == rest;
    if !(op.Dequeue? && f.queue == []) {
      FifoRunOne(f, op);
    }
  }

  /** Refinement over runs: no Dequeue ever finds the queue empty, and the final queue agrees. */
  lemma {:induction false} RunRefinesFifo(mode: Mode, s: State, acts: seq<Action>)
    requires Inv(s)
    ensures Inv(Exec(mode, s, acts))
    ensures FifoRun(Abstract(s), OpsOf(mode, s, acts)) == Some(Abstract(Exec(mode, s, acts)))
    decreases |acts|
  {
    if acts != [] {
      var t := Next(mode, s, acts[0]);
      var op := OpOf(s, acts[0]);
      StepRefinesFifo(mode, s, acts[0]);
      RunRefinesFifo(mode, t, acts[1..]);
      FifoRunCons(Abstract(s), op, OpsOf(mode, t, acts[1..]));
    }
  }

  // ----- Safety from the initial state -----

  lemma ReachableInv(mode: Mode, n: nat, acts: seq<Action>)
    requires n > 0
    ensures Inv(Exec(mode, Init(n), acts))
  {
    InitInv(n);
    ExecKeepsInv(mode, Init(n), acts);
  }

  lemma InvIsSafe(s: State)
    requires Inv(s)
    ensures s.reader.processed <= s.kernel.accepted && s.reader.pc != Fault
    ensures |s.kernel.accepted| - |s.reader.processed| <= |s.slots|
  {
  }

  /**
   For every ring size, loop and schedule: the packets processed are a prefix of the packets the
   kernel accepted, nothing unread is overwritten, and no half-written packet is read.
   */
  lemma ProcessedIsPrefixOfAccepted(mode: Mode, n: nat, acts: seq<Action>)
    requires n > 0
    ensures var s := Exec(mode, Init(n), acts);
            && s.reader.processed <= s.kernel.accepted
            && |s.kernel.accepted| - |s.reader.processed| <= n
            && s.reader.pc != Fault
  {
    ReachableInv(mode, n, acts);
    InvIsSafe(Exec(mode, Init(n), acts));
  }

  /**
   Conservation at every loop head: each packet is counted once, under its own protocol, and the
   byte counter is the sum of the lengths.
   */
  lemma CountersAtLoopHead(mode: Mode, n: nat, acts: seq<Action>)
    requires n > 0 && Exec(mode, Init(n), acts).reader.pc.Head?
    ensures var r := Exec(mode, Init(n), acts).reader;
            && (forall p <- r.processed :: ValidPacket(p))
            && r.packets == |r.processed| == r.counters.total
            && r.counters.total
               == r.counters.icmp + r.counters.igmp + r.counters.tcp + r.counters.udp + r.counters.others
            && r.counters.icmp == CountProtocol(r.processed, 1)
            && r.counters.igmp == CountProtocol(r.processed, 2)
            && r.counters.tcp == CountProtocol(r.processed, 6)
            && r.counters.udp == CountProtocol(r.processed, 17)
            && CountedByByte23(r.counters, r.processed)
            && r.bytes == SumLengths(r.processed)
            && r.cursor == r.packets % n
  {
    ReachableInv(mode, n, acts);
    MatchedIsCounted(Exec(mode, Init(n), acts).reader.counters, Exec(mode, Init(n), acts).reader.processed);
    var r := Exec(mode, Init(n), acts).reader;
    assert r.processed[..r.packets] == r.processed;
  }

  /** The places of the packets whose byte 23 is `b`. */
  function PlacesOf(ps: seq<Packet>, b: byte): set<nat> {
    set i: nat | i < |ps| && |ps[i].bytes| > 23 && ps[i].bytes[23] == b
  }

  /** Each packet is counted once: under 1, 2, 6 or 17 by its byte 23, else under the others. */
  predicate CountedByByte23(c: Counters, ps: seq<Packet>) {
    && c.total == |ps|
    && c.icmp == |PlacesOf(ps, 1)| && c.igmp == |PlacesOf(ps, 2)|
    && c.tcp == |PlacesOf(ps, 6)| && c.udp == |PlacesOf(ps, 17)|
    && c.icmp + c.igmp + c.tcp + c.udp + c.others == |ps|
  }

  lemma {:induction false} CountIsPlaces(ps: seq<Packet>, b: byte)
    requires forall p <- ps :: ValidPacket(p)
    ensures CountProtocol(ps, b) == |PlacesOf(ps, b)|
    decreases |ps|
  {
    if ps != [] {
      var k: nat := |ps| - 1;
      var front := ps[..k];
      CountIsPlaces(front, b);
      assert ValidPacket(ps[k]);
      var last: set<nat> := if ps[k].bytes[23] == b then {k} else {};
      forall i: nat ensures i in PlacesOf(ps, b) <==> i in PlacesOf(front, b) + last {
        assert i < k ==> front[i] == ps[i];
      }
      assert PlacesOf(ps, b) == PlacesOf(front, b) + last;
    }
  }

  lemma MatchedIsCounted(c: Counters, ps: seq<Packet>)
    requires (forall p <- ps :: ValidPacket(p)) && CountersMatch(c, ps)
    ensures CountedByByte23(c, ps)
  {
    hide PlacesOf, CountProtocol;
    CountIsPlaces(ps, 1);
    CountIsPlaces(ps, 2);
    CountIsPlaces(ps, 6);
    CountIsPlaces(ps, 17);
  }

  /** The lengths of some packets and then others. */
  lemma {:induction false} SumLengthsConcat(ps: seq<Packet>, qs: seq<Packet>)
    ensures SumLengths(ps + qs) == SumLengths(ps) + SumLengths(qs)
    ensures |qs| == 1 ==> SumLengths(qs) == qs[0].len
    decreases |qs|
  {
    if qs == [] {
      assert ps + qs == ps;
    } else {
      assert (ps + qs)[..|ps + qs| - 1] == ps + qs[..|qs| - 1];
      SumLengthsConcat(ps, qs[..|qs| - 1]);
    }
  }

  // ----- Ownership -----

  /** Slot `i` lies in the cyclic interval of `len` slots that starts at `from`. */
  predicate InCyclicInterval(from: nat, len: nat, n: nat, i: nat)
    requires from < n && i < n
  {
    (if from <= i then i - from else i - from + n) < len
  }

  /**
   At a loop head the taken slots are exactly the cyclic interval from the cursor to the kernel's
   head, and each published one holds its whole packet.
   */
  lemma TakenSlotsAreCyclicInterval(s: State)
    requires Inv(s) && s.reader.pc.Head?
    ensures s.kernel.head == (s.reader.cursor + (|s.kernel.accepted| - |s.reader.processed|)) % |s.slots|
    ensures forall i: nat :: i < |s.slots| ==>
      ((s.slots[i].user || i in s.kernel.pending)
       <==> InCyclicInterval(s.reader.cursor, |s.kernel.accepted| - |s.reader.processed|, |s.slots|, i))
  {
    var n, base := |s.slots|, Released(s.reader);
    var unread := |s.kernel.accepted| - base;
    ModShift(s.reader.cursor + unread, base / n, n);
    assert s.reader.cursor + unread + n * (base / n) == |s.kernel.accepted|;
    forall i: nat | i < n
      ensures (s.slots[i].user || i in s.kernel.pending) <==> InCyclicInterval(s.reader.cursor, unread, n, i)
    {
      assert SlotOK(s, i);
    }
  }

  function RunKernel(s: State, ks: seq<KernelAction>): (t: State)
    requires s.WellFormed()
    ensures t.WellFormed() && |t.slots| == |s.slots| && t.reader == s.reader
    decreases |ks|
  {
    if ks == [] then s else RunKernel(KernelStep(s, ks[0]), ks[1..])
  }

  lemma {:induction false} RunKernelKeepsInv(s: State, ks: seq<KernelAction>)
    requires Inv(s)
    ensures Inv(RunKernel(s, ks))
    decreases |ks|
  {
    if ks != [] {
      KernelKeepsInv(s, ks[0]);
      RunKernelKeepsInv(KernelStep(s, ks[0]), ks[1..]);
    }
  }

  /** No kernel activity, however long, changes a slot between the reader's check and its release. */
  lemma {:induction false} KernelLeavesClaimedSlot(s: State, ks: seq<KernelAction>)
    requires Inv(s) && Claims(s.reader.pc)
    ensures RunKernel(s, ks).slots[s.reader.cursor] == s.slots[s.reader.cursor]
    decreases |ks|
  {
    if ks != [] {
      var t := KernelStep(s, ks[0]);
      assert SlotOK(s, s.reader.cursor);
      KernelKeepsInv(s, ks[0]);
      KernelLeavesClaimedSlot(t, ks[1..]);
    }
  }

  /** A ready slot stays ready: the kernel never takes back what it has published. */
  lemma {:induction false} ReadinessIsStable(s: State, ks: seq<KernelAction>)
    requires Inv(s) && s.CursorReady()
    ensures RunKernel(s, ks).CursorReady()
    decreases |ks|
  {
    if ks != [] {
      assert SlotOK(s, s.reader.cursor);
      KernelKeepsInv(s, ks[0]);
      ReadinessIsStable(KernelStep(s, ks[0]), ks[1..]);
    }
  }

  /**
   The kernel may refill the released slot before the reader has moved its cursor: with the other
   slots taken, the next arrival goes into the very slot the cursor still points at.
   */
  lemma RefillBeforeAdvance(s: State, p: Packet)
    requires Inv(s) && s.reader.pc.Advance? && ValidPacket(p)
    requires |s.kernel.accepted| - Released(s.reader) == |s.slots| - 1
    ensures var t := KernelStep(s, Arrive(p));
            && Inv(t)
            && s.kernel.head == s.reader.cursor
            && t.kernel.pending == s.kernel.pending[s.reader.cursor := p]
            && t.kernel.accepted == s.kernel.accepted + [p]
  {
    var n := |s.slots|;
    KernelKeepsInv(s, Arrive(p));
    DropsOnlyWhenFull(s, p);
    ModShift(Advanced(s.reader), 1, n);
    assert Advanced(s.reader) + n * 1 == |s.kernel.accepted|;
  }

  /** The kernel drops a packet exactly when all N slots hold packets not yet handed back. */
  lemma DropsOnlyWhenFull(s: State, p: Packet)
    requires Inv(s) && ValidPacket(p)
    ensures KernelStep(s, Arrive(p)).kernel.dropped == s.kernel.dropped + [p]
            <==> |s.kernel.accepted| - Released(s.reader) == |s.slots|
    ensures KernelStep(s, Arrive(p)).kernel.accepted == s.kernel.accepted + [p]
            <==> |s.kernel.accepted| - Released(s.reader) < |s.slots|
  {
    var k, n, base := s.kernel, |s.slots|, Released(s.reader);
    assert SlotOK(s, k.head);
    if |k.accepted| < base + n {
      TicketUnique(base, n, |k.accepted|);
    }
    assert |k.dropped + [p]| != |k.dropped|;
    assert |k.accepted + [p]| != |k.accepted|;
  }

  // ----- Histories -----

  /** The packets that arrive in a schedule. */
  function Arrivals(acts: seq<Action>): seq<Packet> {
    if acts == [] then []
    else Arrival(acts[0]) + Arrivals(acts[1..])
  }

  /** The packet an action brings, if any. */
  function Arrival(a: Action): seq<Packet> {
    if a.Env? && a.a.Arrive? && ValidPacket(a.a.p) then [a.a.p] else []
  }

  lemma KernelHistory(s: State, a: KernelAction)
    requires s.WellFormed()
    ensures var t := KernelStep(s, a);
            && s.kernel.accepted <= t.kernel.accepted
            && s.kernel.dropped <= t.kernel.dropped
            && Arrived(t) == Arrived(s) + multiset(Arrival(Env(a)))
  {
    var k, t := s.kernel, KernelStep(s, a).kernel;
    if a.Arrive? && ValidPacket(a.p) && HeadFree(s) {
      assert t.accepted == k.accepted + [a.p] && t.dropped == k.dropped;
    } else {
      assert t.accepted == k.accepted && t.dropped == k.dropped + Arrival(Env(a));
    }
    hide KernelStep;
  }

  lemma StepHistory(mode: Mode, s: State, a: Action)
    requires s.WellFormed()
    ensures var t := Next(mode, s, a);
            && s.kernel.accepted <= t.kernel.accepted
            && s.kernel.dropped <= t.kernel.dropped
            && s.reader.processed <= t.reader.processed
            && Arrived(t) == Arrived(s) + multiset(Arrival(a))
  {
    if a.Env? { KernelHistory(s, a.a); }
  }

  /** Everything that has arrived so far. */
  function Arrived(s: State): multiset<Packet> {
    multiset(s.kernel.accepted) + multiset(s.kernel.dropped)
  }

  /** Every arrival is accepted or dropped, once, and histories only grow. */
  lemma {:induction false} ArrivalsAreAcceptedOrDropped(mode: Mode, s: State, acts: seq<Action>)
    requires Inv(s)
    ensures s.kernel.accepted <= Exec(mode, s, acts).kernel.accepted
    ensures s.kernel.dropped <= Exec(mode, s, acts).kernel.dropped
    ensures s.reader.processed <= Exec(mode, s, acts).reader.processed
    ensures Arrived(Exec(mode, s, acts)) == Arrived(s) + multiset(Arrivals(acts))
    decreases |acts|
  {
    if acts != [] {
      var t := Next(mode, s, acts[0]);
      StepHistory(mode, s, acts[0]);
      NextKeepsInv(mode, s, acts[0]);
      ArrivalsAreAcceptedOrDropped(mode, t, acts[1..]);
      assert multiset(Arrivals(acts)) == multiset(Arrival(acts[0])) + multiset(Arrivals(acts[1..]));
    }
  }
}
