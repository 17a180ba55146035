/**
 The polling loop's "no more packets" exit (`sniff_afpacket/src/source-af-packet.c:620-623`).

 `poll` reports the socket readable when the slot the kernel reserved last has been published, but
 the reader then looks at the oldest unread slot.  The exit is unreachable when the kernel publishes
 in order and `poll` returns a positive value only for readable data; each of the two conditions is
 needed.
 */
module RingPolling {
  import opened Ring
  import opened RingInvariant
  import opened RingFifo

  // ----- The events test of the loop -----

  const POLLIN: bv16 := 0x0001
  const POLLERR: bv16 := 0x0008
  const POLLHUP: bv16 := 0x0010
  const POLLNVAL: bv16 := 0x0020
  const POLLRDHUP: bv16 := 0x2000

  /** `fds.events & (POLLHUP|POLLRDHUP|POLLERR|POLLNVAL)`: what the loop's first branch tests. */
  predicate HangupTest(events: bv16) {
    events & (POLLHUP | POLLRDHUP | POLLERR | POLLNVAL) != 0
  }

  /**
   The branch tests the requested events, which the program sets to POLLIN, so it is never taken;
   a test of the returned events would see every error.
   */
  lemma HangupBranchIsDead()
    ensures !HangupTest(0x0001)
    ensures forall returned: bv16 :: HangupTest(returned) <==> returned & 0x2038 != 0
  {
  }

  // ----- In-order publication and honest polling -----

  function TicketOf(s: State, i: nat): nat
    requires s.WellFormed() && i < |s.slots|
  {
    Ticket(Released(s.reader), |s.slots|, i)
  }

  /** Of the slots being written, `i` was reserved first. */
  predicate OldestPending(s: State, i: nat)
    requires s.WellFormed() && i < |s.slots|
  {
    forall j <- s.kernel.pending :: TicketOf(s, i) <= TicketOf(s, j)
  }

  /** The kernel publishes only the oldest pending slot; `poll` is positive only when readable. */
  predicate HonestAction(s: State, a: Action)
    requires s.WellFormed()
  {
    match a
    case Env(Publish(i)) => i < |s.slots| && i in s.kernel.pending ==> OldestPending(s, i)
    case Env(_) => true
    case Tick(_, poll) => s.reader.pc.Wait? && poll > 0 ==> s.PollReady()
  }

  predicate HonestSchedule(s: State, acts: seq<Action>)
    requires s.WellFormed()
    decreases |acts|
  {
    acts == [] || (HonestAction(s, acts[0]) && HonestSchedule(Next(Polling, s, acts[0]), acts[1..]))
  }

  /** Everything before a published slot is published. */
  predicate PublishedInOrder(s: State)
    requires s.WellFormed()
  {
    forall i: nat, j <- s.kernel.pending ::
      i < |s.slots| && Outstanding(s, i) && i !in s.kernel.pending ==> TicketOf(s, i) < TicketOf(s, j)
  }

  /** The polling invariant: a check is made only of a slot that is ready. */
  predicate PollInv(s: State) {
    && Inv(s)
    && PublishedInOrder(s)
    && ChecksOnlyReady(s)
  }

  predicate ChecksOnlyReady(s: State)
    requires s.WellFormed()
  {
    match s.reader.pc
    case Check => s.CursorReady()
    case Exit(reason) => reason != NoMorePackets
    case _ => true
  }

  /** With something unread, the slot reserved last holds the last ticket; otherwise it is free. */
  lemma NewestSlotTicket(s: State)
    requires Inv(s)
    ensures var unreleased := |s.kernel.accepted| - Released(s.reader);
            TicketOf(s, s.NewestSlot()) == |s.kernel.accepted| - 1 + (if unreleased > 0 then 0 else |s.slots|)
  {
    var n, base, last := |s.slots|, Released(s.reader), |s.kernel.accepted| - 1;
    var k: nat := if last >= base then last else last + n;
    assert k % n == s.NewestSlot() by {
      ModShift(last, 1, n);
      assert (last + n * 1) % n == last % n;
      assert s.kernel.head == (last + 1) % n;
      ModPredecessor(last, n);
    }
    TicketUnique(base, n, k);
  }

  lemma ModPredecessor(a: int, n: nat)
    requires n > 0
    ensures a % n == if (a + 1) % n == 0 then n - 1 else (a + 1) % n - 1
  {
    ModSuccessorInt(a, n);
  }

  lemma ModSuccessorInt(a: int, n: nat)
    requires n > 0
    ensures (a + 1) % n == if a % n == n - 1 then 0 else a % n + 1
  {
    ModShift(a % n + 1, a / n, n);
    assert a % n + 1 + n * (a / n) == a + 1;
    ModShift(0, 1, n);
  }

  /** The slot under the cursor, at the poll, has the oldest unread ticket. */
  lemma CursorTicket(s: State)
    requires Inv(s) && (s.reader.pc.Wait? || s.reader.pc.Check? || s.reader.pc.Head?)
    ensures TicketOf(s, s.reader.cursor) == |s.reader.processed|
  {
    TicketUnique(Released(s.reader), |s.slots|, Released(s.reader));
  }

  // ----- The exit, exactly -----

  /** The slot the loop looks at next is not ready: nothing is unread, or the oldest is still being written. */
  predicate NothingToTake(s: State) {
    s.reader.processed == s.kernel.accepted || s.reader.cursor in s.kernel.pending
  }

  lemma ReadyExactlyWhenSomethingToTake(s: State)
    requires Inv(s) && (s.reader.pc.Head? || s.reader.pc.Wait? || s.reader.pc.Check?)
    ensures s.CursorReady() <==> !NothingToTake(s)
    ensures s.reader.cursor in s.kernel.pending ==> |s.reader.processed| < |s.kernel.accepted|
  {
    CursorTicket(s);
    assert SlotOK(s, s.reader.cursor);
  }

  /** The poll, the kernel's activity `ks`, and the slot test. */
  function PollThenTest(s: State, running: bool, poll: int, ks: seq<KernelAction>): State
    requires s.WellFormed()
  {
    ReaderStep(Polling, RunKernel(ReaderStep(Polling, s, running, poll), ks), running, poll)
  }

  /**
   After a positive `poll`, for whatever reason, and any kernel activity before the slot is looked at:
   the loop takes its "no more packets" exit exactly if at that moment everything accepted has been
   processed or the oldest unread packet is not published, and it leaves packets unread exactly in the
   second case.
   */
  lemma ExitExactlyWhenNothingToTake(s: State, running: bool, poll: int, ks: seq<KernelAction>)
    requires Inv(s) && s.reader.pc.Wait? && poll > 0
    ensures var u := RunKernel(ReaderStep(Polling, s, running, poll), ks);
            var t := PollThenTest(s, running, poll, ks);
            && (t.reader.pc == Exit(NoMorePackets)
                <==> u.reader.processed == u.kernel.accepted || u.reader.cursor in u.kernel.pending)
            && (t.reader.pc == Exit(NoMorePackets) && |t.reader.processed| < |t.kernel.accepted|
                <==> u.reader.cursor in u.kernel.pending)
            && (t.reader.pc != Exit(NoMorePackets) ==> t.reader.pc == Process)
  {
    ReaderKeepsInv(Polling, s, running, poll);
    var u := RunKernel(ReaderStep(Polling, s, running, poll), ks);
    RunKernelKeepsInv(ReaderStep(Polling, s, running, poll), ks);
    ReadyExactlyWhenSomethingToTake(u);
    InvIsSafe(u);
    hide Inv, RunKernel;
  }

  /**
   What must hold at the `poll` itself: the slot test succeeds whatever the kernel does in between
   exactly if the oldest unread packet has been published by then.
   */
  lemma NoExitFromPollExactlyWhenReady(s: State, running: bool, poll: int)
    requires Inv(s) && s.reader.pc.Wait? && poll > 0
    ensures (forall ks: seq<KernelAction> ::
               PollThenTest(s, running, poll, ks).reader.pc != Exit(NoMorePackets))
            <==> |s.reader.processed| < |s.kernel.accepted| && s.reader.cursor !in s.kernel.pending
  {
    var t := ReaderStep(Polling, s, running, poll);
    ReaderKeepsInv(Polling, s, running, poll);
    ReadyExactlyWhenSomethingToTake(s);
    InvIsSafe(s);
    assert t.CursorReady() <==> s.CursorReady();
    assert PollThenTest(s, running, poll, []) == ReaderStep(Polling, t, running, poll);
    forall ks: seq<KernelAction> | s.CursorReady()
      ensures PollThenTest(s, running, poll, ks).reader.pc != Exit(NoMorePackets)
    {
      ReadinessIsStable(t, ks);
    }
  }

  /** The reader step `a` makes a loop leave for `reason`. Timeouts (`poll` zero) are no reason. */
  predicate Leaves(mode: Mode, s: State, a: Action, reason: ExitReason) {
    && a.Tick?
    && match reason
       case Interrupted => s.reader.pc.Head? && !a.running
       case PollError => s.reader.pc.Wait? && a.poll < 0
       case NoMorePackets => s.reader.pc.Check? && mode.Polling? && NothingToTake(s)
  }

  predicate SomeStepLeaves(mode: Mode, s: State, acts: seq<Action>, reason: ExitReason)
    requires s.WellFormed()
    decreases |acts|
  {
    acts != [] && (Leaves(mode, s, acts[0], reason) || SomeStepLeaves(mode, Next(mode, s, acts[0]), acts[1..], reason))
  }

  lemma {:induction false} ExitIsFinal(mode: Mode, s: State, acts: seq<Action>, reason: ExitReason)
    requires s.WellFormed() && s.reader.pc.Exit?
    ensures Exec(mode, s, acts).reader.pc == s.reader.pc && !SomeStepLeaves(mode, s, acts, reason)
    decreases |acts|
  {
    if acts != [] { ExitIsFinal(mode, Next(mode, s, acts[0]), acts[1..], reason); }
  }

  lemma LeavesExactly(mode: Mode, s: State, a: Action, reason: ExitReason)
    requires Inv(s) && !s.reader.pc.Exit?
    ensures Next(mode, s, a).reader.pc == Exit(reason) <==> Leaves(mode, s, a, reason)
  {
    if s.reader.pc.Check? { ReadyExactlyWhenSomethingToTake(s); }
  }

  /**
   Over whole runs of either loop: it has left for a reason exactly if some step of the run gave that
   reason. In particular the polling loop leaves with "no more packets" exactly if some slot test was
   made with nothing to take.
   */
  lemma {:induction false} RunLeavesExactlyWhenSomeStepDoes(mode: Mode, s: State, acts: seq<Action>, reason: ExitReason)
    requires Inv(s) && !s.reader.pc.Exit?
    ensures Exec(mode, s, acts).reader.pc == Exit(reason) <==> SomeStepLeaves(mode, s, acts, reason)
    decreases |acts|
  {
    if acts != [] {
      var t := Next(mode, s, acts[0]);
      NextKeepsInv(mode, s, acts[0]);
      LeavesExactly(mode, s, acts[0], reason);
      hide Inv, Leaves, Next;
      if t.reader.pc.Exit? {
        ExitIsFinal(mode, t, acts[1..], reason);
      } else {
        RunLeavesExactlyWhenSomeStepDoes(mode, t, acts[1..], reason);
      }
    }
  }

  // ----- In-order publication excludes it -----

  /** A readable socket means that something is unread, and, with publication in order, that it can be taken. */
  lemma ReadableMeansUnread(s: State)
    requires Inv(s) && s.reader.pc.Wait? && s.PollReady()
    ensures |s.reader.processed| < |s.kernel.accepted|
    ensures PublishedInOrder(s) ==> s.reader.cursor !in s.kernel.pending
  {
    NewestSlotTicket(s);
    CursorTicket(s);
    assert SlotOK(s, s.NewestSlot());
    assert SlotOK(s, s.reader.cursor);
  }

  /** With publication in order up to an honest positive `poll`, nothing the kernel does leads to the exit. */
  lemma InOrderPollFindsPacket(s: State, running: bool, poll: int, ks: seq<KernelAction>)
    requires PollInv(s) && s.reader.pc.Wait? && poll > 0 && s.PollReady()
    ensures PollThenTest(s, running, poll, ks).reader.pc == Process
  {
    ReadableMeansUnread(s);
    NoExitFromPollExactlyWhenReady(s, running, poll);
    ExitExactlyWhenNothingToTake(s, running, poll, ks);
    hide Inv, PublishedInOrder, PollThenTest;
  }

  /** A free slot at the kernel's head, and no other, has the next ticket. */
  lemma HeadTicket(s: State, i: nat)
    requires Inv(s) && HeadFree(s) && i < |s.slots|
    ensures TicketOf(s, i) == |s.kernel.accepted| <==> i == s.kernel.head
  {
    var base, n, last := Released(s.reader), |s.slots|, |s.kernel.accepted|;
    assert last < base + n by { assert SlotOK(s, s.kernel.head); }
    TicketUnique(base, n, last);
    TicketSlot(base, n, i);
  }

  /** A newly reserved slot has the last ticket. */
  lemma ReservedSlotIsLast(s: State, t: State, p: Packet)
    requires Inv(s) && PublishedInOrder(s) && HeadFree(s)
    requires t.WellFormed() && |t.slots| == |s.slots| && t.reader == s.reader
    requires t.kernel.pending == s.kernel.pending[s.kernel.head := p]
    requires t.kernel.accepted == s.kernel.accepted + [p]
    ensures PublishedInOrder(t)
  {
    assert s.WellFormed();
    hide Inv, Ticket, Released, HeadFree;
    forall i: nat, j <- t.kernel.pending | i < |s.slots| && Outstanding(t, i) && i !in t.kernel.pending
      ensures TicketOf(t, i) < TicketOf(t, j)
    {
      HeadTicket(s, i);
      HeadTicket(s, j);
      assert Outstanding(s, i);
    }
  }

  /** The order of publication depends on what is accepted and pending, not on slot contents. */
  lemma SameTicketsSameOrder(s: State, t: State)
    requires s.WellFormed() && t.WellFormed() && PublishedInOrder(s)
    requires |t.slots| == |s.slots| && t.reader == s.reader
    requires t.kernel.pending == s.kernel.pending && t.kernel.accepted == s.kernel.accepted
    ensures PublishedInOrder(t)
  {
    hide Ticket, Released;
    forall i: nat, j <- t.kernel.pending | i < |t.slots| && Outstanding(t, i) && i !in t.kernel.pending
      ensures TicketOf(t, i) < TicketOf(t, j)
    {
      assert Outstanding(s, i);
    }
  }

  lemma ArriveKeepsPublishedInOrder(s: State, p: Packet)
    requires Inv(s) && PublishedInOrder(s)
    ensures PublishedInOrder(KernelStep(s, Arrive(p)))
  {
    assert s.WellFormed();
    hide Inv, PublishedInOrder;
    if HeadFree(s) && ValidPacket(p) {
      ReservedSlotIsLast(s, KernelStep(s, Arrive(p)), p);
    } else {
      SameTicketsSameOrder(s, KernelStep(s, Arrive(p)));
    }
  }

  /** Publishing the oldest pending slot extends the published prefix. */
  lemma PublishKeepsPublishedInOrder(s: State, k: nat)
    requires PollInv(s) && HonestAction(s, Env(Publish(k)))
    ensures PublishedInOrder(KernelStep(s, Publish(k)))
  {
    var t, base, n := KernelStep(s, Publish(k)), Released(s.reader), |s.slots|;
    forall i: nat, j <- t.kernel.pending | i < n && Outstanding(t, i) && i !in t.kernel.pending
      ensures TicketOf(t, i) < TicketOf(t, j)
    {
      TicketSlot(base, n, i);
      TicketSlot(base, n, j);
    }
  }

  lemma KernelKeepsChecksOnlyReady(s: State, a: KernelAction)
    requires Inv(s) && ChecksOnlyReady(s)
    ensures ChecksOnlyReady(KernelStep(s, a))
  {
    assert SlotOK(s, s.reader.cursor);
  }

  lemma KernelKeepsPollInv(s: State, a: KernelAction)
    requires PollInv(s) && HonestAction(s, Env(a))
    ensures PollInv(KernelStep(s, a))
  {
    assert s.WellFormed();
    hide Inv;
    KernelKeepsInv(s, a);
    KernelKeepsChecksOnlyReady(s, a);
    if a.Arrive? {
      ArriveKeepsPublishedInOrder(s, a.p);
    } else if a.Publish? {
      PublishKeepsPublishedInOrder(s, a.slot);
    } else {
      SameTicketsSameOrder(s, KernelStep(s, a));
    }
  }

  /** The released slot leaves the window; the others keep their tickets. */
  lemma ReleasedTickets(s: State, running: bool, poll: int, i: nat)
    requires Inv(s) && s.reader.pc.Release? && i < |s.slots|
    ensures var t := ReaderStep(Polling, s, running, poll);
            && (i != s.reader.cursor ==> TicketOf(t, i) == TicketOf(s, i))
            && (i == s.reader.cursor ==> !Outstanding(t, i) && i !in s.kernel.pending)
  {
    TicketAdvance(Released(s.reader), |s.slots|, i);
    assert SlotOK(s, i);
  }

  lemma ReleaseKeepsPublishedInOrder(s: State, running: bool, poll: int)
    requires PollInv(s) && s.reader.pc.Release?
    ensures PublishedInOrder(ReaderStep(Polling, s, running, poll))
  {
    var t := ReaderStep(Polling, s, running, poll);
    assert PublishedInOrder(s) && s.WellFormed();
    hide Inv, Ticket, Released;
    forall i: nat, j <- t.kernel.pending | i < |t.slots| && Outstanding(t, i) && i !in t.kernel.pending
      ensures TicketOf(t, i) < TicketOf(t, j)
    {
      ReleasedTickets(s, running, poll, i);
      ReleasedTickets(s, running, poll, j);
      assert Outstanding(s, i);
    }
  }

  lemma ReaderKeepsPollInv(s: State, running: bool, poll: int)
    requires PollInv(s) && HonestAction(s, Tick(running, poll))
    ensures PollInv(ReaderStep(Polling, s, running, poll))
  {
    ReaderKeepsInv(Polling, s, running, poll);
    if s.reader.pc.Release? {
      ReleaseKeepsPublishedInOrder(s, running, poll);
    } else {
      var t := ReaderStep(Polling, s, running, poll);
      assert forall i: nat :: i < |s.slots| ==> TicketOf(t, i) == TicketOf(s, i);
      if s.reader.pc.Wait? && poll > 0 {
        ReadableMeansUnread(s);
        InvIsSafe(s);
        ReadyExactlyWhenSomethingToTake(s);
      }
    }
  }

  /** In-order publication and honest polling keep the loop away from its "no more packets" exit. */
  lemma {:induction false} HonestScheduleKeepsPollInv(s: State, acts: seq<Action>)
    requires PollInv(s) && HonestSchedule(s, acts)
    ensures PollInv(Exec(Polling, s, acts))
    decreases |acts|
  {
    if acts != [] {
      match acts[0] {
        case Env(a) => KernelKeepsPollInv(s, a);
        case Tick(running, poll) => ReaderKeepsPollInv(s, running, poll);
      }
      HonestScheduleKeepsPollInv(Next(Polling, s, acts[0]), acts[1..]);
    }
  }

  lemma NonePendingPollInv(s: State)
    requires Inv(s) && s.kernel.pending == map[] && s.reader.pc.Head?
    ensures PollInv(s)
  {
  }

  lemma InitPollInv(n: nat)
    requires n > 0
    ensures PollInv(Init(n))
  {
    hide Inv, PublishedInOrder;
    InitInv(n);
    NonePendingPollInv(Init(n));
  }

  lemma NoMorePacketsExitUnreachable(n: nat, acts: seq<Action>)
    requires n > 0 && HonestSchedule(Init(n), acts)
    ensures Exec(Polling, Init(n), acts).reader.pc != Exit(NoMorePackets)
  {
    hide Inv, PublishedInOrder;
    InitPollInv(n);
    HonestScheduleKeepsPollInv(Init(n), acts);
  }

  // ----- Both conditions are needed -----

  function SamplePacket(len: nat): Packet {
    Packet(seq(24, _ => 0), len)
  }

  /** Two packets arrive and the second is published first. */
  const OVERTAKEN_SCHEDULE: seq<Action> :=
    [Env(Arrive(SamplePacket(60))), Env(Arrive(SamplePacket(61))), Env(Fill(1, 24)), Env(WriteLen(1)), Env(Publish(1)),
     Tick(true, 1), Tick(true, 1), Tick(true, 1)]

  /** The socket reports an error (a positive `poll`) while the ring is empty. */
  const ERROR_SCHEDULE: seq<Action> := [Tick(true, 1), Tick(true, 1), Tick(true, 1)]

  lemma ExecUpTo(acts: seq<Action>, k: nat, s: State)
    requires s.WellFormed() && k < |acts|
    ensures Exec(Polling, s, acts[..k + 1]) == Next(Polling, Exec(Polling, s, acts[..k]), acts[k])
  {
    assert acts[..k + 1] == acts[..k] + [acts[k]];
    ExecSnoc(Polling, s, acts[..k], acts[k]);
  }

  lemma OvertakenArrived() returns (s: State)
    ensures s == Exec(Polling, Init(NUM_FRAMES), OVERTAKEN_SCHEDULE[..2])
    ensures s.kernel == Kernel(2, map[0 := SamplePacket(60), 1 := SamplePacket(61)], [SamplePacket(60), SamplePacket(61)], [])
    ensures |s.slots| == NUM_FRAMES && s.slots[0] == s.slots[1] == EMPTY_SLOT
    ensures s.reader == Reader(Head, 0, [], NO_PACKETS, 0, 0)
  {
    var a := OVERTAKEN_SCHEDULE;
    assert Exec(Polling, Init(NUM_FRAMES), a[..0]) == Init(NUM_FRAMES);
    ExecUpTo(a, 0, Init(NUM_FRAMES));
    ExecUpTo(a, 1, Init(NUM_FRAMES));
    s := Exec(Polling, Init(NUM_FRAMES), a[..2]);
  }

  /** Both packets accepted, the second published, the reader at its `poll`. */
  lemma OvertakenAtPoll() returns (s: State)
    ensures s == Exec(Polling, Init(NUM_FRAMES), OVERTAKEN_SCHEDULE[..6])
    ensures s.reader.pc.Wait? && s.reader.processed == [] && s.reader.cursor == 0
    ensures s.kernel.accepted == [SamplePacket(60), SamplePacket(61)]
    ensures s.PollReady() && !s.slots[0].user
  {
    var a := OVERTAKEN_SCHEDULE;
    var s2 := OvertakenArrived();
    ExecUpTo(a, 2, Init(NUM_FRAMES));
    ExecUpTo(a, 3, Init(NUM_FRAMES));
    ExecUpTo(a, 4, Init(NUM_FRAMES));
    ExecUpTo(a, 5, Init(NUM_FRAMES));
    var s4 := Next(Polling, Next(Polling, s2, a[2]), a[3]);
    assert s4.slots[1].Seen() == SamplePacket(61);
    s := Next(Polling, Next(Polling, s4, a[4]), a[5]);
  }

  /**
   With NUM_FRAMES slots and `poll` honest, publishing the second of two packets first makes the
   loop leave with both accepted packets unread.
   */
  lemma OvertakingReachesExit()
    ensures var t := Exec(Polling, Init(64), OVERTAKEN_SCHEDULE);
            && t.reader.pc == Exit(NoMorePackets)
            && t.reader.processed == [] && t.kernel.accepted == [SamplePacket(60), SamplePacket(61)]
    ensures var s := Exec(Polling, Init(64), OVERTAKEN_SCHEDULE[..6]);
            s.reader.pc.Wait? && s.PollReady()
  {
    hide Init, KernelStep, Exec, SamplePacket;
    var s := OvertakenAtPoll();
    ExecUpTo(OVERTAKEN_SCHEDULE, 6, Init(NUM_FRAMES));
    ExecUpTo(OVERTAKEN_SCHEDULE, 7, Init(NUM_FRAMES));
    assert OVERTAKEN_SCHEDULE[..8] == OVERTAKEN_SCHEDULE;
  }

  /** An error event, which the events test lets through, ends the loop on an empty ring. */
  lemma ErrorEventReachesExit()
    ensures var t := Exec(Polling, Init(64), ERROR_SCHEDULE);
            t.reader.pc == Exit(NoMorePackets)
    ensures !Exec(Polling, Init(64), ERROR_SCHEDULE[..1]).PollReady()
  {
    var a := ERROR_SCHEDULE;
    var s := Init(NUM_FRAMES);
    assert Exec(Polling, s, a[..0]) == s;
    ExecUpTo(a, 0, s);
    ExecUpTo(a, 1, s);
    ExecUpTo(a, 2, s);
    assert a[..3] == a;
  }
}
