/**
 No accepted packet can get stuck: the kernel can always finish what it has reserved, oldest first, and
 either loop then processes everything, the polling loop with honest polls only.
 */
module RingDelivery {
  import opened Ring
  import opened RingInvariant
  import opened RingFifo
  import opened RingDrain
  import opened RingPolling

  /** The kernel finishes writing slot `i` and hands it over. */
  function FinishSlot(s: State, i: nat): seq<Action>
    requires s.WellFormed() && i in s.kernel.pending
  {
    [Env(WriteLen(i)),
     Env(Fill(i, if |s.slots[i].data| <= |s.kernel.pending[i].bytes|
                 then |s.kernel.pending[i].bytes| - |s.slots[i].data| else 0)),
     Env(Publish(i))]
  }

  lemma FinishSlotPublishes(mode: Mode, s: State, i: nat)
    requires Inv(s) && i in s.kernel.pending
    ensures var t := Exec(mode, s, FinishSlot(s, i));
            && t.reader == s.reader && t.kernel == s.kernel.(pending := s.kernel.pending - {i})
    ensures mode.Polling? && OldestPending(s, i) ==> HonestSchedule(s, FinishSlot(s, i))
  {
    assert SlotOK(s, i);
    var acts := FinishSlot(s, i);
    var s1 := Next(mode, s, acts[0]);
    var s2 := Next(mode, s1, acts[1]);
    var s3 := Next(mode, s2, acts[2]);
    assert s2.slots[i].Seen() == s.kernel.pending[i];
    assert acts[1..] == [acts[1], acts[2]] && acts[1..][1..] == [acts[2]];
    assert Exec(mode, s1, [acts[1], acts[2]]) == Exec(mode, s2, [acts[2]]);
    assert Exec(mode, s2, [acts[2]]) == Exec(mode, s3, []);
    if mode.Polling? && OldestPending(s, i) {
      assert OldestPending(s2, i);
      assert HonestSchedule(s2, [acts[2]]);
      assert HonestSchedule(s1, [acts[1], acts[2]]);
    }
  }

  lemma FinishSlotBringsNoArrivals(s: State, i: nat)
    requires s.WellFormed() && i in s.kernel.pending
    ensures Arrivals(FinishSlot(s, i)) == []
  {
    var acts := FinishSlot(s, i);
    assert acts == [acts[0]] + ([acts[1]] + [acts[2]]);
    ArrivalsConcat([acts[0]], [acts[1]] + [acts[2]]);
    ArrivalsConcat([acts[1]], [acts[2]]);
  }

  lemma {:induction false} ArrivalsConcat(a: seq<Action>, b: seq<Action>)
    ensures Arrivals(a + b) == Arrivals(a) + Arrivals(b)
    decreases |a|
  {
    if a == [] {
      assert a + b == b;
    } else {
      assert (a + b)[1..] == a[1..] + b;
      ArrivalsConcat(a[1..], b);
    }
  }

  lemma {:induction false} HonestConcat(s: State, a: seq<Action>, b: seq<Action>)
    requires s.WellFormed()
    ensures HonestSchedule(s, a + b) <==> HonestSchedule(s, a) && HonestSchedule(Exec(Polling, s, a), b)
    decreases |a|
  {
    if a == [] {
      assert a + b == b;
    } else {
      assert (a + b)[1..] == a[1..] + b;
      HonestConcat(Next(Polling, s, a[0]), a[1..], b);
    }
  }

  lemma {:induction false} OldestOf(s: State, among: set<nat>) returns (i: nat)
    requires s.WellFormed() && among != {} && (forall j <- among :: j < |s.slots|)
    ensures i in among && (forall j <- among :: TicketOf(s, i) <= TicketOf(s, j))
    decreases |among|
  {
    i :| i in among;
    if among != {i} {
      var j := OldestOf(s, among - {i});
      if TicketOf(s, j) < TicketOf(s, i) { i := j; }
    }
  }

  /** The kernel can publish everything it has reserved, oldest first. */
  lemma {:induction false} KernelCanPublishAll(mode: Mode, s: State) returns (acts: seq<Action>)
    requires Inv(s)
    ensures Arrivals(acts) == []
    ensures var t := Exec(mode, s, acts);
            Inv(t) && AllPublished(t) && t.reader == s.reader && t.kernel.accepted == s.kernel.accepted
    ensures mode.Polling? ==> HonestSchedule(s, acts)
    decreases |s.kernel.pending|
  {
    if AllPublished(s) {
      acts := [];
    } else {
      var i := OldestOf(s, s.kernel.pending.Keys);
      var first := FinishSlot(s, i);
      var t := Exec(mode, s, first);
      FinishSlotPublishes(mode, s, i);
      FinishSlotBringsNoArrivals(s, i);
      ExecKeepsInv(mode, s, first);
      assert t.kernel.pending.Keys == s.kernel.pending.Keys - {i};
      hide Inv;
      var rest := KernelCanPublishAll(mode, t);
      acts := first + rest;
      ExecConcat(mode, s, first, rest);
      ArrivalsConcat(first, rest);
      HonestConcat(s, first, rest);
    }
  }

  lemma {:induction false} TicksAreWilling(mode: Mode, k: nat)
    ensures Arrivals(Ticks(k)) == [] && TickCount(Ticks(k)) == k && Willing(mode, Ticks(k))
    decreases k
  {
    if k > 0 {
      assert Ticks(k)[1..] == Ticks(k - 1);
      TicksAreWilling(mode, k - 1);
    }
  }

  /** While packets are unread, all published, the socket is readable. */
  lemma UnreadMeansReadable(s: State)
    requires Inv(s) && AllPublished(s) && s.reader.pc.Wait? && Unread(s) > 0
    ensures s.PollReady()
  {
    NewestSlotTicket(s);
    assert SlotOK(s, s.NewestSlot());
  }

  /** Until everything has been processed, each poll that comes back positive is honest. */
  lemma {:induction false} TicksAreHonest(s: State, k: nat)
    requires Draining(Polling, s) && k <= Remaining(Polling, s)
    ensures HonestSchedule(s, Ticks(k))
    decreases k
  {
    if k > 0 {
      assert Ticks(k)[0] == Tick(true, 1) && Ticks(k)[1..] == Ticks(k - 1);
      ReaderStepDrains(Polling, s, 1);
      if s.reader.pc.Wait? { UnreadMeansReadable(s); }
      hide Draining, Remaining;
      TicksAreHonest(ReaderStep(Polling, s, true, 1), k - 1);
    }
  }

  /**
   From every state of either loop in which the reader has not left, there is a continuation without
   arrivals after which all accepted packets have been processed; for the polling loop it publishes in
   order and polls honestly.
   */
  lemma EveryAcceptedPacketCanBeProcessed(mode: Mode, s: State) returns (acts: seq<Action>)
    requires Inv(s) && !s.reader.pc.Exit? && (s.reader.pc.Wait? ==> mode.Polling?)
    ensures Arrivals(acts) == []
    ensures mode.Polling? ==> HonestSchedule(s, acts)
    ensures var t := Exec(mode, s, acts);
            t.reader.processed == t.kernel.accepted == s.kernel.accepted
  {
    var publish := KernelCanPublishAll(mode, s);
    var t := Exec(mode, s, publish);
    assert Draining(mode, t);
    hide Inv, Draining, Remaining, AllPublished;
    var drain := Ticks(Remaining(mode, t));
    TicksAreWilling(mode, Remaining(mode, t));
    EveryScheduleDrains(mode, t, drain);
    acts := publish + drain;
    ExecConcat(mode, s, publish, drain);
    ArrivalsConcat(publish, drain);
    if mode.Polling? {
      TicksAreHonest(t, Remaining(mode, t));
      HonestConcat(s, publish, drain);
    }
  }
}
