/** Emptying the ring: how many loop iterations and how many reader steps it takes, under any schedule. */
module RingDrain {
  import opened Ring
  import opened RingInvariant
  import opened RingFifo

  /** Reader steps with `running` set and `poll` reporting a readable socket. */
  function Ticks(k: nat): seq<Action> {
    seq(k, _ => Tick(true, 1))
  }

  /** The number of reader steps in one loop iteration that finds its slot ready. */
  function IterationLength(mode: Mode): nat {
    if mode.Polling? then 7 else 6
  }

  lemma TicksConcat(a: nat, b: nat, c: nat)
    requires a + b == c
    ensures Ticks(a) + Ticks(b) == Ticks(c)
  {
  }

  function ReaderSteps(mode: Mode, s: State, k: nat): (t: State)
    requires s.WellFormed()
    ensures t.WellFormed() && |t.slots| == |s.slots| && t.kernel == s.kernel
    decreases k
  {
    if k == 0 then s else ReaderSteps(mode, ReaderStep(mode, s, true, 1), k - 1)
  }

  lemma {:induction false} ExecTicks(mode: Mode, s: State, k: nat)
    requires s.WellFormed()
    ensures Exec(mode, s, Ticks(k)) == ReaderSteps(mode, s, k)
    decreases k
  {
    if k > 0 {
      assert Ticks(k)[0] == Tick(true, 1) && Ticks(k)[1..] == Ticks(k - 1);
      ExecTicks(mode, ReaderStep(mode, s, true, 1), k - 1);
    }
  }

  /** Nothing is reserved and still being written. */
  predicate AllPublished(s: State) {
    s.kernel.pending.Keys == {}
  }

  function Unread(s: State): int {
    |s.kernel.accepted| - |s.reader.processed|
  }

  /** Reader steps left in an iteration of the loop body whose slot is ready. */
  function StepsToHead(pc: PC): nat {
    match pc
    case Advance => 1
    case Release => 2
    case Count => 3
    case Process => 4
    case Check => 5
    case _ => 0
  }

  /** After processing, the rest of the loop body leads back to the loop head. */
  lemma {:induction false} FinishIteration(mode: Mode, s: State)
    requires s.WellFormed() && (s.reader.pc.Count? || s.reader.pc.Release? || s.reader.pc.Advance?)
    ensures var t := ReaderSteps(mode, s, StepsToHead(s.reader.pc));
            t.reader.pc.Head? && t.reader.processed == s.reader.processed
    decreases StepsToHead(s.reader.pc)
  {
    if !s.reader.pc.Advance? {
      FinishIteration(mode, ReaderStep(mode, s, true, 1));
    }
  }

  /** From a check that succeeds, the loop body takes the oldest unread packet and returns to the head. */
  lemma BodyTakesOne(mode: Mode, s: State)
    requires Inv(s) && (s.reader.pc.Process? || (s.reader.pc.Check? && s.CursorReady()))
    ensures |s.reader.processed| < |s.kernel.accepted|
    ensures var t := ReaderSteps(mode, s, StepsToHead(s.reader.pc));
            && t.reader.pc.Head?
            && t.reader.processed == s.reader.processed + [s.kernel.accepted[|s.reader.processed|]]
    decreases StepsToHead(s.reader.pc)
  {
    var t := ReaderStep(mode, s, true, 1);
    if s.reader.pc.Check? {
      ReaderKeepsInv(mode, s, true, 1);
      BodyTakesOne(mode, t);
    } else {
      ProcessKeepsInv(mode, s, true, 1);
      FinishIteration(mode, t);
    }
  }

  /** At the loop head or the check, with unread packets, all published, the slot under the cursor is ready. */
  lemma OldestIsReady(s: State)
    requires Inv(s) && (s.reader.pc.Head? || s.reader.pc.Check?) && AllPublished(s) && Unread(s) > 0
    ensures s.CursorReady()
  {
    assert SlotOK(s, s.reader.cursor);
    TicketUnique(Released(s.reader), |s.slots|, Released(s.reader));
  }

  lemma {:induction false} ReaderStepsAdd(mode: Mode, s: State, j: nat, k: nat)
    requires s.WellFormed()
    ensures ReaderSteps(mode, s, j + k) == ReaderSteps(mode, ReaderSteps(mode, s, j), k)
    decreases j
  {
    if j > 0 { ReaderStepsAdd(mode, ReaderStep(mode, s, true, 1), j - 1, k); }
  }

  /** From the loop head to the check: one step, or two with the poll. */
  lemma HeadReachesCheck(mode: Mode, s: State)
    requires Inv(s) && s.reader.pc.Head?
    ensures ReaderSteps(mode, s, IterationLength(mode) - 5) == s.(reader := s.reader.(pc := Check))
    ensures Inv(ReaderSteps(mode, s, IterationLength(mode) - 5))
  {
    var s1 := ReaderStep(mode, s, true, 1);
    ReaderKeepsInv(mode, s, true, 1);
    if mode.Polling? { ReaderKeepsInv(mode, s1, true, 1); }
    hide Inv;
  }

  /** One iteration from the loop head takes exactly one packet, the oldest. */
  lemma IterationTakesOne(mode: Mode, s: State)
    requires Inv(s) && s.reader.pc.Head? && AllPublished(s) && Unread(s) > 0
    ensures var t := Exec(mode, s, Ticks(IterationLength(mode)));
            && Inv(t) && t.reader.pc.Head? && t.kernel == s.kernel
            && t.reader.processed == s.reader.processed + [s.kernel.accepted[|s.reader.processed|]]
  {
    OldestIsReady(s);
    ExecTicks(mode, s, IterationLength(mode));
    ExecKeepsInv(mode, s, Ticks(IterationLength(mode)));
    HeadReachesCheck(mode, s);
    BodyTakesOne(mode, ReaderSteps(mode, s, IterationLength(mode) - 5));
    hide Inv, ReaderStep, Exec;
    ReaderStepsAdd(mode, s, IterationLength(mode) - 5, 5);
  }

  /** `t` is at the loop head and differs from `s` in that the reader has taken the `k` oldest packets. */
  predicate Took(s: State, t: State, k: nat) {
    && Inv(t) && t.reader.pc.Head? && t.kernel == s.kernel
    && |s.reader.processed| + k <= |s.kernel.accepted|
    && t.reader.processed == s.kernel.accepted[..|s.reader.processed| + k]
  }

  lemma TookThenTook(s: State, t: State, u: State, j: nat, k: nat)
    requires Took(s, t, j) && Took(t, u, k)
    ensures Took(s, u, j + k)
  {
    hide Inv;
  }

  lemma IterationTook(mode: Mode, s: State)
    requires Inv(s) && s.reader.pc.Head? && AllPublished(s) && Unread(s) > 0
    ensures Took(s, Exec(mode, s, Ticks(IterationLength(mode))), 1)
  {
    IterationTakesOne(mode, s);
    InvIsSafe(s);
    hide Inv, Exec;
  }

  lemma NothingTook(mode: Mode, s: State)
    requires Inv(s) && s.reader.pc.Head?
    ensures Took(s, Exec(mode, s, Ticks(0)), 0)
  {
    assert Ticks(0) == [];
    InvIsSafe(s);
  }

  lemma TookLeaves(s: State, t: State, k: nat)
    requires Took(s, t, k) && AllPublished(s)
    ensures Inv(t) && t.reader.pc.Head? && AllPublished(t) && Unread(t) == Unread(s) - k
  {
  }

  lemma TicksStep(mode: Mode, s: State, m: nat, k: nat)
    requires s.WellFormed() && k > 0
    ensures Exec(mode, s, Ticks(m * k)) == Exec(mode, Exec(mode, s, Ticks(m)), Ticks(m * (k - 1)))
  {
    hide Exec;
    TicksConcat(m, m * (k - 1), m * k);
    ExecConcat(mode, s, Ticks(m), Ticks(m * (k - 1)));
  }

  lemma TookOneMore(mode: Mode, s: State, m: nat, k: nat)
    requires s.WellFormed() && k > 0
    requires var t := Exec(mode, s, Ticks(m));
             Took(s, t, 1) && Took(t, Exec(mode, t, Ticks(m * (k - 1))), k - 1)
    ensures Took(s, Exec(mode, s, Ticks(m * k)), k)
  {
    hide Took, Exec, Ticks;
    var t := Exec(mode, s, Ticks(m));
    TicksStep(mode, s, m, k);
    TookThenTook(s, t, Exec(mode, t, Ticks(m * (k - 1))), 1, k - 1);
  }

  /**
   Draining: with everything published and no new arrivals, `k` iterations take exactly the `k`
   oldest packets.
   */
  lemma {:induction false} DrainTakes(mode: Mode, s: State, k: nat)
    requires Inv(s) && s.reader.pc.Head? && AllPublished(s) && k <= Unread(s)
    ensures Took(s, Exec(mode, s, Ticks(IterationLength(mode) * k)), k)
    decreases k
  {
    assert s.WellFormed();
    hide Inv, Exec, Ticks, AllPublished, IterationLength, Took, Unread;
    var m := IterationLength(mode);
    if k == 0 {
      NothingTook(mode, s);
    } else {
      var t := Exec(mode, s, Ticks(m));
      IterationTook(mode, s);
      TookLeaves(s, t, 1);
      DrainTakes(mode, t, k - 1);
      TookOneMore(mode, s, m, k);
    }
  }

  /**
   Exactly `Unread` iterations empty the ring: every accepted packet has been processed, every slot
   belongs to the kernel, and neither loop would find anything more to do.
   */
  lemma DrainEmptiesRing(mode: Mode, s: State)
    requires Inv(s) && s.reader.pc.Head? && AllPublished(s)
    ensures Unread(s) >= 0
    ensures var t := Exec(mode, s, Ticks(IterationLength(mode) * Unread(s)));
            && Inv(t) && t.reader.pc.Head?
            && t.reader.processed == s.kernel.accepted == t.kernel.accepted
            && (forall i: nat :: i < |t.slots| ==> !t.slots[i].user)
            && !t.CursorReady() && !t.PollReady()
  {
    InvIsSafe(s);
    DrainTakes(mode, s, Unread(s));
    var t := Exec(mode, s, Ticks(IterationLength(mode) * Unread(s)));
    forall i: nat | i < |t.slots| ensures !t.slots[i].user {
      assert SlotOK(t, i);
    }
  }

  // ----- Every schedule drains -----

  /** Every reader step of the schedule finds `running` set and, if it polls, gets a positive answer. */
  predicate Willing(mode: Mode, acts: seq<Action>) {
    forall a <- acts :: a.Tick? ==> a.running && (mode.Polling? ==> a.poll > 0)
  }

  function TickCount(acts: seq<Action>): nat {
    if acts == [] then 0 else (if acts[0].Tick? then 1 else 0) + TickCount(acts[1..])
  }

  /** Reader steps up to and including the next processing. */
  function StepsToProcess(mode: Mode, pc: PC): nat {
    match pc
    case Process => 1
    case Check => 2
    case Wait => 3
    case Head => IterationLength(mode) - 3
    case Advance => IterationLength(mode) - 2
    case Release => IterationLength(mode) - 1
    case Count => IterationLength(mode)
    case _ => 0
  }

  /** Reader steps until everything accepted so far has been processed. */
  function Remaining(mode: Mode, s: State): nat {
    if Unread(s) <= 0 then 0 else StepsToProcess(mode, s.reader.pc) + IterationLength(mode) * (Unread(s) - 1)
  }

  /** Everything is published, and the reader has not left with packets unread. */
  predicate Draining(mode: Mode, s: State) {
    && Inv(s) && AllPublished(s)
    && (s.reader.pc.Exit? ==> Unread(s) == 0)
    && (s.reader.pc.Wait? ==> mode.Polling?)
  }

  lemma ReaderStepDrains(mode: Mode, s: State, poll: int)
    requires Draining(mode, s) && (mode.Polling? ==> poll > 0)
    ensures var t := ReaderStep(mode, s, true, poll);
            && Draining(mode, t)
            && Remaining(mode, t) == if Remaining(mode, s) == 0 then 0 else Remaining(mode, s) - 1
  {
    ReaderKeepsInv(mode, s, true, poll);
    InvIsSafe(s);
    InvIsSafe(ReaderStep(mode, s, true, poll));
    if s.reader.pc.Process? { ProcessKeepsInv(mode, s, true, poll); }
    if s.reader.pc.Check? && Unread(s) > 0 { OldestIsReady(s); }
    hide Inv;
  }

  /** Without arrivals and with everything published, the kernel has nothing to do. */
  lemma KernelIsIdle(s: State, a: KernelAction)
    requires s.WellFormed() && AllPublished(s) && Arrival(Env(a)) == []
    ensures KernelStep(s, a) == s
  {
  }

  /**
   With everything published and no arrivals, whatever the schedule and wherever the reader stands,
   each reader step brings the end one step nearer: everything accepted has been processed exactly
   when the reader has had `Remaining` steps.
   */
  lemma {:induction false} EveryScheduleDrains(mode: Mode, s: State, acts: seq<Action>)
    requires Draining(mode, s) && Willing(mode, acts) && Arrivals(acts) == []
    ensures var t := Exec(mode, s, acts);
            && Draining(mode, t) && t.kernel == s.kernel
            && Remaining(mode, t) == (if TickCount(acts) <= Remaining(mode, s) then Remaining(mode, s) - TickCount(acts) else 0)
            && (t.reader.processed == s.kernel.accepted <==> TickCount(acts) >= Remaining(mode, s))
    decreases |acts|
  {
    if acts == [] {
      ProcessedAllExactlyWhenNoneRemain(mode, s);
    } else {
      var t := Next(mode, s, acts[0]);
      if acts[0].Tick? {
        ReaderStepDrains(mode, s, acts[0].poll);
      } else {
        KernelIsIdle(s, acts[0].a);
      }
      hide Draining, Remaining, Next;
      EveryScheduleDrains(mode, t, acts[1..]);
    }
  }

  lemma ProcessedAllExactlyWhenNoneRemain(mode: Mode, s: State)
    requires Draining(mode, s)
    ensures s.reader.processed == s.kernel.accepted <==> Remaining(mode, s) == 0
  {
    InvIsSafe(s);
    assert !s.reader.pc.Fault?;
  }
}
