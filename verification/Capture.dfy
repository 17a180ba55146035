/**
 The two reader loops as they are written (`sniff_afpacket/src/source-af-packet.c:483-513` and
 `:594-643`), over a ring shared with the kernel, refined to the transition system of module Ring.

 What the loops read from their surroundings is passed in as a sequence of turns: before each reader
 step the kernel performs `kernel`, and the step itself sees `running` and `poll`.
 */
module Capture {
  import opened Wire
  import opened Ring
  import opened RingInvariant
  import opened RingFifo
  import opened RingPolling
  import opened CaptureLog
  import TcpFrame

  datatype Turn = Turn(kernel: seq<KernelAction>, running: bool, poll: int)

  function TurnStep(mode: Mode, s: State, turn: Turn): (t: State)
    requires s.WellFormed()
    ensures t.WellFormed() && |t.slots| == |s.slots|
  {
    ReaderStep(mode, RunKernel(s, turn.kernel), turn.running, turn.poll)
  }

  function RunTurns(mode: Mode, s: State, env: seq<Turn>): (t: State)
    requires s.WellFormed()
    ensures t.WellFormed() && |t.slots| == |s.slots|
    decreases |env|
  {
    if env == [] then s
    else TurnStep(mode, RunTurns(mode, s, env[..|env| - 1]), env[|env| - 1])
  }

  /** The schedule that a sequence of turns stands for. */
  function Schedule(env: seq<Turn>): seq<Action> {
    if env == [] then []
    else var last := env[|env| - 1];
         Schedule(env[..|env| - 1]) + KernelSchedule(last.kernel) + [Tick(last.running, last.poll)]
  }

  function KernelSchedule(ks: seq<KernelAction>): seq<Action> {
    if ks == [] then [] else [Env(ks[0])] + KernelSchedule(ks[1..])
  }

  lemma {:induction false} RunKernelIsExec(mode: Mode, s: State, ks: seq<KernelAction>)
    requires s.WellFormed()
    ensures RunKernel(s, ks) == Exec(mode, s, KernelSchedule(ks))
    decreases |ks|
  {
    if ks != [] {
      assert KernelSchedule(ks)[1..] == KernelSchedule(ks[1..]);
      RunKernelIsExec(mode, KernelStep(s, ks[0]), ks[1..]);
    }
  }

  /** Turns are schedules, so everything proved of schedules holds of the loops. */
  lemma {:induction false} RunTurnsIsExec(mode: Mode, s: State, env: seq<Turn>)
    requires s.WellFormed()
    ensures RunTurns(mode, s, env) == Exec(mode, s, Schedule(env))
    decreases |env|
  {
    if env != [] {
      var front, last := env[..|env| - 1], env[|env| - 1];
      var a, b, c := Schedule(front), KernelSchedule(last.kernel), Tick(last.running, last.poll);
      RunTurnsIsExec(mode, s, front);
      RunKernelIsExec(mode, Exec(mode, s, a), last.kernel);
      ExecConcat(mode, s, a, b);
      ExecSnoc(mode, s, a + b, c);
    }
  }

  /** Both loops, from any state that satisfies the invariant, perform the same unbounded FIFO queue. */
  lemma LoopsRefineFifo(mode: Mode, s: State, env: seq<Turn>)
    requires Inv(s)
    ensures Inv(RunTurns(mode, s, env))
    ensures FifoRun(Abstract(s), OpsOf(mode, s, Schedule(env))) == Some(Abstract(RunTurns(mode, s, env)))
  {
    RunTurnsIsExec(mode, s, env);
    RunRefinesFifo(mode, s, Schedule(env));
  }

  lemma RunKernelSnoc(s: State, ks: seq<KernelAction>, k: nat)
    requires s.WellFormed() && k < |ks|
    ensures RunKernel(s, ks[..k + 1]) == KernelStep(RunKernel(s, ks[..k]), ks[k])
    decreases k
  {
    if k == 0 {
      assert ks[..1][1..] == [];
    } else {
      assert ks[..k + 1][1..] == ks[1..][..k] && ks[..k][1..] == ks[1..][..k - 1];
      RunKernelSnoc(KernelStep(s, ks[0]), ks[1..], k - 1);
    }
  }

  lemma RunTurnsSnoc(mode: Mode, s: State, env: seq<Turn>, t: nat)
    requires s.WellFormed() && t < |env|
    ensures RunTurns(mode, s, env[..t + 1]) == TurnStep(mode, RunTurns(mode, s, env[..t]), env[t])
  {
    assert env[..t + 1][..t] == env[..t];
  }

  // ----- The program -----

  /** A slot the reader has claimed holds a whole packet. */
  lemma ClaimedSlotIsWhole(s: State)
    requires Inv(s) && s.reader.pc.Process?
    ensures ValidPacket(s.slots[s.reader.cursor].Seen())
  {
    assert SlotOK(s, s.reader.cursor);
  }

  lemma LoopHeadCounts(s: State)
    requires Inv(s) && (s.reader.pc.Head? || s.reader.pc.Exit?)
    ensures var c := s.reader.counters;
            s.reader.packets == c.total == c.icmp + c.igmp + c.tcp + c.udp + c.others == |s.reader.processed|
    ensures s.reader.processed <= s.kernel.accepted
    ensures CountedByByte23(s.reader.counters, s.reader.processed)
  {
    MatchedIsCounted(s.reader.counters, s.reader.processed);
  }

  /** The program's variables and the shared ring. `pc` and `processed` only record what happened. */
  class Capture {
    const ring: array<Slot>
    var kernel: Kernel
    var frameNum: nat
    var total: nat
    var icmp: nat
    var igmp: nat
    var tcp: nat
    var udp: nat
    var others: nat
    var packetsProcessed: nat
    var bytesProcessed: nat
    var log: seq<byte>
    ghost var pc: PC
    ghost var processed: seq<Packet>

    ghost function View(): State
      reads this, ring
    {
      State(ring[..], kernel,
            Reader(pc, frameNum, processed, Counters(total, icmp, igmp, tcp, udp, others),
                   packetsProcessed, bytesProcessed))
    }

    ghost predicate Valid()
      reads this, ring
    {
      Inv(View())
    }

    constructor (n: nat)
      requires n > 0
      ensures fresh(ring) && View() == Init(n) && log == []  // so Valid(), by InitInv(n)
    {
      ring := new Slot[n](_ => EMPTY_SLOT);
      kernel := Kernel(0, map[], [], []);
      frameNum, total, icmp, igmp, tcp, udp, others := 0, 0, 0, 0, 0, 0, 0;
      packetsProcessed, bytesProcessed := 0, 0;
      pc, processed, log := Head, [], [];
      new;
      assert ring[..] == Init(n).slots;
    }

    /** One action of the environment on the shared ring. */
    method KernelActs(a: KernelAction)
      requires Valid()
      modifies this`kernel, ring
      ensures View() == KernelStep(old(View()), a)
      ensures Valid()
    {
      ghost var before := View();
      KernelKeepsInv(before, a);
      assert before.WellFormed();
      hide Inv;
      match a {
        case Arrive(p) =>
          if ValidPacket(p) {
            var i := kernel.head;
            if ring[i].user || i in kernel.pending {
              kernel := kernel.(dropped := kernel.dropped + [p]);
            } else {
              ring[i] := ring[i].(data := []);
              kernel := Kernel((i + 1) % ring.Length, kernel.pending[i := p], kernel.accepted + [p], kernel.dropped);
            }
          }
        case Fill(i, count) =>
          if i in kernel.pending && |ring[i].data| + count <= |kernel.pending[i].bytes| {
            ring[i] := ring[i].(data := kernel.pending[i].bytes[..|ring[i].data| + count]);
          }
        case WriteLen(i) =>
          if i in kernel.pending {
            ring[i] := ring[i].(len := kernel.pending[i].len);
          }
        case Publish(i) =>
          if i in kernel.pending && ring[i].Seen() == kernel.pending[i] {
            ring[i] := ring[i].(user := true);
            kernel := kernel.(pending := kernel.pending - {i});
          }
      }
      assert ring[..] == KernelStep(before, a).slots;
    }

    /** The kernel's activity between two reader steps. */
    method KernelRuns(ks: seq<KernelAction>)
      requires Valid()
      modifies this`kernel, ring
      ensures View() == RunKernel(old(View()), ks)
      ensures Valid()
    {
      ghost var before := View();
      for k := 0 to |ks|
        invariant View() == RunKernel(before, ks[..k])
        invariant Valid()
      {
        RunKernelSnoc(before, ks, k);
        KernelActs(ks[k]);
      }
      assert ks[..|ks|] == ks;
    }

    method ProcessPacket(p: Packet)
      requires ValidPacket(p)
      modifies this`total, this`icmp, this`igmp, this`tcp, this`udp, this`others, this`log, this`processed
      ensures processed == old(processed) + [p]
      ensures log == old(log) + PayloadText(p)
      ensures Counters(total, icmp, igmp, tcp, udp, others)
              == Classify(old(Counters(total, icmp, igmp, tcp, udp, others)), Protocol(p))
      ensures total == old(total) + 1
      ensures icmp == old(icmp) + (if p.bytes[23] == 1 then 1 else 0)
      ensures igmp == old(igmp) + (if p.bytes[23] == 2 then 1 else 0)
      ensures tcp == old(tcp) + (if p.bytes[23] == 6 then 1 else 0)
      ensures udp == old(udp) + (if p.bytes[23] == 17 then 1 else 0)
      ensures others == old(others) + (if p.bytes[23] in {1, 2, 6, 17} then 0 else 1)
    {
      processed := processed + [p];
      total := total + 1;
      match p.bytes[PROTOCOL_OFFSET] {
        case 1 => icmp := icmp + 1;
        case 2 => igmp := igmp + 1;
        case 6 =>
          tcp := tcp + 1;
          if Loggable(p) {
            var text := TcpFrame.PrintPayload(p.bytes, p.len);
            log := log + text;
          }
        case 17 => udp := udp + 1;
        case _ => others := others + 1;
      }
    }

    /** The loop condition, lines 489 and 604. */
    method TestRunning(ghost mode: Mode, turn: Turn)
      requires Valid() && pc == Head
      modifies this`kernel, this`pc, ring
      ensures View() == TurnStep(mode, old(View()), turn)
      ensures log == old(log) && processed == old(processed)
      ensures Valid()
      ensures pc == if !turn.running then Exit(Interrupted) else if mode.Polling? then Wait else Check
    {
      KernelRuns(turn.kernel);
      ReaderKeepsInv(mode, View(), turn.running, turn.poll);
      pc := if !turn.running then Exit(Interrupted) else if mode.Polling? then Wait else Check;
    }

    /** The wait for a readable socket, line 607. */
    method Poll(turn: Turn) returns (r: int)
      requires Valid() && pc == Wait
      modifies this`kernel, this`pc, ring
      ensures View() == TurnStep(Polling, old(View()), turn)
      ensures log == old(log) && processed == old(processed)
      ensures Valid() && r == turn.poll
      ensures pc == if r > 0 then Check else if r == 0 then Head else Exit(PollError)
    {
      KernelRuns(turn.kernel);
      ReaderKeepsInv(Polling, View(), turn.running, turn.poll);
      r := turn.poll;
      pc := if r > 0 then Check else if r == 0 then Head else Exit(PollError);
    }

    /** The test of the slot's flag, lines 492-497 and 617-620. */
    method TestSlot(ghost mode: Mode, turn: Turn) returns (ready: bool)
      requires Valid() && pc == Check
      modifies this`kernel, this`pc, ring
      ensures View() == TurnStep(mode, old(View()), turn)
      ensures log == old(log) && processed == old(processed)
      ensures Valid()
      ensures pc == if ready then Process else if mode.Polling? then Exit(NoMorePackets) else Head
    {
      KernelRuns(turn.kernel);
      ReaderKeepsInv(mode, View(), turn.running, turn.poll);
      ready := ring[frameNum].user;
      pc := if ready then Process else if mode.Polling? then Exit(NoMorePackets) else Head;
    }

    /** Lines 503-504 and 626-627. */
    method ProcessSlot(ghost mode: Mode, turn: Turn)
      requires Valid() && pc == Process
      modifies this, ring
      ensures View() == TurnStep(mode, old(View()), turn)
      ensures Valid() && pc == Count
      ensures old(log == LogOf(processed)) ==> log == LogOf(processed)
    {
      hide LogOf, PayloadText;
      KernelRuns(turn.kernel);
      ReaderKeepsInv(mode, View(), turn.running, turn.poll);
      ClaimedSlotIsWhole(View());
      LogOfSnoc(processed, ring[frameNum].Seen());
      ProcessPacket(ring[frameNum].Seen());
      pc := Count;
    }

    /** Lines 506-507 and 629-630. */
    method CountSlot(ghost mode: Mode, turn: Turn)
      requires Valid() && pc == Count
      modifies this`kernel, this`pc, this`packetsProcessed, this`bytesProcessed, ring
      ensures View() == TurnStep(mode, old(View()), turn)
      ensures log == old(log) && processed == old(processed)
      ensures Valid() && pc == Release
    {
      KernelRuns(turn.kernel);
      ReaderKeepsInv(mode, View(), turn.running, turn.poll);
      packetsProcessed := packetsProcessed + 1;
      bytesProcessed := bytesProcessed + ring[frameNum].len;
      pc := Release;
    }

    /** Lines 510 and 633. */
    method ReleaseSlot(ghost mode: Mode, turn: Turn)
      requires Valid() && pc == Release
      modifies this`kernel, this`pc, ring
      ensures View() == TurnStep(mode, old(View()), turn)
      ensures log == old(log) && processed == old(processed)
      ensures Valid() && pc == Advance
    {
      KernelRuns(turn.kernel);
      ReaderKeepsInv(mode, View(), turn.running, turn.poll);
      ghost var before := View();
      ring[frameNum] := ring[frameNum].(user := false);
      pc := Advance;
      assert ring[..] == before.slots[frameNum := before.slots[frameNum].(user := false)];
    }

    /** Lines 511 and 634. */
    method AdvanceCursor(ghost mode: Mode, turn: Turn)
      requires Valid() && pc == Advance
      modifies this`kernel, this`pc, this`frameNum, ring
      ensures View() == TurnStep(mode, old(View()), turn)
      ensures log == old(log) && processed == old(processed)
      ensures Valid() && pc == Head
    {
      KernelRuns(turn.kernel);
      ReaderKeepsInv(mode, View(), turn.running, turn.poll);
      frameNum := (frameNum + 1) % ring.Length;
      pc := Head;
    }

    /** The part of the loop body that the two loops share, from a successful check to the loop head. */
    method TakeFrame(ghost mode: Mode, env: seq<Turn>, start: nat, ghost s0: State) returns (t: nat)
      requires Valid() && log == LogOf(processed) && pc == Process && start + 4 <= |env|
      requires s0.WellFormed() && View() == RunTurns(mode, s0, env[..start])
      modifies this, ring
      ensures Valid() && log == LogOf(processed) && pc == Head && t == start + 4
      ensures View() == RunTurns(mode, s0, env[..t])
    {
      hide LogOf;
      ProcessSlot(mode, env[start]);
      RunTurnsSnoc(mode, s0, env, start);
      CountSlot(mode, env[start + 1]);
      RunTurnsSnoc(mode, s0, env, start + 1);
      ReleaseSlot(mode, env[start + 2]);
      RunTurnsSnoc(mode, s0, env, start + 2);
      AdvanceCursor(mode, env[start + 3]);
      RunTurnsSnoc(mode, s0, env, start + 3);
      t := start + 4;
    }

    /**
     The busy-wait loop. It leaves its head when `running` is cleared, or stops
     there when fewer turns are left than one iteration may need; `t` is the number of turns taken.
     */
    method BusyWaitLoop(env: seq<Turn>) returns (t: nat)
      requires Valid() && log == LogOf(processed) && pc == Head
      modifies this, ring
      ensures Valid() && log == LogOf(processed) && t <= |env|
      ensures View() == RunTurns(BusyWait, old(View()), env[..t])
      ensures pc == Exit(Interrupted) || (pc == Head && t + 6 > |env|)
      ensures packetsProcessed == total == icmp + igmp + tcp + udp + others == |processed|
      ensures processed <= kernel.accepted && log <= LogOf(kernel.accepted)
      ensures CountedByByte23(Counters(total, icmp, igmp, tcp, udp, others), processed)
      ensures LogTells(kernel.accepted, processed, log)
    {
      hide LogOf;
      ghost var s0 := View();
      assert s0.WellFormed() && env[..0] == [] && RunTurns(BusyWait, s0, []) == s0;
      t := 0;
      while t + 6 <= |env|
        invariant t <= |env| && Valid() && log == LogOf(processed) && pc == Head
        invariant s0.WellFormed() && View() == RunTurns(BusyWait, s0, env[..t])
      {
        TestRunning(BusyWait, env[t]);
        RunTurnsSnoc(BusyWait, s0, env, t);
        t := t + 1;
        if !env[t - 1].running {
          break;
        }
        var ready := TestSlot(BusyWait, env[t]);
        RunTurnsSnoc(BusyWait, s0, env, t);
        t := t + 1;
        if !ready {
          continue;
        }
        t := TakeFrame(BusyWait, env, t, s0);
      }
      LoopHeadCounts(View());
      LogIsPrefix(processed, kernel.accepted);
      LogOfPrefixTells(kernel.accepted, processed);
    }

    /**
     The polling loop. It leaves its head when `running` is cleared, `poll` fails or the slot is not ready, or stops
     there when fewer turns are left than one iteration may need; `t` is the number of turns taken.
     */
    method PollingLoop(env: seq<Turn>) returns (t: nat)
      requires Valid() && log == LogOf(processed) && pc == Head
      modifies this, ring
      ensures Valid() && log == LogOf(processed) && t <= |env|
      ensures View() == RunTurns(Polling, old(View()), env[..t])
      ensures pc.Exit? || (pc == Head && t + 7 > |env|)
      ensures packetsProcessed == total == icmp + igmp + tcp + udp + others == |processed|
      ensures processed <= kernel.accepted && log <= LogOf(kernel.accepted)
      ensures CountedByByte23(Counters(total, icmp, igmp, tcp, udp, others), processed)
      ensures LogTells(kernel.accepted, processed, log)
    {
      hide LogOf;
      ghost var s0 := View();
      assert s0.WellFormed() && env[..0] == [] && RunTurns(Polling, s0, []) == s0;
      t := 0;
      while t + 7 <= |env|
        invariant t <= |env| && Valid() && log == LogOf(processed) && pc == Head
        invariant s0.WellFormed() && View() == RunTurns(Polling, s0, env[..t])
      {
        TestRunning(Polling, env[t]);
        RunTurnsSnoc(Polling, s0, env, t);
        t := t + 1;
        if !env[t - 1].running {
          break;
        }
        var r := Poll(env[t]);
        RunTurnsSnoc(Polling, s0, env, t);
        t := t + 1;
        if r > 0 && HangupTest(POLLIN) {
          continue;
        } else if r == 0 {
          continue;
        } else if r < 0 {
          break;
        }
        var ready := TestSlot(Polling, env[t]);
        RunTurnsSnoc(Polling, s0, env, t);
        t := t + 1;
        if !ready {
          break;
        }
        t := TakeFrame(Polling, env, t, s0);
      }
      LoopHeadCounts(View());
      LogIsPrefix(processed, kernel.accepted);
      LogOfPrefixTells(kernel.accepted, processed);
    }
  }
}
