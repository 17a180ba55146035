/**
 The memory-mapped receive ring (`sniff_afpacket/src/source-af-packet.c:483-513` and `:594-643`)
 as a two-party transition system.

 The kernel and the reader take turns in any order.  The reader's loop body is cut at every point
 where the kernel can get in between, so a reader position (`PC`) stands for each cut.  An action
 that is not enabled leaves the state as it is, so every sequence of actions is a schedule.
 */
module Ring {
  import opened Wire

  /** A captured packet: the bytes from `tp_mac` on that the reader can see, and `tp_len`. */
  datatype Packet = Packet(bytes: seq<byte>, len: nat)

  /** Offset, from the start of the frame, of the IPv4 protocol byte (14 + 9). */
  const PROTOCOL_OFFSET: nat := 23

  /** NUM_FRAMES of the source; the theorems hold for every positive ring size. */
  const NUM_FRAMES: nat := 64

  predicate ValidPacket(p: Packet) {
    |p.bytes| > PROTOCOL_OFFSET
  }

  /** One ring slot: the TP_STATUS_USER bit of `tp_status`, and what has been written so far. */
  datatype Slot = Slot(user: bool, data: seq<byte>, len: nat) {
    /** What the reader sees when it looks at the slot now. */
    function Seen(): Packet { Packet(data, len) }
  }

  const EMPTY_SLOT := Slot(false, [], 0)

  // ----- The kernel's side -----

  /**
   `head` is the next slot to reserve, `pending` the reserved but unpublished slots with the packet
   meant for each, `accepted` and `dropped` the packets that arrived, in arrival order.
   */
  datatype Kernel = Kernel(head: nat, pending: map<nat, Packet>, accepted: seq<Packet>, dropped: seq<Packet>)

  /**
   `Arrive` reserves the slot at `head`, or drops the packet when that slot is taken; `Fill` writes
   the next `count` bytes of a reserved slot; `WriteLen` writes its length; `Publish` hands a
   completely written slot to the reader.  Slots may be filled and published in any order.
   */
  datatype KernelAction =
    | Arrive(p: Packet)
    | Fill(slot: nat, count: nat)
    | WriteLen(slot: nat)
    | Publish(slot: nat)

  // ----- The reader's side -----

  /** The two reader loops. */
  datatype Mode = BusyWait | Polling

  datatype ExitReason = Interrupted | PollError | NoMorePackets

  /**
   Where the reader is.  `Fault` stands for a read outside what the slot holds; it is a position so
   that its unreachability is a theorem.
   */
  datatype PC = Head | Wait | Check | Process | Count | Release | Advance | Exit(reason: ExitReason) | Fault

  /** The globals that ProcessPacket increments. */
  datatype Counters = Counters(total: nat, icmp: nat, igmp: nat, tcp: nat, udp: nat, others: nat)

  const NO_PACKETS := Counters(0, 0, 0, 0, 0, 0)

  function Protocol(p: Packet): byte
    requires ValidPacket(p)
  {
    p.bytes[PROTOCOL_OFFSET]
  }

  /** The counters after ProcessPacket sees a packet with protocol byte `b`. */
  function Classify(c: Counters, b: byte): Counters {
    var d := c.(total := c.total + 1);
    match b
    case 1 => d.(icmp := d.icmp + 1)
    case 2 => d.(igmp := d.igmp + 1)
    case 6 => d.(tcp := d.tcp + 1)
    case 17 => d.(udp := d.udp + 1)
    case _ => d.(others := d.others + 1)
  }

  /** `cursor` is frame_num; `packets` and `bytes` are the two Stats counters. */
  datatype Reader = Reader(pc: PC, cursor: nat, processed: seq<Packet>, counters: Counters, packets: nat, bytes: nat)

  datatype State = State(slots: seq<Slot>, kernel: Kernel, reader: Reader) {
    predicate WellFormed() {
      && |slots| > 0
      && reader.cursor < |slots|
      && kernel.head < |slots|
      && (forall i <- kernel.pending :: i < |slots|)
    }

    /** `header->tp_status & TP_STATUS_USER` for the slot under the cursor. */
    predicate CursorReady()
      requires WellFormed()
    {
      slots[reader.cursor].user
    }

    /** The slot the kernel reserved last. */
    function NewestSlot(): nat
      requires WellFormed()
    {
      if kernel.head == 0 then |slots| - 1 else kernel.head - 1
    }

    /** What `poll` reports as readable: the slot reserved last has been handed to the reader. */
    predicate PollReady()
      requires WellFormed()
    {
      slots[NewestSlot()].user
    }
  }

  function Init(n: nat): (s: State)
    requires n > 0
    ensures s.WellFormed() && |s.slots| == n
  {
    State(seq(n, _ => EMPTY_SLOT),
          Kernel(0, map[], [], []),
          Reader(Head, 0, [], NO_PACKETS, 0, 0))
  }

  function KernelStep(s: State, a: KernelAction): (t: State)
    requires s.WellFormed()
    ensures t.WellFormed() && |t.slots| == |s.slots| && t.reader == s.reader
  {
    var k := s.kernel;
    match a
    case Arrive(p) =>
      if !ValidPacket(p) then s
      else if s.slots[k.head].user || k.head in k.pending then
        s.(kernel := k.(dropped := k.dropped + [p]))
      else
        s.(slots := s.slots[k.head := s.slots[k.head].(data := [])],
           kernel := Kernel((k.head + 1) % |s.slots|, k.pending[k.head := p], k.accepted + [p], k.dropped))
    case Fill(i, count) =>
      if i in k.pending && |s.slots[i].data| + count <= |k.pending[i].bytes| then
        s.(slots := s.slots[i := s.slots[i].(data := k.pending[i].bytes[..|s.slots[i].data| + count])])
      else s
    case WriteLen(i) =>
      if i in k.pending then s.(slots := s.slots[i := s.slots[i].(len := k.pending[i].len)]) else s
    case Publish(i) =>
      if i in k.pending && s.slots[i].Seen() == k.pending[i] then
        s.(slots := s.slots[i := s.slots[i].(user := true)], kernel := k.(pending := k.pending - {i}))
      else s
  }

  /** The reader's turn: `running` and `poll` are what it reads from its surroundings if it asks. */
  function ReaderStep(mode: Mode, s: State, running: bool, poll: int): (t: State)
    requires s.WellFormed()
    ensures t.WellFormed() && |t.slots| == |s.slots| && t.kernel == s.kernel
  {
    var r := s.reader;
    var slot := s.slots[r.cursor];
    match r.pc
    case Head =>
      s.(reader := r.(pc := if !running then Exit(Interrupted) else if mode.Polling? then Wait else Check))
    case Wait =>
      s.(reader := r.(pc := if poll > 0 then Check else if poll == 0 then Head else Exit(PollError)))
    case Check =>
      s.(reader := r.(pc := if slot.user then Process else if mode.Polling? then Exit(NoMorePackets) else Head))
    case Process =>
      if !ValidPacket(slot.Seen()) then s.(reader := r.(pc := Fault))
      else s.(reader := r.(pc := Count,
                           processed := r.processed + [slot.Seen()],
                           counters := Classify(r.counters, Protocol(slot.Seen()))))
    case Count =>
      s.(reader := r.(pc := Release, packets := r.packets + 1, bytes := r.bytes + slot.len))
    case Release =>
      s.(slots := s.slots[r.cursor := slot.(user := false)], reader := r.(pc := Advance))
    case Advance =>
      s.(reader := r.(pc := Head, cursor := (r.cursor + 1) % |s.slots|))
    case Exit(_) => s
    case Fault => s
  }

  // ----- Schedules -----

  datatype Action = Env(a: KernelAction) | Tick(running: bool, poll: int)

  function Next(mode: Mode, s: State, a: Action): (t: State)
    requires s.WellFormed()
    ensures t.WellFormed() && |t.slots| == |s.slots|
  {
    match a
    case Env(k) => KernelStep(s, k)
    case Tick(running, poll) => ReaderStep(mode, s, running, poll)
  }

  function Exec(mode: Mode, s: State, acts: seq<Action>): (t: State)
    requires s.WellFormed()
    ensures t.WellFormed() && |t.slots| == |s.slots|
    decreases |acts|
  {
    if acts == [] then s else Exec(mode, Next(mode, s, acts[0]), acts[1..])
  }

  lemma {:induction false} ExecConcat(mode: Mode, s: State, a: seq<Action>, b: seq<Action>)
    requires s.WellFormed()
    ensures Exec(mode, s, a + b) == Exec(mode, Exec(mode, s, a), b)
    decreases |a|
  {
    if a == [] {
      assert a + b == b;
    } else {
      assert (a + b)[1..] == a[1..] + b;
      ExecConcat(mode, Next(mode, s, a[0]), a[1..], b);
    }
  }

  lemma ExecSnoc(mode: Mode, s: State, acts: seq<Action>, a: Action)
    requires s.WellFormed()
    ensures Exec(mode, s, acts + [a]) == Next(mode, Exec(mode, s, acts), a)
  {
    ExecConcat(mode, s, acts, [a]);
    var t := Exec(mode, s, acts);
    assert Exec(mode, Next(mode, t, a), []) == Next(mode, t, a);
  }
}
