/**
 The receive protocol as interleaved atomic steps of three parties that share memory:
 the DMA engine, the interrupt handler and the unit task. The unit task is split at every
 write to shared memory, so a frame may land, or the handler may run, between any two of
 its writes. A run is any sequence of enabled steps; nothing is fair or synchronous.
 */
module RxProtocol {
  import opened Base
  import opened RxRing

  /** Where the unit task is. */
  datatype Pc =
    | Dead                      // no unit task
    | Top                       // about to test task_shutdown
    | Waiting                   // in Wait()
    | Woken                     // Wait() returned, about to clear the RX signal
    | Draining                  // taking messages from the port
    | Arming                    // in PostRxBuffers, after the credits were given
    | RxTest                    // about to test unit->online
    | Scan                      // in ProcessRX, about to read the word at n
    | Deliver                   // completion read, frame not yet handed over
    | Clearing(next: nat)       // about to wipe word `next` of the completion
    | ZeroSlot | PostBuf | PostSlot
    | CreditDesc | CreditBuf    // about to give back the credits

  /** The interrupt handler: status read with INTGEN set, then acknowledged, then signalled. */
  datatype Handler = Idle | Seen | Acked

  datatype Command = Online | Offline | Other

  datatype Memory = Memory(ring: seq<Word>, bufRing: seq<Post>, ram: map<nat, Buffer>)

  /** The driver's fields for the receive rings. */
  datatype Driver = Driver(
    phys: seq<nat>, slotBuf: seq<nat>, writePtr: nat, nextClean: nat, armed: bool, online: bool)

  /** The locals of ProcessRX. */
  datatype Call = Call(n: nat, count: nat, replenish: nat, head: Word, slot: nat, buf: nat, ptr: nat)

  datatype Signals = Signals(port: seq<Command>, rx: bool, portSig: bool, ctrlC: bool, shutdown: bool)

  datatype Engine = Engine(slot: nat, desc: nat, bufCredits: int, descCredits: int)

  datatype Irq = Irq(pending: nat, handler: Handler)

  /** What happened so far; no step depends on it. */
  datatype History = History(done: nat, received: seq<Frame>, handled: seq<Frame>, rejects: nat)

  datatype Sys = Sys(pc: Pc, mem: Memory, drv: Driver, call: Call, sig: Signals, hw: Engine, irq: Irq, hist: History)

  datatype Step =
    | Receive(f: Frame)                             // the DMA engine completes one frame
    | Interrupt | Acknowledge | SignalTask          // the handler
    | PutMsg(cmd: Command) | Kick | Shutdown        // other tasks
    | StartTask
    | Task                                          // the unit task goes on

  // ---- what each party does ----------------------------------------------------------

  function Boot(phys: seq<nat>): Sys {
    Sys(Dead,
        Memory(seq(RX_RING_SIZE, _ => Zero), seq(RX_BUF_RING_SIZE, _ => NoBuf), map[]),
        Driver(phys, seq(RX_RING_SIZE, _ => 0), 0, 0, false, false),
        Call(0, 0, 0, Zero, 0, 0, 0), Signals([], false, false, false, false),
        Engine(0, 0, 0, 0), Irq(0, Idle), History(0, [], [], 0))
  }

  predicate Shapes(s: Sys) {
    && |s.mem.ring| == RX_RING_SIZE && |s.mem.bufRing| == RX_BUF_RING_SIZE && |s.drv.slotBuf| == RX_RING_SIZE
    && |s.drv.phys| == NUM_RX_BUFS
    && s.hw.slot < RX_BUF_RING_SIZE && s.hw.desc < RX_RING_SIZE && s.hw.desc % 4 == 0
    && s.drv.writePtr < RX_BUF_RING_SIZE
    && (s.pc.Clearing? ==> s.pc.next < 4)
    && (s.pc.Deliver? ==> s.call.head.MacRx?)
  }

  predicate Enabled(s: Sys, step: Step) {
    match step
    case Receive(f) => s.hw.bufCredits >= 1 && s.hw.descCredits >= 2 && f.llen <= RX_BUF_SIZE
    case Interrupt => s.irq.handler.Idle?
    case Acknowledge => s.irq.handler.Seen?
    case SignalTask => s.irq.handler.Acked?
    case PutMsg(_) => !s.pc.Dead?
    case Kick => !s.pc.Dead? && s.drv.online
    case Shutdown => !s.pc.Dead?
    case StartTask => s.pc.Dead?
    case Task => !s.pc.Dead? && (s.pc.Waiting? ==> s.sig.rx || s.sig.portSig || s.sig.ctrlC)
  }

  /** The address the DMA engine finds in the slot it has reached. */
  function HwAddr(m: Memory, e: Engine): nat
    requires |m.bufRing| == RX_BUF_RING_SIZE && e.slot < RX_BUF_RING_SIZE
  {
    match m.bufRing[e.slot] case Buf(_, a) => a case NoBuf => 0
  }

  function HwWrite(m: Memory, e: Engine, f: Frame): Memory
    requires |m.ring| == RX_RING_SIZE && |m.bufRing| == RX_BUF_RING_SIZE
    requires e.slot < RX_BUF_RING_SIZE && e.desc < RX_RING_SIZE && e.desc % 4 == 0
  {
    var a, d := HwAddr(m, e), e.desc;
    m.(ram := m.ram[a := f.bytes],
       ring := m.ring[d := MacRx(f.crcError, f.llen, f.cast)]
                     [d + 1 := Eval(e.slot + 1)][d + 2 := Ptr(a)][d + 3 := Pad])
  }

  function HwReceive(s: Sys, f: Frame): Sys
    requires Shapes(s)
  {
    s.(mem := HwWrite(s.mem, s.hw, f),
       hw := Engine((s.hw.slot + 1) % RX_BUF_RING_SIZE, (s.hw.desc + 4) % RX_RING_SIZE,
                    s.hw.bufCredits - 1, s.hw.descCredits - 2),
       irq := s.irq.(pending := s.irq.pending + 1),
       hist := s.hist.(received := s.hist.received + [f]))
  }

  /** PostRxBuffers up to and including the two credit writes. When every buffer was
      allocated by an earlier call it returns early. */
  function PostRxBuffers(s: Sys): Sys
    requires Shapes(s)
  {
    if s.drv.armed then s
    else
      s.(pc := Arming,
         mem := s.mem.(ring := seq(RX_RING_SIZE, _ => Zero),
                       bufRing := seq(RX_BUF_RING_SIZE, i requires 0 <= i =>
                                        if i < NUM_RX_BUFS then PostFor(s.drv.phys, i) else NoBuf)),
         drv := s.drv.(slotBuf := seq(RX_RING_SIZE, i requires 0 <= i < RX_RING_SIZE =>
                                        if i < NUM_RX_BUFS then i else s.drv.slotBuf[i]),
                       writePtr := NUM_RX_BUFS, armed := true),
         hw := s.hw.(bufCredits := s.hw.bufCredits + NUM_RX_BUFS,
                     descCredits := s.hw.descCredits + RX_RING_SIZE / 2))
  }

  function TakeMessage(s: Sys): Sys
    requires Shapes(s) && s.sig.port != []
  {
    var s' := s.(sig := s.sig.(port := s.sig.port[1..]));
    match s.sig.port[0]
    case Online => if s.drv.online then s' else PostRxBuffers(s'.(drv := s.drv.(online := true)))
    case Offline => s'.(drv := s.drv.(online := false))
    case Other => s'
  }

  /** The unit task outside ProcessRX. */
  function TaskLoop(s: Sys): Sys
    requires Shapes(s) && !s.pc.Dead? && !InCall(s.pc)
  {
    match s.pc
    case Top => if s.sig.shutdown then Exit(s) else s.(pc := Waiting)
    case Waiting => s.(pc := Woken, sig := s.sig.(rx := false, portSig := false, ctrlC := false))
    case Woken => if s.sig.ctrlC then Exit(s) else s.(pc := Draining, sig := s.sig.(rx := false))
    case Draining => if s.sig.port == [] then s.(pc := RxTest) else TakeMessage(s)
    case Arming => s.(pc := Draining, drv := s.drv.(nextClean := 0), irq := s.irq.(pending := 0))
    case RxTest =>
      if s.drv.online then s.(pc := Scan, call := s.call.(n := s.drv.nextClean, count := 0, replenish := 0))
      else s.(pc := Top)
  }

  function Exit(s: Sys): Sys {
    s.(pc := Dead, sig := s.sig.(port := []))
  }

  /** Reads the completion at n; the ring slot and the buffer index come from the eval word. */
  function ReadCompletion(c: Call, m: Memory, d: Driver): Call
    requires |m.ring| == RX_RING_SIZE && |d.slotBuf| == RX_RING_SIZE
  {
    var e := m.ring[(c.n + 1) % RX_RING_SIZE];
    var p := m.ring[(c.n + 2) % RX_RING_SIZE];
    var slot := if e.Eval? && e.eval > 0 then e.eval - 1 else RX_RING_SIZE;
    c.(head := m.ring[c.n % RX_RING_SIZE], slot := slot,
       buf := if slot < RX_RING_SIZE then d.slotBuf[slot] else NUM_RX_BUFS,
       ptr := if p.Ptr? then p.addr else 0)
  }

  /** The end of ProcessRX: the cursor is masked only here. */
  function EndScan(s: Sys): Sys {
    s.(pc := if s.call.count > 0 then CreditDesc else Top,
       drv := s.drv.(nextClean := if s.call.n >= RX_RING_SIZE then s.call.n % RX_RING_SIZE else s.call.n))
  }

  /** Hands the frame over. A completion whose slot, buffer or pointer does not check out
      is rejected instead. */
  function HandOver(h: History, c: Call, m: Memory, d: Driver): History
    requires |d.phys| == NUM_RX_BUFS && c.head.MacRx?
  {
    if c.slot >= RX_RING_SIZE || c.buf >= NUM_RX_BUFS || c.ptr != d.phys[c.buf] then h.(rejects := h.rejects + 1)
    else
      var a := d.phys[c.buf];
      var bytes := if a in m.ram then m.ram[a] else seq(RX_BUF_SIZE, _ => 0);
      h.(handled := h.handled + [Frame(c.head.crcError, c.head.llen, c.head.cast, bytes)])
  }

  /** The last write of an iteration: the slot table, then the cursors. */
  function Finish(s: Sys): Sys
    requires Shapes(s)
  {
    var posted := s.call.buf < NUM_RX_BUFS;
    s.(pc := Scan,
       call := s.call.(n := s.call.n + 4, count := s.call.count + 1,
                       replenish := if posted then s.call.replenish + 1 else s.call.replenish),
       drv := if posted then s.drv.(slotBuf := s.drv.slotBuf[s.drv.writePtr := s.call.buf],
                                    writePtr := (s.drv.writePtr + 1) % RX_BUF_RING_SIZE)
              else s.drv,
       hist := s.hist.(done := s.hist.done + 1))
  }

  /** The unit task inside ProcessRX. */
  function RxStep(s: Sys): Sys
    requires Shapes(s) && InCall(s.pc)
  {
    match s.pc
    case Scan =>
      if s.mem.ring[s.call.n % RX_RING_SIZE].MacRx?
      then s.(pc := Deliver, call := ReadCompletion(s.call, s.mem, s.drv))
      else EndScan(s)
    case Deliver => s.(pc := Clearing(0), hist := HandOver(s.hist, s.call, s.mem, s.drv))
    case Clearing(i) =>
      s.(pc := if i < 3 then Clearing(i + 1) else ZeroSlot,
         mem := s.mem.(ring := s.mem.ring[(s.call.n + i) % RX_RING_SIZE := Zero]))
    case ZeroSlot =>
      s.(pc := PostBuf,
         mem := if s.call.slot < RX_RING_SIZE then s.mem.(bufRing := s.mem.bufRing[s.call.slot := NoBuf]) else s.mem)
    case PostBuf =>
      s.(pc := PostSlot,
         mem := if s.call.buf < NUM_RX_BUFS
                then s.mem.(bufRing := s.mem.bufRing[s.drv.writePtr := PostFor(s.drv.phys, s.call.buf)])
                else s.mem)
    case PostSlot => Finish(s)
    case CreditDesc => s.(pc := CreditBuf, hw := s.hw.(descCredits := s.hw.descCredits + 2 * s.call.count))
    case CreditBuf => s.(pc := Top, hw := s.hw.(bufCredits := s.hw.bufCredits + s.call.replenish))
  }

  function Do(s: Sys, step: Step): Sys
    requires Shapes(s) && Enabled(s, step)
  {
    match step
    case Receive(f) => HwReceive(s, f)
    case Interrupt => if s.irq.pending > 0 then s.(irq := s.irq.(handler := Seen)) else s
    case Acknowledge => s.(irq := Irq(0, Acked))
    case SignalTask =>
      s.(irq := s.irq.(handler := Idle), sig := if s.pc.Dead? then s.sig else s.sig.(rx := true))
    case PutMsg(c) => s.(sig := s.sig.(port := s.sig.port + [c], portSig := true))
    case Kick => s.(sig := s.sig.(rx := true))
    case Shutdown => s.(sig := s.sig.(shutdown := true, ctrlC := true))
    case StartTask => s.(pc := Top, sig := Signals([], false, false, false, false))
    case Task => if InCall(s.pc) then RxStep(s) else TaskLoop(s)
  }

  // ---- the invariant ------------------------------------------------------------------

  /** The task holds the oldest completion. */
  predicate InHand(pc: Pc) {
    pc.Deliver? || pc.Clearing? || pc.ZeroSlot? || pc.PostBuf? || pc.PostSlot?
  }

  /** The task is inside the loop of ProcessRX. */
  predicate InLoop(pc: Pc) {
    pc.Scan? || InHand(pc)
  }

  /** The task is inside ProcessRX. */
  predicate InCall(pc: Pc) {
    InLoop(pc) || pc.CreditDesc? || pc.CreditBuf?
  }

  function Cleared(pc: Pc): nat {
    match pc case Clearing(i) => i case ZeroSlot => 4 case PostBuf => 4 case PostSlot => 4 case _ => 0
  }

  /** Completions finished in this call whose credits are still to be given back. */
  function OwedDesc(pc: Pc, c: Call): nat { if InLoop(pc) || pc.CreditDesc? then c.count else 0 }
  function OwedBuf(pc: Pc, c: Call): nat { if InCall(pc) then c.replenish else 0 }

  ghost predicate MemoryInv(pc: Pc, m: Memory, d: Driver, h: History) {
    && DescRing(m.ring, d.phys, h.done, h.received, Cleared(pc))
    && BufRing(m.bufRing, d.phys, h.done, pc.PostBuf? || pc.PostSlot?, pc.PostSlot?)
    && SlotTable(d.slotBuf, h.done)
    && Buffered(m.ram, d.phys, h.done, h.received)
  }

  predicate CreditsInv(pc: Pc, c: Call, d: Driver, e: Engine, h: History) {
    && h.done <= |h.received|
    && e.slot == |h.received| % 2048 && e.desc == 4 * (|h.received| % 512)
    && d.writePtr == (h.done + 512) % 2048
    && e.descCredits == 1024 - 2 * (OwedDesc(pc, c) + |h.received| - h.done) && e.descCredits >= 0
    && e.bufCredits == 512 - (OwedBuf(pc, c) + |h.received| - h.done) && e.bufCredits >= 0
  }

  predicate CursorInv(pc: Pc, c: Call, d: Driver, h: History) {
    && (InCall(pc) ==> c.replenish == c.count <= h.done)
    && (InLoop(pc) ==> d.nextClean == 4 * ((h.done - c.count) % 512) && c.n == d.nextClean + 4 * c.count)
    && (!InLoop(pc) && !pc.Arming? ==> d.nextClean == 4 * (h.done % 512))
    && (pc.Arming? ==> h.done == 0)
  }

  /** What the task knows about the completion it holds. */
  predicate HandInv(pc: Pc, c: Call, d: Driver, h: History) {
    && |d.phys| == NUM_RX_BUFS
    && h.rejects == 0 && h.done <= |h.received|
    && (InHand(pc) ==>
          && h.done < |h.received|
          && c.slot == h.done % 2048 && c.buf == h.done % 512 && c.ptr == d.phys[c.buf]
          && var f := h.received[h.done]; c.head == MacRx(f.crcError, f.llen, f.cast))
    && h.handled == h.received[..h.done + if InHand(pc) && !pc.Deliver? then 1 else 0]
  }

  predicate Unarmed(s: Sys) {
    && !s.drv.online && s.hist == History(0, [], [], 0) && s.drv.nextClean == 0
    && s.hw == Engine(0, 0, 0, 0)
    && !InCall(s.pc) && !s.pc.Arming?
  }

  ghost predicate RingInv(pc: Pc, m: Memory, d: Driver, c: Call, e: Engine, h: History) {
    MemoryInv(pc, m, d, h) && CreditsInv(pc, c, d, e, h) && CursorInv(pc, c, d, h) && HandInv(pc, c, d, h)
  }

  ghost predicate Inv(s: Sys) {
    && Shapes(s) && GoodPhys(s.drv.phys)
    && if s.drv.armed then RingInv(s.pc, s.mem, s.drv, s.call, s.hw, s.hist) else Unarmed(s)
  }

  lemma BootInv(phys: seq<nat>)
    requires GoodPhys(phys)
    ensures Inv(Boot(phys))
  {
  }

  // ---- the DMA engine -----------------------------------------------------------------

  /** Whenever a buffer credit is left, the slot the engine has reached holds its buffer. */
  lemma HwFindsBuffer(s: Sys)
    requires Inv(s) && s.drv.armed && s.hw.bufCredits >= 1
    ensures s.mem.bufRing[s.hw.slot] == PostFor(s.drv.phys, |s.hist.received|)
  {
    PostedAt(s.mem.bufRing, s.drv.phys, s.hist.done, s.pc.PostBuf? || s.pc.PostSlot?, s.pc.PostSlot?,
        |s.hist.received|);
  }

  lemma ReceiveMemory(s: Sys, f: Frame)
    requires Inv(s) && s.drv.armed && Enabled(s, Receive(f))
    ensures MemoryInv(s.pc, HwWrite(s.mem, s.hw, f), s.drv, s.hist.(received := s.hist.received + [f]))
  {
    var h := s.hist;
    var j := |h.received|;
    HardwareWrite(s.mem.ring, s.drv.phys, h.done, h.received, Cleared(s.pc), f);
    HardwareBuffer(s.mem.ram, s.drv.phys, h.done, h.received, f);
    HwFindsBuffer(s);
    assert HwWrite(s.mem, s.hw, f).ring == WriteCompletion(s.mem.ring, s.drv.phys, f, j, j % 512);
  }

  lemma WriteShapes(m: Memory, e: Engine, f: Frame)
    requires |m.ring| == RX_RING_SIZE && |m.bufRing| == RX_BUF_RING_SIZE
    requires e.slot < RX_BUF_RING_SIZE && e.desc < RX_RING_SIZE && e.desc % 4 == 0
    ensures |HwWrite(m, e, f).ring| == RX_RING_SIZE && HwWrite(m, e, f).bufRing == m.bufRing
  {
  }

  lemma ReceiveInv(s: Sys, f: Frame)
    requires Inv(s) && Enabled(s, Receive(f))
    ensures Inv(HwReceive(s, f))
  {
    hide MemoryInv, HwWrite, GoodPhys;
    WriteShapes(s.mem, s.hw, f);
    ReceiveMemory(s, f);
    NextOnRings(|s.hist.received|);
  }

  // ---- the steps of the unit task -----------------------------------------------------

  lemma ArmInv(s: Sys)
    requires Inv(s) && !s.drv.armed && s.pc.Draining?
    ensures Inv(PostRxBuffers(s.(drv := s.drv.(online := true))))
  {
    var s' := PostRxBuffers(s.(drv := s.drv.(online := true)));
    assert DescRing(s'.mem.ring, s'.drv.phys, 0, [], 0);
    assert BufRing(s'.mem.bufRing, s'.drv.phys, 0, false, false);
    assert SlotTable(s'.drv.slotBuf, 0);
  }

  /** The word the task reads or writes next belongs to the oldest completion. */
  lemma CursorAt(s: Sys, c: nat)
    requires Inv(s) && s.drv.armed && InLoop(s.pc) && c < 4
    ensures (s.call.n + c) % RX_RING_SIZE == 4 * (s.hist.done % 512) + c
    ensures var h := s.hist;
            Cleared(s.pc) == 0 ==>
              s.mem.ring[(s.call.n + c) % RX_RING_SIZE] ==
              if h.done < |h.received| then CompletionWord(s.drv.phys, h.received[h.done], h.done, c) else Zero
  {
    CursorOf(s.hist.done, s.call.count, c);
    if Cleared(s.pc) == 0 {
      HeadWords(s.mem.ring, s.drv.phys, s.hist.done, s.hist.received, c);
    }
  }

  lemma CursorOf(done: nat, count: nat, c: nat)
    requires count <= done && c < 4
    ensures (4 * ((done - count) % 512) + 4 * count + c) % 2048 == 4 * (done % 512) + c
  {
    var g := (done - count) % 512;
    assert (g + count) % 512 == done % 512;
    var k := (g + count) / 512;
    assert g + count == 512 * k + done % 512;
    assert 4 * g + 4 * count + c == 2048 * k + (4 * (done % 512) + c);
  }

  /** What the task reads at its cursor is the completion of the oldest frame. */
  lemma ReadsCompletion(s: Sys)
    requires Inv(s) && s.drv.armed && s.pc.Scan? && s.hist.done < |s.hist.received|
    ensures var h, f := s.hist, s.hist.received[s.hist.done];
            ReadCompletion(s.call, s.mem, s.drv) ==
            s.call.(head := MacRx(f.crcError, f.llen, f.cast), slot := h.done % 2048, buf := h.done % 512,
                    ptr := s.drv.phys[h.done % 512])
    ensures s.mem.ring[s.call.n % RX_RING_SIZE].MacRx?
  {
    hide DescRing, BufRing, SlotTable, Buffered, GoodPhys;
    CursorAt(s, 0);
    CursorAt(s, 1);
    CursorAt(s, 2);
    TableAt(s.drv.slotBuf, s.hist.done);
  }

  lemma ScanReads(s: Sys)
    requires Inv(s) && s.drv.armed && s.pc.Scan? && s.hist.done < |s.hist.received|
    ensures s.mem.ring[s.call.n % RX_RING_SIZE].MacRx?
    ensures Inv(RxStep(s))
  {
    hide DescRing, BufRing, SlotTable, Buffered, GoodPhys, ReadCompletion;
    ReadsCompletion(s);
  }

  lemma ScanEnds(s: Sys)
    requires Inv(s) && s.drv.armed && s.pc.Scan? && s.hist.done == |s.hist.received|
    ensures !s.mem.ring[s.call.n % RX_RING_SIZE].MacRx?
    ensures Inv(RxStep(s))
  {
    hide DescRing, BufRing, SlotTable, Buffered, GoodPhys;
    CursorAt(s, 0);
    Masked(s.call.n);
  }

  lemma Masked(n: nat)
    ensures n % RX_RING_SIZE == if n >= RX_RING_SIZE then n % RX_RING_SIZE else n
  {
  }

  lemma DeliverInv(s: Sys)
    requires Inv(s) && s.drv.armed && s.pc.Deliver?
    ensures Inv(RxStep(s))
    ensures RxStep(s).hist.handled == s.hist.handled + [s.hist.received[s.hist.done]]
  {
    hide DescRing, BufRing, SlotTable, GoodPhys;
    var h := s.hist;
    assert h.received[..h.done + 1] == h.received[..h.done] + [h.received[h.done]];
  }

  lemma ClearInv(s: Sys)
    requires Inv(s) && s.drv.armed && s.pc.Clearing?
    ensures Inv(RxStep(s))
  {
    CursorAt(s, s.pc.next);
    ClearWord(s.mem.ring, s.drv.phys, s.hist.done, s.hist.received, s.pc.next);
  }

  lemma ZeroInv(s: Sys)
    requires Inv(s) && s.drv.armed && s.pc.ZeroSlot?
    ensures Inv(RxStep(s))
  {
    ZeroOldest(s.mem.bufRing, s.drv.phys, s.hist.done);
  }

  lemma PostBufInv(s: Sys)
    requires Inv(s) && s.drv.armed && s.pc.PostBuf?
    ensures Inv(RxStep(s))
  {
    PostOldest(s.mem.bufRing, s.drv.phys, s.hist.done);
  }

  lemma FinishCounters(s: Sys)
    requires Shapes(s) && s.pc.PostSlot?
    requires CreditsInv(s.pc, s.call, s.drv, s.hw, s.hist) && CursorInv(s.pc, s.call, s.drv, s.hist)
    requires HandInv(s.pc, s.call, s.drv, s.hist)
    ensures var s' := Finish(s);
            Shapes(s') && CreditsInv(s'.pc, s'.call, s'.drv, s'.hw, s'.hist)
                && CursorInv(s'.pc, s'.call, s'.drv, s'.hist)
    ensures var s' := Finish(s); HandInv(s'.pc, s'.call, s'.drv, s'.hist)
  {
    NextOnRings(s.hist.done + 512);
    assert (s.hist.done + 1) - (s.call.count + 1) == s.hist.done - s.call.count;
  }

  lemma PostSlotInv(s: Sys)
    requires Inv(s) && s.drv.armed && s.pc.PostSlot?
    ensures Inv(RxStep(s))
  {
    FinishOldest(s.mem.ring, s.drv.phys, s.hist.done, s.hist.received);
    MoveWindow(s.mem.bufRing, s.drv.slotBuf, s.drv.phys, s.hist.done);
    FinishCounters(s);
  }

  lemma CreditInv(s: Sys)
    requires Inv(s) && s.drv.armed && (s.pc.CreditDesc? || s.pc.CreditBuf?)
    ensures Inv(RxStep(s))
  {
    hide DescRing, BufRing, SlotTable, Buffered, GoodPhys;
  }

  /** Every step of ProcessRX keeps the invariant. */
  lemma RxStepInv(s: Sys)
    requires Inv(s) && s.drv.armed && InCall(s.pc)
    ensures Inv(RxStep(s))
  {
    match s.pc
    case Scan => if s.hist.done < |s.hist.received| { ScanReads(s); } else { ScanEnds(s); }
    case Deliver => DeliverInv(s);
    case Clearing(_) => ClearInv(s);
    case ZeroSlot => ZeroInv(s);
    case PostBuf => PostBufInv(s);
    case PostSlot => PostSlotInv(s);
    case _ => CreditInv(s);
  }

  lemma MessageInv(s: Sys)
    requires Inv(s) && s.pc.Draining? && s.sig.port != []
    ensures Inv(TakeMessage(s))
  {
    if s.sig.port[0].Online? && !s.drv.online && !s.drv.armed {
      ArmInv(s.(sig := s.sig.(port := s.sig.port[1..])));
    }
  }

  lemma EnterInv(s: Sys)
    requires Inv(s) && (s.pc.RxTest? || s.pc.Arming?)
    ensures Inv(TaskLoop(s))
  {
    hide DescRing, BufRing, SlotTable, Buffered, GoodPhys;
  }

  /** Every step of the task loop keeps the invariant. */
  lemma TaskLoopInv(s: Sys)
    requires Inv(s) && !s.pc.Dead? && !InCall(s.pc)
    ensures Inv(TaskLoop(s))
  {
    hide DescRing, BufRing, SlotTable, Buffered, GoodPhys;
    if s.pc.Draining? && s.sig.port != [] {
      MessageInv(s);
    } else if s.pc.RxTest? || s.pc.Arming? {
      EnterInv(s);
    }
  }

  /** Every step of every party keeps the invariant. */
  lemma StepInv(s: Sys, step: Step)
    requires Inv(s) && Enabled(s, step)
    ensures Inv(Do(s, step))
  {
    hide DescRing, BufRing, SlotTable, Buffered, GoodPhys;
    match step
    case Receive(f) => ReceiveInv(s, f);
    case Task => if InCall(s.pc) { RxStepInv(s); } else { TaskLoopInv(s); }
    case _ =>
  }

  // ---- runs ---------------------------------------------------------------------------

  /** The state after the steps, if each of them was enabled in its turn. */
  function Run(s: Sys, steps: seq<Step>): Option<Sys>
    decreases |steps|
  {
    if steps == [] then Some(s)
    else if Shapes(s) && Enabled(s, steps[0]) then Run(Do(s, steps[0]), steps[1..])
    else None
  }

  /** The frames the DMA engine accepted in a run, in order. */
  function Accepted(steps: seq<Step>): seq<Frame> {
    if steps == [] then []
    else (if steps[0].Receive? then [steps[0].f] else []) + Accepted(steps[1..])
  }

  lemma StepHistory(s: Sys, step: Step)
    requires Shapes(s) && Enabled(s, step)
    ensures Do(s, step).drv.phys == s.drv.phys
    ensures Do(s, step).hist.received == s.hist.received + if step.Receive? then [step.f] else []
  {
  }

  lemma {:induction false} RunHistory(s: Sys, steps: seq<Step>)
    requires Run(s, steps).Some?
    ensures Run(s, steps).value.drv.phys == s.drv.phys
    ensures Run(s, steps).value.hist.received == s.hist.received + Accepted(steps)
    decreases |steps|
  {
    hide Do, Enabled, Shapes;
    if steps != [] {
      var s', rest := Do(s, steps[0]), steps[1..];
      assert Run(s, steps) == Run(s', rest);
      StepHistory(s, steps[0]);
      RunHistory(s', rest);
      AcceptedMore(s.hist.received, steps);
    }
  }

  lemma AcceptedMore(received: seq<Frame>, steps: seq<Step>)
    requires steps != []
    ensures received + Accepted(steps)
            == (received + if steps[0].Receive? then [steps[0].f] else []) + Accepted(steps[1..])
  {
  }

  /** Every state of every run satisfies the invariant. */
  lemma {:induction false} RunInv(s: Sys, steps: seq<Step>)
    requires Inv(s) && Run(s, steps).Some?
    ensures Inv(Run(s, steps).value)
    decreases |steps|
  {
    if steps == [] {
    } else {
      StepInv(s, steps[0]);
      RunInv(Do(s, steps[0]), steps[1..]);
    }
  }
}
