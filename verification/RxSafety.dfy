/**
 What the receive protocol guarantees in every state any run can reach: frames come out
 in order, once each and unspoilt; buffers and credits are conserved; the hardware never
 overwrites what the driver has not finished with; ProcessRX is bounded; and the unit task
 does not sleep on work.
 */
module RxSafety {
  import opened Base
  import opened RxRing
  import opened RxProtocol

  /** The states that some run from power-on comes to; their arrays have their sizes. */
  ghost predicate Reachable(s: Sys) {
    Shapes(s) && exists phys, steps :: GoodPhys(phys) && Run(Boot(phys), steps) == Some(s)
  }

  lemma ReachableInv(s: Sys)
    requires Reachable(s)
    ensures Inv(s)
  {
    var phys, steps :| GoodPhys(phys) && Run(Boot(phys), steps) == Some(s);
    BootInv(phys);
    RunInv(Boot(phys), steps);
  }

  /** The rings are a bounded FIFO: what was handed over is a prefix of what arrived, at most
      512 frames behind, and nothing is missing once ProcessRX sees an empty descriptor. */
  lemma FifoDelivery(phys: seq<nat>, steps: seq<Step>)
    requires GoodPhys(phys) && Run(Boot(phys), steps).Some?
    ensures var s := Run(Boot(phys), steps).value;
            && s.hist.handled <= Accepted(steps)
            && |Accepted(steps)| <= |s.hist.handled| + NUM_RX_BUFS
            && s.hist.rejects == 0
            && Inv(s)
            && (s.pc.Scan? && !s.mem.ring[s.call.n % RX_RING_SIZE].MacRx? ==> s.hist.handled == Accepted(steps))
  {
    BootInv(phys);
    RunInv(Boot(phys), steps);
    RunHistory(Boot(phys), steps);
    var s := Run(Boot(phys), steps).value;
    assert s.hist.received == Accepted(steps);
    InvIsFifo(s);
  }

  lemma InvIsFifo(s: Sys)
    requires Inv(s)
    ensures s.hist.handled <= s.hist.received && |s.hist.received| <= |s.hist.handled| + NUM_RX_BUFS
    ensures s.hist.rejects == 0
    ensures s.pc.Scan? && !s.mem.ring[s.call.n % RX_RING_SIZE].MacRx? ==> s.hist.handled == s.hist.received
  {
    if s.drv.armed && s.pc.Scan? && s.hist.done < |s.hist.received| {
      ScanReads(s);
    }
  }

  // ---- buffers ------------------------------------------------------------------------

  /** The slots of the buffer ring that hold buffer b. */
  ghost function LiveSlots(s: Sys, b: nat): set<nat>
    requires Shapes(s) && b < NUM_RX_BUFS
  {
    set p | 0 <= p < RX_BUF_RING_SIZE && s.mem.bufRing[p] == PostFor(s.drv.phys, b)
  }

  /** The descriptor words that name buffer b in a completion. */
  ghost function Completions(s: Sys, b: nat): set<nat>
    requires Shapes(s) && b < NUM_RX_BUFS
  {
    set w | 0 <= w < RX_RING_SIZE && s.mem.ring[w] == Ptr(s.drv.phys[b])
  }

  /** The number, counted from the first frame ever, of the next frame to use buffer b. */
  function Turn(done: nat, b: nat): nat {
    done + (b - done) % NUM_RX_BUFS
  }

  lemma TurnOf(done: nat, b: nat)
    requires b < NUM_RX_BUFS
    ensures done <= Turn(done, b) < done + 512 && Turn(done, b) % 512 == b
  {
  }

  lemma AgeOfBuffer(p: nat, done: nat)
    requires p < 2048
    ensures SlotAge(p, done) % 512 == (p % 512 - done) % 512
  {
  }

  /** The one slot of the window that buffer b falls into. */
  lemma WindowSlot(p: nat, done: nat, b: nat)
    requires p < RX_BUF_RING_SIZE && b < NUM_RX_BUFS
    ensures SlotAge(p, done) < 512 && p % 512 == b <==> p == Turn(done, b) % 2048
  {
    var j := Turn(done, b);
    TurnOf(done, b);
    SlotOfRing(j, done);
    AgeOfBuffer(p, done);
    if SlotAge(p, done) < 512 && p % 512 == b {
      assert j == done + SlotAge(p, done);
      SlotOf(p, done, j);
    }
  }

  /** Each buffer is in exactly one slot of the buffer ring, except the one the driver is
      just moving. It is in one completion if the hardware has filled it, else in none. */
  lemma BufferConservation(s: Sys, b: nat)
    requires Reachable(s) && s.drv.armed && b < NUM_RX_BUFS
    ensures |LiveSlots(s, b)| == if s.pc.PostBuf? && b == s.call.buf then 0 else 1
    ensures |Completions(s, b)| <= 1
    ensures !InHand(s.pc) ==>
              |Completions(s, b)| == if Turn(s.hist.done, b) < |s.hist.received| then 1 else 0
  {
    ReachableInv(s);
    LiveSlotOf(s, b);
    CompletionOf(s, b);
    CompletionsFew(s, b);
  }

  lemma LiveSlotOf(s: Sys, b: nat)
    requires Inv(s) && s.drv.armed && b < NUM_RX_BUFS
    ensures LiveSlots(s, b) ==
            if b == s.hist.done % 512 && s.pc.PostBuf? then {}
            else if b == s.hist.done % 512 && s.pc.PostSlot? then {(s.hist.done + 512) % 2048}
            else {Turn(s.hist.done, b) % 2048}
  {
    hide SlotAge, Turn, DescRing, SlotTable, Buffered, BufRing, PostFor, GoodPhys;
    forall p | 0 <= p < 2048
      ensures p in LiveSlots(s, b) <==>
              if b == s.hist.done % 512 && s.pc.PostBuf? then false
              else if b == s.hist.done % 512 && s.pc.PostSlot? then p == (s.hist.done + 512) % 2048
              else p == Turn(s.hist.done, b) % 2048
    {
      HeldBy(s.mem.bufRing, s.drv.phys, s.hist.done, s.pc.PostBuf? || s.pc.PostSlot?, s.pc.PostSlot?, p, b);
      WindowSlot(p, s.hist.done, b);
      WindowEnds(p, s.hist.done);
    }
  }

  /** Slot p holds buffer b if it is posted and its turn. */
  lemma HeldBy(bufRing: seq<Post>, phys: seq<nat>, done: nat, zeroed: bool, posted: bool,
      p: nat, b: nat)
    requires BufRing(bufRing, phys, done, zeroed, posted) && GoodPhys(phys) && p < 2048 && b < 512
    ensures bufRing[p] == PostFor(phys, b) <==>
            && p % 512 == b
            && var age := SlotAge(p, done); (age < 512 && !(zeroed && age == 0)) || (posted && age == 512)
  {
    assert bufRing[p] == NoBuf || bufRing[p] == PostFor(phys, p);
  }

  lemma WindowEnds(p: nat, done: nat)
    requires p < RX_BUF_RING_SIZE
    ensures p == (done + 512) % 2048 <==> SlotAge(p, done) == 512
    ensures SlotAge(p, done) == 0 || SlotAge(p, done) == 512 ==> p % 512 == done % 512
    ensures SlotAge(p, done) < 512 && p % 512 == done % 512 ==> SlotAge(p, done) == 0
  {
    SlotNext(p, done);
    AgeOfBuffer(p, done);
    SameResidue(p % 512, done);
  }

  lemma SameResidue(x: nat, done: nat)
    requires x < 512
    ensures (x - done) % 512 == 0 <==> x == done % 512
  {
  }

  lemma CompletionOf(s: Sys, b: nat)
    requires Inv(s) && s.drv.armed && b < NUM_RX_BUFS
    ensures Completions(s, b) <= {4 * b + 2}
    ensures !InHand(s.pc) ==>
              Completions(s, b) == if Turn(s.hist.done, b) < |s.hist.received| then {4 * b + 2} else {}
  {
    var h := s.hist;
    var j := Turn(h.done, b);
    TurnOf(h.done, b);
    forall w | 0 <= w < RX_RING_SIZE
      ensures s.mem.ring[w] == Ptr(s.drv.phys[b]) ==> w == 4 * b + 2 && j < |h.received|
      ensures !InHand(s.pc) && w == 4 * b + 2 && j < |h.received| ==> s.mem.ring[w] == Ptr(s.drv.phys[b])
    {
      GroupOf(w, h.done, j);
      DescBuffer(w, h.done);
    }
  }

  lemma CompletionsFew(s: Sys, b: nat)
    requires Shapes(s) && b < NUM_RX_BUFS && Completions(s, b) <= {4 * b + 2}
    ensures |Completions(s, b)| <= 1
  {
    var all := Completions(s, b);
    assert all == {} || all == {4 * b + 2};
  }

  lemma DescBuffer(w: nat, done: nat)
    requires w < RX_RING_SIZE
    ensures (done + DescAge(w, done)) % 512 == w / 4
  {
  }

  // ---- credits and memory safety --------------------------------------------------------

  /** Credits the engine holds, plus what it has used and not been given back, is constant. */
  lemma CreditSafety(s: Sys)
    requires Reachable(s) && s.drv.armed
    ensures var unfinished := |s.hist.received| - s.hist.done;
            && s.hw.descCredits + 2 * (OwedDesc(s.pc, s.call) + unfinished) == RX_RING_SIZE / 2
            && s.hw.bufCredits + OwedBuf(s.pc, s.call) + unfinished == NUM_RX_BUFS
            && s.hw.descCredits >= 0 && s.hw.bufCredits >= 0
  {
    ReachableInv(s);
  }

  /** Whenever the engine may write, the descriptor it writes to is wiped, the buffer it
      fills is one of the driver's, and no unfinished completion names that buffer. */
  lemma NeverOverwrites(s: Sys, f: Frame)
    requires Reachable(s) && Enabled(s, Receive(f))
    ensures TargetFree(s)
  {
    ReachableInv(s);
    EngineFinds(s, f);
  }

  /** The next descriptor is clear and the next buffer is nobody's. */
  ghost predicate TargetFree(s: Sys)
    requires Shapes(s)
  {
    var b := |s.hist.received| % 512;
    && (forall w :: s.hw.desc <= w < s.hw.desc + 4 ==> s.mem.ring[w] == Zero)
    && s.mem.bufRing[s.hw.slot] == PostFor(s.drv.phys, b)
    && HwAddr(s.mem, s.hw) == s.drv.phys[b]
    && Completions(s, b) == {}
    && (InHand(s.pc) ==> s.call.buf != b)
  }

  lemma EngineFinds(s: Sys, f: Frame)
    requires Inv(s) && Enabled(s, Receive(f))
    ensures TargetFree(s)
  {
    hide MemoryInv, CursorInv, Completions, PostFor, GoodPhys;
    HwFindsBuffer(s);
    TargetWords(s, f);
    Unnamed(s);
    TargetAddress(s);
    OthersBuffer(s.hist.done, |s.hist.received|);
  }

  lemma TargetAddress(s: Sys)
    requires Shapes(s) && s.mem.bufRing[s.hw.slot] == PostFor(s.drv.phys, |s.hist.received|)
    ensures PostFor(s.drv.phys, |s.hist.received| % 512) == PostFor(s.drv.phys, |s.hist.received|)
    ensures HwAddr(s.mem, s.hw) == s.drv.phys[|s.hist.received| % 512]
  {
  }

  lemma TargetWords(s: Sys, f: Frame)
    requires Inv(s) && Enabled(s, Receive(f))
    ensures forall w :: s.hw.desc <= w < s.hw.desc + 4 ==> s.mem.ring[w] == Zero
  {
    hide BufRing, SlotTable, Buffered, WriteCompletion, DescRing, GoodPhys;
    HardwareWrite(s.mem.ring, s.drv.phys, s.hist.done, s.hist.received, Cleared(s.pc), f);
    forall w | s.hw.desc <= w < s.hw.desc + 4
      ensures s.mem.ring[w] == Zero
    {
      WordsOf(|s.hist.received| % 512, w);
    }
  }

  /** Fewer than 512 frames apart use different buffers. */
  lemma OthersBuffer(done: nat, next: nat)
    requires done <= next < done + 512
    ensures done < next ==> done % 512 != next % 512
  {
  }

  lemma WordsOf(g: nat, w: nat)
    requires 4 * g <= w < 4 * g + 4
    ensures w / 4 == g
  {
  }

  lemma Unnamed(s: Sys)
    requires Inv(s) && s.drv.armed && s.hw.bufCredits >= 1
    ensures Completions(s, |s.hist.received| % 512) == {}
  {
    var h := s.hist;
    forall w | 0 <= w < RX_RING_SIZE
      ensures s.mem.ring[w] != Ptr(s.drv.phys[|h.received| % 512])
    {
      GroupOf(w, h.done, |h.received|);
      DescBuffer(w, h.done);
    }
  }

  // ---- ProcessRX ------------------------------------------------------------------------

  /** One call handles at most 512 completions however many arrive meanwhile, so the raw
      cursor stays below twice the ring. */
  lemma BoundedDrain(s: Sys)
    requires Reachable(s) && s.drv.armed && InCall(s.pc)
    ensures s.call.count <= NUM_RX_BUFS && s.call.replenish == s.call.count
    ensures InHand(s.pc) ==> s.call.count < NUM_RX_BUFS
    ensures InLoop(s.pc) ==> s.call.n < 2 * RX_RING_SIZE
  {
    ReachableInv(s);
  }

  /** Between calls the driver's cursors and tables are functions of the number k of frames
      handed over. */
  lemma ClosedForm(s: Sys)
    requires Reachable(s) && s.drv.armed && !InCall(s.pc) && !s.pc.Arming?
    ensures var k := |s.hist.handled|;
            && s.drv.nextClean == (4 * k) % RX_RING_SIZE
            && s.drv.writePtr == (k + NUM_RX_BUFS) % RX_BUF_RING_SIZE
            && (forall p :: 0 <= p < RX_BUF_RING_SIZE ==> (s.mem.bufRing[p] != NoBuf <==> (p - k) % 2048 < 512))
            && (forall i {:trigger s.drv.slotBuf[i % 2048]} ::
                  k <= i < k + 512 ==> s.drv.slotBuf[i % 2048] == i % 512
                                       && s.mem.bufRing[i % 2048] == PostFor(s.drv.phys, i))
  {
    ReachableInv(s);
    var k := s.hist.done;
    SlotOfRing(k, k);
    LiveWindow(s.mem.bufRing, s.drv.slotBuf, s.drv.phys, k);
  }

  lemma LiveWindow(bufRing: seq<Post>, slotBuf: seq<nat>, phys: seq<nat>, k: nat)
    requires BufRing(bufRing, phys, k, false, false) && SlotTable(slotBuf, k)
    ensures forall p :: 0 <= p < RX_BUF_RING_SIZE ==> (bufRing[p] != NoBuf <==> (p - k) % 2048 < 512)
    ensures forall i {:trigger slotBuf[i % 2048]} ::
              k <= i < k + 512 ==> slotBuf[i % 2048] == i % 512 && bufRing[i % 2048] == PostFor(phys, i)
  {
    forall i | k <= i < k + 512
      ensures slotBuf[i % 2048] == i % 512 && bufRing[i % 2048] == PostFor(phys, i)
    {
      SlotOfRing(i, k);
    }
  }

  /** A completion taken in hand always checks out: the slot and buffer indices are in range
      and its pointer is that buffer's address, so no one-buffer frame counts as split. */
  lemma NeverSplit(s: Sys)
    requires Reachable(s) && s.drv.armed && s.pc.Deliver?
    ensures s.call.slot < RX_RING_SIZE && s.call.buf < NUM_RX_BUFS && s.call.ptr == s.drv.phys[s.call.buf]
    ensures s.hist.done < |s.hist.received|
    ensures RxStep(s).hist.handled == s.hist.handled + [s.hist.received[s.hist.done]]
  {
    ReachableInv(s);
    DeliverInv(s);
  }

  // ---- wakeups ----------------------------------------------------------------------------

  /** Something will still set the task's RX signal, or has. */
  predicate Alarm(s: Sys) {
    s.sig.rx || s.irq.pending > 0 || !s.irq.handler.Idle?
  }

  /** The task will not look at the ring again before its next Wait(). */
  predicate PastScan(pc: Pc) {
    pc.CreditDesc? || pc.CreditBuf? || pc.Top? || pc.Waiting?
  }

  predicate Awake(s: Sys) {
    && (s.drv.online && PastScan(s.pc) && s.hist.done < |s.hist.received| ==> Alarm(s))
    && (s.sig.port != [] && (PastScan(s.pc) || s.pc.RxTest? || InLoop(s.pc)) ==> s.sig.portSig)
    && (s.sig.shutdown && s.pc.Waiting? ==> s.sig.ctrlC)
  }

  /** A new task starts safely unless the unit was left online, the completion at the cursor
      is owned by the driver, and no interrupt is on its way. */
  predicate SafeStart(s: Sys)
    requires Shapes(s)
  {
    s.drv.online && s.mem.ring[s.drv.nextClean % RX_RING_SIZE].MacRx? ==> s.irq.pending > 0 || !s.irq.handler.Idle?
  }

  lemma GroupStart(done: nat)
    ensures 4 * (done % 512) % 2048 == 4 * (done % 512)
  {
  }

  /** What the driver sees at its cursor between two scans. */
  lemma CursorTells(s: Sys)
    requires Inv(s) && s.drv.armed && !InLoop(s.pc) && !s.pc.Arming?
    ensures s.mem.ring[s.drv.nextClean % RX_RING_SIZE].MacRx? <==> s.hist.done < |s.hist.received|
  {
    hide DescRing, BufRing, SlotTable, Buffered, GoodPhys;
    HeadWords(s.mem.ring, s.drv.phys, s.hist.done, s.hist.received, 0);
    GroupStart(s.hist.done);
  }

  lemma WakeRx(s: Sys)
    requires Inv(s) && Awake(s) && InCall(s.pc)
    ensures Awake(RxStep(s))
  {
    if s.pc.Scan? && s.hist.done < |s.hist.received| {
      ScanReads(s);
    }
  }

  lemma WakeLoop(s: Sys)
    requires Inv(s) && Awake(s) && Enabled(s, Task) && !InCall(s.pc) && !(s.pc.Draining? && s.sig.port != [])
    ensures Awake(TaskLoop(s))
  {
    hide DescRing, BufRing, SlotTable, Buffered, GoodPhys;
  }

  lemma WakeMessage(s: Sys)
    requires Inv(s) && Awake(s) && s.pc.Draining? && s.sig.port != []
    ensures Awake(TakeMessage(s))
  {
  }

  /** Starting a task keeps wakeups safe exactly when the start is safe; every other step
      always does. */
  lemma WakeStep(s: Sys, step: Step)
    requires Inv(s) && Awake(s) && Enabled(s, step)
    ensures Awake(Do(s, step)) <==> (step.StartTask? ==> SafeStart(s))
  {
    hide DescRing, BufRing, SlotTable, Buffered, GoodPhys;
    if step.StartTask? {
      if s.drv.online { CursorTells(s); }
    } else if step.Task? {
      if InCall(s.pc) { WakeRx(s); }
      else if s.pc.Draining? && s.sig.port != [] { WakeMessage(s); }
      else { WakeLoop(s); }
    }
  }

  /** An unsafe start loses the wakeup every time: the new task goes straight to sleep on the
      frame. */
  lemma UnsafeStartSleeps(s: Sys)
    requires Inv(s) && s.pc.Dead? && !SafeStart(s)
    ensures Run(s, [StartTask, Task]).Some? && SleepsOnFrame(Run(s, [StartTask, Task]).value)
  {
    hide RingInv, GoodPhys;
    CursorTells(s);
    var s' := Do(s, StartTask);
    assert [StartTask, Task][1..] == [Task];
    assert Run(s', [Task]) == Run(Do(s', Task), []);
  }

  /** Neither a frame nor anything that another task does. */
  predicate Undisturbed(step: Step) {
    step.Interrupt? || step.Acknowledge? || step.SignalTask? || step.StartTask? || step.Task?
  }

  /** And it sleeps on until a frame arrives or another task sends it something. */
  lemma {:induction false} StaysAsleep(s: Sys, steps: seq<Step>)
    requires Inv(s) && SleepsOnFrame(s) && Run(s, steps).Some?
    requires forall i :: 0 <= i < |steps| ==> Undisturbed(steps[i])
    ensures Run(s, steps).value == s
    decreases |steps|
  {
    if steps != [] {
      assert Undisturbed(steps[0]) && Do(s, steps[0]) == s;
      StaysAsleep(s, steps[1..]);
    }
  }

  predicate SafeStarts(s: Sys, steps: seq<Step>)
    decreases |steps|
  {
    steps != [] && Shapes(s) && Enabled(s, steps[0]) ==>
      (steps[0].StartTask? ==> SafeStart(s)) && SafeStarts(Do(s, steps[0]), steps[1..])
  }

  lemma FirstWake(s: Sys, steps: seq<Step>) returns (s': Sys)
    requires Inv(s) && Awake(s) && steps != [] && Run(s, steps).Some? && SafeStarts(s, steps)
    ensures Inv(s') && Awake(s') && Run(s, steps) == Run(s', steps[1..]) && SafeStarts(s', steps[1..])
  {
    s' := Do(s, steps[0]);
    WakeStep(s, steps[0]);
    StepInv(s, steps[0]);
  }

  lemma {:induction false} WakeRun(s: Sys, steps: seq<Step>)
    requires Inv(s) && Awake(s) && Run(s, steps).Some? && SafeStarts(s, steps)
    ensures Inv(Run(s, steps).value) && Awake(Run(s, steps).value)
    decreases |steps|
  {
    if steps == [] {
    } else {
      var s' := FirstWake(s, steps);
      WakeRun(s', steps[1..]);
    }
  }

  /** The task never sleeps on work: if it is blocked in Wait() with no signal set, then the
      port is empty, no shutdown was asked for, and, if it is online, every completion is
      handled or an interrupt is on its way. */
  lemma NoLostWakeup(phys: seq<nat>, steps: seq<Step>)
    requires GoodPhys(phys) && Run(Boot(phys), steps).Some? && SafeStarts(Boot(phys), steps)
    ensures var s := Run(Boot(phys), steps).value;
            s.pc.Waiting? && !Enabled(s, Task) ==>
              && s.sig.port == [] && !s.sig.shutdown
              && (s.drv.online && s.hist.done < |s.hist.received| ==> s.irq.pending > 0 || !s.irq.handler.Idle?)
  {
    BootInv(phys);
    WakeRun(Boot(phys), steps);
  }

  lemma {:induction false} RunAppend(s: Sys, steps: seq<Step>, more: seq<Step>)
    requires Run(s, steps).Some?
    ensures Run(s, steps + more) == Run(Run(s, steps).value, more)
    decreases |steps|
  {
    if steps == [] {
      assert steps + more == more;
    } else {
      assert (steps + more)[1..] == steps[1..] + more;
      RunAppend(Do(s, steps[0]), steps[1..], more);
    }
  }

  /** One more step of a run under construction. */
  lemma Go(b: Sys, steps: seq<Step>, s: Sys, step: Step) returns (t: seq<Step>, s': Sys)
    requires Run(b, steps) == Some(s) && Inv(s) && Enabled(s, step)
    ensures t == steps + [step] && s' == Do(s, step) && Run(b, t) == Some(s') && Inv(s')
  {
    t, s' := steps + [step], Do(s, step);
    RunAppend(b, steps, [step]);
    StepInv(s, step);
  }

  predicate JustArming(s: Sys) {
    && s.pc.Arming? && s.drv.online && s.drv.armed && s.hist == History(0, [], [], 0) && s.irq == Irq(0, Idle)
    && s.hw.bufCredits == 512 && s.hw.descCredits == 1024 && s.sig == Signals([], false, false, false, false)
  }

  /** A task that serves its first S2_ONLINE. */
  lemma GoArming(phys: seq<nat>) returns (t: seq<Step>, s: Sys)
    requires GoodPhys(phys)
    ensures Run(Boot(phys), t) == Some(s) && Inv(s) && JustArming(s)
  {
    hide DescRing, BufRing, SlotTable, Buffered, GoodPhys;
    var b := Boot(phys);
    BootInv(phys);
    t, s := Go(b, [], b, StartTask);
    t, s := Go(b, t, s, PutMsg(Online));
    t, s := Go(b, t, s, Task);    // into Wait()
    t, s := Go(b, t, s, Task);    // and out of it
    t, s := Go(b, t, s, Task);
    t, s := Go(b, t, s, Task);    // the message: post the buffers
  }

  /** A task that has gone online and found nothing to do. */
  predicate IdleOnline(s: Sys) {
    && s.pc.Top? && s.drv.online && s.hist.done == |s.hist.received| == 0 && s.irq == Irq(0, Idle)
    && s.hw.bufCredits == 512 && s.hw.descCredits == 1024 && !s.sig.shutdown
  }

  /** A task on its first look at the ring. */
  predicate FirstLook(s: Sys) {
    && s.pc.Scan? && s.call.count == 0 && s.drv.online && s.hist.done == |s.hist.received| == 0 && s.irq == Irq(0, Idle)
    && s.hw.bufCredits == 512 && s.hw.descCredits == 1024 && !s.sig.shutdown
  }

  lemma GoLook(phys: seq<nat>) returns (t: seq<Step>, s: Sys)
    requires GoodPhys(phys)
    ensures Run(Boot(phys), t) == Some(s) && Inv(s) && FirstLook(s)
  {
    hide DescRing, BufRing, SlotTable, Buffered, GoodPhys;
    var b := Boot(phys);
    t, s := GoArming(phys);
    t, s := Go(b, t, s, Task);
    t, s := Go(b, t, s, Task);
    t, s := Go(b, t, s, Task);    // into ProcessRX
  }

  lemma GoOnline(phys: seq<nat>) returns (t: seq<Step>, s: Sys)
    requires GoodPhys(phys)
    ensures Run(Boot(phys), t) == Some(s) && Inv(s) && IdleOnline(s)
  {
    hide DescRing, BufRing, SlotTable, Buffered, GoodPhys;
    t, s := GoLook(phys);
    ScanEnds(s);
    t, s := Go(Boot(phys), t, s, Task);
  }

  /** A task that was shut down while online: nobody is left to signal. */
  predicate DownOnline(s: Sys) {
    && s.pc.Dead? && s.drv.online && s.drv.armed && s.hist.done == |s.hist.received| == 0 && s.irq == Irq(0, Idle)
    && s.hw.bufCredits == 512 && s.hw.descCredits == 1024
  }

  lemma GoDown(phys: seq<nat>) returns (t: seq<Step>, s: Sys)
    requires GoodPhys(phys)
    ensures Run(Boot(phys), t) == Some(s) && Inv(s) && DownOnline(s)
  {
    var b := Boot(phys);
    t, s := GoOnline(phys);
    t, s := Go(b, t, s, Shutdown);
    t, s := Go(b, t, s, Task);
  }

  /** The exception is real. Shutting the task down while online leaves unit->online set and
      the MAC running; a frame that arrives before the next task starts has its interrupt
      acknowledged with nobody to signal, and the new task goes to sleep on it. */
  lemma RestartCanSleep(phys: seq<nat>, f: Frame)
    requires GoodPhys(phys) && f.llen <= RX_BUF_SIZE
    ensures exists steps :: Run(Boot(phys), steps).Some? && SleepsOnFrame(Run(Boot(phys), steps).value)
  {
    var b := Boot(phys);
    var t, s := GoDown(phys);
    t, s := Go(b, t, s, Receive(f));
    t, s := Go(b, t, s, Interrupt);
    t, s := Go(b, t, s, Acknowledge);
    t, s := Go(b, t, s, SignalTask);
    t, s := Go(b, t, s, StartTask);
    t, s := Go(b, t, s, Task);
    assert SleepsOnFrame(s);
  }

  /** Blocked for good unless something else happens, with a frame waiting. */
  predicate SleepsOnFrame(s: Sys) {
    s.pc.Waiting? && !Enabled(s, Task) && s.drv.online && s.hist.done < |s.hist.received| && s.irq == Irq(0, Idle)
  }
}
