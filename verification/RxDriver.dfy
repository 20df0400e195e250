/**
 The receive side of the driver as it runs: PostRxBuffers and ProcessRX over the ring
 arrays, with the DMA engine catching frames while ProcessRX is at work.
 */
module RxDriver {
  import opened Base
  import opened RxRing
  import opened Requests
  import opened UnitQueues
  import HwResources

  class RxUnit {
    const queues: Queues
    const rxRing: array<Word>
    const rxBufRing: array<Post>
    const rxSlotBuf: array<nat>
    const hw: HwResources.Unit      // rx_bufs, rx_bufs_phys
    var writePtr: nat
    var nextClean: nat
    // the DMA engine
    var ram: map<nat, Buffer>
    var hwSlot: nat
    var hwDesc: nat
    var bufCredits: int
    var descCredits: int
    // history
    ghost var done: nat
    ghost var received: seq<Frame>

    predicate Shapes() {
      && rxRing.Length == RX_RING_SIZE && rxBufRing.Length == RX_BUF_RING_SIZE && rxSlotBuf.Length == RX_RING_SIZE
      && hw.rxBufs.Length == hw.rxBufsPhys.Length == NUM_RX_BUFS && rxSlotBuf != hw.rxBufsPhys
    }

    /** The rings are in the closed form for `done` and `received`. */
    ghost predicate RingsValid()
      reads this, rxRing, rxBufRing, rxSlotBuf, hw.rxBufs, hw.rxBufsPhys
    {
      && Shapes() && GoodPhys(hw.rxBufsPhys[..])
      && done <= |received| <= done + 512
      && DescRing(rxRing[..], hw.rxBufsPhys[..], done, received, 0)
      && BufRing(rxBufRing[..], hw.rxBufsPhys[..], done, false, false)
      && SlotTable(rxSlotBuf[..], done)
      && Buffered(ram, hw.rxBufsPhys[..], done, received)
      && writePtr == (done + 512) % 2048
      && hwSlot == |received| % 2048 && hwDesc == 4 * (|received| % 512)
    }

    /** The credits when `owed` finished completions have not been given back. */
    ghost predicate CreditsValid(owed: nat)
      reads this
    {
      && done <= |received| && owed + |received| - done <= 512
      && descCredits == 1024 - 2 * (owed + |received| - done)
      && bufCredits == 512 - (owed + |received| - done)
    }

    /** Between calls of ProcessRX. */
    ghost predicate Valid()
      reads this, rxRing, rxBufRing, rxSlotBuf, hw.rxBufs, hw.rxBufsPhys
    {
      RingsValid() && CreditsValid(0) && nextClean == 4 * (done % 512)
    }

    constructor (hw: HwResources.Unit, queues: Queues)
      requires hw.rxBufs.Length == hw.rxBufsPhys.Length == NUM_RX_BUFS
      ensures Sane() && Idle() && this.hw == hw && this.queues == queues
      ensures fresh(rxRing) && fresh(rxBufRing) && fresh(rxSlotBuf)
    {
      this.hw, this.queues := hw, queues;
      rxRing := new Word[RX_RING_SIZE](_ => Zero);
      rxBufRing := new Post[RX_BUF_RING_SIZE](_ => NoBuf);
      rxSlotBuf := new nat[RX_RING_SIZE](_ => 0);
      writePtr, nextClean, ram := 0, 0, map[];
      hwSlot, hwDesc, bufCredits, descCredits := 0, 0, 0, 0;
      done, received := 0, [];
    }

    // ---- the DMA engine ---------------------------------------------------------------------

    /** The engine can take a frame: its positions are on the rings. */
    predicate OnRings()
      reads this
    {
      Shapes() && hwSlot < RX_BUF_RING_SIZE && hwDesc % 4 == 0 && hwDesc < RX_RING_SIZE
    }

    /** The address the engine finds in the slot it has reached. */
    function Target(): nat
      requires OnRings()
      reads this, rxBufRing
    {
      match rxBufRing[hwSlot] case Buf(_, addr) => addr case NoBuf => 0
    }

    /** The engine writes a completion for the buffer at address a. */
    method HwComplete(f: Frame, a: nat)
      requires OnRings()
      modifies rxRing
      ensures rxRing[..] == old(rxRing[..])[hwDesc := MacRx(f.crcError, f.llen, f.cast)]
                                           [hwDesc + 1 := Eval(hwSlot + 1)][hwDesc + 2 := Ptr(a)][hwDesc + 3 := Pad]
    {
      rxRing[hwDesc] := MacRx(f.crcError, f.llen, f.cast);
      rxRing[hwDesc + 1] := Eval(hwSlot + 1);
      rxRing[hwDesc + 2] := Ptr(a);
      rxRing[hwDesc + 3] := Pad;
    }

    /** The engine takes one frame, whatever is posted. */
    method HwTake(f: Frame)
      requires OnRings()
      modifies this`ram, this`hwSlot, this`hwDesc, this`bufCredits, this`descCredits, this`received, rxRing
      ensures OnRings() && received == old(received) + [f] && ram == old(ram)[old(Target()) := f.bytes]
      ensures hwSlot == (old(hwSlot) + 1) % RX_BUF_RING_SIZE && hwDesc == (old(hwDesc) + 4) % RX_RING_SIZE
      ensures bufCredits == old(bufCredits) - 1 && descCredits == old(descCredits) - 2
      ensures rxRing[..] == old(rxRing[..])[old(hwDesc) := MacRx(f.crcError, f.llen, f.cast)]
                                           [old(hwDesc) + 1 := Eval(old(hwSlot) + 1)]
                                           [old(hwDesc) + 2 := Ptr(old(Target()))][old(hwDesc) + 3 := Pad]
    {
      var a := Target();
      ram := ram[a := f.bytes];
      HwComplete(f, a);
      hwSlot := (hwSlot + 1) % RX_BUF_RING_SIZE;
      hwDesc := (hwDesc + 4) % RX_RING_SIZE;
      bufCredits, descCredits := bufCredits - 1, descCredits - 2;
      received := received + [f];
    }

    /** The driver's and the engine's positions are on the rings; nothing is known of what the
        rings hold. */
    predicate Sane()
      reads this
    {
      OnRings() && writePtr < RX_BUF_RING_SIZE
    }

    /** The rings are right, with the credits of `owed` finished completions outstanding. */
    ghost predicate Right(owed: nat)
      reads this, rxRing, rxBufRing, rxSlotBuf, hw.rxBufs, hw.rxBufsPhys
    {
      RingsValid() && AllThere() && CreditsValid(owed)
    }

    /** The word at n is the first of the oldest completion. */
    ghost predicate AtOldest(n: nat)
      reads this
    {
      n % RX_RING_SIZE == 4 * (done % 512)
    }

    /** How many more completions can be found without giving credits back. */
    ghost function Load(): nat
      reads this, rxRing
    {
      |Busy(rxRing[..])| + if bufCredits > 0 then bufCredits else 0
    }

    method HwReceive(f: Frame, ghost owed: nat)
      requires Sane() && bufCredits >= 1
      modifies this`ram, this`hwSlot, this`hwDesc, this`bufCredits, this`descCredits, this`received, rxRing
      ensures Sane() && received == old(received) + [f] && Load() <= old(Load())
      ensures old(Right(owed)) ==> Right(owed)
    {
      hide DescRing, BufRing, SlotTable, Buffered, Busy, GoodPhys;
      ghost var phys, j, d := hw.rxBufsPhys[..], |received|, hwDesc;
      if Right(owed) {
        PostedAt(rxBufRing[..], phys, done, false, false, j);
        HardwareWrite(rxRing[..], phys, done, received, 0, f);
        HardwareBuffer(ram, phys, done, received, f);
        SlotOfRing(j, j);
        NextOnRings(j);
        SlotCompletion(rxRing[..], phys, f, j);
      }
      OneMoreBusy(rxRing[..], d, MacRx(f.crcError, f.llen, f.cast), Eval(hwSlot + 1), Ptr(Target()));
      HwTake(f);
    }

    /** Frames reach the MAC; the engine takes them as long as it has credits. */
    method Arrive(fs: seq<Frame>, ghost owed: nat)
      requires Sane()
      modifies this`ram, this`hwSlot, this`hwDesc, this`bufCredits, this`descCredits, this`received, rxRing
      ensures Sane() && old(received) <= received <= old(received) + fs && Load() <= old(Load())
      ensures old(Right(owed)) ==> Right(owed) && (received == old(received) + fs || bufCredits == 0)
    {
      hide Right, Busy;
      ghost var right := Right(owed);
      var i := 0;
      while i < |fs| && bufCredits >= 1 && descCredits >= 2
        invariant i <= |fs| && Sane() && Load() <= old(Load())
        invariant right ==> Right(owed)
        invariant received == old(received) + fs[..i]
      {
        HwReceive(fs[i], owed);
        i := i + 1;
      }
      if right {
        CreditsLeft(owed);
      }
    }

    /** With the rings right the engine runs out of both credits at the same time. */
    lemma CreditsLeft(owed: nat)
      requires Right(owed)
      ensures bufCredits >= 1 <==> descCredits >= 2
      ensures bufCredits >= 0
    {
    }

    lemma RightBounds(owed: nat)
      requires Right(owed)
      ensures done <= |received| <= done + NUM_RX_BUFS
    {
    }

    // ---- ProcessRX --------------------------------------------------------------------------

    /** The completion at n: its first word, slot, buffer index and pointer. */
    method ReadCompletion(n: nat) returns (head: Word, slot: nat, buf: nat, ptr: nat)
      requires Shapes()
      ensures head == rxRing[n % RX_RING_SIZE]
      ensures slot == SlotIn(rxRing[(n + 1) % RX_RING_SIZE])
      ensures buf == if slot < RX_RING_SIZE then rxSlotBuf[slot] else NUM_RX_BUFS
      ensures ptr == AddrIn(rxRing[(n + 2) % RX_RING_SIZE])
    {
      head := rxRing[n % RX_RING_SIZE];
      slot := SlotIn(rxRing[(n + 1) % RX_RING_SIZE]);
      buf := NUM_RX_BUFS;
      if slot < RX_RING_SIZE {
        buf := rxSlotBuf[slot];
      }
      ptr := AddrIn(rxRing[(n + 2) % RX_RING_SIZE]);
    }

    /** At the cursor it reads back what the engine wrote for the oldest frame. */
    lemma ReadsOldest(n: nat)
      requires Shapes() && DescRing(rxRing[..], hw.rxBufsPhys[..], done, received, 0)
               && SlotTable(rxSlotBuf[..], done)
      requires n % RX_RING_SIZE == 4 * (done % 512) && done < |received|
      ensures rxRing[n % RX_RING_SIZE] == CompletionWord(hw.rxBufsPhys[..], received[done], done, 0)
      ensures SlotIn(rxRing[(n + 1) % RX_RING_SIZE]) == done % 2048 && rxSlotBuf[done % 2048] == done % 512
      ensures AddrIn(rxRing[(n + 2) % RX_RING_SIZE]) == hw.rxBufsPhys[done % 512]
    {
      ghost var phys := hw.rxBufsPhys[..];
      SlotOfRing(done, done);
      HeadWords(rxRing[..], phys, done, received, 0);
      HeadWords(rxRing[..], phys, done, received, 1);
      HeadWords(rxRing[..], phys, done, received, 2);
      CursorWord(n, done, 1);
      CursorWord(n, done, 2);
    }

    /** Wipes the four words of the completion at n. */
    method WipeCompletion(n: nat)
      requires Shapes()
      modifies rxRing
      ensures rxRing[..] == Wiped(old(rxRing[..]), n, 4)
      ensures Busy(rxRing[..]) <= old(Busy(rxRing[..])) - {n % RX_RING_SIZE}
      ensures old(DescRing(rxRing[..], hw.rxBufsPhys[..], done, received, 0)) && AtOldest(n) ==>
                DescRing(rxRing[..], hw.rxBufsPhys[..], done, received, 4)
    {
      ghost var right := DescRing(rxRing[..], hw.rxBufsPhys[..], done, received, 0) && AtOldest(n);
      var i := 0;
      while i < 4
        invariant i <= 4 && rxRing[..] == Wiped(old(rxRing[..]), n, i)
        invariant Busy(rxRing[..]) <= old(Busy(rxRing[..])) - if i > 0 then {n % RX_RING_SIZE} else {}
        invariant right ==> DescRing(rxRing[..], hw.rxBufsPhys[..], done, received, i)
      {
        hide DescRing;
        ghost var r := rxRing[..];
        if right {
          ClearWord(r, hw.rxBufsPhys[..], done, received, i);
          CursorWord(n, done, i);
        }
        rxRing[(n + i) % RX_RING_SIZE] := Zero;
        assert rxRing[..] == r[(n + i) % RX_RING_SIZE := Zero];
        i := i + 1;
      }
    }

    /** The writes that move a buffer. */
    method MoveBuffer(slot: nat, buf: nat) returns (posted: bool)
      requires Sane()
      modifies rxBufRing, rxSlotBuf, this`writePtr
      ensures Sane() && (posted <==> buf < NUM_RX_BUFS)
      ensures rxBufRing[..] == Moved(old(rxBufRing[..]), slot, old(writePtr),
                                     if posted then Some(Buf(RX_BUF_SIZE, hw.rxBufsPhys[buf])) else None)
      ensures rxSlotBuf[..] == if posted then old(rxSlotBuf[..])[old(writePtr) := buf] else old(rxSlotBuf[..])
      ensures writePtr == if posted then (old(writePtr) + 1) % RX_BUF_RING_SIZE else old(writePtr)
    {
      if slot < RX_RING_SIZE {
        rxBufRing[slot] := NoBuf;
      }
      posted := buf < NUM_RX_BUFS;
      if posted {
        rxBufRing[writePtr] := Buf(RX_BUF_SIZE, hw.rxBufsPhys[buf]);
        rxSlotBuf[writePtr] := buf;
        writePtr := (writePtr + 1) % RX_BUF_RING_SIZE;
      }
    }

    /** Takes the buffer out of its slot and posts it again behind the last one. */
    method Repost(slot: nat, buf: nat) returns (posted: bool)
      requires Sane()
      modifies rxBufRing, rxSlotBuf, this`writePtr
      ensures Sane() && (posted <==> buf < NUM_RX_BUFS)
      ensures rxBufRing[..] == Moved(old(rxBufRing[..]), slot, old(writePtr),
                                     if posted then Some(Buf(RX_BUF_SIZE, hw.rxBufsPhys[buf])) else None)
      ensures rxSlotBuf[..] == if posted then old(rxSlotBuf[..])[old(writePtr) := buf] else old(rxSlotBuf[..])
      ensures writePtr == if posted then (old(writePtr) + 1) % RX_BUF_RING_SIZE else old(writePtr)
      ensures old(BufRing(rxBufRing[..], hw.rxBufsPhys[..], done, false, false) && SlotTable(rxSlotBuf[..], done))
              && slot == done % 2048 && buf == done % 512 && old(writePtr) == (done + 512) % 2048 ==>
                && BufRing(rxBufRing[..], hw.rxBufsPhys[..], done + 1, false, false)
                && SlotTable(rxSlotBuf[..], done + 1) && writePtr == (done + 1 + 512) % 2048
    {
      hide BufRing, SlotTable, Moved;
      if BufRing(rxBufRing[..], hw.rxBufsPhys[..], done, false, false) && SlotTable(rxSlotBuf[..], done)
          && slot == done % 2048 && buf == done % 512 {
        Reposted(rxBufRing[..], rxSlotBuf[..], hw.rxBufsPhys[..], done);
      }
      posted := MoveBuffer(slot, buf);
    }

    /** A completion the driver hands on: no CRC error, a known slot and buffer, at least a
        header, and the address the driver posted. */
    predicate Good(head: Word, slot: nat, buf: nat, ptr: nat)
      requires Shapes() && head.MacRx?
      reads hw.rxBufs, hw.rxBufsPhys
    {
      && !head.crcError && slot < RX_RING_SIZE && buf < NUM_RX_BUFS && hw.rxBufs[buf].ptr != 0
      && FCS_LEN <= head.llen && ETH_HDR_LEN <= head.llen - FCS_LEN
      && ptr == hw.rxBufsPhys[buf]
    }

    /** Tests the completion and hands the frame to a reader or drops it. */
    method HandOver(head: Word, slot: nat, buf: nat, ptr: nat, copyOk: Request -> bool)
      requires Shapes() && head.MacRx?
      modifies queues`readIpv4, queues`readArp, queues`readOther, queues`eventList,
               queues`replies, queues`statRx, queues`statDropped
      ensures if Good(head, slot, buf, ptr)
              then queues.State() == Offer(old(queues.State()), Frame(false, head.llen, head.cast, BytesAt(ram, ptr)),
                                           HookOf(old(queues.openers), copyOk))
              else queues.State() == old(queues.State()).(dropped := old(queues.statDropped) + 1)
      ensures queues.openers == old(queues.openers)
    {
      if head.crcError {
        queues.DropFrame();
      } else if slot >= RX_RING_SIZE {
        queues.DropFrame();
      } else if buf >= NUM_RX_BUFS || hw.rxBufs[buf].ptr == 0 {
        queues.DropFrame();
      } else if head.llen < FCS_LEN || head.llen - FCS_LEN < ETH_HDR_LEN {
        queues.DropFrame();
      } else if ptr != hw.rxBufsPhys[buf] {
        queues.DropFrame();
      } else {
        queues.DeliverFrame(Frame(false, head.llen, head.cast, BytesAt(ram, hw.rxBufsPhys[buf])), copyOk);
      }
    }

    /** With the rings right, the only frames dropped unoffered are the unsound ones, and a
        frame is handed on as it was received. */
    lemma HandsOldest(head: Word, slot: nat, buf: nat, ptr: nat)
      requires Shapes() && AllThere() && Buffered(ram, hw.rxBufsPhys[..], done, received) && done < |received|
      requires head == CompletionWord(hw.rxBufsPhys[..], received[done], done, 0)
      requires slot == done % 2048 && buf == done % 512 && ptr == hw.rxBufsPhys[buf]
      ensures Good(head, slot, buf, ptr) <==> Sound(received[done])
      ensures Sound(received[done]) ==> Frame(false, head.llen, head.cast, BytesAt(ram, ptr)) == received[done]
    {
      assert Holds(ram, hw.rxBufsPhys[..], received[done], done);
    }

    /** The frame that a completion amounts to; one that is rejected counts as unsound. */
    ghost function Heard(head: Word, slot: nat, buf: nat, ptr: nat): Frame
      requires Shapes() && head.MacRx?
      reads this, hw.rxBufs, hw.rxBufsPhys
    {
      Frame(!Good(head, slot, buf, ptr), head.llen, head.cast, BytesAt(ram, ptr))
    }

    /** Whether the descriptor at the cursor is complete. */
    method Look(n: nat) returns (ready: bool)
      requires Shapes()
      ensures ready <==> rxRing[n % RX_RING_SIZE].MacRx?
      ensures DescRing(rxRing[..], hw.rxBufsPhys[..], done, received, 0) && AtOldest(n) && done <= |received| ==>
                (ready <==> done < |received|)
    {
      if DescRing(rxRing[..], hw.rxBufsPhys[..], done, received, 0) {
        HeadWords(rxRing[..], hw.rxBufsPhys[..], done, received, 0);
      }
      ready := rxRing[n % RX_RING_SIZE].MacRx?;
    }

    /** The end of the loop body: the descriptor is wiped and the buffer posted again. */
    method Recycle(n: nat, slot: nat, buf: nat, ghost owed: nat) returns (posted: bool)
      requires Sane() && rxRing[n % RX_RING_SIZE].MacRx?
      modifies this`writePtr, this`done, rxRing, rxBufRing, rxSlotBuf
      ensures Sane() && done == old(done) + 1 && Load() < old(Load())
      ensures old(Right(owed) && AtOldest(n) && done < |received|) && slot == old(done % 2048) && buf == old(done % 512)
              ==> Right(owed + 1) && posted
    {
      hide DescRing, BufRing, SlotTable, Buffered, GoodPhys, Busy;
      ghost var right := Right(owed) && AtOldest(n) && done < |received| && slot == done % 2048 && buf == done % 512;
      Drained(rxRing[..], n % RX_RING_SIZE);
      WipeCompletion(n);
      posted := Repost(slot, buf);
      if right {
        FinishOldest(rxRing[..], hw.rxBufsPhys[..], done, received);
        BufferedNext(ram, hw.rxBufsPhys[..], done, received);
      }
      done := done + 1;
    }

    /** What the driver reads at its cursor amounts to the oldest frame. */
    lemma HearsOldest(n: nat, owed: nat, head: Word, slot: nat, buf: nat, ptr: nat)
      requires Right(owed) && AtOldest(n) && done < |received|
      requires head == rxRing[n % RX_RING_SIZE] && slot == SlotIn(rxRing[(n + 1) % RX_RING_SIZE])
      requires buf == if slot < RX_RING_SIZE then rxSlotBuf[slot] else NUM_RX_BUFS
      requires ptr == AddrIn(rxRing[(n + 2) % RX_RING_SIZE])
      ensures slot == done % 2048 && buf == done % 512 && head.MacRx?
      ensures Amounts(Heard(head, slot, buf, ptr), received[done])
    {
      hide DescRing, BufRing, SlotTable, Buffered, GoodPhys;
      ReadsOldest(n);
      HandsOldest(head, slot, buf, ptr);
    }

    /** The body of the loop of ProcessRX for the completion at n. Whatever the rings hold,
        the completion is offered or dropped as one frame, and its descriptor is wiped. With
        the rings right that frame is the oldest received, and its buffer is posted again. */
    method ProcessOne(n: nat, copyOk: Request -> bool, ghost owed: nat) returns (posted: bool, ghost f: Frame)
      requires Sane() && rxRing[n % RX_RING_SIZE].MacRx?
      modifies this`writePtr, this`done, rxRing, rxBufRing, rxSlotBuf,
               queues`readIpv4, queues`readArp, queues`readOther, queues`eventList,
               queues`replies, queues`statRx, queues`statDropped
      ensures Sane() && done == old(done) + 1 && Load() < old(Load())
      ensures queues.State() == Offer(old(queues.State()), f, HookOf(old(queues.openers), copyOk))
      ensures queues.openers == old(queues.openers)
      ensures old(Right(owed) && AtOldest(n) && done < |received|) ==>
                Right(owed + 1) && posted && f == received[old(done)]
    {
      hide Right, Load, Offer, HookOf, Heard, Good, Amounts;
      ghost var d, hooks := queues.State(), HookOf(queues.openers, copyOk);
      var head, slot, buf, ptr := ReadCompletion(n);
      f := Heard(head, slot, buf, ptr);
      OfferedAsHeard(d, head, slot, buf, ptr, hooks);
      if Right(owed) && AtOldest(n) && done < |received| {
        HearsOldest(n, owed, head, slot, buf, ptr);
        OfferedAlike(d, f, received[done], hooks);
        f := received[done];
      }
      HandOver(head, slot, buf, ptr, copyOk);
      posted := Recycle(n, slot, buf, owed);
    }

    /** What HandOver does is offering what it heard. */
    lemma OfferedAsHeard(d: Delivery, head: Word, slot: nat, buf: nat, ptr: nat, hooks: Request -> Hook)
      requires Shapes() && head.MacRx?
      ensures Offer(d, Heard(head, slot, buf, ptr), hooks) ==
              if Good(head, slot, buf, ptr) then Offer(d, Frame(false, head.llen, head.cast, BytesAt(ram, ptr)), hooks)
              else d.(dropped := d.dropped + 1)
    {
    }

    /** One turn of the loop: some frames arrive, the task looks at the ring, and handles a
        completion if there is one. */
    method Turn(n: nat, arrivals: seq<Frame>, copyOk: Request -> bool, ghost owed: nat)
      returns (ready: bool, posted: bool, ghost f: Frame)
      requires Sane()
      modifies this`writePtr, this`done, this`ram, this`hwSlot, this`hwDesc, this`bufCredits, this`descCredits,
               this`received, rxRing, rxBufRing, rxSlotBuf,
               queues`readIpv4, queues`readArp, queues`readOther, queues`eventList,
               queues`replies, queues`statRx, queues`statDropped
      ensures Sane() && old(received) <= received && done == old(done) + if ready then 1 else 0
      ensures if ready then Load() < old(Load()) else Load() <= old(Load())
      ensures queues.openers == old(queues.openers)
      ensures queues.State() == if ready then Offer(old(queues.State()), f, HookOf(old(queues.openers), copyOk))
                                else old(queues.State())
      ensures old(Right(owed) && AtOldest(n)) ==>
                && Right(owed + if ready then 1 else 0) && AtOldest(n + if ready then 4 else 0)
                && if ready then posted && old(done) < |received| && f == received[old(done)] else done == |received|
    {
      hide DescRing, BufRing, SlotTable, Buffered, GoodPhys, Busy, Load;
      posted := false;
      f := Frame(true, 0, Unicast, BytesAt(map[], 0));
      Arrive(arrivals, owed);
      ready := Look(n);
      if ready {
        ghost var k := done;
        posted, f := ProcessOne(n, copyOk, owed);
        if n % RX_RING_SIZE == 4 * (k % 512) {
          CursorNext(n, k);
        }
      }
    }

    /** The rings are right after `count` completions since the k0-th frame, the next is at n,
        and `handed` is what has been handed on. */
    ghost predicate Handing(k0: nat, count: nat, n: nat, handed: seq<Frame>)
      reads this, rxRing, rxBufRing, rxSlotBuf, hw.rxBufs, hw.rxBufsPhys
    {
      Right(count) && AtOldest(n) && k0 <= done <= |received| && handed == received[k0..done]
    }

    /** One turn, with the frame it handles added to those handed on before. */
    method Round(n: nat, arrivals: seq<Frame>, copyOk: Request -> bool, ghost count: nat, ghost k0: nat,
                 ghost handed: seq<Frame>)
      returns (ready: bool, posted: bool, ghost f: Frame)
      requires Sane()
      modifies this`writePtr, this`done, this`ram, this`hwSlot, this`hwDesc, this`bufCredits, this`descCredits,
               this`received, rxRing, rxBufRing, rxSlotBuf,
               queues`readIpv4, queues`readArp, queues`readOther, queues`eventList,
               queues`replies, queues`statRx, queues`statDropped
      ensures Sane() && old(received) <= received && done == old(done) + if ready then 1 else 0
      ensures if ready then Load() < old(Load()) else Load() <= old(Load())
      ensures queues.openers == old(queues.openers)
      ensures queues.State() == if ready then Offer(old(queues.State()), f, HookOf(old(queues.openers), copyOk))
                                else old(queues.State())
      ensures old(Handing(k0, count, n, handed)) ==>
                if ready then posted && Handing(k0, count + 1, n + 4, handed + [f])
                else done == |received| && Handing(k0, count, n, handed)
    {
      hide Right, Load, Offer, HookOf, AtOldest, Sane;
      ghost var seen, k, right := received, done, Handing(k0, count, n, handed);
      ready, posted, f := Turn(n, arrivals, copyOk, count);
      if right {
        RightBounds(count + if ready then 1 else 0);
        SliceNext(seen, received, k0, k, handed, f, ready);
      }
    }

    /** The loop of ProcessRX. `arrivals(i)` are the frames that reach the MAC just before
        the i-th look at the ring. No credit is given back in here, so it ends, however the
        rings look; `handed` is what it offers to readers or drops. */
    method Drain(arrivals: nat -> seq<Frame>, copyOk: Request -> bool)
      returns (n: nat, count: nat, replenish: nat, ghost handed: seq<Frame>)
      requires Sane()
      modifies this`writePtr, this`done, this`ram, this`hwSlot, this`hwDesc, this`bufCredits, this`descCredits,
               this`received, rxRing, rxBufRing, rxSlotBuf,
               queues`readIpv4, queues`readArp, queues`readOther, queues`eventList,
               queues`replies, queues`statRx, queues`statDropped
      ensures Sane() && old(received) <= received
      ensures replenish <= count == |handed| == done - old(done) && n == nextClean + 4 * count
      ensures queues.State() == OfferAll(old(queues.State()), handed, HookOf(old(queues.openers), copyOk))
      ensures old(Valid() && AllThere()) ==>
                && Right(count) && AtOldest(n) && done == |received|
                && replenish == count && handed == received[old(done)..]
    {
      hide Handing, Load, Offer, OfferAll, HookOf, Valid, Sane;
      n, count, replenish, handed := nextClean, 0, 0, [];
      ghost var k0, q0, hooks := done, queues.State(), HookOf(queues.openers, copyOk);
      OfferNone(q0, hooks);
      ghost var right := Valid() && AllThere();
      if right {
        ValidIsHanding();
      }
      var ready := true;
      while ready
        invariant Sane() && old(received) <= received && queues.openers == old(queues.openers)
        invariant replenish <= count == |handed| == done - k0 && n == nextClean + 4 * count
        invariant queues.State() == OfferAll(q0, handed, hooks)
        invariant right ==> Handing(k0, count, n, handed) && replenish == count && (!ready ==> done == |received|)
        decreases Load(), ready
      {
        ghost var f;
        var posted;
        ready, posted, f := Round(n, arrivals(count), copyOk, count, k0, handed);
        OfferNext(q0, handed, f, hooks);
        if ready {
          handed := handed + [f];
          replenish := replenish + if posted then 1 else 0;
          n, count := n + 4, count + 1;
        }
      }
      if right {
        HandedAll(k0, count, n, handed);
      }
    }

    lemma ValidIsHanding()
      requires Valid() && AllThere()
      ensures Handing(done, 0, nextClean, [])
    {
    }

    lemma HandedAll(k0: nat, count: nat, n: nat, handed: seq<Frame>)
      requires Handing(k0, count, n, handed) && done == |received|
      ensures Right(count) && AtOldest(n) && k0 <= |received| && handed == received[k0..]
    {
      hide Right, AtOldest;
      assert received[k0..done] == received[k0..];
    }

    /** Handles every completion, including those that arrive meanwhile, and only then gives
        the credits back. */
    method ProcessRX(arrivals: nat -> seq<Frame>, copyOk: Request -> bool)
      returns (count: nat, ghost handed: seq<Frame>)
      requires Sane()
      modifies this, rxRing, rxBufRing, rxSlotBuf,
               queues`readIpv4, queues`readArp, queues`readOther, queues`eventList,
               queues`replies, queues`statRx, queues`statDropped
      ensures Sane() && old(received) <= received && |handed| == count == done - old(done)
      ensures queues.State() == OfferAll(old(queues.State()), handed, HookOf(old(queues.openers), copyOk))
      ensures |queues.State().replies| - |old(queues.State()).replies|
              == count - (queues.State().dropped - old(queues.State()).dropped)
      ensures old(Valid() && AllThere()) ==>
                && Valid() && done == |received| && handed == received[old(done)..] && count <= NUM_RX_BUFS
                && bufCredits == NUM_RX_BUFS && descCredits == RX_RING_SIZE / 2
    {
      hide Right, Valid, AtOldest, Sane, OfferAll, HookOf;
      ghost var before, hooks := queues.State(), HookOf(queues.openers, copyOk);
      var n, replenish;
      n, count, replenish, handed := Drain(arrivals, copyOk);
      FramesAccounted(before, handed, hooks);
      GiveBack(n, count, replenish);
    }

    /** The end of ProcessRX: the cursor is masked and the credits are returned. */
    method GiveBack(n: nat, count: nat, replenish: nat)
      requires Sane()
      modifies this`nextClean, this`bufCredits, this`descCredits
      ensures Sane() && nextClean == n % RX_RING_SIZE
      ensures bufCredits == old(bufCredits) + if count > 0 then replenish else 0
      ensures descCredits == old(descCredits) + 2 * count
      ensures old(Right(count) && AtOldest(n)) && done == |received| && replenish == count ==>
                Valid() && count <= NUM_RX_BUFS && bufCredits == NUM_RX_BUFS && descCredits == RX_RING_SIZE / 2
    {
      hide DescRing, BufRing, SlotTable, Buffered, GoodPhys;
      nextClean := if n >= RX_RING_SIZE then n % RX_RING_SIZE else n;
      if count > 0 {
        descCredits, bufCredits := descCredits + 2 * count, bufCredits + replenish;
      }
    }

    // ---- PostRxBuffers ----------------------------------------------------------------------

    /** Nothing posted, nothing received, no credits. */
    ghost predicate Idle()
      reads this
    {
      Shapes() && done == 0 && received == [] && bufCredits == descCredits == 0 && hwSlot == hwDesc == 0
    }

    method ClearRings()
      requires Shapes()
      modifies rxRing, rxBufRing
      ensures forall w :: 0 <= w < RX_RING_SIZE ==> rxRing[w] == Zero
      ensures forall p :: 0 <= p < RX_BUF_RING_SIZE ==> rxBufRing[p] == NoBuf
    {
      var i := 0;
      while i < RX_RING_SIZE
        invariant i <= RX_RING_SIZE && forall w :: 0 <= w < i ==> rxRing[w] == Zero
      {
        rxRing[i] := Zero;
        i := i + 1;
      }
      i := 0;
      while i < RX_BUF_RING_SIZE
        invariant forall w :: 0 <= w < RX_RING_SIZE ==> rxRing[w] == Zero
        invariant i <= RX_BUF_RING_SIZE && forall p :: 0 <= p < i ==> rxBufRing[p] == NoBuf
      {
        rxBufRing[i] := NoBuf;
        i := i + 1;
      }
    }

    /** Slot i gets buffer i, if there is one. */
    method PostAll()
      requires Shapes() && forall p :: 0 <= p < RX_BUF_RING_SIZE ==> rxBufRing[p] == NoBuf
      modifies rxBufRing, rxSlotBuf
      ensures forall p :: 0 <= p < RX_BUF_RING_SIZE ==>
                rxBufRing[p] == if p < NUM_RX_BUFS && hw.rxBufsPhys[p] != 0
                                then Buf(RX_BUF_SIZE, hw.rxBufsPhys[p]) else NoBuf
      ensures forall p :: 0 <= p < NUM_RX_BUFS && hw.rxBufsPhys[p] != 0 ==> rxSlotBuf[p] == p
    {
      var i := 0;
      while i < NUM_RX_BUFS
        invariant i <= NUM_RX_BUFS
        invariant forall p :: 0 <= p < RX_BUF_RING_SIZE ==>
                    rxBufRing[p] == if p < i && hw.rxBufsPhys[p] != 0
                                    then Buf(RX_BUF_SIZE, hw.rxBufsPhys[p]) else NoBuf
        invariant forall p :: 0 <= p < i && hw.rxBufsPhys[p] != 0 ==> rxSlotBuf[p] == p
      {
        if hw.rxBufsPhys[i] != 0 {
          rxBufRing[i] := Buf(RX_BUF_SIZE, hw.rxBufsPhys[i]);
          rxSlotBuf[i] := i;
        }
        i := i + 1;
      }
    }

    predicate AllThere()
      reads hw.rxBufs
    {
      forall i :: 0 <= i < hw.rxBufs.Length ==> hw.rxBufs[i].ptr != 0
    }

    predicate NoneThere()
      reads hw.rxBufs
    {
      forall i :: 0 <= i < hw.rxBufs.Length ==> hw.rxBufs[i].ptr == 0
    }

    /** Rings just seeded: slot i holds buffer i if there is one, and the engine has credits
        for all 512. */
    ghost predicate Seeded(phys: seq<nat>)
      requires |phys| == NUM_RX_BUFS
      reads this, rxRing, rxBufRing
    {
      && OnRings() && received == [] && done == hwSlot == hwDesc == nextClean == 0 && writePtr == 512
      && bufCredits == 512 && descCredits == 1024
      && (forall w :: 0 <= w < RX_RING_SIZE ==> rxRing[w] == Zero)
      && forall p :: 0 <= p < RX_BUF_RING_SIZE ==>
           rxBufRing[p] == if p < NUM_RX_BUFS && phys[p] != 0 then Buf(RX_BUF_SIZE, phys[p]) else NoBuf
    }

    /** The second half of PostRxBuffers: the rings are cleared and filled, and the engine is
        credited for all 512 buffers, however many there are. */
    method Seed()
      requires Shapes() && hw.Addressed()
      modifies this`writePtr, this`nextClean, this`bufCredits, this`descCredits, rxRing, rxBufRing, rxSlotBuf
      ensures bufCredits == old(bufCredits) + NUM_RX_BUFS && descCredits == old(descCredits) + RX_RING_SIZE / 2
      ensures writePtr == NUM_RX_BUFS && nextClean == 0
      ensures old(Idle()) ==> Seeded(hw.rxBufsPhys[..])
      ensures old(Idle()) ==> (Valid() <==> AllThere() && GoodPhys(hw.rxBufsPhys[..]))
    {
      ClearRings();
      PostAll();
      writePtr := NUM_RX_BUFS;
      bufCredits := bufCredits + NUM_RX_BUFS;
      descCredits := descCredits + RX_RING_SIZE / 2;
      nextClean := 0;
      if AllThere() {
        FreshRings(rxRing[..], rxBufRing[..], rxSlotBuf[..], hw.rxBufsPhys[..]);
      } else {
        HoleInRing(rxBufRing[..], hw.rxBufsPhys[..]);
      }
    }

    /** Allocates the buffers still missing and, if there were any, seeds the rings. Called
        again with every buffer there it does nothing. The first call leaves the rings right
        exactly if the system has a usable buffer, each at its own address, in every answer.
        If not, the buffers before the first unusable answer are posted, and the engine is
        credited for all 512 just the same. */
    method PostRxBuffers(answers: nat -> HwResources.Answer) returns (posted: bool)
      requires Shapes() && hw.Balanced() && hw.Addressed()
      modifies this`writePtr, this`nextClean, this`bufCredits, this`descCredits, rxRing, rxBufRing, rxSlotBuf,
               hw.exec, hw.rxBufs, hw.rxBufsPhys
      ensures hw.Balanced() && hw.Addressed()
      ensures old(AllThere()) ==> !posted
      ensures AllThere() <==>
              forall i :: 0 <= i < NUM_RX_BUFS ==> old(hw.rxBufs[i].ptr) != 0 || HwResources.Usable(answers(i))
      ensures !posted ==>
                && rxRing[..] == old(rxRing[..]) && rxBufRing[..] == old(rxBufRing[..])
                    && rxSlotBuf[..] == old(rxSlotBuf[..])
                && writePtr == old(writePtr) && nextClean == old(nextClean)
                && bufCredits == old(bufCredits) && descCredits == old(descCredits)
      ensures posted ==> bufCredits == old(bufCredits) + 512 && descCredits == old(descCredits) + 1024
      ensures posted ==> writePtr == NUM_RX_BUFS && nextClean == 0
      ensures posted && old(Idle()) ==> (Valid() <==> AllThere() && GoodPhys(hw.rxBufsPhys[..]))
      ensures forall i :: 0 <= i < NUM_RX_BUFS && old(hw.rxBufs[i].ptr) != 0 ==>
                hw.rxBufs[i] == old(hw.rxBufs[i]) && hw.rxBufsPhys[i] == old(hw.rxBufsPhys[i])
      ensures forall i :: 0 <= i < NUM_RX_BUFS && old(hw.rxBufs[i].ptr) == 0 && hw.rxBufs[i].ptr != 0 ==>
                hw.rxBufsPhys[i] == answers(i).phys
      ensures old(NoneThere()) ==> hw.rxBufsPhys[..] == Got(answers) && (posted <==> FirstUnusable(answers) > 0)
      ensures posted && old(Idle()) && old(NoneThere()) ==> Seeded(Got(answers))
      ensures old(Idle()) && old(NoneThere()) ==> (Valid() <==> Generous(answers))
    {
      hide Valid, Seeded, GoodPhys, Generous, Got, FirstUnusable, HwResources.Unit.Balanced;
      ghost var first := NoneThere();
      var nalloced := Allocate(answers);
      if first {
        AllGot(answers);
        assert AllThere() <==> FirstUnusable(answers) == NUM_RX_BUFS;
      }
      if nalloced == 0 {
        if Idle() {
          IdleIsNotValid();
        }
        return false;
      }
      Seed();
      return true;
    }

    lemma IdleIsNotValid()
      requires Idle()
      ensures !Valid()
    {
    }

    /** The allocation loop on a unit without buffers. */
    method Allocate(answers: nat -> HwResources.Answer) returns (nalloced: nat)
      requires Shapes() && hw.Balanced() && hw.Addressed()
      modifies hw.exec, hw.rxBufs, hw.rxBufsPhys
      ensures hw.Balanced() && hw.Addressed()
      ensures old(AllThere()) ==> nalloced == 0
      ensures AllThere() <==>
              forall i :: 0 <= i < NUM_RX_BUFS ==> old(hw.rxBufs[i].ptr) != 0 || HwResources.Usable(answers(i))
      ensures forall i :: 0 <= i < NUM_RX_BUFS && old(hw.rxBufs[i].ptr) != 0 ==>
                hw.rxBufs[i] == old(hw.rxBufs[i]) && hw.rxBufsPhys[i] == old(hw.rxBufsPhys[i])
      ensures forall i :: 0 <= i < NUM_RX_BUFS && old(hw.rxBufs[i].ptr) == 0 && hw.rxBufs[i].ptr != 0 ==>
                hw.rxBufsPhys[i] == answers(i).phys
      ensures old(NoneThere()) ==>
                && hw.rxBufsPhys[..] == Got(answers) && (nalloced > 0 <==> FirstUnusable(answers) > 0)
                && forall i :: 0 <= i < NUM_RX_BUFS ==> (hw.rxBufs[i].ptr != 0 <==> i < FirstUnusable(answers))
    {
      hide HwResources.Unit.Balanced, HwResources.Usable, FirstUnusable;
      ghost var first := NoneThere();
      ghost var stop;
      nalloced, stop := hw.AllocateRxBuffers(answers);
      if first {
        assert stop == FirstUnusable(answers);
        assert stop > 0 ==> hw.rxBufs[0].ptr != 0;
        assert hw.rxBufsPhys[..] == Got(answers);
      }
    }

    /** What comes of a partial allocation: when as many frames have come as buffers were
        posted, the engine still has a credit and finds no buffer in its slot. */
    method RunDry(answers: nat -> HwResources.Answer, fs: seq<Frame>)
      requires Seeded(Got(answers)) && 0 < |fs| == FirstUnusable(answers) < NUM_RX_BUFS
      modifies this`ram, this`hwSlot, this`hwDesc, this`bufCredits, this`descCredits, this`received, rxRing
      ensures received == fs && bufCredits == 512 - |fs| > 0 && descCredits == 1024 - 2 * |fs| >= 2
      ensures OnRings() && rxBufRing[hwSlot] == NoBuf
    {
      HoleAt(answers);
      hide Got, FirstUnusable, OnRings;
      for i := 0 to |fs|
        invariant OnRings() && hwSlot == i && hwDesc == 4 * i && received == fs[..i]
        invariant bufCredits == 512 - i && descCredits == 1024 - 2 * i
      {
        TakeNext(fs[i], i);
      }
    }

    /** The first slots of both rings are used one after another. */
    method TakeNext(f: Frame, i: nat)
      requires OnRings() && hwSlot == i < NUM_RX_BUFS && hwDesc == 4 * i
      modifies this`ram, this`hwSlot, this`hwDesc, this`bufCredits, this`descCredits, this`received, rxRing
      ensures OnRings() && hwSlot == i + 1 && hwDesc == (4 * i + 4) % RX_RING_SIZE && received == old(received) + [f]
      ensures bufCredits == old(bufCredits) - 1 && descCredits == old(descCredits) - 2
    {
      HwTake(f);
    }

    lemma HoleAt(answers: nat -> HwResources.Answer)
      requires Seeded(Got(answers)) && FirstUnusable(answers) < NUM_RX_BUFS
      ensures rxBufRing[FirstUnusable(answers)] == NoBuf
    {
    }
  }

  /** How many answers are usable before the first one that is not. */
  function FirstUnusable(answers: nat -> HwResources.Answer, from: nat := 0): (k: nat)
    requires from <= NUM_RX_BUFS
    ensures from <= k <= NUM_RX_BUFS && (k < NUM_RX_BUFS ==> !HwResources.Usable(answers(k)))
    ensures forall i :: from <= i < k ==> HwResources.Usable(answers(i))
    decreases NUM_RX_BUFS - from
  {
    if from == NUM_RX_BUFS || !HwResources.Usable(answers(from)) then from else FirstUnusable(answers, from + 1)
  }

  /** The addresses of the buffers got; 0 where there is none. */
  function Got(answers: nat -> HwResources.Answer): seq<nat> {
    seq(NUM_RX_BUFS, (i: nat) => Address(answers, i))
  }

  function Address(answers: nat -> HwResources.Answer, i: nat): nat {
    if i < FirstUnusable(answers) then answers(i).phys else 0
  }

  /** The system finds a usable buffer for each of the 512, at distinct addresses. */
  ghost predicate Generous(answers: nat -> HwResources.Answer) {
    && (forall i :: 0 <= i < NUM_RX_BUFS ==> HwResources.Usable(answers(i)))
    && (forall i, j :: 0 <= i < j < NUM_RX_BUFS ==> answers(i).phys != answers(j).phys)
  }

  /** All 512 buffers are got, at distinct addresses, exactly if the answers are so. */
  lemma AllGot(answers: nat -> HwResources.Answer)
    ensures FirstUnusable(answers) == NUM_RX_BUFS && GoodPhys(Got(answers)) <==> Generous(answers)
  {
    hide HwResources.Usable, FirstUnusable;
    var phys := Got(answers);
    if FirstUnusable(answers) == NUM_RX_BUFS {
      assert forall i :: 0 <= i < NUM_RX_BUFS ==> phys[i] == answers(i).phys;
    }
  }

  /** A ring with a buffer missing is not the ring before any frame. */
  lemma HoleInRing(bufRing: seq<Post>, phys: seq<nat>)
    requires |bufRing| == 2048 && |phys| == 512
    requires exists p :: 0 <= p < 512 && bufRing[p] == NoBuf
    ensures !BufRing(bufRing, phys, 0, false, false)
  {
    var p :| 0 <= p < 512 && bufRing[p] == NoBuf;
    FirstLap(p);
  }

  /** Rings that are clear except that slot i holds buffer i are the rings before any frame. */
  lemma FreshRings(ring: seq<Word>, bufRing: seq<Post>, slotBuf: seq<nat>, phys: seq<nat>)
    requires |ring| == |bufRing| == |slotBuf| == 2048 && |phys| == 512
    requires forall w :: 0 <= w < 2048 ==> ring[w] == Zero
    requires forall p :: 0 <= p < 2048 ==> bufRing[p] == if p < 512 then Buf(RX_BUF_SIZE, phys[p]) else NoBuf
    requires forall p :: 0 <= p < 512 ==> slotBuf[p] == p
    ensures DescRing(ring, phys, 0, [], 0)
    ensures BufRing(bufRing, phys, 0, false, false)
    ensures SlotTable(slotBuf, 0)
  {
    assert DescRing(ring, phys, 0, [], 0);
    forall p | 0 <= p < 2048
      ensures bufRing[p] == if SlotAge(p, 0) < 512 then PostFor(phys, p) else NoBuf
      ensures SlotAge(p, 0) < 512 ==> slotBuf[p] == p % 512
    {
      FirstLap(p);
    }
  }

  lemma FirstLap(p: nat)
    requires p < 2048
    ensures SlotAge(p, 0) == p
    ensures p < 512 ==> p % 512 == p
  {
  }

  /** The slot a completion names; none if its eval is 0 or out of place. */
  function SlotIn(w: Word): nat {
    if w.Eval? && w.eval > 0 then w.eval - 1 else RX_RING_SIZE
  }

  function AddrIn(w: Word): nat {
    if w.Ptr? then w.addr else 0
  }

  function BytesAt(ram: map<nat, Buffer>, a: nat): Buffer {
    if a in ram then ram[a] else seq(RX_BUF_SIZE, _ => 0)
  }

  /** The two are one frame, or neither is sound. */
  predicate Amounts(f: Frame, g: Frame) {
    f == g || (!Sound(f) && !Sound(g))
  }

  lemma OfferedAlike(d: Delivery, f: Frame, g: Frame, hooks: Request -> Hook)
    requires Amounts(f, g)
    ensures Offer(d, f, hooks) == Offer(d, g, hooks)
  {
  }

  /** What has been handed on stays the part of the frames from a on. */
  lemma SliceNext(seen: seq<Frame>, received: seq<Frame>, a: nat, b: nat, handed: seq<Frame>, f: Frame, ready: bool)
    requires seen <= received && a <= b <= |seen| && handed == seen[a..b]
    requires ready ==> b < |received| && f == received[b]
    ensures if ready then handed + [f] == received[a..b + 1] else handed == received[a..b]
  {
  }

  /** The ring with k words from n on wiped. */
  function Wiped(ring: seq<Word>, n: nat, k: nat): (r: seq<Word>)
    requires |ring| == RX_RING_SIZE
    ensures |r| == RX_RING_SIZE
  {
    if k == 0 then ring else Wiped(ring, n, k - 1)[(n + k - 1) % RX_RING_SIZE := Zero]
  }

  /** The buffer ring once slot is emptied and what stands for the buffer is put at w. */
  function Moved(ring: seq<Post>, slot: nat, w: nat, post: Option<Post>): seq<Post>
    requires |ring| == RX_BUF_RING_SIZE && w < RX_BUF_RING_SIZE
  {
    var emptied := if slot < RX_BUF_RING_SIZE then ring[slot := NoBuf] else ring;
    match post case None => emptied case Some(b) => emptied[w := b]
  }

  /** The words that say that a completion is ready. */
  ghost function Busy(ring: seq<Word>): set<nat> {
    set w | 0 <= w < |ring| && ring[w].MacRx?
  }

  /** The engine makes one more word ready. */
  lemma OneMoreBusy(ring: seq<Word>, d: nat, head: Word, eval: Word, ptr: Word)
    requires d + 4 <= |ring| && eval.Eval? && ptr.Ptr?
    ensures var ring' := ring[d := head][d + 1 := eval][d + 2 := ptr][d + 3 := Pad]; |Busy(ring')| <= |Busy(ring)| + 1
  {
    var ring' := ring[d := head][d + 1 := eval][d + 2 := ptr][d + 3 := Pad];
    SubsetSize(Busy(ring'), Busy(ring) + {d});
  }

  /** Without the word at n there is one less. */
  lemma Drained(ring: seq<Word>, n: nat)
    requires n < |ring| && ring[n].MacRx?
    ensures forall b :: b <= Busy(ring) - {n} ==> |b| < |Busy(ring)|
  {
    forall b | b <= Busy(ring) - {n}
      ensures |b| < |Busy(ring)|
    {
      SubsetSize(b, Busy(ring) - {n});
    }
  }

  lemma SubsetSize(a: set<nat>, b: set<nat>)
    requires a <= b
    ensures |a| <= |b|
  {
    assert b == a + (b - a);
  }

  /** Both rings after the oldest buffer has moved. */
  lemma Reposted(b: seq<Post>, t: seq<nat>, phys: seq<nat>, done: nat)
    requires BufRing(b, phys, done, false, false) && SlotTable(t, done)
    ensures var w := (done + 512) % 2048;
            && BufRing(Moved(b, done % 2048, w, Some(Buf(RX_BUF_SIZE, phys[done % 512]))), phys, done + 1, false, false)
            && SlotTable(t[w := done % 512], done + 1) && (w + 1) % 2048 == (done + 1 + 512) % 2048
  {
    var w := (done + 512) % 2048;
    assert PostFor(phys, done % 512) == Buf(RX_BUF_SIZE, phys[done % 512]);
    hide BufRing, SlotTable, PostFor;
    ZeroOldest(b, phys, done);
    PostOldest(b[done % 2048 := NoBuf], phys, done);
    NextOnRings(done + 512);
    MoveWindow(b[done % 2048 := NoBuf][w := PostFor(phys, done % 512)], t, phys, done);
  }

  lemma CursorWord(n: nat, k: nat, c: nat)
    requires n % 2048 == 4 * (k % 512) && c < 4
    ensures (n + c) % 2048 == 4 * (k % 512) + c
  {
  }

  lemma CursorNext(n: nat, k: nat)
    requires n % 2048 == 4 * (k % 512)
    ensures (n + 4) % 2048 == 4 * ((k + 1) % 512)
  {
    NextGroup(k);
  }
}
