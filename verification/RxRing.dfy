/**
 The shared memory of the receive path: the descriptor ring the DMA engine writes
 completions into, the ring of posted buffers it takes buffers from, and the driver's
 slot-to-buffer table. Each is described in closed form by three absolute quantities:
 the physical addresses of the buffers, `done` (completions the driver has finished
 with) and `received` (every frame the hardware has accepted, in order).
 */
module RxRing {
  import opened Base

  const RX_RING_SIZE: nat := 2048
  const RX_BUF_RING_SIZE: nat := RX_RING_SIZE
  const NUM_RX_BUFS: nat := 512
  const RX_BUF_SIZE: nat := 2048

  datatype Cast = Unicast | Multicast | Broadcast

  /** The contents of one receive buffer. */
  type Buffer = b: seq<Byte> | |b| == RX_BUF_SIZE witness seq(RX_BUF_SIZE, _ => 0)

  /** A frame as the MAC hands it to the DMA engine; `llen` counts the 4 FCS bytes. */
  datatype Frame = Frame(crcError: bool, llen: nat, cast: Cast, bytes: Buffer)

  /** A 64-bit descriptor word. MacRx is the word whose ownership bit tells the driver
      that a completion is ready. */
  datatype Word = Zero | MacRx(crcError: bool, llen: nat, cast: Cast) | Eval(eval: nat) | Ptr(addr: nat) | Pad

  /** An entry of the buffer pointer ring. */
  datatype Post = NoBuf | Buf(len: nat, addr: nat)

  /** The buffers the driver owns: one physical address each, no two alike. */
  ghost predicate GoodPhys(phys: seq<nat>) {
    && |phys| == NUM_RX_BUFS
    && forall i, j :: 0 <= i < j < |phys| ==> phys[i] != phys[j]
  }

  /** Word `c` of the completion for the `j`-th frame ever received. */
  function CompletionWord(phys: seq<nat>, f: Frame, j: nat, c: nat): Word
    requires |phys| == NUM_RX_BUFS
  {
    match c
    case 0 => MacRx(f.crcError, f.llen, f.cast)
    case 1 => Eval(j % RX_BUF_RING_SIZE + 1)
    case 2 => Ptr(phys[j % NUM_RX_BUFS])
    case _ => Pad
  }

  /** How many completions after `done` word `w` comes up. */
  function DescAge(w: nat, done: nat): nat {
    (w / 4 - done) % (RX_RING_SIZE / 4)
  }

  function WordAt(phys: seq<nat>, done: nat, received: seq<Frame>, w: nat): Word
    requires |phys| == NUM_RX_BUFS
  {
    var j := done + DescAge(w, done);
    if j < |received| then CompletionWord(phys, received[j], j, w % 4) else Zero
  }

  /** The descriptor ring, with the first `cleared` words of the oldest completion
      already wiped by the driver. */
  ghost predicate DescRing(ring: seq<Word>, phys: seq<nat>, done: nat, received: seq<Frame>, cleared: nat) {
    && |ring| == RX_RING_SIZE && |phys| == NUM_RX_BUFS
    && forall w :: 0 <= w < |ring| ==>
         ring[w] == if w / 4 == done % 512 && w % 4 < cleared then Zero else WordAt(phys, done, received, w)
  }

  /** How many slots after slot `done` slot `p` of the buffer ring comes up. */
  function SlotAge(p: nat, done: nat): nat {
    (p - done) % RX_BUF_RING_SIZE
  }

  function PostFor(phys: seq<nat>, i: nat): Post
    requires |phys| == NUM_RX_BUFS
  {
    Buf(RX_BUF_SIZE, phys[i % NUM_RX_BUFS])
  }

  /** The buffer ring: the 512 slots from `done` on are posted, the others are empty.
      `zeroed` and `posted` tell how far the driver is in moving the oldest buffer. */
  ghost predicate BufRing(bufRing: seq<Post>, phys: seq<nat>, done: nat, zeroed: bool, posted: bool) {
    && |bufRing| == RX_BUF_RING_SIZE && |phys| == NUM_RX_BUFS
    && forall p :: 0 <= p < |bufRing| ==>
         var age := SlotAge(p, done);
         bufRing[p] == if (age < 512 && !(zeroed && age == 0)) || (posted && age == 512)
                       then PostFor(phys, p) else NoBuf
  }

  /** The slot table is right throughout the live window. */
  ghost predicate SlotTable(slotBuf: seq<nat>, done: nat) {
    && |slotBuf| == RX_RING_SIZE
    && forall p :: 0 <= p < |slotBuf| && SlotAge(p, done) < 512 ==> slotBuf[p] == p % NUM_RX_BUFS
  }

  /** Buffer j mod 512 holds the bytes of frame `f`. */
  ghost predicate Holds(ram: map<nat, Buffer>, phys: seq<nat>, f: Frame, j: nat)
    requires |phys| == NUM_RX_BUFS
  {
    phys[j % 512] in ram && ram[phys[j % 512]] == f.bytes
  }

  /** Every received frame not yet finished with still lies untouched in its buffer. */
  ghost predicate Buffered(ram: map<nat, Buffer>, phys: seq<nat>, done: nat, received: seq<Frame>) {
    && |phys| == NUM_RX_BUFS
    && forall j :: done <= j < |received| ==> Holds(ram, phys, received[j], j)
  }

  /** The four writes of one completion. */
  function WriteCompletion(ring: seq<Word>, phys: seq<nat>, f: Frame, j: nat, g: nat): seq<Word>
    requires |ring| == RX_RING_SIZE && |phys| == NUM_RX_BUFS && g < 512
  {
    ring[4 * g := CompletionWord(phys, f, j, 0)]
        [4 * g + 1 := CompletionWord(phys, f, j, 1)]
        [4 * g + 2 := CompletionWord(phys, f, j, 2)]
        [4 * g + 3 := CompletionWord(phys, f, j, 3)]
  }

  // ---- arithmetic of the two rings --------------------------------------------------

  lemma SlotOfRing(j: nat, done: nat)
    requires done <= j < done + 2048
    ensures SlotAge(j % 2048, done) == j - done
    ensures j % 2048 % 512 == j % 512
    ensures (4 * j) % 2048 == 4 * (j % 512)
  {
    SameSlot(j - done, -(j / 2048));
    assert j % 2048 - done == j - done + 2048 * -(j / 2048);
    Residues(j);
  }

  lemma SameSlot(x: nat, q: int)
    requires x < 2048
    ensures (x + 2048 * q) % 2048 == x
  {
  }

  lemma Residues(j: nat)
    ensures j % 2048 % 512 == j % 512
    ensures (4 * j) % 2048 == 4 * (j % 512)
  {
    var q, r := j / 512, j % 512;
    assert j == 512 * q + r;
    assert 4 * j == 2048 * q + 4 * r;
  }

  /** Completions fewer than 512 apart never share a descriptor group. */
  lemma GroupOf(w: nat, done: nat, j: nat)
    requires w < RX_RING_SIZE && done <= j < done + 512
    ensures done + DescAge(w, done) == j <==> w / 4 == j % 512
  {
  }

  lemma SlotOf(p: nat, done: nat, j: nat)
    requires p < RX_BUF_RING_SIZE && done <= j < done + 2048
    ensures done + SlotAge(p, done) == j <==> p == j % 2048
  {
  }

  /** The window holds the buffer of every frame still to come. */
  lemma PostedAt(bufRing: seq<Post>, phys: seq<nat>, done: nat, zeroed: bool, posted: bool, j: nat)
    requires BufRing(bufRing, phys, done, zeroed, posted)
    requires done <= j < done + 512 && (zeroed ==> done < j)
    ensures bufRing[j % 2048] == PostFor(phys, j)
  {
    SlotOfRing(j, done);
  }

  lemma NextOnRings(j: nat)
    ensures (j % 2048 + 1) % 2048 == (j + 1) % 2048
    ensures (4 * (j % 512) + 4) % 2048 == 4 * ((j + 1) % 512)
  {
    NextSlot(j);
    NextGroup(j);
    if j % 512 < 511 {
      assert 4 * (j % 512) + 4 < 2048;
    }
  }

  lemma NextSlot(j: nat)
    ensures (j % 2048 + 1) % 2048 == (j + 1) % 2048
  {
  }

  lemma NextGroup(j: nat)
    ensures (j + 1) % 512 == if j % 512 == 511 then 0 else j % 512 + 1
  {
  }

  // ---- what each write does to the closed form ------------------------------------------

  lemma HardwareWrite(ring: seq<Word>, phys: seq<nat>, done: nat, received: seq<Frame>,
      cleared: nat, f: Frame)
    requires DescRing(ring, phys, done, received, cleared)
    requires done <= |received| < done + 512
    requires cleared > 0 ==> done < |received|
    ensures DescRing(WriteCompletion(ring, phys, f, |received|, |received| % 512), phys, done, received + [f],
            cleared)
    ensures forall w :: 0 <= w < RX_RING_SIZE && w / 4 == |received| % 512 ==> ring[w] == Zero
  {
    var j := |received|;
    var g := j % 512;
    var ring' := WriteCompletion(ring, phys, f, j, g);
    forall w | 0 <= w < RX_RING_SIZE
      ensures ring'[w] == if w / 4 == done % 512 && w % 4 < cleared then Zero
                          else WordAt(phys, done, received + [f], w)
      ensures w / 4 == g ==> ring[w] == Zero
    {
      GroupOf(w, done, j);
      GroupOf(w, done, done);
    }
  }

  /** A completion depends on the frame's number only through its slot. */
  lemma SlotCompletion(ring: seq<Word>, phys: seq<nat>, f: Frame, j: nat)
    requires |ring| == RX_RING_SIZE && |phys| == NUM_RX_BUFS
    ensures WriteCompletion(ring, phys, f, j % 2048, j % 512) == WriteCompletion(ring, phys, f, j, j % 512)
  {
    SlotOfRing(j, j);
    forall c | 0 <= c < 4
      ensures CompletionWord(phys, f, j % 2048, c) == CompletionWord(phys, f, j, c)
    {
    }
  }

  lemma HardwareBuffer(ram: map<nat, Buffer>, phys: seq<nat>, done: nat, received: seq<Frame>,
      f: Frame)
    requires GoodPhys(phys) && Buffered(ram, phys, done, received)
    requires done <= |received| < done + 512
    ensures Buffered(ram[phys[|received| % 512] := f.bytes], phys, done, received + [f])
  {
    var ram' := ram[phys[|received| % 512] := f.bytes];
    var received' := received + [f];
    forall j | done <= j < |received'|
      ensures Holds(ram', phys, received'[j], j)
    {
      if j < |received| {
        assert Holds(ram, phys, received[j], j);
        assert j % 512 != |received| % 512;
      }
    }
  }

  lemma BufferedNext(ram: map<nat, Buffer>, phys: seq<nat>, done: nat, received: seq<Frame>)
    requires Buffered(ram, phys, done, received)
    ensures Buffered(ram, phys, done + 1, received)
  {
  }

  lemma DescNext(w: nat, done: nat)
    requires w < RX_RING_SIZE
    ensures w / 4 == done % 512 <==> DescAge(w, done) == 0
    ensures DescAge(w, done + 1) == if w / 4 == done % 512 then 511 else DescAge(w, done) - 1
  {
    SameGroup(w / 4, done);
    GroupDown(w / 4 - done);
    assert w / 4 - (done + 1) == w / 4 - done - 1;
  }

  lemma SameGroup(g: nat, done: nat)
    requires g < 512
    ensures g == done % 512 <==> (g - done) % 512 == 0
  {
  }

  lemma GroupDown(x: int)
    ensures (x - 1) % 512 == if x % 512 == 0 then 511 else x % 512 - 1
  {
  }

  lemma SlotNext(p: nat, done: nat)
    requires p < RX_BUF_RING_SIZE
    ensures SlotAge(p, done + 1) == if SlotAge(p, done) == 0 then 2047 else SlotAge(p, done) - 1
    ensures p == (done + 512) % 2048 <==> SlotAge(p, done) == 512
  {
  }

  /** What the driver sees at its cursor. */
  lemma HeadWords(ring: seq<Word>, phys: seq<nat>, done: nat, received: seq<Frame>, c: nat)
    requires DescRing(ring, phys, done, received, 0) && c < 4
    ensures 4 * (done % 512) + c < RX_RING_SIZE
    ensures ring[4 * (done % 512) + c] ==
            if done < |received| then CompletionWord(phys, received[done], done, c) else Zero
  {
    GroupOf(4 * (done % 512) + c, done, done);
  }

  lemma ClearWord(ring: seq<Word>, phys: seq<nat>, done: nat, received: seq<Frame>, c: nat)
    requires DescRing(ring, phys, done, received, c) && c < 4
    ensures 4 * (done % 512) + c < RX_RING_SIZE
    ensures DescRing(ring[4 * (done % 512) + c := Zero], phys, done, received, c + 1)
  {
  }

  lemma ZeroOldest(bufRing: seq<Post>, phys: seq<nat>, done: nat)
    requires BufRing(bufRing, phys, done, false, false)
    ensures BufRing(bufRing[done % 2048 := NoBuf], phys, done, true, false)
  {
    forall p | 0 <= p < RX_BUF_RING_SIZE
      ensures p == done % 2048 <==> SlotAge(p, done) == 0
    {
      SlotOf(p, done, done);
    }
  }

  lemma PostOldest(bufRing: seq<Post>, phys: seq<nat>, done: nat)
    requires BufRing(bufRing, phys, done, true, false)
    ensures BufRing(bufRing[(done + 512) % 2048 := PostFor(phys, done % 512)], phys, done, true, true)
  {
    PostTarget(done);
    forall p | 0 <= p < RX_BUF_RING_SIZE
      ensures p == (done + 512) % 2048 <==> SlotAge(p, done) == 512
    {
      SlotNext(p, done);
    }
  }

  lemma PostTarget(done: nat)
    ensures (done + 512) % 2048 % 512 == done % 512 == done % 512 % 512
  {
    Residues(done + 512);
    assert (done + 512) % 512 == done % 512;
  }

  lemma FinishOldest(ring: seq<Word>, phys: seq<nat>, done: nat, received: seq<Frame>)
    requires DescRing(ring, phys, done, received, 4) && done < |received| <= done + 512
    ensures DescRing(ring, phys, done + 1, received, 0)
  {
    forall w | 0 <= w < RX_RING_SIZE
      ensures ring[w] == WordAt(phys, done + 1, received, w)
    {
      DescNext(w, done);
    }
  }

  /** The table names the buffer in the oldest slot. */
  lemma TableAt(slotBuf: seq<nat>, done: nat)
    requires SlotTable(slotBuf, done)
    ensures slotBuf[done % 2048] == done % 512
  {
    SlotOfRing(done, done);
  }

  lemma MoveWindow(bufRing: seq<Post>, slotBuf: seq<nat>, phys: seq<nat>, done: nat)
    requires BufRing(bufRing, phys, done, true, true) && SlotTable(slotBuf, done)
    ensures BufRing(bufRing, phys, done + 1, false, false)
    ensures SlotTable(slotBuf[(done + 512) % 2048 := done % 512], done + 1)
  {
    forall p | 0 <= p < RX_BUF_RING_SIZE
      ensures SlotAge(p, done + 1) == if SlotAge(p, done) == 0 then 2047 else SlotAge(p, done) - 1
      ensures p == (done + 512) % 2048 <==> SlotAge(p, done) == 512
    {
      SlotNext(p, done);
    }
    assert (done + 512) % 2048 % 512 == done % 512;
  }
}
