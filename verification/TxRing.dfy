/**
 The transmit side: every packet gets a buffer of its own, two descriptors of the ring, and is
 left to the engine; its buffer is given back when the next packet is sent.
 */
module TxRing {
  import opened Base
  import opened Requests
  import HwResources

  const TX_RING_SIZE: nat := 256
  const ETH_ADDR_LEN: nat := 6
  const ETH_MAX_FRAME: nat := 1514
  const MIN_FRAME: nat := 60
  const MAX_POLLS: nat := 50000
  const TWO32: nat := 0x1_0000_0000

  type Bytes = seq<Byte>

  /** A descriptor word; `owned` is the bit the engine clears when it is done. */
  datatype Desc = Empty | MacTx(owned: bool, llen: nat) | TxPtr(len: nat, addr: nat)

  /** The caller's part of a packet. */
  datatype Packet = Packet(dst: Bytes, etherType: nat, payload: Bytes)

  /** What the system and the opener answer: memory and mapping, whether the opener has a
      hook for the data, and whether the hook copies it. */
  datatype Outcome = Outcome(answer: HwResources.Answer, hook: bool, copyOk: bool)

  /** The length of the frame on 32 bits, padded to the Ethernet minimum. */
  function FrameLength(payLen: nat): nat {
    var n := (ETH_HDR_LEN + payLen) % TWO32;
    if n < MIN_FRAME then MIN_FRAME else n
  }

  /** The test against the maximum refuses exactly the payloads over 1500 bytes, unless the
      sum wraps. */
  lemma LengthTest(payLen: nat)
    requires payLen < TWO32
    ensures (FrameLength(payLen) <= ETH_MAX_FRAME <==> payLen <= 1500) <==> payLen < TWO32 - ETH_HDR_LEN
  {
    if payLen >= TWO32 - ETH_HDR_LEN {
      assert (ETH_HDR_LEN + payLen) % TWO32 == ETH_HDR_LEN + payLen - TWO32;
    }
  }

  /** The error a packet is replied with. */
  function Verdict(payLen: nat, o: Outcome): Error {
    if FrameLength(payLen) > ETH_MAX_FRAME then MtuExceeded
    else if !o.answer.memory then NoResources
    else if !o.hook then BadArgument
    else if !o.copyOk then NoResources
    else if o.answer.entries == 0 then TxFailure
    else if !o.answer.list then NoResources
    else NoError
  }

  /** The packet gets as far as the opener's hook, and that copies the data. */
  predicate HookCopies(payLen: nat, o: Outcome) {
    FrameLength(payLen) <= ETH_MAX_FRAME && o.answer.memory && o.hook && o.copyOk
  }

  /** Addresses of six bytes and a length of 32 bits. */
  predicate Sendable(p: Packet, mac: Bytes) {
    |p.dst| == |mac| == ETH_ADDR_LEN && |p.payload| < TWO32
  }

  /** The bytes the opener's hook writes past the end of the buffer. */
  function Spilled(p: Packet): nat {
    var end := ETH_HDR_LEN + |p.payload|;
    if end > FrameLength(|p.payload|) then end - FrameLength(|p.payload|) else 0
  }

  /** Some are, exactly if the sum of the lengths wraps. */
  lemma SpillTest(p: Packet)
    requires |p.payload| < TWO32
    ensures Spilled(p) > 0 <==> |p.payload| >= TWO32 - ETH_HDR_LEN
  {
    if |p.payload| >= TWO32 - ETH_HDR_LEN {
      assert (ETH_HDR_LEN + |p.payload|) % TWO32 == ETH_HDR_LEN + |p.payload| - TWO32;
    }
  }

  /** The frame on the wire: header, payload as far as the buffer goes, and zeros up to the
      minimum. */
  function FrameOf(p: Packet, mac: Bytes): (f: Bytes)
    requires Sendable(p, mac)
    ensures |f| == FrameLength(|p.payload|)
  {
    var kept := p.payload[..|p.payload| - Spilled(p)];
    HeaderOf(p, mac) + kept + Zeros(FrameLength(|p.payload|) - ETH_HDR_LEN - |kept|)
  }

  function HeaderOf(p: Packet, mac: Bytes): (h: Bytes)
    requires |p.dst| == |mac| == ETH_ADDR_LEN
    ensures |h| == ETH_HDR_LEN
  {
    p.dst + mac + TypeBytes(p.etherType)
  }

  function Zeros(n: nat): Bytes {
    seq(n, _ => 0)
  }

  class Transmitter {
    const exec: HwResources.Exec
    const ring: array<Desc>
    const mac: Bytes
    var nextFill: nat
    var pending: nat          // tx_buf_pending, 0 for none
    var fillPending: nat
    /** Whether the engine has finished by its k-th look at the ring. */
    const finished: nat -> bool
    var looks: nat
    /** The frames handed to the engine, oldest first, and the addresses of their buffers. */
    ghost var sent: seq<Bytes>
    ghost var addrs: seq<nat>
    /** Memory of everybody else, packets still waiting for the lock included. */
    ghost var otherLive: set<nat>
    ghost var otherMapped: set<nat>

    function Mine(): set<nat>
      reads this
    {
      if pending == 0 then {} else {pending}
    }

    /** The ring's only memory is the buffer of the last packet, mapped. */
    ghost predicate Balanced()
      reads this, exec
    {
      && exec.Valid() && otherMapped <= otherLive && pending !in otherLive
      && exec.live == otherLive + Mine() && exec.mapped == otherMapped + Mine()
    }

    /** The k-th packet went to slots 2k and 2k+1 of the ring; only the last one's are in use. */
    ghost predicate Valid()
      reads this, exec, ring
    {
      && ring.Length == TX_RING_SIZE && |mac| == ETH_ADDR_LEN && |addrs| == |sent| && Balanced()
      && nextFill == 2 * |sent| % TX_RING_SIZE && (pending != 0 <==> sent != [])
      && if sent == [] then forall i :: 0 <= i < TX_RING_SIZE ==> ring[i] == Empty
         else Holds(|sent| - 1)
    }

    /** The ring holds the k-th packet and nothing else. */
    ghost predicate Holds(k: nat)
      requires k < |sent| == |addrs| && ring.Length == TX_RING_SIZE
      reads this`fillPending, this`sent, this`addrs, ring
    {
      && fillPending == 2 * k % TX_RING_SIZE && fillPending + 1 < TX_RING_SIZE
      && ring[fillPending].MacTx? && ring[fillPending].llen == |sent[k]|
      && ring[fillPending + 1] == TxPtr(|sent[k]|, addrs[k])
      && forall i :: 0 <= i < TX_RING_SIZE && i != fillPending && i != fillPending + 1 ==> ring[i] == Empty
    }

    constructor (exec: HwResources.Exec, mac: Bytes, finished: nat -> bool)
      requires exec.Valid() && |mac| == ETH_ADDR_LEN
      ensures Valid() && sent == [] && this.exec == exec && this.mac == mac && this.finished == finished
      ensures fresh(ring)
    {
      this.exec, this.mac, this.finished := exec, mac, finished;
      ring := new Desc[TX_RING_SIZE](_ => Empty);
      nextFill, pending, fillPending, looks := 0, 0, 0, 0;
      sent, addrs, otherLive, otherMapped := [], [], exec.live, exec.mapped;
    }

    /** The engine may finish the packet before the driver looks. */
    method Look() returns (owned: bool)
      requires fillPending < ring.Length
      modifies ring, this`looks
      ensures forall i :: 0 <= i < ring.Length && i != fillPending ==> ring[i] == old(ring[i])
      ensures owned <==> ring[fillPending].MacTx? && ring[fillPending].owned
    {
      looks := looks + 1;
      if finished(looks) && ring[fillPending].MacTx? {
        ring[fillPending] := ring[fillPending].(owned := false);
      }
      owned := ring[fillPending].MacTx? && ring[fillPending].owned;
    }

    /** tx_cleanup_pending: polls a bounded number of times, then gives the last buffer back
        whether the engine is done or not. */
    method CleanupPending()
      requires ring.Length == TX_RING_SIZE && Balanced() && (pending != 0 ==> fillPending + 1 < TX_RING_SIZE)
      modifies this`pending, this`looks, ring, exec
      ensures Balanced() && pending == 0
      ensures forall i :: 0 <= i < TX_RING_SIZE ==>
                ring[i] == if old(pending) != 0 && (i == fillPending || i == fillPending + 1) then Empty
                           else old(ring[i])
      ensures exec.frees == old(exec.frees) + if old(pending) != 0 then 1 else 0
    {
      if pending == 0 {
        return;
      }
      var tries, owned := 0, true;
      while tries < MAX_POLLS && owned
        invariant forall i :: 0 <= i < ring.Length && i != fillPending ==> ring[i] == old(ring[i])
        decreases MAX_POLLS - tries, owned
        modifies ring, this`looks
      {
        owned := Look();
        if owned {
          tries := tries + 1;
        }
      }
      owned := Look();
      if owned {
        owned := Look();
      }
      ring[fillPending] := Empty;
      ring[fillPending + 1] := Empty;
      exec.EndDMA(pending);
      exec.FreeVec(pending);
      pending := 0;
    }

    /** What goes before the lock: a buffer is filled and mapped, or everything is given back. */
    method Prepare(p: Packet, o: Outcome) returns (e: Error, buf: nat, frame: Bytes, spill: nat)
      requires exec.Valid() && Sendable(p, mac)
      modifies exec
      ensures exec.Valid() && e == Verdict(|p.payload|, o)
      ensures spill == if HookCopies(|p.payload|, o) then Spilled(p) else 0
      ensures e != NoError ==> exec.live == old(exec.live) && exec.mapped == old(exec.mapped)
      ensures e == NoError ==>
                && frame == FrameOf(p, mac) && buf != 0 && buf !in old(exec.live)
                && exec.live == old(exec.live) + {buf} && exec.mapped == old(exec.mapped) + {buf}
                && exec.frees == old(exec.frees)
    {
      hide FrameOf, HeaderOf, Zeros, Spilled;
      buf, frame, spill := 0, [], 0;
      var frameLen := FrameLength(|p.payload|);
      if frameLen > ETH_MAX_FRAME {
        return MtuExceeded, buf, frame, spill;
      }
      buf := exec.AllocVec(o.answer);
      if buf == 0 {
        return NoResources, buf, frame, spill;
      }
      var bytes := BuildHeader(p, mac);
      if !o.hook {
        exec.FreeVec(buf);
        return BadArgument, buf, frame, spill;
      }
      if !o.copyOk {
        exec.FreeVec(buf);
        return NoResources, buf, frame, spill;
      }
      spill := CopyPayload(bytes, p, mac);
      var entries := exec.StartDMA(buf, o.answer);
      if entries == 0 {
        exec.FreeVec(buf);
        return TxFailure, buf, frame, spill;
      }
      if !o.answer.list {
        exec.EndDMA(buf);
        exec.FreeVec(buf);
        return NoResources, buf, frame, spill;
      }
      return NoError, buf, bytes[..], spill;
    }

    /** TransmitPacket: a packet that cannot be sent changes nothing; one that can takes the
        place of the one before, whose buffer is unmapped and freed. */
    method Transmit(p: Packet, o: Outcome) returns (e: Error, spill: nat)
      requires Valid() && Sendable(p, mac)
      modifies this, ring, exec
      ensures Valid() && e == Verdict(|p.payload|, o) && otherLive == old(otherLive)
              && otherMapped == old(otherMapped)
      ensures spill == if HookCopies(|p.payload|, o) then Spilled(p) else 0
      ensures e != NoError ==>
                sent == old(sent) && pending == old(pending) && exec.live == old(exec.live)
                    && exec.mapped == old(exec.mapped)
      ensures e == NoError ==>
                && sent == old(sent) + [FrameOf(p, mac)] && addrs == old(addrs) + [o.answer.phys]
                && pending !in old(exec.live)
                && exec.live == old(exec.live) - {old(pending)} + {pending}
                && exec.mapped == old(exec.mapped) - {old(pending)} + {pending}
                && exec.frees == old(exec.frees) + if old(sent) == [] then 0 else 1
    {
      hide FrameOf, Holds, Verdict, HookCopies, Spilled;
      var buf, frame;
      e, buf, frame, spill := Prepare(p, o);
      if e == NoError {
        otherLive, otherMapped := otherLive + {buf}, otherMapped + {buf};
        Submit(buf, frame, o.answer.phys);
      }
    }

    /** The two descriptors of a packet. */
    method PutDescriptors(fill: nat, frame: Bytes, phys: nat)
      requires fill == nextFill == 2 * |sent| % TX_RING_SIZE && fill + 1 < ring.Length == TX_RING_SIZE
      requires |addrs| == |sent| && forall i :: 0 <= i < ring.Length ==> ring[i] == Empty
      modifies this`nextFill, this`fillPending, this`sent, this`addrs, ring
      ensures sent == old(sent) + [frame] && addrs == old(addrs) + [phys]
      ensures nextFill == 2 * |sent| % TX_RING_SIZE && Holds(|sent| - 1)
    {
      NextSlots(|sent|);
      ring[fill] := MacTx(true, |frame|);
      ring[fill + 1] := TxPtr(|frame|, phys);
      nextFill, fillPending := (fill + 2) % TX_RING_SIZE, fill;
      sent, addrs := sent + [frame], addrs + [phys];
    }

    /** The part under the lock; the buffer is the caller's until then. */
    method Submit(buf: nat, frame: Bytes, phys: nat)
      requires Valid() && buf != 0 && buf in otherMapped
      modifies this, ring, exec
      ensures Valid() && pending == buf && sent == old(sent) + [frame] && addrs == old(addrs) + [phys]
      ensures otherLive == old(otherLive) - {buf} && otherMapped == old(otherMapped) - {buf}
      ensures exec.frees == old(exec.frees) + if old(sent) == [] then 0 else 1
    {
      NextSlots(|sent|);
      CleanupPending();
      hide Holds;
      PutDescriptors(nextFill, frame, phys);
      pending := buf;
      otherLive, otherMapped := otherLive - {buf}, otherMapped - {buf};
    }

    lemma MemoryHeld()
      requires Valid()
      ensures exec.live == otherLive + Mine() && exec.mapped == otherMapped + Mine()
    {
    }
  }

  /** The slots of the k-th packet and of the one after it. */
  lemma NextSlots(k: nat)
    ensures 2 * k % 256 + 1 < 256 && (2 * k % 256 + 2) % 256 == 2 * (k + 1) % 256
  {
    var q, r := k / 128, k % 128;
    assert k == 128 * q + r;
    assert 2 * k == 256 * q + 2 * r && 2 * (k + 1) == 256 * q + (2 * r + 2);
    Around(q, 2 * r);
    Around(q, 2 * r + 2);
  }

  lemma Around(q: nat, x: nat)
    requires x <= 256
    ensures (256 * q + x) % 256 == if x == 256 then 0 else x
  {
  }

  /** byte_copy. */
  method ByteCopy(dst: array<Byte>, at: nat, src: Bytes)
    requires at + |src| <= dst.Length
    modifies dst
    ensures dst[..] == old(dst[..])[..at] + src + old(dst[..])[at + |src|..]
  {
    for i := 0 to |src|
      invariant forall k :: 0 <= k < dst.Length ==> dst[k] == if at <= k < at + i then src[k - at] else old(dst[k])
    {
      dst[at + i] := src[i];
    }
  }

  /** A zeroed buffer of the frame's length with the header in it. */
  method BuildHeader(p: Packet, mac: Bytes) returns (buf: array<Byte>)
    requires |p.dst| == |mac| == ETH_ADDR_LEN
    ensures fresh(buf) && buf.Length == FrameLength(|p.payload|)
    ensures buf[..] == HeaderOf(p, mac) + Zeros(buf.Length - ETH_HDR_LEN)
  {
    hide Zeros, HeaderOf;
    var n := FrameLength(|p.payload|);
    buf := new Byte[n](_ => 0);
    AllZero(buf[..], n);
    CopyNext(buf, 0, p.dst, []);
    CopyNext(buf, ETH_ADDR_LEN, mac, [] + p.dst);
    var bytes := TypeBytes(p.etherType);
    CopyNext(buf, 12, bytes, [] + p.dst + mac);
    HeaderParts(p, mac);
  }

  /** The opener's hook copies the payload behind the header, and past the end if the buffer
      is too short. */
  method CopyPayload(buf: array<Byte>, p: Packet, mac: Bytes) returns (spill: nat)
    requires Sendable(p, mac) && buf.Length == FrameLength(|p.payload|)
    requires buf[..] == HeaderOf(p, mac) + Zeros(buf.Length - ETH_HDR_LEN)
    modifies buf
    ensures buf[..] == FrameOf(p, mac) && spill == Spilled(p)
  {
    hide Zeros, HeaderOf;
    var room := buf.Length - ETH_HDR_LEN;
    spill := if |p.payload| > room then |p.payload| - room else 0;
    CopyNext(buf, ETH_HDR_LEN, p.payload[..|p.payload| - spill], HeaderOf(p, mac));
  }

  function TypeBytes(etherType: nat): (b: Bytes)
    ensures |b| == 2
  {
    [etherType % 0x10000 / 256, etherType % 256]
  }

  lemma HeaderParts(p: Packet, mac: Bytes)
    requires |p.dst| == |mac| == ETH_ADDR_LEN
    ensures [] + p.dst + mac + TypeBytes(p.etherType) == HeaderOf(p, mac)
  {
  }

  /** Copies to where the zeros start. */
  method CopyNext(buf: array<Byte>, at: nat, src: Bytes, ghost front: Bytes)
    requires |front| == at && at + |src| <= buf.Length && buf[..] == front + Zeros(buf.Length - at)
    modifies buf
    ensures buf[..] == front + src + Zeros(buf.Length - at - |src|)
  {
    Overlay(front, buf.Length - at, src);
    ByteCopy(buf, at, src);
  }

  lemma AllZero(b: Bytes, n: nat)
    requires |b| == n && forall i :: 0 <= i < n ==> b[i] == 0
    ensures b == [] + Zeros(n)
  {
  }

  /** Writing where the zeros start. */
  lemma Overlay(front: Bytes, zeros: nat, src: Bytes)
    requires |src| <= zeros
    ensures var b := front + Zeros(zeros);
            && |b| == |front| + zeros
            && b[..|front|] + src + b[|front| + |src|..] == front + src + Zeros(zeros - |src|)
  {
    var b := front + Zeros(zeros);
    assert b[..|front|] == front;
    assert b[|front| + |src|..] == Zeros(zeros - |src|);
  }

  /** Any packets one after another: the frames accepted are sent in order, each from the next
      two slots, and all memory is given back but the buffer of the last. */
  method TransmitAll(t: Transmitter, ps: seq<Packet>, os: seq<Outcome>) returns (errors: seq<Error>, spills: seq<nat>)
    requires t.Valid() && |ps| == |os| && forall i :: 0 <= i < |ps| ==> Sendable(ps[i], t.mac)
    modifies t, t.ring, t.exec
    ensures t.Valid() && t.sent == old(t.sent) + Accepted(ps, os, t.mac)
    ensures Answered(ps, os, errors, spills)
    ensures t.exec.live == old(t.otherLive) + t.Mine() && t.exec.mapped == old(t.otherMapped) + t.Mine()
  {
    hide FrameOf, Verdict, HookCopies, Spilled, Transmitter.Valid, Sent;
    errors, spills := [], [];
    for i := 0 to |ps|
      invariant t.Valid() && t.otherLive == old(t.otherLive) && t.otherMapped == old(t.otherMapped)
      invariant t.sent == old(t.sent) + Accepted(ps[..i], os[..i], t.mac)
      invariant |errors| == |spills| == i && Answered(ps[..i], os[..i], errors, spills)
    {
      hide Accepted, Answered;
      AcceptedNext(ps, os, t.mac, i);
      var e, spill := t.Transmit(ps[i], os[i]);
      SentOne(ps[i], os[i], t.mac);
      AnsweredNext(ps, os, errors, spills, i, e, spill);
      errors, spills := errors + [e], spills + [spill];
    }
    assert ps[..|ps|] == ps && os[..|ps|] == os;
    t.MemoryHeld();
  }

  /** Each packet got its error, and bytes were written past a buffer exactly if the hook copied
      a payload whose length wraps. */
  predicate Answered(ps: seq<Packet>, os: seq<Outcome>, errors: seq<Error>, spills: seq<nat>) {
    && |ps| == |os| == |errors| == |spills|
    && (forall i :: 0 <= i < |ps| ==> errors[i] == Verdict(|ps[i].payload|, os[i]))
    && (forall i :: 0 <= i < |ps| ==>
          (spills[i] > 0 <==> HookCopies(|ps[i].payload|, os[i]) && |ps[i].payload| >= TWO32 - ETH_HDR_LEN))
  }

  lemma AnsweredNext(ps: seq<Packet>, os: seq<Outcome>, errors: seq<Error>, spills: seq<nat>, i: nat, e: Error,
      spill: nat)
    requires i < |ps| == |os| && |ps[i].payload| < TWO32 && Answered(ps[..i], os[..i], errors, spills)
    requires e == Verdict(|ps[i].payload|, os[i])
    requires spill == if HookCopies(|ps[i].payload|, os[i]) then Spilled(ps[i]) else 0
    ensures Answered(ps[..i + 1], os[..i + 1], errors + [e], spills + [spill])
  {
    hide Verdict, HookCopies, Spilled;
    SpillTest(ps[i]);
  }

  lemma SentOne(p: Packet, o: Outcome, mac: Bytes)
    requires Sendable(p, mac)
    ensures Sent(p, o, mac) == if Verdict(|p.payload|, o) == NoError then [FrameOf(p, mac)] else []
  {
  }

  function Accepted(ps: seq<Packet>, os: seq<Outcome>, mac: Bytes): seq<Bytes>
    requires |ps| == |os| && forall i :: 0 <= i < |ps| ==> Sendable(ps[i], mac)
  {
    if ps == [] then []
    else
      var n := |ps| - 1;
      Accepted(ps[..n], os[..n], mac) + Sent(ps[n], os[n], mac)
  }

  /** What a packet adds to the frames sent. */
  function Sent(p: Packet, o: Outcome, mac: Bytes): seq<Bytes>
    requires Sendable(p, mac)
  {
    if Verdict(|p.payload|, o) == NoError then [FrameOf(p, mac)] else []
  }

  lemma AcceptedNext(ps: seq<Packet>, os: seq<Outcome>, mac: Bytes, i: nat)
    requires |ps| == |os| && i < |ps| && forall j :: 0 <= j < |ps| ==> Sendable(ps[j], mac)
    ensures Accepted(ps[..i + 1], os[..i + 1], mac) ==
            Accepted(ps[..i], os[..i], mac) + Sent(ps[i], os[i], mac)
  {
    assert ps[..i + 1][..i] == ps[..i] && os[..i + 1][..i] == os[..i];
  }
}
