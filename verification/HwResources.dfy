/**
 The memory the driver takes from the system: three rings, 512 receive buffers, and the DMA
 mappings of all of them. The system services carry the rules of use as preconditions, so
 freeing twice, freeing while mapped, or ending a mapping twice does not verify.
 */
module HwResources {
  import opened RxRing

  /** What the system answers to one allocation and mapping: whether memory was found, the
      number of DMA entries (0 if StartDMA fails), whether the entry list was found, and the
      physical address. */
  datatype Answer = Answer(memory: bool, entries: nat, list: bool, phys: nat)

  /** Exec memory and DMA services. A pointer is a number, and 0 is NULL. */
  class Exec {
    var live: set<nat>
    var mapped: set<nat>
    var next: nat
    var frees: nat

    predicate Valid()
      reads this
    {
      mapped <= live && 0 < next && forall p :: p in live ==> 0 < p < next
    }

    constructor ()
      ensures Valid() && live == {} && mapped == {}
    {
      live, mapped, next, frees := {}, {}, 1, 0;
    }

    method AllocVec(a: Answer) returns (p: nat)
      requires Valid()
      modifies this
      ensures Valid() && mapped == old(mapped)
      ensures frees == old(frees)
      ensures if a.memory then p != 0 && p !in old(live) && live == old(live) + {p} else p == 0 && live == old(live)
    {
      if !a.memory { return 0; }
      p := next;
      live, next := live + {p}, next + 1;
    }

    method FreeVec(p: nat)
      requires Valid() && p in live && p !in mapped
      modifies this
      ensures Valid() && live == old(live) - {p} && mapped == old(mapped) && frees == old(frees) + 1
    {
      live, frees := live - {p}, frees + 1;
    }

    method StartDMA(p: nat, a: Answer) returns (entries: nat)
      requires Valid() && p in live && p !in mapped
      modifies this
      ensures Valid() && live == old(live) && frees == old(frees) && entries == a.entries
      ensures mapped == if entries > 0 then old(mapped) + {p} else old(mapped)
    {
      entries := a.entries;
      if entries > 0 { mapped := mapped + {p}; }
    }

    method EndDMA(p: nat)
      requires Valid() && p in mapped
      modifies this
      ensures Valid() && live == old(live) && mapped == old(mapped) - {p} && frees == old(frees)
    {
      mapped := mapped - {p};
    }
  }

  /** A pointer the driver keeps, with the number of entries of its mapping. */
  datatype Block = Block(ptr: nat, entries: nat)

  const NO_BLOCK := Block(0, 0)

  function Held(s: seq<Block>): set<nat> {
    set i | 0 <= i < |s| && s[i].ptr != 0 :: s[i].ptr
  }

  function HeldMapped(s: seq<Block>): set<nat> {
    set i | 0 <= i < |s| && s[i].ptr != 0 && s[i].entries != 0 :: s[i].ptr
  }

  /** No pointer is kept twice. */
  predicate Separate(s: seq<Block>) {
    forall i, j :: 0 <= i < j < |s| && s[i].ptr != 0 ==> s[i].ptr != s[j].ptr
  }

  lemma Keep(s: seq<Block>, i: nat, b: Block)
    requires Separate(s) && i < |s| && s[i].ptr == 0 && b.ptr != 0 && b.ptr !in Held(s)
    ensures Separate(s[i := b]) && Held(s[i := b]) == Held(s) + {b.ptr}
    ensures HeldMapped(s[i := b]) == HeldMapped(s) + if b.entries != 0 then {b.ptr} else {}
  {
    var s' := s[i := b];
    assert s'[i] == b;
    forall j | 0 <= j < |s| && j != i
      ensures s'[j] == s[j] && s'[j].ptr != b.ptr
    {
      assert s[j].ptr != 0 ==> s[j].ptr in Held(s);
    }
    assert Held(s') == Held(s) + {b.ptr};
  }

  lemma Release(s: seq<Block>, i: nat, b: Block)
    requires Separate(s) && i < |s| && s[i].ptr != 0 && b.ptr == 0
    ensures Separate(s[i := b]) && Held(s[i := b]) == Held(s) - {s[i].ptr}
    ensures HeldMapped(s[i := b]) == HeldMapped(s) - {s[i].ptr}
  {
    forall j | 0 <= j < |s| && j != i
      ensures s[i := b][j] == s[j] && s[j].ptr != s[i].ptr
    {
    }
  }

  /** Writing over an empty slot with an empty block. */
  lemma StayEmpty(s: seq<Block>, i: nat, b: Block)
    requires i < |s| && s[i].ptr == 0 && b.ptr == 0
    ensures Held(s[i := b]) == Held(s) && HeldMapped(s[i := b]) == HeldMapped(s)
            && (Separate(s) ==> Separate(s[i := b]))
  {
    forall j | 0 <= j < |s| && j != i
      ensures s[i := b][j] == s[j]
    {
    }
  }

  const TX_RING: nat := 512
  const RX_RING: nat := 513
  const RX_BUF_RING: nat := 514

  class Unit {
    const exec: Exec
    var txRing: Block
    var rxRing: Block
    var rxBufRing: Block
    const rxBufs: array<Block>
    const rxBufsPhys: array<nat>

    ghost const otherLive: set<nat>
    ghost const otherMapped: set<nat>

    /** Everything the unit keeps. */
    ghost function Kept(): seq<Block>
      reads this, rxBufs
    {
      rxBufs[..] + [txRing, rxRing, rxBufRing]
    }

    /** The unit's books agree with the system's. */
    ghost predicate Balanced()
      reads this, exec, rxBufs
    {
      && rxBufs.Length == rxBufsPhys.Length == NUM_RX_BUFS
      && exec.Valid() && Separate(Kept()) && Held(Kept()) !! otherLive && otherMapped <= otherLive
      && exec.live == otherLive + Held(Kept())
      && exec.mapped == otherMapped + HeldMapped(Kept())
    }

    /** A buffer has an address exactly if it is there. */
    predicate Addressed()
      reads rxBufs, rxBufsPhys
    {
      rxBufs.Length == rxBufsPhys.Length && forall i :: 0 <= i < rxBufs.Length ==>
          (rxBufs[i].ptr != 0 <==> rxBufsPhys[i] != 0)
    }

    constructor (exec: Exec)
      requires exec.Valid()
      ensures Addressed()
      ensures Balanced() && this.exec == exec && otherLive == exec.live && otherMapped == exec.mapped
      ensures fresh(rxBufs) && fresh(rxBufsPhys) && Held(Kept()) == {}
      ensures txRing == rxRing == rxBufRing == NO_BLOCK
      ensures forall i :: 0 <= i < NUM_RX_BUFS ==> rxBufsPhys[i] == 0
    {
      this.exec := exec;
      txRing, rxRing, rxBufRing := NO_BLOCK, NO_BLOCK, NO_BLOCK;
      rxBufs := new Block[NUM_RX_BUFS](_ => NO_BLOCK);
      rxBufsPhys := new nat[NUM_RX_BUFS](_ => 0);
      otherLive, otherMapped := exec.live, exec.mapped;
    }

    /** get_phys: maps a block and looks its address up; unmaps it again if the list of
        entries cannot be allocated. */
    method GetPhys(p: nat, a: Answer) returns (phys: nat, entries: nat)
      requires exec.Valid() && p in exec.live && p !in exec.mapped
      modifies exec
      ensures exec.Valid() && exec.live == old(exec.live)
      ensures exec.mapped == if entries != 0 then old(exec.mapped) + {p} else old(exec.mapped)
      ensures if a.entries != 0 && a.list then entries == a.entries && phys == a.phys else entries == 0 && phys == 0
    {
      var n := exec.StartDMA(p, a);
      if n == 0 { return 0, 0; }
      if !a.list {
        exec.EndDMA(p);
        return 0, 0;
      }
      return a.phys, n;
    }

    /** Allocates and maps one ring for an empty slot. The caller keeps what it returns even
        if the ring is of no use. */
    method AllocRing(a: Answer, ghost i: nat) returns (b: Block, ok: bool)
      requires Balanced() && i < |Kept()| && Kept()[i] == NO_BLOCK
      modifies exec
      ensures b.ptr != 0 ==> b.ptr !in old(exec.live)
      ensures exec.Valid() && Separate(Kept()[i := b])
      ensures Held(Kept()[i := b]) !! otherLive
      ensures exec.live == otherLive + Held(Kept()[i := b])
      ensures exec.mapped == otherMapped + HeldMapped(Kept()[i := b])
      ensures ok ==> b.ptr != 0 && b.entries != 0
      ensures ok <==> Usable(a)
    {
      var p := exec.AllocVec(a);
      if p == 0 {
        StayEmpty(Kept(), i, NO_BLOCK);
        return NO_BLOCK, false;
      }
      var phys, entries := GetPhys(p, a);
      b, ok := Block(p, entries), phys != 0;
      Keep(Kept(), i, b);
    }

    /** Gives one block back to the system, ending its mapping first. */
    method FreeBlock(b: Block, ghost i: nat)
      requires Balanced() && i < |Kept()| && Kept()[i] == b && b.ptr != 0
      modifies exec
      ensures exec.Valid() && Separate(Kept()[i := Block(0, b.entries)])
      ensures Held(Kept()[i := Block(0, b.entries)]) !! otherLive
      ensures exec.live == otherLive + Held(Kept()[i := Block(0, b.entries)])
      ensures exec.mapped == otherMapped + HeldMapped(Kept()[i := Block(0, b.entries)])
    {
      assert b.ptr in Held(Kept());
      assert b.entries != 0 <==> b.ptr in HeldMapped(Kept()) by {
        if b.ptr in HeldMapped(Kept()) {
          var j :| 0 <= j < |Kept()| && Kept()[j].ptr == b.ptr && Kept()[j].entries != 0;
          assert j == i;
        }
      }
      Release(Kept(), i, Block(0, b.entries));
      if b.entries != 0 {
        exec.EndDMA(b.ptr);
      }
      exec.FreeVec(b.ptr);
    }

    /** The receive buffers; the slots of those freed are empty afterwards. */
    method FreeRxBuffers()
      requires Balanced()
      modifies exec, rxBufs
      ensures Balanced() && forall j :: 0 <= j < NUM_RX_BUFS ==> rxBufs[j].ptr == 0
      ensures old(Held(Kept())) == {} ==> exec.frees == old(exec.frees) && Held(Kept()) == {}
    {
      var i := 0;
      while i < NUM_RX_BUFS
        invariant i <= NUM_RX_BUFS && Balanced()
        invariant forall j :: 0 <= j < i ==> rxBufs[j].ptr == 0
        invariant old(Held(Kept())) == {} ==> exec.frees == old(exec.frees) && Held(Kept()) == {}
      {
        var b := rxBufs[i];
        if b.ptr != 0 {
          assert Kept()[i] == b && b.ptr in Held(Kept());
          FreeBlock(b, i);
          ghost var k := Kept();
          rxBufs[i] := Block(0, b.entries);
          assert Kept() == k[i := Block(0, b.entries)];
        }
        i := i + 1;
      }
    }

    /** Frees everything the unit keeps, each block once and unmapped, and forgets it; done
        again, it frees nothing. */
    method HWCleanup()
      requires Balanced()
      modifies this, exec, rxBufs
      ensures Balanced() && Held(Kept()) == {} && exec.live == otherLive && exec.mapped == otherMapped
      ensures old(Held(Kept())) == {} ==> exec.frees == old(exec.frees)
    {
      FreeRxBuffers();
      if rxBufRing.ptr != 0 {
        assert Kept()[RX_BUF_RING] == rxBufRing && rxBufRing.ptr in Held(Kept());
        FreeBlock(rxBufRing, RX_BUF_RING);
        ghost var k := Kept();
        rxBufRing := Block(0, rxBufRing.entries);
        assert Kept() == k[RX_BUF_RING := rxBufRing];
      }
      FreeDescriptorRings();
      NothingKept(Kept());
    }

    /** The second half of HWCleanup. */
    method FreeDescriptorRings()
      requires Balanced()
      modifies this`txRing, this`rxRing, exec
      ensures Balanced() && rxRing.ptr == 0 && txRing.ptr == 0
      ensures old(Held(Kept())) == {} ==> exec.frees == old(exec.frees)
    {
      if rxRing.ptr != 0 {
        assert Kept()[RX_RING] == rxRing && rxRing.ptr in Held(Kept());
        FreeBlock(rxRing, RX_RING);
        ghost var k := Kept();
        rxRing := Block(0, rxRing.entries);
        assert Kept() == k[RX_RING := rxRing];
      }
      if txRing.ptr != 0 {
        assert Kept()[TX_RING] == txRing && txRing.ptr in Held(Kept());
        FreeBlock(txRing, TX_RING);
        ghost var k := Kept();
        txRing := Block(0, txRing.entries);
        assert Kept() == k[TX_RING := txRing];
      }
    }

    /** The allocations of HWInit. `probe` is false when no DMA interface is found or a
        channel is busy. A failure at any point gives everything back. */
    method HWInit(probe: bool, tx: Answer, rx: Answer, rxBuf: Answer) returns (ok: bool)
      requires Balanced() && txRing == rxRing == rxBufRing == NO_BLOCK
      modifies this, exec, rxBufs
      ensures Balanced()
      ensures ok ==> txRing.ptr != 0 && rxRing.ptr != 0 && rxBufRing.ptr != 0 && rxBufs[..] == old(rxBufs[..])
      ensures ok <==> probe && Usable(tx) && Usable(rx) && Usable(rxBuf)
      ensures !ok ==> Held(Kept()) == {} && exec.live == otherLive && exec.mapped == otherMapped
    {
      ok := probe;
      if ok {
        ghost var k := Kept();
        txRing, ok := AllocRing(tx, TX_RING);
        assert Kept() == k[TX_RING := txRing];
      }
      if ok {
        ghost var k := Kept();
        rxRing, ok := AllocRing(rx, RX_RING);
        assert Kept() == k[RX_RING := rxRing];
      }
      if ok {
        ghost var k := Kept();
        rxBufRing, ok := AllocRing(rxBuf, RX_BUF_RING);
        assert Kept() == k[RX_BUF_RING := rxBufRing];
      }
      if !ok {
        HWCleanup();
      }
    }

    /** One receive buffer: on any failure it is unmapped and freed again, and its slot stays
        empty. */
    method AllocateRxBuffer(i: nat, a: Answer) returns (ok: bool)
      requires Balanced() && i < NUM_RX_BUFS && rxBufs[i].ptr == 0
      modifies exec, rxBufs, rxBufsPhys
      ensures Balanced() && (ok <==> Usable(a)) && (old(Addressed()) ==> Addressed())
      ensures if ok then rxBufs[i].ptr != 0 && rxBufsPhys[i] == a.phys else rxBufs[i].ptr == 0
      ensures forall j :: 0 <= j < NUM_RX_BUFS && j != i ==>
                rxBufs[j] == old(rxBufs[j]) && rxBufsPhys[j] == old(rxBufsPhys[j])
    {
      hide Held, HeldMapped, Separate;
      ghost var k := Kept();
      assert k[i].ptr == 0;
      var p := exec.AllocVec(a);
      if p == 0 {
        return false;
      }
      var n := exec.StartDMA(p, a);
      if n == 0 {
        exec.FreeVec(p);
        return false;
      }
      if !a.list {
        exec.EndDMA(p);
        exec.FreeVec(p);
        return false;
      }
      rxBufsPhys[i] := a.phys;
      if a.phys == 0 {
        rxBufs[i] := Block(0, n);
        StayEmpty(k, i, Block(0, n));
        assert Kept() == k[i := Block(0, n)];
        exec.EndDMA(p);
        exec.FreeVec(p);
        return false;
      }
      rxBufs[i] := Block(p, n);
      Keep(k, i, Block(p, n));
      assert Kept() == k[i := Block(p, n)];
      return true;
    }

    lemma Lengths()
      requires Balanced()
      ensures rxBufs.Length == rxBufsPhys.Length == NUM_RX_BUFS
    {
    }

    /** The allocation loop of PostRxBuffers: fills the empty slots in order and stops at the
        first failure, at `stop`. `answers` says what the system answers for each buffer. */
    method AllocateRxBuffers(answers: nat -> Answer) returns (nalloced: nat, ghost stop: nat)
      requires Balanced()
      modifies exec, rxBufs, rxBufsPhys
      ensures Balanced() && (old(Addressed()) ==> Addressed())
      ensures forall i :: 0 <= i < NUM_RX_BUFS && old(rxBufs[i].ptr) != 0 ==>
                rxBufs[i] == old(rxBufs[i]) && rxBufsPhys[i] == old(rxBufsPhys[i])
      ensures forall i :: 0 <= i < NUM_RX_BUFS && old(rxBufs[i].ptr) == 0 && rxBufs[i].ptr != 0 ==>
                Usable(answers(i)) && rxBufsPhys[i] == answers(i).phys
      ensures nalloced == 0 <==> forall i :: 0 <= i < NUM_RX_BUFS && old(rxBufs[i].ptr) == 0 ==> rxBufs[i].ptr == 0
      ensures stop <= NUM_RX_BUFS && forall i :: 0 <= i < stop ==> rxBufs[i].ptr != 0
      ensures stop < NUM_RX_BUFS ==> old(rxBufs[stop].ptr) == 0 && !Usable(answers(stop))
      ensures forall i :: stop <= i < NUM_RX_BUFS ==> rxBufs[i].ptr == old(rxBufs[i].ptr)
      ensures (forall i :: 0 <= i < NUM_RX_BUFS ==> rxBufs[i].ptr != 0) <==>
              (forall i :: 0 <= i < NUM_RX_BUFS ==> old(rxBufs[i].ptr) != 0 || Usable(answers(i)))
    {
      hide Balanced, Addressed, Usable;
      Lengths();
      nalloced := 0;
      var i := 0;
      while i < NUM_RX_BUFS
        invariant i <= NUM_RX_BUFS && Balanced() && (old(Addressed()) ==> Addressed())
        invariant forall j :: i <= j < NUM_RX_BUFS ==>
                    rxBufs[j] == old(rxBufs[j]) && rxBufsPhys[j] == old(rxBufsPhys[j])
        invariant forall j :: 0 <= j < i ==> rxBufs[j].ptr != 0
        invariant forall j :: 0 <= j < i && old(rxBufs[j].ptr) != 0 ==>
                    rxBufs[j] == old(rxBufs[j]) && rxBufsPhys[j] == old(rxBufsPhys[j])
        invariant forall j :: 0 <= j < i && old(rxBufs[j].ptr) == 0 ==>
                    Usable(answers(j)) && rxBufsPhys[j] == answers(j).phys
        invariant nalloced == 0 <==> forall j :: 0 <= j < i ==> old(rxBufs[j].ptr) != 0
      {
        if rxBufs[i].ptr == 0 {
          var ok := AllocateRxBuffer(i, answers(i));
          if !ok { break; }
          nalloced := nalloced + 1;
        }
        i := i + 1;
      }
      stop := i;
    }
  }

  /** For whatever the system answers: initialise, go online any number of times, clean up
      twice. Everything is back, and the second clean-up freed nothing. */
  method WholeLife(exec: Exec, probe: bool, tx: Answer, rx: Answer, rxBuf: Answer, onlines: seq<nat -> Answer>)
    requires exec.Valid()
    modifies exec
    ensures exec.live == old(exec.live) && exec.mapped == old(exec.mapped)
  {
    var unit := new Unit(exec);
    var ok := unit.HWInit(probe, tx, rx, rxBuf);
    var i := 0;
    while ok && i < |onlines|
      invariant unit.Balanced() && exec == unit.exec
      invariant unit.otherLive == old(exec.live) && unit.otherMapped == old(exec.mapped)
    {
      var _, _ := unit.AllocateRxBuffers(onlines[i]);
      i := i + 1;
    }
    unit.HWCleanup();
    var frees := exec.frees;
    unit.HWCleanup();
    assert exec.frees == frees;
  }

  /** The system gave memory, a mapping and an address. */
  predicate Usable(a: Answer) {
    a.memory && a.entries != 0 && a.list && a.phys != 0
  }

  lemma NothingKept(s: seq<Block>)
    requires forall i :: 0 <= i < |s| ==> s[i].ptr == 0
    ensures Held(s) == {} && HeldMapped(s) == {}
  {
  }
}
