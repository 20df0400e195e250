/**
 The IO bridge's translation of iommu.c: a two-level table in memory, and a cache of table
 lines that the bridge may fill or drop at any moment.
 */
module Iob {
  import opened Base

  const PAGE_SIZE: nat := 4096
  const L2_ENTRIES: nat := 0x80000         // 2 GB of 4 KB pages
  const L1_ENTRIES: nat := 64
  const L1E_V: nat := 0x4000_0000
  const L2E_V: nat := 0x8000_0000
  const LINE: nat := 4                     // table entries per cached line

  /** What the bridge does on its own: load a line of the table, or forget one. */
  datatype Move = Fill(line: nat) | Evict(line: nat)

  /** The physical address of a kernel virtual one. */
  function Pa(uaddr: nat): nat {
    uaddr % 0x1000_0000_0000_0000
  }

  /** IOBMAP_L2E_V | rpn on 32 bits. */
  function Entry(uaddr: nat): nat {
    var rpn := Pa(uaddr) / PAGE_SIZE % 0x1_0000_0000;
    if rpn >= L2E_V then rpn else rpn + L2E_V
  }

  class Bridge {
    const l2: array<nat>
    const l2EmptyVal: nat
    /** Cached lines of the table. */
    var tlb: map<nat, seq<nat>>
    /** What the bridge does between two steps of the driver. */
    const moves: nat -> seq<Move>
    var tick: nat

    predicate Shapes() {
      l2.Length == L2_ENTRIES
    }

    /** A line that is cached agrees with the table. */
    predicate Coherent(line: nat)
      reads this, l2
    {
      line in tlb ==> LINE * line + LINE <= l2.Length && tlb[line] == l2[LINE * line..LINE * line + LINE]
    }

    /** What a device gets for a page: the cached entry, or that of the table. */
    function Translate(page: nat): nat
      requires page < l2.Length
      reads this, l2
    {
      if page / LINE in tlb && |tlb[page / LINE]| == LINE then tlb[page / LINE][page % LINE] else l2[page]
    }

    lemma CoherentTranslates(page: nat)
      requires page < l2.Length && Coherent(page / LINE)
      ensures Translate(page) == l2[page]
    {
    }

    constructor (l2: array<nat>, emptyVal: nat, moves: nat -> seq<Move>)
      ensures this.l2 == l2 && l2EmptyVal == emptyVal && this.moves == moves && tlb == map[]
    {
      this.l2, l2EmptyVal, this.moves, tick, tlb := l2, emptyVal, moves, 0, map[];
    }

    method DoMove(mv: Move)
      requires Shapes()
      modifies this`tlb
      ensures forall line :: old(Coherent(line)) ==> Coherent(line)
    {
      match mv
      case Fill(line) =>
        if LINE * line + LINE <= l2.Length {
          tlb := tlb[line := l2[LINE * line..LINE * line + LINE]];
        }
      case Evict(line) =>
        tlb := map l | l in tlb && l != line :: tlb[l];
    }

    /** The bridge at work between two steps of the driver. */
    method Meanwhile()
      requires Shapes()
      modifies this`tlb, this`tick
      ensures forall line :: old(Coherent(line)) ==> Coherent(line)
    {
      var ms := moves(tick);
      tick := tick + 1;
      for i := 0 to |ms|
        invariant forall line :: old(Coherent(line)) ==> Coherent(line)
      {
        DoMove(ms[i]);
      }
    }

    /** Writes one entry and invalidates the line of the bus address. */
    method SetEntry(page: nat, entry: nat, busAddr: nat)
      requires Shapes() && page < L2_ENTRIES && busAddr / PAGE_SIZE == page
      modifies l2, this`tlb, this`tick
      ensures l2[..] == old(l2[..])[page := entry]
      ensures Coherent(page / LINE)
      ensures forall line :: old(Coherent(line)) ==> Coherent(line)
    {
      Meanwhile();
      ghost var t := l2[..];
      l2[page] := entry;
      OtherLines(t, page, entry);
      assert l2[..] == t[page := entry];
      Meanwhile();
      Invalidate(busAddr / 0x4000);
      assert busAddr / 0x4000 == page / LINE;
      Meanwhile();
    }

    /** The invalidate register: drops one line. */
    method Invalidate(line: nat)
      modifies this`tlb
      ensures Coherent(line) && forall l :: old(Coherent(l)) ==> Coherent(l)
    {
      tlb := map l | l in tlb && l != line :: tlb[l];
    }

    /** iobmap_build: maps the pages one after another. Whatever the bridge loads meanwhile,
        afterwards every line touched agrees with the table, and so does every other line
        that did before. */
    method Build(index: nat, npages: nat, uaddr: nat)
      requires Shapes() && index + npages <= L2_ENTRIES
      modifies l2, this`tlb, this`tick
      ensures forall k :: 0 <= k < npages ==> l2[index + k] == Entry(uaddr + k * PAGE_SIZE)
      ensures forall p :: 0 <= p < L2_ENTRIES && !(index <= p < index + npages) ==> l2[p] == old(l2[p])
      ensures forall p :: index <= p < index + npages ==> Coherent(p / LINE)
      ensures forall line :: old(Coherent(line)) ==> Coherent(line)
      ensures forall p :: index <= p < index + npages ==> Translate(p) == Entry(uaddr + (p - index) * PAGE_SIZE)
    {
      hide Coherent, Translate;
      var busAddr, ip, ua := index * PAGE_SIZE, index, uaddr;
      for i := 0 to npages
        invariant ip == index + i && busAddr == ip * PAGE_SIZE && ua == uaddr + i * PAGE_SIZE
        invariant forall p :: index <= p < index + i ==> l2[p] == Entry(uaddr + (p - index) * PAGE_SIZE)
        invariant forall p :: 0 <= p < L2_ENTRIES && !(index <= p < index + i) ==> l2[p] == old(l2[p])
        invariant forall p :: index <= p < index + i ==> Coherent(p / LINE)
        invariant forall line :: old(Coherent(line)) ==> Coherent(line)
      {
        ghost var t := l2[..];
        SetEntry(ip, Entry(ua), busAddr);
        OneChanged(t, l2[..], ip, Entry(ua));
        ip, ua, busAddr := ip + 1, ua + PAGE_SIZE, busAddr + PAGE_SIZE;
      }
      forall p | index <= p < index + npages
        ensures Translate(p) == l2[p]
      {
        CoherentTranslates(p);
      }
      forall k | 0 <= k < npages
        ensures l2[index + k] == Entry(uaddr + k * PAGE_SIZE)
      {
        assert l2[index + k] == Entry(uaddr + (index + k - index) * PAGE_SIZE);
      }
    }

    /** iobmap_free: every page of the range leads to the spare page again. */
    method Free(index: nat, npages: nat)
      requires Shapes() && index + npages <= L2_ENTRIES
      modifies l2, this`tlb, this`tick
      ensures forall p :: 0 <= p < L2_ENTRIES ==>
                l2[p] == if index <= p < index + npages then l2EmptyVal else old(l2[p])
      ensures forall p :: index <= p < index + npages ==> Coherent(p / LINE) && Translate(p) == l2EmptyVal
      ensures forall line :: old(Coherent(line)) ==> Coherent(line)
    {
      hide Coherent, Translate;
      var busAddr, ip := index * PAGE_SIZE, index;
      for i := 0 to npages
        invariant ip == index + i && busAddr == ip * PAGE_SIZE
        invariant forall p :: 0 <= p < L2_ENTRIES ==>
                    l2[p] == if index <= p < index + i then l2EmptyVal else old(l2[p])
        invariant forall p :: index <= p < index + i ==> Coherent(p / LINE)
        invariant forall line :: old(Coherent(line)) ==> Coherent(line)
      {
        ghost var t := l2[..];
        SetEntry(ip, l2EmptyVal, busAddr);
        OneChanged(t, l2[..], ip, l2EmptyVal);
        ip, busAddr := ip + 1, busAddr + PAGE_SIZE;
      }
      forall p | index <= p < index + npages
        ensures Translate(p) == l2[p]
      {
        CoherentTranslates(p);
      }
    }
  }

  lemma OneChanged(t: seq<nat>, t': seq<nat>, i: nat, v: nat)
    requires i < |t| && t' == t[i := v]
    ensures |t'| == |t| && t'[i] == v && forall p :: 0 <= p < |t| && p != i ==> t'[p] == t[p]
  {
  }

  /** Writing an entry leaves the other lines of the table alone. */
  lemma OtherLines(t: seq<nat>, page: nat, entry: nat)
    requires page < |t|
    ensures forall line: nat :: line != page / LINE && LINE * line + LINE <= |t| ==>
              t[page := entry][LINE * line..LINE * line + LINE] == t[LINE * line..LINE * line + LINE]
  {
  }

  // ---- the first level -------------------------------------------------------------------------

  /** iob_init: register i leads to the i-th piece of 8192 entries of the one table at `base`. */
  method SetUpL1(l1: array<nat>, base: nat)
    requires l1.Length == L1_ENTRIES && base % PAGE_SIZE == 0 && base + 4 * L2_ENTRIES <= 0x8000_0000
    modifies l1
    ensures forall page :: 0 <= page < L2_ENTRIES ==> EntryAddress(l1[..], page) == Some(base + 4 * page)
  {
    for i := 0 to L1_ENTRIES
      invariant forall j :: 0 <= j < i ==> l1[j] == L1E_V + (base + j * 0x8000) / PAGE_SIZE
    {
      l1[i] := L1E_V + (base + i * 0x8000) / PAGE_SIZE;
    }
    forall page | 0 <= page < L2_ENTRIES
      ensures EntryAddress(l1[..], page) == Some(base + 4 * page)
    {
      WalkIsFlat(l1[..], base, page);
    }
  }

  /** Where the bridge finds the entry for a page: the L1 register of its 32 MB gives the
      physical page at which 8192 entries start. */
  function EntryAddress(l1: seq<nat>, page: nat): Option<nat>
    requires |l1| == L1_ENTRIES && page < L2_ENTRIES
  {
    var reg := l1[page / 8192];
    if reg / L1E_V % 2 == 0 then None
    else Some(reg % L1E_V * PAGE_SIZE + page % 8192 * 4)
  }

  /** The two-level walk is indexing one flat table. */
  lemma WalkIsFlat(l1: seq<nat>, base: nat, page: nat)
    requires |l1| == L1_ENTRIES && base % PAGE_SIZE == 0 && base + 4 * L2_ENTRIES <= 0x8000_0000 && page < L2_ENTRIES
    requires forall j :: 0 <= j < L1_ENTRIES ==> l1[j] == L1E_V + (base + j * 0x8000) / PAGE_SIZE
    ensures EntryAddress(l1, page) == Some(base + 4 * page)
  {
    var j := page / 8192;
    assert (base + j * 0x8000) / PAGE_SIZE * PAGE_SIZE == base + j * 0x8000;
    assert (base + j * 0x8000) / PAGE_SIZE < L1E_V;
  }
}
