/**
 The boot-time memory allocator of prom_init.c. It hands out memory upward from alloc_bottom,
 downward from alloc_top inside the memory real mode can reach (the RMO), and downward from
 the top of RAM.
 */
module PromAlloc {
  import opened Base

  const STEP: nat := 0x100000
  const WORD: nat := 0x1_0000_0000_0000_0000

  datatype Region = Region(base: nat, size: nat) {
    function End(): nat { base + size }

    predicate Apart(r: Region) {
      size == 0 || r.size == 0 || End() <= r.base || r.End() <= base
    }
  }

  /** alloc_bottom, alloc_top, rmo_top and alloc_top_high. */
  datatype Limits = Limits(bottom: nat, top: nat, rmo: nat, high: nat) {
    predicate Ordered() { bottom <= top <= rmo <= high }
  }

  /** All regions handed out are apart, and each lies where the limits no longer reach. */
  ghost predicate Packed(l: Limits, rs: seq<Region>) {
    && l.Ordered()
    && (forall i :: 0 <= i < |rs| ==> Behind(l, rs[i]))
    && (forall i, j :: 0 <= i < j < |rs| ==> rs[i].Apart(rs[j]))
  }

  predicate Behind(l: Limits, r: Region) {
    r.End() <= l.bottom || (l.top <= r.base && r.End() <= l.rmo) || l.high <= r.base
  }

  function Times(k: nat, a: nat): nat { k * a }

  ghost predicate Aligned(x: nat, a: nat) {
    exists k: nat :: x == Times(k, a)
  }

  function AlignUp(x: nat, a: nat): (r: nat)
    requires a > 0
    ensures x <= r < x + a && Aligned(r, a)
  {
    var r := Times((x + a - 1) / a, a);
    assert x <= r < x + a by { DivTimes(x + a - 1, a); }
    r
  }

  function AlignDown(x: nat, a: nat): (r: nat)
    ensures r <= x && (a > 0 ==> x < r + a) && Aligned(r, a)
  {
    if a == 0 then
      assert Times(0, a) == 0;
      0
    else
      var r := Times(x / a, a);
      assert r <= x < r + a by { DivTimes(x, a); }
      r
  }

  lemma DivTimes(y: nat, a: nat)
    requires a > 0
    ensures Times(y / a, a) <= y < Times(y / a, a) + a
  {
  }

  lemma PackUp(l: Limits, rs: seq<Region>, r: Region)
    requires Packed(l, rs) && l.bottom <= r.base && r.End() <= l.top
    ensures Packed(l.(bottom := r.End()), rs + [r])
  {
    forall i | 0 <= i < |rs|
      ensures rs[i].Apart(r)
    {
      assert Behind(l, rs[i]);
    }
  }

  lemma PackDown(l: Limits, rs: seq<Region>, r: Region)
    requires Packed(l, rs) && l.bottom <= r.base && r.End() <= l.top
    ensures Packed(l.(top := r.base), rs + [r])
  {
    forall i | 0 <= i < |rs|
      ensures rs[i].Apart(r)
    {
      assert Behind(l, rs[i]);
    }
  }

  /** The limits after a high block at `addr`, or None if the block is refused. */
  function HighLimits(l: Limits, addr: nat): Option<Limits> {
    if addr <= l.bottom then None
    else if addr >= l.rmo then Some(l.(high := addr))
    else if l.top == l.rmo then Some(Limits(l.bottom, addr, addr, addr))
    else None
  }

  lemma PackHigh(l: Limits, rs: seq<Region>, r: Region)
    requires Packed(l, rs) && r.End() <= l.high && HighLimits(l, r.base).Some?
    ensures Packed(HighLimits(l, r.base).value, rs + [r])
  {
    forall i | 0 <= i < |rs|
      ensures rs[i].Apart(r)
      ensures Behind(HighLimits(l, r.base).value, rs[i])
    {
      assert Behind(l, rs[i]);
    }
  }

  /** Without the test that nothing was taken down from alloc_top, a high block that reaches
      into the RMO can land on an earlier block. */
  lemma HighGuardNeeded() returns (l: Limits, rs: seq<Region>, r: Region)
    ensures Packed(l, rs) && r.End() <= l.high && l.bottom < r.base < l.rmo
    ensures l.top < l.rmo && HighLimits(l, r.base) == None
    ensures exists i :: 0 <= i < |rs| && !rs[i].Apart(r)
  {
    l := Limits(STEP, 3 * STEP, 4 * STEP, 4 * STEP);
    rs := [Region(3 * STEP, STEP)];
    r := Region(2 * STEP, 2 * STEP);
    assert !rs[0].Apart(r);
  }

  /** The step down in alloc_down, on 64-bit addresses. */
  function StepDown(base: nat): nat
    requires base < WORD
  {
    if base < STEP then base + WORD - STEP else base - STEP
  }

  /** From bases above `bottom` the step down stays below exactly if alloc_bottom is not in
      the first megabyte; from there it can wrap to the top of the address space. */
  lemma StepDownSafe(bottom: nat)
    requires bottom < WORD - 1
    ensures (forall base :: bottom < base < WORD ==> StepDown(base) < base) <==> STEP - 1 <= bottom
  {
    if bottom < STEP - 1 {
      assert StepDown(bottom + 1) >= bottom + 1;
    }
  }

  /** The n-th address alloc_up tries. */
  function UpTry(bottom: nat, align: nat, n: nat): (r: nat)
    requires align == 0 ==> n == 0
    ensures bottom <= r
  {
    if align == 0 then bottom
    else if n == 0 then AlignUp(bottom, align)
    else AlignUp(UpTry(bottom, align, n - 1) + STEP, align)
  }

  /** The n-th address alloc_down tries. */
  function DownTry(top: nat, size: nat, align: nat, n: nat): (r: nat)
    requires size <= top < WORD
    ensures r < WORD
  {
    if n == 0 then AlignDown(top - size, align)
    else AlignDown(StepDown(DownTry(top, size, align, n - 1)), align)
  }

  lemma FirstTry(top: nat, size: nat, align: nat)
    requires size <= top < WORD
    ensures DownTry(top, size, align, 0) == AlignDown(top - size, align) <= top - size
  {
  }

  lemma NextTry(top: nat, size: nat, align: nat, n: nat)
    requires size <= top < WORD
    ensures var base := DownTry(top, size, align, n);
            && DownTry(top, size, align, n + 1) == AlignDown(StepDown(base), align)
            && (STEP <= base ==> DownTry(top, size, align, n + 1) < base)
  {
  }

  /** alloc_down stops at the n-th address it tries: that is not above bottom, or granted. The
      claims before the search are `first` in number. */
  predicate DownStops(bottom: nat, top: nat, size: nat, align: nat, grants: nat -> bool, first: nat, n: nat)
    requires size <= top < WORD
  {
    DownTry(top, size, align, n) <= bottom || grants(first + n)
  }

  ghost predicate DownEnds(bottom: nat, top: nat, size: nat, align: nat, grants: nat -> bool)
    requires size <= top < WORD
  {
    exists n: nat :: DownStops(bottom, top, size, align, grants, 0, n)
  }

  /** The search of alloc_down ends whatever is asked for and whatever the firmware grants, if
      and only if alloc_bottom is at least 0xfffff. */
  lemma DownEndsExactly(bottom: nat)
    ensures (forall top: nat, size: nat, align: nat, grants: nat -> bool ::
               bottom <= top <= WORD / 4 && size <= top ==> DownEnds(bottom, top, size, align, grants))
            <==> STEP - 1 <= bottom
  {
    if STEP - 1 <= bottom {
      forall top: nat, size: nat, align: nat, grants: nat -> bool | bottom <= top <= WORD / 4 && size <= top
        ensures DownEnds(bottom, top, size, align, grants)
      {
        DownDescends(bottom, top, size, align, grants);
      }
    } else {
      var refused: nat -> bool := _ => false;
      NeverEnds(bottom, bottom + 2, refused);
    }
  }

  lemma DownDescends(bottom: nat, top: nat, size: nat, align: nat, grants: nat -> bool)
    requires STEP - 1 <= bottom && size <= top < WORD
    ensures DownEnds(bottom, top, size, align, grants)
  {
    var n := 0;
    while DownTry(top, size, align, n) > bottom
      decreases DownTry(top, size, align, n)
    {
      n := n + 1;
    }
    assert DownStops(bottom, top, size, align, grants, 0, n);
  }

  /** With one byte between alloc_bottom and the block, a search that is refused everything
      goes around the address space for ever. */
  lemma NeverEnds(bottom: nat, top: nat, grants: nat -> bool)
    requires bottom < STEP - 1 && top == bottom + 2 && forall n :: !grants(n)
    ensures !DownEnds(bottom, top, 1, 1, grants)
  {
    forall n: nat
      ensures !DownStops(bottom, top, 1, 1, grants, 0, n)
    {
      GoesAround(bottom, n);
    }
  }

  lemma {:induction false} GoesAround(bottom: nat, n: nat)
    requires bottom < STEP - 1
    ensures DownTry(bottom + 2, 1, 1, n) % STEP == bottom + 1
  {
    if n == 0 {
      AlignedByOne(bottom + 1);
    } else {
      var base := DownTry(bottom + 2, 1, 1, n - 1);
      GoesAround(bottom, n - 1);
      StepDownKeeps(base);
      AlignedByOne(StepDown(base));
    }
  }

  lemma AlignedByOne(x: nat)
    ensures AlignDown(x, 1) == x
  {
  }

  lemma StepDownKeeps(base: nat)
    requires base < WORD
    ensures StepDown(base) % STEP == base % STEP
  {
    if base < STEP {
      assert base + WORD - STEP == base + STEP * 0xFFF_FFFF_FFFF;
    }
  }

  class Allocator {
    const ramTop: nat
    var allocBottom: nat
    var allocTop: nat
    var rmoTop: nat
    var allocTopHigh: nat
    /** Whether the firmware grants the i-th claim asked of it. */
    const grants: nat -> bool
    var asked: nat
    ghost var regions: seq<Region>

    function Limit(): Limits
      reads this
    {
      Limits(allocBottom, allocTop, rmoTop, allocTopHigh)
    }

    /** Everything handed out is apart; addresses fit a machine word. */
    ghost predicate Valid()
      reads this
    {
      && Packed(Limit(), regions)
      && 0 < allocBottom && allocTopHigh <= WORD / 4
    }

    constructor (ramTop: nat, bottom: nat, rmo: nat, grants: nat -> bool)
      requires 0 < bottom <= rmo <= ramTop <= WORD / 4
      ensures Valid() && regions == [] && Limit() == Limits(bottom, rmo, rmo, ramTop)
      ensures this.ramTop == ramTop && this.grants == grants
    {
      this.ramTop, this.grants, asked := ramTop, grants, 0;
      allocBottom, allocTop, rmoTop, allocTopHigh := bottom, rmo, rmo, ramTop;
      regions := [];
    }

    /** prom_claim at a fixed address: the address, or an error. */
    method Claim(base: nat) returns (granted: bool)
      modifies this`asked
      ensures granted == grants(old(asked)) && asked == old(asked) + 1
    {
      granted := grants(asked);
      asked := asked + 1;
    }

    /** All claims from `first` on were refused. */
    ghost predicate Refused(first: nat)
      reads this
    {
      forall i :: first <= i < asked ==> !grants(i)
    }

    /** The search of alloc_up. */
    method ClaimUp(size: nat, align: nat) returns (addr: nat)
      requires 0 < allocBottom
      modifies this`asked
      ensures old(asked) <= asked
      ensures addr == 0 ==> Refused(old(asked))
      ensures addr != 0 ==>
                && allocBottom <= addr && addr + size <= allocTop && (align != 0 ==> Aligned(addr, align))
                && old(asked) < asked && grants(asked - 1) && (forall i :: old(asked) <= i < asked - 1 ==> !grants(i))
      ensures addr != 0 ==>
                (align == 0 ==> asked == old(asked) + 1) && addr == UpTry(allocBottom, align, asked - old(asked) - 1)
      ensures addr == 0 && align != 0 ==> UpTry(allocBottom, align, asked - old(asked)) + size > allocTop
      ensures align == 0 ==> (addr == 0 <==> allocBottom + size > allocTop || !grants(old(asked)))
      ensures align == 0 ==> asked == old(asked) + if allocBottom + size > allocTop then 0 else 1
    {
      addr := 0;
      var base: nat := if align != 0 then AlignUp(allocBottom, align) else allocBottom;
      while base + size <= allocTop
        invariant allocBottom <= base && addr == 0 && old(asked) <= asked && Refused(old(asked))
        invariant align != 0 ==> Aligned(base, align)
        invariant (align == 0 ==> asked == old(asked)) && base == UpTry(allocBottom, align, asked - old(asked))
        decreases allocTop - base
      {
        var granted := Claim(base);
        if granted {
          return base;
        }
        if align == 0 {
          break;
        }
        base := AlignUp(base + STEP, align);
      }
    }

    /** alloc_up: the lowest aligned block the firmware grants, trying in steps of a megabyte.
        With align 0 it is the block at alloc_bottom or none. */
    method AllocUp(size: nat, align: nat) returns (status: Status, addr: nat)
      requires Valid() && size <= WORD / 4 && align <= WORD / 4
      modifies this`allocBottom, this`asked, this`regions
      ensures Valid() && (status.Panicked? <==> ramTop == 0) && (status.Panicked? ==> addr == 0)
      ensures addr == 0 ==> allocBottom == old(allocBottom) && regions == old(regions) && Refused(old(asked))
      ensures addr != 0 ==>
                && regions == old(regions) + [Region(addr, size)] && allocBottom == addr + size <= allocTop
                && old(allocBottom) <= addr && old(asked) < asked && grants(asked - 1)
                && (forall i :: old(asked) <= i < asked - 1 ==> !grants(i))
      ensures addr != 0 && align != 0 ==> Aligned(addr, align)
      ensures addr != 0 ==>
                (align == 0 ==> asked == old(asked) + 1)
                    && addr == UpTry(old(allocBottom), align, asked - old(asked) - 1)
      ensures addr == 0 && align != 0 && ramTop != 0 ==>
                old(asked) <= asked && UpTry(allocBottom, align, asked - old(asked)) + size > allocTop
      ensures align == 0 && ramTop != 0 ==>
                && (addr == 0 <==> old(allocBottom) + size > allocTop || !grants(old(asked)))
                && asked == old(asked) + if old(allocBottom) + size > allocTop then 0 else 1
    {
      if ramTop == 0 {
        return Panicked, 0;
      }
      addr := ClaimUp(size, align);
      if addr == 0 {
        return Running, 0;
      }
      PackUp(Limit(), regions, Region(addr, size));
      allocBottom := addr + size;
      regions := regions + [Region(addr, size)];
      return Running, addr;
    }

    /** The search stops within so many tries. */
    ghost predicate StopsWithin(size: nat, align: nat, tries: nat)
      requires size <= allocTop < WORD
      reads this
    {
      exists n :: 0 <= n < tries && DownStops(allocBottom, allocTop, size, align, grants, asked, n)
    }

    /** alloc_down inside the RMO: the highest aligned block the firmware grants above
        alloc_bottom, as far as so many tries get. The block lies below alloc_top, and the
        memory stays in order, unless the search has wrapped around address 0. */
    method AllocDownLow(size: nat, align: nat, tries: nat) returns (status: Status, addr: nat, ended: bool)
      requires Valid() && size <= allocTop
      modifies this`allocTop, this`asked, this`regions
      ensures (status.Panicked? <==> ramTop == 0) && (status.Panicked? ==> addr == 0 && ended)
      ensures ramTop != 0 ==> (ended <==> old(StopsWithin(size, align, tries)))
      ensures addr == 0 ==> allocTop == old(allocTop) && regions == old(regions) && Refused(old(asked))
      ensures !ended ==> addr == 0 && asked == old(asked) + tries
      ensures addr != 0 ==>
                && regions == old(regions) + [Region(addr, size)] && allocTop == addr
                && allocBottom < addr && old(asked) < asked && grants(asked - 1)
                && (forall i :: old(asked) <= i < asked - 1 ==> !grants(i))
      ensures addr != 0 && align != 0 ==> Aligned(addr, align)
      ensures addr != 0 ==> addr == DownTry(old(allocTop), size, align, asked - old(asked) - 1)
      ensures ended && addr == 0 && ramTop != 0 ==>
                old(asked) <= asked && DownTry(allocTop, size, align, asked - old(asked)) <= allocBottom
      ensures addr == 0 || addr + size <= old(allocTop) ==> Valid()
      ensures STEP - 1 <= allocBottom ==> addr == 0 || addr + size <= old(allocTop)
    {
      if ramTop == 0 {
        return Panicked, 0, true;
      }
      status := Running;
      addr, ended := ClaimDown(size, align, tries);
      if addr == 0 {
        return;
      }
      if addr + size <= allocTop {
        PackDown(Limit(), regions, Region(addr, size));
      }
      allocTop := addr;
      regions := regions + [Region(addr, size)];
    }

    /** The search of alloc_down. */
    method ClaimDown(size: nat, align: nat, tries: nat) returns (addr: nat, ended: bool)
      requires size <= allocTop < WORD && 0 < allocBottom
      modifies this`asked
      ensures old(asked) <= asked && (ended <==> old(StopsWithin(size, align, tries)))
      ensures addr == 0 ==> Refused(old(asked))
      ensures !ended ==> addr == 0 && asked == old(asked) + tries
      ensures addr != 0 ==>
                && allocBottom < addr && old(asked) < asked && grants(asked - 1)
                && (forall i :: old(asked) <= i < asked - 1 ==> !grants(i)) && (align != 0 ==> Aligned(addr, align))
                && addr == DownTry(allocTop, size, align, asked - old(asked) - 1)
      ensures ended && addr == 0 ==> DownTry(allocTop, size, align, asked - old(asked)) <= allocBottom
      ensures STEP - 1 <= allocBottom ==> addr == 0 || addr + size <= allocTop
    {
      hide DownTry, AlignDown, StepDown, Times;
      addr, ended := 0, false;
      ghost var first := asked;
      FirstTry(allocTop, size, align);
      var base: nat, left := AlignDown(allocTop - size, align), tries;
      while left > 0
        invariant 0 <= left <= tries && asked == first + tries - left && base < WORD && Refused(first)
        invariant addr == 0 && !ended
        invariant STEP - 1 <= allocBottom ==> base + size <= allocTop
        invariant base == DownTry(allocTop, size, align, asked - first) && (align != 0 ==> Aligned(base, align))
        invariant forall n :: 0 <= n < asked - first ==>
                    !DownStops(allocBottom, allocTop, size, align, grants, first, n)
      {
        ghost var n := asked - first;
        assert DownStops(allocBottom, allocTop, size, align, grants, first, n) <==>
            base <= allocBottom || grants(asked);
        if base <= allocBottom {
          return 0, true;
        }
        var granted := Claim(base);
        if granted {
          return base, true;
        }
        NextTry(allocTop, size, align, n);
        base, left := AlignDown(StepDown(base), align), left - 1;
      }
    }

    /** alloc_down from the top of RAM, without asking the firmware. It may reach into the RMO
        only while nothing was taken down from alloc_top. */
    method AllocDownHigh(size: nat, align: nat) returns (status: Status, addr: nat)
      requires Valid() && size <= allocTopHigh
      modifies this`allocTop, this`rmoTop, this`allocTopHigh, this`regions
      ensures Valid() && (status.Panicked? <==> ramTop == 0)
      ensures addr == 0 ==> Limit() == old(Limit()) && regions == old(regions)
      ensures addr != 0 ==>
                && regions == old(regions) + [Region(addr, size)] && addr + size <= old(allocTopHigh)
                && allocTopHigh == addr > allocBottom && Aligned(addr, align)
                && (addr < old(rmoTop) ==> old(allocTop) == old(rmoTop) && allocTop == rmoTop == addr)
                && (addr >= old(rmoTop) ==> allocTop == old(allocTop) && rmoTop == old(rmoTop))
      ensures ramTop != 0 ==>
                (addr == 0 <==> HighLimits(old(Limit()), AlignDown(old(allocTopHigh) - size, align)) == None)
    {
      if ramTop == 0 {
        return Panicked, 0;
      }
      addr := AlignDown(allocTopHigh - size, align);
      if addr <= allocBottom {
        return Running, 0;
      }
      ghost var l, r := Limit(), Region(addr, size);
      if addr < rmoTop {
        if allocTop == rmoTop {
          allocTop, rmoTop := addr, addr;
        } else {
          return Running, 0;
        }
      }
      allocTopHigh := addr;
      PackHigh(l, regions, r);
      regions := regions + [r];
      return Running, addr;
    }
  }
}
