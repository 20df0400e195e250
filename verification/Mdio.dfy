/**
 The bit-banged MDIO master of gpio_mdio.c against PHYs that follow clause 22.2.4.5 of IEEE
 Std 802.3: they sample MDIO on the rising edges of MDC, and a PHY that is read drives MDIO
 from the second turnaround bit on.
 */
module Mdio {
  import opened Base
  import opened Bits

  // ---- the PHYs ------------------------------------------------------------------------------

  /** Idle counts the ones seen in a row; Frame holds the bits since the start of frame. */
  datatype Phase = Idle(ones: nat) | Frame(bits: seq<bool>)

  /** The PHYs on the bus: the registers of each by address, and for every frame so far the
      length of its preamble. */
  datatype Phys = Phys(phase: Phase, regs: map<nat, seq<nat>>, preambles: seq<nat>)

  const PREAMBLE: nat := 32
  const HEADER: nat := 14      // start, opcode, PHY address, register address
  const FRAME: nat := 32

  function AddrOf(bits: seq<bool>): nat
    requires |bits| >= HEADER
  {
    Value(bits[4..9])
  }

  function RegOf(bits: seq<bool>): nat
    requires |bits| >= HEADER
  {
    Value(bits[9..14])
  }

  ghost predicate RegsOk(regs: map<nat, seq<nat>>) {
    forall a :: a in regs ==> a < 32 && |regs[a]| == 32 && forall r :: 0 <= r < 32 ==> regs[a][r] < 65536
  }

  /** What a PHY puts on the line: nothing, except from the second turnaround bit of a read
      of its own address on. */
  function Drives(p: Phys): Option<bool> {
    if !(p.phase.Frame? && HEADER < |p.phase.bits| < FRAME) then None
    else
      var bits := p.phase.bits;
      if !(bits[2] && !bits[3] && AddrOf(bits) in p.regs) then None
      else if |bits| == HEADER + 1 then Some(false)
      else
        var regs := p.regs[AddrOf(bits)];
        if RegOf(bits) < |regs| then Some(Bit(regs[RegOf(bits)], FRAME - 1 - |bits|)) else None
  }

  /** A rising edge of MDC with the given level on MDIO. */
  function Clock(p: Phys, line: bool): Phys {
    match p.phase
    case Idle(n) =>
      if line then p.(phase := Idle(n + 1))
      else if n >= PREAMBLE then p.(phase := Frame([false]), preambles := p.preambles + [n])
      else p.(phase := Idle(0))
    case Frame(bits) =>
      var more := bits + [line];
      if |more| == 2 && !line then p.(phase := Idle(0))
      else if |more| < FRAME then p.(phase := Frame(more))
      else p.(phase := Idle(0), regs := Stored(p.regs, more))
  }

  function Written(regs: seq<nat>, r: nat, v: nat): seq<nat>
    requires r < |regs|
  {
    regs[r := v]
  }

  function Stored(regs: map<nat, seq<nat>>, bits: seq<bool>): map<nat, seq<nat>>
    requires |bits| >= FRAME
  {
    if !bits[2] && bits[3] && AddrOf(bits) in regs && RegOf(bits) < |regs[AddrOf(bits)]|
    then regs[AddrOf(bits) := Written(regs[AddrOf(bits)], RegOf(bits), Value(bits[16..32]))]
    else regs
  }

  function Clocks(p: Phys, lines: seq<bool>): Phys {
    if lines == [] then p else Clock(Clocks(p, lines[..|lines| - 1]), lines[|lines| - 1])
  }

  lemma ClocksThen(p: Phys, a: seq<bool>, b: bool)
    ensures Clocks(p, a + [b]) == Clock(Clocks(p, a), b)
  {
    assert (a + [b])[..|a|] == a;
  }

  function Ones(n: nat): seq<bool> {
    seq(n, _ => true)
  }

  lemma {:induction false} OnesCounted(p: Phys, n: nat)
    requires p.phase.Idle?
    ensures Clocks(p, Ones(n)) == p.(phase := Idle(p.phase.ones + n))
  {
    if n > 0 {
      OnesCounted(p, n - 1);
      assert Ones(n)[..n - 1] == Ones(n - 1);
    }
  }

  /** A long enough preamble and a start of frame open a frame, whatever the PHYs saw before. */
  lemma {:induction false} FrameOpens(p: Phys, n: nat, more: seq<bool>)
    requires p.phase.Idle? && p.phase.ones + n >= PREAMBLE && |more| < FRAME - 2
    ensures Clocks(p, Ones(n) + [false, true] + more)
            == p.(phase := Frame([false, true] + more), preambles := p.preambles + [p.phase.ones + n])
  {
    hide Clocks, Ones;
    if more == [] {
      OnesCounted(p, n);
      ClocksThen(p, Ones(n), false);
      ClocksThen(p, Ones(n) + [false], true);
      assert Ones(n) + [false, true] + more == Ones(n) + [false] + [true];
      assert [false] + [true] == [false, true] + more;
    } else {
      var k := |more| - 1;
      FrameOpens(p, n, more[..k]);
      assert more == more[..k] + [more[k]];
      ClocksThen(p, Ones(n) + [false, true] + more[..k], more[k]);
      assert Ones(n) + [false, true] + more == Ones(n) + [false, true] + more[..k] + [more[k]];
      assert [false, true] + more == [false, true] + more[..k] + [more[k]];
    }
  }

  // ---- the pins and the master -------------------------------------------------------------

  class Bus {
    var mdc: bool
    var mdio: bool
    var active: bool
    /** The level of MDIO when nobody drives it. */
    const pull: bool
    var phys: Phys

    function Line(): bool
      reads this
    {
      if active then mdio
      else
        match Drives(phys)
        case Some(d) => d
        case None => pull
    }

    /** Between transactions. MDC may be at either level. */
    ghost predicate Valid()
      reads this
    {
      phys.phase.Idle? && RegsOk(phys.regs)
    }

    constructor (mdc: bool, pull: bool, regs: map<nat, seq<nat>>, ones: nat)
      requires RegsOk(regs)
      ensures Valid() && phys == Phys(Idle(ones), regs, []) && this.pull == pull && this.mdc == mdc
    {
      this.mdc, mdio, active, this.pull := mdc, true, false, pull;
      phys := Phys(Idle(ones), regs, []);
    }

    method MdioSet(bit: bool)
      modifies this`mdio
      ensures mdio == bit
    {
      mdio := bit;
    }

    method MdcLo()
      modifies this`mdc
      ensures !mdc
    {
      mdc := false;
    }

    /** Raises MDC. The PHYs see an edge only if it was low. Master and PHY never drive the
        line together. */
    method MdcHi()
      requires !mdc && active ==> Drives(phys) == None
      modifies this`mdc, this`phys
      ensures mdc && phys == if old(mdc) then old(phys) else Clock(old(phys), old(Line()))
    {
      if !mdc {
        phys := Clock(phys, Line());
      }
      mdc := true;
    }

    method ClockOut(bit: bool)
      requires active && Drives(phys) == None
      modifies this`mdio, this`mdc, this`phys
      ensures !mdc && phys == if old(mdc) then old(phys) else Clock(old(phys), bit)
    {
      MdioSet(bit);
      MdcHi();
      MdcLo();
    }

    /** The loops that send an address: five bits of a byte that is shifted left. */
    method ClockFive(v: nat, ghost p: Phys, ghost sent: seq<bool>)
      requires v < 256 && active && !mdc && phys == Clocks(p, sent)
      requires forall b :: |b| < 5 ==> Drives(Clocks(p, sent + b)) == None
      modifies this`mdio, this`mdc, this`phys
      ensures !mdc && phys == Clocks(p, sent + BitsOf(v, 5))
    {
      hide Clocks, Clock, Drives, BitsOf, Bit, Pow2;
      PowBound(8);
      var shifted := v;
      ghost var all := BitsOf(v, 5);
      assert sent + all[..0] == sent;
      for i := 0 to 5
        invariant !mdc && phys == Clocks(p, sent + all[..i])
        invariant BitsOf(shifted, 5)[..5 - i] == all[i..]
      {
        ShiftLeft(shifted, 8, 5);
        RestNext(BitsOf(shifted, 5), all, i);
        assert Drives(Clocks(p, sent + all[..i])) == None;
        ClockOut(Bit(shifted, 4));
        SentNext(p, sent, all, i);
        shifted := 2 * shifted % 256;
      }
      assert all[..5] == all;
    }

    /** bitbang_pre: preamble, start, opcode and both addresses. If MDC was left high the first
        bit makes no edge, and the preamble has one bit less. */
    method BitbangPre(read: bool, addr: nat, reg: nat)
      requires Valid() && addr < 256 && reg < 256
      modifies this`mdio, this`mdc, this`active, this`phys
      ensures !mdc && active
      ensures phys == Opened(old(phys), if old(mdc) then 39 else 40, Header(read, addr, reg))
    {
      ghost var p, n := phys, if mdc then 39 else 40;
      active := true;
      for i := 0 to 40
        invariant active && mdc == (old(mdc) && i == 0)
        invariant phys == Clocks(p, Ones(if old(mdc) && i > 0 then i - 1 else i))
      {
        ghost var k := if old(mdc) && i > 0 then i - 1 else i;
        OnesCounted(p, k);
        OnesCounted(p, k + 1);
        ClockOut(true);
      }
      StartOpcode(p, n, read);
      SendAddresses(p, n, read, addr, reg);
    }

    method StartOpcode(ghost p: Phys, ghost n: nat, read: bool)
      requires p.phase.Idle? && n >= 39 && phys == Clocks(p, Ones(n)) && active && !mdc
      modifies this`mdio, this`mdc, this`phys
      ensures !mdc && phys == Clocks(p, Pre(n, [read, !read]))
    {
      OnesCounted(p, n);
      ClockOut(false);
      ClockOut(true);
      assert phys.phase.bits == [false, true];
      ClockOut(read);
      assert phys.phase.bits == [false, true, read];
      ClockOut(!read);
      assert phys.phase.bits == [false, true] + [read, !read];
      FrameOpens(p, n, [read, !read]);
    }

    method SendAddresses(ghost p: Phys, ghost n: nat, read: bool, addr: nat, reg: nat)
      requires p.phase.Idle? && n >= 39 && phys == Clocks(p, Pre(n, [read, !read])) && active && !mdc
      requires addr < 256 && reg < 256
      modifies this`mdio, this`mdc, this`phys
      ensures !mdc && phys == Opened(p, n, Header(read, addr, reg))
    {
      hide Clocks, Clock, Drives, BitsOf, Pre;
      ghost var op := [read, !read];
      Silent(p, n, op);
      ClockFive(addr, p, Pre(n, op));
      PreThen(n, op, BitsOf(addr, 5));
      op := op + BitsOf(addr, 5);
      Silent(p, n, op);
      ClockFive(reg, p, Pre(n, op));
      PreThen(n, op, BitsOf(reg, 5));
      op := op + BitsOf(reg, 5);
      PreOpens(p, n, op);
      assert [false, true] + op == Header(read, addr, reg);
    }

    /** gpio_mdio_read: what the addressed PHY has in the register, and all the pull-up's
        level if there is no such PHY. */
    method Read(phyId: nat, location: nat) returns (ret: nat)
      requires Valid()
      modifies this`mdio, this`mdc, this`active, this`phys
      ensures Valid() && phys.regs == old(phys.regs) && !mdc
      ensures ret == Reading(old(phys.regs), phyId % 32, location % 32, pull)
      ensures exists n :: n >= 39 && phys.preambles == old(phys.preambles) + [n]
    {
      ghost var p := phys;
      BitbangPre(true, phyId % 256, location % 256);
      ghost var q, h := phys, Header(true, phyId % 256, location % 256);
      HeaderDecodes(true, phyId, location);
      active := false;
      MdcHi();
      MdcLo();
      ret := ReadBits(q, h);
      MdcHi();
      MdcLo();
      assert q.preambles == p.preambles + [q.preambles[|p.preambles|]];
    }

    /** One data bit of a read: a clock, and a look at the line. */
    method ReadBit(ghost q: Phys, ghost h: seq<bool>, ghost bits: seq<bool>, ghost i: nat)
      returns (bit: bool, ghost more: seq<bool>)
      requires |h| == HEADER && h[2] && !h[3] && AddrOf(h) < 32 && RegOf(h) < 32
      requires i < 16 && |bits| == HEADER + 1 + i && bits[..HEADER] == h
      requires phys == q.(phase := Frame(bits)) && !active && !mdc
      modifies this`mdc, this`phys
      ensures !mdc && phys == q.(phase := Frame(more)) && |more| == |bits| + 1 && more[..HEADER] == h
      ensures bit == DataBits(q.regs, AddrOf(h), RegOf(h), pull)[i]
    {
      hide BitsOf, Pow2, Bit, DataBits, Drives;
      MdcLo();
      ghost var line := Line();
      MdcHi();
      more := bits + [line];
      assert more[..HEADER] == bits[..HEADER];
      MdcLo();
      DrivesData(phys, h, more, i, pull);
      bit := Line();
    }

    /** The sixteen data bits of a read. */
    method ReadBits(ghost q: Phys, ghost h: seq<bool>) returns (rdreg: nat)
      requires RegsOk(q.regs) && |h| == HEADER && h[2] && !h[3] && AddrOf(h) < 32 && RegOf(h) < 32
      requires phys == q.(phase := Frame(h + [pull])) && !active && !mdc
      modifies this`mdc, this`phys
      ensures !mdc && rdreg == Reading(q.regs, AddrOf(h), RegOf(h), pull)
      ensures phys.Phys? && phys.phase.Frame? && phys == q.(phase := Frame(phys.phase.bits))
      ensures |phys.phase.bits| == FRAME - 1 && phys.phase.bits[..HEADER] == h
    {
      hide Value, DataBits, Reading, Drives, RegsOk;
      NoBits();
      rdreg := 0;
      ghost var got, all := [], DataBits(q.regs, AddrOf(h), RegOf(h), pull);
      ghost var bits := h + [pull];
      for i := 0 to 16
        invariant !mdc && phys == q.(phase := Frame(bits)) && |bits| == HEADER + 1 + i && bits[..HEADER] == h
        invariant got == all[..i] && rdreg == Value(got)
      {
        var bit;
        bit, bits := ReadBit(q, h, bits, i);
        ShiftedIn(got, bit);
        got := got + [bit];
        rdreg := 2 * rdreg % 65536 + if bit then 1 else 0;
      }
      assert all[..16] == all;
      DataValue(q.regs, AddrOf(h), RegOf(h), pull);
    }

    /** gpio_mdio_write: puts the value into the register of the addressed PHY, if there is
        one, and changes nothing else. It leaves MDC high. */
    method Write(phyId: nat, location: nat, val: nat)
      requires Valid() && val < 65536
      modifies this`mdio, this`mdc, this`active, this`phys
      ensures Valid() && mdc
      ensures phys.regs == Updated(old(phys.regs), phyId % 32, location % 32, val)
      ensures exists n :: n >= 39 && phys.preambles == old(phys.preambles) + [n]
    {
      ghost var p := phys;
      BitbangPre(false, phyId % 256, location % 256);
      ghost var q, h := phys, Header(false, phyId % 256, location % 256);
      HeaderDecodes(false, phyId, location);
      MdcLo();
      MdioSet(true);
      MdcHi();
      MdcLo();
      MdioSet(false);
      MdcHi();
      assert phys.phase.bits == h + [true, false];
      WriteBits(q, h, val);
      active := false;
      MdcLo();
      MdcHi();
      assert q.preambles == p.preambles + [q.preambles[|p.preambles|]];
    }

    /** The sixteen data bits of a write. */
    method WriteBits(ghost q: Phys, ghost h: seq<bool>, val: nat)
      requires RegsOk(q.regs) && |h| == HEADER && !h[2] && h[3] && AddrOf(h) < 32 && RegOf(h) < 32 && val < 65536
      requires phys == q.(phase := Frame(h + [true, false])) && active && mdc
      modifies this`mdc, this`mdio, this`phys
      ensures mdc && phys.phase == Idle(0) && phys.preambles == q.preambles && RegsOk(phys.regs)
      ensures phys.regs == if AddrOf(h) in q.regs
                           then q.regs[AddrOf(h) := Written(q.regs[AddrOf(h)], RegOf(h), val)]
                           else q.regs
    {
      var value := val;
      hide BitsOf, Pow2, Bit, Value;
      PowBound(16);
      ghost var all, bits := BitsOf(val, 16), h + [true, false];
      for i := 0 to 16
        invariant mdc && |bits| == 16 + i && bits == h + [true, false] + all[..i]
        invariant phys == if i < 16 then q.(phase := Frame(bits))
                          else q.(phase := Idle(0), regs := Stored(q.regs, bits))
        invariant BitsOf(value, 16)[..16 - i] == all[i..]
      {
        ShiftLeft(value, 16, 16);
        RestNext(BitsOf(value, 16), all, i);
        MdcLo();
        MdioSet(Bit(value, 15));
        MdcHi();
        bits := bits + [all[i]];
        value := 2 * value % 65536;
      }
      assert bits[16..32] == all && bits[4..9] == h[4..9] && bits[9..14] == h[9..14];
      ValueOfBits(val, 16);
    }
  }

  function Updated(regs: map<nat, seq<nat>>, addr: nat, reg: nat, val: nat): map<nat, seq<nat>> {
    if addr in regs && reg < |regs[addr]| then regs[addr := Written(regs[addr], reg, val)] else regs
  }

  // ---- any sequence of transactions ----------------------------------------------------------

  datatype Transaction = ReadReg(phyId: nat, location: nat) | WriteReg(phyId: nat, location: nat, val: nat)

  function After(regs: map<nat, seq<nat>>, ts: seq<Transaction>): map<nat, seq<nat>> {
    if ts == [] then regs
    else
      var before, t := After(regs, ts[..|ts| - 1]), ts[|ts| - 1];
      if t.WriteReg? then Updated(before, t.phyId % 32, t.location % 32, t.val) else before
  }

  function Answers(regs: map<nat, seq<nat>>, ts: seq<Transaction>, pull: bool): seq<nat> {
    if ts == [] then []
    else
      var n := |ts| - 1;
      Answers(regs, ts[..n], pull)
      + if ts[n].ReadReg? then [Reading(After(regs, ts[..n]), ts[n].phyId % 32, ts[n].location % 32, pull)] else []
  }

  /** Whatever the transactions, every read returns what the register holds at that point,
      and every frame has a preamble of at least 39 ones. */
  method Transact(bus: Bus, ts: seq<Transaction>) returns (answers: seq<nat>)
    requires bus.Valid() && forall i :: 0 <= i < |ts| && ts[i].WriteReg? ==> ts[i].val < 65536
    modifies bus
    ensures bus.Valid() && bus.phys.regs == After(old(bus.phys.regs), ts)
    ensures answers == Answers(old(bus.phys.regs), ts, bus.pull)
    ensures |bus.phys.preambles| == |old(bus.phys.preambles)| + |ts|
    ensures forall i :: |old(bus.phys.preambles)| <= i < |bus.phys.preambles| ==> bus.phys.preambles[i] >= 39
  {
    answers := [];
    for i := 0 to |ts|
      invariant bus.Valid() && bus.phys.regs == After(old(bus.phys.regs), ts[..i])
      invariant answers == Answers(old(bus.phys.regs), ts[..i], bus.pull)
      invariant |bus.phys.preambles| == |old(bus.phys.preambles)| + i
      invariant forall j :: |old(bus.phys.preambles)| <= j < |bus.phys.preambles| ==> bus.phys.preambles[j] >= 39
    {
      assert ts[..i + 1][..i] == ts[..i];
      match ts[i]
      case ReadReg(p, l) =>
        var a := bus.Read(p, l);
        answers := answers + [a];
      case WriteReg(p, l, v) =>
        bus.Write(p, l, v);
    }
    assert ts[..|ts|] == ts;
  }

  /** A value written stays until the same register of the same PHY is written again, where
      addresses count modulo 32. */
  lemma {:induction false} WrittenStays(regs: map<nat, seq<nat>>, p: nat, l: nat, v: nat, ts: seq<Transaction>,
      pull: bool)
    requires RegsOk(regs) && p % 32 in regs
    requires forall i :: 0 <= i < |ts| && ts[i].WriteReg? ==>
             ts[i].phyId % 32 != p % 32 || ts[i].location % 32 != l % 32
    ensures Reading(After(regs, [WriteReg(p, l, v)] + ts), p % 32, l % 32, pull) == v
  {
    var all := [WriteReg(p, l, v)] + ts;
    if ts == [] {
      assert all[..0] == [];
    } else {
      var n := |ts| - 1;
      assert all[..|all| - 1] == [WriteReg(p, l, v)] + ts[..n] && all[|all| - 1] == ts[n];
      WrittenStays(regs, p, l, v, ts[..n], pull);
    }
  }

  /** What is left of `all` after i bits stands at the front of `word`. */
  lemma RestNext(word: seq<bool>, all: seq<bool>, i: nat)
    requires |word| == |all| && i < |all| && word[..|all| - i] == all[i..]
    ensures word[0] == all[i]
    ensures (word[1..] + [false])[..|all| - i - 1] == all[i + 1..]
  {
    assert all[i] == all[i..][0];
    assert (word[1..] + [false])[..|all| - i - 1] == word[..|all| - i][1..] == all[i..][1..];
  }

  lemma SentNext(p: Phys, sent: seq<bool>, all: seq<bool>, i: nat)
    requires i < |all|
    ensures Clocks(p, sent + all[..i + 1]) == Clock(Clocks(p, sent + all[..i]), all[i])
  {
    ClocksThen(p, sent + all[..i], all[i]);
    assert sent + all[..i + 1] == sent + all[..i] + [all[i]];
  }

  /** A preamble of n ones, the start of frame, and more. */
  function Pre(n: nat, more: seq<bool>): seq<bool> {
    Ones(n) + [false, true] + more
  }

  lemma PreOpens(p: Phys, n: nat, more: seq<bool>)
    requires p.phase.Idle? && n >= 39 && |more| < FRAME - 2
    ensures Clocks(p, Pre(n, more)) == Opened(p, n, [false, true] + more)
  {
    hide Clocks, Ones;
    FrameOpens(p, n, more);
  }

  lemma PreThen(n: nat, more: seq<bool>, b: seq<bool>)
    ensures Pre(n, more) + b == Pre(n, more + b)
  {
  }

  function Header(read: bool, addr: nat, reg: nat): (h: seq<bool>)
    ensures |h| == HEADER
  {
    [false, true, read, !read] + BitsOf(addr, 5) + BitsOf(reg, 5)
  }

  /** The PHYs after a preamble of which n bits come from this transaction, and a header. */
  function Opened(p: Phys, n: nat, h: seq<bool>): Phys
    requires p.phase.Idle?
  {
    p.(phase := Frame(h), preambles := p.preambles + [p.phase.ones + n])
  }

  /** No PHY drives the line before the turnaround. */
  lemma Silent(p: Phys, n: nat, more: seq<bool>)
    requires p.phase.Idle? && n >= 39 && |more| <= 7
    ensures forall b :: |b| < 5 ==> Drives(Clocks(p, Pre(n, more) + b)) == None
  {
    forall b: seq<bool> | |b| < 5
      ensures Drives(Clocks(p, Pre(n, more) + b)) == None
    {
      PreThen(n, more, b);
      FrameOpens(p, n, more + b);
    }
  }

  /** The PHYs recover the opcode, and both addresses modulo 32. */
  lemma HeaderDecodes(read: bool, phyId: nat, location: nat)
    ensures var h := Header(read, phyId % 256, location % 256);
            h[2] == read && h[3] == !read && AddrOf(h) == phyId % 32 && RegOf(h) == location % 32
  {
    hide BitsOf, Value, Pow2;
    var h := Header(read, phyId % 256, location % 256);
    assert h[4..9] == BitsOf(phyId % 256, 5) && h[9..14] == BitsOf(location % 256, 5);
    ValueOfBits(phyId % 256, 5);
    ValueOfBits(location % 256, 5);
    FiveBits(phyId);
    FiveBits(location);
  }

  lemma FiveBits(v: nat)
    ensures v % 256 % Pow2(5) == v % 32
  {
    assert Pow2(2) == 4 && Pow2(4) == 16;
  }

  function Reading(regs: map<nat, seq<nat>>, addr: nat, reg: nat, pull: bool): nat {
    if addr in regs && reg < |regs[addr]| then regs[addr][reg] else if pull then 65535 else 0
  }

  function DataBits(regs: map<nat, seq<nat>>, addr: nat, reg: nat, pull: bool): (b: seq<bool>)
    ensures |b| == 16
  {
    if addr in regs && reg < |regs[addr]| then BitsOf(regs[addr][reg], 16) else BitsOf(if pull then 65535 else 0, 16)
  }

  lemma DataValue(regs: map<nat, seq<nat>>, addr: nat, reg: nat, pull: bool)
    requires RegsOk(regs)
    ensures Value(DataBits(regs, addr, reg, pull)) == Reading(regs, addr, reg, pull)
  {
    hide BitsOf, Value, Pow2;
    ValueOfBits(Reading(regs, addr, reg, pull), 16);
    PowBound(16);
  }

  lemma PowBound(n: nat)
    requires n <= 16
    ensures Pow2(n) <= 65536 && Pow2(16) == 65536 && Pow2(8) == 256
  {
    assert Pow2(4) == 16 && Pow2(8) == 256 && Pow2(12) == 4096;
    if n < 16 {
      PowGrows(n, 16);
    }
  }

  lemma {:induction false} PowGrows(a: nat, b: nat)
    requires a <= b
    ensures Pow2(a) <= Pow2(b)
    decreases b
  {
    if a < b {
      PowGrows(a, b - 1);
    }
  }

  /** One more bit into a register of sixteen. */
  lemma ShiftedIn(got: seq<bool>, bit: bool)
    requires |got| < 16
    ensures Value(got + [bit]) == 2 * Value(got) % 65536 + if bit then 1 else 0
  {
    hide Pow2;
    ValueThen(got, bit);
    ValueBound(got + [bit]);
    PowBound(|got| + 1);
  }

  lemma NoBits()
    ensures Value([]) == 0
  {
  }

  lemma SameHeader(bits: seq<bool>, h: seq<bool>)
    requires |h| == HEADER <= |bits| && bits[..HEADER] == h
    ensures bits[2] == h[2] && bits[3] == h[3] && AddrOf(bits) == AddrOf(h) && RegOf(bits) == RegOf(h)
  {
    assert bits[4..9] == h[4..9] && bits[9..14] == h[9..14];
  }

  /** Between two edges the line holds the data bit that the next edge samples. */
  lemma DrivesData(p: Phys, h: seq<bool>, bits: seq<bool>, i: nat, pull: bool)
    requires i < 16 && |bits| == HEADER + 2 + i && p.phase == Frame(bits)
    requires |h| == HEADER && bits[..HEADER] == h && h[2] && !h[3]
    ensures (match Drives(p) case Some(d) => d case None => pull) == DataBits(p.regs, AddrOf(h), RegOf(h), pull)[i]
  {
    hide AddrOf, RegOf, Bit, BitsOf;
    SameHeader(bits, h);
    if AddrOf(h) in p.regs && RegOf(h) < |p.regs[AddrOf(h)]| {
      BitAt(p.regs[AddrOf(h)][RegOf(h)], 16, i);
    }
    Constant(i);
  }

  lemma Constant(i: nat)
    requires i < 16
    ensures BitsOf(65535, 16)[i] && !BitsOf(0, 16)[i]
  {
    AllOnes(16, i);
    AllZeros(16, i);
    PowBound(16);
  }

  lemma {:induction false} AllOnes(n: nat, i: nat)
    requires i < n
    ensures BitsOf(Pow2(n) - 1, n)[i]
  {
    if i < n - 1 {
      AllOnes(n - 1, i);
      assert (Pow2(n) - 1) / 2 == Pow2(n - 1) - 1;
    }
  }

  lemma {:induction false} AllZeros(n: nat, i: nat)
    requires i < n
    ensures !BitsOf(0, n)[i]
  {
    if i < n - 1 {
      AllZeros(n - 1, i);
    }
  }
}
