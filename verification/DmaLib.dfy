/**
 The number pools of dma_lib.c: DMA channels, flags and function engines. A number is taken
 without a lock: look for a set bit, then clear it atomically, and start over if somebody
 else was faster.
 */
module DmaLib {
  import opened Base

  const MAX_TXCH: nat := 64
  const MAX_FLAGS: nat := 64
  const MAX_FUN: nat := 8
  const WORD_BITS: nat := 64

  datatype ChannelType = EVT0 | EVT1 | AnyEvent

  /** What other callers do to the bitmap, one atomic step at a time. */
  datatype Move = Take(bit: nat) | Give(bit: nat)

  class Pool {
    const bits: array<bool>
    /** How many numbers there are. */
    const count: nat
    /** What the other callers do; they act finitely often, `pace` tells when. */
    const moves: seq<Move>
    const pace: nat -> nat
    var tick: nat
    var clock: nat
    /** Who holds the numbers that are not free. */
    var mine: set<nat>
    var others: set<nat>

    /** Every number is free, or this caller's, or another's, and only one of these. */
    ghost predicate Valid()
      reads this, bits
    {
      && bits.Length == WORD_BITS && count <= WORD_BITS && tick <= |moves| && mine !! others
      && (forall b :: b in mine ==> b < count) && (forall b :: b in others ==> b < count)
      && forall b :: 0 <= b < WORD_BITS ==> (bits[b] <==> b < count && b !in mine && b !in others)
    }

    /** Nothing free from start up to limit. */
    predicate NoneFree(start: nat, limit: nat)
      requires limit <= bits.Length
      reads this, bits
    {
      forall b :: start <= b < limit ==> !bits[b]
    }

    /** Initialisation: all numbers are free. */
    constructor (count: nat, moves: seq<Move>, pace: nat -> nat)
      requires count <= WORD_BITS
      ensures Valid() && mine == others == {} && this.count == count && this.moves == moves
      ensures fresh(bits)
    {
      this.count, this.moves, this.pace, tick, clock := count, moves, pace, 0, 0;
      bits := new bool[WORD_BITS](i => i < count);
      mine, others := {}, {};
    }

    /** One step of another caller, who follows the same rules. */
    method DoMove(mv: Move)
      requires Valid()
      modifies bits, this`others
      ensures Valid()
    {
      match mv
      case Take(b) =>
        if b < bits.Length && bits[b] {
          bits[b] := false;
          others := others + {b};
        }
      case Give(b) =>
        if b in others {
          bits[b] := true;
          others := others - {b};
        }
    }

    /** The other callers between two steps of this one. */
    method Meanwhile()
      requires Valid()
      modifies bits, this`others, this`tick, this`clock
      ensures Valid() && old(tick) <= tick
      ensures tick == old(tick) ==> bits[..] == old(bits[..]) && others == old(others)
    {
      var n := pace(clock);
      clock := clock + 1;
      while n > 0 && tick < |moves|
        invariant Valid() && old(tick) <= tick
        invariant tick == old(tick) ==> bits[..] == old(bits[..]) && others == old(others)
        decreases n
      {
        DoMove(moves[tick]);
        tick, n := tick + 1, n - 1;
      }
    }

    /** find_next_bit: the first set bit from start on, or size if there is none. */
    method FindNextBit(size: nat, start: nat) returns (bit: nat)
      requires size <= bits.Length
      ensures bit == size ==> NoneFree(start, size)
      ensures bit != size ==> start <= bit < size && bits[bit] && NoneFree(start, bit)
    {
      bit := start;
      while bit < size && !bits[bit]
        invariant start <= bit && NoneFree(start, if bit < size then bit else size)
        decreases size - bit
      {
        bit := bit + 1;
      }
      if bit > size {
        bit := size;
      }
    }

    /** test_and_clear_bit, one atomic step. */
    method TestAndClear(bit: nat) returns (was: bool)
      requires Valid() && bit < WORD_BITS
      modifies bits, this`mine
      ensures Valid() && was == old(bits[bit]) && mine == if was then old(mine) + {bit} else old(mine)
      ensures !was ==> bits[..] == old(bits[..])
    {
      was := bits[bit];
      if was {
        bits[bit] := false;
        mine := mine + {bit};
      }
    }

    /** Looks for a number from start on and takes it, starting over as long as others are
        faster. It returns a number below limit that nobody held, or none if at its last look
        none was free there. A retry means that another caller has moved, so it ends. */
    method Alloc(size: nat, start: nat, limit: nat) returns (r: Option<nat>)
      requires Valid() && limit <= size <= WORD_BITS
      modifies this`mine, this`others, this`tick, this`clock, bits
      ensures Valid()
      ensures r.Some? ==> start <= r.value < limit && r.value < count
                          && r.value !in old(mine) && r.value !in others && mine == old(mine) + {r.value}
      ensures r.None? ==> mine == old(mine) && NoneFree(start, limit)
    {
      while true
        invariant Valid() && mine == old(mine)
        decreases |moves| - tick
      {
        Meanwhile();
        var bit := FindNextBit(size, start);
        if bit >= limit {
          return None;
        }
        Meanwhile();
        var was := TestAndClear(bit);
        if was {
          return Some(bit);
        }
      }
    }

    /** Gives a number back. The check that it is not free never fails for one that is held. */
    method Release(bit: nat)
      requires Valid() && bit in mine
      modifies this`mine, this`others, this`tick, this`clock, bits
      ensures Valid() && mine == old(mine) - {bit}
    {
      Meanwhile();
      assert !bits[bit];
      bits[bit] := true;
      mine := mine - {bit};
    }
  }

  /** pasemi_alloc_tx_chan. */
  method AllocTxChan(pool: Pool, t: ChannelType) returns (r: Option<nat>)
    requires pool.Valid() && pool.count == MAX_TXCH
    modifies pool`mine, pool`others, pool`tick, pool`clock, pool.bits
    ensures pool.Valid()
    ensures r.Some? ==>
              r.value !in old(pool.mine) && r.value !in pool.others && pool.mine == old(pool.mine) + {r.value}
    ensures r.Some? ==>
            match t case EVT0 => r.value < 10 case EVT1 => 10 <= r.value < 64 case AnyEvent => r.value < 64
    ensures r.None? ==> pool.mine == old(pool.mine)
                        && match t
                           case EVT0 => pool.NoneFree(0, 10)
                           case EVT1 => pool.NoneFree(10, 64)
                           case AnyEvent => pool.NoneFree(0, 64)
  {
    var start, limit;
    match t {
      case EVT0 => start, limit := 0, 10;
      case EVT1 => start, limit := 10, MAX_TXCH;
      case AnyEvent => start, limit := 0, MAX_TXCH;
    }
    r := pool.Alloc(MAX_TXCH, start, limit);
  }

  /** pasemi_alloc_rx_chan and pasemi_dma_alloc_flag: any of 64. */
  method AllocFirst(pool: Pool) returns (r: Option<nat>)
    requires pool.Valid() && pool.count == MAX_FLAGS
    modifies pool`mine, pool`others, pool`tick, pool`clock, pool.bits
    ensures pool.Valid()
    ensures r.Some? ==> r.value < 64 && r.value !in old(pool.mine) && r.value !in pool.others
                        && pool.mine == old(pool.mine) + {r.value}
    ensures r.None? ==> pool.mine == old(pool.mine) && pool.NoneFree(0, 64)
  {
    r := pool.Alloc(MAX_FLAGS, 0, MAX_FLAGS);
  }

  /** pasemi_dma_alloc_fun searches as many bits as there are flags, but gets only one of the
      eight engines. */
  method AllocFun(pool: Pool) returns (r: Option<nat>)
    requires pool.Valid() && pool.count == MAX_FUN
    modifies pool`mine, pool`others, pool`tick, pool`clock, pool.bits
    ensures pool.Valid()
    ensures r.Some? ==> r.value < MAX_FUN && r.value !in old(pool.mine) && r.value !in pool.others
                        && pool.mine == old(pool.mine) + {r.value}
    ensures r.None? ==> pool.mine == old(pool.mine) && pool.NoneFree(0, MAX_FUN)
  {
    r := pool.Alloc(MAX_FLAGS, 0, MAX_FLAGS);
  }

  // ---- any number of callers ---------------------------------------------------------------

  /** Where a caller is: not allocating, about to look, or about to clear the bit it found. */
  datatype Caller = Outside | Looking(start: nat, limit: nat) | Trying(start: nat, limit: nat, bit: nat)

  datatype Sys = Sys(free: set<nat>, held: map<nat, set<nat>>, at: map<nat, Caller>) {
    function Held(t: nat): set<nat> { if t in held then held[t] else {} }
    function At(t: nat): Caller { if t in at then at[t] else Outside }
  }

  datatype Step =
    | Call(t: nat, start: nat, limit: nat) | Look(t: nat, bit: nat) | GiveUp(t: nat)
    | Try(t: nat) | Free(t: nat, bit: nat)

  /** The first free number from start on is bit. */
  ghost predicate FirstFree(free: set<nat>, start: nat, bit: nat) {
    start <= bit && bit in free && forall b :: start <= b < bit ==> b !in free
  }

  ghost predicate Enabled(s: Sys, step: Step) {
    match step
    case Call(t, _, _) => s.At(t).Outside?
    case Look(t, bit) => s.At(t).Looking? && FirstFree(s.free, s.At(t).start, bit) && bit < s.At(t).limit
    case GiveUp(t) => s.At(t).Looking? && forall b :: s.At(t).start <= b < s.At(t).limit ==> b !in s.free
    case Try(t) => s.At(t).Trying?
    case Free(t, bit) => s.At(t).Outside? && bit in s.Held(t)
  }

  ghost function Do(s: Sys, step: Step): Sys
    requires Enabled(s, step)
  {
    match step
    case Call(t, start, limit) => s.(at := s.at[t := Looking(start, limit)])
    case Look(t, bit) => s.(at := s.at[t := Trying(s.At(t).start, s.At(t).limit, bit)])
    case GiveUp(t) => s.(at := s.at[t := Outside])
    case Try(t) =>
      var bit := s.At(t).bit;
      if bit in s.free then Sys(s.free - {bit}, s.held[t := s.Held(t) + {bit}], s.at[t := Outside])
      else s.(at := s.at[t := Looking(s.At(t).start, s.At(t).limit)])
    case Free(t, bit) => Sys(s.free + {bit}, s.held[t := s.Held(t) - {bit}], s.at)
  }

  ghost function Run(s: Sys, steps: seq<Step>): Option<Sys>
    decreases |steps|
  {
    if steps == [] then Some(s)
    else if Enabled(s, steps[0]) then Run(Do(s, steps[0]), steps[1..])
    else None
  }

  /** What one caller holds is not free; what it is about to clear lies in its range and is
      not its own. */
  ghost predicate Fair(s: Sys, n: nat, t: nat) {
    && (forall b :: b in s.Held(t) ==> b < n && b !in s.free)
    && (s.At(t).Trying? ==>
          s.At(t).start <= s.At(t).bit < s.At(t).limit && s.At(t).bit < n && s.At(t).bit !in s.Held(t))
  }

  /** Free and held numbers partition the n there are. */
  ghost predicate Inv(s: Sys, n: nat) {
    && (forall b :: b in s.free ==> b < n)
    && (forall t :: Fair(s, n, t))
    && (forall t, t' :: t != t' ==> s.Held(t) !! s.Held(t'))
    && (forall b: nat :: b < n ==> b in s.free || exists t :: b in s.Held(t))
  }

  /** Only the caller that makes a step gains or loses a number, one at a time. */
  lemma StepHeld(s: Sys, step: Step)
    requires Enabled(s, step)
    ensures forall x: nat :: x != step.t ==> Do(s, step).Held(x) == s.Held(x) && Do(s, step).At(x) == s.At(x)
    ensures var s', h := Do(s, step), s.Held(step.t);
            && s'.Held(step.t) == (match step
                                   case Try(t) => if s.At(t).bit in s.free then h + {s.At(t).bit} else h
                                   case Free(_, bit) => h - {bit}
                                   case _ => h)
            && s'.free == (match step
                           case Try(t) => s.free - {s.At(t).bit}
                           case Free(_, bit) => s.free + {bit}
                           case _ => s.free)
  {
  }

  lemma StepInv(s: Sys, step: Step, n: nat)
    requires Inv(s, n) && Enabled(s, step)
    ensures Inv(Do(s, step), n)
  {
    var s', u := Do(s, step), step.t;
    StepHeld(s, step);
    assert Fair(s, n, u);
    forall t: nat
      ensures Fair(s', n, t)
    {
      assert Fair(s, n, t);
      assert t != u ==> s.Held(t) !! s.Held(u);
    }
    forall t: nat, t': nat | t != t'
      ensures s'.Held(t) !! s'.Held(t')
    {
      assert Fair(s, n, t) && Fair(s, n, t') && s.Held(t) !! s.Held(t');
    }
    forall b: nat | b < n
      ensures b in s'.free || exists t :: b in s'.Held(t)
    {
      if b !in s.free {
        var t :| b in s.Held(t);
        assert b in s'.free || b in s'.Held(t);
      } else if b !in s'.free {
        assert b in s'.Held(u);
      }
    }
  }

  lemma {:induction false} RunFrom(s: Sys, steps: seq<Step>, n: nat)
    requires Inv(s, n) && Run(s, steps).Some?
    ensures Inv(Run(s, steps).value, n)
    decreases |steps|
  {
    if steps != [] {
      StepInv(s, steps[0], n);
      RunFrom(Do(s, steps[0]), steps[1..], n);
    }
  }

  function Numbers(n: nat): (all: set<nat>)
    ensures forall b: nat :: b in all <==> b < n
  {
    if n == 0 then {} else Numbers(n - 1) + {n - 1}
  }

  /** After initialisation all n numbers are free and nobody is in a call. */
  function AllFree(n: nat): Sys {
    Sys(Numbers(n), map[], map[])
  }

  /** In every run of any number of callers, no number is ever held twice, and the free and the
      held ones are always exactly the n there are. */
  lemma RunInv(steps: seq<Step>, n: nat)
    requires Run(AllFree(n), steps).Some?
    ensures var s := Run(AllFree(n), steps).value;
            && Inv(s, n)
            && (forall t, t' :: t != t' ==> s.Held(t) !! s.Held(t'))
            && (forall t :: s.Held(t) !! s.free)
            && (forall b: nat :: b < n <==> b in s.free || exists t :: b in s.Held(t))
  {
    var start := AllFree(n);
    assert Inv(start, n) by {
      assert forall t :: start.Held(t) == {} && start.At(t) == Outside;
    }
    RunFrom(start, steps, n);
    var s := Run(start, steps).value;
    forall t
      ensures s.Held(t) !! s.free && forall b :: b in s.Held(t) ==> b < n
    {
      assert Fair(s, n, t);
    }
  }

  /** A successful attempt gives the caller a number of its range that nobody held; a failed
      one means that another caller holds the number it was after. */
  lemma TryOutcome(s: Sys, t: nat, n: nat)
    requires Inv(s, n) && Enabled(s, Try(t))
    ensures var c, s' := s.At(t), Do(s, Try(t));
            if c.bit in s.free
            then c.start <= c.bit < c.limit && s'.Held(t) == s.Held(t) + {c.bit} && forall t' :: c.bit !in s.Held(t')
            else s'.Held(t) == s.Held(t) && exists t' :: t' != t && c.bit in s.Held(t')
  {
    var c := s.At(t);
    assert Fair(s, n, t);
    if c.bit !in s.free {
      var t' :| c.bit in s.Held(t');
      assert t' != t;
    } else {
      forall t'
        ensures c.bit !in s.Held(t')
      {
        assert Fair(s, n, t');
      }
    }
  }
}
