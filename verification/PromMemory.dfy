/**
 Memory as the device tree flattener uses it: one region that grows in place, the few C
 string functions, and numbers and strings written one after another.
 */
module PromMemory {
  import opened Base
  import opened OpenFirmware
  import opened DeviceTree
  import opened FlatTree
  import opened StringTable
  import opened PromAlloc

  const PAGE_SIZE: nat := 0x1000
  const DEVTREE_CHUNK_SIZE: nat := 0x10_0000

  /** The regions follow one another without a gap, from lo to hi. */
  predicate Chain(rs: seq<Region>, lo: nat, hi: nat)
    decreases |rs|
  {
    if rs == [] then lo == hi
    else rs[|rs| - 1].End() == hi && Chain(rs[..|rs| - 1], lo, rs[|rs| - 1].base)
  }

  /** Nothing below lo differs. */
  predicate Below(b: Bytes, b': Bytes, lo: nat) {
    lo <= |b| == |b'| && b[..lo] == b'[..lo]
  }

  lemma BelowRefl(b: Bytes, lo: nat)
    requires lo <= |b|
    ensures Below(b, b, lo)
  {
  }

  lemma OutsideBelow(b: Bytes, b': Bytes, pos: nat, len: nat)
    requires Outside(b, b', pos, len)
    ensures Below(b, b', pos)
  {
  }

  lemma BelowLess(b: Bytes, b': Bytes, hi: nat, lo: nat)
    requires Below(b, b', hi) && lo <= hi
    ensures Below(b, b', lo)
  {
    Slice(b, 0, hi, 0, lo);
    Slice(b', 0, hi, 0, lo);
  }

  lemma BelowThen(b: Bytes, b': Bytes, b'': Bytes, lo: nat, hi: nat)
    requires Below(b, b', lo) && Below(b', b'', hi) && lo <= hi
    ensures Below(b, b'', lo)
  {
    BelowLess(b', b'', hi, lo);
  }

  lemma BelowSame(b: Bytes, b': Bytes, lo: nat, pos: nat, len: nat)
    requires Below(b, b', lo) && pos + len <= lo
    ensures Same(b, pos, b', pos, len)
  {
    Slice(b, 0, lo, pos, pos + len);
    Slice(b', 0, lo, pos, pos + len);
  }

  lemma NumberStays(b: Bytes, b': Bytes, lo: nat, pos: nat, v: nat)
    requires NumberAt(b, pos, v) && Below(b, b', lo) && pos + 4 <= lo
    ensures NumberAt(b', pos, v)
  {
    BelowSame(b, b', lo, pos, 4);
    MoveNumber(b, pos, b', pos, v);
  }

  lemma TextStays(b: Bytes, b': Bytes, lo: nat, pos: nat, s: Bytes)
    requires TextAt(b, pos, s) && Below(b, b', lo) && pos + |s| < lo
    ensures TextAt(b', pos, s)
  {
    BelowSame(b, b', lo, pos, |s| + 1);
    MoveText(b, pos, b', pos, s);
  }

  /** Only the len bytes at pos may differ. */
  predicate Outside(b: Bytes, b': Bytes, pos: nat, len: nat) {
    pos + len <= |b| == |b'| && b[..pos] == b'[..pos] && b[pos + len..] == b'[pos + len..]
  }

  lemma ChainThen(rs: seq<Region>, lo: nat, hi: nat, r: Region)
    requires Chain(rs, lo, hi) && r.base == hi
    ensures Chain(rs + [r], lo, r.End())
  {
    assert (rs + [r])[..|rs|] == rs;
  }

  lemma AlignedWord(w: nat)
    ensures AlignUp(4 * w, 4) == 4 * w
  {
    AlignedTimes(4 * w, w, 4);
  }

  lemma AlignedByte(x: nat)
    ensures AlignUp(x, 1) == x
  {
  }

  lemma AlignedTimes(x: nat, k: nat, a: nat)
    requires a == 4 && x == k * a
    ensures AlignUp(x, a) == x
  {
  }

  /** A C string the program holds: a literal or one in memory. */
  datatype Pointer = Literal(text: Bytes) | InRam(addr: nat)

  /** p points to s, and if that is in memory it lies below lo. */
  predicate PointsTo(b: Bytes, p: Pointer, s: Bytes, lo: nat) {
    match p
    case Literal(t) => t == s
    case InRam(a) => TextAt(b, a, s) && a + |s| < lo
  }

  class Memory {
    /** The 32-bit address space. */
    const ram: array<Byte>
    const mem: Allocator
    /** The region being filled: its first block, and where it starts. */
    ghost var first: nat
    ghost var base: nat

    /** The region is one piece up to `end`, which is where the allocator stands. */
    ghost predicate Contiguous(end: nat)
      reads this, mem
    {
      && ram.Length == TWO32 && mem.Valid() && mem.allocTop <= 0x3000_0000
      && end == mem.allocBottom <= mem.allocTop && first <= |mem.regions| && Chain(mem.regions[first..], base, end)
    }

    lemma EndsInRam(end: nat)
      requires Contiguous(end)
      ensures end <= 0x3000_0000 < ram.Length == TWO32
    {
    }

    constructor (ram: array<Byte>, mem: Allocator)
      ensures this.ram == ram && this.mem == mem
    {
      this.ram, this.mem := ram, mem;
    }

    /** No more can be claimed: there is no RAM, less than a page is left, or the firmware has
        just refused a claim. */
    predicate OutOfMemory()
      reads mem
    {
      || mem.ramTop == 0 || mem.allocTop < mem.allocBottom + PAGE_SIZE
      || (mem.asked > 0 && !mem.grants(mem.asked - 1))
    }

    /** make_room: aligns memStart, and claims more memory at the end of the region until the
        room is there. The region stays in one piece. */
    method MakeRoom(memStart: nat, memEnd: nat, needed: nat, align: nat)
      returns (status: Status, room: nat, start: nat, end: nat)
      requires Contiguous(memEnd) && align > 0
      modifies mem`allocBottom, mem`asked, mem`regions
      ensures status.Running? ==>
                && Contiguous(end) && memEnd <= end
                && room == AlignUp(memStart, align) && start == room + needed <= end
      ensures status.Running? && AlignUp(memStart, align) + needed <= memEnd ==>
                end == memEnd && mem.asked == old(mem.asked)
      ensures status.Panicked? ==> OutOfMemory() && AlignUp(memStart, align) + needed > mem.allocBottom
    {
      room, start, end, status := AlignUp(memStart, align), memStart, memEnd, Running;
      while room + needed > end
        invariant Contiguous(end) && memEnd <= end && room == AlignUp(memStart, align)
        invariant end > memEnd ==> room + needed > memEnd
        invariant end == memEnd ==> mem.asked == old(mem.asked)
        decreases mem.allocTop - end
      {
        var chunk;
        chunk, end :- Grow(end);
      }
      start := room + needed;
    }

    /** Claims the next chunk. */
    method Grow(memEnd: nat) returns (status: Status, chunk: nat, end: nat)
      requires Contiguous(memEnd)
      modifies mem`allocBottom, mem`asked, mem`regions
      ensures status.Running? ==> Contiguous(end) && chunk == memEnd < end
      ensures status.Panicked? ==> OutOfMemory() && mem.allocBottom == memEnd
    {
      var room := mem.allocTop - mem.allocBottom;
      if room > DEVTREE_CHUNK_SIZE {
        room := DEVTREE_CHUNK_SIZE;
      }
      if room < PAGE_SIZE {
        return Panicked, 0, 0;
      }
      ghost var rs := mem.regions;
      end := memEnd;
      chunk :- mem.AllocUp(room, 0);
      if chunk == 0 {
        return Panicked, 0, 0;
      }
      end := chunk + room;
      status := Running;
      ChainThen(rs[first..], base, memEnd, Region(chunk, room));
      assert mem.regions[first..] == rs[first..] + [Region(chunk, room)];
    }

    // ---- numbers --------------------------------------------------------------------------

    /** Stores a 32-bit number, most significant byte first. */
    method Put32(addr: nat, v: nat)
      requires addr + 4 <= ram.Length && v < TWO32
      modifies ram
      ensures NumberAt(ram[..], addr, v) && Outside(old(ram[..]), ram[..], addr, 4)
    {
      ram[addr], ram[addr + 1] := v / 0x100_0000 % 256, v / 0x1_0000 % 256;
      ram[addr + 2], ram[addr + 3] := v / 0x100 % 256, v % 256;
      assert ram[..][addr..addr + 4] == Be32(v);
      WrittenNumber(ram[..], addr, v);
    }

    /** dt_push_token. */
    method PushToken(v: nat, memStart: nat, memEnd: nat, ghost w: nat)
      returns (status: Status, start: nat, end: nat)
      requires Contiguous(memEnd) && memStart == 4 * w && v < TWO32 && memStart <= ram.Length
      modifies ram, mem`allocBottom, mem`asked, mem`regions
      ensures status.Running? ==>
                && Contiguous(end) && start == 4 * (w + 1) <= end
                && NumberAt(ram[..], 4 * w, v) && Below(old(ram[..]), ram[..], 4 * w)
      ensures status.Panicked? ==> OutOfMemory()
    {
      AlignedWord(w);
      var room;
      room, start, end :- MakeRoom(memStart, memEnd, 4, 4);
      status := Running;
      Put32(room, v);
    }

    // ---- C strings --------------------------------------------------------------------------

    /** prom_strlen. */
    method StrLen(a: nat, ghost s: Bytes) returns (n: nat)
      requires TextAt(ram[..], a, s)
      ensures n == |s|
    {
      n := 0;
      CharAt(ram[..], a, s, 0);
      while ram[a + n] != 0
        invariant n <= |s| && a + n < ram.Length && ram[a + n] == if n < |s| then s[n] else 0
        decreases |s| - n
      {
        n := n + 1;
        CharAt(ram[..], a, s, n);
      }
    }

    /** prom_strcmp of the string s at a with t. */
    method StrCmp(a: nat, t: Bytes, ghost s: Bytes) returns (r: int)
      requires TextAt(ram[..], a, s) && 0 !in t
      ensures r == 0 <==> s == t
    {
      var i := 0;
      while true
        invariant i <= |s| && i <= |t| && s[..i] == t[..i]
        decreases |s| - i
      {
        CharAt(ram[..], a, s, i);
        var c1, c2: Byte := ram[a + i], if i < |t| then t[i] else 0;
        if c1 != c2 {
          return if c1 < c2 then -1 else 1;
        }
        if c1 == 0 {
          assert s == s[..i] && t == t[..i];
          return 0;
        }
        i := i + 1;
      }
    }

    /** The string a pointer leads to, as the firmware reads it. */
    method ReadText(p: Pointer, ghost s: Bytes, ghost lo: nat) returns (t: Bytes)
      requires PointsTo(ram[..], p, s, lo)
      ensures t == s
    {
      match p
      case Literal(text) =>
        t := text;
      case InRam(a) =>
        var n := StrLen(a, s);
        t := ram[a..a + n];
    }

    /** The firmware, or memcpy, writes bytes to memory. */
    method CopyIn(addr: nat, s: Bytes)
      requires addr + |s| <= ram.Length
      modifies ram
      ensures ram[..][addr..addr + |s|] == s && Outside(old(ram[..]), ram[..], addr, |s|)
    {
      forall i | 0 <= i < |s| {
        ram[addr + i] := s[i];
      }
    }

    /** Writes a string with its terminator. */
    method CopyText(addr: nat, s: Bytes)
      requires addr + |s| < ram.Length && 0 !in s
      modifies ram
      ensures TextAt(ram[..], addr, s) && Outside(old(ram[..]), ram[..], addr, |s| + 1)
    {
      CopyIn(addr, s + [0]);
      ghost var b := ram[..];
      assert b[addr..addr + |s|] == (s + [0])[..|s|] == s;
      assert b[addr + |s|] == (s + [0])[|s|];
    }

    /** The loop that cuts a path of l bytes at namep down to its last component, in place:
        each slash starts over, and NULs are skipped. */
    method CompactPath(namep: nat, l: nat, ghost path: Bytes) returns (lp: nat)
      requires namep + l < ram.Length && |path| == l && ram[..][namep..namep + l] == path
      modifies ram
      ensures lp == namep + |Component(path)| <= namep + l
      ensures TextAt(ram[..], namep, Component(path)) && Below(old(ram[..]), ram[..], namep)
    {
      hide Component, TextAt, Below;
      lp := namep;
      var p := namep;
      BelowRefl(ram[..], namep);
      NoComponent(path);
      while p < namep + l
        invariant namep <= lp <= p <= namep + l
        invariant Compacting(ram[..], namep, lp, p, path)
        invariant Below(old(ram[..]), ram[..], namep)
      {
        ghost var b := ram[..];
        ComponentStep(path, p - namep);
        assert ram[p] == path[p - namep];
        var c := ram[p];
        if c == SLASH {
          lp := namep;
        } else if c != 0 {
          ram[lp] := c;
          assert ram[..] == b[lp := c];
          OneKept(old(ram[..]), b, namep, lp, p, path, c);
          lp := lp + 1;
        }
        p := p + 1;
      }
      ghost var b := ram[..];
      ram[lp] := 0;
      assert ram[..] == b[lp := 0];
      Terminated(old(ram[..]), b, namep, lp, path);
    }
  }

  /** The component of the first p - namep bytes of the path stands in front, what is still to
      come is untouched. */
  predicate Compacting(b: Bytes, namep: nat, lp: nat, p: nat, path: Bytes) {
    && namep <= lp <= p <= namep + |path| <= |b|
    && b[namep..lp] == Component(path[..p - namep])
    && forall k :: p <= k < namep + |path| ==> b[k] == path[k - namep]
  }

  lemma NoComponent(path: Bytes)
    ensures Component(path[..0]) == []
  {
  }

  lemma OneKept(b0: Bytes, b: Bytes, namep: nat, lp: nat, p: nat, path: Bytes, c: Byte)
    requires Compacting(b, namep, lp, p, path) && p < namep + |path| && Below(b0, b, namep)
    requires Component(path[..p - namep + 1]) == Component(path[..p - namep]) + [c]
    ensures Compacting(b[lp := c], namep, lp + 1, p + 1, path) && Below(b0, b[lp := c], namep)
  {
    hide Component;
    assert b[lp := c][namep..lp + 1] == b[namep..lp] + [c];
  }

  lemma Terminated(b0: Bytes, b: Bytes, namep: nat, lp: nat, path: Bytes)
    requires Compacting(b, namep, lp, namep + |path|, path) && lp < |b| && Below(b0, b, namep)
    ensures TextAt(b[lp := 0], namep, Component(path)) && Below(b0, b[lp := 0], namep)
    ensures lp == namep + |Component(path)|
  {
    hide Component;
    assert path[..|path|] == path;
    assert b[lp := 0][namep..lp] == b[namep..lp];
  }

  lemma CharAt(b: Bytes, a: nat, s: Bytes, i: nat)
    requires TextAt(b, a, s) && i <= |s|
    ensures a + i < |b| && b[a + i] == if i < |s| then s[i] else 0
    ensures (i < |s| ==> s[i] != 0) && 0 !in s
  {
    if i < |s| {
      assert s[i] == b[a..a + |s|][i];
    }
  }
}
