/**
 flatten_device_tree and the two passes over the firmware's tree: the first collects the
 property names, the second prints the nodes.
 */
module PromFlatten {
  import opened Base
  import opened OpenFirmware
  import opened DeviceTree
  import opened FlatTree
  import opened PromAlloc
  import opened PromMemory
  import opened StringTable

  class Flattener {
    const fw: Firmware
    const m: Memory
    var dtHeaderStart: nat
    var dtStringStart: nat
    var dtStringEnd: nat
    var dtStructStart: nat
    var dtStructEnd: nat

    constructor (fw: Firmware, m: Memory)
      ensures this.fw == fw && this.m == m && dtStringEnd == 0
    {
      this.fw, this.m := fw, m;
      dtHeaderStart, dtStringStart, dtStringEnd, dtStructStart, dtStructEnd := 0, 0, 0, 0, 0;
    }

    /** dt_find_string: walks the strings from the first to the end of the table. */
    method FindString(str: Bytes, ghost names: seq<Bytes>) returns (soff: nat)
      requires TableAt(m.ram[..], dtStringStart + 4, names) && 0 !in str
      requires dtStringEnd == dtStringStart + 4 + TableSize(names) || (names == [] && dtStringEnd == 0)
      ensures soff == Find(names, str)
    {
      var s := dtStringStart + 4;
      ghost var rest := names;
      while s < dtStringEnd
        invariant dtStringStart + 4 <= s && TableAt(m.ram[..], s, rest)
        invariant dtStringEnd == s + TableSize(rest) || (rest == [] && dtStringEnd == 0)
        invariant Find(names, str) == FindFrom(rest, str, s - dtStringStart)
        decreases |rest|
      {
        var r := m.StrCmp(s, str, rest[0]);
        if r == 0 {
          return s - dtStringStart;
        }
        var n := m.StrLen(s, rest[0]);
        s := s + n + 1;
        rest := rest[1..];
      }
      return 0;
    }

    // ---- the first pass ---------------------------------------------------------------------

    /** The table in memory is `st`, and the next string goes to memStart. */
    ghost predicate Collecting(st: Strings, memStart: nat)
      reads this, m.ram
    {
      && TableAt(m.ram[..], dtStringStart + 4, st.names)
      && memStart == dtStringStart + 4 + TableSize(st.names)
      && dtStringEnd == if st.open then memStart else 0
    }

    lemma TableStays(b: Bytes, b': Bytes, pos: nat, names: seq<Bytes>, lo: nat)
      requires TableAt(b, pos, names) && Below(b, b', lo) && pos + TableSize(names) <= lo
      ensures TableAt(b', pos, names)
    {
      BelowSame(b, b', lo, pos, TableSize(names));
      MoveTable(b, pos, b', pos, names);
    }

    /** The i-th turn of the loop over the properties: fetches the next name into fresh room,
        and keeps it there only if it is new. */
    method StoreNext(node: nat, prev: Pointer, memStart: nat, memEnd: nat,
                     ghost ps: seq<Property>, ghost i: nat, ghost st: Strings)
      returns (status: Status, more: bool, last: Pointer, start: nat, end: nat)
      requires m.Contiguous(memEnd) && Collecting(st, memStart)
      requires fw.Props(node) == ps && PropsOk(ps) && i <= |ps|
      requires PointsTo(m.ram[..], prev, Before(ps, i), memStart)
      modifies m.ram, m.mem`allocBottom, m.mem`asked, m.mem`regions, this`dtStringEnd
      ensures status.Running? ==> m.Contiguous(end) && start <= end && (more <==> i < |ps|)
      ensures status.Running? && !more ==> Collecting(st, start)
      ensures status.Running? && more ==>
                Collecting(Intern(st, ps[i].name), start) && PointsTo(m.ram[..], last, ps[i].name, start)
      ensures status.Panicked? ==> m.OutOfMemory()
    {
      hide Memory.OutOfMemory, TableAt, TextAt, NextName, Intern, Chain, Packed;
      var namep;
      start, last, more := memStart, prev, false;
      namep, start, end :- m.MakeRoom(memStart, memEnd, MAX_PROPERTY_NAME, 1);
      status := Running;
      AlignedByte(memStart);
      var text := m.ReadText(prev, Before(ps, i), memStart);
      Next(ps, i);
      var next := NextName(fw.Props(node), text);
      if next == None {
        start := namep;
        return;
      }
      more := true;
      ghost var b := m.ram[..];
      m.CopyText(namep, next.value);
      TableStays(b, m.ram[..], dtStringStart + 4, st.names, memStart);
      start, last := KeepName(namep, next.value, st);
    }

    /** What happens to the name just fetched to namep. */
    method KeepName(namep: nat, name: Bytes, ghost st: Strings) returns (start: nat, last: Pointer)
      requires Collecting(st, namep) && TextAt(m.ram[..], namep, name)
      modifies this`dtStringEnd
      ensures Collecting(Intern(st, name), start) && PointsTo(m.ram[..], last, name, start)
      ensures start <= namep + |name| + 1
    {
      hide FindFrom, TextAt, Chain, Packed;
      CharAt(m.ram[..], namep, name, |name|);
      var r := m.StrCmp(namep, NAME, name);
      if r == 0 {
        return namep, Literal(NAME);
      }
      var soff := FindString(name, st.Visible());
      FoundText(m.ram[..], dtStringStart, st.Visible(), name, 4);
      if soff != 0 {
        return namep, InRam(dtStringStart + soff);
      }
      TableThen(m.ram[..], dtStringStart + 4, st.names, name);
      var n := m.StrLen(namep, name);
      dtStringEnd := namep + n + 1;
      return namep + n + 1, InRam(namep);
    }

    /** The loop over the properties of one node. */
    method StoreNames(node: nat, memStart: nat, memEnd: nat, ghost ps: seq<Property>, ghost st: Strings)
      returns (status: Status, start: nat, end: nat)
      requires m.Contiguous(memEnd) && Collecting(st, memStart) && memStart <= memEnd
      requires fw.Props(node) == ps && PropsOk(ps)
      modifies m.ram, m.mem`allocBottom, m.mem`asked, m.mem`regions, this`dtStringEnd
      ensures status.Running? ==> m.Contiguous(end) && Collecting(InternAll(st, ps), start) && start <= end
      ensures status.Panicked? ==> m.OutOfMemory()
    {
      hide Memory.OutOfMemory, TableAt, TextAt, TableSize, Chain, Packed, PropsOk;
      start, end, status := memStart, memEnd, Running;
      var prev, more := Literal([]), true;
      ghost var i := 0;
      while more
        invariant i <= |ps| && m.Contiguous(end) && Collecting(InternAll(st, ps[..i]), start) && start <= end
        invariant if more then PointsTo(m.ram[..], prev, Before(ps, i), start) else i == |ps|
        decreases |ps| - i, more
      {
        more, prev, start, end :- StoreNext(node, prev, start, end, ps, i, InternAll(st, ps[..i]));
        if more {
          assert ps[..i + 1][..i] == ps[..i];
          i := i + 1;
        }
      }
      assert ps[..i] == ps;
    }

    /** scan_dt_build_strings: stores every name of the subtree that is not stored yet. */
    method ScanStrings(node: nat, memStart: nat, memEnd: nat,
                       ghost up: nat, ghost next: nat, ghost t: Tree, ghost st: Strings)
      returns (status: Status, start: nat, end: nat)
      requires m.Contiguous(memEnd) && Collecting(st, memStart) && memStart <= memEnd
      requires HasTree(fw, up, next, t) && t.handle == node && TreeOk(t)
      modifies m.ram, m.mem`allocBottom, m.mem`asked, m.mem`regions, this`dtStringEnd
      ensures status.Running? ==> m.Contiguous(end) && Collecting(Scan(st, t), start) && start <= end
      ensures status.Panicked? ==> m.OutOfMemory()
      decreases t
    {
      start, end :- StoreNames(node, memStart, memEnd, t.props, st);
      status := Running;
      var child := fw.Child(node);
      ghost var ts, cur := t.kids, InternAll(st, t.props);
      while child != 0
        invariant HasTrees(fw, node, ts) && TreesOk(ts) && child == First(ts)
        invariant forall k :: 0 <= k < |ts| ==> ts[k] < t
        invariant m.Contiguous(end) && Collecting(cur, start) && start <= end && Scan(st, t) == ScanAll(cur, ts)
        decreases |ts|
      {
        start, end :- ScanStrings(child, start, end, node, First(ts[1..]), ts[0], cur);
        cur, ts := Scan(cur, ts[0]), ts[1..];
        child := fw.Peer(child);
      }
      FirstIsNode(fw, node, ts);
    }

    // ---- the second pass --------------------------------------------------------------------

    /** The finished table, whose bytes are `strings`. */
    ghost predicate Ready(strings: Bytes, names: seq<Bytes>)
      reads this, m.ram
    {
      Tabled(m.ram[..], dtStringStart, dtStringEnd, strings, names)
    }

    /** Asks for the node's path. The first call may get only part of it into the room left;
        if so it is asked for again, in more room if need be. */
    method FetchPath(node: nat, memStart: nat, memEnd: nat) returns (status: Status, l: nat, end: nat)
      requires m.Contiguous(memEnd) && memStart <= memEnd
      modifies m.ram, m.mem`allocBottom, m.mem`asked, m.mem`regions
      ensures status.Running? ==>
                && m.Contiguous(end) && l == |fw.Path(node)| && memStart + l < end
                && m.ram[..][memStart..memStart + l] == fw.Path(node)
                && Below(old(m.ram[..]), m.ram[..], memStart)
      ensures status.Panicked? ==> m.OutOfMemory()
    {
      hide Memory.Contiguous, Memory.OutOfMemory, Below, Outside;
      var room := memEnd - memStart;
      if room > 255 {
        room := 255;
      }
      ghost var b := m.ram[..];
      status, end := Running, memEnd;
      l := |fw.Path(node)|;
      m.EndsInRam(memEnd);
      var got := if l < room then l else room;
      m.CopyIn(memStart, fw.Path(node)[..got]);
      OutsideBelow(b, m.ram[..], memStart, got);
      if l >= room {
        if l >= memEnd - memStart {
          var _, _, e :- m.MakeRoom(memStart, memEnd, l + 1, 1);
          AlignedByte(memStart);
          end := e;
        }
        m.EndsInRam(end);
        ghost var b' := m.ram[..];
        m.CopyIn(memStart, fw.Path(node));
        OutsideBelow(b', m.ram[..], memStart, l);
        BelowThen(b, b', m.ram[..], memStart, memStart);
      } else {
        assert fw.Path(node)[..l] == fw.Path(node);
      }
    }

    /** The token and the name of a node. */
    method PrintHead(node: nat, memStart: nat, memEnd: nat, ghost w: nat)
      returns (status: Status, start: nat, end: nat)
      requires m.Contiguous(memEnd) && memStart == 4 * w <= m.ram.Length
      modifies m.ram, m.mem`allocBottom, m.mem`asked, m.mem`regions
      ensures status.Running? ==>
                var name := Component(fw.Path(node));
                && m.Contiguous(end) && start == 4 * (w + HeadSize(name)) <= m.ram.Length
                && HeadAt(m.ram[..], w, name) && Below(old(m.ram[..]), m.ram[..], 4 * w)
      ensures status.Panicked? ==> m.OutOfMemory()
    {
      hide Memory.OutOfMemory, Word32, Same, Chain, Packed, Component;
      ghost var b0, path := m.ram[..], fw.Path(node);
      start, end :- m.PushToken(FDT_BEGIN_NODE, memStart, memEnd, w);
      ghost var b1 := m.ram[..];
      var l;
      l, end :- FetchPath(node, start, end);
      ghost var b2 := m.ram[..];
      var lp := m.CompactPath(start, l, path);
      BelowThen(b1, b2, m.ram[..], 4 * w + 4, 4 * w + 4);
      BelowThen(b0, b1, m.ram[..], 4 * w, 4 * w + 4);
      NumberStays(b1, m.ram[..], 4 * w + 4, 4 * w, FDT_BEGIN_NODE);
      UpFrom(w + 1, |Component(path)| + 1);
      start, status := Up4(lp + 1), Running;
    }

    /** What goes before the value of a property: token, length, offset of its name. */
    method PrintPropHead(soff: nat, len: nat, memStart: nat, memEnd: nat, ghost w: nat)
      returns (status: Status, start: nat, end: nat)
      requires m.Contiguous(memEnd) && memStart == 4 * w <= m.ram.Length && len < TWO32 && soff < TWO32
      modifies m.ram, m.mem`allocBottom, m.mem`asked, m.mem`regions
      ensures status.Running? ==>
                && m.Contiguous(end) && start == 4 * (w + 3) <= end
                && PropHeadAt(m.ram[..], w, len, soff) && Below(old(m.ram[..]), m.ram[..], 4 * w)
      ensures status.Panicked? ==> m.OutOfMemory()
    {
      hide Memory.Contiguous, Memory.OutOfMemory, NumberAt, Below, PropHeadAt;
      ghost var b0 := m.ram[..];
      start, end :- m.PushToken(FDT_PROP, memStart, memEnd, w);
      m.EndsInRam(end);
      ghost var b1 := m.ram[..];
      start, end :- m.PushToken(len, start, end, w + 1);
      m.EndsInRam(end);
      ghost var b2 := m.ram[..];
      start, end :- m.PushToken(soff, start, end, w + 2);
      status := Running;
      ThreeNumbers(b0, b1, b2, m.ram[..], w, len, soff);
    }

    /** One property: token, length, offset of its name, value. */
    method PrintProp(soff: nat, value: Bytes, memStart: nat, memEnd: nat, ghost w: nat, ghost strings: Bytes,
        ghost p: Prop)
      returns (status: Status, start: nat, end: nat)
      requires m.Contiguous(memEnd) && memStart == 4 * w <= m.ram.Length
      requires p.value == value && |value| < TWO32 && soff < TWO32 && Text(strings, soff) == Some(p.name)
      modifies m.ram, m.mem`allocBottom, m.mem`asked, m.mem`regions
      ensures status.Running? ==>
                && m.Contiguous(end) && start == 4 * (w + PropSize(p)) <= m.ram.Length
                && PropAt(m.ram[..], strings, w, p) && Below(old(m.ram[..]), m.ram[..], 4 * w)
      ensures status.Panicked? ==> m.OutOfMemory()
    {
      hide Memory.Contiguous, Memory.OutOfMemory, PropAt, PropHeadAt, Text, Below, Outside, AlignUp, Words, Up4;
      ghost var b0 := m.ram[..];
      start, end :- PrintPropHead(soff, |value|, memStart, memEnd, w);
      ghost var b := m.ram[..];
      var valp;
      valp, start, end :- m.MakeRoom(start, end, |value|, 4);
      m.EndsInRam(end);
      AlignedWord(w + 3);
      m.CopyIn(valp, value);
      PropPrinted(b0, b, m.ram[..], w, soff, strings, p);
      UpFrom(w + 3, |value|);
      start, status := Up4(start), Running;
    }

    /** The i-th property, whose name is in the table, unless it has no length. */
    method PrintValued(node: nat, soff: nat, name: Bytes, memStart: nat, memEnd: nat, ghost w: nat,
                       ghost strings: Bytes, ghost ps: seq<Property>, ghost i: nat)
      returns (status: Status, phandle: bool, start: nat, end: nat)
      requires m.Contiguous(memEnd) && memStart == 4 * w <= m.ram.Length
      requires fw.Props(node) == ps && PropsOk(ps) && i < |ps| && name == ps[i].name != NAME
      requires Text(strings, soff) == Some(name) && soff < TWO32
      requires PointsTo(m.ram[..], InRam(dtStringStart + soff), name, dtStringEnd) && dtStringEnd <= memStart
      modifies m.ram, m.mem`allocBottom, m.mem`asked, m.mem`regions
      ensures status.Running? ==>
                && m.Contiguous(end) && Below(old(m.ram[..]), m.ram[..], 4 * w) && start <= m.ram.Length
                && PointsTo(m.ram[..], InRam(dtStringStart + soff), name, dtStringEnd)
      ensures status.Running? && !IsKept(ps[i]) ==> start == memStart && !phandle
      ensures status.Running? && IsKept(ps[i]) ==>
                var p := Prop(ps[i].name, ps[i].value.value);
                && start == 4 * (w + PropSize(p)) && PropAt(m.ram[..], strings, w, p)
                && (phandle <==> p.name == PHANDLE)
      ensures status.Panicked? ==> m.OutOfMemory()
    {
      hide Memory.Contiguous, Memory.OutOfMemory, TextAt, PropAt, Text, Below, PropSize;
      BelowRefl(m.ram[..], 4 * w);
      status, phandle, start, end := Running, false, memStart, memEnd;
      ValueAt(ps, i);
      var l := ValueOf(fw.Props(node), name);
      if l == None {
        return;
      }
      ghost var b := m.ram[..];
      start, end :- PrintProp(soff, l.value, start, end, w, strings, Prop(name, l.value));
      TextStaysBelow(b, m.ram[..], memStart, dtStringStart + soff, name, dtStringEnd);
      phandle := name == PHANDLE;
    }

    /** The i-th turn of the loop over the properties: it ends the loop after the last one, or
        at a name that is not in the table; it skips "name" and properties without a length. */
    method PrintNext(node: nat, prev: Pointer, memStart: nat, memEnd: nat, ghost w: nat,
                     ghost strings: Bytes, ghost names: seq<Bytes>, ghost ps: seq<Property>, ghost i: nat)
      returns (status: Status, more: bool, last: Pointer, phandle: bool, start: nat, end: nat)
      requires m.Contiguous(memEnd) && memStart == 4 * w <= m.ram.Length
      requires Ready(strings, names) && dtStringEnd <= memStart
      requires fw.Props(node) == ps && PropsOk(ps) && i <= |ps|
      requires PointsTo(m.ram[..], prev, Before(ps, i), dtStringEnd)
      modifies m.ram, m.mem`allocBottom, m.mem`asked, m.mem`regions
      ensures status.Running? ==>
                && m.Contiguous(end) && Below(old(m.ram[..]), m.ram[..], 4 * w) && start <= m.ram.Length
                && (more <==> i < |ps| && (ps[i].name == NAME || ps[i].name in names))
      ensures status.Running? && more ==> PointsTo(m.ram[..], last, ps[i].name, dtStringEnd)
      ensures status.Running? && !(more && IsKept(ps[i])) ==> start == memStart && !phandle
      ensures status.Running? && more && IsKept(ps[i]) ==>
                var p := Prop(ps[i].name, ps[i].value.value);
                && start == 4 * (w + PropSize(p)) && PropAt(m.ram[..], strings, w, p)
                && (phandle <==> p.name == PHANDLE)
      ensures status.Panicked? ==> m.OutOfMemory()
    {
      hide Memory.Contiguous, Memory.OutOfMemory, TableAt, TextAt, PropAt, NextName, FindFrom, Text, Below, PropSize;
      BelowRefl(m.ram[..], 4 * w);
      status, more, last, phandle, start, end := Running, false, prev, false, memStart, memEnd;
      var text := m.ReadText(prev, Before(ps, i), dtStringEnd);
      Next(ps, i);
      var pname := NextName(fw.Props(node), text);
      if pname == None {
        return;
      }
      if pname.value == NAME {
        more, last := true, Literal(NAME);
        return;
      }
      var soff := FindString(pname.value, names);
      FoundText(m.ram[..], dtStringStart, names, pname.value, 4);
      if soff == 0 {
        return;
      }
      NameInTable(m.ram[..], dtStringStart, dtStringEnd, strings, names, pname.value);
      more, last := true, InRam(dtStringStart + soff);
      phandle, start, end :- PrintValued(node, soff, pname.value, start, end, w, strings, ps, i);
    }

    /** The loop over the properties of one node. */
    method PrintProps(node: nat, memStart: nat, memEnd: nat, ghost w: nat,
                      ghost strings: Bytes, ghost names: seq<Bytes>, ghost ps: seq<Property>)
      returns (status: Status, phandle: bool, start: nat, end: nat)
      requires m.Contiguous(memEnd) && memStart == 4 * w <= m.ram.Length
      requires Ready(strings, names) && dtStringEnd <= memStart
      requires fw.Props(node) == ps && PropsOk(ps) && CoversProps(names, ps)
      modifies m.ram, m.mem`allocBottom, m.mem`asked, m.mem`regions
      ensures status.Running? ==>
                && m.Contiguous(end) && Below(old(m.ram[..]), m.ram[..], 4 * w)
                && start == 4 * (w + PropsSize(Kept(ps))) <= m.ram.Length && PropsAt(m.ram[..], strings, w, Kept(ps))
                && (phandle <==> HasProp(Kept(ps), PHANDLE))
      ensures status.Panicked? ==> m.OutOfMemory()
    {
      hide Memory.Contiguous, Memory.OutOfMemory, TableAt, TextAt, PropAt, PropsAt, PropsOk, Chain, Packed, Tabled,
          Same, Kept, Below, PropsSize, HasProp, IsKept, PropSize;
      m.EndsInRam(memEnd);
      BelowRefl(m.ram[..], 4 * w);
      status, phandle, start, end := Running, false, memStart, memEnd;
      var prev, more := Literal([]), true;
      ghost var i, ks := 0, [];
      NothingKept(ps, m.ram[..], strings, w);
      while more
        invariant i <= |ps| && ks == Kept(ps[..i]) && (!more ==> i == |ps|)
        invariant m.Contiguous(end) && Below(old(m.ram[..]), m.ram[..], 4 * w)
        invariant start == 4 * (w + PropsSize(ks)) <= m.ram.Length && PropsAt(m.ram[..], strings, w, ks)
        invariant phandle <==> HasProp(ks, PHANDLE)
        invariant Ready(strings, names)
        invariant more ==> PointsTo(m.ram[..], prev, Before(ps, i), dtStringEnd)
        decreases |ps| - i, more
      {
        ghost var b, v := m.ram[..], w + PropsSize(ks);
        var found;
        more, prev, found, start, end :- PrintNext(node, prev, start, end, v, strings, names, ps, i);
        PropsStay(old(m.ram[..]), b, m.ram[..], strings, w, ks);
        TabledStays(b, m.ram[..], 4 * v, dtStringStart, dtStringEnd, strings, names);
        if more {
          KeptStep(ps, i);
          if IsKept(ps[i]) {
            ghost var p := KeptProp(ps[i]);
            PropsThen(m.ram[..], strings, w, ks, p);
            HasPropThen(ks, p, PHANDLE);
            ks := ks + [p];
          }
          phandle := phandle || found;
          i := i + 1;
        }
      }
      assert ps[..i] == ps;
    }

    /** Adds a phandle if the node has none. */
    method PrintPhandle(node: nat, phandle: bool, memStart: nat, memEnd: nat, ghost w: nat,
                        ghost strings: Bytes, ghost names: seq<Bytes>)
      returns (status: Status, start: nat, end: nat)
      requires m.Contiguous(memEnd) && memStart == 4 * w <= m.ram.Length
      requires Ready(strings, names) && node < TWO32
      modifies m.ram, m.mem`allocBottom, m.mem`asked, m.mem`regions
      ensures status.Running? ==>
                && m.Contiguous(end) && Below(old(m.ram[..]), m.ram[..], 4 * w) && start <= m.ram.Length
                && if !phandle && PHANDLE in names
                   then start == 4 * (w + PropSize(Prop(PHANDLE, Be32(node))))
                        && PropAt(m.ram[..], strings, w, Prop(PHANDLE, Be32(node)))
                   else start == memStart
      ensures status.Panicked? ==> m.OutOfMemory()
    {
      hide Memory.OutOfMemory, TableAt, TextAt, PropAt, PropSize, Chain, Packed, FindFrom, Text;
      status, start, end := Running, memStart, memEnd;
      if !phandle {
        var soff := FindString(PHANDLE, names);
        FoundText(m.ram[..], dtStringStart, names, PHANDLE, 4);
        if soff != 0 {
          NameInTable(m.ram[..], dtStringStart, dtStringEnd, strings, names, PHANDLE);
          start, end :- PrintProp(soff, Be32(node), start, end, w, strings, Prop(PHANDLE, Be32(node)));
        }
      }
    }

    /** The head of a node and its own properties. */
    method PrintFront(node: nat, memStart: nat, memEnd: nat, ghost w: nat,
                      ghost strings: Bytes, ghost names: seq<Bytes>, ghost n: Node, ghost ps: seq<Property>)
      returns (status: Status, phandle: bool, start: nat, end: nat)
      requires m.Contiguous(memEnd) && memStart == 4 * w <= m.ram.Length
      requires Ready(strings, names) && dtStringEnd <= memStart && CoversProps(names, ps)
      requires fw.Props(node) == ps && PropsOk(ps) && n == Node(Component(fw.Path(node)), Kept(ps), [])
      modifies m.ram, m.mem`allocBottom, m.mem`asked, m.mem`regions
      ensures status.Running? ==>
                && m.Contiguous(end) && Below(old(m.ram[..]), m.ram[..], 4 * w) && Ready(strings, names)
                && start == 4 * (w + OpenSize(n)) <= m.ram.Length && OpenAt(m.ram[..], strings, w, n)
                && (phandle <==> HasProp(n.props, PHANDLE))
      ensures status.Panicked? ==> m.OutOfMemory()
    {
      hide Memory.Contiguous, Memory.OutOfMemory, PropsAt, PropsOk, HeadAt, Tabled, CoversProps, Kept, Words, Below,
          Component, OpenAt, HeadSize, PropsSize, HasProp;
      ghost var b0 := m.ram[..];
      phandle := false;
      start, end :- PrintHead(node, memStart, memEnd, w);
      ghost var b1 := m.ram[..];
      TabledStays(b0, b1, 4 * w, dtStringStart, dtStringEnd, strings, names);
      phandle, start, end :- PrintProps(node, start, end, w + HeadSize(n.name), strings, names, ps);
      status := Running;
      FrontPrinted(b0, b1, m.ram[..], strings, w, n);
      TabledStays(b1, m.ram[..], 4 * (w + HeadSize(n.name)), dtStringStart, dtStringEnd, strings, names);
    }

    /** A node up to its children. */
    method PrintOpening(node: nat, memStart: nat, memEnd: nat, ghost w: nat,
                        ghost strings: Bytes, ghost names: seq<Bytes>, ghost t: Tree)
      returns (status: Status, start: nat, end: nat)
      requires m.Contiguous(memEnd) && memStart == 4 * w <= m.ram.Length
      requires Ready(strings, names) && dtStringEnd <= memStart && PHANDLE in names && CoversProps(names, t.props)
      requires fw.Path(node) == t.path && fw.Props(node) == t.props && PropsOk(t.props) && node == t.handle < TWO32
      modifies m.ram, m.mem`allocBottom, m.mem`asked, m.mem`regions
      ensures status.Running? ==>
                var n := Node(Component(t.path), PrintedProps(t), []);
                && m.Contiguous(end) && Below(old(m.ram[..]), m.ram[..], 4 * w)
                && start == 4 * (w + OpenSize(n)) <= m.ram.Length && OpenAt(m.ram[..], strings, w, n)
      ensures status.Panicked? ==> m.OutOfMemory()
    {
      hide Memory.Contiguous, Memory.OutOfMemory, PropsAt, PropAt, PropsOk, Tabled, CoversProps, Kept, Below,
          Component, OpenAt, OpenSize, PropSize, HasProp;
      ghost var b0, n := m.ram[..], Node(Component(t.path), Kept(t.props), []);
      var phandle;
      phandle, start, end :- PrintFront(node, memStart, memEnd, w, strings, names, n, t.props);
      ghost var b := m.ram[..];
      start, end :- PrintPhandle(node, phandle, start, end, w + OpenSize(n), strings, names);
      status := Running;
      BelowThen(b0, b, m.ram[..], 4 * w, 4 * (w + OpenSize(n)));
      OpenStays(b, m.ram[..], 4 * (w + OpenSize(n)), strings, w, n);
      if !phandle {
        PropAdded(m.ram[..], strings, w, n, Prop(PHANDLE, Be32(node)));
      }
    }

    /** The end token of a node. */
    method PrintClosing(memStart: nat, memEnd: nat, ghost w: nat, ghost strings: Bytes, ghost n: Node)
      returns (status: Status, start: nat, end: nat)
      requires m.Contiguous(memEnd) && memStart == 4 * (w + OpenSize(n)) <= m.ram.Length
      requires OpenAt(m.ram[..], strings, w, n)
      modifies m.ram, m.mem`allocBottom, m.mem`asked, m.mem`regions
      ensures status.Running? ==>
                && m.Contiguous(end) && Below(old(m.ram[..]), m.ram[..], 4 * (w + OpenSize(n)))
                && start == 4 * (w + NodeSize(n)) <= m.ram.Length && NodeAt(m.ram[..], strings, w, n)
      ensures status.Panicked? ==> m.OutOfMemory()
    {
      hide Memory.Contiguous, Memory.OutOfMemory, Below, OpenAt, OpenSize, NodeAt, NodeSize;
      ghost var b, v := m.ram[..], w + OpenSize(n);
      start, end :- m.PushToken(FDT_END_NODE, memStart, memEnd, v);
      status := Running;
      m.EndsInRam(end);
      OpenStays(b, m.ram[..], 4 * v, strings, w, n);
      Closed(m.ram[..], strings, w, n);
    }

    /** What the pass needs to know of the children still to come. */
    ghost predicate Printable(node: nat, ts: seq<Tree>, names: seq<Bytes>) {
      HasTrees(fw, node, ts) && TreesOk(ts) && CoversAll(names, ts)
    }

    lemma FirstKid(node: nat, ts: seq<Tree>, names: seq<Bytes>)
      requires Printable(node, ts, names) && First(ts) != 0
      ensures ts != [] && HasTree(fw, node, First(ts[1..]), ts[0]) && TreeOk(ts[0]) && Covers(names, ts[0])
      ensures Printable(node, ts[1..], names) && ts[0].handle == First(ts)
      ensures fw.Peer(First(ts)) == First(ts[1..])
    {
      hide TreeOk, Covers;
    }

    /** scan_dt_build_struct: prints the subtree. */
    method ScanStruct(node: nat, memStart: nat, memEnd: nat,
                      ghost w: nat, ghost strings: Bytes, ghost names: seq<Bytes>,
                      ghost up: nat, ghost next: nat, ghost t: Tree)
      returns (status: Status, start: nat, end: nat)
      requires m.Contiguous(memEnd) && memStart == 4 * w <= m.ram.Length
      requires Ready(strings, names) && dtStringEnd <= memStart && PHANDLE in names && Covers(names, t)
      requires HasTree(fw, up, next, t) && t.handle == node && TreeOk(t)
      modifies m.ram, m.mem`allocBottom, m.mem`asked, m.mem`regions
      ensures status.Running? ==>
                && m.Contiguous(end) && Below(old(m.ram[..]), m.ram[..], 4 * w)
                && start == 4 * (w + NodeSize(Printed(t))) <= m.ram.Length
                    && NodeAt(m.ram[..], strings, w, Printed(t))
      ensures status.Panicked? ==> m.OutOfMemory()
      decreases t
    {
      hide Memory.Contiguous, Memory.OutOfMemory, PropsOk, CoversProps, Tabled, Below, OpenAt, OpenSize, NodeAt,
          PrintedProps, Component, Printed, PrintedAll, NodeSize, HasTrees, CoversAll, TreesOk;
      ghost var b0 := m.ram[..];
      start, end :- PrintOpening(node, memStart, memEnd, w, strings, names, t);
      TabledStays(b0, m.ram[..], 4 * w, dtStringStart, dtStringEnd, strings, names);
      PrintedWhole(t);
      assert t.kids[..0] == [];
      var child := fw.Child(node);
      ghost var ts, i, n := t.kids, 0, Node(Component(t.path), PrintedProps(t), []);
      while child != 0
        invariant i <= |t.kids| && ts == t.kids[i..] && child == First(ts) && Printable(node, ts, names)
        invariant n == Node(Component(t.path), PrintedProps(t), PrintedAll(t.kids[..i]))
        invariant m.Contiguous(end) && Below(b0, m.ram[..], 4 * w) && Ready(strings, names)
        invariant start == 4 * (w + OpenSize(n)) <= m.ram.Length && OpenAt(m.ram[..], strings, w, n)
        decreases |ts|
      {
        FirstKid(node, ts, names);
        ghost var b, v, kid := m.ram[..], w + OpenSize(n), Printed(ts[0]);
        assert ts[0] == t.kids[i];
        start, end :- ScanStruct(child, start, end, v, strings, names, node, First(ts[1..]), ts[0]);
        KidPrinted(b0, b, m.ram[..], w, dtStringStart, dtStringEnd, strings, names, n, kid);
        PrintedStep(t.kids, i);
        n, ts, i := Node(n.name, n.props, n.kids + [kid]), ts[1..], i + 1;
        child := fw.Peer(child);
      }
      FirstIsNode(fw, node, ts);
      assert t.kids[..i] == t.kids;
      PrintedWhole(t);
      ghost var b := m.ram[..];
      start, end :- PrintClosing(start, end, w, strings, n);
      status := Running;
      BelowThen(b0, b, m.ram[..], 4 * w, 4 * (w + OpenSize(n)));
    }

    // ---- the blob -----------------------------------------------------------------------------

    /** Sets one field of the header. */
    method PutField(hdr: nat, k: nat, v: nat, ghost b0: Bytes, ghost fields: map<nat, nat>)
      returns (ghost more: map<nat, nat>)
      requires hdr + HEADER_SIZE <= m.ram.Length && k % 4 == 0 && k < HEADER_SIZE && v < TWO32
      requires HeaderAt(m.ram[..], hdr, fields) && Outside(b0, m.ram[..], hdr, HEADER_SIZE)
      modifies m.ram
      ensures more == fields[k := v]
      ensures HeaderAt(m.ram[..], hdr, more) && Outside(b0, m.ram[..], hdr, HEADER_SIZE)
    {
      hide NumberAt;
      ghost var b := m.ram[..];
      m.Put32(hdr + k, v);
      more := fields[k := v];
      forall j | j in fields && j != k
        ensures NumberAt(m.ram[..], hdr + j, fields[j])
      {
        NumberOutside(b, m.ram[..], hdr + k, 4, hdr + j, fields[j]);
      }
      OutsideThen(b0, b, m.ram[..], hdr, HEADER_SIZE, hdr + k, 4);
    }

    /** The first fields of the header. */
    method FirstFields(hdr: nat, cpu: nat) returns (ghost fields: map<nat, nat>)
      requires hdr + HEADER_SIZE <= m.ram.Length == TWO32 && cpu < TWO32
      requires hdr <= dtStringStart <= dtStructStart <= dtStructEnd < TWO32
      modifies m.ram
      ensures Outside(old(m.ram[..]), m.ram[..], hdr, HEADER_SIZE) && HeaderAt(m.ram[..], hdr, fields)
      ensures fields == map[][28 := cpu][0 := FDT_MAGIC][4 := dtStructEnd - hdr]
                             [8 := dtStructStart - hdr][12 := dtStringStart - hdr]
    {
      hide HeaderAt, Outside;
      ghost var b := m.ram[..];
      NoFields(b, hdr);
      fields := PutField(hdr, 28, cpu, b, map[]);
      fields := PutField(hdr, 0, FDT_MAGIC, b, fields);
      fields := PutField(hdr, 4, dtStructEnd - hdr, b, fields);
      fields := PutField(hdr, 8, dtStructStart - hdr, b, fields);
      fields := PutField(hdr, 12, dtStringStart - hdr, b, fields);
    }

    /** Fills in the header, which leaves everything else in place. */
    method FinishHeader(hdr: nat, rsvmap: nat, cpu: nat) returns (ghost fields: map<nat, nat>)
      requires hdr + HEADER_SIZE <= m.ram.Length == TWO32 && cpu < TWO32
      requires hdr <= rsvmap <= dtStringStart <= dtStringEnd <= dtStructStart <= dtStructEnd < TWO32
      modifies m.ram
      ensures Outside(old(m.ram[..]), m.ram[..], hdr, HEADER_SIZE) && HeaderAt(m.ram[..], hdr, fields)
      ensures fields == HeaderFields(hdr, rsvmap, dtStringStart, dtStringEnd, dtStructStart, dtStructEnd, cpu)
    {
      hide HeaderAt, Outside;
      ghost var b := m.ram[..];
      fields := FirstFields(hdr, cpu);
      fields := PutField(hdr, 32, dtStringEnd - dtStringStart, b, fields);
      fields := PutField(hdr, 16, rsvmap - hdr, b, fields);
      fields := PutField(hdr, 20, FDT_VERSION, b, fields);
      fields := PutField(hdr, 24, 0x10, b, fields);
    }

    /** The size of the first chunk: what there is, less a few pages, up to a megabyte. */
    function FirstRoom(): nat
      reads m.mem
    {
      var room := (m.mem.allocTop - m.mem.allocBottom - 0x4000) % WORD;
      if room > DEVTREE_CHUNK_SIZE then DEVTREE_CHUNK_SIZE else room
    }

    /** There is no RAM, or every place from alloc_bottom up that has room for the first chunk
        was refused since claim number `first`. */
    ghost predicate NoFirstChunk(first: nat)
      reads m.mem
    {
      || m.mem.ramTop == 0
      || (first <= m.mem.asked && m.mem.Refused(first)
          && UpTry(m.mem.allocBottom, PAGE_SIZE, m.mem.asked - first) + FirstRoom() > m.mem.allocTop)
    }

    /** Claims the first chunk, as much as there is up to a megabyte. */
    method FirstChunk() returns (status: Status, start: nat, end: nat)
      requires m.ram.Length == TWO32 && m.mem.Valid() && m.mem.allocTop <= 0x3000_0000
      modifies m`first, m`base, m.mem`allocBottom, m.mem`asked, m.mem`regions
      ensures status.Running? ==> m.Contiguous(end) && start == m.base && end == start + old(FirstRoom())
      ensures status.Panicked? ==> m.mem.allocBottom == old(m.mem.allocBottom) && NoFirstChunk(old(m.mem.asked))
    {
      var room := FirstRoom();
      start, end := 0, 0;
      start :- m.mem.AllocUp(room, PAGE_SIZE);
      if start == 0 {
        return Panicked, 0, 0;
      }
      end, status := start + room, Running;
      m.first, m.base := |m.mem.regions| - 1, start;
      assert m.mem.regions[m.first..] == [Region(start, room)];
    }

    /** The table of strings begins with "phandle". */
    method StartStrings(memStart: nat, memEnd: nat) returns (status: Status, start: nat, end: nat)
      requires m.Contiguous(memEnd) && dtStringEnd == 0
      modifies this`dtStringStart, m.ram, m.mem`allocBottom, m.mem`asked, m.mem`regions
      ensures status.Running? ==>
                && m.Contiguous(end) && Collecting(StringTable.NO_NAMES, start) && start <= end
                && dtStringStart == AlignUp(memStart, PAGE_SIZE)
      ensures status.Panicked? ==> m.OutOfMemory()
    {
      hide Memory.OutOfMemory, Memory.Contiguous, Outside, TextAt, TableAt, TableSize, AlignUp;
      dtStringStart := AlignUp(memStart, PAGE_SIZE);
      var namep;
      namep, start, end :- m.MakeRoom(dtStringStart + 4, memEnd, 16, 1);
      status := Running;
      AlignedByte(dtStringStart + 4);
      m.EndsInRam(end);
      m.CopyText(namep, PHANDLE);
      var n := m.StrLen(namep, PHANDLE);
      start := namep + n + 1;
      OneText(m.ram[..], namep, PHANDLE);
    }

    /** Room for the header and the reserve map, and the start of the strings. */
    method StartBlob(memStart: nat, memEnd: nat)
      returns (status: Status, hdr: nat, rsvmap: nat, start: nat, end: nat)
      requires m.Contiguous(memEnd) && memStart == m.base && dtStringEnd == 0
      modifies this`dtStringStart, m.ram, m.mem`allocBottom, m.mem`asked, m.mem`regions
      ensures status.Running? ==>
                && m.Contiguous(end) && Collecting(StringTable.NO_NAMES, start) && start <= end
                && m.base <= hdr && hdr + HEADER_SIZE <= rsvmap && rsvmap + RESERVE_MAP_BYTES <= dtStringStart
      ensures status.Panicked? ==> m.OutOfMemory()
    {
      hide Memory.OutOfMemory, Memory.Contiguous, Collecting;
      hdr, rsvmap, start, end := 0, 0, AlignUp(memStart, 4), memEnd;
      hdr, start, end :- m.MakeRoom(start, end, HEADER_SIZE, 4);
      rsvmap, start, end :- m.MakeRoom(start, end, RESERVE_MAP_BYTES, 8);
      start, end :- StartStrings(start, end);
      status := Running;
    }

    /** The strings pass over the whole tree. */
    method BuildStrings(root: nat, memStart: nat, memEnd: nat, ghost t: Tree)
      returns (status: Status, start: nat, end: nat, ghost strings: Bytes)
      requires m.Contiguous(memEnd) && Collecting(StringTable.NO_NAMES, memStart) && memStart <= memEnd
      requires HasTree(fw, 0, 0, t) && t.handle == root && TreeOk(t)
      modifies this`dtStringEnd, m.ram, m.mem`allocBottom, m.mem`asked, m.mem`regions
      ensures status.Running? ==>
                var names := Scan(StringTable.NO_NAMES, t).names;
                && m.Contiguous(end) && start == dtStringEnd && Ready(strings, names)
                && dtStringStart <= dtStringEnd <= end && PHANDLE in names && Covers(names, t)
      ensures status.Panicked? ==> m.OutOfMemory()
    {
      strings := [];
      start, end :- ScanStrings(root, memStart, memEnd, 0, 0, t, StringTable.NO_NAMES);
      status := Running;
      dtStringEnd := start;
      ScanCovers(StringTable.NO_NAMES, t);
      ghost var names := Scan(StringTable.NO_NAMES, t).names;
      assert names[0] == PHANDLE;
      TableEnds(m.ram[..], dtStringStart + 4, names);
      strings := m.ram[dtStringStart..dtStringEnd];
    }

    /** The structure pass over the whole tree, from the next page on. */
    method BuildStruct(root: nat, memStart: nat, memEnd: nat, ghost strings: Bytes, ghost names: seq<Bytes>,
        ghost t: Tree)
      returns (status: Status, end: nat, ghost w: nat)
      requires m.Contiguous(memEnd) && memStart == dtStringEnd <= memEnd && Ready(strings, names)
      requires PHANDLE in names && Covers(names, t)
      requires HasTree(fw, 0, 0, t) && t.handle == root && TreeOk(t)
      modifies this`dtStructStart, this`dtStructEnd, m.ram, m.mem`allocBottom, m.mem`asked, m.mem`regions
      ensures status.Running? ==>
                && m.Contiguous(end) && Ready(strings, names)
                && dtStringEnd <= dtStructStart == 4 * w && 4 * (w + NodeSize(Printed(t)) + 1) <= dtStructEnd < TWO32
                && NodeAt(m.ram[..], strings, w, Printed(t))
                    && NumberAt(m.ram[..], 4 * (w + NodeSize(Printed(t))), FDT_END)
      ensures status.Panicked? ==> m.OutOfMemory()
    {
      hide Memory.OutOfMemory, TableAt, NodeAt, NodeSize, Printed, Chain, Same;
      dtStructStart := AlignUp(memStart, PAGE_SIZE);
      w := PageWords(dtStructStart);
      var start;
      ghost var b0 := m.ram[..];
      start, end :- ScanStruct(root, dtStructStart, memEnd, w, strings, names, 0, 0, t);
      ghost var b, v := m.ram[..], w + NodeSize(Printed(t));
      TabledStays(b0, b, 4 * w, dtStringStart, dtStringEnd, strings, names);
      start, end :- m.PushToken(FDT_END, start, end, v);
      status := Running;
      TabledStays(b, m.ram[..], 4 * v, dtStringStart, dtStringEnd, strings, names);
      BelowSame(b, m.ram[..], 4 * v, 4 * w, 4 * NodeSize(Printed(t)));
      MoveNode(b, strings, w, m.ram[..], w, Printed(t));
      dtStructEnd := AlignUp(start, PAGE_SIZE);
    }

    /** flatten_device_tree: if it returns, the blob is one piece of memory, its header leads
        to both blocks, and a reader gets the firmware's tree from it. It stops the boot only
        if the firmware has no root node or memory has run out. */
    method FlattenDeviceTree(cpu: nat, reserveMap: Bytes, ghost t: Tree) returns (status: Status)
      requires m.ram.Length == TWO32 && m.mem.Valid() && m.mem.allocTop <= 0x3000_0000
      requires dtStringEnd == 0 && cpu < TWO32 && |reserveMap| == RESERVE_MAP_BYTES
      requires fw.Peer(0) != 0 ==> Holds(fw, t) && TreeOk(t)
      modifies this, m`first, m`base, m.ram, m.mem`allocBottom, m.mem`asked, m.mem`regions
      ensures status.Running? ==>
                m.Contiguous(m.mem.allocBottom) && m.base <= dtHeaderStart <= dtStructEnd <= m.ram.Length
      ensures status.Running? ==> ParseBlob(m.ram[dtHeaderStart..dtStructEnd]) == Some(Printed(t))
      ensures status.Running? ==> exists off :: MapAt(m.ram[..], dtHeaderStart, off, reserveMap)
      ensures status.Panicked? ==>
                || fw.Peer(0) == 0 || m.OutOfMemory()
                || (m.mem.allocBottom == old(m.mem.allocBottom) && NoFirstChunk(old(m.mem.asked)))
      ensures status.Running? ==> fw.Peer(0) != 0
    {
      hide Memory.OutOfMemory, NodeAt, NodeSize, NumberAt, Tabled, TableAt, ParseBlob, HasTree, TreeOk, Covers,
          Chain, Printed, Scan, MapAt;
      var hdr, rsvmap, start, end;
      start, end :- FirstChunk();
      var root := fw.Peer(0);
      if root == 0 {
        return Panicked;
      }
      hdr, rsvmap, start, end :- StartBlob(start, end);
      ghost var strings, w;
      start, end, strings :- BuildStrings(root, start, end, t);
      end, w :- BuildStruct(root, start, end, strings, Scan(StringTable.NO_NAMES, t).names, t);
      status := Running;
      dtHeaderStart := hdr;
      FinishBlob(hdr, rsvmap, cpu, reserveMap, w, strings, Scan(StringTable.NO_NAMES, t).names, Printed(t));
      assert MapAt(m.ram[..], dtHeaderStart, rsvmap - hdr, reserveMap);
    }

    /** The header and the reserve map. */
    method FinishBlob(hdr: nat, rsvmap: nat, cpu: nat, reserveMap: Bytes,
                      ghost w: nat, ghost strings: Bytes, ghost names: seq<Bytes>, ghost n: Node)
      requires m.ram.Length == TWO32 && cpu < TWO32 && hdr + HEADER_SIZE <= rsvmap
               && rsvmap + |reserveMap| <= dtStringStart
      requires dtStringStart <= dtStringEnd <= dtStructStart == 4 * w
               && 4 * (w + NodeSize(n) + 1) <= dtStructEnd < TWO32
      requires Ready(strings, names) && NodeAt(m.ram[..], strings, w, n)
      requires NumberAt(m.ram[..], 4 * (w + NodeSize(n)), FDT_END)
      modifies m.ram
      ensures ParseBlob(m.ram[hdr..dtStructEnd]) == Some(n)
      ensures MapAt(m.ram[..], hdr, rsvmap - hdr, reserveMap)
    {
      hide NodeAt, NodeSize, NumberAt, HeaderAt, Tabled, ParseBlob;
      ghost var b0 := m.ram[..];
      ghost var fields := FinishHeader(hdr, rsvmap, cpu);
      ghost var b1 := m.ram[..];
      m.CopyIn(rsvmap, reserveMap);
      BlobStays(b0, b1, hdr + HEADER_SIZE, dtStringStart, dtStringEnd, w, strings, names, n);
      BlobStays(b1, m.ram[..], rsvmap + |reserveMap|, dtStringStart, dtStringEnd, w, strings, names, n);
      HeaderStays(b1, m.ram[..], rsvmap, hdr, fields);
      FieldAt(m.ram[..], hdr, fields, 16);
      BlobParses(m.ram[..], hdr, rsvmap, dtStringStart, dtStringEnd, dtStructStart, w, dtStructEnd, cpu, strings,
          names, n);
    }
  }

  /** The table stands between start and end, and its bytes are `strings`. */
  ghost predicate Tabled(b: Bytes, start: nat, end: nat, strings: Bytes, names: seq<Bytes>) {
    && TableAt(b, start + 4, names) && end == start + 4 + TableSize(names) <= |b| <= TWO32
    && strings == b[start..end]
  }

  lemma TabledStays(b: Bytes, b': Bytes, lo: nat, start: nat, end: nat, strings: Bytes,
      names: seq<Bytes>)
    requires Tabled(b, start, end, strings, names) && Below(b, b', lo) && end <= lo
    ensures Tabled(b', start, end, strings, names)
  {
    BelowSame(b, b', lo, start + 4, TableSize(names));
    MoveTable(b, start + 4, b', start + 4, names);
    BelowSame(b, b', lo, start, end - start);
  }

  /** A name of the table is found, and the strings block has it at that offset. */
  lemma NameInTable(b: Bytes, start: nat, end: nat, strings: Bytes, names: seq<Bytes>, s: Bytes)
    requires Tabled(b, start, end, strings, names) && s in names
    ensures 0 < Find(names, s) < TWO32 && Text(strings, Find(names, s)) == Some(s)
    ensures TextAt(b, start + Find(names, s), s) && start + Find(names, s) + |s| < end
  {
    FoundText(b, start, names, s, 4);
    var off := Find(names, s);
    Slice(b, start, end, off, off + |s|);
    assert TextAt(strings, off, s);
    TextOf(strings, off, s);
  }

  lemma TextStaysBelow(b: Bytes, b': Bytes, lo: nat, pos: nat, s: Bytes, end: nat)
    requires TextAt(b, pos, s) && Below(b, b', lo) && pos + |s| < end <= lo
    ensures TextAt(b', pos, s)
  {
    TextStays(b, b', lo, pos, s);
  }

  lemma NothingKept(ps: seq<Property>, b: Bytes, strings: Bytes, w: nat)
    ensures Kept(ps[..0]) == [] && PropsAt(b, strings, w, []) && PropsSize([]) == 0 && !HasProp([], PHANDLE)
  {
  }

  lemma HasPropThen(ps: seq<Prop>, p: Prop, name: Bytes)
    ensures HasProp(ps + [p], name) <==> HasProp(ps, name) || p.name == name
  {
    if HasProp(ps, name) {
      var i :| 0 <= i < |ps| && ps[i].name == name;
      assert (ps + [p])[i].name == name;
    }
    assert (ps + [p])[|ps|] == p;
  }

  /** Three numbers and the value, written one after another, are a property. */
  /** What a kept property is printed as. */
  function KeptProp(p: Property): (q: Prop)
    requires IsKept(p)
    ensures q.name == p.name && q.value == p.value.value
  {
    Prop(p.name, p.value.value)
  }

  /** The properties printed so far stay while what follows is written. */
  lemma PropsStay(b0: Bytes, b: Bytes, b': Bytes, strings: Bytes, w: nat, ks: seq<Prop>)
    requires Below(b0, b, 4 * w) && Below(b, b', 4 * (w + PropsSize(ks))) && PropsAt(b, strings, w, ks)
    ensures Below(b0, b', 4 * w) && PropsAt(b', strings, w, ks)
  {
    hide Below, PropsAt, Same;
    BelowThen(b0, b, b', 4 * w, 4 * (w + PropsSize(ks)));
    BelowSame(b, b', 4 * (w + PropsSize(ks)), 4 * w, 4 * PropsSize(ks));
    MoveProps(b, strings, w, b', w, ks);
  }

  /** The three numbers before the value of a property. */
  predicate PropHeadAt(b: Bytes, w: nat, len: nat, soff: nat) {
    NumberAt(b, 4 * w, FDT_PROP) && NumberAt(b, 4 * w + 4, len) && NumberAt(b, 4 * w + 8, soff)
  }

  lemma ThreeNumbers(b0: Bytes, b1: Bytes, b2: Bytes, b3: Bytes, w: nat, len: nat, soff: nat)
    requires Below(b0, b1, 4 * w) && NumberAt(b1, 4 * w, FDT_PROP)
    requires Below(b1, b2, 4 * (w + 1)) && NumberAt(b2, 4 * (w + 1), len)
    requires Below(b2, b3, 4 * (w + 2)) && NumberAt(b3, 4 * (w + 2), soff)
    ensures Below(b0, b3, 4 * w) && PropHeadAt(b3, w, len, soff)
  {
    hide Below, NumberAt;
    BelowThen(b1, b2, b3, 4 * (w + 1), 4 * (w + 2));
    BelowThen(b0, b1, b3, 4 * w, 4 * (w + 1));
    NumberStays(b2, b3, 4 * (w + 2), 4 * (w + 1), len);
    NumberStays(b1, b3, 4 * (w + 1), 4 * w, FDT_PROP);
  }

  lemma PropPrinted(b0: Bytes, b: Bytes, b': Bytes, w: nat, soff: nat, strings: Bytes, p: Prop)
    requires Below(b0, b, 4 * w) && PropHeadAt(b, w, |p.value|, soff) && Text(strings, soff) == Some(p.name)
    requires Outside(b, b', 4 * (w + 3), |p.value|) && b'[4 * (w + 3)..4 * (w + 3) + |p.value|] == p.value
    ensures Below(b0, b', 4 * w) && PropAt(b', strings, w, p)
  {
    OutsideBelow(b, b', 4 * (w + 3), |p.value|);
    assert 4 * (w + 3) + |p.value| <= |b'|;
    hide Below, Outside, Text, Word32;
    BelowThen(b0, b, b', 4 * w, 4 * (w + 3));
    NumberStays(b, b', 4 * (w + 3), 4 * w, FDT_PROP);
    NumberStays(b, b', 4 * (w + 3), 4 * w + 4, |p.value|);
    NumberStays(b, b', 4 * (w + 3), 4 * w + 8, soff);
  }

  /** After a child has been printed everything before it is still there. */
  lemma KidPrinted(b0: Bytes, b: Bytes, b': Bytes, w: nat, strStart: nat, strEnd: nat,
                                      strings: Bytes, names: seq<Bytes>, n: Node, kid: Node)
    requires Below(b0, b, 4 * w) && Below(b, b', 4 * (w + OpenSize(n))) && strEnd <= 4 * w
    requires Tabled(b, strStart, strEnd, strings, names)
    requires OpenAt(b, strings, w, n) && NodeAt(b', strings, w + OpenSize(n), kid)
    ensures Below(b0, b', 4 * w) && Tabled(b', strStart, strEnd, strings, names)
    ensures OpenAt(b', strings, w, Node(n.name, n.props, n.kids + [kid]))
    ensures OpenSize(Node(n.name, n.props, n.kids + [kid])) == OpenSize(n) + NodeSize(kid)
  {
    hide Tabled, OpenAt, OpenSize, NodeAt, NodeSize;
    TabledStays(b, b', 4 * (w + OpenSize(n)), strStart, strEnd, strings, names);
    BelowThen(b0, b, b', 4 * w, 4 * (w + OpenSize(n)));
    OpenStays(b, b', 4 * (w + OpenSize(n)), strings, w, n);
    OpenThen(b', strings, w, n, kid);
  }

  /** Everything of a node but its end. */
  predicate OpenAt(b: Bytes, strings: Bytes, w: nat, n: Node) {
    var props := w + HeadSize(n.name);
    && HeadAt(b, w, n.name) && PropsAt(b, strings, props, n.props)
    && KidsAt(b, strings, props + PropsSize(n.props), n.kids)
  }

  function OpenSize(n: Node): nat {
    HeadSize(n.name) + PropsSize(n.props) + KidsSize(n.kids)
  }

  /** Head and properties make a node without children. */
  lemma FrontPrinted(b0: Bytes, b: Bytes, b': Bytes, strings: Bytes, w: nat, n: Node)
    requires Below(b0, b, 4 * w) && Below(b, b', 4 * (w + HeadSize(n.name)))
    requires HeadAt(b, w, n.name) && PropsAt(b', strings, w + HeadSize(n.name), n.props) && n.kids == []
    ensures Below(b0, b', 4 * w) && OpenAt(b', strings, w, n)
    ensures OpenSize(n) == HeadSize(n.name) + PropsSize(n.props)
  {
    hide Below, HeadAt, Same, HeadSize, PropsSize;
    BelowThen(b0, b, b', 4 * w, 4 * (w + HeadSize(n.name)));
    BelowSame(b, b', 4 * (w + HeadSize(n.name)), 4 * w, 4 * HeadSize(n.name));
    MoveHead(b, w, b', w, n.name);
  }

  /** One more property behind the others. */
  lemma PropAdded(b: Bytes, strings: Bytes, w: nat, n: Node, p: Prop)
    requires OpenAt(b, strings, w, n) && n.kids == [] && PropAt(b, strings, w + OpenSize(n), p)
    ensures OpenAt(b, strings, w, Node(n.name, n.props + [p], []))
    ensures OpenSize(Node(n.name, n.props + [p], [])) == OpenSize(n) + PropSize(p)
  {
    hide HeadAt, PropAt, HeadSize, PropSize;
    PropsThen(b, strings, w + HeadSize(n.name), n.props, p);
  }

  lemma OpenStays(b: Bytes, b': Bytes, lo: nat, strings: Bytes, w: nat, n: Node)
    requires OpenAt(b, strings, w, n) && Below(b, b', lo) && 4 * (w + OpenSize(n)) <= lo
    ensures OpenAt(b', strings, w, n)
  {
    hide HeadAt, PropsAt, KidsAt, Same, Below;
    var props := w + HeadSize(n.name);
    var kids := props + PropsSize(n.props);
    BelowSame(b, b', lo, 4 * w, 4 * HeadSize(n.name));
    MoveHead(b, w, b', w, n.name);
    BelowSame(b, b', lo, 4 * props, 4 * PropsSize(n.props));
    MoveProps(b, strings, props, b', props, n.props);
    BelowSame(b, b', lo, 4 * kids, 4 * KidsSize(n.kids));
    MoveKids(b, strings, kids, b', kids, n.kids);
  }

  lemma OpenThen(b: Bytes, strings: Bytes, w: nat, n: Node, kid: Node)
    requires OpenAt(b, strings, w, n) && NodeAt(b, strings, w + OpenSize(n), kid)
    ensures OpenAt(b, strings, w, Node(n.name, n.props, n.kids + [kid]))
    ensures OpenSize(Node(n.name, n.props, n.kids + [kid])) == OpenSize(n) + NodeSize(kid)
  {
    hide HeadAt, PropsAt, KidsAt, NodeAt;
    KidsThen(b, strings, w + HeadSize(n.name) + PropsSize(n.props), n.kids, kid);
  }

  lemma PrintedWhole(t: Tree)
    ensures Printed(t) == Node(Component(t.path), PrintedProps(t), PrintedAll(t.kids))
    ensures PrintedAll([]) == []
  {
  }

  lemma Closed(b: Bytes, strings: Bytes, w: nat, n: Node)
    requires OpenAt(b, strings, w, n) && NumberAt(b, 4 * (w + OpenSize(n)), FDT_END_NODE)
    ensures NodeAt(b, strings, w, n) && NodeSize(n) == OpenSize(n) + 1
  {
    hide HeadAt, PropsAt, KidsAt;
  }

  // ---- the blob -------------------------------------------------------------------------------

  /** The size of struct boot_param_header. */
  const HEADER_SIZE: nat := 40

  function HeaderFields(hdr: nat, rsvmap: nat, strStart: nat, strEnd: nat, start: nat, end: nat,
      cpu: nat): map<nat, nat>
    requires hdr <= rsvmap <= strStart <= strEnd <= start <= end
  {
    map[][28 := cpu][0 := FDT_MAGIC][4 := end - hdr][8 := start - hdr][12 := strStart - hdr]
         [32 := strEnd - strStart][16 := rsvmap - hdr][20 := FDT_VERSION][24 := 0x10]
  }

  predicate HeaderAt(b: Bytes, hdr: nat, fields: map<nat, nat>) {
    forall k :: k in fields ==> k % 4 == 0 && NumberAt(b, hdr + k, fields[k])
  }

  lemma NoFields(b: Bytes, hdr: nat)
    requires hdr + HEADER_SIZE <= |b|
    ensures HeaderAt(b, hdr, map[]) && Outside(b, b, hdr, HEADER_SIZE)
  {
  }

  lemma NumberOutside(b: Bytes, b': Bytes, pos: nat, len: nat, q: nat, v: nat)
    requires NumberAt(b, q, v) && Outside(b, b', pos, len) && (q + 4 <= pos || pos + len <= q)
    ensures NumberAt(b', q, v)
  {
    if q + 4 <= pos {
      BelowSame(b, b', pos, q, 4);
    } else {
      AboveSame(b, b', pos + len, q, 4);
    }
    MoveNumber(b, q, b', q, v);
  }

  lemma AboveSame(b: Bytes, b': Bytes, lo: nat, pos: nat, len: nat)
    requires lo <= |b| == |b'| && b[lo..] == b'[lo..] && lo <= pos && pos + len <= |b|
    ensures Same(b, pos, b', pos, len)
  {
    Slice(b, lo, |b|, pos - lo, pos - lo + len);
    Slice(b', lo, |b|, pos - lo, pos - lo + len);
    assert b[lo..|b|] == b[lo..] && b'[lo..|b|] == b'[lo..];
  }

  lemma OutsideThen(b: Bytes, b': Bytes, b'': Bytes, pos: nat, len: nat, q: nat, part: nat)
    requires Outside(b, b', pos, len) && Outside(b', b'', q, part) && pos <= q && q + part <= pos + len
    ensures Outside(b, b'', pos, len)
  {
    BelowLess(b', b'', q, pos);
    AboveSame(b', b'', q + part, pos + len, |b| - pos - len);
    assert b''[pos + len..] == b''[pos + len..|b|] && b'[pos + len..] == b'[pos + len..|b|];
  }

  /** The header leads a reader to both blocks, and what it reads there is the tree. */
  lemma BlobParses(b: Bytes, hdr: nat, rsvmap: nat, strStart: nat, strEnd: nat, start: nat,
      w: nat, end: nat,
                                      cpu: nat, strings: Bytes, names: seq<Bytes>, n: Node)
    requires hdr + HEADER_SIZE <= rsvmap <= strStart <= strEnd <= start == 4 * w
             && 4 * (w + NodeSize(n) + 1) <= end <= |b| <= TWO32
    requires end - hdr < TWO32
    requires HeaderAt(b, hdr, HeaderFields(hdr, rsvmap, strStart, strEnd, start, end, cpu))
    requires Tabled(b, strStart, strEnd, strings, names)
    requires NodeAt(b, strings, w, n) && NumberAt(b, 4 * (w + NodeSize(n)), FDT_END)
    ensures ParseBlob(b[hdr..end]) == Some(n)
  {
    hide NodeAt, NodeSize, ParseStruct, TableAt, TableSize, Word32, HeaderAt;
    var blob := b[hdr..end];
    HeaderReads(b, hdr, end, HeaderFields(hdr, rsvmap, strStart, strEnd, start, end, cpu));
    Slice(b, hdr, end, strStart - hdr, strEnd - hdr);
    Slice(b, hdr, end, start - hdr, end - hdr);
    assert blob[start - hdr..] == blob[start - hdr..end - hdr];
    StructParses(b, start, w, end, strings, n);
  }

  lemma StructParses(b: Bytes, start: nat, w: nat, end: nat, strings: Bytes, n: Node)
    requires start == 4 * w && 4 * (w + NodeSize(n) + 1) <= end <= |b|
    requires NodeAt(b, strings, w, n) && NumberAt(b, 4 * (w + NodeSize(n)), FDT_END)
    ensures ParseStruct(b[start..end], strings) == Some(n)
  {
    hide NodeAt, NodeSize, ParseStruct, Word32;
    var s, size := b[start..end], 4 * NodeSize(n);
    Slice(b, start, end, 0, size);
    MoveNode(b, strings, w, s, 0, n);
    Slice(b, start, end, size, size + 4);
    MoveNumber(b, start + size, s, size, FDT_END);
    ParseUndoesPrint(s, strings, n);
  }

  lemma HeaderReads(b: Bytes, hdr: nat, end: nat, fields: map<nat, nat>)
    requires HeaderAt(b, hdr, fields) && hdr + HEADER_SIZE <= end <= |b|
    ensures forall k :: k in fields && k < HEADER_SIZE - 3 ==> Word32(b[hdr..end], k) == fields[k]
  {
    hide Word32;
    forall k | k in fields && k < HEADER_SIZE - 3
      ensures Word32(b[hdr..end], k) == fields[k]
    {
      Slice(b, hdr, end, k, k + 4);
      MoveNumber(b, hdr + k, b[hdr..end], k, fields[k]);
    }
  }

  /** The header gives `off` as the place of the reserve map, and the map is there. */
  predicate MapAt(b: Bytes, hdr: nat, off: nat, reserveMap: Bytes) {
    && NumberAt(b, hdr + 16, off) && hdr + off + |reserveMap| <= |b|
    && b[hdr + off..hdr + off + |reserveMap|] == reserveMap
  }

  /** The size of mem_reserve_map. */
  const RESERVE_MAP_BYTES: nat := 128

  lemma PageWords(x: nat) returns (w: nat)
    requires Aligned(x, PAGE_SIZE)
    ensures x == 4 * w
  {
    var k: nat :| x == Times(k, PAGE_SIZE);
    w := 1024 * k;
  }

  lemma OneText(b: Bytes, pos: nat, s: Bytes)
    requires TextAt(b, pos, s)
    ensures TableAt(b, pos, [s]) && TableSize([s]) == |s| + 1
  {
    assert [s][1..] == [];
  }

  lemma {:induction false} TableEnds(b: Bytes, pos: nat, names: seq<Bytes>)
    requires TableAt(b, pos, names)
    ensures names != [] ==> pos + TableSize(names) <= |b|
    decreases |names|
  {
    if names != [] {
      TableEnds(b, pos + |names[0]| + 1, names[1..]);
    }
  }

  lemma FieldAt(b: Bytes, hdr: nat, fields: map<nat, nat>, k: nat)
    requires HeaderAt(b, hdr, fields) && k in fields
    ensures NumberAt(b, hdr + k, fields[k])
  {
  }

  lemma HeaderStays(b: Bytes, b': Bytes, lo: nat, hdr: nat, fields: map<nat, nat>)
    requires HeaderAt(b, hdr, fields) && Below(b, b', lo) && hdr + HEADER_SIZE <= lo
    requires forall k :: k in fields ==> k < HEADER_SIZE - 3
    ensures HeaderAt(b', hdr, fields)
  {
    forall k | k in fields
      ensures NumberAt(b', hdr + k, fields[k])
    {
      NumberStays(b, b', lo, hdr + k, fields[k]);
    }
  }

  /** Both blocks stay where nothing from lo on changes. */
  lemma BlobStays(b: Bytes, b': Bytes, lo: nat, strStart: nat, strEnd: nat, w: nat,
                                     strings: Bytes, names: seq<Bytes>, n: Node)
    requires |b| == |b'| && lo <= strStart <= strEnd <= 4 * w && 4 * (w + NodeSize(n) + 1) <= |b|
             && b[lo..] == b'[lo..]
    requires Tabled(b, strStart, strEnd, strings, names)
    requires NodeAt(b, strings, w, n) && NumberAt(b, 4 * (w + NodeSize(n)), FDT_END)
    ensures Tabled(b', strStart, strEnd, strings, names)
    ensures NodeAt(b', strings, w, n) && NumberAt(b', 4 * (w + NodeSize(n)), FDT_END)
  {
    hide NodeAt, NodeSize, NumberAt, TableAt, TableSize, Same;
    AboveSame(b, b', lo, strStart, strEnd - strStart);
    AboveSame(b, b', lo, 4 * w, 4 * NodeSize(n));
    AboveSame(b, b', lo, 4 * (w + NodeSize(n)), 4);
    MoveNode(b, strings, w, b', w, n);
    MoveNumber(b, 4 * (w + NodeSize(n)), b', 4 * (w + NodeSize(n)), FDT_END);
    MoveTabled(b, b', strStart, strEnd, strings, names);
  }

  lemma MoveTabled(b: Bytes, b': Bytes, start: nat, end: nat, strings: Bytes, names: seq<Bytes>)
    requires |b| == |b'| && start <= end && Tabled(b, start, end, strings, names)
             && Same(b, start, b', start, end - start)
    ensures Tabled(b', start, end, strings, names)
  {
    SamePart(b, start, b', start, end - start, 4, TableSize(names));
    MoveTable(b, start + 4, b', start + 4, names);
  }
}
