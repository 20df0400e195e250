/**
 The string table of the device tree blob: which property names the first pass collects, and
 in what order they lie in memory.
 */
module StringTable {
  import opened Base
  import opened OpenFirmware
  import opened DeviceTree

  const NAME: Bytes := [110, 97, 109, 101]                       // "name"
  const PHANDLE: Bytes := [112, 104, 97, 110, 100, 108, 101]     // "phandle"
  const MAX_PROPERTY_NAME: nat := 64

  // ---- the table in memory ------------------------------------------------------------------

  function TableSize(names: seq<Bytes>): nat {
    if names == [] then 0 else |names[0]| + 1 + TableSize(names[1..])
  }

  /** The names stand one after another from pos on, each with its terminator. */
  predicate TableAt(b: Bytes, pos: nat, names: seq<Bytes>)
    decreases |names|
  {
    names == [] || (TextAt(b, pos, names[0]) && TableAt(b, pos + |names[0]| + 1, names[1..]))
  }

  /** What dt_find_string answers: where the first entry equal to s starts, counted so that
      the first entry has offset `off`; 0 if there is none. */
  function FindFrom(names: seq<Bytes>, s: Bytes, off: nat): nat {
    if names == [] then 0
    else if names[0] == s then off
    else FindFrom(names[1..], s, off + |names[0]| + 1)
  }

  /** Offsets count from the start of the strings block, which has a hole of four bytes. */
  function Find(names: seq<Bytes>, s: Bytes): nat {
    FindFrom(names, s, 4)
  }

  /** A name is found exactly if it is in the table, and never at offset 0; what is found
      holds that very string. */
  lemma {:induction false} FoundText(b: Bytes, pos: nat, names: seq<Bytes>, s: Bytes, off: nat)
    requires TableAt(b, pos + off, names) && off > 0
    ensures FindFrom(names, s, off) != 0 <==> s in names
    ensures s in names ==> off <= FindFrom(names, s, off) && TextAt(b, pos + FindFrom(names, s, off), s)
                           && FindFrom(names, s, off) + |s| + 1 <= off + TableSize(names)
    decreases |names|
  {
    if names != [] && names[0] != s {
      FoundText(b, pos, names[1..], s, off + |names[0]| + 1);
    }
  }

  /** Later additions never move an earlier offset. */
  lemma {:induction false} OffsetsStay(names: seq<Bytes>, more: seq<Bytes>, s: Bytes, off: nat)
    requires s in names
    ensures FindFrom(names + more, s, off) == FindFrom(names, s, off)
    decreases |names|
  {
    assert (names + more)[0] == names[0] && (names + more)[1..] == names[1..] + more;
    if names[0] != s {
      OffsetsStay(names[1..], more, s, off + |names[0]| + 1);
    }
  }

  lemma {:induction false} TableThen(b: Bytes, pos: nat, names: seq<Bytes>, s: Bytes)
    requires TableAt(b, pos, names) && TextAt(b, pos + TableSize(names), s)
    ensures TableAt(b, pos, names + [s])
    ensures TableSize(names + [s]) == TableSize(names) + |s| + 1
    decreases |names|
  {
    if names != [] {
      TableThen(b, pos + |names[0]| + 1, names[1..], s);
      assert (names + [s])[0] == names[0] && (names + [s])[1..] == names[1..] + [s];
    }
  }

  lemma MoveText(b: Bytes, pos: nat, b': Bytes, pos': nat, s: Bytes)
    requires TextAt(b, pos, s) && Same(b, pos, b', pos', |s| + 1)
    ensures TextAt(b', pos', s)
  {
    SamePart(b, pos, b', pos', |s| + 1, 0, |s|);
    SamePart(b, pos, b', pos', |s| + 1, |s|, 1);
    assert b[pos + |s|..pos + |s| + 1][0] == b'[pos' + |s|];
  }

  lemma {:induction false} MoveTable(b: Bytes, pos: nat, b': Bytes, pos': nat, names: seq<Bytes>)
    requires TableAt(b, pos, names) && Same(b, pos, b', pos', TableSize(names))
    ensures TableAt(b', pos', names)
    decreases |names|
  {
    hide TextAt, Same;
    if names != [] {
      var one := |names[0]| + 1;
      SamePart(b, pos, b', pos', TableSize(names), 0, one);
      MoveText(b, pos, b', pos', names[0]);
      SamePart(b, pos, b', pos', TableSize(names), one, TableSize(names[1..]));
      MoveTable(b, pos + one, b', pos' + one, names[1..]);
    }
  }

  // ---- what the first pass collects -----------------------------------------------------------

  /** The strings so far. Until the first string is added the end of the table is not set, and
      nothing in it is found. */
  datatype Strings = Strings(names: seq<Bytes>, open: bool) {
    function Visible(): seq<Bytes> { if open then names else [] }
  }

  const NO_NAMES := Strings([PHANDLE], false)

  function Intern(st: Strings, name: Bytes): Strings {
    if name == NAME || name in st.Visible() then st else Strings(st.names + [name], true)
  }

  function InternAll(st: Strings, ps: seq<Property>): Strings {
    if ps == [] then st else Intern(InternAll(st, ps[..|ps| - 1]), ps[|ps| - 1].name)
  }

  function Scan(st: Strings, t: Tree): Strings
    decreases t, 0
  {
    ScanAll(InternAll(st, t.props), t.kids)
  }

  function ScanAll(st: Strings, ts: seq<Tree>): Strings
    decreases ts, 0
  {
    if ts == [] then st else ScanAll(Scan(st, ts[0]), ts[1..])
  }

  /** The table has every property name of these nodes other than "name". */
  predicate CoversProps(names: seq<Bytes>, ps: seq<Property>) {
    forall i :: 0 <= i < |ps| && ps[i].name != NAME ==> ps[i].name in names
  }

  predicate Covers(names: seq<Bytes>, t: Tree)
    decreases t, 0
  {
    CoversProps(names, t.props) && CoversAll(names, t.kids)
  }

  predicate CoversAll(names: seq<Bytes>, ts: seq<Tree>)
    decreases ts, 0
  {
    ts == [] || (Covers(names, ts[0]) && CoversAll(names, ts[1..]))
  }

  lemma {:induction false} InternCovers(st: Strings, ps: seq<Property>)
    ensures st.names <= InternAll(st, ps).names && CoversProps(InternAll(st, ps).names, ps)
  {
    if ps != [] {
      InternCovers(st, ps[..|ps| - 1]);
    }
  }

  lemma {:induction false} CoversMore(names: seq<Bytes>, names': seq<Bytes>, t: Tree)
    requires names <= names' && Covers(names, t)
    ensures Covers(names', t)
    decreases t, 0
  {
    CoversMoreAll(names, names', t.kids);
  }

  lemma {:induction false} CoversMoreAll(names: seq<Bytes>, names': seq<Bytes>, ts: seq<Tree>)
    requires names <= names' && CoversAll(names, ts)
    ensures CoversAll(names', ts)
    decreases ts, 0
  {
    if ts != [] {
      CoversMore(names, names', ts[0]);
      CoversMoreAll(names, names', ts[1..]);
    }
  }

  /** After the first pass every property name of the tree is in the table, and what was
      there before is still where it was. */
  lemma {:induction false} ScanCovers(st: Strings, t: Tree)
    ensures st.names <= Scan(st, t).names && Covers(Scan(st, t).names, t)
    decreases t, 0
  {
    InternCovers(st, t.props);
    var mid := InternAll(st, t.props);
    ScanAllCovers(mid, t.kids);
  }

  lemma {:induction false} ScanAllCovers(st: Strings, ts: seq<Tree>)
    ensures st.names <= ScanAll(st, ts).names && CoversAll(ScanAll(st, ts).names, ts)
    decreases ts, 0
  {
    if ts != [] {
      ScanCovers(st, ts[0]);
      ScanAllCovers(Scan(st, ts[0]), ts[1..]);
      CoversMore(Scan(st, ts[0]).names, ScanAll(st, ts).names, ts[0]);
    }
  }

  // ---- which names are there twice ----------------------------------------------------------------

  predicate Distinct(names: seq<Bytes>) {
    forall i, j :: 0 <= i < j < |names| ==> names[i] != names[j]
  }

  /** The first property name the pass meets that is not "name". */
  function FirstOf(ps: seq<Property>): Option<Bytes> {
    if ps == [] then None
    else
      match FirstOf(ps[..|ps| - 1])
      case Some(n) => Some(n)
      case None => if ps[|ps| - 1].name == NAME then None else Some(ps[|ps| - 1].name)
  }

  function FirstName(t: Tree): Option<Bytes>
    decreases t, 0
  {
    match FirstOf(t.props)
    case Some(n) => Some(n)
    case None => FirstNames(t.kids)
  }

  function FirstNames(ts: seq<Tree>): Option<Bytes>
    decreases ts, 0
  {
    if ts == [] then None
    else
      match FirstName(ts[0])
      case Some(n) => Some(n)
      case None => FirstNames(ts[1..])
  }

  /** An open table without doubles, apart from its first entry. */
  ghost predicate Tidy(st: Strings, first: Bytes) {
    && st.open && |st.names| >= 2 && st.names[0] == PHANDLE && st.names[1] == first
    && Distinct(st.names[1..]) && (first != PHANDLE ==> Distinct(st.names))
  }

  lemma {:induction false} InternTidy(st: Strings, ps: seq<Property>)
    requires st == NO_NAMES || (exists f :: Tidy(st, f))
    ensures st == NO_NAMES && FirstOf(ps) == None ==> InternAll(st, ps) == NO_NAMES
    ensures st == NO_NAMES && FirstOf(ps).Some? ==> Tidy(InternAll(st, ps), FirstOf(ps).value)
    ensures forall f :: Tidy(st, f) ==> Tidy(InternAll(st, ps), f)
  {
    if ps != [] {
      var n := |ps| - 1;
      InternTidy(st, ps[..n]);
      var mid, s := InternAll(st, ps[..n]), ps[n].name;
      if mid == NO_NAMES && s != NAME {
        assert [PHANDLE, s][1..] == [s];
      }
      forall f | Tidy(mid, f)
        ensures Tidy(Intern(mid, s), f)
      {
        TidyMore(mid, s, f);
      }
    }
  }

  lemma TidyMore(st: Strings, s: Bytes, f: Bytes)
    requires Tidy(st, f)
    ensures Tidy(Intern(st, s), f)
  {
    if s != NAME && s !in st.names {
      assert (st.names + [s])[1..] == st.names[1..] + [s];
    }
  }

  lemma {:induction false} ScanTidy(st: Strings, t: Tree)
    requires st == NO_NAMES || (exists f :: Tidy(st, f))
    ensures st == NO_NAMES && FirstName(t) == None ==> Scan(st, t) == NO_NAMES
    ensures st == NO_NAMES && FirstName(t).Some? ==> Tidy(Scan(st, t), FirstName(t).value)
    ensures forall f :: Tidy(st, f) ==> Tidy(Scan(st, t), f)
    decreases t, 0
  {
    InternTidy(st, t.props);
    ScanAllTidy(InternAll(st, t.props), t.kids);
  }

  lemma {:induction false} ScanAllTidy(st: Strings, ts: seq<Tree>)
    requires st == NO_NAMES || (exists f :: Tidy(st, f))
    ensures st == NO_NAMES && FirstNames(ts) == None ==> ScanAll(st, ts) == NO_NAMES
    ensures st == NO_NAMES && FirstNames(ts).Some? ==> Tidy(ScanAll(st, ts), FirstNames(ts).value)
    ensures forall f :: Tidy(st, f) ==> Tidy(ScanAll(st, ts), f)
    decreases ts, 0
  {
    if ts != [] {
      ScanTidy(st, ts[0]);
      ScanAllTidy(Scan(st, ts[0]), ts[1..]);
    }
  }

  /** No string is stored twice, except "phandle", and that exactly if it is the first
      property name the pass meets. */
  lemma StoredOnce(t: Tree)
    ensures var names := Scan(NO_NAMES, t).names;
            && names != [] && names[0] == PHANDLE && Distinct(names[1..])
            && (Distinct(names) <==> FirstName(t) != Some(PHANDLE))
  {
    ScanTidy(NO_NAMES, t);
    var names := Scan(NO_NAMES, t).names;
    if FirstName(t) == Some(PHANDLE) {
      assert names[0] == names[1];
    }
  }
}
