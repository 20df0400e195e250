/**
 The tree that the blob describes: what flatten_device_tree keeps of the firmware's tree.
 */
module FlatTree {
  import opened Base
  import opened OpenFirmware
  import opened DeviceTree
  import opened StringTable

  const SLASH: Byte := 47

  /** The last component of a path, without the NULs some firmware puts into paths. */
  function Component(path: Bytes): (r: Bytes)
    ensures 0 !in r && SLASH !in r && |r| <= |path|
  {
    if path == [] then []
    else
      var c, rest := path[|path| - 1], path[..|path| - 1];
      if c == SLASH then []
      else if c == 0 then Component(rest)
      else Component(rest) + [c]
  }

  lemma {:induction false} ComponentIsLast(dir: Bytes, name: Bytes)
    requires 0 !in name && SLASH !in name
    ensures Component(dir + [SLASH] + name) == name
  {
    hide Component;
    var path := dir + [SLASH] + name;
    if name != [] {
      var n := |name| - 1;
      ComponentIsLast(dir, name[..n]);
      assert path[..|path| - 1] == dir + [SLASH] + name[..n];
      assert path[|path| - 1] == name[n];
      assert name == name[..n] + [name[n]];
    }
    ComponentStep(path, |path| - 1);
    assert path[..|path|] == path;
  }

  lemma ComponentStep(path: Bytes, i: nat)
    requires i < |path|
    ensures Component(path[..i + 1]) ==
            if path[i] == SLASH then []
            else if path[i] == 0 then Component(path[..i]) else Component(path[..i]) + [path[i]]
  {
    assert path[..i + 1][..i] == path[..i];
  }

  /** All properties are printed but "name" and those without a length. */
  predicate IsKept(p: Property) {
    p.name != NAME && p.value.Some?
  }

  function Kept(ps: seq<Property>): seq<Prop> {
    if ps == [] then []
    else
      var p := ps[|ps| - 1];
      Kept(ps[..|ps| - 1]) + if IsKept(p) then [Prop(p.name, p.value.value)] else []
  }

  lemma KeptStep(ps: seq<Property>, i: nat)
    requires i < |ps|
    ensures Kept(ps[..i + 1]) ==
            Kept(ps[..i]) + if IsKept(ps[i]) then [Prop(ps[i].name, ps[i].value.value)] else []
  {
    assert ps[..i + 1][..i] == ps[..i];
  }

  predicate HasProp(ps: seq<Prop>, name: Bytes) {
    exists i :: 0 <= i < |ps| && ps[i].name == name
  }

  /** The printed properties of a node: a phandle is added exactly if none is kept. */
  function PrintedProps(t: Tree): seq<Prop> {
    var ps := Kept(t.props);
    if HasProp(ps, PHANDLE) then ps else ps + [Prop(PHANDLE, Be32(t.handle))]
  }

  function Printed(t: Tree): Node
    decreases t, 0
  {
    Node(Component(t.path), PrintedProps(t), PrintedAll(t.kids))
  }

  function PrintedAll(ts: seq<Tree>): seq<Node>
    decreases ts, 0
  {
    if ts == [] then [] else PrintedAll(ts[..|ts| - 1]) + [Printed(ts[|ts| - 1])]
  }

  lemma PrintedStep(ts: seq<Tree>, i: nat)
    requires i < |ts|
    ensures PrintedAll(ts[..i + 1]) == PrintedAll(ts[..i]) + [Printed(ts[i])]
  {
    assert ts[..i + 1][..i] == ts[..i];
  }

  /** What the firmware promises of its properties: C strings as names, short enough for the
      buffer and distinct within a node, and lengths that fit an int. */
  predicate PropsOk(ps: seq<Property>) {
    && (forall i :: 0 <= i < |ps| ==>
         && 0 < |ps[i].name| < MAX_PROPERTY_NAME && 0 !in ps[i].name
         && (ps[i].value.Some? ==> |ps[i].value.value| < TWO32 / 2))
    && (forall i, j :: 0 <= i < j < |ps| ==> ps[i].name != ps[j].name)
  }

  predicate TreeOk(t: Tree)
    decreases t, 0
  {
    PropsOk(t.props) && t.handle < TWO32 && TreesOk(t.kids)
  }

  predicate TreesOk(ts: seq<Tree>)
    decreases ts, 0
  {
    ts == [] || (TreeOk(ts[0]) && TreesOk(ts[1..]))
  }

  /** nextprop: the property after the one named, the first after "". */
  function NextName(ps: seq<Property>, prev: Bytes): Option<Bytes> {
    if prev == [] then FirstProp(ps) else NameAfter(ps, prev)
  }

  function FirstProp(ps: seq<Property>): Option<Bytes> {
    if ps == [] then None else Some(ps[0].name)
  }

  function NameAfter(ps: seq<Property>, prev: Bytes): Option<Bytes> {
    if ps == [] then None
    else if ps[0].name == prev then FirstProp(ps[1..])
    else NameAfter(ps[1..], prev)
  }

  /** The name nextprop was last given: none at first, then that of the property before. */
  function Before(ps: seq<Property>, i: nat): Bytes
    requires i <= |ps|
  {
    if i == 0 then [] else ps[i - 1].name
  }

  lemma Next(ps: seq<Property>, i: nat)
    requires PropsOk(ps) && i <= |ps|
    ensures NextName(ps, Before(ps, i)) == if i < |ps| then Some(ps[i].name) else None
  {
    if i > 0 {
      After(ps, i - 1);
    }
  }

  lemma {:induction false} After(ps: seq<Property>, i: nat)
    requires PropsOk(ps) && i < |ps|
    ensures NameAfter(ps, ps[i].name) == if i + 1 < |ps| then Some(ps[i + 1].name) else None
  {
    if i > 0 {
      assert ps[0].name != ps[i].name;
      After(ps[1..], i - 1);
    }
  }

  /** getproplen and getprop: the value of the property with this name. */
  function ValueOf(ps: seq<Property>, name: Bytes): Option<Bytes> {
    if ps == [] then None else if ps[0].name == name then ps[0].value else ValueOf(ps[1..], name)
  }

  lemma {:induction false} ValueAt(ps: seq<Property>, i: nat)
    requires PropsOk(ps) && i < |ps|
    ensures ValueOf(ps, ps[i].name) == ps[i].value
  {
    if i > 0 {
      assert ps[0].name != ps[i].name;
      ValueAt(ps[1..], i - 1);
    }
  }
}
