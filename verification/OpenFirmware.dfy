/**
 The client interface of Open Firmware as prom_init.c uses it: a tree of nodes reached one
 step at a time through child, peer and parent, each node with its path and properties.
 */
module OpenFirmware {
  import opened Base

  type Bytes = seq<Byte>

  /** A property; getproplen fails on one without a value. */
  datatype Property = Property(name: Bytes, value: Option<Bytes>)

  /** The tree the firmware holds. */
  datatype Tree = Tree(handle: nat, path: Bytes, props: seq<Property>, kids: seq<Tree>)

  /** What the firmware answers. A handle of 0 is no node. */
  datatype Firmware = Firmware(
    child: map<nat, nat>, peer: map<nat, nat>, parent: map<nat, nat>,
    path: map<nat, Bytes>, props: map<nat, seq<Property>>)
  {
    function Child(n: nat): nat { if n in child then child[n] else 0 }
    function Peer(n: nat): nat { if n in peer then peer[n] else 0 }
    function Parent(n: nat): nat { if n in parent then parent[n] else 0 }
    function Path(n: nat): Bytes { if n in path then path[n] else [] }
    function Props(n: nat): seq<Property> { if n in props then props[n] else [] }
  }

  function First(ts: seq<Tree>): nat {
    if ts == [] then 0 else ts[0].handle
  }

  /** The firmware holds tree `t`, below `parent` and followed by the sibling `next`. */
  ghost predicate HasTree(fw: Firmware, parent: nat, next: nat, t: Tree)
    decreases t, 0
  {
    && t.handle != 0 && fw.Parent(t.handle) == parent && fw.Peer(t.handle) == next
    && fw.Path(t.handle) == t.path && fw.Props(t.handle) == t.props
    && fw.Child(t.handle) == First(t.kids)
    && HasTrees(fw, t.handle, t.kids)
  }

  /** The trees are the last children of `parent`, in order. */
  ghost predicate HasTrees(fw: Firmware, parent: nat, ts: seq<Tree>)
    decreases ts, 0
  {
    ts == [] || (HasTree(fw, parent, First(ts[1..]), ts[0]) && HasTrees(fw, parent, ts[1..]))
  }

  /** The whole firmware tree. */
  ghost predicate Holds(fw: Firmware, root: Tree) {
    fw.Peer(0) == root.handle && HasTree(fw, 0, 0, root)
  }

  lemma FirstIsNode(fw: Firmware, parent: nat, ts: seq<Tree>)
    requires HasTrees(fw, parent, ts)
    ensures First(ts) == 0 <==> ts == []
  {
  }

  // ---- traversal ------------------------------------------------------------------------

  function Preorder(t: Tree): seq<nat>
    decreases t, 0
  {
    [t.handle] + Preorders(t.kids)
  }

  function Preorders(ts: seq<Tree>): seq<nat>
    decreases ts, 0
  {
    if ts == [] then [] else Preorder(ts[0]) + Preorders(ts[1..])
  }

  /** One level of the way from the root to a node: the parent, and the siblings still to
      come. */
  datatype Level = Level(parent: nat, rest: seq<Tree>)

  /** A place in the tree: the subtree there and the way to it, root first. */
  datatype Place = Place(here: Tree, way: seq<Level>)

  function Later(way: seq<Level>): seq<nat> {
    if way == [] then [] else Preorders(way[|way| - 1].rest) + Later(way[..|way| - 1])
  }

  /** The nodes that come after this place. */
  function Todo(p: Place): seq<nat> {
    Preorders(p.here.kids) + Later(p.way)
  }

  ghost predicate IsWay(fw: Firmware, way: seq<Level>) {
    && way != [] && way[0] == Level(0, [])
    && (forall i :: 0 <= i < |way| ==> HasTrees(fw, way[i].parent, way[i].rest))
    && (forall i :: 0 < i < |way| ==>
         && way[i].parent != 0
         && fw.Parent(way[i].parent) == way[i - 1].parent
         && fw.Peer(way[i].parent) == First(way[i - 1].rest))
  }

  ghost predicate IsPlace(fw: Firmware, p: Place) {
    && IsWay(fw, p.way)
    && HasTree(fw, p.way[|p.way| - 1].parent, First(p.way[|p.way| - 1].rest), p.here)
  }

  function RootPlace(root: Tree): Place {
    Place(root, [Level(0, [])])
  }

  /** The next sibling of the node a way leads to. */
  function Sibling(way: seq<Level>): Place
    requires way != [] && way[|way| - 1].rest != []
  {
    var n := |way| - 1;
    Place(way[n].rest[0], way[..n] + [Level(way[n].parent, way[n].rest[1..])])
  }

  lemma {:induction false} SiblingIsPlace(fw: Firmware, way: seq<Level>)
    requires IsWay(fw, way) && way[|way| - 1].rest != []
    ensures IsPlace(fw, Sibling(way))
    ensures Later(way) == [Sibling(way).here.handle] + Todo(Sibling(way))
  {
    hide Preorder, Preorders, Later;
    SiblingIsNext(way);
  }

  lemma {:induction false} SiblingIsNext(way: seq<Level>)
    requires way != [] && way[|way| - 1].rest != []
    ensures Later(way) == [Sibling(way).here.handle] + Todo(Sibling(way))
  {
    hide Later, Preorder, Preorders;
    var n := |way| - 1;
    var t, more := way[n].rest[0], way[n].rest[1..];
    var way' := Sibling(way).way;
    assert way'[..n] == way[..n] && way'[n].rest == more;
    LaterLast(way);
    LaterLast(way');
    PreordersHead(way[n].rest);
  }

  lemma LaterLast(way: seq<Level>)
    requires way != []
    ensures Later(way) == Preorders(way[|way| - 1].rest) + Later(way[..|way| - 1])
  {
  }

  lemma PreordersHead(ts: seq<Tree>)
    requires ts != []
    ensures Preorders(ts) == [ts[0].handle] + Preorders(ts[0].kids) + Preorders(ts[1..])
  {
  }

  /** The first child of a node that has one. */
  function FirstChild(p: Place): Place
    requires p.here.kids != []
  {
    Place(p.here.kids[0], p.way + [Level(p.here.handle, p.here.kids[1..])])
  }

  lemma ChildIsPlace(fw: Firmware, p: Place)
    requires IsPlace(fw, p) && p.here.kids != []
    ensures IsPlace(fw, FirstChild(p))
  {
    hide HasTree, HasTrees;
    FirstKid(fw, p.way[|p.way| - 1].parent, First(p.way[|p.way| - 1].rest), p.here);
  }

  lemma FirstKid(fw: Firmware, parent: nat, next: nat, t: Tree)
    requires HasTree(fw, parent, next, t) && t.kids != []
    ensures t.handle != 0 && fw.Parent(t.handle) == parent && fw.Peer(t.handle) == next
    ensures HasTree(fw, t.handle, First(t.kids[1..]), t.kids[0]) && HasTrees(fw, t.handle, t.kids[1..])
  {
  }

  lemma ChildIsNext(p: Place)
    requires p.here.kids != []
    ensures Todo(p) == [p.here.kids[0].handle] + Todo(FirstChild(p))
  {
    var kids := p.here.kids;
    var way := FirstChild(p).way;
    assert way[..|way| - 1] == p.way;
    assert Later(way) == Preorders(kids[1..]) + Later(p.way);
    assert Preorders(kids) == [kids[0].handle] + Preorders(kids[0].kids) + Preorders(kids[1..]);
  }

  /** prom_next_node: from node 0 to the root; from a node to its first child, its peer, or
      the peer of the nearest ancestor that has one. It goes to the next node in preorder,
      and stops after the last. `p` is where the given node is. */
  method NextNode(fw: Firmware, start: nat, ghost root: Tree, ghost p: Option<Place>)
    returns (more: bool, node: nat, ghost q: Place)
    requires Holds(fw, root)
    requires if start == 0 then p == None else p.Some? && IsPlace(fw, p.value) && p.value.here.handle == start
    ensures more ==> IsPlace(fw, q) && q.here.handle == node != 0
    ensures start == 0 ==> more && q == RootPlace(root)
    ensures start != 0 && more ==> Todo(p.value) == [node] + Todo(q)
    ensures start != 0 && !more ==> Todo(p.value) == [] && node == 0
  {
    q := RootPlace(root);
    if start != 0 {
      FirstIsNode(fw, start, p.value.here.kids);
      node := fw.Child(start);
      if node != 0 {
        q := FirstChild(p.value);
        ChildIsPlace(fw, p.value);
        ChildIsNext(p.value);
        return true, node, q;
      }
    }
    ghost var way := if p.Some? then p.value.way else [Level(0, [])];
    FirstIsNode(fw, way[|way| - 1].parent, way[|way| - 1].rest);
    node := fw.Peer(start);
    if node != 0 {
      if start != 0 {
        q := Sibling(way);
        SiblingIsPlace(fw, way);
      }
      return true, node, q;
    }
    var up := start;
    while true
      invariant start != 0 && IsWay(fw, way) && way[|way| - 1].rest == [] && node == 0
      invariant fw.Parent(up) == way[|way| - 1].parent && Todo(p.value) == Later(way)
      decreases |way|
    {
      up := fw.Parent(up);
      if up == 0 {
        return false, node, q;
      }
      way := way[..|way| - 1];
      FirstIsNode(fw, way[|way| - 1].parent, way[|way| - 1].rest);
      node := fw.Peer(up);
      if node != 0 {
        q := Sibling(way);
        SiblingIsPlace(fw, way);
        return true, node, q;
      }
    }
  }

  /** The loop every caller writes: start from 0 and go on until there are no more. It visits
      the nodes in preorder. */
  method AllNodes(fw: Firmware, ghost root: Tree) returns (visited: seq<nat>)
    requires Holds(fw, root)
    ensures visited == Preorder(root)
  {
    visited := [];
    ghost var q;
    var more, node;
    more, node, q := NextNode(fw, 0, root, None);
    while more
      invariant more ==> IsPlace(fw, q) && q.here.handle == node != 0
      invariant Preorder(root) == visited + if more then [node] + Todo(q) else []
      decreases |Preorder(root)| - |visited|, more
    {
      visited := visited + [node];
      more, node, q := NextNode(fw, node, root, Some(q));
    }
  }

  // ---- no node comes twice ------------------------------------------------------------------

  /** The firmware's answers fix the subtree under a handle. */
  lemma {:induction false} SameTree(fw: Firmware, p: nat, n: nat, t: Tree, p': nat, n': nat, t': Tree)
    requires HasTree(fw, p, n, t) && HasTree(fw, p', n', t') && t.handle == t'.handle
    ensures t == t'
    decreases t, 0
  {
    SameTrees(fw, t.handle, t.kids, t.handle, t'.kids);
  }

  lemma {:induction false} SameTrees(fw: Firmware, p: nat, ts: seq<Tree>, p': nat, ts': seq<Tree>)
    requires HasTrees(fw, p, ts) && HasTrees(fw, p', ts') && First(ts) == First(ts')
    ensures ts == ts'
    decreases ts, 0
  {
    if ts != [] && ts' != [] {
      SameTree(fw, p, First(ts[1..]), ts[0], p', First(ts'[1..]), ts'[0]);
      SameTrees(fw, p, ts[1..], p', ts'[1..]);
      assert ts == [ts[0]] + ts[1..] && ts' == [ts'[0]] + ts'[1..];
    }
  }

  /** Two ways that end below the same parent, before the same sibling, are one way. */
  lemma {:induction false} SameWay(fw: Firmware, w: seq<Level>, w': seq<Level>)
    requires IsWay(fw, w) && IsWay(fw, w')
    requires w[|w| - 1].parent == w'[|w'| - 1].parent
    requires First(w[|w| - 1].rest) == First(w'[|w'| - 1].rest)
    ensures w == w'
  {
    var n, n' := |w| - 1, |w'| - 1;
    SameTrees(fw, w[n].parent, w[n].rest, w'[n'].parent, w'[n'].rest);
    if n > 0 && n' > 0 {
      SameWay(fw, w[..n], w'[..n']);
      assert w == w[..n] + [w[n]] && w' == w'[..n'] + [w'[n']];
    }
  }

  /** A node is at one place only. */
  lemma SamePlace(fw: Firmware, p: Place, q: Place)
    requires IsPlace(fw, p) && IsPlace(fw, q) && p.here.handle == q.here.handle
    ensures p == q
  {
    SameTree(fw, p.way[|p.way| - 1].parent, First(p.way[|p.way| - 1].rest), p.here,
             q.way[|q.way| - 1].parent, First(q.way[|q.way| - 1].rest), q.here);
    SameWay(fw, p.way, q.way);
  }

  /** Where the i-th node after place p is. */
  lemma {:induction false} PlaceOf(fw: Firmware, p: Place, i: nat) returns (q: Place)
    requires IsPlace(fw, p) && i < |Todo(p)|
    ensures IsPlace(fw, q) && q.here.handle == Todo(p)[i] && Todo(q) == Todo(p)[i + 1..]
    decreases i
  {
    q := NextPlace(fw, p, p.way);
    if i > 0 {
      assert Todo(p)[i] == Todo(q)[i - 1] && Todo(q)[i..] == Todo(p)[i + 1..];
      q := PlaceOf(fw, q, i - 1);
    }
  }

  lemma {:induction false} NextPlace(fw: Firmware, p: Place, way: seq<Level>) returns (q: Place)
    requires IsPlace(fw, p) && Todo(p) != []
    requires p.here.kids != [] || (IsWay(fw, way) && Later(way) == Todo(p))
    ensures IsPlace(fw, q) && Todo(p) == [q.here.handle] + Todo(q)
    decreases |way|
  {
    if p.here.kids != [] {
      ChildIsPlace(fw, p);
      ChildIsNext(p);
      q := FirstChild(p);
    } else if way[|way| - 1].rest != [] {
      SiblingIsPlace(fw, way);
      q := Sibling(way);
    } else {
      q := NextPlace(fw, p, way[..|way| - 1]);
    }
  }

  /** Each node of the tree comes exactly once. */
  lemma EachNodeOnce(fw: Firmware, root: Tree, i: nat, j: nat)
    requires Holds(fw, root) && i < j < |Preorder(root)|
    ensures Preorder(root)[i] != Preorder(root)[j]
  {
    var top := RootPlace(root);
    assert Preorder(root) == [root.handle] + Todo(top);
    var q := PlaceOf(fw, top, j - 1);
    var p := top;
    if i > 0 {
      p := PlaceOf(fw, top, i - 1);
    }
    assert |Todo(q)| < |Todo(p)|;
    if p.here.handle == q.here.handle {
      SamePlace(fw, p, q);
    }
  }
}
