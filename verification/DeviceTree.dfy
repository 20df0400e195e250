/**
 The flattened device tree format of the Devicetree Specification: a parser for the structure
 block (section 5.4) and the strings block (section 5.5), what it means for a tree to be printed
 at some place in memory, and the proof that parsing undoes printing whatever lies in the
 padding.
 */
module DeviceTree {
  import opened Base
  import opened OpenFirmware

  const FDT_BEGIN_NODE: nat := 1
  const FDT_END_NODE: nat := 2
  const FDT_PROP: nat := 3
  const FDT_NOP: nat := 4
  const FDT_END: nat := 9
  const FDT_MAGIC: nat := 0xd00d_feed
  const FDT_VERSION: nat := 16
  const FDT_HEADER_SIZE: nat := 36
  const TWO32: nat := 0x1_0000_0000

  datatype Prop = Prop(name: Bytes, value: Bytes)

  datatype Node = Node(name: Bytes, props: seq<Prop>, kids: seq<Node>)

  /** A 32-bit number, most significant byte first. */
  function Be32(v: nat): (b: Bytes)
    ensures |b| == 4
  {
    [v / 0x100_0000 % 256, v / 0x1_0000 % 256, v / 0x100 % 256, v % 256]
  }

  function Word32(b: Bytes, pos: nat): (v: nat)
    requires pos + 4 <= |b|
  {
    var b0: nat, b1: nat, b2: nat, b3: nat := b[pos], b[pos + 1], b[pos + 2], b[pos + 3];
    b0 * 0x100_0000 + b1 * 0x1_0000 + b2 * 0x100 + b3
  }

  /** How many words n bytes take up. */
  function Words(n: nat): (r: nat)
    ensures n <= 4 * r < n + 4
  {
    (n + 3) / 4
  }

  /** The next multiple of 4. */
  function Up4(n: nat): (r: nat)
    ensures n <= r < n + 4
  {
    4 * Words(n)
  }

  // ---- the parser ---------------------------------------------------------------------

  /** The NUL-terminated string at pos. */
  function Text(b: Bytes, pos: nat): (r: Option<Bytes>)
    ensures r.Some? ==> pos + |r.value| < |b|
    decreases |b| - pos
  {
    if pos >= |b| then None
    else if b[pos] == 0 then Some([])
    else
      match Text(b, pos + 1)
      case None => None
      case Some(t) => Some([b[pos]] + t)
  }

  /** What follows a node's name, up to and including the token that ends the node. */
  datatype Body = Body(props: seq<Prop>, kids: seq<Node>, end: nat)

  function ParseBody(b: Bytes, strings: Bytes, pos: nat): (r: Option<Body>)
    ensures r.Some? ==> pos + 4 <= r.value.end
    decreases |b| - pos
  {
    if pos + 4 > |b| then None
    else
      match Word32(b, pos)
      case 1 => ParseKid(b, strings, pos)
      case 2 => Some(Body([], [], pos + 4))
      case 3 => ParseProp(b, strings, pos)
      case 4 => ParseBody(b, strings, pos + 4)
      case _ => None
  }

  function ParseProp(b: Bytes, strings: Bytes, pos: nat): (r: Option<Body>)
    requires pos + 4 <= |b|
    ensures r.Some? ==> pos + 4 <= r.value.end
    decreases |b| - pos, 0
  {
    if pos + 12 > |b| then None
    else
      var len := Word32(b, pos + 4);
      var name := Text(strings, Word32(b, pos + 8));
      if name == None || pos + 12 + len > |b| then None
      else
        match ParseBody(b, strings, Up4(pos + 12 + len))
        case None => None
        case Some(rest) =>
          Some(Body([Prop(name.value, b[pos + 12..pos + 12 + len])] + rest.props, rest.kids, rest.end))
  }

  /** A child node and what comes after it; properties may not follow a child. */
  function ParseKid(b: Bytes, strings: Bytes, pos: nat): (r: Option<Body>)
    requires pos + 4 <= |b|
    ensures r.Some? ==> pos + 4 <= r.value.end
    decreases |b| - pos, 0
  {
    match Text(b, pos + 4)
    case None => None
    case Some(name) =>
      match ParseBody(b, strings, Up4(pos + 4 + |name| + 1))
      case None => None
      case Some(kid) =>
        match ParseBody(b, strings, kid.end)
        case None => None
        case Some(rest) =>
          if rest.props != [] then None
          else Some(Body([], [Node(name, kid.props, kid.kids)] + rest.kids, rest.end))
  }

  function SkipNops(b: Bytes, pos: nat): (r: nat)
    ensures pos <= r
    decreases |b| - pos
  {
    if pos + 4 <= |b| && Word32(b, pos) == FDT_NOP then SkipNops(b, pos + 4) else pos
  }

  /** The structure block: one node, then FDT_END. */
  function ParseStruct(b: Bytes, strings: Bytes): Option<Node> {
    var pos := SkipNops(b, 0);
    if pos + 4 > |b| || Word32(b, pos) != FDT_BEGIN_NODE then None
    else
      match Text(b, pos + 4)
      case None => None
      case Some(name) =>
        match ParseBody(b, strings, Up4(pos + 4 + |name| + 1))
        case None => None
        case Some(root) =>
          var end := SkipNops(b, root.end);
          if end + 4 > |b| || Word32(b, end) != FDT_END then None
          else Some(Node(name, root.props, root.kids))
  }

  /** A whole blob of version 16, whose header does not give the size of the structure
      block. */
  function ParseBlob(b: Bytes): Option<Node> {
    if |b| < FDT_HEADER_SIZE || Word32(b, 0) != FDT_MAGIC || Word32(b, 4) != |b| then None
    else if Word32(b, 20) < FDT_VERSION || Word32(b, 24) > FDT_VERSION then None
    else
      var structure, strings, size := Word32(b, 8), Word32(b, 12), Word32(b, 32);
      if structure > |b| || strings + size > |b| then None
      else ParseStruct(b[structure..], b[strings..strings + size])
  }

  // ---- the printed form -----------------------------------------------------------------

  // Sizes and positions of printed things are counted in words.

  function PropSize(p: Prop): nat {
    3 + Words(|p.value|)
  }

  function PropsSize(ps: seq<Prop>): nat {
    if ps == [] then 0 else PropSize(ps[0]) + PropsSize(ps[1..])
  }

  function HeadSize(name: Bytes): nat {
    1 + Words(|name| + 1)
  }

  function NodeSize(n: Node): nat
    decreases n, 0
  {
    HeadSize(n.name) + PropsSize(n.props) + KidsSize(n.kids) + 1
  }

  function KidsSize(ks: seq<Node>): nat
    decreases ks, 0
  {
    if ks == [] then 0 else NodeSize(ks[0]) + KidsSize(ks[1..])
  }

  /** The number v stands at byte pos. */
  predicate NumberAt(b: Bytes, pos: nat, v: nat) {
    pos + 4 <= |b| && Word32(b, pos) == v
  }

  /** The string s with its terminator stands at byte pos. */
  predicate TextAt(b: Bytes, pos: nat, s: Bytes) {
    pos + |s| < |b| && b[pos..pos + |s|] == s && b[pos + |s|] == 0 && 0 !in s
  }

  predicate HeadAt(b: Bytes, w: nat, name: Bytes) {
    NumberAt(b, 4 * w, FDT_BEGIN_NODE) && TextAt(b, 4 * w + 4, name)
  }

  predicate PropAt(b: Bytes, strings: Bytes, w: nat, p: Prop) {
    var pos := 4 * w;
    && NumberAt(b, pos, FDT_PROP) && NumberAt(b, pos + 4, |p.value|)
    && pos + 12 + |p.value| <= |b| && Text(strings, Word32(b, pos + 8)) == Some(p.name)
    && b[pos + 12..pos + 12 + |p.value|] == p.value
  }

  predicate PropsAt(b: Bytes, strings: Bytes, w: nat, ps: seq<Prop>)
    decreases |ps|
  {
    ps == [] || (PropAt(b, strings, w, ps[0]) && PropsAt(b, strings, w + PropSize(ps[0]), ps[1..]))
  }

  /** Node n is printed from word w on. */
  predicate NodeAt(b: Bytes, strings: Bytes, w: nat, n: Node)
    decreases n, 0
  {
    var props := w + HeadSize(n.name);
    var kids := props + PropsSize(n.props);
    && HeadAt(b, w, n.name) && PropsAt(b, strings, props, n.props)
    && KidsAt(b, strings, kids, n.kids)
    && NumberAt(b, 4 * (kids + KidsSize(n.kids)), FDT_END_NODE)
  }

  predicate KidsAt(b: Bytes, strings: Bytes, w: nat, ks: seq<Node>)
    decreases ks, 0
  {
    ks == [] || (NodeAt(b, strings, w, ks[0]) && KidsAt(b, strings, w + NodeSize(ks[0]), ks[1..]))
  }

  // ---- parsing undoes printing -------------------------------------------------------------

  lemma {:induction false} TextOf(b: Bytes, pos: nat, s: Bytes)
    requires TextAt(b, pos, s)
    ensures Text(b, pos) == Some(s)
    decreases |s|
  {
    if s != [] {
      assert b[pos] == b[pos..pos + |s|][0];
      assert b[pos + 1..pos + |s|] == b[pos..pos + |s|][1..];
      TextOf(b, pos + 1, s[1..]);
      assert s == [s[0]] + s[1..];
    }
  }

  /** Bytes after a word boundary end in the word they would end in by themselves. */
  lemma UpFrom(w: nat, n: nat)
    ensures Up4(4 * w + n) == 4 * (w + Words(n))
  {
  }

  lemma ParsesProp(b: Bytes, strings: Bytes, w: nat, p: Prop)
    requires PropAt(b, strings, w, p) && ParseBody(b, strings, 4 * (w + PropSize(p))).Some?
    ensures var rest := ParseBody(b, strings, 4 * (w + PropSize(p))).value;
            ParseBody(b, strings, 4 * w) == Some(Body([p] + rest.props, rest.kids, rest.end))
  {
    UpFrom(w + 3, |p.value|);
    assert ParseBody(b, strings, 4 * w) == ParseProp(b, strings, 4 * w);
  }

  lemma {:induction false} ParsesProps(b: Bytes, strings: Bytes, w: nat, ps: seq<Prop>)
    requires PropsAt(b, strings, w, ps) && ParseBody(b, strings, 4 * (w + PropsSize(ps))).Some?
    ensures var rest := ParseBody(b, strings, 4 * (w + PropsSize(ps))).value;
            ParseBody(b, strings, 4 * w) == Some(Body(ps + rest.props, rest.kids, rest.end))
    decreases |ps|
  {
    hide ParseBody, PropAt;
    var rest := ParseBody(b, strings, 4 * (w + PropsSize(ps))).value;
    if ps == [] {
      assert ps + rest.props == rest.props;
    } else {
      ParsesProps(b, strings, w + PropSize(ps[0]), ps[1..]);
      ParsesProp(b, strings, w, ps[0]);
      assert ps + rest.props == [ps[0]] + (ps[1..] + rest.props);
    }
  }

  lemma ParsesHead(b: Bytes, w: nat, name: Bytes)
    requires HeadAt(b, w, name)
    ensures Text(b, 4 * w + 4) == Some(name) && Up4(4 * w + 4 + |name| + 1) == 4 * (w + HeadSize(name))
  {
    UpFrom(w + 1, |name| + 1);
    TextOf(b, 4 * w + 4, name);
  }

  /** What a printed node parses back to. */
  lemma {:induction false} ParsesNode(b: Bytes, strings: Bytes, w: nat, n: Node)
    requires NodeAt(b, strings, w, n)
    ensures Text(b, 4 * w + 4) == Some(n.name) && Up4(4 * w + 4 + |n.name| + 1) == 4 * (w + HeadSize(n.name))
    ensures ParseBody(b, strings, 4 * (w + HeadSize(n.name))) == Some(Body(n.props, n.kids, 4 * (w + NodeSize(n))))
    decreases n, 0
  {
    hide ParseBody, HeadAt, NumberAt, Text, PropsAt, Words;
    ParsesHead(b, w, n.name);
    var props := w + HeadSize(n.name);
    ParsesKids(b, strings, props + PropsSize(n.props), n.kids);
    ParsesProps(b, strings, props, n.props);
    assert n.props + [] == n.props;
  }

  lemma {:induction false} ParsesKid(b: Bytes, strings: Bytes, w: nat, n: Node, rest: Body)
    requires NumberAt(b, 4 * w, FDT_BEGIN_NODE) && Text(b, 4 * w + 4) == Some(n.name)
    requires Up4(4 * w + 4 + |n.name| + 1) == 4 * (w + HeadSize(n.name))
    requires ParseBody(b, strings, 4 * (w + HeadSize(n.name))) == Some(Body(n.props, n.kids, 4 * (w + NodeSize(n))))
    requires ParseBody(b, strings, 4 * (w + NodeSize(n))) == Some(rest) && rest.props == []
    ensures ParseBody(b, strings, 4 * w) == Some(Body([], [n] + rest.kids, rest.end))
  {
    hide Text, Up4, HeadSize, NodeSize, Word32;
    assert Node(n.name, n.props, n.kids) == n;
    assert ParseBody(b, strings, 4 * w) == ParseKid(b, strings, 4 * w);
  }

  lemma NoKids(b: Bytes, strings: Bytes, w: nat)
    requires NumberAt(b, 4 * w, FDT_END_NODE)
    ensures ParseBody(b, strings, 4 * w) == Some(Body([], [], 4 * w + 4))
  {
  }

  lemma {:induction false} ParsesKids(b: Bytes, strings: Bytes, w: nat, ks: seq<Node>)
    requires KidsAt(b, strings, w, ks) && NumberAt(b, 4 * (w + KidsSize(ks)), FDT_END_NODE)
    ensures ParseBody(b, strings, 4 * w) == Some(Body([], ks, 4 * (w + KidsSize(ks) + 1)))
    decreases ks, 0
  {
    hide ParseBody, Text, PropsAt, Words, Word32, TextAt;
    if ks == [] {
      NoKids(b, strings, w);
    } else {
      ParsesNode(b, strings, w, ks[0]);
      ParsesKids(b, strings, w + NodeSize(ks[0]), ks[1..]);
      ParsesKid(b, strings, w, ks[0], Body([], ks[1..], 4 * (w + KidsSize(ks) + 1)));
      assert ks == [ks[0]] + ks[1..];
    }
  }

  /** The round trip: a printed structure block parses back to the tree it was printed from,
      whatever the padding. */
  lemma {:induction false} ParseUndoesPrint(b: Bytes, strings: Bytes, root: Node)
    requires NodeAt(b, strings, 0, root) && NumberAt(b, 4 * NodeSize(root), FDT_END)
    ensures ParseStruct(b, strings) == Some(root)
  {
    hide ParseBody, PropsAt, KidsAt, Words, Text, TextAt;
    ParsesNode(b, strings, 0, root);
    assert Node(root.name, root.props, root.kids) == root;
  }

  // ---- a printed tree can be moved ------------------------------------------------------------

  /** The len bytes at pos in b and at pos' in b' are the same. */
  predicate Same(b: Bytes, pos: nat, b': Bytes, pos': nat, len: nat) {
    pos + len <= |b| && pos' + len <= |b'| && b[pos..pos + len] == b'[pos'..pos' + len]
  }

  lemma SamePart(b: Bytes, pos: nat, b': Bytes, pos': nat, len: nat, skip: nat, part: nat)
    requires Same(b, pos, b', pos', len) && skip + part <= len
    ensures Same(b, pos + skip, b', pos' + skip, part)
  {
    Slice(b, pos, pos + len, skip, skip + part);
    Slice(b', pos', pos' + len, skip, skip + part);
  }

  lemma Slice(b: Bytes, lo: nat, hi: nat, i: nat, j: nat)
    requires lo <= hi <= |b| && i <= j <= hi - lo
    ensures b[lo + i..lo + j] == b[lo..hi][i..j]
  {
    assert forall k :: 0 <= k < j - i ==> b[lo + i..lo + j][k] == b[lo..hi][i..j][k];
  }

  lemma MoveNumber(b: Bytes, pos: nat, b': Bytes, pos': nat, v: nat)
    requires NumberAt(b, pos, v) && Same(b, pos, b', pos', 4)
    ensures NumberAt(b', pos', v)
  {
    var s := b[pos..pos + 4];
    assert s[0] == b'[pos'] && s[1] == b'[pos' + 1] && s[2] == b'[pos' + 2] && s[3] == b'[pos' + 3];
  }

  lemma MoveHead(b: Bytes, w: nat, b': Bytes, w': nat, name: Bytes)
    requires HeadAt(b, w, name) && Same(b, 4 * w, b', 4 * w', 4 * HeadSize(name))
    ensures HeadAt(b', w', name)
  {
    var pos, pos', all := 4 * w, 4 * w', 4 * HeadSize(name);
    SamePart(b, pos, b', pos', all, 0, 4);
    MoveNumber(b, pos, b', pos', FDT_BEGIN_NODE);
    SamePart(b, pos, b', pos', all, 4, |name|);
    SamePart(b, pos, b', pos', all, 4 + |name|, 1);
    assert b[pos + 4 + |name|..pos + 4 + |name| + 1][0] == b'[pos' + 4 + |name|];
  }

  lemma MoveProp(b: Bytes, strings: Bytes, w: nat, b': Bytes, w': nat, p: Prop)
    requires PropAt(b, strings, w, p) && Same(b, 4 * w, b', 4 * w', 4 * PropSize(p))
    ensures PropAt(b', strings, w', p)
  {
    hide Word32, Text, Same;
    var pos, pos', all := 4 * w, 4 * w', 4 * PropSize(p);
    SamePart(b, pos, b', pos', all, 0, 4);
    MoveNumber(b, pos, b', pos', FDT_PROP);
    SamePart(b, pos, b', pos', all, 4, 4);
    MoveNumber(b, pos + 4, b', pos' + 4, |p.value|);
    SamePart(b, pos, b', pos', all, 8, 4);
    MoveNumber(b, pos + 8, b', pos' + 8, Word32(b, pos + 8));
    SamePart(b, pos, b', pos', all, 12, |p.value|);
    SameBytes(b, pos + 12, b', pos' + 12, |p.value|);
  }

  lemma SameBytes(b: Bytes, pos: nat, b': Bytes, pos': nat, len: nat)
    requires Same(b, pos, b', pos', len)
    ensures pos' + len <= |b'| && pos + len <= |b| && b'[pos'..pos' + len] == b[pos..pos + len]
  {
  }

  /** The same words stand at w in b and at w' in b'. */
  predicate SameWords(b: Bytes, w: nat, b': Bytes, w': nat, size: nat) {
    Same(b, 4 * w, b', 4 * w', 4 * size)
  }

  lemma SameWordsPart(b: Bytes, w: nat, b': Bytes, w': nat, size: nat, skip: nat, part: nat)
    requires SameWords(b, w, b', w', size) && skip + part <= size
    ensures SameWords(b, w + skip, b', w' + skip, part)
  {
    SamePart(b, 4 * w, b', 4 * w', 4 * size, 4 * skip, 4 * part);
  }

  lemma {:induction false} MoveProps(b: Bytes, strings: Bytes, w: nat, b': Bytes, w': nat, ps: seq<Prop>)
    requires PropsAt(b, strings, w, ps) && SameWords(b, w, b', w', PropsSize(ps))
    ensures PropsAt(b', strings, w', ps)
    decreases |ps|
  {
    hide PropAt, Same;
    if ps != [] {
      var one := PropSize(ps[0]);
      SameWordsPart(b, w, b', w', PropsSize(ps), 0, one);
      MoveProp(b, strings, w, b', w', ps[0]);
      SameWordsPart(b, w, b', w', PropsSize(ps), one, PropsSize(ps[1..]));
      MoveProps(b, strings, w + one, b', w' + one, ps[1..]);
    }
  }

  /** A printed node is printed wherever its words are copied. */
  lemma {:induction false} MoveNode(b: Bytes, strings: Bytes, w: nat, b': Bytes, w': nat, n: Node)
    requires NodeAt(b, strings, w, n) && SameWords(b, w, b', w', NodeSize(n))
    ensures NodeAt(b', strings, w', n)
    decreases n, 0
  {
    hide HeadAt, PropsAt, KidsAt, NumberAt, Same, HeadSize, PropsSize, KidsSize;
    var all, props := NodeSize(n), HeadSize(n.name);
    var kids := props + PropsSize(n.props);
    SameWordsPart(b, w, b', w', all, 0, props);
    MoveHead(b, w, b', w', n.name);
    SameWordsPart(b, w, b', w', all, props, PropsSize(n.props));
    MoveProps(b, strings, w + props, b', w' + props, n.props);
    SameWordsPart(b, w, b', w', all, kids, KidsSize(n.kids));
    MoveKids(b, strings, w + kids, b', w' + kids, n.kids);
    SameWordsPart(b, w, b', w', all, all - 1, 1);
    MoveNumber(b, 4 * (w + all - 1), b', 4 * (w' + all - 1), FDT_END_NODE);
  }

  lemma {:induction false} MoveKids(b: Bytes, strings: Bytes, w: nat, b': Bytes, w': nat, ks: seq<Node>)
    requires KidsAt(b, strings, w, ks) && SameWords(b, w, b', w', KidsSize(ks))
    ensures KidsAt(b', strings, w', ks)
    decreases ks, 0
  {
    hide HeadAt, PropsAt, NumberAt, Same;
    if ks != [] {
      var one := NodeSize(ks[0]);
      SameWordsPart(b, w, b', w', KidsSize(ks), 0, one);
      MoveNode(b, strings, w, b', w', ks[0]);
      SameWordsPart(b, w, b', w', KidsSize(ks), one, KidsSize(ks[1..]));
      MoveKids(b, strings, w + one, b', w' + one, ks[1..]);
    }
  }

  // ---- printing one thing after another ---------------------------------------------------------

  lemma {:induction false} PropsThen(b: Bytes, strings: Bytes, w: nat, ps: seq<Prop>, p: Prop)
    requires PropsAt(b, strings, w, ps) && PropAt(b, strings, w + PropsSize(ps), p)
    ensures PropsAt(b, strings, w, ps + [p])
    ensures PropsSize(ps + [p]) == PropsSize(ps) + PropSize(p)
    decreases |ps|
  {
    hide PropAt;
    if ps != [] {
      PropsThen(b, strings, w + PropSize(ps[0]), ps[1..], p);
      assert (ps + [p])[1..] == ps[1..] + [p];
    }
  }

  lemma {:induction false} KidsThen(b: Bytes, strings: Bytes, w: nat, ks: seq<Node>, n: Node)
    requires KidsAt(b, strings, w, ks) && NodeAt(b, strings, w + KidsSize(ks), n)
    ensures KidsAt(b, strings, w, ks + [n])
    ensures KidsSize(ks + [n]) == KidsSize(ks) + NodeSize(n)
    decreases |ks|
  {
    hide HeadAt, PropsAt, NumberAt;
    if ks != [] {
      KidsThen(b, strings, w + NodeSize(ks[0]), ks[1..], n);
      assert (ks + [n])[1..] == ks[1..] + [n];
    }
  }

  /** Writing a number puts it there. */
  lemma WrittenNumber(b: Bytes, pos: nat, v: nat)
    requires pos + 4 <= |b| && b[pos..pos + 4] == Be32(v) && v < TWO32
    ensures NumberAt(b, pos, v)
  {
    var s := b[pos..pos + 4];
    assert b[pos] == s[0] && b[pos + 1] == s[1] && b[pos + 2] == s[2] && b[pos + 3] == s[3];
    Digits(v);
  }

  lemma Digits(v: nat)
    requires v < TWO32
    ensures v == v / 0x100_0000 % 256 * 0x100_0000 + v / 0x1_0000 % 256 * 0x1_0000 + v / 0x100 % 256 * 0x100 + v % 256
  {
    var a, b, c := v / 0x100, v / 0x1_0000, v / 0x100_0000;
    LastDigit(v);
    LastDigit(a);
    LastDigit(b);
    assert b == a / 256 && c == b / 256 && c % 256 == c;
  }

  lemma LastDigit(v: nat)
    ensures v == 256 * (v / 256) + v % 256
  {
  }
}
