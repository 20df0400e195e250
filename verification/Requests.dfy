/**
 SANA-II requests and the lists they wait in, as values: what BeginIO decides about a
 request, what a received frame does to the lists, what a flush does to them.
 */
module Requests {
  import opened Base
  import opened RxRing
  import opened Subsequences

  const ETH_HDR_LEN: nat := 14
  const FCS_LEN: nat := 4

  datatype Command =
    | DeviceQuery | GetStationAddress | ConfigInterface | Online | Offline
    | Read | ReadOrphan | Write | Broadcast | Multicast | Flush | OnEvent
    | GetGlobalStats | MulticastAddress | TrackType | InstallHook | Unknown

  datatype Error = NoError | OutOfService | BadState | BadArgument | NoResources
                 | MtuExceeded | TxFailure | Aborted | NoCommand

  /** A request as its owner submits it. `id` tells submissions apart; `opener` is the
      buffer-management cookie, `cookie` whether the data pointer is set. */
  datatype Request = Request(id: nat, cmd: Command, packetType: nat, opener: nat, cookie: bool, statData: bool)

  /** What is left in a request when it is replied. */
  datatype Reply = Reply(req: Request, error: Error, frame: Option<Frame>, copied: bool)

  /** The three read lists, one per class of Ethernet type. */
  datatype Class = Ipv4 | Arp | Other

  function ClassOf(etherType: nat): Class {
    if etherType == 0x0800 then Ipv4 else if etherType == 0x0806 then Arp else Other
  }

  /** The list a read waits in; the packet type is cut to 16 bits. */
  function ReadClass(r: Request): Class {
    ClassOf(r.packetType % 0x10000)
  }

  datatype Lists = Lists(ipv4: seq<Request>, arp: seq<Request>, other: seq<Request>, events: seq<Request>) {
    function Of(k: Class): seq<Request> {
      match k case Ipv4 => ipv4 case Arp => arp case Other => other
    }

    function With(k: Class, rs: seq<Request>): (l: Lists)
      ensures l.Of(k) == rs && l.events == events
      ensures forall k' :: k' != k ==> l.Of(k') == Of(k')
    {
      match k case Ipv4 => this.(ipv4 := rs) case Arp => this.(arp := rs) case Other => this.(other := rs)
    }
  }

  const NO_REQUESTS := Lists([], [], [], [])

  predicate IsOrphan(r: Request) { r.cmd == ReadOrphan }

  const ORPHANS: Request -> bool := r => IsOrphan(r)
  const NON_ORPHANS: Request -> bool := r => !IsOrphan(r)

  // ---- frames ---------------------------------------------------------------------------

  function EtherType(f: Frame): nat {
    f.bytes[12] as int * 256 + f.bytes[13] as int
  }

  /** A frame is worth offering to a reader if it is intact and holds a whole header. */
  predicate Sound(f: Frame) {
    !f.crcError && f.llen >= FCS_LEN + ETH_HDR_LEN
  }

  /** The hook an opener has installed: none, or one that copies data. */
  datatype Hook = NotOpen | NoHook | Copies(ok: bool)

  /** The outcome of handing a frame to a waiting CMD_READ or S2_READORPHAN. A CMD_READ
      whose opener has no hook fails; an S2_READORPHAN then succeeds without data. */
  function Answer(r: Request, f: Frame, hook: Hook): Reply {
    if !r.cookie || hook.NotOpen? then Reply(r, NoError, Some(f), false)
    else if hook.NoHook? then Reply(r, if IsOrphan(r) then NoError else NoResources, Some(f), false)
    else Reply(r, if hook.ok then NoError else NoResources, Some(f), hook.ok)
  }

  /** Who gets a frame: the head of the list for its type, else the first orphan reader. */
  datatype Taken = Nobody | Reader(req: Request, rest: Lists)

  function Take(l: Lists, k: Class): Taken {
    if l.Of(k) != [] then Reader(l.Of(k)[0], l.With(k, l.Of(k)[1..]))
    else
      var i := First(l.events, ORPHANS);
      if i < |l.events| then Reader(l.events[i], l.(events := Without(l.events, i))) else Nobody
  }

  /** The lists, the replies and the two statistics that frames change. */
  datatype Delivery = Delivery(lists: Lists, replies: seq<Reply>, rx: nat, dropped: nat)

  function Offer(d: Delivery, f: Frame, hooks: Request -> Hook): Delivery {
    if !Sound(f) then d.(dropped := d.dropped + 1)
    else
      match Take(d.lists, ClassOf(EtherType(f)))
      case Nobody => d.(rx := d.rx + 1, dropped := d.dropped + 1)
      case Reader(r, rest) => d.(rx := d.rx + 1, lists := rest, replies := d.replies + [Answer(r, f, hooks(r))])
  }

  function OfferAll(d: Delivery, fs: seq<Frame>, hooks: Request -> Hook): Delivery {
    if fs == [] then d else Offer(OfferAll(d, fs[..|fs| - 1], hooks), fs[|fs| - 1], hooks)
  }

  lemma OfferNone(d: Delivery, hooks: Request -> Hook)
    ensures OfferAll(d, [], hooks) == d
  {
  }

  lemma OfferNext(d: Delivery, fs: seq<Frame>, f: Frame, hooks: Request -> Hook)
    ensures OfferAll(d, fs + [f], hooks) == Offer(OfferAll(d, fs, hooks), f, hooks)
  {
    hide Offer;
    assert (fs + [f])[..|fs|] == fs;
  }

  lemma {:induction false} OfferMore(d: Delivery, a: seq<Frame>, b: seq<Frame>, hooks: Request -> Hook)
    ensures OfferAll(d, a + b, hooks) == OfferAll(OfferAll(d, a, hooks), b, hooks)
  {
    hide Offer, OfferAll;
    if b == [] {
      assert a + b == a;
      OfferNone(OfferAll(d, a, hooks), hooks);
    } else {
      var n := |b| - 1;
      OfferMore(d, a, b[..n], hooks);
      OfferNext(d, a + b[..n], b[n], hooks);
      OfferNext(OfferAll(d, a, hooks), b[..n], b[n], hooks);
      assert a + b == a + b[..n] + [b[n]] && b == b[..n] + [b[n]];
    }
  }

  /** Every frame is either dropped or completes exactly one request. */
  lemma {:induction false} FramesAccounted(d: Delivery, fs: seq<Frame>, hooks: Request -> Hook)
    ensures var d' := OfferAll(d, fs, hooks);
            && |d'.replies| - |d.replies| == |fs| - (d'.dropped - d.dropped)
            && d.replies <= d'.replies && d.dropped <= d'.dropped <= d.dropped + |fs|
  {
    if fs == [] {
    } else {
      FramesAccounted(d, fs[..|fs| - 1], hooks);
    }
  }

  // ---- flushing ---------------------------------------------------------------------------

  function Failed(rs: seq<Request>, e: Error): seq<Reply> {
    seq(|rs|, i requires 0 <= i < |rs| => Reply(rs[i], e, None, false))
  }

  lemma FailedAppend(before: seq<Reply>, a: seq<Request>, b: seq<Request>, e: Error)
    ensures before + Failed(a, e) + Failed(b, e) == before + Failed(a + b, e)
  {
  }

  /** CMD_FLUSH and S2_OFFLINE fail every read and every orphan reader. */
  function Flushed(l: Lists): seq<Request> {
    l.ipv4 + l.arp + l.other + Filter(l.events, ORPHANS)
  }

  function AfterFlush(l: Lists): Lists {
    Lists([], [], [], Filter(l.events, NON_ORPHANS))
  }

  // ---- aborting -----------------------------------------------------------------------------

  function IndexOf(rs: seq<Request>, r: Request): (i: nat)
    ensures i <= |rs| && r !in rs[..i]
    ensures if r in rs then i < |rs| && rs[i] == r else i == |rs|
  {
    if rs == [] then 0
    else if rs[0] == r then 0
    else
      var i := IndexOf(rs[1..], r);
      assert rs[..i + 1] == [rs[0]] + rs[1..][..i];
      i + 1
  }

  function Unlinked(rs: seq<Request>, r: Request): seq<Request> {
    if r in rs then Without(rs, IndexOf(rs, r)) else rs
  }

  /** AbortIO looks through the three read lists, the event list and the port in this order
      and takes the request out of the first that holds it. */
  function AbortFrom(l: Lists, port: seq<Request>, r: Request): (Lists, seq<Request>) {
    if r in l.ipv4 then (l.(ipv4 := Unlinked(l.ipv4, r)), port)
    else if r in l.arp then (l.(arp := Unlinked(l.arp, r)), port)
    else if r in l.other then (l.(other := Unlinked(l.other, r)), port)
    else if r in l.events then (l.(events := Unlinked(l.events, r)), port)
    else (l, Unlinked(port, r))
  }

  predicate IsWaiting(l: Lists, port: seq<Request>, r: Request) {
    r in l.ipv4 || r in l.arp || r in l.other || r in l.events || r in port
  }

  lemma UnlinkedOne(rs: seq<Request>, r: Request)
    ensures multiset(rs) == multiset(Unlinked(rs, r)) + if r in rs then multiset{r} else multiset{}
    ensures Subseq(Unlinked(rs, r), rs)
  {
    SubseqRefl(rs);
    if r in rs {
      RemoveOne(rs, IndexOf(rs, r));
      SubseqWithout(rs, rs, IndexOf(rs, r));
    }
  }

  function Everywhere(l: Lists, port: seq<Request>): multiset<Request> {
    multiset(l.ipv4) + multiset(l.arp) + multiset(l.other) + multiset(l.events) + multiset(port)
  }

  /** An abort takes exactly the one request out. */
  lemma AbortTakesOne(l: Lists, port: seq<Request>, r: Request)
    ensures var (l', port') := AbortFrom(l, port, r);
            Everywhere(l, port) == Everywhere(l', port') + (if IsWaiting(l, port, r) then multiset{r} else multiset{})
  {
    hide Unlinked, Subseq;
    if r in l.ipv4 { UnlinkedOne(l.ipv4, r); }
    else if r in l.arp { UnlinkedOne(l.arp, r); }
    else if r in l.other { UnlinkedOne(l.other, r); }
    else if r in l.events { UnlinkedOne(l.events, r); }
    else { UnlinkedOne(port, r); }
  }

  /** An abort leaves the order of every list alone. */
  lemma AbortKeepsOrder(l: Lists, port: seq<Request>, r: Request)
    ensures var (l', port') := AbortFrom(l, port, r);
            && Subseq(l'.ipv4, l.ipv4) && Subseq(l'.arp, l.arp) && Subseq(l'.other, l.other)
            && Subseq(l'.events, l.events) && Subseq(port', port)
  {
    hide Unlinked, Subseq;
    SubseqRefl(l.ipv4); SubseqRefl(l.arp); SubseqRefl(l.other); SubseqRefl(l.events);
    UnlinkedOne(l.ipv4, r); UnlinkedOne(l.arp, r); UnlinkedOne(l.other, r); UnlinkedOne(l.events, r);
    UnlinkedOne(port, r);
    SubseqRefl(port);
  }
}
