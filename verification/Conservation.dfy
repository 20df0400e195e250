/**
 The balance of requests: those waiting in a list or on the port, and those replied. Nothing
 the driver does loses a request or replies to one twice.
 */
module Conservation {
  import opened Base
  import opened RxRing
  import opened Subsequences
  import opened Requests
  import Ownership

  /** The requests that were replied. */
  function Replied(rs: seq<Reply>): seq<Request> {
    seq(|rs|, i requires 0 <= i < |rs| => rs[i].req)
  }

  /** Every request the driver knows of, wherever it is. */
  function Total(l: Lists, port: seq<Request>, replies: seq<Reply>): multiset<Request> {
    Everywhere(l, port) + multiset(Replied(replies))
  }

  lemma RepliedThen(rs: seq<Reply>, more: seq<Reply>)
    ensures multiset(Replied(rs + more)) == multiset(Replied(rs)) + multiset(Replied(more))
  {
    assert Replied(rs + more) == Replied(rs) + Replied(more);
  }

  lemma RepliedOne(rs: seq<Reply>, r: Reply)
    ensures multiset(Replied(rs + [r])) == multiset(Replied(rs)) + multiset{r.req}
  {
    RepliedThen(rs, [r]);
    assert Replied([r]) == [r.req];
  }

  lemma FailedAre(rs: seq<Request>, e: Error)
    ensures Replied(Failed(rs, e)) == rs
  {
  }

  /** Taking the head of a list. */
  lemma HeadTaken(l: Lists, k: Class, port: seq<Request>)
    requires l.Of(k) != []
    ensures Everywhere(l, port) == Everywhere(l.With(k, l.Of(k)[1..]), port) + multiset{l.Of(k)[0]}
  {
    RemoveHead(l.Of(k));
  }

  lemma EventTaken(l: Lists, i: nat, port: seq<Request>)
    requires i < |l.events|
    ensures Everywhere(l, port) == Everywhere(l.(events := Without(l.events, i)), port) + multiset{l.events[i]}
  {
    RemoveOne(l.events, i);
  }

  lemma AnswerTo(r: Request, f: Frame, hook: Hook)
    ensures Answer(r, f, hook).req == r
  {
  }

  /** A frame moves at most one request, from a list to the replies. */
  lemma OfferConserves(d: Delivery, f: Frame, hooks: Request -> Hook, port: seq<Request>)
    ensures var d' := Offer(d, f, hooks); Total(d'.lists, port, d'.replies) == Total(d.lists, port, d.replies)
  {
    hide Everywhere, Answer, EtherType, Without, First, Replied;
    if Sound(f) {
      var k := ClassOf(EtherType(f));
      var i := First(d.lists.events, ORPHANS);
      if d.lists.Of(k) != [] {
        var r := d.lists.Of(k)[0];
        HeadTaken(d.lists, k, port);
        AnswerTo(r, f, hooks(r));
        RepliedOne(d.replies, Answer(r, f, hooks(r)));
      } else if i < |d.lists.events| {
        var r := d.lists.events[i];
        EventTaken(d.lists, i, port);
        AnswerTo(r, f, hooks(r));
        RepliedOne(d.replies, Answer(r, f, hooks(r)));
      }
    }
  }

  lemma {:induction false} OffersConserve(d: Delivery, fs: seq<Frame>, hooks: Request -> Hook, port: seq<Request>)
    ensures var d' := OfferAll(d, fs, hooks); Total(d'.lists, port, d'.replies) == Total(d.lists, port, d.replies)
    decreases |fs|
  {
    if fs != [] {
      OffersConserve(d, fs[..|fs| - 1], hooks, port);
      OfferConserves(OfferAll(d, fs[..|fs| - 1], hooks), fs[|fs| - 1], hooks, port);
    }
  }

  /** A flush moves what it takes out to the replies. */
  lemma FlushConserves(l: Lists, port: seq<Request>, replies: seq<Reply>, e: Error)
    ensures Total(AfterFlush(l), port, replies + Failed(Flushed(l), e)) == Total(l, port, replies)
  {
    FilterSplit(l.events, ORPHANS, NON_ORPHANS);
    RepliedThen(replies, Failed(Flushed(l), e));
    FailedAre(Flushed(l), e);
    assert multiset(Flushed(l)) == multiset(l.ipv4) + multiset(l.arp) + multiset(l.other)
        + multiset(Filter(l.events, ORPHANS));
  }

  /** So does the flush of everything. */
  lemma FlushAllConserves(l: Lists, port: seq<Request>, replies: seq<Reply>, e: Error)
    ensures Total(NO_REQUESTS, port, replies + Failed(Flushed(l) + Filter(l.events, NON_ORPHANS), e))
            == Total(l, port, replies)
  {
    var all := Flushed(l) + Filter(l.events, NON_ORPHANS);
    FilterSplit(l.events, ORPHANS, NON_ORPHANS);
    RepliedThen(replies, Failed(all, e));
    FailedAre(all, e);
    assert multiset(all) == multiset(Flushed(l)) + multiset(Filter(l.events, NON_ORPHANS));
    assert multiset(Flushed(l)) == multiset(l.ipv4) + multiset(l.arp) + multiset(l.other)
        + multiset(Filter(l.events, ORPHANS));
  }

  lemma DrainConserves(l: Lists, port: seq<Request>, replies: seq<Reply>, e: Error)
    ensures Total(l, [], replies + Failed(port, e)) == Total(l, port, replies)
  {
    RepliedThen(replies, Failed(port, e));
    FailedAre(port, e);
  }

  /** Appending a request to a list, to the port or to the replies adds it once. */
  lemma ReadAdded(l: Lists, port: seq<Request>, r: Request)
    ensures Everywhere(Ownership.Append(l, r), port) == Everywhere(l, port) + multiset{r}
  {
  }

  lemma EventAdded(l: Lists, port: seq<Request>, r: Request)
    ensures Everywhere(l.(events := l.events + [r]), port) == Everywhere(l, port) + multiset{r}
    ensures Everywhere(l, port + [r]) == Everywhere(l, port) + multiset{r}
  {
  }

  /** Wherever BeginIO puts a request, it is there once. */
  lemma Added(l: Lists, port: seq<Request>, replies: seq<Reply>, r: Request, e: Error)
    ensures Total(Ownership.Append(l, r), port, replies) == Total(l, port, replies) + multiset{r}
    ensures Total(l.(events := l.events + [r]), port, replies) == Total(l, port, replies) + multiset{r}
    ensures Total(l, port + [r], replies) == Total(l, port, replies) + multiset{r}
    ensures Total(l, port, replies + [Reply(r, e, None, false)]) == Total(l, port, replies) + multiset{r}
  {
    hide Everywhere, Replied, Ownership.Append;
    ReadAdded(l, port, r);
    EventAdded(l, port, r);
    RepliedOne(replies, Reply(r, e, None, false));
  }

  lemma PortTaken(l: Lists, port: seq<Request>)
    requires port != []
    ensures Everywhere(l, port) == Everywhere(l, port[1..]) + multiset{port[0]}
  {
    RemoveHead(port);
  }

  /** Frames only take requests off the event list. */
  lemma {:induction false} OffersKeepEvents(d: Delivery, fs: seq<Frame>, hooks: Request -> Hook, r: Request)
    requires r in OfferAll(d, fs, hooks).lists.events
    ensures r in d.lists.events
    decreases |fs|
  {
    if fs != [] {
      var before := OfferAll(d, fs[..|fs| - 1], hooks);
      assert r in before.lists.events;
      OffersKeepEvents(d, fs[..|fs| - 1], hooks, r);
    }
  }

  lemma {:induction false} FilterFrom(l: seq<Request>, p: Request -> bool, r: Request)
    requires r in Filter(l, p)
    ensures r in l
  {
    if l != [] && r in Filter(l[1..], p) {
      FilterFrom(l[1..], p, r);
    }
  }
}
