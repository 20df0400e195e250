/**
 The request queues of the unit as the driver keeps them: lists that BeginIO appends to,
 AbortIO searches and removes from, ProcessRX serves and the flushes empty. Each method is
 proved against the functions of module Requests and the routing of module Ownership.
 */
module UnitQueues {
  import opened Base
  import opened RxRing
  import opened Subsequences
  import opened Requests
  import Ownership

  class Queues {
    var readIpv4: seq<Request>
    var readArp: seq<Request>
    var readOther: seq<Request>
    var eventList: seq<Request>
    var port: seq<Request>
    var online: bool
    /** ios2_WireError of the requests the driver holds. */
    var wireError: map<nat, bv32>
    /** The opener list: cookie, and whether a copy hook is installed. */
    var openers: map<nat, bool>
    var statRx: nat
    var statDropped: nat
    var replies: seq<Reply>

    constructor ()
      ensures Waiting() == NO_REQUESTS && port == [] && replies == [] && !online && EventMasksClear()
      ensures statRx == statDropped == 0 && openers == map[]
    {
      readIpv4, readArp, readOther, eventList, port := [], [], [], [], [];
      online, wireError, openers := false, map[], map[];
      statRx, statDropped, replies := 0, 0, [];
    }

    function Waiting(): Lists
      reads this
    {
      Lists(readIpv4, readArp, readOther, eventList)
    }

    /** What frames change. */
    function State(): Delivery
      reads this
    {
      Delivery(Waiting(), replies, statRx, statDropped)
    }

    /** BeginIO clears ios2_WireError, the field in which S2_ONEVENT carries its mask. */
    predicate EventMasksClear()
      reads this
    {
      forall r :: r in eventList ==> r.id in wireError && wireError[r.id] == 0
    }

    method SetList(k: Class, rs: seq<Request>)
      modifies this`readIpv4, this`readArp, this`readOther
      ensures Waiting() == old(Waiting()).With(k, rs)
    {
      match k
      case Ipv4 => readIpv4 := rs;
      case Arp => readArp := rs;
      case Other => readOther := rs;
    }

    method ReplyWith(r: Request, e: Error)
      modifies this`replies
      ensures replies == old(replies) + [Reply(r, e, None, false)]
    {
      replies := replies + [Reply(r, e, None, false)];
    }

    // ---- BeginIO --------------------------------------------------------------------------

    /** CMD_READ. `nodeOk` is the outcome of allocating the list node. */
    method QueueRead(r: Request, nodeOk: bool)
      requires r.cmd.Read?
      modifies this`readIpv4, this`readArp, this`readOther, this`replies
      ensures if online && r.opener in openers && nodeOk
              then Waiting() == Ownership.Append(old(Waiting()), r) && replies == old(replies)
              else Waiting() == old(Waiting())
                   && replies == old(replies) + [Reply(r, Refusal(r, online, r.opener in openers), None, false)]
    {
      if !online {
        ReplyWith(r, OutOfService);
      } else if r.opener !in openers {
        ReplyWith(r, BadState);
      } else if !nodeOk {
        ReplyWith(r, NoResources);
      } else {
        var k := ReadClass(r);
        SetList(k, Waiting().Of(k) + [r]);
      }
    }

    /** S2_READORPHAN and S2_ONEVENT. */
    method QueueEvent(r: Request)
      requires r.cmd.ReadOrphan? || r.cmd.OnEvent?
      modifies this`eventList, this`replies
      ensures if r.cmd.OnEvent? || r.opener in openers
              then eventList == old(eventList) + [r] && replies == old(replies)
              else eventList == old(eventList)
                   && replies == old(replies) + [Reply(r, Refusal(r, online, r.opener in openers), None, false)]
    {
      if r.cmd.ReadOrphan? && r.opener !in openers {
        ReplyWith(r, BadState);
      } else {
        eventList := eventList + [r];
      }
    }

    /** The commands that the unit task serves. */
    method QueueToTask(r: Request)
      requires r.cmd.ConfigInterface? || r.cmd.Flush? || r.cmd.Online? || r.cmd.Offline?
      modifies this`port, this`replies
      ensures if Ownership.Route(r.cmd, online, true).ToPort?
              then port == old(port) + [r] && replies == old(replies)
              else port == old(port)
                   && replies == old(replies) + [Reply(r, Refusal(r, online, r.opener in openers), None, false)]
    {
      if (r.cmd.Online? && online) || (r.cmd.Offline? && !online) {
        ReplyWith(r, BadState);
      } else {
        port := port + [r];
      }
    }

    /** The commands that are answered on the spot. */
    method ReplyInline(r: Request)
      requires !IsWrite(r.cmd) && !IsQueued(r.cmd)
      modifies this`replies, this`openers
      ensures replies == old(replies) + [Reply(r, Refusal(r, online, r.opener in old(openers)), None, false)]
      ensures openers == if r.cmd.InstallHook?
              && r.opener in old(openers) then old(openers)[r.opener := r.cookie] else old(openers)
    {
      if r.cmd.DeviceQuery? || r.cmd.GetGlobalStats? {
        ReplyWith(r, if r.statData then NoError else BadArgument);
      } else if r.cmd.InstallHook? {
        if r.opener !in openers {
          ReplyWith(r, BadState);
        } else {
          openers := openers[r.opener := r.cookie];
          ReplyWith(r, NoError);
        }
      } else if r.cmd.Unknown? {
        ReplyWith(r, NoCommand);
      } else {
        ReplyWith(r, NoError);
      }
    }

    /** Sends a request where its command belongs. */
    method Dispatch(r: Request, nodeOk: bool) returns (transmit: bool)
      modifies this`readIpv4, this`readArp, this`readOther, this`eventList, this`port, this`openers, this`replies
      ensures var known := r.opener in old(openers);
              var route := Ownership.Route(r.cmd, online, known && (r.cmd.Read? ==> nodeOk));
              && Waiting() == (if route.ToReads? then Ownership.Append(old(Waiting()), r)
                               else if route.ToEvents? then old(Waiting()).(events := old(eventList) + [r])
                               else old(Waiting()))
              && port == (if route.ToPort? then old(port) + [r] else old(port))
              && replies == (if route.Replying? && !transmit
                             then old(replies) + [Reply(r, Refusal(r, online, known), None, false)]
                             else old(replies))
      ensures transmit <==> IsWrite(r.cmd) && online
      ensures openers == if r.cmd.InstallHook?
              && r.opener in old(openers) then old(openers)[r.opener := r.cookie] else old(openers)
    {
      hide Refusal, Ownership.Append;
      transmit := false;
      if IsWrite(r.cmd) {
        if online {
          transmit := true;
        } else {
          WriteRefused(r, r.opener in openers);
          ReplyWith(r, OutOfService);
        }
      } else if r.cmd.Read? {
        QueueRead(r, nodeOk);
      } else if r.cmd.ReadOrphan? || r.cmd.OnEvent? {
        QueueEvent(r);
      } else if IsQueued(r.cmd) {
        QueueToTask(r);
      } else {
        ReplyInline(r);
      }
    }

    /** Queues a request, replies to it, or (`transmit`) leaves it to TransmitPacket. */
    method BeginIO(r: Request, nodeOk: bool) returns (transmit: bool)
      requires EventMasksClear()
      modifies this
      ensures EventMasksClear()
      ensures var known := r.opener in old(openers);
              var route := Ownership.Route(r.cmd, online, known && (r.cmd.Read? ==> nodeOk));
              && Waiting() == (if route.ToReads? then Ownership.Append(old(Waiting()), r)
                               else if route.ToEvents? then old(Waiting()).(events := old(eventList) + [r])
                               else old(Waiting()))
              && port == (if route.ToPort? then old(port) + [r] else old(port))
              && replies == (if route.Replying? && !transmit
                             then old(replies) + [Reply(r, Refusal(r, online, known), None, false)]
                             else old(replies))
      ensures transmit <==> IsWrite(r.cmd) && online
      ensures online == old(online) && statRx == old(statRx) && statDropped == old(statDropped)
      ensures openers == if r.cmd.InstallHook?
              && r.opener in old(openers) then old(openers)[r.opener := r.cookie] else old(openers)
    {
      hide Refusal, Ownership.Append, Ownership.Route;
      AppendKeepsEvents(Waiting(), r);
      wireError := wireError[r.id := 0];
      transmit := Dispatch(r, nodeOk);
    }

    // ---- AbortIO --------------------------------------------------------------------------

    /** Searches one list for a request and unlinks it. */
    static method Unlink(rs: seq<Request>, r: Request) returns (rest: seq<Request>, found: bool)
      ensures rest == Unlinked(rs, r) && (found <==> r in rs) && (!found ==> rest == rs)
    {
      var i := 0;
      while i < |rs| && rs[i] != r
        invariant i <= |rs| && r !in rs[..i]
      {
        i := i + 1;
      }
      if i < |rs| {
        IndexIs(rs, r, i);
        return Without(rs, i), true;
      }
      assert rs[..|rs|] == rs;
      return rs, false;
    }

    /** Takes a request out of the first list that holds it. */
    method TakeOut(r: Request) returns (found: bool)
      modifies this`readIpv4, this`readArp, this`readOther, this`eventList, this`port
      ensures (Waiting(), port) == AbortFrom(old(Waiting()), old(port), r)
      ensures found <==> IsWaiting(old(Waiting()), old(port), r)
    {
      hide Unlinked;
      readIpv4, found := Unlink(readIpv4, r);
      if !found {
        readArp, found := Unlink(readArp, r);
      }
      if !found {
        readOther, found := Unlink(readOther, r);
      }
      if !found {
        eventList, found := Unlink(eventList, r);
      }
      if !found {
        port, found := Unlink(port, r);
      }
    }

    /** Takes a waiting request out of the one list it is in and fails it. */
    method AbortIO(r: Request) returns (e: Error)
      modifies this
      ensures (Waiting(), port) == AbortFrom(old(Waiting()), old(port), r)
      ensures if IsWaiting(old(Waiting()), old(port), r)
              then e == NoError && replies == old(replies) + [Reply(r, Aborted, None, false)]
              else e == NoCommand && replies == old(replies)
      ensures online == old(online) && openers == old(openers) && wireError == old(wireError)
      ensures statRx == old(statRx) && statDropped == old(statDropped)
    {
      hide AbortFrom, IsWaiting;
      var found := TakeOut(r);
      if found {
        ReplyWith(r, Aborted);
        return NoError;
      }
      return NoCommand;
    }

    // ---- frames ---------------------------------------------------------------------------

    /** A frame that is not offered to anyone. */
    method DropFrame()
      modifies this`statDropped
      ensures statDropped == old(statDropped) + 1
    {
      statDropped := statDropped + 1;
    }

    /** Hands a sound frame to a waiting reader, or drops it. */
    method DeliverFrame(f: Frame, copyOk: Request -> bool)
      requires Sound(f)
      modifies this`readIpv4, this`readArp, this`readOther, this`eventList, this`replies, this`statRx,
          this`statDropped
      ensures State() == Offer(old(State()), f, HookOf(openers, copyOk))
    {
      statRx := statRx + 1;
      var k := ClassOf(EtherType(f));
      if Waiting().Of(k) != [] {
        var r := Waiting().Of(k)[0];
        SetList(k, Waiting().Of(k)[1..]);
        replies := replies + [Answer(r, f, HookOf(openers, copyOk)(r))];
        return;
      }
      var i := 0;
      while i < |eventList| && !IsOrphan(eventList[i])
        invariant i <= |eventList| && forall j :: 0 <= j < i ==> !IsOrphan(eventList[j])
      {
        i := i + 1;
      }
      assert i == First(eventList, ORPHANS);
      if i < |eventList| {
        var r := eventList[i];
        eventList := Without(eventList, i);
        replies := replies + [Answer(r, f, HookOf(openers, copyOk)(r))];
      } else {
        statDropped := statDropped + 1;
      }
    }

    // ---- flushes --------------------------------------------------------------------------

    method FlushReadList(k: Class, e: Error)
      modifies this`readIpv4, this`readArp, this`readOther, this`replies
      ensures Waiting() == old(Waiting()).With(k, []) && replies == old(replies) + Failed(old(Waiting()).Of(k), e)
    {
      hide Failed, Lists.Of, Lists.With;
      ghost var l, rs, i := Waiting(), Waiting().Of(k), 0;
      var n := Waiting().Of(k);
      FailedNone(rs, e);
      KeepsList(l, k, rs);
      while n != []
        invariant i <= |rs| && n == rs[i..] && Waiting() == l.With(k, n)
        invariant replies == old(replies) + Failed(rs[..i], e)
        decreases |n|
      {
        var r := n[0];
        FailedStep(rs, i, e);
        n := n[1..];
        KeepsList(l, k, rs[i..]);
        i := i + 1;
        SetList(k, n);
        ReplyWith(r, e);
      }
      assert rs[..i] == rs;
    }

    /** The walk over the event list that takes out S2_READORPHAN requests. */
    method FlushOrphans(e: Error)
      modifies this`eventList, this`replies
      ensures eventList == Filter(old(eventList), NON_ORPHANS)
      ensures replies == old(replies) + Failed(Filter(old(eventList), ORPHANS), e)
    {
      hide Filter, Failed;
      ghost var l, done := eventList, 0;
      var i := 0;
      NoneFiltered(l, ORPHANS, NON_ORPHANS, e);
      while i < |eventList|
        invariant i <= |eventList| && done <= |l|
        invariant eventList[..i] == Filter(l[..done], NON_ORPHANS) && eventList[i..] == l[done..]
        invariant replies == old(replies) + Failed(Filter(l[..done], ORPHANS), e)
        decreases |eventList| - i
      {
        var r := eventList[i];
        assert r == l[done];
        FilterStep(l, done, ORPHANS, NON_ORPHANS);
        assert Filter(l[..done], ORPHANS) + [] == Filter(l[..done], ORPHANS);
        if IsOrphan(r) {
          KeepTail(eventList, i, l, done);
          FailedSnoc(Filter(l[..done], ORPHANS), r, e);
          eventList := Without(eventList, i);
          ReplyWith(r, e);
        } else {
          i := i + 1;
        }
        done := done + 1;
      }
      assert l[..done] == l && eventList[..i] == eventList;
    }

    /** Fails every CMD_READ and S2_READORPHAN. */
    method FlushReadQueue(e: Error)
      modifies this`readIpv4, this`readArp, this`readOther, this`eventList, this`replies
      ensures Waiting() == AfterFlush(old(Waiting())) && replies == old(replies) + Failed(Flushed(old(Waiting())), e)
    {
      FlushReadList(Ipv4, e);
      FlushReadList(Arp, e);
      FlushReadList(Class.Other, e);
      FlushOrphans(e);
      ghost var l := old(Waiting());
      FailedAppend(old(replies), l.ipv4, l.arp, e);
      FailedAppend(old(replies), l.ipv4 + l.arp, l.other, e);
      FailedAppend(old(replies), l.ipv4 + l.arp + l.other, Filter(l.events, ORPHANS), e);
    }

    /** The end of the unit task: nothing is left waiting. */
    method FlushAllPending()
      modifies this`readIpv4, this`readArp, this`readOther, this`eventList, this`replies
      ensures Waiting() == NO_REQUESTS
      ensures replies == old(replies) + Failed(Flushed(old(Waiting())) + Filter(old(eventList), NON_ORPHANS), Aborted)
    {
      hide Failed, Filter, Flushed;
      FlushReadQueue(Aborted);
      FailedNone(eventList, Aborted);
      ghost var before, l := replies, eventList;
      while eventList != []
        invariant |eventList| <= |l| && eventList == l[|l| - |eventList|..]
        invariant replies == before + Failed(l[..|l| - |eventList|], Aborted)
        invariant readIpv4 == readArp == readOther == []
        decreases |eventList|
      {
        var r := eventList[0];
        FailedStep(l, |l| - |eventList|, Aborted);
        eventList := eventList[1..];
        ReplyWith(r, Aborted);
      }
      assert l[..|l|] == l;
      FailedAppend(old(replies), Flushed(old(Waiting())), l, Aborted);
    }

    /** Fails every message left on the port. */
    method DrainPort()
      modifies this`port, this`replies
      ensures port == [] && replies == old(replies) + Failed(old(port), Aborted)
    {
      while port != []
        invariant |port| <= |old(port)| && port == old(port)[|old(port)| - |port|..]
        invariant replies == old(replies) + Failed(old(port)[..|old(port)| - |port|], Aborted)
        decreases |port|
      {
        var r := port[0];
        port := port[1..];
        ReplyWith(r, Aborted);
      }
      assert old(port)[..|old(port)|] == old(port);
    }

    /** Leaves in the request the event that it asked for. */
    method NoteEvent(r: Request, mask: bv32)
      requires Hears(wireError, mask, r)
      modifies this`wireError
      ensures forall x :: Hears(wireError, mask, x) == Hears(old(wireError), mask, x)
    {
      hide Common;
      StillHears(wireError, mask, r.id);
      wireError := wireError[r.id := Common(wireError[r.id], mask)];
    }

    /** The walk over the event list that tells the subscribers of an event. */
    method TellListeners(mask: bv32)
      modifies this`eventList, this`replies, this`wireError
      ensures eventList == Filter(old(eventList), Deaf(old(wireError), mask))
      ensures replies == old(replies) + Failed(Filter(old(eventList), Listening(old(wireError), mask)), NoError)
      ensures Filter(old(eventList), Listening(old(wireError), mask)) == [] ==> wireError == old(wireError)
    {
      hide Hears, Filter, Failed;
      ghost var l, wire, done := eventList, wireError, 0;
      ghost var deaf, listening := Deaf(wire, mask), Listening(wire, mask);
      var i := 0;
      NoneFiltered(l, deaf, listening, NoError);
      while i < |eventList|
        invariant i <= |eventList| && done <= |l|
        invariant eventList[..i] == Filter(l[..done], deaf) && eventList[i..] == l[done..]
        invariant replies == old(replies) + Failed(Filter(l[..done], listening), NoError)
        invariant forall r :: Hears(wireError, mask, r) == Hears(wire, mask, r)
        invariant Filter(l[..done], listening) == [] ==> wireError == wire
        decreases |eventList| - i
      {
        var r := eventList[i];
        assert r == l[done];
        FilterStep(l, done, listening, deaf);
        assert Filter(l[..done], listening) + [] == Filter(l[..done], listening);
        if Hears(wireError, mask, r) {
          KeepTail(eventList, i, l, done);
          FailedSnoc(Filter(l[..done], listening), r, NoError);
          eventList := Without(eventList, i);
          NoteEvent(r, mask);
          ReplyWith(r, NoError);
        } else {
          i := i + 1;
        }
        done := done + 1;
      }
      assert l[..done] == l && eventList[..i] == eventList;
    }

    /** Tells the subscribers of an event, those whose mask matches. As BeginIO cleared every
        mask on entry, no subscriber ever matches, whatever the event. */
    method SignalEvent(mask: bv32)
      modifies this`eventList, this`replies, this`wireError
      ensures eventList == Filter(old(eventList), Deaf(old(wireError), mask))
      ensures replies == old(replies) + Failed(Filter(old(eventList), Listening(old(wireError), mask)), NoError)
      ensures old(EventMasksClear()) ==>
                EventMasksClear() && eventList == old(eventList) && replies == old(replies)
                    && wireError == old(wireError)
    {
      hide Filter, Listening, Deaf;
      if EventMasksClear() {
        NobodyHears(eventList, wireError, mask);
      }
      TellListeners(mask);
    }
  }

  lemma FailedStep(rs: seq<Request>, i: nat, e: Error)
    requires i < |rs|
    ensures Failed(rs[..i + 1], e) == Failed(rs[..i], e) + [Reply(rs[i], e, None, false)]
    ensures rs[i..] == [rs[i]] + rs[i + 1..]
  {
  }

  /** Writing a list over another, and over itself. */
  lemma KeepsList(l: Lists, k: Class, rs: seq<Request>)
    ensures l.With(k, l.Of(k)) == l && forall rs' :: l.With(k, rs).With(k, rs') == l.With(k, rs')
  {
  }

  lemma AppendKeepsEvents(l: Lists, r: Request)
    ensures Ownership.Append(l, r).events == l.events
  {
  }

  lemma WriteRefused(r: Request, known: bool)
    requires IsWrite(r.cmd)
    ensures Refusal(r, false, known) == OutOfService
  {
  }

  lemma FailedSnoc(rs: seq<Request>, r: Request, e: Error)
    ensures Failed(rs + [r], e) == Failed(rs, e) + [Reply(r, e, None, false)]
  {
  }

  lemma NoneFiltered(l: seq<Request>, p: Request -> bool, q: Request -> bool, e: Error)
    ensures Filter(l[..0], p) == [] && Filter(l[..0], q) == [] && Failed([], e) == []
  {
  }

  lemma FailedNone(rs: seq<Request>, e: Error)
    ensures Failed(rs[..0], e) == []
  {
  }

  /** Whether the mask a request was queued with has a bit of the event. */
  predicate Hears(wire: map<nat, bv32>, mask: bv32, r: Request) {
    r.id in wire && Common(wire[r.id], mask) != 0
  }

  function Common(x: bv32, mask: bv32): bv32 { x & mask }

  function Listening(wire: map<nat, bv32>, mask: bv32): Request -> bool {
    r => Hears(wire, mask, r)
  }

  function Deaf(wire: map<nat, bv32>, mask: bv32): Request -> bool {
    r => !Hears(wire, mask, r)
  }

  lemma StillHears(wire: map<nat, bv32>, mask: bv32, id: nat)
    requires id in wire
    ensures forall r :: Hears(wire[id := Common(wire[id], mask)], mask, r) == Hears(wire, mask, r)
  {
    hide Common;
    MaskedTwice(wire[id], mask);
  }

  lemma MaskedTwice(x: bv32, mask: bv32)
    ensures Common(Common(x, mask), mask) == Common(x, mask)
  {
  }

  lemma NothingCommon(mask: bv32)
    ensures Common(0, mask) == 0
  {
  }

  lemma {:induction false} NobodyHears(l: seq<Request>, wire: map<nat, bv32>, mask: bv32)
    requires forall r :: r in l ==> r.id in wire && wire[r.id] == 0
    ensures Filter(l, Deaf(wire, mask)) == l && Filter(l, Listening(wire, mask)) == []
  {
    if l != [] {
      NothingCommon(mask);
      NobodyHears(l[1..], wire, mask);
      assert l == [l[0]] + l[1..];
    }
  }

  lemma KeepTail(s: seq<Request>, i: nat, l: seq<Request>, n: nat)
    requires i < |s| && n < |l| && s[i..] == l[n..]
    ensures Without(s, i)[..i] == s[..i] && Without(s, i)[i..] == l[n + 1..]
  {
    assert s[i + 1..] == s[i..][1..] && l[n + 1..] == l[n..][1..];
  }

  lemma {:induction false} IndexIs(rs: seq<Request>, r: Request, i: nat)
    requires i < |rs| && rs[i] == r && r !in rs[..i]
    ensures IndexOf(rs, r) == i
  {
    if i > 0 {
      assert rs[0] == rs[..i][0];
      assert rs[1..][..i - 1] == rs[..i][1..];
      IndexIs(rs[1..], r, i - 1);
    }
  }

  lemma FilterStep(l: seq<Request>, n: nat, p: Request -> bool, q: Request -> bool)
    requires n < |l| && p(l[n]) == !q(l[n])
    ensures Filter(l[..n + 1], p) == Filter(l[..n], p) + if p(l[n]) then [l[n]] else []
    ensures Filter(l[..n + 1], q) == Filter(l[..n], q) + if p(l[n]) then [] else [l[n]]
  {
    assert l[..n + 1] == l[..n] + [l[n]];
    FilterAppend(l[..n], [l[n]], p);
    FilterAppend(l[..n], [l[n]], q);
    FilterOne(l[n], p);
    FilterOne(l[n], q);
  }

  function Answers(openers: map<nat, bool>, copyOk: Request -> bool, r: Request): Hook {
    if r.opener !in openers then NotOpen else if openers[r.opener] then Copies(copyOk(r)) else NoHook
  }

  /** What each opener does with data, when `copyOk` is what the hooks answer. */
  function HookOf(openers: map<nat, bool>, copyOk: Request -> bool): Request -> Hook {
    r => Answers(openers, copyOk, r)
  }

  predicate IsWrite(c: Command) {
    c.Write? || c.Broadcast? || c.Multicast?
  }

  predicate IsQueued(c: Command) {
    c.Read? || c.ReadOrphan? || c.OnEvent? || c.ConfigInterface? || c.Flush? || c.Online? || c.Offline?
  }

  /** The error BeginIO replies with when it neither queues nor transmits a request. */
  function Refusal(r: Request, online: bool, known: bool): Error {
    match r.cmd
    case Read => if !online then OutOfService else if !known then BadState else NoResources
    case ReadOrphan => BadState
    case Online => BadState
    case Offline => BadState
    case DeviceQuery => if r.statData then NoError else BadArgument
    case GetGlobalStats => if r.statData then NoError else BadArgument
    case InstallHook => if known then NoError else BadState
    case Unknown => NoCommand
    case Write => OutOfService
    case Broadcast => OutOfService
    case Multicast => OutOfService
    case _ => NoError
  }
}
