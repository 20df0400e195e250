/**
 Who holds each request. Clients call BeginIO and AbortIO at any time, from any number of
 tasks, while the unit task delivers frames, serves its port, flushes and exits. Each step
 below is one Forbid()/Permit() section or one list or port operation; a run is any
 sequence of enabled steps.
 */
module Ownership {
  import opened Base
  import opened Requests
  import opened Subsequences

  /** A request between two of its homes: in BeginIO before or after the decision where it
      goes, or taken out of everything and about to be replied. */
  datatype Phase = Checking | ToReads | ToEvents | ToPort | Replying

  datatype TaskPc = Serving | ExitDrain | ExitFlush | ExitEvents | Gone

  /** `queued` and `given` are history: what was ever appended to each list, and which
      requests were given a frame, each in order. */
  datatype Q = Q(lists: Lists, port: seq<Request>, service: map<Request, Phase>, completed: seq<Request>,
                 online: bool, task: TaskPc, submitted: seq<Request>, queued: Lists, given: Lists)

  datatype Step =
    | Submit(r: Request) | Decide(r: Request, ok: bool) | Enqueue(r: Request) | Finish(r: Request)
    | AbortRead(k: Class, i: nat) | AbortEvent(i: nat) | AbortPort(i: nat)
    | Deliver(k: Class) | Flush | GetMsg | SetOnline(on: bool) | BeginExit | ExitStep

  const START := Q(NO_REQUESTS, [], map[], [], false, Serving, [], NO_REQUESTS, NO_REQUESTS)

  /** Where BeginIO sends a request. `ok` stands for finding the opener and, for a read,
      for the allocation of its list node. */
  function Route(c: Command, online: bool, ok: bool): Phase {
    match c
    case Read => if online && ok then ToReads else Replying
    case ReadOrphan => if ok then ToEvents else Replying
    case OnEvent => ToEvents
    case ConfigInterface => ToPort
    case Flush => ToPort
    case Online => if online then Replying else ToPort
    case Offline => if online then ToPort else Replying
    case _ => Replying
  }

  predicate Enabled(q: Q, step: Step) {
    match step
    case Submit(r) => forall x :: x in q.submitted ==> x.id != r.id
    case Decide(r, _) => r in q.service && q.service[r].Checking?
    case Enqueue(r) =>
      r in q.service && (q.service[r].ToReads? || q.service[r].ToEvents? || (q.service[r].ToPort? && !q.task.Gone?))
    case Finish(r) => r in q.service && q.service[r].Replying?
    case AbortRead(k, i) => i < |q.lists.Of(k)|
    case AbortEvent(i) => i < |q.lists.events|
    case AbortPort(i) => i < |q.port| && !q.task.Gone?
    case Deliver(k) => q.task.Serving?
    case Flush => q.task.Serving?
    case GetMsg => (q.task.Serving? || q.task.ExitDrain?) && q.port != []
    case SetOnline(_) => q.task.Serving?
    case BeginExit => q.task.Serving?
    case ExitStep => (q.task.ExitDrain? && q.port == []) || q.task.ExitFlush? || q.task.ExitEvents?
  }

  function Append(l: Lists, r: Request): Lists {
    l.With(ReadClass(r), l.Of(ReadClass(r)) + [r])
  }

  function Put(q: Q, r: Request): Q
    requires Enabled(q, Enqueue(r))
  {
    var q' := q.(service := q.service - {r});
    match q.service[r]
    case ToReads => q'.(lists := Append(q.lists, r), queued := Append(q.queued, r))
    case ToEvents =>
      q'.(lists := q.lists.(events := q.lists.events + [r]), queued := q.queued.(events := q.queued.events + [r]))
    case ToPort => q'.(port := q.port + [r])
    case _ => q
  }

  function Serve(q: Q, k: Class): Q {
    match Take(q.lists, k)
    case Nobody => q
    case Reader(r, rest) =>
      q.(lists := rest, service := q.service[r := Replying],
         given := if q.lists.Of(k) != [] then q.given.With(k, q.given.Of(k) + [r])
                  else q.given.(events := q.given.events + [r]))
  }

  function FlushReads(q: Q): Q {
    q.(lists := AfterFlush(q.lists), completed := q.completed + Flushed(q.lists))
  }

  function Exit(q: Q): Q
    requires Enabled(q, ExitStep)
  {
    match q.task
    case ExitDrain => q.(task := ExitFlush)
    case ExitFlush => FlushReads(q).(task := ExitEvents)
    case _ => q.(task := Gone, lists := q.lists.(events := []), completed := q.completed + q.lists.events)
  }

  function Do(q: Q, step: Step): Q
    requires Enabled(q, step)
  {
    match step
    case Submit(r) => q.(service := q.service[r := Checking], submitted := q.submitted + [r])
    case Decide(r, ok) => q.(service := q.service[r := Route(r.cmd, q.online, ok)])
    case Enqueue(r) => Put(q, r)
    case Finish(r) => q.(service := q.service - {r}, completed := q.completed + [r])
    case AbortRead(k, i) =>
      q.(lists := q.lists.With(k, Without(q.lists.Of(k), i)), service := q.service[q.lists.Of(k)[i] := Replying])
    case AbortEvent(i) =>
      q.(lists := q.lists.(events := Without(q.lists.events, i)), service := q.service[q.lists.events[i] := Replying])
    case AbortPort(i) => q.(port := Without(q.port, i), service := q.service[q.port[i] := Replying])
    case Deliver(k) => Serve(q, k)
    case Flush => FlushReads(q)
    case GetMsg => q.(port := q.port[1..], service := q.service[q.port[0] := Replying])
    case SetOnline(on) => q.(online := on)
    case BeginExit => q.(task := ExitDrain)
    case ExitStep => Exit(q)
  }

  function Run(q: Q, steps: seq<Step>): Option<Q>
    decreases |steps|
  {
    if steps == [] then Some(q)
    else if Enabled(q, steps[0]) then Run(Do(q, steps[0]), steps[1..])
    else None
  }

  // ---- ownership --------------------------------------------------------------------------

  function Queued(l: Lists): multiset<Request> {
    multiset(l.ipv4) + multiset(l.arp) + multiset(l.other) + multiset(l.events)
  }

  /** All the places a request can be, with how often it is there. */
  function Places(q: Q): multiset<Request> {
    Queued(q.lists) + multiset(q.port) + multiset(q.service.Keys) + multiset(q.completed)
  }

  predicate Distinct(rs: seq<Request>) {
    forall i, j :: 0 <= i < j < |rs| ==> rs[i].id != rs[j].id
  }

  predicate Owned(q: Q) {
    Distinct(q.submitted) && Places(q) == multiset(q.submitted)
  }

  lemma DistinctOnce(rs: seq<Request>, r: Request)
    requires Distinct(rs)
    ensures multiset(rs)[r] <= 1
  {
    if r in rs {
      var i :| 0 <= i < |rs| && rs[i] == r;
      RemoveOne(rs, i);
      assert r !in Without(rs, i);
    }
  }

  lemma QueuedWith(l: Lists, k: Class, rs: seq<Request>)
    ensures Queued(l.With(k, rs)) + multiset(l.Of(k)) == Queued(l) + multiset(rs)
  {
  }

  function Waiting(q: Q): multiset<Request> {
    Queued(q.lists) + multiset(q.port)
  }

  /** Moving a request out of a list into service. */
  lemma Unlisted(q: Q, q': Q, r: Request)
    requires Owned(q) && Waiting(q) == Waiting(q') + multiset{r}
    requires q'.service == q.service[r := Replying] && q'.completed == q.completed && q'.submitted == q.submitted
    ensures Owned(q')
  {
    DistinctOnce(q.submitted, r);
    assert Waiting(q)[r] >= 1;
    assert Places(q)[r] == Waiting(q)[r] + multiset(q.service.Keys)[r] + multiset(q.completed)[r];
    assert r !in q.service.Keys;
    Served(q.service, r, Replying);
  }

  /** A request taken on is one more in service. */
  lemma Served(service: map<Request, Phase>, r: Request, p: Phase)
    requires r !in service
    ensures multiset(service[r := p].Keys) == multiset(service.Keys) + multiset{r}
  {
    assert service[r := p].Keys == service.Keys + {r};
  }

  lemma Released(service: map<Request, Phase>, r: Request)
    requires r in service
    ensures multiset(service.Keys) == multiset((service - {r}).Keys) + multiset{r}
  {
    assert service.Keys == (service - {r}).Keys + {r};
  }

  lemma SubmitOwned(q: Q, r: Request)
    requires Owned(q) && Enabled(q, Submit(r))
    ensures Owned(Do(q, Submit(r)))
  {
    hide Queued;
    assert r !in multiset(q.submitted);
    assert r !in Places(q);
    assert r !in q.service.Keys by {
      assert multiset(q.service.Keys)[r] == 0;
    }
    Served(q.service, r, Checking);
  }

  lemma DecideOwned(q: Q, r: Request, ok: bool)
    requires Owned(q) && Enabled(q, Decide(r, ok))
    ensures Owned(Do(q, Decide(r, ok)))
  {
    assert Do(q, Decide(r, ok)).service.Keys == q.service.Keys;
  }

  lemma EnqueueOwned(q: Q, r: Request)
    requires Owned(q) && Enabled(q, Enqueue(r))
    ensures Owned(Put(q, r))
  {
    Released(q.service, r);
    PutWaiting(q, r);
    Relisted(q, Put(q, r), r);
  }

  /** Moving a request from service into a list. */
  lemma Relisted(q: Q, q': Q, r: Request)
    requires Owned(q) && Waiting(q') == Waiting(q) + multiset{r}
    requires multiset(q.service.Keys) == multiset(q'.service.Keys) + multiset{r}
    requires q'.completed == q.completed && q'.submitted == q.submitted
    ensures Owned(q')
  {
  }

  lemma PutWaiting(q: Q, r: Request)
    requires Enabled(q, Enqueue(r))
    ensures Waiting(Put(q, r)) == Waiting(q) + multiset{r}
  {
    hide Queued, Append;
    var q' := Put(q, r);
    if q.service[r].ToPort? {
      assert multiset(q'.port) == multiset(q.port) + multiset{r};
    } else {
      QueuedThen(q.lists, r);
      assert Queued(q'.lists) == Queued(q.lists) + multiset{r} && q'.port == q.port;
    }
  }

  lemma FinishOwned(q: Q, r: Request)
    requires Owned(q) && Enabled(q, Finish(r))
    ensures Owned(Do(q, Finish(r)))
  {
    hide Queued;
    Released(q.service, r);
  }

  lemma AbortReadOwned(q: Q, k: Class, i: nat)
    requires Owned(q) && i < |q.lists.Of(k)|
    ensures Owned(Do(q, AbortRead(k, i)))
  {
    hide Owned, Waiting;
    ReadLeaves(q, k, i);
    Unlisted(q, Do(q, AbortRead(k, i)), q.lists.Of(k)[i]);
  }

  lemma ReadLeaves(q: Q, k: Class, i: nat)
    requires i < |q.lists.Of(k)|
    ensures Waiting(q) == Waiting(Do(q, AbortRead(k, i))) + multiset{q.lists.Of(k)[i]}
  {
    hide Queued, Without;
    var rs := q.lists.Of(k);
    RemoveOne(rs, i);
    QueuedWith(q.lists, k, Without(rs, i));
    Cancelled(Queued(Do(q, AbortRead(k, i)).lists), Queued(q.lists), multiset(Without(rs, i)), multiset{rs[i]});
  }

  lemma AbortOwned(q: Q, step: Step)
    requires Owned(q) && Enabled(q, step) && (step.AbortEvent? || step.AbortPort? || step.GetMsg?)
    ensures Owned(Do(q, step))
  {
    hide Owned, Waiting;
    match step
    case AbortEvent(i) =>
      EventLeaves(q, i);
      Unlisted(q, Do(q, step), q.lists.events[i]);
    case AbortPort(i) =>
      PortLeaves(q, i);
      Unlisted(q, Do(q, step), q.port[i]);
    case GetMsg =>
      PortLeaves(q, 0);
      assert Without(q.port, 0) == q.port[1..];
      Unlisted(q, Do(q, step), q.port[0]);
  }

  lemma EventLeaves(q: Q, i: nat)
    requires i < |q.lists.events|
    ensures forall q': Q :: q'.lists == q.lists.(events := Without(q.lists.events, i)) && q'.port == q.port ==>
              Waiting(q) == Waiting(q') + multiset{q.lists.events[i]}
  {
    RemoveOne(q.lists.events, i);
  }

  lemma PortLeaves(q: Q, i: nat)
    requires i < |q.port|
    ensures forall q': Q :: q'.lists == q.lists && q'.port == Without(q.port, i) ==>
              Waiting(q) == Waiting(q') + multiset{q.port[i]}
  {
    RemoveOne(q.port, i);
  }

  lemma DeliverOwned(q: Q, k: Class)
    requires Owned(q)
    ensures Owned(Serve(q, k))
  {
    if q.lists.Of(k) != [] {
      HeadWaiting(q, k);
      Unlisted(q, Serve(q, k), q.lists.Of(k)[0]);
    } else if First(q.lists.events, ORPHANS) < |q.lists.events| {
      OrphanWaiting(q, k);
      Unlisted(q, Serve(q, k), q.lists.events[First(q.lists.events, ORPHANS)]);
    }
  }

  lemma HeadWaiting(q: Q, k: Class)
    requires q.lists.Of(k) != []
    ensures Waiting(q) == Waiting(Serve(q, k)) + multiset{q.lists.Of(k)[0]}
  {
    hide Queued, First, Without;
    var rs := q.lists.Of(k);
    RemoveHead(rs);
    QueuedWith(q.lists, k, rs[1..]);
    Cancelled(Queued(Serve(q, k).lists), Queued(q.lists), multiset(rs[1..]), multiset{rs[0]});
  }

  lemma Cancelled(a: multiset<Request>, b: multiset<Request>, t: multiset<Request>,
      h: multiset<Request>)
    requires a + (t + h) == b + t
    ensures b == a + h
  {
    forall x: Request
      ensures b[x] == (a + h)[x]
    {
      assert (a + (t + h))[x] == (b + t)[x];
    }
  }

  lemma OrphanWaiting(q: Q, k: Class)
    requires q.lists.Of(k) == [] && First(q.lists.events, ORPHANS) < |q.lists.events|
    ensures Waiting(q) == Waiting(Serve(q, k)) + multiset{q.lists.events[First(q.lists.events, ORPHANS)]}
  {
    RemoveOne(q.lists.events, First(q.lists.events, ORPHANS));
  }

  lemma FlushOwned(q: Q)
    requires Owned(q)
    ensures Owned(FlushReads(q))
  {
    FilterSplit(q.lists.events, ORPHANS, NON_ORPHANS);
  }

  lemma ExitOwned(q: Q)
    requires Owned(q) && Enabled(q, ExitStep)
    ensures Owned(Exit(q))
  {
    if q.task.ExitFlush? {
      FlushOwned(q);
    } else if q.task.ExitEvents? {
      EventsOwned(q);
    }
  }

  /** The last step of the exit fails everybody on the event list. */
  lemma EventsOwned(q: Q)
    requires Owned(q) && q.task.ExitEvents?
    ensures Owned(Exit(q))
  {
  }

  lemma StepOwned(q: Q, step: Step)
    requires Owned(q) && Enabled(q, step)
    ensures Owned(Do(q, step))
  {
    match step
    case Submit(r) => SubmitOwned(q, r);
    case Decide(r, ok) => DecideOwned(q, r, ok);
    case Enqueue(r) => EnqueueOwned(q, r);
    case Finish(r) => FinishOwned(q, r);
    case Deliver(k) => DeliverOwned(q, k);
    case Flush => FlushOwned(q);
    case ExitStep => ExitOwned(q);
    case SetOnline(_) =>
    case BeginExit =>
    case AbortRead(k, i) => AbortReadOwned(q, k, i);
    case _ => AbortOwned(q, step);
  }

  /** In every run each request ever submitted is in exactly one place, so it is completed
      at most once and never lost. */
  lemma {:induction false} RunOwned(q: Q, steps: seq<Step>)
    requires Owned(q) && Run(q, steps).Some?
    ensures Owned(Run(q, steps).value)
    decreases |steps|
  {
    if steps == [] {
    } else {
      StepOwned(q, steps[0]);
      RunOwned(Do(q, steps[0]), steps[1..]);
    }
  }

  lemma SingleOwner(steps: seq<Step>, r: Request)
    requires Run(START, steps).Some? && r in Run(START, steps).value.submitted
    ensures var q := Run(START, steps).value;
            Places(q)[r] == 1 && multiset(q.completed)[r] <= 1
  {
    RunOwned(START, steps);
    DistinctOnce(Run(START, steps).value.submitted, r);
  }

  // ---- order --------------------------------------------------------------------------------

  /** Those given a frame, then those waiting, in the order they were queued. */
  ghost predicate Ordered(given: seq<Request>, waiting: seq<Request>, queued: seq<Request>) {
    Subseq(given + waiting, queued)
  }

  lemma OrderedAppend(g: seq<Request>, l: seq<Request>, w: seq<Request>, r: Request)
    requires Ordered(g, l, w)
    ensures Ordered(g, l + [r], w + [r])
  {
    SubseqAppend(g + l, w, r);
    assert g + (l + [r]) == g + l + [r];
  }

  lemma OrderedAbort(g: seq<Request>, l: seq<Request>, w: seq<Request>, i: nat)
    requires Ordered(g, l, w) && i < |l|
    ensures Ordered(g, Without(l, i), w)
  {
    SubseqWithout(g + l, w, |g| + i);
    assert Without(g + l, |g| + i) == g + Without(l, i);
  }

  lemma OrderedGive(g: seq<Request>, l: seq<Request>, w: seq<Request>)
    requires Ordered(g, l, w) && l != []
    ensures Ordered(g + [l[0]], l[1..], w)
  {
    assert g + [l[0]] + l[1..] == g + l;
  }

  lemma OrderedFlush(g: seq<Request>, l: seq<Request>, w: seq<Request>)
    requires Ordered(g, l, w)
    ensures Ordered(g, [], w)
  {
    SubseqPrefix(g, l, w);
    assert g + [] == g;
  }

  /** The same among the orphan readers of an event list. */
  ghost predicate EventsOrdered(given: seq<Request>, events: seq<Request>, queued: seq<Request>) {
    Ordered(given, Filter(events, ORPHANS), Filter(queued, ORPHANS))
  }

  lemma EventsAppend(g: seq<Request>, l: seq<Request>, w: seq<Request>, r: Request)
    requires EventsOrdered(g, l, w)
    ensures EventsOrdered(g, l + [r], w + [r])
  {
    FilterAppend(l, [r], ORPHANS);
    FilterAppend(w, [r], ORPHANS);
    FilterOne(r, ORPHANS);
    if IsOrphan(r) {
      OrderedAppend(g, Filter(l, ORPHANS), Filter(w, ORPHANS), r);
    } else {
      assert Filter(l, ORPHANS) + [] == Filter(l, ORPHANS) && Filter(w, ORPHANS) + [] == Filter(w, ORPHANS);
    }
  }

  lemma EventsAbort(g: seq<Request>, l: seq<Request>, w: seq<Request>, i: nat)
    requires EventsOrdered(g, l, w) && i < |l|
    ensures EventsOrdered(g, Without(l, i), w)
  {
    FilterWithout(l, i, ORPHANS);
    if IsOrphan(l[i]) {
      OrderedAbort(g, Filter(l, ORPHANS), Filter(w, ORPHANS), |Filter(l[..i], ORPHANS)|);
    }
  }

  lemma EventsGive(g: seq<Request>, l: seq<Request>, w: seq<Request>, i: nat)
    requires EventsOrdered(g, l, w) && i == First(l, ORPHANS) < |l|
    ensures EventsOrdered(g + [l[i]], Without(l, i), w)
  {
    FilterWithout(l, i, ORPHANS);
    FilterNone(l[..i], ORPHANS);
    RemoveHead(Filter(l, ORPHANS));
    OrderedGive(g, Filter(l, ORPHANS), Filter(w, ORPHANS));
  }

  lemma EventsFlush(g: seq<Request>, l: seq<Request>, w: seq<Request>)
    requires EventsOrdered(g, l, w)
    ensures EventsOrdered(g, Filter(l, NON_ORPHANS), w) && EventsOrdered(g, [], w)
  {
    FilterSplit(l, ORPHANS, NON_ORPHANS);
    OrderedFlush(g, Filter(l, ORPHANS), Filter(w, ORPHANS));
  }

  predicate AtHome(l: Lists) {
    && (forall r :: r in l.ipv4 ==> ReadClass(r) == Ipv4)
    && (forall r :: r in l.arp ==> ReadClass(r) == Arp)
    && (forall r :: r in l.other ==> ReadClass(r) == Class.Other)
  }

  /** Readers of a class are given frames in the order they were queued, before everyone
      still waiting; the same holds among orphan readers. */
  ghost predicate InOrder(g: Lists, l: Lists, w: Lists) {
    && Ordered(g.ipv4, l.ipv4, w.ipv4) && Ordered(g.arp, l.arp, w.arp) && Ordered(g.other, l.other, w.other)
    && EventsOrdered(g.events, l.events, w.events)
    && AtHome(l)
  }

  lemma FlushInOrder(g: Lists, l: Lists, w: Lists)
    requires InOrder(g, l, w)
    ensures InOrder(g, AfterFlush(l), w) && InOrder(g, l.(events := []), w)
  {
    OrderedFlush(g.ipv4, l.ipv4, w.ipv4);
    OrderedFlush(g.arp, l.arp, w.arp);
    OrderedFlush(g.other, l.other, w.other);
    EventsFlush(g.events, l.events, w.events);
  }

  lemma DeliverInOrder(q: Q, k: Class)
    requires InOrder(q.given, q.lists, q.queued)
    ensures InOrder(Serve(q, k).given, Serve(q, k).lists, q.queued)
  {
    hide Ordered, EventsOrdered;
    if q.lists.Of(k) != [] {
      OrderedGive(q.given.Of(k), q.lists.Of(k), q.queued.Of(k));
    } else {
      var i := First(q.lists.events, ORPHANS);
      if i < |q.lists.events| {
        EventsGive(q.given.events, q.lists.events, q.queued.events, i);
      }
    }
  }

  lemma EnqueueInOrder(q: Q, r: Request)
    requires InOrder(q.given, q.lists, q.queued) && Enabled(q, Enqueue(r))
    ensures var q' := Put(q, r); InOrder(q'.given, q'.lists, q'.queued)
  {
    hide Ordered, EventsOrdered;
    if q.service[r].ToReads? {
      var k := ReadClass(r);
      OrderedAppend(q.given.Of(k), q.lists.Of(k), q.queued.Of(k), r);
    } else if q.service[r].ToEvents? {
      EventsAppend(q.given.events, q.lists.events, q.queued.events, r);
    }
  }

  lemma AbortInOrder(q: Q, k: Class, i: nat)
    requires InOrder(q.given, q.lists, q.queued) && i < |q.lists.Of(k)|
    ensures InOrder(q.given, q.lists.With(k, Without(q.lists.Of(k), i)), q.queued)
  {
    OrderedAbort(q.given.Of(k), q.lists.Of(k), q.queued.Of(k), i);
  }

  lemma StepInOrder(q: Q, step: Step)
    requires InOrder(q.given, q.lists, q.queued) && Enabled(q, step)
    ensures var q' := Do(q, step); InOrder(q'.given, q'.lists, q'.queued)
  {
    match step
    case Enqueue(r) => EnqueueInOrder(q, r);
    case AbortRead(k, i) => AbortInOrder(q, k, i);
    case AbortEvent(i) => EventsAbort(q.given.events, q.lists.events, q.queued.events, i);
    case Deliver(k) => DeliverInOrder(q, k);
    case Flush => FlushInOrder(q.given, q.lists, q.queued);
    case ExitStep => FlushInOrder(q.given, q.lists, q.queued);
    case _ =>
  }

  /** Requests on their way into a list. */
  function Arriving(q: Q): set<Request> {
    set r | r in q.service && !q.service[r].Replying? && !q.service[r].ToPort?
  }

  /** No request is ever queued twice. */
  predicate QueuedOnce(q: Q) {
    Queued(q.queued) + multiset(Arriving(q)) <= multiset(q.submitted)
  }

  lemma EnqueueOnce(q: Q, r: Request)
    requires QueuedOnce(q) && Enabled(q, Enqueue(r))
    ensures QueuedOnce(Put(q, r))
  {
    PutQueued(q, r);
  }

  lemma PutQueued(q: Q, r: Request)
    requires Enabled(q, Enqueue(r))
    ensures Queued(Put(q, r).queued) + multiset(Arriving(Put(q, r))) == Queued(q.queued) + multiset(Arriving(q))
    ensures Put(q, r).submitted == q.submitted
  {
    hide Queued, Append;
    QueuedThen(q.queued, r);
    var q' := Put(q, r);
    if q.service[r].ToPort? {
      assert Arriving(q') == Arriving(q);
    } else {
      assert Arriving(q) == Arriving(q') + {r} && r !in Arriving(q');
      assert Queued(q'.queued) == Queued(q.queued) + multiset{r};
    }
  }

  lemma QueuedThen(l: Lists, r: Request)
    ensures Queued(Append(l, r)) == Queued(l) + multiset{r}
    ensures Queued(l.(events := l.events + [r])) == Queued(l) + multiset{r}
  {
  }

  lemma SubmitOnce(q: Q, r: Request)
    requires QueuedOnce(q) && Enabled(q, Submit(r))
    ensures QueuedOnce(Do(q, Submit(r)))
  {
    assert r !in multiset(q.submitted);
    assert Arriving(Do(q, Submit(r))) == Arriving(q) + {r};
  }

  lemma StepQueuedOnce(q: Q, step: Step)
    requires QueuedOnce(q) && Enabled(q, step)
    ensures QueuedOnce(Do(q, step))
  {
    match step
    case Submit(r) => SubmitOnce(q, r);
    case Enqueue(r) => EnqueueOnce(q, r);
    case _ => FewerArriving(q, step);
  }

  lemma FewerArriving(q: Q, step: Step)
    requires Enabled(q, step) && !step.Submit? && !step.Enqueue?
    ensures Arriving(Do(q, step)) <= Arriving(q)
    ensures Do(q, step).queued == q.queued && Do(q, step).submitted == q.submitted
  {
  }

  ghost predicate Inv(q: Q) {
    Owned(q) && InOrder(q.given, q.lists, q.queued) && QueuedOnce(q)
  }

  lemma {:induction false} RunInv(q: Q, steps: seq<Step>)
    requires Inv(q) && Run(q, steps).Some?
    ensures Inv(Run(q, steps).value)
    decreases |steps|
  {
    if steps == [] {
    } else {
      StepOwned(q, steps[0]);
      StepInOrder(q, steps[0]);
      StepQueuedOnce(q, steps[0]);
      RunInv(Do(q, steps[0]), steps[1..]);
    }
  }

  /** First come, first served within a class: once a reader has been given a frame, nobody
      queued before it is still waiting, and readers are given frames in queue order. */
  lemma FifoDelivery(steps: seq<Step>, k: Class, i: nat, j: nat)
    requires Run(START, steps).Some?
    requires var q := Run(START, steps).value; i < j < |q.queued.Of(k)| && q.queued.Of(k)[j] in q.given.Of(k)
    ensures var q := Run(START, steps).value;
            && q.queued.Of(k)[i] !in q.lists.Of(k)
            && forall x, y | 0 <= x < |q.given.Of(k)| && 0 <= y < |q.given.Of(k)|
                 :: q.given.Of(k)[x] == q.queued.Of(k)[i] && q.given.Of(k)[y] == q.queued.Of(k)[j] ==> x < y
  {
    hide Run, Inv;
    RunInv(START, steps);
    var q := Run(START, steps).value;
    var w, given, lists := q.queued.Of(k), q.given.Of(k), q.lists.Of(k);
    if w[i] in lists {
      var x :| 0 <= x < |lists| && lists[x] == w[i];
      var y :| 0 <= y < |given| && given[y] == w[j];
      ServedInOrder(q, k, i, j, |given| + x, y);
    }
    forall x, y | 0 <= x < |given| && 0 <= y < |given| && given[x] == w[i] && given[y] == w[j]
      ensures x < y
    {
      ServedInOrder(q, k, i, j, x, y);
    }
  }

  /** Readers that were given a frame, then those still waiting, stand in queue order. */
  lemma ServedInOrder(q: Q, k: Class, i: nat, j: nat, x: nat, y: nat)
    requires Inv(q) && i < j < |q.queued.Of(k)|
    requires var a := q.given.Of(k) + q.lists.Of(k);
             x < |a| && y < |a| && a[x] == q.queued.Of(k)[i] && a[y] == q.queued.Of(k)[j]
    ensures x < y
  {
    var a, w := q.given.Of(k) + q.lists.Of(k), q.queued.Of(k);
    assert Subseq(a, w) by { assert Ordered(q.given.Of(k), q.lists.Of(k), w); }
    hide Subseq, Inv;
    if y < x {
      var j', i' := SubseqOrder(a, w, y, x);
      NoRepeats(q, k, i, i');
      NoRepeats(q, k, j, j');
    } else if x == y {
      NoRepeats(q, k, i, j);
    }
  }

  lemma NoRepeats(q: Q, k: Class, i: nat, j: nat)
    requires Inv(q) && i < |q.queued.Of(k)| && j < |q.queued.Of(k)| && q.queued.Of(k)[i] == q.queued.Of(k)[j]
    ensures i == j
  {
    var w := q.queued.Of(k);
    DistinctOnce(q.submitted, w[i]);
    assert multiset(w)[w[i]] <= Queued(q.queued)[w[i]] <= multiset(q.submitted)[w[i]];
    if i < j {
      Twice(w, i, j);
    } else if j < i {
      Twice(w, j, i);
    }
  }

  // ---- shutdown -------------------------------------------------------------------------------

  /** Request r is inside BeginIO on a way that can end in a list or the port. */
  predicate Harmful(q: Q, r: Request) {
    r in q.service &&
    match q.service[r]
    case Replying => false
    case Checking => !Route(r.cmd, q.online, true).Replying?
    case _ => true
  }

  predicate Harmless(q: Q) {
    forall r :: r in q.service ==> !Harmful(q, r)
  }

  predicate NoSubmit(steps: seq<Step>) {
    forall i :: 0 <= i < |steps| ==> !steps[i].Submit?
  }

  predicate NothingWaits(q: Q) {
    q.lists == NO_REQUESTS && q.port == []
  }

  /** How far the exit has got, in terms of what is empty. */
  predicate ExitProgress(q: Q) {
    && !q.task.Serving?
    && (!q.task.ExitDrain? ==> q.port == [])
    && (q.task.ExitEvents? || q.task.Gone? ==> q.lists.ipv4 == [] && q.lists.arp == [] && q.lists.other == [])
    && (q.task.Gone? ==> q.lists == NO_REQUESTS)
  }

  lemma HarmlessStep(q: Q, step: Step)
    requires Harmless(q) && ExitProgress(q) && Enabled(q, step) && !step.Submit?
    ensures Harmless(Do(q, step)) && ExitProgress(Do(q, step))
  {
    assert step.Enqueue? ==> !Harmful(q, step.r);
    ProgressKept(q, step);
    if step.Decide? {
      HarmlessDecide(q, step.r, step.ok);
    } else {
      StillHarmless(q, Do(q, step));
    }
  }

  lemma ProgressKept(q: Q, step: Step)
    requires ExitProgress(q) && Enabled(q, step) && !step.Submit?
    requires step.Enqueue? ==> !Harmful(q, step.r)
    ensures ExitProgress(Do(q, step))
  {
    hide Route, Flushed;
  }

  /** Requests may leave service, or come into it to be replied. */
  lemma StillHarmless(q: Q, q': Q)
    requires Harmless(q) && q'.online == q.online
    requires forall r :: r in q'.service ==>
               q'.service[r].Replying? || (r in q.service && q'.service[r] == q.service[r])
    ensures Harmless(q')
  {
    hide Route;
    forall r | r in q'.service && !q'.service[r].Replying?
      ensures !Harmful(q', r)
    {
      assert !Harmful(q, r);
    }
  }

  lemma HarmlessDecide(q: Q, r: Request, ok: bool)
    requires Harmless(q) && Enabled(q, Decide(r, ok))
    ensures Harmless(Do(q, Decide(r, ok)))
  {
    assert !Harmful(q, r);
    assert Route(r.cmd, q.online, ok).Replying?;
    StillHarmless(q, Do(q, Decide(r, ok)));
  }

  lemma {:induction false} HarmlessRun(q: Q, steps: seq<Step>)
    requires Harmless(q) && ExitProgress(q) && Run(q, steps).Some? && NoSubmit(steps)
    ensures Harmless(Run(q, steps).value) && ExitProgress(Run(q, steps).value)
    decreases |steps|
  {
    if steps != [] {
      HarmlessStep(q, steps[0]);
      HarmlessRun(Do(q, steps[0]), steps[1..]);
    }
  }

  /** From the moment the task begins to exit, with no new clients: whatever happens, nothing
      is left waiting when the task is gone, if and only if no client is inside BeginIO with a
      request that can still be queued. */
  lemma ExitLeavesNothing(before: seq<Step>)
    requires Run(START, before).Some? && Run(START, before).value.task.ExitDrain?
    ensures var q := Run(START, before).value;
            (forall after :: NoSubmit(after) && Run(q, after).Some? && Run(q, after).value.task.Gone? ==>
              NothingWaits(Run(q, after).value)) <==> Harmless(q)
  {
    var q := Run(START, before).value;
    if Harmless(q) {
      forall after | NoSubmit(after) && Run(q, after).Some? && Run(q, after).value.task.Gone?
        ensures NothingWaits(Run(q, after).value)
      {
        HarmlessRun(q, after);
      }
    } else {
      var r :| r in q.service && Harmful(q, r);
      RunInv(START, before);
      var after, q' := Strand(q, r);
      assert Run(q, after) == Some(q') && !NothingWaits(q');
    }
  }

  /** A run in which the harmful request r is left behind. */
  lemma Strand(q: Q, r: Request) returns (steps: seq<Step>, q': Q)
    requires Inv(q) && q.task.ExitDrain? && Harmful(q, r)
    ensures NoSubmit(steps) && Run(q, steps) == Some(q') && q'.task.Gone? && !NothingWaits(q')
    ensures q.service[r].ToReads? ==> r in q'.lists.Of(ReadClass(r))
  {
    hide Inv, Run;
    steps, q' := [], q;
    RunNone(q);
    if q.service[r].Checking? {
      steps, q' := Then(q, steps, q', Decide(r, true));
    }
    while q'.port != []
      invariant NoSubmit(steps) && Run(q, steps) == Some(q') && Inv(q') && q'.task.ExitDrain?
      invariant Harmful(q', r) && !q'.service[r].Checking?
      invariant q.service[r].ToReads? ==> q'.service[r].ToReads?
      decreases |q'.port|
    {
      NotInPort(q', r);
      steps, q' := Then(q, steps, q', GetMsg);
    }
    var phase := q'.service[r];
    steps, q' := Then(q, steps, q', ExitStep);
    if phase.ToPort? {
      steps, q' := Then(q, steps, q', Enqueue(r));
    }
    steps, q' := Then(q, steps, q', ExitStep);
    steps, q' := Then(q, steps, q', ExitStep);
    if !phase.ToPort? {
      var q0 := q';
      steps, q' := Then(q, steps, q', Enqueue(r));
      Enqueued(q0, r);
    }
  }

  /** One more step of a run under construction. */
  lemma Then(q0: Q, steps: seq<Step>, q: Q, step: Step) returns (steps': seq<Step>, q': Q)
    requires Run(q0, steps) == Some(q) && Inv(q) && NoSubmit(steps) && Enabled(q, step) && !step.Submit?
    ensures q' == Do(q, step) && Run(q0, steps') == Some(q') && Inv(q') && NoSubmit(steps')
  {
    hide Inv;
    steps', q' := steps + [step], Do(q, step);
    RunAppend(q0, steps, [step]);
    RunInv(q, [step]);
    assert Run(q', []) == Some(q');
  }

  lemma Enqueued(q: Q, r: Request)
    requires Enabled(q, Enqueue(r)) && !q.service[r].ToPort?
    ensures if q.service[r].ToReads? then r in Put(q, r).lists.Of(ReadClass(r)) else r in Put(q, r).lists.events
  {
  }

  lemma RunNone(q: Q)
    ensures Run(q, []) == Some(q)
  {
  }

  lemma NotInPort(q: Q, r: Request)
    requires Inv(q) && r in q.service
    ensures r !in q.port
  {
    DistinctOnce(q.submitted, r);
    assert multiset(q.service.Keys)[r] == 1;
    assert Places(q)[r] >= multiset(q.port)[r] + multiset(q.service.Keys)[r];
  }

  /** When the exit leaves nothing, every request ever submitted has been completed or is
      about to be. */
  lemma ExitCompletesAll(before: seq<Step>, after: seq<Step>)
    requires Run(START, before).Some? && Run(START, before).value.task.ExitDrain? && Harmless(Run(START, before).value)
    requires NoSubmit(after) && Run(Run(START, before).value, after).Some?
    ensures var q := Run(Run(START, before).value, after).value;
            q.task.Gone? ==>
              Harmless(q) && multiset(q.submitted) == multiset(q.completed) + multiset(q.service.Keys)
  {
    hide Run, Inv;
    RunInv(START, before);
    HarmlessRun(Run(START, before).value, after);
    RunInv(Run(START, before).value, after);
    InvBalances(Run(Run(START, before).value, after).value);
  }

  /** With empty lists and port, what was submitted is completed or in service. */
  lemma InvBalances(q: Q)
    requires Inv(q)
    ensures q.lists == NO_REQUESTS && q.port == [] ==>
              multiset(q.submitted) == multiset(q.completed) + multiset(q.service.Keys)
  {
  }

  /** It does happen: a read that passed the online test before the exit and is queued after
      the flush is left behind, with no task to serve it. */
  lemma LateReadIsStranded(r: Request)
    requires r.cmd == Read
    ensures exists steps :: steps != [] && NoSubmit(steps[1..]) && Run(START, steps).Some? &&
                            var q := Run(START, steps).value; q.task.Gone? && r in q.lists.Of(ReadClass(r))
  {
    hide Run, Inv;
    var q := Entered(r);
    RunNone(q);
    var steps, q' := Then(q, [], q, SetOnline(true));
    steps, q' := Then(q, steps, q', Decide(r, true));
    steps, q' := Then(q, steps, q', BeginExit);
    var more, q'' := Strand(q', r);
    RunAppend(q, steps, more);
    RunCons(START, Submit(r), steps + more);
    assert ([Submit(r)] + (steps + more))[1..] == steps + more;
  }

  /** The first client has just entered BeginIO. */
  lemma Entered(r: Request) returns (q: Q)
    ensures Enabled(START, Submit(r)) && q == Do(START, Submit(r)) && Inv(q)
    ensures q.service == map[r := Checking] && q.task.Serving?
  {
    q := Do(START, Submit(r));
    StepOwned(START, Submit(r));
    StepInOrder(START, Submit(r));
    StepQueuedOnce(START, Submit(r));
  }

  lemma RunCons(q: Q, step: Step, rest: seq<Step>)
    requires Enabled(q, step)
    ensures Run(q, [step] + rest) == Run(Do(q, step), rest)
  {
    assert ([step] + rest)[1..] == rest;
  }

  lemma {:induction false} RunAppend(q: Q, a: seq<Step>, b: seq<Step>)
    requires Run(q, a).Some?
    ensures Run(q, a + b) == Run(Run(q, a).value, b)
    decreases |a|
  {
    if a == [] {
      assert a + b == b;
    } else {
      assert (a + b)[1..] == a[1..] + b;
      RunAppend(Do(q, a[0]), a[1..], b);
    }
  }
}
