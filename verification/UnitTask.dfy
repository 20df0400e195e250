/**
 The unit task as it runs: it waits, serves the commands on its port, processes received
 frames, and at the end aborts whatever is left.
 */
module UnitTask {
  import opened Base
  import opened RxRing
  import opened Subsequences
  import opened Requests
  import opened UnitQueues
  import opened RxDriver
  import opened Conservation
  import HwResources
  import Ownership

  /** A request that a client submits, with what the allocator and the transmitter answer. */
  datatype Submission = Submission(req: Request, nodeOk: bool, txError: Error)

  /** What the system answers for each buffer. */
  type Answers = nat -> HwResources.Answer

  /** One turn of the task: what clients submit before it, whether Ctrl-C came after Wait() had
      returned and cleared its signals, what the system answers when the i-th command of the
      turn allocates buffers, and what arrives while the task looks at the ring. */
  datatype Turn = Turn(submissions: seq<Submission>, ctrlC: bool,
                       answers: nat -> Answers, arrivals: nat -> seq<Frame>, copyOk: Request -> bool)

  const S2EVENT_ONLINE: bv32 := 0x08
  const S2EVENT_OFFLINE: bv32 := 0x10

  function RequestsOf(ss: seq<Submission>): seq<Request> {
    seq(|ss|, i requires 0 <= i < |ss| => ss[i].req)
  }

  /** Everything submitted in these turns. */
  function Submitted(ts: seq<Turn>): multiset<Request> {
    if ts == [] then multiset{}
    else Submitted(ts[..|ts| - 1]) + multiset(RequestsOf(ts[|ts| - 1].submissions))
  }

  lemma SubmittedNone(ts: seq<Turn>)
    ensures Submitted(ts[..0]) == multiset{}
  {
  }

  lemma SubmittedMore(ts: seq<Turn>, n: nat)
    requires n < |ts|
    ensures Submitted(ts[..n + 1]) == Submitted(ts[..n]) + multiset(RequestsOf(ts[n].submissions))
  {
    assert ts[..n + 1][..n] == ts[..n];
  }

  /** The system gives all buffers to whoever asks in this turn. */
  ghost predicate GenerousTurn(t: Turn) {
    forall i :: Generous(t.answers(i))
  }

  /** The error a command is replied with. */
  function ErrorOf(cmd: Command): Error {
    if cmd.ConfigInterface? || cmd.Online? || cmd.Offline? || cmd.Flush? then NoError
    else if IsWrite(cmd) then TxFailure
    else NoCommand
  }

  /** The reads a command fails before it is replied, in order. */
  function FailedBy(cmd: Command, l: Lists): seq<Reply> {
    if cmd.Offline? then Failed(Flushed(l), OutOfService)
    else if cmd.Flush? then Failed(Flushed(l), Aborted)
    else []
  }

  /** The task ends in the first turn that brings Ctrl-C, or with the last turn there is. */
  predicate LastTurn(ts: seq<Turn>, n: nat)
    requires n <= |ts|
  {
    && (forall i :: 0 <= i < n - 1 ==> !ts[i].ctrlC)
    && (n == |ts| || (n > 0 && ts[n - 1].ctrlC))
  }

  class Task {
    const unit: RxUnit

    /** The rings are right, or the unit has not been online yet and has no buffers. */
    ghost predicate Ringed()
      reads unit, unit.rxRing, unit.rxBufRing, unit.rxSlotBuf,
            unit.hw, unit.hw.exec, unit.hw.rxBufs, unit.hw.rxBufsPhys
    {
      && unit.Shapes() && unit.hw.Balanced() && unit.hw.Addressed()
      && ((unit.Valid() && unit.AllThere())
          || (unit.Idle() && forall i :: 0 <= i < NUM_RX_BUFS ==> unit.hw.rxBufs[i].ptr == 0))
    }

    /** What every turn needs and keeps, whatever the system answered so far. */
    ghost predicate Ready()
      reads unit, unit.queues, unit.hw, unit.hw.exec, unit.hw.rxBufs, unit.hw.rxBufsPhys
    {
      && unit.Sane() && unit.hw.Balanced() && unit.hw.Addressed()
      && unit.queues.EventMasksClear()
    }

    /** What holds besides as long as the system gave all it was asked for. */
    ghost predicate RingsSound()
      reads unit, unit.rxRing, unit.rxBufRing, unit.rxSlotBuf, unit.queues,
            unit.hw, unit.hw.exec, unit.hw.rxBufs, unit.hw.rxBufsPhys
    {
      Ringed() && (unit.queues.online ==> unit.Valid())
    }

    ghost function Balance(): multiset<Request>
      reads unit.queues
    {
      Total(unit.queues.Waiting(), unit.queues.port, unit.queues.replies)
    }

    constructor (unit: RxUnit)
      ensures this.unit == unit
    {
      this.unit := unit;
    }

    /** Clients at work: BeginIO, and for a packet the transmitter, whose reply comes at once. */
    method Submit(s: Submission)
      requires Ready()
      modifies unit.queues
      ensures Ready() && Balance() == old(Balance()) + multiset{s.req}
      ensures old(RingsSound()) ==> RingsSound()
    {
      hide Ringed, RxUnit.Valid, Total, Refusal, Ownership.Append;
      var q, r := unit.queues, s.req;
      ghost var e := Refusal(r, q.online, r.opener in q.openers);
      Added(q.Waiting(), q.port, q.replies, r, e);
      Added(q.Waiting(), q.port, q.replies, r, s.txError);
      var transmit := q.BeginIO(r, s.nodeOk);
      if transmit {
        q.ReplyWith(r, s.txError);
      }
    }

    method SubmitAll(ss: seq<Submission>)
      requires Ready()
      modifies unit.queues
      ensures Ready() && Balance() == old(Balance()) + multiset(RequestsOf(ss))
      ensures old(RingsSound()) ==> RingsSound()
    {
      hide Ready, RingsSound, Balance;
      assert multiset(RequestsOf(ss[..0])) == multiset{};
      for i := 0 to |ss|
        invariant Ready() && Balance() == old(Balance()) + multiset(RequestsOf(ss[..i]))
        invariant old(RingsSound()) ==> RingsSound()
      {
        Submit(ss[i]);
        assert RequestsOf(ss[..i + 1]) == RequestsOf(ss[..i]) + [ss[i].req];
      }
      assert ss[..|ss|] == ss;
    }

    /** The buffers and rings for the first time; nothing if they are there already. The rings
        are right afterwards exactly if they were, or every buffer is got now. */
    method BringUp(answers: Answers)
      requires unit.Sane() && unit.hw.Balanced() && unit.hw.Addressed()
      modifies unit, unit.rxRing, unit.rxBufRing, unit.rxSlotBuf, unit.hw.exec, unit.hw.rxBufs, unit.hw.rxBufsPhys
      ensures unit.Sane() && unit.hw.Balanced() && unit.hw.Addressed()
      ensures old(Ringed()) ==> (unit.Valid() <==> old(unit.Valid()) || Generous(answers))
      ensures old(Ringed()) && (unit.Valid() || FirstUnusable(answers) == 0) ==> Ringed()
    {
      hide DescRing, BufRing, SlotTable, Buffered, Generous, GoodPhys;
      ghost var up := unit.AllThere();
      ghost var phys := unit.hw.rxBufsPhys[..];
      var posted := unit.PostRxBuffers(answers);
      if up {
        assert unit.hw.rxBufsPhys[..] == phys;
      }
    }

    /** S2_ONLINE and S2_CONFIGINTERFACE. */
    method GoOnline(answers: Answers)
      requires Ready()
      modifies unit, unit.rxRing, unit.rxBufRing, unit.rxSlotBuf, unit.queues,
               unit.hw.exec, unit.hw.rxBufs, unit.hw.rxBufsPhys
      ensures Ready() && unit.queues.online && Balance() == old(Balance())
      ensures unit.queues.port == old(unit.queues.port) && unit.queues.Waiting() == old(unit.queues.Waiting())
      ensures unit.queues.replies == old(unit.queues.replies)
      ensures old(RingsSound()) ==> (RingsSound() <==> old(unit.Valid()) || Generous(answers))
    {
      hide Ringed, RxUnit.Valid, Total, Generous;
      if !unit.queues.online {
        unit.queues.online := true;
        BringUp(answers);
        unit.queues.SignalEvent(S2EVENT_ONLINE);
      }
    }

    /** The lists after a flush still hold nothing but requests whose masks are clear. */
    lemma StillClear(l: seq<Request>, wire: map<nat, bv32>)
      requires forall r :: r in l ==> r.id in wire && wire[r.id] == 0
      ensures forall r :: r in Filter(l, NON_ORPHANS) ==> r.id in wire && wire[r.id] == 0
    {
      forall r | r in Filter(l, NON_ORPHANS)
        ensures r in l
      {
        FilterFrom(l, NON_ORPHANS, r);
      }
    }

    /** CMD_FLUSH and the first half of S2_OFFLINE: reads fail. */
    method FlushReads(e: Error)
      requires Ready()
      modifies unit.queues`readIpv4, unit.queues`readArp, unit.queues`readOther, unit.queues`eventList,
          unit.queues`replies
      ensures Ready() && Balance() == old(Balance()) && (old(RingsSound()) ==> RingsSound())
      ensures unit.queues.Waiting() == AfterFlush(old(unit.queues.Waiting()))
      ensures unit.queues.replies == old(unit.queues.replies) + Failed(Flushed(old(unit.queues.Waiting())), e)
    {
      hide Ringed, RxUnit.Valid, Everywhere, Replied, Filter;
      var q := unit.queues;
      StillClear(q.eventList, q.wireError);
      FlushConserves(q.Waiting(), q.port, q.replies, e);
      q.FlushReadQueue(e);
    }

    /** S2_OFFLINE; the rings stay as they are. */
    method GoOffline()
      requires Ready()
      modifies unit.queues
      ensures Ready() && !unit.queues.online && Balance() == old(Balance()) && (old(RingsSound()) ==> RingsSound())
      ensures unit.queues.port == old(unit.queues.port)
      ensures unit.queues.Waiting() == AfterFlush(old(unit.queues.Waiting()))
      ensures unit.queues.replies ==
              old(unit.queues.replies) + Failed(Flushed(old(unit.queues.Waiting())), OutOfService)
    {
      hide Ringed, RxUnit.Valid, Total, AfterFlush, Failed, Flushed;
      unit.queues.online := false;
      FlushReads(OutOfService);
      unit.queues.SignalEvent(S2EVENT_OFFLINE);
    }

    /** What a command does before it is replied, and its error. */
    method Execute(cmd: Command, answers: Answers) returns (e: Error)
      requires Ready()
      modifies unit, unit.rxRing, unit.rxBufRing, unit.rxSlotBuf, unit.queues,
               unit.hw.exec, unit.hw.rxBufs, unit.hw.rxBufsPhys
      ensures Ready() && Balance() == old(Balance()) && unit.queues.port == old(unit.queues.port)
      ensures unit.queues.online == if cmd.ConfigInterface? || cmd.Online? then true
                                    else if cmd.Offline? then false else old(unit.queues.online)
      ensures unit.queues.Waiting() == if cmd.Offline? || cmd.Flush?
                                       then AfterFlush(old(unit.queues.Waiting())) else old(unit.queues.Waiting())
      ensures e == ErrorOf(cmd)
      ensures unit.queues.replies == old(unit.queues.replies) + FailedBy(cmd, old(unit.queues.Waiting()))
      ensures old(RingsSound()) ==>
                (RingsSound() <==> (cmd.ConfigInterface? || cmd.Online? ==> old(unit.Valid()) || Generous(answers)))
    {
      hide Ready, RingsSound, Balance, RxUnit.Valid, Generous, AfterFlush, Queues.Waiting, Failed, Flushed;
      e := NoError;
      if cmd.ConfigInterface? || cmd.Online? {
        GoOnline(answers);
      } else if cmd.Offline? {
        GoOffline();
      } else if cmd.Flush? {
        FlushReads(Aborted);
      } else if IsWrite(cmd) {
        e := TxFailure;
      } else {
        e := NoCommand;
      }
    }

    /** One command from the port. Whatever the system answers, the command is replied; with
        the rings right, they stay right unless the command brings the unit online for the
        first time and the system does not give all 512 buffers. */
    method Serve(r: Request, answers: Answers)
      requires Ready()
      modifies unit, unit.rxRing, unit.rxBufRing, unit.rxSlotBuf, unit.queues,
               unit.hw.exec, unit.hw.rxBufs, unit.hw.rxBufsPhys
      ensures Ready() && Balance() == old(Balance()) + multiset{r}
      ensures unit.queues.port == old(unit.queues.port)
      ensures unit.queues.online == if r.cmd.ConfigInterface? || r.cmd.Online? then true
                                    else if r.cmd.Offline? then false else old(unit.queues.online)
      ensures unit.queues.Waiting() == if r.cmd.Offline? || r.cmd.Flush?
                                       then AfterFlush(old(unit.queues.Waiting())) else old(unit.queues.Waiting())
      ensures unit.queues.replies == old(unit.queues.replies) + FailedBy(r.cmd, old(unit.queues.Waiting()))
                                     + [Reply(r, ErrorOf(r.cmd), None, false)]
      ensures old(RingsSound()) ==>
                (RingsSound() <==> (r.cmd.ConfigInterface? || r.cmd.Online? ==> old(unit.Valid()) || Generous(answers)))
    {
      hide Ringed, RxUnit.Valid, Everywhere, Replied, Generous, AfterFlush, FailedBy, ErrorOf;
      var e := Execute(r.cmd, answers);
      RepliedOne(unit.queues.replies, Reply(r, e, None, false));
      unit.queues.ReplyWith(r, e);
    }

    /** GetMsg. */
    method TakeCommand() returns (r: Request)
      requires Ready() && unit.queues.port != []
      modifies unit.queues`port
      ensures Ready() && old(Balance()) == Balance() + multiset{r} && (old(RingsSound()) ==> RingsSound())
      ensures unit.queues.port == old(unit.queues.port)[1..] && r == old(unit.queues.port)[0]
    {
      hide Ringed, RxUnit.Valid, Everywhere;
      var q := unit.queues;
      PortTaken(q.Waiting(), q.port);
      r := q.port[0];
      q.port := q.port[1..];
    }

    /** Serves commands until the port is empty. */
    method DrainCommands(answers: nat -> Answers)
      requires Ready()
      modifies unit, unit.rxRing, unit.rxBufRing, unit.rxSlotBuf, unit.queues,
               unit.hw.exec, unit.hw.rxBufs, unit.hw.rxBufsPhys
      ensures Ready() && Balance() == old(Balance()) && unit.queues.port == []
      ensures old(RingsSound()) && (forall i :: Generous(answers(i))) ==> RingsSound()
    {
      hide Ready, RingsSound, Balance, Generous, FailedBy, ErrorOf;
      ghost var good := RingsSound() && forall i :: Generous(answers(i));
      var i := 0;
      while unit.queues.port != []
        invariant Ready() && Balance() == old(Balance()) && (good ==> RingsSound())
        decreases |unit.queues.port|
      {
        var r := TakeCommand();
        Serve(r, answers(i));
        i := i + 1;
      }
    }

    /** Received frames go to the readers. */
    method ProcessFrames(arrivals: nat -> seq<Frame>, copyOk: Request -> bool)
      requires Ready()
      modifies unit, unit.rxRing, unit.rxBufRing, unit.rxSlotBuf, unit.queues
      ensures Ready() && Balance() == old(Balance()) && unit.queues.port == old(unit.queues.port)
      ensures old(RingsSound()) ==> RingsSound() && (unit.queues.online ==> unit.done == |unit.received|)
    {
      hide DescRing, BufRing, SlotTable, Buffered, GoodPhys, Everywhere, Replied, OfferAll, HookOf;
      if unit.queues.online {
        ghost var q := unit.queues;
        ghost var before, hooks, port := q.State(), HookOf(q.openers, copyOk), q.port;
        var _, handed := unit.ProcessRX(arrivals, copyOk);
        OffersConserve(before, handed, hooks, port);
        EventsStayClear(before, handed, hooks, q.wireError);
      }
    }

    /** What a turn does unless Ctrl-C came. */
    method Work(t: Turn)
      requires Ready()
      modifies unit, unit.rxRing, unit.rxBufRing, unit.rxSlotBuf, unit.queues,
               unit.hw.exec, unit.hw.rxBufs, unit.hw.rxBufsPhys
      ensures Ready() && Balance() == old(Balance()) && unit.queues.port == []
      ensures old(RingsSound()) && GenerousTurn(t) ==>
                RingsSound() && (unit.queues.online ==> unit.done == |unit.received|)
    {
      hide Ready, RingsSound, Balance, Generous;
      DrainCommands(t.answers);
      ProcessFrames(t.arrivals, t.copyOk);
    }

    /** The main loop: each turn serves what came in, until Ctrl-C or shutdown. */
    method MainLoop(turns: seq<Turn>) returns (n: nat)
      requires Ready()
      modifies unit, unit.rxRing, unit.rxBufRing, unit.rxSlotBuf, unit.queues,
               unit.hw.exec, unit.hw.rxBufs, unit.hw.rxBufsPhys
      ensures n <= |turns| && LastTurn(turns, n)
      ensures Ready() && Balance() == old(Balance()) + Submitted(turns[..n])
      ensures old(RingsSound()) && (forall i :: 0 <= i < n ==> GenerousTurn(turns[i])) ==> RingsSound()
    {
      hide Ready, RingsSound, GenerousTurn, Balance, Submitted, RequestsOf;
      SubmittedNone(turns);
      n := 0;
      ghost var good := RingsSound();
      while n < |turns|
        invariant n <= |turns| && forall i :: 0 <= i < n ==> !turns[i].ctrlC
        invariant Ready() && Balance() == old(Balance()) + Submitted(turns[..n])
        invariant good && (forall i :: 0 <= i < n ==> GenerousTurn(turns[i])) ==> RingsSound()
      {
        SubmittedMore(turns, n);
        SubmitAll(turns[n].submissions);
        n := n + 1;
        if turns[n - 1].ctrlC {
          break;
        }
        Work(turns[n - 1]);
      }
    }

    /** After the main loop everything left is aborted. */
    method Finish()
      modifies unit.queues
      ensures unit.queues.Waiting() == NO_REQUESTS && unit.queues.port == []
      ensures multiset(Replied(unit.queues.replies)) == old(Balance())
    {
      hide Replied, Flushed, Filter, Failed;
      var q := unit.queues;
      DrainConserves(q.Waiting(), q.port, q.replies, Aborted);
      q.DrainPort();
      FlushAllConserves(q.Waiting(), [], q.replies, Aborted);
      q.FlushAllPending();
      assert Everywhere(NO_REQUESTS, []) == multiset{};
    }

    /** The task from its first wait to its end. Every request submitted up to then has been
        replied exactly once, and nothing is left. */
    method Body(turns: seq<Turn>) returns (n: nat)
      requires Ready()
      modifies unit, unit.rxRing, unit.rxBufRing, unit.rxSlotBuf, unit.queues,
               unit.hw.exec, unit.hw.rxBufs, unit.hw.rxBufsPhys
      ensures n <= |turns| && LastTurn(turns, n)
      ensures unit.queues.Waiting() == NO_REQUESTS && unit.queues.port == []
      ensures multiset(Replied(unit.queues.replies)) == old(Balance()) + Submitted(turns[..n])
    {
      n := MainLoop(turns);
      Finish();
    }
  }

  lemma EventsStayClear(d: Delivery, fs: seq<Frame>, hooks: Request -> Hook, wire: map<nat, bv32>)
    requires forall r :: r in d.lists.events ==> r.id in wire && wire[r.id] == 0
    ensures forall r :: r in OfferAll(d, fs, hooks).lists.events ==> r.id in wire && wire[r.id] == 0
  {
    forall r | r in OfferAll(d, fs, hooks).lists.events
      ensures r in d.lists.events
    {
      OffersKeepEvents(d, fs, hooks, r);
    }
  }
}
