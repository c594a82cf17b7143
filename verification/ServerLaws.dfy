/** What the server owes to its clients, over every run: why a connection may be closed, and that
  * every ready, idle or new one gets its due.  The laws are about the record of outcomes.
  */
module ServerLaws {
  import opened Options
  import opened Framing
  import opened HttpRequest
  import opened Pool
  import opened Server
  import opened ServerPool
  import opened ServerTasks
  import opened ServerSlots
  import opened ServerConnections
  import opened ServerReadiness
  import opened ServerBuffers
  import opened ServerFraming
  import opened ServerSafety
  import opened ServerShutdown
  import opened ServerHistory
  import opened ServerPasses

  // --------------------------------------------------------------- recorded runs

  /** Nothing is on record for a connection that has no slot yet. */
  ghost predicate FreshInv(s: State, h: History) {
    && (forall cid :: cid in h.last || cid in h.time ==> cid < s.net.accepted)
    && (Claiming(s.reactor) ==> s.reactor.cid !in h.last && s.reactor.cid !in h.time)
  }

  ghost predicate Recorded(s: State, h: History) {
    && PoolInv(s) && TaskInv(s) && PassInv(s, h) && FreshInv(s, h)
    && exists own: Owners :: OwnedInv(s, own) && EventInv(s, own, h)
  }

  lemma StartIsRecorded(n: nat, option: DestroyOption)
    requires n > 0
    ensures Recorded(Init(n, option), NoHistory())
  {
    InitPool(n, option);
    InitTasks(n, option);
    InitSlotsOwned(n, option);
    InitConnections(n, option);
    InitWatch(n, option);
    InitBuffers(n, option);
    InitLogs(n, option);
    InitPasses(n, option);
    hide PoolInv, TaskInv, PassInv, SlotInv, ConnInv, WatchInv, BufferInv, LogInv;
    assert OwnedInv(Init(n, option), NoOwners()) && EventInv(Init(n, option), NoOwners(), NoHistory());
  }

  lemma WorkerKeepsFresh(s: State, own: Owners, h: History, w: nat, c: Choice)
    requires Wf(s) && SlotInv(s, own) && ConnInv(s, own) && FreshInv(s, h)
    requires w < |s.workers| && WorkerNext(s, w, c).Some?
    ensures FreshInv(WorkerNext(s, w, c).value, SeeWorker(s, h, w, c))
  {
    WorkerNetFrame(s, w, c);
    if Working(s.workers[w]) && !s.workers[w].AtFree? {
      WorkingFrame(s, w, c);
      WorkerOwns(s, own, w);
      RecordedKeys(s, h, w, c);
      hide WorkerNext, SeeWorker, SlotInv, HomeInv, NetInv;
    } else {
      if Working(s.workers[w]) {
        WorkingFrame(s, w, c);
      } else {
        SectionFrame(s, w, c);
      }
      assert SeeWorker(s, h, w, c) == h;
      hide WorkerNext, SeeWorker, SlotInv, ConnInv;
    }
  }

  lemma RecordedKeys(s: State, h: History, w: nat, c: Choice)
    requires w < |s.workers| && HasTask(s.workers[w])
    ensures var k := SeeWorker(s, h, w, c);
            forall cid :: cid in k.last || cid in k.time ==> cid in h.last || cid in h.time || cid == TaskOf(s.workers[w]).cid
  {
    hide ParserInput;
  }

  lemma WorkerNetFrame(s: State, w: nat, c: Choice)
    requires Wf(s) && w < |s.workers| && WorkerNext(s, w, c).Some?
    ensures WorkerNext(s, w, c).value.net.accepted == s.net.accepted
  {
    hide Enter, Finish, Advance, Fill, Fits, RequestComplete, ParserInput, KeepsAlive;
  }

  lemma ReactorKeepsFresh(s: State, own: Owners, h: History, c: Choice)
    requires Wf(s) && SlotInv(s, own) && ConnInv(s, own) && FreshInv(s, h) && ReactorNext(s, c).Some?
    ensures FreshInv(ReactorNext(s, c).value, SeeReactor(s, h, c))
  {
    ReactorNetEffect(s, c);
    ReactorMoves(s, c);
    AcceptedGrows(s, c);
    ReactorRecordedKeys(s, h, c);
    ClaimedIsAccepted(s, own);
    hide ReactorNext, SeeReactor, SlotInv, HomeInv, NetInv, MatchInv;
  }

  lemma ClaimedIsAccepted(s: State, own: Owners)
    requires ConnInv(s, own)
    ensures Claiming(s.reactor) ==> s.reactor.cid < s.net.accepted
  {
    hide MatchInv, HomeInv, DistinctInv, OpenOrClosed;
  }

  lemma AcceptedGrows(s: State, c: Choice)
    requires Wf(s) && ReactorNext(s, c).Some?
    ensures ReactorNext(s, c).value.net.accepted >= s.net.accepted
  {
    hide AddWork, Terminate;
  }

  lemma ReactorRecordedKeys(s: State, h: History, c: Choice)
    requires Wf(s)
    ensures var k := SeeReactor(s, h, c);
            forall cid :: cid in k.last || cid in k.time ==>
              || cid in h.last || cid in h.time
              || ((s.reactor.NewTask? || s.reactor.Dispatch?) && s.slots[s.reactor.slot].cid == cid)
              || (s.reactor.Claim? && s.reactor.cid == cid && s.reactor.i < MAX_CONNS && c.Clock? && !s.slots[s.reactor.i].active)
  {
    ReactorSees(s, h, c);
    hide SeeReactor;
    var k := SeeReactor(s, h, c);
    forall cid
      ensures cid in k.last <==> Last(k, cid).Some?
      ensures cid in k.time <==> Since(k, cid).Some?
      ensures cid in h.last <==> Last(h, cid).Some?
      ensures cid in h.time <==> Since(h, cid).Some?
    {
    }
  }

  lemma WorkerKeepsRecorded(s: State, h: History, w: nat, c: Choice)
    requires Recorded(s, h) && w < |s.workers| && WorkerNext(s, w, c).Some?
    ensures Recorded(WorkerNext(s, w, c).value, SeeWorker(s, h, w, c))
  {
    assert Wf(s);
    hide WorkerNext, SeeWorker, PoolInv, TaskInv, SlotInv, ConnInv, WatchInv, BufferInv, LogInv, EventInv, PassInv, FreshInv,
      WorkerOwners;
    var own: Owners :| OwnedInv(s, own) && EventInv(s, own, h);
    WorkerKeepsPool(s, w, c);
    WorkerKeepsTasks(s, w, c);
    WorkerKeepsSlots(s, own, w, c);
    WorkerKeepsConn(s, own, w, c);
    WorkerKeepsWatch(s, own, w, c);
    WorkerKeepsBuffers(s, own, w, c);
    WorkerKeepsLogs(s, own, w, c);
    WorkerKeepsEvents(s, own, h, w, c);
    WorkerKeepsPasses(s, own, h, w, c);
    WorkerKeepsFresh(s, own, h, w, c);
    assert OwnedInv(WorkerNext(s, w, c).value, WorkerOwners(s, own, w));
  }

  lemma ReactorKeepsRecorded(s: State, h: History, c: Choice)
    requires Recorded(s, h) && ReactorNext(s, c).Some?
    ensures Recorded(ReactorNext(s, c).value, SeeReactor(s, h, c))
  {
    assert Wf(s) && QueueInv(s);
    hide ReactorNext, SeeReactor, PoolInv, TaskInv, SlotInv, ConnInv, WatchInv, BufferInv, LogInv, EventInv, PassInv, FreshInv,
      ReactorOwners, QueueInv;
    var own: Owners :| OwnedInv(s, own) && EventInv(s, own, h);
    ReactorKeepsPool(s, c);
    ReactorKeepsTasks(s, c);
    ReactorKeepsSlots(s, own, c);
    ReactorKeepsConn(s, own, c);
    ReactorKeepsWatch(s, own, c);
    ReactorKeepsBuffers(s, own, c);
    ReactorKeepsLogs(s, own, c);
    ReactorKeepsEvents(s, own, h, c);
    ReactorKeepsPasses(s, own, h, c);
    ReactorKeepsFresh(s, own, h, c);
    assert OwnedInv(ReactorNext(s, c).value, ReactorOwners(s, own));
  }

  lemma {:induction false} RunKeepsRecorded(s: State, h: History, run: seq<Step>, t: State, k: History)
    requires Recorded(s, h) && Records(s, h, run, t, k)
    ensures Recorded(t, k)
    decreases |run|
  {
    hide Recorded, WorkerNext, ReactorNext, SeeWorker, SeeReactor;
    if run != [] {
      match run[0] {
        case WorkerStep(w, c) => WorkerKeepsRecorded(s, h, w, c);
        case ReactorStep(c) => ReactorKeepsRecorded(s, h, c);
      }
      RunKeepsRecorded(Next(s, run[0]).value, See(s, h, run[0]), run[1..], t, k);
    }
  }

  /** The invariants of the record hold after every run. */
  lemma ReachableIsRecorded(s: State, h: History)
    requires ReachableWith(s, h)
    ensures Recorded(s, h)
  {
    hide Recorded, Init, Records;
    var n: nat, option, run :| n > 0 && Records(Init(n, option), NoHistory(), run, s, h);
    StartIsRecorded(n, option);
    RunKeepsRecorded(Init(n, option), NoHistory(), run, s, h);
  }

  // ------------------------------------------------------- why connections are closed

  /** recv reported the end of the stream or an error, and nothing happened since. */
  predicate Ended(h: History, cid: int) {
    Last(h, cid) == Some(Received(Gone))
  }

  /** The text parsed last asks to close, and nothing happened since. */
  predicate AskedToClose(h: History, cid: int) {
    AskedToKeep(Last(h, cid), false)
  }

  /** The last task for it could not be allocated. */
  predicate NotAllocated(h: History, cid: int) {
    Last(h, cid) == Some(TaskMalloc(false))
  }

  /** It was left alone since the clock was read for it, ten seconds or more before the pass. */
  predicate IdleTooLong(h: History, cid: int) {
    LeftAlone(Last(h, cid)) && Since(h, cid).Some? && h.pass - Since(h, cid).value >= 10
  }

  /** It never got a slot: when it came, each of the 256 slots was looked at and active. */
  predicate Refused(h: History, cid: int) {
    && Last(h, cid) == None && Since(h, cid) == None
    && forall i :: 0 <= i < 256 ==> i in h.looks && h.looks[i].slot.active
  }

  predicate ClosingReason(h: History, cid: int) {
    Ended(h, cid) || AskedToClose(h, cid) || NotAllocated(h, cid) || IdleTooLong(h, cid) || Refused(h, cid)
  }

  /** What the step that closes does, and to which connection. */
  lemma WorkerCloses(s: State, w: nat, c: Choice)
    requires Wf(s) && w < |s.workers| && WorkerNext(s, w, c).Some?
    ensures var t := WorkerNext(s, w, c).value;
            if s.workers[w].CloseFd? then t.net == Close(s.net, s.workers[w].task.fd) else t.net == s.net
  {
    if Working(s.workers[w]) {
      WorkingHold(s, w, c);
    } else {
      SectionFrame(s, w, c);
    }
  }

  lemma WorkerClosesForAReason(s: State, own: Owners, h: History, w: nat, c: Choice, cid: int)
    requires Wf(s) && SlotInv(s, own) && ConnInv(s, own) && EventInv(s, own, h)
    requires w < |s.workers| && WorkerNext(s, w, c).Some?
    requires cid in WorkerNext(s, w, c).value.net.closed && cid !in s.net.closed
    ensures ClosingReason(h, cid)
  {
    WorkerCloses(s, w, c);
    hide WorkerNext, OwnerInv, HomeInv, NetInv, LeftAlone, AskedToKeep, Last, Since, Refused;
    WorkerOwns(s, own, w);
    var task := s.workers[w].task;
    assert Live(s, own, task.slot);
    assert cid == task.cid == s.slots[task.slot].cid;
    assert EventOk(s, own[task.slot], Last(h, cid));
  }

  lemma ReactorClosesForAReason(s: State, own: Owners, h: History, c: Choice, cid: int)
    requires Wf(s) && SlotInv(s, own) && ConnInv(s, own) && EventInv(s, own, h) && LookInv(s, h) && FreshInv(s, h)
    requires ReactorNext(s, c).Some? && cid in ReactorNext(s, c).value.net.closed && cid !in s.net.closed
    ensures ClosingReason(h, cid)
  {
    ReactorNetEffect(s, c);
    HandIsInUse(s, own);
    hide ReactorNext, HomeInv, NetInv, LeftAlone, AskedToKeep, TimeoutInv;
    if s.reactor.Reject? {
      assert cid == s.reactor.cid;
    } else {
      var i := s.reactor.slot;
      assert s.reactor.DropFd? ==> Holds(s, HReactor, i);
      assert own[i] == if s.reactor.DropFd? then Some(HReactor) else None;
      assert Live(s, own, i);
      assert cid == s.slots[i].cid;
      assert EventOk(s, own[i], Last(h, cid));
    }
  }

  /** In every run a connection is closed only for one of five reasons that the outcomes on
    * record show: its stream ended, its last request asked to, its task could not be
    * allocated, it was idle for ten seconds, or no slot was free when it came. */
  lemma ClosedOnlyForAReason(s: State, h: History, st: Step, t: State, cid: int)
    requires ReachableWith(s, h) && CanStep(s, st, t)
    requires cid in t.net.closed && cid !in s.net.closed
    ensures ClosingReason(h, cid)
  {
    ReachableIsRecorded(s, h);
    var own: Owners :| OwnedInv(s, own) && EventInv(s, own, h);
    hide ReachableWith, WorkerNext, ReactorNext, PoolInv, TaskInv, SlotInv, ConnInv, WatchInv, BufferInv, LogInv, EventInv, LookInv,
      ServeInv, PhaseInv, FreshInv, ClosingReason;
    match st {
      case WorkerStep(w, c) => WorkerClosesForAReason(s, own, h, w, c, cid);
      case ReactorStep(c) => ReactorClosesForAReason(s, own, h, c, cid);
    }
  }

  // ---------------------------------------------------------------------- the passes

  lemma PassesHold(s: State, h: History)
    requires ReachableWith(s, h)
    ensures PassInv(s, h)
  {
    hide ReachableWith, LookInv, ServeInv, PhaseInv, PoolInv, TaskInv, OwnedInv, EventInv, FreshInv;
    ReachableIsRecorded(s, h);
  }

  /** A pass that builds the select set looks at each of the 256 slots, and every one that was
    * idle when looked at is watched for its connection. */
  lemma WatchPassIsComplete(s: State, h: History)
    requires ReachableWith(s, h) && s.reactor == Select
    ensures forall i :: 0 <= i < 256 ==>
              && i in h.looks
              && var slot := h.looks[i].slot;
              Idle(slot) ==> slot.fd in s.watched && s.watched[slot.fd] == Watched(i, slot.cid)
  {
    hide ReachableWith;
    PassesHold(s, h);
    forall i | 0 <= i < 256
      ensures i in h.looks
      ensures Idle(h.looks[i].slot) ==>
                h.looks[i].slot.fd in s.watched && s.watched[h.looks[i].slot.fd] == Watched(i, h.looks[i].slot.cid)
    {
      var j: SlotIndex := i;
      assert j < MAX_CONNS;
    }
  }

  /** When a scan begins, every connection reported ready is still in its slot and idle; when it
    * ends, each of the 256 slots was looked at, and for each such connection a task was added
    * since select returned, or could not be allocated. */
  lemma ScanPassIsComplete(s: State, h: History, i: nat)
    requires ReachableWith(s, h) && s.reactor == Scan(i)
    ensures s.ready == h.ready && h.ready <= s.watched.Keys && h.added <= |s.added|
    ensures i == 0 ==> forall fd :: fd in h.ready ==>
              var slot := s.slots[s.watched[fd].slot]; Idle(slot) && slot.fd == fd && slot.cid == s.watched[fd].cid
    ensures i == 256 ==> forall j :: 0 <= j < 256 ==> j in h.looks
    ensures i == 256 ==> forall fd :: fd in h.ready ==>
              || s.watched[fd].cid in h.failed
              || exists k :: h.added <= k < |s.added| && s.added[k].cid == s.watched[fd].cid
  {
    hide ReachableWith;
    PassesHold(s, h);
    ReachableIsRecorded(s, h);
    assert WatchInv(s) by { RecordedIsWatch(s, h); }
    if i == 256 {
      forall j | 0 <= j < 256
        ensures j in h.looks
      {
        var l: SlotIndex := j;
        assert l < MAX_CONNS;
      }
      forall fd | fd in s.ready
        ensures Served(s, h, s.watched[fd].cid)
      {
        assert s.watched[fd].slot < MAX_CONNS;
      }
    }
  }

  lemma RecordedIsWatch(s: State, h: History)
    requires Recorded(s, h)
    ensures WatchInv(s)
  {
    hide WatchInv, PoolInv, TaskInv, PassInv, FreshInv, EventInv, SlotInv, ConnInv, BufferInv, LogInv;
  }

  /** A connection is refused only when each of the 256 slots was looked at and active. */
  lemma RefusedOnlyWhenFull(s: State, h: History)
    requires ReachableWith(s, h) && s.reactor.Reject?
    ensures forall i :: 0 <= i < 256 ==> i in h.looks && h.looks[i].slot.active
  {
    hide ReachableWith;
    PassesHold(s, h);
    forall i | 0 <= i < 256
      ensures i in h.looks && h.looks[i].slot.active
    {
      var j: SlotIndex := i;
      assert j < MAX_CONNS;
    }
  }

  /** A time-out closes the connection of a slot that is idle; it was last claimed, or last left
    * kept by a read, at a clock reading at least ten seconds before the start of the pass. */
  lemma TimedOutOnlyWhenIdle(s: State, h: History, c: Choice, t: State)
    requires ReachableWith(s, h) && s.reactor.TimeoutFd? && CanStep(s, ReactorStep(c), t)
    ensures var cid := s.slots[s.reactor.slot].cid;
            t.net.closed == s.net.closed + [cid] && Idle(s.slots[s.reactor.slot]) && IdleTooLong(h, cid)
  {
    hide ReachableWith, Since, Last, LeftAlone;
    ReachableIsRecorded(s, h);
    var own: Owners :| OwnedInv(s, own) && EventInv(s, own, h);
    hide PoolInv, TaskInv, WatchInv, BufferInv, LogInv, ServeInv, PhaseInv, FreshInv, HomeInv, NetInv, MatchInv;
    ReactorNetEffect(s, c);
    IdleIsOpen(s, own, s.reactor.slot);
    hide ReactorNext;
    assert own[s.reactor.slot] == None;
  }

  /** A pass for time-outs looks at each of the 256 slots, and at its end the connection of every
    * one that was idle when looked at, and ten seconds old by the clock on record, is closed. */
  lemma TimeoutPassIsComplete(s: State, h: History, now: int)
    requires ReachableWith(s, h) && s.reactor == Timeouts(256, now)
    ensures now == h.pass
    ensures forall i :: 0 <= i < 256 ==>
              && i in h.looks
              && var look := h.looks[i];
              Idle(look.slot) ==> look.since.Some? && (now - look.since.value >= 10 ==> look.slot.cid in s.net.closed)
  {
    hide ReachableWith;
    PassesHold(s, h);
    forall i | 0 <= i < 256
      ensures i in h.looks
      ensures Idle(h.looks[i].slot) ==>
                && h.looks[i].since.Some?
                && (now - h.looks[i].since.value >= 10 ==> h.looks[i].slot.cid in s.net.closed)
    {
      var j: SlotIndex := i;
      assert j < MAX_CONNS;
    }
  }

  /** New connections that select reported are accepted until there are none before the scan
    * begins; the loop ends exactly if select fails; and only a SOFT destroy spins. */
  lemma PassesFollowSelect(s: State, h: History)
    requires ReachableWith(s, h)
    ensures s.reactor.Scan? ==> !h.pending
    ensures h.error <==> ShuttingDown(s.reactor)
    ensures s.option == DrainAndDrop ==> !s.reactor.Spin?
  {
    hide ReachableWith;
    PassesHold(s, h);
  }

  /** An idle slot's connection was left alone last, after a read or without one, and its
    * last_activity is the clock on record; a task is added only if it could be allocated. */
  lemma IdleSlotsWereLeftAlone(s: State, h: History)
    requires ReachableWith(s, h)
    ensures forall i: SlotIndex :: s.slots[i].active ==> Since(h, s.slots[i].cid) == Some(s.slots[i].lastActivity)
    ensures forall i: SlotIndex :: Idle(s.slots[i]) ==> LeftAlone(Last(h, s.slots[i].cid))
    ensures s.reactor.AddPush? ==> Last(h, s.reactor.task.cid) == Some(TaskMalloc(true))
  {
    hide ReachableWith, Since, Last, LeftAlone;
    ReachableIsRecorded(s, h);
    var own: Owners :| OwnedInv(s, own) && EventInv(s, own, h);
    hide PoolInv, TaskInv, PassInv, WatchInv, BufferInv, LogInv, FreshInv, OpenInv, HomeInv, DistinctInv, NetInv, WorkerEvent;
    forall i: SlotIndex | Idle(s.slots[i])
      ensures LeftAlone(Last(h, s.slots[i].cid))
    {
      assert own[i] == None;
    }
    if s.reactor.AddPush? {
      assert Holds(s, HReactor, s.reactor.task.slot);
    }
  }
}
