/** Connections and file descriptors: every accepted connection is closed at most once and
  * otherwise belongs to one slot, and a reused descriptor never misleads anyone.
  */
module ServerConnections {
  import opened Options
  import opened Framing
  import opened HttpRequest
  import opened Pool
  import opened Server
  import opened ServerPool
  import opened ServerTasks
  import opened ServerSlots

  // ------------------------------------------------- tasks agree with their slots

  predicate Matches(s: State, task: Task) {
    task.fd == s.slots[task.slot].fd && task.cid == s.slots[task.slot].cid
  }

  predicate MatchInv(s: State) {
    && (forall w :: 0 <= w < |s.workers| && Unreleased(s.workers[w]) ==> Matches(s, TaskOf(s.workers[w])))
    && (forall k :: 0 <= k < |s.added| && Popped(s) <= k ==> Matches(s, s.added[k]))
    && (s.reactor.AddLock? || s.reactor.AddPush? ==> Matches(s, s.reactor.task))
  }

  // ----------------------------------------------------- slots agree with the kernel

  /** The slot's descriptor is closed already, and the slot is about to be freed. */
  predicate Closing(s: State, own: Owners, i: SlotIndex) {
    || (s.reactor.DropSlot? && s.reactor.slot == i)
    || (s.reactor.TimeoutSlot? && s.reactor.slot == i)
    || (own[i].Some? && own[i].value.HWorker? && own[i].value.w < |s.workers| && s.workers[own[i].value.w].ClearActive?)
  }

  predicate Live(s: State, own: Owners, i: SlotIndex) {
    s.slots[i].active && !Closing(s, own, i)
  }

  predicate Claiming(r: Reactor) {
    r.Claim? || r.Reject?
  }

  /** Both have the same new connection in hand, or both have none. */
  predicate SameHand(q: Reactor, r: Reactor) {
    Claiming(q) == Claiming(r) && (Claiming(q) ==> q.fd == r.fd && q.cid == r.cid)
  }

  /** A connection just accepted that has no slot yet. */
  predicate InHand(r: Reactor, fd: int, cid: int) {
    Claiming(r) && r.fd == fd && r.cid == cid
  }

  /** The descriptor of a live slot is open and denotes the slot's connection. */
  predicate OpenInv(s: State, own: Owners) {
    && (forall i: SlotIndex :: Live(s, own, i) ==>
          s.slots[i].fd in s.net.open && s.net.open[s.slots[i].fd] == s.slots[i].cid)
    && (forall i: SlotIndex :: s.slots[i].active && Closing(s, own, i) ==> s.slots[i].cid in s.net.closed)
    && (Claiming(s.reactor) ==>
          && s.reactor.fd in s.net.open && s.net.open[s.reactor.fd] == s.reactor.cid
          && forall i: SlotIndex :: s.slots[i].cid != s.reactor.cid)
    && s.net.badCloses == 0
  }

  /** Each open descriptor is the reactor's new one or a live slot's. */
  ghost predicate HomeInv(s: State, own: Owners) {
    forall fd :: fd in s.net.open ==>
      InHand(s.reactor, fd, s.net.open[fd]) ||
      exists i: SlotIndex :: Live(s, own, i) && s.slots[i].fd == fd && s.slots[i].cid == s.net.open[fd]
  }

  predicate DistinctInv(s: State) {
    && (forall i: SlotIndex :: s.slots[i].cid < s.net.accepted)
    && (forall i: SlotIndex, j: SlotIndex :: i != j && s.slots[i].active && s.slots[j].active ==> s.slots[i].cid != s.slots[j].cid)
  }

  ghost predicate OpenOrClosed(net: Net, cid: int) {
    cid in net.closed || exists fd :: fd in net.open && net.open[fd] == cid
  }

  /** Accepted connections are open or closed, never both, and closed at most once. */
  ghost predicate NetInv(net: Net) {
    && NoDuplicates(net.closed)
    && (forall cid :: cid in net.closed ==> 0 <= cid < net.accepted)
    && (forall fd :: fd in net.open ==> 0 <= net.open[fd] < net.accepted && net.open[fd] !in net.closed)
    && (forall f, g :: f in net.open && g in net.open && f != g ==> net.open[f] != net.open[g])
    && (forall cid :: 0 <= cid < net.accepted ==> OpenOrClosed(net, cid))
  }

  ghost predicate ConnInv(s: State, own: Owners) {
    MatchInv(s) && OpenInv(s, own) && HomeInv(s, own) && DistinctInv(s) && NetInv(s.net)
  }

  lemma InitConnections(n: nat, option: DestroyOption)
    requires n > 0
    ensures ConnInv(Init(n, option), NoOwners())
  {
  }

  // ------------------------------------------------------------------ one close

  lemma CloseKeepsNet(net: Net, fd: int)
    requires NetInv(net) && fd in net.open
    ensures NetInv(Close(net, fd)) && Close(net, fd).badCloses == net.badCloses
  {
    var m := Close(net, fd);
    forall cid | 0 <= cid < m.accepted
      ensures OpenOrClosed(m, cid)
    {
      assert OpenOrClosed(net, cid);
      if cid !in net.closed {
        var g :| g in net.open && net.open[g] == cid;
        assert g == fd || (g in m.open && m.open[g] == cid);
        assert m.closed[|m.closed| - 1] == net.open[fd];
      }
    }
  }

  // ---------------------------------------------------------------- worker steps

  lemma MatchFrame(s: State, t: State, w: nat)
    requires MatchInv(s) && QueueInv(s) && w < |s.workers|
    requires t.reactor == s.reactor && t.added == s.added
    requires t.pool.queue == s.pool.queue || (s.pool.queue != [] && t.pool.queue == s.pool.queue[1..])
    requires |t.workers| == |s.workers| && t.workers == s.workers[w := t.workers[w]]
    requires forall i: SlotIndex :: t.slots[i].fd == s.slots[i].fd && t.slots[i].cid == s.slots[i].cid
    requires Unreleased(t.workers[w]) ==>
               || (Unreleased(s.workers[w]) && TaskOf(t.workers[w]) == TaskOf(s.workers[w]))
               || (s.pool.queue != [] && TaskOf(t.workers[w]) == s.pool.queue[0])
    ensures MatchInv(t)
  {
    hide HasTask;
  }

  lemma WorkerKeepsMatch(s: State, own: Owners, w: nat, c: Choice)
    requires PoolInv(s) && TaskInv(s) && MatchInv(s) && w < |s.workers| && WorkerNext(s, w, c).Some?
    ensures MatchInv(WorkerNext(s, w, c).value)
  {
    assert QueueInv(s) && Wf(s) && !s.workers[w].LeaveNull?;
    hide WorkerNext, PoolInv, TaskInv, QueueInv, MatchInv;
    if Working(s.workers[w]) {
      WorkingFrame(s, w, c);
      WorkingEffect(s, w, c);
      WorkingHold(s, w, c);
    } else {
      SectionFrame(s, w, c);
      if s.workers[w].InEntry? {
        EntryOutcome(s, w, c);
      } else {
        HandsFrame(s, w, c);
      }
    }
    MatchFrame(s, WorkerNext(s, w, c).value, w);
  }

  /** Steps that leave descriptors, connections and activity alone keep the agreement. */
  lemma ConnFrame(s: State, own: Owners, t: State, own': Owners)
    requires OpenInv(s, own) && HomeInv(s, own) && DistinctInv(s) && NetInv(s.net)
    requires t.net == s.net && SameHand(t.reactor, s.reactor)
    requires forall i: SlotIndex ::
               && t.slots[i].fd == s.slots[i].fd && t.slots[i].cid == s.slots[i].cid
               && t.slots[i].active == s.slots[i].active && Closing(t, own', i) == Closing(s, own, i)
    ensures OpenInv(t, own') && HomeInv(t, own') && DistinctInv(t) && NetInv(t.net)
  {
    hide Closing, NetInv;
    forall fd | fd in t.net.open && !InHand(t.reactor, fd, t.net.open[fd])
      ensures exists i: SlotIndex :: Live(t, own', i) && t.slots[i].fd == fd && t.slots[i].cid == t.net.open[fd]
    {
      var i: SlotIndex :| Live(s, own, i) && s.slots[i].fd == fd && s.slots[i].cid == s.net.open[fd];
      assert Live(t, own', i);
    }
  }

  /** Closing the descriptor of a live slot and marking the slot as closing. */
  lemma CloseKeepsConn(s: State, own: Owners, t: State, own': Owners, i: SlotIndex)
    requires OpenInv(s, own) && HomeInv(s, own) && DistinctInv(s) && NetInv(s.net)
    requires Live(s, own, i) && SameHand(t.reactor, s.reactor)
    requires t.net == Close(s.net, s.slots[i].fd)
    requires forall j: SlotIndex ::
               t.slots[j].fd == s.slots[j].fd && t.slots[j].cid == s.slots[j].cid && t.slots[j].active == s.slots[j].active
    requires forall j: SlotIndex :: Closing(t, own', j) <==> Closing(s, own, j) || j == i
    ensures OpenInv(t, own') && HomeInv(t, own') && DistinctInv(t) && NetInv(t.net)
  {
    hide Closing, NetInv;
    CloseKeepsNet(s.net, s.slots[i].fd);
    assert t.net.closed[|t.net.closed| - 1] == s.slots[i].cid;
    forall fd | fd in t.net.open && !InHand(t.reactor, fd, t.net.open[fd])
      ensures exists j: SlotIndex :: Live(t, own', j) && t.slots[j].fd == fd && t.slots[j].cid == t.net.open[fd]
    {
      assert fd in s.net.open;
      var j: SlotIndex :| Live(s, own, j) && s.slots[j].fd == fd && s.slots[j].cid == s.net.open[fd];
      assert Live(t, own', j);
    }
  }

  /** Freeing a slot whose descriptor is closed. */
  lemma FreeKeepsConn(s: State, own: Owners, t: State, own': Owners, i: SlotIndex)
    requires OpenInv(s, own) && HomeInv(s, own) && DistinctInv(s) && NetInv(s.net)
    requires Closing(s, own, i) && SameHand(t.reactor, s.reactor)
    requires t.net == s.net
    requires forall j: SlotIndex ::
               && t.slots[j].fd == s.slots[j].fd && t.slots[j].cid == s.slots[j].cid
               && t.slots[j].active == (s.slots[j].active && j != i)
    requires forall j: SlotIndex :: Closing(t, own', j) <==> Closing(s, own, j) && j != i
    ensures OpenInv(t, own') && HomeInv(t, own') && DistinctInv(t) && NetInv(t.net)
  {
    hide Closing, NetInv;
    forall fd | fd in t.net.open && !InHand(t.reactor, fd, t.net.open[fd])
      ensures exists j: SlotIndex :: Live(t, own', j) && t.slots[j].fd == fd && t.slots[j].cid == t.net.open[fd]
    {
      var j: SlotIndex :| Live(s, own, j) && s.slots[j].fd == fd && s.slots[j].cid == s.net.open[fd];
      assert Live(t, own', j);
    }
  }

  lemma WorkerKeepsConn(s: State, own: Owners, w: nat, c: Choice)
    requires PoolInv(s) && TaskInv(s) && SlotInv(s, own) && ConnInv(s, own)
      && w < |s.workers| && WorkerNext(s, w, c).Some?
    ensures ConnInv(WorkerNext(s, w, c).value, WorkerOwners(s, own, w))
  {
    assert Wf(s) && QueueInv(s);
    hide WorkerNext, PoolInv, TaskInv;
    var t := WorkerNext(s, w, c).value;
    WorkerKeepsMatch(s, own, w, c);
    if Working(s.workers[w]) {
      WorkingFrame(s, w, c);
      WorkingEffect(s, w, c);
      WorkingHold(s, w, c);
      WorkingKeepsConn(s, own, w, t);
    } else {
      SectionKeepsConn(s, own, w, c);
    }
  }

  lemma SectionKeepsConn(s: State, own: Owners, w: nat, c: Choice)
    requires Wf(s) && QueueInv(s) && SlotInv(s, own) && ConnInv(s, own)
      && w < |s.workers| && !Working(s.workers[w]) && WorkerNext(s, w, c).Some?
    ensures var t, own' := WorkerNext(s, w, c).value, WorkerOwners(s, own, w);
            OpenInv(t, own') && HomeInv(t, own') && DistinctInv(t) && NetInv(t.net)
  {
    hide WorkerNext, NetInv, MatchInv, HomeInv, DistinctInv, OpenInv;
    SectionFrame(s, w, c);
    SectionStepsNeverClose(s, w, c);
    if s.pool.queue != [] {
      assert s.pool.queue[0] == s.added[Popped(s)];
      assert Holds(s, HQueued(Popped(s)), s.pool.queue[0].slot);
    }
    ConnFrame(s, own, WorkerNext(s, w, c).value, WorkerOwners(s, own, w));
  }

  lemma SectionStepsNeverClose(s: State, w: nat, c: Choice)
    requires Wf(s) && w < |s.workers| && !Working(s.workers[w]) && WorkerNext(s, w, c).Some?
    ensures !WorkerNext(s, w, c).value.workers[w].ClearActive?
  {
    hide Enter, Finish, DoRecv, Close, Advance, Fill, Fits, RequestComplete, ParserInput, KeepsAlive;
  }

  lemma WorkingKeepsConn(s: State, own: Owners, w: nat, t: State)
    requires Wf(s) && SlotInv(s, own) && ConnInv(s, own) && w < |s.workers| && Working(s.workers[w])
    requires t.reactor == s.reactor && |t.workers| == |s.workers| && t.workers == s.workers[w := t.workers[w]]
    requires var i := TaskOf(s.workers[w]).slot;
             && t.slots == s.slots[i := t.slots[i]]
             && t.slots[i].fd == s.slots[i].fd && t.slots[i].cid == s.slots[i].cid
             && t.slots[i].active == (s.slots[i].active && !s.workers[w].ClearActive?)
    requires t.net == (if s.workers[w].CloseFd? then Close(s.net, s.workers[w].task.fd) else s.net)
    requires t.workers[w].ClearActive? <==> s.workers[w].CloseFd?
    ensures OpenInv(t, WorkerOwners(s, own, w)) && HomeInv(t, WorkerOwners(s, own, w)) && DistinctInv(t) && NetInv(t.net)
  {
    var i := TaskOf(s.workers[w]).slot;
    var own' := WorkerOwners(s, own, w);
    hide HomeInv, DistinctInv, NetInv, Close;
    if Unreleased(s.workers[w]) {
      WorkerOwns(s, own, w);
    }
    if s.workers[w].CloseFd? {
      CloseKeepsConn(s, own, t, own', i);
    } else if s.workers[w].ClearActive? {
      FreeKeepsConn(s, own, t, own', i);
    } else {
      ConnFrame(s, own, t, own');
    }
  }

  // --------------------------------------------------------------- reactor steps

  lemma ReactorNetEffect(s: State, c: Choice)
    requires Wf(s) && ReactorNext(s, c).Some?
    ensures var t := ReactorNext(s, c).value;
            match s.reactor
            case Accept =>
              if t.reactor.Claim? then
                && t.reactor == Claim(0, t.reactor.fd, s.net.accepted) && t.reactor.fd !in s.net.open
                && t.net == s.net.(open := s.net.open[t.reactor.fd := s.net.accepted], accepted := s.net.accepted + 1)
              else t.net == s.net && t.reactor.Scan?
            case Claim(i, fd, cid) =>
              && t.net == s.net
              && (t.reactor == Claim(i + 1, fd, cid) || t.reactor == Reject(fd, cid) || (i < MAX_CONNS && t.reactor == NewTask(i)))
            case Reject(fd, cid) => t.net == Close(s.net, fd) && t.reactor == Accept
            case DropFd(i, back) => t.net == Close(s.net, s.slots[i].fd) && t.reactor == DropSlot(i, back)
            case TimeoutFd(i, now) => t.net == Close(s.net, s.slots[i].fd) && t.reactor == TimeoutSlot(i, now)
            case _ => t.net == s.net && !Claiming(t.reactor) && !t.reactor.DropSlot? && !t.reactor.TimeoutSlot?
  {
    hide Close, AddWork, Terminate;
  }

  lemma ReactorTaskEffect(s: State, c: Choice)
    requires Wf(s) && ReactorNext(s, c).Some?
    ensures var t := ReactorNext(s, c).value;
            t.reactor.AddLock? ==>
              && t.slots == s.slots && (s.reactor.NewTask? || s.reactor.Dispatch?)
              && t.reactor.task == TaskFor(s, s.reactor.slot)
  {
    hide Close, AddWork, Terminate;
  }

  lemma ReactorKeepsMatch(s: State, own: Owners, c: Choice)
    requires Wf(s) && QueueInv(s) && SlotInv(s, own) && MatchInv(s) && ReactorNext(s, c).Some?
    ensures MatchInv(ReactorNext(s, c).value)
  {
    var t := ReactorNext(s, c).value;
    ReactorTaskFrame(s, c);
    ReactorTaskEffect(s, c);
    ReactorSlotEffect(s, c);
    hide ReactorNext, ReactorHand, HasTask;
    forall i: SlotIndex | t.slots[i].fd != s.slots[i].fd || t.slots[i].cid != s.slots[i].cid
      ensures forall h :: !Holds(s, h, i)
    {
    }
    forall w | 0 <= w < |t.workers| && Unreleased(t.workers[w])
      ensures Matches(t, TaskOf(t.workers[w]))
    {
      assert Holds(s, HWorker(w), TaskOf(s.workers[w]).slot);
    }
    forall k | 0 <= k < |s.added| && Popped(s) <= k
      ensures Matches(t, s.added[k])
    {
      assert Holds(s, HQueued(k), s.added[k].slot);
    }
  }

  lemma AcceptKeepsConn(s: State, own: Owners, t: State, fd: int)
    requires OpenInv(s, own) && HomeInv(s, own) && DistinctInv(s) && NetInv(s.net)
    requires !Claiming(s.reactor) && fd !in s.net.open && t.reactor == Claim(0, fd, s.net.accepted)
    requires t.net == s.net.(open := s.net.open[fd := s.net.accepted], accepted := s.net.accepted + 1)
    requires t.slots == s.slots
    requires forall j: SlotIndex :: Closing(t, own, j) == Closing(s, own, j)
    ensures OpenInv(t, own) && HomeInv(t, own) && DistinctInv(t) && NetInv(t.net)
  {
    hide Closing;
    forall f | f in t.net.open && !InHand(t.reactor, f, t.net.open[f])
      ensures exists i: SlotIndex :: Live(t, own, i) && t.slots[i].fd == f && t.slots[i].cid == t.net.open[f]
    {
      var i: SlotIndex :| Live(s, own, i) && s.slots[i].fd == f && s.slots[i].cid == s.net.open[f];
      assert Live(t, own, i);
    }
    forall cid | 0 <= cid < t.net.accepted
      ensures OpenOrClosed(t.net, cid)
    {
      if cid == s.net.accepted {
        assert t.net.open[fd] == cid;
      } else {
        assert OpenOrClosed(s.net, cid);
        if cid !in s.net.closed {
          var f :| f in s.net.open && s.net.open[f] == cid;
          assert t.net.open[f] == cid;
        }
      }
    }
  }

  lemma RejectKeepsConn(s: State, own: Owners, t: State)
    requires OpenInv(s, own) && HomeInv(s, own) && DistinctInv(s) && NetInv(s.net)
    requires s.reactor.Reject? && !Claiming(t.reactor)
    requires t.net == Close(s.net, s.reactor.fd) && t.slots == s.slots
    requires forall j: SlotIndex :: Closing(t, own, j) == Closing(s, own, j)
    ensures OpenInv(t, own) && HomeInv(t, own) && DistinctInv(t) && NetInv(t.net)
  {
    hide Closing, NetInv;
    CloseKeepsNet(s.net, s.reactor.fd);
    forall f | f in t.net.open
      ensures exists i: SlotIndex :: Live(t, own, i) && t.slots[i].fd == f && t.slots[i].cid == t.net.open[f]
    {
      assert f in s.net.open;
      var i: SlotIndex :| Live(s, own, i) && s.slots[i].fd == f && s.slots[i].cid == s.net.open[f];
      assert Live(t, own, i);
    }
  }

  lemma ClaimKeepsConn(s: State, own: Owners, t: State, own': Owners, i: SlotIndex)
    requires OpenInv(s, own) && HomeInv(s, own) && DistinctInv(s) && NetInv(s.net)
    requires s.reactor.Claim? && !s.slots[i].active && !Claiming(t.reactor)
    requires t.net == s.net && t.slots == s.slots[i := t.slots[i]]
    requires t.slots[i].active && t.slots[i].fd == s.reactor.fd && t.slots[i].cid == s.reactor.cid
    requires forall j: SlotIndex :: Closing(t, own', j) <==> Closing(s, own, j) && j != i
    ensures OpenInv(t, own') && HomeInv(t, own') && DistinctInv(t) && NetInv(t.net)
  {
    assert s.reactor.cid < s.net.accepted;
    hide Closing, NetInv;
    assert Live(t, own', i);
    forall f | f in t.net.open
      ensures exists j: SlotIndex :: Live(t, own', j) && t.slots[j].fd == f && t.slots[j].cid == t.net.open[f]
    {
      if !InHand(s.reactor, f, s.net.open[f]) {
        var j: SlotIndex :| Live(s, own, j) && s.slots[j].fd == f && s.slots[j].cid == s.net.open[f];
        assert Live(t, own', j);
      } else {
        assert t.slots[i].fd == f;
      }
    }
  }

  lemma ReactorClosesConn(s: State, own: Owners, c: Choice)
    requires Wf(s) && QueueInv(s) && SlotInv(s, own) && ConnInv(s, own) && ReactorNext(s, c).Some?
    requires s.reactor.DropFd? || s.reactor.TimeoutFd?
    ensures var t, own' := ReactorNext(s, c).value, ReactorOwners(s, own);
            OpenInv(t, own') && HomeInv(t, own') && DistinctInv(t) && NetInv(t.net)
  {
    var t := ReactorNext(s, c).value;
    ReactorSlotEffect(s, c);
    ReactorNetEffect(s, c);
    hide ReactorNext, MatchInv, OpenInv, HomeInv, DistinctInv, NetInv, Close;
    var i := s.reactor.slot;
    assert s.reactor.DropFd? ==> Holds(s, HReactor, i);
    CloseKeepsConn(s, own, t, ReactorOwners(s, own), i);
  }

  lemma ReactorFreesConn(s: State, own: Owners, c: Choice)
    requires Wf(s) && QueueInv(s) && SlotInv(s, own) && ConnInv(s, own) && ReactorNext(s, c).Some?
    requires s.reactor.DropSlot? || s.reactor.TimeoutSlot?
    ensures var t, own' := ReactorNext(s, c).value, ReactorOwners(s, own);
            OpenInv(t, own') && HomeInv(t, own') && DistinctInv(t) && NetInv(t.net)
  {
    var t := ReactorNext(s, c).value;
    ReactorTaskFrame(s, c);
    ReactorSlotEffect(s, c);
    ReactorNetEffect(s, c);
    hide ReactorNext, MatchInv, OpenInv, HomeInv, DistinctInv, NetInv, Close;
    var i := s.reactor.slot;
    assert s.reactor.DropSlot? ==> Holds(s, HReactor, i);
    FreeKeepsConn(s, own, t, ReactorOwners(s, own), i);
  }

  lemma ReactorClaimsConn(s: State, own: Owners, c: Choice)
    requires Wf(s) && QueueInv(s) && SlotInv(s, own) && ConnInv(s, own) && ReactorNext(s, c).Some?
    requires s.reactor.Accept? || s.reactor.Reject? || s.reactor.Claim?
    ensures var t, own' := ReactorNext(s, c).value, ReactorOwners(s, own);
            OpenInv(t, own') && HomeInv(t, own') && DistinctInv(t) && NetInv(t.net)
  {
    var t := ReactorNext(s, c).value;
    ReactorTaskFrame(s, c);
    ReactorSlotEffect(s, c);
    ReactorNetEffect(s, c);
    hide ReactorNext, MatchInv, OpenInv, HomeInv, DistinctInv, NetInv, Close;
    var own' := ReactorOwners(s, own);
    if t.reactor.Claim? && s.reactor.Accept? {
      AcceptKeepsConn(s, own, t, t.reactor.fd);
    } else if s.reactor.Reject? {
      RejectKeepsConn(s, own, t);
    } else if s.reactor.Claim? && s.reactor.i < MAX_CONNS && !s.slots[s.reactor.i].active {
      ClaimKeepsConn(s, own, t, own', s.reactor.i);
    } else {
      ConnFrame(s, own, t, own');
    }
  }

  lemma ReactorLeavesConn(s: State, own: Owners, c: Choice)
    requires Wf(s) && QueueInv(s) && SlotInv(s, own) && ConnInv(s, own) && ReactorNext(s, c).Some?
    requires !s.reactor.DropFd? && !s.reactor.TimeoutFd? && !s.reactor.DropSlot? && !s.reactor.TimeoutSlot?
    requires !s.reactor.Accept? && !Claiming(s.reactor)
    ensures var t, own' := ReactorNext(s, c).value, ReactorOwners(s, own);
            OpenInv(t, own') && HomeInv(t, own') && DistinctInv(t) && NetInv(t.net)
  {
    var t := ReactorNext(s, c).value;
    ReactorTaskFrame(s, c);
    ReactorSlotEffect(s, c);
    ReactorNetEffect(s, c);
    hide ReactorNext, MatchInv, OpenInv, HomeInv, DistinctInv, NetInv, Close;
    assert s.reactor.AddPush? ==> Holds(s, HReactor, s.reactor.task.slot);
    ConnFrame(s, own, t, ReactorOwners(s, own));
  }

  lemma ReactorKeepsConn(s: State, own: Owners, c: Choice)
    requires Wf(s) && QueueInv(s) && SlotInv(s, own) && ConnInv(s, own) && ReactorNext(s, c).Some?
    ensures ConnInv(ReactorNext(s, c).value, ReactorOwners(s, own))
  {
    ReactorKeepsMatch(s, own, c);
    hide ReactorNext, MatchInv, OpenInv, HomeInv, DistinctInv, NetInv;
    var r := s.reactor;
    if r.DropFd? || r.TimeoutFd? {
      ReactorClosesConn(s, own, c);
    } else if r.DropSlot? || r.TimeoutSlot? {
      ReactorFreesConn(s, own, c);
    } else if r.Accept? || Claiming(r) {
      ReactorClaimsConn(s, own, c);
    } else {
      ReactorLeavesConn(s, own, c);
    }
  }
}
