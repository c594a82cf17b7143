/** Who may touch a connection slot: the reactor, the queue, one worker, or nobody. */
module ServerSlots {
  import opened Options
  import opened Framing
  import opened HttpRequest
  import opened Pool
  import opened Server
  import opened ServerPool
  import opened ServerTasks

  /** A party that may hold a slot: the reactor preparing a task, the k-th added task
    * while it is queued, or a worker that has not released its task's slot. */
  datatype Holder = HReactor | HQueued(k: nat) | HWorker(w: nat)

  /** The worker has a task whose slot it has not released. */
  predicate Unreleased(w: Worker) {
    HasTask(w) && !w.AtFree?
  }

  function ReactorHand(r: Reactor): Option<SlotIndex> {
    match r
    case NewTask(i) => Some(i)
    case DropFd(i, _) => Some(i)
    case DropSlot(i, _) => Some(i)
    case AddLock(task, _) => Some(task.slot)
    case AddPush(task, _) => Some(task.slot)
    case Dispatch(i) => Some(i)
    case _ => None
  }

  predicate Holds(s: State, h: Holder, i: nat) {
    match h
    case HReactor => ReactorHand(s.reactor) == Some(i)
    case HQueued(k) => Popped(s) <= k < |s.added| && s.added[k].slot == i
    case HWorker(w) => w < |s.workers| && Unreleased(s.workers[w]) && TaskOf(s.workers[w]).slot == i
  }

  predicate InUse(slot: Slot) {
    slot.active && slot.busy
  }

  predicate Idle(slot: Slot) {
    slot.active && !slot.busy
  }

  /** Each slot's holder, if it has one. */
  type Owners = o: seq<Option<Holder>> | |o| == MAX_CONNS witness NoOwners()

  function NoOwners(): (o: seq<Option<Holder>>)
    ensures |o| == MAX_CONNS && forall i :: 0 <= i < MAX_CONNS ==> o[i] == None
  {
    seq(MAX_CONNS, _ => None)
  }

  /** A slot has a holder exactly when it is active and busy, and then only one. */
  ghost predicate OwnerInv(s: State, own: Owners) {
    && (forall i :: 0 <= i < MAX_CONNS ==> (own[i].Some? <==> InUse(s.slots[i])))
    && (forall i :: 0 <= i < MAX_CONNS && own[i].Some? ==> Holds(s, own[i].value, i))
    && (forall h, i :: 0 <= i < MAX_CONNS && Holds(s, h, i) ==> own[i] == Some(h))
  }

  predicate TimeoutInv(s: State) {
    s.reactor.TimeoutFd? || s.reactor.TimeoutSlot? ==> Idle(s.slots[s.reactor.slot])
  }

  ghost predicate SlotInv(s: State, own: Owners) {
    OwnerInv(s, own) && TimeoutInv(s)
  }

  /** How a step moves ownership. */
  function WorkerOwners(s: State, own: Owners, w: nat): Owners
    requires Wf(s) && w < |s.workers|
  {
    match s.workers[w]
    case InEntry =>
      if s.pool.cells[w] == Terminated || s.pool.queue == [] then own
      else own[s.pool.queue[0].slot := Some(HWorker(w))]
    case ClearBusy(task) => own[task.slot := None]
    case ClearActive(task) => own[task.slot := None]
    case _ => own
  }

  function ReactorOwners(s: State, own: Owners): Owners {
    match s.reactor
    case Claim(i, _, _) => if i < MAX_CONNS && !s.slots[i].active then own[i := Some(HReactor)] else own
    case Scan(i) =>
      if i < MAX_CONNS && Idle(s.slots[i]) && s.slots[i].fd in s.ready then own[i := Some(HReactor)] else own
    case DropSlot(i, _) => own[i := None]
    case AddPush(task, _) => own[task.slot := Some(HQueued(|s.added|))]
    case _ => own
  }

  lemma InitSlotsOwned(n: nat, option: DestroyOption)
    requires n > 0
    ensures SlotInv(Init(n, option), NoOwners())
  {
  }

  // ---------------------------------------------------------------- worker steps

  /** A step of a worker with a task changes nothing of the slots but its own slot's fields,
    * and is_active and is_busy only to clear them. */
  predicate TouchesItsSlot(s: State, t: State, w: nat)
    requires w < |s.workers| && HasTask(s.workers[w])
  {
    var i := TaskOf(s.workers[w]).slot;
    && t.watched == s.watched && t.ready == s.ready
    && t.slots == s.slots[i := t.slots[i]]
    && t.slots[i].fd == s.slots[i].fd && t.slots[i].cid == s.slots[i].cid
    && t.slots[i].active == (s.slots[i].active && !s.workers[w].ClearActive?)
    && t.slots[i].busy == (s.slots[i].busy && !s.workers[w].ClearBusy?)
  }

  lemma ReceivingEffect(s: State, w: nat, c: Choice)
    requires Wf(s) && w < |s.workers| && s.workers[w].AtRecv? && WorkerNext(s, w, c).Some?
    ensures TouchesItsSlot(s, WorkerNext(s, w, c).value, w)
  {
    hide Close, Fill, Fits;
  }

  /** What a worker between its critical sections does to slots and connections. */
  lemma WorkingEffect(s: State, w: nat, c: Choice)
    requires Wf(s) && w < |s.workers| && Working(s.workers[w]) && WorkerNext(s, w, c).Some?
    ensures TouchesItsSlot(s, WorkerNext(s, w, c).value, w)
  {
    if s.workers[w].AtRecv? {
      hide WorkerNext;
      ReceivingEffect(s, w, c);
    } else {
      hide DoRecv, Close, Advance, RequestComplete, ParserInput, KeepsAlive;
    }
  }

  lemma WorkingHold(s: State, w: nat, c: Choice)
    requires Wf(s) && w < |s.workers| && Working(s.workers[w]) && WorkerNext(s, w, c).Some?
    ensures var t := WorkerNext(s, w, c).value;
            && (Unreleased(t.workers[w]) <==> !s.workers[w].ClearBusy? && !s.workers[w].ClearActive? && !s.workers[w].AtFree?)
            && (Unreleased(t.workers[w]) ==> TaskOf(t.workers[w]) == TaskOf(s.workers[w]))
            && t.net == (if s.workers[w].CloseFd? then Close(s.net, s.workers[w].task.fd) else s.net)
            && (t.workers[w].ClearActive? <==> s.workers[w].CloseFd?)
  {
    hide Close, Advance, Fill, Fits, RequestComplete, ParserInput, KeepsAlive;
  }

  lemma WorkingKeepsSlots(s: State, own: Owners, w: nat, c: Choice)
    requires Wf(s) && SlotInv(s, own) && w < |s.workers| && Working(s.workers[w]) && WorkerNext(s, w, c).Some?
    ensures SlotInv(WorkerNext(s, w, c).value, WorkerOwners(s, own, w))
  {
    WorkingFrame(s, w, c);
    WorkingEffect(s, w, c);
    WorkingHold(s, w, c);
    hide WorkerNext, ReactorHand;
    assert Unreleased(s.workers[w]) ==> Holds(s, HWorker(w), TaskOf(s.workers[w]).slot);
    var t := WorkerNext(s, w, c).value;
    var own' := WorkerOwners(s, own, w);
    forall h, i | 0 <= i < MAX_CONNS
      ensures Holds(t, h, i) ==> Holds(s, h, i) && own'[i] == Some(h)
      ensures own'[i] == Some(h) ==> Holds(t, h, i)
    {
      assert Holds(s, h, i) ==> own[i] == Some(h);
    }
  }

  /** A worker that has not released its slot is the slot's only user. */
  lemma WorkerOwns(s: State, own: Owners, w: nat)
    requires SlotInv(s, own) && w < |s.workers| && Unreleased(s.workers[w])
    ensures var i := TaskOf(s.workers[w]).slot;
            && own[i] == Some(HWorker(w)) && InUse(s.slots[i])
            && ReactorHand(s.reactor) != Some(i)
            && !((s.reactor.TimeoutFd? || s.reactor.TimeoutSlot?) && s.reactor.slot == i)
    ensures forall j: SlotIndex :: own[j] == Some(HWorker(w)) ==> j == TaskOf(s.workers[w]).slot
  {
    hide HasTask;
    var i := TaskOf(s.workers[w]).slot;
    assert Holds(s, HWorker(w), i);
    assert ReactorHand(s.reactor) == Some(i) ==> Holds(s, HReactor, i);
  }

  lemma FreeingTouchesNothing(s: State, w: nat, c: Choice)
    requires Wf(s) && w < |s.workers| && s.workers[w].AtFree? && WorkerNext(s, w, c).Some?
    ensures WorkerNext(s, w, c).value.slots == s.slots
  {
  }

  /** The lock, the semaphore and the critical sections do not touch slots or connections. */
  lemma SectionFrame(s: State, w: nat, c: Choice)
    requires Wf(s) && w < |s.workers| && !Working(s.workers[w]) && WorkerNext(s, w, c).Some?
    ensures var t := WorkerNext(s, w, c).value;
            && t.slots == s.slots && t.net == s.net && t.watched == s.watched && t.ready == s.ready
            && t.reactor == s.reactor && t.added == s.added
            && |t.workers| == |s.workers| && t.workers == s.workers[w := t.workers[w]]
  {
    hide Enter, Finish, DoRecv, Close, Advance, Fill, Fits, RequestComplete, ParserInput, KeepsAlive;
  }

  lemma SectionKeepsSlots(s: State, own: Owners, w: nat, c: Choice)
    requires PoolInv(s) && SlotInv(s, own) && w < |s.workers| && WorkerNext(s, w, c).Some?
    requires !Working(s.workers[w]) && !s.workers[w].InEntry?
    ensures SlotInv(WorkerNext(s, w, c).value, WorkerOwners(s, own, w))
  {
    SectionFrame(s, w, c);
    HandsFrame(s, w, c);
    var t := WorkerNext(s, w, c).value;
    assert !t.workers[w].AtFree?;
    hide WorkerNext, ReactorHand, PoolInv;
    forall h, i | 0 <= i < MAX_CONNS
      ensures Holds(t, h, i) <==> Holds(s, h, i)
    {
    }
  }

  lemma PopMovesOwner(s: State, t: State, own: Owners, w: nat)
    requires QueueInv(s) && SlotInv(s, own) && Wf(s) && w < |s.workers| && s.workers[w].InEntry?
    requires s.pool.cells[w] != Terminated && s.pool.queue != [] && t.pool.queue == s.pool.queue[1..]
    requires t.slots == s.slots && t.reactor == s.reactor && t.added == s.added
    requires t.workers == s.workers[w := LeaveWork(s.pool.queue[0])]
    ensures SlotInv(t, WorkerOwners(s, own, w))
  {
    hide ReactorHand;
    assert s.pool.queue[0] == s.added[Popped(s)];
    assert Holds(s, HQueued(Popped(s)), s.pool.queue[0].slot);
    var own' := WorkerOwners(s, own, w);
    forall h, i | 0 <= i < MAX_CONNS
      ensures Holds(t, h, i) ==> own'[i] == Some(h)
      ensures own'[i] == Some(h) ==> Holds(t, h, i)
    {
      assert Holds(s, h, i) ==> own[i] == Some(h);
    }
  }

  lemma EntryKeepsSlots(s: State, own: Owners, w: nat, c: Choice)
    requires PoolInv(s) && TaskInv(s) && SlotInv(s, own)
      && w < |s.workers| && s.workers[w].InEntry? && WorkerNext(s, w, c).Some?
    ensures SlotInv(WorkerNext(s, w, c).value, WorkerOwners(s, own, w))
  {
    SectionFrame(s, w, c);
    EntryOutcome(s, w, c);
    hide WorkerNext, ReactorHand, PoolInv, NoneLost, HandsInv, FinishedInv;
    var t := WorkerNext(s, w, c).value;
    if s.pool.cells[w] != Terminated {
      PopMovesOwner(s, t, own, w);
    } else {
      forall h, i | 0 <= i < MAX_CONNS
        ensures Holds(t, h, i) <==> Holds(s, h, i)
      {
      }
    }
  }

  lemma WorkerKeepsSlots(s: State, own: Owners, w: nat, c: Choice)
    requires PoolInv(s) && TaskInv(s) && SlotInv(s, own) && w < |s.workers| && WorkerNext(s, w, c).Some?
    ensures SlotInv(WorkerNext(s, w, c).value, WorkerOwners(s, own, w))
  {
    hide WorkerNext, SlotInv, TaskInv, WorkerOwners;
    if Working(s.workers[w]) {
      WorkingKeepsSlots(s, own, w, c);
    } else if s.workers[w].InEntry? {
      EntryKeepsSlots(s, own, w, c);
    } else {
      SectionKeepsSlots(s, own, w, c);
    }
  }

  // --------------------------------------------------------------- reactor steps

  lemma ReactorKeepsSlots(s: State, own: Owners, c: Choice)
    requires Wf(s) && QueueInv(s) && SlotInv(s, own) && ReactorNext(s, c).Some?
    ensures SlotInv(ReactorNext(s, c).value, ReactorOwners(s, own))
  {
    var t := ReactorNext(s, c).value;
    var own' := ReactorOwners(s, own);
    ReactorTaskFrame(s, c);
    ReactorSlotEffect(s, c);
    hide ReactorNext;
    var hand := ReactorHand(s.reactor);
    assert hand.Some? ==> Holds(s, HReactor, hand.value);
    forall h, i | 0 <= i < MAX_CONNS
      ensures Holds(t, h, i) ==> own'[i] == Some(h)
      ensures own'[i] == Some(h) ==> Holds(t, h, i)
    {
      assert Holds(s, h, i) ==> own[i] == Some(h);
    }
  }

  /** The slot a reactor step takes, releases or closes. */
  lemma ReactorSlotEffect(s: State, c: Choice)
    requires Wf(s) && ReactorNext(s, c).Some?
    ensures var t := ReactorNext(s, c).value;
            match s.reactor
            case Claim(i, fd, cid) =>
              if i < MAX_CONNS && !s.slots[i].active then
                && t.reactor == NewTask(i)
                && t.slots == s.slots[i := t.slots[i]]
                && InUse(t.slots[i]) && t.slots[i].fd == fd && t.slots[i].cid == cid
                && t.slots[i].buffer == s.slots[i].buffer && t.slots[i].heard == s.slots[i].heard
                && t.slots[i].chunks == s.slots[i].chunks && t.slots[i].requests == s.slots[i].requests
              else t.slots == s.slots && (t.reactor.Claim? || t.reactor.Reject?)
            case Scan(i) =>
              if i < MAX_CONNS && Idle(s.slots[i]) && s.slots[i].fd in s.ready then
                t.reactor == Dispatch(i) && t.slots == s.slots[i := s.slots[i].(busy := true)]
              else t.slots == s.slots && ReactorHand(t.reactor) == None && !t.reactor.TimeoutFd? && !t.reactor.TimeoutSlot?
            case DropSlot(i, back) => t.slots == s.slots[i := s.slots[i].(active := false)] && (t.reactor.Scan? || t.reactor.Accept?)
            case TimeoutSlot(i, now) => t.slots == s.slots[i := s.slots[i].(active := false)] && t.reactor.Timeouts?
            case TimeoutFd(i, now) => t.slots == s.slots && t.reactor == TimeoutSlot(i, now)
            case Timeouts(i, now) =>
              && t.slots == s.slots
              && (t.reactor.Timeouts? || t.reactor.Watch? || (i < MAX_CONNS && Idle(s.slots[i]) && t.reactor == TimeoutFd(i, now)))
            case AddPush(task, back) => t.slots == s.slots && t.reactor == AddPost(back)
            case _ =>
              && t.slots == s.slots && ReactorHand(t.reactor) == ReactorHand(s.reactor)
              && !t.reactor.TimeoutFd? && !t.reactor.TimeoutSlot?
  {
    hide Close, AddWork, Terminate;
  }
}
