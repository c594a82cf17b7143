/** Safety of the server in every reachable state: the invariants put together, and what
  * they say in terms of the program.
  */
module ServerSafety {
  import opened Options
  import opened CStrings
  import opened Framing
  import opened HttpRequest
  import opened Pool
  import opened Server
  import opened Counting
  import opened ServerPool
  import opened ServerTasks
  import opened ServerSlots
  import opened ServerConnections
  import opened ServerReadiness
  import opened ServerBuffers
  import opened ServerFraming

  ghost predicate OwnedInv(s: State, own: Owners) {
    SlotInv(s, own) && ConnInv(s, own) && WatchInv(s) && BufferInv(s, own) && LogInv(s, own)
  }

  ghost predicate Inv(s: State) {
    PoolInv(s) && TaskInv(s) && exists own: Owners :: OwnedInv(s, own)
  }

  lemma InitSatisfiesInv(n: nat, option: DestroyOption)
    requires n > 0
    ensures Inv(Init(n, option))
  {
    InitPool(n, option);
    InitTasks(n, option);
    InitSlotsOwned(n, option);
    InitConnections(n, option);
    InitWatch(n, option);
    InitBuffers(n, option);
    InitLogs(n, option);
    assert OwnedInv(Init(n, option), NoOwners());
  }

  lemma WorkerKeepsInv(s: State, w: nat, c: Choice)
    requires Inv(s) && w < |s.workers| && WorkerNext(s, w, c).Some?
    ensures Inv(WorkerNext(s, w, c).value)
  {
    assert Wf(s);
    hide WorkerNext, PoolInv, TaskInv, SlotInv, ConnInv, WatchInv, BufferInv, LogInv, WorkerOwners;
    var own: Owners :| OwnedInv(s, own);
    WorkerKeepsPool(s, w, c);
    WorkerKeepsTasks(s, w, c);
    WorkerKeepsSlots(s, own, w, c);
    WorkerKeepsConn(s, own, w, c);
    WorkerKeepsWatch(s, own, w, c);
    WorkerKeepsBuffers(s, own, w, c);
    WorkerKeepsLogs(s, own, w, c);
    assert OwnedInv(WorkerNext(s, w, c).value, WorkerOwners(s, own, w));
  }

  lemma ReactorKeepsInv(s: State, c: Choice)
    requires Inv(s) && ReactorNext(s, c).Some?
    ensures Inv(ReactorNext(s, c).value)
  {
    assert Wf(s) && QueueInv(s);
    hide ReactorNext, PoolInv, TaskInv, SlotInv, ConnInv, WatchInv, BufferInv, LogInv, ReactorOwners, QueueInv;
    var own: Owners :| OwnedInv(s, own);
    ReactorKeepsPool(s, c);
    ReactorKeepsTasks(s, c);
    ReactorKeepsSlots(s, own, c);
    ReactorKeepsConn(s, own, c);
    ReactorKeepsWatch(s, own, c);
    ReactorKeepsBuffers(s, own, c);
    ReactorKeepsLogs(s, own, c);
    assert OwnedInv(ReactorNext(s, c).value, ReactorOwners(s, own));
  }

  lemma StepKeepsInv(s: State, st: Step, t: State)
    requires Inv(s) && CanStep(s, st, t)
    ensures Inv(t)
  {
    hide Inv, WorkerNext, ReactorNext;
    match st
    case WorkerStep(w, c) => WorkerKeepsInv(s, w, c);
    case ReactorStep(c) => ReactorKeepsInv(s, c);
  }

  lemma {:induction false} RunKeepsInv(s: State, run: seq<Step>, t: State)
    requires Inv(s) && Reaches(s, run, t)
    ensures Inv(t)
    decreases |run|
  {
    hide Inv, Next;
    if run != [] {
      var u := Next(s, run[0]).value;
      StepKeepsInv(s, run[0], u);
      RunKeepsInv(u, run[1..], t);
    }
  }

  /** The invariant holds after every run of any number of workers. */
  lemma ReachableStatesSatisfyInv(s: State)
    requires Reachable(s)
    ensures Inv(s)
  {
    hide Inv, Init, Reaches;
    var n: nat, option, run :| n > 0 && Reaches(Init(n, option), run, s);
    InitSatisfiesInv(n, option);
    RunKeepsInv(Init(n, option), run, s);
  }

  // ------------------------------------------------------------------- theorems

  /** A slot is active and busy exactly when it has an unreleased task (or the reactor is
    * preparing one), and then only one; so no two workers share a slot, a worker's slot
    * stays active until the worker itself frees it, and the keep-alive test, which reads
    * is_active, always finds it set. */
  lemma SlotsAreExclusive(s: State)
    requires Reachable(s)
    ensures forall i: SlotIndex :: InUse(s.slots[i]) <==> exists h :: Holds(s, h, i)
    ensures forall i: SlotIndex, g, h :: Holds(s, g, i) && Holds(s, h, i) ==> g == h
    ensures forall v, w :: 0 <= v < w < |s.workers| && Unreleased(s.workers[v]) && Unreleased(s.workers[w]) ==>
              TaskOf(s.workers[v]).slot != TaskOf(s.workers[w]).slot
    ensures forall w :: 0 <= w < |s.workers| && s.workers[w].KeepAliveTest? ==> s.slots[s.workers[w].task.slot].active
    ensures s.reactor.TimeoutFd? || s.reactor.TimeoutSlot? ==> forall h :: !Holds(s, h, s.reactor.slot)
  {
    ReachableStatesSatisfyInv(s);
    var own: Owners :| OwnedInv(s, own);
    hide *;
    assert SlotInv(s, own) by { OwnedIsSlotInv(s, own); }
    HoldersAreUnique(s, own);
    WorkersShareNoSlot(s, own);
  }

  lemma OwnedIsSlotInv(s: State, own: Owners)
    requires OwnedInv(s, own)
    ensures SlotInv(s, own)
  {
    hide SlotInv;
  }

  lemma WorkersShareNoSlot(s: State, own: Owners)
    requires SlotInv(s, own)
    ensures forall v, w :: 0 <= v < w < |s.workers| && Unreleased(s.workers[v]) && Unreleased(s.workers[w]) ==>
              TaskOf(s.workers[v]).slot != TaskOf(s.workers[w]).slot
    ensures forall w :: 0 <= w < |s.workers| && s.workers[w].KeepAliveTest? ==> s.slots[s.workers[w].task.slot].active
  {
    forall w | 0 <= w < |s.workers| && Unreleased(s.workers[w])
      ensures own[TaskOf(s.workers[w]).slot] == Some(HWorker(w)) && InUse(s.slots[TaskOf(s.workers[w]).slot])
    {
      WorkerOwns(s, own, w);
    }
    hide SlotInv;
  }

  lemma HoldersAreUnique(s: State, own: Owners)
    requires SlotInv(s, own)
    ensures forall i: SlotIndex :: InUse(s.slots[i]) <==> exists h :: Holds(s, h, i)
    ensures forall i: SlotIndex, g, h :: Holds(s, g, i) && Holds(s, h, i) ==> g == h
    ensures s.reactor.TimeoutFd? || s.reactor.TimeoutSlot? ==> forall h :: !Holds(s, h, s.reactor.slot)
  {
    hide Holds;
    forall i: SlotIndex
      ensures InUse(s.slots[i]) <==> exists h :: Holds(s, h, i)
    {
      if InUse(s.slots[i]) {
        assert Holds(s, own[i].value, i);
      }
    }
  }

  /** While a worker has not released its slot, no other thread changes anything in it. */
  lemma OnlyTheWorkerTouchesItsSlot(s: State, w: nat, st: Step, t: State)
    requires Reachable(s) && CanStep(s, st, t)
    requires w < |s.workers| && Unreleased(s.workers[w])
    requires !(st.WorkerStep? && st.w == w)
    ensures t.slots[TaskOf(s.workers[w]).slot] == s.slots[TaskOf(s.workers[w]).slot]
  {
    ReachableStatesSatisfyInv(s);
    var own: Owners :| OwnedInv(s, own);
    var i := TaskOf(s.workers[w]).slot;
    WorkerOwns(s, own, w);
    hide PoolInv, TaskInv, ConnInv, WatchInv, BufferInv, LogInv, WorkerNext, ReactorNext;
    match st
    case WorkerStep(v, c) =>
      if !Working(s.workers[v]) {
        SectionFrame(s, v, c);
      } else if s.workers[v].AtFree? {
        FreeingTouchesNothing(s, v, c);
      } else {
        WorkingEffect(s, v, c);
        WorkerOwns(s, own, v);
      }
    case ReactorStep(c) =>
      ReactorSlotEffect(s, c);
      assert s.reactor.DropSlot? ==> Holds(s, HReactor, s.reactor.slot);
  }

  /** Each accepted connection is closed at most once, no close ever names a descriptor that
    * is not open, and a connection that is not closed is in the reactor's hand or belongs
    * to exactly one active slot. */
  lemma ConnectionsAreConserved(s: State)
    requires Reachable(s)
    ensures NoDuplicates(s.net.closed) && s.net.badCloses == 0
    ensures forall cid :: 0 <= cid < s.net.accepted && cid !in s.net.closed ==>
              || (Claiming(s.reactor) && s.reactor.cid == cid)
              || exists i: SlotIndex :: s.slots[i].active && s.slots[i].cid == cid
    ensures forall i: SlotIndex, j: SlotIndex ::
              s.slots[i].active && s.slots[j].active && s.slots[i].cid == s.slots[j].cid ==> i == j
    ensures Claiming(s.reactor) ==> s.reactor.cid !in s.net.closed && forall i: SlotIndex :: s.slots[i].cid != s.reactor.cid
  {
    ReachableStatesSatisfyInv(s);
    var own: Owners :| OwnedInv(s, own);
    hide PoolInv, TaskInv, WatchInv, BufferInv, LogInv, SlotInv, MatchInv;
    forall cid | 0 <= cid < s.net.accepted && cid !in s.net.closed
      ensures || (Claiming(s.reactor) && s.reactor.cid == cid)
              || exists i: SlotIndex :: s.slots[i].active && s.slots[i].cid == cid
    {
      assert OpenOrClosed(s.net, cid);
      var fd :| fd in s.net.open && s.net.open[fd] == cid;
      if !InHand(s.reactor, fd, cid) {
        var i: SlotIndex :| Live(s, own, i) && s.slots[i].fd == fd && s.slots[i].cid == cid;
        assert s.slots[i].active;
      }
    }
  }

  /** The reuse of descriptor numbers misleads nobody: the reactor watches, dispatches and
    * closes, and a worker receives on and closes, the connection the slot was claimed for. */
  lemma DescriptorsAreNeverMistaken(s: State)
    requires Reachable(s)
    ensures s.reactor.Watch? && s.reactor.i < MAX_CONNS && Idle(s.slots[s.reactor.i]) ==>
              Denotes(s, s.slots[s.reactor.i].fd, s.slots[s.reactor.i].cid)
    ensures s.reactor.Scan? && s.reactor.i < MAX_CONNS && Idle(s.slots[s.reactor.i]) && s.slots[s.reactor.i].fd in s.ready ==>
              var slot := s.slots[s.reactor.i];
              Denotes(s, slot.fd, slot.cid) && slot.fd in s.watched && s.watched[slot.fd].cid == slot.cid
    ensures s.reactor.DropFd? || s.reactor.TimeoutFd? ==>
              Denotes(s, s.slots[s.reactor.slot].fd, s.slots[s.reactor.slot].cid)
    ensures forall w :: 0 <= w < |s.workers| && Unreleased(s.workers[w]) && !s.workers[w].ClearActive? ==>
              var task := TaskOf(s.workers[w]);
              Denotes(s, task.fd, task.cid) && task.cid == s.slots[task.slot].cid
  {
    ReachableStatesSatisfyInv(s);
    var own: Owners :| OwnedInv(s, own);
    ReactorNeverMistakesConnections(s, own);
    forall w | 0 <= w < |s.workers| && Unreleased(s.workers[w]) && !s.workers[w].ClearActive?
      ensures Denotes(s, TaskOf(s.workers[w]).fd, TaskOf(s.workers[w]).cid)
      ensures TaskOf(s.workers[w]).cid == s.slots[TaskOf(s.workers[w]).slot].cid
    {
      WorkerOwns(s, own, w);
      hide PoolInv, TaskInv, WatchInv, BufferInv, LogInv, HomeInv, DistinctInv, NetInv;
      assert Live(s, own, TaskOf(s.workers[w]).slot);
    }
  }

  predicate Denotes(s: State, fd: int, cid: int) {
    fd in s.net.open && s.net.open[fd] == cid
  }

  /** No wake-up is lost: until workers are terminated, and whenever the pool lock is free,
    * the semaphore and the workers it woke account for each unit of work, and the work is
    * the queue.  So no worker ever finds the queue empty. */
  lemma NoWakeUpIsLost(s: State)
    requires Reachable(s)
    ensures s.lock == Unlocked && Marked(s) == 0 ==>
              s.sem + Sum(s.workers, Woken) == s.pool.availableWork == |s.pool.queue|
    ensures forall w :: 0 <= w < |s.workers| ==> !s.workers[w].LeaveNoWork? && !s.workers[w].LeaveNull?
  {
    hide Sum;
    ReachableStatesSatisfyInv(s);
  }

  /** Until workers are terminated, a cell is BUSY exactly while its worker has a task, and
    * busy_threads_num counts them. */
  lemma StatesAreAccounted(s: State)
    requires Reachable(s) && Marked(s) == 0
    ensures |s.pool.cells| == |s.workers|
    ensures forall w :: 0 <= w < |s.workers| ==> s.pool.cells[w] == if InTask(s.workers[w]) then Busy else Free
    ensures s.pool.busyThreads == Sum(s.workers, Tasked)
  {
    hide Sum;
    ReachableStatesSatisfyInv(s);
  }

  predicate KeepsTerminated(s: State, t: State) {
    && |t.pool.cells| == |s.pool.cells|
    && (forall w :: 0 <= w < |s.pool.cells| && s.pool.cells[w] == Terminated ==> t.pool.cells[w] == Terminated)
    && (Marked(s) > 0 ==> t.pool.busyThreads == s.pool.busyThreads)
  }

  lemma WorkerKeepsTerminated(s: State, w: nat, c: Choice)
    requires PoolInv(s) && w < |s.workers| && WorkerNext(s, w, c).Some?
    ensures KeepsTerminated(s, WorkerNext(s, w, c).value)
  {
    hide WorkInv, SoftInv, ExitInv;
    if Working(s.workers[w]) {
      hide WorkerNext;
      WorkingFrame(s, w, c);
    } else {
      hide DoRecv, Close, Advance, Fill, Fits, RequestComplete, ParserInput, KeepsAlive;
    }
  }

  lemma ReactorKeepsTerminated(s: State, c: Choice)
    requires PoolInv(s) && ReactorNext(s, c).Some?
    ensures KeepsTerminated(s, ReactorNext(s, c).value)
  {
    hide WorkInv, SoftInv, ExitInv, LockInv;
    if Quiet(s.reactor) {
      hide ReactorNext;
      QuietFrame(s, c);
    } else {
      hide Close, SetSlot;
    }
  }

  /** Once written, TERMINATED is never overwritten, and from the first one on
    * busy_threads_num does not change. */
  lemma TerminatedIsForever(s: State, st: Step, t: State)
    requires Reachable(s) && CanStep(s, st, t)
    ensures |t.pool.cells| == |s.pool.cells|
    ensures forall w :: 0 <= w < |s.pool.cells| && s.pool.cells[w] == Terminated ==> t.pool.cells[w] == Terminated
    ensures Marked(s) > 0 ==> t.pool.busyThreads == s.pool.busyThreads
  {
    ReachableStatesSatisfyInv(s);
    hide PoolInv, TaskInv, WorkerNext, ReactorNext;
    match st
    case WorkerStep(w, c) => WorkerKeepsTerminated(s, w, c);
    case ReactorStep(c) => ReactorKeepsTerminated(s, c);
  }

  /** When thread_pool_destroy returns, every worker has exited; the tasks executed are the
    * first ones added, each executed exactly once; the others are still in the queue, in
    * order; and after a SOFT destroy there are none. */
  lemma DestroyIsComplete(s: State)
    requires Reachable(s) && s.reactor.Done?
    ensures forall w :: 0 <= w < |s.workers| ==> s.workers[w].Exited?
    ensures |s.pool.queue| <= |s.added| && s.pool.queue == s.added[|s.added| - |s.pool.queue|..]
    ensures NoDuplicates(s.finished)
    ensures forall k: nat :: k in s.finished <==> k < |s.added| - |s.pool.queue|
    ensures s.option == Soft ==> s.pool.queue == []
  {
    ReachableStatesSatisfyInv(s);
    ShutdownIsComplete(s);
  }

  /** Buffers over all runs: outside a read, a slot's buffer is settled and holds exactly the
    * bytes heard through the slot since its last completed request, whichever connections
    * they came from; and recv is never asked for a negative number of bytes. */
  lemma BuffersAreSound(s: State)
    requires Reachable(s)
    ensures forall i: SlotIndex ::
              (forall w :: 0 <= w < |s.workers| && s.workers[w].GotBytes? ==> s.workers[w].task.slot != i) ==>
                Settled(s.slots[i].buffer) && Received(s.slots[i].buffer) == s.slots[i].heard
    ensures forall w :: 0 <= w < |s.workers| && s.workers[w].AtRecv? ==>
              0 <= RecvSize(s.slots[s.workers[w].task.slot].buffer)
    ensures forall w :: 0 <= w < |s.workers| && s.workers[w].Decide? ==>
              var slot := s.slots[s.workers[w].task.slot];
              && RequestComplete(slot.buffer) == Complete(CStr(slot.heard), |slot.heard|)
              && ParserInput(slot.buffer) == CStr(slot.heard)
  {
    ReachableStatesSatisfyInv(s);
    var own: Owners :| OwnedInv(s, own);
    hide PoolInv, TaskInv, ConnInv, WatchInv, LogInv, RequestComplete, Complete, CStr;
    forall i: SlotIndex |
        forall w :: 0 <= w < |s.workers| && s.workers[w].GotBytes? ==> s.workers[w].task.slot != i
      ensures Settled(s.slots[i].buffer) && Received(s.slots[i].buffer) == s.slots[i].heard
    {
      assert BufferOk(s.slots[i], Uncounted(s, own, i));
      assert Uncounted(s, own, i) == 0 by {
        assert own[i].Some? ==> Holds(s, own[i].value, i);
      }
    }
    forall w | 0 <= w < |s.workers| && s.workers[w].AtRecv?
      ensures 0 <= RecvSize(s.slots[s.workers[w].task.slot].buffer)
    {
      RecvSizeIsNotNegative(s, own, w);
    }
    forall w | 0 <= w < |s.workers| && s.workers[w].Decide?
      ensures var slot := s.slots[s.workers[w].task.slot];
              && RequestComplete(slot.buffer) == Complete(CStr(slot.heard), |slot.heard|)
              && ParserInput(slot.buffer) == CStr(slot.heard)
    {
      DecisionFollowsWhatWasHeard(s, own, w);
    }
  }

  /** No worker is between receiving through the slot and clearing its buffer. */
  predicate NotReading(s: State, i: SlotIndex) {
    forall w :: 0 <= w < |s.workers| && HasTask(s.workers[w]) && TaskOf(s.workers[w]).slot == i ==>
      StageOf(s.workers[w]).Settling? || StageOf(s.workers[w]).Keeping?
  }

  /** In every run, and outside the reads in progress, the parser has been called through each
    * slot exactly as if the slot's chunks had been read one after the other. */
  lemma RequestsAreReplayed(s: State)
    requires Reachable(s)
    ensures forall i: SlotIndex :: NotReading(s, i) ==>
              Replay(s.slots[i].chunks) == (s.slots[i].heard, s.slots[i].requests)
  {
    ReachableStatesSatisfyInv(s);
    var own: Owners :| OwnedInv(s, own);
    hide PoolInv, TaskInv, ConnInv, WatchInv, BufferInv, Replay, Complete, CStr;
    forall i: SlotIndex | NotReading(s, i)
      ensures Replay(s.slots[i].chunks) == (s.slots[i].heard, s.slots[i].requests)
    {
      assert LogOk(s.slots[i], StageOfSlot(s, own, i));
      assert own[i].Some? ==> Holds(s, own[i].value, i);
    }
  }

  /** Framing does not depend on fragmentation, in every run of the server (section 6.3 of
    * RFC 9112): once the chunks of a well-framed request, however cut, have come in through
    * a slot whose earlier chunks were used up, the parser has been called for them exactly
    * once, with the request, and no byte is left over. */
  lemma FragmentationIndependentInEveryRun(s: State, i: SlotIndex, before: seq<string>, chunks: seq<string>,
                                           head: string, body: string)
    requires Reachable(s) && NotReading(s, i)
    requires s.slots[i].chunks == before + chunks && Replay(before).0 == ""
    requires WellFramed(head, body) && Concat(chunks) == head + body
    requires NoneEmpty(chunks)
    ensures s.slots[i].heard == ""
    ensures s.slots[i].requests == Replay(before).1 + [CStr(head + body)]
  {
    hide Reachable, Replay, WellFramed, CStr;
    RequestsAreReplayed(s);
    ReplayRequest(before, chunks, head, body);
  }

  /** After a request, its worker keeps the connection exactly if the request asks to keep it:
    * then it goes on to free the slot for the next request, otherwise to close. */
  lemma KeptExactlyIfAsked(s: State, w: nat, c: Choice, t: State)
    requires Reachable(s) && CanStep(s, WorkerStep(w, c), t) && s.workers[w].KeepAliveTest?
    ensures |t.workers| == |s.workers|
    ensures var requests := s.slots[s.workers[w].task.slot].requests;
            && requests != []
            && if KeepsAlive(requests[|requests| - 1]) then t.workers[w].Touch? else t.workers[w].CloseFd?
  {
    ReachableStatesSatisfyInv(s);
    var own: Owners :| OwnedInv(s, own);
    var i := s.workers[w].task.slot;
    WorkerOwns(s, own, w);
    hide PoolInv, TaskInv, SlotInv, ConnInv, WatchInv, BufferInv, Replay, Complete, CStr, KeepsAlive;
    assert LogOk(s.slots[i], StageOfSlot(s, own, i));
  }
}
