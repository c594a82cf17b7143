/** What holds of the pool's lock, semaphore, counters and state cells in every reachable
  * state of the server, whatever the interleaving.
  */
module ServerPool {
  import opened Options
  import opened Framing
  import opened HttpRequest
  import opened Pool
  import opened Server
  import opened Counting

  // ------------------------------------------------------------------ positions

  predicate HoldsLock(w: Worker) {
    w.InEntry? || w.LeaveExit? || w.LeaveWork? || w.LeaveNull? || w.LeaveNoWork? || w.InFinish? || w.LeaveLoop?
  }

  predicate ReactorHoldsLock(r: Reactor) {
    r.AddPush? || r.AddPost? || r.AddUnlock? || r.Mark? || r.MarkUnlock?
  }

  /** The worker has popped a task and not yet reported to be free again. */
  predicate InTask(w: Worker) {
    w.LeaveWork? || w.LeaveNull? || w.AtRecv? || w.GotBytes? || w.Decide? || w.Serve? || w.Reset? || w.KeepAliveTest? ||
    w.Touch? || w.ClearBusy? || w.CloseFd? || w.ClearActive? || w.AtFree? || w.AtRelock? || w.InFinish?
  }

  function Tasked(w: Worker): nat {
    if InTask(w) then 1 else 0
  }

  /** Woken by the semaphore, and not yet past its first section. */
  function Woken(w: Worker): nat {
    if w.AtLock? || w.InEntry? then 1 else 0
  }

  function Waiting(w: Worker): nat {
    if w.AtWait? then 1 else 0
  }

  /** How many state cells are TERMINATED. */
  function Marked(s: State): nat {
    match s.reactor
    case Mark(i) => i
    case MarkUnlock => |s.workers|
    case Post(_) => |s.workers|
    case Join(_) => |s.workers|
    case Done => |s.workers|
    case _ => 0
  }

  /** How many posts thread_pool_destroy has still to make. */
  function PostsLeft(s: State): int {
    match s.reactor
    case Mark(_) => |s.workers|
    case MarkUnlock => |s.workers|
    case Post(i) => |s.workers| - i
    case _ => 0
  }

  function PostPending(r: Reactor): nat {
    if r.AddPost? then 1 else 0
  }

  // ----------------------------------------------------------------- invariants

  predicate LockInv(s: State) {
    && (s.lock.ByWorker? ==> s.lock.w < |s.workers|)
    && (forall w :: 0 <= w < |s.workers| ==> (HoldsLock(s.workers[w]) <==> s.lock == ByWorker(w)))
    && (ReactorHoldsLock(s.reactor) <==> s.lock == ByReactor)
  }

  /** A cell is TERMINATED if marked, and else BUSY exactly while its worker has a task. */
  predicate CellsInv(s: State) {
    && |s.pool.cells| == |s.workers|
    && Marked(s) <= |s.workers|
    && (forall w :: 0 <= w < |s.workers| ==>
          s.pool.cells[w] == if w < Marked(s) then Terminated else if InTask(s.workers[w]) then Busy else Free)
  }

  predicate ExitInv(s: State) {
    && (forall w :: 0 <= w < |s.workers| ==>
          (s.workers[w].LeaveExit? || s.workers[w].Exited? ==> w < Marked(s)))
    && (Marked(s) > 0 ==> forall w :: 0 <= w < |s.workers| ==>
          !s.workers[w].LeaveWork? && !s.workers[w].LeaveLoop?)
    && (s.reactor.Join? ==> s.reactor.i <= |s.workers| && forall w :: 0 <= w < s.reactor.i ==> s.workers[w].Exited?)
    && (s.reactor.Done? ==> forall w :: 0 <= w < |s.workers| ==> s.workers[w].Exited?)
    && (s.reactor.Post? ==> s.reactor.i <= |s.workers|)
  }

  /** No lost wake-up: every task in the queue has a post that is pending, in the
    * semaphore, or in the hands of a woken worker; so no woken worker finds no work. */
  predicate WorkInv(s: State) {
    && s.pool.availableWork == |s.pool.queue|
    && (forall w :: 0 <= w < |s.workers| ==> !s.workers[w].LeaveNull? && !s.workers[w].LeaveNoWork?)
    && (Marked(s) == 0 ==>
          && s.sem + Sum(s.workers, Woken) + PostPending(s.reactor) == s.pool.availableWork
          && s.pool.busyThreads == Sum(s.workers, Tasked))
    && (Marked(s) > 0 ==> s.sem + PostsLeft(s) >= Sum(s.workers, Waiting))
  }

  /** From the end of its spin on, a SOFT destroy sees an empty queue. */
  predicate SoftInv(s: State) {
    s.option == Soft && (s.reactor.MarkLock? || s.reactor.Mark? || s.reactor.MarkUnlock?
                         || s.reactor.Post? || s.reactor.Join? || s.reactor.Done?)
    ==> s.pool.queue == []
  }

  predicate PoolInv(s: State) {
    Wf(s) && LockInv(s) && CellsInv(s) && ExitInv(s) && WorkInv(s) && SoftInv(s)
  }

  // ---------------------------------------------------------------- preservation

  lemma InitPool(n: nat, option: DestroyOption)
    requires n > 0
    ensures PoolInv(Init(n, option))
  {
    var s := Init(n, option);
    SumOfConstant(n, AtWait, Woken);
    SumOfConstant(n, AtWait, Tasked);
  }

  lemma CountsAfter(s: State, w: nat, to: Worker)
    requires w < |s.workers|
    ensures Sum(s.workers[w := to], Woken) + Woken(s.workers[w]) == Sum(s.workers, Woken) + Woken(to)
    ensures Sum(s.workers[w := to], Tasked) + Tasked(s.workers[w]) == Sum(s.workers, Tasked) + Tasked(to)
    ensures Sum(s.workers[w := to], Waiting) + Waiting(s.workers[w]) == Sum(s.workers, Waiting) + Waiting(to)
    ensures Sum(s.workers, Woken) >= Woken(s.workers[w])
  {
    SumUpdate(s.workers, w, to, Woken);
    SumUpdate(s.workers, w, to, Tasked);
    SumUpdate(s.workers, w, to, Waiting);
    SumAtLeast(s.workers, w, Woken);
  }

  /** Between its two critical sections a worker touches nothing of the pool. */
  predicate Working(w: Worker) {
    w.AtRecv? || w.GotBytes? || w.Decide? || w.Serve? || w.Reset? || w.KeepAliveTest? ||
    w.Touch? || w.ClearBusy? || w.CloseFd? || w.ClearActive? || w.AtFree?
  }

  lemma WorkingFrame(s: State, w: nat, c: Choice)
    requires Wf(s) && w < |s.workers| && Working(s.workers[w]) && WorkerNext(s, w, c).Some?
    ensures var t := WorkerNext(s, w, c).value;
            && t.pool == s.pool && t.sem == s.sem && t.lock == s.lock && t.reactor == s.reactor
            && t.option == s.option && t.added == s.added
            && |t.workers| == |s.workers| && t.workers == s.workers[w := t.workers[w]]
            && (Working(t.workers[w]) || t.workers[w].AtRelock?)
  {
    hide Enter, Finish, Close, Advance, Fill, Fits, RequestComplete, ParserInput, KeepsAlive;
  }

  lemma WorkingKeepsPool(s: State, t: State, w: nat)
    requires PoolInv(s) && w < |s.workers| && Working(s.workers[w])
    requires t.pool == s.pool && t.sem == s.sem && t.lock == s.lock && t.reactor == s.reactor && t.option == s.option
    requires |t.workers| == |s.workers| && t.workers == s.workers[w := t.workers[w]]
    requires Working(t.workers[w]) || t.workers[w].AtRelock?
    ensures PoolInv(t)
  {
    hide Sum;
    CountsAfter(s, w, t.workers[w]);
  }

  lemma EntryKeepsPool(s: State, w: nat, c: Choice)
    requires PoolInv(s) && w < |s.workers| && s.workers[w].InEntry? && WorkerNext(s, w, c).Some?
    ensures PoolInv(WorkerNext(s, w, c).value)
  {
    hide Sum;
    var t := WorkerNext(s, w, c).value;
    CountsAfter(s, w, t.workers[w]);
    assert t.workers == s.workers[w := t.workers[w]];
  }

  lemma FinishKeepsPool(s: State, w: nat, c: Choice)
    requires PoolInv(s) && w < |s.workers| && s.workers[w].InFinish? && WorkerNext(s, w, c).Some?
    ensures PoolInv(WorkerNext(s, w, c).value)
  {
    hide Sum;
    var t := WorkerNext(s, w, c).value;
    CountsAfter(s, w, t.workers[w]);
    assert t.workers == s.workers[w := t.workers[w]];
  }

  lemma WakeKeepsPool(s: State, w: nat, c: Choice)
    requires PoolInv(s) && w < |s.workers| && s.workers[w].AtWait? && WorkerNext(s, w, c).Some?
    ensures PoolInv(WorkerNext(s, w, c).value)
  {
    hide Sum;
    var t := WorkerNext(s, w, c).value;
    CountsAfter(s, w, t.workers[w]);
    assert t.workers == s.workers[w := t.workers[w]];
  }

  lemma AcquireKeepsPool(s: State, w: nat, c: Choice)
    requires PoolInv(s) && w < |s.workers| && WorkerNext(s, w, c).Some?
    requires s.workers[w].AtLock? || s.workers[w].AtRelock?
    ensures PoolInv(WorkerNext(s, w, c).value)
  {
    hide Sum, Enter, Finish, Close, Advance, Fill, Fits, RequestComplete, ParserInput, KeepsAlive, DoRecv;
    var t := WorkerNext(s, w, c).value;
    CountsAfter(s, w, t.workers[w]);
    assert t.workers == s.workers[w := t.workers[w]];
  }

  lemma ReleaseKeepsPool(s: State, w: nat, c: Choice)
    requires PoolInv(s) && w < |s.workers| && WorkerNext(s, w, c).Some?
    requires s.workers[w].LeaveExit? || s.workers[w].LeaveWork? || s.workers[w].LeaveLoop?
    ensures PoolInv(WorkerNext(s, w, c).value)
  {
    hide Sum, Enter, Finish, Close, Advance, Fill, Fits, RequestComplete, ParserInput, KeepsAlive, DoRecv;
    var t := WorkerNext(s, w, c).value;
    CountsAfter(s, w, t.workers[w]);
    assert t.workers == s.workers[w := t.workers[w]];
  }

  lemma WorkerKeepsPool(s: State, w: nat, c: Choice)
    requires PoolInv(s) && w < |s.workers| && WorkerNext(s, w, c).Some?
    ensures PoolInv(WorkerNext(s, w, c).value)
  {

    if Working(s.workers[w]) {
      WorkingFrame(s, w, c);
      WorkingKeepsPool(s, WorkerNext(s, w, c).value, w);
    } else if s.workers[w].InEntry? {
      EntryKeepsPool(s, w, c);
    } else if s.workers[w].InFinish? {
      FinishKeepsPool(s, w, c);
    } else if HoldsLock(s.workers[w]) {
      ReleaseKeepsPool(s, w, c);
    } else if s.workers[w].AtWait? {
      WakeKeepsPool(s, w, c);
    } else {
      AcquireKeepsPool(s, w, c);
    }
  }

  /** Outside add_work and thread_pool_destroy the reactor touches nothing of the pool. */
  predicate Quiet(r: Reactor) {
    r.Watch? || r.Select? || r.Accept? || r.Claim? || r.Reject? || r.NewTask? || r.DropFd? || r.DropSlot? ||
    r.Scan? || r.Dispatch? || r.Timeouts? || r.TimeoutFd? || r.TimeoutSlot?
  }

  lemma QuietFrame(s: State, c: Choice)
    requires Wf(s) && Quiet(s.reactor) && ReactorNext(s, c).Some?
    ensures var t := ReactorNext(s, c).value;
            && t.pool == s.pool && t.sem == s.sem && t.lock == s.lock && t.workers == s.workers
            && t.option == s.option && t.added == s.added && t.finished == s.finished
            && (t.reactor.AddLock? ==> t.reactor.task.id == |s.added|)
            && (Quiet(t.reactor) || t.reactor.AddLock? || t.reactor.Spin? || (t.reactor.MarkLock? && s.option == DrainAndDrop))
  {
  }

  lemma QuietKeepsPool(s: State, t: State)
    requires PoolInv(s) && Quiet(s.reactor)
    requires t.pool == s.pool && t.sem == s.sem && t.lock == s.lock && t.workers == s.workers && t.option == s.option
    requires Quiet(t.reactor) || t.reactor.AddLock? || t.reactor.Spin? || (t.reactor.MarkLock? && s.option == DrainAndDrop)
    ensures PoolInv(t)
  {
  }

  lemma AddKeepsPool(s: State, c: Choice)
    requires PoolInv(s) && ReactorNext(s, c).Some?
    requires s.reactor.AddPush? || s.reactor.AddPost?
    ensures PoolInv(ReactorNext(s, c).value)
  {
    hide Sum;
  }

  lemma AddLockKeepsPool(s: State, c: Choice)
    requires PoolInv(s) && ReactorNext(s, c).Some?
    requires s.reactor.AddLock? || s.reactor.AddUnlock?
    ensures PoolInv(ReactorNext(s, c).value)
  {
    hide Sum;
  }

  lemma MarkKeepsPool(s: State, c: Choice)
    requires PoolInv(s) && ReactorNext(s, c).Some?
    requires s.reactor.Mark?
    ensures PoolInv(ReactorNext(s, c).value)
  {
    hide Sum;
    SumAtMost(s.workers, Waiting, 1);
  }

  lemma MarkLockKeepsPool(s: State, c: Choice)
    requires PoolInv(s) && ReactorNext(s, c).Some?
    requires s.reactor.Spin? || s.reactor.MarkLock?
    ensures PoolInv(ReactorNext(s, c).value)
  {
    hide Sum;
    SumAtMost(s.workers, Waiting, 1);
  }

  lemma PostKeepsPool(s: State, c: Choice)
    requires PoolInv(s) && ReactorNext(s, c).Some?
    requires s.reactor.MarkUnlock? || s.reactor.Post?
    ensures PoolInv(ReactorNext(s, c).value)
  {
    hide Sum;
  }

  lemma JoinKeepsPool(s: State, c: Choice)
    requires PoolInv(s) && ReactorNext(s, c).Some?
    requires s.reactor.Join? || s.reactor.Done?
    ensures PoolInv(ReactorNext(s, c).value)
  {
    hide Sum;
  }

  lemma ReactorKeepsPool(s: State, c: Choice)
    requires PoolInv(s) && ReactorNext(s, c).Some?
    ensures PoolInv(ReactorNext(s, c).value)
  {
    hide ReactorNext, LockInv, CellsInv, ExitInv, WorkInv, SoftInv;
    var r := s.reactor;
    if Quiet(r) {
      QuietFrame(s, c);
      QuietKeepsPool(s, ReactorNext(s, c).value);
    } else if r.Spin? || r.MarkLock? {
      MarkLockKeepsPool(s, c);
    } else if r.Mark? {
      MarkKeepsPool(s, c);
    } else if r.MarkUnlock? || r.Post? {
      PostKeepsPool(s, c);
    } else if r.Join? || r.Done? {
      JoinKeepsPool(s, c);
    } else if r.AddLock? || r.AddUnlock? {
      AddLockKeepsPool(s, c);
    } else {
      AddKeepsPool(s, c);
    }
  }
}
