/** What happens to the tasks: they are popped in the order they were added, each is
  * executed by one worker and only once, and none is lost.
  */
module ServerTasks {
  import opened Options
  import opened Framing
  import opened HttpRequest
  import opened Pool
  import opened Server
  import opened ServerPool
  import opened Counting

  /** The worker has popped a task and not yet freed it. */
  predicate HasTask(w: Worker) {
    w.LeaveWork? || Working(w)
  }

  function TaskOf(w: Worker): Task
    requires HasTask(w)
  {
    w.task
  }

  predicate Executes(w: Worker, id: nat) {
    HasTask(w) && TaskOf(w).id == id
  }

  ghost predicate InExecution(s: State, id: nat) {
    exists w :: 0 <= w < |s.workers| && Executes(s.workers[w], id)
  }

  function Popped(s: State): int {
    |s.added| - |s.pool.queue|
  }

  predicate NoDuplicates<T(==)>(xs: seq<T>) {
    forall i, j :: 0 <= i < j < |xs| ==> xs[i] != xs[j]
  }

  /** The queue is the tail of the history of added tasks. */
  predicate QueueInv(s: State) {
    && (forall k :: 0 <= k < |s.added| ==> s.added[k].id == k)
    && |s.pool.queue| <= |s.added|
    && s.pool.queue == s.added[Popped(s)..]
    && (s.reactor.AddLock? || s.reactor.AddPush? ==> s.reactor.task.id == |s.added|)
  }

  predicate HandsInv(s: State) {
    && (forall w :: 0 <= w < |s.workers| && HasTask(s.workers[w]) ==>
          TaskOf(s.workers[w]).id < Popped(s) && TaskOf(s.workers[w]) == s.added[TaskOf(s.workers[w]).id])
    && (forall v, w :: 0 <= v < w < |s.workers| && HasTask(s.workers[v]) && HasTask(s.workers[w]) ==>
          TaskOf(s.workers[v]).id != TaskOf(s.workers[w]).id)
  }

  predicate FinishedInv(s: State) {
    && NoDuplicates(s.finished)
    && (forall k :: k in s.finished ==> k < Popped(s))
    && (forall w :: 0 <= w < |s.workers| && HasTask(s.workers[w]) ==> TaskOf(s.workers[w]).id !in s.finished)
  }

  ghost predicate NoneLost(s: State) {
    forall k: nat :: k < Popped(s) ==> k in s.finished || InExecution(s, k)
  }

  ghost predicate TaskInv(s: State) {
    QueueInv(s) && HandsInv(s) && FinishedInv(s) && NoneLost(s)
  }

  lemma InitTasks(n: nat, option: DestroyOption)
    requires n > 0
    ensures TaskInv(Init(n, option))
  {
  }

  lemma WorkingKeepsTask(s: State, w: nat, c: Choice)
    requires Wf(s) && w < |s.workers| && WorkerNext(s, w, c).Some?
    requires Working(s.workers[w]) && !s.workers[w].AtFree?
    ensures var t := WorkerNext(s, w, c).value;
            t.finished == s.finished && HasTask(t.workers[w]) && TaskOf(t.workers[w]) == TaskOf(s.workers[w])
  {
    hide Close, Advance, Fill, Fits, RequestComplete, ParserInput, KeepsAlive;
  }

  /** All worker steps except popping and freeing keep the worker's task. */
  lemma HandsFrame(s: State, w: nat, c: Choice)
    requires Wf(s) && w < |s.workers| && WorkerNext(s, w, c).Some?
    requires !s.workers[w].LeaveNull? && !s.workers[w].InEntry? && !s.workers[w].AtFree?
    ensures var t := WorkerNext(s, w, c).value;
            && t.pool.queue == s.pool.queue && t.reactor == s.reactor
            && t.added == s.added && t.finished == s.finished
            && |t.workers| == |s.workers| && t.workers == s.workers[w := t.workers[w]]
            && HasTask(t.workers[w]) == HasTask(s.workers[w])
            && (HasTask(s.workers[w]) ==> TaskOf(t.workers[w]) == TaskOf(s.workers[w]))
  {
    if Working(s.workers[w]) {
      hide WorkerNext;
      WorkingFrame(s, w, c);
      WorkingKeepsTask(s, w, c);
    } else {
      hide DoRecv, Close, Advance, Fill, Fits, RequestComplete, ParserInput, KeepsAlive;
    }
  }

  lemma KeptTaskKeepsTasks(s: State, t: State, w: nat)
    requires TaskInv(s) && w < |s.workers|
    requires t.pool.queue == s.pool.queue && t.reactor == s.reactor && t.added == s.added && t.finished == s.finished
    requires |t.workers| == |s.workers| && t.workers == s.workers[w := t.workers[w]]
    requires HasTask(t.workers[w]) == HasTask(s.workers[w])
    requires HasTask(s.workers[w]) ==> TaskOf(t.workers[w]) == TaskOf(s.workers[w])
    ensures TaskInv(t)
  {
    hide HasTask, TaskOf;
    forall k: nat | k < Popped(t)
      ensures k in t.finished || InExecution(t, k)
    {
      if k !in s.finished {
        var v :| 0 <= v < |s.workers| && Executes(s.workers[v], k);
        assert Executes(t.workers[v], k);
      }
    }
  }

  lemma PopKeepsTasks(s: State, w: nat, c: Choice)
    requires PoolInv(s) && TaskInv(s) && w < |s.workers| && s.workers[w].InEntry? && WorkerNext(s, w, c).Some?
    ensures TaskInv(WorkerNext(s, w, c).value)
  {
    var t := WorkerNext(s, w, c).value;
    assert t.workers == s.workers[w := t.workers[w]];
    EntryOutcome(s, w, c);
    hide WorkerNext, PoolInv;
    forall k: nat | k < Popped(t)
      ensures k in t.finished || InExecution(t, k)
    {
      if k == Popped(s) {
        assert Executes(t.workers[w], k);
      } else if k !in s.finished {
        var v :| 0 <= v < |s.workers| && Executes(s.workers[v], k);
        assert Executes(t.workers[v], k);
      }
    }
  }

  /** A woken worker that is not terminated pops the first task of a queue that is not empty. */
  lemma EntryOutcome(s: State, w: nat, c: Choice)
    requires PoolInv(s) && w < |s.workers| && s.workers[w].InEntry? && WorkerNext(s, w, c).Some?
    ensures var t := WorkerNext(s, w, c).value;
            && t.reactor == s.reactor && t.added == s.added && t.finished == s.finished
            && |t.workers| == |s.workers| && t.workers == s.workers[w := t.workers[w]]
            && ((s.pool.cells[w] == Terminated && t.pool == s.pool && t.workers[w] == LeaveExit)
                || (s.pool.cells[w] == Free && s.pool.queue != []
                    && t.pool.queue == s.pool.queue[1..] && t.workers[w] == LeaveWork(s.pool.queue[0])))
  {
    hide Sum;
    CountsAfter(s, w, AtWait);
  }

  lemma FreeKeepsTasks(s: State, w: nat, c: Choice)
    requires Wf(s) && TaskInv(s) && w < |s.workers| && s.workers[w].AtFree? && WorkerNext(s, w, c).Some?
    ensures TaskInv(WorkerNext(s, w, c).value)
  {
    var t := WorkerNext(s, w, c).value;
    assert t.workers == s.workers[w := AtRelock];
    var id := s.workers[w].task.id;
    assert t.finished == s.finished + [id] && t.pool == s.pool && t.added == s.added && t.reactor == s.reactor;
    hide WorkerNext;
    forall k: nat | k < Popped(t)
      ensures k in t.finished || InExecution(t, k)
    {
      if k != id && k !in s.finished {
        var v :| 0 <= v < |s.workers| && Executes(s.workers[v], k);
        assert Executes(t.workers[v], k);
      }
    }
  }

  lemma WorkerKeepsTasks(s: State, w: nat, c: Choice)
    requires PoolInv(s) && TaskInv(s) && w < |s.workers| && WorkerNext(s, w, c).Some?
    ensures TaskInv(WorkerNext(s, w, c).value)
  {
    hide TaskInv, WorkerNext;
    if s.workers[w].InEntry? {
      PopKeepsTasks(s, w, c);
    } else if s.workers[w].AtFree? {
      FreeKeepsTasks(s, w, c);
    } else {
      HandsFrame(s, w, c);
      KeptTaskKeepsTasks(s, WorkerNext(s, w, c).value, w);
    }
  }

  lemma ReactorTaskFrame(s: State, c: Choice)
    requires Wf(s) && ReactorNext(s, c).Some?
    ensures var t := ReactorNext(s, c).value;
            && t.workers == s.workers && t.finished == s.finished
            && (s.reactor.AddPush? ==>
                  && t.pool.queue == s.pool.queue + [s.reactor.task] && t.added == s.added + [s.reactor.task]
                  && t.reactor.AddPost?)
            && (!s.reactor.AddPush? ==> t.pool.queue == s.pool.queue && t.added == s.added)
            && (t.reactor.AddLock? ==> t.reactor.task.id == |s.added|)
            && (t.reactor.AddPush? ==> s.reactor.AddLock? && t.reactor.task == s.reactor.task)
  {
    if Quiet(s.reactor) {
      hide ReactorNext;
      QuietFrame(s, c);
    }
  }

  lemma ReactorKeepsTasks(s: State, c: Choice)
    requires Wf(s) && TaskInv(s) && ReactorNext(s, c).Some?
    ensures TaskInv(ReactorNext(s, c).value)
  {
    hide ReactorNext, Wf, HasTask, TaskOf;
    ReactorTaskFrame(s, c);
    var t := ReactorNext(s, c).value;
    assert Popped(t) == Popped(s);
    forall k: nat | k < Popped(t)
      ensures k in t.finished || InExecution(t, k)
    {
      if k !in s.finished {
        var v :| 0 <= v < |s.workers| && Executes(s.workers[v], k);
        assert Executes(t.workers[v], k);
      }
    }
  }

  /** Shutdown is complete: when thread_pool_destroy returns, every worker has exited; the
    * tasks executed are exactly the popped ones, each executed once, and they are a prefix
    * of the added ones; the rest is what is left in the queue; and a SOFT destroy leaves
    * nothing. */
  lemma ShutdownIsComplete(s: State)
    requires PoolInv(s) && TaskInv(s) && s.reactor.Done?
    ensures forall w :: 0 <= w < |s.workers| ==> s.workers[w].Exited?
    ensures forall k: nat :: k in s.finished <==> k < Popped(s)
    ensures NoDuplicates(s.finished)
    ensures s.pool.queue == s.added[Popped(s)..]
    ensures s.option == Soft ==> Popped(s) == |s.added|
  {
    forall k: nat | k < Popped(s)
      ensures k in s.finished
    {
      assert !InExecution(s, k);
    }
  }
}
