/** thread_pool_destroy terminates, on every interleaving. */
module ServerShutdown {
  import opened Options
  import opened Framing
  import opened HttpRequest
  import opened Pool
  import opened Server
  import opened Counting
  import opened ServerPool
  import opened ServerTasks
  import opened ServerSlots
  import opened ServerConnections
  import opened ServerReadiness
  import opened ServerBuffers
  import opened ServerSafety

  /** The reactor has called thread_pool_destroy. */
  predicate ShuttingDown(r: Reactor) {
    r.Spin? || r.MarkLock? || r.Mark? || r.MarkUnlock? || r.Post? || r.Join? || r.Done?
  }

  /** How far a worker is from leaving its loop, if it gets no further task. */
  function Rank(w: Worker): nat {
    match w
    case LeaveWork(_) => 17
    case AtRecv(_) => 16
    case GotBytes(_, _) => 15
    case Decide(_) => 14
    case Serve(_) => 13
    case Reset(_, _) => 12
    case KeepAliveTest(_, _) => 11
    case Touch(_) => 10
    case CloseFd(_) => 10
    case ClearBusy(_) => 9
    case ClearActive(_) => 9
    case AtFree(_) => 8
    case LeaveNull => 8
    case AtRelock => 7
    case InFinish => 6
    case LeaveLoop => 5
    case LeaveNoWork => 5
    case AtWait => 4
    case AtLock => 3
    case InEntry => 2
    case LeaveExit => 1
    case Exited => 0
  }

  function ReactorRank(r: Reactor, n: nat): int {
    match r
    case Spin => 3 * n + 6
    case MarkLock => 3 * n + 5
    case Mark(i) => 3 * n + 4 - i
    case MarkUnlock => 2 * n + 3
    case Post(i) => 2 * n + 2 - i
    case Join(i) => n + 1 - i
    case _ => 0
  }

  /** Twenty steps for each queued task, which covers its execution, and the ranks. */
  function Measure(s: State): int {
    Sum(s.workers, Rank) + 20 * |s.pool.queue| + ReactorRank(s.reactor, |s.workers|)
  }

  /** The one step that may repeat: a SOFT destroy reads that there is work left. */
  predicate IdleSpin(s: State, st: Step) {
    st.ReactorStep? && s.reactor.Spin? && s.pool.availableWork > 0
  }

  lemma MeasureIsNatural(s: State)
    requires PoolInv(s)
    ensures Measure(s) >= 0
  {
    hide Sum;
  }

  lemma WorkingRankFalls(s: State, w: nat, c: Choice)
    requires Wf(s) && w < |s.workers| && Working(s.workers[w]) && WorkerNext(s, w, c).Some?
    ensures var t := WorkerNext(s, w, c).value;
            |t.workers| == |s.workers| && Rank(t.workers[w]) < Rank(s.workers[w])
  {
    hide Close, Advance, Fill, Fits, RequestComplete, ParserInput, KeepsAlive;
  }

  lemma SectionRankFalls(s: State, w: nat, c: Choice)
    requires PoolInv(s) && w < |s.workers| && !Working(s.workers[w]) && WorkerNext(s, w, c).Some?
    ensures var t := WorkerNext(s, w, c).value;
            && t.reactor == s.reactor && |t.workers| == |s.workers| && t.workers == s.workers[w := t.workers[w]]
            && Rank(t.workers[w]) + 20 * |t.pool.queue| < Rank(s.workers[w]) + 20 * |s.pool.queue|
  {
    hide CellsInv, ExitInv, SoftInv, Sum;
    if s.workers[w].InEntry? {
      EntryOutcome(s, w, c);
    } else {
      hide Enter, DoRecv;
    }
  }

  lemma WorkerLowersMeasure(s: State, w: nat, c: Choice)
    requires PoolInv(s) && w < |s.workers| && WorkerNext(s, w, c).Some?
    ensures var t := WorkerNext(s, w, c).value; t.reactor == s.reactor && Measure(t) < Measure(s)
  {
    var t := WorkerNext(s, w, c).value;
    assert Wf(s);
    hide WorkerNext, PoolInv;
    if Working(s.workers[w]) {
      WorkingFrame(s, w, c);
      WorkingRankFalls(s, w, c);
    } else {
      SectionRankFalls(s, w, c);
    }
    SumUpdate(s.workers, w, t.workers[w], Rank);
  }

  lemma ReactorLowersMeasure(s: State, c: Choice)
    requires PoolInv(s) && ShuttingDown(s.reactor) && ReactorNext(s, c).Some? && !IdleSpin(s, ReactorStep(c))
    ensures var t := ReactorNext(s, c).value; ShuttingDown(t.reactor) && Measure(t) < Measure(s)
  {
    hide Sum;
  }

  /** During shutdown every step but the idle spin lowers the measure. */
  lemma ShutdownStepsLowerMeasure(s: State, st: Step, t: State)
    requires Inv(s) && ShuttingDown(s.reactor) && CanStep(s, st, t)
    ensures ShuttingDown(t.reactor)
    ensures if IdleSpin(s, st) then t == s else Measure(t) < Measure(s)
  {
    if !IdleSpin(s, st) {
      hide Inv, PoolInv, WorkerNext, ReactorNext, Measure;
      assert PoolInv(s) by { InvIsPoolInv(s); }
      match st
      case WorkerStep(w, c) => WorkerLowersMeasure(s, w, c);
      case ReactorStep(c) => ReactorLowersMeasure(s, c);
    }
  }

  lemma InvIsPoolInv(s: State)
    requires Inv(s)
    ensures PoolInv(s)
  {
  }

  // ------------------------------------------------------------------- progress

  /** A worker between its critical sections is never blocked. */
  lemma WorkingCanStep(s: State, w: nat) returns (c: Choice)
    requires Inv(s) && w < |s.workers| && Working(s.workers[w])
    ensures WorkerNext(s, w, c).Some?
  {
    hide Close, Advance, RequestComplete, ParserInput, KeepsAlive;
    c := match s.workers[w]
         case AtRecv(_) => Recv(Gone)
         case Serve(_) => Handled
         case Touch(_) => Clock(0)
         case _ => Nothing;
    if s.workers[w].GotBytes? {
      var own: Owners :| OwnedInv(s, own);
      WorkerOwns(s, own, w);
      var i := s.workers[w].task.slot;
      assert BufferOk(s.slots[i], Uncounted(s, own, i));
    }
  }

  /** Neither is one that holds the lock, wants it while it is free, or waits on a positive
    * semaphore. */
  lemma UnblockedCanStep(s: State, w: nat) returns (c: Choice)
    requires Inv(s) && w < |s.workers| && !s.workers[w].Exited?
    requires s.workers[w].AtWait? ==> s.sem > 0
    requires s.workers[w].AtLock? || s.workers[w].AtRelock? ==> s.lock == Unlocked
    ensures WorkerNext(s, w, c).Some?
  {
    if Working(s.workers[w]) {
      c := WorkingCanStep(s, w);
    } else {
      hide Enter, Finish, DoRecv;
      c := Nothing;
    }
  }

  /** Some worker is not blocked, if the lock is free and the semaphore covers the waiters. */
  lemma SomeWorkerCanStep(s: State, w: nat) returns (st: Step)
    requires Inv(s) && w < |s.workers| && s.lock == Unlocked
    requires !s.workers[w].Exited? && (s.workers[w].AtWait? ==> s.sem > 0)
    ensures ValidStep(s, st) && Next(s, st).Some? && st.WorkerStep?
  {
    hide WorkerNext;
    var c := UnblockedCanStep(s, w);
    st := WorkerStep(w, c);
  }

  /** While a SOFT destroy spins, a worker with work to do is not blocked. */
  lemma SpinningCanStep(s: State) returns (st: Step)
    requires Inv(s) && s.reactor.Spin? && s.pool.availableWork > 0 && s.lock == Unlocked
    ensures ValidStep(s, st) && Next(s, st).Some? && st.WorkerStep?
  {
    hide Sum, Next;
    var w: nat := 0;
    if s.sem == 0 {
      w := SumWitness(s.workers, Woken);
    }
    st := SomeWorkerCanStep(s, w);
  }

  /** While thread_pool_destroy waits for a worker, that worker is not blocked. */
  lemma JoiningCanStep(s: State) returns (st: Step)
    requires Inv(s) && s.reactor.Join? && s.lock == Unlocked
    ensures ValidStep(s, st) && Next(s, st).Some? && !IdleSpin(s, st)
  {
    hide Sum, WorkerNext;
    var i := s.reactor.i;
    if i == |s.workers| || s.workers[i].Exited? {
      st := ReactorStep(Nothing);
    } else {
      SumAtLeast(s.workers, i, Waiting);
      st := SomeWorkerCanStep(s, i);
    }
  }

  /** Until thread_pool_destroy returns, some step other than the idle spin is possible. */
  lemma ShutdownIsNeverStuck(s: State) returns (st: Step)
    requires Inv(s) && ShuttingDown(s.reactor) && !s.reactor.Done?
    ensures ValidStep(s, st) && Next(s, st).Some? && !IdleSpin(s, st)
  {
    InvIsPoolInv(s);
    if s.lock.ByWorker? {
      hide WorkerNext;
      var c := UnblockedCanStep(s, s.lock.w);
      st := WorkerStep(s.lock.w, c);
    } else if s.reactor.Join? && s.lock == Unlocked {
      st := JoiningCanStep(s);
    } else if s.reactor.Spin? && s.pool.availableWork > 0 {
      st := SpinningCanStep(s);
    } else {
      hide Inv, Sum, WorkInv, CellsInv;
      st := ReactorStep(Nothing);
    }
  }

  // ------------------------------------------------------------------- theorems

  /** Once the TERMINATED flags are being set, the semaphore and the posts still to come are
    * enough for every worker that still waits. */
  lemma EveryWaiterIsWoken(s: State)
    requires Reachable(s) && Marked(s) > 0
    ensures s.sem + PostsLeft(s) >= Sum(s.workers, Waiting)
  {
    hide Sum, Reachable;
    ReachableStatesSatisfyInv(s);
  }

  /** The number of steps of a run other than idle spins. */
  function Progress(s: State, run: seq<Step>): nat
    decreases |run|
  {
    if run == [] || !ValidStep(s, run[0]) || Next(s, run[0]).None? then 0
    else (if IdleSpin(s, run[0]) then 0 else 1) + Progress(Next(s, run[0]).value, run[1..])
  }

  lemma {:induction false} ProgressIsBounded(s: State, run: seq<Step>, t: State)
    requires Inv(s) && ShuttingDown(s.reactor) && Reaches(s, run, t)
    ensures Inv(t) && ShuttingDown(t.reactor) && Progress(s, run) + Measure(t) <= Measure(s)
    decreases |run|
  {
    hide Inv, Next, Measure, IdleSpin;
    if run != [] {
      var u := Next(s, run[0]).value;
      StepKeepsInv(s, run[0], u);
      ShutdownStepsLowerMeasure(s, run[0], u);
      ProgressIsBounded(u, run[1..], t);
    }
  }

  /** thread_pool_destroy terminates: from any reachable state in which it was called, every
    * run makes at most Measure(s) steps besides reading that work is left, and until it has
    * returned some such step is possible.  No scheduler can prevent it from returning
    * other than by running only the spinning thread. */
  lemma ShutdownTerminates(s: State, run: seq<Step>, t: State)
    requires Reachable(s) && ShuttingDown(s.reactor) && Reaches(s, run, t)
    ensures Progress(s, run) <= Measure(s)
    ensures !t.reactor.Done? ==> exists st :: ValidStep(t, st) && Next(t, st).Some? && !IdleSpin(t, st)
  {
    hide Inv, Next, Measure, IdleSpin, Reachable, Reaches;
    ReachableStatesSatisfyInv(s);
    ProgressIsBounded(s, run, t);
    InvIsPoolInv(t);
    MeasureIsNatural(t);
    if !t.reactor.Done? {
      var st := ShutdownIsNeverStuck(t);
    }
  }

  lemma {:induction false} ShutdownCanFinish(s: State) returns (run: seq<Step>, t: State)
    requires Inv(s) && ShuttingDown(s.reactor)
    ensures Reaches(s, run, t) && t.reactor.Done? && Progress(s, run) == |run|
    decreases Measure(s)
  {
    hide Inv, Next, Measure;
    if s.reactor.Done? {
      run, t := [], s;
    } else {
      var st := ShutdownIsNeverStuck(s);
      var u := Next(s, st).value;
      StepKeepsInv(s, st, u);
      ShutdownStepsLowerMeasure(s, st, u);
      InvIsPoolInv(u);
      MeasureIsNatural(u);
      var rest;
      rest, t := ShutdownCanFinish(u);
      run := [st] + rest;
      assert run[1..] == rest;
    }
  }

  /** A run that makes as many steps other than idle spins as it can ends with
    * thread_pool_destroy having returned; and such a run exists. */
  lemma DestroyReturns(s: State)
    requires Reachable(s) && ShuttingDown(s.reactor)
    ensures exists run, t :: Reaches(s, run, t) && t.reactor.Done?
  {
    hide Inv, Reachable;
    ReachableStatesSatisfyInv(s);
    var run, t := ShutdownCanFinish(s);
  }
}
