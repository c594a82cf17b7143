/** What becomes of a connection that a worker or the reactor has in hand, whatever the others do
  * meanwhile.
  */
module ServerOutcomes {
  import opened Options
  import opened Framing
  import opened HttpRequest
  import opened Pool
  import opened Server
  import opened ServerPool
  import opened ServerTasks
  import opened ServerSlots
  import opened ServerConnections
  import opened ServerReadiness
  import opened ServerBuffers
  import opened ServerFraming
  import opened ServerSafety
  import opened ServerHistory
  import opened ServerPasses
  import opened ServerLeftovers

  // ----------------------------------------------------------- a worker that waits

  /** The run has no step of worker `w`. */
  predicate Without(run: seq<Step>, w: nat) {
    forall k :: 0 <= k < |run| ==> !(run[k].WorkerStep? && run[k].w == w)
  }

  lemma OthersKeepWorker(s: State, w: nat, st: Step, t: State)
    requires CanStep(s, st, t) && w < |s.workers| && !(st.WorkerStep? && st.w == w)
    ensures |t.workers| == |s.workers| && t.workers[w] == s.workers[w]
  {
    hide WorkerNext, ReactorNext;
    match st {
      case WorkerStep(v, c) =>
        if Working(s.workers[v]) {
          WorkingFrame(s, v, c);
        } else {
          SectionFrame(s, v, c);
        }
      case ReactorStep(c) => ReactorTaskFrame(s, c);
    }
  }

  /** While a worker that has not released its slot makes no step, it stays where it is, and its
    * slot as it is. */
  lemma {:induction false} HeldMeanwhile(s: State, run: seq<Step>, t: State, w: nat)
    requires Reachable(s) && Reaches(s, run, t) && Without(run, w)
    requires w < |s.workers| && Unreleased(s.workers[w])
    ensures Reachable(t) && |t.workers| == |s.workers| && t.workers[w] == s.workers[w]
    ensures t.slots[TaskOf(s.workers[w]).slot] == s.slots[TaskOf(s.workers[w]).slot]
    decreases |run|
  {
    hide Next, Reachable, Unreleased;
    if run != [] {
      var u := Next(s, run[0]).value;
      assert !(run[0].WorkerStep? && run[0].w == w);
      assert Without(run[1..], w) by { WithoutRest(run, w); }
      StepIsReachable(s, run[0]);
      OthersKeepWorker(s, w, run[0], u);
      OnlyTheWorkerTouchesItsSlot(s, w, run[0], u);
      HeldMeanwhile(u, run[1..], t, w);
    }
  }

  lemma WithoutRest(run: seq<Step>, w: nat)
    requires run != [] && Without(run, w)
    ensures Without(run[1..], w)
  {
  }

  /** The outcome of a receive. */
  lemma Receives(s: State, w: nat, result: RecvResult, t: State)
    requires CanStep(s, WorkerStep(w, Recv(result)), t) && s.workers[w].AtRecv?
    ensures |t.workers| == |s.workers|
    ensures result == Again ==> t == Go(s, w, ClearBusy(s.workers[w].task))
    ensures result == Gone ==> t == Go(s, w, CloseFd(s.workers[w].task))
  {
    hide Fill, Fits;
  }

  lemma Releases(s: State, w: nat, c: Choice)
    requires Wf(s) && w < |s.workers| && s.workers[w].ClearBusy?
    ensures var task := s.workers[w].task;
            WorkerNext(s, w, c) == Some(Go(SetSlot(s, task.slot, s.slots[task.slot].(busy := false)), w, AtFree(task)))
  {
  }

  lemma ClosesTask(s: State, w: nat, c: Choice)
    requires Wf(s) && w < |s.workers| && s.workers[w].CloseFd?
    ensures var task := s.workers[w].task;
            WorkerNext(s, w, c) == Some(Go(s.(net := Close(s.net, task.fd)), w, ClearActive(task)))
  {
    hide Close;
  }

  lemma FreesSlot(s: State, w: nat, c: Choice)
    requires Wf(s) && w < |s.workers| && s.workers[w].ClearActive?
    ensures var task := s.workers[w].task;
            WorkerNext(s, w, c) == Some(Go(SetSlot(s, task.slot, s.slots[task.slot].(active := false)), w, AtFree(task)))
  {
  }

  /** When recv finds no bytes yet, the connection stays: whatever the others do meanwhile, the
    * worker's next step is possible, and then the slot is idle and otherwise as it was, and the
    * descriptor still open for the same connection. */
  lemma AgainKeepsTheConnection(s: State, w: nat, s1: State, run: seq<Step>, t: State, c: Choice)
    requires Reachable(s) && CanStep(s, WorkerStep(w, Recv(Again)), s1) && s.workers[w].AtRecv?
    requires Reaches(s1, run, t) && Without(run, w)
    ensures ValidStep(t, WorkerStep(w, c)) && Next(t, WorkerStep(w, c)).Some?
    ensures var task, u := s.workers[w].task, Next(t, WorkerStep(w, c)).value;
            && |u.workers| == |s.workers| && u.workers[w] == AtFree(task)
            && u.slots[task.slot] == s.slots[task.slot].(busy := false) && Idle(u.slots[task.slot])
            && Denotes(u, task.fd, task.cid) && task.fd == u.slots[task.slot].fd && task.cid == u.slots[task.slot].cid
  {
    hide WorkerNext, Reachable, Reaches;
    var task := s.workers[w].task;
    StepIsReachable(s, WorkerStep(w, Recv(Again)));
    Receives(s, w, Again, s1);
    HeldMeanwhile(s1, run, t, w);
    ReachableIsWf(t);
    Releases(t, w, c);
    SlotsAreExclusive(t);
    assert Holds(t, HWorker(w), task.slot);
    DescriptorsAreNeverMistaken(t);
    HeldFd(t, w);
  }

  lemma ReachableIsWf(s: State)
    requires Reachable(s)
    ensures Wf(s)
  {
    hide Reachable;
    ReachableStatesSatisfyInv(s);
  }

  lemma HeldFd(s: State, w: nat)
    requires Reachable(s) && w < |s.workers| && Unreleased(s.workers[w])
    ensures TaskOf(s.workers[w]).fd == s.slots[TaskOf(s.workers[w]).slot].fd
  {
    hide Reachable;
    ReachableStatesSatisfyInv(s);
    hide PoolInv, TaskInv, SlotInv, WatchInv, BufferInv, LogInv, OpenInv, HomeInv, DistinctInv, NetInv;
  }

  /** When it finds the end of the stream or an error, the connection is closed: whatever the others
    * do meanwhile, the worker's next step is possible and closes it, and the one after that frees
    * its slot. */
  lemma GoneClosesTheConnection(s: State, w: nat, s1: State, run: seq<Step>, t: State, c: Choice)
    requires Reachable(s) && CanStep(s, WorkerStep(w, Recv(Gone)), s1) && s.workers[w].AtRecv?
    requires Reaches(s1, run, t) && Without(run, w)
    ensures ValidStep(t, WorkerStep(w, c)) && Next(t, WorkerStep(w, c)).Some?
    ensures var task, u := s.workers[w].task, Next(t, WorkerStep(w, c)).value;
            && |u.workers| == |s.workers| && u.workers[w] == ClearActive(task)
            && u.net.closed == t.net.closed + [task.cid] && u.slots[task.slot] == s.slots[task.slot]
  {
    hide WorkerNext, Reachable, Reaches;
    StepIsReachable(s, WorkerStep(w, Recv(Gone)));
    Receives(s, w, Gone, s1);
    HeldMeanwhile(s1, run, t, w);
    ReachableIsWf(t);
    ClosesTask(t, w, c);
    DescriptorsAreNeverMistaken(t);
  }

  /** A slot whose connection a worker has closed is freed by that worker's next step. */
  lemma ClosedSlotIsFreed(s: State, w: nat, run: seq<Step>, t: State, c: Choice)
    requires Reachable(s) && w < |s.workers| && s.workers[w].ClearActive? && Reaches(s, run, t) && Without(run, w)
    ensures ValidStep(t, WorkerStep(w, c)) && Next(t, WorkerStep(w, c)).Some?
    ensures var task, u := s.workers[w].task, Next(t, WorkerStep(w, c)).value;
            u.slots[task.slot] == s.slots[task.slot].(active := false)
  {
    hide WorkerNext, Reachable, Reaches;
    HeldMeanwhile(s, run, t, w);
    ReachableIsWf(t);
    FreesSlot(t, w, c);
  }

  // -------------------------------------------------------------------- a claim

  /** The claim for `cid` is still before or at slot `j`, which is free; or it is over. */
  predicate ClaimAhead(s: State, cid: int, j: SlotIndex) {
    && cid < s.net.accepted
    && (Claiming(s.reactor) && s.reactor.cid == cid ==> s.reactor.Claim? && s.reactor.i <= j && !s.slots[j].active)
  }

  lemma ClaimStepsOn(s: State, st: Step, t: State, cid: int, j: SlotIndex)
    requires CanStep(s, st, t) && ClaimAhead(s, cid, j)
    ensures ClaimAhead(t, cid, j)
  {
    hide WorkerNext, ReactorNext;
    match st {
      case WorkerStep(w, c) =>
        WorkerNetGrows(s, w, c);
        if Working(s.workers[w]) {
          WorkingFrame(s, w, c);
          WorkingEffect(s, w, c);
        } else {
          SectionFrame(s, w, c);
        }
      case ReactorStep(c) =>
        ReactorNetEffect(s, c);
        ReactorMoves(s, c);
    }
  }

  lemma WorkerNetGrows(s: State, w: nat, c: Choice)
    requires Wf(s) && w < |s.workers| && WorkerNext(s, w, c).Some?
    ensures WorkerNext(s, w, c).value.net.accepted == s.net.accepted
  {
    hide Enter, Finish, Advance, Fill, Fits, RequestComplete, ParserInput, KeepsAlive;
  }

  lemma {:induction false} ClaimRunsOn(s: State, run: seq<Step>, t: State, cid: int, j: SlotIndex)
    requires Reaches(s, run, t) && ClaimAhead(s, cid, j)
    ensures ClaimAhead(t, cid, j)
    decreases |run|
  {
    hide Next, ClaimAhead;
    if run != [] {
      ClaimStepsOn(s, run[0], Next(s, run[0]).value, cid, j);
      ClaimRunsOn(Next(s, run[0]).value, run[1..], t, cid, j);
    }
  }

  /** A new connection gets a slot if one is free: from the start of its claim, with slot `j` free,
    * no run reaches its refusal; and the step that ends the claim has taken a slot not behind
    * `j` for it. */
  lemma ClaimTakesAFreeSlot(s: State, run: seq<Step>, t: State, j: SlotIndex)
    requires Reachable(s) && s.reactor.Claim? && s.reactor.i == 0 && !s.slots[j].active && Reaches(s, run, t)
    ensures !(t.reactor.Reject? && t.reactor.cid == s.reactor.cid)
    ensures forall c, u :: t.reactor.Claim? && t.reactor.cid == s.reactor.cid && CanStep(t, ReactorStep(c), u) ==>
              || (u.reactor.Claim? && u.reactor.cid == s.reactor.cid && u.reactor.i == t.reactor.i + 1 <= j)
              || (u.reactor.NewTask? && u.reactor.slot == t.reactor.i <= j
                  && InUse(u.slots[t.reactor.i]) && u.slots[t.reactor.i].cid == s.reactor.cid)
  {
    hide Reachable, Reaches, WorkerNext, ReactorNext;
    ClaimIsAccepted(s);
    ClaimRunsOn(s, run, t, s.reactor.cid, j);
    forall c, u | t.reactor.Claim? && t.reactor.cid == s.reactor.cid && CanStep(t, ReactorStep(c), u)
      ensures || (u.reactor.Claim? && u.reactor.cid == s.reactor.cid && u.reactor.i == t.reactor.i + 1 <= j)
              || (u.reactor.NewTask? && u.reactor.slot == t.reactor.i <= j
                  && InUse(u.slots[t.reactor.i]) && u.slots[t.reactor.i].cid == s.reactor.cid)
    {
      ReactorMoves(t, c);
      ReactorSlotEffect(t, c);
    }
  }

  lemma ClaimIsAccepted(s: State)
    requires Reachable(s) && Claiming(s.reactor)
    ensures s.reactor.cid < s.net.accepted
  {
    hide Reachable;
    ReachableStatesSatisfyInv(s);
    hide PoolInv, TaskInv, SlotInv, WatchInv, BufferInv, LogInv, MatchInv, HomeInv, DistinctInv;
  }
}
