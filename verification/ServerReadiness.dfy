/** Readiness is reported by descriptor number.  Between the call of select and the scan of
  * its result, descriptors may be closed and their numbers given to new connections.
  */
module ServerReadiness {
  import opened Options
  import opened Framing
  import opened Pool
  import opened Server
  import opened ServerPool
  import opened ServerTasks
  import opened ServerSlots
  import opened ServerConnections

  function BackOf(r: Reactor): Option<Back> {
    match r
    case DropFd(_, back) => Some(back)
    case DropSlot(_, back) => Some(back)
    case AddLock(_, back) => Some(back)
    case AddPush(_, back) => Some(back)
    case AddPost(back) => Some(back)
    case AddUnlock(back) => Some(back)
    case _ => None
  }

  /** From building the select set until the last new connection is accepted. */
  predicate BeforeScan(r: Reactor) {
    r.Watch? || r.Select? || r.Accept? || Claiming(r) || r.NewTask? || BackOf(r) == Some(ToAccept)
  }

  predicate Scanning(r: Reactor) {
    r.Scan? || r.Dispatch? || (BackOf(r).Some? && BackOf(r).value.ToScan?)
  }

  predicate WatchInv(s: State) {
    && s.ready <= s.watched.Keys
    && (BeforeScan(s.reactor) ==> forall fd :: fd in s.watched ==>
          var e := s.watched[fd];
          Idle(s.slots[e.slot]) && s.slots[e.slot].fd == fd && s.slots[e.slot].cid == e.cid)
    && (Scanning(s.reactor) ==> forall fd :: fd in s.watched && fd in s.net.open ==>
          s.net.open[fd] == s.watched[fd].cid)
  }

  lemma InitWatch(n: nat, option: DestroyOption)
    requires n > 0
    ensures WatchInv(Init(n, option))
  {
  }

  lemma WorkerKeepsWatch(s: State, own: Owners, w: nat, c: Choice)
    requires Wf(s) && SlotInv(s, own) && WatchInv(s) && w < |s.workers| && WorkerNext(s, w, c).Some?
    ensures WatchInv(WorkerNext(s, w, c).value)
  {
    hide WorkerNext, Scanning, BeforeScan;
    if Working(s.workers[w]) {
      WorkingFrame(s, w, c);
      WorkingEffect(s, w, c);
      WorkingHold(s, w, c);
      if Unreleased(s.workers[w]) {
        WorkerOwns(s, own, w);
      } else {
        FreeingTouchesNothing(s, w, c);
      }
    } else {
      SectionFrame(s, w, c);
    }
  }

  lemma ReactorWatchEffect(s: State, c: Choice)
    requires Wf(s) && ReactorNext(s, c).Some?
    ensures var t := ReactorNext(s, c).value;
            match s.reactor
            case Watch(i) =>
              && t.ready == s.ready && t.net == s.net
              && t.watched == (if i < MAX_CONNS && Idle(s.slots[i]) then s.watched[s.slots[i].fd := Watched(i, s.slots[i].cid)]
                               else s.watched)
            case Select => t.watched == s.watched && t.net == s.net && (t.ready == s.ready || t.ready <= s.watched.Keys)
            case Timeouts(_, _) =>
              if t.reactor.Watch? then t.watched == map[] && t.ready == {}
              else t.watched == s.watched && t.ready == s.ready
            case _ => t.watched == s.watched && t.ready == s.ready
  {
    hide Close, AddWork, Terminate;
  }

  /** The phases of the reactor follow each other. */
  lemma AcceptingPhase(s: State, c: Choice)
    requires Wf(s) && ReactorNext(s, c).Some? && BeforeScan(ReactorNext(s, c).value.reactor)
    ensures BeforeScan(s.reactor) || (s.reactor.Timeouts? && ReactorNext(s, c).value.reactor.Watch?)
  {
    hide Close, AddWork, Terminate, SetSlot;
  }

  lemma ScanningPhase(s: State, c: Choice)
    requires Wf(s) && ReactorNext(s, c).Some? && Scanning(ReactorNext(s, c).value.reactor)
    ensures Scanning(s.reactor) || s.reactor.Select? || s.reactor.Accept?
  {
    hide Close, AddWork, Terminate, SetSlot;
  }

  lemma IdleIsOpen(s: State, own: Owners, i: SlotIndex)
    requires SlotInv(s, own) && ConnInv(s, own) && Idle(s.slots[i]) && !s.reactor.TimeoutSlot?
    ensures s.slots[i].fd in s.net.open && s.net.open[s.slots[i].fd] == s.slots[i].cid
  {
    assert own[i] == None;
    assert s.reactor.DropSlot? ==> Holds(s, HReactor, s.reactor.slot);
    assert Live(s, own, i);
  }

  lemma ReactorKeepsWatch(s: State, own: Owners, c: Choice)
    requires Wf(s) && SlotInv(s, own) && ConnInv(s, own) && WatchInv(s) && ReactorNext(s, c).Some?
    ensures WatchInv(ReactorNext(s, c).value)
  {
    var t := ReactorNext(s, c).value;
    ReactorWatchEffect(s, c);
    if BeforeScan(t.reactor) {
      AcceptingPhase(s, c);
    } else if Scanning(t.reactor) {
      ScanningPhase(s, c);
    }
    ReactorSlotEffect(s, c);
    ReactorNetEffect(s, c);
    hide ReactorNext;
    if BeforeScan(t.reactor) {
      assert s.reactor.DropSlot? ==> Holds(s, HReactor, s.reactor.slot);
    }
    forall fd | Scanning(t.reactor) && fd in t.watched && fd in t.net.open
      ensures t.net.open[fd] == t.watched[fd].cid
    {
      if s.reactor.Select? || s.reactor.Accept? {
        IdleIsOpen(s, own, s.watched[fd].slot);
      }
    }
  }

  // ------------------------------------------------------------------- theorems

  /** Whatever descriptor the reactor puts into the select set, dispatches, or closes is that
    * of the slot's own connection; and a slot is dispatched only if readiness was reported
    * for that very connection. */
  lemma ReactorNeverMistakesConnections(s: State, own: Owners)
    requires SlotInv(s, own) && ConnInv(s, own) && WatchInv(s)
    ensures s.reactor.Watch? && s.reactor.i < MAX_CONNS && Idle(s.slots[s.reactor.i]) ==>
              var slot := s.slots[s.reactor.i];
              slot.fd in s.net.open && s.net.open[slot.fd] == slot.cid
    ensures s.reactor.Scan? && s.reactor.i < MAX_CONNS && Idle(s.slots[s.reactor.i]) && s.slots[s.reactor.i].fd in s.ready ==>
              var slot := s.slots[s.reactor.i];
              && slot.fd in s.net.open && s.net.open[slot.fd] == slot.cid
              && slot.fd in s.watched && s.watched[slot.fd].cid == slot.cid
    ensures s.reactor.DropFd? || s.reactor.TimeoutFd? ==>
              var slot := s.slots[s.reactor.slot];
              slot.active && slot.fd in s.net.open && s.net.open[slot.fd] == slot.cid
    ensures s.reactor.Reject? ==> s.reactor.fd in s.net.open && s.net.open[s.reactor.fd] == s.reactor.cid
  {
    if s.reactor.DropFd? {
      assert Holds(s, HReactor, s.reactor.slot);
      assert Live(s, own, s.reactor.slot);
    } else if s.reactor.TimeoutFd? {
      IdleIsOpen(s, own, s.reactor.slot);
    } else if (s.reactor.Watch? || s.reactor.Scan?) && s.reactor.i < MAX_CONNS && Idle(s.slots[s.reactor.i]) {
      IdleIsOpen(s, own, s.reactor.i);
    }
  }
}
