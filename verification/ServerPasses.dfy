/** The reactor's passes over the slots: what it has looked at, and what came of it. */
module ServerPasses {
  import opened Options
  import opened Framing
  import opened HttpRequest
  import opened Pool
  import opened Server
  import opened ServerPool
  import opened ServerTasks
  import opened ServerSlots
  import opened ServerConnections
  import opened ServerReadiness
  import opened ServerSafety
  import opened ServerShutdown
  import opened ServerHistory

  function ReturnTo(back: Back): Reactor {
    match back
    case ToAccept => Accept
    case ToScan(next) => Scan(next)
  }

  /** A look at a slot for a time-out: due at ten seconds. */
  predicate Due(slot: Slot, now: int) {
    Idle(slot) && now - slot.lastActivity >= 10
  }

  /** Where a step of the reactor goes from a pass over the slots. */
  lemma PassMoves(s: State, c: Choice)
    requires Wf(s) && ReactorNext(s, c).Some?
    ensures var t, r := ReactorNext(s, c).value, ReactorNext(s, c).value.reactor;
            match s.reactor
            case Watch(i) => r == if i >= MAX_CONNS then Select else Watch(i + 1)
            case Select =>
              || (c.SelectFailed? && ShuttingDown(r) && t.ready == s.ready && (r.Spin? ==> s.option == Soft))
              || (c.Selected? && c.ready <= s.watched.Keys && t.ready == c.ready
                  && r == if c.newConnection then Accept else Scan(0))
            case Accept => if c.NoneToAccept? then r == Scan(0) else r.Claim? && r.i == 0
            case Reject(_, _) => r == Accept
            case DropSlot(_, back) => r == ReturnTo(back)
            case AddPush(_, back) => r == AddPost(back)
            case AddPost(back) => r == AddUnlock(back)
            case AddUnlock(back) => r == ReturnTo(back)
            case Scan(i) =>
              if i >= MAX_CONNS then c.Clock? && r == Timeouts(0, c.now)
              else r == if Idle(s.slots[i]) && s.slots[i].fd in s.ready then Dispatch(i) else Scan(i + 1)
            case Timeouts(i, now) =>
              if i >= MAX_CONNS then r == Watch(0)
              else r == if Due(s.slots[i], now) then TimeoutFd(i, now) else Timeouts(i + 1, now)
            case TimeoutFd(i, now) => r == TimeoutSlot(i, now)
            case TimeoutSlot(i, now) => r == Timeouts(i + 1, now)
            case _ => ShuttingDown(s.reactor) ==> ShuttingDown(r)
  {
    hide Close, AddWork, Terminate;
  }

  predicate LooksAt(r: Reactor) {
    (r.Watch? || r.Claim? || r.Scan? || r.Timeouts?) && r.i < MAX_CONNS
  }

  lemma SlotIsSeen(s: State, h: History, c: Choice)
    requires Wf(s)
    ensures SeeReactor(s, h, c).looks == if LooksAt(s.reactor) then Looks(s, h, s.reactor.i).looks else h.looks
  {
    hide Since;
  }

  /** What select, accept and malloc leave on record of the present pass. */
  predicate PassRecord(s: State, h: History, c: Choice, k: History) {
    var selected := s.reactor.Select? && c.Selected?;
    && k.ready == (if selected then c.ready else h.ready)
    && k.added == (if selected then |s.added| else h.added)
    && k.pending == (if selected then c.newConnection else h.pending && !(s.reactor.Accept? && c.NoneToAccept?))
    && k.failed == (if selected then {}
                    else if (s.reactor.NewTask? || s.reactor.Dispatch?) && c.Malloc? && !c.ok
                    then h.failed + {s.slots[s.reactor.slot].cid} else h.failed)
  }

  lemma SelectIsSeen(s: State, h: History, c: Choice)
    requires Wf(s)
    ensures PassRecord(s, h, c, SeeReactor(s, h, c))
  {
    if s.reactor.NewTask? || s.reactor.Dispatch? {
      MallocIsSeen(s, h, c);
      AllocationIsSeen(s, h, s.reactor.slot, c);
    } else if s.reactor.Select? {
      SelectedIsSeen(s, h, c);
    } else {
      OthersAreSeen(s, h, c);
    }
    hide SeeReactor;
  }

  lemma AllocationIsSeen(s: State, h: History, i: SlotIndex, c: Choice)
    ensures var k := SeeMalloc(s, h, i, c);
            && k.ready == h.ready && k.added == h.added && k.pending == h.pending
            && k.pass == h.pass && k.error == h.error
            && k.failed == if c.Malloc? && !c.ok then h.failed + {s.slots[i].cid} else h.failed
  {
  }

  lemma SelectedIsSeen(s: State, h: History, c: Choice)
    requires s.reactor.Select?
    ensures PassRecord(s, h, c, SeeReactor(s, h, c))
  {
  }

  lemma OthersAreSeen(s: State, h: History, c: Choice)
    requires !s.reactor.NewTask? && !s.reactor.Dispatch? && !s.reactor.Select?
    ensures PassRecord(s, h, c, SeeReactor(s, h, c))
  {
    hide Since;
  }

  lemma ClockIsSeen(s: State, h: History, c: Choice)
    requires Wf(s)
    ensures var k, r := SeeReactor(s, h, c), s.reactor;
            && k.pass == (if r.Scan? && r.i >= MAX_CONNS && c.Clock? then c.now else h.pass)
            && k.error == (h.error || (r.Select? && c.SelectFailed?))
  {
    if s.reactor.NewTask? || s.reactor.Dispatch? {
      MallocIsSeen(s, h, c);
      AllocationIsSeen(s, h, s.reactor.slot, c);
    } else if LooksAt(s.reactor) {
      LookingIsSeen(s, h, c);
    } else {
      EndsAreSeen(s, h, c);
    }
    hide SeeReactor;
  }

  lemma LookingIsSeen(s: State, h: History, c: Choice)
    requires LooksAt(s.reactor)
    ensures var k := SeeReactor(s, h, c); k.pass == h.pass && k.error == h.error
  {
    hide Since;
  }

  lemma EndsAreSeen(s: State, h: History, c: Choice)
    requires !s.reactor.NewTask? && !s.reactor.Dispatch? && !LooksAt(s.reactor)
    ensures var k, r := SeeReactor(s, h, c), s.reactor;
            && k.pass == (if r.Scan? && r.i >= MAX_CONNS && c.Clock? then c.now else h.pass)
            && k.error == (h.error || (r.Select? && c.SelectFailed?))
  {
    hide Looks;
  }

  /** What a step of the reactor shows of the slots. */
  lemma PassSees(s: State, h: History, c: Choice)
    requires Wf(s)
    ensures var k, r := SeeReactor(s, h, c), s.reactor;
            && k.looks == (if LooksAt(r) then Looks(s, h, r.i).looks else h.looks)
            && k.pass == (if r.Scan? && r.i >= MAX_CONNS && c.Clock? then c.now else h.pass)
            && k.error == (h.error || (r.Select? && c.SelectFailed?))
            && PassRecord(s, h, c, k)
  {
    SlotIsSeen(s, h, c);
    SelectIsSeen(s, h, c);
    ClockIsSeen(s, h, c);
    hide SeeReactor, PassRecord;
  }

  /** The two records agree on the passes. */
  predicate SameRecord(h: History, k: History) {
    && k.looks == h.looks && k.pass == h.pass && k.ready == h.ready && k.added == h.added
    && k.error == h.error && k.pending == h.pending && k.failed == h.failed
  }

  /** A worker shows nothing of them. */
  lemma WorkerShowsNoPass(s: State, h: History, w: nat, c: Choice)
    requires w < |s.workers|
    ensures SameRecord(h, SeeWorker(s, h, w, c))
  {
    hide ParserInput;
  }

  // ------------------------------------------------------------------ the invariants

  /** Each of the first `n` slots was looked at, and is watched if it was idle. */
  predicate WatchPass(s: State, h: History, n: nat) {
    forall i: SlotIndex :: i < n ==>
      && i in h.looks
      && (Idle(h.looks[i].slot) ==>
            h.looks[i].slot.fd in s.watched && s.watched[h.looks[i].slot.fd] == Watched(i, h.looks[i].slot.cid))
  }

  predicate ClaimPass(h: History, n: nat) {
    forall i: SlotIndex :: i < n ==> i in h.looks && h.looks[i].slot.active
  }

  predicate ScanPass(h: History, n: nat) {
    forall i: SlotIndex :: i < n ==> i in h.looks
  }

  /** Each of the first `n` was looked at, and its connection is closed if it was idle and the
    * clock on record for it ten seconds back. */
  predicate TimeoutPass(s: State, h: History, n: nat) {
    forall i: SlotIndex :: i < n ==>
      && i in h.looks
      && (Idle(h.looks[i].slot) ==>
            && h.looks[i].since.Some?
            && (h.pass - h.looks[i].since.value >= 10 ==> h.looks[i].slot.cid in s.net.closed))
  }

  predicate LookInv(s: State, h: History) {
    match s.reactor
    case Watch(i) => i <= MAX_CONNS && WatchPass(s, h, i)
    case Select => WatchPass(s, h, MAX_CONNS)
    case Claim(i, _, _) => i <= MAX_CONNS && ClaimPass(h, i)
    case Reject(_, _) => ClaimPass(h, MAX_CONNS)
    case Timeouts(i, now) => i <= MAX_CONNS && now == h.pass && TimeoutPass(s, h, i)
    case TimeoutFd(i, now) =>
      && now == h.pass && TimeoutPass(s, h, i) && Due(s.slots[i], now)
      && i in h.looks && h.looks[i].slot == s.slots[i] && h.looks[i].since == Some(s.slots[i].lastActivity)
    case TimeoutSlot(i, now) => now == h.pass && TimeoutPass(s, h, i + 1)
    case _ => ScanIndex(s.reactor).Some? ==> ScanIndex(s.reactor).value <= MAX_CONNS && ScanPass(h, ScanIndex(s.reactor).value)
  }

  /** The first slot that the present scan has not yet looked at. */
  function ScanIndex(r: Reactor): Option<nat> {
    match r
    case Scan(i) => Some(i)
    case Dispatch(i) => Some(i + 1)
    case _ => if BackOf(r).Some? && BackOf(r).value.ToScan? then Some(BackOf(r).value.next) else None
  }

  /** Since select returned, a task for the connection was added, or could not be allocated. */
  ghost predicate Served(s: State, h: History, cid: int) {
    cid in h.failed || exists k :: h.added <= k < |s.added| && s.added[k].cid == cid
  }

  /** The reactor is about to add or allocate it. */
  predicate InScanHand(s: State, cid: int) {
    || (s.reactor.Dispatch? && s.slots[s.reactor.slot].cid == cid)
    || ((s.reactor.AddLock? || s.reactor.AddPush?) && s.reactor.task.cid == cid)
  }

  /** Ready connections that the scan has passed are served, and the others are still there. */
  ghost predicate ServeInv(s: State, h: History) {
    && h.added <= |s.added|
    && (forall fd :: fd in s.ready && fd in s.watched ==>
          var e := s.watched[fd];
          && (s.reactor.Timeouts? || s.reactor.TimeoutFd? || s.reactor.TimeoutSlot? ==> Served(s, h, e.cid))
          && (ScanIndex(s.reactor).Some? ==>
                if e.slot < ScanIndex(s.reactor).value then Served(s, h, e.cid) || InScanHand(s, e.cid)
                else Idle(s.slots[e.slot]) && s.slots[e.slot].fd == fd && s.slots[e.slot].cid == e.cid))
  }

  predicate PhaseInv(s: State, h: History) {
    && (h.pending ==> s.reactor.Accept? || Claiming(s.reactor) || s.reactor.NewTask? || BackOf(s.reactor) == Some(ToAccept))
    && (h.error <==> ShuttingDown(s.reactor))
    && (s.reactor.Watch? || s.reactor.Select? || ShuttingDown(s.reactor) || s.ready == h.ready)
    && (s.option == DrainAndDrop ==> !s.reactor.Spin?)
  }

  ghost predicate PassInv(s: State, h: History) {
    LookInv(s, h) && ServeInv(s, h) && PhaseInv(s, h)
  }

  lemma InitPasses(n: nat, option: DestroyOption)
    requires n > 0
    ensures PassInv(Init(n, option), NoHistory())
  {
  }

  // ------------------------------------------------------------------- worker steps

  /** Workers change nothing the passes are about: idle slots, the record of looks, the select
    * set; and connections stay closed. */
  lemma WorkerPassFrame(s: State, own: Owners, w: nat, c: Choice)
    requires Wf(s) && SlotInv(s, own) && w < |s.workers| && WorkerNext(s, w, c).Some?
    ensures var t := WorkerNext(s, w, c).value;
            && t.reactor == s.reactor && t.watched == s.watched && t.ready == s.ready && t.added == s.added
            && t.option == s.option && s.net.closed <= t.net.closed
            && (forall i: SlotIndex :: Idle(s.slots[i]) ==> t.slots[i] == s.slots[i])
            && (forall i: SlotIndex :: t.slots[i].cid == s.slots[i].cid)
  {
    hide WorkerNext, OwnerInv;
    if Working(s.workers[w]) {
      WorkingFrame(s, w, c);
      WorkingMoves(s, w, c);
      if s.workers[w].AtFree? {
        FreeingTouchesNothing(s, w, c);
        FreeingReadies(s, w, c);
      } else {
        WorkingEffect(s, w, c);
        WorkerOwns(s, own, w);
      }
    } else {
      SectionFrame(s, w, c);
      SectionKeepsOption(s, w, c);
    }
  }

  lemma FreeingReadies(s: State, w: nat, c: Choice)
    requires Wf(s) && w < |s.workers| && s.workers[w].AtFree? && WorkerNext(s, w, c).Some?
    ensures WorkerNext(s, w, c).value.watched == s.watched && WorkerNext(s, w, c).value.ready == s.ready
  {
  }

  lemma SectionKeepsOption(s: State, w: nat, c: Choice)
    requires Wf(s) && w < |s.workers| && !Working(s.workers[w]) && WorkerNext(s, w, c).Some?
    ensures WorkerNext(s, w, c).value.option == s.option
  {
    hide Enter, Finish, DoRecv, Close, Advance, Fill, Fits, RequestComplete, ParserInput, KeepsAlive;
  }

  lemma LooksCarryOver(s: State, t: State, h: History, k: History)
    requires LookInv(s, h) && SameRecord(h, k)
    requires t.reactor == s.reactor && t.watched == s.watched && s.net.closed <= t.net.closed
    requires s.reactor.TimeoutFd? ==> Idle(s.slots[s.reactor.slot]) && t.slots[s.reactor.slot] == s.slots[s.reactor.slot]
    ensures LookInv(t, k)
  {
  }

  lemma ServingCarriesOver(s: State, t: State, h: History, k: History)
    requires ServeInv(s, h) && SameRecord(h, k)
    requires t.reactor == s.reactor && t.watched == s.watched && t.ready == s.ready && t.added == s.added
    requires forall i: SlotIndex :: Idle(s.slots[i]) ==> t.slots[i] == s.slots[i]
    requires forall i: SlotIndex :: t.slots[i].cid == s.slots[i].cid
    ensures ServeInv(t, k)
  {
    forall cid: int
      ensures Served(s, h, cid) == Served(t, k, cid)
      ensures InScanHand(s, cid) == InScanHand(t, cid)
    {
    }
    hide Served, InScanHand;
  }

  lemma WorkerKeepsPasses(s: State, own: Owners, h: History, w: nat, c: Choice)
    requires Wf(s) && SlotInv(s, own) && PassInv(s, h) && w < |s.workers| && WorkerNext(s, w, c).Some?
    ensures PassInv(WorkerNext(s, w, c).value, SeeWorker(s, h, w, c))
  {
    WorkerPassFrame(s, own, w, c);
    WorkerShowsNoPass(s, h, w, c);
    hide WorkerNext, SeeWorker, SlotInv, ServeInv;
    LooksCarryOver(s, WorkerNext(s, w, c).value, h, SeeWorker(s, h, w, c));
    ServingCarriesOver(s, WorkerNext(s, w, c).value, h, SeeWorker(s, h, w, c));
    hide LookInv;
  }

  // ------------------------------------------------------------------ reactor steps

  lemma ReactorKeepsPhase(s: State, h: History, c: Choice)
    requires Wf(s) && PhaseInv(s, h) && ReactorNext(s, c).Some?
    ensures PhaseInv(ReactorNext(s, c).value, SeeReactor(s, h, c))
  {
    PassMoves(s, c);
    PassSees(s, h, c);
    PhaseMoves(s, c);
    ReactorWatchEffect(s, c);
    hide ReactorNext, SeeReactor;
  }

  lemma PhaseMoves(s: State, c: Choice)
    requires Wf(s) && ReactorNext(s, c).Some?
    ensures var t := ReactorNext(s, c).value;
            && t.option == s.option
            && (s.reactor.Watch? ==> t.reactor.Watch? || t.reactor.Select?)
            && (ShuttingDown(t.reactor) ==> ShuttingDown(s.reactor) || s.reactor.Select?)
            && (t.reactor.Spin? ==> s.reactor.Spin? || s.reactor.Select?)
            && (s.reactor.Claim? || s.reactor.NewTask? || BackOf(s.reactor) == Some(ToAccept) ==>
                  t.reactor.Accept? || Claiming(t.reactor) || t.reactor.NewTask? || BackOf(t.reactor) == Some(ToAccept))
  {
    hide Close, AddWork, Terminate;
  }

  /** Idle slots have different descriptors. */
  lemma IdleDescriptorsDiffer(s: State, own: Owners, i: SlotIndex, j: SlotIndex)
    requires SlotInv(s, own) && ConnInv(s, own) && Idle(s.slots[i]) && Idle(s.slots[j]) && !s.reactor.TimeoutSlot?
    ensures s.slots[i].fd == s.slots[j].fd ==> i == j
  {
    IdleIsOpen(s, own, i);
    IdleIsOpen(s, own, j);
    hide SlotInv, MatchInv, OpenInv, HomeInv, NetInv;
  }

  lemma WatchedIsIdle(s: State, fd: int)
    requires WatchInv(s) && BeforeScan(s.reactor) && fd in s.watched
    ensures Idle(s.slots[s.watched[fd].slot]) && s.slots[s.watched[fd].slot].fd == fd
  {
  }

  lemma WatchGoesOn(s: State, own: Owners, h: History, c: Choice)
    requires Wf(s) && SlotInv(s, own) && ConnInv(s, own) && WatchInv(s) && LookInv(s, h)
    requires s.reactor.Watch? && s.reactor.i < MAX_CONNS && ReactorNext(s, c).Some?
    ensures LookInv(ReactorNext(s, c).value, SeeReactor(s, h, c))
  {
    PassMoves(s, c);
    PassSees(s, h, c);
    ReactorWatchEffect(s, c);
    hide ReactorNext, SeeReactor, PassRecord, SlotInv, ConnInv, Since;
    forall k: SlotIndex | k < s.reactor.i && Idle(h.looks[k].slot) && Idle(s.slots[s.reactor.i])
      ensures h.looks[k].slot.fd != s.slots[s.reactor.i].fd
    {
      WatchedIsIdle(s, h.looks[k].slot.fd);
      IdleDescriptorsDiffer(s, own, k, s.reactor.i);
    }
  }

  lemma ClaimGoesOn(s: State, h: History, c: Choice)
    requires Wf(s) && LookInv(s, h) && Claiming(s.reactor) && ReactorNext(s, c).Some?
    ensures LookInv(ReactorNext(s, c).value, SeeReactor(s, h, c))
  {
    PassMoves(s, c);
    PassSees(s, h, c);
    ReactorMoves(s, c);
    hide ReactorNext, SeeReactor, PassRecord, Since;
  }

  lemma TimeoutGoesOn(s: State, own: Owners, h: History, c: Choice)
    requires Wf(s) && EventInv(s, own, h) && LookInv(s, h) && ReactorNext(s, c).Some?
    requires (s.reactor.Timeouts? && s.reactor.i < MAX_CONNS) || s.reactor.TimeoutSlot?
    ensures LookInv(ReactorNext(s, c).value, SeeReactor(s, h, c))
  {
    PassMoves(s, c);
    PassSees(s, h, c);
    ReactorSlotEffect(s, c);
    ReactorNetEffect(s, c);
    hide ReactorNext, SeeReactor, PassRecord, EventOk, Last;
    if s.reactor.Timeouts? {
      var slot := s.slots[s.reactor.i];
      assert slot.active ==> Since(h, slot.cid) == Some(slot.lastActivity);
      hide Since;
    }
  }

  lemma TimeoutCloses(s: State, own: Owners, h: History, c: Choice)
    requires Wf(s) && SlotInv(s, own) && ConnInv(s, own) && LookInv(s, h) && s.reactor.TimeoutFd? && ReactorNext(s, c).Some?
    ensures LookInv(ReactorNext(s, c).value, SeeReactor(s, h, c))
  {
    PassMoves(s, c);
    PassSees(s, h, c);
    ReactorNetEffect(s, c);
    IdleIsOpen(s, own, s.reactor.slot);
    hide ReactorNext, SeeReactor, PassRecord, SlotInv, ConnInv, Since;
  }

  lemma ScanGoesOn(s: State, h: History, c: Choice)
    requires Wf(s) && LookInv(s, h) && ReactorNext(s, c).Some?
    requires ScanIndex(s.reactor).Some?
    ensures LookInv(ReactorNext(s, c).value, SeeReactor(s, h, c))
  {
    PassMoves(s, c);
    PassSees(s, h, c);
    ReactorMoves(s, c);
    hide ReactorNext, SeeReactor, PassRecord, Since;
  }

  /** At the turns of the passes nothing is looked at. */
  lemma PassTurns(s: State, h: History, c: Choice)
    requires Wf(s) && LookInv(s, h) && ReactorNext(s, c).Some? && ScanIndex(s.reactor).None?
    requires s.reactor.Watch? || s.reactor.Timeouts? ==> s.reactor.i >= MAX_CONNS
    requires !Claiming(s.reactor) && !s.reactor.TimeoutFd? && !s.reactor.TimeoutSlot?
    ensures LookInv(ReactorNext(s, c).value, SeeReactor(s, h, c))
  {
    PassMoves(s, c);
    PassSees(s, h, c);
    ReactorMoves(s, c);
    if s.reactor.Watch? {
      ReactorWatchEffect(s, c);
      hide ReactorNext, SeeReactor, Looks, PassRecord;
    } else {
      TurnsLeadOut(s, c);
      TurnIsInv(ReactorNext(s, c).value, SeeReactor(s, h, c));
    }
    hide ReactorNext, SeeReactor, Looks, PassRecord;
  }

  /** The reactor is not in the middle of a pass. */
  predicate AtTurn(r: Reactor) {
    && (r.Watch? || r.Claim? ==> r.i == 0)
    && !r.Select? && !r.Reject? && !r.Timeouts? && !r.TimeoutFd? && !r.TimeoutSlot?
    && (ScanIndex(r).Some? ==> ScanIndex(r).value == 0)
  }

  lemma TurnIsInv(s: State, h: History)
    requires AtTurn(s.reactor)
    ensures LookInv(s, h)
  {
  }

  lemma TurnsLeadOut(s: State, c: Choice)
    requires Wf(s) && ReactorNext(s, c).Some? && ScanIndex(s.reactor).None?
    requires s.reactor.Timeouts? ==> s.reactor.i >= MAX_CONNS
    requires !s.reactor.Watch? && !Claiming(s.reactor) && !s.reactor.TimeoutFd? && !s.reactor.TimeoutSlot?
    ensures AtTurn(ReactorNext(s, c).value.reactor)
  {
    hide Close, AddWork, Terminate;
  }

  lemma ReactorKeepsLooks(s: State, own: Owners, h: History, c: Choice)
    requires Wf(s) && SlotInv(s, own) && ConnInv(s, own) && WatchInv(s) && EventInv(s, own, h) && LookInv(s, h)
    requires ReactorNext(s, c).Some?
    ensures LookInv(ReactorNext(s, c).value, SeeReactor(s, h, c))
  {
    hide ReactorNext, SeeReactor, SlotInv, ConnInv, WatchInv, EventInv, LookInv;
    var r := s.reactor;
    if r.Watch? && r.i < MAX_CONNS {
      WatchGoesOn(s, own, h, c);
    } else if Claiming(r) {
      ClaimGoesOn(s, h, c);
    } else if (r.Timeouts? && r.i < MAX_CONNS) || r.TimeoutSlot? {
      TimeoutGoesOn(s, own, h, c);
    } else if r.TimeoutFd? {
      TimeoutCloses(s, own, h, c);
    } else if ScanIndex(r).Some? {
      ScanGoesOn(s, h, c);
    } else {
      PassTurns(s, h, c);
    }
  }

  // -------------------------------------------------------------------- the scan serves

  /** A step of the scan or of add_work serves the connection in hand, and forgets none. */
  lemma ServesOn(s: State, h: History, c: Choice, cid: int)
    requires Wf(s) && ReactorNext(s, c).Some? && !s.reactor.Select? && h.added <= |s.added|
    requires Served(s, h, cid) || InScanHand(s, cid)
    ensures var t, k := ReactorNext(s, c).value, SeeReactor(s, h, c); Served(t, k, cid) || InScanHand(t, cid)
  {
    PassSees(s, h, c);
    ReactorTaskFrame(s, c);
    ReactorMoves(s, c);
    hide ReactorNext, SeeReactor;
    var t, k := ReactorNext(s, c).value, SeeReactor(s, h, c);
    if exists n :: h.added <= n < |s.added| && s.added[n].cid == cid {
      var n :| h.added <= n < |s.added| && s.added[n].cid == cid;
      assert t.added[n].cid == cid;
    } else if s.reactor.AddPush? && s.reactor.task.cid == cid {
      assert t.added[|s.added|].cid == cid;
    }
  }

  lemma HandIsInUse(s: State, own: Owners)
    requires SlotInv(s, own)
    ensures ReactorHand(s.reactor).Some? ==> InUse(s.slots[ReactorHand(s.reactor).value])
  {
    assert ReactorHand(s.reactor).Some? ==> Holds(s, HReactor, ReactorHand(s.reactor).value);
  }

  lemma ScanServes(s: State, own: Owners, h: History, c: Choice)
    requires Wf(s) && SlotInv(s, own) && ServeInv(s, h) && ReactorNext(s, c).Some? && ScanIndex(s.reactor).Some?
    ensures ServeInv(ReactorNext(s, c).value, SeeReactor(s, h, c))
  {
    PassMoves(s, c);
    PassSees(s, h, c);
    ReactorTaskFrame(s, c);
    ReactorMoves(s, c);
    ReactorSlotEffect(s, c);
    ReactorWatchEffect(s, c);
    HandIsInUse(s, own);
    hide ReactorNext, SeeReactor, Served, SlotInv;
    var t, k := ReactorNext(s, c).value, SeeReactor(s, h, c);
    forall fd | fd in s.ready && fd in s.watched && s.watched[fd].slot < ScanIndex(s.reactor).value
      ensures Served(t, k, s.watched[fd].cid) || InScanHand(t, s.watched[fd].cid)
    {
      ServesOn(s, h, c, s.watched[fd].cid);
    }
  }

  lemma TimeoutsServe(s: State, h: History, c: Choice)
    requires Wf(s) && ServeInv(s, h) && ReactorNext(s, c).Some?
    requires s.reactor.Timeouts? || s.reactor.TimeoutFd? || s.reactor.TimeoutSlot?
    ensures ServeInv(ReactorNext(s, c).value, SeeReactor(s, h, c))
  {
    PassMoves(s, c);
    PassSees(s, h, c);
    ReactorTaskFrame(s, c);
    ReactorWatchEffect(s, c);
    hide ReactorNext, SeeReactor, Served;
    var t, k := ReactorNext(s, c).value, SeeReactor(s, h, c);
    forall fd | fd in s.ready && fd in s.watched
      ensures Served(t, k, s.watched[fd].cid)
    {
      ServesOn(s, h, c, s.watched[fd].cid);
    }
  }

  lemma BeforeScanServes(s: State, h: History, c: Choice)
    requires Wf(s) && WatchInv(s) && ServeInv(s, h) && ReactorNext(s, c).Some? && ScanIndex(s.reactor).None?
    requires !s.reactor.Timeouts? && !s.reactor.TimeoutFd? && !s.reactor.TimeoutSlot?
    ensures ServeInv(ReactorNext(s, c).value, SeeReactor(s, h, c))
  {
    PassMoves(s, c);
    PassSees(s, h, c);
    ReactorTaskFrame(s, c);
    ReactorMoves(s, c);
    ReactorWatchEffect(s, c);
    ReactorSlotEffect(s, c);
    hide ReactorNext, SeeReactor, Served;
  }

  lemma ReactorKeepsPasses(s: State, own: Owners, h: History, c: Choice)
    requires Wf(s) && SlotInv(s, own) && ConnInv(s, own) && WatchInv(s) && EventInv(s, own, h) && PassInv(s, h)
    requires ReactorNext(s, c).Some?
    ensures PassInv(ReactorNext(s, c).value, SeeReactor(s, h, c))
  {
    hide ReactorNext, SeeReactor, SlotInv, ConnInv, WatchInv, EventInv, LookInv, ServeInv, PhaseInv;
    ReactorKeepsPhase(s, h, c);
    ReactorKeepsLooks(s, own, h, c);
    if ScanIndex(s.reactor).Some? {
      ScanServes(s, own, h, c);
    } else if s.reactor.Timeouts? || s.reactor.TimeoutFd? || s.reactor.TimeoutSlot? {
      TimeoutsServe(s, h, c);
    } else {
      BeforeScanServes(s, h, c);
    }
  }
}
