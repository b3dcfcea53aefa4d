/**
 That a request can always get further: the bottom half can be run until it completes a listed
 request with a result, and any request whose cancel has not timed out can still be brought to its
 release, whatever state the other requests and actors are in.
 */
module ToolgateProgress {
  import opened ToolgateProtocol

  // ----- The wakeup arrives -----

  // Without the host, without an interrupt that no completion owes, and without the requester's own
  // help, the bottom half can always be run until it completes, or resubmits, a listed request that
  // the host has answered.

  /** The bottom half still has to deal with the request, and can. */
  predicate Due(s: State, id: Id) {
    && id in s.reqs && s.reqs[id].status != Pending && s.reqs[id].done == 0
    && (id in s.listed || id in WorkerHeld(s.worker))
  }

  predicate Scanning(w: Worker) {
    w.WScanning? || w.WResubmitting?
  }

  /** How far the bottom half is from completing the request. */
  function Stage(s: State, id: Id): nat {
    var mine := id in WorkerHeld(s.worker) || (Scanning(s.worker) && id in s.worker.todo);
    if s.worker.WCompleting? then (if mine then 0 else 6)
    else if Scanning(s.worker) then (if mine then 1 else 7)
    else if s.worker.WStarting? then (if s.lock.Unlocked? then 2 else 3)
    else if s.work then 4 else 5
  }

  function Left(s: State): nat {
    if s.worker.WCompleting? then |s.worker.taken|
    else if s.worker.WScanning? then 2 * |s.worker.todo|
    else if s.worker.WResubmitting? then 2 * |s.worker.todo| + 1
    else if s.canceller.CScanning? then 1 + |s.canceller.todo|
    else 0
  }

  predicate Closer(t: State, s: State, id: Id) {
    Stage(t, id) < Stage(s, id) || (Stage(t, id) == Stage(s, id) && Left(t) < Left(s))
  }

  /** One step nearer, or the bottom half has just taken up a request that is to be resubmitted. */
  predicate Advanced(t: State, s: State, id: Id)
    requires id in s.reqs
  {
    || (Due(t, id) && Closer(t, s, id))
    || (id in t.reqs && t.reqs[id].status == Pending && !HasResult(s.reqs[id]))
  }

  /** The bottom half, an interrupt that a completion still owes, or the end of somebody else's
      locked section. */
  predicate Helps(s: State, e: Event, id: Id) {
    || e.Work? || (e.Interrupt? && s.irq)
    || (e.Cancel? && (e.cop.MoveNext? || e.cop.UnlockPending?))
    || (e.Requester? && e.rop.Enlist? && e.id != id)
  }

  ghost predicate OnlyHelp(s: State, run: seq<Event>, id: Id)
    requires ValidFrom(s, run)
    decreases run
  {
    run == [] || (Helps(s, run[0], id) && OnlyHelp(Next(s, run[0]), run[1..], id))
  }

  lemma ScanKeepsDue(s: State, id: Id, next: Id)
    requires WorkerReady(s, ScanNext(next)) && Due(s, id) && (next == id ==> HasResult(s.reqs[id]))
    ensures Due(WorkerNext(s, ScanNext(next)), id)
  {
  }

  lemma ScanComesCloser(s: State, id: Id, next: Id)
    requires WorkerReady(s, ScanNext(next)) && id in s.reqs && (next == id ==> HasResult(s.reqs[id]))
    ensures Closer(WorkerNext(s, ScanNext(next)), s, id)
  {
    assert |s.worker.todo - {next}| == |s.worker.todo| - 1;
    if next == id {
      assert id in WorkerNext(s, ScanNext(next)).worker.taken;
    }
  }

  lemma HelpScanNext(s: State, id: Id, next: Id)
    requires Inv(s) && Due(s, id) && s.worker.WScanning? && next in s.worker.todo
    ensures Enabled(s, Work(ScanNext(next))) && Advanced(Next(s, Work(ScanNext(next))), s, id)
  {
    hide HoldingOk, StatusOk, Due, Closer;
    if next != id || HasResult(s.reqs[id]) {
      hide WorkerNext;
      ScanKeepsDue(s, id, next);
      ScanComesCloser(s, id, next);
    }
  }

  lemma HelpScan(s: State, id: Id) returns (e: Event)
    requires Inv(s) && Due(s, id) && Scanning(s.worker)
    ensures Enabled(s, e) && Helps(s, e, id) && Advanced(Next(s, e), s, id)
  {
    assert RequestOk(s.reqs[id], ViewOf(s, id));
    if s.worker.WResubmitting? {
      e := Work(Resubmit);
    } else if s.worker.todo == {} {
      e := Work(UnlockList);
    } else {
      var next :| next in s.worker.todo;
      HelpScanNext(s, id, next);
      e := Work(ScanNext(next));
    }
  }

  lemma HelpCompleteOther(s: State, id: Id, next: Id)
    requires Inv(s) && Due(s, id) && s.worker.WCompleting? && next in s.worker.taken && next != id
    ensures Enabled(s, Work(CompleteNext(next)))
    ensures Due(Next(s, Work(CompleteNext(next))), id) && Closer(Next(s, Work(CompleteNext(next))), s, id)
  {
    var t := WorkerNext(s, CompleteNext(next));
    assert |t.worker.taken| == |s.worker.taken| - 1;
  }

  lemma HelpEnd(s: State, id: Id)
    requires Inv(s) && Due(s, id) && s.worker.WCompleting? && s.worker.taken == {}
    ensures Enabled(s, Work(EndWork)) && Due(Next(s, Work(EndWork)), id) && Closer(Next(s, Work(EndWork)), s, id)
  {
  }

  lemma HelpComplete(s: State, id: Id) returns (e: Event)
    requires Inv(s) && Due(s, id) && s.worker.WCompleting?
    ensures Enabled(s, e) && Helps(s, e, id) && id in Next(s, e).reqs
    ensures || (Next(s, e).reqs[id].done == 1 && HasResult(s.reqs[id]))
            || (Due(Next(s, e), id) && Closer(Next(s, e), s, id))
  {
    hide HoldingOk, LockInv, Closer;
    if id in s.worker.taken {
      assert RequestOk(s.reqs[id], ViewOf(s, id));
      e := Work(CompleteNext(id));
    } else if s.worker.taken == {} {
      HelpEnd(s, id);
      e := Work(EndWork);
    } else {
      var next :| next in s.worker.taken;
      HelpCompleteOther(s, id, next);
      e := Work(CompleteNext(next));
    }
  }

  lemma HelpIdle(s: State, id: Id) returns (e: Event)
    requires Inv(s) && Due(s, id) && s.worker.WIdle?
    ensures Enabled(s, e) && Helps(s, e, id) && Due(Next(s, e), id) && Closer(Next(s, e), s, id)
  {
    assert RequestOk(s.reqs[id], ViewOf(s, id));
    e := if s.work then Work(BeginWork) else Interrupt;
  }

  lemma HelpLock(s: State, id: Id)
    requires Inv(s) && Due(s, id) && s.worker.WStarting? && s.lock.Unlocked?
    ensures var e := Work(LockList);
            Enabled(s, e) && Due(Next(s, e), id) && Closer(Next(s, e), s, id)
  {
    assert RequestOk(s.reqs[id], ViewOf(s, id));
  }

  lemma HelpHolder(s: State, id: Id) returns (e: Event)
    requires Inv(s) && Due(s, id) && s.worker.WStarting? && s.lock.ByRequester?
    ensures Enabled(s, e) && Helps(s, e, id) && Due(Next(s, e), id) && Closer(Next(s, e), s, id)
  {
    assert RequestOk(s.reqs[id], ViewOf(s, id));
    e := Requester(s.lock.holder, Enlist);
  }

  lemma HelpCanceller(s: State, id: Id) returns (e: Event)
    requires Inv(s) && Due(s, id) && s.worker.WStarting? && s.lock.ByCanceller?
    ensures Enabled(s, e) && Helps(s, e, id) && Due(Next(s, e), id) && Closer(Next(s, e), s, id)
  {
    assert RequestOk(s.reqs[id], ViewOf(s, id));
    if s.canceller.todo == {} {
      e := Cancel(UnlockPending);
    } else {
      var next :| next in s.canceller.todo;
      e := Cancel(MoveNext(next));
    }
  }

  lemma HelpStart(s: State, id: Id) returns (e: Event)
    requires Inv(s) && Due(s, id) && (s.worker.WStarting? || s.worker.WIdle?)
    ensures Enabled(s, e) && Helps(s, e, id) && Due(Next(s, e), id) && Closer(Next(s, e), s, id)
  {
    hide HoldingOk, StatusOk, ListInv, Due, Closer, Enabled, ViewOf;
    if s.worker.WIdle? {
      e := HelpIdle(s, id);
    } else if s.lock.Unlocked? {
      HelpLock(s, id);
      e := Work(LockList);
    } else if s.lock.ByRequester? {
      e := HelpHolder(s, id);
    } else {
      e := HelpCanceller(s, id);
    }
  }

  lemma WorkerHelpKeeps(s: State, op: WorkerOp, id: Id)
    requires WorkerReady(s, op) && id in s.reqs
    ensures id in WorkerNext(s, op).reqs
    ensures var r, q := s.reqs[id], WorkerNext(s, op).reqs[id];
            && q.pc == r.pc && q.restart == r.restart && q.abandoned == r.abandoned
            && (q.status == r.status || (q.status == Pending && !HasResult(r)))
  {
  }

  /** What helping leaves as it is, and that an answer goes only when the request is resubmitted. */
  lemma HelpKeeps(s: State, e: Event, id: Id)
    requires Enabled(s, e) && Helps(s, e, id) && id in s.reqs
    ensures id in Next(s, e).reqs
    ensures var r, q := s.reqs[id], Next(s, e).reqs[id];
            && q.pc == r.pc && q.restart == r.restart && q.abandoned == r.abandoned
            && (q.status == r.status || (q.status == Pending && !HasResult(r)))
  {
    hide WorkerNext;
    if e.Work? {
      WorkerHelpKeeps(s, e.wop, id);
    }
  }

  lemma HelpNext(s: State, id: Id) returns (e: Event)
    requires Inv(s) && Due(s, id)
    ensures Enabled(s, e) && Helps(s, e, id) && id in Next(s, e).reqs
    ensures (Next(s, e).reqs[id].done == 1 && HasResult(s.reqs[id])) || Advanced(Next(s, e), s, id)
  {
    hide RequestOk, Inv, Closer, Helps, Enabled, Next;
    if Scanning(s.worker) {
      e := HelpScan(s, id);
    } else if s.worker.WCompleting? {
      e := HelpComplete(s, id);
    } else {
      e := HelpStart(s, id);
    }
  }

  lemma {:induction false} WakeupArrives(s: State, id: Id) returns (run: seq<Event>)
    requires Reachable(s) && Due(s, id)
    ensures ValidFrom(s, run) && OnlyHelp(s, run, id) && id in After(s, run).reqs
    ensures var r, q := s.reqs[id], After(s, run).reqs[id];
            && q.pc == r.pc && q.restart == r.restart && q.abandoned == r.abandoned
            && (if HasResult(r) then q.done == 1 && q.status == r.status else q.status == Pending)
    decreases Stage(s, id), Left(s)
  {
    hide RequestOk, Inv, Helps, Enabled, Next, Stage, Left;
    ReachableInv(s);
    var e := HelpNext(s, id);
    HelpKeeps(s, e, id);
    var t := Extend(s, e);
    if t.reqs[id].done == 1 || t.reqs[id].status == Pending {
      run := [e];
    } else {
      var rest := WakeupArrives(t, id);
      run := [e] + rest;
      assert run[1..] == rest;
    }
  }

  // ----- Every request can be brought to its release -----

  /** Some continuation unmaps and frees the request. */
  ghost predicate Freeable(s: State, id: Id) {
    exists run :: ValidFrom(s, run) && id in After(s, run).reqs && After(s, run).reqs[id].pc.Freed?
  }

  lemma FreeableAlong(s: State, run: seq<Event>, id: Id)
    requires ValidFrom(s, run) && Freeable(After(s, run), id)
    ensures Freeable(s, id)
  {
    var t := After(s, run);
    var more :| ValidFrom(t, more) && id in After(t, more).reqs && After(t, more).reqs[id].pc.Freed?;
    JoinRuns(s, run, more);
  }

  lemma FreeableBefore(s: State, e: Event, id: Id)
    requires Enabled(s, e) && Freeable(Next(s, e), id)
    ensures Freeable(s, id)
  {
    hide Next, Enabled;
    assert After(s, [e]) == Next(s, e);
    FreeableAlong(s, [e], id);
  }

  lemma OwnStep(s: State, id: Id, op: RequesterOp) returns (t: State)
    requires Reachable(s) && Enabled(s, Requester(id, op))
    ensures Reachable(t) && id in t.reqs && t.reqs[id] == RequesterNext(s.reqs[id], op)
    ensures Freeable(t, id) ==> Freeable(s, id)
  {
    t := Extend(s, Requester(id, op));
    if Freeable(t, id) {
      FreeableBefore(s, Requester(id, op), id);
    }
  }

  lemma {:induction false} HelpRunKeeps(s: State, run: seq<Event>, id: Id)
    requires ValidFrom(s, run) && OnlyHelp(s, run, id) && id in s.reqs
    ensures id in After(s, run).reqs
    ensures After(s, run).reqs[id].pc == s.reqs[id].pc && After(s, run).reqs[id].abandoned == s.reqs[id].abandoned
    decreases run
  {
    hide Next, Enabled, Helps;
    if run != [] {
      HelpKeeps(s, run[0], id);
      HelpRunKeeps(Next(s, run[0]), run[1..], id);
    }
  }

  lemma {:induction false} RunStaysReachable(s: State, run: seq<Event>)
    requires Reachable(s) && ValidFrom(s, run)
    ensures Reachable(After(s, run))
  {
    var before :| ValidFrom(Init, before) && After(Init, before) == s;
    JoinRuns(Init, before, run);
  }

  /** How far the holder of the list lock is from releasing it. */
  function Locked(s: State): nat {
    if s.lock.Unlocked? then 0
    else if s.worker.WScanning? then 1 + 2 * |s.worker.todo|
    else if s.worker.WResubmitting? then 2 + 2 * |s.worker.todo|
    else if s.canceller.CScanning? then 1 + |s.canceller.todo|
    else 1
  }

  lemma UnlockWorker(s: State, id: Id) returns (e: Event)
    requires Inv(s) && s.lock.ByWorker?
    ensures Enabled(s, e) && Helps(s, e, id) && Next(s, e).lock in {s.lock, Unlocked} && Locked(Next(s, e)) < Locked(s)
  {
    hide RequestOk;
    if s.worker.WResubmitting? {
      e := Work(Resubmit);
    } else if s.worker.todo == {} {
      e := Work(UnlockList);
    } else {
      var next :| next in s.worker.todo;
      assert |s.worker.todo - {next}| == |s.worker.todo| - 1;
      e := Work(ScanNext(next));
    }
  }

  lemma UnlockOther(s: State, id: Id) returns (e: Event)
    requires Inv(s) && (s.lock.ByCanceller? || (s.lock.ByRequester? && s.lock.holder != id))
    ensures Enabled(s, e) && Helps(s, e, id) && Next(s, e).lock in {s.lock, Unlocked} && Locked(Next(s, e)) < Locked(s)
  {
    hide RequestOk;
    if s.lock.ByRequester? {
      e := Requester(s.lock.holder, Enlist);
    } else if s.canceller.todo == {} {
      e := Cancel(UnlockPending);
    } else {
      var next :| next in s.canceller.todo;
      assert |s.canceller.todo - {next}| == |s.canceller.todo| - 1;
      e := Cancel(MoveNext(next));
    }
  }

  /** Whoever holds the list lock can be run until it is free. */
  lemma {:induction false} LockIsReleased(s: State, id: Id) returns (run: seq<Event>)
    requires Reachable(s) && s.lock != ByRequester(id)
    ensures ValidFrom(s, run) && OnlyHelp(s, run, id) && After(s, run).lock.Unlocked?
    decreases Locked(s)
  {
    hide Inv, Helps, Enabled, Next;
    ReachableInv(s);
    if s.lock.Unlocked? {
      run := [];
    } else {
      var e;
      if s.lock.ByWorker? {
        e := UnlockWorker(s, id);
      } else {
        e := UnlockOther(s, id);
      }
      var t := Extend(s, e);
      var rest := LockIsReleased(t, id);
      run := [e] + rest;
      assert run[1..] == rest;
    }
  }

  lemma ReleasingFreeable(s: State, id: Id)
    requires id in s.reqs && Gone(s.reqs[id].pc)
    ensures Freeable(s, id)
    decreases if s.reqs[id].pc.Releasing? then 2 else if s.reqs[id].pc.Destroying? then 1 else 0
  {
    if s.reqs[id].pc.Freed? {
      assert After(s, []) == s;
    } else {
      var e := Requester(id, if s.reqs[id].pc.Releasing? then Release else Destroy);
      ReleasingFreeable(Next(s, e), id);
      FreeableBefore(s, e, id);
    }
  }

  lemma WokenFreeable(s: State, id: Id)
    requires id in s.reqs && Blocking(s.reqs[id].pc) && s.reqs[id].done > 0
    ensures Freeable(s, id)
  {
    var e := Requester(id, if s.reqs[id].pc.Waiting? then Wake else Unblock);
    ReleasingFreeable(Next(s, e), id);
    FreeableBefore(s, e, id);
  }

  /** How far the canceller is from completing a request it has taken. */
  function ToConfirm(c: Canceller): (nat, nat) {
    match c
    case CIdle => (0, 0)
    case CScanning(todo, _) => (3, |todo|)
    case CNotifying(todo, _) => (2, |todo|)
    case CConfirming(_) => (1, 0)
  }

  lemma ConfirmNext(s: State, id: Id) returns (e: Event)
    requires ListInv(s) && id in CancellerHeld(s.canceller) && !s.canceller.CConfirming?
    ensures e.Cancel? && Enabled(s, e) && id in CancellerHeld(Next(s, e).canceller)
    ensures var a, b := ToConfirm(Next(s, e).canceller), ToConfirm(s.canceller);
            a.0 < b.0 || (a.0 == b.0 && a.1 < b.1)
    ensures id in Next(s, e).reqs && Next(s, e).reqs[id].pc == s.reqs[id].pc
    ensures Next(s, e).reqs[id].status == s.reqs[id].status
  {
    if s.canceller.todo == {} {
      e := Cancel(if s.canceller.CScanning? then UnlockPending else AllNotified);
    } else {
      var next :| next in s.canceller.todo;
      assert |s.canceller.todo - {next}| == |s.canceller.todo| - 1;
      if s.canceller.CScanning? {
        e := Cancel(MoveNext(next));
      } else {
        e := Cancel(NotifyNext(next));
      }
    }
  }

  lemma {:induction false} TakenFreeable(s: State, id: Id)
    requires Reachable(s) && id in CancellerHeld(s.canceller)
    requires id in s.reqs && Blocking(s.reqs[id].pc) && s.reqs[id].status != Pending
    ensures Freeable(s, id)
    decreases ToConfirm(s.canceller).0, ToConfirm(s.canceller).1
  {
    if s.canceller.CConfirming? {
      WokenFreeable(Next(s, Cancel(Confirm(id))), id);
      FreeableBefore(s, Cancel(Confirm(id)), id);
    } else {
      hide LockInv, ListInv, RequestOk, Next, Enabled, ToConfirm;
      ReachableInv(s);
      var e := ConfirmNext(s, id);
      var t := Extend(s, e);
      TakenFreeable(t, id);
      FreeableBefore(s, e, id);
    }
  }

  lemma HasResultFreeable(s: State, id: Id)
    requires Reachable(s) && id in s.reqs && Blocking(s.reqs[id].pc) && !s.reqs[id].abandoned && HasResult(s.reqs[id])
    ensures Freeable(s, id)
  {
    ReachableRequest(s, id);
    if s.reqs[id].done > 0 {
      WokenFreeable(s, id);
    } else if id in CancellerHeld(s.canceller) {
      TakenFreeable(s, id);
    } else {
      var run := WakeupArrives(s, id);
      WokenFreeable(After(s, run), id);
      FreeableAlong(s, run, id);
    }
  }

  lemma OwnedFreeable(s: State, id: Id)
    requires Reachable(s) && id in s.reqs && Blocking(s.reqs[id].pc) && !s.reqs[id].abandoned && s.reqs[id].owned
    ensures Freeable(s, id)
  {
    var t := Extend(s, HostComplete(id, Failed));
    HasResultFreeable(t, id);
    FreeableBefore(s, HostComplete(id, Failed), id);
  }

  lemma PendingFreeable(s: State, id: Id)
    requires Reachable(s) && id in s.reqs && Blocking(s.reqs[id].pc) && !s.reqs[id].abandoned
    requires s.reqs[id].status == Pending
    ensures Freeable(s, id)
  {
    ReachableRequest(s, id);
    if s.reqs[id].owned {
      OwnedFreeable(s, id);
    } else {
      var t := Extend(s, Work(Resubmit));
      OwnedFreeable(t, id);
      FreeableBefore(s, Work(Resubmit), id);
    }
  }

  lemma BlockedFreeable(s: State, id: Id)
    requires Reachable(s) && id in s.reqs && Blocking(s.reqs[id].pc) && !s.reqs[id].abandoned
    ensures Freeable(s, id)
  {
    ReachableRequest(s, id);
    if HasResult(s.reqs[id]) {
      HasResultFreeable(s, id);
    } else if s.reqs[id].status == Pending {
      PendingFreeable(s, id);
    } else if s.reqs[id].done > 0 {
      WokenFreeable(s, id);
    } else if id in CancellerHeld(s.canceller) {
      TakenFreeable(s, id);
    } else {
      var run := WakeupArrives(s, id);
      RunStaysReachable(s, run);
      PendingFreeable(After(s, run), id);
      FreeableAlong(s, run, id);
    }
  }

  /** The steps a requester takes from putting its request on the list to waiting for it. */
  function TowardsBlocking(r: Request): RequesterOp {
    match r.pc
    case Started => BeginWait
    case Signalled => CheckStatus
    case Cancelling => WriteCancel
    case Cancelled => CheckCancelled
    case _ => Unlist
  }

  lemma UnlistingFreeable(s: State, id: Id)
    requires Reachable(s) && id in s.reqs && s.reqs[id].pc.Unlisting? && !s.reqs[id].abandoned
    ensures Freeable(s, id)
  {
    ReachableInv(s);
    var run := LockIsReleased(s, id);
    RunStaysReachable(s, run);
    HelpRunKeeps(s, run, id);
    var t := After(s, run);
    hide Freeable;
    var u := OwnStep(t, id, Unlist);
    if u.reqs[id].pc.Blocked? {
      BlockedFreeable(u, id);
    } else {
      ReleasingFreeable(u, id);
    }
    FreeableAlong(s, run, id);
  }

  lemma ParkedFreeable(s: State, id: Id)
    requires Reachable(s) && id in s.reqs && Parked(s.reqs[id].pc) && !s.reqs[id].abandoned
    ensures Freeable(s, id)
    decreases match s.reqs[id].pc case Started => 5 case Signalled => 4 case Cancelling => 3 case Cancelled => 2
                                  case _ => 1
  {
    if Blocking(s.reqs[id].pc) {
      BlockedFreeable(s, id);
    } else if s.reqs[id].pc.Unlisting? {
      UnlistingFreeable(s, id);
    } else {
      hide Freeable;
      var t := OwnStep(s, id, TowardsBlocking(s.reqs[id]));
      ParkedFreeable(t, id);
    }
  }

  lemma RecheckedFreeable(s: State, id: Id)
    requires Reachable(s) && id in s.reqs && s.reqs[id].pc.Rechecked? && !s.reqs[id].abandoned
    ensures Freeable(s, id)
  {
    hide Freeable;
    var t := OwnStep(s, id, Enlist);
    if t.reqs[id].pc.Started? {
      ParkedFreeable(t, id);
    } else {
      ReleasingFreeable(t, id);
    }
  }

  lemma PreparedFreeable(s: State, id: Id)
    requires Reachable(s) && id in s.reqs && s.reqs[id].pc.Prepared? && !s.reqs[id].abandoned
    ensures Freeable(s, id)
  {
    ReachableInv(s);
    var run := LockIsReleased(s, id);
    RunStaysReachable(s, run);
    HelpRunKeeps(s, run, id);
    hide Freeable;
    var t := OwnStep(After(s, run), id, Recheck);
    RecheckedFreeable(t, id);
    FreeableAlong(s, run, id);
  }

  /** The submit loop, from the status the host has left to the next place to stop at. */
  function TowardsParking(r: Request): RequesterOp {
    match r.pc
    case Filled => StorePending
    case Stored => Submit
    case Issued => Poll
    case _ => Prepare
  }

  lemma SubmittingFreeable(s: State, id: Id)
    requires Reachable(s) && id in s.reqs && Submitting(s.reqs[id].pc) && !s.reqs[id].abandoned
    ensures Freeable(s, id)
    decreases match s.reqs[id].pc
              case Issued => if s.reqs[id].status == Pending then 1 else 4
              case Filled => 3
              case Stored => 2
              case _ => 0
  {
    var pc := s.reqs[id].pc;
    if pc.Prepared? {
      PreparedFreeable(s, id);
    } else if pc.Rechecked? {
      RecheckedFreeable(s, id);
    } else {
      hide Freeable;
      ReachableRequest(s, id);
      var t := OwnStep(s, id, TowardsParking(s.reqs[id]));
      if t.reqs[id].pc.Releasing? {
        ReleasingFreeable(t, id);
      } else if t.reqs[id].pc.Prepared? {
        PreparedFreeable(t, id);
      } else {
        SubmittingFreeable(t, id);
      }
    }
  }

  /** In every reachable state, whatever the other requests and actors are in the middle of, a
      request can still be unmapped and freed exactly if the canceller has not given it up. */
  lemma FreeableIffNotGivenUp(s: State, id: Id)
    requires Reachable(s) && id in s.reqs
    ensures Freeable(s, id) <==> !s.reqs[id].abandoned
  {
    if s.reqs[id].abandoned {
      forall run | ValidFrom(s, run) ensures !(id in After(s, run).reqs && Gone(After(s, run).reqs[id].pc)) {
        AbandonedForever(s, run, id);
      }
    } else if Gone(s.reqs[id].pc) {
      ReleasingFreeable(s, id);
    } else if Parked(s.reqs[id].pc) {
      ParkedFreeable(s, id);
    } else {
      SubmittingFreeable(s, id);
    }
  }

  // ----- A forced cancel -----

  /** The steps of a requester that cancels, meets the host's answer and leaves without waiting. */
  const CANCEL_STEPS := [BeginCancel, CheckStatus, WriteCancel]
  const LEAVE_STEPS := [CheckCancelled, Unlist, Release, Destroy]

  function Own(id: Id, ops: seq<RequesterOp>): seq<Event> {
    seq(|ops|, i requires 0 <= i < |ops| => Requester(id, ops[i]))
  }

  /** The request as the requester's steps leave it, and what they leave as it is. */
  ghost predicate Stepped(s: State, t: State, id: Id, r: Request) {
    id in t.reqs && t.reqs[id] == r && t.lock == s.lock
  }

  lemma OneOwnStep(s: State, id: Id, op: RequesterOp, rest: seq<Event>) returns (t: State)
    requires Enabled(s, Requester(id, op)) && !op.Recheck? && !op.Enlist?
    ensures t == Next(s, Requester(id, op)) && Stepped(s, t, id, RequesterNext(s.reqs[id], op))
    ensures ValidFrom(t, rest) ==>
              ValidFrom(s, [Requester(id, op)] + rest) && After(s, [Requester(id, op)] + rest) == After(t, rest)
  {
    t := Next(s, Requester(id, op));
    assert ([Requester(id, op)] + rest)[1..] == rest;
  }

  lemma CancelIsWritten(s: State, id: Id) returns (t: State)
    requires id in s.reqs && s.reqs[id].pc.Started? && s.reqs[id].status == Pending
    ensures ValidFrom(s, Own(id, CANCEL_STEPS)) && t == After(s, Own(id, CANCEL_STEPS))
    ensures Stepped(s, t, id, s.reqs[id].(pc := Cancelled, cancelSent := true)) && t.listed == s.listed
  {
    hide ValidFrom, After;
    var a, b, c := Requester(id, BeginCancel), Requester(id, CheckStatus), Requester(id, WriteCancel);
    t := OneOwnStep(s, id, BeginCancel, [b] + ([c] + []));
    var u := OneOwnStep(t, id, CheckStatus, [c] + []);
    t := OneOwnStep(u, id, WriteCancel, []);
    NoStep(t);
    assert Own(id, CANCEL_STEPS) == [a] + ([b] + ([c] + []));
  }

  lemma NoStep(s: State)
    ensures ValidFrom(s, []) && After(s, []) == s
  {
  }

  lemma AnsweredCancelLeaves(s: State, id: Id) returns (t: State)
    requires id in s.reqs && s.reqs[id].pc.Cancelled? && s.reqs[id].status != Pending && !s.reqs[id].processed
    requires s.lock.Unlocked?
    ensures ValidFrom(s, Own(id, LEAVE_STEPS)) && t == After(s, Own(id, LEAVE_STEPS))
    ensures Stepped(s, t, id, s.reqs[id].(pc := Freed))
  {
    hide ValidFrom, After;
    var a, b := Requester(id, CheckCancelled), Requester(id, Unlist);
    var c, d := Requester(id, Release), Requester(id, Destroy);
    t := OneOwnStep(s, id, CheckCancelled, [b] + ([c] + ([d] + [])));
    var u := OneOwnStep(t, id, Unlist, [c] + ([d] + []));
    var v := OneOwnStep(u, id, Release, [d] + []);
    t := OneOwnStep(v, id, Destroy, []);
    NoStep(t);
    assert Own(id, LEAVE_STEPS) == [a] + ([b] + ([c] + ([d] + [])));
  }

  /** A requester that cancels a listed pending request writes CANCEL; if the host then answers, with
      whatever result, and no scan takes the request first, it is freed without waiting. */
  lemma ForcedCancelFrees(s: State, id: Id, result: Status) returns (run: seq<Event>)
    requires Reachable(s) && s.lock.Unlocked? && id in s.listed && id in s.reqs && s.reqs[id].pc.Started?
    requires s.reqs[id].status == Pending && result != Pending
    ensures run == Own(id, CANCEL_STEPS) + [HostComplete(id, result)] + Own(id, LEAVE_STEPS)
    ensures ValidFrom(s, run) && id in After(s, run).reqs
    ensures var q := After(s, run).reqs[id];
            q.pc.Freed? && q.cancelSent && q.completions == 0 && q.status == result
  {
    hide StatusOk, Own;
    ReachableInv(s);
    assert !s.reqs[id].processed && s.reqs[id].completions == 0 && s.reqs[id].owned by {
      OwnedWhileListed(s, id);
    }
    var t := CancelIsWritten(s, id);
    var u := Next(t, HostComplete(id, result));
    NoStep(u);
    var v := AnsweredCancelLeaves(u, id);
    assert After(t, [HostComplete(id, result)]) == u;
    JoinRuns(s, Own(id, CANCEL_STEPS), [HostComplete(id, result)]);
    run := Own(id, CANCEL_STEPS) + [HostComplete(id, result)];
    JoinRuns(s, run, Own(id, LEAVE_STEPS));
    run := run + Own(id, LEAVE_STEPS);
  }

  lemma OwnedWhileListed(s: State, id: Id)
    requires Inv(s) && s.lock.Unlocked? && id in s.listed && id in s.reqs && s.reqs[id].status == Pending
    ensures !s.reqs[id].processed && s.reqs[id].completions == 0 && s.reqs[id].owned
  {
    assert RequestOk(s.reqs[id], ViewOf(s, id));
  }
}
