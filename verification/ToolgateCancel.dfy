/**
 What the suspend-time canceller (`tg_req_cancel_all`) achieves: no request that waits for the
 host slips past it, each one it takes is told to the host and then completed or given up, and
 CANCEL is never written for a request that already has its answer.
 */
module ToolgateCancel {
  import opened ToolgateProtocol

  // ----- The locked section takes every pending request -----

  /** When the canceller is about to leave its locked section, no listed request is pending. */
  lemma NonePendingLeft(s: State, id: Id)
    requires Reachable(s) && Enabled(s, Cancel(UnlockPending)) && id in s.listed
    ensures id in s.reqs && s.reqs[id].status != Pending
  {
    ReachableInv(s);
    assert RequestOk(s.reqs[id], ViewOf(s, id));
  }

  /** The canceller still has the request ahead of it, or has taken it and told the host no later
      than at the end of its round of notifications, or has done so and given the request up. */
  predicate CaughtBy(s: State, id: Id) {
    && id in s.reqs
    && (|| (s.canceller.CScanning? && id in s.canceller.todo)
        || (id in CancellerHeld(s.canceller) && (ViewOf(s, id).notified ==> s.reqs[id].cancelSent))
        || (s.reqs[id].abandoned && s.reqs[id].cancelSent))
  }

  /** The host answers the request somewhere along the run. */
  ghost predicate AnsweredAlong(s: State, run: seq<Event>, id: Id)
    requires ValidFrom(s, run)
    decreases run
  {
    || (id in s.reqs && s.reqs[id].status != Pending)
    || (run != [] && AnsweredAlong(Next(s, run[0]), run[1..], id))
  }

  lemma WorkerLeaves(s: State, op: WorkerOp, id: Id)
    requires WorkerReady(s, op) && id in s.reqs
    ensures var t := WorkerNext(s, op);
            && id in t.reqs && t.canceller == s.canceller && t.reqs[id].restart == s.reqs[id].restart
            && t.reqs[id].pc == s.reqs[id].pc && t.reqs[id].abandoned == s.reqs[id].abandoned
            && t.reqs[id].cancelSent == s.reqs[id].cancelSent && t.reqs[id].completions >= s.reqs[id].completions
            && (id !in s.listed ==> t.reqs[id].status == s.reqs[id].status
                                    || (s.worker.WScanning? && id in s.worker.todo))
  {
  }

  lemma RequesterLeaves(r: Request, op: RequesterOp)
    requires RequesterReady(r, op)
    ensures var q := RequesterNext(r, op);
            && q.abandoned == r.abandoned && q.completions == r.completions && (r.cancelSent ==> q.cancelSent)
  {
  }

  /** What a step of anybody but the canceller leaves as it is. */
  lemma OthersLeave(s: State, e: Event, id: Id)
    requires Enabled(s, e) && !e.Cancel? && id in s.reqs
    ensures id in Next(s, e).reqs && Next(s, e).canceller == s.canceller
    ensures Next(s, e).reqs[id].abandoned == s.reqs[id].abandoned
    ensures s.reqs[id].cancelSent ==> Next(s, e).reqs[id].cancelSent
    ensures Next(s, e).reqs[id].completions >= s.reqs[id].completions
  {
    hide WorkerNext, RequesterNext, ListedNext;
    if e.Work? {
      WorkerLeaves(s, e.wop, id);
    } else if e.Requester? && e.id == id {
      RequesterLeaves(s.reqs[id], e.rop);
    }
  }

  lemma CancellerKeepsCaught(s: State, op: CancellerOp, id: Id)
    requires CancellerReady(s, op) && CaughtBy(s, id) && s.reqs[id].status == Pending
    ensures CaughtBy(CancellerNext(s, op), id)
  {
  }

  lemma StepKeepsCaught(s: State, e: Event, id: Id)
    requires Enabled(s, e) && CaughtBy(s, id) && s.reqs[id].status == Pending
    ensures CaughtBy(Next(s, e), id)
  {
    if e.Cancel? {
      hide CaughtBy, CancellerNext;
      CancellerKeepsCaught(s, e.cop, id);
    } else {
      hide Next, Enabled;
      OthersLeave(s, e, id);
    }
  }

  lemma {:induction false} RunKeepsCaught(s: State, run: seq<Event>, id: Id)
    requires ValidFrom(s, run) && CaughtBy(s, id)
    ensures AnsweredAlong(s, run, id) || CaughtBy(After(s, run), id)
    decreases run
  {
    hide Next, Enabled;
    if run != [] && s.reqs[id].status == Pending {
      StepKeepsCaught(s, run[0], id);
      RunKeepsCaught(Next(s, run[0]), run[1..], id);
    }
  }

  /** Whatever happens once the canceller has taken the list lock, a request that was then listed
      and pending is answered by the host, or is in the canceller's hands, or was cancelled and given
      up; when the canceller is done only the first and the last are left. */
  lemma PendingIsCancelled(s: State, run: seq<Event>, id: Id)
    requires Reachable(s) && Enabled(s, Cancel(LockPending)) && id in s.listed
    requires ValidFrom(Next(s, Cancel(LockPending)), run)
    ensures var t := Next(s, Cancel(LockPending));
            || AnsweredAlong(t, run, id)
            || (CaughtBy(After(t, run), id)
                && (After(t, run).canceller.CIdle? ==>
                      After(t, run).reqs[id].abandoned && After(t, run).reqs[id].cancelSent))
  {
    ReachableInv(s);
    RunKeepsCaught(Next(s, Cancel(LockPending)), run, id);
  }

  // ----- What is taken is settled -----

  /** The canceller holds the request, has completed it, or has given it up after CANCEL. */
  predicate InHand(s: State, id: Id) {
    && id in s.reqs
    && (|| id in CancellerHeld(s.canceller)
        || s.reqs[id].completions > 0
        || (s.reqs[id].abandoned && s.reqs[id].cancelSent))
  }

  lemma CancellerKeepsInHand(s: State, op: CancellerOp, id: Id)
    requires CancellerReady(s, op) && InHand(s, id) && RequestOk(s.reqs[id], ViewOf(s, id))
    ensures InHand(CancellerNext(s, op), id)
  {
    hide HoldingOk;
  }

  lemma StepKeepsInHand(s: State, e: Event, id: Id)
    requires Reachable(s) && Enabled(s, e) && InHand(s, id)
    ensures InHand(Next(s, e), id)
  {
    if e.Cancel? {
      hide InHand, CancellerNext, RequestOk, ViewOf;
      ReachableRequest(s, id);
      CancellerKeepsInHand(s, e.cop, id);
    } else {
      hide Next, Enabled;
      OthersLeave(s, e, id);
    }
  }

  lemma {:induction false} TakenIsSettled(s: State, run: seq<Event>, id: Id)
    requires Reachable(s) && ValidFrom(s, run) && InHand(s, id)
    ensures InHand(After(s, run), id)
    decreases run
  {
    hide InHand, Next, Enabled;
    if run != [] {
      StepKeepsInHand(s, run[0], id);
      var t := Extend(s, run[0]);
      TakenIsSettled(t, run[1..], id);
    }
  }

  /** The canceller holds a request with its answer, or has completed it. */
  predicate Answered(s: State, id: Id) {
    && id in s.reqs && !s.reqs[id].abandoned
    && ((id in CancellerHeld(s.canceller) && s.reqs[id].status != Pending) || s.reqs[id].completions > 0)
  }

  lemma CancellerKeepsAnswered(s: State, op: CancellerOp, id: Id)
    requires CancellerReady(s, op) && Answered(s, id) && RequestOk(s.reqs[id], ViewOf(s, id))
    ensures Answered(CancellerNext(s, op), id)
  {
    hide StatusOk;
  }

  lemma OthersKeepAnswer(s: State, e: Event, id: Id)
    requires Enabled(s, e) && !e.Cancel? && id in s.reqs && RequestOk(s.reqs[id], ViewOf(s, id))
    requires ListInv(s) && id in CancellerHeld(s.canceller) && s.reqs[id].status != Pending
    ensures id in Next(s, e).reqs && Next(s, e).reqs[id].status != Pending
  {
    hide WorkerNext, StatusOk;
    if e.Work? {
      WorkerLeaves(s, e.wop, id);
    }
  }

  lemma StepKeepsAnswered(s: State, e: Event, id: Id)
    requires Reachable(s) && Enabled(s, e) && Answered(s, id)
    ensures Answered(Next(s, e), id)
  {
    ReachableInv(s);
    if e.Cancel? {
      hide Answered, CancellerNext, ViewOf, RequestOk, ListInv, LockInv;
      CancellerKeepsAnswered(s, e.cop, id);
    } else {
      hide Next, Enabled, ViewOf, RequestOk, ListInv, LockInv;
      OthersLeave(s, e, id);
      if id in CancellerHeld(s.canceller) && s.reqs[id].status != Pending {
        OthersKeepAnswer(s, e, id);
      }
    }
  }

  /** A request the host answers while the canceller holds it is completed, never given up. */
  lemma {:induction false} AnsweredIsCompleted(s: State, run: seq<Event>, id: Id)
    requires Reachable(s) && ValidFrom(s, run) && Answered(s, id)
    ensures Answered(After(s, run), id)
    decreases run
  {
    hide Answered, Next, Enabled;
    if run != [] {
      StepKeepsAnswered(s, run[0], id);
      var t := Extend(s, run[0]);
      AnsweredIsCompleted(t, run[1..], id);
    }
  }

  // ----- CANCEL only while pending -----

  /** The request has its answer, and nobody is on the way to cancel it. */
  predicate NeedsNoCancel(s: State, id: Id) {
    && id in s.reqs && !s.reqs[id].restart && s.reqs[id].status != Pending && !s.reqs[id].cancelSent
    && !s.reqs[id].pc.Cancelling? && id !in CancellerHeld(s.canceller)
  }

  lemma StepKeepsUncancelled(s: State, e: Event, id: Id)
    requires Reachable(s) && Enabled(s, e) && NeedsNoCancel(s, id)
    ensures NeedsNoCancel(Next(s, e), id)
  {
    hide RequestOk, ViewOf, LockInv;
    ReachableInv(s);
    ResultIsFinal(s, e, id);
  }

  /** CANCEL is never written for a request that had its answer before its owner, or the
      canceller, looked at its status. */
  lemma {:induction false} FinishedIsNotCancelled(s: State, run: seq<Event>, id: Id)
    requires Reachable(s) && ValidFrom(s, run) && NeedsNoCancel(s, id)
    ensures id in After(s, run).reqs && !After(s, run).reqs[id].cancelSent
    decreases run
  {
    if run != [] {
      hide NeedsNoCancel, Next, Enabled;
      StepKeepsUncancelled(s, run[0], id);
      var t := Extend(s, run[0]);
      FinishedIsNotCancelled(t, run[1..], id);
    }
  }
}
