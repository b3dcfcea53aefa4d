/**
 The life of a toolgate request from submission to release, as a state machine.

 The actors are the requesters (`tg_req_submit`, `tg_req_complete`, `tg_req_destroy`), the
 interrupt's bottom half (`tg_do_work`), the suspend-time canceller (`tg_req_cancel_all`)
 and the host.  A run is a sequence of events; every event is one read or write of shared
 memory, one port write, one completion, or one step of a section under `queue_lock`.
 Lists are sets, so a scan may visit their members in any order.
 */
module ToolgateProtocol {

  type Id = nat

  datatype Status = Pending | Success | Failed

  /** Where a requester stands; the comment names the statement it is about to run. */
  datatype Pc =
    | Filled                  // Status = PENDING
    | Stored                  // write the SUBMIT port
    | Issued                  // read Status, leave or repeat the submit loop
    | Polled                  // init_completion, processed = 0
    | Prepared                // take queue_lock, re-read Status
    | Rechecked(seen: Status) // under queue_lock: list_add_tail if still pending, unlock
    | Started                 // submitted; the caller will wait or cancel
    | Waiting                 // interruptible or killable wait
    | Signalled               // read Status before cancelling
    | Cancelling              // write the CANCEL port
    | Cancelled               // read Status after cancelling
    | Unlisting               // under queue_lock: read processed, list_del
    | Blocked                 // uninterruptible wait
    | Releasing               // unpin and unmap the first page
    | Destroying              // unmap the rest, free
    | Freed

  /** One request.  `owned` says that the host has the request and may still write to it;
      `completions` counts the calls to complete(), `done` is the completion's own count;
      `cancelSent` says that CANCEL was written for it. */
  datatype Request = Request(
    restart: bool, status: Status, owned: bool, pc: Pc, processed: bool,
    done: nat, completions: nat, abandoned: bool, cancelSent: bool)

  datatype Lock = Unlocked | ByRequester(holder: Id) | ByWorker | ByCanceller

  datatype Worker =
    | WIdle
    | WStarting
    | WScanning(todo: set<Id>, taken: set<Id>)
    | WResubmitting(id: Id, todo: set<Id>, taken: set<Id>)
    | WCompleting(taken: set<Id>)

  datatype Canceller =
    | CIdle
    | CScanning(todo: set<Id>, taken: set<Id>)
    | CNotifying(todo: set<Id>, taken: set<Id>)
    | CConfirming(taken: set<Id>)

  /** `listed` is dev->pr_list, `irq` an interrupt still to come, `work` a scheduled bottom half. */
  datatype State = State(
    reqs: map<Id, Request>, listed: set<Id>, lock: Lock, irq: bool, work: bool,
    worker: Worker, canceller: Canceller)

  /** The steps of a requester, in the order of the statements they stand for. */
  datatype RequesterOp =
    | StorePending | Submit | Poll | Prepare | Recheck | Enlist
    | BeginWait | BeginCancel | Wake | Signal
    | CheckStatus | WriteCancel | CheckCancelled | Unlist | Unblock
    | Release | Destroy

  datatype WorkerOp =
    | BeginWork | LockList | ScanNext(id: Id) | Resubmit | UnlockList | CompleteNext(id: Id) | EndWork

  datatype CancellerOp =
    | LockPending | MoveNext(id: Id) | UnlockPending | NotifyNext(id: Id) | AllNotified
    | Confirm(id: Id) | GiveUp(id: Id) | EndCancel

  datatype Event =
    | Create(id: Id, restart: bool, processed: bool, done: nat)
    | Requester(id: Id, rop: RequesterOp)
    | HostComplete(id: Id, result: Status)
    | Interrupt
    | Work(wop: WorkerOp)
    | Cancel(cop: CancellerOp)

  const Init := State(map[], {}, Unlocked, false, false, WIdle, CIdle)

  function WorkerHeld(w: Worker): set<Id> {
    if w.WScanning? || w.WResubmitting? || w.WCompleting? then w.taken else {}
  }

  function CancellerHeld(c: Canceller): set<Id> {
    if c.CIdle? then {} else c.taken
  }

  // ----- Requesters -----

  predicate RequesterReady(r: Request, op: RequesterOp) {
    match op
    case StorePending => r.pc.Filled?
    case Submit => r.pc.Stored?
    case Poll => r.pc.Issued?
    case Prepare => r.pc.Polled?
    case Recheck => r.pc.Prepared?
    case Enlist => r.pc.Rechecked?
    case BeginWait => r.pc.Started?
    case BeginCancel => r.pc.Started?
    case Wake => r.pc.Waiting? && r.done > 0
    case Signal => r.pc.Waiting?
    case CheckStatus => r.pc.Signalled?
    case WriteCancel => r.pc.Cancelling?
    case CheckCancelled => r.pc.Cancelled?
    case Unlist => r.pc.Unlisting?
    case Unblock => r.pc.Blocked? && r.done > 0
    case Release => r.pc.Releasing?
    case Destroy => r.pc.Destroying?
  }

  function RequesterNext(r: Request, op: RequesterOp): Request
    requires RequesterReady(r, op)
  {
    match op
    case StorePending => r.(status := Pending, pc := Stored)
    case Submit => r.(owned := true, pc := Issued)
    case Poll =>
      r.(pc := if r.status == Success && r.restart then Filled
               else if r.status != Pending then Releasing
               else Polled)
    case Prepare => r.(processed := false, done := 0, pc := Prepared)
    case Recheck => r.(pc := Rechecked(r.status))
    case Enlist => r.(pc := if r.pc.seen == Pending then Started else Releasing)
    case BeginWait => r.(pc := Waiting)
    case BeginCancel => r.(pc := Signalled)
    case Wake => r.(done := r.done - 1, pc := Releasing)
    case Signal => r.(pc := Signalled)
    case CheckStatus => r.(pc := if r.status != Pending then Blocked else Cancelling)
    case WriteCancel => r.(cancelSent := true, pc := Cancelled)
    case CheckCancelled => r.(pc := if r.status == Pending then Blocked else Unlisting)
    case Unlist => r.(pc := if r.processed then Blocked else Releasing)
    case Unblock => r.(done := r.done - 1, pc := Releasing)
    case Release => r.(pc := Destroying)
    case Destroy => r.(pc := Freed)
  }

  function ListedNext(listed: set<Id>, id: Id, r: Request, op: RequesterOp): set<Id>
    requires RequesterReady(r, op)
  {
    if op.Enlist? && r.pc.seen == Pending then listed + {id}
    else if op.Unlist? && !r.processed then listed - {id}
    else listed
  }

  // ----- Bottom half -----

  predicate WorkerReady(s: State, op: WorkerOp) {
    match op
    case BeginWork => s.work && s.worker.WIdle?
    case LockList => s.worker.WStarting? && s.lock.Unlocked?
    case ScanNext(id) => s.worker.WScanning? && id in s.worker.todo && id in s.reqs
    case Resubmit => s.worker.WResubmitting? && s.worker.id in s.reqs
    case UnlockList => s.worker.WScanning? && s.worker.todo == {}
    case CompleteNext(id) => s.worker.WCompleting? && id in s.worker.taken && id in s.reqs
    case EndWork => s.worker.WCompleting? && s.worker.taken == {}
  }

  function Completed(r: Request): Request {
    r.(done := r.done + 1, completions := r.completions + 1)
  }

  function WorkerNext(s: State, op: WorkerOp): State
    requires WorkerReady(s, op)
  {
    match op
    case BeginWork => s.(work := false, worker := WStarting)
    case LockList => s.(lock := ByWorker, worker := WScanning(s.listed, {}))
    case ScanNext(id) =>
      var r, todo, taken := s.reqs[id], s.worker.todo - {id}, s.worker.taken;
      if r.status == Pending then
        s.(worker := WScanning(todo, taken))
      else if r.status == Success && r.restart then
        s.(reqs := s.reqs[id := r.(status := Pending)], worker := WResubmitting(id, todo, taken))
      else
        s.(reqs := s.reqs[id := r.(processed := true)], listed := s.listed - {id},
           worker := WScanning(todo, taken + {id}))
    case Resubmit =>
      s.(reqs := s.reqs[s.worker.id := s.reqs[s.worker.id].(owned := true)],
         worker := WScanning(s.worker.todo, s.worker.taken))
    case UnlockList => s.(lock := Unlocked, worker := WCompleting(s.worker.taken))
    case CompleteNext(id) =>
      s.(reqs := s.reqs[id := Completed(s.reqs[id])], worker := WCompleting(s.worker.taken - {id}))
    case EndWork => s.(worker := WIdle)
  }

  // ----- Suspend canceller -----

  predicate CancellerReady(s: State, op: CancellerOp) {
    match op
    case LockPending => s.canceller.CIdle? && s.lock.Unlocked?
    case MoveNext(id) => s.canceller.CScanning? && id in s.canceller.todo && id in s.reqs
    case UnlockPending => s.canceller.CScanning? && s.canceller.todo == {}
    case NotifyNext(id) => s.canceller.CNotifying? && id in s.canceller.todo && id in s.reqs
    case AllNotified => s.canceller.CNotifying? && s.canceller.todo == {}
    case Confirm(id) =>
      s.canceller.CConfirming? && id in s.canceller.taken && id in s.reqs && s.reqs[id].status != Pending
    case GiveUp(id) =>
      s.canceller.CConfirming? && id in s.canceller.taken && id in s.reqs && s.reqs[id].status == Pending
    case EndCancel => s.canceller.CConfirming? && s.canceller.taken == {}
  }

  function CancellerNext(s: State, op: CancellerOp): State
    requires CancellerReady(s, op)
  {
    match op
    case LockPending => s.(lock := ByCanceller, canceller := CScanning(s.listed, {}))
    case MoveNext(id) =>
      var r, todo, taken := s.reqs[id], s.canceller.todo - {id}, s.canceller.taken;
      if r.status == Pending then
        s.(reqs := s.reqs[id := r.(processed := true)], listed := s.listed - {id},
           canceller := CScanning(todo, taken + {id}))
      else
        s.(canceller := CScanning(todo, taken))
    case UnlockPending => s.(lock := Unlocked, canceller := CNotifying(s.canceller.taken, s.canceller.taken))
    case NotifyNext(id) =>
      s.(reqs := s.reqs[id := s.reqs[id].(cancelSent := true)],
         canceller := CNotifying(s.canceller.todo - {id}, s.canceller.taken))
    case AllNotified => s.(canceller := CConfirming(s.canceller.taken))
    case Confirm(id) =>
      s.(reqs := s.reqs[id := Completed(s.reqs[id])], canceller := CConfirming(s.canceller.taken - {id}))
    case GiveUp(id) =>
      s.(reqs := s.reqs[id := s.reqs[id].(abandoned := true)],
         canceller := CConfirming(s.canceller.taken - {id}))
    case EndCancel => s.(canceller := CIdle)
  }

  // ----- The whole system -----

  predicate Enabled(s: State, e: Event) {
    match e
    case Create(id, _, _, _) => id !in s.reqs
    case Requester(id, op) =>
      id in s.reqs && RequesterReady(s.reqs[id], op) && (op.Recheck? || op.Unlist? ==> s.lock.Unlocked?)
    case HostComplete(id, result) => id in s.reqs && s.reqs[id].owned && result != Pending
    case Interrupt => true // a shared interrupt line, or MSI, may raise one for no completion
    case Work(op) => WorkerReady(s, op)
    case Cancel(op) => CancellerReady(s, op)
  }

  function Next(s: State, e: Event): State
    requires Enabled(s, e)
  {
    match e
    case Create(id, restart, processed, done) => // processed and done are whatever vmalloc left there
      s.(reqs := s.reqs[id := Request(restart, Pending, false, Filled, processed, done, 0, false, false)])
    case Requester(id, op) =>
      s.(reqs := s.reqs[id := RequesterNext(s.reqs[id], op)],
         listed := ListedNext(s.listed, id, s.reqs[id], op),
         lock := if op.Recheck? then ByRequester(id) else if op.Enlist? then Unlocked else s.lock)
    case HostComplete(id, result) =>
      s.(reqs := s.reqs[id := s.reqs[id].(status := result, owned := false)], irq := true)
    case Interrupt => s.(irq := false, work := true)
    case Work(op) => WorkerNext(s, op)
    case Cancel(op) => CancellerNext(s, op)
  }

  // ----- Runs -----

  ghost predicate ValidFrom(s: State, run: seq<Event>)
    decreases run
  {
    run == [] || (Enabled(s, run[0]) && ValidFrom(Next(s, run[0]), run[1..]))
  }

  ghost function After(s: State, run: seq<Event>): State
    requires ValidFrom(s, run)
    decreases run
  {
    if run == [] then s else After(Next(s, run[0]), run[1..])
  }

  ghost predicate Reachable(s: State) {
    exists run :: ValidFrom(Init, run) && After(Init, run) == s
  }

  // ----- The invariant -----

  /** The requester has put the request on the list and has not yet got it back. */
  predicate Parked(pc: Pc) {
    pc.Started? || pc.Waiting? || pc.Signalled? || pc.Cancelling? || pc.Cancelled? || pc.Unlisting? || pc.Blocked?
  }

  predicate Submitting(pc: Pc) {
    pc.Filled? || pc.Stored? || pc.Issued? || pc.Polled? || pc.Prepared? || pc.Rechecked?
  }

  /** The host has answered, and the answer is not one that resubmits the request. */
  predicate HasResult(r: Request) {
    r.status != Pending && !(r.restart && r.status == Success)
  }

  predicate Gone(pc: Pc) {
    pc.Releasing? || pc.Destroying? || pc.Freed?
  }

  /** What the shared state says about one request: which list it is on, whether a running
      scan still has it ahead, and whether another scan is already due; and whether the canceller's
      scan, or its round of notifications, is past it. */
  datatype View = View(
    listed: bool, byWorker: bool, byCanceller: bool, ahead: bool, resubmitting: bool, due: bool,
    passed: bool, notified: bool)

  function ViewOf(s: State, id: Id): View {
    View(
      id in s.listed, id in WorkerHeld(s.worker), id in CancellerHeld(s.canceller),
      (s.worker.WScanning? || s.worker.WResubmitting?) && id in s.worker.todo,
      s.worker.WResubmitting? && s.worker.id == id,
      s.irq || s.work || s.worker.WStarting?,
      s.canceller.CScanning? && id !in s.canceller.todo,
      s.canceller.CConfirming? || (s.canceller.CNotifying? && id !in s.canceller.todo))
  }

  predicate Held(v: View) {
    v.listed || v.byWorker || v.byCanceller
  }

  predicate LockInv(s: State) {
    && (s.lock.ByWorker? <==> s.worker.WScanning? || s.worker.WResubmitting?)
    && (s.lock.ByCanceller? <==> s.canceller.CScanning?)
    && (forall id :: id in s.reqs && s.reqs[id].pc.Rechecked? ==> s.lock == ByRequester(id))
    && (s.lock.ByRequester? ==> s.lock.holder in s.reqs && s.reqs[s.lock.holder].pc.Rechecked?)
  }

  /** Who holds the request, and how often it has been completed. */
  predicate HoldingOk(r: Request, v: View) {
    && (Held(v) ==> Parked(r.pc) && !r.abandoned && r.completions == r.done == 0)
    && (v.listed ==> !r.processed && !v.byWorker && !v.byCanceller)
    && (v.byWorker ==> r.processed && !v.byCanceller)
    && (v.byCanceller || r.abandoned ==> r.processed)
    && (r.abandoned ==> Parked(r.pc) && r.completions == r.done == 0)
    && (Parked(r.pc) && !Held(v) && !r.abandoned ==> r.processed && r.completions == r.done == 1)
    && (Submitting(r.pc) ==> !r.abandoned && r.completions == 0)
    && (r.pc.Prepared? || r.pc.Rechecked? ==> !r.processed && r.done == 0)
    && r.completions <= 1
    && (v.ahead || v.resubmitting ==> v.listed)
    && !(v.ahead && v.resubmitting)
  }

  /** What the status says: the host's ownership, and who still has to notice a result. */
  predicate StatusOk(r: Request, v: View) {
    && (r.owned ==> r.status == Pending)
    && (r.pc.Filled? || r.pc.Stored? ==> !r.owned)
    && (r.pc.Stored? ==> r.status == Pending)
    && (r.pc.Filled? ==> !HasResult(r))
    && (r.status == Pending && !r.pc.Filled? && !r.pc.Stored? ==> r.owned || v.resubmitting)
    && (Parked(r.pc) && r.processed && !v.byCanceller && !r.abandoned ==> r.status != Pending)
    && (v.resubmitting ==> r.status == Pending && !r.owned && r.restart)
    && (!r.restart && (Gone(r.pc) || r.pc.Unlisting?) ==> r.status != Pending)
    && (v.listed && r.status != Pending ==> v.ahead || v.due)
    && (r.pc == Rechecked(Pending) && r.status != Pending ==> v.due)
    && (r.pc.Rechecked? && r.pc.seen != Pending && !r.restart ==> r.status != Pending)
    && (v.byWorker ==> HasResult(r))
    && (v.listed && v.passed ==> r.status != Pending)
    && (v.byCanceller && v.notified ==> r.cancelSent)
    && (r.pc.Cancelled? || r.pc.Unlisting? ==> r.cancelSent)
  }

  predicate RequestOk(r: Request, v: View) {
    HoldingOk(r, v) && StatusOk(r, v)
  }

  predicate ListInv(s: State) {
    && s.listed <= s.reqs.Keys && WorkerHeld(s.worker) <= s.reqs.Keys && CancellerHeld(s.canceller) <= s.reqs.Keys
    && (s.worker.WScanning? || s.worker.WResubmitting? ==> s.worker.todo <= s.listed)
    && (s.worker.WResubmitting? ==> s.worker.id in s.listed)
    && (s.canceller.CScanning? ==> s.canceller.todo <= s.listed)
    && (s.canceller.CNotifying? ==> s.canceller.todo <= s.canceller.taken)
  }

  ghost predicate Inv(s: State) {
    && LockInv(s) && ListInv(s)
    && forall id :: id in s.reqs ==> RequestOk(s.reqs[id], ViewOf(s, id))
  }

  lemma CreateKeepsInv(s: State, e: Event)
    requires Inv(s) && Enabled(s, e) && e.Create?
    ensures Inv(Next(s, e))
  {
    var t := Next(s, e);
    forall i | i in t.reqs ensures RequestOk(t.reqs[i], ViewOf(t, i)) {
      assert ViewOf(t, i) == ViewOf(s, i);
    }
  }

  function ViewNext(v: View, r: Request, op: RequesterOp): View
    requires RequesterReady(r, op)
  {
    v.(listed := if op.Enlist? && r.pc.seen == Pending then true
                 else if op.Unlist? && !r.processed then false
                 else v.listed)
  }

  predicate BeforeParking(op: RequesterOp) {
    op.StorePending? || op.Submit? || op.Poll? || op.Prepare? || op.Recheck? || op.Enlist?
  }

  lemma SubmitterKeepsHolding(r: Request, v: View, op: RequesterOp)
    requires HoldingOk(r, v) && RequesterReady(r, op) && BeforeParking(op)
    ensures HoldingOk(RequesterNext(r, op), ViewNext(v, r, op))
  {
  }

  lemma WaiterKeepsHolding(r: Request, v: View, op: RequesterOp)
    requires HoldingOk(r, v) && RequesterReady(r, op) && !BeforeParking(op)
    requires op.Unlist? ==> !v.ahead && !v.resubmitting
    ensures HoldingOk(RequesterNext(r, op), ViewNext(v, r, op))
  {
  }

  lemma SubmitterKeepsStatus(r: Request, v: View, op: RequesterOp)
    requires RequestOk(r, v) && RequesterReady(r, op) && BeforeParking(op)
    requires op.Enlist? ==> !v.passed
    ensures StatusOk(RequesterNext(r, op), ViewNext(v, r, op))
  {
  }

  lemma WaiterKeepsStatus(r: Request, v: View, op: RequesterOp)
    requires RequestOk(r, v) && RequesterReady(r, op) && !BeforeParking(op)
    requires op.Unlist? ==> !v.ahead && !v.resubmitting
    ensures StatusOk(RequesterNext(r, op), ViewNext(v, r, op))
  {
  }

  lemma RequesterKeepsLists(s: State, id: Id, op: RequesterOp)
    requires Inv(s) && Enabled(s, Requester(id, op))
    ensures LockInv(Next(s, Requester(id, op))) && ListInv(Next(s, Requester(id, op)))
  {
    hide HoldingOk, StatusOk;
  }

  lemma RequesterViews(s: State, id: Id, op: RequesterOp, i: Id)
    requires Enabled(s, Requester(id, op))
    ensures ViewOf(Next(s, Requester(id, op)), i) ==
            if i == id then ViewNext(ViewOf(s, id), s.reqs[id], op) else ViewOf(s, i)
  {
  }

  lemma RequesterKeepsRequest(s: State, id: Id, op: RequesterOp, r: Request, v: View)
    requires LockInv(s) && Enabled(s, Requester(id, op))
    requires r == s.reqs[id] && v == ViewOf(s, id) && RequestOk(r, v)
    ensures RequestOk(RequesterNext(r, op), ViewNext(v, r, op))
  {
    hide HoldingOk, StatusOk, RequesterNext, ViewNext;
    if BeforeParking(op) {
      SubmitterKeepsHolding(r, v, op);
      SubmitterKeepsStatus(r, v, op);
    } else {
      WaiterKeepsHolding(r, v, op);
      WaiterKeepsStatus(r, v, op);
    }
  }

  lemma RequesterKeepsInv(s: State, id: Id, op: RequesterOp)
    requires Inv(s) && Enabled(s, Requester(id, op))
    ensures Inv(Next(s, Requester(id, op)))
  {
    var t := Next(s, Requester(id, op));
    RequesterKeepsLists(s, id, op);
    RequesterKeepsRequest(s, id, op, s.reqs[id], ViewOf(s, id));
    var r := RequesterNext(s.reqs[id], op);
    assert t.reqs == s.reqs[id := r];
    forall i | i in t.reqs ensures RequestOk(t.reqs[i], ViewOf(t, i)) {
      RequesterViews(s, id, op, i);
    }
  }

  lemma HostKeepsRequest(s: State, e: Event, i: Id)
    requires Enabled(s, e) && (e.HostComplete? || e.Interrupt?)
    requires i in s.reqs && RequestOk(s.reqs[i], ViewOf(s, i))
    ensures i in Next(s, e).reqs && RequestOk(Next(s, e).reqs[i], ViewOf(Next(s, e), i))
  {
  }

  lemma HostKeepsInv(s: State, e: Event)
    requires Inv(s) && Enabled(s, e) && (e.HostComplete? || e.Interrupt?)
    ensures Inv(Next(s, e))
  {
    hide RequestOk, ViewOf;
    var t := Next(s, e);
    forall i | i in t.reqs ensures RequestOk(t.reqs[i], ViewOf(t, i)) {
      HostKeepsRequest(s, e, i);
    }
  }

  lemma WorkerKeepsLists(s: State, op: WorkerOp)
    requires Inv(s) && WorkerReady(s, op)
    ensures LockInv(WorkerNext(s, op)) && ListInv(WorkerNext(s, op))
  {
    hide HoldingOk, StatusOk;
  }

  lemma ScanKeepsRequest(s: State, id: Id, i: Id)
    requires LockInv(s) && ListInv(s) && WorkerReady(s, ScanNext(id))
    requires i in s.reqs && RequestOk(s.reqs[i], ViewOf(s, i))
    ensures var t := WorkerNext(s, ScanNext(id));
            i in t.reqs && RequestOk(t.reqs[i], ViewOf(t, i))
  {
    var t := WorkerNext(s, ScanNext(id));
    if i != id {
      assert t.reqs[i] == s.reqs[i] && ViewOf(t, i) == ViewOf(s, i);
    }
  }

  lemma WorkerKeepsHolding(s: State, op: WorkerOp, i: Id)
    requires ListInv(s) && WorkerReady(s, op) && !op.ScanNext?
    requires i in s.reqs && HoldingOk(s.reqs[i], ViewOf(s, i))
    ensures i in WorkerNext(s, op).reqs && HoldingOk(WorkerNext(s, op).reqs[i], ViewOf(WorkerNext(s, op), i))
  {
  }

  lemma WorkerKeepsStatus(s: State, op: WorkerOp, i: Id)
    requires LockInv(s) && ListInv(s) && WorkerReady(s, op) && !op.ScanNext?
    requires i in s.reqs && RequestOk(s.reqs[i], ViewOf(s, i))
    ensures i in WorkerNext(s, op).reqs && StatusOk(WorkerNext(s, op).reqs[i], ViewOf(WorkerNext(s, op), i))
  {
  }

  lemma WorkerKeepsRequest(s: State, op: WorkerOp, i: Id)
    requires LockInv(s) && ListInv(s) && WorkerReady(s, op) && !op.ScanNext?
    requires i in s.reqs && RequestOk(s.reqs[i], ViewOf(s, i))
    ensures i in WorkerNext(s, op).reqs && RequestOk(WorkerNext(s, op).reqs[i], ViewOf(WorkerNext(s, op), i))
  {
    hide LockInv, ListInv, HoldingOk, StatusOk, ViewOf, WorkerNext, WorkerReady;
    WorkerKeepsHolding(s, op, i);
    WorkerKeepsStatus(s, op, i);
  }

  lemma WorkerKeepsInv(s: State, op: WorkerOp)
    requires Inv(s) && WorkerReady(s, op)
    ensures Inv(WorkerNext(s, op))
  {
    hide LockInv, ListInv, RequestOk, ViewOf;
    var t := WorkerNext(s, op);
    WorkerKeepsLists(s, op);
    forall i | i in t.reqs ensures RequestOk(t.reqs[i], ViewOf(t, i)) {
      if op.ScanNext? {
        ScanKeepsRequest(s, op.id, i);
      } else {
        WorkerKeepsRequest(s, op, i);
      }
    }
  }

  lemma CancellerKeepsLists(s: State, op: CancellerOp)
    requires Inv(s) && CancellerReady(s, op)
    ensures LockInv(CancellerNext(s, op)) && ListInv(CancellerNext(s, op))
  {
    hide HoldingOk, StatusOk;
  }

  lemma CancellerKeepsHolding(s: State, op: CancellerOp, i: Id)
    requires LockInv(s) && ListInv(s) && CancellerReady(s, op)
    requires i in s.reqs && HoldingOk(s.reqs[i], ViewOf(s, i))
    ensures i in CancellerNext(s, op).reqs && HoldingOk(CancellerNext(s, op).reqs[i], ViewOf(CancellerNext(s, op), i))
  {
  }

  lemma MoveKeepsStatus(s: State, id: Id, i: Id)
    requires LockInv(s) && ListInv(s) && CancellerReady(s, MoveNext(id))
    requires i in s.reqs && RequestOk(s.reqs[i], ViewOf(s, i))
    ensures var t := CancellerNext(s, MoveNext(id));
            i in t.reqs && StatusOk(t.reqs[i], ViewOf(t, i))
  {
    var t := CancellerNext(s, MoveNext(id));
    if i != id {
      assert t.reqs[i] == s.reqs[i] && ViewOf(t, i) == ViewOf(s, i);
    }
  }

  lemma CancellerKeepsStatus(s: State, op: CancellerOp, i: Id)
    requires LockInv(s) && ListInv(s) && CancellerReady(s, op) && !op.MoveNext?
    requires i in s.reqs && RequestOk(s.reqs[i], ViewOf(s, i))
    ensures i in CancellerNext(s, op).reqs && StatusOk(CancellerNext(s, op).reqs[i], ViewOf(CancellerNext(s, op), i))
  {
  }

  lemma CancellerKeepsRequest(s: State, op: CancellerOp, i: Id)
    requires LockInv(s) && ListInv(s) && CancellerReady(s, op)
    requires i in s.reqs && RequestOk(s.reqs[i], ViewOf(s, i))
    ensures i in CancellerNext(s, op).reqs && RequestOk(CancellerNext(s, op).reqs[i], ViewOf(CancellerNext(s, op), i))
  {
    hide LockInv, ListInv, HoldingOk, StatusOk, ViewOf, CancellerNext, CancellerReady;
    CancellerKeepsHolding(s, op, i);
    if op.MoveNext? {
      MoveKeepsStatus(s, op.id, i);
    } else {
      CancellerKeepsStatus(s, op, i);
    }
  }

  lemma CancellerKeepsInv(s: State, op: CancellerOp)
    requires Inv(s) && CancellerReady(s, op)
    ensures Inv(CancellerNext(s, op))
  {
    hide LockInv, ListInv, RequestOk, ViewOf;
    var t := CancellerNext(s, op);
    CancellerKeepsLists(s, op);
    forall i | i in t.reqs ensures RequestOk(t.reqs[i], ViewOf(t, i)) {
      CancellerKeepsRequest(s, op, i);
    }
  }

  lemma StepKeepsInv(s: State, e: Event)
    requires Inv(s) && Enabled(s, e)
    ensures Inv(Next(s, e))
  {
    match e
    case Create(_, _, _, _) => CreateKeepsInv(s, e);
    case Requester(id, op) => RequesterKeepsInv(s, id, op);
    case HostComplete(_, _) => HostKeepsInv(s, e);
    case Interrupt => HostKeepsInv(s, e);
    case Work(op) => WorkerKeepsInv(s, op);
    case Cancel(op) => CancellerKeepsInv(s, op);
  }

  lemma {:induction false} RunKeepsInv(s: State, run: seq<Event>)
    requires Inv(s) && ValidFrom(s, run)
    ensures Inv(After(s, run))
    decreases run
  {
    if run != [] {
      StepKeepsInv(s, run[0]);
      RunKeepsInv(Next(s, run[0]), run[1..]);
    }
  }

  lemma ReachableInv(s: State)
    requires Reachable(s)
    ensures Inv(s)
  {
    var run :| ValidFrom(Init, run) && After(Init, run) == s;
    RunKeepsInv(Init, run);
  }

  lemma ReachableRequest(s: State, id: Id)
    requires Reachable(s) && id in s.reqs
    ensures RequestOk(s.reqs[id], ViewOf(s, id))
  {
    ReachableInv(s);
  }

  // ----- Lifetime safety -----

  /** The requests whose memory an event of the guest reads or writes.  A list operation is
      charged with every member of its lists, since any of them may be a neighbour. */
  function Touched(s: State, e: Event): set<Id>
    requires Enabled(s, e)
  {
    match e
    case Create(_, _, _, _) => {}
    case Requester(id, op) =>
      {id} + if ListedNext(s.listed, id, s.reqs[id], op) != s.listed then s.listed else {}
    case HostComplete(_, _) => {}
    case Interrupt => {}
    case Work(op) =>
      (match op
       case LockList => s.listed
       case ScanNext(_) => s.listed + s.worker.taken
       case Resubmit => {s.worker.id} + s.worker.todo
       case CompleteNext(_) => s.worker.taken
       case _ => {})
    case Cancel(op) =>
      (match op
       case LockPending => s.listed
       case MoveNext(_) => s.listed + s.canceller.taken
       case NotifyNext(_) => s.canceller.taken
       case Confirm(_) => s.canceller.taken
       case GiveUp(_) => s.canceller.taken
       case _ => {})
  }

  /** No event of the guest touches a freed request, and neither the bottom half nor the
      canceller touches a request that has already been completed. */
  lemma NoUseAfterFree(s: State, e: Event)
    requires Reachable(s) && Enabled(s, e)
    ensures forall id :: id in Touched(s, e) ==> id in s.reqs && !s.reqs[id].pc.Freed?
    ensures e.Work? || e.Cancel? ==> forall id :: id in Touched(s, e) ==> s.reqs[id].completions == 0
  {
    hide LockInv, StatusOk;
    ReachableInv(s);
    forall id | id in Touched(s, e)
      ensures id in s.reqs && !s.reqs[id].pc.Freed?
      ensures e.Work? || e.Cancel? ==> s.reqs[id].completions == 0
    {
      assert RequestOk(s.reqs[id], ViewOf(s, id));
    }
  }

  /** A request past its wait is on no list and was completed at most once; one whose cancel
      timed out is never among them, whatever happens later. */
  lemma ReleasedOnlyWhenUnheld(s: State, id: Id)
    requires Reachable(s) && id in s.reqs
    ensures s.reqs[id].completions <= 1
    ensures Gone(s.reqs[id].pc) ==> !Held(ViewOf(s, id)) && !s.reqs[id].abandoned
  {
    ReachableRequest(s, id);
  }

  lemma WorkerKeepsAbandoned(s: State, op: WorkerOp, id: Id)
    requires WorkerReady(s, op) && id in s.reqs
    ensures id in WorkerNext(s, op).reqs && WorkerNext(s, op).reqs[id].abandoned == s.reqs[id].abandoned
  {
  }

  lemma CancellerKeepsAbandoned(s: State, op: CancellerOp, id: Id)
    requires CancellerReady(s, op) && id in s.reqs
    ensures id in CancellerNext(s, op).reqs
    ensures s.reqs[id].abandoned ==> CancellerNext(s, op).reqs[id].abandoned
  {
  }

  lemma AbandonedStays(s: State, e: Event, id: Id)
    requires Enabled(s, e) && id in s.reqs && s.reqs[id].abandoned
    ensures id in Next(s, e).reqs && Next(s, e).reqs[id].abandoned
  {
    hide WorkerNext, CancellerNext;
    match e
    case Work(op) => WorkerKeepsAbandoned(s, op, id);
    case Cancel(op) => CancellerKeepsAbandoned(s, op, id);
    case _ =>
  }

  lemma {:induction false} AbandonedForever(s: State, run: seq<Event>, id: Id)
    requires Reachable(s) && ValidFrom(s, run) && id in s.reqs && s.reqs[id].abandoned
    ensures id in After(s, run).reqs && After(s, run).reqs[id].abandoned && !Gone(After(s, run).reqs[id].pc)
    decreases run
  {
    hide ViewOf, Held, Next, Enabled;
    if run == [] {
      ReleasedOnlyWhenUnheld(s, id);
    } else {
      AbandonedStays(s, run[0], id);
      var t := Extend(s, run[0]);
      AbandonedForever(t, run[1..], id);
    }
  }

  lemma {:induction false} JoinRuns(s: State, run: seq<Event>, more: seq<Event>)
    requires ValidFrom(s, run) && ValidFrom(After(s, run), more)
    ensures ValidFrom(s, run + more) && After(s, run + more) == After(After(s, run), more)
    decreases run
  {
    hide Next, Enabled;
    if run == [] {
      assert run + more == more;
    } else {
      JoinRuns(Next(s, run[0]), run[1..], more);
      assert (run + more)[1..] == run[1..] + more;
    }
  }

  lemma Extend(s: State, e: Event) returns (t: State)
    requires Reachable(s) && Enabled(s, e)
    ensures t == Next(s, e) && Reachable(t)
  {
    var run :| ValidFrom(Init, run) && After(Init, run) == s;
    JoinRuns(Init, run, [e]);
    t := Next(s, e);
  }

  // ----- The host is finished before the memory goes -----

  lemma RequesterKeepsResult(r: Request, v: View, op: RequesterOp)
    requires RequestOk(r, v) && RequesterReady(r, op) && !r.restart && r.status != Pending
    ensures RequesterNext(r, op).status == r.status && !RequesterNext(r, op).owned
  {
  }

  lemma WorkerKeepsResult(s: State, op: WorkerOp, id: Id)
    requires WorkerReady(s, op) && id in s.reqs && RequestOk(s.reqs[id], ViewOf(s, id))
    requires !s.reqs[id].restart && s.reqs[id].status != Pending
    ensures id in WorkerNext(s, op).reqs
    ensures WorkerNext(s, op).reqs[id].status == s.reqs[id].status && !WorkerNext(s, op).reqs[id].owned
  {
  }

  lemma CancellerKeepsResult(s: State, op: CancellerOp, id: Id)
    requires CancellerReady(s, op) && id in s.reqs
    ensures id in CancellerNext(s, op).reqs
    ensures CancellerNext(s, op).reqs[id].status == s.reqs[id].status
    ensures CancellerNext(s, op).reqs[id].owned == s.reqs[id].owned
  {
  }

  /** The status of a request that is not restarted never returns to PENDING, so once the host
      has moved it the host does not get the request again. */
  lemma ResultIsFinal(s: State, e: Event, id: Id)
    requires Reachable(s) && Enabled(s, e) && id in s.reqs && !s.reqs[id].restart
    requires s.reqs[id].status != Pending
    ensures id in Next(s, e).reqs
    ensures Next(s, e).reqs[id].status == s.reqs[id].status && !Next(s, e).reqs[id].owned
  {
    ReachableRequest(s, id);
    match e
    case Create(_, _, _, _) =>
    case Requester(i, op) => if i == id { RequesterKeepsResult(s.reqs[id], ViewOf(s, id), op); }
    case HostComplete(_, _) =>
    case Interrupt =>
    case Work(op) => WorkerKeepsResult(s, op, id);
    case Cancel(op) => CancellerKeepsResult(s, op, id);
  }

  /** The submit loop ends exactly with an answer that is not to be restarted, starts over exactly
      on one that is, and goes on to wait exactly while the host has the request. */
  lemma PollDecides(s: State, id: Id)
    requires Reachable(s) && Enabled(s, Requester(id, Poll))
    ensures var r, q := s.reqs[id], Next(s, Requester(id, Poll)).reqs[id];
            && (Gone(q.pc) <==> HasResult(r))
            && (q.pc.Filled? <==> r.restart && r.status == Success)
            && (q.pc.Polled? <==> q.owned)
  {
    ReachableRequest(s, id);
  }

  ghost predicate HostFinishedFirst(restart: bool) {
    forall s, id :: Reachable(s) && id in s.reqs && s.reqs[id].restart == restart && Gone(s.reqs[id].pc) ==>
                      s.reqs[id].status != Pending && !s.reqs[id].owned
  }

  /** The submitted memory is unmapped and freed only after the host is finished with it,
      on every path, exactly for the requests without TG_REQ_RESTART_ON_SUCCESS. */
  lemma HostFinishedIffNotRestarted(restart: bool)
    ensures HostFinishedFirst(restart) <==> !restart
  {
    if restart {
      var s := RestartRace();
      assert Gone(s.reqs[0].pc);
    } else {
      forall s, id | Reachable(s) && id in s.reqs && s.reqs[id].restart == restart && Gone(s.reqs[id].pc)
        ensures s.reqs[id].status != Pending && !s.reqs[id].owned
      {
        ReachableRequest(s, id);
      }
    }
  }

  /** The state with one restarted request, number 0, and no other actor in a locked section. */
  function Solo(r: Request, listed: bool, irq: bool): State {
    State(map[0 := r], if listed then {0} else {}, Unlocked, irq, false, WIdle, CIdle)
  }

  function Alone(status: Status, owned: bool, pc: Pc): Request {
    Request(true, status, owned, pc, false, 0, 0, false, pc.Cancelled? || pc.Unlisting?)
  }

  lemma SoloStep(r: Request, listed: bool, irq: bool, op: RequesterOp)
    requires Reachable(Solo(r, listed, irq)) && RequesterReady(r, op) && !op.Recheck? && !op.Enlist? && !op.Unlist?
    ensures Reachable(Solo(RequesterNext(r, op), listed, irq))
  {
    var s := Solo(r, listed, irq);
    var t := Extend(s, Requester(0, op));
    assert t.reqs == map[0 := RequesterNext(r, op)];
  }

  lemma RacePolled()
    ensures Reachable(Solo(Alone(Pending, true, Prepared), false, false))
  {
    assert ValidFrom(Init, []) && After(Init, []) == Init;
    var s := Extend(Init, Create(0, true, false, 0));
    assert s == Solo(Alone(Pending, false, Filled), false, false);
    SoloStep(Alone(Pending, false, Filled), false, false, StorePending);
    SoloStep(Alone(Pending, false, Stored), false, false, Submit);
    SoloStep(Alone(Pending, true, Issued), false, false, Poll);
    SoloStep(Alone(Pending, true, Polled), false, false, Prepare);
  }

  lemma RaceSubmitted()
    ensures Reachable(Solo(Alone(Pending, true, Started), true, false))
  {
    RacePolled();
    var s := Extend(Solo(Alone(Pending, true, Prepared), false, false), Requester(0, Recheck));
    assert s.reqs == map[0 := Alone(Pending, true, Rechecked(Pending))];
    s := Extend(s, Requester(0, Enlist));
    assert s == Solo(Alone(Pending, true, Started), true, false);
  }

  lemma RaceCancelled()
    ensures Reachable(Solo(Alone(Pending, true, Cancelled), true, false))
  {
    RaceSubmitted();
    SoloStep(Alone(Pending, true, Started), true, false, BeginCancel);
    SoloStep(Alone(Pending, true, Signalled), true, false, CheckStatus);
    SoloStep(Alone(Pending, true, Cancelling), true, false, WriteCancel);
  }

  lemma RaceFinished()
    ensures Reachable(Solo(Alone(Success, false, Unlisting), true, true))
  {
    RaceCancelled();
    var s := Extend(Solo(Alone(Pending, true, Cancelled), true, false), HostComplete(0, Success));
    assert s.reqs == map[0 := Alone(Success, false, Cancelled)];
    SoloStep(Alone(Success, false, Cancelled), true, true, CheckCancelled);
  }

  lemma RaceScanned() returns (s: State)
    ensures Reachable(s) && s.reqs == map[0 := Alone(Pending, false, Unlisting)] && s.listed == {0}
    ensures s.worker == WResubmitting(0, {}, {}) && s.lock == ByWorker
  {
    RaceFinished();
    s := Extend(Solo(Alone(Success, false, Unlisting), true, true), Interrupt);
    s := Extend(s, Work(BeginWork));
    s := Extend(s, Work(LockList));
    assert s.worker == WScanning({0}, {});
    s := Extend(s, Work(ScanNext(0)));
    assert s.worker.todo == {};
    assert s.reqs == map[0 := Alone(Pending, false, Unlisting)];
  }

  /** Between the canceller's status test and its list_del the bottom half resubmits. */
  lemma RestartRace() returns (s: State)
    ensures Reachable(s) && 0 in s.reqs && s.reqs[0].restart && s.reqs[0].pc.Freed? && s.reqs[0].owned
  {
    s := RaceScanned();
    s := Extend(s, Work(Resubmit));
    assert s.worker.todo == {} && s.reqs[0] == Alone(Pending, true, Unlisting);
    s := Extend(s, Work(UnlockList));
    s := Extend(s, Requester(0, Unlist));
    s := Extend(s, Requester(0, Release));
    s := Extend(s, Requester(0, Destroy));
  }

  // ----- No lost wakeup -----

  predicate Blocking(pc: Pc) {
    pc.Waiting? || pc.Blocked?
  }

  /** A listed request with a result is ahead in a running scan, or another scan is due; a
      waiting requester's request is completed, abandoned, or held by exactly one list. */
  lemma NoLostWakeup(s: State, id: Id)
    requires Reachable(s) && id in s.reqs
    ensures id in s.listed && s.reqs[id].status != Pending ==> ViewOf(s, id).ahead || ViewOf(s, id).due
    ensures var v := ViewOf(s, id);
            Blocking(s.reqs[id].pc) ==>
              || (s.reqs[id].done == 1 && !Held(v) && !s.reqs[id].abandoned)
              || (s.reqs[id].done == 0 && !Held(v) && s.reqs[id].abandoned)
              || (s.reqs[id].done == 0 && !s.reqs[id].abandoned &&
                    ((v.listed && !v.byWorker && !v.byCanceller)
                     || (!v.listed && v.byWorker && !v.byCanceller)
                     || (!v.listed && !v.byWorker && v.byCanceller)))
  {
    ReachableRequest(s, id);
  }
}
