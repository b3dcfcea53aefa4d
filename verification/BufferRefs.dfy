/**
  * Reference counts of drawable buffers, under any interleaving of clips, destroys, closing files
  * and GL commands. Each event is one critical section, one atomic operation or one free.
  */
module BufferRefs {
  type Thread = nat
  type BufferId = nat
  type DrawableId = nat
  type Owner = nat

  // Who points at a buffer: a table entry, or the local variable of a running call.
  datatype Holder = Table(id: DrawableId) | Local(thread: Thread)

  // What a running call is about to do with the buffer in its local variable. Freeing is past the
  // decrement: the buffer is no longer counted, only still to be freed.
  datatype Phase = Fresh | Using | Putting | Freeing(buffer: BufferId)

  datatype Buffer = Buffer(refcnt: int, frees: nat)

  datatype State = State(
    owners: map<DrawableId, Owner>,
    refs: map<Holder, BufferId>,
    phases: map<Thread, Phase>,
    buffers: map<BufferId, Buffer>)

  datatype Event =
    | Create(id: DrawableId, owner: Owner)
    | Alloc(thread: Thread, buffer: BufferId)            // clip: a new buffer, with one reference
    | Abandon(thread: Thread)                            // clip: copying from the user fails
    | Swap(thread: Thread, id: DrawableId, owner: Owner) // clip: the table section
    | Detach(thread: Thread, id: DrawableId, owner: Owner) // destroy or release: the table section
    | Lookup(thread: Thread, id: DrawableId)             // GL command: the table section
    | Finish(thread: Thread)                             // GL command: the host has answered
    | Drop(thread: Thread)                               // the atomic decrement of a put
    | Free(thread: Thread)                               // the free after a decrement to zero

  const Init := State(map[], map[], map[], map[])

  ghost predicate In(s: State, thread: Thread, phase: Phase) {
    thread in s.phases && s.phases[thread] == phase
  }

  // The local variable of a call that holds a counted reference.
  ghost predicate HasLocal(s: State, thread: Thread) {
    Local(thread) in s.refs && s.refs[Local(thread)] in s.buffers
  }

  ghost predicate Enabled(s: State, e: Event) {
    match e
    case Create(id, _) => id !in s.owners
    case Alloc(t, b) => t !in s.phases && b !in s.buffers
    case Abandon(t) => In(s, t, Fresh) && HasLocal(s, t)
    case Swap(t, _, _) => In(s, t, Fresh) && HasLocal(s, t)
    case Detach(t, _, _) => t !in s.phases
    case Lookup(t, id) => t !in s.phases && (Table(id) in s.refs ==> s.refs[Table(id)] in s.buffers)
    case Finish(t) => In(s, t, Using)
    case Drop(t) => In(s, t, Putting) && HasLocal(s, t)
    case Free(t) => t in s.phases && s.phases[t].Freeing? && s.phases[t].buffer in s.buffers
  }

  ghost function Freed(s: State, b: BufferId): State
    requires b in s.buffers
  {
    s.(buffers := s.buffers[b := s.buffers[b].(frees := s.buffers[b].frees + 1)])
  }

  ghost function Counted(s: State, b: BufferId, delta: int): State
    requires b in s.buffers
  {
    s.(buffers := s.buffers[b := s.buffers[b].(refcnt := s.buffers[b].refcnt + delta)])
  }

  // The call ends, or goes on with this phase.
  ghost function Ended(s: State, t: Thread): State {
    s.(phases := s.phases - {t}, refs := s.refs - {Local(t)})
  }

  ghost function Going(s: State, t: Thread, phase: Phase, b: BufferId): State {
    s.(phases := s.phases[t := phase], refs := s.refs[Local(t) := b])
  }

  ghost function Next(s: State, e: Event): State
    requires Enabled(s, e)
  {
    match e
    case Create(id, owner) => s.(owners := s.owners[id := owner])
    case Alloc(t, b) => Going(s.(buffers := s.buffers[b := Buffer(1, 0)]), t, Fresh, b)
    case Abandon(t) => Freed(Ended(s, t), s.refs[Local(t)])
    case Swap(t, id, owner) =>
      var b := s.refs[Local(t)];
      if id in s.owners && s.owners[id] == owner then
        if Table(id) in s.refs then
          Going(s.(refs := s.refs[Table(id) := b]), t, Putting, s.refs[Table(id)])
        else
          Ended(s.(refs := s.refs[Table(id) := b]), t)
      else
        Freed(Ended(s, t), b)
    case Detach(t, id, owner) =>
      if id in s.owners && s.owners[id] == owner then
        var gone := s.(owners := s.owners - {id}, refs := s.refs - {Table(id)});
        if Table(id) in s.refs then Going(gone, t, Putting, s.refs[Table(id)]) else gone
      else s
    case Lookup(t, id) =>
      if Table(id) in s.refs then
        var b := s.refs[Table(id)];
        Counted(Going(s, t, Using, b), b, 1)
      else s
    case Finish(t) => s.(phases := s.phases[t := Putting])
    case Drop(t) =>
      var b := s.refs[Local(t)];
      var less := Counted(Ended(s, t), b, -1);
      if less.buffers[b].refcnt == 0 then less.(phases := less.phases[t := Freeing(b)]) else less
    case Free(t) => Freed(Ended(s, t), s.phases[t].buffer)
  }

  ghost function KeysOf<K, V>(m: map<K, V>, v: V): set<K> {
    set k | k in m && m[k] == v
  }

  // How many keys have this value.
  ghost function Count<K, V>(m: map<K, V>, v: V): nat {
    |KeysOf(m, v)|
  }

  ghost predicate Has<K, V>(m: map<K, V>, k: K, v: V) {
    k in m && m[k] == v
  }

  lemma CountPut<K, V>(m: map<K, V>, k: K, v: V, w: V)
    ensures Count(m[k := v], w) == Count(m, w) - (if Has(m, k, w) then 1 else 0) + (if v == w then 1 else 0)
  {
    var rest := KeysOf(m, w) - {k};
    assert KeysOf(m, w) == if Has(m, k, w) then rest + {k} else rest;
    assert KeysOf(m[k := v], w) == if v == w then rest + {k} else rest;
  }

  lemma CountDrop<K, V>(m: map<K, V>, k: K, w: V)
    ensures Count(m - {k}, w) == Count(m, w) - (if Has(m, k, w) then 1 else 0)
  {
    var rest := KeysOf(m - {k}, w);
    assert KeysOf(m, w) == if Has(m, k, w) then rest + {k} else rest;
  }

  lemma CountZeroIff<K, V>(m: map<K, V>, w: V)
    ensures Count(m, w) == 0 <==> forall k | k in m :: m[k] != w
  {
    if k :| k in m && m[k] == w {
      assert k in KeysOf(m, w);
    }
  }

  lemma CountOne<K, V>(m: map<K, V>, k: K)
    requires k in m && forall x | x in m && m[x] == m[k] :: x == k
    ensures Count(m, m[k]) == 1
  {
    assert KeysOf(m, m[k]) == {k};
  }

  // A buffer's count is the number of those who point at it, and the buffer is freed, or one call
  // is about to free it, exactly when nobody does.
  ghost predicate BufferOk(s: State, b: BufferId)
    requires b in s.buffers
  {
    var buffer, holders := s.buffers[b], Count(s.refs, b);
    && (buffer.frees == 0 ==> buffer.refcnt == holders)
    && buffer.frees + Count(s.phases, Freeing(b)) == if holders == 0 then 1 else 0
  }

  ghost predicate OnlyHolder(refs: map<Holder, BufferId>, h: Holder) {
    h in refs && forall g | g in refs && refs[g] == refs[h] :: g == h
  }

  ghost predicate LocalsOk(s: State) {
    && (forall t: Thread :: Local(t) in s.refs <==> t in s.phases && !s.phases[t].Freeing?)
    && (forall t | t in s.phases && s.phases[t].Freeing? :: s.phases[t].buffer in s.buffers)
    // a buffer still to enter the table is in nobody else's hands
    && (forall t | In(s, t, Fresh) :: OnlyHolder(s.refs, Local(t)))
  }

  ghost predicate TableOk(s: State) {
    && (forall h | h in s.refs :: s.refs[h] in s.buffers)
    && (forall id | Table(id) in s.refs :: id in s.owners)
    // the table holds a buffer only once
    && (forall i, j | Table(i) in s.refs && Table(j) in s.refs && s.refs[Table(i)] == s.refs[Table(j)] :: i == j)
  }

  ghost predicate Inv(s: State) {
    && TableOk(s)
    && LocalsOk(s)
    && forall b | b in s.buffers :: BufferOk(s, b)
  }

  lemma SwapKeepsBuffer(s: State, e: Event, c: BufferId)
    requires Inv(s) && Enabled(s, e) && e.Swap? && c in s.buffers
    ensures BufferOk(Next(s, e), c)
  {
    hide Count;
    var l, p := Local(e.thread), Freeing(c);
    CountDrop(s.phases, e.thread, p);
    CountPut(s.phases, e.thread, Putting, p);
    CountDrop(s.refs, l, c);
    CountOne(s.refs, l);
    var h, b := Table(e.id), s.refs[l];
    CountPut(s.refs, h, b, c);
    CountDrop(s.refs[h := b], l, c);
    if h in s.refs {
      CountPut(s.refs[h := b], l, s.refs[h], c);
    }
  }

  lemma StepKeepsBuffer(s: State, e: Event, c: BufferId)
    requires Inv(s) && Enabled(s, e) && c in Next(s, e).buffers
    ensures BufferOk(Next(s, e), c)
  {
    hide Count;
    if e.Create? {
      return;
    }
    var l, p := Local(e.thread), Freeing(c);
    CountDrop(s.phases, e.thread, p);
    CountPut(s.phases, e.thread, Fresh, p);
    CountPut(s.phases, e.thread, Using, p);
    CountPut(s.phases, e.thread, Putting, p);
    CountDrop(s.refs, l, c);
    match e {
      case Create(_, _) =>
      case Alloc(t, b) =>
        CountPut(s.refs, l, b, c);
        CountZeroIff(s.refs, c);
        CountZeroIff(s.phases, p);
      case Abandon(t) =>
        CountOne(s.refs, l);
      case Swap(t, id, owner) =>
        SwapKeepsBuffer(s, e, c);
      case Detach(t, id, owner) =>
        CountDrop(s.refs, Table(id), c);
        if Table(id) in s.refs {
          CountPut(s.refs - {Table(id)}, l, s.refs[Table(id)], c);
        }
      case Lookup(t, id) =>
        if Table(id) in s.refs {
          CountPut(s.refs, l, s.refs[Table(id)], c);
          CountZeroIff(s.refs, c);
        }
      case Finish(t) =>
      case Drop(t) =>
        CountZeroIff(s.refs, s.refs[l]);
        CountPut(s.phases - {t}, t, Freeing(s.refs[l]), p);
      case Free(t) =>
        CountZeroIff(s.phases, p);
    }
  }

  lemma StepKeepsTable(s: State, e: Event)
    requires Inv(s) && Enabled(s, e)
    ensures TableOk(Next(s, e))
  {
    hide BufferOk;
  }

  lemma StepKeepsFresh(s: State, e: Event, t: Thread, g: Holder)
    requires Inv(s) && Enabled(s, e)
    requires var u := Next(s, e);
             In(u, t, Fresh) && Local(t) in u.refs && g in u.refs && u.refs[g] == u.refs[Local(t)]
    ensures g == Local(t)
  {
    hide BufferOk;
    var u := Next(s, e);
    if !(e.Alloc? && e.thread == t) {
      assert In(s, t, Fresh) && OnlyHolder(s.refs, Local(t));
      assert s.refs[Local(t)] == u.refs[Local(t)];
    }
  }

  lemma StepKeepsLocals(s: State, e: Event)
    requires Inv(s) && Enabled(s, e)
    ensures LocalsOk(Next(s, e))
  {
    hide BufferOk, TableOk;
    var u := Next(s, e);
    assert TableOk(s) && TableOk(u) by {
      StepKeepsTable(s, e);
    }
    forall t: Thread
      ensures Local(t) in u.refs <==> t in u.phases && !u.phases[t].Freeing?
      ensures t in u.phases && u.phases[t].Freeing? ==> u.phases[t].buffer in u.buffers
    {
    }
    forall t | In(u, t, Fresh) ensures OnlyHolder(u.refs, Local(t)) {
      forall g | g in u.refs && u.refs[g] == u.refs[Local(t)] ensures g == Local(t) {
        StepKeepsFresh(s, e, t, g);
      }
    }
  }

  ghost predicate IsRun(events: seq<Event>, states: seq<State>) {
    && |states| == |events| + 1
    && states[0] == Init
    && forall i | 0 <= i < |events| :: Enabled(states[i], events[i]) && states[i + 1] == Next(states[i], events[i])
  }

  lemma InitKeepsInv()
    ensures Inv(Init)
  {
  }

  lemma {:induction false} RunKeepsInv(events: seq<Event>, states: seq<State>, n: nat)
    requires IsRun(events, states) && n <= |events|
    ensures Inv(states[n])
  {
    hide BufferOk, TableOk, LocalsOk, Next, Enabled;
    if n > 0 {
      RunKeepsInv(events, states, n - 1);
      var s, e := states[n - 1], events[n - 1];
      StepKeepsTable(s, e);
      StepKeepsLocals(s, e);
      forall b | b in states[n].buffers ensures BufferOk(states[n], b) {
        StepKeepsBuffer(s, e, b);
      }
    } else {
      InitKeepsInv();
    }
  }

  // What the events so far leave in the table, told one event at a time: the drawables and their
  // owners, the buffer each was last clipped to, and the buffer each clip has made.
  datatype Record = Record(
    owners: map<DrawableId, Owner>, clipped: map<DrawableId, BufferId>, made: map<Thread, BufferId>) {
    ghost predicate OwnedBy(id: DrawableId, owner: Owner) {
      id in owners && owners[id] == owner
    }
  }

  ghost function RecordNext(r: Record, e: Event): Record {
    match e
    case Create(id, owner) => r.(owners := r.owners[id := owner])
    case Alloc(t, b) => r.(made := r.made[t := b])
    case Swap(t, id, owner) =>
      if r.OwnedBy(id, owner) && t in r.made then r.(clipped := r.clipped[id := r.made[t]]) else r
    case Detach(_, id, owner) =>
      if r.OwnedBy(id, owner) then r.(owners := r.owners - {id}, clipped := r.clipped - {id}) else r
    case _ => r
  }

  ghost function Recorded(events: seq<Event>): Record {
    if events == [] then Record(map[], map[], map[])
    else RecordNext(Recorded(events[..|events| - 1]), events[|events| - 1])
  }

  ghost predicate TableAgrees(s: State, r: Record) {
    && s.owners == r.owners
    && (forall id :: Table(id) in s.refs <==> id in r.clipped)
    && (forall id | id in r.clipped :: s.refs[Table(id)] == r.clipped[id])
  }

  ghost predicate MadeAgrees(s: State, r: Record) {
    forall t | In(s, t, Fresh) :: t in r.made && Has(s.refs, Local(t), r.made[t])
  }

  lemma StepKeepsTableRecorded(s: State, e: Event, r: Record)
    requires Enabled(s, e) && TableAgrees(s, r) && MadeAgrees(s, r)
    ensures TableAgrees(Next(s, e), RecordNext(r, e))
  {
  }

  lemma StepKeepsMadeRecorded(s: State, e: Event, r: Record)
    requires Enabled(s, e) && MadeAgrees(s, r)
    ensures MadeAgrees(Next(s, e), RecordNext(r, e))
  {
  }

  /** Under any interleaving the table is what its sections, one after the other, make of it: an
      owner's clip puts its new buffer there, and a destroy takes entry and buffer away. */
  lemma {:induction false} TableIsRecorded(events: seq<Event>, states: seq<State>, n: nat)
    requires IsRun(events, states) && n <= |events|
    ensures TableAgrees(states[n], Recorded(events[..n])) && MadeAgrees(states[n], Recorded(events[..n]))
  {
    if n > 0 {
      hide TableAgrees, MadeAgrees, Next, Enabled, RecordNext;
      TableIsRecorded(events, states, n - 1);
      assert events[..n][..n - 1] == events[..n - 1];
      var r := Recorded(events[..n - 1]);
      StepKeepsTableRecorded(states[n - 1], events[n - 1], r);
      StepKeepsMadeRecorded(states[n - 1], events[n - 1], r);
    }
  }

  // The call works with this buffer, or is about to drop it.
  ghost predicate HasInHand(s: State, t: Thread, b: BufferId) {
    (In(s, t, Using) || In(s, t, Putting)) && Has(s.refs, Local(t), b)
  }

  lemma LookupTakes(s: State, e: Event)
    requires Enabled(s, e) && e.Lookup?
    ensures if Table(e.id) in s.refs then HasInHand(Next(s, e), e.thread, s.refs[Table(e.id)])
            else e.thread !in Next(s, e).phases
  {
  }

  lemma OthersLeaveInHand(s: State, e: Event, t: Thread, b: BufferId)
    requires Enabled(s, e) && HasInHand(s, t, b) && !(e.Drop? && e.thread == t)
    ensures HasInHand(Next(s, e), t, b)
  {
  }

  /** A GL command on a drawable gets the buffer it was last clipped to, and keeps it until it drops
      it; without one the command gets none. */
  lemma {:induction false} CommandUsesLatest(events: seq<Event>, states: seq<State>, m: nat, n: nat)
    requires IsRun(events, states) && m < n <= |events| && events[m].Lookup?
    requires forall i | m < i < n && events[i].Drop? :: events[i].thread != events[m].thread
    ensures var t, r := events[m].thread, Recorded(events[..m]);
            if events[m].id in r.clipped then
              HasInHand(states[n], t, r.clipped[events[m].id])
            else t !in states[m + 1].phases
    decreases n
  {
    hide HasInHand, Next, Enabled, Recorded;
    TableIsRecorded(events, states, m);
    if n > m + 1 {
      CommandUsesLatest(events, states, m, n - 1);
      var t, r := events[m].thread, Recorded(events[..m]);
      if events[m].id in r.clipped {
        OthersLeaveInHand(states[n - 1], events[n - 1], t, r.clipped[events[m].id]);
      }
    } else {
      LookupTakes(states[m], events[m]);
    }
  }

  // Calls, as opposed to the table, that hold a buffer.
  ghost function Commands(s: State, b: BufferId): set<Holder> {
    set h | h in s.refs && s.refs[h] == b && h.Local?
  }

  ghost predicate InTable(s: State, b: BufferId) {
    exists id :: Has(s.refs, Table(id), b)
  }

  lemma HoldersSplit(s: State, b: BufferId)
    requires TableOk(s)
    ensures Count(s.refs, b) == (if InTable(s, b) then 1 else 0) + |Commands(s, b)|
  {
    var holders := KeysOf(s.refs, b);
    if id :| Has(s.refs, Table(id), b) {
      forall h | h in holders && h.Table? ensures h == Table(id) {
        assert Has(s.refs, Table(h.id), b);
      }
      assert holders == Commands(s, b) + {Table(id)};
    } else {
      forall h | h in holders ensures h.Local? {
        assert h.Table? ==> Has(s.refs, Table(h.id), b);
      }
      assert holders == Commands(s, b);
    }
  }

  /** An unfreed buffer's count is its table reference plus the calls in flight with it. */
  lemma CountIsHolders(events: seq<Event>, states: seq<State>, n: nat, b: BufferId)
    requires IsRun(events, states) && n <= |events|
    requires b in states[n].buffers && states[n].buffers[b].frees == 0
    ensures states[n].buffers[b].refcnt ==
            (if InTable(states[n], b) then 1 else 0) + |Commands(states[n], b)|
  {
    hide Next, Enabled;
    RunKeepsInv(events, states, n);
    assert BufferOk(states[n], b);
    HoldersSplit(states[n], b);
  }

  /** Whoever points at a buffer finds it counted and not freed. */
  lemma NeverFreedInUse(events: seq<Event>, states: seq<State>, n: nat, h: Holder)
    requires IsRun(events, states) && n <= |events|
    requires h in states[n].refs
    ensures var b := states[n].refs[h];
            b in states[n].buffers && states[n].buffers[b].frees == 0 && states[n].buffers[b].refcnt > 0
  {
    RunKeepsInv(events, states, n);
    var b := states[n].refs[h];
    CountZeroIff(states[n].refs, b);
    assert BufferOk(states[n], b);
  }

  /** No buffer is freed twice: not so far, and not by a free that is about to happen. */
  lemma FreedAtMostOnce(events: seq<Event>, states: seq<State>, n: nat, b: BufferId)
    requires IsRun(events, states) && n <= |events| && b in states[n].buffers
    ensures states[n].buffers[b].frees <= 1
    ensures n < |events| && states[n + 1].buffers[b].frees > states[n].buffers[b].frees ==>
              states[n].buffers[b].frees == 0
  {
    hide Count, TableOk, LocalsOk;
    RunKeepsInv(events, states, n);
    assert BufferOk(states[n], b);
    if n < |events| {
      RunKeepsInv(events, states, n + 1);
      assert BufferOk(states[n + 1], b);
    }
  }

  /** With no call running, every buffer is in the table with count 1 or has been freed once. */
  lemma QuietMeansKeptOrFreed(events: seq<Event>, states: seq<State>, n: nat, b: BufferId)
    requires IsRun(events, states) && n <= |events| && b in states[n].buffers
    requires states[n].phases == map[]
    ensures InTable(states[n], b) ==> states[n].buffers[b] == Buffer(1, 0)
    ensures !InTable(states[n], b) ==> states[n].buffers[b].frees == 1
  {
    RunKeepsInv(events, states, n);
    var s := states[n];
    assert BufferOk(s, b);
    CountZeroIff(s.phases, Freeing(b));
    CountZeroIff(s.refs, b);
    forall h | h in s.refs && s.refs[h] == b ensures h.Table? && Has(s.refs, Table(h.id), b) {
    }
    if s.buffers[b].frees == 0 {
      CountIsHolders(events, states, n, b);
      assert Commands(s, b) == {};
    }
  }

  // Nobody points at the buffer any more.
  ghost predicate Dead(s: State, b: BufferId) {
    b in s.buffers && forall h | h in s.refs :: s.refs[h] != b
  }

  lemma StaysDead(s: State, e: Event, b: BufferId)
    requires Enabled(s, e) && Dead(s, b)
    ensures Dead(Next(s, e), b)
  {
  }

  /** A buffer whose count reached zero is never referenced again. */
  lemma {:induction false} NeverRevived(
    events: seq<Event>, states: seq<State>, i: nat, j: nat, b: BufferId)
    requires IsRun(events, states) && i <= j <= |events|
    requires b in states[i].buffers && (states[i].buffers[b].refcnt == 0 || states[i].buffers[b].frees > 0)
    ensures Dead(states[j], b)
    decreases j
  {
    if i < j {
      NeverRevived(events, states, i, j - 1, b);
      StaysDead(states[j - 1], events[j - 1], b);
    } else {
      RunKeepsInv(events, states, i);
      assert BufferOk(states[i], b);
      CountZeroIff(states[i].refs, b);
    }
  }
}
