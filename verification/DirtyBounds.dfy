/**
  * The rectangle of changed pixels a guest shares with its host.
  *
  * Callers enlarge the rectangle with a compare-and-swap loop; the host at any time takes it and
  * leaves the empty one. Reads and swaps of the 64-bit rectangle are atomic.
  */
module DirtyBounds {
  import opened MachineTypes

  type Short = x: int | -0x8000 <= x < 0x8000

  datatype Bounds = Bounds(left: Short, top: Short, right: Short, bottom: Short)
  datatype Clip = Clip(x1: U16, y1: U16, x2: U16, y2: U16)
  datatype Framebuffer = Framebuffer(width: U32, height: U32)

  // What the host leaves when it takes the rectangle.
  const EMPTY := Bounds(16383, 16383, -16384, -16384)

  // Storing into a 16-bit field keeps the low bits.
  function ToShort(x: int): Short {
    (x + 0x8000) % 0x1_0000 - 0x8000
  }

  function MergeClip(b: Bounds, clip: Clip): Bounds {
    Bounds(if b.left > clip.x1 then ToShort(clip.x1) else b.left,
           if b.top > clip.y1 then ToShort(clip.y1) else b.top,
           if b.right < clip.x2 then ToShort(clip.x2) else b.right,
           if b.bottom < clip.y2 then ToShort(clip.y2) else b.bottom)
  }

  function MergeClips(b: Bounds, clips: seq<Clip>): Bounds {
    if clips == [] then b else MergeClip(MergeClips(b, clips[..|clips| - 1]), clips[|clips| - 1])
  }

  function Whole(fb: Framebuffer): Bounds {
    Bounds(0, 0, ToShort(fb.width), ToShort(fb.height))
  }

  // A call without clips replaces the rectangle by the whole framebuffer.
  function Updated(b: Bounds, fb: Framebuffer, clips: seq<Clip>): Bounds {
    if clips == [] then Whole(fb) else MergeClips(b, clips)
  }

  /** The merge of one attempt, as the driver computes it. */
  method Merge(cmp: Bounds, fb: Framebuffer, clips: seq<Clip>) returns (exe: Bounds)
    ensures exe == Updated(cmp, fb, clips)
  {
    exe := cmp;
    if |clips| == 0 {
      exe := Bounds(0, 0, ToShort(fb.width), ToShort(fb.height));
    } else {
      for i := 0 to |clips|
        invariant exe == MergeClips(cmp, clips[..i])
      {
        ghost var was := exe;
        if exe.left > clips[i].x1 {
          exe := exe.(left := ToShort(clips[i].x1));
        }
        if exe.top > clips[i].y1 {
          exe := exe.(top := ToShort(clips[i].y1));
        }
        if exe.right < clips[i].x2 {
          exe := exe.(right := ToShort(clips[i].x2));
        }
        if exe.bottom < clips[i].y2 {
          exe := exe.(bottom := ToShort(clips[i].y2));
        }
        assert exe == MergeClip(was, clips[i]);
        assert clips[..i + 1][..i] == clips[..i];
      }
      assert clips[..|clips|] == clips;
    }
  }

  // The pixels of a rectangle with these corners.
  datatype Rect = Rect(x1: int, y1: int, x2: int, y2: int)

  function ClipRect(clip: Clip): Rect {
    Rect(clip.x1, clip.y1, clip.x2, clip.y2)
  }

  ghost predicate Covers(b: Bounds, r: Rect) {
    b.left <= r.x1 && b.top <= r.y1 && r.x2 <= b.right && r.y2 <= b.bottom
  }

  ghost predicate Within(inner: Bounds, outer: Bounds) {
    && outer.left <= inner.left && outer.top <= inner.top
    && inner.right <= outer.right && inner.bottom <= outer.bottom
  }

  /** Merging a clip covers it exactly when its far corner fits a 16-bit field. */
  lemma MergeCoversIff(b: Bounds, clip: Clip)
    ensures Covers(MergeClip(b, clip), ClipRect(clip)) <==> clip.x2 < 0x8000 && clip.y2 < 0x8000
  {
  }

  ghost predicate Fits(clip: Clip) {
    clip.x1 < 0x8000 && clip.y1 < 0x8000 && clip.x2 < 0x8000 && clip.y2 < 0x8000
  }

  lemma MergeClipIsLeast(b: Bounds, clip: Clip, outer: Bounds)
    requires Fits(clip)
    ensures Within(b, MergeClip(b, clip)) && Covers(MergeClip(b, clip), ClipRect(clip))
    ensures Within(b, outer) && Covers(outer, ClipRect(clip)) ==> Within(MergeClip(b, clip), outer)
  {
  }

  /** The merge contains what was there and every clip, and is contained in whatever does. */
  lemma {:induction false} MergeIsLeast(b: Bounds, clips: seq<Clip>, outer: Bounds)
    requires forall clip | clip in clips :: Fits(clip)
    ensures Within(b, MergeClips(b, clips))
    ensures forall clip | clip in clips :: Covers(MergeClips(b, clips), ClipRect(clip))
    ensures Within(b, outer) && (forall clip | clip in clips :: Covers(outer, ClipRect(clip))) ==>
              Within(MergeClips(b, clips), outer)
  {
    hide MergeClip, Fits;
    if clips != [] {
      var front, last := clips[..|clips| - 1], clips[|clips| - 1];
      MergeIsLeast(b, front, outer);
      MergeClipIsLeast(MergeClips(b, front), last, outer);
      forall clip | clip in clips ensures Covers(MergeClips(b, clips), ClipRect(clip)) {
        assert clip in front || clip == last;
      }
    }
  }

  // The framebuffers that calls update, and whether the clips they are given are known to lie inside.
  datatype Device = Device(fbs: set<Framebuffer>, checked: bool)

  // A call of prl_fb_dirty. `since` is how much the host had taken when it began.
  datatype Phase = Reading | Merged(cmp: Bounds, exe: Bounds) | Returned
  datatype Call = Call(fb: Framebuffer, clips: seq<Clip>, since: nat, phase: Phase)

  datatype State = State(bounds: Bounds, taken: seq<Bounds>, calls: map<nat, Call>)

  datatype Event = Begin(id: nat, fb: Framebuffer, clips: seq<Clip>) | Read(id: nat) | Commit(id: nat) | HostTakes

  // Clips that lie inside the framebuffer.
  ghost predicate Inside(fb: Framebuffer, clips: seq<Clip>) {
    forall clip | clip in clips ::
      clip.x1 <= fb.width && clip.x2 <= fb.width && clip.y1 <= fb.height && clip.y2 <= fb.height
  }

  ghost predicate Given(dev: Device, fb: Framebuffer, clips: seq<Clip>) {
    fb in dev.fbs && (dev.checked ==> Inside(fb, clips))
  }

  ghost predicate Enabled(dev: Device, s: State, e: Event) {
    match e
    case Begin(id, fb, clips) => id !in s.calls && Given(dev, fb, clips)
    case Read(id) => id in s.calls && s.calls[id].phase.Reading?
    case Commit(id) => id in s.calls && s.calls[id].phase.Merged?
    case HostTakes => true
  }

  // One atomic step. A commit returns when there was nothing to add or the swap succeeds, and goes
  // back to reading when somebody else changed the rectangle first.
  ghost function Next(dev: Device, s: State, e: Event): State
    requires Enabled(dev, s, e)
  {
    match e
    case Begin(id, fb, clips) => s.(calls := s.calls[id := Call(fb, clips, |s.taken|, Reading)])
    case Read(id) =>
      var call := s.calls[id];
      var exe := Updated(s.bounds, call.fb, call.clips);
      s.(calls := s.calls[id := call.(phase := Merged(s.bounds, exe))])
    case Commit(id) =>
      var call := s.calls[id];
      if call.phase.exe == call.phase.cmp then
        s.(calls := s.calls[id := call.(phase := Returned)])
      else if s.bounds == call.phase.cmp then
        s.(bounds := call.phase.exe, calls := s.calls[id := call.(phase := Returned)])
      else
        s.(calls := s.calls[id := call.(phase := Reading)])
    case HostTakes => s.(bounds := EMPTY, taken := s.taken + [s.bounds])
  }

  ghost const Init := State(EMPTY, [], map[])

  // A run in which every call updates one of these framebuffers.
  ghost predicate IsRun(dev: Device, events: seq<Event>, states: seq<State>) {
    && |states| == |events| + 1
    && states[0] == Init
    && forall i | 0 <= i < |events| ::
         Enabled(dev, states[i], events[i]) && states[i + 1] == Next(dev, states[i], events[i])
  }

  // The rectangles a call reports.
  ghost predicate Reports(call: Call, r: Rect) {
    if call.clips == [] then r == Rect(0, 0, call.fb.width, call.fb.height)
    else exists clip | clip in call.clips :: r == ClipRect(clip)
  }

  // The rectangle is in what the host will take next, or in something it took since then.
  ghost predicate Kept(s: State, since: nat, r: Rect) {
    || Covers(s.bounds, r)
    || exists i | since <= i < |s.taken| :: Covers(s.taken[i], r)
  }

  // Whatever a returned call reported is kept.
  ghost predicate NothingLost(s: State) {
    forall id, r | id in s.calls && s.calls[id].phase.Returned? && Reports(s.calls[id], r) ::
      Kept(s, s.calls[id].since, r)
  }

  // No run that updates these framebuffers loses anything.
  ghost predicate Lossless(dev: Device) {
    forall events, states | IsRun(dev, events, states) :: NothingLost(states[|events|])
  }

  ghost predicate CallOk(dev: Device, s: State, call: Call) {
    && call.since <= |s.taken|
    && Given(dev, call.fb, call.clips)
    && (call.phase.Merged? ==> call.phase.exe == Updated(call.phase.cmp, call.fb, call.clips))
    && (call.phase.Returned? || (call.phase.Merged? && call.phase.exe == call.phase.cmp) ==>
          forall r | Reports(call, r) :: Kept(s, call.since, r))
  }

  ghost predicate Inv(dev: Device, s: State) {
    forall id | id in s.calls :: CallOk(dev, s, s.calls[id])
  }

  // Framebuffers whose sizes fit a 16-bit field.
  ghost predicate Proper(dev: Device) {
    forall fb | fb in dev.fbs :: fb.width < 0x8000 && fb.height < 0x8000
  }

  // All framebuffers have the same size.
  ghost predicate Single(dev: Device) {
    forall f, g | f in dev.fbs && g in dev.fbs :: f == g
  }

  // What it takes to lose nothing.
  ghost predicate Safe(dev: Device) {
    Proper(dev) && Single(dev) && (dev.checked || dev.fbs == {})
  }

  lemma UpdateCovers(dev: Device, call: Call, b: Bounds, r: Rect)
    requires Proper(dev) && call.fb in dev.fbs && Inside(call.fb, call.clips) && Reports(call, r)
    ensures Covers(Updated(b, call.fb, call.clips), r)
  {
    if call.clips != [] {
      MergeIsLeast(b, call.clips, b);
    }
  }

  // What a caller swaps in loses nothing any caller has reported.
  lemma UpdateKeeps(dev: Device, call: Call, b: Bounds, other: Call, r: Rect)
    requires Safe(dev) && call.fb in dev.fbs && other.fb in dev.fbs
    requires Inside(call.fb, call.clips) && Inside(other.fb, other.clips)
    requires Reports(other, r) && Covers(b, r)
    ensures Covers(Updated(b, call.fb, call.clips), r)
  {
    if call.clips != [] {
      MergeIsLeast(b, call.clips, b);
    }
  }

  // The host's take and a successful swap keep whatever was kept.
  lemma StepKeeps(dev: Device, s: State, e: Event, call: Call, r: Rect)
    requires Safe(dev) && Inv(dev, s) && Enabled(dev, s, e)
    requires call.fb in dev.fbs && Inside(call.fb, call.clips) && Reports(call, r)
    requires call.since <= |s.taken| && Kept(s, call.since, r)
    ensures Kept(Next(dev, s, e), call.since, r)
  {
    var t := Next(dev, s, e);
    if i :| call.since <= i < |s.taken| && Covers(s.taken[i], r) {
      assert t.taken[i] == s.taken[i];
    } else if e.HostTakes? {
      assert t.taken[|s.taken|] == s.bounds;
    } else if t.bounds != s.bounds {
      UpdateKeeps(dev, s.calls[e.id], s.bounds, call, r);
    }
  }

  lemma StepKeepsCall(dev: Device, s: State, e: Event, id: nat)
    requires Safe(dev) && Inv(dev, s) && Enabled(dev, s, e)
    requires id in Next(dev, s, e).calls
    ensures CallOk(dev, Next(dev, s, e), Next(dev, s, e).calls[id])
  {
    var t := Next(dev, s, e);
    var call := t.calls[id];
    forall r | Reports(call, r) &&
               (call.phase.Returned? || (call.phase.Merged? && call.phase.exe == call.phase.cmp))
      ensures Kept(t, call.since, r)
    {
      if e.Read? && e.id == id {
        UpdateCovers(dev, call, s.bounds, r);
      } else if e.Commit? && e.id == id && t.bounds != s.bounds {
        UpdateCovers(dev, call, s.bounds, r);
      } else {
        assert Reports(s.calls[id], r);
        StepKeeps(dev, s, e, call, r);
      }
    }
  }

  lemma {:induction false} RunKeepsInv(dev: Device, events: seq<Event>, states: seq<State>, n: nat)
    requires Safe(dev) && IsRun(dev, events, states) && n <= |events|
    ensures Inv(dev, states[n])
  {
    if n > 0 {
      RunKeepsInv(dev, events, states, n - 1);
      forall id | id in states[n].calls ensures CallOk(dev, states[n], states[n].calls[id]) {
        StepKeepsCall(dev, states[n - 1], events[n - 1], id);
      }
    }
  }

  /**
    * No damage inside framebuffers of one size is lost: whatever a returned call reported, the host has taken
    * in one piece since the call began, or will take next, however callers and host interleave.
    */
  lemma NoLostDamage(dev: Device, events: seq<Event>, states: seq<State>, n: nat)
    requires Safe(dev) && IsRun(dev, events, states) && n <= |events|
    ensures NothingLost(states[n])
  {
    RunKeepsInv(dev, events, states, n);
  }

  /** An attempt nobody interferes with returns. */
  lemma UndisturbedAttemptReturns(dev: Device, s: State, id: nat)
    requires Enabled(dev, s, Read(id))
    ensures Enabled(dev, Next(dev, s, Read(id)), Commit(id))
    ensures Next(dev, Next(dev, s, Read(id)), Commit(id)).calls[id].phase.Returned?
  {
  }

  // A call that runs undisturbed.
  ghost function CallEvents(id: nat, fb: Framebuffer, clips: seq<Clip>): seq<Event> {
    [Begin(id, fb, clips), Read(id), Commit(id)]
  }

  ghost function AfterCall(s: State, id: nat, fb: Framebuffer, clips: seq<Clip>): State {
    s.(bounds := Updated(s.bounds, fb, clips), calls := s.calls[id := Call(fb, clips, |s.taken|, Returned)])
  }

  lemma CallRuns(dev: Device, s: State, id: nat, fb: Framebuffer, clips: seq<Clip>)
    returns (began: State, merged: State)
    requires Given(dev, fb, clips) && id !in s.calls
    ensures Enabled(dev, s, Begin(id, fb, clips)) && began == Next(dev, s, Begin(id, fb, clips))
    ensures Enabled(dev, began, Read(id)) && merged == Next(dev, began, Read(id))
    ensures Enabled(dev, merged, Commit(id)) && AfterCall(s, id, fb, clips) == Next(dev, merged, Commit(id))
  {
    began := Next(dev, s, Begin(id, fb, clips));
    merged := Next(dev, began, Read(id));
    assert Next(dev, merged, Commit(id)).calls == AfterCall(s, id, fb, clips).calls;
  }

  // A call, and then a full update: that replaces the rectangle, it does not merge.
  lemma UpdateForgets(dev: Device, f: Framebuffer, clips: seq<Clip>, g: Framebuffer, r: Rect)
    returns (events: seq<Event>, states: seq<State>)
    requires Given(dev, f, clips) && g in dev.fbs
    requires Reports(Call(f, clips, 0, Returned), r) && !Covers(Whole(g), r)
    ensures IsRun(dev, events, states) && !NothingLost(states[|events|])
  {
    var began, merged := CallRuns(dev, Init, 0, f, clips);
    var between := AfterCall(Init, 0, f, clips);
    var beganAgain, mergedAgain := CallRuns(dev, between, 1, g, []);
    var end := AfterCall(between, 1, g, []);
    events := CallEvents(0, f, clips) + CallEvents(1, g, []);
    states := [Init, began, merged, between, beganAgain, mergedAgain, end];
    assert Reports(end.calls[0], r) && !Kept(end, 0, r);
  }

  /** A full update of one framebuffer forgets that of another that does not lie within it. */
  lemma SecondUpdateForgets(dev: Device, f: Framebuffer, g: Framebuffer)
    returns (events: seq<Event>, states: seq<State>)
    requires Proper(dev) && f in dev.fbs && g in dev.fbs && (f.width > g.width || f.height > g.height)
    ensures IsRun(dev, events, states) && !NothingLost(states[|events|])
  {
    events, states := UpdateForgets(dev, f, [], g, Rect(0, 0, f.width, f.height));
  }

  /** A full update forgets a clip that reaches outside the framebuffer. */
  lemma OutsideForgotten(dev: Device, fb: Framebuffer)
    returns (events: seq<Event>, states: seq<State>)
    requires Proper(dev) && fb in dev.fbs && !dev.checked
    ensures IsRun(dev, events, states) && !NothingLost(states[|events|])
  {
    var clip := Clip(0, 0, fb.width + 1, 0);
    events, states := UpdateForgets(dev, fb, [clip], fb, ClipRect(clip));
  }

  /** A full update of a framebuffer with a size beyond 16 bits loses its own damage. */
  lemma OversizedIsLost(dev: Device, fb: Framebuffer)
    returns (events: seq<Event>, states: seq<State>)
    requires fb in dev.fbs && (fb.width >= 0x8000 || fb.height >= 0x8000)
    ensures IsRun(dev, events, states) && !NothingLost(states[|events|])
  {
    events, states := UpdateForgets(dev, fb, [], fb, Rect(0, 0, fb.width, fb.height));
  }

  /**
    * Damage is never lost if and only if all framebuffers have the same size, it fits a 16-bit field,
    * and no clip reaches outside.
    */
  lemma LosslessIff(dev: Device)
    ensures Lossless(dev) <==> Safe(dev)
  {
    var events, states;
    if fb :| fb in dev.fbs && (fb.width >= 0x8000 || fb.height >= 0x8000) {
      events, states := OversizedIsLost(dev, fb);
    } else if f, g :| f in dev.fbs && g in dev.fbs && f != g {
      if f.width > g.width || f.height > g.height {
        events, states := SecondUpdateForgets(dev, f, g);
      } else {
        events, states := SecondUpdateForgets(dev, g, f);
      }
    } else if !dev.checked && dev.fbs != {} {
      var fb :| fb in dev.fbs;
      events, states := OutsideForgotten(dev, fb);
    } else {
      forall events, states | IsRun(dev, events, states) ensures NothingLost(states[|events|]) {
        NoLostDamage(dev, events, states, |events|);
      }
    }
  }
}
