/**
 Building and taking down a paged request: pinning and DMA-mapping its own pages and the pages
 of its buffers, and releasing all of them again.

 `Platform` keeps a balance of the page references and DMA mappings: what was taken less what was
 given back.  While nothing is `broken`, a page can only be put, and a handle only be unmapped,
 while it is outstanding, so that a method that verifies releases nothing twice.  An error path
 that unmaps a wrong word, or a failed submit, breaks the books; how far they are then off is
 part of the contracts.
 */
module RequestMapping {
  import opened MachineTypes
  import opened RequestSizing
  import opened RequestLayout

  type Page = nat
  type Handle = nat // dma_addr_t >> PAGE_SHIFT; 0 is a failed mapping

  /** How often each page or handle was taken, and how often it was given back. */
  datatype Balance = Balance(taken: multiset<nat>, given: multiset<nat>) {
    /** What is outstanding, or negative if more was given back than was taken. */
    function Owed(x: nat): int {
      taken[x] as int - given[x]
    }

    function Took(x: nat): Balance {
      this.(taken := taken[x := taken[x] + 1])
    }

    function Gave(x: nat): Balance {
      this.(given := given[x := given[x] + 1])
    }

    /** Off by as much as `m` is from `n`. */
    function Off(m: Balance, n: Balance): Balance {
      Balance(taken + m.taken + n.given, given + m.given + n.taken)
    }
  }

  ghost predicate Same(m: Balance, n: Balance) {
    forall x: nat :: m.Owed(x) == n.Owed(x)
  }

  ghost predicate NonNegative(m: Balance) {
    forall x: nat :: m.Owed(x) >= 0
  }

  /** One more of `y` is outstanding, or one less. */
  ghost predicate Changed(was: Balance, now: Balance, y: nat, change: int) {
    forall x: nat :: now.Owed(x) == was.Owed(x) + if x == y then change else 0
  }

  type Word = int // eight of the caller's inline bytes

  /** A word of the request.  Blank is whatever vmalloc left there, if that is no handle. */
  datatype Cell =
    | Blank
    | Data(word: Word)
    | Pfn(handle: Handle)
    | Va(va: U64)
    | Meta(byteCount: U32, writable: bool)

  datatype Status = Pending | Success | Failed

  /** What the host makes of a request: its status, and for each word the inline bytes or the byte
      count to put there, where there are any. */
  datatype Reply = Reply(status: Status, words: nat -> Word, counts: nat -> U32)

  /** struct up_list_entry */
  datatype UpEntry = UpEntry(writable: bool, pages: seq<Page>)

  // ----- Counting -----

  /** How often `p` occurs among the pages from `a` up to `b`. */
  function Times(pages: seq<Page>, a: nat, b: nat, p: Page): nat
    requires b <= |pages|
    decreases b - a
  {
    if a >= b then 0 else (if pages[a] == p then 1 else 0) + Times(pages, a + 1, b, p)
  }

  /** How many references the entries of an up_list hold on a page. */
  function Pinned(entries: seq<UpEntry>, p: Page): nat {
    if entries == [] then 0 else Times(entries[0].pages, 0, |entries[0].pages|, p) + Pinned(entries[1..], p)
  }

  /** The pages that the writable entries hold. */
  function Dirtied(entries: seq<UpEntry>): set<Page> {
    if entries == [] then {}
    else (if entries[0].writable then set p | p in entries[0].pages else {}) + Dirtied(entries[1..])
  }

  /** How often the words from `a` up to `b` record a handle. */
  function Count(cells: seq<Cell>, a: nat, b: nat, h: Handle): nat
    requires b <= |cells|
    decreases b - a
  {
    if a >= b then 0 else (if cells[a] == Pfn(h) then 1 else 0) + Count(cells, a + 1, b, h)
  }

  /** Beyond `base`, exactly the handles recorded from `a` up to `b` are mapped. */
  ghost predicate MapsOf(maps: Balance, base: Balance, cells: seq<Cell>, a: nat, b: nat)
    requires b <= |cells|
  {
    forall h: Handle :: maps.Owed(h) == base.Owed(h) + Count(cells, a, b, h)
  }

  /** Beyond `base`, exactly the pages of the entries are pinned. */
  ghost predicate PinsOf(pins: Balance, base: Balance, entries: seq<UpEntry>) {
    forall p: Page :: pins.Owed(p) == base.Owed(p) + Pinned(entries, p)
  }

  /** Words without a handle do not matter, at either end. */
  lemma MapsSkip(maps: Balance, base: Balance, cells: seq<Cell>, a: nat, b: nat, c: nat)
    requires a <= b <= c <= |cells|
    ensures (forall i :: a <= i < b ==> !cells[i].Pfn?) ==>
              (MapsOf(maps, base, cells, a, c) <==> MapsOf(maps, base, cells, b, c))
    ensures (forall i :: b <= i < c ==> !cells[i].Pfn?) ==>
              (MapsOf(maps, base, cells, a, c) <==> MapsOf(maps, base, cells, a, b))
  {
    forall h: Handle
      ensures (forall i :: a <= i < b ==> !cells[i].Pfn?) ==> Count(cells, a, c, h) == Count(cells, b, c, h)
      ensures (forall i :: b <= i < c ==> !cells[i].Pfn?) ==> Count(cells, a, c, h) == Count(cells, a, b, h)
    {
      CountSplit(cells, a, b, c, h);
      if forall i :: a <= i < b ==> !cells[i].Pfn? {
        CountNone(cells, a, b, h);
      }
      if forall i :: b <= i < c ==> !cells[i].Pfn? {
        CountNone(cells, b, c, h);
      }
    }
  }

  lemma {:induction false} CountSplit(cells: seq<Cell>, a: nat, b: nat, c: nat, h: Handle)
    requires a <= b <= c <= |cells|
    ensures Count(cells, a, c, h) == Count(cells, a, b, h) + Count(cells, b, c, h)
    decreases b - a
  {
    if a < b {
      CountSplit(cells, a + 1, b, c, h);
    }
  }

  lemma {:induction false} CountFrame(cells: seq<Cell>, others: seq<Cell>, a: nat, b: nat, h: Handle)
    requires b <= |cells| && b <= |others|
    requires forall i :: a <= i < b ==> cells[i] == others[i] || (!cells[i].Pfn? && !others[i].Pfn?)
    ensures Count(cells, a, b, h) == Count(others, a, b, h)
    decreases b - a
  {
    if a < b {
      CountFrame(cells, others, a + 1, b, h);
    }
  }

  lemma {:induction false} CountNone(cells: seq<Cell>, a: nat, b: nat, h: Handle)
    requires b <= |cells|
    requires forall i :: a <= i < b ==> !cells[i].Pfn?
    ensures Count(cells, a, b, h) == 0
    decreases b - a
  {
    if a < b {
      CountNone(cells, a + 1, b, h);
    }
  }

  /** Writing an index at the end of a recorded stretch. */
  lemma CountNext(before: seq<Cell>, cells: seq<Cell>, a: nat, b: nat, h: Handle)
    requires a <= b < |before| && cells == before[b := Pfn(h)]
    ensures forall x :: Count(cells, a, b, x) == Count(before, a, b, x)
    ensures forall x :: Count(cells, a, b + 1, x) == Count(before, a, b, x) + (if x == h then 1 else 0)
  {
    forall x: Handle
      ensures Count(cells, a, b, x) == Count(before, a, b, x)
      ensures Count(cells, a, b + 1, x) == Count(before, a, b, x) + (if x == h then 1 else 0)
    {
      CountFrame(before, cells, a, b, x);
      CountSplit(cells, a, b, b + 1, x);
    }
  }

  /** Writing an index in front of a recorded stretch. */
  lemma CountPrevious(before: seq<Cell>, cells: seq<Cell>, a: nat, b: nat, h: Handle)
    requires 0 < a <= b <= |before| && cells == before[a - 1 := Pfn(h)]
    ensures forall x :: Count(cells, a, b, x) == Count(before, a, b, x)
    ensures forall x :: Count(cells, a - 1, b, x) == Count(before, a, b, x) + (if x == h then 1 else 0)
  {
    forall x: Handle
      ensures Count(cells, a, b, x) == Count(before, a, b, x)
      ensures Count(cells, a - 1, b, x) == Count(before, a, b, x) + (if x == h then 1 else 0)
    {
      CountFrame(before, cells, a, b, x);
    }
  }

  lemma CountLast(cells: seq<Cell>, a: nat, b: nat)
    requires a <= b < |cells|
    ensures forall h: Handle :: Count(cells, a, b + 1, h) ==
                                Count(cells, a, b, h) + (if cells[b] == Pfn(h) then 1 else 0)
  {
    forall h: Handle
      ensures Count(cells, a, b + 1, h) == Count(cells, a, b, h) + (if cells[b] == Pfn(h) then 1 else 0)
    {
      CountSplit(cells, a, b, b + 1, h);
    }
  }

  lemma {:induction false} TimesNext(pages: seq<Page>, a: nat, b: nat)
    requires a <= b < |pages|
    ensures forall p :: Times(pages, a, b + 1, p) == Times(pages, a, b, p) + (if p == pages[b] then 1 else 0)
    decreases b - a
  {
    if a < b {
      TimesNext(pages, a + 1, b);
    }
  }

  // ----- Unwinding in the middle of a buffer -----

  predicate SameHandle(c: Cell, d: Cell) {
    c == d || (!c.Pfn? && !d.Pfn?)
  }

  ghost predicate SameCounts(cells: seq<Cell>, a: nat, b: nat, c: nat, d: nat)
    requires b <= |cells| && d <= |cells|
  {
    forall h: Handle :: Count(cells, a, b, h) == Count(cells, c, d, h)
  }

  lemma ShiftBalanced(cells: seq<Cell>, a: nat, b: nat)
    requires a <= b < |cells|
    ensures SameCounts(cells, a, b, a + 1, b + 1) <==> SameHandle(cells[a], cells[b])
  {
    forall h: Handle
      ensures Count(cells, a, b, h) - Count(cells, a + 1, b + 1, h) ==
              (if cells[a] == Pfn(h) then 1 else 0) - (if cells[b] == Pfn(h) then 1 else 0)
    {
      CountSplit(cells, a, b, b + 1, h);
    }
    if !SameHandle(cells[a], cells[b]) {
      var h := if cells[a].Pfn? then cells[a].handle else cells[b].handle;
      assert Count(cells, a, b, h) != Count(cells, a + 1, b + 1, h);
    }
  }

  /** The words from `a` up to `b` record what is mapped beyond `base`; an error path that unmaps
      the words one place further, or one place nearer, undoes that exactly if the word it should
      not have unmapped holds the handle it left out. */
  lemma ShiftedUnwindIff(maps: Balance, after: Balance, base: Balance, cells: seq<Cell>, a: nat, b: nat, up: bool)
    requires a <= b < |cells|
    requires MapsOf(maps, base, cells, if up then a else a + 1, if up then b else b + 1)
    requires MapsOf(maps, after, cells, if up then a + 1 else a, if up then b + 1 else b)
    ensures Same(after, base) <==> SameHandle(cells[a], cells[b])
  {
    ShiftBalanced(cells, a, b);
    if SameCounts(cells, a, b, a + 1, b + 1) {
      forall h: Handle ensures after.Owed(h) == base.Owed(h) {
      }
    } else {
      var h: Handle :| Count(cells, a, b, h) != Count(cells, a + 1, b + 1, h);
      assert after.Owed(h) != base.Owed(h);
    }
  }

  // The two error paths unmap the wrong words one by one, upwards or downwards.

  /** What a word changes if it is unmapped. */
  ghost predicate WordUnmapped(was: Balance, now: Balance, c: Cell) {
    if c.Pfn? then Changed(was, now, c.handle, -1) else now == was
  }

  lemma NothingUnmapped(maps: Balance, cells: seq<Cell>, a: nat)
    requires a <= |cells|
    ensures MapsOf(maps, maps, cells, a, a)
  {
  }

  lemma UnmappedUpwards(maps: Balance, was: Balance, now: Balance, cells: seq<Cell>, a: nat, b: nat)
    requires a <= b < |cells| && MapsOf(maps, was, cells, a, b) && WordUnmapped(was, now, cells[b])
    ensures MapsOf(maps, now, cells, a, b + 1)
  {
    CountLast(cells, a, b);
  }

  lemma UnmappedDownwards(maps: Balance, was: Balance, now: Balance, cells: seq<Cell>, a: nat, b: nat)
    requires a < b <= |cells| && MapsOf(maps, was, cells, a + 1, b) && WordUnmapped(was, now, cells[a])
    ensures MapsOf(maps, now, cells, a, b)
  {
  }

  /** If the word unmapped in error holds the handle left out, every word unmapped is still owed. */
  lemma OwedUpwards(maps: Balance, now: Balance, base: Balance, cells: seq<Cell>, a: nat, b: nat, i: nat)
    requires a <= i < b < |cells| && AllPfn(cells, a + 1, b + 1) && SameHandle(cells[a], cells[b])
    requires MapsOf(maps, base, cells, a + 1, b + 1) && MapsOf(maps, now, cells, a, i) && NonNegative(base)
    ensures cells[i].Pfn? && now.Owed(cells[i].handle) > 0
  {
    var h := cells[i].handle;
    ShiftBalanced(cells, a, b);
    assert Count(cells, a, b, h) == Count(cells, a + 1, b + 1, h);
    CountSplit(cells, a, i, b, h);
    assert base.Owed(h) >= 0;
  }

  lemma OwedDownwards(maps: Balance, now: Balance, base: Balance, cells: seq<Cell>, a: nat, b: nat, i: nat)
    requires a < i <= b < |cells| && AllPfn(cells, a, b) && SameHandle(cells[a], cells[b])
    requires MapsOf(maps, base, cells, a, b) && MapsOf(maps, now, cells, i + 1, b + 1) && NonNegative(base)
    ensures cells[i].Pfn? && now.Owed(cells[i].handle) > 0
  {
    var h := cells[i].handle;
    ShiftBalanced(cells, a, b);
    assert Count(cells, a, b, h) == Count(cells, a + 1, b + 1, h);
    CountSplit(cells, a + 1, i + 1, b + 1, h);
    CountSplit(cells, a + 1, i, i + 1, h);
    assert base.Owed(h) >= 0;
  }

  // ----- How a call can end -----

  /** How far a call got: not to its buffers, to a failure in buffer `k` after `done` of its pages
      were mapped, to a complete request, to a failure in mapping the page that is submitted, or to
      the host and back. */
  datatype Ending =
    | Refused
    | BufferFailed(k: nat, done: nat)
    | Complete
    | SubmitFailed
    | Answered

  /** How many pages the first `k` buffers have. */
  function PagesBefore(bufs: seq<Buffer>, k: nat): nat
    requires k <= |bufs|
  {
    if k == 0 then 0 else PagesBefore(bufs, k - 1) + PageCount(bufs[k - 1])
  }

  /** The word at which the error path of a buffer starts: the next one it would have written. */
  function NextWord(b: Buffer, at: nat, done: nat): nat
    requires done < PageCount(b)
  {
    if b.kernel then at + done else at + PageCount(b) - 1 - done
  }

  /** The error path of a buffer undoes what was mapped: nothing was, or the first word it unmaps,
      which the buffer has not written, happens to hold the handle of the first page, which it
      leaves out. */
  ghost predicate Undone(next: Cell, done: nat, first: Handle) {
    done == 0 || next == Pfn(first)
  }

  // ----- The records -----

  predicate AllPfn(cells: seq<Cell>, a: nat, b: nat)
    requires b <= |cells|
  {
    forall i :: a <= i < b ==> cells[i].Pfn?
  }

  /** Word `at + i` holds a handle that pci_map_page returned for page `i`. */
  ghost predicate Answered(cells: seq<Cell>, at: nat, pages: seq<Page>, answers: set<(Page, Handle)>, i: nat)
    requires i < |pages| && at + |pages| <= |cells|
  {
    cells[at + i].Pfn? && (pages[i], cells[at + i].handle) in answers
  }

  ghost predicate Recorded(cells: seq<Cell>, at: nat, lo: nat, hi: nat, pages: seq<Page>, answers: set<(Page, Handle)>)
    requires hi <= |pages| && at + |pages| <= |cells|
  {
    forall i :: lo <= i < hi ==> Answered(cells, at, pages, answers, i)
  }

  lemma RecordedIsPfn(cells: seq<Cell>, at: nat, lo: nat, hi: nat, pages: seq<Page>, answers: set<(Page, Handle)>)
    requires hi <= |pages| && at + |pages| <= |cells| && Recorded(cells, at, lo, hi, pages, answers)
    ensures AllPfn(cells, at + lo, at + hi)
  {
    forall i | at + lo <= i < at + hi ensures cells[i].Pfn? {
      assert Answered(cells, at, pages, answers, i - at);
    }
  }

  /** Writing the index of a page next to the recorded ones, on either side. */
  lemma RecordOne(before: seq<Cell>, cells: seq<Cell>, at: nat, lo: nat, hi: nat, i: nat, h: Handle, pages: seq<Page>,
                  answers: set<(Page, Handle)>)
    requires lo <= hi <= |pages| && i < |pages| && at + |pages| <= |before| && cells == before[at + i := Pfn(h)]
    requires i == hi || i + 1 == lo
    requires Recorded(before, at, lo, hi, pages, answers)
    ensures Recorded(cells, at, lo, hi, pages, answers)
    ensures Recorded(cells, at, if i == hi then lo else i, if i == hi then hi + 1 else hi, pages,
                     answers + {(pages[i], h)})
  {
    forall j: nat | lo <= j < hi ensures Answered(cells, at, pages, answers, j) {
      assert Answered(before, at, pages, answers, j);
    }
    forall j: nat | lo <= j < hi || j == i ensures Answered(cells, at, pages, answers + {(pages[i], h)}, j) {
      assert j != i ==> Answered(cells, at, pages, answers, j);
    }
  }

  /** The first `n` buffers are laid out, and so is everything before them. */
  ghost predicate Laid(cells: seq<Cell>, dpages: nat, ats: seq<nat>, bufs: seq<Buffer>, n: nat) {
    && IsWalk(ats, bufs) && n <= |bufs| && InlineAt(dpages) <= ats[0] && ats[|bufs|] <= |cells|
    && (forall i :: FIRST_INDEX <= i < InlineAt(dpages) ==> cells[i].Pfn?)
    && (forall i :: InlineAt(dpages) <= i < ats[0] ==> cells[i].Data?)
    && (forall k :: 0 <= k < n ==> BufferLaid(cells, ats[k], bufs[k]))
  }

  ghost predicate BufferLaid(cells: seq<Cell>, at: nat, b: Buffer) {
    && at + DESCRIPTOR + PageCount(b) <= |cells|
    && cells[at].Va? && cells[at + 1].Meta?
    && forall i :: at + DESCRIPTOR <= i < at + DESCRIPTOR + PageCount(b) ==> cells[i].Pfn?
  }

  /** What the caller finds in a buffer of a request whose descriptor is at word `at`. */
  function ReturnedBuffer(b: Buffer, cells: seq<Cell>, status: Status, at: nat): Buffer {
    if b.byteCount != 0 && status == Success && at + 1 < |cells| && cells[at + 1].Meta?
    then b.(byteCount := cells[at + 1].byteCount) else b
  }

  function WordAt(cells: seq<Cell>, i: nat): Word {
    if i < |cells| && cells[i].Data? then cells[i].word else 0
  }

  function InlineWords(cells: seq<Cell>, at: nat, count: nat): seq<Word> {
    seq(count, i requires 0 <= i => WordAt(cells, at + i))
  }

  lemma InlineFrame(before: seq<Cell>, cells: seq<Cell>, at: nat, count: nat)
    requires at + count <= |before| == |cells| && forall i :: at <= i < at + count ==> cells[i] == before[i]
    ensures InlineWords(cells, at, count) == InlineWords(before, at, count)
  {
    forall i | 0 <= i < count ensures InlineWords(cells, at, count)[i] == InlineWords(before, at, count)[i] {
      assert cells[at + i] == before[at + i];
      assert WordAt(cells, at + i) == WordAt(before, at + i);
    }
  }

  /** The first `n` buffers have been given back, the others are as before. */
  ghost predicate Returned(final: seq<Buffer>, bufs: seq<Buffer>, n: nat, cells: seq<Cell>, status: Status,
                           ats: seq<nat>)
  {
    && |final| == |bufs| < |ats|
    && forall i :: 0 <= i < |bufs| ==>
         final[i] == if i < n then ReturnedBuffer(bufs[i], cells, status, ats[i]) else bufs[i]
  }

  /** The caller finds the host's byte counts in its buffers, in the order of their descriptors, if the
      request succeeded; an empty buffer stays as it is. */
  ghost predicate Reported(final: seq<Buffer>, bufs: seq<Buffer>, reply: Reply, ats: seq<nat>) {
    && |final| == |bufs| < |ats|
    && forall k :: 0 <= k < |bufs| ==>
         final[k] == if reply.status == Success && bufs[k].byteCount != 0
                     then bufs[k].(byteCount := reply.counts(ats[k] + 1)) else bufs[k]
  }

  /** The caller finds the host's inline bytes, which start at word `at`, if the request succeeded. */
  ghost predicate InlineReported(final: seq<Word>, words: seq<Word>, reply: Reply, at: nat) {
    && |final| == |words|
    && forall i :: 0 <= i < |words| ==> final[i] == if reply.status == Success then reply.words(at + i) else words[i]
  }

  ghost predicate Replied(cells: seq<Cell>, reply: Reply) {
    forall i :: 0 <= i < |cells| ==>
      && (cells[i].Data? ==> cells[i].word == reply.words(i))
      && (cells[i].Meta? ==> cells[i].byteCount == reply.counts(i))
  }

  lemma ReplyIsReported(cells: seq<Cell>, reply: Reply, dpages: nat, ats: seq<nat>, bufs: seq<Buffer>,
                        final: seq<Buffer>, words: seq<Word>)
    requires Laid(cells, dpages, ats, bufs, |bufs|) && Replied(cells, reply)
    requires Returned(final, bufs, |bufs|, cells, reply.status, ats)
    requires InlineAt(dpages) + |words| == ats[0]
    ensures Reported(final, bufs, reply, ats)
    ensures reply.status == Success ==>
              InlineReported(InlineWords(cells, InlineAt(dpages), |words|), words, reply, InlineAt(dpages))
  {
    forall k | 0 <= k < |bufs|
      ensures final[k] == if reply.status == Success && bufs[k].byteCount != 0
                          then bufs[k].(byteCount := reply.counts(ats[k] + 1)) else bufs[k]
    {
      assert BufferLaid(cells, ats[k], bufs[k]);
    }
    assert ats[0] <= ats[|bufs|];
    var inline := InlineWords(cells, InlineAt(dpages), |words|);
    forall i | 0 <= i < |words| ensures inline[i] == reply.words(InlineAt(dpages) + i) {
      assert cells[InlineAt(dpages) + i].Data?;
      assert inline[i] == WordAt(cells, InlineAt(dpages) + i);
    }
  }

  /** The first `n` descriptors describe their buffers. */
  ghost predicate Described(cells: seq<Cell>, ats: seq<nat>, bufs: seq<Buffer>, n: nat) {
    && n <= |bufs| < |ats|
    && forall k :: 0 <= k < n ==> BufferDescribed(cells, ats[k], bufs[k])
  }

  ghost predicate BufferDescribed(cells: seq<Cell>, at: nat, b: Buffer) {
    && at + 1 < |cells|
    && cells[at] == Va(if b.byteCount == 0 then 0 else b.va)
    && cells[at + 1] == Meta(b.byteCount, b.writable && b.byteCount != 0)
  }

  lemma MapsJoin(maps: Balance, middle: Balance, base: Balance,
                 before: seq<Cell>, cells: seq<Cell>, a: nat, b: nat, c: nat, d: nat)
    requires a <= b <= c <= d <= |cells| == |before|
    requires MapsOf(middle, base, before, a, b) && MapsOf(maps, middle, cells, c, d)
    requires forall i :: a <= i < b ==> cells[i] == before[i]
    requires forall i :: b <= i < c ==> !cells[i].Pfn?
    ensures MapsOf(maps, base, cells, a, d)
  {
    forall h: Handle ensures maps.Owed(h) == base.Owed(h) + Count(cells, a, d, h) {
      CountFrame(before, cells, a, b, h);
      CountSplit(cells, a, b, d, h);
      CountNone(cells, b, c, h);
      CountSplit(cells, b, c, d, h);
    }
  }

  /** A balance that is off stays off by as much. */
  lemma MapsShift(maps: Balance, left: Balance, middle: Balance, base: Balance, cells: seq<Cell>, a: nat, b: nat)
    requires b <= |cells| && MapsOf(middle, base, cells, a, b)
    requires forall h: Handle :: left.Owed(h) == base.Owed(h) + maps.Owed(h) - middle.Owed(h)
    ensures MapsOf(maps, left, cells, a, b)
    ensures Same(left, base) <==> Same(maps, middle)
  {
    forall h: Handle
      ensures maps.Owed(h) == left.Owed(h) + Count(cells, a, b, h)
      ensures left.Owed(h) == base.Owed(h) <==> maps.Owed(h) == middle.Owed(h)
    {
    }
  }

  /** Taking or giving back one of `y` on both sides. */
  lemma MapsMoved(was: Balance, now: Balance, base: Balance, cells: seq<Cell>, a: nat, b: nat, y: nat)
    requires b <= |cells| && MapsOf(was, base, cells, a, b)
    ensures Changed(was, now, y, 1) ==> MapsOf(now, base.Took(y), cells, a, b)
    ensures Changed(was, now, y, -1) ==> MapsOf(now, base.Gave(y), cells, a, b)
  {
  }

  lemma PinsMoved(was: Balance, now: Balance, base: Balance, entries: seq<UpEntry>, y: nat)
    requires PinsOf(was, base, entries)
    ensures Changed(was, now, y, 1) ==> PinsOf(now, base.Took(y), entries)
    ensures Changed(was, now, y, -1) ==> PinsOf(now, base.Gave(y), entries)
  {
  }

  lemma GivenIsNotSame(now: Balance, base: Balance, y: nat)
    ensures Same(now, base.Gave(y)) ==> !Same(now, base)
  {
    assert base.Gave(y).Owed(y) == base.Owed(y) - 1;
  }

  lemma NothingReturned(final: seq<Buffer>, bufs: seq<Buffer>, cells: seq<Cell>, status: Status, ats: seq<nat>)
    requires Returned(final, bufs, |bufs|, cells, status, ats) && status != Success
    ensures final == bufs
  {
  }

  lemma Taken(m: Balance, x: nat)
    requires NonNegative(m)
    ensures m.Took(x).Owed(x) > 0 && Changed(m, m.Took(x), x, 1)
  {
    assert m.Owed(x) >= 0;
  }

  lemma MapsFrame(maps: Balance, base: Balance, before: seq<Cell>, cells: seq<Cell>, a: nat, b: nat)
    requires b <= |cells| == |before| && MapsOf(maps, base, before, a, b)
    requires forall i :: a <= i < b ==> cells[i] == before[i]
    ensures MapsOf(maps, base, cells, a, b)
  {
    forall h: Handle ensures maps.Owed(h) == base.Owed(h) + Count(cells, a, b, h) {
      CountFrame(before, cells, a, b, h);
    }
  }

  lemma LaidFrame(before: seq<Cell>, cells: seq<Cell>, dpages: nat, ats: seq<nat>, bufs: seq<Buffer>, n: nat)
    requires Laid(before, dpages, ats, bufs, n)
    requires |cells| == |before| && forall i :: 0 <= i < ats[n] ==> cells[i] == before[i]
    ensures Laid(cells, dpages, ats, bufs, n)
  {
    forall k | 0 <= k < n ensures BufferLaid(cells, ats[k], bufs[k]) {
      assert BufferLaid(before, ats[k], bufs[k]) && ats[k + 1] <= ats[n];
    }
  }

  /** Laying out one more buffer keeps the others. */
  lemma LaidNext(before: seq<Cell>, cells: seq<Cell>, dpages: nat, ats: seq<nat>, bufs: seq<Buffer>, n: nat)
    requires n < |bufs| && Laid(before, dpages, ats, bufs, n) && Described(before, ats, bufs, n)
    requires |cells| == |before| && forall i :: 0 <= i < ats[n] ==> cells[i] == before[i]
    requires BufferLaid(cells, ats[n], bufs[n]) && BufferDescribed(cells, ats[n], bufs[n])
    ensures Laid(cells, dpages, ats, bufs, n + 1) && Described(cells, ats, bufs, n + 1)
  {
    LaidFrame(before, cells, dpages, ats, bufs, n);
    forall k | 0 <= k < n ensures BufferDescribed(cells, ats[k], bufs[k]) {
      assert BufferDescribed(before, ats[k], bufs[k]) && ats[k + 1] <= ats[n];
    }
  }

  /** What the host may write: the inline bytes and the byte counts of the descriptors. */
  predicate SameShape(c: Cell, d: Cell) {
    c == d || (c.Data? && d.Data?) || (c.Meta? && d.Meta?)
  }

  lemma SameShapeLaid(cells: seq<Cell>, reply: seq<Cell>, dpages: nat, ats: seq<nat>, bufs: seq<Buffer>, n: nat)
    requires |cells| == |reply| && forall i :: 0 <= i < |cells| ==> SameShape(cells[i], reply[i])
    requires Laid(cells, dpages, ats, bufs, n)
    ensures Laid(reply, dpages, ats, bufs, n)
    ensures forall a: nat, b: nat, h: Handle :: b <= |cells| ==> Count(cells, a, b, h) == Count(reply, a, b, h)
  {
    forall k | 0 <= k < n ensures BufferLaid(reply, ats[k], bufs[k]) {
      assert BufferLaid(cells, ats[k], bufs[k]);
    }
    forall a: nat, b: nat, h: Handle | b <= |cells| ensures Count(cells, a, b, h) == Count(reply, a, b, h) {
      CountFrame(cells, reply, a, b, h);
    }
  }

  class Platform {
    ghost var pins: Balance
    ghost var maps: Balance
    ghost var dirty: set<Page>
    ghost var answers: set<(Page, Handle)> // what pci_map_page has returned so far
    ghost var broken: bool
    var calls: nat // of pci_map_page

    const pageOf: nat -> Page     // the kernel's own address space, in pages
    const backed: nat -> bool     // which of them are linear or vmalloc addresses
    const userPageOf: nat -> Page // the caller's address space, in pages
    const script: nat -> Handle   // what pci_map_page answers to each call

    constructor (pageOf: nat -> Page, backed: nat -> bool, userPageOf: nat -> Page, script: nat -> Handle)
      ensures this.pageOf == pageOf && this.backed == backed
      ensures this.userPageOf == userPageOf && this.script == script
      ensures pins == maps == Balance(multiset{}, multiset{}) && !broken && calls == 0
    {
      this.pageOf, this.backed, this.userPageOf, this.script := pageOf, backed, userPageOf, script;
      pins, maps, dirty, answers := Balance(multiset{}, multiset{}), Balance(multiset{}, multiset{}), {}, {};
      broken, calls := false, 0;
    }

    /** The page at page number `n` of a buffer's address space. */
    function Home(b: Buffer, n: nat): Page {
      if b.kernel then pageOf(n) else userPageOf(n)
    }

    /** What virt_to_page or vmalloc_to_page, or get_user_pages, finds `i` pages after a buffer's start. */
    function PageAfter(b: Buffer, i: nat): Page {
      Home(b, b.va / PAGE_SIZE + i)
    }

    function PagesOf(b: Buffer, npages: nat): seq<Page> {
      seq(npages, i requires 0 <= i => PageAfter(b, i))
    }

    /** The i-th page of a buffer has an address from which its page can be found. */
    ghost predicate HasPage(b: Buffer, i: nat) {
      !b.kernel || backed(b.va / PAGE_SIZE + i)
    }

    /** The calls from `from` up to `to` succeed. */
    ghost predicate Answers(from: nat, to: nat) {
      forall i :: from <= i < to ==> script(i) != 0
    }

    /** A buffer whose first page is mapped by call `from` fails after `done` pages, and `now` calls
        have been made: the next call fails, or is not made because a kernel address has no page, or
        none is made for a user buffer for lack of memory or of pages to pin. */
    ghost predicate FailsAfter(b: Buffer, from: nat, done: nat, now: nat) {
      && done < PageCount(b) && Answers(from, from + done)
      && (|| (now == from + done + 1 && script(from + done) == 0)
          || (now == from + done && if b.kernel then !HasPage(b, done) else done == 0))
    }

    /** The call on whose answer the first page of buffer `k` depends, if the call numbered `from`
        maps the first of `dpages` pages of the request itself. */
    static function FirstCall(bufs: seq<Buffer>, from: nat, dpages: nat, k: nat): nat
      requires k <= |bufs|
    {
      from + dpages + PagesBefore(bufs, k)
    }

    /** What the answers say about the ending, once `now` calls have been made. */
    ghost predicate Ended(end: Ending, bufs: seq<Buffer>, from: nat, dpages: nat, now: nat) {
      var last := FirstCall(bufs, from, dpages, |bufs|);
      match end
      case Refused => now <= from + dpages
      case BufferFailed(k, done) =>
        && k < |bufs| && Answers(from, FirstCall(bufs, from, dpages, k))
        && FailsAfter(bufs[k], FirstCall(bufs, from, dpages, k), done, now)
      case Complete => now == last && Answers(from, now)
      case SubmitFailed => now == last + 1 && Answers(from, last) && script(last) == 0
      case Answered => now == last + 1 && Answers(from, now)
    }

    lemma EndsWithSubmit(bufs: seq<Buffer>, ats: seq<nat>, from: nat, dpages: nat, now: nat, words: nat -> Cell)
      requires Ended(Complete, bufs, from, dpages, now)
      ensures var end := if script(now) == 0 then SubmitFailed else Answered;
              Ended(end, bufs, from, dpages, now + 1) &&
              (LeavesNothing(end, bufs, ats, from, dpages, words) <==> end.Answered?)
    {
    }

    /** After this ending nothing stays mapped. */
    ghost predicate LeavesNothing(end: Ending, bufs: seq<Buffer>, ats: seq<nat>, from: nat, dpages: nat,
                                  stale: nat -> Cell)
    {
      match end
      case BufferFailed(k, done) =>
        && k < |bufs| && k < |ats| && done < PageCount(bufs[k])
        && Undone(stale(NextWord(bufs[k], ats[k] + DESCRIPTOR, done)), done,
                  script(FirstCall(bufs, from, dpages, k)))
      case SubmitFailed => false
      case _ => true
    }

    lemma EndsInBuffer(bufs: seq<Buffer>, ats: seq<nat>, from: nat, dpages: nat, k: nat, done: nat, now: nat,
                       words: nat -> Cell)
      requires k < |bufs| && k < |ats| && Answers(from, FirstCall(bufs, from, dpages, k))
      requires FailsAfter(bufs[k], FirstCall(bufs, from, dpages, k), done, now)
      ensures Ended(BufferFailed(k, done), bufs, from, dpages, now)
      ensures LeavesNothing(BufferFailed(k, done), bufs, ats, from, dpages, words) <==>
              Undone(words(NextWord(bufs[k], ats[k] + DESCRIPTOR, done)), done,
                     script(FirstCall(bufs, from, dpages, k)))
    {
    }

    lemma EndsComplete(bufs: seq<Buffer>, from: nat, dpages: nat, now: nat)
      requires now == FirstCall(bufs, from, dpages, |bufs|) && Answers(from, now)
      ensures Ended(Complete, bufs, from, dpages, now)
    {
    }

    lemma NextBuffer(bufs: seq<Buffer>, from: nat, dpages: nat, k: nat, now: nat)
      requires k < |bufs| && Answers(from, FirstCall(bufs, from, dpages, k))
      requires now == FirstCall(bufs, from, dpages, k) + PageCount(bufs[k])
      requires Answers(FirstCall(bufs, from, dpages, k), now)
      ensures now == FirstCall(bufs, from, dpages, k + 1) && Answers(from, now)
    {
    }

    lemma NothingToLeave(bufs: seq<Buffer>, ats: seq<nat>, from: nat, dpages: nat, words: nat -> Cell)
      ensures LeavesNothing(Refused, bufs, ats, from, dpages, words) && Ended(Refused, bufs, from, dpages, from)
    {
    }

    method Allocate() returns (ok: bool) {
      ok := *;
    }

    method GetPage(p: Page)
      modifies this`pins
      ensures Changed(old(pins), pins, p, 1)
    {
      pins := pins.Took(p);
    }

    method PutPage(p: Page)
      requires broken || pins.Owed(p) > 0
      modifies this`pins
      ensures Changed(old(pins), pins, p, -1)
    {
      pins := pins.Gave(p);
    }

    /** Beyond `base`, the first `count` of the pages are pinned. */
    ghost predicate HasPinned(base: Balance, pages: seq<Page>, count: nat)
      requires count <= |pages|
      reads this
    {
      forall p: Page :: pins.Owed(p) == base.Owed(p) + Times(pages, 0, count, p)
    }

    method GetNext(pages: seq<Page>, i: nat, ghost base: Balance)
      requires i < |pages| && HasPinned(base, pages, i)
      modifies this`pins
      ensures HasPinned(base, pages, i + 1)
    {
      GetPage(pages[i]);
      TimesNext(pages, 0, i);
    }

    method PutLast(pages: seq<Page>, i: nat, ghost base: Balance)
      requires i < |pages| && HasPinned(base, pages, i + 1) && (broken || NonNegative(base))
      modifies this`pins
      ensures HasPinned(base, pages, i)
    {
      TimesNext(pages, 0, i);
      var p: Page := pages[i];
      assert Times(pages, 0, i + 1, p) == Times(pages, 0, i, p) + 1;
      PutPage(p);
    }

    /** get_user_pages: pins the first pages of the range, as many as it can. */
    method GetUserPages(b: Buffer, npages: nat) returns (got: seq<Page>)
      requires !b.kernel
      modifies this`pins
      ensures |got| <= npages && got == PagesOf(b, |got|)
      ensures HasPinned(old(pins), got, |got|)
    {
      var count: int := *;
      got := PagesOf(b, if 0 <= count < npages then count else npages);
      var i := |got|;
      while i > 0
        invariant 0 <= i <= |got|
        invariant forall p :: pins.Owed(p) == old(pins).Owed(p) + Times(got, i, |got|, p)
      {
        i := i - 1;
        GetPage(got[i]);
      }
    }

    method PutPages(pages: seq<Page>, count: nat, ghost base: Balance)
      requires count <= |pages| && HasPinned(base, pages, count) && (broken || NonNegative(base))
      modifies this`pins
      ensures Same(pins, base)
    {
      var i := 0;
      while i < count
        invariant 0 <= i <= count
        invariant forall p :: pins.Owed(p) == base.Owed(p) + Times(pages, i, count, p)
      {
        PutPage(pages[i]);
        i := i + 1;
      }
    }

    method SetPagesDirty(pages: seq<Page>)
      modifies this`dirty
      ensures dirty == old(dirty) + (set p | p in pages)
    {
      dirty := dirty + (set p | p in pages);
    }

    method MapPage(p: Page) returns (h: Handle)
      modifies this`maps, this`answers, this`calls
      ensures h == script(old(calls)) && calls == old(calls) + 1
      ensures h != 0 ==> Changed(old(maps), maps, h, 1) && answers == old(answers) + {(p, h)}
      ensures h == 0 ==> maps == old(maps) && answers == old(answers)
    {
      h := script(calls);
      calls := calls + 1;
      if h != 0 {
        maps := maps.Took(h);
        answers := answers + {(p, h)};
      }
    }

    method UnmapPage(h: Handle)
      requires broken || maps.Owed(h) > 0
      modifies this`maps
      ensures Changed(old(maps), maps, h, -1)
    {
      maps := maps.Gave(h);
    }

    /** Unmaps whatever a word holds; a word without a handle changes no balance. */
    method UnmapWord(c: Cell)
      requires broken || (c.Pfn? && maps.Owed(c.handle) > 0)
      modifies this`maps
      ensures WordUnmapped(old(maps), maps, c)
    {
      if c.Pfn? {
        UnmapPage(c.handle);
      }
    }
  }

  /** Byte `i` of a buffer whose page indices start at word `at`: the word of its page records a
      handle that pci_map_page returned for that page. */
  ghost predicate ByteReached(platform: Platform, cells: seq<Cell>, at: nat, b: Buffer,
                              answers: set<(Page, Handle)>, i: nat)
  {
    var n := (b.va + i) / PAGE_SIZE;
    var w := at + n - b.va / PAGE_SIZE;
    && 0 <= w < |cells| && cells[w].Pfn? && (platform.Home(b, n), cells[w].handle) in answers
    && (b.kernel ==> platform.backed(n))
  }

  ghost predicate BufferReached(platform: Platform, cells: seq<Cell>, at: nat, b: Buffer,
                                answers: set<(Page, Handle)>)
  {
    forall i: nat :: i < b.byteCount ==> ByteReached(platform, cells, at, b, answers, i)
  }

  /** Every byte of the first `n` buffers is reached through the indices behind their descriptors. */
  ghost predicate Reached(platform: Platform, cells: seq<Cell>, ats: seq<nat>, bufs: seq<Buffer>, n: nat,
                          answers: set<(Page, Handle)>)
  {
    && n <= |bufs| < |ats|
    && forall k :: 0 <= k < n ==> BufferReached(platform, cells, ats[k] + DESCRIPTOR, bufs[k], answers)
  }

  /** Recording a handle for each page counted reaches every byte. */
  lemma RecordedReaches(platform: Platform, cells: seq<Cell>, at: nat, b: Buffer, answers: set<(Page, Handle)>)
    requires at + PageCount(b) <= |cells|
    requires Recorded(cells, at, 0, PageCount(b), platform.PagesOf(b, PageCount(b)), answers)
    requires forall i: nat :: i < PageCount(b) ==> platform.HasPage(b, i)
    ensures BufferReached(platform, cells, at, b, answers)
  {
    hide PageCount;
    forall i: nat | i < b.byteCount ensures ByteReached(platform, cells, at, b, answers, i) {
      PageOfByte(b, i);
      var k: nat := (b.va + i) / PAGE_SIZE - b.va / PAGE_SIZE;
      assert Answered(cells, at, platform.PagesOf(b, PageCount(b)), answers, k);
      assert platform.HasPage(b, k);
    }
  }

  lemma BufferReachedFrame(platform: Platform, before: seq<Cell>, cells: seq<Cell>, at: nat, b: Buffer,
                           known: set<(Page, Handle)>, answers: set<(Page, Handle)>)
    requires BufferReached(platform, before, at, b, known) && known <= answers && |cells| == |before|
    requires forall i :: 0 <= i < at + PageCount(b) && i < |cells| ==> cells[i] == before[i]
    ensures BufferReached(platform, cells, at, b, answers)
  {
    hide PageCount;
    forall i: nat | i < b.byteCount ensures ByteReached(platform, cells, at, b, answers, i) {
      assert ByteReached(platform, before, at, b, known, i);
      PageOfByte(b, i);
    }
  }

  lemma ReachedNext(platform: Platform, before: seq<Cell>, cells: seq<Cell>, ats: seq<nat>, bufs: seq<Buffer>, n: nat,
                    known: set<(Page, Handle)>, answers: set<(Page, Handle)>)
    requires IsWalk(ats, bufs) && n < |bufs| && Reached(platform, before, ats, bufs, n, known)
    requires |cells| == |before| && (forall i :: 0 <= i < ats[n] && i < |cells| ==> cells[i] == before[i])
    requires known <= answers && BufferReached(platform, cells, ats[n] + DESCRIPTOR, bufs[n], answers)
    ensures Reached(platform, cells, ats, bufs, n + 1, answers)
  {
    hide PageCount, BufferReached;
    forall k | 0 <= k < n ensures BufferReached(platform, cells, ats[k] + DESCRIPTOR, bufs[k], answers) {
      assert ats[k] + DESCRIPTOR + PageCount(bufs[k]) == ats[k + 1] <= ats[n];
      BufferReachedFrame(platform, before, cells, ats[k] + DESCRIPTOR, bufs[k], known, answers);
    }
  }

  lemma RecordedFrame(before: seq<Cell>, cells: seq<Cell>, pages: seq<Page>,
                      known: set<(Page, Handle)>, answers: set<(Page, Handle)>)
    requires FIRST_INDEX + |pages| <= |before| == |cells| && known <= answers
    requires Recorded(before, FIRST_INDEX, 0, |pages|, pages, known)
    requires forall i :: FIRST_INDEX <= i < FIRST_INDEX + |pages| ==> cells[i] == before[i]
    ensures Recorded(cells, FIRST_INDEX, 0, |pages|, pages, answers)
  {
    forall i: nat | i < |pages| ensures Answered(cells, FIRST_INDEX, pages, answers, i) {
      assert Answered(before, FIRST_INDEX, pages, known, i);
    }
  }

  class Request {
    const platform: Platform
    const inlineByteCount: U16
    const sbuf: array<Buffer>
    const idata: array<Word> // the caller's inline bytes, padded to whole words
    const dst: array<Cell>
    const dstPages: seq<Page>
    const requestSize: nat
    const stale: nat -> Cell // what vmalloc left in the request's words
    var status: Status
    var upList: seq<UpEntry>

    constructor (platform: Platform, inlineByteCount: U16, sbuf: array<Buffer>, idata: array<Word>,
                 requestSize: nat, dstPages: seq<Page>, stale: nat -> Cell)
      requires requestSize % WORD == 0 && |dstPages| == PageSpan(0, requestSize)
      ensures this.platform == platform && this.inlineByteCount == inlineByteCount
      ensures this.sbuf == sbuf && this.idata == idata && this.requestSize == requestSize && this.dstPages == dstPages
      ensures fresh(dst) && dst.Length * WORD == requestSize && status == Pending && upList == []
      ensures this.stale == stale
      ensures forall i :: 0 <= i < dst.Length ==> dst[i] == stale(i)
    {
      this.platform := platform;
      this.inlineByteCount := inlineByteCount;
      this.sbuf := sbuf;
      this.idata := idata;
      this.requestSize := requestSize;
      this.dstPages := dstPages;
      this.stale := stale;
      dst := new Cell[requestSize / WORD](i => stale(i));
      status := Pending;
      upList := [];
    }

    /** Beyond `base`, the mapped handles are those recorded for the pages from `lo` up to `hi`,
        whose indices start at word `at`. */
    ghost predicate Progress(base: Balance, at: nat, lo: nat, hi: nat, pages: seq<Page>)
      requires lo <= hi <= |pages| && at + |pages| <= dst.Length
      reads platform, dst
    {
      && MapsOf(platform.maps, base, dst[..], at + lo, at + hi)
      && Recorded(dst[..], at, lo, hi, pages, platform.answers)
    }

    /** Maps page `i`, next to the recorded ones on either side, and writes its index. */
    method MapInto(pages: seq<Page>, i: nat, at: nat,
                   ghost lo: nat, ghost hi: nat, ghost base: Balance) returns (h: Handle)
      requires lo <= hi <= |pages| && i < |pages| && at + |pages| <= dst.Length && (i == hi || i + 1 == lo)
      requires Progress(base, at, lo, hi, pages)
      modifies platform`maps, platform`answers, platform`calls, dst
      ensures h == platform.script(old(platform.calls)) && platform.calls == old(platform.calls) + 1
      ensures old(platform.answers) <= platform.answers
      ensures h != 0 ==> dst[at + i] == Pfn(h)
      ensures forall j :: 0 <= j < dst.Length && j != at + i ==> dst[j] == old(dst[j])
      ensures h == 0 ==> dst[..] == old(dst[..]) && Progress(base, at, lo, hi, pages)
      ensures h != 0 ==> Progress(base, at, if i == hi then lo else i, if i == hi then hi + 1 else hi, pages)
    {
      h := platform.MapPage(pages[i]);
      if h == 0 {
        return;
      }
      ghost var before := dst[..];
      dst[at + i] := Pfn(h);
      RecordOne(before, dst[..], at, lo, hi, i, h, pages, old(platform.answers));
      if i == hi {
        CountNext(before, dst[..], at + lo, at + hi, h);
      } else {
        CountPrevious(before, dst[..], at + lo, at + hi, h);
      }
    }

    /** Unmaps the pages recorded from `first` up to `end`, the first part of what is mapped. */
    method UnmapRange(first: nat, end: nat, ghost last: nat, ghost cells: seq<Cell>, ghost base: Balance)
      requires cells == dst[..] && first <= end <= last <= |cells| && AllPfn(cells, first, end)
      requires MapsOf(platform.maps, base, cells, first, last) && (platform.broken || NonNegative(base))
      modifies platform`maps
      ensures MapsOf(platform.maps, base, cells, end, last)
      ensures end == last ==> Same(platform.maps, base)
    {
      var i := first;
      while i < end
        invariant first <= i <= end
        invariant MapsOf(platform.maps, base, cells, i, last)
      {
        assert dst[i] == cells[i];
        platform.UnmapPage(dst[i].handle);
        i := i + 1;
      }
    }

    /** The error path of tg_req_map_internal. */
    method UndoInternal(count: nat, ghost maps: Balance, ghost pins: Balance)
      requires FIRST_INDEX + |dstPages| <= dst.Length && count <= |dstPages|
      requires Progress(maps, FIRST_INDEX, 0, count, dstPages)
      requires platform.HasPinned(pins, dstPages, count)
      requires platform.broken || (NonNegative(maps) && NonNegative(pins))
      modifies platform`pins, platform`maps
      ensures Same(platform.maps, maps) && Same(platform.pins, pins)
    {
      RecordedIsPfn(dst[..], FIRST_INDEX, 0, count, dstPages, platform.answers);
      UnmapRange(FIRST_INDEX, FIRST_INDEX + count, FIRST_INDEX + count, dst[..], maps);
      platform.PutPages(dstPages, count, pins);
    }

    /** tg_req_map_internal stores the index before it tests it. */
    method StoreFailed(i: nat, ghost maps: Balance)
      requires FIRST_INDEX + |dstPages| <= dst.Length && i < |dstPages| && Progress(maps, FIRST_INDEX, 0, i, dstPages)
      modifies dst
      ensures forall j :: 0 <= j < dst.Length && j != FIRST_INDEX + i ==> dst[j] == old(dst[j])
      ensures Progress(maps, FIRST_INDEX, 0, i, dstPages)
    {
      ghost var before := dst[..];
      dst[FIRST_INDEX + i] := Pfn(0);
      RecordOne(before, dst[..], FIRST_INDEX, 0, i, i, 0, dstPages, platform.answers);
      CountNext(before, dst[..], FIRST_INDEX, FIRST_INDEX + i, 0);
    }

    // Pins and maps the i-th of the request's own pages, or leaves it neither pinned nor mapped.
    method MapInternalPage(i: nat, ghost maps: Balance, ghost pins: Balance) returns (ok: bool)
      requires FIRST_INDEX + |dstPages| <= dst.Length && i < |dstPages|
      requires platform.HasPinned(pins, dstPages, i) && Progress(maps, FIRST_INDEX, 0, i, dstPages)
      requires platform.broken || NonNegative(pins)
      modifies platform`pins, platform`maps, platform`answers, platform`calls, dst
      ensures platform.calls == old(platform.calls) + 1 && (ok <==> platform.script(old(platform.calls)) != 0)
      ensures forall j :: 0 <= j < dst.Length && !(FIRST_INDEX <= j < FIRST_INDEX + |dstPages|) ==>
                dst[j] == old(dst[j])
      ensures var n := if ok then i + 1 else i;
              platform.HasPinned(pins, dstPages, n) && Progress(maps, FIRST_INDEX, 0, n, dstPages)
    {
      platform.GetNext(dstPages, i, pins);
      var h := MapInto(dstPages, i, FIRST_INDEX, 0, i, maps);
      ok := h != 0;
      if !ok {
        StoreFailed(i, maps);
        platform.PutLast(dstPages, i, pins);
      }
    }

    /** tg_req_map_internal: the number of pages, or -1 with nothing left pinned or mapped. */
    method MapInternal() returns (count: int)
      requires FIRST_INDEX + |dstPages| <= dst.Length && |dstPages| == PageSpan(0, requestSize)
      requires platform.broken || (NonNegative(platform.maps) && NonNegative(platform.pins))
      modifies platform`pins, platform`maps, platform`answers, platform`calls, this`upList, dst
      ensures old(platform.calls) <= platform.calls <= old(platform.calls) + |dstPages|
      ensures forall j :: 0 <= j < dst.Length && !(FIRST_INDEX <= j < FIRST_INDEX + |dstPages|) ==>
                dst[j] == old(dst[j])
      ensures count < 0 ==> Same(platform.pins, old(platform.pins)) && Same(platform.maps, old(platform.maps))
      ensures count >= 0 ==>
                && count == |dstPages|
                && platform.calls == old(platform.calls) + count
                && platform.Answers(old(platform.calls), platform.calls)
                && upList == [UpEntry(false, dstPages)] + old(upList)
                && platform.HasPinned(old(platform.pins), dstPages, count)
                && Progress(old(platform.maps), FIRST_INDEX, 0, count, dstPages)
    {
      hide PageSpan;
      count := PageSpan(0, requestSize);
      var ok := platform.Allocate();
      if !ok {
        return -1;
      }
      var i := 0;
      while i < count
        invariant 0 <= i <= count && upList == old(upList)
        invariant forall j :: 0 <= j < dst.Length && !(FIRST_INDEX <= j < FIRST_INDEX + |dstPages|) ==>
                    dst[j] == old(dst[j])
        invariant platform.calls == old(platform.calls) + i
        invariant platform.Answers(old(platform.calls), platform.calls)
        invariant platform.HasPinned(old(platform.pins), dstPages, i)
        invariant Progress(old(platform.maps), FIRST_INDEX, 0, i, dstPages)
      {
        ok := MapInternalPage(i, old(platform.maps), old(platform.pins));
        if !ok {
          UndoInternal(i, old(platform.maps), old(platform.pins));
          return -1;
        }
        i := i + 1;
      }
      upList := [UpEntry(false, dstPages)] + upList;
    }

    /** The error path of tg_req_map_user_pages, from word `first` up.  The `done` pages mapped were
        recorded in the words after it. */
    method UndoUser(first: nat, done: nat, ghost base: Balance)
      requires first + done < dst.Length && AllPfn(dst[..], first + 1, first + 1 + done)
      requires MapsOf(platform.maps, base, dst[..], first + 1, first + 1 + done)
      requires platform.broken || NonNegative(base)
      modifies platform`maps, platform`broken
      ensures Same(platform.maps, base) <==> done == 0 || dst[first] == dst[first + done]
      ensures platform.broken <==> old(platform.broken) || !Same(platform.maps, base)
    {
      hide MapsOf, Same, NonNegative;
      ghost var cells, maps := dst[..], platform.maps;
      NothingUnmapped(maps, cells, first);
      platform.broken := platform.broken || !SameHandle(cells[first], cells[first + done]);
      ghost var broken := platform.broken;
      var i, pfn := 0, first;
      while i < done
        invariant 0 <= i <= done && pfn == first + i && platform.broken == broken
        invariant MapsOf(maps, platform.maps, cells, first, pfn)
      {
        assert dst[pfn] == cells[pfn];
        if !broken {
          OwedUpwards(maps, platform.maps, base, cells, first, first + done, pfn);
        }
        ghost var was := platform.maps;
        platform.UnmapWord(dst[pfn]);
        UnmappedUpwards(maps, was, platform.maps, cells, first, pfn);
        i, pfn := i + 1, pfn + 1;
      }
      ShiftedUnwindIff(maps, platform.maps, base, cells, first, first + done, false);
    }

    /** tg_req_map_user_pages: the word after the page indices, or -1 with nothing left pinned.  The
        indices are written from the last page down.  A failure after `done` of the pages leaves
        nothing mapped exactly if the error path undoes them. */
    method MapUserPages(at: nat, b: Buffer, npages: nat) returns (next: int, ghost done: nat)
      requires at + npages <= dst.Length && !b.kernel && 0 < npages == PageCount(b)
      requires platform.broken || (NonNegative(platform.maps) && NonNegative(platform.pins))
      modifies platform`pins, platform`maps, platform`answers, platform`calls, platform`broken, this`upList, dst
      ensures forall j :: 0 <= j < dst.Length && !(at <= j < at + npages) ==> dst[j] == old(dst[j])
      ensures next < 0 ==>
                && platform.FailsAfter(b, old(platform.calls), done, platform.calls)
                && Same(platform.pins, old(platform.pins)) && upList == old(upList)
                && (Same(platform.maps, old(platform.maps)) <==>
                    Undone(old(dst[NextWord(b, at, done)]), done, platform.script(old(platform.calls))))
                && (platform.broken <==> old(platform.broken) || !Same(platform.maps, old(platform.maps)))
      ensures next >= 0 ==>
                && next == at + npages && platform.broken == old(platform.broken)
                && platform.calls == old(platform.calls) + npages
                && platform.Answers(old(platform.calls), platform.calls)
                && |upList| == 1 + |old(upList)| && upList[1..] == old(upList)
                && upList[0] == UpEntry(b.writable, platform.PagesOf(b, npages))
                && platform.HasPinned(old(platform.pins), upList[0].pages, npages)
                && Progress(old(platform.maps), at, 0, npages, upList[0].pages)
                && BufferReached(platform, dst[..], at, b, platform.answers)
      ensures old(platform.answers) <= platform.answers
    {
      done := 0;
      var ok := platform.Allocate();
      if !ok {
        return -1, 0;
      }
      var pages := platform.GetUserPages(b, npages);
      if |pages| < npages {
        platform.PutPages(pages, |pages|, old(platform.pins));
        return -1, 0;
      }
      ok, done := MapPinned(at, b, pages);
      if !ok {
        platform.PutPages(pages, npages, old(platform.pins));
        return -1, done;
      }
      upList := [UpEntry(b.writable, pages)] + upList;
      RecordedReaches(platform, dst[..], at, b, platform.answers);
      next := at + npages;
    }

    /** The mapping loop of tg_req_map_user_pages. */
    method MapPinned(at: nat, b: Buffer, pages: seq<Page>) returns (ok: bool, ghost done: nat)
      requires at + |pages| <= dst.Length && !b.kernel && 0 < |pages| == PageCount(b)
      requires platform.broken || NonNegative(platform.maps)
      modifies platform`maps, platform`answers, platform`calls, platform`broken, dst
      ensures forall j :: 0 <= j < dst.Length && !(at <= j < at + |pages|) ==> dst[j] == old(dst[j])
      ensures !ok ==>
                && platform.FailsAfter(b, old(platform.calls), done, platform.calls)
                && (Same(platform.maps, old(platform.maps)) <==>
                    Undone(old(dst[NextWord(b, at, done)]), done, platform.script(old(platform.calls))))
                && (platform.broken <==> old(platform.broken) || !Same(platform.maps, old(platform.maps)))
      ensures ok ==>
                && platform.broken == old(platform.broken)
                && platform.calls == old(platform.calls) + |pages|
                && platform.Answers(old(platform.calls), platform.calls)
                && Progress(old(platform.maps), at, 0, |pages|, pages)
      ensures old(platform.answers) <= platform.answers
    {
      hide MapsOf, Recorded, Same;
      NothingRecorded(at, |pages|, pages);
      done := 0;
      var npages := |pages|;
      var left := npages;
      while left > 0
        invariant 0 <= left <= npages && platform.broken == old(platform.broken) && done == npages - left
        invariant platform.calls == old(platform.calls) + done
        invariant platform.Answers(old(platform.calls), platform.calls)
        invariant old(platform.answers) <= platform.answers
        invariant forall j :: 0 <= j < dst.Length && !(at + left <= j < at + npages) ==> dst[j] == old(dst[j])
        invariant left < npages ==> dst[at + npages - 1] == Pfn(platform.script(old(platform.calls)))
        invariant Progress(old(platform.maps), at, left, npages, pages)
      {
        var h := MapInto(pages, left - 1, at, left, npages, old(platform.maps));
        if h == 0 {
          RecordedIsPfn(dst[..], at, left, npages, pages, platform.answers);
          UndoUser(at + left - 1, npages - left, old(platform.maps));
          return false, done;
        }
        left, done := left - 1, done + 1;
      }
      ok := true;
    }

    lemma NothingRecorded(at: nat, i: nat, pages: seq<Page>)
      requires i <= |pages| && at + |pages| <= dst.Length
      ensures Progress(platform.maps, at, i, i, pages)
    {
    }

    /** The error path of tg_req_map_kernel_pages, from word `at + done` down.  The `done` pages
        mapped were recorded from word `at` on. */
    method UndoKernel(at: nat, done: nat, ghost base: Balance)
      requires at + done < dst.Length && AllPfn(dst[..], at, at + done)
      requires MapsOf(platform.maps, base, dst[..], at, at + done)
      requires platform.broken || NonNegative(base)
      modifies platform`maps, platform`broken
      ensures Same(platform.maps, base) <==> done == 0 || dst[at + done] == dst[at]
      ensures platform.broken <==> old(platform.broken) || !Same(platform.maps, base)
    {
      hide MapsOf, Same, NonNegative;
      ghost var cells, maps := dst[..], platform.maps;
      NothingUnmapped(maps, cells, at + done + 1);
      platform.broken := platform.broken || !SameHandle(cells[at], cells[at + done]);
      ghost var broken := platform.broken;
      var i, pfn := done, at + done;
      while i > 0
        invariant 0 <= i <= done && pfn == at + i && platform.broken == broken
        invariant MapsOf(maps, platform.maps, cells, pfn + 1, at + done + 1)
      {
        assert dst[pfn] == cells[pfn];
        if !broken {
          OwedDownwards(maps, platform.maps, base, cells, at, at + done, pfn);
        }
        ghost var was := platform.maps;
        platform.UnmapWord(dst[pfn]);
        UnmappedDownwards(maps, was, platform.maps, cells, pfn, at + done + 1);
        i, pfn := i - 1, pfn - 1;
      }
      ShiftedUnwindIff(maps, platform.maps, base, cells, at, at + done, true);
    }

    /** tg_req_map_kernel_pages: the word after the page indices, or -1.  A failure after `done` of
        the pages leaves nothing mapped exactly if the error path undoes them. */
    method MapKernelPages(at: nat, b: Buffer, npages: nat) returns (next: int, ghost done: nat)
      requires at + npages <= dst.Length && b.kernel && 0 < npages == PageCount(b)
      requires platform.broken || NonNegative(platform.maps)
      modifies platform`maps, platform`answers, platform`calls, platform`broken, dst
      ensures forall j :: 0 <= j < dst.Length && !(at <= j < at + npages) ==> dst[j] == old(dst[j])
      ensures next < 0 ==>
                && platform.FailsAfter(b, old(platform.calls), done, platform.calls)
                && (Same(platform.maps, old(platform.maps)) <==>
                    Undone(old(dst[NextWord(b, at, done)]), done, platform.script(old(platform.calls))))
                && (platform.broken <==> old(platform.broken) || !Same(platform.maps, old(platform.maps)))
      ensures next >= 0 ==>
                && next == at + npages && platform.broken == old(platform.broken)
                && platform.calls == old(platform.calls) + npages
                && platform.Answers(old(platform.calls), platform.calls)
                && Progress(old(platform.maps), at, 0, npages, platform.PagesOf(b, npages))
                && BufferReached(platform, dst[..], at, b, platform.answers)
      ensures old(platform.answers) <= platform.answers
    {
      hide MapsOf, Recorded, Same, BufferReached;
      var pages := platform.PagesOf(b, npages);
      NothingRecorded(at, 0, pages);
      done := 0;
      var i := 0;
      while i < npages
        invariant 0 <= i <= npages && platform.broken == old(platform.broken) && done == i
        invariant platform.calls == old(platform.calls) + i
        invariant platform.Answers(old(platform.calls), platform.calls)
        invariant old(platform.answers) <= platform.answers
        invariant forall j: nat :: j < i ==> platform.HasPage(b, j)
        invariant forall j :: 0 <= j < dst.Length && !(at <= j < at + i) ==> dst[j] == old(dst[j])
        invariant i > 0 ==> dst[at] == Pfn(platform.script(old(platform.calls)))
        invariant Progress(old(platform.maps), at, 0, i, pages)
      {
        var h := 0;
        if platform.backed(b.va / PAGE_SIZE + i) {
          h := MapInto(pages, i, at, 0, i, old(platform.maps));
        }
        if h == 0 {
          RecordedIsPfn(dst[..], at, 0, i, pages, platform.answers);
          UndoKernel(at, i, old(platform.maps));
          return -1, done;
        }
        i, done := i + 1, done + 1;
      }
      RecordedReaches(platform, dst[..], at, b, platform.answers);
      next := at + npages;
    }

    /** tg_req_unmap_user_pages */
    method UnmapUserPages(ghost base: Balance)
      requires PinsOf(platform.pins, base, upList) && (platform.broken || NonNegative(base))
      modifies platform`pins, platform`dirty, this`upList
      ensures Same(platform.pins, base) && upList == []
      ensures platform.dirty == old(platform.dirty) + Dirtied(old(upList))
    {
      while upList != []
        invariant PinsOf(platform.pins, base, upList)
        invariant platform.dirty + Dirtied(upList) == old(platform.dirty) + Dirtied(old(upList))
        decreases |upList|
      {
        var entry := upList[0];
        ghost var rest := upList[1..];
        upList := upList[1..];
        if entry.writable {
          platform.SetPagesDirty(entry.pages);
        }
        PutEntry(entry, base, rest);
      }
    }

    method PutEntry(entry: UpEntry, ghost base: Balance, ghost rest: seq<UpEntry>)
      requires forall p: Page :: platform.pins.Owed(p) ==
                                 base.Owed(p) + Pinned(rest, p) + Times(entry.pages, 0, |entry.pages|, p)
      requires platform.broken || NonNegative(base)
      modifies platform`pins
      ensures PinsOf(platform.pins, base, rest)
    {
      var i := 0;
      while i < |entry.pages|
        invariant 0 <= i <= |entry.pages|
        invariant forall p: Page :: platform.pins.Owed(p) ==
                                    base.Owed(p) + Pinned(rest, p) + Times(entry.pages, i, |entry.pages|, p)
      {
        platform.PutPage(entry.pages[i]);
        i := i + 1;
      }
    }

    /** The sizes that tg_req_create gives a request, and where its buffers will lie. */
    ghost predicate Sized(bufs: seq<Buffer>, ats: seq<nat>)
      reads this
    {
      && IsWalk(ats, bufs) && sbuf.Length == |bufs|
      && |dstPages| == PageSpan(0, requestSize)
      && InlineAt(|dstPages|) + idata.Length == FirstBufferAt(|dstPages|, inlineByteCount) == ats[0]
      && ats[|bufs|] <= dst.Length
    }

    /** The request's own pages and its first `n` buffers are pinned, mapped and laid out; the
        platform owes them beyond the given counts. */
    ghost predicate Built(bufs: seq<Buffer>, ats: seq<nat>, n: nat, maps: Balance, pins: Balance)
      reads this, platform, dst
    {
      && Sized(bufs, ats) && Laid(dst[..], |dstPages|, ats, bufs, n)
      && MapsOf(platform.maps, maps, dst[..], FIRST_INDEX, ats[n])
      && PinsOf(platform.pins, pins, upList)
    }

    /** tg_req_unmap_pages: whatever was built is released, and a successful request brings its
        results back to the caller. */
    method UnmapPages(nbuf: nat, ghost bufs: seq<Buffer>, ghost ats: seq<nat>,
                      ghost maps: Balance, ghost pins: Balance)
      requires Built(bufs, ats, nbuf, maps, pins) && sbuf[..] == bufs
      requires platform.broken || (NonNegative(maps) && NonNegative(pins))
      modifies platform`pins, platform`maps, platform`dirty, this`upList, sbuf, idata
      ensures Same(platform.maps, maps) && Same(platform.pins, pins)
      ensures platform.dirty == old(platform.dirty) + Dirtied(old(upList))
      ensures Returned(sbuf[..], bufs, nbuf, dst[..], status, ats)
      ensures idata[..] == if status == Success then InlineWords(dst[..], InlineAt(|dstPages|), idata.Length)
                           else old(idata[..])
    {
      ghost var cells := dst[..];
      var dpages := PageSpan(0, requestSize);
      UnmapRange(FIRST_INDEX, InlineAt(dpages), ats[nbuf], cells, maps);
      if status == Success {
        CopyInlineBack(dpages);
      }
      var at := FirstBufferAt(dpages, inlineByteCount);
      MapsSkip(platform.maps, maps, cells, InlineAt(dpages), at, ats[nbuf]);
      UnmapBuffers(at, nbuf, bufs, ats, cells, maps);
      UnmapUserPages(pins);
    }

    /** The walk over the buffers. */
    method UnmapBuffers(first: nat, nbuf: nat, ghost bufs: seq<Buffer>, ghost ats: seq<nat>,
                        ghost cells: seq<Cell>, ghost maps: Balance)
      requires sbuf[..] == bufs && cells == dst[..] && Laid(cells, |dstPages|, ats, bufs, nbuf) && first == ats[0]
      requires MapsOf(platform.maps, maps, cells, first, ats[nbuf]) && (platform.broken || NonNegative(maps))
      modifies platform`maps, sbuf
      ensures Same(platform.maps, maps)
      ensures Returned(sbuf[..], bufs, nbuf, cells, status, ats)
    {
      var at := first;
      var i := 0;
      while i < nbuf
        invariant 0 <= i <= nbuf && at == ats[i]
        invariant MapsOf(platform.maps, maps, cells, at, ats[nbuf])
        invariant Returned(sbuf[..], bufs, i, cells, status, ats)
      {
        assert BufferLaid(cells, ats[i], bufs[i]) && ats[i + 1] == ats[i] + DESCRIPTOR + PageCount(bufs[i]);
        assert sbuf[i] == sbuf[..][i] == bufs[i];
        at := UnmapBuffer(i, at, ats[nbuf], cells, maps);
        i := i + 1;
      }
    }

    /** One step of the walk: the word after the buffer. */
    method UnmapBuffer(i: nat, at: nat, ghost end: nat, ghost cells: seq<Cell>, ghost base: Balance)
      returns (next: nat)
      requires cells == dst[..] && i < sbuf.Length && BufferLaid(cells, at, sbuf[i])
      requires at + DESCRIPTOR + PageCount(sbuf[i]) <= end <= |cells|
      requires MapsOf(platform.maps, base, cells, at, end) && (platform.broken || NonNegative(base))
      modifies platform`maps, sbuf
      ensures next == at + DESCRIPTOR + PageCount(old(sbuf[i]))
      ensures MapsOf(platform.maps, base, cells, next, end)
      ensures sbuf[..] == old(sbuf[..])[i := ReturnedBuffer(old(sbuf[i]), cells, status, at)]
    {
      MapsSkip(platform.maps, base, cells, at, at + DESCRIPTOR, end);
      next := at + DESCRIPTOR;
      if sbuf[i].byteCount != 0 {
        var npages := PageSpan(sbuf[i].va, sbuf[i].byteCount);
        if status == Success {
          assert dst[at + 1] == cells[at + 1];
          sbuf[i] := sbuf[i].(byteCount := dst[at + 1].byteCount);
        }
        UnmapRange(next, next + npages, end, cells, base);
        next := next + npages;
      }
    }

    method CopyInlineBack(dpages: nat)
      requires InlineAt(dpages) + idata.Length <= dst.Length
      requires forall i :: InlineAt(dpages) <= i < InlineAt(dpages) + idata.Length ==> dst[i].Data?
      modifies idata
      ensures idata[..] == InlineWords(dst[..], InlineAt(dpages), idata.Length)
    {
      var i := 0;
      while i < idata.Length
        invariant 0 <= i <= idata.Length
        invariant forall j :: 0 <= j < i ==> idata[j] == WordAt(dst[..], InlineAt(dpages) + j)
      {
        idata[i] := dst[InlineAt(dpages) + i].word;
        i := i + 1;
      }
    }

    /** tg_req_create after the allocations: the whole request is built, or nothing of it stays
        pinned, and what stays mapped is what the error path of the failing buffer leaves. */
    method Build(ghost bufs: seq<Buffer>, ghost ats: seq<nat>) returns (ok: bool, ghost end: Ending)
      requires Sized(bufs, ats) && sbuf[..] == bufs && upList == [] && status == Pending
      requires forall i :: 0 <= i < dst.Length ==> dst[i] == stale(i)
      requires platform.broken || (NonNegative(platform.maps) && NonNegative(platform.pins))
      modifies platform`pins, platform`maps, platform`dirty, platform`answers, platform`calls, platform`broken
      modifies this`upList, dst, sbuf, idata
      ensures sbuf[..] == bufs && idata[..] == old(idata[..])
      ensures ok ==> Built(bufs, ats, |bufs|, old(platform.maps), old(platform.pins))
      ensures ok ==> Described(dst[..], ats, bufs, |bufs|)
      ensures ok ==> Reached(platform, dst[..], ats, bufs, |bufs|, platform.answers)
      ensures ok ==> Recorded(dst[..], FIRST_INDEX, 0, |dstPages|, dstPages, platform.answers)
      ensures ok ==> InlineWords(dst[..], InlineAt(|dstPages|), idata.Length) == idata[..]
      ensures (ok <==> end.Complete?) && !end.SubmitFailed? && !end.Answered?
      ensures !ok ==> Same(platform.pins, old(platform.pins))
      ensures platform.Ended(end, bufs, old(platform.calls), |dstPages|, platform.calls)
      ensures !ok ==> (Same(platform.maps, old(platform.maps)) <==>
                       platform.LeavesNothing(end, bufs, ats, old(platform.calls), |dstPages|, stale))
      ensures platform.broken <==> old(platform.broken) || (!ok && !Same(platform.maps, old(platform.maps)))
    {
      var dpages := MapInternal();
      if dpages < 0 {
        return false, Refused;
      }
      RecordedIsPfn(dst[..], FIRST_INDEX, 0, dpages, dstPages, platform.answers);
      ghost var before := dst[..];
      CopyInline(dpages);
      MapsJoin(platform.maps, platform.maps, old(platform.maps), before, dst[..],
               FIRST_INDEX, InlineAt(dpages), ats[0], ats[0]);
      RecordedFrame(before, dst[..], dstPages, platform.answers, platform.answers);
      before := dst[..];
      ghost var known := platform.answers;
      assert PinsOf(platform.pins, old(platform.pins), upList);
      assert MapsOf(platform.maps, old(platform.maps), dst[..], FIRST_INDEX, ats[0]);
      assert Laid(dst[..], dpages, ats, bufs, 0);
      ghost var k, done;
      ok, k, done := BuildBuffers(bufs, ats, old(platform.maps), old(platform.pins), old(platform.calls));
      end := if ok then Complete else BufferFailed(k, done);
      RecordedFrame(before, dst[..], dstPages, known, platform.answers);
      InlineFrame(before, dst[..], InlineAt(dpages), idata.Length);
    }

    method CopyInline(dpages: nat)
      requires InlineAt(dpages) + idata.Length <= dst.Length
      modifies dst
      ensures forall i :: 0 <= i < dst.Length && !(InlineAt(dpages) <= i < InlineAt(dpages) + idata.Length) ==>
                dst[i] == old(dst[i])
      ensures forall i :: InlineAt(dpages) <= i < InlineAt(dpages) + idata.Length ==> dst[i].Data?
      ensures InlineWords(dst[..], InlineAt(dpages), idata.Length) == idata[..]
    {
      var i := 0;
      while i < idata.Length
        invariant 0 <= i <= idata.Length
        invariant forall j :: 0 <= j < dst.Length && !(InlineAt(dpages) <= j < InlineAt(dpages) + i) ==>
                    dst[j] == old(dst[j])
        invariant forall j :: 0 <= j < i ==> dst[InlineAt(dpages) + j] == Data(idata[j])
      {
        dst[InlineAt(dpages) + i] := Data(idata[i]);
        i := i + 1;
      }
      forall j | InlineAt(dpages) <= j < InlineAt(dpages) + idata.Length ensures dst[j].Data? {
        assert dst[j] == Data(idata[j - InlineAt(dpages)]);
      }
      forall j | 0 <= j < idata.Length ensures WordAt(dst[..], InlineAt(dpages) + j) == idata[j] {
        assert dst[InlineAt(dpages) + j] == Data(idata[j]);
      }
    }

    lemma FirstBuffer(bufs: seq<Buffer>, from: nat, calls: nat, ats: seq<nat>)
      requires calls == from + |dstPages| && |ats| > |bufs|
      ensures calls == Platform.FirstCall(bufs, from, |dstPages|, 0)
      ensures Described(dst[..], ats, bufs, 0)
    {
    }

    /** The walk of tg_req_create over the buffers; call `from` was the first for the request. */
    method BuildBuffers(ghost bufs: seq<Buffer>, ghost ats: seq<nat>, ghost maps: Balance, ghost pins: Balance,
                        ghost from: nat)
      returns (ok: bool, ghost k: nat, ghost done: nat)
      requires Built(bufs, ats, 0, maps, pins) && sbuf[..] == bufs && status == Pending
      requires forall i :: ats[0] <= i < dst.Length ==> dst[i] == stale(i)
      requires platform.calls == from + |dstPages| && platform.Answers(from, platform.calls)
      requires platform.broken || (NonNegative(maps) && NonNegative(pins))
      modifies platform`pins, platform`maps, platform`dirty, platform`answers, platform`calls, platform`broken
      modifies this`upList, dst, sbuf, idata
      ensures sbuf[..] == bufs && idata[..] == old(idata[..])
      ensures forall i :: 0 <= i < ats[0] ==> dst[i] == old(dst[i])
      ensures ok ==> Built(bufs, ats, |bufs|, maps, pins) && Described(dst[..], ats, bufs, |bufs|)
      ensures ok ==> Reached(platform, dst[..], ats, bufs, |bufs|, platform.answers)
      ensures old(platform.answers) <= platform.answers
      ensures var end := if ok then Complete else BufferFailed(k, done);
              && platform.Ended(end, bufs, from, |dstPages|, platform.calls)
              && (!ok ==> Same(platform.pins, pins))
              && (!ok ==> (Same(platform.maps, maps) <==>
                           platform.LeavesNothing(end, bufs, ats, from, |dstPages|, stale)))
      ensures platform.broken <==> old(platform.broken) || (!ok && !Same(platform.maps, maps))
    {
      hide MapsOf, PinsOf, Laid, NonNegative, Same, Undone, NextWord, Platform.FailsAfter, Platform.LeavesNothing;
      hide Platform.Ended, Platform.Answers, Platform.FirstCall, PageCount, Described, BufferReached;
      FirstBuffer(bufs, from, platform.calls, ats);
      var at := FirstBufferAt(|dstPages|, inlineByteCount);
      var nbuf := 0;
      k, done := 0, 0;
      while nbuf < sbuf.Length
        invariant 0 <= nbuf <= |bufs| && at == ats[nbuf] && sbuf[..] == bufs && idata[..] == old(idata[..])
        invariant forall i :: 0 <= i < ats[0] ==> dst[i] == old(dst[i])
        invariant forall i :: ats[nbuf] <= i < dst.Length ==> dst[i] == stale(i)
        invariant platform.calls == Platform.FirstCall(bufs, from, |dstPages|, nbuf)
        invariant platform.Answers(from, platform.calls) && platform.broken == old(platform.broken)
        invariant Built(bufs, ats, nbuf, maps, pins) && Described(dst[..], ats, bufs, nbuf)
        invariant Reached(platform, dst[..], ats, bufs, nbuf, platform.answers)
        invariant old(platform.answers) <= platform.answers
      {
        assert ats[0] <= ats[nbuf];
        var next;
        next, done := BuildNext(nbuf, at, bufs, ats, maps, pins);
        if next < 0 {
          k := nbuf;
          platform.EndsInBuffer(bufs, ats, from, |dstPages|, k, done, platform.calls, stale);
          return false, k, done;
        }
        platform.NextBuffer(bufs, from, |dstPages|, nbuf, platform.calls);
        at := next;
        nbuf := nbuf + 1;
      }
      platform.EndsComplete(bufs, from, |dstPages|, platform.calls);
      ok := true;
    }

    /** One more buffer, or nothing of the request stays pinned, and mapped only what the error path
        of this buffer leaves. */
    method BuildNext(nbuf: nat, at: nat, ghost bufs: seq<Buffer>, ghost ats: seq<nat>,
                     ghost maps: Balance, ghost pins: Balance) returns (next: int, ghost done: nat)
      requires nbuf < |bufs| && Built(bufs, ats, nbuf, maps, pins) && Described(dst[..], ats, bufs, nbuf)
      requires Reached(platform, dst[..], ats, bufs, nbuf, platform.answers)
      requires sbuf[..] == bufs && status == Pending && at == ats[nbuf]
      requires platform.broken || (NonNegative(maps) && NonNegative(pins))
      requires forall i :: ats[nbuf] <= i < dst.Length ==> dst[i] == stale(i)
      modifies platform`pins, platform`maps, platform`dirty, platform`answers, platform`calls, platform`broken
      modifies this`upList, dst, sbuf, idata
      ensures sbuf[..] == bufs && idata[..] == old(idata[..])
      ensures forall i :: 0 <= i < ats[nbuf] ==> dst[i] == old(dst[i])
      ensures next >= 0 ==>
                && next == ats[nbuf + 1] && platform.broken == old(platform.broken)
                && platform.calls == old(platform.calls) + PageCount(bufs[nbuf])
                && platform.Answers(old(platform.calls), platform.calls)
                && (forall i :: ats[nbuf + 1] <= i < dst.Length ==> dst[i] == stale(i))
      ensures next >= 0 ==> Built(bufs, ats, nbuf + 1, maps, pins) && Described(dst[..], ats, bufs, nbuf + 1)
      ensures next >= 0 ==> Reached(platform, dst[..], ats, bufs, nbuf + 1, platform.answers)
      ensures old(platform.answers) <= platform.answers
      ensures next < 0 ==>
                && platform.FailsAfter(bufs[nbuf], old(platform.calls), done, platform.calls)
                && Same(platform.pins, pins)
                && (Same(platform.maps, maps) <==>
                    Undone(stale(NextWord(bufs[nbuf], at + DESCRIPTOR, done)), done,
                           platform.script(old(platform.calls))))
                && (platform.broken <==> old(platform.broken) || !Same(platform.maps, maps))
    {
      ghost var before, middle, known := dst[..], platform.maps, platform.answers;
      assert ats[nbuf + 1] == ats[nbuf] + DESCRIPTOR + PageCount(bufs[nbuf]) <= ats[|bufs|];
      assert sbuf[nbuf] == sbuf[..][nbuf];
      next, done := BuildBuffer(sbuf[nbuf], at);
      if next < 0 {
        Abandon(nbuf, bufs, ats, before, middle, maps, pins);
      } else {
        MapsJoin(platform.maps, middle, maps, before, dst[..], FIRST_INDEX, ats[nbuf], ats[nbuf] + DESCRIPTOR, next);
        LaidNext(before, dst[..], |dstPages|, ats, bufs, nbuf);
        ReachedNext(platform, before, dst[..], ats, bufs, nbuf, known, platform.answers);
      }
    }

    /** The error path of tg_req_create: buffer `nbuf` failed after changing words of its own.  What
        it left mapped, or unmapped too often, stays so. */
    method Abandon(nbuf: nat, ghost bufs: seq<Buffer>, ghost ats: seq<nat>, ghost before: seq<Cell>,
                   ghost middle: Balance, ghost maps: Balance, ghost pins: Balance)
      requires Sized(bufs, ats) && sbuf[..] == bufs && status == Pending && Laid(before, |dstPages|, ats, bufs, nbuf)
      requires |before| == dst.Length && forall i :: 0 <= i < ats[nbuf] ==> dst[i] == before[i]
      requires MapsOf(middle, maps, before, FIRST_INDEX, ats[nbuf]) && PinsOf(platform.pins, pins, upList)
      requires platform.broken || (NonNegative(maps) && NonNegative(pins) && Same(platform.maps, middle))
      modifies platform`pins, platform`maps, platform`dirty, this`upList, sbuf, idata
      ensures Same(platform.maps, maps) <==> Same(old(platform.maps), middle)
      ensures Same(platform.pins, pins) && sbuf[..] == bufs && idata[..] == old(idata[..])
    {
      ghost var left := maps.Off(platform.maps, middle);
      MapsShift(platform.maps, left, middle, maps, before, FIRST_INDEX, ats[nbuf]);
      MapsFrame(platform.maps, left, before, dst[..], FIRST_INDEX, ats[nbuf]);
      LaidFrame(before, dst[..], |dstPages|, ats, bufs, nbuf);
      UnmapPages(nbuf, bufs, ats, left, pins);
    }

    /** One descriptor and the pages of its buffer. */
    method BuildBuffer(b: Buffer, at: nat) returns (next: int, ghost done: nat)
      requires at + DESCRIPTOR + PageCount(b) <= dst.Length
      requires platform.broken || (NonNegative(platform.maps) && NonNegative(platform.pins))
      modifies platform`pins, platform`maps, platform`answers, platform`calls, platform`broken, this`upList, dst
      ensures forall j :: 0 <= j < dst.Length && !(at <= j < at + DESCRIPTOR + PageCount(b)) ==> dst[j] == old(dst[j])
      ensures next < 0 ==>
                && platform.FailsAfter(b, old(platform.calls), done, platform.calls)
                && Same(platform.pins, old(platform.pins)) && upList == old(upList)
                && (Same(platform.maps, old(platform.maps)) <==>
                    Undone(old(dst[NextWord(b, at + DESCRIPTOR, done)]), done, platform.script(old(platform.calls))))
                && (platform.broken <==> old(platform.broken) || !Same(platform.maps, old(platform.maps)))
      ensures next >= 0 ==>
                && next == at + DESCRIPTOR + PageCount(b) && platform.broken == old(platform.broken)
                && platform.calls == old(platform.calls) + PageCount(b)
                && platform.Answers(old(platform.calls), platform.calls)
                && BufferLaid(dst[..], at, b) && BufferDescribed(dst[..], at, b)
                && BufferReached(platform, dst[..], at + DESCRIPTOR, b, platform.answers)
                && MapsOf(platform.maps, old(platform.maps), dst[..], at + DESCRIPTOR, next)
                && forall pins: Balance :: PinsOf(old(platform.pins), pins, old(upList)) ==>
                     PinsOf(platform.pins, pins, upList)
      ensures old(platform.answers) <= platform.answers
    {
      next, done := at + DESCRIPTOR, 0;
      if b.byteCount == 0 {
        dst[at], dst[at + 1] := Va(0), Meta(0, false);
        return;
      }
      dst[at], dst[at + 1] := Va(b.va), Meta(b.byteCount, b.writable);
      var npages := PageSpan(b.va, b.byteCount);
      if b.kernel {
        next, done := MapKernelPages(next, b, npages);
        if next >= 0 {
          RecordedIsPfn(dst[..], at + DESCRIPTOR, 0, npages, platform.PagesOf(b, npages), platform.answers);
        }
      } else {
        next, done := MapUserPages(next, b, npages);
        if next >= 0 {
          RecordedIsPfn(dst[..], at + DESCRIPTOR, 0, npages, upList[0].pages, platform.answers);
        }
      }
    }

    /** tg_req_destroy */
    method Destroy(ghost bufs: seq<Buffer>, ghost ats: seq<nat>, ghost maps: Balance, ghost pins: Balance)
      requires Built(bufs, ats, |bufs|, maps, pins) && sbuf[..] == bufs
      requires platform.broken || (NonNegative(maps) && NonNegative(pins))
      modifies platform`pins, platform`maps, platform`dirty, this`upList, sbuf, idata
      ensures Same(platform.maps, maps) && Same(platform.pins, pins)
      ensures platform.dirty == old(platform.dirty) + Dirtied(old(upList))
      ensures Returned(sbuf[..], bufs, |bufs|, dst[..], status, ats)
      ensures idata[..] == if status == Success then InlineWords(dst[..], InlineAt(|dstPages|), idata.Length)
                           else old(idata[..])
    {
      UnmapPages(sbuf.Length, bufs, ats, maps, pins);
    }

    /** The start of tg_req_submit: the first page is mapped and pinned once more.  When it cannot be
        mapped, it is put and unmapped all the same. */
    method Submit() returns (phys: Handle)
      requires |dstPages| > 0
      modifies platform`pins, platform`maps, platform`answers, platform`calls, platform`broken
      ensures platform.calls == old(platform.calls) + 1 && phys == platform.script(old(platform.calls))
      ensures Changed(old(platform.pins), platform.pins, dstPages[0], if phys != 0 then 1 else -1)
      ensures Changed(old(platform.maps), platform.maps, phys, if phys != 0 then 1 else -1)
      ensures platform.broken <==> old(platform.broken) || phys == 0
    {
      phys := platform.MapPage(dstPages[0]);
      if phys == 0 {
        platform.broken := true;
        Withdraw(phys);
        return;
      }
      platform.GetPage(dstPages[0]);
    }

    /** The end of tg_req_submit or of tg_req_complete. */
    method Withdraw(phys: Handle)
      requires |dstPages| > 0
      requires platform.broken || (platform.pins.Owed(dstPages[0]) > 0 && platform.maps.Owed(phys) > 0)
      modifies platform`pins, platform`maps
      ensures Changed(old(platform.pins), platform.pins, dstPages[0], -1)
      ensures Changed(old(platform.maps), platform.maps, phys, -1)
    {
      platform.PutPage(dstPages[0]);
      platform.UnmapPage(phys);
    }

    /** tg_req_submit, tg_req_complete and tg_req_destroy of a request that is built. */
    method SubmitAndDestroy(reply: Reply, ghost bufs: seq<Buffer>, ghost ats: seq<nat>,
                            ghost maps: Balance, ghost pins: Balance)
      returns (ghost end: Ending)
      requires Built(bufs, ats, |bufs|, maps, pins) && sbuf[..] == bufs && status == Pending && |dstPages| > 0
      requires NonNegative(maps) && NonNegative(pins) && !platform.broken
      modifies platform`pins, platform`maps, platform`dirty, platform`answers, platform`calls, platform`broken
      modifies this`upList, this`status, dst, sbuf, idata
      ensures platform.calls == old(platform.calls) + 1
      ensures end == if platform.script(old(platform.calls)) == 0 then SubmitFailed else Answered
      ensures Same(platform.pins, pins) <==> end.Answered?
      ensures Same(platform.maps, maps) <==> end.Answered?
      ensures platform.broken <==> end.SubmitFailed?
      ensures end.SubmitFailed? ==> sbuf[..] == bufs && idata[..] == old(idata[..]) && status == Pending
      ensures end.Answered? ==>
                && status == reply.status
                && Reported(sbuf[..], bufs, reply, ats)
                && InlineReported(idata[..], old(idata[..]), reply, InlineAt(|dstPages|))
    {
      hide Reported, InlineReported, Returned, Laid, InlineWords, MapsOf, PinsOf, Changed, NonNegative, Same;
      ghost var p := dstPages[0];
      var phys := Submit();
      MapsMoved(old(platform.maps), platform.maps, maps, dst[..], FIRST_INDEX, ats[|bufs|], phys);
      PinsMoved(old(platform.pins), platform.pins, pins, upList, p);
      if phys == 0 {
        end := SubmitFailed;
        Destroy(bufs, ats, maps.Gave(0), pins.Gave(p));
        GivenIsNotSame(platform.maps, maps, 0);
        GivenIsNotSame(platform.pins, pins, p);
        NothingReturned(sbuf[..], bufs, dst[..], status, ats);
      } else {
        end := Answered;
        Finish(reply, phys, bufs, ats, maps, pins);
      }
    }

    /** The host answers a request whose first page is mapped once more and pinned once more. */
    method Finish(reply: Reply, phys: Handle, ghost bufs: seq<Buffer>, ghost ats: seq<nat>,
                  ghost maps: Balance, ghost pins: Balance)
      requires |dstPages| > 0 && Built(bufs, ats, |bufs|, maps.Took(phys), pins.Took(dstPages[0])) && sbuf[..] == bufs
      requires NonNegative(maps) && NonNegative(pins) && !platform.broken
      modifies platform`pins, platform`maps, platform`dirty, this`upList, this`status, dst, sbuf, idata
      ensures Same(platform.pins, pins) && Same(platform.maps, maps)
      ensures status == reply.status
      ensures Reported(sbuf[..], bufs, reply, ats)
      ensures InlineReported(idata[..], old(idata[..]), reply, InlineAt(|dstPages|))
    {
      hide Reported, Replied, Returned, Laid, InlineWords;
      ghost var cells := dst[..];
      HostAnswers(reply);
      SameShapeLaid(cells, dst[..], |dstPages|, ats, bufs, |bufs|);
      Taken(maps, phys);
      Taken(pins, dstPages[0]);
      Withdraw(phys);
      Destroy(bufs, ats, maps, pins);
      ReplyIsReported(dst[..], reply, |dstPages|, ats, bufs, sbuf[..], old(idata[..]));
    }

    /** The host: any status, any inline bytes, any byte counts. */
    method HostAnswers(reply: Reply)
      modifies this`status, dst
      ensures status == reply.status && Replied(dst[..], reply)
      ensures forall i :: 0 <= i < dst.Length ==> SameShape(old(dst[i]), dst[i])
    {
      status := reply.status;
      var i := 0;
      while i < dst.Length
        invariant 0 <= i <= dst.Length
        invariant status == reply.status
        invariant forall j :: 0 <= j < i && dst[j].Data? ==> dst[j].word == reply.words(j)
        invariant forall j :: 0 <= j < i && dst[j].Meta? ==> dst[j].byteCount == reply.counts(j)
        invariant forall j :: 0 <= j < dst.Length ==> SameShape(old(dst[j]), dst[j])
      {
        if dst[i].Data? {
          dst[i] := Data(reply.words(i));
        } else if dst[i].Meta? {
          dst[i] := Meta(reply.counts(i), dst[i].writable);
        }
        i := i + 1;
      }
    }
  }

  /** call_tg_sync.  Whatever fails, and whatever the host answers, every page is released and every
      mapping undone exactly as often as it was made, unless the submit page cannot be mapped or a
      buffer fails after its first page; then the pages are still released in the second case, and
      the mappings undone exactly if the error path happens to meet the right word. */
  method CallSync(platform: Platform, inlineByteCount: U16, sbuf: array<Buffer>, idata: array<Word>,
                  stale: nat -> Cell, reply: Reply)
    returns (ok: bool, status: Status, ghost end: Ending)
    requires BaseSize(inlineByteCount, sbuf[..]) < 0x8000_0000 || sbuf.Length <= 511
    requires sbuf.Length < 0x1_0000 && idata.Length * WORD == InlineSize(inlineByteCount)
    requires NonNegative(platform.maps) && NonNegative(platform.pins) && !platform.broken
    modifies platform, sbuf, idata
    ensures ok <==> end.Answered? || end.SubmitFailed?
    ensures var bufs := old(sbuf[..]);
            var dpages := PagesFor(BaseSize(inlineByteCount, bufs));
            && platform.Ended(end, bufs, old(platform.calls), dpages, platform.calls) && !end.Complete?
            && (Same(platform.pins, old(platform.pins)) <==> !end.SubmitFailed?)
            && (Same(platform.maps, old(platform.maps)) <==>
                platform.LeavesNothing(end, bufs, Walk(dpages, inlineByteCount, bufs), old(platform.calls), dpages,
                                       stale))
    ensures platform.broken <==> !Same(platform.pins, old(platform.pins)) || !Same(platform.maps, old(platform.maps))
    ensures !end.Answered? ==> sbuf[..] == old(sbuf[..]) && idata[..] == old(idata[..])
    ensures ok ==> status == if end.Answered? then reply.status else Pending
    ensures end.Answered? ==>
              var bufs := old(sbuf[..]);
              var dpages := PagesFor(BaseSize(inlineByteCount, bufs));
              && Reported(sbuf[..], bufs, reply, Walk(dpages, inlineByteCount, bufs))
              && InlineReported(idata[..], old(idata[..]), reply, InlineAt(dpages))
  {
    hide PageSpan, Walk, PagesFor, BaseSize, RequestSize, Reported, InlineReported, PinsOf, MapsOf, Laid, InlineSize;
    hide Platform.LeavesNothing, Reached, Recorded, Described, InlineWords, Platform.Ended;
    ghost var bufs := sbuf[..];
    var size := PagedSize(inlineByteCount, sbuf[..]);
    var room := platform.Allocate();
    if size < 0 || !room {
      platform.NothingToLeave(bufs, Walk(PagesFor(BaseSize(inlineByteCount, bufs)), inlineByteCount, bufs),
                              platform.calls, PagesFor(BaseSize(inlineByteCount, bufs)), stale);
      return false, Pending, Refused;
    }
    ghost var ats := PlaceBuffers(inlineByteCount, bufs);
    var pages := VmallocPages(PageSpan(0, size));
    var req := new Request(platform, inlineByteCount, sbuf, idata, size, pages, stale);
    ok, end := req.Build(bufs, ats);
    if ok {
      platform.EndsWithSubmit(bufs, ats, old(platform.calls), |pages|, platform.calls, stale);
      end := req.SubmitAndDestroy(reply, bufs, ats, old(platform.maps), old(platform.pins));
    }
    status := req.status;
  }

  /** A request with one kernel buffer of two pages, the second of which cannot be mapped, leaves a
      handle mapped: the buffer's error path unmaps the word after the first index. */
  method SecondPageFails() returns (platform: Platform, next: int)
    ensures next < 0 && !Same(platform.maps, Balance(multiset{}, multiset{}))
  {
    var b := Buffer(0, 2 * PAGE_SIZE, false, true);
    platform := new Platform(i => i, _ => true, i => i, call => if call == 0 then 5 else 0);
    var sbuf, idata := new Buffer[1][b], new Word[0];
    OneBufferSize(b);
    var size := PagedSize(0, [b]);
    assert size == 56;
    var pages := VmallocPages(PageSpan(0, size));
    var req := new Request(platform, 0, sbuf, idata, size, pages, _ => Blank);
    ghost var before, done := platform.maps, 0;
    next, done := req.BuildBuffer(b, FirstBufferAt(|pages|, 0));
    assert platform.script(0) == 5 && platform.script(1) == 0;
    assert done == 1;
    assert before == Balance(multiset{}, multiset{});
  }

  lemma OneBufferSize(b: Buffer)
    ensures BaseSize(0, [b]) == 40 + INDEX_SIZE * PageCount(b)
  {
    assert [b][..0] == [];
    assert BufferSizes([b]) == BufferSizes([b][..0]) + BufferSize(b);
  }

  method VmallocPages(count: nat) returns (pages: seq<Page>)
    ensures |pages| == count
  {
    pages := *;
    if |pages| != count {
      pages := seq(count, i => 0);
    }
  }

  lemma PlaceBuffers(inlineByteCount: U16, bufs: seq<Buffer>) returns (ats: seq<nat>)
    requires |bufs| < 0x1_0000
    ensures var base := BaseSize(inlineByteCount, bufs);
            && IsWalk(ats, bufs) && ats == Walk(PagesFor(base), inlineByteCount, bufs)
            && ats[0] == FirstBufferAt(PagesFor(base), inlineByteCount)
            && WORD * ats[|bufs|] == RequestSize(base)
            && PageSpan(0, RequestSize(base)) == PagesFor(base) > 0
  {
    var dpages := PagesFor(BaseSize(inlineByteCount, bufs));
    WalkIsWalk(dpages, inlineByteCount, bufs);
    ExactLayout(inlineByteCount, bufs, Header);
    ats := Walk(dpages, inlineByteCount, bufs);
  }
}
