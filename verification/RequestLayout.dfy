/**
 Where the parts of a paged request lie, in 64-bit words from its start.

 Every part is a whole number of words: two header words, the page indices, the inline bytes
 padded to eight, and per buffer a two-word descriptor followed by its page indices.
 */
module RequestLayout {
  import opened MachineTypes
  import opened RequestSizing

  const WORD := 8
  const FIRST_INDEX := 2 // offsetof(TG_PAGED_REQUEST, RequestPages) in words
  const DESCRIPTOR := 2  // sizeof(TG_PAGED_BUFFER) in words

  function BufferWords(b: Buffer): nat {
    DESCRIPTOR + PageCount(b)
  }

  function BuffersWords(bufs: seq<Buffer>): nat {
    if bufs == [] then 0 else BuffersWords(bufs[..|bufs| - 1]) + BufferWords(bufs[|bufs| - 1])
  }

  function InlineAt(dpages: nat): nat {
    FIRST_INDEX + dpages
  }

  function FirstBufferAt(dpages: nat, inlineByteCount: U16): nat {
    InlineAt(dpages) + InlineSize(inlineByteCount) / WORD
  }

  /** The descriptor of buffer `k`; for `k == |bufs|`, the end of the request. */
  function BufferAt(dpages: nat, inlineByteCount: U16, bufs: seq<Buffer>, k: nat): nat
    requires k <= |bufs|
  {
    FirstBufferAt(dpages, inlineByteCount) + BuffersWords(bufs[..k])
  }

  lemma BufferAtNext(dpages: nat, inlineByteCount: U16, bufs: seq<Buffer>, k: nat)
    requires k < |bufs|
    ensures BufferAt(dpages, inlineByteCount, bufs, k + 1) ==
            BufferAt(dpages, inlineByteCount, bufs, k) + DESCRIPTOR + PageCount(bufs[k])
  {
    assert bufs[..k + 1][..k] == bufs[..k];
  }

  lemma {:induction false} BufferAtMonotone(dpages: nat, inlineByteCount: U16, bufs: seq<Buffer>, j: nat, k: nat)
    requires j <= k <= |bufs|
    ensures BufferAt(dpages, inlineByteCount, bufs, j) <= BufferAt(dpages, inlineByteCount, bufs, k)
    decreases k
  {
    if j < k {
      BufferAtMonotone(dpages, inlineByteCount, bufs, j, k - 1);
      BufferAtNext(dpages, inlineByteCount, bufs, k - 1);
    }
  }

  /** `ats` are the words a walk over the buffers passes, the end of the last one included. */
  ghost predicate IsWalk(ats: seq<nat>, bufs: seq<Buffer>) {
    && |ats| == |bufs| + 1
    && (forall k :: 0 <= k < |bufs| ==> ats[k + 1] == ats[k] + DESCRIPTOR + PageCount(bufs[k]))
    && (forall j, k :: 0 <= j <= k < |ats| ==> ats[j] <= ats[k])
  }

  function Walk(dpages: nat, inlineByteCount: U16, bufs: seq<Buffer>): seq<nat> {
    seq(|bufs| + 1, k requires 0 <= k <= |bufs| => BufferAt(dpages, inlineByteCount, bufs, k))
  }

  lemma WalkIsWalk(dpages: nat, inlineByteCount: U16, bufs: seq<Buffer>)
    ensures IsWalk(Walk(dpages, inlineByteCount, bufs), bufs)
    ensures Walk(dpages, inlineByteCount, bufs)[0] == FirstBufferAt(dpages, inlineByteCount)
  {
    assert bufs[..0] == [];
    var ats := Walk(dpages, inlineByteCount, bufs);
    forall k | 0 <= k < |bufs| ensures ats[k + 1] == ats[k] + DESCRIPTOR + PageCount(bufs[k]) {
      BufferAtNext(dpages, inlineByteCount, bufs, k);
    }
    forall j, k | 0 <= j <= k < |ats| ensures ats[j] <= ats[k] {
      BufferAtMonotone(dpages, inlineByteCount, bufs, j, k);
    }
  }

  lemma {:induction false} WordsAreBytes(bufs: seq<Buffer>)
    ensures WORD * BuffersWords(bufs) == BufferSizes(bufs)
  {
    if bufs != [] {
      WordsAreBytes(bufs[..|bufs| - 1]);
    }
  }

  /** The parts in the order of their addresses: header, page indices, inline bytes, then for
      each buffer its descriptor and its page indices. */
  datatype Part = Header | PageIndices | InlineBytes | Descriptor(k: nat) | BufferIndices(k: nat)

  function Order(p: Part): nat {
    match p
    case Header => 0
    case PageIndices => 1
    case InlineBytes => 2
    case Descriptor(k) => 3 + 2 * k
    case BufferIndices(k) => 4 + 2 * k
  }

  predicate IsPart(p: Part, bufs: seq<Buffer>) {
    p.Descriptor? || p.BufferIndices? ==> p.k < |bufs|
  }

  function Start(p: Part, dpages: nat, inlineByteCount: U16, bufs: seq<Buffer>): nat
    requires IsPart(p, bufs)
  {
    match p
    case Header => 0
    case PageIndices => FIRST_INDEX
    case InlineBytes => InlineAt(dpages)
    case Descriptor(k) => BufferAt(dpages, inlineByteCount, bufs, k)
    case BufferIndices(k) => BufferAt(dpages, inlineByteCount, bufs, k) + DESCRIPTOR
  }

  function Length(p: Part, dpages: nat, inlineByteCount: U16, bufs: seq<Buffer>): nat
    requires IsPart(p, bufs)
  {
    match p
    case Header => FIRST_INDEX
    case PageIndices => dpages
    case InlineBytes => InlineSize(inlineByteCount) / WORD
    case Descriptor(k) => DESCRIPTOR
    case BufferIndices(k) => PageCount(bufs[k])
  }

  /** Two parts never share a word. */
  lemma PartsDisjoint(p: Part, q: Part, dpages: nat, inlineByteCount: U16, bufs: seq<Buffer>)
    requires IsPart(p, bufs) && IsPart(q, bufs) && Order(p) < Order(q)
    ensures Start(p, dpages, inlineByteCount, bufs) + Length(p, dpages, inlineByteCount, bufs) <=
            Start(q, dpages, inlineByteCount, bufs)
  {
    if q.Descriptor? || q.BufferIndices? {
      if p.Descriptor? || p.BufferIndices? {
        if p.k < q.k {
          BufferAtNext(dpages, inlineByteCount, bufs, p.k);
          BufferAtMonotone(dpages, inlineByteCount, bufs, p.k + 1, q.k);
        }
      }
    }
  }

  /** With the page count of the sizing loop the parts end exactly at RequestSize, every part
      lies inside it, and mapping the request finds the same page count again. */
  lemma ExactLayout(inlineByteCount: U16, bufs: seq<Buffer>, p: Part)
    requires IsPart(p, bufs)
    ensures var base := BaseSize(inlineByteCount, bufs);
            var dpages := PagesFor(base);
            && WORD * BufferAt(dpages, inlineByteCount, bufs, |bufs|) == RequestSize(base)
            && PageSpan(0, RequestSize(base)) == dpages
            && WORD * (Start(p, dpages, inlineByteCount, bufs) + Length(p, dpages, inlineByteCount, bufs))
               <= RequestSize(base)
  {
    var dpages := PagesFor(BaseSize(inlineByteCount, bufs));
    PagesForIsLeast(BaseSize(inlineByteCount, bufs), dpages);
    WordsAreBytes(bufs);
    assert bufs[..|bufs|] == bufs;
    if p.Descriptor? || p.BufferIndices? {
      BufferAtNext(dpages, inlineByteCount, bufs, p.k);
      BufferAtMonotone(dpages, inlineByteCount, bufs, p.k + 1, |bufs|);
    }
  }

  /** Every word of the request belongs to a part. */
  lemma NoGaps(inlineByteCount: U16, bufs: seq<Buffer>, dpages: nat, at: nat) returns (p: Part)
    requires at < BufferAt(dpages, inlineByteCount, bufs, |bufs|)
    ensures IsPart(p, bufs)
    ensures Start(p, dpages, inlineByteCount, bufs) <= at
    ensures at < Start(p, dpages, inlineByteCount, bufs) + Length(p, dpages, inlineByteCount, bufs)
  {
    if at < FIRST_INDEX {
      p := Header;
    } else if at < InlineAt(dpages) {
      p := PageIndices;
    } else if at < FirstBufferAt(dpages, inlineByteCount) {
      p := InlineBytes;
    } else {
      var k := |bufs|;
      assert bufs[..0] == [];
      while at < BufferAt(dpages, inlineByteCount, bufs, k)
        invariant 0 <= k <= |bufs|
        invariant k < |bufs| ==> at < BufferAt(dpages, inlineByteCount, bufs, k + 1)
        decreases k
      {
        k := k - 1;
      }
      BufferAtNext(dpages, inlineByteCount, bufs, k);
      p := if at < BufferAt(dpages, inlineByteCount, bufs, k) + DESCRIPTOR then Descriptor(k) else BufferIndices(k);
    }
  }
}
