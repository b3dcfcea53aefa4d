/**
 How large a paged toolgate request is: `tg_req_paged_size`.

 The request holds the indices of its own pages, so its size depends on how many pages it
 needs, and that on its size.  The sizing loop looks for the least fixpoint.
 */
module RequestSizing {
  import opened MachineTypes

  /** TG_BUFFER, with its bit of TG_REQ_DESC.kernel_bufs. */
  datatype Buffer = Buffer(va: U64, byteCount: U32, writable: bool, kernel: bool)

  const INDEX_SIZE := 8            // sizeof(u64)
  const REQUEST_HEADER_SIZE := 24  // sizeof(TG_PAGED_REQUEST), with room for one page index
  const DESCRIPTOR_SIZE := 16      // sizeof(TG_PAGED_BUFFER)
  const REQUEST_INTERNAL_LIMIT := 16 * 1024 * 1024 * 8

  function PageSpan(start: nat, length: nat): nat {
    (start % PAGE_SIZE + length + PAGE_SIZE - 1) / PAGE_SIZE
  }

  function PageCount(b: Buffer): nat {
    if b.byteCount == 0 then 0 else PageSpan(b.va, b.byteCount)
  }

  /** The pages counted for a buffer are those from its first byte's to its last byte's. */
  lemma PageCountSpans(b: Buffer)
    requires b.byteCount > 0
    ensures PageCount(b) == (b.va + b.byteCount - 1) / PAGE_SIZE - b.va / PAGE_SIZE + 1
  {
  }

  /** The page of every byte of a buffer is counted. */
  lemma PageOfByte(b: Buffer, i: nat)
    requires i < b.byteCount
    ensures 0 <= (b.va + i) / PAGE_SIZE - b.va / PAGE_SIZE < PageCount(b)
  {
    PageCountSpans(b);
  }

  function InlineSize(inlineByteCount: U16): (size: nat)
    ensures size % 8 == 0 && inlineByteCount <= size < inlineByteCount + 8
  {
    (inlineByteCount + 7) / 8 * 8
  }

  function BufferSize(b: Buffer): nat {
    DESCRIPTOR_SIZE + INDEX_SIZE * PageCount(b)
  }

  function BufferSizes(bufs: seq<Buffer>): nat {
    if bufs == [] then 0 else BufferSizes(bufs[..|bufs| - 1]) + BufferSize(bufs[|bufs| - 1])
  }

  /** The request without the indices of its second and later pages. */
  function BaseSize(inlineByteCount: U16, bufs: seq<Buffer>): nat {
    REQUEST_HEADER_SIZE + InlineSize(inlineByteCount) + BufferSizes(bufs)
  }

  /** What a C int holds after arithmetic whose true value is `n`. */
  function Int32(n: int): (int32: int)
    ensures -0x8000_0000 <= int32 < 0x8000_0000 && (int32 - n) % 0x1_0000_0000 == 0
  {
    var low := n % 0x1_0000_0000;
    if low < 0x8000_0000 then low else low - 0x1_0000_0000
  }

  /** `base` bytes and the indices of `pages` pages fit into `pages` pages. */
  predicate Fits(base: nat, pages: nat) {
    base + INDEX_SIZE * (pages - 1) <= PAGE_SIZE * pages
  }

  function PagesFor(base: nat): nat {
    if base <= PAGE_SIZE then 1 else (base - 8 + 4087) / 4088
  }

  function RequestSize(base: nat): int {
    base + INDEX_SIZE * (PagesFor(base) - 1)
  }

  /** The page count is the least one that fits, and the request it gives needs exactly that many. */
  lemma PagesForIsLeast(base: nat, pages: nat)
    requires base > 0
    ensures 1 <= PagesFor(base) && (base > 8 ==> PagesFor(base) == (base - 8 + 4087) / 4088)
    ensures pages >= 1 ==> (Fits(base, pages) <==> PagesFor(base) <= pages)
    ensures PageSpan(0, RequestSize(base)) == PagesFor(base)
  {
  }

  lemma BufferSizeBound(b: Buffer)
    ensures BufferSize(b) <= 8388632 && BufferSize(b) % 8 == 0
  {
  }

  lemma {:induction false} BufferSizesBound(bufs: seq<Buffer>)
    ensures BufferSizes(bufs) <= 8388632 * |bufs| && BufferSizes(bufs) % 8 == 0
  {
    hide BufferSize;
    if bufs != [] {
      BufferSizesBound(bufs[..|bufs| - 1]);
      BufferSizeBound(bufs[|bufs| - 1]);
    }
  }

  /** The size check lets the request through. */
  predicate Accepted(inlineByteCount: U16, bufs: seq<Buffer>) {
    0 < Int32(BaseSize(inlineByteCount, bufs)) <= REQUEST_INTERNAL_LIMIT
  }

  ghost predicate GuardExact(count: nat) {
    forall inlineByteCount: U16, bufs: seq<Buffer> :: |bufs| == count ==>
      (Accepted(inlineByteCount, bufs) <==> BaseSize(inlineByteCount, bufs) <= REQUEST_INTERNAL_LIMIT)
  }

  function Repeat(b: Buffer, count: nat): seq<Buffer> {
    seq(count, _ => b)
  }

  lemma {:induction false} RepeatSize(b: Buffer, size: nat, count: nat)
    requires size == BufferSize(b)
    ensures BufferSizes(Repeat(b, count)) == count * size
  {
    if count > 0 {
      RepeatSize(b, size, count - 1);
      assert Repeat(b, count)[..count - 1] == Repeat(b, count - 1);
      assert count * size == (count - 1) * size + size;
    }
  }

  lemma {:induction false} BufferSizesAppend(a: seq<Buffer>, b: seq<Buffer>)
    ensures BufferSizes(a + b) == BufferSizes(a) + BufferSizes(b)
  {
    if b == [] {
      assert a + b == a;
    } else {
      BufferSizesAppend(a, b[..|b| - 1]);
      assert (a + b)[..|a + b| - 1] == a + b[..|b| - 1];
    }
  }

  lemma GuardExactUpTo511(inlineByteCount: U16, bufs: seq<Buffer>)
    requires |bufs| <= 511
    ensures Accepted(inlineByteCount, bufs) <==> BaseSize(inlineByteCount, bufs) <= REQUEST_INTERNAL_LIMIT
    ensures Accepted(inlineByteCount, bufs) ==>
              Int32(BaseSize(inlineByteCount, bufs)) == BaseSize(inlineByteCount, bufs)
  {
    BufferSizesBound(bufs);
    var size := BaseSize(inlineByteCount, bufs);
    assert 24 <= size < 0x1_0000_0000;
    assert size % 0x1_0000_0000 == size;
  }

  lemma WrappedAccepted(count: nat) returns (bufs: seq<Buffer>)
    requires 512 <= count < 0x1_0000
    ensures |bufs| == count && Accepted(0, bufs) && BaseSize(0, bufs) > REQUEST_INTERNAL_LIMIT
  {
    var largest, empty := Buffer(4095, 0xffff_ffff, false, false), Buffer(0, 0, false, false);
    bufs := Repeat(largest, 512) + Repeat(empty, count - 512);
    BufferSizesAppend(Repeat(largest, 512), Repeat(empty, count - 512));
    RepeatSize(largest, 8388632, 512);
    RepeatSize(empty, 16, count - 512);
    var excess := 12312 + 16 * (count - 512);
    assert BaseSize(0, bufs) == 0x1_0000_0000 + excess;
    assert (0x1_0000_0000 + excess) % 0x1_0000_0000 == excess;
  }

  /** The 32-bit sum cannot hide an oversized request exactly up to 511 buffers. */
  lemma GuardExactIff(count: nat)
    requires count < 0x1_0000
    ensures GuardExact(count) <==> count <= 511
  {
    if count <= 511 {
      forall inlineByteCount: U16, bufs: seq<Buffer> | |bufs| == count
        ensures Accepted(inlineByteCount, bufs) <==> BaseSize(inlineByteCount, bufs) <= REQUEST_INTERNAL_LIMIT
      {
        GuardExactUpTo511(inlineByteCount, bufs);
      }
    } else {
      var bufs := WrappedAccepted(count);
    }
  }

  lemma Int32Sum(a: int, b: int)
    ensures Int32(Int32(a) + b) == Int32(a + b)
  {
  }

  /** `dsize` is the C variable of that name; a negative result makes the caller fail. */
  method PagedSize(inlineByteCount: U16, bufs: seq<Buffer>) returns (dsize: int)
    ensures dsize >= 0 <==> Accepted(inlineByteCount, bufs)
    ensures dsize >= 0 ==> dsize == RequestSize(Int32(BaseSize(inlineByteCount, bufs)))
    ensures dsize >= 0 && (BaseSize(inlineByteCount, bufs) < 0x8000_0000 || |bufs| <= 511) ==>
              dsize == RequestSize(BaseSize(inlineByteCount, bufs))
  {
    dsize := Int32(REQUEST_HEADER_SIZE + InlineSize(inlineByteCount));
    var nbuf := 0;
    while nbuf < |bufs|
      invariant 0 <= nbuf <= |bufs|
      invariant dsize == Int32(BaseSize(inlineByteCount, bufs[..nbuf]))
    {
      ghost var before := BaseSize(inlineByteCount, bufs[..nbuf]);
      assert bufs[..nbuf + 1][..nbuf] == bufs[..nbuf];
      dsize := Int32(dsize + DESCRIPTOR_SIZE);
      Int32Sum(before, DESCRIPTOR_SIZE);
      if bufs[nbuf].byteCount != 0 {
        var npages := PageSpan(bufs[nbuf].va, bufs[nbuf].byteCount);
        dsize := Int32(dsize + npages * INDEX_SIZE);
        Int32Sum(before + DESCRIPTOR_SIZE, npages * INDEX_SIZE);
      }
      nbuf := nbuf + 1;
    }
    assert bufs[..nbuf] == bufs;
    if dsize < 0 || dsize > REQUEST_INTERNAL_LIMIT {
      return -1;
    }
    dsize := AddPageIndices(dsize);
    if |bufs| <= 511 {
      GuardExactUpTo511(inlineByteCount, bufs);
    }
  }

  /** The sizing loop: the result has the indices of the pages it needs, and no smaller number
      of pages holds the request.  A sum that wrapped to zero leaves it with a negative size. */
  method AddPageIndices(base: nat) returns (dsize: int)
    ensures base == 0 ==> dsize < 0
    ensures base > 0 ==> dsize == RequestSize(base)
    ensures base > 0 ==> dsize >= 0 && dsize == base + INDEX_SIZE * (PageSpan(0, dsize) - 1)
    ensures base > 0 ==> forall pages: nat :: 1 <= pages ==> (Fits(base, pages) <==> PageSpan(0, dsize) <= pages)
  {
    dsize := base;
    var dpages := 1;
    var delta := (dsize - 1) / PAGE_SIZE;
    while delta != 0
      invariant dsize == base + INDEX_SIZE * (dpages - 1)
      invariant delta == 1 + (dsize - 1) / PAGE_SIZE - dpages
      invariant base > 0 ==> 1 <= dpages <= PagesFor(base) && delta >= 0
      invariant base == 0 ==> (dpages == 1 && delta == -1) || (dpages == 0 && delta == 0)
      decreases if base == 0 then dpages else PagesFor(base) - dpages
    {
      dpages := dpages + delta;
      dsize := dsize + delta * INDEX_SIZE;
      delta := 1 + (dsize - 1) / PAGE_SIZE - dpages;
    }
    if base > 0 {
      forall pages: nat { PagesForIsLeast(base, pages); }
    }
  }
}
