/**
  * The aperture allocator: address ranges handed out from a sorted list, best fit first. Ranges
  * start on a page, and nothing else may use the rest of a range's last page.
  */
module Aperture {
  import opened MachineTypes

  const LIMIT := 0x1_0000_0000_0000_0000
  const BASE := 0x8000_0000

  datatype Entry = Entry(base: U64, size: U64) {
    function End(): (end: nat)
      ensures end % PAGE_SIZE == 0 && base + size <= end < base + size + PAGE_SIZE
    {
      RoundUp(base + size)
    }
  }

  function RoundUp(x: nat): (r: nat)
    ensures r % PAGE_SIZE == 0 && x <= r < x + PAGE_SIZE
  {
    (x + PAGE_SIZE - 1) / PAGE_SIZE * PAGE_SIZE
  }

  ghost predicate EntryOk(e: Entry) {
    BASE <= e.base && e.base % PAGE_SIZE == 0 && e.size > 0 && e.End() < LIMIT
  }

  // Sorted, on pages, apart from each other once rounded up, and within 64 bits.
  ghost predicate Ordered(entries: seq<Entry>) {
    && (forall i | 0 <= i < |entries| :: EntryOk(entries[i]))
    && (forall i, j | 0 <= i < j < |entries| :: entries[i].End() <= entries[j].base)
  }

  // Where the free space before the i-th entry, or behind the last one, begins.
  function GapStart(entries: seq<Entry>, i: nat): nat
    requires i <= |entries|
  {
    if i == 0 then BASE else entries[i - 1].End()
  }

  function GapSize(entries: seq<Entry>, i: nat): int
    requires i < |entries|
  {
    entries[i].base - GapStart(entries, i)
  }

  ghost predicate GapFits(entries: seq<Entry>, size: nat, i: nat)
    requires i < |entries|
  {
    size <= GapSize(entries, i)
  }

  ghost predicate NoGapFits(entries: seq<Entry>, size: nat, n: nat)
    requires n <= |entries|
  {
    forall i | 0 <= i < n :: !GapFits(entries, size, i)
  }

  // Among the first n gaps, the i-th is the first of the smallest that fit.
  ghost predicate BestGap(entries: seq<Entry>, size: nat, n: nat, i: nat)
    requires n <= |entries|
  {
    && i < n && GapFits(entries, size, i)
    && forall j | 0 <= j < n && GapFits(entries, size, j) ::
         if j < i then GapSize(entries, i) < GapSize(entries, j)
         else GapSize(entries, i) <= GapSize(entries, j)
  }

  // Where a range of this size goes: the end is used only when no gap fits.
  ghost predicate Place(entries: seq<Entry>, size: nat, i: nat) {
    if i == |entries| then NoGapFits(entries, size, |entries|)
    else BestGap(entries, size, |entries|, i)
  }

  function Inserted(entries: seq<Entry>, i: nat, e: Entry): seq<Entry>
    requires i <= |entries|
  {
    entries[..i] + [e] + entries[i..]
  }

  // The list without the first range at this base.
  function Without(entries: seq<Entry>, base: U64): seq<Entry> {
    if entries == [] then []
    else if entries[0].base == base then entries[1..]
    else [entries[0]] + Without(entries[1..], base)
  }

  // A range of this size can be handed out without leaving 64 bits.
  ghost predicate HasRoom(entries: seq<Entry>, size: U64) {
    || !NoGapFits(entries, size, |entries|)
    || RoundUp(GapStart(entries, |entries|) + size) < LIMIT
  }

  lemma InsertedAt(entries: seq<Entry>, i: nat, e: Entry, k: nat)
    requires i <= |entries| && k <= |entries|
    ensures |Inserted(entries, i, e)| == |entries| + 1
    ensures Inserted(entries, i, e)[k] == if k < i then entries[k] else if k == i then e else entries[k - 1]
  {
  }

  lemma InsertInto(entries: seq<Entry>, i: nat, e: Entry)
    requires Ordered(entries) && i <= |entries| && EntryOk(e)
    requires i > 0 ==> entries[i - 1].End() <= e.base
    requires i < |entries| ==> e.End() <= entries[i].base
    ensures Ordered(Inserted(entries, i, e))
  {
    hide EntryOk, Entry.End, RoundUp, Inserted;
    var longer := Inserted(entries, i, e);
    InsertedAt(entries, i, e, 0);
    forall k | 0 <= k < |longer| ensures EntryOk(longer[k]) {
      InsertedAt(entries, i, e, k);
    }
    forall j, k | 0 <= j < k < |longer| ensures longer[j].End() <= longer[k].base {
      InsertedAt(entries, i, e, j);
      InsertedAt(entries, i, e, k);
      if k == i && j < i - 1 {
        EndsGrow(entries, j, i - 1);
      } else if j == i && k > i + 1 {
        EndsGrow(entries, i, k - 1);
      }
    }
  }

  lemma EndsGrow(entries: seq<Entry>, i: nat, j: nat)
    requires Ordered(entries) && i < j < |entries|
    ensures entries[i].base < entries[i].End() <= entries[j].base < entries[j].End()
  {
  }

  /** A range put in its place keeps the list ordered exactly when it is not empty and there was room. */
  lemma InsertKeepsOrder(entries: seq<Entry>, i: nat, e: Entry)
    requires Ordered(entries) && i <= |entries|
    requires Place(entries, e.size, i) && e.base == GapStart(entries, i)
    ensures Ordered(Inserted(entries, i, e)) <==> e.size > 0 && HasRoom(entries, e.size)
  {
    hide Entry.End, RoundUp;
    assert Inserted(entries, i, e)[i] == e;
    StartOk(entries, i);
    EndIsRounded(e);
    if i < |entries| {
      assert GapFits(entries, e.size, i) && EntryOk(entries[i]);
      FitsRounded(e, entries[i].base);
    }
    if e.size > 0 && HasRoom(entries, e.size) {
      InsertInto(entries, i, e);
    } else {
      assert !EntryOk(Inserted(entries, i, e)[i]);
    }
  }

  lemma EndIsRounded(e: Entry)
    ensures e.End() == RoundUp(e.base + e.size)
  {
  }

  lemma StartOk(entries: seq<Entry>, i: nat)
    requires Ordered(entries) && i <= |entries|
    ensures BASE <= GapStart(entries, i) < LIMIT && GapStart(entries, i) % PAGE_SIZE == 0
  {
  }

  // Whole pages that end before a page start there once rounded up as well.
  lemma FitsRounded(e: Entry, next: U64)
    requires e.base + e.size <= next && next % PAGE_SIZE == 0
    ensures e.End() <= next
  {
  }

  /** Two live ranges share no page. */
  lemma LiveRangesApart(entries: seq<Entry>, i: nat, j: nat, a: nat, b: nat)
    requires Ordered(entries) && i < |entries| && j < |entries| && i != j
    requires entries[i].base <= a < entries[i].base + entries[i].size
    requires entries[j].base <= b < entries[j].base + entries[j].size
    ensures a / PAGE_SIZE != b / PAGE_SIZE
  {
  }

  lemma {:induction false} WithoutAt(entries: seq<Entry>, base: U64, i: nat)
    requires i < |entries| && entries[i].base == base
    requires forall j | 0 <= j < i :: entries[j].base != base
    ensures Without(entries, base) == entries[..i] + entries[i + 1..]
  {
    if i > 0 {
      WithoutAt(entries[1..], base, i - 1);
      assert entries[..i] == [entries[0]] + entries[1..][..i - 1];
    }
  }

  lemma {:induction false} WithoutAbsent(entries: seq<Entry>, base: U64)
    requires forall j | 0 <= j < |entries| :: entries[j].base != base
    ensures Without(entries, base) == entries
  {
    if entries != [] {
      WithoutAbsent(entries[1..], base);
    }
  }

  /** Giving back a range just handed out restores the list. */
  lemma FreeUndoesAlloc(entries: seq<Entry>, i: nat, e: Entry)
    requires Ordered(entries) && i <= |entries| && e.base == GapStart(entries, i)
    ensures Without(Inserted(entries, i, e), e.base) == entries
  {
    var longer := Inserted(entries, i, e);
    forall j | 0 <= j < i ensures longer[j].base != e.base {
      assert EntryOk(entries[i - 1]);
      if j < i - 1 {
        EndsGrow(entries, j, i - 1);
      }
    }
    WithoutAt(longer, e.base, i);
    assert longer[..i] == entries[..i] && longer[i + 1..] == entries[i..];
  }

  lemma RemoveKeepsOrder(entries: seq<Entry>, i: nat)
    requires Ordered(entries) && i < |entries|
    ensures Ordered(entries[..i] + entries[i + 1..])
  {
  }

  /** Giving a range back keeps the list ordered, and only that range goes. */
  lemma FreeKeepsOrder(entries: seq<Entry>, base: U64)
    requires Ordered(entries)
    ensures Ordered(Without(entries, base))
    ensures forall e :: e in Without(entries, base) <==> e in entries && e.base != base
  {
    hide Ordered, Without;
    if i: nat :| i < |entries| && entries[i].base == base {
      forall j | 0 <= j < |entries| && j != i ensures entries[j].base != base {
        EndsGrow(entries, if j < i then j else i, if j < i then i else j);
      }
      WithoutAt(entries, base, i);
      RemoveKeepsOrder(entries, i);
      assert entries == entries[..i] + [entries[i]] + entries[i + 1..];
    } else {
      WithoutAbsent(entries, base);
    }
  }

  class Allocator {
    var entries: seq<Entry>

    ghost predicate Valid()
      reads this
    {
      Ordered(entries)
    }

    constructor ()
      ensures Valid() && entries == []
    {
      entries := [];
    }

    // The search for a place: the first of the smallest gaps that fit, or else the end.
    method FindPlace(size: U64) returns (base: U64, head: nat)
      requires Valid()
      ensures head <= |entries| && Place(entries, size, head) && base == GapStart(entries, head)
    {
      hide Entry.End, RoundUp;
      base, head := BASE, 0;
      var bestBase: U64, bestFree: U64, bestHead: nat := LIMIT - 1, LIMIT - 1, |entries|;
      while head < |entries|
        invariant head <= |entries| && base == GapStart(entries, head)
        invariant if bestHead == |entries| then
                    NoGapFits(entries, size, head) && bestBase == bestFree == LIMIT - 1
                  else
                    && BestGap(entries, size, head, bestHead)
                    && bestBase == GapStart(entries, bestHead) && bestFree == GapSize(entries, bestHead)
      {
        assert EntryOk(entries[head]);
        var free := entries[head].base - base;
        if size <= free && free < bestFree {
          bestBase, bestFree, bestHead := base, free, head;
        }
        base := entries[head].End();
        head := head + 1;
      }
      if bestBase < base {
        base, head := bestBase, bestHead;
      }
    }

    /**
      * Hands out the first of the smallest gaps that fit, or else the space behind the last range.
      * Without memory for the entry the answer is the error number as an unsigned address.
      */
    method Alloc(size: U64, memory: bool) returns (base: U64, ghost place: nat)
      requires Valid()
      modifies this
      ensures place <= |old(entries)|
      ensures !memory ==> base == LIMIT - ENOMEM && entries == old(entries)
      ensures memory ==>
        && Place(old(entries), size, place) && base == GapStart(old(entries), place)
        && entries == Inserted(old(entries), place, Entry(base, size))
      ensures Valid() <==> !memory || (size > 0 && HasRoom(old(entries), size))
    {
      hide Ordered, Place, HasRoom, GapStart;
      place := 0;
      if !memory {
        return LIMIT - ENOMEM, 0;
      }
      var head;
      base, head := FindPlace(size);
      place := head;
      InsertKeepsOrder(entries, head, Entry(base, size));
      entries := entries[..head] + [Entry(base, size)] + entries[head..];
    }

    /** Takes back the range at a base; an address never handed out changes nothing. */
    method Free(base: U64)
      modifies this
      ensures entries == Without(old(entries), base)
      ensures old(Valid()) ==> Valid()
    {
      if Valid() {
        FreeKeepsOrder(entries, base);
      }
      for i := 0 to |entries|
        invariant entries == old(entries)
        invariant forall j | 0 <= j < i :: entries[j].base != base
      {
        if entries[i].base == base {
          WithoutAt(entries, base, i);
          entries := entries[..i] + entries[i + 1..];
          return;
        }
      }
      WithoutAbsent(entries, base);
    }
  }
}
