/**
  * Graphics buffers: small ones in system memory, large ones in system memory mapped through the
  * aperture or in a slot of video memory. The books (ranges of the aperture, free slots, bytes of
  * system memory) must agree with the buffers that are alive.
  */
module GemObjects {
  import opened MachineTypes
  import A = Aperture

  const SLOTS := 128
  const SLOT_SIZE := 16 * 1024 * 1024
  const CURSOR_MAX := 64 * 1024

  // What a driver object records. A zero field means the object has no such part.
  datatype Object = Object(size: U64, kptr: nat, apertureAddr: U64, sharedIndex: nat) {
    predicate InAperture() {
      kptr != 0 && apertureAddr != 0
    }

    function SystemSize(): nat {
      if kptr != 0 then size else 0
    }
  }

  // An object has either system memory, perhaps mapped in the aperture, or a slot.
  ghost predicate ObjectOk(o: Object) {
    && o.size > 0
    && (o.kptr != 0 <==> o.sharedIndex == 0)
    && (o.kptr == 0 ==> o.apertureAddr == 0)
    && (o.sharedIndex != 0 ==> o.size <= SLOT_SIZE)
  }

  ghost predicate ObjectsOk(live: seq<Object>) {
    forall o | o in live :: ObjectOk(o)
  }

  // Where in video memory the host and the CPU find an object that has a slot.
  function Offset(o: Object): nat
    requires o.sharedIndex > 0
  {
    (o.sharedIndex - 1) * SLOT_SIZE
  }

  ghost function SystemBytes(live: seq<Object>): nat {
    if live == [] then 0 else live[0].SystemSize() + SystemBytes(live[1..])
  }

  ghost predicate InSlot(live: seq<Object>, k: nat) {
    exists i :: 0 <= i < |live| && live[i].sharedIndex == k + 1
  }

  // A slot is free exactly when it exists and no live object has it; no two objects share one.
  ghost predicate SlotsOk(live: seq<Object>, avail: seq<bool>, n: nat) {
    && |avail| == SLOTS && n <= SLOTS
    && (forall k | 0 <= k < SLOTS :: avail[k] <==> k < n && !InSlot(live, k))
    && (forall i | 0 <= i < |live| :: live[i].sharedIndex <= n)
    && (forall i, j | 0 <= i < j < |live| && live[i].sharedIndex != 0 :: live[i].sharedIndex != live[j].sharedIndex)
  }

  ghost predicate HasRange(live: seq<Object>, e: A.Entry) {
    exists i :: 0 <= i < |live| && live[i].InAperture() && e == A.Entry(live[i].apertureAddr, live[i].size)
  }

  // The ranges handed out are exactly those of the live objects in the aperture, one for each.
  ghost predicate RangesOk(live: seq<Object>, entries: seq<A.Entry>) {
    && (forall e :: e in entries <==> HasRange(live, e))
    && (forall i, j | 0 <= i < j < |live| && live[i].InAperture() && live[j].InAperture() ::
          live[i].apertureAddr != live[j].apertureAddr)
  }

  /** The bytes of an object that has a slot lie inside video memory, and apart from those of any
    * other. */
  lemma SharedApart(live: seq<Object>, avail: seq<bool>, n: nat, memSize: nat, i: nat, j: nat)
    requires ObjectsOk(live) && SlotsOk(live, avail, n) && n * SLOT_SIZE <= memSize
    requires i < |live| && j < |live| && i != j && live[i].sharedIndex != 0 && live[j].sharedIndex != 0
    ensures var a, b := live[i], live[j];
            && Offset(a) + a.size <= memSize
            && (Offset(a) + a.size <= Offset(b) || Offset(b) + b.size <= Offset(a))
  {
    var a, b := live[i], live[j];
    assert a in live && b in live;
    assert live[if i < j then i else j].sharedIndex != live[if i < j then j else i].sharedIndex;
    assert a.sharedIndex * SLOT_SIZE <= n * SLOT_SIZE;
  }

  function Removed(live: seq<Object>, i: nat): seq<Object>
    requires i < |live|
  {
    live[..i] + live[i + 1..]
  }

  lemma {:induction false} BytesAppend(live: seq<Object>, o: Object)
    ensures SystemBytes(live + [o]) == SystemBytes(live) + o.SystemSize()
  {
    if live == [] {
      assert [o][1..] == [];
    } else {
      BytesAppend(live[1..], o);
      assert (live + [o])[1..] == live[1..] + [o];
    }
  }

  lemma {:induction false} BytesRemove(live: seq<Object>, i: nat)
    requires i < |live|
    ensures SystemBytes(live) == SystemBytes(Removed(live, i)) + live[i].SystemSize()
  {
    if i == 0 {
      assert Removed(live, 0) == live[1..];
    } else {
      BytesRemove(live[1..], i - 1);
      assert Removed(live, i)[1..] == Removed(live[1..], i - 1);
    }
  }

  /** Taking a free slot for a new object. */
  lemma SlotTaken(live: seq<Object>, avail: seq<bool>, n: nat, o: Object)
    requires SlotsOk(live, avail, n) && 0 < o.sharedIndex <= SLOTS && avail[o.sharedIndex - 1]
    ensures SlotsOk(live + [o], avail[o.sharedIndex - 1 := false], n)
  {
    var longer := live + [o];
    forall k | 0 <= k < SLOTS ensures InSlot(longer, k) <==> InSlot(live, k) || k == o.sharedIndex - 1 {
      if i :| 0 <= i < |live| && live[i].sharedIndex == k + 1 {
        assert longer[i].sharedIndex == k + 1;
      } else if k == o.sharedIndex - 1 {
        assert longer[|live|].sharedIndex == k + 1;
      }
    }
    assert !InSlot(live, o.sharedIndex - 1);
  }

  /** A new object without a slot. */
  lemma SlotsUntouched(live: seq<Object>, avail: seq<bool>, n: nat, o: Object)
    requires SlotsOk(live, avail, n) && o.sharedIndex == 0
    ensures SlotsOk(live + [o], avail, n)
  {
    var longer := live + [o];
    forall k | 0 <= k < SLOTS ensures InSlot(longer, k) <==> InSlot(live, k) {
      if i :| 0 <= i < |live| && live[i].sharedIndex == k + 1 {
        assert longer[i].sharedIndex == k + 1;
      }
    }
  }

  /** Giving back the slot of an object, if it has one. */
  lemma SlotGivenBack(live: seq<Object>, avail: seq<bool>, n: nat, i: nat)
    requires SlotsOk(live, avail, n) && i < |live|
    ensures var s := live[i].sharedIndex;
            s <= SLOTS && SlotsOk(Removed(live, i), if s == 0 then avail else avail[s - 1 := true], n)
  {
    var shorter := Removed(live, i);
    forall k | 0 <= k < SLOTS
      ensures InSlot(shorter, k) <==> InSlot(live, k) && live[i].sharedIndex != k + 1
    {
      if j :| 0 <= j < |shorter| && shorter[j].sharedIndex == k + 1 {
        assert live[if j < i then j else j + 1] == shorter[j];
      }
      if j :| 0 <= j < |live| && live[j].sharedIndex == k + 1 && j != i {
        assert shorter[if j < i then j else j - 1] == live[j];
      }
    }
    forall j | 0 <= j < |shorter| ensures shorter[j] == live[if j < i then j else j + 1] {
    }
  }

  /** A new object outside the aperture. */
  lemma RangesUntouched(live: seq<Object>, entries: seq<A.Entry>, o: Object)
    requires RangesOk(live, entries) && !o.InAperture()
    ensures RangesOk(live + [o], entries)
  {
    var longer := live + [o];
    forall e ensures HasRange(longer, e) <==> HasRange(live, e) {
      if i :| 0 <= i < |live| && live[i].InAperture() && e == A.Entry(live[i].apertureAddr, live[i].size) {
        assert longer[i] == live[i];
      }
    }
  }

  /** A new object with a range just handed out. */
  lemma RangeAdded(live: seq<Object>, entries: seq<A.Entry>, o: Object, place: nat)
    requires RangesOk(live, entries) && o.InAperture() && place <= |entries|
    requires A.Ordered(entries) && o.apertureAddr == A.GapStart(entries, place)
    requires var longer := A.Inserted(entries, place, A.Entry(o.apertureAddr, o.size)); A.Ordered(longer)
    ensures RangesOk(live + [o], A.Inserted(entries, place, A.Entry(o.apertureAddr, o.size)))
  {
    hide A.Ordered, A.GapStart, A.Without;
    var longer, added := live + [o], A.Entry(o.apertureAddr, o.size);
    var now := A.Inserted(entries, place, added);
    A.FreeUndoesAlloc(entries, place, added);
    A.FreeKeepsOrder(now, o.apertureAddr);
    assert now[place] == added;
    forall e ensures e in now <==> HasRange(longer, e) {
      assert e in now <==> e in entries || e == added;
      if i :| 0 <= i < |live| && live[i].InAperture() && e == A.Entry(live[i].apertureAddr, live[i].size) {
        assert longer[i] == live[i];
        assert HasRange(live, e);
      }
      if e == added {
        assert longer[|live|] == o;
      }
    }
    forall i | 0 <= i < |live| && live[i].InAperture() ensures live[i].apertureAddr != o.apertureAddr {
      assert HasRange(live, A.Entry(live[i].apertureAddr, live[i].size));
    }
  }

  lemma RangeLost(live: seq<Object>, entries: seq<A.Entry>, i: nat, e: A.Entry)
    requires RangesOk(live, entries) && i < |live|
    ensures HasRange(Removed(live, i), e) <==>
              HasRange(live, e) && !(live[i].InAperture() && e.base == live[i].apertureAddr)
  {
    var shorter := Removed(live, i);
    if j :| 0 <= j < |shorter| && shorter[j].InAperture() && e == A.Entry(shorter[j].apertureAddr, shorter[j].size) {
      assert live[if j < i then j else j + 1] == shorter[j];
    }
    if j :| 0 <= j < |live| && live[j].InAperture() && e == A.Entry(live[j].apertureAddr, live[j].size) {
      assert j != i ==> shorter[if j < i then j else j - 1] == live[j];
    }
  }

  /** Giving back the range of an object, if it has one. */
  lemma RangeGivenBack(live: seq<Object>, entries: seq<A.Entry>, i: nat)
    requires RangesOk(live, entries) && A.Ordered(entries) && i < |live|
    ensures RangesOk(Removed(live, i),
                     if live[i].InAperture() then A.Without(entries, live[i].apertureAddr) else entries)
  {
    hide A.Ordered, A.Without, HasRange;
    var shorter, gone := Removed(live, i), live[i];
    A.FreeKeepsOrder(entries, gone.apertureAddr);
    var now := if gone.InAperture() then A.Without(entries, gone.apertureAddr) else entries;
    forall e ensures e in now <==> HasRange(shorter, e) {
      assert e in entries <==> HasRange(live, e);
      RangeLost(live, entries, i, e);
    }
    forall j | 0 <= j < |shorter| ensures shorter[j] == live[if j < i then j else j + 1] {
    }
  }

  // The size of a buffer as the driver computes it, in 32-bit arithmetic up to the last rounding.
  function RoundUp64(x: nat): (r: nat)
    ensures r % 64 == 0 && x <= r < x + 64
  {
    (x + 63) / 64 * 64
  }

  function Wrap32(x: nat): U32 {
    x % 0x1_0000_0000
  }

  function Pitch(width: U32, bpp: U32): U32 {
    Wrap32(Wrap32(RoundUp64(width)) * (bpp / 8))
  }

  function BufferSize(width: U32, height: U32, bpp: U32): U64 {
    A.RoundUp(Wrap32(Pitch(width, bpp) * Wrap32(RoundUp64(height))))
  }

  lemma WrapsMultiply(x: nat, y: nat)
    ensures Wrap32(Wrap32(x) * y) == Wrap32(x * y)
  {
    var q := x / 0x1_0000_0000;
    assert x == Wrap32(x) + q * 0x1_0000_0000;
    assert x * y == Wrap32(x) * y + q * y * 0x1_0000_0000;
    WrapsTurns(Wrap32(x) * y, q * y);
  }

  lemma WrapsTurns(x: nat, turns: nat)
    ensures Wrap32(x + turns * 0x1_0000_0000) == Wrap32(x)
  {
  }

  /** A row of the rounded picture fits the pitch, which is then its length, exactly when it has less
    * than 2^32 bytes. */
  lemma PitchCoversIff(width: U32, bpp: U32)
    ensures var bytes := RoundUp64(width) * (bpp / 8);
            (Pitch(width, bpp) >= bytes <==> bytes < 0x1_0000_0000) && Pitch(width, bpp) <= bytes
  {
    hide RoundUp64;
    WrapsMultiply(RoundUp64(width), bpp / 8);
  }

  /** The size is that of the rounded picture, up to a page, exactly when that has less than 2^32
    * bytes. */
  lemma SizeCoversIff(width: U32, height: U32, bpp: U32)
    ensures var bytes, size := RoundUp64(width) * (bpp / 8) * RoundUp64(height), BufferSize(width, height, bpp);
            && size % PAGE_SIZE == 0
            && (size >= bytes <==> bytes < 0x1_0000_0000)
            && size < bytes + PAGE_SIZE
  {
    hide RoundUp64, Pitch, BufferSize, Wrap32, A.RoundUp;
    var w, b, h := RoundUp64(width), bpp / 8, RoundUp64(height);
    SizeFromProduct(width, height, bpp);
    SizeOfProduct(w * b * h);
  }

  /** A picture of 0x1_0000_4000 bytes is given 16384. */
  lemma TallPictureTruncated()
    ensures RoundUp64(1) * (32 / 8) * RoundUp64(0x100_0040) == 0x1_0000_4000
    ensures BufferSize(1, 0x100_0040, 32) == 16384
  {
    assert Wrap32(RoundUp64(1)) == 64 && Wrap32(RoundUp64(0x100_0040)) == 0x100_0040;
    assert Pitch(1, 32) == 256;
  }

  lemma SizeFromProduct(width: U32, height: U32, bpp: U32)
    ensures BufferSize(width, height, bpp) ==
            A.RoundUp(Wrap32(RoundUp64(width) * (bpp / 8) * RoundUp64(height)))
  {
    var w, b, h := RoundUp64(width), bpp / 8, RoundUp64(height);
    WrapsMultiply(w, b);
    WrapsMultiply(w * b, Wrap32(h));
    WrapsMultiply(h, w * b);
    assert Wrap32(h) * (w * b) == w * b * Wrap32(h) && h * (w * b) == w * b * h;
  }

  lemma SizeOfProduct(bytes: nat)
    ensures A.RoundUp(Wrap32(bytes)) >= bytes <==> bytes < 0x1_0000_0000
    ensures A.RoundUp(Wrap32(bytes)) % PAGE_SIZE == 0 && A.RoundUp(Wrap32(bytes)) < bytes + PAGE_SIZE
  {
  }

  // Nothing stands for the null object the driver returns when it runs out of slots or the buffer
  // is too large for one.
  datatype Created = Created(made: Object) | Failed(errno: nat) | Nothing

  class Device {
    const apertureOnly: bool
    const memSize: nat
    const slots: nat
    const aperture: A.Allocator
    var avail: seq<bool>       // prl_shared_buf_avail_mask
    var allocSize: nat
    ghost var live: seq<Object>

    ghost predicate Valid()
      reads this, aperture
    {
      && ObjectsOk(live)
      && aperture.Valid()
      && RangesOk(live, aperture.entries)
      && |avail| == SLOTS
      && SlotsOk(live, avail, slots)
      && slots * SLOT_SIZE <= memSize
      && allocSize == SystemBytes(live)
    }

    /** At load every whole slot that video memory holds is free. */
    constructor (memSize: nat, apertureOnly: bool)
      ensures Valid() && live == [] && fresh(aperture)
      ensures this.apertureOnly == apertureOnly && this.memSize == memSize
      ensures slots <= SLOTS && slots * SLOT_SIZE <= memSize
      ensures slots < SLOTS ==> memSize < (slots + 1) * SLOT_SIZE
    {
      var n := if memSize / SLOT_SIZE < SLOTS then memSize / SLOT_SIZE else SLOTS;
      var mask := seq(SLOTS, _ => false);
      for i := 0 to n
        invariant |mask| == SLOTS
        invariant forall k | 0 <= k < SLOTS :: mask[k] <==> k < i
      {
        mask := mask[i := true];
      }
      this.apertureOnly, this.memSize, slots := apertureOnly, memSize, n;
      avail, allocSize, live := mask, 0, [];
      aperture := new A.Allocator();
    }

    // Adds an object in system memory outside the aperture.
    method AddSmall(size: U64, kptr: nat) returns (o: Object)
      requires Valid() && size > 0
      modifies this
      ensures live == old(live) + [o] && avail == old(avail)
      ensures o == Object(size, kptr, 0, 0)
      ensures Valid() <==> kptr != 0
    {
      hide RangesOk, SlotsOk, SystemBytes, A.Ordered;
      o := Object(size, kptr, 0, 0);
      allocSize := allocSize + size;
      RangesUntouched(live, aperture.entries, o);
      SlotsUntouched(live, avail, slots, o);
      BytesAppend(live, o);
      live := live + [o];
      assert o in live;
    }

    /** Adds an object in the lowest free slot, if there is one. */
    method AddShared(size: U64) returns (r: Created)
      requires Valid() && 0 < size <= SLOT_SIZE
      modifies this
      ensures Valid() && allocSize == old(allocSize)
      ensures r.Created? ==>
        && live == old(live) + [r.made] && r.made == Object(size, 0, 0, r.made.sharedIndex)
        && 0 < r.made.sharedIndex <= slots && old(avail)[r.made.sharedIndex - 1]
        && !InSlot(old(live), r.made.sharedIndex - 1)
        && forall k | 0 <= k < r.made.sharedIndex - 1 :: !old(avail)[k]
      ensures !r.Created? ==> r.Nothing? && live == old(live) && avail == old(avail)
      ensures !r.Created? ==> forall k | 0 <= k < slots :: InSlot(live, k)
    {
      hide RangesOk, SystemBytes, A.Ordered;
      for i := 0 to SLOTS
        invariant avail == old(avail) && live == old(live) && allocSize == old(allocSize)
        invariant forall k | 0 <= k < i :: !avail[k]
      {
        if avail[i] {
          var o := Object(size, 0, 0, i + 1);
          RangesUntouched(live, aperture.entries, o);
          SlotTaken(live, avail, slots, o);
          BytesAppend(live, o);
          avail := avail[i := false];
          live := live + [o];
          return Created(o);
        }
      }
      return Nothing;
    }

    /**
      * Adds an object in system memory mapped through the aperture. When there is no memory for the
      * range or the mapping fails, everything taken so far is given back.
      */
    method AddInAperture(size: U64, kptr: nat, entryMemory: bool, mapped: bool) returns (r: Created)
      requires Valid() && size > 0
      modifies this, aperture
      ensures avail == old(avail)
      ensures entryMemory && mapped <==> r.Created?
      ensures r.Created? ==>
        && live == old(live) + [r.made]
        && r.made == Object(size, kptr, r.made.apertureAddr, 0) && r.made.apertureAddr >= A.BASE
      ensures !r.Created? ==>
        && r == Failed(if entryMemory then EINVAL else ENOMEM)
        && live == old(live) && aperture.entries == old(aperture.entries)
      ensures Valid() <==> kptr != 0 && (r.Created? ==> A.HasRoom(old(aperture.entries), size))
    {
      hide RangesOk, SlotsOk, SystemBytes, A.Ordered, A.HasRoom, A.Place;
      allocSize := allocSize + size;
      var addr, place := aperture.Alloc(size, entryMemory);
      ghost var entry := A.Entry(addr, size);
      if addr == A.LIMIT - ENOMEM {
        allocSize := if kptr != 0 then allocSize - size else allocSize;
        return Failed(ENOMEM);
      }
      if !mapped {
        A.FreeUndoesAlloc(old(aperture.entries), place, entry);
        aperture.Free(addr);
        allocSize := if kptr != 0 then allocSize - size else allocSize;
        return Failed(EINVAL);
      }
      A.StartOk(old(aperture.entries), place);
      var o := Object(size, kptr, addr, 0);
      if kptr != 0 && A.HasRoom(old(aperture.entries), size) {
        RangeAdded(live, old(aperture.entries), o, place);
      }
      SlotsUntouched(live, avail, slots, o);
      BytesAppend(live, o);
      live := live + [o];
      assert o in live;
      return Created(o);
    }

    /**
      * prl_drm_gem_dumb_create_helper. A create that fails leaves the books as they were, and one
      * that succeeds enters exactly the new object, exactly when the allocators never answer null
      * and the aperture has room in 64 bits.
      */
    method Create(width: U32, height: U32, bpp: U32, objectMemory: bool, initError: nat,
                  kptr: nat, entryMemory: bool, mapped: bool)
      returns (r: Created, pitch: U32, size: U64)
      requires Valid()
      modifies this, aperture
      ensures pitch == Pitch(width, bpp) && size == BufferSize(width, height, bpp)
      ensures Valid() <==>
        && (kptr != 0 || !(size > 0 && objectMemory && initError == 0 && (size <= CURSOR_MAX || apertureOnly)))
        && (r.Created? && apertureOnly && size > CURSOR_MAX ==> A.HasRoom(old(aperture.entries), size))
      ensures size == 0 ==> r == Failed(EINVAL)
      ensures size > 0 && !objectMemory ==> r == Failed(ENOMEM)
      ensures size > 0 && objectMemory && initError != 0 ==> r == Failed(initError)
      ensures size > 0 && objectMemory && initError == 0 ==>
        && (r.Created? <== size <= CURSOR_MAX || (apertureOnly && entryMemory && mapped))
        && (r.Failed? <==> size > CURSOR_MAX && apertureOnly && !(entryMemory && mapped))
      ensures size > CURSOR_MAX && objectMemory && initError == 0 && !apertureOnly ==>
        (r.Nothing? <==> size > SLOT_SIZE || forall k | 0 <= k < slots :: InSlot(old(live), k))
      ensures r.Created? ==>
        && live == old(live) + [r.made] && r.made.size == size
        && r.made.kptr == (if r.made.sharedIndex == 0 then kptr else 0)
        && (r.made.sharedIndex != 0 <==> size > CURSOR_MAX && !apertureOnly)
        && (r.made.apertureAddr != 0 <==> size > CURSOR_MAX && apertureOnly)
      ensures !r.Created? ==> live == old(live) && avail == old(avail) && aperture.entries == old(aperture.entries)
    {
      hide RangesOk, SlotsOk, SystemBytes, A.Ordered, A.HasRoom, RoundUp64, Wrap32, A.RoundUp, ObjectsOk;
      var w, h := Wrap32(RoundUp64(width)), Wrap32(RoundUp64(height));
      pitch := Wrap32(w * (bpp / 8));
      size := A.RoundUp(Wrap32(pitch * h));
      if size == 0 {
        return Failed(EINVAL), pitch, size;
      }
      if !objectMemory {
        return Failed(ENOMEM), pitch, size;
      }
      if initError != 0 {
        return Failed(initError), pitch, size;
      }
      if size <= CURSOR_MAX {
        var o := AddSmall(size, kptr);
        r := Created(o);
      } else if apertureOnly {
        r := AddInAperture(size, kptr, entryMemory, mapped);
      } else if size <= SLOT_SIZE {
        r := AddShared(size);
      } else {
        r := Nothing;
      }
    }

    /** Frees a live object, and gives back exactly what it holds. */
    method Free(o: Object, ghost i: nat)
      requires Valid() && i < |live| && live[i] == o
      modifies this, aperture
      ensures Valid() && live == Removed(old(live), i)
    {
      hide RangesOk, SlotsOk, SystemBytes, A.Ordered;
      assert o in live;
      RangeGivenBack(live, aperture.entries, i);
      SlotGivenBack(live, avail, slots, i);
      BytesRemove(live, i);
      if o.kptr != 0 {
        if o.apertureAddr != 0 {
          aperture.Free(o.apertureAddr);
        }
        allocSize := allocSize - o.size;
      } else if o.sharedIndex != 0 {
        avail := avail[o.sharedIndex - 1 := true];
      }
      live := Removed(live, i);
    }
  }
}
