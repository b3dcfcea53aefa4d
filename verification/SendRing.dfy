/**
  * The transmit ring: the guest appends packets at the tail, the host takes them at the head.
  *
  * Guest and host run at the same time. The guest reads both counters once, copies the packet and
  * then publishes the new tail; the host may take any number of packets in between.
  */
module SendRing {
  import opened MachineTypes
  import opened RingGeometry

  type Payload = d: seq<Byte> | 1 <= |d| <= ETH_FRAME_LEN witness [0]

  // The position of the i-th packet ever sent, without the counter's wrap.
  function At(log: seq<Payload>, i: nat): (n: nat)
    requires i <= |log|
    ensures n % 16 == 0
  {
    if i == 0 then 0 else At(log, i - 1) + FullSize(|log[i - 1]|)
  }

  lemma {:induction false} AtGrows(log: seq<Payload>, i: nat, j: nat)
    requires i < j <= |log|
    ensures At(log, i) + FullSize(|log[i]|) <= At(log, j)
    decreases j
  {
    if i < j - 1 {
      AtGrows(log, i, j - 1);
    }
  }

  lemma {:induction false} AtPrefix(log: seq<Payload>, more: seq<Payload>, i: nat)
    requires i <= |log|
    ensures At(log + more, i) == At(log, i)
  {
    if i > 0 {
      AtPrefix(log, more, i - 1);
    }
  }

  // The packet lies whole at this position: a length without flags, then its bytes.
  ghost predicate PacketAt(cells: seq<Byte>, position: nat, packet: Payload)
    requires |cells| == BUFFER_SIZE
  {
    var p := Physical(position);
    && Word(cells, p) == |packet|
    && cells[p + HEADER_SIZE..p + HEADER_SIZE + |packet|] == packet
  }

  ghost predicate Whole(cells: seq<Byte>, log: seq<Payload>, i: nat)
    requires |cells| == BUFFER_SIZE && i < |log|
  {
    PacketAt(cells, At(log, i), log[i])
  }

  // Every packet not yet taken lies whole at its position.
  ghost predicate Stored(cells: seq<Byte>, log: seq<Payload>, taken: nat)
    requires |cells| == BUFFER_SIZE
  {
    forall i | taken <= i < |log| :: Whole(cells, log, i)
  }

  // Only the bytes of a packet of this size at this position differ.
  ghost predicate SameOutside(was: seq<Byte>, now: seq<Byte>, position: nat, size: nat)
    requires |was| == |now| == BUFFER_SIZE
  {
    forall k | 0 <= k < BUFFER_SIZE && !(Physical(position) <= k < Physical(position) + size) ::
      now[k] == was[k]
  }

  lemma PacketElsewhere(
    was: seq<Byte>, now: seq<Byte>, position: nat, packet: Payload, at: nat, full: nat)
    requires |was| == |now| == BUFFER_SIZE
    requires PacketAt(was, position, packet)
    requires position + FullSize(|packet|) <= at && at + full <= position + IO_NET_SIZE && full > 0
    requires SameOutside(was, now, at, full)
    ensures PacketAt(now, position, packet)
  {
    var p := Physical(position);
    DisjointInBuffer(position, FullSize(|packet|), at, full);
    assert now[p + HEADER_SIZE..p + HEADER_SIZE + |packet|] == was[p + HEADER_SIZE..p + HEADER_SIZE + |packet|];
  }

  /**
    * Writing one more packet at the tail leaves every unread packet whole, as long as it ends at
    * most one turn of the ring after the oldest of them.
    */
  lemma WriteKeepsStored(was: seq<Byte>, now: seq<Byte>, log: seq<Payload>, taken: nat, full: nat)
    requires |was| == |now| == BUFFER_SIZE && taken <= |log|
    requires Stored(was, log, taken)
    requires At(log, |log|) + full <= At(log, taken) + IO_NET_SIZE && full > 0
    requires SameOutside(was, now, At(log, |log|), full)
    ensures Stored(now, log, taken)
  {
    forall i | taken <= i < |log| ensures Whole(now, log, i) {
      assert Whole(was, log, i);
      AtGrows(log, i, |log|);
      if taken < i {
        AtGrows(log, taken, i);
      }
      PacketElsewhere(was, now, At(log, i), log[i], At(log, |log|), full);
    }
  }

  lemma PublishKeepsStored(cells: seq<Byte>, log: seq<Payload>, taken: nat, packet: Payload)
    requires |cells| == BUFFER_SIZE && taken <= |log|
    requires Stored(cells, log, taken) && PacketAt(cells, At(log, |log|), packet)
    ensures Stored(cells, log + [packet], taken)
  {
    hide At, PacketAt, FullSize;
    var longer := log + [packet];
    forall i | taken <= i < |longer| ensures Whole(cells, longer, i) {
      AtPrefix(log, [packet], i);
      assert i < |log| ==> Whole(cells, log, i);
    }
  }

  lemma Aligned(x: nat, y: nat)
    requires x % 16 == 0 && y % 16 == 0
    ensures (x - y) % 16 == 0
  {
  }

  // What is free only grows while the host takes packets.
  lemma RoomGrows(log: seq<Payload>, before: nat, now: nat)
    requires before <= now <= |log|
    ensures At(log, before) <= At(log, now)
  {
  }

  /** The two counters give the bytes in use, whichever of them has wrapped. */
  lemma UsedFromCounters(log: seq<Payload>, taken: nat)
    requires taken <= |log|
    requires At(log, |log|) <= At(log, taken) + IO_NET_SIZE
    ensures Wrap(Wrap(At(log, |log|)) - Wrap(At(log, taken))) == At(log, |log|) - At(log, taken)
    ensures (At(log, |log|) - At(log, taken)) % 16 == 0
    ensures At(log, |log|) == At(log, taken) <==> taken == |log|
  {
    Aligned(At(log, |log|), At(log, taken));
    if taken < |log| {
      AtGrows(log, taken, |log|);
    }
    DistanceSurvivesWrap(At(log, taken), At(log, |log|) - At(log, taken));
  }

  // Two reads of the log one after the other are one read, also of a longer log.
  lemma ReadsJoin(was: seq<Payload>, now: seq<Payload>, a: nat, b: nat, c: nat)
    requires a <= b <= |was| && b <= c <= |now| && was <= now
    ensures was[a..b] + now[b..c] == now[a..c]
    ensures c <= |was| ==> was[b..c] == now[b..c]
  {
  }

  class Ring {
    const buffer: array<Byte>  // aSendBuffer
    var head: U32              // uSendHead, moved by the host
    var tail: U32              // uSendTail, moved by the guest
    var announced: bool        // bSendPacketPresent, set by the guest and cleared by the host
    var flushes: nat           // how often the guest has kicked the host
    ghost var log: seq<Payload>  // everything the guest has published, in order
    ghost var taken: nat         // how much of it the host has taken

    ghost predicate Valid()
      reads this, buffer
    {
      && buffer.Length == BUFFER_SIZE
      && taken <= |log|
      && head == Wrap(At(log, taken))
      && tail == Wrap(At(log, |log|))
      && At(log, taken) <= At(log, |log|) <= At(log, taken) + IO_NET_SIZE
      && Stored(buffer[..], log, taken)
    }

    constructor ()
      ensures Valid() && fresh(buffer)
      ensures log == []
    {
      buffer := new Byte[BUFFER_SIZE];
      head, tail, announced, flushes := 0, 0, false, 0;
      log, taken := [], 0;
    }

    // Bytes in use, as the guest computes them from the two counters.
    function Used(): U32
      reads this
    {
      Wrap(tail - head)
    }

    lemma UsedIsExact()
      requires Valid()
      ensures Used() == At(log, |log|) - At(log, taken)
      ensures Used() % 16 == 0 && Used() <= IO_NET_SIZE
      ensures Used() == 0 <==> taken == |log|
    {
      UsedFromCounters(log, taken);
    }

    /** The host reads a packet at the head: the bytes give the oldest packet not yet taken. */
    method Read() returns (packet: Payload)
      requires Valid() && taken < |log|
      ensures packet == log[taken]
    {
      ghost var at := At(log, taken);
      WrapKeepsPlace(at);
      assert Whole(buffer[..], log, taken);
      var p := Physical(head);
      var low: int, high: int := buffer[p], buffer[p + 1];
      assert low + 256 * high == Word(buffer[..], p);
      var length := DataLength(low + 256 * high);
      packet := buffer[p + HEADER_SIZE..p + HEADER_SIZE + length];
    }

    /** The host takes the packet at the head. */
    method Take() returns (packet: Payload)
      requires Valid() && head != tail
      modifies this`head, this`taken
      ensures Valid()
      ensures old(taken) < |log| && taken == old(taken) + 1 && packet == log[old(taken)]
    {
      hide Wrap, Physical, FullSize, Whole;
      UsedIsExact();
      packet := Read();
      AtGrows(log, taken, |log|);
      AddUnderWrap(At(log, taken), FullSize(|packet|));
      head := Wrap(head + FullSize(|packet|));
      taken := taken + 1;
    }

    /** The host takes up to n packets, and gets the oldest ones in order. */
    method TakeUpTo(n: nat) returns (got: seq<Payload>)
      requires Valid()
      modifies this`head, this`taken
      ensures Valid() && old(taken) <= taken
      ensures taken == old(taken) + n || taken == |log|
      ensures got == log[old(taken)..taken]
    {
      hide At, Stored, FullSize;
      got := [];
      UsedIsExact();
      if n > 0 && head != tail {
        var first := Take();
        var rest := TakeUpTo(n - 1);
        got := [first] + rest;
      }
    }

    /** Copies a packet to the tail, which is not yet moved. */
    method Write(data: Payload)
      requires Valid()
      requires At(log, |log|) + FullSize(|data|) <= At(log, taken) + IO_NET_SIZE
      modifies buffer
      ensures Valid()
      ensures PacketAt(buffer[..], At(log, |log|), data)
      ensures SameOutside(old(buffer[..]), buffer[..], At(log, |log|), FullSize(|data|))
    {
      ghost var was := buffer[..];
      WrapKeepsPlace(At(log, |log|));
      Copy(Physical(tail), data);
      WriteKeepsStored(was, buffer[..], log, taken, FullSize(|data|));
    }

    // The header and the bytes, at p: at most the end of the tailroom is reached.
    method Copy(p: nat, data: Payload)
      requires buffer.Length == BUFFER_SIZE && p < IO_NET_SIZE
      modifies buffer
      ensures Word(buffer[..], p) == |data|
      ensures buffer[p + HEADER_SIZE..p + HEADER_SIZE + |data|] == data
      ensures forall k | 0 <= k < BUFFER_SIZE && !(p <= k < p + HEADER_SIZE + |data|) ::
                buffer[k] == old(buffer[k])
    {
      buffer[p], buffer[p + 1] := |data| % 256, |data| / 256;
      forall i | 0 <= i < |data| {
        buffer[p + HEADER_SIZE + i] := data[i];
      }
    }

    /**
      * io_write_data. The host takes up to `early` packets after the counters are read and up to
      * `late` more before the new tail is published. The packet is accepted exactly when it fits
      * in what was free when the counters were read. A packet accepted is announced, with a kick
      * unless the host has not yet noticed an earlier announcement; `noticed` says that it has now.
      */
    method WriteData(data: Payload, early: nat, late: nat, noticed: bool)
      returns (ok: bool, got: seq<Payload>)
      requires Valid()
      modifies this, buffer
      ensures Valid() && old(taken) <= taken
      ensures ok <==> old(Used()) + FullSize(|data|) <= IO_NET_SIZE
      ensures log == old(log) + if ok then [data] else []
      ensures announced == (ok || old(announced))
      ensures flushes == old(flushes) + if ok && (noticed || !old(announced)) then 1 else 0
      ensures got == log[old(taken)..taken]
    {
      hide At, Wrap, Stored, FullSize, PacketAt;
      UsedIsExact();
      var start: int, end: int := tail, head;
      var full, used := FullSize(|data|), Wrap(start - end);
      assert used == old(Used());
      got := TakeUpTo(early);
      if full > IO_NET_SIZE - used {
        return false, got;
      }
      RoomGrows(log, old(taken), taken);
      assert At(log, |log|) + full <= At(log, taken) + IO_NET_SIZE;
      Write(data);
      ghost var cells, at := buffer[..], taken;
      var more := TakeUpTo(late);
      assert buffer[..] == cells;
      RoomGrows(log, at, taken);
      ReadsJoin(log, log + [data], old(taken), at, taken);
      Publish(data, start);
      if noticed {
        announced := false;
      }
      if !announced {
        announced := true;
        flushes := flushes + 1;
      }
      return true, got + more;
    }

    method Publish(data: Payload, start: U32)
      requires Valid() && start == tail
      requires PacketAt(buffer[..], At(log, |log|), data)
      requires At(log, |log|) + FullSize(|data|) <= At(log, taken) + IO_NET_SIZE
      modifies this`tail, this`log
      ensures Valid() && log == old(log) + [data]
    {
      hide Wrap, Physical, FullSize, PacketAt, Stored;
      AddUnderWrap(At(log, |log|), FullSize(|data|));
      PublishKeepsStored(buffer[..], log, taken, data);
      AtPrefix(log, [data], |log|);
      AtPrefix(log, [data], taken);
      tail := Wrap(start + FullSize(|data|));
      log := log + [data];
    }
  }

  datatype Status = Done | Busy

  // One call of pvmnet_xmit, and how far the host gets meanwhile and afterwards.
  datatype Call = Call(frame: seq<Byte>, early: nat, late: nat, after: nat, noticed: bool)

  ghost predicate Sendable(frame: seq<Byte>) {
    1 <= |frame| <= ETH_FRAME_LEN
  }

  // What a call hands to the host: the frame if it is accepted. A frame of a wrong length is
  // dropped although the call reports success.
  ghost function SentBy(frame: seq<Byte>, reply: Status): seq<Payload> {
    if Sendable(frame) && reply.Done? then [frame] else []
  }

  ghost function Sent(calls: seq<Call>, replies: seq<Status>): seq<Payload>
    requires |calls| == |replies|
  {
    if calls == [] then []
    else
      var last := |calls| - 1;
      Sent(calls[..last], replies[..last]) + SentBy(calls[last].frame, replies[last])
  }

  lemma SentNone(calls: seq<Call>)
    ensures Sent(calls[..0], []) == []
  {
  }

  lemma SentNext(calls: seq<Call>, replies: seq<Status>, reply: Status)
    requires |replies| < |calls|
    ensures Sent(calls[..|replies| + 1], replies + [reply]) ==
            Sent(calls[..|replies|], replies) + SentBy(calls[|replies|].frame, reply)
  {
    assert calls[..|replies| + 1][..|replies|] == calls[..|replies|];
    assert (replies + [reply])[..|replies|] == replies;
  }

  function Bytes(packets: seq<Payload>): nat {
    if packets == [] then 0 else Bytes(packets[..|packets| - 1]) + |packets[|packets| - 1]|
  }

  lemma BytesAppend(packets: seq<Payload>, packet: Payload)
    ensures Bytes(packets + [packet]) == Bytes(packets) + |packet|
  {
  }

  class Device {
    const ring: Ring
    var txPackets: nat
    var txBytes: nat
    var queueStopped: bool
    var overflows: nat  // how often the host was told that the ring is full

    ghost predicate Valid()
      reads this, ring, ring.buffer
    {
      && ring.Valid()
      && txPackets == |ring.log|
      && txBytes == Bytes(ring.log)
    }

    constructor ()
      ensures Valid() && fresh(ring) && fresh(ring.buffer)
      ensures ring.log == []
    {
      ring := new Ring();
      txPackets, txBytes, queueStopped, overflows := 0, 0, false, 0;
    }

    /**
      * pvmnet_xmit. A frame of a length that fits the medium is queued, or refused when the ring
      * has no room for it, which also stops the queue; any other frame is dropped.
      */
    method Xmit(frame: seq<Byte>, early: nat, late: nat, noticed: bool)
      returns (status: Status, got: seq<Payload>)
      requires Valid()
      modifies this, ring, ring.buffer
      ensures Valid() && old(ring.taken) <= ring.taken
      ensures var fits := old(ring.Used()) + FullSize(|frame|) <= IO_NET_SIZE;
              if 1 <= |frame| <= ETH_FRAME_LEN then
                (if fits then status.Done? && ring.log == old(ring.log) + [frame]
                 else status.Busy? && ring.log == old(ring.log))
              else status.Done? && ring.log == old(ring.log)
      ensures ring.log == old(ring.log) + SentBy(frame, status)
      ensures got == ring.log[old(ring.taken)..ring.taken]
      ensures queueStopped == (old(queueStopped) || status.Busy?)
      ensures overflows == old(overflows) + if status.Busy? then 1 else 0
      ensures ring.log != old(ring.log) ==> ring.announced
    {
      status, got := Done, [];
      if |frame| > 0 && |frame| <= ETH_FRAME_LEN {
        var ok;
        ok, got := ring.WriteData(frame, early, late, noticed);
        if !ok {
          assert ring.log == old(ring.log);
          queueStopped, overflows := true, overflows + 1;
          return Busy, got;
        }
        BytesAppend(old(ring.log), frame);
        txBytes := txBytes + |frame|;
        txPackets := txPackets + 1;
      }
    }

    // A call, and what the host takes after it.
    method Turn(call: Call) returns (status: Status, got: seq<Payload>)
      requires Valid()
      modifies this, ring, ring.buffer
      ensures Valid() && old(ring.taken) <= ring.taken
      ensures ring.log == old(ring.log) + SentBy(call.frame, status)
      ensures got == ring.log[old(ring.taken)..ring.taken]
    {
      status, got := Xmit(call.frame, call.early, call.late, call.noticed);
      ghost var middle := ring.taken;
      var later := ring.TakeUpTo(call.after);
      ReadsJoin(ring.log, ring.log, old(ring.taken), middle, ring.taken);
      got := got + later;
    }

    /**
      * Any run of calls against any pace of the host: what the host reads out of the shared bytes
      * is, in order and without loss or repeat, a prefix of what the calls accepted.
      */
    method Run(calls: seq<Call>) returns (replies: seq<Status>, received: seq<Payload>)
      requires Valid()
      modifies this, ring, ring.buffer
      ensures Valid() && old(ring.taken) <= ring.taken
      ensures |replies| == |calls|
      ensures ring.log == old(ring.log) + Sent(calls, replies)
      ensures received == ring.log[old(ring.taken)..ring.taken]
    {
      hide At, Wrap, Stored, FullSize, Sent;
      SentNone(calls);
      replies, received := [], [];
      for i := 0 to |calls|
        invariant Valid() && old(ring.taken) <= ring.taken
        invariant |replies| == i
        invariant ring.log == old(ring.log) + Sent(calls[..i], replies)
        invariant received == ring.log[old(ring.taken)..ring.taken]
      {
        ghost var before, middle := ring.log, ring.taken;
        var status, got := Turn(calls[i]);
        SentNext(calls, replies, status);
        ReadsJoin(before, ring.log, old(ring.taken), middle, ring.taken);
        replies, received := replies + [status], received + got;
      }
      assert calls[..|calls|] == calls;
    }
  }
}
