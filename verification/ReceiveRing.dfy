/**
  * The receive ring: the interrupt handler walks the packets the host has left between the head and
  * the tail, hands over those of a proper length, and counts every one of them.
  */
module ReceiveRing {
  import opened MachineTypes
  import opened RingGeometry

  type Frame = d: seq<Byte> | |d| <= LEN_MASK

  // A packet as the host writes it. A fixed packet takes up FIXED_SIZE bytes whatever its length.
  datatype Packet = Packet(payload: Frame, fixed: bool, checksummed: bool) {
    function Header(): U16 {
      |payload| + (if fixed then FIXED_FLAG else 0) + (if checksummed then 0x8000 else 0)
    }

    function Stride(): (n: nat)
      ensures 0 < n
    {
      if fixed then FIXED_SIZE else FullSize(|payload|)
    }
  }

  function IsFixed(word: U16): bool {
    word / FIXED_FLAG % 2 == 1
  }

  // The stride the guest computes from a header it reads back.
  function StrideOf(word: U16): nat {
    if IsFixed(word) then FIXED_SIZE else FullSize(DataLength(word))
  }

  lemma HeaderReadsBack(packet: Packet)
    ensures DataLength(packet.Header()) == |packet.payload|
    ensures StrideOf(packet.Header()) == packet.Stride()
  {
  }

  // The distance from the head to the i-th packet.
  function At(packets: seq<Packet>, i: nat): nat
    requires i <= |packets|
  {
    if i == 0 then 0 else At(packets, i - 1) + packets[i - 1].Stride()
  }

  lemma {:induction false} AtGrows(packets: seq<Packet>, i: nat, j: nat)
    requires i < j <= |packets|
    ensures At(packets, i) < At(packets, j)
    decreases j
  {
    if i < j - 1 {
      AtGrows(packets, i, j - 1);
    }
  }

  function PayloadAt(cells: seq<Byte>, p: nat, size: nat): seq<Byte>
    requires p + HEADER_SIZE + size <= |cells|
  {
    cells[p + HEADER_SIZE..p + HEADER_SIZE + size]
  }

  // The length of the packet at a counter value, 0 at the tail.
  function SizeAt(cells: seq<Byte>, tail: U32, offset: U32): nat
    requires |cells| == BUFFER_SIZE
  {
    if offset == tail then 0 else DataLength(Word(cells, Physical(offset)))
  }

  // The packet lies at p. The bytes of an over-long one are never looked at.
  ghost predicate PacketAt(cells: seq<Byte>, p: nat, packet: Packet)
    requires |cells| == BUFFER_SIZE && p < IO_NET_SIZE
  {
    && Word(cells, p) == packet.Header()
    && (|packet.payload| <= ETH_FRAME_LEN ==> PayloadAt(cells, p, |packet.payload|) == packet.payload)
  }

  // The i-th packet is where it should be.
  ghost predicate Whole(cells: seq<Byte>, head: nat, packets: seq<Packet>, i: nat)
    requires |cells| == BUFFER_SIZE && i < |packets|
  {
    PacketAt(cells, Physical(head + At(packets, i)), packets[i])
  }

  // The host has left these packets, and nothing else, between the head and the tail.
  ghost predicate Holds(cells: seq<Byte>, head: nat, tail: U32, packets: seq<Packet>) {
    && |cells| == BUFFER_SIZE
    && (forall i | 0 <= i < |packets| :: Whole(cells, head, packets, i))
    && At(packets, |packets|) <= IO_NET_SIZE
    && tail == Wrap(head + At(packets, |packets|))
  }

  datatype Fate = Delivered | WrongLength | NoMemory

  function FateOf(packet: Packet, memory: bool): Fate {
    if |packet.payload| < ETH_HLEN || |packet.payload| > ETH_FRAME_LEN then WrongLength
    else if memory then Delivered
    else NoMemory
  }

  // How many of the first n packets meet this fate; memory says whether there is a buffer for each.
  ghost function Tally(packets: seq<Packet>, memory: nat -> bool, n: nat, fate: Fate): nat
    requires n <= |packets|
  {
    if n == 0 then 0
    else
      Tally(packets, memory, n - 1, fate) +
      if FateOf(packets[n - 1], memory(n - 1)) == fate then 1 else 0
  }

  ghost function Bytes(frames: seq<Frame>): nat {
    if frames == [] then 0 else Bytes(frames[..|frames| - 1]) + |frames[|frames| - 1]|
  }

  lemma BytesAppend(frames: seq<Frame>, frame: Frame)
    ensures Bytes(frames + [frame]) == Bytes(frames) + |frame|
  {
  }

  // The frames are the payloads of exactly the first n packets to be delivered, in order: each
  // stands behind as many others as were delivered before it.
  ghost predicate DeliveredInOrder(packets: seq<Packet>, memory: nat -> bool, n: nat, frames: seq<Frame>)
    requires n <= |packets|
  {
    && |frames| == Tally(packets, memory, n, Delivered)
    && forall i | 0 <= i < n && FateOf(packets[i], memory(i)).Delivered? ::
         FoundAt(frames, Tally(packets, memory, i, Delivered), packets[i].payload)
  }

  ghost predicate FoundAt(frames: seq<Frame>, k: nat, frame: Frame) {
    k < |frames| && frames[k] == frame
  }

  /** Every packet meets exactly one fate. */
  lemma {:induction false} EveryPacketCountedOnce(packets: seq<Packet>, memory: nat -> bool, n: nat)
    requires n <= |packets|
    ensures Tally(packets, memory, n, Delivered) + Tally(packets, memory, n, WrongLength) +
            Tally(packets, memory, n, NoMemory) == n
  {
    if n > 0 {
      EveryPacketCountedOnce(packets, memory, n - 1);
    }
  }

  // The frames one packet gives.
  ghost function FramesOf(packet: Packet, memory: bool): seq<Frame> {
    if FateOf(packet, memory).Delivered? then [packet.payload] else []
  }

  lemma DeliverNext(packets: seq<Packet>, memory: nat -> bool, n: nat, frames: seq<Frame>)
    requires n < |packets| && DeliveredInOrder(packets, memory, n, frames)
    ensures DeliveredInOrder(packets, memory, n + 1, frames + FramesOf(packets[n], memory(n)))
  {
  }

  datatype Stats = Stats(rxPackets: nat, rxBytes: nat, rxErrors: nat, rxLengthErrors: nat, rxDropped: nat) {
    ghost function Plus(frames: seq<Frame>, wrongLength: nat, noMemory: nat): Stats {
      Stats(rxPackets + |frames|, rxBytes + Bytes(frames),
            rxErrors + wrongLength, rxLengthErrors + wrongLength, rxDropped + noMemory)
    }
  }

  // What the first n packets, which gave these frames, add to the statistics.
  ghost function Account(
    was: Stats, packets: seq<Packet>, memory: nat -> bool, n: nat, frames: seq<Frame>): Stats
    requires n <= |packets|
  {
    was.Plus(frames, Tally(packets, memory, n, WrongLength), Tally(packets, memory, n, NoMemory))
  }

  ghost function AfterOne(was: Stats, packet: Packet, memory: bool): Stats {
    var fate := FateOf(packet, memory);
    was.Plus(FramesOf(packet, memory),
             if fate.WrongLength? then 1 else 0, if fate.NoMemory? then 1 else 0)
  }

  lemma AccountNext(was: Stats, packets: seq<Packet>, memory: nat -> bool, n: nat, frames: seq<Frame>)
    requires n < |packets|
    ensures AfterOne(Account(was, packets, memory, n, frames), packets[n], memory(n)) ==
            Account(was, packets, memory, n + 1, frames + FramesOf(packets[n], memory(n)))
  {
    var more := FramesOf(packets[n], memory(n));
    if more != [] {
      BytesAppend(frames, more[0]);
      BytesAppend([], more[0]);
    } else {
      assert frames + more == frames;
    }
  }

  // The packets of a frame's length, from an Ethernet header to a full frame, for which there is
  // memory or is none, and those of any other length.
  ghost function WithMemory(packets: seq<Packet>, memory: nat -> bool, n: nat): set<nat>
    requires n <= |packets|
  {
    set i: nat | i < n && ETH_HLEN <= |packets[i].payload| <= ETH_FRAME_LEN && memory(i)
  }

  ghost function WithoutMemory(packets: seq<Packet>, memory: nat -> bool, n: nat): set<nat>
    requires n <= |packets|
  {
    set i: nat | i < n && ETH_HLEN <= |packets[i].payload| <= ETH_FRAME_LEN && !memory(i)
  }

  ghost function OutOfRange(packets: seq<Packet>, n: nat): set<nat>
    requires n <= |packets|
  {
    set i: nat | i < n && !(ETH_HLEN <= |packets[i].payload| <= ETH_FRAME_LEN)
  }

  // The frames are exactly the payloads of the packets with memory, in their order.
  ghost predicate HandedOver(packets: seq<Packet>, memory: nat -> bool, n: nat, frames: seq<Frame>)
    requires n <= |packets|
  {
    && |frames| == |WithMemory(packets, memory, n)|
    && forall i | i in WithMemory(packets, memory, n) ::
         FoundAt(frames, |WithMemory(packets, memory, i)|, packets[i].payload)
  }

  lemma {:induction false} TallyIsSize(packets: seq<Packet>, memory: nat -> bool, n: nat)
    requires n <= |packets|
    ensures Tally(packets, memory, n, Delivered) == |WithMemory(packets, memory, n)|
    ensures Tally(packets, memory, n, NoMemory) == |WithoutMemory(packets, memory, n)|
    ensures Tally(packets, memory, n, WrongLength) == |OutOfRange(packets, n)|
  {
    hide FateOf, WithMemory, WithoutMemory, OutOfRange;
    if n == 0 {
      NoneYet(packets, memory);
    } else {
      TallyIsSize(packets, memory, n - 1);
      OneMoreWith(packets, memory, n - 1);
      OneMoreWithout(packets, memory, n - 1);
      OneMoreOutOfRange(packets, memory, n - 1);
    }
  }

  lemma NoneYet(packets: seq<Packet>, memory: nat -> bool)
    ensures WithMemory(packets, memory, 0) == WithoutMemory(packets, memory, 0) == OutOfRange(packets, 0) == {}
  {
  }

  lemma OneMoreWith(packets: seq<Packet>, memory: nat -> bool, n: nat)
    requires n < |packets|
    ensures |WithMemory(packets, memory, n + 1)| ==
            |WithMemory(packets, memory, n)| + if FateOf(packets[n], memory(n)).Delivered? then 1 else 0
  {
    var more := if FateOf(packets[n], memory(n)).Delivered? then {n} else {};
    assert WithMemory(packets, memory, n + 1) == WithMemory(packets, memory, n) + more;
  }

  lemma OneMoreWithout(packets: seq<Packet>, memory: nat -> bool, n: nat)
    requires n < |packets|
    ensures |WithoutMemory(packets, memory, n + 1)| ==
            |WithoutMemory(packets, memory, n)| + if FateOf(packets[n], memory(n)).NoMemory? then 1 else 0
  {
    var more := if FateOf(packets[n], memory(n)).NoMemory? then {n} else {};
    assert WithoutMemory(packets, memory, n + 1) == WithoutMemory(packets, memory, n) + more;
  }

  lemma OneMoreOutOfRange(packets: seq<Packet>, memory: nat -> bool, n: nat)
    requires n < |packets|
    ensures |OutOfRange(packets, n + 1)| ==
            |OutOfRange(packets, n)| + if FateOf(packets[n], memory(n)).WrongLength? then 1 else 0
  {
    var more := if FateOf(packets[n], memory(n)).WrongLength? then {n} else {};
    assert OutOfRange(packets, n + 1) == OutOfRange(packets, n) + more;
  }

  lemma DeliveredIsHandedOver(packets: seq<Packet>, memory: nat -> bool, n: nat, frames: seq<Frame>)
    requires n <= |packets| && DeliveredInOrder(packets, memory, n, frames)
    ensures HandedOver(packets, memory, n, frames)
  {
    TallyIsSize(packets, memory, n);
    forall i | i in WithMemory(packets, memory, n)
      ensures FoundAt(frames, |WithMemory(packets, memory, i)|, packets[i].payload)
    {
      TallyIsSize(packets, memory, i);
    }
  }

  ghost predicate NoneEmpty(packets: seq<Packet>, n: nat)
    requires n <= |packets|
  {
    forall i | 0 <= i < n :: packets[i].payload != []
  }

  ghost function LengthAt(packets: seq<Packet>, n: nat): nat {
    if n < |packets| then |packets[n].payload| else 0
  }

  // The first n packets are not empty, and either they are all or the next one is.
  ghost predicate StopsAfter(packets: seq<Packet>, n: nat) {
    && n <= |packets|
    && NoneEmpty(packets, n)
    && LengthAt(packets, n) == 0
  }

  lemma Balance(was: Stats, packets: seq<Packet>, memory: nat -> bool, n: nat, frames: seq<Frame>)
    requires n <= |packets| && DeliveredInOrder(packets, memory, n, frames)
    ensures HandedOver(packets, memory, n, frames)
    ensures var wrong := |OutOfRange(packets, n)|;
            Account(was, packets, memory, n, frames) ==
              Stats(was.rxPackets + |WithMemory(packets, memory, n)|, was.rxBytes + Bytes(frames),
                    was.rxErrors + wrong, was.rxLengthErrors + wrong,
                    was.rxDropped + |WithoutMemory(packets, memory, n)|)
  {
    hide FateOf, WithMemory, WithoutMemory, OutOfRange;
    TallyIsSize(packets, memory, n);
    DeliveredIsHandedOver(packets, memory, n, frames);
  }

  // Where the loop stands after n packets.
  ghost predicate Walked(
    head: nat, packets: seq<Packet>, memory: nat -> bool, n: nat,
    offset: U32, frames: seq<Frame>, was: Stats, now: Stats)
  {
    && n <= |packets|
    && NoneEmpty(packets, n)
    && offset == Wrap(head + At(packets, n))
    && DeliveredInOrder(packets, memory, n, frames)
    && now == Account(was, packets, memory, n, frames)
  }

  lemma WalkStart(head: nat, packets: seq<Packet>, memory: nat -> bool, offset: U32, stats: Stats)
    requires offset == Wrap(head)
    ensures Walked(head, packets, memory, 0, offset, [], stats, stats)
  {
  }

  lemma WalkNext(
    head: nat, packets: seq<Packet>, memory: nat -> bool, n: nat,
    offset: U32, frames: seq<Frame>, was: Stats, now: Stats)
    requires Walked(head, packets, memory, n, offset, frames, was, now)
    requires LengthAt(packets, n) != 0
    ensures Walked(head, packets, memory, n + 1, Wrap(offset + packets[n].Stride()),
                   frames + FramesOf(packets[n], memory(n)), was, AfterOne(now, packets[n], memory(n)))
  {
    hide DeliveredInOrder, Account, AfterOne, Wrap, Packet.Stride, FramesOf;
    DeliverNext(packets, memory, n, frames);
    AccountNext(was, packets, memory, n, frames);
    AddUnderWrap(head + At(packets, n), packets[n].Stride());
  }

  /** The counter comes back to the tail only when every packet has been walked. */
  lemma AtTailIffAllWalked(head: nat, packets: seq<Packet>, i: nat)
    requires i <= |packets| && At(packets, |packets|) <= IO_NET_SIZE
    ensures Wrap(head + At(packets, i)) == Wrap(head + At(packets, |packets|)) <==> i == |packets|
  {
    if i < |packets| {
      AtGrows(packets, i, |packets|);
      DistanceSurvivesWrap(head + At(packets, i), At(packets, |packets|) - At(packets, i));
    }
  }

  // What the guest sees at the place of the i-th packet.
  lemma SeesPacket(cells: seq<Byte>, head: nat, tail: U32, packets: seq<Packet>, i: nat, offset: U32)
    requires Holds(cells, head, tail, packets) && i < |packets|
    requires offset == Wrap(head + At(packets, i))
    ensures PacketAt(cells, Physical(offset), packets[i])
  {
    hide Physical, Wrap, At, Word, FullSize, PacketAt, PayloadAt;
    WrapKeepsPlace(head + At(packets, i));
    assert Whole(cells, head, packets, i);
  }

  // The length the guest sees after walking n packets.
  lemma SizeSeen(cells: seq<Byte>, head: nat, tail: U32, packets: seq<Packet>, n: nat, offset: U32)
    requires Holds(cells, head, tail, packets) && n <= |packets|
    requires offset == Wrap(head + At(packets, n))
    ensures offset == tail <==> n == |packets|
    ensures SizeAt(cells, tail, offset) == LengthAt(packets, n)
  {
    AtTailIffAllWalked(head, packets, n);
    if n < |packets| {
      SeesPacket(cells, head, tail, packets, n, offset);
      HeaderReadsBack(packets[n]);
    }
  }

  class Receiver {
    const buffer: array<Byte>  // aBuffer
    var tail: U32              // uTail, moved by the host
    var stats: Stats

    constructor (buffer: array<Byte>, tail: U32)
      ensures this.buffer == buffer && this.tail == tail
      ensures stats == Stats(0, 0, 0, 0, 0)
    {
      this.buffer, this.tail, stats := buffer, tail, Stats(0, 0, 0, 0, 0);
    }

    // Reads the header at a counter value.
    method ReadHeader(offset: U32) returns (word: U16)
      requires buffer.Length == BUFFER_SIZE
      ensures word == Word(buffer[..], Physical(offset))
    {
      var p := Physical(offset);
      var low: int, high: int := buffer[p], buffer[p + 1];
      word := low + 256 * high;
    }

    // io_get_packet_size: the length of the packet at offset, or 0 at the tail.
    method GetPacketSize(offset: U32) returns (size: nat)
      requires buffer.Length == BUFFER_SIZE
      ensures size == SizeAt(buffer[..], tail, offset)
    {
      if offset == tail {
        return 0;
      }
      var word := ReadHeader(offset);
      return DataLength(word);
    }

    // io_drop_packet: steps over the packet at offset.
    method DropPacket(offset: U32) returns (next: U32)
      requires buffer.Length == BUFFER_SIZE
      ensures next == Wrap(offset + StrideOf(Word(buffer[..], Physical(offset))))
    {
      var word := ReadHeader(offset);
      next := Wrap(offset + StrideOf(word));
    }

    // io_read_data: copies out the packet at offset and steps over it.
    method ReadData(offset: U32, size: nat) returns (frame: seq<Byte>, next: U32)
      requires buffer.Length == BUFFER_SIZE && size <= ETH_FRAME_LEN
      ensures frame == PayloadAt(buffer[..], Physical(offset), size)
      ensures next == Wrap(offset + StrideOf(Word(buffer[..], Physical(offset))))
    {
      var p := Physical(offset);
      frame := buffer[p + HEADER_SIZE..p + HEADER_SIZE + size];
      next := DropPacket(offset);
    }

    // One turn of the receive loop, for the packet of this size at offset.
    method Handle(offset: U32, size: nat, memory: bool, ghost packet: Packet)
      returns (next: U32, frames: seq<Frame>)
      requires buffer.Length == BUFFER_SIZE
      requires size == |packet.payload|
      requires PacketAt(buffer[..], Physical(offset), packet)
      modifies this`stats
      ensures next == Wrap(offset + packet.Stride())
      ensures frames == FramesOf(packet, memory)
      ensures frames == [packet.payload] <==> memory && ETH_HLEN <= size <= ETH_FRAME_LEN
      ensures stats == AfterOne(old(stats), packet, memory)
    {
      HeaderReadsBack(packet);
      frames := [];
      if size < ETH_HLEN || size > ETH_FRAME_LEN {
        next := DropPacket(offset);
        stats := stats.(rxErrors := stats.rxErrors + 1, rxLengthErrors := stats.rxLengthErrors + 1);
        return;
      }
      if !memory {
        next := DropPacket(offset);
        stats := stats.(rxDropped := stats.rxDropped + 1);
        return;
      }
      var frame: Frame;
      frame, next := ReadData(offset, size);
      frames := [frame];
      stats := stats.(rxPackets := stats.rxPackets + 1, rxBytes := stats.rxBytes + size);
      BytesAppend([], frame);
    }

    /**
      * The receive loop of pvmnet_interrupt, over whatever packets the host has left. It stops
      * before the first empty one, if any; up to there every packet is counted once, and the ones
      * of a proper length for which there was memory are handed over in order.
      */
    method Receive(start: U32, memory: nat -> bool, ghost head: nat, ghost packets: seq<Packet>)
      returns (offset: U32, delivered: seq<Frame>, ghost n: nat)
      requires start == Wrap(head)
      requires Holds(buffer[..], head, tail, packets)
      modifies this`stats
      ensures StopsAfter(packets, n)
      ensures offset == Wrap(head + At(packets, n))
      ensures offset == tail <==> NoneEmpty(packets, |packets|)
      ensures HandedOver(packets, memory, n, delivered)
      ensures stats.rxPackets == old(stats.rxPackets) + |WithMemory(packets, memory, n)|
      ensures stats.rxBytes == old(stats.rxBytes) + Bytes(delivered)
      ensures stats.rxErrors == old(stats.rxErrors) + |OutOfRange(packets, n)|
      ensures stats.rxLengthErrors == old(stats.rxLengthErrors) + |OutOfRange(packets, n)|
      ensures stats.rxDropped == old(stats.rxDropped) + |WithoutMemory(packets, memory, n)|
    {
      hide Physical, Wrap, SizeAt, PacketAt, Packet.Stride, At, DeliveredInOrder, Account, AfterOne, FramesOf;
      WalkStart(head, packets, memory, start, stats);
      offset, delivered, n := start, [], 0;
      ghost var cells := buffer[..];
      var count := 0;  // how many packets have been walked: the order of the memory requests
      while true
        invariant n <= |packets| && count == n
        invariant buffer[..] == cells
        invariant Walked(head, packets, memory, n, offset, delivered, old(stats), stats)
        decreases |packets| - n
      {
        SizeSeen(cells, head, tail, packets, n, offset);
        var size := GetPacketSize(offset);
        if size == 0 {
          break;
        }
        SeesPacket(cells, head, tail, packets, n, offset);
        WalkNext(head, packets, memory, n, offset, delivered, old(stats), stats);
        var frames;
        offset, frames := Handle(offset, size, memory(count), packets[n]);
        delivered, n, count := delivered + frames, n + 1, count + 1;
      }
      Balance(old(stats), packets, memory, n, delivered);
    }
  }
}
