/**
  * Geometry of the two packet rings a guest shares with its host.
  *
  * Positions are free-running counters. Logically they only grow; the shared memory keeps them
  * modulo 2^32, and a packet sits at its position modulo the ring size. A packet is never split: it
  * may run past the end of the ring into a tailroom, and the bytes it would have wrapped onto at
  * the start of the ring stay unused.
  */
module RingGeometry {
  import opened MachineTypes

  const IO_NET_SIZE := 262144
  const TAILROOM := 1536
  const BUFFER_SIZE := IO_NET_SIZE + TAILROOM

  const HEADER_SIZE := 2
  const LEN_MASK := 0x3fff
  const FIXED_FLAG := 0x4000
  const FIXED_SIZE := 1536

  const ETH_HLEN := 14
  const ETH_FRAME_LEN := 1514

  // The size, header included, that a packet of this length takes up, rounded up to 16 bytes.
  function FullSize(length: nat): (full: nat)
    ensures full % 16 == 0
    ensures HEADER_SIZE + length <= full < HEADER_SIZE + length + 16
  {
    (HEADER_SIZE + length + 15) / 16 * 16
  }

  function Wrap(position: int): U32 {
    position % 0x1_0000_0000
  }

  // Where a packet at this counter value starts in the buffer.
  function Physical(position: nat): (p: nat)
    ensures p < IO_NET_SIZE
  {
    position % IO_NET_SIZE
  }

  // The little-endian 16-bit word at p.
  function Word(cells: seq<Byte>, p: nat): U16
    requires p + 1 < |cells|
  {
    var low: int, high: int := cells[p], cells[p + 1];
    low + 256 * high
  }

  function DataLength(word: U16): nat {
    word % (LEN_MASK + 1)
  }

  /** Keeping a counter modulo 2^32 does not move what it points at. */
  lemma WrapKeepsPlace(position: nat)
    ensures Physical(Wrap(position)) == Physical(position)
  {
  }

  /** Two counters less than 2^32 apart give their distance back, across the counter's wrap. */
  lemma DistanceSurvivesWrap(head: nat, distance: nat)
    requires distance < 0x1_0000_0000
    ensures Wrap(Wrap(head + distance) - Wrap(head)) == distance
  {
  }

  lemma AddUnderWrap(position: nat, step: nat)
    ensures Wrap(Wrap(position) + step) == Wrap(position + step)
  {
  }

  /**
    * Two stretches that are disjoint as positions, and together span no more than one turn of the
    * ring, are disjoint as bytes, wherever the end of the ring falls and however far each runs into
    * the tailroom.
    */
  lemma DisjointInBuffer(x: nat, a: nat, y: nat, b: nat)
    requires x + a <= y && y + b <= x + IO_NET_SIZE && b > 0
    ensures Physical(x) + a <= Physical(y) || Physical(y) + b <= Physical(x)
  {
  }
}
