/**
  * Reading a shared directory: the host fills a page with records from the asked position on, the
  * guest hands them to the caller one by one until the caller has enough or the directory ends.
  */
module Directory {
  import opened MachineTypes

  const DIRENT_SIZE := 3

  type Name = n: seq<Byte> | 1 <= |n| <= 255 witness [1]

  datatype Record = Record(name: Name, fileType: Byte)

  // How long a record with a name this long is: two bytes, the name, a zero, up to a multiple of 8.
  function RecLen(nameLen: nat): (r: nat)
    ensures r % 8 == 0 && nameLen + DIRENT_SIZE <= r < nameLen + DIRENT_SIZE + 8
  {
    (nameLen + DIRENT_SIZE + 7) / 8 * 8
  }

  function Zeros(n: nat): (z: seq<Byte>)
    ensures |z| == n && forall i | 0 <= i < n :: z[i] == 0
  {
    seq(n, _ => 0)
  }

  function EncodeOne(r: Record): (bytes: seq<Byte>)
    ensures |bytes| == RecLen(|r.name|)
  {
    [|r.name|, r.fileType] + r.name + Zeros(RecLen(|r.name|) - |r.name| - 2)
  }

  function Encode(records: seq<Record>): seq<Byte> {
    if records == [] then [] else EncodeOne(records[0]) + Encode(records[1..])
  }

  // What there is at an offset: no more records, a malformed one, or one and where the next starts.
  datatype Found = End | Bad | One(record: Record, next: nat)

  function Find(buf: seq<Byte>, offset: nat): (f: Found)
    ensures f.One? ==> offset < f.next <= |buf| && f.next == offset + RecLen(|f.record.name|)
  {
    if offset + DIRENT_SIZE > |buf| then End
    else
      var n: int := buf[offset];
      if n == 0 then End
      else if offset + RecLen(n) > |buf| then Bad
      else if buf[offset + 2 + n] != 0 then Bad
      else One(Record(buf[offset + 2..offset + 2 + n], buf[offset + 1]), offset + RecLen(n))
  }

  // Every well-formed record from an offset on, and whether a malformed one ends them.
  datatype Parsed = Parsed(records: seq<Record>, bad: bool)

  function Parse(buf: seq<Byte>, offset: nat): Parsed
    decreases |buf| - offset
  {
    match Find(buf, offset)
    case End => Parsed([], false)
    case Bad => Parsed([], true)
    case One(record, next) =>
      var rest := Parse(buf, next);
      Parsed([record] + rest.records, rest.bad)
  }

  ghost predicate RecordAt(buf: seq<Byte>, offset: nat, r: Record) {
    var n := |r.name|;
    && offset + RecLen(n) <= |buf|
    && buf[offset] == n && buf[offset + 1] == r.fileType
    && buf[offset + 2..offset + 2 + n] == r.name && buf[offset + 2 + n] == 0
  }

  // The records lie one after the other from an offset on, whatever is in the padding.
  ghost predicate Laid(buf: seq<Byte>, offset: nat, records: seq<Record>)
    decreases records
  {
    if records == [] then offset + DIRENT_SIZE > |buf| || buf[offset] == 0
    else
      && RecordAt(buf, offset, records[0])
      && Laid(buf, offset + RecLen(|records[0].name|), records[1..])
  }

  /** The parser finds these records and no fault exactly when they are there. */
  lemma {:induction false} ParsesIffLaid(buf: seq<Byte>, offset: nat, records: seq<Record>)
    ensures Parse(buf, offset) == Parsed(records, false) <==> Laid(buf, offset, records)
    decreases records
  {
    var f := Find(buf, offset);
    if records != [] && f.One? {
      var rest := Parse(buf, f.next);
      ParsesIffLaid(buf, f.next, records[1..]);
      assert records == [records[0]] + records[1..];
      if Parse(buf, offset) == Parsed(records, false) {
        assert rest.records == records[1..];
      }
    }
  }

  /** Encoding and then parsing gives the records back, wherever they are and whatever follows. */
  lemma {:induction false} ParseEncode(before: seq<Byte>, records: seq<Record>, after: seq<Byte>)
    requires |after| < DIRENT_SIZE || after[0] == 0
    ensures Parse(before + Encode(records) + after, |before|) == Parsed(records, false)
    decreases records
  {
    hide EncodeOne, RecLen, Find;
    var buf := before + Encode(records) + after;
    if records != [] {
      var r, rest := records[0], records[1..];
      var longer := before + EncodeOne(r);
      assert buf == longer + Encode(rest) + after;
      assert buf[|before|..|longer|] == EncodeOne(r);
      EncodedIsFound(buf, |before|, r);
      ParseEncode(longer, rest, after);
      assert records == [r] + rest;
    } else {
      assert buf == before + after;
      EndIsFound(before, after);
    }
  }

  lemma EndIsFound(before: seq<Byte>, after: seq<Byte>)
    requires |after| < DIRENT_SIZE || after[0] == 0
    ensures Find(before + after, |before|) == End
  {
  }

  lemma EncodedIsFound(buf: seq<Byte>, offset: nat, r: Record)
    requires offset + RecLen(|r.name|) <= |buf|
    requires buf[offset..offset + RecLen(|r.name|)] == EncodeOne(r)
    ensures Find(buf, offset) == One(r, offset + RecLen(|r.name|))
  {
    hide EncodeOne, RecLen;
    var n, bytes := |r.name|, EncodeOne(r);
    EncodedBytes(r);
    forall k | 0 <= k < RecLen(n) ensures buf[offset + k] == bytes[k] {
      assert buf[offset..offset + RecLen(n)][k] == buf[offset + k];
    }
    assert buf[offset] == bytes[0] && buf[offset + 1] == bytes[1] && buf[offset + 2 + n] == bytes[2 + n];
    var name := buf[offset + 2..offset + 2 + n];
    forall k | 0 <= k < n ensures name[k] == r.name[k] {
      assert name[k] == buf[offset + (2 + k)] == bytes[2 + k];
    }
    assert name == r.name;
  }

  lemma EncodedBytes(r: Record)
    ensures var n, bytes := |r.name|, EncodeOne(r);
            && bytes[0] == n && bytes[1] == r.fileType && bytes[2 + n] == 0
            && forall k | 0 <= k < n :: bytes[2 + k] == r.name[k]
  {
  }

  // What the caller is told of a record: unknown file types are reported as such.
  datatype Entry = Entry(name: seq<Byte>, dirType: nat)

  const DT_UNKNOWN := 0
  const DT_DIR := 4
  const DT_REG := 8
  const DT_LNK := 10

  // The host's names for the types.
  const FILE_TYPE_UNKNOWN := 0
  const FILE_TYPE_REGULAR := 1
  const FILE_TYPE_DIRECTORY := 2
  const FILE_TYPE_SYMLINK := 3
  const FILE_TYPE_MAX := 4

  // prlfs_filetype_table
  const FILE_TYPE_TABLE := [DT_UNKNOWN, DT_REG, DT_DIR, DT_LNK]

  ghost function DirType(fileType: Byte): nat {
    if fileType == FILE_TYPE_REGULAR then DT_REG
    else if fileType == FILE_TYPE_DIRECTORY then DT_DIR
    else if fileType == FILE_TYPE_SYMLINK then DT_LNK
    else DT_UNKNOWN
  }

  ghost function EntryOf(r: Record): Entry {
    Entry(r.name, DirType(r.fileType))
  }

  ghost function Entries(records: seq<Record>): (es: seq<Entry>)
    ensures |es| == |records|
    ensures forall i | 0 <= i < |records| :: es[i] == EntryOf(records[i])
  {
    seq(|records|, i requires 0 <= i < |records| => EntryOf(records[i]))
  }

  lemma EntriesJoin(records: seq<Record>, a: nat, b: nat, c: nat)
    requires a <= b <= c <= |records|
    ensures Entries(records[a..b]) + Entries(records[b..c]) == Entries(records[a..c])
  {
  }

  // The caller's side: where it stands, and which of its emit callbacks have room.
  class Context {
    const accepts: nat -> bool
    var pos: nat
    var asked: nat
    var emitted: seq<Entry>

    constructor (pos: nat, accepts: nat -> bool)
      ensures this.pos == pos && asked == 0 && emitted == [] && this.accepts == accepts
    {
      this.pos, this.accepts, asked, emitted := pos, accepts, 0, [];
    }

    method Emit(entry: Entry) returns (ok: bool)
      modifies this`asked, this`emitted
      ensures ok == accepts(old(asked)) && asked == old(asked) + 1
      ensures emitted == if ok then old(emitted) + [entry] else old(emitted)
    {
      ok := accepts(asked);
      asked := asked + 1;
      if ok {
        emitted := emitted + [entry];
      }
    }
  }

  // The first n records of a page were taken, and the next one, if any, was refused.
  ghost predicate Taken(accepts: nat -> bool, asked: nat, now: nat, n: nat, all: nat) {
    && n <= all
    && (forall i | asked <= i < asked + n :: accepts(i))
    && now == (if n < all then asked + n + 1 else asked + n)
    && (n < all ==> !accepts(asked + n))
  }

  // Looks for a record at an offset.
  method ReadRecord(buf: array<Byte>, buflen: nat, offset: nat) returns (f: Found)
    requires buflen <= buf.Length
    ensures f == Find(buf[..buflen], offset)
  {
    if offset + DIRENT_SIZE > buflen {
      return End;
    }
    var nameLen: int := buf[offset];
    if nameLen == 0 {
      return End;
    }
    var recLen := RecLen(nameLen);
    if recLen + offset > buflen {
      return Bad;
    }
    if buf[offset + 2 + nameLen] != 0 {
      return Bad;
    }
    var name := buf[offset + 2..offset + 2 + nameLen];
    assert name == buf[..buflen][offset + 2..offset + 2 + nameLen];
    return One(Record(name, buf[offset + 1]), offset + recLen);
  }

  lemma ParseNext(bytes: seq<Byte>, offset: nat, page: Parsed, n: nat)
    requires n <= |page.records|
    requires Parse(bytes, offset) == Parsed(page.records[n..], page.bad)
    ensures match Find(bytes, offset)
            case End => n == |page.records| && !page.bad
            case Bad => n == |page.records| && page.bad
            case One(record, next) =>
              && n < |page.records| && record == page.records[n]
              && Parse(bytes, next) == Parsed(page.records[n + 1..], page.bad)
              && Entries(page.records[..n + 1]) == Entries(page.records[..n]) + [EntryOf(record)]
  {
    hide Find, RecLen, EntryOf, Entries;
    var f := Find(bytes, offset);
    if f.One? {
      var rest := Parse(bytes, f.next);
      assert Parse(bytes, offset) == Parsed([f.record] + rest.records, rest.bad);
      assert page.records[n..][0] == f.record && page.records[n..][1..] == rest.records;
      assert page.records[n..][1..] == page.records[n + 1..];
      EntriesNext(page.records, n);
    }
  }

  lemma EntriesNext(records: seq<Record>, n: nat)
    requires n < |records|
    ensures Entries(records[..n + 1]) == Entries(records[..n]) + [EntryOf(records[n])]
  {
  }

  // What a record tells the caller, by the table.
  method EntryFrom(r: Record) returns (entry: Entry)
    ensures entry == EntryOf(r)
  {
    var fileType: int := r.fileType;
    if fileType >= FILE_TYPE_MAX {
      fileType := FILE_TYPE_UNKNOWN;
    }
    entry := Entry(r.name, FILE_TYPE_TABLE[fileType]);
  }

  /**
    * prlfs_fill_dir, on any bytes: hands over the well-formed records in order until the caller
    * refuses one, and reports a malformed one only when it gets there.
    */
  method FillDir(ctx: Context, pos: nat, buf: array<Byte>, buflen: nat)
    returns (ret: int, next: nat, ghost n: nat)
    requires buflen <= buf.Length
    modifies ctx
    ensures var page := Parse(buf[..buflen], 0);
            && Taken(ctx.accepts, old(ctx.asked), ctx.asked, n, |page.records|)
            && ctx.emitted == old(ctx.emitted) + Entries(page.records[..n])
            && ret == if n == |page.records| && page.bad then -EINVAL else 0
    ensures next == pos + n && ctx.pos == old(ctx.pos) + n
  {
    hide Find, Parse, RecLen, Entries, EntryOf, DirType;
    ghost var bytes := buf[..buflen];
    ghost var page := Parse(bytes, 0);
    var offset := 0;
    ret, next, n := 0, pos, 0;
    while true
      invariant offset <= buflen && n <= |page.records| && buf[..buflen] == bytes
      invariant Parse(bytes, offset) == Parsed(page.records[n..], page.bad)
      invariant Taken(ctx.accepts, old(ctx.asked), ctx.asked, n, n)
      invariant ctx.emitted == old(ctx.emitted) + Entries(page.records[..n])
      invariant next == pos + n && ctx.pos == old(ctx.pos) + n && ret == 0
      decreases buflen - offset
    {
      ParseNext(bytes, offset, page, n);
      var f := ReadRecord(buf, buflen, offset);
      if f.End? {
        break;
      }
      if f.Bad? {
        ret := -EINVAL;
        break;
      }
      var entry := EntryFrom(f.record);
      var ok := ctx.Emit(entry);
      if !ok {
        break;
      }
      ctx.pos := ctx.pos + 1;
      offset := f.next;
      next := next + 1;
      n := n + 1;
    }
  }

  // What the host answers: the length of the page it filled and whether that was the last one.
  datatype Reply = Failure(errno: int) | Page(bytes: seq<Byte>, flags: nat)

  // The page holds the records from a position on: none only at the end, and the last ones if the
  // reply says so.
  ghost predicate ServesCount(dir: seq<Record>, pos: nat, reply: Reply, n: nat)
    requires reply.Page?
  {
    && pos + n <= |dir| && |reply.bytes| <= PAGE_SIZE
    && Laid(reply.bytes, 0, dir[pos..pos + n])
    && (n == 0 || reply.flags != 0 ==> pos + n == |dir|)
  }

  ghost predicate Serves(dir: seq<Record>, pos: nat, reply: Reply) {
    if reply.Failure? then reply.errno > 0
    else exists n: nat :: ServesCount(dir, pos, reply, n)
  }

  ghost predicate HostServes(host: (nat, nat) -> Reply, dir: seq<Record>) {
    forall request: nat, pos: nat | pos <= |dir| :: Serves(dir, pos, host(request, pos))
  }

  lemma Served(host: (nat, nat) -> Reply, dir: seq<Record>, request: nat, pos: nat)
    requires HostServes(host, dir) && pos <= |dir|
    ensures Serves(dir, pos, host(request, pos))
  {
  }

  ghost predicate Refused(accepts: nat -> bool, from: nat, to: nat) {
    exists i :: from <= i < to && !accepts(i)
  }

  // The host writes its page over the zeroed buffer.
  method FillBuffer(buf: array<Byte>, bytes: seq<Byte>)
    requires |bytes| <= buf.Length
    modifies buf
    ensures buf[..|bytes|] == bytes
    ensures forall i | |bytes| <= i < buf.Length :: buf[i] == 0
  {
    forall i | 0 <= i < buf.Length {
      buf[i] := if i < |bytes| then bytes[i] else 0;
    }
  }

  /**
    * prlfs_readdir. Against a host that serves the directory, the caller gets the entries from its
    * position on, each once and in order, and ends up right behind them; it gets all of them unless
    * it refuses one or the host fails.
    */
  method ReadDir(ctx: Context, host: (nat, nat) -> Reply, memory: bool, ghost dir: seq<Record>) returns (ret: int)
    requires HostServes(host, dir) && ctx.pos <= |dir|
    modifies ctx
    ensures old(ctx.pos) <= ctx.pos <= |dir| && old(ctx.asked) <= ctx.asked
    ensures ctx.emitted == old(ctx.emitted) + Entries(dir[old(ctx.pos)..ctx.pos])
    ensures ret == 0 ==> ctx.pos == |dir| || Refused(ctx.accepts, old(ctx.asked), ctx.asked)
    ensures !memory ==> ret == -ENOMEM && ctx.pos == old(ctx.pos)
    ensures memory && ret != 0 ==> exists request: nat, pos: nat ::
              host(request, pos).Failure? && ret == -host(request, pos).errno
  {
    hide Find, Parse, Laid, RecLen, Entries, EntryOf, HostServes;
    ret := 0;
    if !memory {
      return -ENOMEM;
    }
    var buf := new Byte[PAGE_SIZE];
    var offset, flags, requests := ctx.pos, 0, 0;
    while flags == 0
      invariant old(ctx.pos) <= offset <= |dir| && ctx.pos == offset && ret == 0
      invariant old(ctx.asked) <= ctx.asked
      invariant ctx.emitted == old(ctx.emitted) + Entries(dir[old(ctx.pos)..offset])
      invariant flags != 0 ==> offset == |dir| || Refused(ctx.accepts, old(ctx.asked), ctx.asked)
      decreases if flags == 0 then 1 else 0, |dir| - offset
    {
      var reply := host(requests, offset);
      requests := requests + 1;
      Served(host, dir, requests - 1, offset);
      if reply.Failure? {
        ret := -reply.errno;
        break;
      }
      flags := reply.flags;
      FillBuffer(buf, reply.bytes);
      var prevOffset := offset;
      ghost var count: nat :| ServesCount(dir, offset, reply, count);
      ghost var n;
      ParsesIffLaid(reply.bytes, 0, dir[offset..offset + count]);
      ret, offset, n := FillDir(ctx, offset, buf, |reply.bytes|);
      EntriesJoin(dir, old(ctx.pos), prevOffset, offset);
      assert dir[prevOffset..prevOffset + count][..n] == dir[prevOffset..offset];
      if ret < 0 {
        break;
      }
      if offset == prevOffset {
        break;
      }
    }
    ctx.pos := offset;
  }

  /**
    * A directory read in any number of parts, each caller taking up where the last one stopped:
    * together they get the entries from the start on, with no gap and no repeat.
    */
  method ReadInParts(parts: seq<nat -> bool>, host: (nat, nat) -> Reply, ghost dir: seq<Record>)
    returns (all: seq<Entry>, pos: nat)
    requires HostServes(host, dir)
    ensures pos <= |dir| && all == Entries(dir[..pos])
  {
    hide Laid, Entries, ServesCount;
    all, pos := [], 0;
    NoEntries(dir);
    for i := 0 to |parts|
      invariant pos <= |dir| && all == Entries(dir[0..pos])
    {
      var ctx := new Context(pos, parts[i]);
      var _ := ReadDir(ctx, host, true, dir);
      EntriesJoin(dir, 0, pos, ctx.pos);
      all, pos := all + ctx.emitted, ctx.pos;
    }
    assert dir[0..pos] == dir[..pos];
  }

  lemma NoEntries(dir: seq<Record>)
    ensures Entries(dir[0..0]) == []
  {
  }
}
