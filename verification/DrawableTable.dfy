/**
  * The drawables clients have registered: a hash table shared by all files, and for each open file
  * the list of its own. Every drawable has at most one clip buffer, and counts the GL commands that
  * looked it up since its last clip.
  */
module DrawableTable {
  import opened MachineTypes

  type Id = U32
  type File = nat
  type Buffer = nat

  const BUCKETS := 16

  datatype Option<T> = None | Some(value: T)
  datatype Entry = Entry(id: Id, owner: File, buffer: Option<Buffer>, used: U32)
  datatype Status = Ok | NoMemory | Invalid | Fault

  type Buckets = seq<seq<Entry>>
  type Flat = map<Id, Entry>

  ghost predicate HashOk(hash: Id -> nat) {
    forall id: Id :: hash(id) < BUCKETS
  }

  // The bucket holds exactly the entries the hash function sends there, each once.
  ghost predicate BucketOk(hash: Id -> nat, entries: seq<Entry>, k: nat, flat: Flat) {
    && (forall i | 0 <= i < |entries| ::
          entries[i].id in flat && flat[entries[i].id] == entries[i] && hash(entries[i].id) == k)
    && (forall i, j | 0 <= i < j < |entries| :: entries[i].id != entries[j].id)
    && (forall id | id in flat && hash(id) == k :: Listed(entries, id))
  }

  ghost predicate Listed(entries: seq<Entry>, id: Id) {
    exists i :: 0 <= i < |entries| && entries[i].id == id
  }

  // The table holds exactly this map.
  ghost predicate TableOk(hash: Id -> nat, buckets: Buckets, flat: Flat) {
    && |buckets| == BUCKETS
    && (forall id | id in flat :: flat[id].id == id)
    && forall k | 0 <= k < BUCKETS :: BucketOk(hash, buckets[k], k, flat)
  }

  // Every file lists exactly the entries it owns, each once.
  ghost predicate FileOk(list: seq<Id>, file: File, flat: Flat) {
    && (forall i, j | 0 <= i < j < |list| :: list[i] != list[j])
    && forall id :: id in list <==> id in flat && flat[id].owner == file
  }

  ghost predicate FilesOk(files: map<File, seq<Id>>, flat: Flat) {
    && (forall id | id in flat :: flat[id].owner in files)
    && forall file | file in files :: FileOk(files[file], file, flat)
  }

  lemma BucketElsewhere(hash: Id -> nat, entries: seq<Entry>, k: nat, flat: Flat, now: Flat, id: Id)
    requires BucketOk(hash, entries, k, flat) && hash(id) != k
    requires forall x | x != id :: (x in now <==> x in flat) && (x in flat ==> now[x] == flat[x])
    ensures BucketOk(hash, entries, k, now)
  {
  }

  /** A new entry at the head of its bucket adds it to the map. */
  lemma TableAdd(hash: Id -> nat, buckets: Buckets, flat: Flat, entry: Entry)
    requires HashOk(hash) && TableOk(hash, buckets, flat) && entry.id !in flat
    ensures var k := hash(entry.id);
            TableOk(hash, buckets[k := [entry] + buckets[k]], flat[entry.id := entry])
  {
    var h := hash(entry.id);
    var longer, now := [entry] + buckets[h], flat[entry.id := entry];
    forall id | id in now && hash(id) == h ensures Listed(longer, id) {
      if id == entry.id {
        assert longer[0].id == id;
      } else {
        var i :| 0 <= i < |buckets[h]| && buckets[h][i].id == id;
        assert longer[i + 1].id == id;
      }
    }
    assert BucketOk(hash, buckets[h], h, flat);
    assert BucketOk(hash, longer, h, now);
    forall k | 0 <= k < BUCKETS && k != h ensures BucketOk(hash, buckets[k], k, now) {
      BucketElsewhere(hash, buckets[k], k, flat, now, entry.id);
    }
  }

  /** Unlinking an entry from its bucket removes it from the map. */
  lemma TableRemove(hash: Id -> nat, buckets: Buckets, flat: Flat, id: Id, i: nat)
    requires HashOk(hash) && TableOk(hash, buckets, flat)
    requires i < |buckets[hash(id)]| && buckets[hash(id)][i].id == id
    ensures var k := hash(id);
            TableOk(hash, buckets[k := buckets[k][..i] + buckets[k][i + 1..]], flat - {id})
  {
    var h := hash(id);
    var entries := buckets[h];
    var shorter, now := entries[..i] + entries[i + 1..], flat - {id};
    assert BucketOk(hash, entries, h, flat);
    forall x | x in now && hash(x) == h ensures Listed(shorter, x) {
      var j :| 0 <= j < |entries| && entries[j].id == x;
      assert shorter[if j < i then j else j - 1].id == x;
    }
    assert BucketOk(hash, shorter, h, now);
    forall k | 0 <= k < BUCKETS && k != h ensures BucketOk(hash, buckets[k], k, now) {
      BucketElsewhere(hash, buckets[k], k, flat, now, id);
    }
  }

  /** Changing an entry in place changes it in the map. */
  lemma TableSet(hash: Id -> nat, buckets: Buckets, flat: Flat, i: nat, entry: Entry)
    requires HashOk(hash) && TableOk(hash, buckets, flat)
    requires i < |buckets[hash(entry.id)]| && buckets[hash(entry.id)][i].id == entry.id
    ensures var k := hash(entry.id);
            TableOk(hash, buckets[k := buckets[k][i := entry]], flat[entry.id := entry])
  {
    var h := hash(entry.id);
    var entries := buckets[h];
    var changed, now := entries[i := entry], flat[entry.id := entry];
    assert BucketOk(hash, entries, h, flat);
    forall x | x in now && hash(x) == h ensures Listed(changed, x) {
      var j :| 0 <= j < |entries| && entries[j].id == x;
      assert changed[j].id == x;
    }
    assert BucketOk(hash, changed, h, now);
    forall k | 0 <= k < BUCKETS && k != h ensures BucketOk(hash, buckets[k], k, now) {
      BucketElsewhere(hash, buckets[k], k, flat, now, entry.id);
    }
  }

  lemma FilesAdd(files: map<File, seq<Id>>, flat: Flat, entry: Entry)
    requires FilesOk(files, flat) && entry.id !in flat && entry.owner in files
    ensures FilesOk(files[entry.owner := [entry.id] + files[entry.owner]], flat[entry.id := entry])
  {
  }

  lemma FilesRemove(files: map<File, seq<Id>>, flat: Flat, id: Id, i: nat)
    requires FilesOk(files, flat) && id in flat
    requires i < |files[flat[id].owner]| && files[flat[id].owner][i] == id
    ensures var list := files[flat[id].owner];
            FilesOk(files[flat[id].owner := list[..i] + list[i + 1..]], flat - {id})
  {
  }

  lemma FilesSet(files: map<File, seq<Id>>, flat: Flat, entry: Entry)
    requires FilesOk(files, flat) && entry.id in flat && flat[entry.id].owner == entry.owner
    ensures FilesOk(files, flat[entry.id := entry])
  {
  }

  lemma OwnedListed(files: map<File, seq<Id>>, flat: Flat, file: File)
    requires FilesOk(files, flat) && file in files
    ensures forall id :: id in files[file] <==> id in flat && flat[id].owner == file
  {
  }

  lemma FilesClose(files: map<File, seq<Id>>, flat: Flat, file: File)
    requires FilesOk(files, flat) && file in files && files[file] == []
    ensures FilesOk(files - {file}, flat)
  {
  }

  // What GL commands and clips have seen of a drawable since it was created.
  datatype Tally = Tally(lookups: nat, reported: nat)

  ghost predicate Balanced(tally: Tally, used: U32) {
    (tally.reported + used) % 0x1_0000_0000 == tally.lookups % 0x1_0000_0000
  }

  ghost predicate TallyOk(tallies: map<Id, Tally>, flat: Flat) {
    forall id | id in flat :: id in tallies && Balanced(tallies[id], flat[id].used)
  }

  lemma LookupBalances(tally: Tally, used: U32)
    requires Balanced(tally, used)
    ensures Balanced(tally.(lookups := tally.lookups + 1), (used + 1) % 0x1_0000_0000)
  {
  }

  /** What a clip reports next is what was looked up and not yet reported, if that fits 32 bits. */
  lemma UsedIsUnreported(tally: Tally, used: U32)
    requires Balanced(tally, used) && tally.reported <= tally.lookups < tally.reported + 0x1_0000_0000
    ensures used == tally.lookups - tally.reported
  {
  }

  lemma TallySet(tallies: map<Id, Tally>, flat: Flat, entry: Entry, tally: Tally)
    requires TallyOk(tallies, flat) && Balanced(tally, entry.used)
    ensures TallyOk(tallies[entry.id := tally], flat[entry.id := entry])
  {
  }

  lemma TallyRemove(tallies: map<Id, Tally>, flat: Flat, id: Id)
    requires TallyOk(tallies, flat)
    ensures TallyOk(tallies, flat - {id})
  {
  }

  class Table {
    const hash: Id -> nat
    const buckets: array<seq<Entry>>
    var files: map<File, seq<Id>>      // hash_list of every open file
    ghost var flat: Flat
    ghost var tallies: map<Id, Tally>

    ghost predicate Valid()
      reads this, buckets
    {
      && HashOk(hash)
      && buckets.Length == BUCKETS
      && TableOk(hash, buckets[..], flat)
      && FilesOk(files, flat)
      && TallyOk(tallies, flat)
    }

    constructor (hash: Id -> nat)
      requires HashOk(hash)
      ensures Valid() && fresh(buckets)
      ensures flat == map[] && files == map[]
    {
      this.hash := hash;
      buckets := new seq<Entry>[BUCKETS](_ => []);
      files, flat, tallies := map[], map[], map[];
    }

    method Open(file: File)
      requires Valid() && file !in files
      modifies this`files
      ensures Valid() && files == old(files)[file := []]
    {
      files := files[file := []];
      forall f | f in files ensures FileOk(files[f], f, flat) {
      }
    }

    /** Walks the bucket of an id: finds its entry exactly when the map has one. */
    method Find(id: Id) returns (i: int)
      requires Valid()
      ensures hash(id) < buckets.Length
      ensures i < 0 <==> id !in flat
      ensures id in flat ==>
        i < |buckets[hash(id)]| && buckets[hash(id)][i] == flat[id] && flat[id].id == id
    {
      var entries := buckets[hash(id)];
      assert BucketOk(hash, buckets[..][hash(id)], hash(id), flat);
      for j := 0 to |entries|
        invariant forall k | 0 <= k < j :: entries[k].id != id
      {
        if entries[j].id == id {
          return j;
        }
      }
      return -1;
    }

    // Puts an entry in place of the one the map has for its id, with what is known of its lookups.
    method Update(i: nat, entry: Entry, ghost tally: Tally)
      requires Valid() && entry.id in flat && entry.owner == flat[entry.id].owner
      requires i < |buckets[hash(entry.id)]| && buckets[hash(entry.id)][i].id == entry.id
      requires Balanced(tally, entry.used)
      modifies this`flat, this`tallies, buckets
      ensures Valid()
      ensures flat == old(flat)[entry.id := entry] && tallies == old(tallies)[entry.id := tally]
    {
      hide TableOk, FilesOk, TallyOk, BucketOk;
      TableSet(hash, buckets[..], flat, i, entry);
      FilesSet(files, flat, entry);
      TallySet(tallies, flat, entry, tally);
      ghost var was := buckets[..];
      buckets[hash(entry.id)] := buckets[hash(entry.id)][i := entry];
      assert buckets[..] == was[hash(entry.id) := was[hash(entry.id)][i := entry]];
      flat, tallies := flat[entry.id := entry], tallies[entry.id := tally];
    }

    // Unlinks an entry from its bucket and from the list of its file, where it is the j-th.
    method Unlink(i: nat, j: nat, id: Id)
      requires Valid() && id in flat && flat[id].owner in files
      requires i < |buckets[hash(id)]| && buckets[hash(id)][i] == flat[id] && flat[id].id == id
      requires j < |files[flat[id].owner]| && files[flat[id].owner][j] == id
      modifies this`flat, this`files, buckets
      ensures Valid() && flat == old(flat) - {id}
      ensures var list := old(files[flat[id].owner]);
              files == old(files)[old(flat[id].owner) := list[..j] + list[j + 1..]]
    {
      hide TableOk, FilesOk, TallyOk, BucketOk;
      TableRemove(hash, buckets[..], flat, id, i);
      FilesRemove(files, flat, id, j);
      TallyRemove(tallies, flat, id);
      ghost var was := buckets[..];
      var entries, owner := buckets[hash(id)], buckets[hash(id)][i].owner;
      buckets[hash(id)] := entries[..i] + entries[i + 1..];
      assert buckets[..] == was[hash(id) := entries[..i] + entries[i + 1..]];
      files := files[owner := files[owner][..j] + files[owner][j + 1..]];
      flat := flat - {id};
    }

    /** Ids are unique over all buckets and all files. */
    method CreateDrawable(file: File, id: Id, memory: bool) returns (status: Status)
      requires Valid() && file in files
      modifies this, buckets
      ensures Valid()
      ensures status == if !memory then NoMemory else if id in old(flat) then Invalid else Ok
      ensures flat == if status.Ok? then old(flat)[id := Entry(id, file, None, 0)] else old(flat)
      ensures tallies == if status.Ok? then old(tallies)[id := Tally(0, 0)] else old(tallies)
    {
      hide TableOk, FilesOk, TallyOk, BucketOk;
      if !memory {
        return NoMemory;
      }
      var i := Find(id);
      if i >= 0 {
        return Invalid;
      }
      var entry := Entry(id, file, None, 0);
      TableAdd(hash, buckets[..], flat, entry);
      FilesAdd(files, flat, entry);
      TallySet(tallies, flat, entry, Tally(0, 0));
      ghost var was := buckets[..];
      buckets[hash(id)] := [entry] + buckets[hash(id)];
      assert buckets[..] == was[hash(id) := [entry] + was[hash(id)]];
      files := files[file := [id] + files[file]];
      flat, tallies := flat[id := entry], tallies[id := Tally(0, 0)];
      return Ok;
    }

    /** Only the owner destroys a drawable; the caller is left with its buffer. */
    method DestroyDrawable(file: File, id: Id) returns (status: Status, last: Option<Buffer>)
      requires Valid() && file in files
      modifies this, buckets
      ensures Valid() && tallies == old(tallies)
      ensures status.Ok? <==> id in old(flat) && old(flat)[id].owner == file
      ensures status.Ok? ==> flat == old(flat) - {id} && last == old(flat)[id].buffer
      ensures !status.Ok? ==> status.Invalid? && flat == old(flat) && last == None
    {
      hide TableOk, TallyOk, BucketOk;
      var i := Find(id);
      if i >= 0 && buckets[hash(id)][i].owner == file {
        last := buckets[hash(id)][i].buffer;
        assert FileOk(files[file], file, flat);
        var j :| 0 <= j < |files[file]| && files[file][j] == id;
        Unlink(i, j, id);
        return Ok, last;
      }
      return Invalid, None;
    }

    /**
      * A clip puts a new buffer in place of the last one, which the caller is left with, and reports
      * how many commands have looked the drawable up since the last clip.
      */
    method ClipDrawable(file: File, id: Id, buffer: Option<Buffer>, copied: bool)
      returns (status: Status, used: U32, last: Option<Buffer>)
      requires Valid() && file in files
      modifies this, buckets
      ensures Valid() && files == old(files)
      ensures status ==
        if buffer.None? then NoMemory
        else if !copied then Fault
        else if id in old(flat) && old(flat)[id].owner == file then Ok
        else Invalid
      ensures status.Ok? ==>
        && used == old(flat)[id].used && last == old(flat)[id].buffer
        && flat == old(flat)[id := Entry(id, file, buffer, 0)]
        && id in old(tallies)
        && tallies == old(tallies)[id := old(tallies)[id].(reported := old(tallies)[id].reported + used)]
      ensures !status.Ok? ==> used == 0 && last == None && flat == old(flat) && tallies == old(tallies)
    {
      hide TableOk, FilesOk, BucketOk, FileOk;
      used, last := 0, None;
      if buffer.None? {
        return NoMemory, used, last;
      }
      if !copied {
        return Fault, used, last;
      }
      var i := Find(id);
      if i >= 0 && buckets[hash(id)][i].owner == file {
        var entry := buckets[hash(id)][i];
        last, used := entry.buffer, entry.used;
        ghost var tally := tallies[id];
        Update(i, entry.(buffer := buffer, used := 0), tally.(reported := tally.reported + used));
        return Ok, used, last;
      }
      return Invalid, used, last;
    }

    /** A GL command of the right shape, four buffers and three inline words of which the last names a
        drawable, is given the drawable's clip buffer and is counted. Any other is left alone. */
    method Replace(buffers: nat, inline: seq<U32>, inlineBytes: nat) returns (buffer: Option<Buffer>)
      requires Valid() && inlineBytes <= 4 * |inline|
      modifies this, buckets
      ensures Valid() && files == old(files)
      ensures var named := buffers == 4 && inlineBytes >= 12 && inline[2] in old(flat);
              if named then
                var id := inline[2];
                && buffer == old(flat)[id].buffer && id in old(tallies)
                && flat == old(flat)[id := old(flat)[id].(used := (old(flat)[id].used + 1) % 0x1_0000_0000)]
                && tallies == old(tallies)[id := old(tallies)[id].(lookups := old(tallies)[id].lookups + 1)]
              else
                buffer == None && flat == old(flat) && tallies == old(tallies)
    {
      if buffers != 4 {
        return None;
      }
      if inlineBytes < 12 {
        return None;
      }
      buffer := LookUp(inline[2]);
    }

    /** The table section of such a command. */
    method LookUp(id: Id) returns (buffer: Option<Buffer>)
      requires Valid()
      modifies this, buckets
      ensures Valid() && files == old(files)
      ensures id in old(flat) ==>
        && buffer == old(flat)[id].buffer && id in old(tallies)
        && flat == old(flat)[id := old(flat)[id].(used := (old(flat)[id].used + 1) % 0x1_0000_0000)]
        && tallies == old(tallies)[id := old(tallies)[id].(lookups := old(tallies)[id].lookups + 1)]
      ensures id !in old(flat) ==> buffer == None && flat == old(flat) && tallies == old(tallies)
    {
      hide TableOk, FilesOk, BucketOk, FileOk, Balanced;
      var i := Find(id);
      if i < 0 {
        return None;
      }
      var entry := buckets[hash(id)][i];
      ghost var tally := tallies[id];
      var used := (entry.used + 1) % 0x1_0000_0000;
      LookupBalances(tally, entry.used);
      Update(i, entry.(used := used), tally.(lookups := tally.lookups + 1));
      return entry.buffer;
    }

    // Removes the first drawable of a file.
    method ReleaseFirst(file: File) returns (buffer: Option<Buffer>)
      requires Valid() && file in files && files[file] != []
      modifies this, buckets
      ensures Valid() && tallies == old(tallies)
      ensures files == old(files)[file := old(files)[file][1..]]
      ensures var id := old(files)[file][0];
              id in old(flat) && flat == old(flat) - {id} && buffer == old(flat)[id].buffer
    {
      hide TableOk, TallyOk, BucketOk, FilesOk;
      OwnedListed(files, flat, file);
      var id := files[file][0];
      assert id in files[file];
      var i := Find(id);
      buffer := buckets[hash(id)][i].buffer;
      ghost var list := files[file];
      Unlink(i, 0, id);
      assert list[..0] + list[1..] == list[1..];
    }

    /** Closing a file removes exactly its own drawables; the caller drops their buffers. */
    method Release(file: File) returns (dropped: seq<Option<Buffer>>)
      requires Valid() && file in files
      modifies this, buckets
      ensures Valid() && files == old(files) - {file} && tallies == old(tallies)
      ensures flat == map id | id in old(flat) && old(flat)[id].owner != file :: old(flat)[id]
      ensures |dropped| == |old(files)[file]|
      ensures forall k | 0 <= k < |dropped| ::
                old(files)[file][k] in old(flat) && dropped[k] == old(flat)[old(files)[file][k]].buffer
    {
      hide TableOk, TallyOk, BucketOk, FilesOk, HashOk;
      dropped := [];
      ghost var list := files[file];
      OwnedListed(files, flat, file);
      while files[file] != []
        invariant Valid() && tallies == old(tallies)
        invariant |dropped| <= |list| && files == old(files)[file := list[|dropped|..]]
        invariant flat == old(flat) - (set id | id in list[..|dropped|])
        invariant forall k | 0 <= k < |dropped| :: dropped[k] == old(flat)[list[k]].buffer
        decreases |list| - |dropped|
      {
        ghost var n := |dropped|;
        var buffer := ReleaseFirst(file);
        assert list[..n + 1] == list[..n] + [list[n]];
        assert list[n..][1..] == list[n + 1..];
        dropped := dropped + [buffer];
      }
      OwnedListed(files, flat, file);
      assert list[..|dropped|] == list;
      FilesClose(files, flat, file);
      files := files - {file};
    }
  }
}
