/**
  * The one host handle behind all opens of a file: the first open gets it, with as much access as
  * the host grants; later opens share it; the last release gives it back.
  */
module SharedHandle {
  import opened MachineTypes

  // Open flags: the two access bits, O_APPEND, and the others.
  datatype Flags = Flags(wronly: bool, rdwr: bool, append: bool, others: nat) {
    function AccessMode(): Access {
      Access(wronly, rdwr)
    }
  }

  datatype Access = Access(wronly: bool, rdwr: bool) {
    ghost predicate MayRead() {
      rdwr || !wronly
    }

    ghost predicate MayWrite() {
      rdwr || wronly
    }
  }

  const READ_ONLY := Access(false, false)
  const WRITE_ONLY := Access(true, false)
  const READ_WRITE := Access(false, true)

  // A handle opened with this access serves a file opened with that one: whatever the file may do
  // the handle may do.
  ghost predicate Grants(handle: Access, file: Access) {
    (file.MayRead() ==> handle.MayRead()) && (file.MayWrite() ==> handle.MayWrite())
  }

  // The access asked for in the k-th request of a first open.
  ghost function Attempt(k: nat): Access {
    if k == 0 then READ_WRITE else if k == 1 then READ_ONLY else WRITE_ONLY
  }

  // The host's answer to the k-th request of an open: 0, or a negative error.
  type Host = nat -> int

  // The requests of a first open: on to the next as long as the host does not permit one.
  ghost function Requests(host: Host): (n: nat)
    ensures 1 <= n <= 3
  {
    if host(0) != -EPERM then 1 else if host(1) != -EPERM then 2 else 3
  }

  datatype User = User(access: Access, first: bool)

  class Inode {
    var fd: nat
    var counter: nat
    var access: Access
    ghost var users: seq<User>        // the files that have it open
    ghost var handles: set<nat>  // host handles opened and not asked to be released

    ghost predicate Valid()
      reads this
    {
      && counter == |users|
      && handles == (if counter > 0 then {fd} else {})
      && (counter > 0 ==> access == READ_WRITE || access == READ_ONLY || access == WRITE_ONLY)
      && (forall i | 0 <= i < |users| :: users[i].first || Grants(access, users[i].access))
      && (forall j | 0 < j < |users| :: !users[j].first)
    }

    constructor ()
      ensures Valid() && users == []
    {
      fd, counter, access, users, handles := 0, 0, READ_ONLY, [], {};
    }

    // Asks the host for a handle, with less access each time it does not permit more.
    method OpenHost(flags: Flags, host: Host) returns (ret: int, granted: Access, requests: nat)
      ensures requests == Requests(host) && ret == host(requests - 1)
      ensures granted == Attempt(requests - 1)
    {
      var open := flags.(rdwr := true, wronly := false, append := false);
      requests := 0;
      while true
        invariant requests <= 2
        invariant forall k | 0 <= k < requests :: host(k) == -EPERM
        invariant open.AccessMode() == Attempt(requests)
        decreases 3 - requests
      {
        ret := host(requests);
        requests := requests + 1;
        if ret < 0 && ret == -EPERM {
          if open.rdwr {
            open := open.(rdwr := false);
            continue;
          } else if !(open.rdwr || open.wronly) {
            open := open.(wronly := true);
            continue;
          }
        }
        break;
      }
      granted := open.AccessMode();
    }

    /**
      * prlfs_open. `path` is 0, or why the path could not be made; `update` is what refreshing the
      * page cache answers. An open that finds a handle is let in exactly when the handle serves it.
      * The books stay right exactly when no refresh fails after the host has opened the file: that
      * open is reported as failed, but counted.
      */
    method Open(flags: Flags, memory: bool, path: int, host: Host, newFd: nat, update: int)
      returns (ret: int, requests: nat)
      requires Valid() && path <= 0 && update <= 0 && forall k :: host(k) <= 0
      modifies this
      ensures old(counter) > 0 ==>
        && requests == 0 && fd == old(fd) && access == old(access)
        && ret == (if Grants(access, flags.AccessMode()) then 0 else -EACCES)
      ensures old(counter) == 0 ==> requests <= 3 && (requests > 0 <==> memory && path == 0)
      ensures old(counter) == 0 && requests > 0 ==>
        && requests == Requests(host)
        && ret == (if host(requests - 1) < 0 then host(requests - 1) else update)
        && (host(requests - 1) == 0 ==> counter == 1 && fd == newFd && access == Attempt(requests - 1))
      ensures users == if ret == 0 then old(users) + [User(flags.AccessMode(), old(counter) == 0)] else old(users)
      ensures Valid() <==> !(requests > 0 && host(requests - 1) == 0 && update < 0)
    {
      requests := 0;
      if counter > 0 {
        if access != READ_WRITE && flags.AccessMode() != access {
          return -EACCES, 0;
        }
        counter := counter + 1;
        users := users + [User(flags.AccessMode(), false)];
        return 0, 0;
      }
      if !memory {
        return -ENOMEM, 0;
      }
      if path < 0 {
        return path, 0;
      }
      var granted;
      ret, granted, requests := OpenHost(flags, host);
      if ret < 0 {
        return;
      }
      fd, counter, access := newFd, 1, granted;
      handles := {newFd};
      ret := update;
      if ret == 0 {
        users := [User(flags.AccessMode(), true)];
      }
    }

    /**
      * prlfs_release of the i-th user: the last one asks the host to release exactly the handle in
      * use, whatever the host then answers.
      */
    method Release(hostAnswer: int, ghost i: nat) returns (ret: int, ghost asked: set<nat>)
      requires Valid() && i < |users|
      modifies this
      ensures Valid() && users == old(users)[..i] + old(users)[i + 1..]
      ensures handles == old(handles) - asked
      ensures asked == if users == [] then {old(fd)} else {}
      ensures ret == if users == [] then hostAnswer else 0
      ensures users != [] ==> fd == old(fd) && access == old(access)
    {
      ret, asked := 0, {};
      if counter == 1 {
        ret := hostAnswer;
        asked := {fd};
      }
      counter := counter - 1;
      users := users[..i] + users[i + 1..];
      handles := handles - asked;
    }
  }

  /**
    * The first open is not checked against what it got: it has the access it asked for exactly when
    * the host permits both, or permits just that and no more was to be had.
    */
  lemma FirstOpenServedIff(flags: Flags, host: Host)
    requires host(Requests(host) - 1) == 0
    ensures Grants(Attempt(Requests(host) - 1), flags.AccessMode()) <==>
              || host(0) == 0
              || (host(0) == -EPERM && host(1) == 0 && flags.AccessMode() == READ_ONLY)
              || (host(0) == -EPERM && host(1) == -EPERM && flags.AccessMode() == WRITE_ONLY)
  {
  }

  // The host permits some accesses to a file, and answers accordingly.
  ghost function Permitting(permits: Access -> bool): (host: Host)
    ensures forall k :: host(k) == if permits(Attempt(k)) then 0 else -EPERM
  {
    (k: nat) => if permits(Attempt(k)) then 0 else -EPERM
  }

  /**
    * Of a file that may be read and written whenever it may be opened for both, a first open that
    * succeeds is served exactly when its access is permitted, except for a write-only open of a file
    * that may be read but not opened for both: it gets a handle for reading.
    */
  lemma PermittedOpenServedIff(flags: Flags, permits: Access -> bool)
    requires permits(READ_WRITE) ==> permits(READ_ONLY) && permits(WRITE_ONLY)
    requires flags.AccessMode() in {READ_ONLY, WRITE_ONLY, READ_WRITE}
    requires var host := Permitting(permits); host(Requests(host) - 1) == 0
    ensures var own, host := flags.AccessMode(), Permitting(permits);
            Grants(Attempt(Requests(host) - 1), own) <==>
              permits(own) && !(own == WRITE_ONLY && permits(READ_ONLY) && !permits(READ_WRITE))
  {
    var host := Permitting(permits);
    assert host(0) == 0 <==> permits(READ_WRITE);
    assert host(1) == 0 <==> permits(READ_ONLY);
    assert host(2) == 0 <==> permits(WRITE_ONLY);
  }

  /** A first open whose page-cache refresh fails is reported as failed, but leaves a host handle
      behind a count of one that no user will release. */
  method FailedRefreshLeavesHandle() returns (inode: Inode, ret: int)
    ensures fresh(inode) && ret < 0 && inode.users == [] && inode.counter == 1 && !inode.Valid()
  {
    inode := new Inode();
    var requests;
    ret, requests := inode.Open(Flags(false, false, false, 0), true, 0, _ => 0, 7, -ENOMEM);
  }

  /** So a file opened for writing can be left with a handle for reading. */
  lemma WriterGetsReader(host: Host)
    requires host(0) == -EPERM && host(1) == 0
    ensures !Grants(Attempt(Requests(host) - 1), Flags(true, false, false, 0).AccessMode())
  {
  }
}
