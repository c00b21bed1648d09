/** The file descriptor table of the HAL: first-free allocation, the high-water mark, and locking a
    device for exclusive use. */
module FdTable {
  const MAX_FD: nat := 32
  const EMFILE: int := 24
  const EACCES: int := 13
  const ENODEV: int := 19
  const ENOTTY: int := 25
  const EBADFD: int := 81

  /** Devices are numbered from 1; 0 stands for no device. The two flags the HAL keeps for itself are
      separate from the caller's open flags. */
  datatype Slot = Slot(dev: nat, excl: bool, isDev: bool, flags: nat)

  const FREE := Slot(0, false, false, 0)

  datatype Table = Table(slots: seq<Slot>, maxFd: int)

  // ----- the operations as functions

  function FirstFree(slots: seq<Slot>, i: nat): (f: nat)
    requires i <= |slots|
    ensures i <= f <= |slots|
    ensures forall k :: i <= k < f ==> slots[k].dev != 0
    ensures f < |slots| ==> slots[f].dev == 0
    decreases |slots| - i
  {
    if i == |slots| || slots[i].dev == 0 then i else FirstFree(slots, i + 1)
  }

  /** Some other slot up to the mark holds the device with the exclusive flag. */
  predicate Locked(t: Table, fd: nat)
    requires fd < |t.slots| && t.maxFd < |t.slots|
  {
    exists i :: 0 <= i <= t.maxFd && i != fd && t.slots[i].dev == t.slots[fd].dev && t.slots[i].excl
  }

  function Release(t: Table, fd: int): Table
    requires fd < |t.slots|
  {
    if fd > 2 then t.(slots := t.slots[fd := t.slots[fd].(dev := 0, excl := false, isDev := false, flags := 0)]) else t
  }

  /** Descriptor and table after open. `dev` is the device or file system found under the name, 0 if
      none; `status` is what its own open routine returns. */
  function Open(t: Table, dev: nat, isFs: bool, flags: nat, status: int): (r: (int, Table))
    requires t.maxFd < |t.slots|
    ensures |r.1.slots| == |t.slots|
  {
    var fd := FirstFree(t.slots, 0);
    if dev == 0 then (-ENODEV, t)
    else if fd == |t.slots| then (-EMFILE, t)
    else
      var t1 := Table(t.slots[fd := Slot(dev, false, !isFs, flags)], if fd > t.maxFd then fd else t.maxFd);
      if !isFs && Locked(t1, fd) then (-EACCES, Release(t1, fd))
      else if status < 0 then (status, Release(t1, fd))
      else (fd, t1)
  }

  /** The lock request as it arrives through ioctl; it is the driver's business when the slot is not
      marked as a device. */
  function Lock(t: Table, fd: nat): (int, Table)
    requires fd < |t.slots| && t.maxFd < |t.slots|
  {
    if !t.slots[fd].isDev then (-ENOTTY, t)
    else if SharedBelowMark(t, fd) then (-EACCES, t)
    else (0, t.(slots := t.slots[fd := t.slots[fd].(excl := true)]))
  }

  /** The scan of the lock routine: it stops one slot short of the mark. */
  predicate SharedBelowMark(t: Table, fd: nat)
    requires fd < |t.slots| && t.maxFd < |t.slots|
  {
    exists i :: 0 <= i < t.maxFd && i != fd && t.slots[i].dev == t.slots[fd].dev
  }

  function Unlock(t: Table, fd: nat): Table
    requires fd < |t.slots|
  {
    if t.slots[fd].isDev then t.(slots := t.slots[fd := t.slots[fd].(excl := false)]) else t
  }

  // ----- the table as an object

  class Files {
    const slots: array<Slot>
    var maxFd: int

    ghost predicate Valid()
      reads this
    {
      slots.Length == MAX_FD && -1 <= maxFd < MAX_FD
    }

    ghost function View(): Table
      reads this, slots
    {
      Table(slots[..], maxFd)
    }

    constructor (nullDev: nat)
      requires nullDev != 0
      ensures Valid() && fresh(slots) && maxFd == -1
      ensures forall i :: 0 <= i < MAX_FD ==>
                slots[i] == if i < 3 then Slot(nullDev, false, false, 0) else FREE
    {
      slots := new Slot[MAX_FD](i => if i < 3 then Slot(nullDev, false, false, 0) else FREE);
      maxFd := -1;
    }

    /** First free slot; the mark is raised. */
    method GetFd(dev: nat) returns (fd: int)
      requires Valid() && dev != 0
      modifies this`maxFd, slots
      ensures Valid()
      ensures var f := FirstFree(old(slots[..]), 0);
              if f == MAX_FD then fd == -EMFILE && View() == old(View())
              else fd == f && slots[..] == old(slots[..])[f := old(slots[f]).(dev := dev)]
                   && maxFd == if f > old(maxFd) then f else old(maxFd)
    {
      var i := 0;
      while i < MAX_FD
        invariant i <= MAX_FD && View() == old(View())
        invariant FirstFree(slots[..], 0) == FirstFree(slots[..], i)
      {
        if slots[i].dev == 0 {
          slots[i] := slots[i].(dev := dev);
          if i > maxFd {
            maxFd := i;
          }
          return i;
        }
        i := i + 1;
      }
      fd := -EMFILE;
    }

    method ReleaseFd(fd: int)
      requires Valid() && fd < MAX_FD
      modifies slots
      ensures View() == Release(old(View()), fd)
    {
      if fd > 2 {
        slots[fd] := slots[fd].(dev := 0, excl := false, isDev := false, flags := 0);
      }
    }

    /** Marks the slot as a device and looks for a lock, up to and including the mark. */
    method FileLocked(fd: nat) returns (rc: int)
      requires Valid() && fd < MAX_FD && fd <= maxFd
      modifies slots
      ensures slots[..] == old(slots[..])[fd := old(slots[fd]).(isDev := true)]
      ensures rc == if Locked(View(), fd) then -EACCES else 0
    {
      slots[fd] := slots[fd].(isDev := true);
      var i := 0;
      while i <= maxFd
        invariant 0 <= i <= maxFd + 1
        invariant slots[..] == old(slots[..])[fd := old(slots[fd]).(isDev := true)]
        invariant forall k :: 0 <= k < i && k != fd ==> !(slots[k].dev == slots[fd].dev && slots[k].excl)
      {
        if slots[i].dev == slots[fd].dev && slots[i].excl && i != fd {
          assert View().slots[i] == slots[i];
          return -EACCES;
        }
        i := i + 1;
      }
      rc := 0;
    }

    method OpenFile(dev: nat, isFs: bool, flags: nat, openStatus: int) returns (r: int, errno: int)
      requires Valid()
      modifies this`maxFd, slots
      ensures Valid()
      ensures var (rc, t) := Open(old(View()), dev, isFs, flags, openStatus);
              && slots[..] == t.slots
              && (rc >= 0 ==> r == rc && errno == 0 && maxFd == t.maxFd)
              && (rc < 0 ==> r == -1 && errno == -rc && maxFd == t.maxFd)
    {
      var index, status := -1, -ENODEV;
      ghost var t := View();
      ghost var f := FirstFree(t.slots, 0);
      if dev != 0 {
        index := GetFd(dev);
        if index < 0 {
          status := index;
        } else {
          slots[index] := slots[index].(flags := flags, excl := false, isDev := false);
          status := 0;
          if !isFs {
            status := FileLocked(index);
          }
          assert View() == Table(t.slots[f := Slot(dev, false, !isFs, flags)], if f > t.maxFd then f else t.maxFd);
          if status >= 0 {
            status := openStatus;
          }
        }
      }
      if status < 0 {
        ReleaseFd(index);
        return -1, -status;
      }
      return index, 0;
    }

    method FdLock(fd: nat) returns (rc: int)
      requires Valid() && fd < MAX_FD
      modifies slots
      ensures rc == Lock(old(View()), fd).0 && View() == Lock(old(View()), fd).1
    {
      if !slots[fd].isDev {
        return -ENOTTY;
      }
      var i := 0;
      while i < maxFd
        invariant 0 <= i && (i <= maxFd || i == 0) && View() == old(View())
        invariant forall k :: 0 <= k < i && k != fd ==> slots[k].dev != slots[fd].dev
      {
        if i != fd && slots[i].dev == slots[fd].dev {
          assert View().slots[i] == slots[i];
          return -EACCES;
        }
        i := i + 1;
      }
      slots[fd] := slots[fd].(excl := true);
      rc := 0;
    }

    method FdUnlock(fd: nat)
      requires Valid() && fd < MAX_FD
      modifies slots
      ensures View() == Unlock(old(View()), fd)
    {
      if slots[fd].isDev {
        slots[fd] := slots[fd].(excl := false);
      }
    }

    /** `closeStatus` is what the device's own close routine returns. */
    method CloseFile(fildes: int, closeStatus: int) returns (r: int, errno: int)
      requires Valid() && fildes < MAX_FD
      requires fildes >= 0 ==> slots[fildes].dev != 0
      modifies slots
      ensures fildes < 0 ==> r == -1 && errno == 81 && View() == old(View())
      ensures fildes >= 0 ==> View() == Release(old(View()), fildes)
      ensures fildes >= 0 ==> if closeStatus < 0 then r == -1 && errno == -closeStatus else r == 0 && errno == 0
    {
      if fildes < 0 {
        return -1, EBADFD;
      }
      ReleaseFd(fildes);
      if closeStatus < 0 {
        return -1, -closeStatus;
      }
      return 0, 0;
    }
  }

  // ----- the invariant

  /** The standard slots are taken, free slots carry no flags, no used slot above 2 is above the mark,
      and the flags of file systems and devices do not mix: a locked slot is marked as a device. */
  predicate Inv(t: Table, isFs: set<nat>) {
    && |t.slots| == MAX_FD && -1 <= t.maxFd < MAX_FD
    && (forall i :: 0 <= i < 3 ==> t.slots[i].dev != 0)
    && (forall i :: 0 <= i < MAX_FD && t.slots[i].dev == 0 ==> t.slots[i] == FREE)
    && (forall i :: 3 <= i < MAX_FD && t.slots[i].dev != 0 ==> i <= t.maxFd)
    && (forall i :: 0 <= i < MAX_FD && t.slots[i].isDev ==> t.slots[i].dev !in isFs)
    && (forall i :: 0 <= i < MAX_FD && t.slots[i].excl ==> t.slots[i].isDev)
  }

  /** A locked device has no second descriptor. */
  predicate Exclusive(t: Table) {
    forall i, j :: 0 <= i < |t.slots| && 0 <= j < |t.slots| && i != j && t.slots[i].excl ==>
      t.slots[i].dev != t.slots[j].dev
  }

  lemma OpenKeeps(t: Table, isFs: set<nat>, dev: nat, flags: nat, status: int)
    requires Inv(t, isFs)
    ensures Inv(Open(t, dev, dev in isFs, flags, status).1, isFs)
    ensures Exclusive(t) ==> Exclusive(Open(t, dev, dev in isFs, flags, status).1)
  {
    var fd := FirstFree(t.slots, 0);
    if dev != 0 && fd < MAX_FD {
      var t1 := Table(t.slots[fd := Slot(dev, false, dev !in isFs, flags)], if fd > t.maxFd then fd else t.maxFd);
      assert Inv(t1, isFs);
      if dev in isFs || !Locked(t1, fd) {
        OpenedIsExclusive(t, t1, isFs, fd);
      }
    }
  }

  /** The lock scan of open sees every used slot, so a new descriptor never joins a locked device. */
  lemma OpenedIsExclusive(t: Table, t1: Table, isFs: set<nat>, fd: nat)
    requires Inv(t, isFs) && fd < MAX_FD && t.slots[fd].dev == 0 && Inv(t1, isFs)
    requires t1.slots[fd].dev != 0 && !t1.slots[fd].excl && t1.slots == t.slots[fd := t1.slots[fd]]
    requires t1.slots[fd].dev in isFs || !Locked(t1, fd)
    ensures Exclusive(t) ==> Exclusive(t1)
  {
    if Exclusive(t) {
      forall i, j | 0 <= i < MAX_FD && 0 <= j < MAX_FD && i != j && t1.slots[i].excl
        ensures t1.slots[i].dev != t1.slots[j].dev
      {
        assert i != fd;
        if j != fd {
          assert t1.slots[i] == t.slots[i] && t1.slots[j] == t.slots[j];
        } else {
          assert t1.slots[i].dev !in isFs && i <= t1.maxFd;
        }
      }
    }
  }

  /** Some slot holds the device locked. */
  predicate HeldLocked(t: Table, dev: nat) {
    exists i :: 0 <= i < |t.slots| && t.slots[i].dev == dev && t.slots[i].excl
  }

  predicate AllTaken(t: Table) {
    forall i :: 0 <= i < |t.slots| ==> t.slots[i].dev != 0
  }

  /** Open fails exactly, in this order, without a device (19), with a full table (24), for a device that some slot
      holds locked (13), or when the device's own routine does, with its code. It then leaves every slot as it
      was. Otherwise the new descriptor is the lowest free slot, which has the device, the caller's flags, no
      lock and the device mark unless it is a file system; no other slot is touched. */
  lemma OpenEffect(t: Table, isFs: set<nat>, dev: nat, flags: nat, status: int)
    requires Inv(t, isFs)
    ensures var (rc, t') := Open(t, dev, dev in isFs, flags, status);
            if dev == 0 then rc == -19 && t' == t
            else if AllTaken(t) then rc == -24 && t' == t
            else if dev !in isFs && HeldLocked(t, dev) then rc == -13 && t'.slots == t.slots
            else if status < 0 then rc == status && t'.slots == t.slots
            else
              && 3 <= rc < 32 && t.slots[rc].dev == 0 && (forall k :: 0 <= k < rc ==> t.slots[k].dev != 0)
              && t'.slots == t.slots[rc := Slot(dev, false, dev !in isFs, flags)]
              && t'.maxFd == if rc > t.maxFd then rc else t.maxFd
  {
    var fd := FirstFree(t.slots, 0);
    if dev != 0 && fd < MAX_FD {
      var t1 := Table(t.slots[fd := Slot(dev, false, dev !in isFs, flags)], if fd > t.maxFd then fd else t.maxFd);
      LockedMeansHeld(t, t1, isFs, fd);
    }
  }

  lemma LockedMeansHeld(t: Table, t1: Table, isFs: set<nat>, fd: nat)
    requires Inv(t, isFs) && 3 <= fd < MAX_FD && t.slots[fd].dev == 0
    requires t1.maxFd == (if fd > t.maxFd then fd else t.maxFd)
    requires |t1.slots| == MAX_FD && t1.slots[fd].dev != 0 && t1.slots == t.slots[fd := t1.slots[fd]]
    ensures Locked(t1, fd) <==> HeldLocked(t, t1.slots[fd].dev)
  {
    var dev := t1.slots[fd].dev;
    if i :| 0 <= i < MAX_FD && t.slots[i].dev == dev && t.slots[i].excl {
      assert i <= t1.maxFd && t1.slots[i] == t.slots[i];
    }
  }

  /** Closing undoes opening. */
  lemma CloseUndoesOpen(t: Table, isFs: set<nat>, dev: nat, flags: nat, status: int)
    requires Inv(t, isFs)
    ensures var (fd, t') := Open(t, dev, dev in isFs, flags, status);
            0 <= fd < |t'.slots| ==> Release(t', fd).slots == t.slots
  {
    OpenEffect(t, isFs, dev, flags, status);
  }

  /** A closed descriptor is free: if no lower one is, the next open gets it. */
  lemma ClosedIsReused(t: Table, isFs: set<nat>, fd: nat, dev: nat, flags: nat)
    requires Inv(t, isFs) && 3 <= fd < MAX_FD && dev in isFs && dev != 0
    requires forall k :: 0 <= k < fd ==> t.slots[k].dev != 0
    ensures Open(Release(t, fd), dev, true, flags, 0).0 == fd
  {
    ReleaseKeeps(t, isFs, fd);
    OpenEffect(Release(t, fd), isFs, dev, flags, 0);
    assert Release(t, fd).slots[fd].dev == 0;
  }

  /** The lock is granted exactly to a descriptor marked as a device whose device no other slot below the mark has;
      the other answers are 25 without the mark and 13 with another descriptor. It then shuts out every
      further open of the device. */
  lemma LockShutsOut(t: Table, isFs: set<nat>, fd: nat, flags: nat, status: int)
    requires Inv(t, isFs) && fd < MAX_FD && t.slots[fd].dev != 0
    ensures Lock(t, fd).0 ==
              if !t.slots[fd].isDev then -25
              else if exists i :: 0 <= i < t.maxFd && i != fd && t.slots[i].dev == t.slots[fd].dev then -13
              else 0
    ensures Lock(t, fd).0 != 0 ==> Lock(t, fd).1 == t
    ensures Lock(t, fd).0 == 0 ==>
              var t1, dev := Lock(t, fd).1, t.slots[fd].dev;
              && t1 == t.(slots := t.slots[fd := t.slots[fd].(excl := true)])
              && Open(t1, dev, dev in isFs, flags, status).0 == (if AllTaken(t1) then -24 else -13)
              && Open(t1, dev, dev in isFs, flags, status).1.slots == t1.slots
  {
    if Lock(t, fd).0 == 0 {
      var t1, dev := Lock(t, fd).1, t.slots[fd].dev;
      assert Inv(t1, isFs);
      assert t1.slots[fd].dev == dev && t1.slots[fd].excl;
      assert HeldLocked(t1, dev);
      OpenEffect(t1, isFs, dev, flags, status);
    }
  }

  /** Unlocking, or closing, the descriptor that holds the lock lets the device be opened again. */
  lemma UnlockLetsIn(t: Table, isFs: set<nat>, fd: nat, flags: nat)
    requires Inv(t, isFs) && Exclusive(t) && fd < MAX_FD && t.slots[fd].excl
    ensures var t1, dev := Unlock(t, fd), t.slots[fd].dev;
            && t1 == t.(slots := t.slots[fd := t.slots[fd].(excl := false)])
            && (!AllTaken(t1) && dev != 0 ==> Open(t1, dev, dev in isFs, flags, 0).0 >= 0)
    ensures fd > 2 && t.slots[fd].dev != 0 ==>
              Open(Release(t, fd), t.slots[fd].dev, t.slots[fd].dev in isFs, flags, 0).0 >= 0
  {
    var dev := t.slots[fd].dev;
    UnlockKeeps(t, isFs, fd);
    OpenEffect(Unlock(t, fd), isFs, dev, flags, 0);
    assert !HeldLocked(Unlock(t, fd), dev);
    if fd > 2 && dev != 0 {
      ReleaseKeeps(t, isFs, fd);
      assert Release(t, fd).slots[fd].dev == 0;
      assert !HeldLocked(Release(t, fd), dev);
      OpenEffect(Release(t, fd), isFs, dev, flags, 0);
    }
  }

  lemma ReleaseKeeps(t: Table, isFs: set<nat>, fd: nat)
    requires Inv(t, isFs) && fd < MAX_FD
    ensures Inv(Release(t, fd), isFs)
    ensures Exclusive(t) ==> Exclusive(Release(t, fd))
  {
    if Exclusive(t) && fd > 2 {
      var t' := Release(t, fd);
      forall i, j | 0 <= i < MAX_FD && 0 <= j < MAX_FD && i != j && t'.slots[i].excl
        ensures t'.slots[i].dev != t'.slots[j].dev
      {
        assert i != fd && t.slots[i].dev != 0;
      }
    }
  }

  lemma UnlockKeeps(t: Table, isFs: set<nat>, fd: nat)
    requires Inv(t, isFs) && fd < MAX_FD
    ensures Inv(Unlock(t, fd), isFs)
    ensures Exclusive(t) ==> Exclusive(Unlock(t, fd))
  {
    if Exclusive(t) {
      var t' := Unlock(t, fd);
      forall i, j | 0 <= i < MAX_FD && 0 <= j < MAX_FD && i != j && t'.slots[i].excl
        ensures t'.slots[i].dev != t'.slots[j].dev
      {
        assert t.slots[i].excl;
      }
    }
  }

  /** The condition a caller of the lock can check: the slot at the mark, and with a mark still below
      them the standard slots, do not hold the device under another descriptor. */
  predicate LockSafe(t: Table, fd: nat)
    requires fd < |t.slots| && -1 <= t.maxFd < |t.slots| && |t.slots| >= 3
  {
    && (t.maxFd >= 0 && t.maxFd != fd ==> t.slots[t.maxFd].dev != t.slots[fd].dev)
    && (forall i :: t.maxFd < i < 3 && i != fd ==> t.slots[i].dev != t.slots[fd].dev)
  }

  /** A granted lock keeps devices exclusive exactly under that condition. */
  lemma LockKeepsIff(t: Table, isFs: set<nat>, fd: nat)
    requires Inv(t, isFs) && fd < MAX_FD && t.slots[fd].dev != 0 && Exclusive(t)
    ensures Inv(Lock(t, fd).1, isFs)
    ensures Exclusive(Lock(t, fd).1) <==> (Lock(t, fd).0 == 0 ==> LockSafe(t, fd))
  {
    if Lock(t, fd).0 == 0 {
      var t' := Lock(t, fd).1;
      if LockSafe(t, fd) {
        forall i, j | 0 <= i < MAX_FD && 0 <= j < MAX_FD && i != j && t'.slots[i].excl
          ensures t'.slots[i].dev != t'.slots[j].dev
        {
          if i != fd {
            assert t.slots[i].excl;
          }
        }
      } else {
        var j :| 0 <= j < MAX_FD && j != fd && t.slots[j].dev == t.slots[fd].dev;
        assert t'.slots[fd].excl && t'.slots[j].dev == t'.slots[fd].dev;
      }
    }
  }

  // ----- whole runs

  datatype Event =
    | OpenIt(dev: nat, flags: nat, status: int)
    | CloseIt(fd: nat)
    | LockIt(fd: nat)
    | UnlockIt(fd: nat)

  /** Requests on descriptors that are not open are the caller's error and leave the table alone. */
  predicate Usable(t: Table, fd: nat) {
    fd < |t.slots| && t.slots[fd].dev != 0
  }

  function Step(t: Table, isFs: set<nat>, e: Event): Table
    requires t.maxFd < |t.slots|
  {
    match e
    case OpenIt(dev, flags, status) => Open(t, dev, dev in isFs, flags, status).1
    case CloseIt(fd) => if Usable(t, fd) then Release(t, fd) else t
    case LockIt(fd) => if Usable(t, fd) then Lock(t, fd).1 else t
    case UnlockIt(fd) => if Usable(t, fd) then Unlock(t, fd) else t
  }

  ghost function Run(start: Table, isFs: set<nat>, es: seq<Event>): (t: Table)
    requires Inv(start, isFs)
    ensures Inv(t, isFs)
  {
    if es == [] then start
    else
      var t := Run(start, isFs, es[..|es| - 1]);
      StepKeepsInv(t, isFs, es[|es| - 1]);
      Step(t, isFs, es[|es| - 1])
  }

  lemma StepKeepsInv(t: Table, isFs: set<nat>, e: Event)
    requires Inv(t, isFs)
    ensures Inv(Step(t, isFs, e), isFs)
  {
    match e
    case OpenIt(dev, flags, status) => OpenKeeps(t, isFs, dev, flags, status);
    case CloseIt(fd) => if Usable(t, fd) { ReleaseKeeps(t, isFs, fd); }
    case LockIt(fd) =>
    case UnlockIt(fd) => if Usable(t, fd) { UnlockKeeps(t, isFs, fd); }
  }

  /** Every lock granted in the run is granted under the condition. */
  ghost predicate SafeLocks(start: Table, isFs: set<nat>, es: seq<Event>)
    requires Inv(start, isFs)
  {
    es != [] ==>
      var t, e := Run(start, isFs, es[..|es| - 1]), es[|es| - 1];
      && SafeLocks(start, isFs, es[..|es| - 1])
      && (e.LockIt? && Usable(t, e.fd) && Lock(t, e.fd).0 == 0 ==> LockSafe(t, e.fd))
  }

  ghost predicate AlwaysExclusive(start: Table, isFs: set<nat>, es: seq<Event>)
    requires Inv(start, isFs)
  {
    && Exclusive(Run(start, isFs, es))
    && (es != [] ==> AlwaysExclusive(start, isFs, es[..|es| - 1]))
  }

  /** Over all runs of open, close, lock and unlock from an exclusive table: devices stay exclusive
      throughout exactly when every granted lock met the condition. */
  lemma {:induction false} ExclusiveIffSafeLocks(start: Table, isFs: set<nat>, es: seq<Event>)
    requires Inv(start, isFs) && Exclusive(start)
    ensures AlwaysExclusive(start, isFs, es) <==> SafeLocks(start, isFs, es)
  {
    if es != [] {
      var before, e := es[..|es| - 1], es[|es| - 1];
      ExclusiveIffSafeLocks(start, isFs, before);
      var t := Run(start, isFs, before);
      if AlwaysExclusive(start, isFs, before) {
        match e
        case OpenIt(dev, flags, status) => OpenKeeps(t, isFs, dev, flags, status);
        case CloseIt(fd) => if Usable(t, fd) { ReleaseKeeps(t, isFs, fd); }
        case LockIt(fd) => if Usable(t, fd) { LockKeepsIff(t, isFs, fd); }
        case UnlockIt(fd) => if Usable(t, fd) { UnlockKeeps(t, isFs, fd); }
      }
    }
  }

  /** The shortest violation: a device opened twice on an otherwise unused table, then locked through
      the first descriptor. */
  lemma OpenOpenLock(t: Table, isFs: set<nat>, dev: nat)
    requires Inv(t, isFs) && dev != 0 && dev !in isFs
    requires forall i :: 0 <= i < MAX_FD ==> (t.slots[i].dev == 0 <==> i >= 3) && t.slots[i].dev != dev
    requires forall i :: 0 <= i < 3 ==> !t.slots[i].excl
    requires t.maxFd < 3
    ensures var (a, t1) := Open(t, dev, false, 0, 0); var (b, t2) := Open(t1, dev, false, 0, 0);
            && a == 3 && b == 4 && Lock(t2, 3).0 == 0 && !Exclusive(Lock(t2, 3).1)
  {
    var (a, t1) := Open(t, dev, false, 0, 0);
    assert t.slots[0].dev != 0 && t.slots[1].dev != 0 && t.slots[2].dev != 0 && t.slots[3].dev == 0;
    assert FirstFree(t.slots, 0) == 3;
    assert a == 3 && t1.maxFd == 3;
    assert t1.slots[0].dev != 0 && t1.slots[1].dev != 0 && t1.slots[2].dev != 0;
    assert t1.slots[3].dev != 0 && t1.slots[4].dev == 0;
    assert FirstFree(t1.slots, 0) == 4;
    var (b, t2) := Open(t1, dev, false, 0, 0);
    assert b == 4 && t2.maxFd == 4;
    var t3 := Lock(t2, 3).1;
    assert t3.slots[3].excl && t3.slots[3].dev == t3.slots[4].dev;
  }
}
