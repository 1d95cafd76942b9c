/** The lock bundle of libburn/ddlpa.c: it collects siblings, opens the device files and closes them again. */
module DdlpaLock {
  import opened Ddlpa

  /** Open file descriptors of all processes. "permits" and "locks" tell whether open(2) and fcntl(2) work if no O_EXCL
      is in the way. */
  class Kernel {
    const permits: Opening -> bool
    const locks: Opening -> bool
    var table: FdTable
    var nextFd: nat

    ghost predicate Valid()
      reads this
    {
      forall fd :: fd in table ==> fd < nextFd
    }

    constructor (permits: Opening -> bool, locks: Opening -> bool)
      ensures Valid() && table == map[] && this.permits == permits && this.locks == locks
    {
      this.permits, this.locks, table, nextFd := permits, locks, map[], 0;
    }

    /** At most one holder of O_EXCL for each device. */
    method Open(o: Opening) returns (fd: int)
      requires Valid()
      modifies this
      ensures Valid()
      ensures if permits(o) && FreeIn(old(table), o)
        then fd == old(nextFd) && table == old(table)[fd := o] && nextFd == fd + 1
              else fd == -1 && table == old(table) && nextFd == old(nextFd)
    {
      if permits(o) && FreeIn(table, o) {
        fd := nextFd;
        table := table[fd := o];
        nextFd := nextFd + 1;
      } else {
        fd := -1;
      }
    }

    method Close(fd: nat)
      modifies this`table
      ensures table == old(table) - {fd}
    {
      table := table - {fd};
    }
  }

  class DdlpaLock {
    const tree: Tree
    const kernel: Kernel
    const openGivenPath: bool
    const allowMissing: bool
    const path: Path
    var stdPath: Path
    var fd: int
    var address: Option<Address>
    var numSiblings: nat
    const siblingPaths: array<Path>
    const siblingFds: array<int>

    /** ddlpa_new */
    constructor (tree: Tree, kernel: Kernel, path: Path, openGivenPath: bool, allowMissing: bool)
      ensures this.tree == tree && this.kernel == kernel && this.path == path
      ensures this.openGivenPath == openGivenPath && this.allowMissing == allowMissing
      ensures fd == -1 && numSiblings == 0 && siblingPaths.Length == siblingFds.Length == MAX_SIBLINGS
      ensures fresh(siblingPaths) && fresh(siblingFds) && forall k :: 0 <= k < MAX_SIBLINGS ==> siblingFds[k] == -1
    {
      this.tree, this.kernel, this.path := tree, kernel, path;
      this.openGivenPath, this.allowMissing := openGivenPath, allowMissing;
      stdPath, fd, address, numSiblings := path, -1, None, 0;
      siblingPaths := new Path[MAX_SIBLINGS](_ => Other(""));
      siblingFds := new int[MAX_SIBLINGS](_ => -1);
    }

    function MainPath(): Path
      reads this
    {
      if openGivenPath then path else stdPath
    }

    /** ddlpa_collect_siblings */
    method CollectSiblings() returns (ret: Error)
      requires MainPath() in tree && IsScsi(stdPath) && numSiblings == 0 && siblingPaths.Length == MAX_SIBLINGS
      modifies this`address, this`numSiblings, siblingPaths
      ensures address == tree[MainPath()].address
      ensures ret == Collect(tree, address, allowMissing)
      ensures numSiblings <= MAX_SIBLINGS
      ensures ret == Ok ==> siblingPaths[..numSiblings] == Siblings(tree, address.value, NUM_STD_PATHS)
    {
      hide HasSg, HasSr, HasScd, IsSibling;
      address := tree[MainPath()].address;
      if address == None {
        return Eio;
      }
      var a := address.value;
      KindsGrow([], path);
      var haveSg, haveSr, haveScd := false, false, false;
      var idx := 0;
      while idx < NUM_STD_PATHS
        invariant idx <= NUM_STD_PATHS && numSiblings <= MAX_SIBLINGS && address == Some(a)
        invariant siblingPaths[..numSiblings] == Siblings(tree, a, idx)
        invariant haveSg == HasSg(Siblings(tree, a, idx))
        invariant haveSr == HasSr(Siblings(tree, a, idx))
        invariant haveScd == HasScd(Siblings(tree, a, idx))
      {
        var tryPath := Enumerate(idx);
        if IsSibling(tree, a, tryPath) {
          if numSiblings >= MAX_SIBLINGS {
            SiblingsGrow(tree, a, idx + 1, NUM_STD_PATHS);
            return Erange;
          }
          if tryPath.Sg? {
            haveSg := true;
          } else if tryPath.Sr? {
            haveSr := true;
          } else if tryPath.Scd? {
            haveScd := true;
          }
          KindsGrow(Siblings(tree, a, idx), tryPath);
          siblingPaths[numSiblings] := tryPath;
          numSiblings := numSiblings + 1;
        }
        idx := idx + 1;
      }
      ret := if (haveSg && haveSr && haveScd) || allowMissing then Ok else Ebusy;
    }

    /** ddlpa_occupy: open(2) and fcntl(2). If the file lock is refused, then the descriptor gets closed again. */
    method Occupy(p: Path, noExcl: bool) returns (ret: Error, newFd: int)
      requires kernel.Valid() && p in tree
      modifies kernel
      ensures kernel.Valid()
      ensures var o := Opening(p, tree[p], !noExcl);
        if Grantable(kernel, old(kernel.table), o) then
          && ret == Ok && newFd == old(kernel.nextFd)
          && kernel.table == old(kernel.table)[old(kernel.nextFd) := o] && kernel.nextFd == old(kernel.nextFd) + 1
        else ret != Ok && newFd == -1 && kernel.table == old(kernel.table)
    {
      var o := Opening(p, tree[p], !noExcl);
      newFd := kernel.Open(o);
      if newFd == -1 {
        return OpenFailed, -1;
      }
      if !kernel.locks(o) {
        kernel.Close(newFd);
        assert kernel.table == old(kernel.table);
        return Ebusy, -1;
      }
      ret := Ok;
    }

    /** Descriptors in use. */
    ghost function OwnFds(): set<nat>
      reads this, siblingFds
      requires numSiblings <= siblingFds.Length
    {
      Fds(siblingFds[..numSiblings], fd)
    }

    /** Exactly the openings in "done" have been made since the table was T0. */
    ghost predicate Has(T0: FdTable, base: nat, done: seq<Opening>)
      reads this, siblingFds, kernel
    {
      && numSiblings <= siblingFds.Length && kernel.Valid()
      && kernel.table == WithOpened(T0, base, done) && OwnFds() == Range(base, |done|)
    }

    /** ... and none has failed. */
    ghost predicate Opened(T0: FdTable, base: nat, done: seq<Opening>)
      reads this, siblingFds, kernel
    {
      Has(T0, base, done) && kernel.nextFd == base + |done|
    }

    /** Looks for sibling i among the main personality and the previous siblings. */
    method Inspect(main: File, i: nat) returns (occupied: bool, noExcl: bool)
      requires i < numSiblings <= siblingPaths.Length && AllIn(tree, siblingPaths[..numSiblings])
      ensures occupied == Occupied(tree, main, siblingPaths[..numSiblings], i)
      ensures !occupied ==> noExcl == NoExcl(tree, main, siblingPaths[..numSiblings], i)
    {
      ghost var siblings := siblingPaths[..numSiblings];
      var f := tree[siblingPaths[i]];
      assert siblings[i] == siblingPaths[i];
      if SameInode(f, main) {
        return true, false;
      }
      noExcl := f.rdev == main.rdev;
      var j := 0;
      while j < i
        invariant j <= i
        invariant forall l :: 0 <= l < j ==> !SameInode(tree[siblings[l]], f)
        invariant noExcl == (f.rdev == main.rdev || exists l :: 0 <= l < j && tree[siblings[l]].rdev == f.rdev)
      {
        var g := tree[siblingPaths[j]];
        assert g == tree[siblings[j]];
        if SameInode(g, f) {
          return true, false;
        }
        if g.rdev == f.rdev {
          noExcl := true;
        }
        j := j + 1;
      }
      occupied := false;
    }

    /** Occupies sibling i and records its descriptor. */
    method OpenSibling(i: nat, noExcl: bool, ghost T0: FdTable, ghost base: nat, ghost done: seq<Opening>)
      returns (ret: Error)
      requires i < numSiblings <= siblingPaths.Length == siblingFds.Length && siblingPaths[i] in tree
      requires Opened(T0, base, done) && siblingFds[i] == -1 && forall n :: n in T0 ==> n < base
      modifies siblingFds, kernel
      ensures forall k :: 0 <= k < siblingFds.Length && k != i ==> siblingFds[k] == old(siblingFds[k])
      ensures var o := Opening(siblingPaths[i], tree[siblingPaths[i]], !noExcl);
        if Grantable(kernel, WithOpened(T0, base, done), o) then ret == Ok && Opened(T0, base, done + [o])
        else ret != Ok && Has(T0, base, done)
    {
      hide FreeIn, Grantable, Fds, WithOpened;
      ghost var o := Opening(siblingPaths[i], tree[siblingPaths[i]], !noExcl);
      WithNext(T0, base, done, o);
      var newFd;
      ret, newFd := Occupy(siblingPaths[i], noExcl);
      siblingFds[i] := newFd;
      assert siblingFds[..numSiblings] == old(siblingFds[..numSiblings])[i := newFd];
      FdAdded(old(siblingFds[..numSiblings]), i, newFd, fd);
    }

    /** The loop of ddlpa_open_all. */
    method OpenSiblings(main: Path) returns (ret: Error, ghost done: seq<Opening>)
      requires Coherent(tree) && main in tree && kernel.Valid() && fd == -1
      requires numSiblings <= siblingPaths.Length == siblingFds.Length && AllIn(tree, siblingPaths[..numSiblings])
      requires forall k :: 0 <= k < numSiblings ==> siblingFds[k] == -1
      modifies siblingFds, kernel
      ensures Has(old(kernel.table), old(kernel.nextFd), done)
      ensures var plan := SiblingPlan(tree, tree[main], siblingPaths[..numSiblings], numSiblings);
        if AllGrantable(kernel, old(kernel.table), plan)
        then ret == Ok && done == plan && Opened(old(kernel.table), old(kernel.nextFd), done)
        else ret != Ok
    {
      hide FreeIn, Grantable, Occupied, NoExcl, Coherent, Fds;
      ghost var siblings, T0, base := siblingPaths[..numSiblings], kernel.table, kernel.nextFd;
      done := [];
      NothingOpened(this);
      var i := 0;
      while i < numSiblings
        invariant i <= numSiblings && done == SiblingPlan(tree, tree[main], siblings, i)
        invariant Opened(T0, base, done) && AllGrantable(kernel, T0, done)
        invariant forall k :: i <= k < numSiblings ==> siblingFds[k] == -1
      {
        var occupied, noExcl := Inspect(tree[main], i);
        assert siblings[i] == siblingPaths[i];
        if !occupied {
          NextGrantable(kernel, tree, main, siblings, i, T0, base);
          PlanGrows(tree, tree[main], siblings, i, numSiblings);
          ret := OpenSibling(i, noExcl, T0, base, done);
          ghost var next := done + [Opening(siblings[i], tree[siblings[i]], !noExcl)];
          if ret != Ok {
            assert !Grantable(kernel, T0, next[|done|]);
            return;
          }
          done := next;
        }
        i := i + 1;
      }
      ret := Ok;
    }

    /** ddlpa_open_all: the openings of the plan, all of them or some. */
    method OpenAll() returns (ret: Error, ghost done: seq<Opening>)
      requires Coherent(tree) && MainPath() in tree && kernel.Valid() && fd == -1 && numSiblings == 0
      requires siblingPaths.Length == siblingFds.Length == MAX_SIBLINGS
      requires forall k :: 0 <= k < MAX_SIBLINGS ==> siblingFds[k] == -1
      modifies this`address, this`numSiblings, this`fd, siblingPaths, siblingFds, kernel
      ensures Has(old(kernel.table), old(kernel.nextFd), done)
      ensures var plan := PlanOf(tree, Request(old(MainPath()), stdPath, allowMissing));
        if plan != [] && AllGrantable(kernel, old(kernel.table), plan) then ret == Ok && done == plan else ret != Ok
    {
      hide FreeIn, Grantable, Coherent, Siblings, Collect, SiblingPlan, WithOpened;
      ghost var T0, base := kernel.table, kernel.nextFd;
      var main := MainPath();
      ghost var o := Opening(main, tree[main], true);
      done := [];
      NothingOpened(this);
      if IsScsi(stdPath) {
        ret := CollectSiblings();
        NothingOpened(this);
        if ret != Ok {
          return;
        }
        ghost var siblings := siblingPaths[..numSiblings];
        ret, done := OpenSiblings(main);
        AllGrantableMain(kernel, T0, SiblingPlan(tree, tree[main], siblings, |siblings|), o);
        if ret != Ok {
          return;
        }
        MainGrantable(kernel, tree, main, siblings, T0, base);
      } else {
        AllGrantableMain(kernel, T0, [], o);
      }
      WithNext(T0, base, done, o);
      ret, fd := Occupy(main, false);
      if ret == Ok {
        done := done + [o];
      }
    }

    /** ddlpa_destroy */
    method Destroy()
      requires numSiblings <= siblingFds.Length
      modifies kernel`table
      ensures kernel.table == old(kernel.table) - old(OwnFds())
    {
      var i := 0;
      while i < numSiblings
        invariant i <= numSiblings
        invariant kernel.table == old(kernel.table) - Fds(siblingFds[..i], -1)
      {
        FdsOfNext(siblingFds[..], i, -1);
        assert siblingFds[..][..i] == siblingFds[..i] && siblingFds[..][..i + 1] == siblingFds[..i + 1];
        if siblingFds[i] >= 0 {
          kernel.Close(siblingFds[i]);
        }
        i := i + 1;
      }
      if fd >= 0 {
        kernel.Close(fd);
      }
    }

    /** Opens everything or nothing. */
    method Lock() returns (ret: Error)
      requires Coherent(tree) && MainPath() in tree && kernel.Valid() && fd == -1 && numSiblings == 0
      requires siblingPaths.Length == siblingFds.Length == MAX_SIBLINGS
      requires forall k :: 0 <= k < MAX_SIBLINGS ==> siblingFds[k] == -1
      modifies this`address, this`numSiblings, this`fd, siblingPaths, siblingFds, kernel
      ensures ret == Ok || kernel.table == old(kernel.table)
      ensures Locked(kernel, tree, Request(old(MainPath()), stdPath, allowMissing),
                     old(kernel.table), old(kernel.nextFd), ret, kernel.table)
    {
      hide Coherent, AllGrantable, PlanOf, WithOpened, Locked;
      ghost var r := Request(MainPath(), stdPath, allowMissing);
      ghost var done;
      ret, done := OpenAll();
      if ret != Ok {
        Closed(old(kernel.table), old(kernel.nextFd), done, OwnFds());
        Destroy();
      }
      LockedIf(kernel, tree, r, old(kernel.table), old(kernel.nextFd), ret, kernel.table);
    }
  }

  /** ddlpa_lock_path: the first standard path of the same device is the standard path of the lock. */
  method LockPath(tree: Tree, kernel: Kernel, path: Path, openGivenPath: bool, allowMissing: bool)
    returns (ret: Error, lock: DdlpaLock)
    requires Coherent(tree) && kernel.Valid()
    modifies kernel
    ensures ret == Ok || kernel.table == old(kernel.table)
    ensures if path in tree && exists n ::
                 0 <= n < NUM_STD_PATHS && Enumerate(n) in tree && tree[Enumerate(n)].rdev == tree[path].rdev then
        exists n :: 0 <= n < NUM_STD_PATHS && Enumerate(n) in tree && tree[Enumerate(n)].rdev == tree[path].rdev
          && (forall m :: 0 <= m < n && Enumerate(m) in tree ==> tree[Enumerate(m)].rdev != tree[path].rdev)
          && Locked(kernel, tree, Request(if openGivenPath then path else Enumerate(n), Enumerate(n), allowMissing),
                    old(kernel.table), old(kernel.nextFd), ret, kernel.table)
      else ret == Enoent
  {
    hide Coherent, Locked, Enumerate;
    lock := new DdlpaLock(tree, kernel, path, openGivenPath, allowMissing);
    var idx := 0;
    while idx < NUM_STD_PATHS && !SameDevice(tree, path, Enumerate(idx))
      invariant idx <= NUM_STD_PATHS && forall m :: 0 <= m < idx ==> !SameDevice(tree, path, Enumerate(m))
    {
      idx := idx + 1;
    }
    if idx == NUM_STD_PATHS {
      return Enoent, lock;
    }
    lock.stdPath := Enumerate(idx);
    ret := lock.Lock();
  }

  /** ddlpa_lock_btl: a /dev/srN with the given SCSI address is standard path and main personality of the lock. */
  method LockBtl(tree: Tree, kernel: Kernel, bus: int, target: int, lun: int, allowMissing: bool)
    returns (ret: Error, lock: DdlpaLock)
    requires Coherent(tree) && kernel.Valid()
    modifies kernel
    ensures ret == Ok || kernel.table == old(kernel.table)
    ensures if exists k: nat :: k < 256 && Sr(k) in tree && tree[Sr(k)].address.Some?
                && var a := tree[Sr(k)].address.value; a.bus == bus && a.id == target && a.lun == lun then
        exists k: nat :: k < 256 && Sr(k) in tree && tree[Sr(k)].address.Some?
          && (var a := tree[Sr(k)].address.value; a.bus == bus && a.id == target && a.lun == lun)
          && (forall m: nat :: m < k && Sr(m) in tree && tree[Sr(m)].address.Some? ==>
                var a := tree[Sr(m)].address.value; !(a.bus == bus && a.id == target && a.lun == lun))
          && Locked(kernel, tree, Request(Sr(k), Sr(k), allowMissing),
                    old(kernel.table), old(kernel.nextFd), ret, kernel.table)
      else ret == Enoent
  {
    hide Coherent, Locked, Enumerate;
    lock := new DdlpaLock(tree, kernel, Other(""), false, allowMissing);
    var idx := 0;
    while idx < NUM_STD_PATHS && !AtAddress(tree, bus, target, lun, Enumerate(idx))
      invariant idx <= NUM_STD_PATHS && forall m :: 0 <= m < idx ==> !AtAddress(tree, bus, target, lun, Enumerate(m))
    {
      idx := idx + 1;
    }
    SrOfIndex(tree, bus, target, lun, idx);
    if idx == NUM_STD_PATHS {
      return Enoent, lock;
    }
    lock.stdPath := Enumerate(idx);
    ret := lock.Lock();
  }

  lemma SrOfIndex(tree: Tree, bus: int, target: int, lun: int, idx: nat)
    requires idx <= NUM_STD_PATHS && forall m :: 0 <= m < idx ==> !AtAddress(tree, bus, target, lun, Enumerate(m))
    ensures forall k: nat :: k < 256 && 26 + k < idx ==> !AtAddress(tree, bus, target, lun, Sr(k))
    ensures idx < NUM_STD_PATHS && AtAddress(tree, bus, target, lun, Enumerate(idx)) ==>
      26 <= idx < 282 && Enumerate(idx) == Sr(idx - 26)
  {
    StandardSequence();
    hide AtAddress;
    forall k: nat | k < 256 && 26 + k < idx
      ensures !AtAddress(tree, bus, target, lun, Sr(k))
    {
      assert Enumerate(26 + k) == Sr(k);
    }
    if idx < NUM_STD_PATHS && AtAddress(tree, bus, target, lun, Enumerate(idx)) {
      AddressedIsSr(tree, bus, target, lun, Enumerate(idx));
    }
  }

  lemma AddressedIsSr(tree: Tree, bus: int, target: int, lun: int, p: Path)
    requires AtAddress(tree, bus, target, lun, p)
    ensures p.Sr?
  {}

  /** The lock is gained exactly if there is a plan and all its openings work: open(2) permits it, fcntl(2) locks, and
      O_EXCL does not meet another one of the same device. Then these are the new entries of the table. */
  ghost predicate Locked(kernel: Kernel, tree: Tree, r: Request, T0: FdTable, base: nat, ret: Error, table: FdTable) {
    var plan := PlanOf(tree, r);
    if plan != []
       && forall k :: 0 <= k < |plan| ==>
            && kernel.permits(plan[k]) && kernel.locks(plan[k])
            && (plan[k].excl ==> forall fd :: fd in T0 && T0[fd].excl ==> T0[fd].file.rdev != plan[k].file.rdev)
    then ret == Ok && table == WithOpened(T0, base, plan)
    else ret != Ok
  }

  lemma LockedIf(kernel: Kernel, tree: Tree, r: Request, T0: FdTable, base: nat, ret: Error, table: FdTable)
    requires var plan := PlanOf(tree, r);
      if plan != [] && AllGrantable(kernel, T0, plan) then ret == Ok && table == WithOpened(T0, base, plan)
      else ret != Ok
    ensures Locked(kernel, tree, r, T0, base, ret, table)
  {
    hide PlanOf, WithOpened;
  }

  /** The valid descriptors among siblingFds and fd. */
  ghost function Fds(siblingFds: seq<int>, fd: int): set<nat> {
    Naturals(siblingFds) + if fd >= 0 then {fd as nat} else {}
  }

  /** n consecutive numbers. */
  ghost function Range(base: nat, n: nat): (r: set<nat>)
    ensures forall k: nat :: k in r <==> base <= k < base + n
  {
    if n == 0 then {} else Range(base, n - 1) + {base + n - 1}
  }

  ghost function Naturals(s: seq<int>): (r: set<nat>)
    ensures forall n: nat :: n in r <==> n in s
  {
    if s == [] then {}
    else Naturals(s[..|s| - 1]) + if s[|s| - 1] >= 0 then {s[|s| - 1] as nat} else {}
  }

  lemma NoFds(n: nat)
    ensures Fds(seq(n, _ => -1), -1) == {}
  {}

  lemma FdAdded(siblingFds: seq<int>, i: nat, newFd: int, fd: int)
    requires i < |siblingFds| && siblingFds[i] == -1 <= newFd
    ensures Fds(siblingFds[i := newFd], fd) == Fds(siblingFds, fd) + if newFd >= 0 then {newFd as nat} else {}
  {
    var after := siblingFds[i := newFd];
    assert after[i] == newFd;
    forall x | x in siblingFds && x >= 0
      ensures x in after
    {
      var k :| 0 <= k < |siblingFds| && siblingFds[k] == x;
      assert after[k] == x;
    }
    assert forall x :: x in after ==> x in siblingFds || x == newFd;
  }

  lemma FdsOfNext(siblingFds: seq<int>, i: nat, fd: int)
    requires i < |siblingFds|
    ensures Fds(siblingFds[..i + 1], fd)
      == Fds(siblingFds[..i], fd) + if siblingFds[i] >= 0 then {siblingFds[i] as nat} else {}
  {
    assert siblingFds[..i + 1] == siblingFds[..i] + [siblingFds[i]];
  }

  /** An opening works together with its file lock. */
  ghost predicate Grantable(kernel: Kernel, table: FdTable, o: Opening) {
    kernel.permits(o) && kernel.locks(o) && FreeIn(table, o)
  }

  ghost predicate AllGrantable(kernel: Kernel, table: FdTable, plan: seq<Opening>) {
    forall k :: 0 <= k < |plan| ==> Grantable(kernel, table, plan[k])
  }

  lemma AllGrantableMain(kernel: Kernel, table: FdTable, plan: seq<Opening>, o: Opening)
    ensures AllGrantable(kernel, table, plan + [o])
      <==> AllGrantable(kernel, table, plan) && Grantable(kernel, table, o)
  {
    hide Grantable;
    var all := plan + [o];
    assert all[|plan|] == o && forall k :: 0 <= k < |plan| ==> all[k] == plan[k];
  }

  /** The siblings do not hamper the main personality. */
  lemma MainGrantable(kernel: Kernel, tree: Tree, main: Path, siblings: seq<Path>, T0: FdTable, base: nat)
    requires Coherent(tree) && AllIn(tree, siblings) && main in tree && forall fd :: fd in T0 ==> fd < base
    ensures var plan, o := SiblingPlan(tree, tree[main], siblings, |siblings|), Opening(main, tree[main], true);
      Grantable(kernel, WithOpened(T0, base, plan), o) == Grantable(kernel, T0, o)
  {
    hide FreeIn, WithOpened;
    var plan, o := SiblingPlan(tree, tree[main], siblings, |siblings|), Opening(main, tree[main], true);
    FreeWithOpened(T0, base, plan, o);
    SiblingPlanExcl(tree, main, siblings, |siblings|, tree[main].rdev);
  }

  lemma NothingOpened(lock: DdlpaLock)
    requires lock.kernel.Valid() && lock.fd == -1 && lock.numSiblings <= lock.siblingFds.Length
    requires forall k :: 0 <= k < lock.numSiblings ==> lock.siblingFds[k] == -1
    ensures lock.Opened(lock.kernel.table, lock.kernel.nextFd, [])
  {
    assert lock.siblingFds[..lock.numSiblings] == seq(lock.numSiblings, _ => -1);
    NoFds(lock.numSiblings);
  }

  /** The next opening of a plan is not hampered by the previous ones. */
  lemma NextGrantable(kernel: Kernel, tree: Tree, main: Path, siblings: seq<Path>, i: nat, T0: FdTable, base: nat)
    requires Coherent(tree) && AllIn(tree, siblings) && i < |siblings| && main in tree
    requires !Occupied(tree, tree[main], siblings, i) && forall fd :: fd in T0 ==> fd < base
    ensures var plan := SiblingPlan(tree, tree[main], siblings, i);
      var o := Opening(siblings[i], tree[siblings[i]], !NoExcl(tree, tree[main], siblings, i));
      && Grantable(kernel, WithOpened(T0, base, plan), o) == Grantable(kernel, T0, o)
      && SiblingPlan(tree, tree[main], siblings, i + 1) == plan + [o]
  {
    hide FreeIn, CountExcl, WithOpened, Occupied, NoExcl;
    var o := Opening(siblings[i], tree[siblings[i]], !NoExcl(tree, tree[main], siblings, i));
    FreeWithOpened(T0, base, SiblingPlan(tree, tree[main], siblings, i), o);
    if o.excl {
      NoOwnClash(tree, main, siblings, i);
    }
  }

  lemma {:induction false} PlanGrows(tree: Tree, main: File, siblings: seq<Path>, m: nat, n: nat)
    requires AllIn(tree, siblings) && m < n <= |siblings|
    ensures SiblingPlan(tree, main, siblings, m + 1) <= SiblingPlan(tree, main, siblings, n)
  {
    if m + 1 < n {
      PlanGrows(tree, main, siblings, m, n - 1);
    }
  }

  lemma {:induction false} SiblingsGrow(tree: Tree, a: Address, m: nat, n: nat)
    requires m <= n <= NUM_STD_PATHS
    ensures |Siblings(tree, a, m)| <= |Siblings(tree, a, n)|
  {
    if m < n {
      SiblingsGrow(tree, a, m, n - 1);
    }
  }
}
