/** Delicate Device Locking Protocol A of libburn/ddlpa.c: which device files get opened in which mode. */
module Ddlpa {

  datatype Option<T> = None | Some(value: T)

  /** Standard paths /dev/hdX, /dev/srN, /dev/scdN, /dev/sgN and any other path. */
  datatype Path = Hd(n: nat) | Sr(n: nat) | Scd(n: nat) | Sg(n: nat) | Other(name: string)

  datatype Address = Address(bus: int, host: int, channel: int, id: int, lun: int)

  /** Result of stat(2) and the SCSI address, if it can be obtained. */
  datatype File = File(dev: int, ino: int, rdev: int, address: Option<Address>)

  /** The accessible device files. */
  type Tree = map<Path, File>

  const MAX_SIBLINGS := 5
  const NUM_STD_PATHS := 3 * 256 + 26

  function Enumerate(idx: nat): Path
    requires idx < NUM_STD_PATHS
  {
    if idx < 26 then Hd(idx)
    else if idx < 256 + 26 then Sr(idx - 26)
    else if idx < 2 * 256 + 26 then Scd(idx - 256 - 26)
    else Sg(idx - 2 * 256 - 26)
  }

  /** Valid only with standard paths. */
  predicate IsScsi(path: Path) {
    path.Sr? || path.Scd? || path.Sg?
  }

  /** An inode of a device file belongs to only one device. */
  ghost predicate Coherent(tree: Tree) {
    forall p, q :: p in tree && q in tree && SameInode(tree[p], tree[q]) ==> tree[p].rdev == tree[q].rdev
  }

  predicate SameInode(f: File, g: File) {
    f.dev == g.dev && f.ino == g.ino
  }

  predicate SameDrive(a: Address, b: Address) {
    a.host == b.host && a.channel == b.channel && a.id == b.id && a.lun == b.lun
  }

  // ---------- siblings

  predicate IsSibling(tree: Tree, address: Address, path: Path) {
    IsScsi(path) && path in tree && tree[path].address.Some? && SameDrive(tree[path].address.value, address)
  }

  predicate AllIn(tree: Tree, siblings: seq<Path>) {
    forall k :: 0 <= k < |siblings| ==> siblings[k] in tree
  }

  predicate SameDevice(tree: Tree, path: Path, std: Path) {
    path in tree && std in tree && tree[std].rdev == tree[path].rdev
  }

  predicate AtAddress(tree: Tree, bus: int, target: int, lun: int, std: Path) {
    && std.Sr? && std in tree && tree[std].address.Some?
    && var a := tree[std].address.value; a.bus == bus && a.id == target && a.lun == lun
  }

  /** The siblings among the first n standard paths. */
  function Siblings(tree: Tree, address: Address, n: nat): (s: seq<Path>)
    requires n <= NUM_STD_PATHS
    ensures AllIn(tree, s)
  {
    if n == 0 then []
    else
      var before := Siblings(tree, address, n - 1);
      if IsSibling(tree, address, Enumerate(n - 1)) then before + [Enumerate(n - 1)] else before
  }

  /** All standard paths of the drive are siblings, and nothing else is. */
  lemma {:induction false} SiblingsAreAll(tree: Tree, a: Address, n: nat, p: Path)
    requires n <= NUM_STD_PATHS
    ensures p in Siblings(tree, a, n) <==> IsSibling(tree, a, p) && exists k :: 0 <= k < n && Enumerate(k) == p
  {
    hide Enumerate, IsSibling;
    if n > 0 {
      SiblingsAreAll(tree, a, n - 1, p);
      assert Enumerate(n - 1) == p ==> exists k :: 0 <= k < n && Enumerate(k) == p;
    }
  }

  /** The sequence of the standard paths: hda to hdz, then sr, scd, and sg, each from 0 to 255. */
  lemma StandardSequence()
    ensures NUM_STD_PATHS == 794
    ensures forall n: nat :: n < 26 ==> Enumerate(n) == Hd(n)
    ensures forall n: nat :: n < 256 ==>
      Enumerate(26 + n) == Sr(n) && Enumerate(282 + n) == Scd(n) && Enumerate(538 + n) == Sg(n)
  {}

  lemma StandardPaths(p: Path)
    ensures (exists k :: 0 <= k < NUM_STD_PATHS && Enumerate(k) == p) <==>
      (p.Hd? && p.n < 26) || ((p.Sr? || p.Scd? || p.Sg?) && p.n < 256)
  {
    if p.Hd? && p.n < 26 {
      assert Enumerate(p.n) == p;
    } else if p.Sr? && p.n < 256 {
      assert Enumerate(26 + p.n) == p;
    } else if p.Scd? && p.n < 256 {
      assert Enumerate(282 + p.n) == p;
    } else if p.Sg? && p.n < 256 {
      assert Enumerate(538 + p.n) == p;
    }
  }

  lemma EnumerateInjective(j: nat, k: nat)
    requires j < NUM_STD_PATHS && k < NUM_STD_PATHS && Enumerate(j) == Enumerate(k)
    ensures j == k
  {}

  /** The siblings are the device files /dev/srN, /dev/scdN, /dev/sgN with N up to 255 which tell the address
      of the drive. */
  lemma SiblingsOfDrive(tree: Tree, a: Address, p: Path)
    ensures p in Siblings(tree, a, NUM_STD_PATHS) <==>
      && (p.Sr? || p.Scd? || p.Sg?) && p.n < 256 && p in tree && tree[p].address.Some?
      && tree[p].address.value.host == a.host && tree[p].address.value.channel == a.channel
      && tree[p].address.value.id == a.id && tree[p].address.value.lun == a.lun
  {
    hide Siblings, Enumerate;
    SiblingsAreAll(tree, a, NUM_STD_PATHS, p);
    StandardPaths(p);
  }

  predicate Distinct(s: seq<Path>) {
    forall i, j :: 0 <= i < j < |s| ==> s[i] != s[j]
  }

  lemma DistinctAppend(s: seq<Path>, p: Path)
    requires Distinct(s) && p !in s
    ensures Distinct(s + [p])
  {}

  /** No sibling is listed twice. */
  lemma {:induction false} SiblingsAreDistinct(tree: Tree, a: Address, n: nat)
    requires n <= NUM_STD_PATHS
    ensures Distinct(Siblings(tree, a, n))
  {
    hide Enumerate, IsSibling, Distinct;
    if n == 0 {
      NoneIsDistinct();
    } else {
      SiblingsAreDistinct(tree, a, n - 1);
      NotYetListed(tree, a, n - 1);
      DistinctAppend(Siblings(tree, a, n - 1), Enumerate(n - 1));
    }
  }

  lemma NoneIsDistinct()
    ensures Distinct([])
  {}

  lemma NotYetListed(tree: Tree, a: Address, n: nat)
    requires n < NUM_STD_PATHS
    ensures Enumerate(n) !in Siblings(tree, a, n)
  {
    hide Enumerate, IsSibling;
    SiblingsAreAll(tree, a, n, Enumerate(n));
    forall k | 0 <= k < n
      ensures Enumerate(k) != Enumerate(n)
    {
      if Enumerate(k) == Enumerate(n) {
        EnumerateInjective(k, n);
      }
    }
  }

  predicate HasSg(siblings: seq<Path>) {
    exists k :: 0 <= k < |siblings| && siblings[k].Sg?
  }

  predicate HasSr(siblings: seq<Path>) {
    exists k :: 0 <= k < |siblings| && siblings[k].Sr?
  }

  predicate HasScd(siblings: seq<Path>) {
    exists k :: 0 <= k < |siblings| && siblings[k].Scd?
  }

  predicate EnoughSiblings(siblings: seq<Path>) {
    HasSg(siblings) && HasSr(siblings) && HasScd(siblings)
  }

  lemma KindsGrow(s: seq<Path>, p: Path)
    ensures HasSg(s + [p]) <==> HasSg(s) || p.Sg?
    ensures HasSr(s + [p]) <==> HasSr(s) || p.Sr?
    ensures HasScd(s + [p]) <==> HasScd(s) || p.Scd?
    ensures !HasSg([]) && !HasSr([]) && !HasScd([])
  {
    var t := s + [p];
    assert t[|s|] == p && forall k :: 0 <= k < |s| ==> t[k] == s[k];
  }

  datatype Error = Ok | Efault | Enoent | Erange | Ebusy | Eio | OpenFailed

  /** ddlpa_collect_siblings */
  function Collect(tree: Tree, address: Option<Address>, allowMissing: bool): Error {
    if address.None? then Eio
    else
      var siblings := Siblings(tree, address.value, NUM_STD_PATHS);
      if |siblings| > MAX_SIBLINGS then Erange
      else if EnoughSiblings(siblings) || allowMissing then Ok
      else Ebusy
  }

  /** The search succeeds exactly if the address is known, there are not more than 5 siblings, and each of the three
      kinds is among them or this is not demanded. */
  lemma CollectOutcome(tree: Tree, a: Address, allowMissing: bool)
    ensures Collect(tree, None, allowMissing) == Eio
    ensures var siblings := Siblings(tree, a, NUM_STD_PATHS);
      var all := (exists n :: Sr(n) in siblings) && (exists n :: Scd(n) in siblings) && (exists n :: Sg(n) in siblings);
      Collect(tree, Some(a), allowMissing)
        == if |siblings| > 5 then Erange else if allowMissing || all then Ok else Ebusy
  {
    hide Siblings;
    var siblings := Siblings(tree, a, NUM_STD_PATHS);
    forall k | 0 <= k < |siblings|
      ensures siblings[k].Sr? ==> Sr(siblings[k].n) in siblings
      ensures siblings[k].Scd? ==> Scd(siblings[k].n) in siblings
      ensures siblings[k].Sg? ==> Sg(siblings[k].n) in siblings
    {
      assert siblings[k] in siblings;
    }
  }

  // ---------- which files to open

  /** One open(2) call. */
  datatype Opening = Opening(path: Path, file: File, excl: bool)

  /** The inode of sibling i is the main personality or a previous sibling. */
  predicate Occupied(tree: Tree, main: File, siblings: seq<Path>, i: nat)
    requires AllIn(tree, siblings) && i < |siblings|
  {
    || SameInode(tree[siblings[i]], main)
    || exists j :: 0 <= j < i && SameInode(tree[siblings[j]], tree[siblings[i]])
  }

  /** The device of sibling i is locked by the main personality or by a previous sibling. */
  predicate NoExcl(tree: Tree, main: File, siblings: seq<Path>, i: nat)
    requires AllIn(tree, siblings) && i < |siblings|
  {
    || tree[siblings[i]].rdev == main.rdev
    || exists j :: 0 <= j < i && tree[siblings[j]].rdev == tree[siblings[i]].rdev
  }

  function SiblingPlan(tree: Tree, main: File, siblings: seq<Path>, n: nat): (plan: seq<Opening>)
    requires AllIn(tree, siblings) && n <= |siblings|
    ensures |plan| <= n
  {
    if n == 0 then []
    else
      var before := SiblingPlan(tree, main, siblings, n - 1);
      if Occupied(tree, main, siblings, n - 1) then before
      else before + [Opening(siblings[n - 1], tree[siblings[n - 1]], !NoExcl(tree, main, siblings, n - 1))]
  }

  /** All openings of ddlpa_open_all with the main personality at the end. */
  function Plan(tree: Tree, path: Path, siblings: seq<Path>): seq<Opening>
    requires AllIn(tree, siblings) && path in tree
  {
    SiblingPlan(tree, tree[path], siblings, |siblings|) + [Opening(path, tree[path], true)]
  }

  /** "path" gets opened as main personality and has the standard path "std". */
  datatype Request = Request(path: Path, std: Path, allowMissing: bool)

  /** The openings of ddlpa_open_all, none if the search for siblings fails. */
  function PlanOf(tree: Tree, r: Request): seq<Opening> {
    if r.path !in tree then []
    else if !IsScsi(r.std) then [Opening(r.path, tree[r.path], true)]
    else if Collect(tree, tree[r.path].address, r.allowMissing) != Ok then []
    else Plan(tree, r.path, Siblings(tree, tree[r.path].address.value, NUM_STD_PATHS))
  }

  lemma {:induction false} SiblingPlanPaths(tree: Tree, main: File, siblings: seq<Path>, n: nat)
    requires AllIn(tree, siblings) && n <= |siblings|
    ensures forall k :: 0 <= k < |SiblingPlan(tree, main, siblings, n)| ==>
      var o := SiblingPlan(tree, main, siblings, n)[k]; o.path in siblings && o.path in tree && o.file == tree[o.path]
  {
    hide Occupied, NoExcl;
    if n > 0 {
      SiblingPlanPaths(tree, main, siblings, n - 1);
    }
  }

  /** A request leads to openings exactly if its path exists and, with a SCSI drive, the siblings get collected.
      The last one is of the path itself, by O_EXCL. Others are of siblings. */
  lemma PlanOpens(tree: Tree, r: Request)
    ensures var plan, scsi := PlanOf(tree, r), r.std.Sr? || r.std.Scd? || r.std.Sg?;
      && (plan != [] <==> r.path in tree && (scsi ==> Collect(tree, tree[r.path].address, r.allowMissing) == Ok))
      && (plan != [] ==> plan[|plan| - 1] == Opening(r.path, tree[r.path], true))
      && (plan != [] && !scsi ==> |plan| == 1)
      && (forall k :: 0 <= k < |plan| - 1 ==>
            && plan[k].path in tree && plan[k].file == tree[plan[k].path] && tree[r.path].address.Some?
            && plan[k].path in Siblings(tree, tree[r.path].address.value, NUM_STD_PATHS))
  {
    hide Siblings, SiblingPlan, EnoughSiblings;
    if r.path in tree && IsScsi(r.std) && Collect(tree, tree[r.path].address, r.allowMissing) == Ok {
      var siblings := Siblings(tree, tree[r.path].address.value, NUM_STD_PATHS);
      SiblingPlanPaths(tree, tree[r.path], siblings, |siblings|);
    }
  }

  function CountExcl(plan: seq<Opening>, rdev: int): nat {
    if plan == [] then 0
    else
      var last := plan[|plan| - 1];
      CountExcl(plan[..|plan| - 1], rdev) + if last.excl && last.file.rdev == rdev then 1 else 0
  }

  function CountInode(plan: seq<Opening>, f: File): nat {
    if plan == [] then 0
    else CountInode(plan[..|plan| - 1], f) + if SameInode(plan[|plan| - 1].file, f) then 1 else 0
  }

  predicate HasRdev(tree: Tree, siblings: seq<Path>, n: nat, rdev: int)
    requires AllIn(tree, siblings) && n <= |siblings|
  {
    exists k :: 0 <= k < n && tree[siblings[k]].rdev == rdev
  }

  predicate HasInode(tree: Tree, siblings: seq<Path>, n: nat, f: File)
    requires AllIn(tree, siblings) && n <= |siblings|
  {
    exists k :: 0 <= k < n && SameInode(tree[siblings[k]], f)
  }

  lemma CountLast(plan: seq<Opening>, o: Opening, rdev: int, f: File)
    ensures CountExcl(plan + [o], rdev) == CountExcl(plan, rdev) + if o.excl && o.file.rdev == rdev then 1 else 0
    ensures CountInode(plan + [o], f) == CountInode(plan, f) + if SameInode(o.file, f) then 1 else 0
  {
    assert (plan + [o])[..|plan|] == plan;
  }

  lemma {:induction false} SiblingPlanExcl(tree: Tree, path: Path, siblings: seq<Path>, n: nat, rdev: int)
    requires Coherent(tree) && AllIn(tree, siblings) && n <= |siblings| && path in tree
    ensures CountExcl(SiblingPlan(tree, tree[path], siblings, n), rdev)
      == if rdev != tree[path].rdev && HasRdev(tree, siblings, n, rdev) then 1 else 0
  {
    if n > 0 {
      var main := tree[path];
      SiblingPlanExcl(tree, path, siblings, n - 1, rdev);
      var before, f := SiblingPlan(tree, main, siblings, n - 1), tree[siblings[n - 1]];
      CountLast(before, Opening(siblings[n - 1], f, !NoExcl(tree, main, siblings, n - 1)), rdev, main);
      if f.rdev == rdev {
        assert HasRdev(tree, siblings, n, rdev);
      }
      assert HasRdev(tree, siblings, n - 1, rdev) ==> HasRdev(tree, siblings, n, rdev);
    }
  }

  /** A holder has each device of the siblings opened by O_EXCL exactly once, and no other device but the main one. */
  lemma ExclOnce(tree: Tree, path: Path, siblings: seq<Path>, rdev: int)
    requires Coherent(tree) && AllIn(tree, siblings) && path in tree
    ensures CountExcl(Plan(tree, path, siblings), rdev)
      == if rdev == tree[path].rdev || HasRdev(tree, siblings, |siblings|, rdev) then 1 else 0
  {
    SiblingPlanExcl(tree, path, siblings, |siblings|, rdev);
    CountLast(SiblingPlan(tree, tree[path], siblings, |siblings|), Opening(path, tree[path], true), rdev, tree[path]);
  }

  lemma {:induction false} SiblingPlanInodes(tree: Tree, path: Path, siblings: seq<Path>, n: nat, f: File)
    requires AllIn(tree, siblings) && n <= |siblings| && path in tree
    ensures CountInode(SiblingPlan(tree, tree[path], siblings, n), f)
      == if !SameInode(tree[path], f) && HasInode(tree, siblings, n, f) then 1 else 0
  {
    if n > 0 {
      var main := tree[path];
      SiblingPlanInodes(tree, path, siblings, n - 1, f);
      var before, g := SiblingPlan(tree, main, siblings, n - 1), tree[siblings[n - 1]];
      CountLast(before, Opening(siblings[n - 1], g, !NoExcl(tree, main, siblings, n - 1)), 0, f);
      if SameInode(g, f) {
        assert HasInode(tree, siblings, n, f);
      }
      assert HasInode(tree, siblings, n - 1, f) ==> HasInode(tree, siblings, n, f);
    }
  }

  /** A holder has each inode of the siblings and of the main personality opened exactly once. */
  lemma InodeOnce(tree: Tree, path: Path, siblings: seq<Path>, f: File)
    requires AllIn(tree, siblings) && path in tree
    ensures CountInode(Plan(tree, path, siblings), f)
      == if SameInode(tree[path], f) || HasInode(tree, siblings, |siblings|, f) then 1 else 0
  {
    SiblingPlanInodes(tree, path, siblings, |siblings|, f);
    CountLast(SiblingPlan(tree, tree[path], siblings, |siblings|), Opening(path, tree[path], true), 0, f);
  }

  // ---------- open file descriptors

  type FdTable = map<nat, Opening>

  /** O_EXCL is refused if the device is already open with O_EXCL. */
  predicate FreeIn(table: FdTable, o: Opening) {
    o.excl ==> forall fd :: fd in table && table[fd].excl ==> table[fd].file.rdev != o.file.rdev
  }

  /** The table after the openings of a plan by consecutive descriptor numbers. */
  function WithOpened(table: FdTable, base: nat, plan: seq<Opening>): FdTable {
    if plan == [] then table
    else
      var n := |plan| - 1;
      WithOpened(table, base, plan[..n])[base + n := plan[n]]
  }

  lemma WithNext(table: FdTable, base: nat, plan: seq<Opening>, o: Opening)
    ensures WithOpened(table, base, plan + [o]) == WithOpened(table, base, plan)[base + |plan| := o]
  {
    assert (plan + [o])[..|plan|] == plan;
  }

  lemma {:induction false} OpenedKeys(table: FdTable, base: nat, plan: seq<Opening>)
    requires forall fd :: fd in table ==> fd < base
    ensures forall fd :: fd in WithOpened(table, base, plan) <==> fd in table || base <= fd < base + |plan|
    ensures forall fd :: fd in table ==> WithOpened(table, base, plan)[fd] == table[fd]
  {
    if plan != [] {
      OpenedKeys(table, base, plan[..|plan| - 1]);
    }
  }

  /** Closing what has been opened restores the table. */
  lemma Closed(table: FdTable, base: nat, plan: seq<Opening>, fds: set<nat>)
    requires forall fd :: fd in table ==> fd < base
    requires forall fd :: fd in fds <==> base <= fd < base + |plan|
    ensures WithOpened(table, base, plan) - fds == table
  {
    OpenedKeys(table, base, plan);
  }

  /** Own openings with O_EXCL of the same device are in the way, too. */
  lemma {:induction false} FreeWithOpened(table: FdTable, base: nat, plan: seq<Opening>, o: Opening)
    requires forall fd :: fd in table ==> fd < base
    ensures FreeIn(WithOpened(table, base, plan), o)
      <==> FreeIn(table, o) && (o.excl ==> CountExcl(plan, o.file.rdev) == 0)
  {
    if plan != [] {
      var n := |plan| - 1;
      FreeWithOpened(table, base, plan[..n], o);
      OpenedKeys(table, base, plan[..n]);
      var before, after := WithOpened(table, base, plan[..n]), WithOpened(table, base, plan);
      assert after[base + n] == plan[n] && forall fd :: fd in before ==> fd in after && after[fd] == before[fd];
    }
  }

  /** In a plan no opening with O_EXCL finds its device occupied by a previous one. */
  lemma NoOwnClash(tree: Tree, path: Path, siblings: seq<Path>, n: nat)
    requires Coherent(tree) && AllIn(tree, siblings) && n < |siblings| && path in tree
    requires !NoExcl(tree, tree[path], siblings, n)
    ensures CountExcl(SiblingPlan(tree, tree[path], siblings, n), tree[siblings[n]].rdev) == 0
  {
    SiblingPlanExcl(tree, path, siblings, n, tree[siblings[n]].rdev);
  }
}
