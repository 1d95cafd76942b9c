/** Interleaved lock attempts by several processes. */
module DdlpaRuns {
  import opened Ddlpa

  datatype Phase = Acquiring | Holding | Closing | Over

  /** The attempt has openings lo to hi - 1 of its plan in use. */
  datatype Attempt = Attempt(lo: nat, hi: nat, phase: Phase)

  /** Opening k of attempt i is descriptor (i, k). */
  type Descriptor = (nat, nat)

  datatype State = State(open: set<Descriptor>, attempts: seq<Attempt>)

  type Plans = seq<seq<Opening>>

  predicate IsDescriptor(plans: Plans, d: Descriptor) {
    d.0 < |plans| && d.1 < |plans[d.0]|
  }

  predicate Excl(plans: Plans, d: Descriptor, rdev: int) {
    IsDescriptor(plans, d) && plans[d.0][d.1].excl && plans[d.0][d.1].file.rdev == rdev
  }

  /** The kernel refuses O_EXCL as long as there is an open descriptor of the same device with O_EXCL. */
  predicate Busy(plans: Plans, open: set<Descriptor>, rdev: int) {
    exists d :: d in open && Excl(plans, d, rdev)
  }

  /** An attempt with an empty plan has already failed when it was looking for siblings. */
  function Init(plans: Plans): State {
    State({}, seq(|plans|, i requires 0 <= i < |plans| => Attempt(0, 0, if plans[i] == [] then Over else Acquiring)))
  }

  /** One system call of attempt i. "works" is false if open(2) or fcntl(2) fails for other reasons than O_EXCL.
      A failed attempt closes what it has opened. A holder stays so until its lock gets destroyed. */
  function Step(plans: Plans, s: State, i: nat, works: bool): State
    requires |s.attempts| == |plans|
  {
    if i >= |plans| then s
    else
      var a := s.attempts[i];
      match a.phase
      case Acquiring =>
        if a.hi >= |plans[i]| then s.(attempts := s.attempts[i := a.(phase := Holding)])
        else if works && !(plans[i][a.hi].excl && Busy(plans, s.open, plans[i][a.hi].file.rdev)) then
          State(s.open + {(i, a.hi)}, s.attempts[i := a.(hi := a.hi + 1)])
        else s.(attempts := s.attempts[i := a.(phase := Closing)])
      case Holding => s.(attempts := s.attempts[i := a.(phase := Closing)])
      case Closing =>
        if a.lo < a.hi then State(s.open - {(i, a.lo)}, s.attempts[i := a.(lo := a.lo + 1)])
        else s.(attempts := s.attempts[i := a.(phase := Over)])
      case Over => s
  }

  datatype Event = Event(attempt: nat, works: bool)

  function Run(plans: Plans, events: seq<Event>): (s: State)
    ensures |s.attempts| == |plans|
  {
    if events == [] then Init(plans)
    else
      var e := events[|events| - 1];
      Step(plans, Run(plans, events[..|events| - 1]), e.attempt, e.works)
  }

  // ---------- invariant

  predicate AttemptOk(plan: seq<Opening>, a: Attempt) {
    && a.lo <= a.hi <= |plan|
    && (a.phase.Acquiring? || a.phase.Holding? ==> a.lo == 0)
    && (a.phase.Holding? ==> a.hi == |plan|)
    && (a.phase.Over? ==> a.lo == a.hi)
    && (plan == [] ==> a.phase.Over?)
  }

  ghost predicate Inv(plans: Plans, s: State) {
    && |s.attempts| == |plans|
    && (forall i :: 0 <= i < |plans| ==> AttemptOk(plans[i], s.attempts[i]))
    && (forall d :: d in s.open <==> d.0 < |plans| && s.attempts[d.0].lo <= d.1 < s.attempts[d.0].hi)
    && (forall d, e :: d in s.open && e in s.open && d != e ==> !Clash(plans, d, e))
  }

  predicate Clash(plans: Plans, d: Descriptor, e: Descriptor) {
    IsDescriptor(plans, d) && IsDescriptor(plans, e) && plans[d.0][d.1].excl && plans[e.0][e.1].excl
    && plans[d.0][d.1].file.rdev == plans[e.0][e.1].file.rdev
  }

  /** A new descriptor with O_EXCL finds no other one of the same device. */
  lemma StepClashes(plans: Plans, s: State, i: nat, works: bool)
    requires Inv(plans, s)
    ensures var open := Step(plans, s, i, works).open;
      forall d, e :: d in open && e in open && d != e ==> !Clash(plans, d, e)
  {
    var s' := Step(plans, s, i, works);
    if i < |plans| && s.attempts[i].phase.Acquiring? && s'.open != s.open {
      var d := (i, s.attempts[i].hi);
      forall e | e in s.open
        ensures !Clash(plans, d, e) && !Clash(plans, e, d)
      {
        assert Excl(plans, e, plans[i][d.1].file.rdev) ==> Busy(plans, s.open, plans[i][d.1].file.rdev);
      }
    }
  }

  lemma StepInv(plans: Plans, s: State, i: nat, works: bool)
    requires Inv(plans, s)
    ensures Inv(plans, Step(plans, s, i, works))
  {
    hide Clash, Busy, Excl;
    StepClashes(plans, s, i, works);
  }

  lemma {:induction false} RunInv(plans: Plans, events: seq<Event>)
    ensures Inv(plans, Run(plans, events))
  {
    if events != [] {
      RunInv(plans, events[..|events| - 1]);
      var e := events[|events| - 1];
      StepInv(plans, Run(plans, events[..|events| - 1]), e.attempt, e.works);
    }
  }

  /** What an attempt which has ended leaves behind, whether it failed or got its lock and released it: nothing. */
  lemma NothingLeftOpen(plans: Plans, events: seq<Event>, i: nat)
    requires i < |plans| && Run(plans, events).attempts[i].phase.Over?
    ensures forall d :: d in Run(plans, events).open ==> d.0 != i
  {
    RunInv(plans, events);
  }

  // ---------- mutual exclusion

  function PlansOf(tree: Tree, requests: seq<Request>): Plans {
    seq(|requests|, i requires 0 <= i < |requests| => PlanOf(tree, requests[i]))
  }

  lemma {:induction false} CountedIsThere(plan: seq<Opening>, rdev: int) returns (k: nat)
    requires CountExcl(plan, rdev) > 0
    ensures k < |plan| && plan[k].excl && plan[k].file.rdev == rdev
  {
    var n := |plan| - 1;
    if plan[n].excl && plan[n].file.rdev == rdev {
      k := n;
    } else {
      k := CountedIsThere(plan[..n], rdev);
    }
  }

  /** No two holders have the same device opened by O_EXCL. */
  lemma HoldersAreDisjoint(plans: Plans, s: State, i: nat, j: nat, rdev: int)
    requires Inv(plans, s) && i < |plans| && j < |plans| && i != j
    requires s.attempts[i].phase.Holding? && s.attempts[j].phase.Holding?
    ensures CountExcl(plans[i], rdev) == 0 || CountExcl(plans[j], rdev) == 0
  {
    if CountExcl(plans[i], rdev) > 0 && CountExcl(plans[j], rdev) > 0 {
      var k := CountedIsThere(plans[i], rdev);
      var l := CountedIsThere(plans[j], rdev);
      assert (i, k) in s.open && (j, l) in s.open;
      assert Clash(plans, (i, k), (j, l));
      assert false;
    }
  }

  lemma {:induction false} SameSiblings(tree: Tree, a: Address, b: Address, n: nat)
    requires n <= NUM_STD_PATHS && SameDrive(a, b)
    ensures Siblings(tree, a, n) == Siblings(tree, b, n)
  {
    if n > 0 {
      SameSiblings(tree, a, b, n - 1);
    }
  }

  /** A request for the SCSI drive at a given address with at least one sibling. */
  predicate ForDrive(tree: Tree, r: Request, a: Address) {
    && r.path in tree && IsScsi(r.std) && tree[r.path].address.Some? && SameDrive(tree[r.path].address.value, a)
    && Siblings(tree, a, NUM_STD_PATHS) != []
  }

  lemma PlanForDrive(tree: Tree, r: Request, a: Address)
    requires Coherent(tree) && ForDrive(tree, r, a) && PlanOf(tree, r) != []
    ensures CountExcl(PlanOf(tree, r), tree[Siblings(tree, a, NUM_STD_PATHS)[0]].rdev) == 1
  {
    hide Siblings, Plan;
    var siblings := Siblings(tree, a, NUM_STD_PATHS);
    SameSiblings(tree, a, tree[r.path].address.value, NUM_STD_PATHS);
    assert siblings[0] in siblings;
    var rdev := tree[siblings[0]].rdev;
    ExclOnce(tree, r.path, siblings, rdev);
    assert HasRdev(tree, siblings, |siblings|, rdev);
  }

  /** Whatever the sequence of events, at most one attempt holds the lock of a drive. */
  lemma MutualExclusion(tree: Tree, requests: seq<Request>, events: seq<Event>, a: Address, i: nat, j: nat)
    requires Coherent(tree) && i < |requests| && j < |requests| && i != j
    requires ForDrive(tree, requests[i], a) && ForDrive(tree, requests[j], a)
    ensures var s := Run(PlansOf(tree, requests), events);
      !(s.attempts[i].phase.Holding? && s.attempts[j].phase.Holding?)
  {
    hide PlanOf, Siblings, Run, ForDrive;
    var plans := PlansOf(tree, requests);
    var s := Run(plans, events);
    RunInv(plans, events);
    if s.attempts[i].phase.Holding? && s.attempts[j].phase.Holding? {
      PlanForDrive(tree, requests[i], a);
      PlanForDrive(tree, requests[j], a);
      DriveHasSibling(tree, requests[i], a);
      HoldersAreDisjoint(plans, s, i, j, tree[Siblings(tree, a, NUM_STD_PATHS)[0]].rdev);
    }
  }

  lemma DriveHasSibling(tree: Tree, r: Request, a: Address)
    requires ForDrive(tree, r, a)
    ensures var s := Siblings(tree, a, NUM_STD_PATHS); s != [] && s[0] in tree
  {
    hide Siblings;
    assert Siblings(tree, a, NUM_STD_PATHS)[0] in Siblings(tree, a, NUM_STD_PATHS);
  }

  /** A standard path from which the address of the drive can be obtained is a sibling itself. */
  lemma StandardPathIsSibling(tree: Tree, a: Address, n: nat)
    requires n < NUM_STD_PATHS && IsSibling(tree, a, Enumerate(n))
    ensures Siblings(tree, a, NUM_STD_PATHS) != []
  {
    hide Siblings, Enumerate, IsSibling;
    SiblingsAreAll(tree, a, NUM_STD_PATHS, Enumerate(n));
  }

  // ---------- a single attempt does not get in its own way

  lemma {:induction false} CountPositive(plan: seq<Opening>, rdev: int, k: nat)
    requires k < |plan| && plan[k].excl && plan[k].file.rdev == rdev
    ensures CountExcl(plan, rdev) >= 1
  {
    var n := |plan| - 1;
    if k < n {
      CountPositive(plan[..n], rdev, k);
    }
  }

  lemma {:induction false} CountTwice(plan: seq<Opening>, rdev: int, k: nat, l: nat)
    requires k < l < |plan| && plan[k].excl && plan[l].excl && plan[k].file.rdev == rdev == plan[l].file.rdev
    ensures CountExcl(plan, rdev) >= 2
  {
    var n := |plan| - 1;
    if l == n {
      CountPositive(plan[..n], rdev, k);
    } else {
      CountTwice(plan[..n], rdev, k, l);
    }
  }

  /** The first n steps of attempt i alone. */
  function Alone(plans: Plans, s: State, i: nat, n: nat): (s': State)
    requires |s.attempts| == |plans|
    ensures |s'.attempts| == |plans|
  {
    if n == 0 then s else Step(plans, Alone(plans, s, i, n - 1), i, true)
  }

  ghost predicate OthersLeaveDevices(plans: Plans, open: set<Descriptor>, i: nat)
    requires i < |plans|
  {
    forall d, k :: d in open && d.0 != i && 0 <= k < |plans[i]| && plans[i][k].excl ==>
      !Excl(plans, d, plans[i][k].file.rdev)
  }

  ghost predicate Ready(plans: Plans, s: State, i: nat, n: nat) {
    && Inv(plans, s) && i < |plans| && n <= |plans[i]| && s.attempts[i] == Attempt(0, n, Acquiring)
    && OthersLeaveDevices(plans, s.open, i)
  }

  lemma NextIsFree(plans: Plans, s: State, i: nat, n: nat)
    requires Ready(plans, s, i, n) && n < |plans[i]| && plans[i][n].excl
    requires CountExcl(plans[i], plans[i][n].file.rdev) <= 1
    ensures !Busy(plans, s.open, plans[i][n].file.rdev)
  {
    var rdev := plans[i][n].file.rdev;
    if Busy(plans, s.open, rdev) {
      var d :| d in s.open && Excl(plans, d, rdev);
      assert d.0 == i;
      CountTwice(plans[i], rdev, d.1, n);
    }
  }

  lemma OpensNext(plans: Plans, s: State, i: nat, n: nat)
    requires Ready(plans, s, i, n) && n < |plans[i]|
    requires CountExcl(plans[i], plans[i][n].file.rdev) <= 1
    ensures Ready(plans, Step(plans, s, i, true), i, n + 1)
  {
    StepInv(plans, s, i, true);
    hide Inv, Busy, Excl;
    if plans[i][n].excl {
      NextIsFree(plans, s, i, n);
    }
  }

  lemma {:induction false} AloneOpens(plans: Plans, s: State, i: nat, n: nat)
    requires i < |plans| == |s.attempts| && Ready(plans, s, i, 0) && n <= |plans[i]|
    requires forall rdev :: CountExcl(plans[i], rdev) <= 1
    ensures Ready(plans, Alone(plans, s, i, n), i, n)
  {
    hide Ready, Step, CountExcl;
    if n > 0 {
      AloneOpens(plans, s, i, n - 1);
      OpensNext(plans, Alone(plans, s, i, n - 1), i, n - 1);
    }
  }

  ghost predicate AtStart(plans: Plans, s: State, i: nat) {
    i < |plans| == |s.attempts| && s.attempts[i] == Attempt(0, 0, Acquiring) && OthersLeaveDevices(plans, s.open, i)
  }

  lemma PlanSucceeds(plans: Plans, events: seq<Event>, i: nat)
    requires AtStart(plans, Run(plans, events), i) && forall rdev :: CountExcl(plans[i], rdev) <= 1
    ensures Alone(plans, Run(plans, events), i, |plans[i]| + 1).attempts[i].phase.Holding?
  {
    hide Run, CountExcl, Busy;
    RunInv(plans, events);
    AloneOpens(plans, Run(plans, events), i, |plans[i]|);
  }

  /** If no other attempt has one of the devices, then the lock is gained. */
  lemma LoneAttemptSucceeds(tree: Tree, requests: seq<Request>, events: seq<Event>, i: nat)
    requires Coherent(tree) && i < |requests|
    requires AtStart(PlansOf(tree, requests), Run(PlansOf(tree, requests), events), i)
    ensures var plans := PlansOf(tree, requests);
      Alone(plans, Run(plans, events), i, |plans[i]| + 1).attempts[i].phase.Holding?
  {
    hide Siblings, Run, Collect, Plan, AtStart;
    var plans := PlansOf(tree, requests);
    forall rdev
      ensures CountExcl(plans[i], rdev) <= 1
    {
      ExclAtMostOnce(tree, requests[i], rdev);
    }
    PlanSucceeds(plans, events, i);
  }

  lemma ExclAtMostOnce(tree: Tree, r: Request, rdev: int)
    requires Coherent(tree)
    ensures CountExcl(PlanOf(tree, r), rdev) <= 1
  {
    hide Plan, Siblings;
    if r.path in tree && IsScsi(r.std) && Collect(tree, tree[r.path].address, r.allowMissing) == Ok {
      ExclOnce(tree, r.path, Siblings(tree, tree[r.path].address.value, NUM_STD_PATHS), rdev);
    }
  }

  // ---------- when two attempts may both hold their locks

  predicate BothHold(s: State) {
    |s.attempts| == 2 && s.attempts[0].phase.Holding? && s.attempts[1].phase.Holding?
  }

  ghost predicate MayBothHold(plans: Plans) {
    exists events :: BothHold(Run(plans, events))
  }

  ghost predicate Disjoint(plans: Plans)
    requires |plans| == 2
  {
    forall rdev :: CountExcl(plans[0], rdev) == 0 || CountExcl(plans[1], rdev) == 0
  }

  ghost predicate ExclOnceEach(plans: Plans) {
    forall i, rdev :: 0 <= i < |plans| ==> plans[i] != [] && CountExcl(plans[i], rdev) <= 1
  }

  function Repeated(i: nat, n: nat): seq<Event> {
    seq(n, _ => Event(i, true))
  }

  lemma {:induction false} AloneIsRun(plans: Plans, events: seq<Event>, i: nat, n: nat)
    ensures Run(plans, events + Repeated(i, n)) == Alone(plans, Run(plans, events), i, n)
  {
    hide Step;
    var all := events + Repeated(i, n);
    if n == 0 {
      assert all == events;
    } else {
      AloneIsRun(plans, events, i, n - 1);
      assert all[..|all| - 1] == events + Repeated(i, n - 1);
      assert all[|all| - 1] == Event(i, true);
    }
  }

  lemma {:induction false} AloneLeavesOthers(plans: Plans, s: State, i: nat, n: nat, j: nat)
    requires |s.attempts| == |plans| && j < |plans| && i != j
    ensures Alone(plans, s, i, n).attempts[j] == s.attempts[j]
  {
    hide Busy;
    if n > 0 {
      AloneLeavesOthers(plans, s, i, n - 1, j);
    }
  }

  /** The first attempt has got its lock. The devices of the second one are not concerned. */
  lemma SecondIsFree(plans: Plans, s: State)
    requires |plans| == 2 && Inv(plans, s) && Disjoint(plans)
    ensures OthersLeaveDevices(plans, s.open, 1)
  {
    forall d, k | d in s.open && d.0 != 1 && 0 <= k < |plans[1]| && plans[1][k].excl
      ensures !Excl(plans, d, plans[1][k].file.rdev)
    {
      var rdev := plans[1][k].file.rdev;
      CountPositive(plans[1], rdev, k);
      if Excl(plans, d, rdev) {
        CountPositive(plans[0], rdev, d.1);
      }
    }
  }

  lemma OnceEach(plans: Plans, i: nat)
    requires i < |plans| && ExclOnceEach(plans)
    ensures plans[i] != [] && forall rdev :: CountExcl(plans[i], rdev) <= 1
  {}

  lemma NoneOpen(plans: Plans)
    requires |plans| == 2
    ensures OthersLeaveDevices(plans, Run(plans, []).open, 0)
  {}

  lemma OneAfterTheOther(plans: Plans)
    requires |plans| == 2 && ExclOnceEach(plans) && Disjoint(plans)
    ensures MayBothHold(plans)
  {
    hide Inv, CountExcl, Disjoint, Step, OthersLeaveDevices, ExclOnceEach;
    var first := Repeated(0, |plans[0]| + 1);
    var s0 := Run(plans, []);
    OnceEach(plans, 0);
    OnceEach(plans, 1);
    NoneOpen(plans);
    PlanSucceeds(plans, [], 0);
    AloneIsRun(plans, [], 0, |plans[0]| + 1);
    AloneLeavesOthers(plans, s0, 0, |plans[0]| + 1, 1);
    assert [] + first == first;
    var s1 := Run(plans, first);
    RunInv(plans, first);
    SecondIsFree(plans, s1);
    PlanSucceeds(plans, first, 1);
    AloneIsRun(plans, first, 1, |plans[1]| + 1);
    AloneLeavesOthers(plans, s1, 1, |plans[1]| + 1, 0);
    assert BothHold(Run(plans, first + Repeated(1, |plans[1]| + 1)));
  }

  lemma DisjointIfBothHold(plans: Plans)
    requires |plans| == 2 && MayBothHold(plans)
    ensures Disjoint(plans)
  {
    hide Inv, CountExcl, Run;
    var events :| BothHold(Run(plans, events));
    RunInv(plans, events);
    forall rdev
      ensures CountExcl(plans[0], rdev) == 0 || CountExcl(plans[1], rdev) == 0
    {
      HoldersAreDisjoint(plans, Run(plans, events), 0, 1, rdev);
    }
  }

  /** A request locks the device of its path and those of the siblings. */
  predicate Locks(tree: Tree, r: Request, rdev: int) {
    && r.path in tree
    && (tree[r.path].rdev == rdev ||
        (IsScsi(r.std) && tree[r.path].address.Some? &&
         var siblings := Siblings(tree, tree[r.path].address.value, NUM_STD_PATHS);
         HasRdev(tree, siblings, |siblings|, rdev)))
  }

  lemma LockedOnce(tree: Tree, r: Request, rdev: int)
    requires Coherent(tree) && PlanOf(tree, r) != []
    ensures CountExcl(PlanOf(tree, r), rdev) == if Locks(tree, r, rdev) then 1 else 0
  {
    hide Plan, Siblings, HasRdev;
    if IsScsi(r.std) {
      ExclOnce(tree, r.path, Siblings(tree, tree[r.path].address.value, NUM_STD_PATHS), rdev);
    } else {
      assert [Opening(r.path, tree[r.path], true)][..0] == [];
    }
  }

  /** Two requests whose search for siblings does not fail may both hold their locks exactly if the devices
      of their paths and siblings are all different. */
  lemma WhenBothHold(tree: Tree, r: Request, q: Request)
    requires Coherent(tree) && PlanOf(tree, r) != [] && PlanOf(tree, q) != []
    ensures MayBothHold(PlansOf(tree, [r, q])) <==> !exists rdev :: Locks(tree, r, rdev) && Locks(tree, q, rdev)
  {
    hide PlanOf, Locks, CountExcl, MayBothHold;
    var plans := PlansOf(tree, [r, q]);
    forall rdev
      ensures CountExcl(plans[0], rdev) == (if Locks(tree, r, rdev) then 1 else 0)
      ensures CountExcl(plans[1], rdev) == (if Locks(tree, q, rdev) then 1 else 0)
    {
      LockedOnce(tree, r, rdev);
      LockedOnce(tree, q, rdev);
    }
    if Disjoint(plans) {
      OneAfterTheOther(plans);
    } else if MayBothHold(plans) {
      DisjointIfBothHold(plans);
    }
  }

  /** A request for the SCSI drive at a given address of which no sibling can be found. */
  predicate Lonely(tree: Tree, r: Request, a: Address) {
    && r.path in tree && IsScsi(r.std) && tree[r.path].address.Some? && SameDrive(tree[r.path].address.value, a)
    && Siblings(tree, a, NUM_STD_PATHS) == [] && r.allowMissing
  }

  lemma LonelyPlan(tree: Tree, r: Request, a: Address)
    requires Lonely(tree, r, a)
    ensures r.path in tree && PlanOf(tree, r) == [Opening(r.path, tree[r.path], true)]
  {
    hide Siblings;
    SameSiblings(tree, tree[r.path].address.value, a, NUM_STD_PATHS);
  }

  lemma CountSingle(o: Opening, rdev: int)
    requires o.excl
    ensures CountExcl([o], rdev) == if o.file.rdev == rdev then 1 else 0
  {
    assert [o][..0] == [];
  }

  /** Without siblings, exclusion depends on the device numbers: two holders of locks for the same drive are possible
      exactly if the paths have different ones. */
  lemma ExclusionWithoutSiblings(tree: Tree, r: Request, q: Request, a: Address)
    requires Lonely(tree, r, a) && Lonely(tree, q, a)
    ensures MayBothHold(PlansOf(tree, [r, q])) <==> tree[r.path].rdev != tree[q.path].rdev
  {
    hide PlanOf, CountExcl, MayBothHold, Lonely;
    LonelyPlan(tree, r, a);
    LonelyPlan(tree, q, a);
    var plans := PlansOf(tree, [r, q]);
    forall rdev
      ensures CountExcl(plans[0], rdev) == (if tree[r.path].rdev == rdev then 1 else 0)
      ensures CountExcl(plans[1], rdev) == (if tree[q.path].rdev == rdev then 1 else 0)
    {
      CountSingle(plans[0][0], rdev);
      CountSingle(plans[1][0], rdev);
    }
    var rdev := tree[r.path].rdev;
    assert CountExcl(plans[0], rdev) == 1;
    assert rdev == tree[q.path].rdev ==> CountExcl(plans[1], rdev) == 1;
    if rdev != tree[q.path].rdev {
      OneAfterTheOther(plans);
    } else if MayBothHold(plans) {
      DisjointIfBothHold(plans);
    }
  }

  const ADDRESS := Address(0, 0, 0, 0, 0)

  /** Two files of the same drive with different device numbers. The standard files do not tell their address. */
  function TwoFiles(): Tree {
    map[Other("a") := File(1, 1, 10, Some(ADDRESS)), Other("b") := File(1, 2, 11, Some(ADDRESS)),
        Sr(0) := File(1, 3, 10, None), Sr(1) := File(1, 4, 11, None)]
  }

  lemma NoSiblings()
    ensures Siblings(TwoFiles(), ADDRESS, NUM_STD_PATHS) == []
  {
    hide Siblings, Enumerate;
    var siblings := Siblings(TwoFiles(), ADDRESS, NUM_STD_PATHS);
    if siblings != [] {
      SiblingsAreAll(TwoFiles(), ADDRESS, NUM_STD_PATHS, siblings[0]);
    }
  }

  /** Without siblings there is no mutual exclusion between different device numbers of the same drive. */
  lemma WithoutSiblingsNoExclusion()
    ensures MayBothHold(PlansOf(TwoFiles(), [Request(Other("a"), Sr(0), true), Request(Other("b"), Sr(1), true)]))
  {
    hide Siblings, MayBothHold;
    NoSiblings();
    ExclusionWithoutSiblings(TwoFiles(), Request(Other("a"), Sr(0), true), Request(Other("b"), Sr(1), true), ADDRESS);
  }
}
