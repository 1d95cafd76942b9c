/** What the invariant of the fifo means for every run: delivery, counters, memory and progress. */
module FifoRuns {
  import opened Fifo
  import opened FifoSafety
  import opened FifoDelivery

  // ---------- delivery

  /** The bytes handed out are always the first bytes of the input. */
  lemma DeliveredIsPrefix(c: Config, schedule: seq<Thread>)
    requires Aligned(c)
    ensures Run(c, schedule).delivered <= c.input
  {
    hide Run, RingOk, PositionsAligned, ShovellerOk, FlagsOk;
    RunInv(c, schedule);
  }

  /** End of data, or any end after an input without error, means that the whole input has been handed out. */
  lemma WholeInput(c: Config, schedule: seq<Thread>)
    requires Aligned(c)
    ensures var s := Run(c, schedule);
      s.consumer.Over? && (s.consumer.ret == 0 || !c.fails) ==> s.consumer.ret == 0 && s.delivered == c.input
  {
    hide Run, RingOk, PositionsAligned, ShovellerOk;
    RunInv(c, schedule);
    var s := Run(c, schedule);
    assert s.delivered == c.input[..|s.delivered|];
    assert c.input[..|c.input|] == c.input;
  }

  /** After the end, what has not been handed out is exactly what is left unread in the ring. So bytes are missing
      exactly if the positions differ. */
  lemma LossIsUnread(c: Config, schedule: seq<Thread>)
    requires Aligned(c)
    ensures var s := Run(c, schedule);
      s.consumer.Over? ==>
        && s.readpos < |s.ring| && s.writepos < |s.ring|
        && s.delivered + Content(s.ring, s.readpos, s.writepos) == c.input
        && (s.delivered == c.input <==> s.readpos == s.writepos)
  {
    hide Run, PositionsAligned, ShovellerOk, Content;
    RunInv(c, schedule);
    var s := Run(c, schedule);
    UnreadBytes(c, s);
    if s.consumer.Over? {
      EmptyAtEnd(c, s);
      var n := |s.delivered|;
      assert s.delivered == c.input[..n];
      assert c.input[..n] + c.input[n..|c.input|] == c.input;
    }
  }

  ghost predicate Reached(c: Config, s: State)
    requires |c.junk| == c.inpReadSize
  {
    exists schedule :: Run(c, schedule) == s
  }

  lemma Reach(c: Config, s: State, t: Thread, s': State)
    requires |c.junk| == c.inpReadSize && Reached(c, s) && Step(c, s, t) == s'
    ensures Reached(c, s')
  {
    hide Step;
    var schedule :| Run(c, schedule) == s;
    assert (schedule + [t])[..|schedule|] == schedule;
    assert Run(c, schedule + [t]) == s';
  }

  // ---------- reads which need two copies

  /** The copy of fifo_read puts the next bytes of the ring behind the ones which the call already got. */
  predicate CopyIsRight(c: Config, s: State)
    requires s.consumer.Copy?
  {
    var progress, diff, rpos := c.want - s.consumer.todo, s.consumer.diff, s.consumer.rpos;
    var s' := CopyStep(c, s);
    && !s'.outOfBounds && 0 <= progress && progress + diff <= |s'.buffer| && progress <= |s.buffer|
    && rpos + diff <= |s.ring|
    && s'.buffer[..progress] == s.buffer[..progress]
    && s'.buffer[progress..progress + diff] == s.ring[rpos..rpos + diff]
  }

  ghost predicate AlwaysRight(c: Config, s: State)
    requires s.consumer.Copy?
  {
    forall ring, buffer :: |ring| == |s.ring| && |buffer| == |s.buffer| ==>
      CopyIsRight(c, s.(ring := ring, buffer := buffer))
  }

  lemma LaterCopyIsWrong(c: Config, s: State)
    requires s.consumer.Copy? && 0 < s.consumer.diff <= s.consumer.todo < c.want == |s.buffer|
    requires forall k :: 0 <= k < |s.ring| ==> s.ring[k] == 1
    requires s.buffer[0] == 0
    ensures !CopyIsRight(c, s)
  {
    var progress := c.want - s.consumer.todo;
    var s' := CopyStep(c, s);
    if !s'.outOfBounds {
      var from, diff := progress + s.consumer.rpos, s.consumer.diff;
      assert s'.buffer[0] == s.ring[from] == 1;
      assert s'.buffer[..progress][0] != s.buffer[..progress][0];
    }
  }

  /** Wherever the ring has the bytes, the copy is right for all contents of ring and buffer
      exactly if it is the first one of the call. */
  lemma CopyRightIfFirst(c: Config, s: State)
    requires s.consumer.Copy? && !s.freed && !s.outOfBounds && s.consumer.rpos + s.consumer.diff <= |s.ring|
    requires 0 < s.consumer.diff <= s.consumer.todo <= c.want == |s.buffer|
    ensures AlwaysRight(c, s) <==> s.consumer.todo == c.want
  {
    if s.consumer.todo < c.want {
      hide CopyIsRight, CopyStep;
      var ring, buffer := seq(|s.ring|, _ => 1), seq(|s.buffer|, _ => 0);
      LaterCopyIsWrong(c, s.(ring := ring, buffer := buffer));
    }
  }

  // ---------- counters and memory

  /** Outside of the calls of fifo_read, the ring holds what has been read but not handed out. */
  lemma CountersAtRest(c: Config, schedule: seq<Thread>)
    requires Aligned(c)
    ensures var s := Run(c, schedule);
      s.consumer.Idle? && !s.shoveller.Publish? ==>
        && s.readpos < |s.ring| && s.writepos < |s.ring|
        && s.inCounter == s.outCounter + |Content(s.ring, s.readpos, s.writepos)|
        && s.outCounter <= s.inCounter <= |c.input|
        && Content(s.ring, s.readpos, s.writepos) == c.input[s.outCounter..s.inCounter]
  {
    hide Run, PositionsAligned, ShovellerOk, FlagsOk, Content;
    RunInv(c, schedule);
  }

  /** The ring is never full: equal positions mean empty, even before the read position wraps around. */
  lemma NeverFull(c: Config, schedule: seq<Thread>)
    requires Aligned(c)
    ensures var s := Run(c, schedule);
      && |s.ring| == c.size && s.readpos <= c.size && s.writepos < c.size
      && |Content(s.ring, s.readpos, s.writepos)| < c.size
      && (s.readpos == s.writepos ==> Content(s.ring, s.readpos, s.writepos) == [])
  {
    hide Run, PositionsAligned, ShovellerOk, FlagsOk, ConsumerOk;
    RunInv(c, schedule);
    UnreadBytes(c, Run(c, schedule));
  }

  /** No access outside of the ring, none to a freed ring, and no freed ring if a copy may follow. */
  lemma NoStrayAccess(c: Config, schedule: seq<Thread>)
    requires Aligned(c)
    ensures var s := Run(c, schedule);
      !s.outOfBounds && (s.freed ==> !s.consumer.Copy? && (s.consumer.ComputeDiff? ==> s.readpos == s.writepos))
  {
    hide Run, PositionsAligned, ShovellerOk, Content;
    RunInv(c, schedule);
    var s := Run(c, schedule);
    UnreadBytes(c, s);
    if s.consumer.Copy? {
      hide Inv;
      CopyData(c, s);
    }
  }

  // ---------- progress

  /** A step of a wait loop which finds nothing to do, or of a thread which has ended. */
  predicate Polls(c: Config, s: State, t: Thread) {
    if t == ShovellerThread then
      match s.shoveller
      case AwaitRoom(wpos) => FreeBytes(c.size, wpos, s.readpos) < c.inpReadSize
      case DrainPos => s.readpos != s.writepos
      case DrainEnd => s.endOfConsumption == 0
      case ShovellerDone => true
      case _ => false
    else
      match s.consumer
      case CompareEmpty(_, rpos) => rpos == s.writepos
      case TestInputEnd(_, _) => !s.endOfInput
      case TestInputError(_, _) => !s.inputError
      case Over(_) => true
      case _ => false
  }

  function ShovellerRank(shoveller: Shoveller): nat {
    match shoveller
    case OuterTest => 9
    case AwaitRoom(_) => 8
    case ReadInput(_, _) => 7
    case Publish(_, _, _) => 10
    case ReportError => 6
    case ReportEnd => 5
    case DrainPos => 4
    case DrainEnd => 4
    case ClaimTest => 3
    case ClaimSet => 2
    case FreeRing => 1
    case ShovellerDone => 0
  }

  function ShovellerWork(c: Config, s: State): int {
    11 * (|c.input| - s.inCounter) + ShovellerRank(s.shoveller)
  }

  /** In a call which already got bytes, the remaining steps come on top. */
  function Extra(c: Config, todo: nat): nat {
    if todo < c.want then 14 else 0
  }

  function ConsumerRank(c: Config, consumer: Consumer): nat {
    match consumer
    case Idle => 12
    case LoopTest(todo) => 11 + Extra(c, todo)
    case CompareEmpty(todo, _) => 10 + Extra(c, todo)
    case TestInputEnd(todo, _) => 10 + Extra(c, todo)
    case TestInputError(todo, _) => 10 + Extra(c, todo)
    case ComputeDiff(todo, _) => 9 + Extra(c, todo)
    case Copy(todo, _, _) => 8 + Extra(c, todo)
    case Advance(todo, _) => 7 + Extra(c, todo)
    case Wrap(_, _) => 26
    case Finish(todo) => 5 + Extra(c, todo)
    case Over(_) => 0
  }

  function ConsumerWork(c: Config, s: State): int {
    20 * (|c.input| - Consumed(c, s)) + ConsumerRank(c, s.consumer)
  }

  /** An upper bound for the steps which are still to be done. */
  function Work(c: Config, s: State): int {
    ShovellerWork(c, s) + ConsumerWork(c, s)
  }

  lemma ReadWorks(c: Config, s: State)
    requires Inv(c, s) && s.shoveller.ReadInput?
    ensures var s' := ReadStep(c, s);
      s'.consumer == s.consumer && s'.delivered == s.delivered && ShovellerWork(c, s') < ShovellerWork(c, s)
  {
    hide ConsumerOk, FlagsOk, PositionsAligned, Filled, InputBuffer, Content;
  }

  predicate ShovellerWorked(c: Config, s: State, s': State) {
    && s'.consumer == s.consumer && s'.delivered == s.delivered
    && if Polls(c, s, ShovellerThread) then ShovellerWork(c, s') == ShovellerWork(c, s)
       else ShovellerWork(c, s') < ShovellerWork(c, s)
  }

  lemma LoopWorks(c: Config, s: State)
    requires |c.junk| == c.inpReadSize && InLoop(s.shoveller) && !s.shoveller.ReadInput?
    ensures ShovellerWorked(c, s, ShovellerStep(c, s))
  {
    hide FreeBytes, NextWritePos, TransEnd, ReadStep;
    match s.shoveller
    {
      case OuterTest => {}
      case AwaitRoom(_) => {}
      case Publish(_, _, _) => {}
      case ReportError => {}
    }
  }

  lemma EndWorks(c: Config, s: State)
    requires |c.junk| == c.inpReadSize && !InLoop(s.shoveller)
    ensures ShovellerWorked(c, s, ShovellerStep(c, s))
  {
    hide FreeBytes, NextWritePos, TransEnd, ReadStep;
    match s.shoveller
    {
      case ReportEnd => {}
      case DrainPos => {}
      case DrainEnd => {}
      case ClaimTest => {}
      case ClaimSet => {}
      case FreeRing => {}
      case ShovellerDone => {}
    }
  }

  lemma ShovellerWorks(c: Config, s: State)
    requires Inv(c, s)
    ensures ShovellerWorked(c, s, ShovellerStep(c, s))
  {
    hide RingOk, PositionsAligned, ConsumerOk, FlagsOk, ShovellerOk, ReadStep, ShovellerStep, ShovellerWork;
    if s.shoveller.ReadInput? {
      ReadWorks(c, s);
      ReadIsStep(c, s);
    } else if InLoop(s.shoveller) {
      LoopWorks(c, s);
    } else {
      EndWorks(c, s);
    }
  }

  predicate RankFalls(c: Config, s: State) {
    var rank, rank' := ConsumerRank(c, s.consumer), ConsumerRank(c, ConsumerStep(c, s).consumer);
    if Polls(c, s, ConsumerThread) then rank' == rank
    else if s.consumer.Advance? then rank' == rank + 19
    else rank' < rank
  }

  lemma WaitingRanks(c: Config, s: State)
    requires ConsumerOk(c, s) && Waiting(s)
    ensures RankFalls(c, s)
  {
    hide Holds, Consumed, Readable, CopyStep;
    match s.consumer
    {
      case Idle => {}
      case LoopTest(_) => {}
      case CompareEmpty(_, _) => {}
      case TestInputEnd(_, _) => {}
      case TestInputError(_, _) => {}
      case Finish(_) => {}
      case Over(_) => {}
    }
  }

  lemma TakingRanks(c: Config, s: State)
    requires ConsumerOk(c, s) && !Waiting(s)
    ensures RankFalls(c, s)
  {
    hide Holds, Consumed, Readable, FinishStep;
    match s.consumer
    {
      case ComputeDiff(_, _) => {}
      case Copy(_, _, _) => {}
      case Advance(_, _) => {}
      case Wrap(_, _) => {}
    }
  }

  lemma ConsumerTakes(c: Config, s: State)
    requires Inv(c, s)
    ensures Consumed(c, ConsumerStep(c, s)) == Consumed(c, s) + if s.consumer.Advance? then s.consumer.diff else 0
  {
    hide RingOk, FlagsOk, PositionsAligned, ShovellerOk, ConsumerOk, Consumed, ConsumerStep, CopyStep;
    match s.consumer
    {
      case ComputeDiff(_, _) => DiffTakesNothing(c, s);
      case Copy(_, _, _) => { CopyNext(c, s); CopyTakesNothing(c, s); }
      case Advance(_, _) => AdvanceRing(c, s);
      case Wrap(_, _) => WrapRing(c, s);
      case _ => WaitingData(c, s);
    }
  }

  lemma DiffTakesNothing(c: Config, s: State)
    requires s.consumer.ComputeDiff?
    ensures Consumed(c, ConsumerStep(c, s)) == Consumed(c, s)
  {}

  lemma CopyTakesNothing(c: Config, s: State)
    requires s.consumer.Copy?
    ensures Consumed(c, CopyStep(c, s)) == Consumed(c, s)
  {}

  lemma ConsumerUntouched(c: Config, s: State)
    ensures ConsumerStep(c, s).shoveller == s.shoveller && ConsumerStep(c, s).inCounter == s.inCounter
  {
    match s.consumer
    {
      case Finish(_) => {}
      case Copy(_, _, _) => {}
      case _ => {}
    }
  }

  lemma AdvancesByOne(c: Config, s: State)
    requires ConsumerOk(c, s) && s.consumer.Advance?
    ensures s.consumer.diff >= 1
  {}

  lemma ConsumerWorks(c: Config, s: State)
    requires Inv(c, s)
    ensures var s' := ConsumerStep(c, s);
      s'.shoveller == s.shoveller && s'.inCounter == s.inCounter &&
      if Polls(c, s, ConsumerThread) then ConsumerWork(c, s') == ConsumerWork(c, s)
      else ConsumerWork(c, s') < ConsumerWork(c, s)
  {
    hide RingOk, FlagsOk, PositionsAligned, ShovellerOk, ConsumerOk, Consumed, ConsumerStep, ConsumerRank;
    if Waiting(s) {
      WaitingRanks(c, s);
    } else {
      TakingRanks(c, s);
    }
    ConsumerTakes(c, s);
    ConsumerUntouched(c, s);
    if s.consumer.Advance? {
      AdvancesByOne(c, s);
    }
  }

  /** A step either polls or makes the remaining work less. */
  lemma StepWorks(c: Config, s: State, t: Thread)
    requires Inv(c, s)
    ensures var s' := Step(c, s, t);
      if Polls(c, s, t) then Work(c, s') == Work(c, s) else Work(c, s') < Work(c, s)
  {
    hide Inv, Polls, ConsumerStep, ShovellerStep;
    if t == ShovellerThread {
      ShovellerWorks(c, s);
    } else {
      ConsumerWorks(c, s);
    }
  }

  /** The number of steps of a schedule which do not poll. */
  function Active(c: Config, schedule: seq<Thread>): nat
    requires |c.junk| == c.inpReadSize
  {
    if schedule == [] then 0
    else
      var before := schedule[..|schedule| - 1];
      Active(c, before) + if Polls(c, Run(c, before), schedule[|schedule| - 1]) then 0 else 1
  }

  lemma {:induction false} WorkIsDone(c: Config, schedule: seq<Thread>)
    requires Aligned(c)
    ensures Active(c, schedule) + Work(c, Run(c, schedule)) <= Work(c, Init(c))
  {
    hide Inv, Work, Polls, Step;
    if schedule != [] {
      var before := schedule[..|schedule| - 1];
      WorkIsDone(c, before);
      RunInv(c, before);
      StepWorks(c, Run(c, before), schedule[|schedule| - 1]);
    }
  }

  /** Every run has only finitely many steps which do not poll, however the threads take turns. */
  lemma FinitelyManySteps(c: Config, schedule: seq<Thread>)
    requires Aligned(c)
    ensures Active(c, schedule) <= 31 * |c.input| + 21
  {
    hide Inv, Polls, Step, Run;
    WorkIsDone(c, schedule);
    RunInv(c, schedule);
    WorkLeft(c, Run(c, schedule));
  }

  lemma WorkLeft(c: Config, s: State)
    requires Inv(c, s)
    ensures Work(c, s) >= 0
  {
    hide FlagsOk, PositionsAligned, ShovellerOk, ConsumerOk, Consumed, ConsumerRank;
  }

  /** The state after the steps of a schedule which begins in state s. */
  function RunFrom(c: Config, s: State, schedule: seq<Thread>): State
    requires |c.junk| == c.inpReadSize
    decreases |schedule|
  {
    if schedule == [] then s else RunFrom(c, Step(c, s, schedule[0]), schedule[1..])
  }

  predicate Ended(s: State) {
    s.shoveller.ShovellerDone? && s.consumer.Over?
  }

  lemma {:induction false} Continued(c: Config, s: State, first: seq<Thread>, second: seq<Thread>)
    requires |c.junk| == c.inpReadSize
    ensures RunFrom(c, s, first + second) == RunFrom(c, RunFrom(c, s, first), second)
    decreases |first|
  {
    hide Step;
    if first == [] {
      assert first + second == second;
    } else {
      assert (first + second)[1..] == first[1..] + second;
      Continued(c, Step(c, s, first[0]), first[1..], second);
    }
  }

  /** Not more than n steps of thread t make the remaining work less. */
  ghost predicate Proceeds(c: Config, s: State, t: Thread, n: nat)
    requires |c.junk| == c.inpReadSize
    decreases n
  {
    !Polls(c, s, t) || (n > 0 && Proceeds(c, Step(c, s, t), t, n - 1))
  }

  /** A waiting consumer goes on if there are unread bytes or the end of the input has been reported. */
  lemma ConsumerProceeds(c: Config, s: State)
    requires Inv(c, s) && !s.consumer.Over? && (s.endOfInput || s.readpos != s.writepos)
    ensures Proceeds(c, s, ConsumerThread, 2)
  {
    hide RingOk, FlagsOk, PositionsAligned, ShovellerOk, RoundOk;
    match s.consumer
    {
      case CompareEmpty(_, _) => {}
      case TestInputEnd(todo, rpos) => {
        var s1 := s.(consumer := TestInputError(todo, rpos));
        assert !s.endOfInput ==> Step(c, s, ConsumerThread) == s1;
      }
      case TestInputError(_, _) => {}
      case _ => {}
    }
  }

  /** After the end of consumption a waiting shoveller goes on. */
  lemma ShovellerProceeds(c: Config, s: State)
    requires Inv(c, s) && s.consumer.Over? && !s.shoveller.ShovellerDone?
    ensures Proceeds(c, s, ShovellerThread, 1)
  {
    hide RingOk, PositionsAligned, ShovellerOk, ConsumerOk;
    match s.shoveller
    {
      case DrainPos => { assert s.readpos != s.writepos ==> Step(c, s, ShovellerThread) == s.(shoveller := DrainEnd); }
      case DrainEnd => {}
      case _ => {}
    }
  }

  /** Shoveller and consumer are never both stuck in their wait loops. */
  lemma NeverBothStuck(c: Config, s: State)
    requires Inv(c, s) && !Ended(s)
    ensures Proceeds(c, s, ShovellerThread, 1) || Proceeds(c, s, ConsumerThread, 2)
  {
    hide RingOk, PositionsAligned, ConsumerOk, ShovellerStep, ConsumerStep, Content, FreeBytes;
    if s.consumer.Over? {
      ShovellerProceeds(c, s);
    } else if s.endOfInput || s.readpos != s.writepos {
      ConsumerProceeds(c, s);
    } else {
      EmptyRingHasRoom(c, s);
    }
  }

  lemma InvConfig(c: Config, s: State)
    requires Inv(c, s)
    ensures |c.junk| == c.inpReadSize
  {}

  lemma EmptyRingHasRoom(c: Config, s: State)
    requires IsConfig(c) && s.readpos == s.writepos
    ensures FreeBytes(c.size, s.writepos, s.readpos) >= c.inpReadSize
  {}

  lemma {:induction false} ProceedsToLess(c: Config, s: State, t: Thread, n: nat) returns (schedule: seq<Thread>)
    requires Inv(c, s) && Proceeds(c, s, t, n)
    ensures var s' := RunFrom(c, s, schedule); Inv(c, s') && Work(c, s') < Work(c, s)
    decreases n
  {
    hide Inv, Polls, ShovellerStep, ConsumerStep, Work;
    InvConfig(c, s);
    var s1 := Step(c, s, t);
    ShovellerInv(c, s);
    ConsumerInv(c, s);
    StepWorks(c, s, t);
    if !Polls(c, s, t) {
      schedule := [t];
      assert RunFrom(c, s1, []) == s1;
    } else {
      var rest := ProceedsToLess(c, s1, t, n - 1);
      schedule := [t] + rest;
      assert schedule[1..] == rest;
    }
  }

  /** Every run can be continued until both threads have ended. */
  lemma {:induction false} CanEnd(c: Config, s: State)
    requires Inv(c, s)
    ensures exists schedule :: Ended(RunFrom(c, s, schedule))
    decreases Work(c, s)
  {
    hide Inv, Proceeds, Work;
    InvConfig(c, s);
    if Ended(s) {
      assert RunFrom(c, s, []) == s;
    } else {
      NeverBothStuck(c, s);
      WorkLeft(c, s);
      var first: seq<Thread>;
      if Proceeds(c, s, ShovellerThread, 1) {
        first := ProceedsToLess(c, s, ShovellerThread, 1);
      } else {
        first := ProceedsToLess(c, s, ConsumerThread, 2);
      }
      var s' := RunFrom(c, s, first);
      WorkLeft(c, s');
      CanEnd(c, s');
      var second :| Ended(RunFrom(c, s', second));
      Continued(c, s, first, second);
    }
  }

  // ---------- progress of every run

  /** In every interleaving, as long as not both threads have ended, one of them is not stuck. */
  lemma NoDeadlock(c: Config, schedule: seq<Thread>)
    requires Aligned(c)
    ensures var s := Run(c, schedule);
      Ended(s) || Proceeds(c, s, ShovellerThread, 1) || Proceeds(c, s, ConsumerThread, 2)
  {
    hide Run, Inv, Proceeds;
    RunInv(c, schedule);
    if !Ended(Run(c, schedule)) {
      NeverBothStuck(c, Run(c, schedule));
    }
  }

  lemma {:induction false} RunContinued(c: Config, first: seq<Thread>, second: seq<Thread>)
    requires |c.junk| == c.inpReadSize
    ensures Run(c, first + second) == RunFrom(c, Run(c, first), second)
    decreases |second|
  {
    hide Step;
    if second == [] {
      assert first + second == first;
    } else {
      var next := first + [second[0]];
      assert next[..|next| - 1] == first;
      assert first + second == next + second[1..];
      RunContinued(c, next, second[1..]);
    }
  }

  /** Every schedule is the start of one after which both threads have ended. */
  lemma EveryRunCanEnd(c: Config, schedule: seq<Thread>)
    requires Aligned(c)
    ensures exists rest :: Ended(Run(c, schedule + rest))
  {
    hide Run, Inv;
    RunInv(c, schedule);
    CanEnd(c, Run(c, schedule));
    var rest :| Ended(RunFrom(c, Run(c, schedule), rest));
    RunContinued(c, schedule, rest);
  }

  // ---------- who has ended consumption

  /** end_of_consumption: 1 is set by fifo_read at its end, 2 by the shoveller after the drain.
      The ring is freed exactly when the shoveller has ended. */
  predicate EndFlag(s: State) {
    && (|| s.endOfConsumption == 0
        || (s.endOfConsumption == 1 && s.consumer.Over?)
        || (s.endOfConsumption == 2 && (s.shoveller.FreeRing? || s.shoveller.ShovellerDone?)))
    && (s.freed <==> s.shoveller.ShovellerDone?)
  }

  lemma {:induction false} EndFlagTells(c: Config, schedule: seq<Thread>)
    requires |c.junk| == c.inpReadSize
    ensures EndFlag(Run(c, schedule))
  {
    hide Step;
    if schedule != [] {
      EndFlagTells(c, schedule[..|schedule| - 1]);
      EndFlagStep(c, Run(c, schedule[..|schedule| - 1]), schedule[|schedule| - 1]);
    }
  }

  lemma EndFlagStep(c: Config, s: State, t: Thread)
    requires |c.junk| == c.inpReadSize && EndFlag(s)
    ensures EndFlag(Step(c, s, t))
  {
    hide EndFlag, ShovellerStep, ConsumerStep;
    EndFlagShoveller(c, s);
    EndFlagConsumer(c, s);
  }

  lemma EndFlagShoveller(c: Config, s: State)
    requires |c.junk| == c.inpReadSize && EndFlag(s)
    ensures EndFlag(ShovellerStep(c, s))
  {
    hide Filled, InputBuffer, Chunk, FreeBytes, TransEnd, NextWritePos;
    match s.shoveller
    {
      case OuterTest => {}
      case AwaitRoom(_) => {}
      case ReadInput(_, _) => {}
      case Publish(_, _, _) => {}
      case ReportError => {}
      case ReportEnd => {}
      case DrainPos => {}
      case DrainEnd => {}
      case ClaimTest => {}
      case ClaimSet => {}
      case FreeRing => {}
      case ShovellerDone => {}
    }
  }

  lemma EndFlagConsumer(c: Config, s: State)
    requires EndFlag(s)
    ensures EndFlag(ConsumerStep(c, s))
  {
    hide CopySize;
    match s.consumer
    {
      case Idle => {}
      case LoopTest(_) => {}
      case CompareEmpty(_, _) => {}
      case TestInputEnd(_, _) => {}
      case TestInputError(_, _) => {}
      case ComputeDiff(_, _) => {}
      case Copy(_, _, _) => {}
      case Advance(_, _) => {}
      case Wrap(_, _) => {}
      case Finish(_) => {}
      case Over(_) => {}
    }
  }
}
