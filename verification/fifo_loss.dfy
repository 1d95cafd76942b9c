/** For which sizes and inputs of a fifo an input error may cost the consumer its last chunk. */
module FifoLoss {
  import opened Fifo
  import opened FifoSafety
  import opened FifoDelivery
  import opened FifoRuns

  // ---------- when nothing can get lost

  /** Two chunks in the ring and an input of full chunks. */
  ghost predicate Tight(c: Config) {
    Aligned(c) && c.size == 2 * c.inpReadSize && Multiple(|c.input|, c.inpReadSize)
  }

  predicate Testing(co: Consumer) {
    co.TestInputEnd? || co.TestInputError?
  }

  /** The shoveller has not come to the end of the input and cannot do so before the consumer takes bytes. */
  predicate Held(c: Config, s: State) {
    && InLoop(s.shoveller) && !s.shoveller.ReportError? && !s.inputError
    && (Published(s) == Consumed(c, s)
        || (Published(s) - Consumed(c, s) == c.inpReadSize && (s.shoveller.OuterTest? || s.shoveller.AwaitRoom?)))
  }

  /** A consumer which is about to test for an input error has got everything, or there is no error to be seen. */
  ghost predicate Safe(c: Config, s: State)
    requires IsConfig(c)
  {
    && Multiple(s.inCounter, c.inpReadSize)
    && (s.shoveller.Publish? ==> s.shoveller.ret == c.inpReadSize)
    && (Testing(s.consumer) ==> Consumed(c, s) == |c.input| || Held(c, s))
    && (s.consumer.Over? ==> |s.delivered| == |c.input|)
  }

  lemma FullChunk(c: Config, s: State)
    requires Tight(c) && Multiple(s.inCounter, c.inpReadSize) && s.inCounter < |c.input|
    ensures Min(c.inpReadSize, |c.input| - s.inCounter) == c.inpReadSize
    ensures Multiple(s.inCounter + c.inpReadSize, c.inpReadSize)
  {
    hide Multiple;
    MultipleGap(|c.input|, s.inCounter, c.inpReadSize);
    MultipleSelf(c.inpReadSize);
    MultipleSum(s.inCounter, c.inpReadSize, c.inpReadSize);
  }

  /** As long as a chunk is unread, there is no room for another one. */
  lemma NoRoom(c: Config, s: State)
    requires Tight(c) && RingOk(c, s) && s.shoveller.AwaitRoom? && s.shoveller.wpos == s.writepos
    requires Published(s) - Consumed(c, s) == c.inpReadSize
    ensures FreeBytes(c.size, s.writepos, s.readpos) < c.inpReadSize
  {
    hide Content, FreeBytes, Multiple;
    UnreadBytes(c, s);
    FreeBytesIsRest(s.ring, s.readpos, s.writepos);
  }

  lemma ShovellerSafe(c: Config, s: State)
    requires Tight(c) && Inv(c, s) && Safe(c, s)
    ensures Safe(c, ShovellerStep(c, s))
  {
    hide Multiple, Content, PositionsAligned, ConsumerOk, FreeBytes, TransEnd, NextWritePos, Filled, Chunk;
    match s.shoveller
    {
      case OuterTest => {}
      case AwaitRoom(_) => {
        if Published(s) - Consumed(c, s) == c.inpReadSize {
          NoRoom(c, s);
        }
      }
      case ReadInput(_, _) => {
        if s.inCounter < |c.input| {
          FullChunk(c, s);
        }
      }
      case Publish(_, _, _) => {}
      case _ => {}
    }
  }

  lemma TakingSafe(c: Config, s: State)
    requires Tight(c) && Inv(c, s) && Safe(c, s) && !Waiting(s)
    ensures Safe(c, ConsumerStep(c, s))
  {
    hide Multiple, Content, PositionsAligned, ShovellerOk, CopyStep, CopySize, Holds, Readable, RingOk, FlagsOk;
    ConsumerUntouched(c, s);
    match s.consumer
    {
      case ComputeDiff(_, _) => {}
      case Copy(_, _, _) => { CopyNext(c, s); }
      case Advance(_, _) => {}
      case Wrap(_, _) => {}
    }
  }

  lemma WaitingSafe(c: Config, s: State)
    requires Tight(c) && Inv(c, s) && Safe(c, s) && Waiting(s)
    ensures Safe(c, ConsumerStep(c, s))
  {
    hide Multiple, Content, PositionsAligned, ShovellerOk, Holds;
    var s' := ConsumerStep(c, s);
    WaitingData(c, s);
    if !InLoop(s.shoveller) {
      EmptyAtEnd(c, s);
    }
    UnreadBytes(c, s);
    match s.consumer
    {
      case Idle => {}
      case LoopTest(_) => {}
      case CompareEmpty(_, _) => {}
      case TestInputEnd(_, _) => {}
      case TestInputError(_, _) => {}
      case Finish(_) => {}
      case Over(_) => {}
    }
  }

  lemma {:induction false} RunSafe(c: Config, schedule: seq<Thread>)
    requires Tight(c)
    ensures Safe(c, Run(c, schedule))
  {
    hide Inv, Safe;
    if schedule == [] {
      InitSafe(c);
    } else {
      var before := schedule[..|schedule| - 1];
      RunSafe(c, before);
      RunInv(c, before);
      ShovellerSafe(c, Run(c, before));
      if Waiting(Run(c, before)) {
        WaitingSafe(c, Run(c, before));
      } else {
        TakingSafe(c, Run(c, before));
      }
    }
  }

  lemma InitSafe(c: Config)
    requires Tight(c)
    ensures Safe(c, Init(c))
  {}

  lemma TightDelivers(c: Config, schedule: seq<Thread>)
    requires Tight(c) && Run(c, schedule).consumer.Over?
    ensures Run(c, schedule).delivered == c.input
  {
    hide Run, RingOk, PositionsAligned, ShovellerOk;
    RunInv(c, schedule);
    RunSafe(c, schedule);
    var s := Run(c, schedule);
    assert s.delivered == c.input[..|s.delivered|];
    assert c.input[..|c.input|] == c.input;
  }

  // ---------- one call of the consumer

  /** A state which can be reached and in which no thread has noticed an end yet. */
  ghost predicate Live(c: Config, s: State) {
    Inv(c, s) && Reached(c, s) && s.endOfConsumption == 0
  }

  lemma Go(c: Config, s: State, t: Thread)
    requires Inv(c, s) && Reached(c, s)
    ensures Inv(c, Step(c, s, t)) && Reached(c, Step(c, s, t))
  {
    hide Inv, ShovellerStep, ConsumerStep;
    InvConfig(c, s);
    ShovellerInv(c, s);
    ConsumerInv(c, s);
    Reach(c, s, t, Step(c, s, t));
  }

  /** Both states look the same to the shoveller, apart from the read position. */
  predicate SameInput(s: State, s': State) {
    && s'.shoveller == s.shoveller && s'.inCounter == s.inCounter && s'.writepos == s.writepos
    && s'.endOfInput == s.endOfInput && s'.inputError == s.inputError && s'.endOfConsumption == s.endOfConsumption
  }

  /** A call begins and finds unread bytes. */
  lemma CallBegins(c: Config, s: State) returns (s': State)
    requires Live(c, s) && s.consumer.Idle? && Published(s) > Consumed(c, s)
    ensures Live(c, s') && SameInput(s, s') && s'.consumer == ComputeDiff(c.want, s.readpos)
    ensures s' == s.(consumer := s'.consumer)
  {
    hide RingOk, PositionsAligned, ShovellerOk, FlagsOk, ConsumerOk;
    UnreadBytes(c, s);
    var s1 := s.(consumer := LoopTest(c.want));
    Go(c, s, ConsumerThread);
    assert Step(c, s, ConsumerThread) == s1;
    var s2 := s.(consumer := CompareEmpty(c.want, s.readpos));
    Go(c, s1, ConsumerThread);
    assert Step(c, s1, ConsumerThread) == s2;
    s' := s.(consumer := ComputeDiff(c.want, s.readpos));
    Go(c, s2, ConsumerThread);
    assert Step(c, s2, ConsumerThread) == s';
  }

  /** As many bytes as wanted are available at once. */
  lemma WantAvailable(c: Config, s: State)
    requires Inv(c, s) && s.consumer == ComputeDiff(c.want, s.readpos) && Published(s) - Consumed(c, s) >= c.want
    ensures s.readpos <= c.size && CopySize(c, s.writepos, s.readpos, c.want) == c.want
  {
    hide Content, Multiple, FlagsOk, ShovellerOk, PositionsAligned, Holds;
    UnreadBytes(c, s);
    DiffOk(c, s);
  }

  lemma CallCopies(c: Config, s: State) returns (s': State)
    requires Live(c, s) && s.consumer == ComputeDiff(c.want, s.readpos) && Published(s) - Consumed(c, s) >= c.want
    ensures Live(c, s') && SameInput(s, s') && s'.consumer == Advance(c.want, c.want) && s'.delivered == s.delivered
  {
    hide RingOk, PositionsAligned, ShovellerOk, FlagsOk, ConsumerOk, CopySize, Inv;
    InvConfig(c, s);
    WantAvailable(c, s);
    PositiveWant(c, s);
    var s1 := s.(consumer := Copy(c.want, s.readpos, c.want));
    Go(c, s, ConsumerThread);
    assert Step(c, s, ConsumerThread) == s1;
    s' := CopyStep(c, s1);
    Go(c, s1, ConsumerThread);
    CopyNext(c, s1);
    CopyData(c, s1);
  }

  lemma PositiveWant(c: Config, s: State)
    requires Inv(c, s)
    ensures c.want > 0
  {}

  lemma CallAdvances(c: Config, s: State) returns (s': State)
    requires Live(c, s) && s.consumer == Advance(c.want, c.want)
    ensures Live(c, s') && SameInput(s, s') && s'.consumer == LoopTest(0) && s'.delivered == s.delivered
  {
    hide RingOk, PositionsAligned, ShovellerOk, FlagsOk, ConsumerOk, Inv, CopyStep, FinishStep, CopySize;
    InvConfig(c, s);
    var s1 := s.(readpos := s.readpos + c.want, consumer := Wrap(c.want, c.want));
    Go(c, s, ConsumerThread);
    assert Step(c, s, ConsumerThread) == s1;
    s' := s1.(readpos := if s1.readpos >= c.size then 0 else s1.readpos, consumer := LoopTest(0));
    Go(c, s1, ConsumerThread);
    assert Step(c, s1, ConsumerThread) == s';
  }

  lemma CallEnds(c: Config, s: State) returns (s': State)
    requires Live(c, s) && s.consumer == LoopTest(0)
    ensures Live(c, s') && SameInput(s, s') && s'.consumer.Idle? && |s'.delivered| == |s.delivered| + c.want
  {
    hide RingOk, PositionsAligned, ShovellerOk, FlagsOk, ConsumerOk, Inv, CopyStep, CopySize;
    InvConfig(c, s);
    PositiveWant(c, s);
    var s1 := s.(consumer := Finish(0));
    Go(c, s, ConsumerThread);
    assert Step(c, s, ConsumerThread) == s1;
    s' := FinishStep(c, s1);
    Go(c, s1, ConsumerThread);
    BufferSize(c, s1);
  }

  lemma BufferSize(c: Config, s: State)
    requires Inv(c, s)
    ensures |s.buffer| == c.want && s.outCounter == |s.delivered|
  {
    hide RingOk;
  }

  /** A call takes as many bytes as wanted. */
  lemma OneCall(c: Config, s: State) returns (s': State)
    requires Live(c, s) && s.consumer.Idle? && Published(s) - |s.delivered| >= c.want
    ensures Live(c, s') && SameInput(s, s') && s'.consumer.Idle? && |s'.delivered| == |s.delivered| + c.want
  {
    hide Live;
    LiveInv(c, s);
    s' := CallBegins(c, s);
    s' := CallCopies(c, s');
    s' := CallAdvances(c, s');
    s' := CallEnds(c, s');
  }

  lemma LiveInv(c: Config, s: State)
    requires Live(c, s)
    ensures Inv(c, s) && c.want > 0
  {}

  /** Calls take the unread bytes, if their number is a multiple of what is wanted. */
  lemma {:induction false} TakeAll(c: Config, s: State) returns (s': State)
    requires Live(c, s) && s.consumer.Idle? && c.want > 0 && |s.delivered| <= Published(s)
    requires Multiple(Published(s) - |s.delivered|, c.want)
    ensures Live(c, s') && SameInput(s, s') && s'.consumer.Idle? && |s'.delivered| == Published(s')
    decreases Published(s) - |s.delivered|
  {
    hide Live;
    if |s.delivered| == Published(s) {
      s' := s;
    } else {
      s' := OneCall(c, s);
      s' := TakeAll(c, s');
    }
  }

  // ---------- one activation of the shoveller

  lemma ReadOutcome(c: Config, s: State)
    requires s.shoveller.ReadInput? && |c.junk| == c.inpReadSize && s.inCounter < |c.input|
    ensures var s', ret := ReadStep(c, s), Min(c.inpReadSize, |c.input| - s.inCounter);
      && s'.shoveller == Publish(ret, s.shoveller.wpos, s.shoveller.transEnd) && s'.inCounter == s.inCounter + ret
      && s'.consumer == s.consumer && s'.delivered == s.delivered && s'.inputError == s.inputError
      && s'.readpos == s.readpos && s'.endOfConsumption == s.endOfConsumption
    ensures ShovellerStep(c, s) == ReadStep(c, s)
  {
    hide Filled, Chunk;
  }

  lemma PublishOutcome(c: Config, s: State)
    requires s.shoveller.Publish? && |c.junk| == c.inpReadSize
    ensures var s' := ShovellerStep(c, s); s' == s.(writepos := s'.writepos, shoveller := OuterTest)
  {
    hide NextWritePos, ReadStep;
  }

  lemma ChunkRead(c: Config, s: State) returns (s': State)
    requires Live(c, s) && s.shoveller.ReadInput? && s.inCounter < |c.input|
    ensures Live(c, s') && s'.consumer == s.consumer && s'.delivered == s.delivered
    ensures s'.shoveller == OuterTest && s'.inCounter == s.inCounter + Min(c.inpReadSize, |c.input| - s.inCounter)
    ensures s'.inputError == s.inputError && s'.readpos == s.readpos
  {
    hide Inv, ReadStep, ShovellerStep, Reached;
    InvConfig(c, s);
    var s1 := ReadStep(c, s);
    ReadOutcome(c, s);
    Go(c, s, ShovellerThread);
    s' := ShovellerStep(c, s1);
    PublishOutcome(c, s1);
    Go(c, s1, ShovellerThread);
  }

  /** If there is room in the ring, then the shoveller gets to its next read. */
  lemma RoomFound(c: Config, s: State) returns (s': State)
    requires Live(c, s) && s.shoveller.OuterTest? && FreeBytes(c.size, s.writepos, s.readpos) >= c.inpReadSize
    ensures Live(c, s') && s'.shoveller.ReadInput? && s' == s.(shoveller := s'.shoveller)
  {
    hide RingOk, PositionsAligned, ShovellerOk, FlagsOk, ConsumerOk, Inv, FreeBytes, TransEnd;
    InvConfig(c, s);
    var s1 := s.(shoveller := AwaitRoom(s.writepos));
    Go(c, s, ShovellerThread);
    assert Step(c, s, ShovellerThread) == s1;
    s' := s.(shoveller := ReadInput(s.writepos, TransEnd(c, s.writepos, s.readpos)));
    Go(c, s1, ShovellerThread);
    assert Step(c, s1, ShovellerThread) == s';
  }

  // ---------- the run which loses the last chunk

  /** Everything read has been handed out, and more is to come. */
  ghost predicate Rest(c: Config, s: State) {
    && Live(c, s) && s.shoveller.OuterTest? && s.consumer.Idle?
    && |s.delivered| == s.inCounter < |c.input| && Multiple(s.inCounter, c.inpReadSize)
  }

  lemma RestIsEmpty(c: Config, s: State)
    requires Rest(c, s)
    ensures s.readpos == s.writepos && FreeBytes(c.size, s.writepos, s.readpos) >= c.inpReadSize
  {
    hide PositionsAligned, ShovellerOk, FlagsOk, ConsumerOk, Reached, Multiple, Content;
    UnreadBytes(c, s);
    EmptyRingHasRoom(c, s);
  }

  /** A full chunk gets read and handed out. */
  lemma FullChunkPasses(c: Config, s: State) returns (s': State)
    requires Rest(c, s) && s.inCounter + c.inpReadSize < |c.input|
    ensures Rest(c, s') && s'.inCounter == s.inCounter + c.inpReadSize
  {
    hide Inv, Reached, Multiple, FreeBytes;
    RestIsEmpty(c, s);
    s' := RoomFound(c, s);
    s' := ChunkRead(c, s');
    AlignedInv(c, s);
    MultipleSelf(c.inpReadSize);
    MultipleSum(s.inCounter, c.inpReadSize, c.inpReadSize);
    s' := TakeAll(c, s');
  }

  lemma AlignedInv(c: Config, s: State)
    requires Inv(c, s)
    ensures c.inpReadSize > 0 && c.want > 0 && Multiple(c.inpReadSize, c.want)
  {}

  lemma RestInit(c: Config)
    requires Aligned(c) && c.input != []
    ensures Rest(c, Init(c))
  {
    hide Inv;
    InitInv(c);
    assert Run(c, []) == Init(c);
  }

  /** All but a last chunk gets handed out. */
  lemma {:induction false} LastChunkIsLeft(c: Config, s: State) returns (s': State)
    requires Rest(c, s)
    ensures Rest(c, s') && |c.input| - s'.inCounter <= c.inpReadSize
    decreases |c.input| - s.inCounter
  {
    s' := s;
    if |c.input| - s.inCounter > c.inpReadSize {
      AlignedInv(c, s);
      hide Rest;
      s' := FullChunkPasses(c, s);
      s' := LastChunkIsLeft(c, s');
    }
  }

  /** The consumer has found an empty ring and not looked for an error yet. */
  lemma ConsumerLooks(c: Config, s: State) returns (s': State)
    requires Live(c, s) && s.consumer.Idle? && s.readpos == s.writepos
    ensures Live(c, s') && s' == s.(consumer := TestInputEnd(c.want, s.readpos))
  {
    hide Inv, Reached;
    InvConfig(c, s);
    PositiveWant(c, s);
    var s1 := s.(consumer := LoopTest(c.want));
    Go(c, s, ConsumerThread);
    assert Step(c, s, ConsumerThread) == s1;
    var s2 := s.(consumer := CompareEmpty(c.want, s.readpos));
    Go(c, s1, ConsumerThread);
    assert Step(c, s1, ConsumerThread) == s2;
    s' := s.(consumer := TestInputEnd(c.want, s.readpos));
    Go(c, s2, ConsumerThread);
    assert Step(c, s2, ConsumerThread) == s';
  }

  /** With the last chunk in the ring there is room for the read which tells the error. */
  lemma RoomForError(c: Config, s: State, ret: nat)
    requires Inv(c, s) && Published(s) - Consumed(c, s) == ret <= c.inpReadSize
    requires c.size == 2 * c.inpReadSize ==> ret < c.inpReadSize
    ensures FreeBytes(c.size, s.writepos, s.readpos) >= c.inpReadSize
  {
    hide Content, ShovellerOk, FlagsOk, ConsumerOk, PositionsAligned, Multiple, FreeBytes;
    UnreadBytes(c, s);
    FreeBytesIsRest(s.ring, s.readpos, s.writepos);
    TwoOrMore(c);
  }

  lemma TwoOrMore(c: Config)
    requires Aligned(c)
    ensures c.size == 2 * c.inpReadSize || c.size >= 3 * c.inpReadSize
  {
    var more := c.size - c.inpReadSize;
    assert Multiple(more, c.inpReadSize);
    assert more >= c.inpReadSize && Multiple(more - c.inpReadSize, c.inpReadSize);
  }

  /** The shoveller meets the error and reports it. */
  lemma ErrorReported(c: Config, s: State) returns (s': State)
    requires Live(c, s) && s.shoveller.ReadInput? && s.inCounter >= |c.input| && c.fails
    ensures Live(c, s') && s' == s.(shoveller := ReportEnd, inputError := true)
  {
    hide Inv, Reached;
    InvConfig(c, s);
    var s1 := s.(shoveller := ReportError);
    Go(c, s, ShovellerThread);
    assert Step(c, s, ShovellerThread) == s1;
    s' := s.(shoveller := ReportEnd, inputError := true);
    Go(c, s1, ShovellerThread);
    assert Step(c, s1, ShovellerThread) == s';
  }

  /** The consumer goes on looking for the end and for an error. */
  lemma GivesUp(c: Config, s: State) returns (s': State)
    requires Live(c, s) && s.consumer == TestInputEnd(c.want, s.readpos) && s.shoveller.ReportEnd? && s.inputError
    ensures Reached(c, s') && s'.consumer == Over(-1) && s'.delivered == s.delivered
  {
    hide RingOk, PositionsAligned, ShovellerOk, ConsumerOk, Reached, Aligned;
    InvConfig(c, s);
    var s1 := s.(consumer := TestInputError(c.want, s.readpos));
    Go(c, s, ConsumerThread);
    assert Step(c, s, ConsumerThread) == s1;
    s' := s.(consumer := Over(-1), endOfConsumption := 1);
    Go(c, s1, ConsumerThread);
    assert Step(c, s1, ConsumerThread) == s';
  }

  /** The schedule in which the consumer does not get the last chunk. */
  lemma LosesLastChunk(c: Config, s: State) returns (s': State)
    requires Rest(c, s) && |c.input| - s.inCounter <= c.inpReadSize && c.fails && !Tight(c)
    ensures Reached(c, s') && s'.consumer == Over(-1) && s'.delivered == s.delivered
  {
    hide Inv, Reached, Multiple, FreeBytes, Tight;
    InvConfig(c, s);
    RestIsEmpty(c, s);
    s' := ConsumerLooks(c, s);
    s' := RoomFound(c, s');
    s' := ChunkRead(c, s');
    if c.size == 2 * c.inpReadSize {
      ShortLastChunk(c, s);
    }
    RoomForError(c, s', |c.input| - s.inCounter);
    s' := RoomFound(c, s');
    s' := ErrorReported(c, s');
    s' := GivesUp(c, s');
  }

  lemma ShortLastChunk(c: Config, s: State)
    requires Rest(c, s) && |c.input| - s.inCounter <= c.inpReadSize && !Tight(c) && c.size == 2 * c.inpReadSize
    ensures |c.input| - s.inCounter < c.inpReadSize
  {
    hide RingOk, PositionsAligned, ShovellerOk, FlagsOk, ConsumerOk, Reached, Multiple;
    if |c.input| - s.inCounter == c.inpReadSize {
      MultipleSelf(c.inpReadSize);
      MultipleSum(s.inCounter, c.inpReadSize, c.inpReadSize);
    }
  }

  ghost predicate Delivers(c: Config)
    requires |c.junk| == c.inpReadSize
  {
    forall schedule :: Run(c, schedule).consumer.Over? ==> Run(c, schedule).delivered == c.input
  }

  /** For which inputs and sizes the consumer gets the whole input however the threads take turns: if there is
      no error, nothing to be lost, or a ring of two chunks with an input of full chunks. */
  lemma AlwaysDelivers(c: Config)
    requires Aligned(c)
    ensures Delivers(c) <==>
      !c.fails || c.input == [] || (c.size == 2 * c.inpReadSize && Multiple(|c.input|, c.inpReadSize))
  {
    hide Run, Multiple;
    forall schedule | (!c.fails || c.input == [] || Tight(c)) && Run(c, schedule).consumer.Over?
      ensures Run(c, schedule).delivered == c.input
    {
      if Tight(c) {
        TightDelivers(c, schedule);
      } else {
        WholeInput(c, schedule);
        DeliveredIsPrefix(c, schedule);
      }
    }
    if c.fails && c.input != [] && !Tight(c) {
      LossIsPossible(c);
    }
  }

  lemma LossIsPossible(c: Config)
    requires Aligned(c) && c.fails && c.input != [] && !Tight(c)
    ensures !Delivers(c)
  {
    hide Run, Inv, Multiple;
    RestInit(c);
    var s := LastChunkIsLeft(c, Init(c));
    var s' := LosesLastChunk(c, s);
    var schedule :| Run(c, schedule) == s';
    assert |Run(c, schedule).delivered| < |c.input|;
  }

  /** An input of two bytes with an error at its end, and a ring of three chunks. */
  const FAILING := Config(6, 2, 2, [1, 2], true, [0, 0])

  /** A consumer which looks for data before and for an error after the last chunk arrives does not get this chunk. */
  lemma ErrorMayLoseData()
    ensures Aligned(FAILING)
    ensures exists schedule ::
      Run(FAILING, schedule).consumer == Over(-1) && Run(FAILING, schedule).delivered == [] != FAILING.input
  {
    hide Run, Inv;
    assert Multiple(4, 2) by { assert Multiple(2, 2); }
    assert Multiple(6, 2);
    RestInit(FAILING);
    var s := LosesLastChunk(FAILING, Init(FAILING));
    var schedule :| Run(FAILING, schedule) == s;
  }
}
