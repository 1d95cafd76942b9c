/** The steps of the consumer keep the invariant. What follows for every interleaving of the two threads. */
module FifoDelivery {
  import opened Fifo
  import opened FifoSafety

  // ---------- steps which leave the ring as it is

  /** What the shoveller sees of a step of the consumer which does not take bytes out of the ring. */
  predicate SameForShoveller(c: Config, s: State, s': State) {
    && s'.ring == s.ring && s'.writepos == s.writepos && s'.readpos == s.readpos && s'.inCounter == s.inCounter
    && s'.shoveller == s.shoveller && s'.endOfInput == s.endOfInput && s'.inputError == s.inputError
    && s'.freed == s.freed && s'.outOfBounds == s.outOfBounds
    && Consumed(c, s') == Consumed(c, s)
  }

  lemma ShovellerUnaware(c: Config, s: State, s': State)
    requires IsConfig(c) && RingOk(c, s) && PositionsAligned(c, s) && ShovellerOk(c, s)
    requires SameForShoveller(c, s, s') && !s.consumer.Wrap?
    ensures RingOk(c, s') && PositionsAligned(c, s') && ShovellerOk(c, s')
  {
    hide Content, Multiple, Consumed;
    assert RingOk(c, s');
  }

  /** Consumption ends only after the shoveller has left its loop. */
  lemma ConsumerFlags(c: Config, s: State, s': State)
    requires FlagsOk(c, s) && SameForShoveller(c, s, s')
    requires s'.endOfConsumption == s.endOfConsumption || s'.consumer.Over?
    requires s.consumer.Over? ==> s'.consumer.Over?
    requires s'.consumer.Over? ==> s'.endOfConsumption != 0 && !InLoop(s.shoveller)
    ensures FlagsOk(c, s')
  {
    hide Consumed;
  }

  /** The steps of the waiting loop and of the start of a call. */
  predicate Waiting(s: State) {
    s.consumer.Idle? || s.consumer.LoopTest? || s.consumer.CompareEmpty? || s.consumer.TestInputEnd?
    || s.consumer.TestInputError? || s.consumer.Finish? || s.consumer.Over?
  }

  lemma WaitingData(c: Config, s: State)
    requires RingOk(c, s) && ConsumerOk(c, s) && Waiting(s)
    ensures SameForShoveller(c, s, ConsumerStep(c, s))
    ensures ConsumerStep(c, s).endOfConsumption == s.endOfConsumption || ConsumerStep(c, s).consumer.Over?
    ensures s.consumer.Over? ==> ConsumerStep(c, s).consumer.Over?
  {
    hide Content;
    match s.consumer
    {
      case Idle => {}
      case LoopTest(_) => {}
      case CompareEmpty(_, _) => {}
      case TestInputEnd(_, _) => {}
      case TestInputError(_, _) => {}
      case Finish(_) => { FinishData(c, s); }
      case Over(_) => {}
    }
  }

  lemma FinishData(c: Config, s: State)
    requires s.consumer.Finish? && RoundOk(c, s, s.consumer.todo)
    ensures SameForShoveller(c, s, FinishStep(c, s))
  {}

  /** Once the shoveller has left its loop, an empty ring means that the input has been consumed. */
  lemma EmptyAtEnd(c: Config, s: State)
    requires IsConfig(c) && RingOk(c, s) && FlagsOk(c, s) && !InLoop(s.shoveller)
    ensures Published(s) == |c.input|
    ensures s.readpos == s.writepos ==> Consumed(c, s) == |c.input|
    ensures Closing(s.shoveller) ==> Consumed(c, s) == |c.input| || s.consumer.Over?
  {
    hide Content;
    UnreadBytes(c, s);
  }

  /** A consumer which may give up only after the shoveller has left its loop. */
  ghost predicate ConsumerFine(c: Config, s: State) {
    ConsumerOk(c, s) && (s.consumer.Over? ==> s.endOfConsumption != 0 && !InLoop(s.shoveller))
  }

  lemma IdleConsumer(c: Config, s: State)
    requires 0 < c.want && ConsumerOk(c, s) && FlagsOk(c, s) && (s.consumer.Idle? || s.consumer.Over?)
    requires Closing(s.shoveller) ==> Consumed(c, s) == |c.input| || s.consumer.Over?
    ensures ConsumerFine(c, ConsumerStep(c, s))
  {}

  lemma LoopConsumer(c: Config, s: State)
    requires ConsumerOk(c, s) && FlagsOk(c, s) && (s.consumer.LoopTest? || s.consumer.CompareEmpty?) && 0 < c.want
    ensures ConsumerFine(c, ConsumerStep(c, s))
  {}

  lemma TestConsumer(c: Config, s: State)
    requires ConsumerOk(c, s) && FlagsOk(c, s) && (s.consumer.TestInputEnd? || s.consumer.TestInputError?) && 0 < c.want
    ensures ConsumerFine(c, ConsumerStep(c, s))
  {}

  lemma FinishConsumer(c: Config, s: State)
    requires ConsumerOk(c, s) && FlagsOk(c, s) && s.consumer.Finish?
    ensures ConsumerFine(c, ConsumerStep(c, s))
  {}

  lemma WaitingInv(c: Config, s: State)
    requires Inv(c, s) && Waiting(s)
    ensures Inv(c, ConsumerStep(c, s))
  {
    hide RingOk, PositionsAligned, ShovellerOk, FlagsOk, ConsumerOk, ConsumerStep;
    var s' := ConsumerStep(c, s);
    if !InLoop(s.shoveller) {
      EmptyAtEnd(c, s);
    }
    if s.consumer.Idle? || s.consumer.Over? {
      IdleConsumer(c, s);
    } else if s.consumer.LoopTest? || s.consumer.CompareEmpty? {
      LoopConsumer(c, s);
    } else if s.consumer.Finish? {
      FinishConsumer(c, s);
    } else {
      TestConsumer(c, s);
    }
    WaitingData(c, s);
    ShovellerUnaware(c, s, s');
    ConsumerFlags(c, s, s');
  }

  // ---------- steps which take bytes out of the ring

  /** The second read of buf_writepos and the choice of the number of bytes. Alignment makes it the wanted number
      or the rest of the input. */
  lemma DiffOk(c: Config, s: State)
    requires Inv(c, s) && s.consumer.ComputeDiff?
    ensures var todo, diff := s.consumer.todo, CopySize(c, s.writepos, s.readpos, s.consumer.todo);
      if diff == 0 then s.readpos == s.writepos else CopyOk(c, s, todo, diff)
  {
    hide Content, Multiple, FlagsOk, ShovellerOk;
    var todo, diff := s.consumer.todo, CopySize(c, s.writepos, s.readpos, s.consumer.todo);
    UnreadBytes(c, s);
    if 0 < diff < c.want && Consumed(c, s) < |c.input| {
      if s.writepos > s.readpos && Published(s) < |c.input| {
        MultipleTransitive(s.writepos, c.inpReadSize, c.want);
        MultipleGap(s.writepos, s.readpos, c.want);
      } else if s.writepos < s.readpos {
        MultipleTransitive(c.size, c.inpReadSize, c.want);
        MultipleGap(c.size, s.readpos, c.want);
      }
    }
  }

  lemma ComputeDiffInv(c: Config, s: State)
    requires Inv(c, s) && s.consumer.ComputeDiff?
    ensures Inv(c, ConsumerStep(c, s))
  {
    hide Content, Multiple, RingOk, PositionsAligned, FlagsOk, ShovellerOk;
    DiffOk(c, s);
    if !InLoop(s.shoveller) {
      EmptyAtEnd(c, s);
    }
    var s' := ConsumerStep(c, s);
    ShovellerUnaware(c, s, s');
    ConsumerFlags(c, s, s');
  }

  /** While bytes are to be copied, the ring is not freed and the source address is the right one. */
  lemma CopyData(c: Config, s: State)
    requires Inv(c, s) && s.consumer.Copy?
    ensures var diff := s.consumer.diff; var s' := CopyStep(c, s);
      && !s.freed && s' == s.(buffer := s'.buffer, consumer := s'.consumer) && |s'.buffer| == c.want
      && Holds(c, s', diff)
  {
    hide Multiple, PositionsAligned, ShovellerOk, Content, Readable;
    var diff := s.consumer.diff;
    ContentShrinks(s.ring, s.readpos, s.writepos, diff);
    ReadableInRing(c.size, s.readpos, s.writepos);
    UnreadBytes(c, s);
    assert Consumed(c, s) == |s.delivered|;
    var k := Consumed(c, s);
    assert c.input[k..Published(s)][..diff] == c.input[k..k + diff];
  }

  lemma CopyInv(c: Config, s: State)
    requires Inv(c, s) && s.consumer.Copy?
    ensures Inv(c, ConsumerStep(c, s))
  {
    hide Content, Multiple, RingOk, PositionsAligned, FlagsOk, ShovellerOk, Readable, CopyStep, Holds;
    CopyData(c, s);
    var s' := CopyStep(c, s);
    CopyNext(c, s);
    ShovellerUnaware(c, s, s');
    ConsumerFlags(c, s, s');
  }

  lemma CopyNext(c: Config, s: State)
    requires s.consumer.Copy?
    ensures CopyStep(c, s).consumer == Advance(s.consumer.todo, s.consumer.diff)
    ensures ConsumerStep(c, s) == CopyStep(c, s)
  {}

  lemma AdvanceRing(c: Config, s: State)
    requires Inv(c, s) && s.consumer.Advance?
    ensures var s' := ConsumerStep(c, s);
      && RingOk(c, s') && ShovellerOk(c, s') && Consumed(c, s') == Consumed(c, s) + s.consumer.diff
      && Published(s') == Published(s)
  {
    hide Content, Multiple, PositionsAligned, FlagsOk, Holds, Readable;
    var diff, k := s.consumer.diff, Consumed(c, s);
    ContentShrinks(s.ring, s.readpos, s.writepos, diff);
    ReadableInRing(c.size, s.readpos, s.writepos);
    assert c.input[k..Published(s)][diff..] == c.input[k + diff..Published(s)];
  }

  lemma ReadableInRing(size: nat, rpos: nat, wpos: nat)
    requires rpos < size && wpos < size
    ensures Readable(size, rpos, wpos) <= size
  {}

  lemma AdvancePositions(c: Config, s: State)
    requires Inv(c, s) && s.consumer.Advance?
    ensures PositionsAligned(c, ConsumerStep(c, s))
  {
    hide Content, Multiple, FlagsOk, Holds, Readable, ShovellerOk;
    MultipleSelf(c.want);
    if s.consumer.diff == c.want && Consumed(c, s) < |c.input| {
      MultipleSum(s.readpos, c.want, c.want);
    }
  }

  lemma AdvanceInv(c: Config, s: State)
    requires Inv(c, s) && s.consumer.Advance?
    ensures Inv(c, ConsumerStep(c, s))
  {
    hide Content, Multiple, Readable, ShovellerOk, PositionsAligned, Published;
    AdvanceRing(c, s);
    AdvancePositions(c, s);
  }

  lemma WrapRing(c: Config, s: State)
    requires Inv(c, s) && s.consumer.Wrap?
    ensures var s' := ConsumerStep(c, s);
      && RingOk(c, s') && ShovellerOk(c, s') && Consumed(c, s') == Consumed(c, s) && Published(s') == Published(s)
  {
    hide Multiple, PositionsAligned, FlagsOk, Holds, Content, Aligned;
    ContentWraps(s.ring, s.writepos);
  }

  lemma ContentWraps(ring: seq<byte>, wpos: nat)
    requires wpos < |ring|
    ensures Content(ring, |ring|, wpos) == Content(ring, 0, wpos)
  {}

  lemma WrapInv(c: Config, s: State)
    requires Inv(c, s) && s.consumer.Wrap?
    ensures Inv(c, ConsumerStep(c, s))
  {
    hide Content, ShovellerOk, Published;
    WrapRing(c, s);
  }

  lemma ConsumerInv(c: Config, s: State)
    requires Inv(c, s)
    ensures Inv(c, ConsumerStep(c, s))
  {
    hide Inv;
    match s.consumer
    {
      case ComputeDiff(_, _) => ComputeDiffInv(c, s);
      case Copy(_, _, _) => CopyInv(c, s);
      case Advance(_, _) => AdvanceInv(c, s);
      case Wrap(_, _) => WrapInv(c, s);
      case _ => WaitingInv(c, s);
    }
  }

  /** The invariant holds in all interleavings. */
  lemma {:induction false} RunInv(c: Config, schedule: seq<Thread>)
    requires Aligned(c)
    ensures Inv(c, Run(c, schedule))
  {
    hide Inv;
    if schedule == [] {
      InitInv(c);
    } else {
      var s := Run(c, schedule[..|schedule| - 1]);
      RunInv(c, schedule[..|schedule| - 1]);
      ShovellerInv(c, s);
      ConsumerInv(c, s);
    }
  }
}
