/** Which sizes make a fifo safe for all inputs and all interleavings. */
module FifoSizes {
  import opened Fifo
  import opened FifoSafety
  import opened FifoDelivery
  import opened FifoRuns

  // ---------- steps of any state, aligned or not

  /** The consumer finds unread bytes and decides how many to copy. */
  lemma PieceFound(c: Config, s: State, todo: nat) returns (s': State)
    requires |c.junk| == c.inpReadSize && Reached(c, s) && s.consumer == LoopTest(todo) && todo > 0
    requires s.readpos < c.size && s.readpos != s.writepos
    ensures var diff := CopySize(c, s.writepos, s.readpos, todo);
      Reached(c, s') && s' == s.(consumer := Copy(todo, s.readpos, diff)) && diff > 0
  {
    hide Reached, ShovellerStep;
    var rpos, diff := s.readpos, CopySize(c, s.writepos, s.readpos, todo);
    Reach(c, s, ConsumerThread, s.(consumer := CompareEmpty(todo, rpos)));
    Reach(c, s.(consumer := CompareEmpty(todo, rpos)), ConsumerThread, s.(consumer := ComputeDiff(todo, rpos)));
    s' := s.(consumer := Copy(todo, rpos, diff));
    Reach(c, s.(consumer := ComputeDiff(todo, rpos)), ConsumerThread, s');
  }

  /** The copied bytes get taken out of the ring. */
  lemma PieceCounted(c: Config, s: State, todo: nat, diff: nat) returns (s': State)
    requires |c.junk| == c.inpReadSize && Reached(c, s) && s.consumer == Advance(todo, diff)
    requires diff <= todo && s.readpos + diff < c.size
    ensures Reached(c, s') && s' == s.(readpos := s.readpos + diff, consumer := LoopTest(todo - diff))
  {
    hide Reached, ShovellerStep, CopySize, CopyStep, FinishStep;
    var s1 := s.(readpos := s.readpos + diff, consumer := Wrap(todo, diff));
    Reach(c, s, ConsumerThread, s1);
    s' := s1.(consumer := LoopTest(todo - diff));
    Reach(c, s1, ConsumerThread, s');
  }

  /** Where fifo_read gets its next bytes from. */
  function Source(c: Config, s: State, todo: nat): int {
    c.want - todo + s.readpos
  }

  /** One round of the loop in fifo_read with a write position which is ahead. */
  lemma PieceTaken(c: Config, s: State, todo: nat, diff: nat) returns (s': State)
    requires |c.junk| == c.inpReadSize && Reached(c, s) && s.consumer == LoopTest(todo) && !s.freed
    requires 0 < todo <= c.want == |s.buffer| && s.readpos < s.writepos < c.size
    requires diff == Min(s.writepos - s.readpos, todo) && Source(c, s, todo) + diff <= |s.ring|
    ensures Reached(c, s') && 0 <= Source(c, s, todo)
    ensures s' == s.(readpos := s.readpos + diff, consumer := LoopTest(todo - diff),
                     buffer := s.ring[Source(c, s, todo)..Source(c, s, todo) + diff] + s.buffer[diff..])
  {
    hide Reached, ShovellerStep;
    s' := PieceFound(c, s, todo);
    var s1 := s.(consumer := Advance(todo, diff),
                 buffer := s.ring[Source(c, s, todo)..Source(c, s, todo) + diff] + s.buffer[diff..]);
    CopyNext(c, s');
    Reach(c, s', ConsumerThread, s1);
    s' := PieceCounted(c, s1, todo, diff);
  }

  lemma CallFinished(c: Config, s: State, todo: nat) returns (s': State)
    requires |c.junk| == c.inpReadSize && Reached(c, s) && s.consumer == Finish(todo) && todo < c.want == |s.buffer|
    ensures Reached(c, s') && s'.delivered == s.delivered + s.buffer[..c.want - todo]
    ensures s' == s.(consumer := Idle, delivered := s'.delivered, outCounter := s.outCounter + c.want - todo)
  {
    hide Reached, ShovellerStep;
    s' := FinishStep(c, s);
    Reach(c, s, ConsumerThread, s');
  }

  /** The shoveller brings a chunk into an empty ring, where there is no end of the ring in its way. */
  lemma ChunkStored(c: Config, s: State, ret: nat) returns (s': State)
    requires |c.junk| == c.inpReadSize && Reached(c, s) && s.shoveller.OuterTest? && s.endOfConsumption == 0
    requires s.readpos == s.writepos < c.size == |s.ring| && c.inpReadSize < c.size && s.inCounter < |c.input|
    requires ret == Min(c.inpReadSize, |c.input| - s.inCounter) && s.writepos + ret <= c.size
    ensures Reached(c, s') && s'.ring == Filled(s.ring, s.writepos, c.input[s.inCounter..s.inCounter + ret])
    ensures var next := s.writepos + ret;
      s' == s.(ring := s'.ring, inCounter := s.inCounter + ret, writepos := if next == c.size then 0 else next)
  {
    hide Reached, ConsumerStep, Filled;
    s' := AboutToRead(c, s);
    var s1 := ReadStep(c, s');
    ReadIsStep(c, s');
    Reach(c, s', ShovellerThread, s1);
    s' := ShovellerStep(c, s1);
    Reach(c, s1, ShovellerThread, s');
  }

  lemma AboutToRead(c: Config, s: State) returns (s': State)
    requires |c.junk| == c.inpReadSize && Reached(c, s) && s.shoveller.OuterTest? && s.endOfConsumption == 0
    requires s.readpos == s.writepos < c.size && c.inpReadSize < c.size
    ensures Reached(c, s') && s' == s.(shoveller := ReadInput(s.writepos, false))
  {
    hide Reached, ConsumerStep, ReadStep;
    var s1 := s.(shoveller := AwaitRoom(s.writepos));
    Reach(c, s, ShovellerThread, s1);
    s' := s.(shoveller := ReadInput(s.writepos, false));
    Reach(c, s1, ShovellerThread, s');
  }

  /** The shoveller notices and reports the end of the input. */
  lemma EndReported(c: Config, s: State) returns (s': State)
    requires |c.junk| == c.inpReadSize && Reached(c, s) && s.shoveller.OuterTest? && s.endOfConsumption == 0
    requires s.readpos == s.writepos < c.size && c.inpReadSize < c.size && s.inCounter >= |c.input| && !c.fails
    ensures Reached(c, s') && s' == s.(shoveller := DrainPos, endOfInput := true)
  {
    hide Reached, ConsumerStep;
    s' := AboutToRead(c, s);
    var s1 := s.(shoveller := ReportEnd);
    Reach(c, s', ShovellerThread, s1);
    s' := s.(shoveller := DrainPos, endOfInput := true);
    Reach(c, s1, ShovellerThread, s');
  }

  /** With an empty ring at the end of the input, a call hands out what it has got. */
  lemma CallCutShort(c: Config, s: State, todo: nat) returns (s': State)
    requires |c.junk| == c.inpReadSize && Reached(c, s) && s.consumer == LoopTest(todo) && todo < c.want == |s.buffer|
    requires s.readpos == s.writepos < c.size && s.endOfInput
    ensures Reached(c, s') && s'.delivered == s.delivered + s.buffer[..c.want - todo]
  {
    hide Reached, ShovellerStep;
    if todo == 0 {
      s' := s.(consumer := Finish(0));
      Reach(c, s, ConsumerThread, s');
    } else {
      var rpos := s.readpos;
      Reach(c, s, ConsumerThread, s.(consumer := CompareEmpty(todo, rpos)));
      Reach(c, s.(consumer := CompareEmpty(todo, rpos)), ConsumerThread, s.(consumer := TestInputEnd(todo, rpos)));
      Reach(c, s.(consumer := TestInputEnd(todo, rpos)), ConsumerThread, s.(consumer := ComputeDiff(todo, rpos)));
      s' := s.(consumer := Finish(todo));
      Reach(c, s.(consumer := ComputeDiff(todo, rpos)), ConsumerThread, s');
    }
    s' := CallFinished(c, s', todo);
  }

  // ---------- full calls

  /** Nobody has noticed an end, and the unread bytes do not wrap around. */
  predicate Plain(c: Config, s: State) {
    && s.shoveller.OuterTest? && s.endOfConsumption == 0 && !s.freed && !s.outOfBounds
    && s.readpos <= s.writepos < c.size == |s.ring| && c.want == |s.buffer| && c.want > 0 && c.inpReadSize < c.size
  }

  ghost predicate AtRest(c: Config, s: State)
    requires |c.junk| == c.inpReadSize
  {
    Reached(c, s) && Plain(c, s) && s.consumer.Idle?
  }

  lemma CallStarted(c: Config, s: State) returns (s': State)
    requires |c.junk| == c.inpReadSize && AtRest(c, s)
    ensures Reached(c, s') && s' == s.(consumer := LoopTest(c.want))
  {
    hide Reached, ShovellerStep;
    s' := s.(consumer := LoopTest(c.want));
    Reach(c, s, ConsumerThread, s');
  }

  lemma FullCall(c: Config, s: State) returns (s': State)
    requires |c.junk| == c.inpReadSize && AtRest(c, s) && s.writepos - s.readpos >= c.want
    ensures AtRest(c, s') && s'.readpos == s.readpos + c.want && |s'.delivered| == |s.delivered| + c.want
    ensures s'.ring == s.ring && s'.writepos == s.writepos && s'.inCounter == s.inCounter
  {
    hide Reached, ShovellerStep;
    s' := CallStarted(c, s);
    s' := PieceTaken(c, s', c.want, c.want);
    var s1 := s'.(consumer := Finish(0));
    Reach(c, s', ConsumerThread, s1);
    s' := CallFinished(c, s1, 0);
  }

  /** As many full calls as the unread bytes allow. */
  lemma {:induction false} FullCalls(c: Config, s: State) returns (s': State)
    requires |c.junk| == c.inpReadSize && AtRest(c, s)
    ensures AtRest(c, s') && s'.ring == s.ring && s'.writepos == s.writepos && s'.inCounter == s.inCounter
    ensures |s'.delivered| - |s.delivered| == s'.readpos - s.readpos
    ensures s'.writepos - s'.readpos < c.want
    ensures Multiple(s.writepos - s.readpos, c.want) <==> s'.readpos == s'.writepos
    decreases s.writepos - s.readpos
  {
    hide Reached;
    if s.writepos - s.readpos < c.want {
      s' := s;
    } else {
      s' := FullCall(c, s);
      hide AtRest;
      s' := FullCalls(c, s');
    }
  }

  // ---------- sizes which are not safe

  /** Memory outside of the ring gets accessed, or the consumer gets other bytes than those of the input. */
  ghost predicate GoesWrong(c: Config)
    requires |c.junk| == c.inpReadSize
  {
    exists schedule :: Run(c, schedule).outOfBounds || !(Run(c, schedule).delivered <= c.input)
  }

  lemma WrongIsReached(c: Config, s: State)
    requires |c.junk| == c.inpReadSize && Reached(c, s) && (s.outOfBounds || !(s.delivered <= c.input))
    ensures GoesWrong(c)
  {
    hide Run;
    var schedule :| Run(c, schedule) == s;
  }

  lemma AtRestInit(c: Config)
    requires IsConfig(c)
    ensures AtRest(c, Init(c))
  {
    assert Run(c, []) == Init(c);
  }

  predicate ZerosFrom(ring: seq<byte>, from: nat) {
    forall k :: from <= k < |ring| ==> ring[k] == 0
  }

  /** A call has got the last r bytes of the first chunk. It wants more. */
  ghost predicate CallIsShort(c: Config, s: State, r: nat)
    requires |c.junk| == c.inpReadSize
  {
    && 0 < r < c.want && r <= c.inpReadSize && Reached(c, s) && Plain(c, s) && s.consumer == LoopTest(c.want - r)
    && s.readpos == s.writepos == s.inCounter == c.inpReadSize && |s.delivered| == c.inpReadSize - r
    && ZerosFrom(s.ring, c.inpReadSize)
  }

  /** The input consists of a chunk and one byte. */
  ghost predicate ChunkAndByte(c: Config) {
    IsConfig(c) && !c.fails && |c.input| == c.inpReadSize + 1 && forall k :: 0 <= k < |c.input| ==> c.input[k] == 1
  }

  /** What is behind the bytes which get filled in stays as it was. */
  lemma FilledZeros(ring: seq<byte>, wpos: nat, b: seq<byte>)
    requires wpos + |b| <= |ring| && ZerosFrom(ring, wpos)
    ensures ZerosFrom(Filled(ring, wpos, b), wpos + |b|)
  {}

  lemma FirstChunkIn(c: Config) returns (s: State)
    requires ChunkAndByte(c)
    ensures AtRest(c, s) && s.readpos == |s.delivered| == 0 && s.writepos == s.inCounter == c.inpReadSize
    ensures ZerosFrom(s.ring, c.inpReadSize)
  {
    hide Reached, Filled;
    AtRestInit(c);
    s := ChunkStored(c, Init(c), c.inpReadSize);
    FilledZeros(Init(c).ring, 0, c.input[..c.inpReadSize]);
  }

  lemma ShortCall(c: Config) returns (s: State, r: nat)
    requires ChunkAndByte(c) && !Multiple(c.inpReadSize, c.want)
    ensures CallIsShort(c, s, r)
  {
    hide Reached, Multiple;
    s := FirstChunkIn(c);
    s := FullCalls(c, s);
    r := c.inpReadSize - s.readpos;
    s := CallStarted(c, s);
    s := PieceTaken(c, s, c.want, r);
  }

  /** The byte of the second chunk gets sought behind the end of the ring. */
  lemma SecondPieceOutside(c: Config, s: State, r: nat)
    requires ChunkAndByte(c) && CallIsShort(c, s, r)
    requires c.inpReadSize + r + 1 > c.size
    ensures GoesWrong(c)
  {
    hide Reached, Filled;
    var s' := ChunkStored(c, s, 1);
    s' := PieceFound(c, s', c.want - r);
    CopyNext(c, s');
    Reach(c, s', ConsumerThread, CopyStep(c, s'));
    WrongIsReached(c, CopyStep(c, s'));
  }

  /** The byte of the second chunk gets sought where the ring holds 0. */
  lemma SecondPieceElsewhere(c: Config, s: State, r: nat)
    requires ChunkAndByte(c) && CallIsShort(c, s, r)
    requires c.inpReadSize + r + 1 <= c.size
    ensures GoesWrong(c)
  {
    hide Reached, Filled, GoesWrong;
    var s' := ChunkStored(c, s, 1);
    FilledZeros(s.ring, c.inpReadSize, c.input[c.inpReadSize..c.inpReadSize + 1]);
    s' := PieceTaken(c, s', c.want - r, 1);
    assert s'.buffer[0] == 0;
    s' := EndReported(c, s');
    var zeros := s'.buffer[..r + 1];
    s' := CallCutShort(c, s', c.want - r - 1);
    assert s'.delivered[|s.delivered|] == zeros[0] == 0;
    WrongIsReached(c, s');
  }

  /** Calls which do not divide the chunk. */
  lemma WantMatters(c: Config)
    requires ChunkAndByte(c) && !Multiple(c.inpReadSize, c.want)
    ensures GoesWrong(c)
  {
    hide CallIsShort, Multiple, GoesWrong;
    var s, r := ShortCall(c);
    if c.inpReadSize + r + 1 > c.size {
      SecondPieceOutside(c, s, r);
    } else {
      SecondPieceElsewhere(c, s, r);
    }
  }

  lemma ReadOutside(c: Config, s: State)
    requires |c.junk| == c.inpReadSize && AtRest(c, s) && s.readpos == s.writepos
    requires s.inCounter < |c.input| && |c.input| - s.inCounter >= c.inpReadSize > c.size - s.writepos
    ensures GoesWrong(c)
  {
    hide Reached, Filled, GoesWrong;
    var s' := AboutToRead(c, s);
    ReadIsStep(c, s');
    Reach(c, s', ShovellerThread, ReadStep(c, s'));
    WrongIsReached(c, ReadStep(c, s'));
  }

  /** A consumer which empties the ring after each chunk makes the shoveller meet the end of the ring. */
  lemma {:induction false} SizeMatters(c: Config, s: State)
    requires IsConfig(c) && AtRest(c, s) && s.readpos == s.writepos == s.inCounter && |c.input| >= 2 * c.size
    requires Multiple(c.inpReadSize, c.want) && !Multiple(c.size - s.writepos, c.inpReadSize)
    ensures GoesWrong(c)
    decreases c.size - s.writepos
  {
    hide Reached, Filled, GoesWrong;
    if c.size - s.writepos < c.inpReadSize {
      ReadOutside(c, s);
    } else {
      var s' := ChunkStored(c, s, c.inpReadSize);
      s' := FullCalls(c, s');
      SizeMatters(c, s');
    }
  }

  // ---------- the exact condition

  /** No input, no end of it, and no interleaving makes the fifo go wrong. */
  ghost predicate SafeSizes(size: nat, inpReadSize: nat, want: nat) {
    forall input, fails, junk ::
      |junk| == inpReadSize ==> !GoesWrong(Config(size, inpReadSize, want, input, fails, junk))
  }

  /** With these calls and a ring larger than an input read, all is well exactly if both sizes are multiples.
      A smaller ring never takes any bytes. */
  lemma AlignmentIsNeeded(size: nat, inpReadSize: nat, want: nat)
    requires inpReadSize > 0 && want > 0
    ensures SafeSizes(size, inpReadSize, want) <==>
      size <= inpReadSize || (Multiple(size, inpReadSize) && Multiple(inpReadSize, want))
  {
    hide GoesWrong, Multiple;
    forall input, fails, junk |
      |junk| == inpReadSize && (size <= inpReadSize || (Multiple(size, inpReadSize) && Multiple(inpReadSize, want)))
      ensures !GoesWrong(Config(size, inpReadSize, want, input, fails, junk))
    {
      var c := Config(size, inpReadSize, want, input, fails, junk);
      if size <= inpReadSize {
        StarvedGoesRight(c);
      } else {
        AlignedGoesRight(c);
      }
    }
    var junk := seq(inpReadSize, _ => 0);
    if size > inpReadSize && !Multiple(inpReadSize, want) {
      var c := Config(size, inpReadSize, want, seq(inpReadSize + 1, _ => 1), false, junk);
      WantMatters(c);
    } else if size > inpReadSize && !Multiple(size, inpReadSize) {
      var c := Config(size, inpReadSize, want, seq(2 * size, _ => 1), false, junk);
      AtRestInit(c);
      SizeMatters(c, Init(c));
    }
  }

  /** The shoveller waits forever for room, and the consumer for bytes. */
  predicate Starved(c: Config, s: State) {
    && s.readpos == s.writepos == 0 && s.delivered == [] && !s.outOfBounds
    && !s.endOfInput && !s.inputError && s.endOfConsumption == 0
    && (s.shoveller.OuterTest? || s.shoveller == AwaitRoom(0))
    && match s.consumer
       case Idle => true
       case LoopTest(todo) => todo == c.want
       case CompareEmpty(todo, rpos) => todo == c.want && rpos == 0
       case TestInputEnd(todo, rpos) => todo == c.want && rpos == 0
       case TestInputError(todo, rpos) => todo == c.want && rpos == 0
       case _ => false
  }

  lemma {:induction false} StaysStarved(c: Config, schedule: seq<Thread>)
    requires c.size <= c.inpReadSize == |c.junk| && c.want > 0
    ensures Starved(c, Run(c, schedule))
  {
    if schedule != [] {
      StaysStarved(c, schedule[..|schedule| - 1]);
    }
  }

  lemma StarvedGoesRight(c: Config)
    requires c.size <= c.inpReadSize == |c.junk| && c.want > 0
    ensures !GoesWrong(c)
  {
    hide Run;
    forall schedule
      ensures !Run(c, schedule).outOfBounds && Run(c, schedule).delivered <= c.input
    {
      StaysStarved(c, schedule);
    }
  }

  lemma AlignedGoesRight(c: Config)
    requires Aligned(c)
    ensures !GoesWrong(c)
  {
    hide Run;
    forall schedule
      ensures !Run(c, schedule).outOfBounds && Run(c, schedule).delivered <= c.input
    {
      NoStrayAccess(c, schedule);
      DeliveredIsPrefix(c, schedule);
    }
  }
}
