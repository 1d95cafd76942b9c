/** The consumer of the fifo gets exactly the bytes of the input, in every interleaving. */
module FifoSafety {
  import opened Fifo

  // ---------- alignment

  predicate Multiple(x: nat, d: nat)
    requires d > 0
  {
    x == 0 || (x >= d && Multiple(x - d, d))
  }

  lemma {:induction false} MultipleGap(a: nat, b: nat, d: nat)
    requires d > 0 && Multiple(a, d) && Multiple(b, d) && a > b
    ensures a - b >= d
  {
    if b > 0 {
      MultipleGap(a - d, b - d, d);
    }
  }

  lemma {:induction false} MultipleSum(a: nat, b: nat, d: nat)
    requires d > 0 && Multiple(a, d) && Multiple(b, d)
    ensures Multiple(a + b, d)
  {
    if a > 0 {
      MultipleSum(a - d, b, d);
    }
  }

  lemma {:induction false} MultipleTransitive(a: nat, b: nat, d: nat)
    requires b > 0 && d > 0 && Multiple(a, b) && Multiple(b, d)
    ensures Multiple(a, d)
  {
    if a > 0 {
      MultipleTransitive(a - b, b, d);
      MultipleSum(b, a - b, d);
    }
  }

  /** What the fifo needs from its users for being safe. */
  ghost predicate Aligned(c: Config) {
    IsConfig(c) && Multiple(c.size, c.inpReadSize) && Multiple(c.inpReadSize, c.want)
  }

  lemma {:induction false} ProductIsMultiple(k: nat, d: nat)
    requires d > 0
    ensures k * d >= 0 && Multiple(k * d, d)
  {
    if k > 0 {
      ProductIsMultiple(k - 1, d);
      assert k * d == (k - 1) * d + d;
    }
  }

  /** burn_fifo_source_new without larger read chunks: at least two chunks of which each is one input read. */
  lemma NewFifoIsAligned(chunksize: nat, chunks: nat, want: nat, input: seq<byte>, fails: bool, junk: seq<byte>)
    requires chunksize >= 1 && chunks >= 2 && want > 0 && Multiple(chunksize, want) && |junk| == chunksize
    ensures Aligned(Config(chunks * chunksize, chunksize, want, input, fails, junk))
  {
    ProductIsMultiple(chunks, chunksize);
    assert chunks * chunksize == (chunks - 2) * chunksize + 2 * chunksize;
  }

  // ---------- the unread bytes in the ring

  function Content(ring: seq<byte>, rpos: nat, wpos: nat): seq<byte>
    requires rpos <= |ring| && wpos <= |ring|
  {
    if rpos <= wpos then ring[rpos..wpos] else ring[rpos..] + ring[..wpos]
  }

  lemma FreeBytesIsRest(ring: seq<byte>, rpos: nat, wpos: nat)
    requires rpos <= |ring| && wpos < |ring|
    ensures FreeBytes(|ring|, wpos, rpos) == |ring| - 1 - |Content(ring, rpos, wpos)|
  {}

  lemma ContentGrows(ring: seq<byte>, rpos: nat, wpos: nat, ret: nat)
    requires rpos <= |ring| && wpos < |ring| && wpos + ret <= |ring|
    requires |Content(ring, rpos, wpos)| + ret < |ring|
    ensures var next := if wpos + ret == |ring| then 0 else wpos + ret;
      Content(ring, rpos, next) == Content(ring, rpos, wpos) + ring[wpos..wpos + ret]
  {}

  lemma ContentUntouched(ring: seq<byte>, rpos: nat, wpos: nat, b: seq<byte>)
    requires rpos <= |ring| && wpos < |ring| && wpos + |b| <= |ring|
    requires |Content(ring, rpos, wpos)| + |b| < |ring|
    ensures Content(Filled(ring, wpos, b), rpos, wpos) == Content(ring, rpos, wpos)
    ensures Filled(ring, wpos, b)[wpos..wpos + |b|] == b
  {}

  lemma ContentShrinks(ring: seq<byte>, rpos: nat, wpos: nat, diff: nat)
    requires rpos < |ring| && wpos < |ring|
    requires rpos + diff <= Readable(|ring|, rpos, wpos)
    ensures diff <= |Content(ring, rpos, wpos)|
    ensures Content(ring, rpos + diff, wpos) == Content(ring, rpos, wpos)[diff..]
    ensures ring[rpos..rpos + diff] == Content(ring, rpos, wpos)[..diff]
  {}

  /** The two pieces of a wrapping copy. */
  lemma WrappedPieces(ring: seq<byte>, wpos: nat, b: seq<byte>)
    requires wpos <= |ring| && |b| <= |ring| < wpos + |b|
    ensures var atEnd := |ring| - wpos;
      var full := Filled(ring, wpos, b);
      && full[..|b| - atEnd] == b[atEnd..]
      && full[|b| - atEnd..wpos] == ring[|b| - atEnd..wpos]
      && full[wpos..] == b[..atEnd]
  {}

  lemma WrapAppends(ring: seq<byte>, rpos: nat, wpos: nat, b: seq<byte>, ret: nat)
    requires rpos < wpos < |ring| && 0 < ret <= |b| && |ring| - wpos < |b|
    requires FreeBytes(|ring|, wpos, rpos) >= |b|
    ensures var atEnd := |ring| - wpos;
      var next := if ret >= atEnd then ret - atEnd else wpos + ret;
      Content(Filled(ring, wpos, b), rpos, next) == Content(ring, rpos, wpos) + b[..ret]
  {
    var full, atEnd := Filled(ring, wpos, b), |ring| - wpos;
    WrappedPieces(ring, wpos, b);
    hide Filled;
    Within(full[|b| - atEnd..wpos], full, |b| - atEnd, rpos);
    Within(ring[|b| - atEnd..wpos], ring, |b| - atEnd, rpos);
    assert full[rpos..wpos] == ring[rpos..wpos];
    if ret >= atEnd {
      WrapToStart(full, rpos, wpos, b, ret);
    } else {
      WrapAtEnd(full, rpos, wpos, b, ret);
    }
  }

  lemma WrapToStart(full: seq<byte>, rpos: nat, wpos: nat, b: seq<byte>, ret: nat)
    requires rpos < wpos < |full| && |full| - wpos <= ret <= |b| && |b| - (|full| - wpos) <= rpos
    requires full[wpos..] == b[..|full| - wpos]
    requires full[..|b| - (|full| - wpos)] == b[|full| - wpos..]
    ensures full[rpos..] + full[..ret - (|full| - wpos)] == full[rpos..wpos] + b[..ret]
  {
    var atEnd := |full| - wpos;
    Joined(full, rpos, wpos, |full|);
    assert full[..ret - atEnd] == full[..|b| - atEnd][..ret - atEnd];
    assert b[..ret] == b[..atEnd] + b[atEnd..][..ret - atEnd];
  }

  lemma WrapAtEnd(full: seq<byte>, rpos: nat, wpos: nat, b: seq<byte>, ret: nat)
    requires rpos < wpos < |full| && ret < |full| - wpos <= |b|
    requires full[wpos..] == b[..|full| - wpos]
    ensures full[rpos..wpos + ret] == full[rpos..wpos] + b[..ret]
  {
    Joined(full, rpos, wpos, wpos + ret);
    assert full[wpos..wpos + ret] == full[wpos..][..ret];
    assert b[..ret] == b[..|full| - wpos][..ret];
  }

  lemma Within(part: seq<byte>, s: seq<byte>, lo: nat, mid: nat)
    requires lo <= mid <= lo + |part| <= |s| && part == s[lo..lo + |part|]
    ensures part[mid - lo..] == s[mid..lo + |part|]
  {}

  lemma Joined(s: seq<byte>, lo: nat, mid: nat, hi: nat)
    requires lo <= mid <= hi <= |s|
    ensures s[lo..hi] == s[lo..mid] + s[mid..hi]
  {}

  /** A read into the ring stays within it exactly if the ring is not empty or has enough bytes up to its end. */
  lemma ActivationFits(c: Config, rpos: nat, wpos: nat, ret: nat)
    requires IsConfig(c) && rpos <= c.size && wpos < c.size && 0 < ret <= c.inpReadSize
    requires FreeBytes(c.size, wpos, rpos) >= c.inpReadSize
    ensures (TransEnd(c, wpos, rpos) || wpos + ret <= c.size) <==> !(rpos == wpos && c.size - wpos < ret)
  {}

  /** Each activation appends exactly the valid bytes and touches no unread ones, wherever it happens,
      unless the ring is empty and its end is too near. */
  lemma ActivationAppends(c: Config, ring: seq<byte>, rpos: nat, wpos: nat, from: nat, ret: nat)
    requires IsConfig(c) && |ring| == c.size && rpos <= c.size && wpos < c.size
    requires 0 < ret <= c.inpReadSize && from + ret <= |c.input|
    requires FreeBytes(c.size, wpos, rpos) >= c.inpReadSize
    requires !(rpos == wpos && c.size - wpos < ret)
    ensures var transEnd := TransEnd(c, wpos, rpos);
      var b := Chunk(c, from, ret, transEnd);
      && (transEnd || wpos + ret <= c.size)
      && NextWritePos(c, wpos, ret, wpos, transEnd) < c.size
      && Content(Filled(ring, wpos, b), rpos, NextWritePos(c, wpos, ret, wpos, transEnd))
        == Content(ring, rpos, wpos) + c.input[from..from + ret]
  {
    hide Content, Filled;
    FreeBytesIsRest(ring, rpos, wpos);
    if TransEnd(c, wpos, rpos) {
      var b := InputBuffer(c, from, ret);
      assert b[..ret] == c.input[from..from + ret];
      WrapAppends(ring, rpos, wpos, b, ret);
    } else {
      var b := c.input[from..from + ret];
      ContentUntouched(ring, rpos, wpos, b);
      ContentGrows(Filled(ring, wpos, b), rpos, wpos, ret);
    }
  }

  // ---------- the invariant

  /** Bytes which have been made visible to the consumer. */
  function Published(s: State): int {
    s.inCounter - (if s.shoveller.Publish? then s.shoveller.ret else 0)
  }

  /** Bytes which the current call has taken out of the ring. */
  function Progress(c: Config, s: State): int {
    match s.consumer
    case Idle => 0
    case Over(_) => 0
    case LoopTest(todo) => c.want - todo
    case CompareEmpty(todo, _) => c.want - todo
    case TestInputEnd(todo, _) => c.want - todo
    case TestInputError(todo, _) => c.want - todo
    case ComputeDiff(todo, _) => c.want - todo
    case Copy(todo, _, _) => c.want - todo
    case Advance(todo, _) => c.want - todo
    case Wrap(todo, diff) => c.want - todo + diff
    case Finish(todo) => c.want - todo
  }

  function Consumed(c: Config, s: State): int {
    |s.delivered| + Progress(c, s)
  }

  /** The ring holds the bytes which are published but not consumed. */
  ghost predicate RingOk(c: Config, s: State) {
    && |s.ring| == c.size && s.writepos < c.size && s.readpos <= c.size
    && (s.readpos == c.size ==> s.consumer.Wrap?)
    && 0 <= Consumed(c, s) <= Published(s) <= s.inCounter <= |c.input|
    && Content(s.ring, s.readpos, s.writepos) == c.input[Consumed(c, s)..Published(s)]
    && !s.outOfBounds
  }

  ghost predicate PositionsAligned(c: Config, s: State)
    requires IsConfig(c)
  {
    && (Published(s) < |c.input| ==> Multiple(s.writepos, c.inpReadSize))
    && (Consumed(c, s) < |c.input| ==> Multiple(s.readpos, c.want))
  }

  /** There is room in the ring for one input read. */
  ghost predicate HasRoom(c: Config, s: State)
    requires RingOk(c, s)
  {
    |Content(s.ring, s.readpos, s.writepos)| + c.inpReadSize < c.size
  }

  predicate InLoop(sh: Shoveller) {
    sh.OuterTest? || sh.AwaitRoom? || sh.ReadInput? || sh.Publish? || sh.ReportError?
  }

  predicate Closing(sh: Shoveller) {
    sh.ClaimTest? || sh.ClaimSet? || sh.FreeRing? || sh.ShovellerDone?
  }

  ghost predicate ShovellerOk(c: Config, s: State)
    requires RingOk(c, s)
  {
    match s.shoveller
    case AwaitRoom(wpos) => wpos == s.writepos
    case ReadInput(wpos, transEnd) =>
      wpos == s.writepos && HasRoom(c, s) && (s.inCounter < |c.input| ==> !transEnd && wpos + c.inpReadSize <= c.size)
    case Publish(ret, wpos, transEnd) =>
      && wpos == s.writepos && HasRoom(c, s) && !transEnd && 0 < ret <= c.inpReadSize && wpos + ret <= c.size
      && s.ring[wpos..wpos + ret] == c.input[s.inCounter - ret..s.inCounter]
      && (ret < c.inpReadSize ==> s.inCounter == |c.input|)
    case _ => true
  }

  ghost predicate FlagsOk(c: Config, s: State) {
    && (InLoop(s.shoveller) ==> s.endOfConsumption == 0 && !s.endOfInput && !s.inputError)
    && (!InLoop(s.shoveller) || s.shoveller.ReportError? ==> s.inCounter == |c.input|)
    && (s.shoveller.ReportError? || s.inputError ==> c.fails)
    && (s.shoveller.ReportEnd? ==> !s.endOfInput)
    && (!InLoop(s.shoveller) && !s.shoveller.ReportEnd? ==> s.endOfInput || s.consumer.Over?)
    && (Closing(s.shoveller) ==> Consumed(c, s) == Published(s) || s.consumer.Over?)
    && (s.shoveller.FreeRing? || s.shoveller.ShovellerDone? ==> s.endOfConsumption != 0)
    && (s.endOfConsumption != 0 ==> s.consumer.Over? || s.shoveller.FreeRing? || s.shoveller.ShovellerDone?)
    && (s.consumer.Over? ==> s.endOfConsumption != 0)
    && (s.freed ==> s.shoveller.ShovellerDone?)
  }

  /** The start of the buffer of the caller holds the bytes of the current call. */
  ghost predicate Holds(c: Config, s: State, n: int) {
    0 <= n <= |s.buffer| && |s.delivered| + n <= |c.input| && s.buffer[..n] == c.input[|s.delivered|..|s.delivered| + n]
  }

  /** Inside the loop of fifo_read. A second round happens only after the input has been consumed completely. */
  ghost predicate RoundOk(c: Config, s: State, todo: nat) {
    todo <= c.want && Holds(c, s, c.want - todo) && (0 < todo < c.want ==> Consumed(c, s) == |c.input|)
  }

  /** The end of the unread bytes which follow the read position without a gap. */
  function Readable(size: nat, rpos: nat, wpos: nat): nat {
    if wpos >= rpos then wpos else size
  }

  /** The bytes to be copied next: as many as wanted or the rest of the input. */
  ghost predicate CopyOk(c: Config, s: State, todo: nat, diff: nat) {
    && todo == c.want && 0 < diff <= todo && s.readpos < c.size
    && s.readpos + diff <= Readable(c.size, s.readpos, s.writepos)
    && (diff < c.want ==> Consumed(c, s) + diff == |c.input|)
  }

  ghost predicate ConsumerOk(c: Config, s: State) {
    && |s.buffer| == c.want && s.outCounter == |s.delivered| <= |c.input| && s.delivered == c.input[..|s.delivered|]
    && match s.consumer
       case Idle => true
       case LoopTest(todo) => RoundOk(c, s, todo)
       case CompareEmpty(todo, rpos) => RoundOk(c, s, todo) && 0 < todo && rpos == s.readpos
       case TestInputEnd(todo, rpos) => RoundOk(c, s, todo) && 0 < todo && rpos == s.readpos
       case TestInputError(todo, rpos) => RoundOk(c, s, todo) && 0 < todo && rpos == s.readpos
       case ComputeDiff(todo, rpos) =>
         RoundOk(c, s, todo) && 0 < todo && rpos == s.readpos &&
         (s.readpos == s.writepos ==> !InLoop(s.shoveller))
       case Copy(todo, rpos, diff) => RoundOk(c, s, todo) && CopyOk(c, s, todo, diff) && rpos == s.readpos
       case Advance(todo, diff) => CopyOk(c, s, todo, diff) && Holds(c, s, diff)
       case Wrap(todo, diff) =>
         todo == c.want && 0 < diff <= todo && Holds(c, s, diff) && (diff < c.want ==> Consumed(c, s) == |c.input|)
       case Finish(todo) =>
         RoundOk(c, s, todo) && (todo == c.want ==> Consumed(c, s) == |c.input| && !InLoop(s.shoveller))
       case Over(ret) => (ret == 0 && |s.delivered| == |c.input|) || (ret == -1 && s.inputError)
  }

  ghost predicate Inv(c: Config, s: State) {
    Aligned(c) && RingOk(c, s) && PositionsAligned(c, s) && ShovellerOk(c, s) && FlagsOk(c, s) && ConsumerOk(c, s)
  }

  lemma InitInv(c: Config)
    requires Aligned(c)
    ensures Inv(c, Init(c))
  {}

  // ---------- steps of the shoveller

  /** The number of unread bytes. Equal positions mean an empty ring, not a full one. */
  lemma UnreadBytes(c: Config, s: State)
    requires IsConfig(c) && RingOk(c, s)
    ensures |Content(s.ring, s.readpos, s.writepos)| == Published(s) - Consumed(c, s) < c.size
    ensures s.readpos <= s.writepos ==> s.writepos - s.readpos == Published(s) - Consumed(c, s)
    ensures Consumed(c, s) == Published(s) && s.readpos < c.size ==> s.readpos == s.writepos
  {}

  /** What the consumer sees of a step of the shoveller: nothing but more readable bytes and an input error. */
  predicate SameForConsumer(c: Config, s: State, s': State) {
    && s'.consumer == s.consumer && s'.buffer == s.buffer && s'.delivered == s.delivered
    && s'.outCounter == s.outCounter && s'.readpos == s.readpos
    && (s.inputError ==> s'.inputError) && (!InLoop(s.shoveller) ==> !InLoop(s'.shoveller))
    && (s.readpos < c.size ==>
          && (s'.readpos == s'.writepos ==> s.readpos == s.writepos)
          && Readable(c.size, s.readpos, s.writepos) <= Readable(c.size, s'.readpos, s'.writepos))
  }

  lemma ConsumerUnaware(c: Config, s: State, s': State)
    requires RingOk(c, s) && ConsumerOk(c, s) && RingOk(c, s') && SameForConsumer(c, s, s')
    ensures ConsumerOk(c, s') && Consumed(c, s') == Consumed(c, s)
  {
    hide Content, Readable;
  }

  /** States which differ only in flags and in what the shoveller does next. */
  predicate SameData(s: State, s': State) {
    && s'.ring == s.ring && s'.readpos == s.readpos && s'.writepos == s.writepos && s'.outOfBounds == s.outOfBounds
    && s'.inCounter == s.inCounter && Published(s') == Published(s) && s'.outCounter == s.outCounter
    && s'.consumer == s.consumer && s'.buffer == s.buffer && s'.delivered == s.delivered
    && (s.inputError ==> s'.inputError) && (!InLoop(s.shoveller) ==> !InLoop(s'.shoveller))
  }

  lemma SameDataOk(c: Config, s: State, s': State)
    requires IsConfig(c) && RingOk(c, s) && PositionsAligned(c, s) && ConsumerOk(c, s) && SameData(s, s')
    ensures RingOk(c, s') && PositionsAligned(c, s') && ConsumerOk(c, s')
  {
    hide Content, Multiple, ConsumerOk, Published, Consumed, Readable;
    ProgressKept(c, s, s');
    assert RingOk(c, s') && PositionsAligned(c, s');
    ConsumerUnaware(c, s, s');
  }

  lemma FlagsStep(c: Config, s: State)
    requires FlagsOk(c, s) && |c.junk| == c.inpReadSize && s.inCounter <= |c.input|
    requires s.readpos == s.writepos ==> Consumed(c, s) == Published(s)
    ensures FlagsOk(c, ShovellerStep(c, s))
  {
    hide FlagsOk, ShovellerStep;
    if s.shoveller.ReadInput? {
      FlagsRead(c, s);
      ReadIsStep(c, s);
    } else if InLoop(s.shoveller) {
      FlagsInLoop(c, s);
    } else {
      FlagsAfterLoop(c, s);
    }
  }

  lemma ReadIsStep(c: Config, s: State)
    requires s.shoveller.ReadInput? && |c.junk| == c.inpReadSize
    ensures ShovellerStep(c, s) == ReadStep(c, s)
  {
    hide ReadStep;
  }

  lemma FlagsInLoop(c: Config, s: State)
    requires FlagsOk(c, s) && |c.junk| == c.inpReadSize && InLoop(s.shoveller) && !s.shoveller.ReadInput?
    ensures FlagsOk(c, ShovellerStep(c, s))
  {
    hide ReadStep, NextWritePos, FreeBytes, TransEnd, Consumed, Published;
  }

  lemma FlagsAfterLoop(c: Config, s: State)
    requires FlagsOk(c, s) && |c.junk| == c.inpReadSize && !InLoop(s.shoveller)
    requires s.readpos == s.writepos ==> Consumed(c, s) == Published(s)
    ensures FlagsOk(c, ShovellerStep(c, s))
  {
    hide ReadStep, NextWritePos, FreeBytes, TransEnd;
    match s.shoveller
    {
      case OuterTest => {}
      case ReportError => {}
      case ReportEnd => {}
      case DrainPos => {}
      case DrainEnd => {}
      case ClaimTest => {}
      case ClaimSet => {}
      case FreeRing => {}
      case ShovellerDone => {}
      case ReadInput(_, _) => {}
      case AwaitRoom(_) => {}
      case Publish(_, _, _) => {}
    }
  }

  lemma FlagsRead(c: Config, s: State)
    requires FlagsOk(c, s) && |c.junk| == c.inpReadSize && s.inCounter <= |c.input| && s.shoveller.ReadInput?
    ensures FlagsOk(c, ReadStep(c, s))
  {
    hide Filled, InputBuffer;
  }

  lemma ShovellerFlags(c: Config, s: State)
    requires Inv(c, s)
    ensures FlagsOk(c, ShovellerStep(c, s))
  {
    hide FlagsOk, PositionsAligned, ShovellerOk, ConsumerOk, ShovellerStep;
    UnreadBytes(c, s);
    FlagsStep(c, s);
  }

  /** Alignment keeps input reads from crossing the end of the ring. */
  lemma RoomAtEnd(c: Config, s: State)
    requires Aligned(c) && RingOk(c, s) && PositionsAligned(c, s) && Published(s) < |c.input|
    ensures s.writepos + c.inpReadSize <= c.size
  {
    hide Content, Multiple;
    MultipleGap(c.size, s.writepos, c.inpReadSize);
  }

  lemma AwaitRoomInv(c: Config, s: State)
    requires Inv(c, s) && s.shoveller.AwaitRoom?
    ensures Inv(c, ShovellerStep(c, s))
  {
    hide Content, Multiple, FlagsOk, ConsumerOk, FreeBytes, PositionsAligned;
    var wpos := s.shoveller.wpos;
    ShovellerFlags(c, s);
    SameDataOk(c, s, ShovellerStep(c, s));
    FreeBytesIsRest(s.ring, s.readpos, wpos);
    if Published(s) < |c.input| {
      RoomAtEnd(c, s);
    }
  }

  lemma ReadData(c: Config, s: State)
    requires Inv(c, s) && s.shoveller.ReadInput? && s.inCounter < |c.input|
    ensures var s' := ReadStep(c, s);
      && RingOk(c, s') && ShovellerOk(c, s')
      && s' == s.(ring := s'.ring, inCounter := s'.inCounter, shoveller := s'.shoveller)
    ensures Published(ReadStep(c, s)) == Published(s)
  {
    hide Content, Multiple, FlagsOk, ConsumerOk, Filled, PositionsAligned, Consumed;
    var wpos := s.shoveller.wpos;
    var ret := Min(c.inpReadSize, |c.input| - s.inCounter);
    ContentUntouched(s.ring, s.readpos, wpos, c.input[s.inCounter..s.inCounter + ret]);
    ProgressKept(c, s, ReadStep(c, s));
  }

  lemma ProgressKept(c: Config, s: State, s': State)
    requires s'.consumer == s.consumer && s'.delivered == s.delivered
    ensures Consumed(c, s') == Consumed(c, s)
  {}

  lemma ReadInv(c: Config, s: State)
    requires Inv(c, s) && s.shoveller.ReadInput? && s.inCounter < |c.input|
    ensures Inv(c, ReadStep(c, s))
  {
    hide RingOk, ConsumerOk, FlagsOk, ShovellerOk, Multiple, Published, ReadStep, Content;
    ReadData(c, s);
    ShovellerFlags(c, s);
    ConsumerUnaware(c, s, ReadStep(c, s));
  }

  lemma PublishContent(c: Config, s: State)
    requires |c.junk| == c.inpReadSize && RingOk(c, s) && ShovellerOk(c, s) && s.shoveller.Publish?
    ensures var s' := ShovellerStep(c, s);
      && s'.writepos < c.size
      && Content(s.ring, s.readpos, s'.writepos) == c.input[Consumed(c, s)..s.inCounter]
  {
    hide Content, Consumed;
    var ret, wpos := s.shoveller.ret, s.shoveller.wpos;
    ContentGrows(s.ring, s.readpos, wpos, ret);
    var k := Consumed(c, s);
    assert c.input[k..s.inCounter] == c.input[k..s.inCounter - ret] + c.input[s.inCounter - ret..s.inCounter];
  }

  lemma PublishRing(c: Config, s: State)
    requires Inv(c, s) && s.shoveller.Publish?
    ensures RingOk(c, ShovellerStep(c, s)) && ShovellerOk(c, ShovellerStep(c, s))
  {
    hide Content, Multiple, FlagsOk, ConsumerOk, PositionsAligned, ShovellerOk, NextWritePos, Consumed;
    PublishContent(c, s);
    ProgressKept(c, s, ShovellerStep(c, s));
    var s' := ShovellerStep(c, s);
    assert RingOk(c, s');
    PublishedIsQuiet(c, s);
  }

  lemma PublishedIsQuiet(c: Config, s: State)
    requires |c.junk| == c.inpReadSize && s.shoveller.Publish? && RingOk(c, ShovellerStep(c, s))
    ensures ShovellerOk(c, ShovellerStep(c, s))
  {
    hide RingOk;
  }

  lemma PublishPositions(c: Config, s: State)
    requires Inv(c, s) && s.shoveller.Publish?
    ensures PositionsAligned(c, ShovellerStep(c, s))
  {
    hide Content, Multiple, FlagsOk, ConsumerOk;
    MultipleSelf(c.inpReadSize);
    if s.inCounter < |c.input| {
      MultipleSum(s.writepos, c.inpReadSize, c.inpReadSize);
    }
  }

  lemma MultipleSelf(d: nat)
    requires d > 0
    ensures Multiple(d, d) && Multiple(0, d)
  {
    assert Multiple(0, d);
  }

  /** New bytes do not make the ring look empty and do not shorten what can be read without a gap. */
  lemma ReadableGrows(ring: seq<byte>, rpos: nat, wpos: nat, ret: nat)
    requires rpos < |ring| && wpos < |ring| && wpos + ret <= |ring| && 0 < ret
    requires |Content(ring, rpos, wpos)| + ret < |ring|
    ensures var next := if wpos + ret == |ring| then 0 else wpos + ret;
      next != rpos && Readable(|ring|, rpos, wpos) <= Readable(|ring|, rpos, next)
  {}

  lemma PublishConsumer(c: Config, s: State)
    requires Inv(c, s) && s.shoveller.Publish? && RingOk(c, ShovellerStep(c, s))
    ensures ConsumerOk(c, ShovellerStep(c, s))
  {
    hide Content, Multiple, FlagsOk, ConsumerOk, PositionsAligned, Readable, Consumed, Published;
    if s.readpos < c.size {
      ReadableGrows(s.ring, s.readpos, s.writepos, s.shoveller.ret);
    }
    ConsumerUnaware(c, s, ShovellerStep(c, s));
  }

  lemma PublishInv(c: Config, s: State)
    requires Inv(c, s) && s.shoveller.Publish?
    ensures Inv(c, ShovellerStep(c, s))
  {
    hide RingOk, PositionsAligned, ConsumerOk, FlagsOk, ShovellerOk, Multiple, ShovellerStep;
    PublishRing(c, s);
    PublishPositions(c, s);
    PublishConsumer(c, s);
    ShovellerFlags(c, s);
  }

  predicate Quiet(c: Config, s: State) {
    !s.shoveller.AwaitRoom? && !s.shoveller.Publish? && (s.shoveller.ReadInput? ==> s.inCounter >= |c.input|)
  }

  lemma QuietData(c: Config, s: State)
    requires Quiet(c, s) && |c.junk| == c.inpReadSize
    ensures SameData(s, ShovellerStep(c, s))
  {
    hide Filled, InputBuffer, NextWritePos, FreeBytes, TransEnd;
    match s.shoveller
    {
      case OuterTest => {}
      case ReportError => {}
      case ReportEnd => {}
      case DrainPos => {}
      case DrainEnd => {}
      case ClaimTest => {}
      case ClaimSet => {}
      case FreeRing => {}
      case ShovellerDone => {}
      case ReadInput(_, _) => {}
      case AwaitRoom(_) => {}
      case Publish(_, _, _) => {}
    }
  }

  lemma QuietShoveller(c: Config, s: State)
    requires Quiet(c, s) && |c.junk| == c.inpReadSize && RingOk(c, ShovellerStep(c, s))
    ensures ShovellerOk(c, ShovellerStep(c, s))
  {
    hide RingOk, HasRoom;
    match s.shoveller
    {
      case OuterTest => {}
      case ReadInput(_, _) => {}
      case _ => {}
    }
  }

  lemma QuietInv(c: Config, s: State)
    requires Inv(c, s) && Quiet(c, s)
    ensures Inv(c, ShovellerStep(c, s))
  {
    hide RingOk, PositionsAligned, ConsumerOk, FlagsOk, ShovellerOk, Multiple, ShovellerStep, SameData, Quiet;
    ShovellerFlags(c, s);
    QuietData(c, s);
    SameDataOk(c, s, ShovellerStep(c, s));
    QuietShoveller(c, s);
  }

  lemma ShovellerInv(c: Config, s: State)
    requires Inv(c, s)
    ensures Inv(c, ShovellerStep(c, s))
  {
    hide Inv, RingOk, PositionsAligned, ConsumerOk, FlagsOk, ShovellerOk, Multiple, ReadStep;
    if s.shoveller.AwaitRoom? {
      AwaitRoomInv(c, s);
    } else if s.shoveller.Publish? {
      PublishInv(c, s);
    } else if s.shoveller.ReadInput? && s.inCounter < |c.input| {
      ReadInv(c, s);
    } else {
      QuietInv(c, s);
    }
  }
}
