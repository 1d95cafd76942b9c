/** The fifo of libburn/file.c: a shoveller thread and a consumer thread share a ring buffer without a mutex.
    Each step of a thread accesses at most one variable which the other thread may write. */
module Fifo {

  type byte = bv8

  /** size is chunksize * chunks. Reading from the input ends after "input", by an error if "fails".
      "want" is the size parameter of all calls of fifo_read. "junk" is what an input may leave
      in the unused part of its last buffer. */
  datatype Config = Config(size: nat, inpReadSize: nat, want: nat, input: seq<byte>, fails: bool, junk: seq<byte>)

  ghost predicate IsConfig(c: Config) {
    0 < c.inpReadSize < c.size && 0 < c.want && |c.junk| == c.inpReadSize
  }

  datatype Shoveller =
    | OuterTest                                  // while (!end_of_consumption)
    | AwaitRoom(wpos: nat)                       // inner loop: rpos = buf_readpos
    | ReadInput(wpos: nat, transEnd: bool)
    | Publish(ret: nat, wpos: nat, transEnd: bool)
    | ReportError                                // input_error = errno
    | ReportEnd                                  // end_of_input = 1
    | DrainPos                                   // buf_readpos != buf_writepos
    | DrainEnd                                   // !end_of_consumption
    | ClaimTest                                  // if (!end_of_consumption)
    | ClaimSet                                   // end_of_consumption = 2
    | FreeRing
    | ShovellerDone

  datatype Consumer =
    | Idle                                       // before a call of fifo_read
    | LoopTest(todo: nat)                        // while (todo > 0)
    | CompareEmpty(todo: nat, rpos: nat)         // while (rpos == buf_writepos)
    | TestInputEnd(todo: nat, rpos: nat)
    | TestInputError(todo: nat, rpos: nat)
    | ComputeDiff(todo: nat, rpos: nat)          // diff = buf_writepos - rpos
    | Copy(todo: nat, rpos: nat, diff: nat)
    | Advance(todo: nat, diff: nat)              // buf_readpos += diff
    | Wrap(todo: nat, diff: nat)                 // if (buf_readpos >= bufsize)
    | Finish(todo: nat)
    | Over(ret: int)                             // a call returned 0 or -1

  datatype State = State(
    ring: seq<byte>, writepos: nat, readpos: nat,
    endOfInput: bool, inputError: bool, endOfConsumption: nat, freed: bool,
    inCounter: nat, outCounter: nat,
    shoveller: Shoveller, consumer: Consumer,
    buffer: seq<byte>,       // memory of the caller of fifo_read
    delivered: seq<byte>,    // what the completed calls have handed out
    outOfBounds: bool)       // memory outside of the ring or a freed ring has been accessed

  function Init(c: Config): State {
    State(seq(c.size, _ => 0), 0, 0, false, false, 0, false, 0, 0, OuterTest, Idle, seq(c.want, _ => 0), [], false)
  }

  // ---------- the shoveller

  function Min(a: nat, b: nat): nat {
    if a < b then a else b
  }

  function FreeBytes(size: nat, wpos: nat, rpos: nat): int {
    if rpos == wpos then size - 1
    else if rpos > wpos then rpos - wpos - 1
    else (size - wpos) + rpos - 1
  }

  predicate TransEnd(c: Config, wpos: nat, rpos: nat) {
    rpos < wpos && c.size - wpos < c.inpReadSize
  }

  /** A full input buffer of which the first ret bytes are valid. */
  function InputBuffer(c: Config, from: nat, ret: nat): (b: seq<byte>)
    requires from + ret <= |c.input| && ret <= |c.junk|
    ensures |b| == |c.junk|
  {
    c.input[from..from + ret] + c.junk[ret..]
  }

  /** What is to be brought into the ring. */
  function Chunk(c: Config, from: nat, ret: nat, transEnd: bool): (b: seq<byte>)
    requires from + ret <= |c.input| && ret <= |c.junk|
    ensures |b| == if transEnd then |c.junk| else ret
  {
    if transEnd then InputBuffer(c, from, ret) else c.input[from..from + ret]
  }

  /** memcpy of b into the ring, wrapping if it does not fit at the end. */
  function Filled(ring: seq<byte>, wpos: nat, b: seq<byte>): (r: seq<byte>)
    requires wpos <= |ring| && |b| <= |ring|
    ensures |r| == |ring|
  {
    if wpos + |b| <= |ring| then ring[..wpos] + b + ring[wpos + |b|..]
    else
      var atEnd := |ring| - wpos;
      b[atEnd..] + ring[|b| - atEnd..wpos] + b[..atEnd]
  }

  function NextWritePos(c: Config, writepos: nat, ret: nat, wpos: nat, transEnd: bool): nat {
    if transEnd then
      if ret >= c.size - wpos then (if wpos <= c.size then ret - (c.size - wpos) else 0) else writepos + ret
    else if writepos + ret == c.size then 0
    else writepos + ret
  }

  /** Reads either directly into the ring or by help of a buffer which then gets copied as a whole. */
  function ReadStep(c: Config, s: State): State
    requires s.shoveller.ReadInput? && |c.junk| == c.inpReadSize
  {
    var wpos, transEnd := s.shoveller.wpos, s.shoveller.transEnd;
    if s.inCounter >= |c.input| then
      s.(shoveller := if c.fails then ReportError else ReportEnd)
    else
      var ret := Min(c.inpReadSize, |c.input| - s.inCounter);
      var b := Chunk(c, s.inCounter, ret, transEnd);
      var read := s.(inCounter := s.inCounter + ret, shoveller := Publish(ret, wpos, transEnd));
      if (transEnd || wpos + |b| <= |s.ring|) && wpos <= |s.ring| && |b| <= |s.ring|
      then read.(ring := Filled(s.ring, wpos, b))
      else read.(outOfBounds := true)
  }

  function ShovellerStep(c: Config, s: State): State
    requires |c.junk| == c.inpReadSize
  {
    match s.shoveller
    case OuterTest => s.(shoveller := if s.endOfConsumption == 0 then AwaitRoom(s.writepos) else ReportEnd)
    case AwaitRoom(wpos) =>
      if FreeBytes(c.size, wpos, s.readpos) >= c.inpReadSize
      then s.(shoveller := ReadInput(wpos, TransEnd(c, wpos, s.readpos)))
      else s
    case ReadInput(_, _) => ReadStep(c, s)
    case Publish(ret, wpos, transEnd) =>
      s.(writepos := NextWritePos(c, s.writepos, ret, wpos, transEnd), shoveller := OuterTest)
    case ReportError => s.(inputError := true, shoveller := ReportEnd)
    case ReportEnd => s.(endOfInput := s.endOfInput || s.endOfConsumption == 0, shoveller := DrainPos)
    case DrainPos => s.(shoveller := if s.readpos != s.writepos then DrainEnd else ClaimTest)
    case DrainEnd => s.(shoveller := if s.endOfConsumption == 0 then DrainPos else ClaimTest)
    case ClaimTest => s.(shoveller := if s.endOfConsumption == 0 then ClaimSet else FreeRing)
    case ClaimSet => s.(endOfConsumption := 2, shoveller := FreeRing)
    case FreeRing => s.(freed := true, shoveller := ShovellerDone)
    case ShovellerDone => s
  }

  // ---------- the consumer

  /** The number of bytes to be copied at once. */
  function CopySize(c: Config, wpos: nat, rpos: nat, todo: nat): nat
    requires rpos <= c.size
  {
    Min(if wpos > rpos then wpos - rpos else if wpos == rpos then 0 else c.size - rpos, todo)
  }

  /** memcpy to the start of the buffer. The source address depends on the progress of the call. */
  function CopyStep(c: Config, s: State): State
    requires s.consumer.Copy?
  {
    var todo, rpos, diff := s.consumer.todo, s.consumer.rpos, s.consumer.diff;
    var from := c.want - todo + rpos;
    var next := Advance(todo, diff);
    if !s.freed && 0 <= from && from + diff <= |s.ring| && diff <= |s.buffer| then
      s.(buffer := s.ring[from..from + diff] + s.buffer[diff..], consumer := next)
    else
      s.(outOfBounds := true, consumer := next)
  }

  function FinishStep(c: Config, s: State): State
    requires s.consumer.Finish?
  {
    var count := c.want - s.consumer.todo;
    if count <= 0 then s.(endOfConsumption := 1, consumer := Over(0))
    else
      var copied := s.buffer[..Min(count, |s.buffer|)];
      s.(outCounter := s.outCounter + count, delivered := s.delivered + copied, consumer := Idle)
  }

  function ConsumerStep(c: Config, s: State): State {
    match s.consumer
    case Idle => s.(consumer := if s.endOfConsumption == 0 then LoopTest(c.want) else Over(0))
    case LoopTest(todo) => s.(consumer := if todo > 0 then CompareEmpty(todo, s.readpos) else Finish(todo))
    case CompareEmpty(todo, rpos) =>
      s.(consumer := if rpos == s.writepos then TestInputEnd(todo, rpos) else ComputeDiff(todo, rpos))
    case TestInputEnd(todo, rpos) =>
      s.(consumer := if s.endOfInput then ComputeDiff(todo, rpos) else TestInputError(todo, rpos))
    case TestInputError(todo, rpos) =>
      if !s.inputError then s.(consumer := CompareEmpty(todo, rpos))
      else if todo < c.want then s.(consumer := ComputeDiff(todo, rpos))
      else s.(endOfConsumption := 1, consumer := Over(-1))
    case ComputeDiff(todo, rpos) =>
      var diff := if rpos <= c.size then CopySize(c, s.writepos, rpos, todo) else 0;
      s.(consumer := if diff == 0 then Finish(todo) else Copy(todo, rpos, diff))
    case Copy(_, _, _) => CopyStep(c, s)
    case Advance(todo, diff) => s.(readpos := s.readpos + diff, consumer := Wrap(todo, diff))
    case Wrap(todo, diff) =>
      s.(readpos := if s.readpos >= c.size then 0 else s.readpos,
         consumer := LoopTest(if diff <= todo then todo - diff else 0))
    case Finish(_) => FinishStep(c, s)
    case Over(_) => s
  }

  // ---------- interleavings

  datatype Thread = ShovellerThread | ConsumerThread

  function Step(c: Config, s: State, t: Thread): State
    requires |c.junk| == c.inpReadSize
  {
    if t == ShovellerThread then ShovellerStep(c, s) else ConsumerStep(c, s)
  }

  /** The state after the steps of a schedule. */
  function Run(c: Config, schedule: seq<Thread>): State
    requires |c.junk| == c.inpReadSize
  {
    if schedule == [] then Init(c)
    else Step(c, Run(c, schedule[..|schedule| - 1]), schedule[|schedule| - 1])
  }
}
