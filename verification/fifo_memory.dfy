/** The fifo object with its ring buffer in memory. Each method is one step of one of the two threads. */
module FifoMemory {
  import opened Fifo
  import opened FifoSafety
  import opened FifoDelivery

  method Memcpy(dst: array<byte>, at: nat, src: seq<byte>)
    requires at + |src| <= dst.Length
    modifies dst
    ensures dst[..] == old(dst[..at]) + src + old(dst[at + |src|..])
  {
    var k := 0;
    while k < |src|
      invariant k <= |src|
      invariant dst[..] == old(dst[..at]) + src[..k] + old(dst[at + k..])
    {
      dst[at + k] := src[k];
      k := k + 1;
    }
  }

  /** Brings an input buffer into the ring, in two pieces if it does not fit at the end. */
  method FillRing(buf: array<byte>, wpos: nat, b: seq<byte>)
    requires wpos <= buf.Length && |b| <= buf.Length
    modifies buf
    ensures buf[..] == Filled(old(buf[..]), wpos, b)
  {
    ghost var ring := buf[..];
    if wpos + |b| <= buf.Length {
      Memcpy(buf, wpos, b);
      assert buf[..] == ring[..wpos] + b + ring[wpos + |b|..];
    } else {
      var atEnd := buf.Length - wpos;
      Memcpy(buf, wpos, b[..atEnd]);
      assert buf[..] == ring[..wpos] + b[..atEnd];
      assert buf[|b| - atEnd..] == ring[|b| - atEnd..wpos] + b[..atEnd];
      Memcpy(buf, 0, b[atEnd..]);
    }
  }

  class FifoSource {
    const c: Config
    const buf: array<byte>
    const buffer: array<byte>            // of the caller of fifo_read
    var bufWritepos: nat
    var bufReadpos: nat
    var endOfInput: bool
    var inputError: bool
    var endOfConsumption: nat
    var freed: bool
    var inCounter: nat
    var outCounter: nat
    var shoveller: Shoveller
    var consumer: Consumer
    ghost var delivered: seq<byte>

    ghost function View(): State
      reads this, buf, buffer
    {
      State(buf[..], bufWritepos, bufReadpos, endOfInput, inputError, endOfConsumption, freed, inCounter, outCounter,
            shoveller, consumer, buffer[..], delivered, false)
    }

    ghost predicate Valid()
      reads this, buf, buffer
    {
      buf != buffer && Inv(c, View())
    }

    constructor (c: Config)
      ensures this.c == c && View() == Init(c) && fresh(buf) && fresh(buffer) && buf != buffer
      ensures Aligned(c) ==> Valid()
    {
      this.c := c;
      buf := new byte[c.size](_ => 0);
      buffer := new byte[c.want](_ => 0);
      bufWritepos, bufReadpos := 0, 0;
      endOfInput, inputError, endOfConsumption, freed := false, false, 0, false;
      inCounter, outCounter := 0, 0;
      shoveller, consumer := OuterTest, Idle;
      delivered := [];
      new;
      if Aligned(c) {
        InitInv(c);
      }
      assert buf[..] == Init(c).ring;
      assert buffer[..] == Init(c).buffer;
    }

    /** inp->read() and what follows up to the activation of the read chunk. */
    method ReadInputStep()
      requires Valid() && shoveller.ReadInput?
      modifies this`inCounter, this`shoveller, buf
      ensures Valid() && View() == ReadStep(c, old(View()))
    {
      hide Content, Multiple, FlagsOk, ConsumerOk, Filled, PositionsAligned, HasRoom, Inv, Consumed, Published, Chunk;
      ghost var s := View();
      ShovellerInv(c, s);
      ReadIsStep(c, s) by { InvParts(c, s); }
      InvParts(c, s);
      var wpos, transEnd := shoveller.wpos, shoveller.transEnd;
      if inCounter >= |c.input| {
        shoveller := if c.fails then ReportError else ReportEnd;
      } else {
        var ret := Min(c.inpReadSize, |c.input| - inCounter);
        var b := Chunk(c, inCounter, ret, transEnd);
        FillRing(buf, wpos, b);
        inCounter := inCounter + ret;
        shoveller := Publish(ret, wpos, transEnd);
      }
    }

    /** The steps after the end of the input or of consumption. */
    method EndStep()
      requires Valid() && (!InLoop(shoveller) || shoveller.ReportError?)
      modifies this`inputError, this`endOfInput, this`endOfConsumption, this`freed, this`shoveller
      ensures Valid() && View() == Fifo.ShovellerStep(c, old(View()))
    {
      hide Inv, ReadStep, FreeBytes, TransEnd, NextWritePos;
      ghost var s := View();
      InvParts(c, s);
      ShovellerInv(c, s);
      match shoveller
      {
        case ReportError => inputError, shoveller := true, ReportEnd;
        case ReportEnd =>
          if endOfConsumption == 0 {
            endOfInput := true;
          }
          shoveller := DrainPos;
        case DrainPos => shoveller := if bufReadpos != bufWritepos then DrainEnd else ClaimTest;
        case DrainEnd => shoveller := if endOfConsumption == 0 then DrainPos else ClaimTest;
        case ClaimTest => shoveller := if endOfConsumption == 0 then ClaimSet else FreeRing;
        case ClaimSet => endOfConsumption, shoveller := 2, FreeRing;
        case FreeRing => freed, shoveller := true, ShovellerDone;
        case ShovellerDone =>
      }
    }

    /** One step of burn_fifo_source_shoveller. */
    method ShovellerStep()
      requires Valid()
      modifies this, buf
      ensures Valid() && View() == Fifo.ShovellerStep(c, old(View())) && outCounter == old(outCounter)
    {
      hide Inv, ReadStep, Content, Filled, FreeBytes, TransEnd, NextWritePos;
      ghost var s := View();
      InvParts(c, s);
      ShovellerInv(c, s);
      match shoveller
      {
        case OuterTest => shoveller := if endOfConsumption == 0 then AwaitRoom(bufWritepos) else ReportEnd;
        case AwaitRoom(wpos) =>
          var rpos := bufReadpos;
          if FreeBytes(c.size, wpos, rpos) >= c.inpReadSize {
            shoveller := ReadInput(wpos, TransEnd(c, wpos, rpos));
          }
        case ReadInput(_, _) => ReadInputStep();
        case Publish(ret, wpos, transEnd) =>
          bufWritepos, shoveller := NextWritePos(c, bufWritepos, ret, wpos, transEnd), OuterTest;
        case _ => EndStep();
      }
    }

    /** memcpy from the ring to the buffer of the caller. */
    method Copy()
      requires Valid() && consumer.Copy?
      modifies this`consumer, buffer
      ensures Valid() && View() == CopyStep(c, old(View()))
    {
      hide Inv, Content, Filled, Holds;
      ghost var s := View();
      CopyData(c, s);
      CopyFits(c, s);
      CopyNext(c, s);
      ConsumerInv(c, s);
      var todo, rpos, diff := consumer.todo, consumer.rpos, consumer.diff;
      var from := c.want - todo + rpos;
      Memcpy(buffer, 0, buf[from..from + diff]);
      assert buffer[..] == buf[from..from + diff] + old(buffer[diff..]);
      assert old(buffer[..])[diff..] == old(buffer[diff..]);
      assert buf[..][from..from + diff] == buf[from..from + diff];
      consumer := Advance(todo, diff);
    }

    /** The end of a call of fifo_read. */
    method Finish()
      requires Valid() && consumer.Finish?
      modifies this
      ensures Valid() && View() == FinishStep(c, old(View()))
    {
      hide Inv, Content;
      ghost var s := View();
      FinishFits(c, s);
      ConsumerInv(c, s);
      var count := c.want - consumer.todo;
      if count <= 0 {
        endOfConsumption, consumer := 1, Over(0);
      } else {
        outCounter, consumer := outCounter + count, Idle;
        delivered := delivered + buffer[..count];
        assert buffer[..][..count] == buffer[..count];
      }
    }

    /** The end of the input or an input error end the waiting for data. */
    method TestInput()
      requires Valid() && (consumer.TestInputEnd? || consumer.TestInputError?)
      modifies this`consumer, this`endOfConsumption
      ensures Valid() && View() == Fifo.ConsumerStep(c, old(View()))
    {
      hide Inv, CopyStep, FinishStep, CopySize;
      ConsumerInv(c, View());
      var todo, rpos := consumer.todo, consumer.rpos;
      if consumer.TestInputEnd? {
        consumer := if endOfInput then ComputeDiff(todo, rpos) else TestInputError(todo, rpos);
      } else if !inputError {
        consumer := CompareEmpty(todo, rpos);
      } else if todo < c.want {
        consumer := ComputeDiff(todo, rpos);
      } else {
        endOfConsumption, consumer := 1, Over(-1);
      }
    }

    /** One step of fifo_read. */
    method ConsumerStep()
      requires Valid()
      modifies this, buffer
      ensures Valid() && View() == Fifo.ConsumerStep(c, old(View()))
    {
      hide Inv, CopyStep, FinishStep, CopySize;
      ghost var s := View();
      ConsumerInv(c, s);
      match consumer
      {
        case Idle => consumer := if endOfConsumption == 0 then LoopTest(c.want) else Over(0);
        case LoopTest(todo) => consumer := if todo > 0 then CompareEmpty(todo, bufReadpos) else Fifo.Finish(todo);
        case CompareEmpty(todo, rpos) =>
          consumer := if rpos == bufWritepos then TestInputEnd(todo, rpos) else ComputeDiff(todo, rpos);
        case TestInputEnd(_, _) => TestInput();
        case TestInputError(_, _) => TestInput();
        case ComputeDiff(todo, rpos) =>
          var diff := if rpos <= c.size then CopySize(c, bufWritepos, rpos, todo) else 0;
          consumer := if diff == 0 then Fifo.Finish(todo) else Fifo.Copy(todo, rpos, diff);
        case Copy(_, _, _) => Copy();
        case Advance(todo, diff) => bufReadpos, consumer := bufReadpos + diff, Wrap(todo, diff);
        case Wrap(todo, diff) =>
          if bufReadpos >= c.size {
            bufReadpos := 0;
          }
          consumer := LoopTest(if diff <= todo then todo - diff else 0);
        case Finish(_) => Finish();
        case Over(_) =>
      }
    }
  }

  lemma FinishFits(c: Config, s: State)
    requires Inv(c, s) && s.consumer.Finish?
    ensures s.consumer.todo <= c.want == |s.buffer|
  {
    hide Content, Multiple, Holds;
  }

  lemma CopyFits(c: Config, s: State)
    requires Inv(c, s) && s.consumer.Copy?
    ensures s.consumer.todo == c.want && s.consumer.rpos + s.consumer.diff <= |s.ring|
      && s.consumer.diff <= |s.buffer| == c.want
    ensures !s.freed && !s.outOfBounds
  {
    hide Content, Multiple, Holds;
    CopyData(c, s);
  }

  lemma InvParts(c: Config, s: State)
    requires Inv(c, s)
    ensures Aligned(c) && RingOk(c, s) && ShovellerOk(c, s)
  {}
}
