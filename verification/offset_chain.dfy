/** The offset sources of libburn/file.c: a chain of sources which serve intervals of one input stream. */
module OffsetChain {

  type byte = bv8

  /** An input stream: full buffers, then at most one short one, then the end of data or an error. */
  datatype Input = Input(data: seq<byte>, fails: bool)

  /** "delivered" is what the consumer of the source has got so far. */
  datatype Source = Source(start: nat, size: int, running: bool, pos: nat, delivered: seq<byte>)

  datatype State = State(taken: nat, sources: seq<Source>)

  function Min(a: nat, b: nat): nat {
    if a < b then a else b
  }

  /** The number of bytes which one read from the input yields. */
  function Available(input: Input, taken: nat, size: nat): nat
    requires taken <= |input.data|
  {
    Min(size, |input.data| - taken)
  }

  /** What the input replies at its end. */
  function EndReply(input: Input): int {
    if input.fails then -1 else 0
  }

  /** The value of an off_t after assignment to a 32 bit int. */
  function ToInt32(x: int): int {
    (x + 0x8000_0000) % 0x1_0000_0000 - 0x8000_0000
  }

  /** The number of bytes which get skipped, if the input has them. */
  function SkipCount(start: nat, pos: nat): nat {
    if pos < start && ToInt32(start - pos) > 0 then ToInt32(start - pos) else 0
  }

  /** Outcome of offst_read. The bytes in the buffer count if ret is larger than 0. */
  datatype Reply = Reply(ret: int, bytes: seq<byte>, taken: nat, source: Source)

  /** offst_read with a known start position. */
  function ReadAt(input: Input, taken: nat, s: Source, size: nat): Reply
    requires taken <= |input.data|
  {
    var todo := SkipCount(s.start, s.pos);
    var skipped := Available(input, taken, todo);
    var t := s.(pos := s.pos + skipped);
    var before := taken + skipped;
    if skipped < todo then Reply(EndReply(input), [], before, t)
    else if t.pos + size > t.start + t.size then Reply(0, [], before, t)
    else
      var ret := Available(input, before, size);
      var bytes := input.data[before..before + ret];
      if ret > 0 then Reply(ret, bytes, before + ret, t.(pos := t.pos + ret, delivered := t.delivered + bytes))
      else Reply(EndReply(input), [], before, t)
  }

  /** The number of bytes in the interval. */
  function Length(s: Source): nat {
    if s.size > 0 then s.size else 0
  }

  /** The position from which a source starts: the one of its predecessor if there is any. */
  function Started(sources: seq<Source>, i: nat): Source
    requires i < |sources|
  {
    var s := sources[i];
    if s.running then s
    else s.(running := true, pos := if i > 0 then sources[i - 1].pos else s.pos)
  }

  function Read(input: Input, st: State, i: nat, size: nat): State
    requires st.taken <= |input.data| && i < |st.sources|
  {
    var reply := ReadAt(input, st.taken, Started(st.sources, i), size);
    State(reply.taken, st.sources[i := reply.source])
  }

  datatype Call = Call(index: nat, size: nat)

  /** The state after a sequence of reads. Reads from sources which do not exist have no effect. */
  function Run(input: Input, st: State, calls: seq<Call>): (r: State)
    requires st.taken <= |input.data|
    ensures r.taken <= |input.data| && |r.sources| == |st.sources|
  {
    if calls == [] then st
    else
      var before := Run(input, st, calls[..|calls| - 1]);
      var call := calls[|calls| - 1];
      if call.index < |st.sources| then Read(input, before, call.index, call.size) else before
  }

  // ---------- single reads

  /** Skipping reaches the start address exactly if the gap fits into a positive 32 bit number. */
  lemma SkipReachesStart(start: nat, pos: nat)
    ensures pos < start ==> (pos + SkipCount(start, pos) == start <==> start - pos < 0x8000_0000)
    ensures pos >= start ==> SkipCount(start, pos) == 0
  {}

  /** Of any gap, the lowest 32 bits count, and only if they form a positive number. */
  lemma SkipOfAnyGap(start: nat, pos: nat, m: nat, k: nat)
    requires start > pos && start - pos == m + k * 0x1_0000_0000 && m < 0x1_0000_0000
    ensures SkipCount(start, pos) == if m < 0x8000_0000 then m else 0
  {}

  /** The return value: the number of delivered bytes, or -1 if the input failed while it was needed, or 0. */
  lemma ReadReplies(input: Input, taken: nat, s: Source, size: nat)
    requires taken <= |input.data| && size > 0
    ensures var r := ReadAt(input, taken, s, size);
      var needed := taken + SkipCount(s.start, s.pos) > |input.data| || r.source.pos + size <= s.start + s.size;
      r.ret == if r.bytes != [] then |r.bytes| else if needed && input.fails then -1 else 0
  {}

  /** What the source delivers begins where the stream stands after skipping. */
  lemma ReadDelivers(input: Input, taken: nat, s: Source, size: nat)
    requires taken <= |input.data| && s.pos == taken
    ensures var r := ReadAt(input, taken, s, size);
      && r.source.pos == r.taken <= |input.data|
      && r.source.start == s.start && r.source.size == s.size && r.source.running == s.running
      && r.source.delivered == s.delivered + r.bytes
      && (r.bytes != [] ==> r.bytes == input.data[r.taken - |r.bytes|..r.taken])
      && (r.ret > 0 ==> r.ret == |r.bytes|) && (r.ret <= 0 ==> r.bytes == [])
  {}

  /** A payload is delivered only from within the interval, exactly if the gap before the interval is not too large. */
  lemma DeliversOwnInterval(input: Input, taken: nat, s: Source, size: nat)
    requires taken <= |input.data| && s.pos == taken
    ensures var r := ReadAt(input, taken, s, size);
      && (r.bytes != [] ==>
            (s.start <= r.taken - |r.bytes| <==> s.start - taken < 0x8000_0000) && r.taken <= s.start + s.size)
      && (s.start - taken < 0x8000_0000 ==> r.taken <= if taken < s.start then s.start + Length(s) else MaxPos(s))
  {
    SkipReachesStart(s.start, s.pos);
  }

  function MaxPos(s: Source): nat {
    if s.pos > s.start + Length(s) then s.pos else s.start + Length(s)
  }

  /** A source ends only if less than a full buffer is left of its interval, as long as the input has its bytes. */
  lemma EndsWithInterval(input: Input, taken: nat, s: Source, size: nat)
    requires taken <= |input.data| && s.pos == taken <= s.start + |s.delivered| && 0 < size
    requires s.delivered != [] ==> taken == s.start + |s.delivered|
    requires s.start - taken < 0x8000_0000 && s.start + Length(s) <= |input.data|
    ensures var r := ReadAt(input, taken, s, size);
      if |s.delivered| + size <= s.size then r.ret == size == |r.bytes|
      else r.ret == 0 && r.source.delivered == s.delivered
  {
    SkipReachesStart(s.start, s.pos);
  }

  // ---------- chains

  /** Intervals do not overlap and follow each other. */
  predicate Ordered(sources: seq<Source>) {
    forall i, j :: 0 <= i < j < |sources| ==> sources[i].start + Length(sources[i]) <= sources[j].start
  }

  predicate Fresh(s: Source) {
    !s.running && s.pos == 0 && s.delivered == []
  }

  predicate AllFresh(sources: seq<Source>) {
    forall i :: 0 <= i < |sources| ==> Fresh(sources[i])
  }

  /** The delivered bytes are the first ones of the interval. */
  predicate OwnBytes(input: Input, s: Source) {
    && |s.delivered| <= Length(s)
    && s.start + |s.delivered| <= |input.data| + (if s.delivered == [] then s.start else 0)
    && (s.delivered != [] ==> s.delivered == input.data[s.start..s.start + |s.delivered|])
  }

  /** The state when source k was the last one to be read. Its position is the one of the stream. */
  predicate Active(input: Input, st: State, k: nat) {
    && st.taken <= |input.data| && k < |st.sources|
    && (forall i :: k < i < |st.sources| ==> Fresh(st.sources[i]))
    && (forall i :: 0 <= i <= k ==> OwnBytes(input, st.sources[i]))
    && var s := st.sources[k];
       && s.running && s.pos == st.taken && st.taken <= s.start + |s.delivered|
       && (s.delivered != [] ==> st.taken == s.start + |s.delivered|)
  }

  /** Consumers take turns in the sequence of the chain, without leaving out a source. */
  predicate InOrder(calls: seq<Call>, n: nat) {
    && (forall i :: 0 <= i < |calls| ==> calls[i].index < n)
    && (forall i :: 0 < i < |calls| ==>
          calls[i].index == calls[i - 1].index || calls[i].index == calls[i - 1].index + 1)
  }

  /** In no read, more than 2 GiB - 1 have to be skipped. */
  predicate GapsFit(input: Input, st: State, calls: seq<Call>)
    requires st.taken <= |input.data|
  {
    forall k :: 0 <= k < |calls| && calls[k].index < |st.sources| ==>
      st.sources[calls[k].index].start - Run(input, st, calls[..k]).taken < 0x8000_0000
  }

  lemma ContinuesAtPosition(input: Input, taken: nat, s: Source, size: nat)
    requires taken <= |input.data| && s.pos == taken
    ensures var r := ReadAt(input, taken, s, size);
      && (taken >= s.start ==> r.taken == taken + |r.bytes|)
      && (taken < s.start && s.start - taken < 0x8000_0000 ==>
            if r.bytes != [] then r.taken == s.start + |r.bytes| else r.taken <= s.start)
  {}

  lemma ReadKeepsBytes(input: Input, taken: nat, s: Source, size: nat)
    requires taken <= |input.data| && OwnBytes(input, s) && s.pos == taken <= s.start + |s.delivered|
    requires s.delivered != [] ==> taken == s.start + |s.delivered|
    requires s.start - taken < 0x8000_0000
    ensures var r := ReadAt(input, taken, s, size);
      && r.taken <= |input.data| && OwnBytes(input, r.source)
      && r.source.pos == r.taken <= r.source.start + |r.source.delivered|
      && (r.source.delivered != [] ==> r.taken == r.source.start + |r.source.delivered|)
      && r.source.start == s.start && r.source.size == s.size && r.source.running == s.running
  {
    hide ReadAt, SkipCount;
    ReadDelivers(input, taken, s, size);
    DeliversOwnInterval(input, taken, s, size);
    ContinuesAtPosition(input, taken, s, size);
    var r := ReadAt(input, taken, s, size);
    if r.bytes != [] {
      var n := |r.bytes|;
      assert r.taken - n == s.start + |s.delivered|;
      Appended(input.data, s.start, s.delivered, r.bytes);
    }
  }

  lemma Appended(data: seq<byte>, start: nat, first: seq<byte>, second: seq<byte>)
    requires start + |first| + |second| <= |data| && second == data[start + |first|..start + |first| + |second|]
    requires first == data[start..start + |first|]
    ensures first + second == data[start..start + |first + second|]
  {}

  lemma ReadActive(input: Input, st: State, i: nat, size: nat)
    requires Ordered(st.sources) && i < |st.sources| && st.taken <= |input.data|
    requires Active(input, st, i) || (i > 0 && Active(input, st, i - 1)) || (AllFresh(st.sources) && st.taken == 0)
    requires st.sources[i].start - st.taken < 0x8000_0000
    ensures Active(input, Read(input, st, i, size), i) && Ordered(Read(input, st, i, size).sources)
  {
    hide ReadAt;
    var s := Started(st.sources, i);
    assert s.pos == st.taken && OwnBytes(input, s);
    if i > 0 && Active(input, st, i - 1) {
      assert st.sources[i - 1].start + Length(st.sources[i - 1]) <= st.sources[i].start;
    }
    ReadKeepsBytes(input, st.taken, s, size);
  }

  /** What consumers get if they take turns in the sequence of the chain. */
  lemma {:induction false} RunInOrder(input: Input, sources: seq<Source>, calls: seq<Call>)
    requires Ordered(sources) && AllFresh(sources) && InOrder(calls, |sources|) && calls != []
    requires GapsFit(input, State(0, sources), calls)
    ensures var st := Run(input, State(0, sources), calls);
      Active(input, st, calls[|calls| - 1].index) && Ordered(st.sources)
  {
    hide ReadAt, Active, Ordered, AllFresh;
    var st0 := State(0, sources);
    var n := |calls| - 1;
    var before := calls[..n];
    RunKeepsIntervals(input, st0, before);
    if before == [] {
      assert Run(input, st0, before) == st0;
    } else {
      GapsFitBefore(input, st0, calls, n);
      RunInOrder(input, sources, before);
      assert calls[n].index == before[n - 1].index || calls[n].index == before[n - 1].index + 1;
    }
    ReadActive(input, Run(input, st0, before), calls[n].index, calls[n].size);
  }

  lemma GapsFitBefore(input: Input, st: State, calls: seq<Call>, n: nat)
    requires st.taken <= |input.data| && GapsFit(input, st, calls) && n <= |calls|
    ensures GapsFit(input, st, calls[..n])
  {
    hide Run;
    forall k | 0 <= k < n
      ensures calls[..n][..k] == calls[..k]
    {
    }
  }

  lemma {:induction false} RunKeepsIntervals(input: Input, st: State, calls: seq<Call>)
    requires st.taken <= |input.data|
    ensures var r := Run(input, st, calls);
      forall i :: 0 <= i < |st.sources| ==>
        r.sources[i].start == st.sources[i].start && r.sources[i].size == st.sources[i].size
  {
    if calls != [] {
      RunKeepsIntervals(input, st, calls[..|calls| - 1]);
    }
  }

  /** Each source has delivered only bytes of its own interval, in order and without gap, and the stream stands where
      the last one ended, before the interval of its successor. */
  lemma ChainDelivers(input: Input, sources: seq<Source>, calls: seq<Call>)
    requires Ordered(sources) && AllFresh(sources) && InOrder(calls, |sources|) && calls != []
    requires GapsFit(input, State(0, sources), calls)
    ensures var st := Run(input, State(0, sources), calls);
      && (forall i :: 0 <= i < |sources| ==>
            var s := st.sources[i];
            && |s.delivered| <= Length(sources[i])
            && (s.delivered != [] ==>
                  && sources[i].start + |s.delivered| <= |input.data|
                  && s.delivered == input.data[sources[i].start..sources[i].start + |s.delivered|]))
      && st.sources[calls[|calls| - 1].index].pos == st.taken
      && (forall i :: calls[|calls| - 1].index < i < |sources| ==> st.taken <= sources[i].start)
  {
    hide Run, ReadAt;
    var st := Run(input, State(0, sources), calls);
    var k := calls[|calls| - 1].index;
    RunInOrder(input, sources, calls);
    RunKeepsIntervals(input, State(0, sources), calls);
    forall i | k < i < |sources|
      ensures st.taken <= sources[i].start
    {
      assert st.sources[k].start + Length(st.sources[k]) <= st.sources[i].start;
    }
  }

  /** A source which has not been read yet knows the position of the stream exactly if its predecessor was the last
      one to be read, or if nothing has been taken yet. */
  lemma StartKnowsPosition(input: Input, st: State, k: nat, i: nat)
    requires Active(input, st, k) && k < i < |st.sources|
    ensures Started(st.sources, i).pos == st.taken <==> i == k + 1 || st.taken == 0
  {
    assert Fresh(st.sources[i]);
    if i > k + 1 {
      assert Fresh(st.sources[i - 1]);
    }
  }

  /** Where the payload of a read comes from, whatever the source believes about the position of the stream. */
  lemma PayloadAddress(input: Input, taken: nat, s: Source, size: nat)
    requires taken <= |input.data|
    ensures var r := ReadAt(input, taken, s, size);
      r.bytes != [] ==>
        && r.taken <= |input.data| && r.bytes == input.data[r.taken - |r.bytes|..r.taken]
        && r.taken - |r.bytes| == taken + SkipCount(s.start, s.pos)
        && (s.pos <= s.start && s.start - s.pos < 0x8000_0000 ==> r.taken - |r.bytes| == s.start + (taken - s.pos))
  {}

  /** The first payload of a source begins at its start address exactly if its predecessor was the last one to be read,
      or nothing has been taken yet. Else it begins too late by all what has been taken. */
  lemma FirstPayload(input: Input, st: State, k: nat, i: nat, size: nat)
    requires Ordered(st.sources) && Active(input, st, k) && k < i < |st.sources|
    requires st.sources[i].start - Started(st.sources, i).pos < 0x8000_0000
    ensures var s := st.sources[i];
      var r := ReadAt(input, st.taken, Started(st.sources, i), size);
      r.bytes != [] ==>
        && r.taken <= |input.data| && r.bytes == input.data[r.taken - |r.bytes|..r.taken]
        && r.taken - |r.bytes| == (if i == k + 1 then s.start else s.start + st.taken)
        && (r.taken - |r.bytes| == s.start <==> i == k + 1 || st.taken == 0)
  {
    hide ReadAt, SkipCount, OwnBytes;
    PayloadAddress(input, st.taken, Started(st.sources, i), size);
    assert Fresh(st.sources[i]);
    if i == k + 1 {
      TakenBefore(input, st, k, i);
    } else {
      assert Fresh(st.sources[i - 1]);
    }
  }

  lemma TakenBefore(input: Input, st: State, k: nat, i: nat)
    requires Ordered(st.sources) && Active(input, st, k) && k < i < |st.sources|
    ensures st.taken <= st.sources[i].start
  {
    assert st.sources[k].start + Length(st.sources[k]) <= st.sources[i].start;
    assert OwnBytes(input, st.sources[k]);
  }

  function Unread(start: nat): Source {
    Source(start, 1, false, 0, [])
  }

  lemma FirstOfChain(data: seq<byte>)
    requires |data| == 4
    ensures ReadAt(Input(data, false), 0, Unread(0).(running := true), 1)
      == Reply(1, data[0..1], 1, Source(0, 1, true, 1, data[0..1]))
  {}

  lemma LastOfChain(data: seq<byte>)
    requires |data| == 4
    ensures ReadAt(Input(data, false), 1, Unread(2).(running := true), 1)
      == Reply(1, data[3..4], 4, Source(2, 1, true, 3, data[3..4]))
  {
    assert SkipCount(2, 0) == 2;
  }

  /** If a source is left out, its successor may deliver bytes from behind its interval. */
  lemma LeftOutSource(data: seq<byte>)
    requires |data| == 4
    ensures var input, sources := Input(data, false), [Unread(0), Unread(1), Unread(2)];
      && Ordered(sources) && AllFresh(sources)
      && Run(input, State(0, sources), [Call(0, 1), Call(2, 1)]).sources[2].delivered == data[3..4]
  {
    hide ReadAt;
    FirstOfChain(data);
    LastOfChain(data);
    var input, st, calls := Input(data, false), State(0, [Unread(0), Unread(1), Unread(2)]), [Call(0, 1), Call(2, 1)];
    assert calls[..1] == [Call(0, 1)] && calls[..1][..0] == [];
    assert Run(input, st, []) == st;
    var st1 := Run(input, st, calls[..1]);
    assert st1 == Read(input, st, 0, 1);
  }
}
