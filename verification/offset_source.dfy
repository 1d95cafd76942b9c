/** The objects behind an offset source: a shared input stream and sources which are linked to a chain. */
module OffsetSource {
  import opened OffsetChain

  /** The burn_source from which all offset sources of a chain read. */
  class InputStream {
    const input: Input
    var taken: nat

    constructor (input: Input)
      ensures this.input == input && taken == 0
    {
      this.input := input;
      taken := 0;
    }

    /** burn_source_read */
    method Read(size: nat) returns (ret: int, bytes: seq<byte>)
      requires taken <= |input.data|
      modifies this
      ensures taken == old(taken) + Available(input, old(taken), size) <= |input.data|
      ensures bytes == input.data[old(taken)..taken]
      ensures ret == if bytes == [] then EndReply(input) else |bytes|
    {
      var n := Available(input, taken, size);
      bytes := input.data[taken..taken + n];
      taken := taken + n;
      ret := if n == 0 then EndReply(input) else n;
    }
  }

  class OffsetSource {
    const inp: InputStream
    const start: nat
    const sizeAdjustable: bool
    var size: int
    var nominalSize: int
    var prev: OffsetSource?
    var next: OffsetSource?
    var running: bool
    var pos: nat
    ghost var delivered: seq<byte>

    constructor (inp: InputStream, start: nat, size: int, flag: bool)
      ensures this.inp == inp && this.start == start && sizeAdjustable == !flag && this.size == nominalSize == size
      ensures prev == next == null && !running && pos == 0 && delivered == []
    {
      this.inp, this.start, sizeAdjustable := inp, start, !flag;
      this.size, nominalSize := size, size;
      prev, next, running, pos, delivered := null, null, false, 0, [];
    }

    /** The source as a value of the chain. */
    ghost function View(): Source
      reads this
    {
      Source(start, size, running, pos, delivered)
    }

    ghost function StartedView(): Source
      reads this, prev
    {
      if running then View() else View().(running := true, pos := if prev != null then prev.pos else pos)
    }

    /** offst_set_size: a size larger than 0 may be fixed. */
    method SetSize(size: int)
      modifies this`size, this`nominalSize
      ensures nominalSize == size
      ensures this.size == if old(this.size) > 0 && !sizeAdjustable then old(this.size) else size
    {
      nominalSize := size;
      if this.size <= 0 || sizeAdjustable {
        this.size := size;
      }
    }

    /** Skips up to the start position in pieces of not more than one buffer. */
    method Skip(bufsize: nat) returns (ret: int)
      requires bufsize > 0 && inp.taken <= |inp.input.data|
      modifies this`pos, inp
      ensures var todo := SkipCount(start, old(pos));
        var skipped := Available(inp.input, old(inp.taken), todo);
        && inp.taken == old(inp.taken) + skipped <= |inp.input.data|
        && pos == old(pos) + skipped
        && ret == if skipped < todo then EndReply(inp.input) else 1
    {
      if pos < start {
        var todo := ToInt32(start - pos);
        while todo > 0
          invariant todo <= SkipCount(start, old(pos)) && (todo < 0 ==> SkipCount(start, old(pos)) == 0)
          invariant todo >= 0 ==> inp.taken == old(inp.taken) + SkipCount(start, old(pos)) - todo
          invariant todo < 0 ==> inp.taken == old(inp.taken)
          invariant pos == old(pos) + inp.taken - old(inp.taken) && old(inp.taken) <= inp.taken <= |inp.input.data|
        {
          var toRead := if todo > bufsize then bufsize else todo;
          var bytes;
          ret, bytes := inp.Read(toRead);
          if ret <= 0 {
            return;
          }
          todo := todo - ret;
          pos := pos + ret;
        }
      }
      ret := 1;
    }

    /** offst_read */
    method Read(bufsize: nat) returns (ret: int, bytes: seq<byte>)
      requires bufsize > 0 && inp.taken <= |inp.input.data|
      modifies this, inp
      ensures var reply := ReadAt(inp.input, old(inp.taken), old(StartedView()), bufsize);
        ret == reply.ret && bytes == reply.bytes && inp.taken == reply.taken && View() == reply.source
      ensures size == old(size) && nominalSize == old(nominalSize) && prev == old(prev) && next == old(next)
    {
      bytes := [];
      if !running {
        if prev != null {
          pos := prev.pos;
        }
        running := true;
      }
      ret := Skip(bufsize);
      if ret <= 0 {
        return;
      }
      if pos + bufsize > start + size {
        return 0, [];
      }
      ret, bytes := inp.Read(bufsize);
      if ret > 0 {
        pos := pos + ret;
        delivered := delivered + bytes;
      }
    }
  }

  /** Element i of a chain or null if there is no such element. */
  function At(chain: seq<OffsetSource>, i: int): OffsetSource? {
    if 0 <= i < |chain| then chain[i] else null
  }

  ghost predicate Distinct(chain: seq<OffsetSource>) {
    forall i, j :: 0 <= i < j < |chain| ==> chain[i] != chain[j]
  }

  /** Neighbors refer to each other. */
  ghost predicate Linked(chain: seq<OffsetSource>)
    reads chain
  {
    && Distinct(chain)
    && forall i :: 0 <= i < |chain| ==> chain[i].prev == At(chain, i - 1) && chain[i].next == At(chain, i + 1)
  }

  function Inserted(s: seq<OffsetSource>, k: nat, x: OffsetSource): (r: seq<OffsetSource>)
    requires k < |s|
    ensures |r| == |s| + 1
  {
    s[..k + 1] + [x] + s[k + 1..]
  }

  lemma InsertedDistinct(chain: seq<OffsetSource>, k: nat, x: OffsetSource)
    requires k < |chain| && x !in chain && Distinct(chain)
    ensures Distinct(Inserted(chain, k, x))
  {}

  /** The neighbors of an element after the insertion of x behind element k. */
  lemma InsertedNeighbors(chain: seq<OffsetSource>, k: nat, x: OffsetSource, i: nat)
    requires k < |chain| && i <= |chain|
    ensures var after := Inserted(chain, k, x);
      if i == k + 1 then after[i] == x && At(after, i - 1) == chain[k] && At(after, i + 1) == At(chain, k + 1)
      else
        var j := if i <= k then i else i - 1;
        && after[i] == chain[j]
        && At(after, i - 1) == (if j == k + 1 then x else At(chain, j - 1))
        && At(after, i + 1) == (if j == k then x else At(chain, j + 1))
  {}

  lemma InsertedLinked(chain: seq<OffsetSource>, k: nat, x: OffsetSource)
    requires k < |chain| && x !in chain && Distinct(chain)
    requires x.prev == chain[k] && x.next == At(chain, k + 1)
    requires forall i :: 0 <= i < |chain| ==>
      && chain[i].prev == (if i == k + 1 then x else At(chain, i - 1))
      && chain[i].next == (if i == k then x else At(chain, i + 1))
    ensures Linked(Inserted(chain, k, x))
  {
    hide Inserted, At, Distinct;
    InsertedDistinct(chain, k, x);
    var after := Inserted(chain, k, x);
    forall i | 0 <= i < |after|
      ensures after[i].prev == At(after, i - 1) && after[i].next == At(after, i + 1)
    {
      InsertedNeighbors(chain, k, x, i);
    }
  }

  lemma SingleLinked(x: OffsetSource)
    requires x.prev == null && x.next == null
    ensures Linked([x])
  {}

  /** Inserts s behind source k of the chain. */
  method LinkBehind(s: OffsetSource, prev: OffsetSource, ghost chain: seq<OffsetSource>, ghost k: nat)
    requires Linked(chain) && k < |chain| && chain[k] == prev && s !in chain && s.next == null
    modifies s, chain
    ensures Linked(Inserted(chain, k, s))
    ensures forall x :: x in chain || x == s ==> x.View() == old(x.View()) && x.nominalSize == old(x.nominalSize)
  {
    hide Inserted;
    assert prev.next == At(chain, k + 1);
    s.prev := prev;
    if prev.next != null {
      prev.next.prev := s;
      s.next := prev.next;
    }
    prev.next := s;
    InsertedLinked(chain, k, s);
  }

  /** burn_offst_source_new: inserts a new source behind source k of the chain.
      If it would begin before the end of that source, then there is no result, but the new object stays linked. */
  method NewSource(inp: InputStream, start: nat, size: int, flag: bool, prev: OffsetSource?,
                   ghost chain: seq<OffsetSource>, ghost k: nat)
    returns (src: OffsetSource?, ghost linked: OffsetSource)
    requires if prev == null then chain == [] else Linked(chain) && k < |chain| && chain[k] == prev
    modifies chain
    ensures fresh(linked) && linked.inp == inp && Fresh(linked.View())
    ensures Linked(if prev == null then [linked] else Inserted(chain, k, linked))
    ensures src == if prev != null && prev.start + old(prev.size) > start then null else linked
    ensures src != null ==> src.start == start && src.size == size && src.sizeAdjustable == !flag
    ensures forall s :: s in chain ==> s.View() == old(s.View()) && s.nominalSize == old(s.nominalSize)
  {
    hide Inserted, Linked, At, Distinct;
    var overlap := prev != null && prev.start + prev.size > start;
    var s := new OffsetSource(inp, if overlap then 0 else start, if overlap then 0 else size, overlap || flag);
    linked := s;
    src := if overlap then null else s;
    if prev != null {
      LinkBehind(s, prev, chain, k);
    } else {
      SingleLinked(s);
    }
  }

  // ---------- chains of objects and of values

  /** The sources of a chain as values. */
  ghost function Views(chain: seq<OffsetSource>): (sources: seq<Source>)
    reads chain
    ensures |sources| == |chain|
  {
    seq(|chain|, i requires 0 <= i < |chain| reads chain => chain[i].View())
  }

  /** The links of a chain make each source begin where its predecessor among the values stands. */
  lemma StartsByChain(chain: seq<OffsetSource>, i: nat)
    requires Linked(chain) && i < |chain|
    ensures chain[i].StartedView() == Started(Views(chain), i)
  {
    assert chain[i].prev == At(chain, i - 1);
  }

  /** A read from an object of a chain is a read from the chain of values. Other objects stay as they are. */
  method ReadInChain(ghost chain: seq<OffsetSource>, ghost i: nat, s: OffsetSource, bufsize: nat)
    returns (ret: int, bytes: seq<byte>)
    requires Linked(chain) && i < |chain| && chain[i] == s && bufsize > 0 && s.inp.taken <= |s.inp.input.data|
    modifies s, s.inp
    ensures Linked(chain)
    ensures State(s.inp.taken, Views(chain))
      == OffsetChain.Read(s.inp.input, old(State(s.inp.taken, Views(chain))), i, bufsize)
  {
    hide Started, ReadAt;
    StartsByChain(chain, i);
    ret, bytes := s.Read(bufsize);
  }
}
