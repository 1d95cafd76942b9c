/** For which descriptors of a DVD-RAM the maximum size does not depend on their sequence. */
module FormatOrder {
  import opened FormatUnit

  // ---------- the selected size

  /** The size which is selected as maximum size. -1 if none is suitable. */
  function MaximumSize(ds: seq<Descriptor>): int {
    var k := RamIndex(ds, 2);
    if 0 <= k < |ds| then ds[k].size else -1
  }

  datatype Sizes = Sizes(size: int, size00: int)

  const NONE := Sizes(-1, -1)

  /** What a descriptor does to the sizes of a choice. */
  function SizeStep(st: Sizes, d: Descriptor): Sizes {
    if d.kind == 0x00 then
      if d.size < st.size then st
      else if d.size < st.size00 then Sizes(d.size, st.size00)
      else Sizes(st.size00, d.size)
    else if d.kind == 0x01 && d.size > st.size then Sizes(d.size, st.size00)
    else st
  }

  function Fold(st: Sizes, ds: seq<Descriptor>): Sizes {
    if ds == [] then st else SizeStep(Fold(st, ds[..|ds| - 1]), ds[|ds| - 1])
  }

  function Result(st: Sizes): int {
    if st.size < 0 then st.size00 else st.size
  }

  lemma {:induction false} ChosenSizes(ds: seq<Descriptor>, n: nat)
    requires n <= |ds|
    ensures var c := Chosen(ds, n, 2);
      && Fold(NONE, ds[..n]) == Sizes(c.size, c.size00)
      && (if c.index < 0 then c.size == -1 else c.index < n && ds[c.index].size == c.size)
      && (if c.index00 < 0 then c.size00 == -1 else c.index00 < n && ds[c.index00].size == c.size00)
  {
    if n > 0 {
      ChosenSizes(ds, n - 1);
      assert ds[..n][..n - 1] == ds[..n - 1];
    } else {
      assert ds[..n] == [];
    }
  }

  lemma MaximumIsResult(ds: seq<Descriptor>)
    ensures MaximumSize(ds) == Result(Fold(NONE, ds))
  {
    ChosenSizes(ds, |ds|);
    assert ds[..|ds|] == ds;
  }

  // ---------- where the sequence does not matter

  predicate AllOf(m: multiset<Descriptor>, kind: int, lo: int, hi: int) {
    forall d :: d in m && d.kind == kind ==> lo <= d.size <= hi
  }

  /** A type 0x01 which is larger than all of type 0x00 and not smaller than its like. */
  predicate LargestIs01(m: multiset<Descriptor>, f: nat) {
    Descriptor(0x01, f) in m && AllOf(m, 0x01, 0, f) && AllOf(m, 0x00, 0, f - 1)
  }

  /** f is the second largest size of type 0x00 besides v, and no type 0x01 is larger. */
  predicate BesidesLargest(m: multiset<Descriptor>, v: nat, f: nat) {
    && f <= v && multiset{Descriptor(0x00, v), Descriptor(0x00, f)} <= m
    && AllOf(m - multiset{Descriptor(0x00, v)}, 0x00, 0, f) && AllOf(m, 0x01, 0, f)
  }

  ghost predicate SecondIs00(m: multiset<Descriptor>, f: nat) {
    exists v :: BesidesLargest(m, v, f)
  }

  /** There is a single type 0x00, and all of type 0x01 have its size. */
  predicate SingleIs00(m: multiset<Descriptor>, f: nat) {
    m[Descriptor(0x00, f)] == 1 && AllOf(m, 0x00, f, f) && AllOf(m, 0x01, f, f)
  }

  predicate NoneIsSuitable(m: multiset<Descriptor>) {
    forall d :: d in m ==> d.kind != 0x00 && d.kind != 0x01
  }

  /** The sizes of types 0x00 and 0x01 alone decide for size f. */
  ghost predicate Settled(m: multiset<Descriptor>, f: int) {
    if f < 0 then f == -1 && NoneIsSuitable(m) else LargestIs01(m, f) || SecondIs00(m, f) || SingleIs00(m, f)
  }

  lemma SplitLast(ds: seq<Descriptor>) returns (before: seq<Descriptor>, d: Descriptor)
    requires ds != []
    ensures before == ds[..|ds| - 1] && d == ds[|ds| - 1] && ds == before + [d]
    ensures multiset(ds) == multiset(before) + multiset{d}
  {
    before, d := ds[..|ds| - 1], ds[|ds| - 1];
    assert ds == before + [d];
  }

  lemma {:induction false} Fold01(ds: seq<Descriptor>, f: nat)
    requires AllOf(multiset(ds), 0x01, 0, f) && AllOf(multiset(ds), 0x00, 0, f - 1)
    ensures var st := Fold(NONE, ds); st.size00 < f && st.size <= f && (st.size == f <==> Descriptor(0x01, f) in ds)
  {
    if ds != [] {
      var before, d := SplitLast(ds);
      Fold01(before, f);
      assert d in multiset(ds);
    }
  }

  /** m holds the descriptors so far. */
  predicate SecondSoFar(st: Sizes, m: multiset<Descriptor>, v: nat, f: nat) {
    && st.size <= f && (st.size00 >= 0 ==> Descriptor(0x00, st.size00) in m)
    && (Descriptor(0x00, v) in m || Descriptor(0x00, f) in m ==> st.size00 >= f)
    && (multiset{Descriptor(0x00, v), Descriptor(0x00, f)} <= m ==> st.size == f)
  }

  lemma SecondStep(st: Sizes, m: multiset<Descriptor>, d: Descriptor, v: nat, f: nat)
    requires f <= v && SecondSoFar(st, m, v, f)
    requires AllOf(m + multiset{d} - multiset{Descriptor(0x00, v)}, 0x00, 0, f) && AllOf(m + multiset{d}, 0x01, 0, f)
    ensures SecondSoFar(SizeStep(st, d), m + multiset{d}, v, f)
  {
    assert d in m + multiset{d};
    if d.kind == 0x00 && d.size > f {
      assert d == Descriptor(0x00, v);
      assert m + multiset{d} - multiset{d} == m;
    }
  }

  lemma {:induction false} FoldSecond(ds: seq<Descriptor>, v: nat, f: nat)
    requires f <= v && AllOf(multiset(ds), 0x01, 0, f)
    requires AllOf(multiset(ds) - multiset{Descriptor(0x00, v)}, 0x00, 0, f)
    ensures SecondSoFar(Fold(NONE, ds), multiset(ds), v, f)
  {
    if ds != [] {
      hide SecondSoFar, SizeStep;
      var before, d := SplitLast(ds);
      FoldSecond(before, v, f);
      SecondStep(Fold(NONE, before), multiset(before), d, v, f);
    }
  }

  lemma {:induction false} FoldSingle(ds: seq<Descriptor>, f: nat)
    requires AllOf(multiset(ds), 0x00, f, f) && AllOf(multiset(ds), 0x01, f, f)
    ensures var st := Fold(NONE, ds);
      && (st.size == -1 || st.size == f) && (st.size00 == -1 || st.size00 == f)
      && (Descriptor(0x00, f) in ds ==> st.size00 == f)
  {
    if ds != [] {
      var before, d := SplitLast(ds);
      FoldSingle(before, f);
      assert d in multiset(ds);
    }
  }

  lemma {:induction false} FoldNone(st: Sizes, ds: seq<Descriptor>)
    requires NoneIsSuitable(multiset(ds))
    ensures Fold(st, ds) == st
  {
    if ds != [] {
      var before, d := SplitLast(ds);
      FoldNone(st, before);
      assert d in multiset(ds);
    }
  }

  lemma SettledSize(ds: seq<Descriptor>, f: int)
    requires Settled(multiset(ds), f)
    ensures MaximumSize(ds) == f
  {
    hide Fold, AllOf;
    MaximumIsResult(ds);
    var m := multiset(ds);
    if f < 0 {
      FoldNone(NONE, ds);
    } else if LargestIs01(m, f) {
      Fold01(ds, f);
    } else if SecondIs00(m, f) {
      var v :| BesidesLargest(m, v, f);
      FoldSecond(ds, v, f);
    } else {
      FoldSingle(ds, f);
    }
  }

  // ---------- where the sequence matters

  lemma {:induction false} FoldAppend(st: Sizes, a: seq<Descriptor>, b: seq<Descriptor>)
    ensures Fold(st, a + b) == Fold(Fold(st, a), b)
  {
    hide SizeStep;
    if b == [] {
      assert a + b == a;
    } else {
      var before, d := SplitLast(b);
      assert (a + b)[..|a + b| - 1] == a + before;
      FoldAppend(st, a, before);
    }
  }

  predicate OfKind(ds: seq<Descriptor>, kind: int) {
    forall i :: 0 <= i < |ds| ==> ds[i].kind == kind
  }

  /** v is the largest size, -1 if there is none. */
  predicate IsTop(ds: seq<Descriptor>, v: int) {
    if ds == [] then v == -1
    else (exists i :: 0 <= i < |ds| && ds[i].size == v) && forall i :: 0 <= i < |ds| ==> ds[i].size <= v
  }

  lemma {:induction false} Top(ds: seq<Descriptor>) returns (v: int)
    ensures IsTop(ds, v)
  {
    if ds == [] {
      v := -1;
    } else {
      var before, d := SplitLast(ds);
      var w := Top(before);
      v := if d.size > w then d.size else w;
      if d.size > w {
        assert ds[|ds| - 1].size == v;
      } else {
        var i :| 0 <= i < |before| && before[i].size == w;
        assert ds[i].size == v;
      }
      assert forall i :: 0 <= i < |before| ==> before[i] == ds[i];
    }
  }

  function Larger(a: int, b: int): int {
    if a > b then a else b
  }

  lemma {:induction false} FoldBounded(st: Sizes, ds: seq<Descriptor>, v: int)
    requires OfKind(ds, 0x01) && IsTop(ds, v)
    ensures Fold(st, ds) == Sizes(if ds == [] then st.size else Larger(st.size, v), st.size00)
  {
    if ds != [] {
      var before, d := SplitLast(ds);
      var w := Top(before);
      FoldBounded(st, before, w);
      assert ds[|ds| - 1] == d;
      assert before != [] ==> forall i :: 0 <= i < |before| ==> before[i] == ds[i];
    }
  }

  /** Descriptors of type 0x00 after the largest one. */
  lemma {:induction false} FoldRest(ds: seq<Descriptor>, top: nat, v: int)
    requires OfKind(ds, 0x00) && IsTop(ds, v) && v <= top
    ensures Fold(Sizes(-1, top), ds) == Sizes(v, top)
  {
    if ds != [] {
      var before, d := SplitLast(ds);
      var w := Top(before);
      FoldRest(before, top, w);
      assert ds[|ds| - 1] == d;
      assert before != [] ==> forall i :: 0 <= i < |before| ==> before[i] == ds[i];
    }
  }

  lemma FoldTop(st: Sizes, top: nat)
    requires st.size00 == -1 && st.size <= top
    ensures Fold(st, [Descriptor(0x00, top)]) == Sizes(-1, top)
  {
    var ds := [Descriptor(0x00, top)];
    assert ds[..0] == [] && Fold(st, []) == st;
  }

  lemma FoldFour(a: seq<Descriptor>, b: seq<Descriptor>, c: seq<Descriptor>, d: seq<Descriptor>)
    ensures Fold(NONE, a + b + c + d) == Fold(Fold(Fold(Fold(NONE, a), b), c), d)
  {
    hide Fold;
    FoldAppend(NONE, a + b + c, d);
    FoldAppend(NONE, a + b, c);
    FoldAppend(NONE, a, b);
  }

  /** The descriptors sorted by kind, with one of the largest of type 0x00 apart. */
  datatype Parts = Parts(tops: seq<Descriptor>, zeros: seq<Descriptor>, ones: seq<Descriptor>, others: seq<Descriptor>)

  predicate SameElements(ds: seq<Descriptor>, p: Parts) {
    multiset(ds) == multiset(p.tops) + multiset(p.zeros) + multiset(p.ones) + multiset(p.others)
  }

  predicate IsPartition(ds: seq<Descriptor>, p: Parts) {
    && SameElements(ds, p)
    && OfKind(p.zeros, 0x00) && OfKind(p.ones, 0x01) && NoneIsSuitable(multiset(p.others))
    && (if p.tops == [] then p.zeros == []
        else
          && |p.tops| == 1 && p.tops[0].kind == 0x00
          && forall i :: 0 <= i < |p.zeros| ==> p.zeros[i].size <= p.tops[0].size)
  }

  function Added(p: Parts, d: Descriptor): Parts
    requires |p.tops| <= 1
  {
    if d.kind == 0x01 then p.(ones := p.ones + [d])
    else if d.kind != 0x00 then p.(others := p.others + [d])
    else if p.tops == [] || p.tops[0].size < d.size then p.(tops := [d], zeros := p.zeros + p.tops)
    else p.(zeros := p.zeros + [d])
  }

  lemma AddedZero(ds: seq<Descriptor>, p: Parts, d: Descriptor)
    requires IsPartition(ds, p) && d.kind == 0x00
    ensures IsPartition(ds + [d], Added(p, d))
  {
    hide SameElements;
    AddedElements(ds, p, d);
    if p.tops != [] {
      assert p.tops == [p.tops[0]];
    }
  }

  lemma AddedElements(ds: seq<Descriptor>, p: Parts, d: Descriptor)
    requires SameElements(ds, p) && |p.tops| <= 1
    ensures SameElements(ds + [d], Added(p, d))
  {
    if d.kind == 0x01 {
    } else if d.kind != 0x00 {
    } else if p.tops == [] {
    } else if p.tops[0].size < d.size {
    } else {
    }
  }

  lemma AddedOne(ds: seq<Descriptor>, p: Parts, d: Descriptor)
    requires IsPartition(ds, p) && d.kind == 0x01
    ensures IsPartition(ds + [d], Added(p, d))
  {
    hide SameElements;
    AddedElements(ds, p, d);
  }

  lemma AddedOther(ds: seq<Descriptor>, p: Parts, d: Descriptor)
    requires IsPartition(ds, p) && d.kind != 0x00 && d.kind != 0x01
    ensures IsPartition(ds + [d], Added(p, d))
  {
    hide SameElements;
    AddedElements(ds, p, d);
  }

  lemma {:induction false} Partition(ds: seq<Descriptor>) returns (p: Parts)
    ensures IsPartition(ds, p)
  {
    if ds == [] {
      p := Parts([], [], [], []);
    } else {
      hide Added;
      var before, d := SplitLast(ds);
      var q := Partition(before);
      p := Added(q, d);
      hide IsPartition;
      if d.kind == 0x00 {
        AddedZero(before, q, d);
      } else if d.kind == 0x01 {
        AddedOne(before, q, d);
      } else {
        AddedOther(before, q, d);
      }
    }
  }

  lemma InPartition(ds: seq<Descriptor>, p: Parts)
    requires IsPartition(ds, p)
    ensures forall d :: d in multiset(ds) <==> d in p.tops || d in p.zeros || d in p.ones || d in p.others
  {}

  lemma SettledBy01(ds: seq<Descriptor>, p: Parts, f: int)
    requires IsPartition(ds, p) && p.ones != [] && IsTop(p.ones, f) && (p.tops != [] ==> p.tops[0].size < f)
    ensures Settled(multiset(ds), f)
  {
    InPartition(ds, p);
    var i :| 0 <= i < |p.ones| && p.ones[i].size == f;
    assert p.ones[i] == Descriptor(0x01, f);
    assert LargestIs01(multiset(ds), f);
  }

  lemma SettledBySecond(ds: seq<Descriptor>, p: Parts, f: int)
    requires IsPartition(ds, p) && p.zeros != [] && IsTop(p.zeros, f)
    requires forall i :: 0 <= i < |p.ones| ==> p.ones[i].size <= f
    ensures Settled(multiset(ds), f)
  {
    var i :| 0 <= i < |p.zeros| && p.zeros[i].size == f;
    var v := p.tops[0].size;
    assert p.zeros[i] == Descriptor(0x00, f) && p.tops == [Descriptor(0x00, v)];
    assert multiset(ds) - multiset{Descriptor(0x00, v)} == multiset(p.zeros) + multiset(p.ones) + multiset(p.others);
    InPartition(ds, p);
    assert BesidesLargest(multiset(ds), v, f);
  }

  lemma SettledBySingle(ds: seq<Descriptor>, p: Parts)
    requires IsPartition(ds, p) && p.tops != [] && p.zeros == []
    requires forall i :: 0 <= i < |p.ones| ==> p.ones[i].size == p.tops[0].size
    ensures Settled(multiset(ds), p.tops[0].size)
  {
    InPartition(ds, p);
    var f := p.tops[0].size;
    assert p.tops == [Descriptor(0x00, f)];
    assert Descriptor(0x00, f) !in multiset(p.ones) && Descriptor(0x00, f) !in multiset(p.others);
    assert SingleIs00(multiset(ds), f);
  }

  lemma SettledByNone(ds: seq<Descriptor>, p: Parts)
    requires IsPartition(ds, p) && p.tops == [] && p.ones == []
    ensures Settled(multiset(ds), -1)
  {
    InPartition(ds, p);
  }

  /** Types 0x00 first: the largest type 0x01 wins over the second largest type 0x00. */
  lemma ZerosFirst(ds: seq<Descriptor>, p: Parts, v: int, w: nat) returns (order: seq<Descriptor>)
    requires IsPartition(ds, p) && p.tops != [] && p.ones != [] && IsTop(p.zeros, v) && IsTop(p.ones, w) && v < w
    ensures multiset(order) == multiset(ds) && MaximumSize(order) == w
  {
    hide Fold, IsTop;
    var top := p.tops[0].size;
    TopBound(p, v);
    order := p.tops + p.zeros + p.ones + p.others;
    MaximumIsResult(order);
    FoldFour(p.tops, p.zeros, p.ones, p.others);
    assert p.tops == [Descriptor(0x00, top)];
    FoldTop(NONE, top);
    FoldRest(p.zeros, top, v);
    FoldBounded(Sizes(v, top), p.ones, w);
    FoldNone(Sizes(w, top), p.others);
    assert v >= -1 by { TopAtLeast(p.zeros, v); }
  }

  lemma TopAtLeast(ds: seq<Descriptor>, v: int)
    requires IsTop(ds, v)
    ensures v >= -1 && (v >= 0 <==> ds != [])
  {}

  lemma TopBound(p: Parts, v: int)
    requires IsTop(p.zeros, v) && p.tops != []
    requires forall i :: 0 <= i < |p.zeros| ==> p.zeros[i].size <= p.tops[0].size
    ensures v <= p.tops[0].size
  {}

  /** Types 0x01 first: they get forgotten if the largest type 0x00 comes next. */
  lemma OnesFirst(ds: seq<Descriptor>, p: Parts, v: int, w: nat) returns (order: seq<Descriptor>)
    requires IsPartition(ds, p) && p.tops != [] && p.ones != [] && IsTop(p.zeros, v) && IsTop(p.ones, w)
    requires w <= p.tops[0].size
    ensures multiset(order) == multiset(ds) && MaximumSize(order) == if p.zeros == [] then p.tops[0].size else v
  {
    hide Fold, IsTop;
    var top := p.tops[0].size;
    TopBound(p, v);
    TopAtLeast(p.zeros, v);
    order := p.ones + p.tops + p.zeros + p.others;
    MaximumIsResult(order);
    FoldFour(p.ones, p.tops, p.zeros, p.others);
    assert p.tops == [Descriptor(0x00, top)];
    FoldBounded(NONE, p.ones, w);
    FoldTop(Sizes(w, -1), top);
    FoldRest(p.zeros, top, v);
    FoldNone(Sizes(v, top), p.others);
  }

  lemma SmallerLastSize(before: seq<Descriptor>, top: nat, last: Descriptor, others: seq<Descriptor>)
    requires OfKind(before, 0x01) && (forall i :: 0 <= i < |before| ==> before[i].size <= top)
    requires last.kind == 0x01 && last.size < top && NoneIsSuitable(multiset(others))
    ensures MaximumSize(before + [Descriptor(0x00, top)] + [last] + others) == last.size
  {
    hide Fold, IsTop;
    MaximumIsResult(before + [Descriptor(0x00, top)] + [last] + others);
    FoldFour(before, [Descriptor(0x00, top)], [last], others);
    var w := Top(before);
    TopBound(Parts([Descriptor(0x00, top)], before, [], []), w);
    FoldBounded(NONE, before, w);
    TopAtLeast(before, w);
    FoldTop(Fold(NONE, before), top);
    SingleTop(last);
    FoldBounded(Sizes(-1, top), [last], last.size);
    FoldNone(Sizes(last.size, top), others);
  }

  lemma Removed(ds: seq<Descriptor>, k: nat) returns (rest: seq<Descriptor>)
    requires k < |ds|
    ensures multiset(ds) == multiset(rest) + multiset{ds[k]} && forall i :: 0 <= i < |rest| ==> rest[i] in ds
  {
    rest := ds[..k] + ds[k + 1..];
    assert ds == ds[..k] + [ds[k]] + ds[k + 1..];
  }

  /** The only type 0x00 between types 0x01 of which the last one is smaller. */
  lemma SmallerLast(ds: seq<Descriptor>, p: Parts, k: nat) returns (order: seq<Descriptor>)
    requires IsPartition(ds, p) && p.tops != [] && p.zeros == [] && k < |p.ones| && p.ones[k].size < p.tops[0].size
    requires forall i :: 0 <= i < |p.ones| ==> p.ones[i].size <= p.tops[0].size
    ensures multiset(order) == multiset(ds) && MaximumSize(order) == p.ones[k].size
  {
    hide MaximumSize, NoneIsSuitable;
    var before := Removed(p.ones, k);
    var top := Descriptor(0x00, p.tops[0].size);
    assert p.tops == [top];
    order := before + [top] + [p.ones[k]] + p.others;
    SmallerLastSize(before, top.size, p.ones[k], p.others);
  }

  lemma SingleTop(d: Descriptor)
    ensures IsTop([d], d.size)
  {
    assert [d][0].size == d.size;
  }

  /** All sequences of the same descriptors lead to the same size. */
  ghost predicate SameForAllOrders(ds: seq<Descriptor>) {
    forall order :: multiset(order) == multiset(ds) ==> MaximumSize(order) == MaximumSize(ds)
  }

  lemma OrderMatters(ds: seq<Descriptor>)
    requires SameForAllOrders(ds)
    ensures exists f :: Settled(multiset(ds), f)
  {
    hide Settled, MaximumSize;
    var p := Partition(ds);
    var v := Top(p.zeros);
    var w := Top(p.ones);
    TopAtLeast(p.zeros, v);
    TopAtLeast(p.ones, w);
    if p.tops == [] {
      if p.ones == [] {
        SettledByNone(ds, p);
      } else {
        SettledBy01(ds, p, w);
      }
    } else if p.ones != [] && p.tops[0].size < w {
      SettledBy01(ds, p, w);
    } else if p.zeros != [] && w <= v {
      SettledBySecond(ds, p, v);
    } else if p.zeros == [] && forall i :: 0 <= i < |p.ones| ==> p.ones[i].size == p.tops[0].size {
      SettledBySingle(ds, p);
    } else {
      OrdersDiffer(ds, p, v, w);
    }
  }

  lemma OrdersDiffer(ds: seq<Descriptor>, p: Parts, v: int, w: nat)
    requires IsPartition(ds, p) && p.tops != [] && p.ones != [] && IsTop(p.zeros, v) && IsTop(p.ones, w)
    requires v < w <= p.tops[0].size
    requires p.zeros == [] ==> exists i :: 0 <= i < |p.ones| && p.ones[i].size != p.tops[0].size
    ensures !SameForAllOrders(ds)
  {
    hide MaximumSize, IsPartition;
    var first := ZerosFirst(ds, p, v, w);
    var second: seq<Descriptor>;
    if p.zeros == [] && w == p.tops[0].size {
      var k :| 0 <= k < |p.ones| && p.ones[k].size != p.tops[0].size;
      second := SmallerLast(ds, p, k);
    } else {
      second := OnesFirst(ds, p, v, w);
    }
    assert MaximumSize(first) != MaximumSize(second);
  }

  /** The maximum size is the same for all sequences of the descriptors exactly if either a type 0x01 is the largest,
      or none is larger than the second largest type 0x00, or all are as large as a single type 0x00, or there are
      none of both types. This tells the size, too. */
  lemma WhenOrderMatters(ds: seq<Descriptor>)
    ensures SameForAllOrders(ds) <==> exists f :: Settled(multiset(ds), f)
    ensures forall f :: Settled(multiset(ds), f) ==> MaximumSize(ds) == f
  {
    hide Settled, MaximumSize;
    forall f, order | Settled(multiset(ds), f) && multiset(order) == multiset(ds)
      ensures MaximumSize(order) == f
    {
      SettledSize(order, f);
    }
    if SameForAllOrders(ds) {
      OrderMatters(ds);
    }
  }
}
