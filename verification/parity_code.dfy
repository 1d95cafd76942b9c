/** The distance-3 code behind one P column or one Q diagonal. */
module ParityCode {
  import opened Gf

  /** First row of H x V. */
  function Sum(v: seq<bv8>): bv8 {
    if v == [] then 0 else Add(Sum(v[..|v| - 1]), v[|v| - 1])
  }

  /** Second row of H x V, where V has n elements and v is its start. */
  function Dot(v: seq<bv8>, n: nat): bv8
    requires |v| <= n
  {
    if v == [] then 0 else Add(Dot(v[..|v| - 1], n), Mul(v[|v| - 1], Pow(n - |v|)))
  }

  /** H x V = (0,0) */
  predicate Checks(v: seq<bv8>) {
    Sum(v) == 0 && Dot(v, |v|) == 0
  }

  lemma Append(v: seq<bv8>, b: bv8, n: nat)
    requires |v| < n
    ensures Sum(v + [b]) == Add(Sum(v), b)
    ensures Dot(v + [b], n) == Add(Dot(v, n), Mul(b, Pow(n - 1 - |v|)))
  {
    assert (v + [b])[..|v|] == v;
  }

  // ---------- changing one element

  lemma AddSwap(p: bv8, q: bv8, r: bv8)
    ensures Add(Add(p, q), r) == Add(Add(p, r), q)
  {
    assert (p ^ q) ^ r == (p ^ r) ^ q;
  }

  lemma AddTwice(p: bv8, q: bv8)
    ensures Add(p, Add(p, q)) == q
  {
    assert p ^ (p ^ q) == q;
  }

  lemma AddAssoc(p: bv8, q: bv8, r: bv8)
    ensures Add(Add(p, q), r) == Add(p, Add(q, r))
  {
    assert (p ^ q) ^ r == p ^ (q ^ r);
  }

  lemma {:induction false} SumUpdate(v: seq<bv8>, i: nat, e: bv8)
    requires i < |v|
    ensures Sum(v[i := Add(v[i], e)]) == Add(Sum(v), e)
  {
    hide Add;
    var last := |v| - 1;
    var w := v[i := Add(v[i], e)];
    if i == last {
      assert w[..last] == v[..last];
      AddAssoc(Sum(v[..last]), v[last], e);
    } else {
      assert w[..last] == v[..last][i := Add(v[..last][i], e)];
      SumUpdate(v[..last], i, e);
      AddSwap(Sum(v[..last]), e, v[last]);
    }
  }

  lemma {:induction false} DotUpdate(v: seq<bv8>, n: nat, i: nat, e: bv8)
    requires i < |v| <= n
    ensures Dot(v[i := Add(v[i], e)], n) == Add(Dot(v, n), Mul(e, Pow(n - 1 - i)))
  {
    hide Add, Mul, Pow;
    var last := |v| - 1;
    var w := v[i := Add(v[i], e)];
    if i == last {
      assert w[..last] == v[..last];
      MulAddLeft(v[last], e, Pow(n - 1 - i));
      AddAssoc(Dot(v[..last], n), Mul(v[last], Pow(n - |v|)), Mul(e, Pow(n - |v|)));
    } else {
      assert w[..last] == v[..last][i := Add(v[..last][i], e)];
      DotUpdate(v[..last], n, i, e);
      AddSwap(Dot(v[..last], n), Mul(e, Pow(n - 1 - i)), Mul(v[last], Pow(n - |v|)));
    }
  }

  // ---------- distance 3

  lemma TwoErrors(v: seq<bv8>, i: nat, j: nat, e: bv8, f: bv8)
    requires i < j < |v| <= 255
    requires Checks(v) && Checks(v[i := Add(v[i], e)][j := Add(v[j], f)])
    ensures e == 0 && f == 0
  {
    hide Add, Mul, Pow, Sum, Dot;
    var n := |v|;
    var w := v[i := Add(v[i], e)];
    SumUpdate(v, i, e);
    SumUpdate(w, j, f);
    DotUpdate(v, n, i, e);
    DotUpdate(w, n, j, f);
    var hi, hj := Pow(n - 1 - i), Pow(n - 1 - j);
    AddChain(e, f);
    AddChain(Mul(e, hi), Mul(f, hj));
    if e != 0 {
      MulCancel(e, hi, hj);
      PowInjective(n - 1 - j, n - 1 - i);
      assert false;
    }
  }

  lemma AddChain(p: bv8, q: bv8)
    ensures Add(Add(0, p), q) == 0 <==> p == q
  {
    AddZero(p, q);
  }

  lemma Difference(a: bv8, b: bv8)
    ensures Add(a, Add(a, b)) == b
    ensures Add(a, b) == 0 <==> a == b
  {
    AddTwice(a, b);
    AddZero(a, b);
  }

  /** Vectors which both fulfill H x V = (0,0) are equal if they agree outside of two places. */
  lemma AgreeOutsideTwo(v: seq<bv8>, w: seq<bv8>, i: nat, j: nat)
    requires |v| == |w| <= 255 && i < j < |v|
    requires Checks(v) && Checks(w)
    requires forall k :: 0 <= k < |v| && k != i && k != j ==> v[k] == w[k]
    ensures v == w
  {
    hide Add, Sum, Dot;
    var e, f := Add(v[i], w[i]), Add(v[j], w[j]);
    Difference(v[i], w[i]);
    Difference(v[j], w[j]);
    assert w == v[i := Add(v[i], e)][j := Add(v[j], f)];
    TwoErrors(v, i, j, e, f);
  }

  /** Minimum distance 3. */
  lemma DifferInThree(v: seq<bv8>, w: seq<bv8>) returns (i: nat, j: nat, k: nat)
    requires 2 <= |v| == |w| <= 255
    requires Checks(v) && Checks(w) && v != w
    ensures i < |v| && j < |v| && k < |v| && i != j && i != k && j != k
    ensures v[i] != w[i] && v[j] != w[j] && v[k] != w[k]
  {
    hide Checks;
    i :| i < |v| && v[i] != w[i];
    if forall k :: 0 <= k < |v| && k != i ==> v[k] == w[k] {
      if i == 0 {
        AgreeOutsideTwo(v, w, 0, 1);
      } else {
        AgreeOutsideTwo(v, w, 0, i);
      }
      assert false;
    }
    j :| j < |v| && j != i && v[j] != w[j];
    if forall k :: 0 <= k < |v| && k != i && k != j ==> v[k] == w[k] {
      AgreeOutsideTwo(v, w, if i < j then i else j, if i < j then j else i);
      assert false;
    }
    k :| k < |v| && k != i && k != j && v[k] != w[k];
  }

  // ---------- linearity

  function Exor(v: seq<bv8>, w: seq<bv8>): (x: seq<bv8>)
    requires |v| == |w|
    ensures |x| == |v|
    ensures forall i :: 0 <= i < |v| ==> x[i] == Add(v[i], w[i])
  {
    seq(|v|, i requires 0 <= i < |v| => Add(v[i], w[i]))
  }

  lemma {:induction false} ExorSums(v: seq<bv8>, w: seq<bv8>, n: nat)
    requires |v| == |w| <= n
    ensures Sum(Exor(v, w)) == Add(Sum(v), Sum(w))
    ensures Dot(Exor(v, w), n) == Add(Dot(v, n), Dot(w, n))
  {
    if |v| == 0 {
    } else {
      hide Add, Mul, Pow;
      var last := |v| - 1;
      var v', w', h := v[..last], w[..last], Pow(n - |v|);
      assert Exor(v, w)[..last] == Exor(v', w');
      ExorSums(v', w', n);
      Swap(Sum(v'), Sum(w'), v[last], w[last]);
      MulAddLeft(v[last], w[last], h);
      Swap(Dot(v', n), Dot(w', n), Mul(v[last], h), Mul(w[last], h));
    }
  }

  lemma ExorChecks(v: seq<bv8>, w: seq<bv8>)
    requires |v| == |w| && Checks(v) && Checks(w)
    ensures Checks(Exor(v, w))
  {
    ExorSums(v, w, |v|);
  }
}
