/** The finite field of 256 numbers behind the error correction of libburn/ecma130ab.c: polynomials modulo
    x^8+x^4+x^3+x^2+1 over the numbers 0 and 1. */
module Gf {

  /** Addition, the same as subtraction: binary exor. */
  function Add(a: bv8, b: bv8): bv8 {
    a ^ b
  }

  /** b * x, reduced. */
  function Xtime(b: bv8): bv8 {
    if b & 0x80 != 0 then (b << 1) ^ 0x1d else b << 1
  }

  function Sel(c: bool, w: bv8): bv8 {
    if c then w else 0
  }

  function Low(b: bv8): bool {
    b & 1 != 0
  }

  function Half(b: bv8): (h: bv8)
    ensures b != 0 ==> h as int < b as int
  {
    b >> 1
  }

  /** Horner: b = (b mod x) + x * (b div x). */
  function Mul(a: bv8, b: bv8): bv8
    decreases b as int
  {
    if b == 0 then 0 else Add(Sel(Low(b), a), Xtime(Mul(a, Half(b))))
  }

  function Pow(n: nat): bv8 {
    if n == 0 then 1 else Xtime(Pow(n - 1))
  }

  lemma ShiftExor(a: bv8, b: bv8)
    ensures (a ^ b) << 1 == (a << 1) ^ (b << 1)
    ensures (a ^ b) & 0x80 == (a & 0x80) ^ (b & 0x80)
    ensures a & 0x80 == 0 || a & 0x80 == 0x80
  {}

  lemma XtimeExor(a: bv8, b: bv8)
    ensures Xtime(a ^ b) == Xtime(a) ^ Xtime(b)
  {
    ShiftExor(a, b);
    ShiftExor(b, a);
    if a & 0x80 != 0 {
      if b & 0x80 != 0 {
        assert (a ^ b) & 0x80 == 0;
        assert ((a << 1) ^ 0x1d) ^ ((b << 1) ^ 0x1d) == (a << 1) ^ (b << 1);
      }
    }
  }

  lemma XtimeAdd(a: bv8, b: bv8)
    ensures Xtime(Add(a, b)) == Add(Xtime(a), Xtime(b))
  {
    XtimeExor(a, b);
  }

  lemma XtimeZero(b: bv8)
    ensures Xtime(b) == 0 <==> b == 0
  {
    if b & 0x80 != 0 {
      assert (b << 1) & 1 == 0;
      assert ((b << 1) ^ 0x1d) & 1 == 1;
    }
  }

  lemma MulUnfold(a: bv8, b: bv8)
    ensures Mul(a, b) == Add(Sel(Low(b), a), Xtime(Mul(a, Half(b))))
  {}

  lemma SelAdd(c: bool, v: bv8, w: bv8)
    ensures Sel(c, Add(v, w)) == Add(Sel(c, v), Sel(c, w))
  {}

  lemma SelXtime(c: bool, v: bv8)
    ensures Sel(c, Xtime(v)) == Xtime(Sel(c, v))
  {}

  lemma AddSel(b: bv8, c: bv8, v: bv8)
    ensures Sel(Low(Add(b, c)), v) == Add(Sel(Low(b), v), Sel(Low(c), v))
  {
    assert (b ^ c) & 1 == (b & 1) ^ (c & 1);
  }

  lemma HalfAdd(b: bv8, c: bv8)
    ensures Half(Add(b, c)) == Add(Half(b), Half(c))
  {
    assert (b ^ c) >> 1 == (b >> 1) ^ (c >> 1);
  }

  lemma Swap(p: bv8, q: bv8, r: bv8, s: bv8)
    ensures Add(Add(p, q), Add(r, s)) == Add(Add(p, r), Add(q, s))
  {
    assert (p ^ q) ^ (r ^ s) == (p ^ r) ^ (q ^ s);
  }

  lemma {:induction false} MulAddLeft(a: bv8, b: bv8, c: bv8)
    ensures Mul(Add(a, b), c) == Add(Mul(a, c), Mul(b, c))
    decreases c as int
  {
    if c == 0 {
    } else {
      hide Xtime, Sel, Add, Low, Half;
      MulAddLeft(a, b, Half(c));
      XtimeAdd(Mul(a, Half(c)), Mul(b, Half(c)));
      SelAdd(Low(c), a, b);
      Swap(Sel(Low(c), a), Xtime(Mul(a, Half(c))), Sel(Low(c), b), Xtime(Mul(b, Half(c))));
    }
  }

  lemma {:induction false} MulAddRight(a: bv8, b: bv8, c: bv8)
    ensures Mul(a, Add(b, c)) == Add(Mul(a, b), Mul(a, c))
    decreases b as int + c as int
  {
    if b == 0 && c == 0 {
    } else {
      hide Xtime, Sel, Add, Low, Half, Mul;
      MulAddRight(a, Half(b), Half(c));
      HalfAdd(b, c);
      AddSel(b, c, a);
      XtimeAdd(Mul(a, Half(b)), Mul(a, Half(c)));
      MulUnfold(a, b);
      MulUnfold(a, c);
      MulUnfold(a, Add(b, c));
      Swap(Sel(Low(b), a), Xtime(Mul(a, Half(b))), Sel(Low(c), a), Xtime(Mul(a, Half(c))));
    }
  }

  lemma {:induction false} MulXtime(a: bv8, b: bv8)
    ensures Mul(Xtime(a), b) == Xtime(Mul(a, b))
    decreases b as int
  {
    if b != 0 {
      hide Xtime, Sel, Add, Low, Half;
      MulXtime(a, Half(b));
      SelXtime(Low(b), a);
      XtimeAdd(Sel(Low(b), a), Xtime(Mul(a, Half(b))));
    }
  }

  lemma {:induction false} MulOne(b: bv8)
    ensures Mul(1, b) == b
    decreases b as int
  {
    if b != 0 {
      MulOne(Half(b));
      assert (b >> 1) & 0x80 == 0;
      assert Sel(b & 1 != 0, 1) ^ ((b >> 1) << 1) == b;
    }
  }

  lemma {:induction false} PowAdd(i: nat, j: nat)
    ensures Pow(i + j) == Mul(Pow(i), Pow(j))
  {
    hide Xtime;
    if i == 0 {
      MulOne(Pow(j));
    } else {
      PowAdd(i - 1, j);
      MulXtime(Pow(i - 1), Pow(j));
    }
  }

  // ---------- the order of x is 255

  function Xtime4(v: bv8): bv8 { Xtime(Xtime(Xtime(Xtime(v)))) }
  function Xtime17(v: bv8): bv8 { Xtime(Xtime4(Xtime4(Xtime4(Xtime4(v))))) }

  lemma Pow4(n: nat)
    ensures Pow(n + 4) == Xtime4(Pow(n))
  {
    hide Xtime;
    assert Pow(n + 1) == Xtime(Pow(n));
    assert Pow(n + 2) == Xtime(Pow(n + 1));
    assert Pow(n + 3) == Xtime(Pow(n + 2));
  }

  lemma Hop(n: nat, v: bv8, w: bv8)
    requires Pow(n) == v && Xtime17(v) == w
    ensures Pow(n + 17) == w
  {
    hide Xtime, Xtime4;
    Pow4(n);
    Pow4(n + 4);
    Pow4(n + 8);
    Pow4(n + 12);
    assert Pow(n + 17) == Xtime(Pow(n + 16));
  }

  lemma PowStep(n: nat)
    ensures Pow(0) == 1
    ensures Pow(n + 1) == Xtime(Pow(n))
  {}

  lemma PowValues()
    ensures Pow(15) == 38 && Pow(25) == 3 && Pow(51) == 10 && Pow(85) == 214 && Pow(255) == 1
  {
    hide Pow;
    PowStep(0);
    Hop(0, 1, 152);
    Hop(17, 152, 78);
    Hop(34, 78, 10);
    Hop(51, 10, 153);
    Hop(68, 153, 214);
    Hop(85, 214, 68);
    Hop(102, 68, 147);
    Hop(119, 147, 79);
    Hop(136, 79, 146);
    Hop(153, 146, 215);
    Hop(170, 215, 220);
    Hop(187, 220, 221);
    Hop(204, 221, 69);
    Hop(221, 69, 11);
    Hop(238, 11, 1);
    Pow4(0);
    Pow4(4);
    Pow4(8);
    PowStep(12);
    PowStep(13);
    PowStep(14);
    Pow4(17);
    Pow4(21);
  }

  lemma {:induction false} PowNonzero(n: nat)
    ensures Pow(n) != 0
  {
    if n == 0 {
    } else {
      PowNonzero(n - 1);
      XtimeZero(Pow(n - 1));
    }
  }

  lemma PowPeriod(n: nat)
    ensures Pow(n + 255) == Pow(n)
  {
    PowValues();
    PowAdd(255, n);
    MulOne(Pow(n));
  }

  lemma {:induction false} PowMultiple(m: nat, k: nat)
    requires Pow(m) == 1
    ensures Pow(m * k) == 1
  {
    if k == 0 {
    } else {
      PowMultiple(m, k - 1);
      PowAdd(m, m * (k - 1));
      MulOne(1);
      assert m * k == m + m * (k - 1);
    }
  }

  /** Division with remainder of exponents by a period m of Pow. */
  lemma {:induction false} PowRem(n: nat, m: nat) returns (k: nat, r: nat)
    requires m > 0 && Pow(m) == 1
    ensures n == m * k + r && r < m && Pow(n) == Pow(r)
  {
    if n < m {
      k, r := 0, n;
    } else {
      k, r := PowRem(n - m, m);
      PowAdd(m, n - m);
      MulOne(Pow(n - m));
      k := k + 1;
    }
  }

  lemma ProperDivisor(m: nat, k: nat) returns (t: nat)
    requires m * k == 255 && m < 255
    ensures m * t == 85 || m * t == 51 || m * t == 15
  {
    if m < 16 {
      assert m == 0 || m == 1 || m == 2 || m == 3 || m == 4 || m == 5 || m == 6 || m == 7 || m == 8
          || m == 9 || m == 10 || m == 11 || m == 12 || m == 13 || m == 14 || m == 15;
      t := if m == 1 then 15 else if m == 3 then 5 else if m == 5 then 3 else 1;
    } else {
      assert k < 16;
      assert k == 0 || k == 1 || k == 2 || k == 3 || k == 4 || k == 5 || k == 6 || k == 7 || k == 8
          || k == 9 || k == 10 || k == 11 || k == 12 || k == 13 || k == 14 || k == 15;
      t := if k == 15 then 3 else 1;
    }
  }

  /** No power of x below x^255 is 1 again, so x generates all nonzero elements. */
  lemma {:induction false} PowOrder(d: nat)
    requires 0 < d < 255
    ensures Pow(d) != 1
  {
    if Pow(d) == 1 {
      PowValues();
      var k, r := PowRem(255, d);
      if r > 0 {
        PowOrder(r);
      } else {
        var t := ProperDivisor(d, k);
        PowMultiple(d, t);
      }
    }
  }

  lemma PowInjective(i: nat, j: nat)
    requires i < j < 255
    ensures Pow(i) != Pow(j)
  {
    hide Pow, Mul;
    PowValues();
    PowAdd(255 - j, i);
    PowAdd(255 - j, j);
    PowOrder(255 - j + i);
  }

  // ---------- every nonzero element is a power of x

  ghost function PowNumber(n: nat): int {
    Pow(n) as int
  }

  ghost function PowsBelow(n: nat): set<int> {
    if n == 0 then {} else PowsBelow(n - 1) + {PowNumber(n - 1)}
  }

  ghost function UpTo(n: nat): set<int> {
    if n == 0 then {} else UpTo(n - 1) + {n}
  }

  lemma {:induction false} UpToSize(n: nat)
    ensures |UpTo(n)| == n
    ensures forall v :: v in UpTo(n) <==> 1 <= v <= n
  {
    if n > 0 {
      UpToSize(n - 1);
    }
  }

  lemma {:induction false} PowsBelowSize(n: nat)
    requires n <= 255
    ensures |PowsBelow(n)| == n && PowsBelow(n) <= UpTo(255)
    ensures forall v :: v in PowsBelow(n) ==> exists i: nat :: i < n && PowNumber(i) == v
  {
    hide Pow, UpTo;
    if n == 0 {
    } else {
      PowsBelowSize(n - 1);
      PowNonzero(n - 1);
      UpToSize(255);
      var p := PowNumber(n - 1);
      if p in PowsBelow(n - 1) {
        var i: nat :| i < n - 1 && PowNumber(i) == p;
        PowInjective(i, n - 1);
        assert false;
      }
    }
  }

  lemma SubsetOfSameSize<T>(s: set<T>, t: set<T>)
    requires s <= t && |s| == |t|
    ensures s == t
  {
    assert |t - s| == |t| - |s|;
  }

  /** The powers of x are all nonzero elements: x is primitive. */
  lemma PowSurjective(a: bv8)
    requires a != 0
    ensures exists l: nat :: l < 255 && Pow(l) == a
  {
    hide Pow, PowNumber, PowsBelow, UpTo;
    var powers, numbers := PowsBelow(255), UpTo(255);
    PowsBelowSize(255);
    UpToSize(255);
    SubsetOfSameSize(powers, numbers);
    assert a as int in numbers;
    LogOfNumber(a);
  }

  lemma LogOfNumber(a: bv8)
    requires exists i: nat :: i < 255 && PowNumber(i) == a as int
    ensures exists l: nat :: l < 255 && Pow(l) == a
  {
    hide Pow;
    var l: nat :| l < 255 && PowNumber(l) == a as int;
    assert Pow(l) == a;
  }

  /** Discrete logarithm to base x. */
  ghost function Log(a: bv8): (l: nat)
    requires a != 0
    ensures l < 255 && Pow(l) == a
  {
    PowSurjective(a);
    var l: nat :| l < 255 && Pow(l) == a;
    l
  }

  // ---------- field laws

  lemma MulZero(a: bv8)
    ensures Mul(a, 0) == 0 && Mul(0, a) == 0
    decreases a as int
  {
    if a != 0 {
      MulZero(Half(a));
    }
  }

  lemma MulNonzero(a: bv8, b: bv8)
    requires a != 0 && b != 0
    ensures Mul(a, b) == Pow(Log(a) + Log(b)) && Mul(a, b) != 0
  {
    PowAdd(Log(a), Log(b));
    PowNonzero(Log(a) + Log(b));
  }

  lemma MulComm(a: bv8, b: bv8)
    ensures Mul(a, b) == Mul(b, a)
  {
    MulZero(a);
    MulZero(b);
    if a != 0 && b != 0 {
      MulNonzero(a, b);
      MulNonzero(b, a);
    }
  }

  /** A factor other than 0 can be cancelled. */
  lemma MulCancel(a: bv8, b: bv8, c: bv8)
    requires a != 0 && Mul(a, b) == Mul(a, c)
    ensures b == c
  {
    hide Mul;
    AddSame(Mul(a, b));
    AddZero(b, c);
    MulAddRight(a, b, c);
    if b != c {
      MulNonzero(a, Add(b, c));
      assert false;
    }
  }

  lemma AddSame(a: bv8)
    ensures Add(a, a) == 0
  {}

  lemma AddZero(a: bv8, b: bv8)
    ensures Add(a, b) == 0 <==> a == b
  {
    assert a == (a ^ b) ^ b;
  }
}
