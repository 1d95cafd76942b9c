/** Multiplication of bytes as polynomials over the numbers 0 and 1: a product without carry, divided by
    x^8+x^4+x^3+x^2+1. The remainder is the product of the finite field. */
module Carryless {
  import opened Gf

  /** A polynomial of degree below 16. */
  type Poly = bv16

  const GENERATOR: Poly := 0x11d

  function Wide(a: bv8): Poly {
    a as bv16
  }

  function Exor(p: Poly, q: Poly): Poly {
    p ^ q
  }

  function Shift(p: Poly): Poly {
    p << 1
  }

  function If(c: bool, p: Poly): Poly {
    if c then p else 0
  }

  /** a * b: the sum of the shifted a for all bits of b. */
  function Product(a: bv8, b: bv8): Poly
    decreases b as int
  {
    if b == 0 then 0 else Exor(If(Low(b), Wide(a)), Shift(Product(a, Half(b))))
  }

  /** q * (x^8+x^4+x^3+x^2+1) */
  function Multiple(q: bv8): Poly {
    Times(Wide(q))
  }

  /** The sum of p * x^8, p * x^4, p * x^3, p * x^2, p */
  function Times(p: Poly): Poly {
    Exor(Exor(Exor(Exor(Power8(p), Power4(p)), Power3(p)), Power2(p)), p)
  }

  function Power2(p: Poly): Poly {
    p << 2
  }

  function Power3(p: Poly): Poly {
    p << 3
  }

  function Power4(p: Poly): Poly {
    p << 4
  }

  function Power8(p: Poly): Poly {
    p << 8
  }

  /** r is the remainder of p divided by the generator polynomial, q is the quotient. */
  predicate IsRemainder(p: Poly, q: bv8, r: bv8) {
    p == Exor(Multiple(q), Wide(r))
  }

  // ---------- there is only one remainder

  lemma ShiftsExor(p: Poly, q: Poly)
    ensures (p ^ q) << 8 == (p << 8) ^ (q << 8)
    ensures (p ^ q) << 4 == (p << 4) ^ (q << 4)
    ensures (p ^ q) << 3 == (p << 3) ^ (q << 3)
    ensures (p ^ q) << 2 == (p << 2) ^ (q << 2)
  {}

  lemma Power8Exor(p: Poly, q: Poly)
    ensures Power8(Exor(p, q)) == Exor(Power8(p), Power8(q))
  {
    ShiftsExor(p, q);
  }

  lemma Power4Exor(p: Poly, q: Poly)
    ensures Power4(Exor(p, q)) == Exor(Power4(p), Power4(q))
  {
    ShiftsExor(p, q);
  }

  lemma Power3Exor(p: Poly, q: Poly)
    ensures Power3(Exor(p, q)) == Exor(Power3(p), Power3(q))
  {
    ShiftsExor(p, q);
  }

  lemma Power2Exor(p: Poly, q: Poly)
    ensures Power2(Exor(p, q)) == Exor(Power2(p), Power2(q))
  {
    ShiftsExor(p, q);
  }

  lemma ExorAssociates(p: Poly, q: Poly, r: Poly)
    ensures Exor(Exor(p, q), r) == Exor(p, Exor(q, r))
  {}

  lemma ExorCommutes(p: Poly, q: Poly)
    ensures Exor(p, q) == Exor(q, p)
  {}

  lemma Interleave(a: Poly, b: Poly, c: Poly, d: Poly)
    ensures Exor(Exor(a, b), Exor(c, d)) == Exor(Exor(a, c), Exor(b, d))
  {
    hide Exor;
    ExorAssociates(a, b, Exor(c, d));
    ExorAssociates(b, c, d);
    ExorCommutes(b, c);
    ExorAssociates(c, b, d);
    ExorAssociates(a, c, Exor(b, d));
  }

  lemma TimesExor(p: Poly, q: Poly)
    ensures Exor(Times(p), Times(q)) == Times(Exor(p, q))
  {
    hide Exor, Power2, Power3, Power4, Power8;
    Power8Exor(p, q);
    Power4Exor(p, q);
    Power3Exor(p, q);
    Power2Exor(p, q);
    var a, b, c, d := Power8(p), Power4(p), Power3(p), Power2(p);
    var e, f, g, h := Power8(q), Power4(q), Power3(q), Power2(q);
    Interleave(Exor(Exor(Exor(a, b), c), d), p, Exor(Exor(Exor(e, f), g), h), q);
    Interleave(Exor(Exor(a, b), c), d, Exor(Exor(e, f), g), h);
    Interleave(Exor(a, b), c, Exor(e, f), g);
    Interleave(a, b, e, f);
  }

  lemma MultipleExor(q: bv8, q': bv8)
    ensures Exor(Multiple(q), Multiple(q')) == Multiple(Add(q, q'))
  {
    hide Wide, Times, Exor, Add;
    WideExor(q, q');
    TimesExor(Wide(q), Wide(q'));
  }

  lemma SmallMultiple(q: bv8)
    requires Multiple(q) < 0x100
    ensures q == 0
  {}

  lemma WideExor(r: bv8, r': bv8)
    ensures Exor(Wide(r), Wide(r')) == Wide(Add(r, r')) < 0x100
  {}

  lemma WideZero(r: bv8)
    ensures Wide(r) == 0 <==> r == 0
  {}

  lemma ExorTwice(p: Poly, q: Poly)
    ensures Exor(Exor(p, q), q) == p
  {}

  lemma MoveTerms(p: Poly, q: Poly, r: Poly, s: Poly)
    requires Exor(p, q) == Exor(r, s)
    ensures Exor(p, r) == Exor(q, s)
  {
    hide Exor;
    ExorTwice(p, q);
    ExorCommutes(r, s);
    ExorAssociates(s, r, q);
    ExorCommutes(r, q);
    ExorAssociates(s, q, r);
    ExorTwice(Exor(s, q), r);
    ExorCommutes(s, q);
  }

  lemma AddsToZero(a: bv8, b: bv8)
    ensures Add(a, b) == 0 <==> a == b
  {}

  lemma UniqueRemainder(p: Poly, q: bv8, r: bv8, q': bv8, r': bv8)
    requires IsRemainder(p, q, r) && IsRemainder(p, q', r')
    ensures q == q' && r == r'
  {
    hide Multiple, Wide, Exor, Add;
    MoveTerms(Multiple(q), Wide(r), Multiple(q'), Wide(r'));
    MultipleExor(q, q');
    WideExor(r, r');
    SmallMultiple(Add(q, q'));
    AddsToZero(q, q');
    NoMultiple();
    WideZero(Add(r, r'));
    AddsToZero(r, r');
  }

  lemma NoMultiple()
    ensures Multiple(0) == 0
  {}

  // ---------- multiplication in the field yields it

  function Top(r: bv8): bool {
    r & 0x80 != 0
  }

  function NextQuotient(q: bv8, r: bv8): bv8 {
    (q << 1) | if Top(r) then 1 else 0
  }

  lemma ShiftWide(r: bv8)
    ensures Shift(Wide(r)) == Exor(If(Top(r), GENERATOR), Wide(Xtime(r)))
  {}

  lemma ShiftMultiple(q: bv8, r: bv8)
    requires q < 0x80
    ensures Multiple(NextQuotient(q, r)) == Exor(Shift(Multiple(q)), If(Top(r), GENERATOR))
  {}

  lemma ShiftExorPoly(p: Poly, q: Poly)
    ensures Shift(Exor(p, q)) == Exor(Shift(p), Shift(q))
  {}

  lemma WideAdd(c: bool, a: bv8, r: bv8)
    ensures Wide(Add(Sel(c, a), r)) == Exor(If(c, Wide(a)), Wide(r))
  {}

  lemma Regroup(s: Poly, m: Poly, g: Poly, w: Poly)
    ensures Exor(s, Exor(m, Exor(g, w))) == Exor(Exor(m, g), Exor(s, w))
  {
    hide Exor;
    ExorAssociates(m, g, w);
    ExorAssociates(s, Exor(m, g), w);
    ExorCommutes(s, Exor(m, g));
    ExorAssociates(Exor(m, g), s, w);
  }

  lemma ProductUnfold(a: bv8, b: bv8)
    ensures Product(a, b) == Exor(If(Low(b), Wide(a)), Shift(Product(a, Half(b))))
  {}

  /** The quotient of one more bit. */
  lemma RemainderStep(a: bv8, b: bv8, q: bv8)
    requires q < 0x80 && IsRemainder(Product(a, Half(b)), q, Mul(a, Half(b)))
    ensures IsRemainder(Product(a, b), NextQuotient(q, Mul(a, Half(b))), Mul(a, b))
  {
    hide Multiple, Wide, Exor, Shift, If, Product, Mul, Xtime, Add, Sel, Low, Half, NextQuotient, Top;
    var m, r := Multiple(q), Mul(a, Half(b));
    ProductUnfold(a, b);
    MulUnfold(a, b);
    ShiftExorPoly(m, Wide(r));
    ShiftWide(r);
    ShiftMultiple(q, r);
    WideAdd(Low(b), a, Xtime(r));
    Regroup(If(Low(b), Wide(a)), Shift(m), If(Top(r), GENERATOR), Wide(Xtime(r)));
  }

  /** The n highest bits of b. */
  function HighBits(b: bv8, n: nat): bv8
    requires n <= 8
    decreases 8 - n
  {
    if n == 8 then b else Half(HighBits(b, n + 1))
  }

  /** The largest quotient for products with n bits. */
  function Limit(n: nat): bv8 {
    if n <= 1 then 0 else if n == 2 then 1 else if n == 3 then 3 else if n == 4 then 7
    else if n == 5 then 0xf else if n == 6 then 0x1f else if n == 7 then 0x3f else 0x7f
  }

  lemma LimitGrows(n: nat, q: bv8, r: bv8)
    requires 1 <= n < 8 && q <= Limit(n)
    ensures q < 0x80 && NextQuotient(q, r) <= Limit(n + 1)
  {}

  lemma OneBit(a: bv8, b: bv8)
    ensures var h := Half(Half(Half(Half(Half(Half(Half(b))))))); h == 0 || h == 1
  {}

  lemma ProductOfOneBit(a: bv8, b: bv8)
    requires b == 0 || b == 1
    ensures IsRemainder(Product(a, b), 0, Mul(a, b))
  {}

  lemma HighestBit(b: bv8)
    ensures HighBits(b, 1) == 0 || HighBits(b, 1) == 1
  {
    hide Half;
    assert HighBits(b, 7) == Half(b) && HighBits(b, 6) == Half(Half(b)) && HighBits(b, 5) == Half(Half(Half(b)));
    assert HighBits(b, 3) == Half(Half(HighBits(b, 5))) && HighBits(b, 1) == Half(Half(HighBits(b, 3)));
    OneBit(0, b);
  }

  lemma {:induction false} MulIsRemainderOf(a: bv8, b: bv8, n: nat) returns (q: bv8)
    requires 1 <= n <= 8
    ensures q <= Limit(n) && IsRemainder(Product(a, HighBits(b, n)), q, Mul(a, HighBits(b, n)))
  {
    hide IsRemainder, Limit, Product, Mul, Half;
    if n == 1 {
      q := 0;
      HighestBit(b);
      ProductOfOneBit(a, HighBits(b, 1));
      LimitOfOne();
    } else {
      q := MulIsRemainderOf(a, b, n - 1);
      LimitGrows(n - 1, q, Mul(a, HighBits(b, n - 1)));
      RemainderStep(a, HighBits(b, n), q);
      q := NextQuotient(q, Mul(a, HighBits(b, n - 1)));
    }
  }

  lemma LimitOfOne()
    ensures Limit(1) == 0
  {}

  /** The product of the field is the remainder of the product without carry. */
  lemma MulIsRemainder(a: bv8, b: bv8) returns (q: bv8)
    ensures IsRemainder(Product(a, b), q, Mul(a, b))
  {
    hide IsRemainder, Product, Mul;
    q := MulIsRemainderOf(a, b, 8);
  }
}
