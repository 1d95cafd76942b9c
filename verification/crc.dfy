/** The checksum of CD-TEXT packs: division by x^16 + x^12 + x^5 + 1 in libburn/cdtext.c.
    Polynomials are bit sequences, highest power first. */
module Crc {

  type Bits = seq<bool>

  // ---------- polynomial division

  function Coef(q: Bits, j: int): bool {
    0 <= j < |q| && q[j]
  }

  /** Coefficient p of the product q * (x^16 + x^12 + x^5 + 1). */
  predicate Product(q: Bits, p: int) {
    ((Coef(q, p) != Coef(q, p - 4)) != Coef(q, p - 11)) != Coef(q, p - 16)
  }

  /** n = q * (x^16 + x^12 + x^5 + 1) + r, with r of degree below 16. */
  ghost predicate IsDivision(n: Bits, q: Bits, r: Bits) {
    && |r| == 16 && |n| == |q| + 16
    && forall p :: 0 <= p < |n| ==> n[p] == (Product(q, p) != Coef(r, p - |q|))
  }

  /** The remainder after appending bit b to the dividend. */
  function NextRemainder(r: Bits, b: bool): (s: Bits)
    requires |r| == 16
    ensures |s| == 16
  {
    seq(16, j requires 0 <= j < 16 =>
      (if j < 15 then r[j + 1] else b) != (r[0] && (j == 3 || j == 10 || j == 15)))
  }

  lemma DivisionStep(n: Bits, q: Bits, r: Bits, b: bool)
    requires IsDivision(n, q, r)
    ensures IsDivision(n + [b], q + [r[0]], NextRemainder(r, b))
  {
    var n', q', r' := n + [b], q + [r[0]], NextRemainder(r, b);
    forall p | 0 <= p < |n'|
      ensures n'[p] == (Product(q', p) != Coef(r', p - |q'|))
    {
      ProductAppend(q, r[0], p);
      if p < |q| {
      } else if p == |q| {
      } else {
        assert Coef(r', p - |q'|) == r'[p - |q'|];
      }
    }
  }

  lemma ProductAppend(q: Bits, b: bool, p: int)
    ensures Product(q + [b], p) ==
      (Product(q, p) != (b && (p == |q| || p == |q| + 4 || p == |q| + 11 || p == |q| + 16)))
  {}

  /** The quotient is unique ... */
  lemma {:induction false} SameQuotient(n: Bits, q: Bits, r: Bits, q': Bits, r': Bits, k: nat)
    requires IsDivision(n, q, r) && IsDivision(n, q', r') && k <= |q|
    ensures q[..k] == q'[..k]
  {
    if k == 0 {
    } else {
      SameQuotient(n, q, r, q', r', k - 1);
      var p := k - 1;
      assert forall j :: 0 <= j < p ==> q[..p][j] == q'[..p][j];
      assert Product(q, p) == Product(q', p);
      assert q[p] == q'[p];
    }
  }

  /** ... and so is the remainder. */
  lemma UniqueDivision(n: Bits, q: Bits, r: Bits, q': Bits, r': Bits)
    requires IsDivision(n, q, r) && IsDivision(n, q', r')
    ensures q == q' && r == r'
  {
    SameQuotient(n, q, r, q', r', |q|);
    assert q[..|q|] == q && q'[..|q|] == q';
    forall j | 0 <= j < 16
      ensures r[j] == r'[j]
    {
      var p := j + |q|;
      assert n[p] == (Product(q, p) != Coef(r, p - |q|));
      assert n[p] == (Product(q', p) != Coef(r', p - |q'|));
    }
  }

  lemma DropLeadingZero(n: Bits, q: Bits, r: Bits)
    requires IsDivision([false] + n, q, r) && |q| > 0
    ensures !q[0] && IsDivision(n, q[1..], r)
  {
    var n' := [false] + n;
    assert !n'[0] && !Coef(r, 0 - |q|);
    assert Product(q, 0) == q[0];
    forall p | 0 <= p < |n|
      ensures n[p] == (Product(q[1..], p) != Coef(r, p - |q[1..]|))
    {
      assert n'[p + 1] == n[p];
      assert forall j :: Coef(q[1..], j) == Coef(q, j + 1) || j == -1;
    }
  }

  lemma {:induction false} DropLeadingZeros(k: nat, n: Bits, q: Bits, r: Bits)
    requires IsDivision(Zeros(k) + n, q, r) && |q| >= k
    ensures q[..k] == Zeros(k) && IsDivision(n, q[k..], r)
  {
    if k == 0 {
      assert Zeros(0) + n == n;
    } else {
      assert Zeros(k) + n == [false] + (Zeros(k - 1) + n);
      DropLeadingZero(Zeros(k - 1) + n, q, r);
      DropLeadingZeros(k - 1, n, q[1..], r);
      assert q[..k] == [q[0]] + q[1..][..k - 1];
      assert q[k..] == q[1..][k - 1..];
    }
  }

  function Zeros(k: nat): (z: Bits)
    ensures |z| == k && forall i :: 0 <= i < k ==> !z[i]
  {
    seq(k, _ => false)
  }

  function Exor(a: Bits, b: Bits): (c: Bits)
    requires |a| == |b|
    ensures |c| == |a| && forall i :: 0 <= i < |a| ==> c[i] == (a[i] != b[i])
  {
    seq(|a|, i requires 0 <= i < |a| => a[i] != b[i])
  }

  lemma DivisionIsLinear(n: Bits, q: Bits, r: Bits, n': Bits, q': Bits, r': Bits)
    requires IsDivision(n, q, r) && IsDivision(n', q', r') && |n| == |n'|
    ensures IsDivision(Exor(n, n'), Exor(q, q'), Exor(r, r'))
  {
    var d, x, s := Exor(n, n'), Exor(q, q'), Exor(r, r');
    forall p | 0 <= p < |d|
      ensures d[p] == (Product(x, p) != Coef(s, p - |x|))
    {
      assert forall j :: Coef(x, j) == (Coef(q, j) != Coef(q', j));
      assert Product(x, p) == (Product(q, p) != Product(q', p));
    }
  }

  // ---------- the register of the program

  function Shift(acc: bv32, bit: bool): bv32 {
    var shifted := acc << 1;
    if bit then shifted | 1 else shifted
  }

  predicate Reducible(acc: bv32) {
    acc & 0x10000 != 0
  }

  function Subtract(a: bv32, b: bv32): bv32 {
    a ^ b
  }

  /** One round of the loop: shift a bit in, subtract the divisor if possible. */
  function Round(acc: bv32, bit: bool): bv32 {
    var shifted := Shift(acc, bit);
    if Reducible(shifted) then Subtract(shifted, 0x11021) else shifted
  }

  function Half(acc: bv32): bv32 {
    acc >> 1
  }

  predicate Odd(acc: bv32) {
    acc & 1 != 0
  }

  /** Bit k of the register. */
  predicate TestBit(acc: bv32, k: nat)
    decreases k
  {
    if k == 0 then Odd(acc) else TestBit(Half(acc), k - 1)
  }

  /** The 16 lower bits of the register as polynomial. */
  function Remainder(acc: bv32): (r: Bits)
    ensures |r| == 16
  {
    seq(16, j requires 0 <= j < 16 => TestBit(acc, 15 - j))
  }

  lemma {:induction false} TestSubtract(a: bv32, b: bv32, k: nat)
    ensures TestBit(Subtract(a, b), k) == (TestBit(a, k) != TestBit(b, k))
    decreases k
  {
    hide Half, Odd, Subtract;
    if k == 0 {
      OddSubtract(a, b);
    } else {
      HalfSubtract(a, b);
      TestSubtract(Half(a), Half(b), k - 1);
    }
  }

  lemma OddSubtract(a: bv32, b: bv32)
    ensures Odd(Subtract(a, b)) == (Odd(a) != Odd(b))
  {
    LowestOfExor(a, b);
  }

  lemma LowestOfExor(a: bv32, b: bv32)
    ensures (a ^ b) & 1 != 0 <==> (a & 1 != 0) != (b & 1 != 0)
  {}

  lemma HalfSubtract(a: bv32, b: bv32)
    ensures Half(Subtract(a, b)) == Subtract(Half(a), Half(b))
  {}

  lemma HalfOfShift(acc: bv32, bit: bool)
    requires acc < 0x10000
    ensures Half(Shift(acc, bit)) == acc
    ensures Odd(Shift(acc, bit)) == bit
    ensures Shift(acc, bit) < 0x20000
  {}

  function Sixteenth(acc: bv32): bv32 {
    Half(Half(Half(Half(acc))))
  }

  lemma Nibble(acc: bv32, k: nat)
    ensures k == 0 ==> TestBit(acc, k) == Odd(acc)
    ensures k == 1 ==> TestBit(acc, k) == Odd(Half(acc))
    ensures k == 2 ==> TestBit(acc, k) == Odd(Half(Half(acc)))
    ensures k == 3 ==> TestBit(acc, k) == Odd(Half(Half(Half(acc))))
    ensures k >= 4 ==> TestBit(acc, k) == TestBit(Sixteenth(acc), k - 4)
  {
    hide Half, Odd;
    if k > 0 {
      assert TestBit(acc, k) == TestBit(Half(acc), k - 1);
      if k > 1 {
        assert TestBit(Half(acc), k - 1) == TestBit(Half(Half(acc)), k - 2);
        if k > 2 {
          assert TestBit(Half(Half(acc)), k - 2) == TestBit(Half(Half(Half(acc))), k - 3);
        }
      }
    }
  }

  /** The divisor is x^16 + x^12 + x^5 + 1. */
  lemma DivisorBits(k: nat)
    requires k <= 16
    ensures TestBit(0x11021, k) == (k == 0 || k == 5 || k == 12 || k == 16)
  {
    hide TestBit;
    Nibble(0x11021, k);
    if k >= 4 {
      Nibble(0x1102, k - 4);
      if k >= 8 {
        Nibble(0x110, k - 8);
        if k >= 12 {
          Nibble(0x11, k - 12);
          if k >= 16 {
            Nibble(0x1, k - 16);
          }
        }
      }
    }
  }

  lemma TestTop(acc: bv32)
    ensures TestBit(acc, 16) == Reducible(acc)
  {
    TopAfterShifts(acc);
    hide TestBit, Sixteenth, Reducible, Odd;
    var a4 := Sixteenth(acc);
    var a8 := Sixteenth(a4);
    var a12 := Sixteenth(a8);
    Nibble(acc, 16);
    Nibble(a4, 12);
    Nibble(a8, 8);
    Nibble(a12, 4);
    Nibble(Sixteenth(a12), 0);
  }

  lemma TopAfterShifts(acc: bv32)
    ensures Odd(Sixteenth(Sixteenth(Sixteenth(Sixteenth(acc))))) == Reducible(acc)
  {}

  lemma TestShift(acc: bv32, bit: bool, k: nat)
    requires acc < 0x10000
    ensures TestBit(Shift(acc, bit), k) == if k == 0 then bit else TestBit(acc, k - 1)
  {
    HalfOfShift(acc, bit);
    hide Half, Odd, Shift;
  }

  lemma RoundRange(acc: bv32, bit: bool)
    requires acc < 0x10000
    ensures Round(acc, bit) < 0x10000
  {}

  lemma RoundBit(acc: bv32, b: bool, k: nat)
    requires acc < 0x10000 && k < 16
    ensures TestBit(Round(acc, b), k) ==
      ((if k == 0 then b else TestBit(acc, k - 1)) != (TestBit(acc, 15) && (k == 0 || k == 5 || k == 12)))
  {
    var shifted := Shift(acc, b);
    hide Reducible, Subtract, Shift, TestBit;
    TestTop(shifted);
    TestShift(acc, b, 16);
    TestShift(acc, b, k);
    TestSubtract(shifted, 0x11021, k);
    DivisorBits(k);
  }

  lemma RoundIsStep(acc: bv32, b: bool)
    requires acc < 0x10000
    ensures Round(acc, b) < 0x10000
    ensures Remainder(Round(acc, b)) == NextRemainder(Remainder(acc), b)
  {
    hide Round, TestBit, Remainder;
    RoundRange(acc, b);
    var r := Remainder(acc);
    forall j | 0 <= j < 16
      ensures Remainder(Round(acc, b))[j] == NextRemainder(r, b)[j]
    {
      RoundBit(acc, b, 15 - j);
      RemainderBit(Round(acc, b), j);
      RemainderBit(acc, 0);
      if j < 15 {
        RemainderBit(acc, j + 1);
      }
    }
  }

  lemma RemainderBit(acc: bv32, j: nat)
    requires j < 16
    ensures Remainder(acc)[j] == TestBit(acc, 15 - j)
  {
    hide TestBit;
  }

  // ---------- the checksum of a byte string

  /** Bit k of a byte, highest first. */
  predicate ByteBit(b: bv8, k: nat)
    requires k < 8
  {
    TestBit(b as bv32, 7 - k)
  }

  function BitsOf(data: seq<bv8>): (n: Bits)
    ensures |n| == 8 * |data|
    ensures forall i :: 0 <= i < 8 * |data| ==> n[i] == ByteBit(data[i / 8], i % 8)
  {
    seq(8 * |data|, i requires 0 <= i < 8 * |data| => ByteBit(data[i / 8], i % 8))
  }

  /** The register after a run of rounds over the bits n. */
  function Feed(n: Bits): bv32 {
    if n == [] then 0 else Round(Feed(n[..|n| - 1]), n[|n| - 1])
  }

  function Dividend(data: seq<bv8>): (n: Bits)
    ensures |n| == 8 * |data| + 16
  {
    BitsOf(data) + Zeros(16)
  }

  function Crc11021(data: seq<bv8>): bv32 {
    Feed(Dividend(data))
  }

  lemma {:induction false} FeedDivides(n: Bits) returns (q: Bits)
    ensures Feed(n) < 0x10000
    ensures IsDivision(Zeros(16) + n, q, Remainder(Feed(n)))
  {
    if n == [] {
      q := [];
      ZeroRemainder();
      assert Zeros(16) + n == Zeros(16);
    } else {
      var last := |n| - 1;
      q := FeedDivides(n[..last]);
      hide Round;
      RoundIsStep(Feed(n[..last]), n[last]);
      DivisionStep(Zeros(16) + n[..last], q, Remainder(Feed(n[..last])), n[last]);
      assert Zeros(16) + n == Zeros(16) + n[..last] + [n[last]];
      q := q + [Remainder(Feed(n[..last]))[0]];
    }
  }

  lemma ZeroRemainder()
    ensures Remainder(0) == Zeros(16)
  {
    forall k: nat | k < 16 ensures !TestBit(0, k) { TestZero(k); }
  }

  lemma {:induction false} TestZero(k: nat)
    ensures !TestBit(0, k)
  {
    if k > 0 {
      TestZero(k - 1);
    }
  }

  /** The checksum is the remainder of the data times x^16. */
  lemma CrcIsRemainder(data: seq<bv8>) returns (q: Bits)
    ensures Crc11021(data) < 0x10000
    ensures IsDivision(Dividend(data), q, Remainder(Crc11021(data)))
  {
    hide Round, Remainder;
    var q' := FeedDivides(Dividend(data));
    DropLeadingZeros(16, Dividend(data), q', Remainder(Feed(Dividend(data))));
    q := q'[16..];
  }

  /** crc_11021 of count bytes from start. */
  method ComputeCrc(packs: array<bv8>, start: nat, count: nat) returns (acc: bv32)
    requires start + count <= packs.Length
    ensures acc == Crc11021(packs[start..start + count])
  {
    hide Round, ByteBit;
    acc := 0;
    ghost var n := Dividend(packs[start..start + count]);
    for i := 0 to count * 8 + 16
      invariant acc == Feed(n[..i])
    {
      var bit := i < count * 8 && ByteBit(packs[start + i / 8], i % 8);
      assert bit == n[i];
      assert n[..i + 1][..i] == n[..i];
      acc := Round(acc, bit);
    }
    assert n[..|n|] == n;
  }

  lemma ExorRemainder(data: seq<bv8>, other: seq<bv8>, sum: seq<bv8>)
    requires |data| == |other| == |sum|
    requires BitsOf(sum) == Exor(BitsOf(data), BitsOf(other))
    ensures Remainder(Crc11021(sum)) == Exor(Remainder(Crc11021(data)), Remainder(Crc11021(other)))
  {
    hide Crc11021, Remainder, ByteBit;
    var q := CrcIsRemainder(data);
    var q' := CrcIsRemainder(other);
    var q'' := CrcIsRemainder(sum);
    assert Dividend(sum) == Exor(Dividend(data), Dividend(other));
    DivisionIsLinear(Dividend(data), q, Remainder(Crc11021(data)), Dividend(other), q', Remainder(Crc11021(other)));
    UniqueDivision(Dividend(sum), q'', Remainder(Crc11021(sum)),
                   Exor(q, q'), Exor(Remainder(Crc11021(data)), Remainder(Crc11021(other))));
  }

  // ---------- bursts

  lemma FirstTrue(x: Bits) returns (f: nat)
    requires exists k :: 0 <= k < |x| && x[k]
    ensures f < |x| && x[f] && forall k :: 0 <= k < f ==> !x[k]
  {
    f := 0;
    while !x[f]
      invariant f < |x| && forall k :: 0 <= k < f ==> !x[k]
      decreases |x| - f
    {
      f := f + 1;
    }
  }

  lemma LastTrue(x: Bits) returns (l: nat)
    requires exists k :: 0 <= k < |x| && x[k]
    ensures l < |x| && x[l] && forall k :: l < k < |x| ==> !x[k]
  {
    l := |x| - 1;
    while !x[l]
      invariant l < |x| && forall k :: l < k < |x| ==> !x[k]
      decreases l
    {
      if l == 0 {
        assert false;
      }
      l := l - 1;
    }
  }

  lemma EndsOfProduct(e: Bits, x: Bits, f: nat, l: nat)
    requires IsDivision(e, x, Zeros(16))
    requires f < |x| && x[f] && forall k :: 0 <= k < f ==> !x[k]
    requires l < |x| && x[l] && forall k :: l < k < |x| ==> !x[k]
    ensures e[f] && e[l + 16]
  {
    assert e[f] == Product(x, f);
    assert e[l + 16] == Product(x, l + 16);
  }

  /** No nonzero multiple of the divisor fits into 16 consecutive coefficients. */
  lemma MultipleIsLong(e: Bits, x: Bits, s: nat)
    requires IsDivision(e, x, Zeros(16))
    requires forall p :: 0 <= p < |e| && e[p] ==> s <= p < s + 16
    ensures forall p :: 0 <= p < |e| ==> !e[p]
  {
    if exists k :: 0 <= k < |x| && x[k] {
      var f := FirstTrue(x);
      var l := LastTrue(x);
      EndsOfProduct(e, x, f, l);
      assert false;
    }
  }

  // ---------- packs

  function LowByte(acc: bv32): (b: bv32)
    ensures b < 0x100
  {
    acc & 0xff
  }

  function HighByte(acc: bv32): (b: bv32)
    ensures b < 0x100
  {
    (acc >> 8) & 0xff
  }

  function Inverted(b: bv32): bv8
    requires b < 0x100
  {
    (b ^ 0xff) as bv8
  }

  /** The two checksum bytes: the bits of the remainder are inverted. */
  function CrcField(data: seq<bv8>): (crc: seq<bv8>)
    ensures |crc| == 2
  {
    var residue := Crc11021(data);
    [Inverted(HighByte(residue)), Inverted(LowByte(residue))]
  }

  predicate PackValid(p: seq<bv8>)
    requires |p| == 18
  {
    p[16..] == CrcField(p[..16])
  }

  lemma InvertedIsSubtract(b: bv32)
    requires b < 0x100
    ensures Inverted(b) as bv32 == Subtract(b, 0xff)
  {}

  lemma {:induction false} AllOnes(k: nat)
    requires k < 8
    ensures TestBit(0xff, k)
  {
    hide TestBit;
    Nibble(0xff, k);
    if k >= 4 {
      Nibble(0xf, k - 4);
    }
  }

  function And(a: bv32, m: bv32): bv32 {
    a & m
  }

  lemma HalfAnd(a: bv32, m: bv32)
    ensures Half(And(a, m)) == And(Half(a), Half(m))
  {}

  lemma OddAnd(a: bv32, m: bv32)
    ensures Odd(And(a, m)) == (Odd(a) && Odd(m))
  {}

  lemma {:induction false} TestAnd(a: bv32, m: bv32, k: nat)
    ensures TestBit(And(a, m), k) == (TestBit(a, k) && TestBit(m, k))
    decreases k
  {
    hide And, Half, Odd;
    if k == 0 {
      OddAnd(a, m);
    } else {
      HalfAnd(a, m);
      TestAnd(Half(a), Half(m), k - 1);
    }
  }

  lemma HighByteIsAnd(acc: bv32)
    ensures HighByte(acc) == And(Sixteenth(Sixteenth(acc)), 0xff)
    ensures LowByte(acc) == And(acc, 0xff)
  {}

  lemma BytesOfResidue(acc: bv32, k: nat)
    requires k < 8
    ensures TestBit(LowByte(acc), k) == TestBit(acc, k)
    ensures TestBit(HighByte(acc), k) == TestBit(acc, k + 8)
  {
    hide And, TestBit, Sixteenth, HighByte, LowByte;
    HighByteIsAnd(acc);
    AllOnes(k);
    TestAnd(acc, 0xff, k);
    TestAnd(Sixteenth(Sixteenth(acc)), 0xff, k);
    Nibble(acc, k + 8);
    Nibble(Sixteenth(acc), k + 4);
  }

  lemma InvertedBit(b: bv32, k: nat)
    requires b < 0x100 && k < 8
    ensures ByteBit(Inverted(b), k) == !TestBit(b, 7 - k)
  {
    InvertedIsSubtract(b);
    hide Inverted, TestBit;
    TestSubtract(b, 0xff, 7 - k);
    AllOnes(7 - k);
  }

  function Not(n: Bits): (m: Bits)
    ensures |m| == |n| && forall i :: 0 <= i < |n| ==> m[i] == !n[i]
  {
    seq(|n|, i requires 0 <= i < |n| => !n[i])
  }

  lemma CrcFieldBits(data: seq<bv8>)
    ensures BitsOf(CrcField(data)) == Not(Remainder(Crc11021(data)))
  {
    var residue := Crc11021(data);
    hide Crc11021, ByteBit, Inverted, HighByte, LowByte, TestBit;
    var field := CrcField(data);
    forall j | 0 <= j < 16
      ensures BitsOf(field)[j] == !Remainder(residue)[j]
    {
      InvertedBit(HighByte(residue), j % 8);
      InvertedBit(LowByte(residue), j % 8);
      BytesOfResidue(residue, 7 - j % 8);
    }
  }

  /** Data bits followed by the true remainder: a multiple of the divisor. */
  function CodeWord(p: seq<bv8>): (n: Bits)
    requires |p| == 18
    ensures |n| == 144
  {
    BitsOf(p[..16]) + Not(BitsOf(p[16..]))
  }

  lemma CodeWordIsMultiple(p: seq<bv8>) returns (q: Bits)
    requires |p| == 18 && PackValid(p)
    ensures IsDivision(CodeWord(p), q, Zeros(16))
  {
    var data := p[..16];
    q := CrcIsRemainder(data);
    CrcFieldBits(data);
    hide Crc11021, ByteBit, CrcField, Remainder;
    var n, w, r := Dividend(data), CodeWord(p), Remainder(Crc11021(data));
    forall i | 0 <= i < 144
      ensures w[i] == (Product(q, i) != Coef(Zeros(16), i - |q|))
    {
      assert n[i] == (Product(q, i) != Coef(r, i - |q|));
      assert i < 128 ==> n[i] == w[i];
      assert i >= 128 ==> !n[i] && w[i] == r[i - 128];
    }
  }

  lemma BitsOfDifferentBytes(p: seq<bv8>, p': seq<bv8>)
    requires |p| == |p'| && BitsOf(p) == BitsOf(p')
    ensures p == p'
  {
    forall i | 0 <= i < |p|
      ensures p[i] == p'[i]
    {
      forall k | 0 <= k < 8
        ensures ByteBit(p[i], k) == ByteBit(p'[i], k)
      {
        assert BitsOf(p)[8 * i + k] == BitsOf(p')[8 * i + k];
      }
      SameBits(p[i], p'[i]);
    }
  }

  lemma SameBits(a: bv8, b: bv8)
    requires forall k :: 0 <= k < 8 ==> ByteBit(a, k) == ByteBit(b, k)
    ensures a == b
  {
    var x, y := a as bv32, b as bv32;
    forall k | 0 <= k < 8
      ensures TestBit(x, k) == TestBit(y, k)
    {
      assert ByteBit(a, 7 - k) == ByteBit(b, 7 - k);
    }
    ByteFits(a);
    ByteFits(b);
    hide ByteBit, Fits, TestBit;
    SameTests(x, y, 8);
  }

  lemma ByteFits(b: bv8)
    ensures Fits(b as bv32, 8)
  {
    var x := b as bv32;
    var x4 := Sixteenth(x);
    assert x4 < 0x10 && Sixteenth(x4) == 0;
    hide Half;
    FitsNibble(x4, 4);
    FitsNibble(x, 8);
  }

  lemma FitsNibble(x: bv32, m: nat)
    requires m >= 4
    ensures Fits(x, m) == Fits(Sixteenth(x), m - 4)
  {
    hide Half;
    assert Fits(x, m) == Fits(Half(x), m - 1);
    assert Fits(Half(x), m - 1) == Fits(Half(Half(x)), m - 2);
    assert Fits(Half(Half(x)), m - 2) == Fits(Half(Half(Half(x))), m - 3);
  }

  lemma TestHalf(x: bv32, k: nat)
    ensures TestBit(x, k + 1) == TestBit(Half(x), k)
    ensures TestBit(x, 0) == Odd(x)
  {}

  lemma {:induction false} SameTests(x: bv32, y: bv32, m: nat)
    requires Fits(x, m) && Fits(y, m)
    requires forall k :: 0 <= k < m ==> TestBit(x, k) == TestBit(y, k)
    ensures x == y
    decreases m
  {
    hide TestBit, Half, Odd;
    if m == 0 {
    } else {
      forall k | 0 <= k < m - 1
        ensures TestBit(Half(x), k) == TestBit(Half(y), k)
      {
        TestHalf(x, k);
        TestHalf(y, k);
      }
      SameTests(Half(x), Half(y), m - 1);
      TestHalf(x, 0);
      TestHalf(y, 0);
      FromHalf(x, y);
    }
  }

  predicate Fits(x: bv32, m: nat)
    decreases m
  {
    if m == 0 then x == 0 else Fits(Half(x), m - 1)
  }

  lemma FromHalf(x: bv32, y: bv32)
    requires Half(x) == Half(y) && Odd(x) == Odd(y)
    ensures x == y
  {}

  /** 16 bits are four nibbles. */
  lemma WordFits(x: bv32)
    requires x < 0x10000
    ensures Fits(x, 16)
  {
    var a := Sixteenth(x);
    var b := Sixteenth(a);
    var c := Sixteenth(b);
    assert c < 0x10 && Sixteenth(c) == 0;
    hide Half, Sixteenth;
    FitsNibble(c, 4);
    FitsNibble(b, 8);
    FitsNibble(a, 12);
    FitsNibble(x, 16);
  }

  lemma SubtractBytes(a: bv8, b: bv8)
    ensures (a ^ b) as bv32 == Subtract(a as bv32, b as bv32)
  {}

  lemma SubtractWords(a: bv32, b: bv32)
    requires a < 0x10000 && b < 0x10000
    ensures Subtract(a, b) < 0x10000 && Subtract(a, b) == a ^ b
  {}

  lemma ExorBit(a: bv8, b: bv8, k: nat)
    requires k < 8
    ensures ByteBit(a ^ b, k) == (ByteBit(a, k) != ByteBit(b, k))
  {
    hide TestBit, Subtract;
    SubtractBytes(a, b);
    TestSubtract(a as bv32, b as bv32, 7 - k);
  }

  /** The checksum is linear: for the exclusive or of two strings it is the exclusive or of their checksums. */
  lemma ExorCrc(data: seq<bv8>, other: seq<bv8>, sum: seq<bv8>)
    requires |data| == |other| == |sum| && forall i :: 0 <= i < |sum| ==> sum[i] == data[i] ^ other[i]
    ensures Crc11021(sum) == Crc11021(data) ^ Crc11021(other)
  {
    hide Crc11021, Remainder, BitsOf;
    ExorBits(data, other, sum);
    ExorRemainder(data, other, sum);
    var _ := CrcIsRemainder(data);
    var _ := CrcIsRemainder(other);
    var _ := CrcIsRemainder(sum);
    CrcsOfExor(Crc11021(data), Crc11021(other), Crc11021(sum));
  }

  lemma ExorBits(data: seq<bv8>, other: seq<bv8>, sum: seq<bv8>)
    requires |data| == |other| == |sum| && forall i :: 0 <= i < |sum| ==> sum[i] == data[i] ^ other[i]
    ensures BitsOf(sum) == Exor(BitsOf(data), BitsOf(other))
  {
    hide ByteBit;
    forall i | 0 <= i < 8 * |sum|
      ensures BitsOf(sum)[i] == (BitsOf(data)[i] != BitsOf(other)[i])
    {
      ExorBit(data[i / 8], other[i / 8], i % 8);
    }
  }

  lemma CrcsOfExor(a: bv32, b: bv32, c: bv32)
    requires a < 0x10000 && b < 0x10000 && c < 0x10000
    requires Remainder(c) == Exor(Remainder(a), Remainder(b))
    ensures c == a ^ b
  {
    hide TestBit, Subtract, Fits;
    SubtractWords(a, b);
    WordFits(c);
    WordFits(Subtract(a, b));
    forall k: nat | k < 16
      ensures TestBit(c, k) == TestBit(Subtract(a, b), k)
    {
      TestSubtract(a, b, k);
      assert Remainder(c)[15 - k] == (Remainder(a)[15 - k] != Remainder(b)[15 - k]);
    }
    SameTests(c, Subtract(a, b), 16);
  }

  /** Any nonzero error within 16 consecutive bits of a valid pack makes it invalid. */
  lemma BurstIsDetected(p: seq<bv8>, p': seq<bv8>, s: nat)
    requires |p| == 18 && |p'| == 18 && PackValid(p) && p != p'
    requires forall i :: 0 <= i < 144 && BitsOf(p)[i] != BitsOf(p')[i] ==> s <= i < s + 16
    ensures !PackValid(p')
  {
    hide ByteBit, PackValid;
    if PackValid(p') {
      var q := CodeWordIsMultiple(p);
      var q' := CodeWordIsMultiple(p');
      DivisionIsLinear(CodeWord(p), q, Zeros(16), CodeWord(p'), q', Zeros(16));
      var e := Exor(CodeWord(p), CodeWord(p'));
      assert Exor(Zeros(16), Zeros(16)) == Zeros(16);
      SplitBits(p);
      SplitBits(p');
      assert forall i :: 0 <= i < 144 ==> e[i] == (BitsOf(p)[i] != BitsOf(p')[i]);
      MultipleIsLong(e, Exor(q, q'), s);
      assert forall i :: 0 <= i < 144 ==> !e[i];
      assert BitsOf(p) == BitsOf(p');
      BitsOfDifferentBytes(p, p');
      assert false;
    }
  }

  lemma SplitBits(p: seq<bv8>)
    requires |p| == 18
    ensures BitsOf(p) == BitsOf(p[..16]) + BitsOf(p[16..])
  {}
}
