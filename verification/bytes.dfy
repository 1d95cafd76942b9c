/** Numbers 0 to 255 as bytes, by their binary digits. */
module Bytes {

  type Digit = d: nat | d < 2

  function Half(n: nat): nat {
    n / 2
  }

  function Lowest(n: nat): Digit {
    n % 2
  }

  function Flag(d: Digit, value: bv8): bv8 {
    if d == 1 then value else 0
  }

  function Assemble(d7: Digit, d6: Digit, d5: Digit, d4: Digit, d3: Digit, d2: Digit, d1: Digit, d0: Digit): bv8 {
    (((Flag(d7, 128) | Flag(d6, 64)) | (Flag(d5, 32) | Flag(d4, 16)))
     | ((Flag(d3, 8) | Flag(d2, 4)) | (Flag(d1, 2) | Flag(d0, 1))))
  }

  /** The byte with the binary digits of n. */
  function ToByte(n: nat): bv8 {
    var n1 := Half(n);
    var n2 := Half(n1);
    var n3 := Half(n2);
    var n4 := Half(n3);
    var n5 := Half(n4);
    var n6 := Half(n5);
    var n7 := Half(n6);
    Assemble(Lowest(n7), Lowest(n6), Lowest(n5), Lowest(n4), Lowest(n3), Lowest(n2), Lowest(n1), Lowest(n))
  }

  function At(b: bv8, m: bv8): Digit {
    if b & m != 0 then 1 else 0
  }

  /** The number with the binary digits of b. */
  function ToNat(b: bv8): (n: nat)
    ensures n < 256
  {
    128 * At(b, 128) + 64 * At(b, 64) + 32 * At(b, 32) + 16 * At(b, 16)
    + 8 * At(b, 8) + 4 * At(b, 4) + 2 * At(b, 2) + At(b, 1)
  }

  lemma Digits(d7: Digit, d6: Digit, d5: Digit, d4: Digit, d3: Digit, d2: Digit, d1: Digit, d0: Digit)
    ensures var b := Assemble(d7, d6, d5, d4, d3, d2, d1, d0);
      && At(b, 128) == d7 && At(b, 64) == d6 && At(b, 32) == d5 && At(b, 16) == d4
      && At(b, 8) == d3 && At(b, 4) == d2 && At(b, 2) == d1 && At(b, 1) == d0
  {}

  lemma Halve(n: nat)
    ensures n == 2 * Half(n) + Lowest(n)
  {}

  lemma RoundTrip(n: nat)
    requires n < 256
    ensures ToNat(ToByte(n)) == n
  {
    hide Assemble, At, Lowest, Half;
    var n1 := Half(n);
    var n2 := Half(n1);
    var n3 := Half(n2);
    var n4 := Half(n3);
    var n5 := Half(n4);
    var n6 := Half(n5);
    var n7 := Half(n6);
    Halve(n);
    Halve(n1);
    Halve(n2);
    Halve(n3);
    Halve(n4);
    Halve(n5);
    Halve(n6);
    Halve(n7);
    Digits(Lowest(n7), Lowest(n6), Lowest(n5), Lowest(n4), Lowest(n3), Lowest(n2), Lowest(n1), Lowest(n));
  }

  lemma Zero()
    ensures ToByte(0) == 0
  {
    ZeroDigits();
    hide Half, Lowest, Assemble;
  }

  lemma ZeroDigits()
    ensures Half(0) == 0 && Lowest(0) == 0 && Assemble(0, 0, 0, 0, 0, 0, 0, 0) == 0
  {}
}
