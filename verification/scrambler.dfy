/** The scrambler of ECMA-130 Annex B in libburn/ecma130ab.c. */
module Scrambler {
  import opened Rspc

  const SCRAMBLED := 2340

  /** The feedback shift register after one output bit. */
  function Step(fsr: bv16): bv16 {
    var shifted := (fsr >> 1) & 0x3fff;
    if (fsr & 1) ^ (shifted & 1) != 0 then shifted | 0x4000 else shifted
  }

  function Register(n: nat): bv16 {
    if n == 0 then 1 else Step(Register(n - 1))
  }

  predicate Out(fsr: bv16) {
    fsr & 1 != 0
  }

  predicate Bit(n: nat) {
    Out(Register(n))
  }

  lemma StepInRange(f: bv16)
    requires 0 < f < 0x8000
    ensures 0 < Step(f) < 0x8000
  {}

  /** The step permutes the nonzero 15-bit states. */
  lemma StepInjective(f: bv16, g: bv16)
    requires f < 0x8000 && g < 0x8000 && Step(f) == Step(g)
    ensures f == g
  {}

  lemma {:induction false} RegisterInRange(n: nat)
    ensures 0 < Register(n) < 0x8000
  {
    if n == 0 {
    } else {
      RegisterInRange(n - 1);
      StepInRange(Register(n - 1));
    }
  }

  // ---------- the output obeys the polynomial x^15 + x + 1

  function Double(t: bv16): bv16 {
    t << 1
  }

  function Mask(k: nat): bv16 {
    if k == 0 then 1 else Double(Mask(k - 1))
  }

  predicate Tap(f: bv16, t: bv16) {
    f & t != 0
  }

  lemma MaskInRange(k: nat)
    requires k <= 14
    ensures Mask(k) == if k == 14 then 0x4000 else Mask(k) & 0x3fff
  {
    assert Mask(4) == 0x10;
    assert Mask(8) == 0x100;
    assert Mask(12) == 0x1000;
  }

  lemma StepShifts(f: bv16)
    requires f < 0x8000
    ensures Step(f) & 0x3fff == f >> 1
  {}

  lemma StepFeedback(f: bv16)
    requires f < 0x8000
    ensures (Step(f) & 0x4000 != 0) == ((f & 1 != 0) != (Step(f) & 1 != 0))
  {}

  lemma ShiftedTap(f: bv16, t: bv16)
    requires f < 0x8000
    ensures f & (t << 1) == ((f >> 1) & t) << 1
    ensures ((f >> 1) & t) << 1 == 0 <==> (f >> 1) & t == 0
  {}

  lemma MaskedTwice(f: bv16, t: bv16)
    requires t == t & 0x3fff
    ensures (f & 0x3fff) & t == f & t
  {}

  lemma TapMoves(f: bv16, t: bv16)
    requires f < 0x8000 && t == t & 0x3fff
    ensures Tap(f, Double(t)) == Tap(Step(f), t)
  {
    StepShifts(f);
    ShiftedTap(f, t);
    MaskedTwice(Step(f), t);
    hide Step;
  }

  lemma TapZero(f: bv16)
    ensures Tap(f, 1) == Out(f)
  {}

  /** Bit k of the register is the output bit of k steps later. */
  lemma {:induction false} RegisterHoldsFuture(n: nat, k: nat)
    requires k <= 14
    ensures Tap(Register(n), Mask(k)) == Bit(n + k)
    decreases k
  {
    hide Tap, Step, Double;
    if k == 0 {
      TapZero(Register(n));
    } else {
      RegisterInRange(n);
      MaskInRange(k - 1);
      TapMoves(Register(n), Mask(k - 1));
      RegisterHoldsFuture(n + 1, k - 1);
    }
  }

  /** The output sequence is the one of the polynomial x^15 + x + 1 with start value 1. */
  lemma OutputRecurrence(n: nat)
    ensures Bit(n + 15) == (Bit(n) != Bit(n + 1))
    ensures n < 15 ==> Bit(n) == (n == 0)
  {
    hide Step, Double;
    RegisterHoldsFuture(n + 1, 14);
    RegisterInRange(n);
    StepFeedback(Register(n));
    MaskInRange(14);
    if n < 15 {
      RegisterHoldsFuture(0, n);
      StartValue(n);
    }
  }

  lemma StartValue(k: nat)
    ensures Tap(1, Mask(k)) == (k == 0)
  {
    if k > 0 {
      assert (Mask(k - 1) << 1) & 1 == 0;
    }
  }

  // ---------- the table of pseudo-random bytes

  function Twice(w: bv8): bv8 {
    w << 1
  }

  function Weight(j: nat): bv8 {
    if j == 0 then 1 else Twice(Weight(j - 1))
  }

  function PutBit(b: bv8, bit: bool, weight: bv8): bv8 {
    b | (if bit then weight else 0)
  }

  /** The output bits n to n+j-1 as a byte, first bit lowest. */
  function Gather(n: nat, j: nat): bv8 {
    if j == 0 then 0 else PutBit(Gather(n, j - 1), Bit(n + j - 1), Weight(j - 1))
  }

  /** Byte i of the table ecma_130_annex_b. */
  function Annex(i: nat): bv8 {
    Gather(8 * i, 8)
  }

  /** The highest bit first. */
  function Octet(b7: bool, b6: bool, b5: bool, b4: bool, b3: bool, b2: bool, b1: bool, b0: bool): bv8 {
    var low := PutBit(PutBit(PutBit(PutBit(0, b0, 1), b1, 2), b2, 4), b3, 8);
    PutBit(PutBit(PutBit(PutBit(low, b4, 16), b5, 32), b6, 64), b7, 128)
  }

  lemma OctetBits(b7: bool, b6: bool, b5: bool, b4: bool, b3: bool, b2: bool, b1: bool, b0: bool)
    ensures var b := Octet(b7, b6, b5, b4, b3, b2, b1, b0);
      && (b & 1 != 0) == b0 && ((b >> 1) & 1 != 0) == b1 && ((b >> 2) & 1 != 0) == b2
      && ((b >> 3) & 1 != 0) == b3 && ((b >> 4) & 1 != 0) == b4 && ((b >> 5) & 1 != 0) == b5
      && ((b >> 6) & 1 != 0) == b6 && ((b >> 7) & 1 != 0) == b7
  {}

  lemma Weights()
    ensures Weight(0) == 1 && Weight(1) == 2 && Weight(2) == 4 && Weight(3) == 8
    ensures Weight(4) == 16 && Weight(5) == 32 && Weight(6) == 64 && Weight(7) == 128
  {
    assert Weight(3) == 8;
  }

  lemma GatherStep(n: nat, j: nat)
    ensures Gather(n, 0) == 0 && Gather(n, j + 1) == PutBit(Gather(n, j), Bit(n + j), Weight(j))
  {}

  lemma GatherIsOctet(n: nat)
    ensures Gather(n, 8)
      == Octet(Bit(n + 7), Bit(n + 6), Bit(n + 5), Bit(n + 4), Bit(n + 3), Bit(n + 2), Bit(n + 1), Bit(n))
  {
    hide Bit, PutBit, Weight, Gather;
    Weights();
    GatherStep(n, 0);
    GatherStep(n, 1);
    GatherStep(n, 2);
    GatherStep(n, 3);
    GatherStep(n, 4);
    GatherStep(n, 5);
    GatherStep(n, 6);
    GatherStep(n, 7);
  }

  /** Output bit 8 * i + j is bit j of table byte i, where bit 0 is the lowest one. */
  lemma TableHoldsBits(i: nat, j: nat)
    requires j < 8
    ensures (Annex(i) >> j) & 1 == if Bit(8 * i + j) then 1 else 0
  {
    hide Bit, Gather, Octet;
    var n := 8 * i;
    GatherIsOctet(n);
    OctetBits(Bit(n + 7), Bit(n + 6), Bit(n + 5), Bit(n + 4), Bit(n + 3), Bit(n + 2), Bit(n + 1), Bit(n));
    ShiftedBit(Annex(i), j);
  }

  lemma ShiftedBit(b: bv8, j: nat)
    requires j < 8
    ensures (b >> j) & 1 == 0 || (b >> j) & 1 == 1
  {}

  class Generator {
    var fsr: bv16

    constructor ()
      ensures fsr == Register(0)
    {
      fsr := 1;
    }

    method NextBit() returns (ret: bool)
      modifies this
      ensures ret == Out(old(fsr)) && fsr == Step(old(fsr))
    {
      ret := fsr & 1 != 0;
      fsr := (fsr >> 1) & 0x3fff;
      if ret != (fsr & 1 != 0) {
        fsr := fsr | 0x4000;
      }
    }

    method MakeByte(ghost n: nat) returns (b: bv8)
      requires fsr == Register(n)
      modifies this
      ensures fsr == Register(n + 8) && b == Gather(n, 8)
    {
      hide Step, Out, PutBit, Twice;
      b := 0;
      var weight: bv8 := 1;
      for j := 0 to 8
        invariant fsr == Register(n + j)
        invariant b == Gather(n, j) && weight == Weight(j)
      {
        var bit := NextBit();
        b := PutBit(b, bit, weight);
        weight := Twice(weight);
      }
    }

    method MakeTable() returns (table: seq<bv8>)
      requires fsr == Register(0)
      modifies this
      ensures |table| == 2340 && forall i :: 0 <= i < 2340 ==> table[i] == Annex(i)
    {
      hide Gather, Register;
      table := [];
      for i := 0 to SCRAMBLED
        invariant fsr == Register(8 * i)
        invariant |table| == i && forall k :: 0 <= k < i ==> table[k] == Annex(k)
      {
        var b := MakeByte(8 * i);
        table := table + [b];
      }
    }
  }

  // ---------- scrambling

  function Scrambled(s: Sector): (r: Sector) {
    s[..12] + seq(SCRAMBLED, i requires 0 <= i < SCRAMBLED => s[12 + i] ^ Annex(i))
  }

  method Scramble(table: seq<bv8>, sector: array<bv8>)
    requires sector.Length == SECTOR
    requires |table| == SCRAMBLED && forall i :: 0 <= i < SCRAMBLED ==> table[i] == Annex(i)
    modifies sector
    ensures sector[..] == Scrambled(old(sector[..]))
  {
    hide Annex;
    for i := 0 to SCRAMBLED
      invariant forall k :: 0 <= k < 12 + i ==> sector[k] == Scrambled(old(sector[..]))[k]
      invariant forall k :: 12 + i <= k < SECTOR ==> sector[k] == old(sector[k])
    {
      sector[12 + i] := sector[12 + i] ^ table[i];
    }
  }

  lemma ExorTwice(b: bv8, c: bv8)
    ensures (b ^ c) ^ c == b
  {}

  /** Scrambling a second time restores the sector. */
  lemma ScrambledTwice(s: Sector)
    ensures Scrambled(Scrambled(s)) == s
  {
    hide Annex;
    var once := Scrambled(s);
    forall k | 12 <= k < SECTOR
      ensures Scrambled(once)[k] == s[k]
    {
      assert once[k] == s[k] ^ Annex(k - 12);
      ExorTwice(s[k], Annex(k - 12));
    }
  }

  /** Scrambling flips bit j of byte 12 + i exactly if output bit 8 * i + j is set. The first 12 bytes stay. */
  lemma ScramblingFlipsBits(s: Sector, i: nat, j: nat)
    requires i < SCRAMBLED && j < 8
    ensures ((Scrambled(s)[12 + i] ^ s[12 + i]) >> j) & 1 == if Bit(8 * i + j) then 1 else 0
    ensures Scrambled(s)[..12] == s[..12]
  {
    hide Annex, Bit;
    TableHoldsBits(i, j);
    ExorBack(s[12 + i], Annex(i));
  }

  lemma ExorBack(b: bv8, c: bv8)
    ensures (b ^ c) ^ b == c
  {}

  /** The first bytes of the table. */
  lemma TableBegins()
    ensures Annex(0) == 1 && Annex(1) == 128 && Annex(2) == 0 && Annex(3) == 96
  {
    hide Bit, Octet, Gather;
    forall n: nat | n < 32
      ensures Bit(n) == (n == 0 || n == 15 || n == 29 || n == 30)
    {
      FirstBits(n);
    }
    GatherIsOctet(0);
    GatherIsOctet(8);
    GatherIsOctet(16);
    GatherIsOctet(24);
    FirstOctets();
  }

  lemma {:induction false} FirstBits(n: nat)
    requires n < 32
    ensures Bit(n) == (n == 0 || n == 15 || n == 29 || n == 30)
  {
    hide Bit;
    if n < 15 {
      OutputRecurrence(n);
    } else {
      OutputRecurrence(n - 15);
      FirstBits(n - 15);
      FirstBits(n - 14);
    }
  }

  lemma FirstOctets()
    ensures Octet(false, false, false, false, false, false, false, true) == 1
    ensures Octet(true, false, false, false, false, false, false, false) == 128
    ensures Octet(false, false, false, false, false, false, false, false) == 0
    ensures Octet(false, true, true, false, false, false, false, false) == 96
  {}
}
