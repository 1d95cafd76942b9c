/** Table arithmetic and RSPC parity of libburn/ecma130ab.c. */
module Rspc {
  import opened Gf
  import opened ParityCode

  // ---------- power and logarithm tables

  datatype Tables = Tables(gfpow: seq<bv8>, gflog: seq<nat>)

  /** gfpow unrolled to 509 elements, gflog its inverse. */
  ghost predicate IsTables(t: Tables) {
    && |t.gfpow| == 509 && |t.gflog| == 256
    && (forall l :: 0 <= l < 509 ==> t.gfpow[l] == Pow(l))
    && (forall l :: 0 <= l < 255 ==> t.gflog[Pow(l) as int] == l)
  }

  /** One round of the generator loop: b << 1, reduced by 0x11d. */
  function ShiftReduce(b: bv32): bv32 {
    if (b << 1) & 256 != 0 then (b << 1) ^ 0x11d else b << 1
  }

  function Widen(v: bv8): bv32 {
    v as bv32
  }

  /** The cast to unsigned char. */
  function Narrow(b: bv32): bv8 {
    (b & 0xff) as bv8
  }

  lemma NextPower(b: bv32, l: nat)
    requires b == Widen(Pow(l))
    ensures Narrow(b) == Pow(l) && ShiftReduce(b) == Widen(Pow(l + 1))
  {
    var v := Pow(l);
    PowStep(l);
    hide Pow;
    ShiftReduceIsXtime(v);
  }

  lemma ShiftReduceIsXtime(v: bv8)
    ensures ShiftReduce(Widen(v)) == Widen(Xtime(v))
  {}

  lemma FirstPower()
    ensures Widen(Pow(0)) == 1
  {}

  lemma FreshPower(l: nat)
    requires l < 255
    ensures forall i :: 0 <= i < l ==> Pow(i) as int != Pow(l) as int
  {
    forall i | 0 <= i < l
      ensures Pow(i) as int != Pow(l) as int
    {
      PowInjective(i, l);
    }
  }

  /** The loop which produced the content of the tables. */
  method SetupTables(gfpow: array<bv8>, gflog: array<nat>)
    requires gfpow.Length == 255 && gflog.Length == 256
    modifies gfpow, gflog
    ensures forall l :: 0 <= l < 255 ==> gfpow[l] == Pow(l) && gflog[Pow(l) as int] == l
  {
    hide Pow, ShiftReduce, Widen, Narrow;
    var b: bv32 := 1;
    FirstPower();
    for l := 0 to 255
      invariant b == Widen(Pow(l))
      invariant forall i :: 0 <= i < l ==> gfpow[i] == Pow(i) && gflog[Pow(i) as int] == i
    {
      NextPower(b, l);
      FreshPower(l);
      gfpow[l] := Narrow(b);
      gflog[Narrow(b) as int] := l;
      b := ShiftReduce(b);
    }
  }

  /** The static tables: gfpow is unrolled to save one modulo operation. */
  function Unroll(gfpow: seq<bv8>, gflog: seq<nat>): Tables
    requires |gfpow| == 255
  {
    Tables(gfpow + gfpow[..254], gflog)
  }

  lemma UnrollIsTables(gfpow: seq<bv8>, gflog: seq<nat>)
    requires |gfpow| == 255 && |gflog| == 256
    requires forall l :: 0 <= l < 255 ==> gfpow[l] == Pow(l) && gflog[Pow(l) as int] == l
    ensures IsTables(Unroll(gfpow, gflog))
  {
    forall l | 255 <= l < 509
      ensures (gfpow + gfpow[..254])[l] == Pow(l)
    {
      PowPeriod(l - 255);
    }
  }

  function Mult(t: Tables, a: bv8, b: bv8): (r: bv8)
    requires IsTables(t)
    ensures r == Mul(a, b)
  {
    if a == 0 || b == 0 then
      MulZero(a);
      MulZero(b);
      0
    else
      MulNonzero(a, b);
      t.gfpow[t.gflog[a as int] + t.gflog[b as int]]
  }

  /** Division by the polynomial x + 1. */
  function Div3(t: Tables, a: bv8): (r: bv8)
    requires IsTables(t)
    ensures Mul(3, r) == a
  {
    if a == 0 then
      MulZero(3);
      0
    else
      Div3Proof(a);
      t.gfpow[230 + t.gflog[a as int]]
  }

  lemma Div3Proof(a: bv8)
    requires a != 0
    ensures Mul(3, Pow(230 + Log(a))) == a
  {
    hide Pow, Mul;
    PowValues();
    PowAdd(25, 230 + Log(a));
    PowPeriod(Log(a));
  }

  // ---------- layout of the sector

  const SECTOR := 2352

  type Sector = s: seq<bv8> | |s| == SECTOR witness seq(SECTOR, _ => 0)

  /** Byte address of element i of P column c. plane 0 is LSB, 1 is MSB. */
  function PAddress(c: nat, plane: nat, i: nat): nat {
    12 + 2 * c + plane + 86 * i
  }

  /** Position of word i of diagonal d, relative to byte 12. */
  function WalkIndex(d: nat, i: nat): (idx: nat)
    ensures idx < 2236
  {
    (86 * d + 88 * i) % 2236
  }

  /** Byte address of element i of Q diagonal d. Elements 43 and 44 are the parity bytes. */
  function QAddress(d: nat, plane: nat, i: nat): nat {
    if i < 43 then 12 + WalkIndex(d, i) + plane else 2248 + 2 * d + 52 * (i - 43) + plane
  }

  function PColumn(s: Sector, c: nat, plane: nat): (v: seq<bv8>)
    requires c < 43 && plane < 2
    ensures |v| == 26
  {
    seq(26, i requires 0 <= i < 26 => s[PAddress(c, plane, i)])
  }

  function QDiagonal(s: Sector, d: nat, plane: nat): (v: seq<bv8>)
    requires d < 26 && plane < 2
    ensures |v| == 45
  {
    seq(45, i requires 0 <= i < 45 => s[QAddress(d, plane, i)])
  }

  ghost predicate PColumnOk(s: Sector, c: nat)
    requires c < 43
  {
    Checks(PColumn(s, c, 0)) && Checks(PColumn(s, c, 1))
  }

  ghost predicate QDiagonalOk(s: Sector, d: nat)
    requires d < 26
  {
    Checks(QDiagonal(s, d, 0)) && Checks(QDiagonal(s, d, 1))
  }

  /** H x V = (0,0) for all columns and both planes. */
  ghost predicate PChecked(s: Sector) {
    forall c: nat :: c < 43 ==> PColumnOk(s, c)
  }

  ghost predicate QChecked(s: Sector) {
    forall d: nat :: d < 26 ==> QDiagonalOk(s, d)
  }

  // ---------- the parity equations

  /** b0 = (2 * SUM(payload) - H x payload) / 3 and b1 = SUM(payload) - b0 solve H x V = (0,0). */
  lemma ParityEquations(v: seq<bv8>, n: nat, b0: bv8, b1: bv8)
    requires |v| + 2 == n
    requires Mul(3, b0) == Add(Mul(2, Sum(v)), Dot(v, n))
    requires b1 == Add(Sum(v), b0)
    ensures Checks(v + [b1, b0])
  {
    Append(v, b1, n);
    Append(v + [b1], b0, n);
    assert v + [b1, b0] == v + [b1] + [b0];
    assert Pow(0) == 1 && Pow(1) == 2;
    hide Add, Mul, Pow, Sum, Dot;
    var s, x := Sum(v), Dot(v, n);
    SolveSum(s, b0);
    MulByTwo(b1);
    MulByTwo(b0);
    SolveDot(s, x, b0);
  }

  lemma SolveSum(s: bv8, b0: bv8)
    ensures Add(Add(s, Add(s, b0)), b0) == 0
  {
    assert (s ^ (s ^ b0)) ^ b0 == 0;
  }

  lemma MulByTwo(b: bv8)
    ensures Mul(b, 2) == Mul(2, b) && Mul(b, 1) == b
  {
    MulComm(b, 2);
    MulComm(b, 1);
    MulOne(b);
  }

  lemma SolveDot(s: bv8, x: bv8, b0: bv8)
    requires Mul(3, b0) == Add(Mul(2, s), x)
    ensures Add(Add(x, Mul(2, Add(s, b0))), b0) == 0
  {
    hide Mul;
    assert Add(2, 1) == 3;
    MulAddRight(2, s, b0);
    MulAddLeft(2, 1, b0);
    MulOne(b0);
    Cancellation(x, Mul(2, s), Mul(2, b0), b0);
  }

  lemma Cancellation(x: bv8, p: bv8, q: bv8, b0: bv8)
    requires Add(q, b0) == Add(p, x)
    ensures Add(Add(x, Add(p, q)), b0) == 0
  {
    assert (x ^ (p ^ q)) ^ b0 == (q ^ b0) ^ (p ^ x);
  }

  // ---------- P parity

  lemma Extend(v: seq<bv8>, i: nat, n: nat)
    requires i < |v| <= n
    ensures Sum(v[..i + 1]) == Add(Sum(v[..i]), v[i])
    ensures Dot(v[..i + 1], n) == Add(Dot(v[..i], n), Mul(v[i], Pow(n - 1 - i)))
  {
    assert v[..i + 1] == v[..i] + [v[i]];
    Append(v[..i], v[i], n);
  }

  /** The two parity bytes from SUM(payload) and H x payload. */
  function ParityPair(t: Tables, sum: bv8, hxv: bv8): (p: (bv8, bv8))
    requires IsTables(t)
    ensures Mul(3, p.0) == Add(Mul(2, sum), hxv) && p.1 == Add(sum, p.0)
  {
    var p0 := Div3(t, Add(Mult(t, 2, sum), hxv));
    (p0, Add(sum, p0))
  }

  method P0P1(t: Tables, sector: array<bv8>, col: nat)
    returns (p0Lsb: bv8, p0Msb: bv8, p1Lsb: bv8, p1Msb: bv8)
    requires IsTables(t) && sector.Length == SECTOR && col < 43
    ensures Checks(PColumn(sector[..], col, 0)[..24] + [p1Lsb, p0Lsb])
    ensures Checks(PColumn(sector[..], col, 1)[..24] + [p1Msb, p0Msb])
  {
    hide Add, Mul, Pow, Sum, Dot;
    ghost var lsb, msb := PColumn(sector[..], col, 0), PColumn(sector[..], col, 1);
    var sumLsb: bv8, sumMsb: bv8, hxvLsb: bv8, hxvMsb: bv8 := 0, 0, 0, 0;
    var start := 12 + 2 * col;
    EmptySums(lsb, 26);
    EmptySums(msb, 26);
    for i := 0 to 24
      invariant start == 12 + 2 * col + 86 * i
      invariant sumLsb == Sum(lsb[..i]) && hxvLsb == Dot(lsb[..i], 26)
      invariant sumMsb == Sum(msb[..i]) && hxvMsb == Dot(msb[..i], 26)
    {
      Extend(lsb, i, 26);
      Extend(msb, i, 26);
      var b := sector[start];
      sumLsb := Add(sumLsb, b);
      hxvLsb := Add(hxvLsb, Mult(t, b, t.gfpow[25 - i]));
      b := sector[start + 1];
      sumMsb := Add(sumMsb, b);
      hxvMsb := Add(hxvMsb, Mult(t, b, t.gfpow[25 - i]));
      start := start + 86;
    }
    var lsbPair, msbPair := ParityPair(t, sumLsb, hxvLsb), ParityPair(t, sumMsb, hxvMsb);
    ParityEquations(lsb[..24], 26, lsbPair.0, lsbPair.1);
    ParityEquations(msb[..24], 26, msbPair.0, msbPair.1);
    return lsbPair.0, msbPair.0, lsbPair.1, msbPair.1;
  }

  lemma EmptySums(v: seq<bv8>, n: nat)
    ensures Sum(v[..0]) == 0 && Dot(v[..0], n) == 0
  {}

  /** The column with its two last elements stored. */
  lemma PColumnStored(before: Sector, after: Sector, c: nat, plane: nat, p1: bv8, p0: bv8)
    requires c < 43 && plane < 2
    requires forall i :: 0 <= i < 24 ==> after[PAddress(c, plane, i)] == before[PAddress(c, plane, i)]
    requires after[PAddress(c, plane, 24)] == p1 && after[PAddress(c, plane, 25)] == p0
    ensures PColumn(after, c, plane) == PColumn(before, c, plane)[..24] + [p1, p0]
  {}

  lemma PColumnKept(before: Sector, after: Sector, c: nat)
    requires c < 43 && PColumnOk(before, c)
    requires forall plane: nat, i: nat :: plane < 2 && i < 26 ==>
      after[PAddress(c, plane, i)] == before[PAddress(c, plane, i)]
    ensures PColumnOk(after, c)
  {
    assert PColumn(after, c, 0) == PColumn(before, c, 0);
    assert PColumn(after, c, 1) == PColumn(before, c, 1);
  }

  method ParityP(t: Tables, sector: array<bv8>)
    requires IsTables(t) && sector.Length == SECTOR
    modifies sector
    ensures PChecked(sector[..])
    ensures sector[..2076] == old(sector[..2076]) && sector[2248..] == old(sector[2248..])
  {
    hide Checks, IsTables;
    for i := 0 to 43
      invariant forall c: nat :: c < i ==> PColumnOk(sector[..], c)
      invariant forall k :: 0 <= k < 2076 || 2248 <= k < SECTOR ==> sector[k] == old(sector[k])
    {
      ghost var before := sector[..];
      var p0Lsb, p0Msb, p1Lsb, p1Msb := P0P1(t, sector, i);
      sector[2162 + 2 * i] := p0Lsb;
      sector[2162 + 2 * i + 1] := p0Msb;
      sector[2076 + 2 * i] := p1Lsb;
      sector[2076 + 2 * i + 1] := p1Msb;
      ghost var after := sector[..];
      PColumnStored(before, after, i, 0, p1Lsb, p0Lsb);
      PColumnStored(before, after, i, 1, p1Msb, p0Msb);
      forall c: nat | c < i
        ensures PColumnOk(after, c)
      {
        PColumnKept(before, after, c);
      }
    }
  }

  // ---------- Q parity

  lemma WalkStart(d: nat)
    requires d < 26
    ensures 86 * d == WalkIndex(d, 0)
  {}

  lemma WalkStep(d: nat, i: nat)
    ensures WalkIndex(d, i) + 88 == WalkIndex(d, i + 1) || WalkIndex(d, i) + 88 == WalkIndex(d, i + 1) + 2236
  {
    assert 86 * d + 88 * (i + 1) == 86 * d + 88 * i + 88;
  }

  method Q0Q1(t: Tables, sector: array<bv8>, diag: nat)
    returns (q0Lsb: bv8, q0Msb: bv8, q1Lsb: bv8, q1Msb: bv8)
    requires IsTables(t) && sector.Length == SECTOR && diag < 26
    ensures Checks(QDiagonal(sector[..], diag, 0)[..43] + [q1Lsb, q0Lsb])
    ensures Checks(QDiagonal(sector[..], diag, 1)[..43] + [q1Msb, q0Msb])
  {
    hide Add, Mul, Pow, Sum, Dot, WalkIndex;
    WalkStart(diag);
    ghost var lsb, msb := QDiagonal(sector[..], diag, 0), QDiagonal(sector[..], diag, 1);
    var sumLsb: bv8, sumMsb: bv8, hxvLsb: bv8, hxvMsb: bv8 := 0, 0, 0, 0;
    var idx := 2 * 43 * diag;
    EmptySums(lsb, 45);
    EmptySums(msb, 45);
    for i := 0 to 43
      invariant idx == WalkIndex(diag, i) || idx == WalkIndex(diag, i) + 2236
      invariant sumLsb == Sum(lsb[..i]) && hxvLsb == Dot(lsb[..i], 45)
      invariant sumMsb == Sum(msb[..i]) && hxvMsb == Dot(msb[..i], 45)
    {
      if idx >= 2236 {
        idx := idx - 2236;
      }
      WalkStep(diag, i);
      Extend(lsb, i, 45);
      Extend(msb, i, 45);
      var b := sector[12 + idx];
      sumLsb := Add(sumLsb, b);
      hxvLsb := Add(hxvLsb, Mult(t, b, t.gfpow[44 - i]));
      b := sector[12 + idx + 1];
      sumMsb := Add(sumMsb, b);
      hxvMsb := Add(hxvMsb, Mult(t, b, t.gfpow[44 - i]));
      idx := idx + 88;
    }
    var lsbPair, msbPair := ParityPair(t, sumLsb, hxvLsb), ParityPair(t, sumMsb, hxvMsb);
    ParityEquations(lsb[..43], 45, lsbPair.0, lsbPair.1);
    ParityEquations(msb[..43], 45, msbPair.0, msbPair.1);
    return lsbPair.0, msbPair.0, lsbPair.1, msbPair.1;
  }

  lemma QDiagonalStored(before: Sector, after: Sector, d: nat, plane: nat, q1: bv8, q0: bv8)
    requires d < 26 && plane < 2
    requires forall k :: 0 <= k < 2248 ==> after[k] == before[k]
    requires after[QAddress(d, plane, 43)] == q1 && after[QAddress(d, plane, 44)] == q0
    ensures QDiagonal(after, d, plane) == QDiagonal(before, d, plane)[..43] + [q1, q0]
  {
    QWordInRange(d);
  }

  lemma QWordInRange(d: nat)
    requires d < 26
    ensures forall i :: 0 <= i < 43 ==> QAddress(d, 0, i) % 2 == 0 && 12 <= QAddress(d, 0, i) <= 2246
    ensures forall i :: 0 <= i < 43 ==> QAddress(d, 1, i) == QAddress(d, 0, i) + 1
  {
    hide QAddress;
    forall i | 0 <= i < 43
      ensures QAddress(d, 0, i) % 2 == 0 && 12 <= QAddress(d, 0, i) <= 2246
      ensures QAddress(d, 1, i) == QAddress(d, 0, i) + 1
    {
      QAddressInRange(d, 0, i);
      QAddressInRange(d, 1, i);
    }
  }

  lemma QDiagonalKept(before: Sector, after: Sector, d: nat)
    requires d < 26 && QDiagonalOk(before, d)
    requires forall plane: nat, i: nat :: plane < 2 && i < 45 ==>
      after[QAddress(d, plane, i)] == before[QAddress(d, plane, i)]
    ensures QDiagonalOk(after, d)
  {
    assert QDiagonal(after, d, 0) == QDiagonal(before, d, 0);
    assert QDiagonal(after, d, 1) == QDiagonal(before, d, 1);
  }

  method ParityQ(t: Tables, sector: array<bv8>)
    requires IsTables(t) && sector.Length == SECTOR
    modifies sector
    ensures QChecked(sector[..])
    ensures sector[..2248] == old(sector[..2248])
  {
    hide Checks, IsTables;
    for i := 0 to 26
      invariant forall d: nat :: d < i ==> QDiagonalOk(sector[..], d)
      invariant forall k :: 0 <= k < 2248 ==> sector[k] == old(sector[k])
    {
      ghost var before := sector[..];
      var q0Lsb, q0Msb, q1Lsb, q1Msb := Q0Q1(t, sector, i);
      sector[2300 + 2 * i] := q0Lsb;
      sector[2300 + 2 * i + 1] := q0Msb;
      sector[2248 + 2 * i] := q1Lsb;
      sector[2248 + 2 * i + 1] := q1Msb;
      ghost var after := sector[..];
      QDiagonalStored(before, after, i, 0, q1Lsb, q0Lsb);
      QDiagonalStored(before, after, i, 1, q1Msb, q0Msb);
      forall d: nat | d < i
        ensures QDiagonalOk(after, d)
      {
        QDiagonalKept(before, after, d);
      }
    }
  }

  /** A data sector gets its P parity and then its Q parity, which covers the P parity. */
  method AddParity(t: Tables, sector: array<bv8>)
    requires IsTables(t) && sector.Length == SECTOR
    modifies sector
    ensures PChecked(sector[..]) && QChecked(sector[..])
    ensures sector[..2076] == old(sector[..2076])
  {
    ParityP(t, sector);
    ghost var before := sector[..];
    ParityQ(t, sector);
    ghost var after := sector[..];
    assert before[..2248] == after[..2248];
    assert after[..2076] == after[..2248][..2076];
    forall c: nat | c < 43
      ensures PColumnOk(after, c)
    {
      assert forall plane: nat, i: nat :: plane < 2 && i < 26 ==>
        after[PAddress(c, plane, i)] == after[..2248][PAddress(c, plane, i)];
      PColumnKept(before, after, c);
    }
  }

  // ---------- the diagonals as a permutation of the sector

  /** The diagonal through a matrix word, row and column counted from 0. */
  function Diagonal(row: nat, col: nat): nat
    requires col < 43
  {
    (row + 52 - col) % 26
  }

  /** The diagonal, plane and element which cover address a. */
  function QPlace(a: nat): (nat, nat, nat)
    requires 12 <= a < SECTOR
  {
    if a < 2248 then
      var word := (a - 12) / 2;
      (Diagonal(word / 43, word % 43), a % 2, word % 43)
    else
      ((a - 2248) % 52 / 2, a % 2, 43 + (a - 2248) / 52)
  }

  lemma QAddressInRange(d: nat, plane: nat, i: nat)
    requires d < 26 && plane < 2 && i < 45
    ensures 12 <= QAddress(d, plane, i) < SECTOR
    ensures i < 43 ==> QAddress(d, plane, i) == 12 + 2 * (43 * ((d + i) % 26) + i) + plane < 2248
    ensures i >= 43 ==> QAddress(d, plane, i) >= 2248
  {
    var q, r := (d + i) / 26, (d + i) % 26;
    assert 86 * d + 88 * i == 2236 * q + (86 * r + 2 * i);
    if i < 43 {
      assert (2236 * q + (86 * r + 2 * i)) % 2236 == 86 * r + 2 * i;
    }
  }

  lemma WordPlace(row: nat, col: nat, plane: nat)
    requires row < 26 && col < 43 && plane < 2
    ensures var a := 12 + 2 * (43 * row + col) + plane;
      12 <= a < 2248 && (a - 12) / 2 == 43 * row + col && a % 2 == plane
    ensures (43 * row + col) / 43 == row && (43 * row + col) % 43 == col
  {}

  lemma DiagonalOfStep(d: nat, i: nat)
    requires d < 26 && i < 43
    ensures Diagonal((d + i) % 26, i) == d
  {
    var q := (d + i) / 26;
    assert (d + i) % 26 + 52 - i == d + 26 * (2 - q);
  }

  lemma StepOfDiagonal(row: nat, col: nat)
    requires row < 26 && col < 43
    ensures (Diagonal(row, col) + col) % 26 == row
  {
    var q := (row + 52 - col) / 26;
    assert Diagonal(row, col) + col == row + 26 * (2 - q);
  }

  /** Each element of each diagonal sits at a byte of its own ... */
  lemma QPlaceOfAddress(d: nat, plane: nat, i: nat)
    requires d < 26 && plane < 2 && i < 45
    ensures 12 <= QAddress(d, plane, i) < SECTOR
    ensures QPlace(QAddress(d, plane, i)) == (d, plane, i)
  {
    hide WalkIndex, Diagonal;
    QAddressInRange(d, plane, i);
    if i < 43 {
      WordPlace((d + i) % 26, i, plane);
      DiagonalOfStep(d, i);
    }
  }

  /** ... and each byte from 12 to 2351 is an element of a diagonal. */
  lemma QAddressOfPlace(a: nat)
    requires 12 <= a < SECTOR
    ensures var (d, plane, i) := QPlace(a); d < 26 && plane < 2 && i < 45 && QAddress(d, plane, i) == a
  {
    hide WalkIndex, Diagonal;
    if a < 2248 {
      var row, col := (a - 12) / 2 / 43, (a - 12) / 2 % 43;
      AddressOfWord(a);
      StepOfDiagonal(row, col);
      QAddressInRange(Diagonal(row, col), a % 2, col);
    } else {
      AddressOfParity(a);
    }
  }

  lemma AddressOfWord(a: nat)
    requires 12 <= a < 2248
    ensures var row, col := (a - 12) / 2 / 43, (a - 12) / 2 % 43;
      row < 26 && a == 12 + 2 * (43 * row + col) + a % 2 && Diagonal(row, col) < 26
  {}

  lemma AddressOfParity(a: nat)
    requires 2248 <= a < SECTOR
    ensures var d, k := (a - 2248) % 52 / 2, (a - 2248) / 52;
      d < 26 && k < 2 && a == 2248 + 2 * d + 52 * k + a % 2
  {
    var r := (a - 2248) % 52;
    assert a == 2248 + 52 * ((a - 2248) / 52) + r;
    assert r % 2 == a % 2;
  }

  // ---------- the layout in words of two bytes, word 0 begins at byte 12

  /** Columns run through each 43th word from their number on. */
  lemma ColumnWords(s: Sector, c: nat, plane: nat, i: nat)
    requires c < 43 && plane < 2 && i < 26
    ensures PColumn(s, c, plane)[i] == s[12 + 2 * (43 * i + c) + plane]
  {}

  lemma WalkWords(d: nat, i: nat)
    ensures WalkIndex(d, i) == 2 * ((44 * i + 43 * d) % 1118)
  {
    var q, r := (44 * i + 43 * d) / 1118, (44 * i + 43 * d) % 1118;
    assert 86 * d + 88 * i == 2236 * q + 2 * r;
    assert (2236 * q + 2 * r) % 2236 == 2 * r;
  }

  /** Diagonals run through each 44th word modulo 1118, from a multiple of 43 on. Their parity words come last. */
  lemma DiagonalWords(s: Sector, d: nat, plane: nat, i: nat)
    requires d < 26 && plane < 2 && i < 45
    ensures var word := if i < 43 then (44 * i + 43 * d) % 1118 else if i == 43 then 1118 + d else 1144 + d;
      word < 1170 && QDiagonal(s, d, plane)[i] == s[12 + 2 * word + plane]
  {
    hide WalkIndex;
    WalkWords(d, i);
  }
}
