/** What the parity bytes of a sector are good for. */
module RspcDistance {
  import opened Gf
  import opened ParityCode
  import opened Rspc

  ghost predicate Checked(s: Sector) {
    PChecked(s) && QChecked(s)
  }

  /** The covered addresses where two sectors differ. */
  ghost function Differences(s: Sector, t: Sector): set<nat> {
    set a: nat | 12 <= a < SECTOR && s[a] != t[a]
  }

  lemma PColumnsOk(s: Sector, c: nat, plane: nat)
    requires Checked(s) && c < 43 && plane < 2
    ensures Checks(PColumn(s, c, plane))
  {
    assert PColumnOk(s, c);
    assert plane == 0 || plane == 1;
  }

  lemma QDiagonalsOk(s: Sector, d: nat, plane: nat)
    requires Checked(s) && d < 26 && plane < 2
    ensures Checks(QDiagonal(s, d, plane))
  {
    assert QDiagonalOk(s, d);
    assert plane == 0 || plane == 1;
  }

  /** A difference spreads over at least three elements of its diagonal. */
  lemma DiagonalDifferences(s: Sector, t: Sector, d: nat, plane: nat, i: nat) returns (j: nat, k: nat, l: nat)
    requires Checked(s) && Checked(t) && d < 26 && plane < 2 && i < 45
    requires QAddress(d, plane, i) in Differences(s, t)
    ensures j < 45 && k < 45 && l < 45 && j != k && j != l && k != l
    ensures QAddress(d, plane, j) in Differences(s, t)
    ensures QAddress(d, plane, k) in Differences(s, t)
    ensures QAddress(d, plane, l) in Differences(s, t)
  {
    hide Checks, Checked;
    var v, w := QDiagonal(s, d, plane), QDiagonal(t, d, plane);
    QDiagonalsOk(s, d, plane);
    QDiagonalsOk(t, d, plane);
    assert v[i] != w[i];
    j, k, l := DifferInThree(v, w);
    QAddressInRange(d, plane, j);
    QAddressInRange(d, plane, k);
    QAddressInRange(d, plane, l);
  }

  /** A difference in the P rows spreads over at least three rows of its column. */
  lemma ColumnDifferences(s: Sector, t: Sector, c: nat, plane: nat, i: nat) returns (j: nat, k: nat, l: nat)
    requires Checked(s) && Checked(t) && c < 43 && plane < 2 && i < 26
    requires PAddress(c, plane, i) in Differences(s, t)
    ensures j < 26 && k < 26 && l < 26 && j != k && j != l && k != l
    ensures PAddress(c, plane, j) in Differences(s, t)
    ensures PAddress(c, plane, k) in Differences(s, t)
    ensures PAddress(c, plane, l) in Differences(s, t)
  {
    hide Checks, Checked;
    var v, w := PColumn(s, c, plane), PColumn(t, c, plane);
    PColumnsOk(s, c, plane);
    PColumnsOk(t, c, plane);
    assert v[i] != w[i];
    j, k, l := DifferInThree(v, w);
  }

  /** The same byte as element of a column and as element of a diagonal. */
  lemma Crossing(row: nat, col: nat, plane: nat)
    requires row < 26 && col < 43 && plane < 2
    ensures PAddress(col, plane, row) == QAddress(Diagonal(row, col), plane, col)
    ensures Diagonal(row, col) < 26
  {
    StepOfDiagonal(row, col);
    QAddressInRange(Diagonal(row, col), plane, col);
  }

  lemma RowsOnDistinctDiagonals(row: nat, other: nat, col: nat)
    requires row < 26 && other < 26 && col < 43 && row != other
    ensures Diagonal(row, col) != Diagonal(other, col)
  {
    StepOfDiagonal(row, col);
    StepOfDiagonal(other, col);
  }

  /** Among the differences on a diagonal is one in the rows 0 to 25. */
  lemma DifferenceInMatrix(s: Sector, t: Sector, a: nat) returns (row: nat, col: nat, plane: nat)
    requires Checked(s) && Checked(t) && a in Differences(s, t)
    ensures row < 26 && col < 43 && plane < 2 && PAddress(col, plane, row) in Differences(s, t)
  {
    hide WalkIndex, Diagonal;
    QAddressOfPlace(a);
    var (d, p, i) := QPlace(a);
    var j, k, l := DiagonalDifferences(s, t, d, p, i);
    plane := p;
    col := if j < 43 then j else if k < 43 then k else l;
    row := (d + col) % 26;
    QAddressInRange(d, p, col);
  }

  /** The three differing places of diagonal d, as a set. */
  lemma ThreeOnDiagonal(s: Sector, t: Sector, row: nat, col: nat, plane: nat) returns (three: set<nat>)
    requires Checked(s) && Checked(t) && row < 26 && col < 43 && plane < 2
    requires PAddress(col, plane, row) in Differences(s, t)
    ensures |three| == 3 && three <= Differences(s, t)
    ensures forall a :: a in three ==> 12 <= a < SECTOR && QPlace(a).0 == Diagonal(row, col)
  {
    hide WalkIndex, Diagonal, Checked, QPlace, Differences;
    Crossing(row, col, plane);
    var d := Diagonal(row, col);
    var j, k, l := DiagonalDifferences(s, t, d, plane, col);
    QPlaceOfAddress(d, plane, j);
    QPlaceOfAddress(d, plane, k);
    QPlaceOfAddress(d, plane, l);
    three := {QAddress(d, plane, j), QAddress(d, plane, k), QAddress(d, plane, l)};
  }

  /** Minimum distance 9: valid sectors with any difference in bytes 12 to 2351 differ in at least 9 of them. */
  lemma DistanceNine(s: Sector, t: Sector)
    requires Checked(s) && Checked(t) && Differences(s, t) != {}
    ensures |Differences(s, t)| >= 9
  {
    hide Checked, Diagonal, QPlace, Differences;
    var a :| a in Differences(s, t);
    var row, col, plane := DifferenceInMatrix(s, t, a);
    var i, j, k := ColumnDifferences(s, t, col, plane, row);
    RowsOnDistinctDiagonals(i, j, col);
    RowsOnDistinctDiagonals(i, k, col);
    RowsOnDistinctDiagonals(j, k, col);
    var x := ThreeOnDiagonal(s, t, i, col, plane);
    var y := ThreeOnDiagonal(s, t, j, col, plane);
    var z := ThreeOnDiagonal(s, t, k, col, plane);
    assert x !! y && (x + y) !! z;
    assert |x + y + z| == 9;
    SubsetSize(x + y + z, Differences(s, t));
  }

  lemma SubsetSize<T>(x: set<T>, y: set<T>)
    requires x <= y
    ensures |x| <= |y|
  {
    assert |y| == |x| + |y - x|;
  }

  /** The parity bytes are the only solution of the equations for their payload. */
  lemma ParityIsDetermined(s: Sector, t: Sector)
    requires Checked(s) && Checked(t)
    requires forall a :: 12 <= a < 2076 ==> s[a] == t[a]
    ensures forall a :: 12 <= a < SECTOR ==> s[a] == t[a]
  {
    hide Checked;
    if a: nat :| 12 <= a < SECTOR && s[a] != t[a] {
      var row, col, plane := DifferenceInMatrix(s, t, a);
      var i, j, k := ColumnDifferences(s, t, col, plane, row);
      assert false;
    }
  }

  function ExorSector(s: Sector, t: Sector): (x: Sector)
    ensures forall a :: 0 <= a < SECTOR ==> x[a] == Add(s[a], t[a])
  {
    Exor(s, t)
  }

  lemma ExorSectorChecked(s: Sector, t: Sector)
    requires Checked(s) && Checked(t)
    ensures Checked(ExorSector(s, t))
  {
    hide Checks;
    var x := ExorSector(s, t);
    forall c: nat, plane: nat | c < 43 && plane < 2
      ensures Checks(PColumn(x, c, plane))
    {
      PColumnsOk(s, c, plane);
      PColumnsOk(t, c, plane);
      ExorChecks(PColumn(s, c, plane), PColumn(t, c, plane));
      assert PColumn(x, c, plane) == Exor(PColumn(s, c, plane), PColumn(t, c, plane));
    }
    forall d: nat, plane: nat | d < 26 && plane < 2
      ensures Checks(QDiagonal(x, d, plane))
    {
      QDiagonalsOk(s, d, plane);
      QDiagonalsOk(t, d, plane);
      ExorChecks(QDiagonal(s, d, plane), QDiagonal(t, d, plane));
      assert QDiagonal(x, d, plane) == Exor(QDiagonal(s, d, plane), QDiagonal(t, d, plane));
    }
  }

  /** The parity of the exor of two payloads is the exor of their parities. */
  lemma ParityIsLinear(s: Sector, t: Sector, u: Sector)
    requires Checked(s) && Checked(t) && Checked(u)
    requires forall a :: 12 <= a < 2076 ==> u[a] == Add(s[a], t[a])
    ensures forall a :: 12 <= a < SECTOR ==> u[a] == Add(s[a], t[a])
  {
    ExorSectorChecked(s, t);
    ParityIsDetermined(u, ExorSector(s, t));
  }
}
