/** Selection of a format descriptor and of a size by mmc_format_unit() in libburn/mmc.c. */
module FormatUnit {

  datatype Descriptor = Descriptor(kind: int, size: nat)

  /** Element k is of the given kind and no other one of this kind is larger. */
  predicate IsLargest(ds: seq<Descriptor>, k: int, kind: int) {
    0 <= k < |ds| && ds[k].kind == kind && forall j :: 0 <= j < |ds| && ds[j].kind == kind ==> ds[j].size <= ds[k].size
  }

  /** Element k is of the given kind. Exactly one other element of this kind is to be ranked above it. */
  predicate IsSecondLargest(ds: seq<Descriptor>, k: int, kind: int) {
    0 <= k < |ds| && ds[k].kind == kind &&
    exists m :: 0 <= m < |ds| && m != k && ds[m].kind == kind && ds[m].size >= ds[k].size
      && forall j :: 0 <= j < |ds| && j != m && ds[j].kind == kind ==> ds[j].size <= ds[k].size
  }

  predicate IsOnly(ds: seq<Descriptor>, k: int, kind: int) {
    0 <= k < |ds| && ds[k].kind == kind && forall j :: 0 <= j < |ds| && ds[j].kind == kind ==> j == k
  }

  predicate HasKind(ds: seq<Descriptor>, kind: int) {
    exists j :: 0 <= j < |ds| && ds[j].kind == kind
  }

  // ---------- DVD-RAM

  /** The selection for maximum or default size with defect management. */
  datatype Choice = Choice(index: int, size: int, index00: int, size00: int)

  function ChoiceStep(c: Choice, d: Descriptor, i: nat, sizeMode: nat): Choice {
    if d.kind == 0x00 then
      if d.size < c.size then c
      else if d.size < c.size00 then c.(index := i, size := d.size)
      else Choice(c.index00, c.size00, i, d.size)
    else if d.kind != 0x01 || sizeMode == 3 then c
    else if d.size > c.size then c.(index := i, size := d.size)
    else c
  }

  function Chosen(ds: seq<Descriptor>, n: nat, sizeMode: nat): Choice
    requires n <= |ds|
  {
    if n == 0 then Choice(-1, -1, -1, -1) else ChoiceStep(Chosen(ds, n - 1, sizeMode), ds[n - 1], n - 1, sizeMode)
  }

  function RamIndex(ds: seq<Descriptor>, sizeMode: nat): int {
    var c := Chosen(ds, |ds|, sizeMode);
    if c.index < 0 then c.index00 else c.index
  }

  /** The two largest descriptors of type 0x00 so far. */
  predicate TwoLargest(ds: seq<Descriptor>, n: nat, c: Choice)
    requires n <= |ds|
  {
    && (c.index00 < 0 ==> c.index00 == c.size00 == c.index == c.size == -1 && !HasKind(ds[..n], 0x00))
    && (c.index00 >= 0 ==> c.index00 < n && ds[c.index00].kind == 0x00 && ds[c.index00].size == c.size00)
    && (c.index < 0 ==> c.index == c.size == -1)
    && (c.index >= 0 ==>
          c.index < n && c.index != c.index00 && ds[c.index].kind == 0x00 && ds[c.index].size == c.size <= c.size00)
    && (forall j :: 0 <= j < n && ds[j].kind == 0x00 && j != c.index00 ==> c.index >= 0 && ds[j].size <= c.size)
  }

  lemma {:induction false} DefaultKeepsTwoLargest(ds: seq<Descriptor>, n: nat)
    requires n <= |ds|
    ensures TwoLargest(ds, n, Chosen(ds, n, 3))
  {
    if n > 0 {
      DefaultKeepsTwoLargest(ds, n - 1);
      var c := Chosen(ds, n - 1, 3);
      if c.index00 < 0 {
        forall j | 0 <= j < n - 1
          ensures ds[j].kind != 0x00
        {
          assert ds[..n - 1][j] == ds[j];
        }
      }
    }
  }

  /** Default size: the second largest descriptor of type 0x00, or the only one. */
  lemma DefaultIsSecondLargest(ds: seq<Descriptor>)
    ensures var k := RamIndex(ds, 3);
      if HasKind(ds, 0x00) then IsSecondLargest(ds, k, 0x00) || IsOnly(ds, k, 0x00) else k == -1
  {
    DefaultKeepsTwoLargest(ds, |ds|);
    var c := Chosen(ds, |ds|, 3);
    assert ds[..|ds|] == ds;
    if c.index >= 0 {
      assert IsSecondLargest(ds, c.index, 0x00);
    }
  }

  /** No descriptor of type 0x00 comes after one of type 0x01. */
  predicate FullFormatsFirst(ds: seq<Descriptor>) {
    forall i, j :: 0 <= i < j < |ds| && ds[i].kind == 0x01 ==> ds[j].kind != 0x00
  }

  /** All but one descriptor of type 0x00 and all of type 0x01 are not larger than the choice. */
  predicate CoversAllButOne(ds: seq<Descriptor>, n: nat, c: Choice)
    requires n <= |ds|
  {
    && -1 <= c.index < n && -1 <= c.index00 < n && (c.index >= 0 ==> c.index != c.index00)
    && (c.index < 0 ==> c.size == -1) && (c.index00 < 0 ==> c.size00 == -1)
    && (c.index00 >= 0 ==> ds[c.index00].kind == 0x00 && ds[c.index00].size == c.size00)
    && (c.index >= 0 ==> ds[c.index].kind in {0x00, 0x01} && ds[c.index].size == c.size)
    && (c.index >= 0 && ds[c.index].kind == 0x00 ==> c.size <= c.size00)
    && (forall j :: 0 <= j < n && ds[j].kind == 0x00 && j != c.index00 ==> ds[j].size <= c.size)
    && (forall j :: 0 <= j < n && ds[j].kind == 0x01 ==> ds[j].size <= c.size)
    && (forall j :: 0 <= j < n && ds[j].kind == 0x00 ==> c.index00 >= 0 && ds[j].size <= c.size00)
  }

  lemma {:induction false} MaximumCovers(ds: seq<Descriptor>, n: nat)
    requires n <= |ds| && FullFormatsFirst(ds)
    ensures CoversAllButOne(ds, n, Chosen(ds, n, 2))
  {
    if n > 0 {
      MaximumCovers(ds, n - 1);
    }
  }

  /** Maximum size: if types 0x00 come first, then the choice is not smaller than any type 0x01 and than any type 0x00
      apart from the largest one. */
  lemma MaximumIfFullFormatsFirst(ds: seq<Descriptor>)
    requires FullFormatsFirst(ds) && (HasKind(ds, 0x00) || HasKind(ds, 0x01))
    ensures var k := RamIndex(ds, 2);
      && 0 <= k < |ds| && ds[k].kind in {0x00, 0x01}
      && (forall j :: 0 <= j < |ds| && ds[j].kind == 0x01 ==> ds[j].size <= ds[k].size)
      && (HasKind(ds, 0x00) ==>
            IsOnly(ds, k, 0x00) || exists m :: m != k && IsLargest(ds, m, 0x00) && NotLargerExcept(ds, k, m))
  {
    MaximumCovers(ds, |ds|);
    var c := Chosen(ds, |ds|, 2);
    if c.index >= 0 && HasKind(ds, 0x00) {
      assert IsLargest(ds, c.index00, 0x00) && NotLargerExcept(ds, c.index, c.index00);
    }
  }

  /** Descriptors of type 0x00 other than m are not larger than descriptor k. */
  predicate NotLargerExcept(ds: seq<Descriptor>, k: int, m: int) {
    0 <= k < |ds| && forall j :: 0 <= j < |ds| && ds[j].kind == 0x00 && j != m ==> ds[j].size <= ds[k].size
  }

  /** Maximum size: the result depends on the sequence of the descriptors. */
  lemma MaximumDependsOnSequence()
    ensures var a, b := Descriptor(0x00, 200), Descriptor(0x01, 150);
      RamIndex([a, b], 2) == 1 && [a, b][1] == b && RamIndex([b, a], 2) == 1 && [b, a][1] == a
  {
    var a, b := Descriptor(0x00, 200), Descriptor(0x01, 150);
    MaximumOfTwo([a, b]);
    MaximumOfTwo([b, a]);
  }

  lemma MaximumOfTwo(ds: seq<Descriptor>)
    requires |ds| == 2
    ensures Chosen(ds, 2, 2)
      == ChoiceStep(ChoiceStep(Choice(-1, -1, -1, -1), ds[0], 0, 2), ds[1], 1, 2)
  {
    assert Chosen(ds, 0, 2) == Choice(-1, -1, -1, -1);
    assert Chosen(ds, 1, 2) == ChoiceStep(Choice(-1, -1, -1, -1), ds[0], 0, 2);
  }

  /** The loop over the descriptors of a DVD-RAM. -1 means that no suitable type is offered. */
  method SelectDvdRam(ds: seq<Descriptor>, noMgt: bool, sizeMode: nat, size: int) returns (index: int)
    requires sizeMode <= 3
    ensures noMgt ==> if HasKind(ds, 0x00) then IsLargest(ds, index, 0x00) else index == -1
    ensures !noMgt && sizeMode >= 2 ==> index == RamIndex(ds, sizeMode)
    ensures !noMgt && sizeMode < 2 ==>
      if index == -1 then forall j :: 0 <= j < |ds| && ds[j].kind in {0x00, 0x01} ==> ds[j].size < size
      else
        && 0 <= index < |ds| && ds[index].kind in {0x00, 0x01} && ds[index].size >= size
        && forall j :: 0 <= j < |ds| && ds[j].kind in {0x00, 0x01} && ds[j].size >= size ==>
          ds[index].size <= ds[j].size
  {
    index := -1;
    var format00Index, formatSize, format00MaxSize := -1, -1, -1;
    for i := 0 to |ds|
      invariant !noMgt && sizeMode >= 2 ==>
        Choice(index, formatSize, format00Index, format00MaxSize) == Chosen(ds, i, sizeMode)
      invariant noMgt || sizeMode < 2 ==>
        if index == -1 then formatSize == -1 else 0 <= index < i && formatSize == ds[index].size
      invariant noMgt ==>
        && (index >= 0 ==> ds[index].kind == 0x00)
        && forall j :: 0 <= j < i && ds[j].kind == 0x00 ==> ds[j].size <= formatSize
      invariant !noMgt && sizeMode < 2 ==>
        && (index >= 0 ==> ds[index].kind in {0x00, 0x01} && ds[index].size >= size)
        && forall j :: 0 <= j < i && ds[j].kind in {0x00, 0x01} && ds[j].size >= size ==>
          index >= 0 && formatSize <= ds[j].size
    {
      var kind, iSize := ds[i].kind, ds[i].size;
      if kind != 0x00 && kind != 0x01 {
        continue;
      }
      if noMgt {
        if kind == 0x00 && iSize >= formatSize {
          formatSize, index := iSize, i;
        }
      } else if sizeMode >= 2 {
        if kind == 0x00 {
          if iSize < formatSize {
            continue;
          }
          if iSize < format00MaxSize {
            formatSize, index := iSize, i;
            continue;
          }
          formatSize, index := format00MaxSize, format00Index;
          format00MaxSize, format00Index := iSize, i;
        } else if sizeMode != 3 && iSize > formatSize {
          formatSize, index := iSize, i;
        }
      } else if iSize >= size && (formatSize < 0 || iSize < formatSize) {
        formatSize, index := iSize, i;
      }
    }
    if index < 0 && sizeMode >= 2 && !noMgt {
      index := format00Index;
    }
  }

  // ---------- BD-R and BD-RE

  const BLOCK := 2048
  const CLUSTER := 0x10000

  /** The type of defect managed formats. */
  function Managed(rewritable: bool): int {
    if rewritable then 0x30 else 0x32
  }

  /** The next multiple of 64 KiB. */
  function RoundUp(size: nat): (r: nat)
    ensures size <= r < size + CLUSTER && r % CLUSTER == 0
  {
    if size % CLUSTER != 0 then size + (CLUSTER - size % CLUSTER) else size
  }

  /** lo and hi are the smallest and the largest size of a kind. -1 if there is none. */
  predicate IsRange(ds: seq<Descriptor>, kind: int, lo: int, hi: int) {
    if HasKind(ds, kind) then
      && (exists j :: 0 <= j < |ds| && ds[j].kind == kind && ds[j].size == lo)
      && (exists j :: 0 <= j < |ds| && ds[j].kind == kind && ds[j].size == hi)
      && forall j :: 0 <= j < |ds| && ds[j].kind == kind ==> lo <= ds[j].size <= hi
    else lo == -1 && hi == -1
  }

  /** Smallest and largest size of defect managed formats. */
  method SizeRange(ds: seq<Descriptor>, kind: int) returns (minSize: int, maxSize: int)
    ensures IsRange(ds, kind, minSize, maxSize)
  {
    minSize, maxSize := -1, -1;
    ghost var lo, hi := -1, -1;
    for i := 0 to |ds|
      invariant if minSize < 0 then minSize == maxSize == -1 && forall j :: 0 <= j < i ==> ds[j].kind != kind
        else
          && 0 <= lo < i && 0 <= hi < i && ds[lo].kind == ds[hi].kind == kind
          && ds[lo].size == minSize && ds[hi].size == maxSize
      invariant forall j :: 0 <= j < i && ds[j].kind == kind ==> minSize <= ds[j].size <= maxSize
    {
      if ds[i].kind != kind {
        continue;
      }
      if ds[i].size < minSize || minSize < 0 {
        minSize, lo := ds[i].size, i;
      }
      if ds[i].size > maxSize {
        maxSize, hi := ds[i].size, i;
      }
    }
  }

  /** A size wish of 0 or less stands for the smallest size. */
  function Wish(size: int, minSize: nat): nat {
    if size <= 0 then minSize else size
  }

  /** BD-R and BD-RE with a size wish: number of blocks to be formatted, or -1 if no suitable format is offered. */
  method SelectSize(ds: seq<Descriptor>, rewritable: bool, noMgt: bool, size: int) returns (blocks: int)
    ensures var kind := if rewritable then 0x30 else 0x32;
      blocks >= 0 <==>
        && ds != [] && ds[0].kind == 0x00 && !noMgt && HasKind(ds, kind)
        && exists lo: nat, hi: nat :: IsRange(ds, kind, lo, hi) && lo <= RoundUp(Wish(size, lo)) <= hi
    ensures var kind := if rewritable then 0x30 else 0x32;
      blocks >= 0 ==>
        && blocks % 32 == 0
        && (forall lo: nat, hi: nat :: IsRange(ds, kind, lo, hi) ==>
              && lo <= blocks * 2048 <= hi
              && var wish := if size <= 0 then lo else size; wish <= blocks * 2048 < wish + 0x10000)
  {
    if ds == [] || ds[0].kind != 0x00 || noMgt {
      return -1;
    }
    var kind := Managed(rewritable);
    var minSize, maxSize := SizeRange(ds, kind);
    RangeIsUnique(ds, kind, minSize, maxSize);
    if minSize < 0 || maxSize < 0 {
      return -1;
    }
    var wish := if size <= 0 then minSize else size;
    if wish % CLUSTER != 0 {
      wish := wish + (CLUSTER - wish % CLUSTER);
    }
    if wish < minSize || wish > maxSize {
      return -1;
    }
    blocks := wish / BLOCK;
    BlocksOfClusters(wish);
  }

  lemma RangeIsUnique(ds: seq<Descriptor>, kind: int, minSize: int, maxSize: int)
    requires IsRange(ds, kind, minSize, maxSize)
    ensures forall lo, hi :: IsRange(ds, kind, lo, hi) ==> lo == minSize && hi == maxSize
    ensures minSize < 0 || maxSize < 0 ==> !HasKind(ds, kind)
  {}

  lemma BlocksOfClusters(size: nat)
    requires size % CLUSTER == 0
    ensures size / BLOCK * BLOCK == size && size / BLOCK % (CLUSTER / BLOCK) == 0
  {
    var n := size / CLUSTER;
    assert size == n * 32 * BLOCK;
    assert size / BLOCK == n * 32;
  }
}
