/** What a reader finds in the packs of a session. */
module CdTextReading {
  import opened Bytes
  import opened Crc
  import opened CdText

  function TypeOf(p: Pack): int {
    ToNat(p[0])
  }

  function TrackOf(p: Pack): int {
    ToNat(p[1])
  }

  function NumberOf(p: Pack): int {
    ToNat(p[2])
  }

  function BlockOf(p: Pack): int {
    ToNat(p[3]) / 16 % 8
  }

  function DataOf(p: Pack): (d: Text)
    ensures |d| == 12
  {
    p[4..16]
  }

  /** The packs of a block, in order. */
  function OfBlock(ps: seq<Pack>, block: nat): seq<Pack> {
    if ps == [] then [] else
      OfBlock(ps[..|ps| - 1], block) + (if BlockOf(ps[|ps| - 1]) == block then [ps[|ps| - 1]] else [])
  }

  /** The packs of one type, in order. */
  function OfType(ps: seq<Pack>, packType: int): seq<Pack> {
    if ps == [] then [] else
      OfType(ps[..|ps| - 1], packType) + (if TypeOf(ps[|ps| - 1]) == packType then [ps[|ps| - 1]] else [])
  }

  // ---------- headers

  lemma SealedIsValid(content: seq<bv8>)
    requires |content| == 16
    ensures PackValid(Sealed(content)) && Sealed(content)[..16] == content
  {
    hide CrcField;
    assert Sealed(content)[..16] == content;
    assert Sealed(content)[16..] == CrcField(content);
  }

  /** The content of a sealed pack. */
  lemma ContentOf(h: seq<bv8>, d: seq<bv8>)
    requires |h| == 4 && |d| == 12
    ensures var p := Sealed(h + d); p[..4] == h && DataOf(p) == d && PackValid(p)
  {
    hide PackValid, Sealed;
    SealedIsValid(h + d);
    var p := Sealed(h + d);
    assert p[..4] == p[..16][..4] && p[4..16] == p[..16][4..];
  }

  /** The four header bytes as numbers. */
  predicate HeaderTells(h: seq<bv8>, ty: nat, block: nat, number: nat, first: Cell) {
    && |h| == 4 && ToNat(h[0]) == 0x80 + ty && ToNat(h[1]) == first.track % 256
    && ToNat(h[2]) == number % 256 && ToNat(h[3]) == 16 * block + first.pos
  }

  lemma HeaderBytes(ty: nat, block: nat, number: nat, first: Cell)
    requires ty < 16 && block < 8
    ensures HeaderTells(MakeHeader(ty, block, number, first), ty, block, number, first)
  {
    hide ToNat, Byte;
  }

  lemma HeaderOf(ty: nat, block: nat, number: nat, c: Cells)
    requires ty < 16 && block < 8 && |c| > 0
    ensures var p := MakePack(ty, block, number, c);
      && TypeOf(p) == 0x80 + ty && TrackOf(p) == c[0].track % 256 && NumberOf(p) == number % 256
      && BlockOf(p) == block && ToNat(p[3]) == 16 * block + c[0].pos && PackValid(p)
  {
    hide ToNat, Sealed, DataField, PackValid, MakeHeader;
    var h := MakeHeader(ty, block, number, c[0]);
    HeaderBytes(ty, block, number, c[0]);
    ContentOf(h, DataField(c));
    var p := MakePack(ty, block, number, c);
    assert p[0] == p[..4][0] && p[1] == p[..4][1] && p[2] == p[..4][2] && p[3] == p[..4][3];
  }

  /** The packs of one type have the headers which they shall have. */
  ghost predicate Headed(ps: seq<Pack>, ty: nat, block: nat, first: nat) {
    forall i :: 0 <= i < |ps| ==>
      && TypeOf(ps[i]) == 0x80 + ty && BlockOf(ps[i]) == block && NumberOf(ps[i]) == (first + i) % 256
      && PackValid(ps[i])
  }

  lemma PacksOfHeaded(ty: nat, block: nat, first: nat, c: Cells)
    requires ty < 16 && block < 8
    ensures Headed(PacksOf(ty, block, first, c), ty, block, first)
  {
    hide MakePack, PackValid;
    forall i | 0 <= i < NumPacks(|c|)
      ensures var p := PacksOf(ty, block, first, c)[i];
        TypeOf(p) == 0x80 + ty && BlockOf(p) == block && NumberOf(p) == (first + i) % 256 && PackValid(p)
    {
      HeaderOf(ty, block, first + i, Chunk(c, i));
    }
  }

  // ---------- selecting

  lemma {:induction false} OfBlockConcat(ps: seq<Pack>, qs: seq<Pack>, block: nat)
    ensures OfBlock(ps + qs, block) == OfBlock(ps, block) + OfBlock(qs, block)
  {
    if qs == [] {
      assert ps + qs == ps;
    } else {
      var last := |qs| - 1;
      OfBlockConcat(ps, qs[..last], block);
      assert (ps + qs)[..|ps + qs| - 1] == ps + qs[..last];
    }
  }

  lemma {:induction false} OfTypeConcat(ps: seq<Pack>, qs: seq<Pack>, packType: int)
    ensures OfType(ps + qs, packType) == OfType(ps, packType) + OfType(qs, packType)
  {
    if qs == [] {
      assert ps + qs == ps;
    } else {
      var last := |qs| - 1;
      OfTypeConcat(ps, qs[..last], packType);
      assert (ps + qs)[..|ps + qs| - 1] == ps + qs[..last];
    }
  }

  lemma {:induction false} OfBlockUniform(ps: seq<Pack>, block: nat, other: nat)
    requires forall i :: 0 <= i < |ps| ==> BlockOf(ps[i]) == other
    ensures OfBlock(ps, block) == if block == other then ps else []
  {
    if ps != [] {
      OfBlockUniform(ps[..|ps| - 1], block, other);
      assert ps == ps[..|ps| - 1] + [ps[|ps| - 1]];
    }
  }

  lemma {:induction false} OfTypeUniform(ps: seq<Pack>, packType: int, other: int)
    requires forall i :: 0 <= i < |ps| ==> TypeOf(ps[i]) == other
    ensures OfType(ps, packType) == if packType == other then ps else []
  {
    if ps != [] {
      OfTypeUniform(ps[..|ps| - 1], packType, other);
      assert ps == ps[..|ps| - 1] + [ps[|ps| - 1]];
    }
  }

  // ---------- one block

  ghost predicate Numbered(ps: seq<Pack>, block: nat) {
    forall i :: 0 <= i < |ps| ==> BlockOf(ps[i]) == block && NumberOf(ps[i]) == i % 256 && PackValid(ps[i])
  }

  lemma OneTypeNumbered(s: Session, ty: nat, block: nat)
    requires ty < 15 && block < 8 && s.cdtext[block].Some?
    ensures Headed(OneType(s, ty, block), ty, block, PacksBelow(s, ty, block))
  {
    PacksOfHeaded(ty, block, PacksBelow(s, ty, block), TypeCells(s, ty, block));
  }

  lemma TextPacksStep(s: Session, n: nat, block: nat)
    requires n < 15 && block < 8 && s.cdtext[block].Some?
    ensures TextPacks(s, 0, block) == []
    ensures TextPacks(s, n + 1, block) == TextPacks(s, n, block) + OneType(s, n, block)
  {}

  lemma NumberedConcat(ps: seq<Pack>, qs: seq<Pack>, ty: nat, block: nat)
    requires Numbered(ps, block) && Headed(qs, ty, block, |ps|)
    ensures Numbered(ps + qs, block)
  {
    hide PackValid, BlockOf, TypeOf, NumberOf;
    forall i | 0 <= i < |ps + qs|
      ensures var p := (ps + qs)[i]; BlockOf(p) == block && NumberOf(p) == i % 256 && PackValid(p)
    {
      if i >= |ps| {
        assert (ps + qs)[i] == qs[i - |ps|];
      }
    }
  }

  lemma {:induction false} TextPacksNumbered(s: Session, n: nat, block: nat)
    requires n <= 15 && block < 8 && s.cdtext[block].Some?
    ensures Numbered(TextPacks(s, n, block), block)
  {
    hide TextPacks, OneType, PacksBelow, TypePacks;
    if n == 0 {
      TextPacksStep(s, 0, block);
    } else {
      hide Numbered, Headed;
      TextPacksStep(s, n - 1, block);
      TextPacksNumbered(s, n - 1, block);
      OneTypeNumbered(s, n - 1, block);
      NumberedConcat(TextPacks(s, n - 1, block), OneType(s, n - 1, block), n - 1, block);
    }
  }

  lemma BlockPacksNumbered(s: Session, block: nat, last: Text)
    requires IsSession(s) && block < 8 && |last| == 8
    ensures Numbered(BlockPacks(s, block, last), block)
  {
    hide PackValid, PacksOf, TypeCells, SizeInfo, SizeCells, BlockOf, TypeOf, NumberOf;
    if s.cdtext[block].Some? {
      TextPacksNumbered(s, 15, block);
      PacksOfHeaded(0xf, block, PacksBelow(s, 15, block), SizeCells(SizeInfo(s, block, last)));
    }
  }

  lemma OfOneBlock(s: Session, n: nat, block: nat, last: Text)
    requires IsSession(s) && n < 8 && block < 8 && |last| == 8
    ensures OfBlock(BlockPacks(s, n, last), block) == if block == n then BlockPacks(s, n, last) else []
  {
    BlockPacksNumbered(s, n, last);
    hide BlockPacks, BlockOf, NumberOf, PackValid;
    OfBlockUniform(BlockPacks(s, n, last), block, n);
  }

  lemma {:induction false} OfBlockSession(s: Session, n: nat, block: nat, last: Text)
    requires IsSession(s) && n <= 8 && block < 8 && |last| == 8
    ensures OfBlock(SessionPacks(s, n, last), block) == if block < n then BlockPacks(s, block, last) else []
  {
    hide BlockPacks, BlockOf, OfBlock;
    if n == 0 {
      OfBlockUniform([], block, 0);
    } else {
      OfBlockSession(s, n - 1, block, last);
      OfBlockConcat(SessionPacks(s, n - 1, last), BlockPacks(s, n - 1, last), block);
      OfOneBlock(s, n - 1, block, last);
    }
  }

  /** The packs of each block are valid and numbered 0 to n-1 without gaps. */
  lemma BlocksAreNumbered(s: Session, block: nat)
    requires IsSession(s) && block < 8
    ensures |OfBlock(Packs(s), block)| == BlockSize(s, block)
    ensures BlockSize(s, block) <= 256 ==> forall i :: 0 <= i < BlockSize(s, block) ==>
      NumberOf(OfBlock(Packs(s), block)[i]) == i && PackValid(OfBlock(Packs(s), block)[i])
  {
    hide PackValid, BlockPacks, NumberOf, BlockOf, OfBlock, BlockSize, SessionPacks;
    OfBlockSession(s, 8, block, LastNumbers(s));
    BlockPacksNumbered(s, block, LastNumbers(s));
  }

  lemma OfTypeOne(s: Session, n: nat, ty: nat, block: nat)
    requires n < 15 && ty < 16 && block < 8 && s.cdtext[block].Some?
    ensures OfType(OneType(s, n, block), 0x80 + ty) == if ty == n then OneType(s, n, block) else []
  {
    hide PackValid, PacksOf, TypeCells, TypeOf, BlockOf, NumberOf, OfType;
    OneTypeNumbered(s, n, block);
    OfTypeUniform(OneType(s, n, block), 0x80 + ty, 0x80 + n);
  }

  lemma {:induction false} OfTypeBelow(s: Session, n: nat, ty: nat, block: nat)
    requires n <= 15 && ty < 16 && block < 8 && s.cdtext[block].Some?
    ensures OfType(TextPacks(s, n, block), 0x80 + ty) == if ty < n then OneType(s, ty, block) else []
  {
    hide *;
    if n == 0 {
      TextPacksStep(s, 0, block);
      OfTypeUniform([], 0x80 + ty, 0);
    } else {
      TextPacksStep(s, n - 1, block);
      OfTypeBelow(s, n - 1, ty, block);
      OfTypeOne(s, n - 1, ty, block);
      OfTypeConcat(TextPacks(s, n - 1, block), OneType(s, n - 1, block), 0x80 + ty);
    }
  }

  lemma OfTypeSize(s: Session, ty: nat, block: nat, last: Text)
    requires IsSession(s) && ty < 16 && block < 8 && s.cdtext[block].Some? && |last| == 8
    ensures OfType(SizePacks(s, block, last), 0x80 + ty) == if ty == 0xf then SizePacks(s, block, last) else []
  {
    hide PackValid, PacksOf, SizeInfo, SizeCells, TypeOf, BlockOf, NumberOf, OfType;
    PacksOfHeaded(0xf, block, PacksBelow(s, 15, block), SizeCells(SizeInfo(s, block, last)));
    OfTypeUniform(SizePacks(s, block, last), 0x80 + ty, 0x8f);
  }

  /** The packs of one type in one block, in order. */
  function OfKind(s: Session, ty: nat, block: nat): seq<Pack>
    requires IsSession(s)
  {
    OfType(OfBlock(Packs(s), block), 0x80 + ty)
  }

  /** Selecting block and type gives exactly the packs which were made for them. */
  lemma SelectedPacks(s: Session, ty: nat, block: nat)
    requires IsSession(s) && ty < 16 && block < 8 && s.cdtext[block].Some?
    ensures OfKind(s, ty, block) ==
      if ty < 15 then OneType(s, ty, block) else SizePacks(s, block, LastNumbers(s))
  {
    hide *;
    KindInBlock(s, ty, block);
    OfTypeBelow(s, 15, ty, block);
    OfTypeSize(s, ty, block, LastNumbers(s));
    OfTypeConcat(TextPacks(s, 15, block), SizePacks(s, block, LastNumbers(s)), 0x80 + ty);
  }

  lemma KindInBlock(s: Session, ty: nat, block: nat)
    requires IsSession(s) && ty < 16 && block < 8 && s.cdtext[block].Some?
    ensures OfKind(s, ty, block) == OfType(TextPacks(s, 15, block) + SizePacks(s, block, LastNumbers(s)), 0x80 + ty)
  {
    hide SizePacks, OfType, OfBlock, TextPacks, SessionPacks, LastNumbers;
    OfBlockSession(s, 8, block, LastNumbers(s));
  }

  // ---------- text bytes

  /** The text fields of packs, concatenated. */
  function AllData(ps: seq<Pack>): (d: Text)
    ensures |d| == 12 * |ps|
  {
    if ps == [] then [] else AllData(ps[..|ps| - 1]) + DataOf(ps[|ps| - 1])
  }

  lemma {:induction false} AllDataAt(ps: seq<Pack>, i: nat, j: nat)
    requires i < |ps| && j < 12
    ensures AllData(ps)[12 * i + j] == ps[i][4 + j]
  {
    if i < |ps| - 1 {
      AllDataAt(ps[..|ps| - 1], i, j);
    }
  }

  lemma MakePackData(ty: nat, block: nat, number: nat, c: Cells, j: nat)
    requires |c| > 0 && j < 12
    ensures MakePack(ty, block, number, c)[4 + j] == if j < |c| then c[j].value else 0
  {
    hide CrcField, MakeHeader;
  }

  lemma DataOfPacksAt(ty: nat, block: nat, first: nat, c: Cells, i: nat, j: nat)
    requires i < NumPacks(|c|) && j < 12
    ensures AllData(PacksOf(ty, block, first, c))[12 * i + j] == if 12 * i + j < |c| then c[12 * i + j].value else 0
  {
    hide MakePack, AllData;
    AllDataAt(PacksOf(ty, block, first, c), i, j);
    MakePackData(ty, block, first + i, Chunk(c, i), j);
  }

  /** The text fields hold the written bytes, filled up by 0. */
  lemma DataOfPacks(ty: nat, block: nat, first: nat, c: Cells)
    ensures AllData(PacksOf(ty, block, first, c)) == Values(c) + Fill(12 * NumPacks(|c|) - |c|)
  {
    hide MakePack, PacksOf, AllData;
    var ps, n := PacksOf(ty, block, first, c), 12 * NumPacks(|c|);
    forall k | 0 <= k < n
      ensures AllData(ps)[k] == (Values(c) + Fill(n - |c|))[k]
    {
      DataOfPacksAt(ty, block, first, c, k / 12, k % 12);
    }
  }

  // ---------- the packs of type 0x8f

  lemma SizeCellsValues(info: Text)
    requires |info| == 36
    ensures Values(SizeCells(info)) == info
  {}

  lemma SizePacksData(s: Session, block: nat, last: Text)
    requires IsSession(s) && block < 8 && s.cdtext[block].Some? && |last| == 8
    ensures AllData(SizePacks(s, block, last)) == SizeInfo(s, block, last)
  {
    var info := SizeInfo(s, block, last);
    hide SizeInfo, SizeCells, PacksOf;
    DataOfPacks(0xf, block, PacksBelow(s, 15, block), SizeCells(info));
    SizeCellsValues(info);
  }

  lemma {:induction false} TypePacksInBlock(s: Session, n: nat, ty: nat, block: nat)
    requires ty < n <= 15 && block < 8 && s.cdtext[block].Some?
    ensures TypePacks(s, ty, block) <= PacksBelow(s, n, block)
  {
    hide TypePacks;
    if ty < n - 1 {
      TypePacksInBlock(s, n - 1, ty, block);
    }
  }

  lemma SizeInfoAt(s: Session, block: nat, ty: nat, b: nat)
    requires IsSession(s) && block < 8 && s.cdtext[block].Some? && ty < 15 && b < 8
    ensures var info := SizeInfo(s, block, LastNumbers(s));
      info[4 + ty] == Byte(TypePacks(s, ty, block)) && info[19] == 3 && info[20 + b] == Byte(LastNumber(s, b))
  {
    hide Byte, TypePacks, LastNumber;
  }

  lemma Three()
    ensures ToNat(3) == 3
  {}

  /** Element 4 + ty counts the packs of type 0x80 + ty in the block. */
  lemma CountsAreTrue(s: Session, block: nat, ty: nat)
    requires IsSession(s) && block < 8 && s.cdtext[block].Some? && Fits255(s) && ty < 16
    ensures ToNat(SizeInfo(s, block, LastNumbers(s))[4 + ty]) == |OfKind(s, ty, block)|
  {
    hide *;
    SelectedPacks(s, ty, block);
    if ty < 15 {
      SizeInfoAt(s, block, ty, 0);
      CountFits(s, ty, block);
    } else {
      SizeInfoAt(s, block, 0, 0);
      Three();
    }
  }

  lemma LastNumberIs(s: Session, b: nat)
    requires b < 8
    ensures LastNumber(s, b) == if BlockSize(s, b) > 0 then BlockSize(s, b) - 1 else 0
  {}

  /** Element 20 + b tells the last sequence number of block b, or 0 if there is no such block. */
  lemma LastNumbersAreTrue(s: Session, block: nat, b: nat)
    requires IsSession(s) && block < 8 && s.cdtext[block].Some? && Fits255(s) && b < 8
    ensures var n := |OfBlock(Packs(s), b)|;
      ToNat(SizeInfo(s, block, LastNumbers(s))[20 + b]) == if n > 0 then n - 1 else 0
  {
    hide *;
    SizeInfoAt(s, block, 0, b);
    LastNumberIs(s, b);
    BlockFits(s, b);
    BlocksAreNumbered(s, b);
  }

  lemma BlockFits(s: Session, b: nat)
    requires b < 8 && Fits255(s)
    ensures BlockSize(s, b) <= 255
  {}

  /** The three packs of type 0x8f tell the numbers of packs and the last sequence numbers. */
  lemma SizeInfoIsTrue(s: Session, block: nat)
    requires IsSession(s) && block < 8 && s.cdtext[block].Some? && Fits255(s)
    ensures var info := AllData(OfKind(s, 0xf, block));
      && |info| == 36
      && (forall ty: nat :: ty < 16 ==> ToNat(info[4 + ty]) == |OfKind(s, ty, block)|)
      && (forall b: nat :: b < 8 ==> var n := |OfBlock(Packs(s), b)|; ToNat(info[20 + b]) == if n > 0 then n - 1 else 0)
  {
    hide *;
    SelectedPacks(s, 15, block);
    SizePacksData(s, block, LastNumbers(s));
    forall ty: nat | ty < 16
      ensures ToNat(SizeInfo(s, block, LastNumbers(s))[4 + ty]) == |OfKind(s, ty, block)|
    {
      CountsAreTrue(s, block, ty);
    }
    forall b: nat | b < 8
      ensures var n := |OfBlock(Packs(s), b)|;
        ToNat(SizeInfo(s, block, LastNumbers(s))[20 + b]) == if n > 0 then n - 1 else 0
    {
      LastNumbersAreTrue(s, block, b);
    }
  }

  lemma CountFits(s: Session, ty: nat, block: nat)
    requires ty < 15 && block < 8 && s.cdtext[block].Some? && Fits255(s)
    ensures TypePacks(s, ty, block) < 256
  {
    hide TypePacks, PacksBelow;
    TypePacksInBlock(s, 15, ty, block);
    assert BlockSize(s, block) <= 255;
  }
}
