/** burn_cdtext_from_session of libburn/cdtext.c produces exactly the packs of the session. */
module CdTextSession {
  import opened Bytes
  import opened Crc
  import opened CdText
  import opened CdTextReading
  import opened CdTextCursor

  const NO_NUMBERS: Text := Fill(8)

  // ---------- cursor states between the types and blocks

  /** Sizes of the finished blocks below n, and of the part of block n which is done. */
  ghost function Counters(s: Session, n: nat, current: nat): (h: seq<nat>)
    requires n <= 8
    ensures |h| == 8
  {
    seq(8, i requires 0 <= i < 8 => if i < n then BlockSize(s, i) else if i == n then current else 0)
  }

  ghost function Counts(s: Session, n: nat, ty: nat): (c: seq<nat>)
    requires n < 8 && s.cdtext[n].Some? && ty <= 15
    ensures |c| == 16
  {
    seq(16, t requires 0 <= t < 16 => if t < ty then TypePacks(s, t, n) else 0)
  }

  ghost function BlockBase(s: Session, n: nat): Base
    requires IsSession(s) && n <= 8
  {
    Base(SessionPacks(s, n, NO_NUMBERS), Counters(s, n, 0), seq(16, _ => 0))
  }

  ghost function TypeBase(s: Session, n: nat, ty: nat): Base
    requires IsSession(s) && n < 8 && s.cdtext[n].Some? && ty <= 15
  {
    Base(SessionPacks(s, n, NO_NUMBERS) + TextPacks(s, ty, n), Counters(s, n, PacksBelow(s, ty, n)), Counts(s, n, ty))
  }

  lemma FirstType(s: Session, n: nat)
    requires IsSession(s) && n < 8 && s.cdtext[n].Some?
    ensures TypeBase(s, n, 0) == BlockBase(s, n)
  {
    hide BlockSize, SessionPacks, TypePacks;
    assert Counts(s, n, 0) == seq(16, _ => 0);
  }

  lemma NextType(s: Session, n: nat, ty: nat)
    requires IsSession(s) && n < 8 && s.cdtext[n].Some? && ty < 15
    requires IsBase(TypeBase(s, n, ty))
    ensures After(TypeBase(s, n, ty), ty, n, TypeCells(s, ty, n)) == TypeBase(s, n, ty + 1)
    ensures TypeBase(s, n, ty).hiseq[n] + TypePacks(s, ty, n) == PacksBelow(s, ty + 1, n)
  {
    hide BlockSize, SessionPacks, TypeCells, IsBase, PacksOf;
    var b, c := TypeBase(s, n, ty), TypeCells(s, ty, n);
    var a := After(b, ty, n, c);
    assert a.hiseq == Counters(s, n, PacksBelow(s, ty + 1, n));
    assert a.packCount == Counts(s, n, ty + 1);
    assert PacksOf(ty, n, b.hiseq[n], c) == OneType(s, ty, n);
    assert a.done == SessionPacks(s, n, NO_NUMBERS) + (TextPacks(s, ty, n) + OneType(s, ty, n));
  }

  lemma NextCounters(s: Session, n: nat)
    requires n < 8 && s.cdtext[n].Some?
    ensures var h := Counters(s, n, PacksBelow(s, 15, n));
      h[n] == PacksBelow(s, 15, n) && h[n] + 3 == BlockSize(s, n) && h[n := h[n] + 3] == Counters(s, n + 1, 0)
  {
    hide PacksBelow;
  }

  lemma NextDone(s: Session, n: nat)
    requires IsSession(s) && n < 8 && s.cdtext[n].Some?
    ensures SessionPacks(s, n, NO_NUMBERS) + TextPacks(s, 15, n) + SizePacks(s, n, NO_NUMBERS)
      == SessionPacks(s, n + 1, NO_NUMBERS)
  {
    hide TextPacks, SizePacks, SessionPacks;
    SessionStep(s, n);
  }

  /** The cursor state after the packs of type 0x8f. */
  ghost function AfterSize(s: Session, n: nat, b: Base): Base
    requires IsSession(s) && n < 8 && s.cdtext[n].Some? && |b.hiseq| == 8
  {
    Base(b.done + PacksOf(0xf, n, b.hiseq[n], SizeCells(SizeInfo(s, n, NO_NUMBERS))),
         b.hiseq[n := b.hiseq[n] + 3], seq(16, _ => 0))
  }

  lemma NextBlock(s: Session, n: nat)
    requires IsSession(s) && n < 8 && s.cdtext[n].Some?
    ensures TypeBase(s, n, 15).hiseq[n] + 3 == BlockSize(s, n)
    ensures AfterSize(s, n, TypeBase(s, n, 15)) == BlockBase(s, n + 1)
  {
    hide SizeCells, SizeInfo, PacksOf, TextPacks, SessionPacks, Counters, BlockSize, Counts;
    NextCounters(s, n);
    NextDone(s, n);
  }

  lemma SkippedBlock(s: Session, n: nat)
    requires IsSession(s) && n < 8 && s.cdtext[n].None?
    ensures BlockBase(s, n) == BlockBase(s, n + 1) && BlockSize(s, n) == 0
  {
    hide SessionPacks;
    assert Counters(s, n, 0) == Counters(s, n + 1, 0);
    assert SessionPacks(s, n + 1, NO_NUMBERS) == SessionPacks(s, n, NO_NUMBERS) + [] by {
      SessionStep(s, n);
    }
  }

  lemma SessionStep(s: Session, n: nat)
    requires IsSession(s) && n < 8
    ensures SessionPacks(s, n + 1, NO_NUMBERS) == SessionPacks(s, n, NO_NUMBERS) + BlockPacks(s, n, NO_NUMBERS)
  {}

  lemma {:induction false} PacksBelowGrow(s: Session, i: nat, n: nat, block: nat)
    requires i <= n <= 15 && block < 8 && s.cdtext[block].Some?
    ensures PacksBelow(s, i, block) <= PacksBelow(s, n, block)
  {
    hide TypePacks;
    if i < n {
      PacksBelowGrow(s, i, n - 1, block);
    }
  }

  // ---------- the patch

  lemma PatchedConcat(ps: seq<Pack>, qs: seq<Pack>, last: Text)
    requires |last| == 8
    ensures AllPatched(ps + qs, last) == AllPatched(ps, last) + AllPatched(qs, last)
  {
    hide Patched;
  }

  lemma OneTypePatched(s: Session, ty: nat, block: nat, last: Text)
    requires ty < 15 && block < 8 && s.cdtext[block].Some? && |last| == 8
    ensures AllPatched(OneType(s, ty, block), last) == OneType(s, ty, block)
  {
    hide OneType, PackValid, ToNat;
    OneTypeNumbered(s, ty, block);
    forall i | 0 <= i < |OneType(s, ty, block)|
      ensures Patched(OneType(s, ty, block)[i], last) == OneType(s, ty, block)[i]
    {
      assert TypeOf(OneType(s, ty, block)[i]) == 0x80 + ty;
    }
  }

  lemma {:induction false} TextPacksPatched(s: Session, n: nat, block: nat, last: Text)
    requires n <= 15 && block < 8 && s.cdtext[block].Some? && |last| == 8
    ensures AllPatched(TextPacks(s, n, block), last) == TextPacks(s, n, block)
  {
    hide *;
    if n == 0 {
      TextPacksStep(s, 0, block);
    } else {
      TextPacksStep(s, n - 1, block);
      TextPacksPatched(s, n - 1, block, last);
      OneTypePatched(s, n - 1, block, last);
      PatchedConcat(TextPacks(s, n - 1, block), OneType(s, n - 1, block), last);
    }
  }

  lemma SizeChunk(info: Text, k: nat)
    requires |info| == 36 && k < 3
    ensures NumPacks(|SizeCells(info)|) == 3
    ensures Chunk(SizeCells(info), k) == CellsOf(0xf, info[12 * k..12 * k + 12], k)
  {}

  lemma SizeField(info: Text, k: nat)
    requires |info| == 36 && k < 3
    ensures DataField(CellsOf(0xf, info[12 * k..12 * k + 12], k)) == info[12 * k..12 * k + 12]
    ensures CellsOf(0xf, info[12 * k..12 * k + 12], k)[0]
      == CellsOf(0xf, info[12 * k..12 * k + 12], k)[0].(value := info[12 * k])
  {}

  lemma FirstCell(info: Text, k: nat)
    requires |info| == 36 && k < 3
    ensures var first := CellsOf(0xf, info[12 * k..12 * k + 12], k)[0]; first.track == k && first.pos == 0
  {
    CellAt(0xf, info[12 * k..12 * k + 12], k, 0);
    assert BinaryPart(0xf, 12) == 12 && CharPos(0 - 12) == 0;
  }

  function SizeHeader(s: Session, block: nat, k: nat): (h: seq<bv8>)
    requires block < 8 && s.cdtext[block].Some? && k < 3
    ensures |h| == 4
  {
    MakeHeader(0xf, block, PacksBelow(s, 15, block) + k, Cell(0, k, 0))
  }

  /** Pack k of type 0x8f without its checksum. */
  function SizeContent(s: Session, block: nat, last: Text, k: nat): (c: seq<bv8>)
    requires IsSession(s) && block < 8 && s.cdtext[block].Some? && |last| == 8 && k < 3
    ensures |c| == 16
  {
    SizeHeader(s, block, k) + SizeInfo(s, block, last)[12 * k..12 * k + 12]
  }

  lemma SizePackAt(s: Session, block: nat, last: Text, k: nat)
    requires IsSession(s) && block < 8 && s.cdtext[block].Some? && |last| == 8 && k < 3
    ensures var p := SizePacks(s, block, last)[k];
      p == Sealed(SizeContent(s, block, last, k)) && p[..16] == SizeContent(s, block, last, k)
      && TypeOf(p) == 0x8f && TrackOf(p) == k
  {
    hide SizeInfo, PacksBelow, Byte, ToNat, Sealed, CellsOf, Chunk, PackValid, DataField, SizeCells;
    var info := SizeInfo(s, block, last);
    var c := CellsOf(0xf, info[12 * k..12 * k + 12], k);
    SizeChunk(info, k);
    SizeField(info, k);
    FirstCell(info, k);
    SealedIsValid(SizeContent(s, block, last, k));
    HeaderOf(0xf, block, PacksBelow(s, 15, block) + k, c);
    var first := PacksBelow(s, 15, block);
    assert SizePacks(s, block, last)[k] == MakePack(0xf, block, first + k, c);
    assert MakeHeader(0xf, block, first + k, c[0]) == SizeHeader(s, block, k);
    assert MakeHeader(0xf, block, first + k, c[0]) + DataField(c) == SizeContent(s, block, last, k);
    assert MakePack(0xf, block, first + k, c) == Sealed(SizeContent(s, block, last, k));
    var p := SizePacks(s, block, last)[k];
    assert p[..16] == SizeContent(s, block, last, k);
    assert TypeOf(p) == 0x8f;
    assert TrackOf(p) == k;
  }

  lemma InfoParts(s: Session, block: nat, last: Text)
    requires IsSession(s) && block < 8 && s.cdtext[block].Some? && |last| == 8
    ensures var info, none := SizeInfo(s, block, last), SizeInfo(s, block, NO_NUMBERS);
      && info[..12] == none[..12]
      && info[12..24] == none[12..20] + last[..4]
      && info[24..36] == last[4..] + none[28..]
  {
    hide TypePacks, Byte;
  }

  lemma ReplaceInContent(h: seq<bv8>, d: Text, e: Text, last: Text)
    requires |h| == 4 && |d| == 12 && |last| == 8
    ensures e == d[..8] + last[..4] ==> h + e == (h + d)[..12] + last[..4]
    ensures e == last[4..] + d[4..] ==> h + e == (h + d)[..4] + last[4..] + (h + d)[8..]
  {}

  lemma PatchedContent(s: Session, block: nat, last: Text, k: nat)
    requires IsSession(s) && block < 8 && s.cdtext[block].Some? && |last| == 8 && k < 3
    ensures var c, none := SizeContent(s, block, last, k), SizeContent(s, block, NO_NUMBERS, k);
      && (k == 0 ==> c == none)
      && (k == 1 ==> c == none[..12] + last[..4])
      && (k == 2 ==> c == none[..4] + last[4..] + none[8..])
  {
    hide SizeInfo, SizeHeader, Fill;
    InfoParts(s, block, last);
    var info, none := SizeInfo(s, block, last), SizeInfo(s, block, NO_NUMBERS);
    var d, e := none[12 * k..12 * k + 12], info[12 * k..12 * k + 12];
    ReplaceInContent(SizeHeader(s, block, k), d, e, last);
    if k == 1 {
      assert d[..8] == none[12..20];
    } else if k == 2 {
      assert d[4..] == none[28..];
    }
  }

  lemma PatchedByTrack(p: Pack, last: Text, content: seq<bv8>)
    requires |last| == 8 && |content| == 16 && p[..16] == content && p == Sealed(content)
    requires TypeOf(p) == 0x8f && TrackOf(p) < 3
    ensures TrackOf(p) == 0 ==> Patched(p, last) == Sealed(content)
    ensures TrackOf(p) == 1 ==> Patched(p, last) == Sealed(content[..12] + last[..4])
    ensures TrackOf(p) == 2 ==> Patched(p, last) == Sealed(content[..4] + last[4..] + content[8..])
  {
    hide Sealed, ToNat;
    PartsOfPack(p);
  }

  lemma SizePackPatched(s: Session, block: nat, last: Text, k: nat)
    requires IsSession(s) && block < 8 && s.cdtext[block].Some? && |last| == 8 && k < 3
    ensures Patched(SizePacks(s, block, NO_NUMBERS)[k], last) == SizePacks(s, block, last)[k]
  {
    hide SizePacks, SizeContent, Sealed, Patched, TypeOf, TrackOf;
    SizePackAt(s, block, NO_NUMBERS, k);
    SizePackAt(s, block, last, k);
    PatchedContent(s, block, last, k);
    PatchedByTrack(SizePacks(s, block, NO_NUMBERS)[k], last, SizeContent(s, block, NO_NUMBERS, k));
  }

  lemma PartsOfPack(p: Pack)
    ensures p[..12] == p[..16][..12] && p[..4] == p[..16][..4] && p[8..16] == p[..16][8..]
  {}

  lemma SizePacksPatched(s: Session, block: nat, last: Text)
    requires IsSession(s) && block < 8 && s.cdtext[block].Some? && |last| == 8
    ensures AllPatched(SizePacks(s, block, NO_NUMBERS), last) == SizePacks(s, block, last)
  {
    hide SizePacks, Patched, Fill;
    SizePackPatched(s, block, last, 0);
    SizePackPatched(s, block, last, 1);
    SizePackPatched(s, block, last, 2);
  }

  lemma BlockPatched(s: Session, block: nat, last: Text)
    requires IsSession(s) && block < 8 && |last| == 8
    ensures AllPatched(BlockPacks(s, block, NO_NUMBERS), last) == BlockPacks(s, block, last)
  {
    hide TextPacks, SizePacks, Patched, Fill;
    if s.cdtext[block].Some? {
      TextPacksPatched(s, 15, block, last);
      SizePacksPatched(s, block, last);
      PatchedConcat(TextPacks(s, 15, block), SizePacks(s, block, NO_NUMBERS), last);
    }
  }

  lemma {:induction false} SessionPatched(s: Session, n: nat, last: Text)
    requires IsSession(s) && n <= 8 && |last| == 8
    ensures AllPatched(SessionPacks(s, n, NO_NUMBERS), last) == SessionPacks(s, n, last)
  {
    hide BlockPacks, Patched, Fill;
    if n == 0 {
    } else {
      SessionPatched(s, n - 1, last);
      BlockPatched(s, n - 1, last);
      PatchedConcat(SessionPacks(s, n - 1, NO_NUMBERS), BlockPacks(s, n - 1, NO_NUMBERS), last);
    }
  }

  lemma NumbersOfCounters(s: Session)
    ensures LastOf(Counters(s, 8, 0)) == LastNumbers(s)
  {
    hide BlockSize, ToByte;
    ZeroByte();
  }

  lemma ZeroByte()
    ensures Byte(0) == 0
  {
    hide ToByte;
    Zero();
  }

  // ---------- the whole production

  lemma InitialBase(s: Session)
    requires IsSession(s)
    ensures BlockBase(s, 0) == Base([], seq(8, _ => 0), seq(16, _ => 0)) && IsBase(BlockBase(s, 0))
  {
    hide BlockSize;
    assert Counters(s, 0, 0) == seq(8, _ => 0);
    ZeroSum(8);
  }

  lemma {:induction false} ZeroSum(n: nat)
    ensures Sum(seq(n, _ => 0)) == 0
  {
    if n > 0 {
      assert seq(n, _ => 0)[..n - 1] == seq(n - 1, _ => 0);
      ZeroSum(n - 1);
    }
  }

  /** The text packs of a block, type by type. */
  method CreateTexts(crs: PackCursor, s: Session, block: nat) returns (ok: bool)
    requires IsSession(s) && block < 8 && s.cdtext[block].Some? && crs.trackOffset == s.firsttrack
    requires IsBase(BlockBase(s, block)) && crs.AtRest(BlockBase(s, block))
    modifies crs, crs.packs
    ensures !ok ==> BlockSize(s, block) > 255
    ensures ok ==> IsBase(TypeBase(s, block, 15)) && crs.AtRest(TypeBase(s, block, 15))
  {
    hide TypeBase, BlockBase, IsBase, After, PacksBelow, TypeCells, NumPacks, Holds;
    FirstType(s, block);
    ok := true;
    for ty := 0 to 15
      invariant IsBase(TypeBase(s, block, ty)) && crs.AtRest(TypeBase(s, block, ty))
    {
      ghost var b := TypeBase(s, block, ty);
      NextType(s, block, ty);
      BaseLengths(b);
      ok := crs.CreateTyblSPacks(s, ty, block, b);
      if !ok {
        PacksBelowGrow(s, ty + 1, 15, block);
        return;
      }
    }
  }

  lemma BaseLengths(b: Base)
    requires IsBase(b)
    ensures |b.hiseq| == 8 && |b.packCount| == 16
  {}

  /** burn_cdtext_from_session, if the packs are wanted. */
  method FromSession(s: Session) returns (ok: bool, textPacks: array<bv8>, numPacks: nat)
    requires IsSession(s)
    ensures ok <==> forall b: nat :: b < 8 ==> BlockSize(s, b) <= 255
    ensures ok ==> 18 * numPacks <= textPacks.Length && PacksIn(textPacks[..], numPacks) == Packs(s)
  {
    hide TypeBase, BlockBase, IsBase, PacksBelow, Holds, PacksIn, SizeInfo, BlockSize, LastNumbers, LastOf;
    var crs := new PackCursor(s.firsttrack);
    InitialBase(s);
    for block := 0 to 8
      invariant fresh(crs) && fresh(crs.packs) && crs.trackOffset == s.firsttrack
      invariant IsBase(BlockBase(s, block)) && crs.AtRest(BlockBase(s, block))
      invariant forall b: nat :: b < block ==> BlockSize(s, b) <= 255
    {
      if s.cdtext[block].None? {
        SkippedBlock(s, block);
      } else {
        ok := CreateTexts(crs, s, block);
        if !ok {
          return false, crs.packs, 0;
        }
        ghost var b := TypeBase(s, block, 15);
        CountsOfTypes(s, block);
        BaseLengths(b);
        NextBlock(s, block);
        ok := crs.CreateBlSizePacks(s, block, b);
        if !ok {
          return false, crs.packs, 0;
        }
        NextIsBase(s, block);
      }
    }
    AllBlocks(s);
    crs.InsertLastNumbers();
    SessionPatched(s, 8, LastNumbers(s));
    NumbersOfCounters(s);
    HoldsDone(crs.packs[..], crs.numPacks, crs.tdUsed, crs.done, crs.open);
    return true, crs.packs, crs.numPacks;
  }

  lemma CountsOfTypes(s: Session, n: nat)
    requires IsSession(s) && n < 8 && s.cdtext[n].Some?
    ensures |TypeBase(s, n, 15).packCount| == 16
    ensures forall ty :: 0 <= ty < 15 ==> TypeBase(s, n, 15).packCount[ty] == TypePacks(s, ty, n)
  {
    hide TypePacks;
  }

  lemma AfterSizeIsBase(s: Session, n: nat, b: Base)
    requires IsSession(s) && n < 8 && s.cdtext[n].Some? && IsBase(b) && b.hiseq[n] + 3 <= 255
    ensures IsBase(AfterSize(s, n, b))
  {
    hide SizeInfo, SizeCells, Sum, NumPacks, PacksOf;
    SumUpdate(b.hiseq, n, b.hiseq[n] + 3);
    ThreePacks();
    SizeLength(SizeInfo(s, n, NO_NUMBERS));
  }

  lemma SizeLength(info: Text)
    requires |info| == 36
    ensures |SizeCells(info)| == 36
  {}

  lemma NextIsBase(s: Session, n: nat)
    requires IsSession(s) && n < 8 && s.cdtext[n].Some? && BlockSize(s, n) <= 255
    requires IsBase(TypeBase(s, n, 15))
    ensures IsBase(BlockBase(s, n + 1))
  {
    hide TypeBase, BlockBase, AfterSize, BlockSize, Sum;
    NextBlock(s, n);
    AfterSizeIsBase(s, n, TypeBase(s, n, 15));
  }

  lemma AllBlocks(s: Session)
    requires IsSession(s)
    ensures BlockBase(s, 8).done == SessionPacks(s, 8, NO_NUMBERS) && BlockBase(s, 8).hiseq == Counters(s, 8, 0)
  {}

  lemma HoldsDone(bytes: seq<bv8>, n: nat, used: nat, done: seq<Pack>, open: seq<bv8>)
    requires |bytes| == 18 * MAX_PACKS && n <= MAX_PACKS && Holds(bytes, n, used, done, open)
    ensures PacksIn(bytes, n) == done
  {}
}
