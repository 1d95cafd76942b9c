/** The production of CD-TEXT packs in libburn/cdtext.c by a pack cursor. */
module CdTextCursor {
  import opened Bytes
  import opened Crc
  import opened CdText

  const MAX_PACKS := 2048

  function PackAt(bytes: seq<bv8>, i: nat): (p: Pack)
    requires 18 * i + 18 <= |bytes|
  {
    bytes[18 * i..18 * i + 18]
  }

  /** The first n packs of a buffer. */
  function PacksIn(bytes: seq<bv8>, n: nat): (ps: seq<Pack>)
    requires 18 * n <= |bytes|
    ensures |ps| == n
  {
    seq(n, i requires 0 <= i < n => PackAt(bytes, i))
  }

  function OpenBytes(bytes: seq<bv8>, n: nat, used: nat): seq<bv8>
    requires 18 * n + 18 <= |bytes| && used <= 12
  {
    bytes[18 * n..18 * n + 4 + used]
  }

  lemma SamePacks(before: seq<bv8>, after: seq<bv8>, n: nat)
    requires |before| == |after| && 18 * n <= |before|
    requires before[..18 * n] == after[..18 * n]
    ensures PacksIn(before, n) == PacksIn(after, n)
  {
    forall i | 0 <= i < n
      ensures PackAt(before, i) == PackAt(after, i)
    {
      assert before[18 * i..18 * i + 18] == before[..18 * n][18 * i..18 * i + 18];
      assert after[18 * i..18 * i + 18] == after[..18 * n][18 * i..18 * i + 18];
    }
  }

  /** The buffer holds n finalized packs and the start of an open one. */
  ghost predicate Holds(bytes: seq<bv8>, n: nat, used: nat, done: seq<Pack>, open: seq<bv8>)
    requires |bytes| == 18 * MAX_PACKS && n <= MAX_PACKS
  {
    && PacksIn(bytes, n) == done
    && (open == [] ==> used == 0)
    && (open != [] ==> |open| == 4 + used <= 16 && n < MAX_PACKS && OpenBytes(bytes, n, used) == open)
  }

  lemma HoldsHeader(before: seq<bv8>, after: seq<bv8>, n: nat, done: seq<Pack>, h: seq<bv8>)
    requires |before| == 18 * MAX_PACKS && n < MAX_PACKS && Holds(before, n, 0, done, []) && |h| == 4
    requires after == before[..18 * n] + h + before[18 * n + 4..]
    ensures Holds(after, n, 0, done, h)
  {
    SamePacks(before, after, n);
    hide PacksIn;
    assert OpenBytes(after, n, 0) == h;
  }

  lemma HoldsByte(before: seq<bv8>, n: nat, used: nat, done: seq<Pack>, open: seq<bv8>, value: bv8)
    requires |before| == 18 * MAX_PACKS && n < MAX_PACKS && Holds(before, n, used, done, open)
    requires open != [] && used < 12
    ensures Holds(before[18 * n + 4 + used := value], n, used + 1, done, open + [value])
  {
    var after := before[18 * n + 4 + used := value];
    assert after[..18 * n] == before[..18 * n];
    SamePacks(before, after, n);
    hide PacksIn;
    assert OpenBytes(after, n, used + 1) == open + [value];
  }

  lemma HoldsPack(before: seq<bv8>, after: seq<bv8>, n: nat, used: nat, done: seq<Pack>, open: seq<bv8>)
    requires |before| == |after| == 18 * MAX_PACKS && n < MAX_PACKS && Holds(before, n, used, done, open)
    requires before[..18 * n] == after[..18 * n]
    ensures Holds(after, n + 1, 0, done + [after[18 * n..18 * n + 18]], [])
  {
    OneMorePack(before, after, n);
    hide PacksIn;
  }

  /** State of a cursor without open pack. */
  datatype Base = Base(done: seq<Pack>, hiseq: seq<nat>, packCount: seq<nat>)

  function Sum(v: seq<nat>): nat {
    if v == [] then 0 else Sum(v[..|v| - 1]) + v[|v| - 1]
  }

  /** All created packs are numbered in their blocks, so there can be no more than 8 * 255. */
  ghost predicate IsBase(b: Base) {
    && |b.hiseq| == 8 && |b.packCount| == 16
    && (forall i :: 0 <= i < 8 ==> b.hiseq[i] <= 255)
    && |b.done| == Sum(b.hiseq)
  }

  lemma {:induction false} SumUpdate(v: seq<nat>, i: nat, x: nat)
    requires i < |v|
    ensures Sum(v[i := x]) == Sum(v) - v[i] + x
  {
    var last := |v| - 1;
    if i == last {
      assert v[i := x][..last] == v[..last];
    } else {
      SumUpdate(v[..last], i, x);
      assert v[i := x][..last] == v[..last][i := x];
    }
  }

  lemma {:induction false} SumBound(v: seq<nat>)
    requires forall i :: 0 <= i < |v| ==> v[i] <= 255
    ensures Sum(v) <= 255 * |v|
  {
    if v != [] {
      SumBound(v[..|v| - 1]);
    }
  }

  method PutFour(a: array<bv8>, idx: nat, b0: bv8, b1: bv8, b2: bv8, b3: bv8)
    requires idx + 4 <= a.Length
    modifies a
    ensures a[..] == old(a[..idx]) + [b0, b1, b2, b3] + old(a[idx + 4..])
  {
    a[idx] := b0;
    a[idx + 1] := b1;
    a[idx + 2] := b2;
    a[idx + 3] := b3;
  }

  lemma InvertedResidue(residue: bv32)
    requires residue < 0x10000
    ensures ((((residue ^ 0xffff) >> 8) & 0xff) as bv8) == Inverted(HighByte(residue))
    ensures (((residue ^ 0xffff) & 0xff) as bv8) == Inverted(LowByte(residue))
  {}

  /** Computes the checksum of 16 bytes and appends its inverse. */
  method Seal(packs: array<bv8>, idx: nat)
    requires idx + 18 <= packs.Length
    modifies packs
    ensures packs[..idx] == old(packs[..idx]) && packs[idx + 18..] == old(packs[idx + 18..])
    ensures packs[idx..idx + 18] == Sealed(old(packs[idx..idx + 16]))
  {
    hide Inverted, Crc11021, HighByte, LowByte;
    var crc := ComputeCrc(packs, idx, 16);
    ghost var q := CrcIsRemainder(packs[idx..idx + 16]);
    InvertedResidue(crc);
    var residue := crc ^ 0xffff;
    packs[idx + 16] := ((residue >> 8) & 0xff) as bv8;
    packs[idx + 17] := (residue & 0xff) as bv8;
    assert packs[idx..idx + 16] == old(packs[idx..idx + 16]);
  }

  lemma OneMorePack(before: seq<bv8>, after: seq<bv8>, n: nat)
    requires |before| == |after| && 18 * n + 18 <= |before|
    requires before[..18 * n] == after[..18 * n]
    ensures PacksIn(after, n + 1) == PacksIn(before, n) + [after[18 * n..18 * n + 18]]
  {
    SamePacks(before, after, n);
    forall i | 0 <= i < n
      ensures PacksIn(after, n + 1)[i] == PacksIn(after, n)[i]
    {}
  }

  // ---------- packs under construction

  lemma GrowLastChunk(c: Cells, x: Cell)
    requires |c| % 12 != 0
    ensures NumPacks(|c| + 1) == NumPacks(|c|)
    ensures forall i :: 0 <= i < NumPacks(|c|) - 1 ==> Chunk(c + [x], i) == Chunk(c, i)
    ensures Chunk(c + [x], NumPacks(|c|) - 1) == Chunk(c, NumPacks(|c|) - 1) + [x]
    ensures |Chunk(c, NumPacks(|c|) - 1)| == |c| - 12 * (NumPacks(|c|) - 1)
  {}

  lemma StartNewChunk(c: Cells, x: Cell)
    requires |c| % 12 == 0
    ensures NumPacks(|c| + 1) == NumPacks(|c|) + 1
    ensures forall i :: 0 <= i < NumPacks(|c|) ==> Chunk(c + [x], i) == Chunk(c, i)
    ensures Chunk(c + [x], NumPacks(|c|)) == [x]
  {}

  /** The finalized packs after another byte. */
  lemma PacksKept(ty: nat, block: nat, first: nat, c: Cells, x: Cell)
    ensures var n := if |c| % 12 == 0 then NumPacks(|c|) else NumPacks(|c|) - 1;
      n <= NumPacks(|c| + 1) && PacksOf(ty, block, first, c + [x])[..n] == PacksOf(ty, block, first, c)[..n]
  {
    hide MakePack, Chunk;
    if |c| % 12 == 0 {
      StartNewChunk(c, x);
    } else {
      GrowLastChunk(c, x);
    }
  }

  function OpenPack(ty: nat, block: nat, number: nat, c: Cells): (o: seq<bv8>)
    requires |c| > 0
    ensures |o| == 4 + |c|
  {
    MakeHeader(ty, block, number, c[0]) + Values(c)
  }

  lemma FinalizedPack(ty: nat, block: nat, number: nat, c: Cells)
    requires 0 < |c| <= 12
    ensures |OpenPack(ty, block, number, c) + Fill(12 - |c|)| == 16
    ensures Sealed(OpenPack(ty, block, number, c) + Fill(12 - |c|)) == MakePack(ty, block, number, c)
  {
    hide MakeHeader, Sealed;
    assert DataField(c) == Values(c) + Fill(12 - |c|);
    assert OpenPack(ty, block, number, c) + Fill(12 - |c|) == MakeHeader(ty, block, number, c[0]) + DataField(c);
  }

  lemma HoldsSizes(bytes: seq<bv8>, n: nat, used: nat, done: seq<Pack>, open: seq<bv8>)
    requires |bytes| == 18 * MAX_PACKS && n <= MAX_PACKS && Holds(bytes, n, used, done, open)
    ensures |done| == n && (open == [] ==> used == 0)
    ensures open != [] ==> |open| == 4 + used <= 16 && n < MAX_PACKS && bytes[18 * n..18 * n + 4 + used] == open
  {}

  /** Fills the rest of a pack content by 0. */
  method FillUp(packs: array<bv8>, idx: nat, ghost open: seq<bv8>, from: nat)
    requires idx + 16 <= packs.Length && from == |open| <= 16 && packs[idx..idx + from] == open
    modifies packs
    ensures packs[..idx] == old(packs[..idx]) && packs[idx..idx + 16] == open + Fill(16 - |open|)
  {
    for i := from to 16
      invariant packs[..idx] == old(packs[..idx])
      invariant packs[idx..idx + i] == open + Fill(i - |open|)
    {
      packs[idx + i] := 0;
    }
  }

  class PackCursor {
    const packs: array<bv8>
    var numPacks: nat
    var tdUsed: nat
    var hiseq: seq<nat>
    var packCount: seq<nat>
    const trackOffset: nat

    /** The finalized packs. */
    ghost var done: seq<Pack>
    /** Header and text of the pack which is not yet finalized, or []. */
    ghost var open: seq<bv8>

    ghost predicate Valid()
      reads this, packs
    {
      && packs.Length == 18 * MAX_PACKS && numPacks <= MAX_PACKS && |hiseq| == 8 && |packCount| == 16
      && Holds(packs[..], numPacks, tdUsed, done, open)
    }

    constructor (trackOffset: nat)
      ensures Valid() && fresh(packs) && this.trackOffset == trackOffset
      ensures done == [] && open == []
      ensures hiseq == seq(8, _ => 0) && packCount == seq(16, _ => 0)
    {
      packs := new bv8[18 * MAX_PACKS](_ => 0);
      numPacks, tdUsed := 0, 0;
      hiseq, packCount := seq(8, _ => 0), seq(16, _ => 0);
      this.trackOffset := trackOffset;
      done, open := [], [];
    }

    /** burn_create_new_pack */
    method CreateNewPack(ty: nat, track: nat, block: nat, charPos: int, ghost cell: Cell) returns (ok: bool)
      requires Valid() && open == [] && ty < 16 && block < 8
      requires cell.track == track && cell.pos == CharPos(charPos)
      modifies this`tdUsed, this`hiseq, this`packCount, this`open, packs
      ensures Valid() && ok == (|done| < MAX_PACKS && old(hiseq[block]) < 255)
      ensures ok ==> hiseq == old(hiseq[block := hiseq[block] + 1])
      ensures ok ==> packCount == old(packCount[ty := packCount[ty] + 1])
      ensures ok ==> tdUsed == 0 && open == MakeHeader(ty, block, old(hiseq[block]), cell)
      ensures !ok ==> open == []
    {
      hide Byte, PacksIn, Holds, ToNat, ToByte;
      HoldsSizes(packs[..], numPacks, tdUsed, done, open);
      if numPacks >= MAX_PACKS {
        return false;
      }
      if hiseq[block] >= 255 {
        return false;
      }
      var pos := charPos;
      if pos > 15 {
        pos := 15;
      } else if pos < 0 {
        pos := 0;
      }
      ghost var before, header := packs[..], MakeHeader(ty, block, hiseq[block], cell);
      var idx := numPacks * 18;
      PutFour(packs, idx, Byte(0x80 + ty), Byte(track), Byte(hiseq[block]), Byte(16 * block + pos));
      HoldsHeader(before, packs[..], numPacks, done, header);
      open := header;
      hiseq := hiseq[block := hiseq[block] + 1];
      tdUsed := 0;
      packCount := packCount[ty := packCount[ty] + 1];
      return true;
    }

    /** burn_finalize_text_pack */
    method FinalizeTextPack()
      requires Valid() && open != []
      modifies this`numPacks, this`tdUsed, this`done, this`open, packs
      ensures Valid() && open == []
      ensures done == old(done) + [Sealed(old(open) + Fill(16 - old(|open|)))]
    {
      hide PacksIn, Sealed, Holds;
      HoldsSizes(packs[..], numPacks, tdUsed, done, open);
      var idx := 18 * numPacks;
      ghost var before, pack := packs[..], open + Fill(16 - |open|);
      FillUp(packs, idx, open, 4 + tdUsed);
      tdUsed := 12;
      Seal(packs, idx);
      HoldsPack(before, packs[..], numPacks, old(tdUsed), done, open);
      numPacks := numPacks + 1;
      tdUsed := 0;
      done := done + [Sealed(pack)];
      open := [];
    }

    method StoreByte(value: bv8)
      requires Valid() && open != [] && tdUsed < 12
      modifies this`tdUsed, this`open, packs
      ensures Valid() && open == old(open) + [value]
    {
      hide PacksIn, Holds;
      HoldsSizes(packs[..], numPacks, tdUsed, done, open);
      HoldsByte(packs[..], numPacks, tdUsed, done, open, value);
      packs[numPacks * 18 + 4 + tdUsed] := value;
      tdUsed := tdUsed + 1;
      open := open + [value];
    }

    // ---------- texts

    /** State while cells c of one type have been written since the base state b. */
    ghost predicate Writing(b: Base, ty: nat, block: nat, c: Cells)
      requires IsBase(b) && ty < 16 && block < 8
      reads this, packs
    {
      var n, first := NumPacks(|c|), b.hiseq[block];
      && Valid()
      && hiseq == b.hiseq[block := first + n]
      && packCount == b.packCount[ty := b.packCount[ty] + n]
      && first + n <= 255
      && done == b.done + FullPacks(ty, block, first, c)
      && open == LastPack(ty, block, first, c)
    }

    /** Begins a pack after the previous one has been filled. */
    method NextPack(ty: nat, track: nat, block: nat, charPos: int, ghost cell: Cell, ghost b: Base, ghost c: Cells)
      returns (ok: bool)
      requires IsBase(b) && ty < 16 && block < 8 && Writing(b, ty, block, c) && |c| % 12 == 0
      requires cell.track == track && cell.pos == CharPos(charPos)
      modifies this`numPacks, this`tdUsed, this`hiseq, this`packCount, this`done, this`open, packs
      ensures ok == (b.hiseq[block] + NumPacks(|c|) < 255)
      ensures ok ==> Valid() && tdUsed == 0
      ensures ok ==> hiseq == b.hiseq[block := b.hiseq[block] + NumPacks(|c|) + 1]
      ensures ok ==> packCount == b.packCount[ty := b.packCount[ty] + NumPacks(|c|) + 1]
      ensures ok ==> done == b.done + PacksOf(ty, block, b.hiseq[block], c)
      ensures ok ==> open == MakeHeader(ty, block, b.hiseq[block] + NumPacks(|c|), cell)
    {
      hide Holds, PacksOf, FullPacks, LastPack, MakeHeader, Sum, Sealed, NumPacks, Fill, CharPos;
      ghost var first := b.hiseq[block];
      LastPackSize(ty, block, first, c);
      FinishedPacks(ty, block, first, c);
      RoomForPacks(b, block, NumPacks(|c|));
      HoldsSizes(packs[..], numPacks, tdUsed, done, open);
      if tdUsed > 0 {
        FinalizeTextPack();
      }
      ok := CreateNewPack(ty, track, block, charPos, cell);
    }

    /** One round of the loop in burn_create_tybl_packs. */
    method AddByte(ty: nat, track: nat, block: nat, charPos: int, value: bv8, ghost b: Base, ghost c: Cells)
      returns (ok: bool)
      requires IsBase(b) && ty < 16 && block < 8 && Writing(b, ty, block, c)
      modifies this`numPacks, this`tdUsed, this`hiseq, this`packCount, this`done, this`open, packs
      ensures ok == (b.hiseq[block] + NumPacks(|c| + 1) <= 255)
      ensures ok ==> Writing(b, ty, block, c + [Cell(value, track, CharPos(charPos))])
    {
      hide Holds, PacksOf, FullPacks, LastPack, MakeHeader, Sum, CharPos, NumPacks;
      ghost var cell := Cell(value, track, CharPos(charPos));
      ghost var first := b.hiseq[block];
      LastPackSize(ty, block, first, c);
      MorePacks(ty, block, first, c, cell);
      HoldsSizes(packs[..], numPacks, tdUsed, done, open);
      if tdUsed == 0 || tdUsed >= 12 {
        ok := NextPack(ty, track, block, charPos, cell, b, c);
        if !ok {
          return;
        }
      } else {
        ok := true;
      }
      StoreByte(value);
    }

    /** burn_create_tybl_packs */
    method CreateTyblPacks(payload: Text, track: nat, ty: nat, block: nat, ghost b: Base, ghost c: Cells)
      returns (ok: bool)
      requires IsBase(b) && ty < 16 && block < 8 && Writing(b, ty, block, c)
      modifies this`numPacks, this`tdUsed, this`hiseq, this`packCount, this`done, this`open, packs
      ensures ok == (b.hiseq[block] + NumPacks(|c| + |payload|) <= 255)
      ensures ok ==> Writing(b, ty, block, c + CellsOf(ty, payload, track))
    {
      hide Writing, CellsOf, NumPacks, Sum;
      var binaryPart := 0;
      if ty == 0x7 {
        binaryPart := 2;
      } else if 0x8 <= ty <= 0xc || ty == 0xf {
        binaryPart := |payload|;
      }
      ghost var cells := CellsOf(ty, payload, track);
      assert c + cells[..0] == c;
      NumPacksMonotone(|c|, |c| + |payload|);
      WritingFits(b, ty, block, c);
      ok := true;
      for i := 0 to |payload|
        invariant Writing(b, ty, block, c + cells[..i]) && b.hiseq[block] + NumPacks(|c| + i) <= 255
      {
        CellAt(ty, payload, track, i);
        assert c + cells[..i + 1] == c + cells[..i] + [cells[i]];
        ok := AddByte(ty, track, block, i - binaryPart, payload[i], b, c + cells[..i]);
        if !ok {
          NumPacksMonotone(|c| + i + 1, |c| + |payload|);
          return;
        }
      }
      assert cells[..|payload|] == cells;
    }

    lemma WritingFits(b: Base, ty: nat, block: nat, c: Cells)
      requires IsBase(b) && ty < 16 && block < 8 && Writing(b, ty, block, c)
      ensures b.hiseq[block] + NumPacks(|c|) <= 255
    {}

    ghost predicate AtRest(b: Base)
      reads this, packs
    {
      Valid() && done == b.done && open == [] && hiseq == b.hiseq && packCount == b.packCount
    }

    lemma RestIsWriting(b: Base, ty: nat, block: nat)
      requires IsBase(b) && ty < 16 && block < 8
      ensures AtRest(b) <==> Writing(b, ty, block, [])
    {
      FinishedPacks(ty, block, b.hiseq[block], []);
      LastPackSize(ty, block, b.hiseq[block], []);
      hide Holds, FullPacks, LastPack, Sum;
      assert b.hiseq[block := b.hiseq[block] + 0] == b.hiseq;
      assert b.packCount[ty := b.packCount[ty] + 0] == b.packCount;
    }

    /** The last pack of a type gets filled up by 0. */
    method FinishType(ghost b: Base, ghost ty: nat, ghost block: nat, ghost c: Cells)
      requires IsBase(b) && ty < 16 && block < 8 && Writing(b, ty, block, c) && c != []
      modifies this`numPacks, this`tdUsed, this`done, this`open, packs
      ensures AtRest(After(b, ty, block, c)) && IsBase(After(b, ty, block, c))
    {
      hide Holds, PacksOf, FullPacks, LastPack, MakeHeader, Sum, Sealed, NumPacks, Fill;
      ghost var first := b.hiseq[block];
      LastPackSize(ty, block, first, c);
      FinishedPacks(ty, block, first, c);
      AfterIsBase(b, ty, block, c);
      FinalizeTextPack();
    }

    // ---------- texts of tracks and session

    /** burn_create_tybl_t_packs */
    method CreateTyblTPacks(t: Blocks, track: nat, ty: nat, block: nat, useTab: bool, ghost b: Base, ghost c: Cells)
      returns (ok: bool)
      requires IsBase(b) && ty < 16 && block < 8 && Writing(b, ty, block, c)
      modifies this`numPacks, this`tdUsed, this`hiseq, this`packCount, this`done, this`open, packs
      ensures var text := if useTab then TAB_TEXT else TrackText(t, ty, block);
        && ok == (b.hiseq[block] + NumPacks(|c| + |text|) <= 255)
        && (ok ==> Writing(b, ty, block, c + CellsOf(ty, text, track)))
    {
      hide Writing, CellsOf, NumPacks, IsBase;
      var payload: Text := [];
      if t[block].Some? && |t[block].value[ty]| > 0 {
        payload := t[block].value[ty];
      }
      if payload == [] {
        payload := [0];
      }
      if useTab {
        payload := [9, 0];
      }
      ok := CreateTyblPacks(payload, track, ty, block, b, c);
    }

    /** burn_create_tybl_s_packs */
    method CreateTyblSPacks(s: Session, ty: nat, block: nat, ghost b: Base) returns (ok: bool)
      requires IsBase(b) && ty < 15 && block < 8 && s.cdtext[block].Some? && trackOffset == s.firsttrack
      requires AtRest(b)
      modifies this`numPacks, this`tdUsed, this`hiseq, this`packCount, this`done, this`open, packs
      ensures ok == (b.hiseq[block] + TypePacks(s, ty, block) <= 255)
      ensures ok ==> IsBase(After(b, ty, block, TypeCells(s, ty, block)))
      ensures ok ==> AtRest(After(b, ty, block, TypeCells(s, ty, block)))
    {
      hide Writing, AtRest, CellsOf, NumPacks, Sum, After;
      var cdt := s.cdtext[block].value;
      RestIsWriting(b, ty, block);
      AfterNothing(b, ty, block);
      TypeCellsShape(s, ty, block);
      if cdt[ty] == [] {
        return true;
      }
      ghost var c := CellsOf(ty, cdt[ty], 0);
      ghost var all := TypeCells(s, ty, block);
      NumPacksMonotone(|c|, |all|);
      assert [] + c == c;
      ok := CreateTyblPacks(cdt[ty], 0, ty, block, b, []);
      if !ok {
        return;
      }
      if ty > 0x5 && ty != 0xe {
        WritingFits(b, ty, block, c);
        FinishType(b, ty, block, c);
        return;
      }
      assert c + TrackCells(s, 0, ty, block) == c;
      for i := 0 to |s.tracks|
        invariant ok && Writing(b, ty, block, c + TrackCells(s, i, ty, block))
      {
        ghost var before := c + TrackCells(s, i, ty, block);
        var useTab := false;
        if i > 0 {
          useTab := DecideTab(s.tracks[i][block], s.tracks[i - 1][block], ty);
        }
        NextTrackCells(s, i, ty, block, c);
        ok := CreateTyblTPacks(s.tracks[i], i + trackOffset, ty, block, useTab, b, before);
        if !ok {
          NumPacksMonotone(|c + TrackCells(s, i + 1, ty, block)|, |all|);
          return;
        }
      }
      WritingFits(b, ty, block, all);
      FinishType(b, ty, block, all);
    }

    /** burn_create_bl_size_packs: the last sequence numbers are not known yet. */
    method CreateBlSizePacks(s: Session, block: nat, ghost b: Base) returns (ok: bool)
      requires IsBase(b) && AtRest(b) && IsSession(s) && block < 8 && s.cdtext[block].Some?
      requires trackOffset == s.firsttrack
      requires forall ty :: 0 <= ty < 15 ==> packCount[ty] == TypePacks(s, ty, block)
      modifies this`numPacks, this`tdUsed, this`hiseq, this`packCount, this`done, this`open, packs
      ensures ok == (b.hiseq[block] + 3 <= 255)
      ensures ok ==> AtRest(Base(
        b.done + PacksOf(0xf, block, b.hiseq[block], SizeCells(SizeInfo(s, block, Fill(8)))),
        b.hiseq[block := b.hiseq[block] + 3], seq(16, _ => 0)))
    {
      hide Writing, CellsOf, NumPacks, Sum, TypePacks, Holds, Byte, PacksOf, SizeInfo;
      RestIsWriting(b, 0xf, block);
      ghost var info := SizeInfo(s, block, Fill(8));
      var first := [s.charCodes[block], Byte(trackOffset), Byte(|s.tracks| + trackOffset - 1), s.copyrights[block]]
        + CountBytes(packCount, 0, 8);
      var second := CountBytes(packCount, 8, 7) + [3] + [0, 0, 0, 0];
      var third := [0, 0, 0, 0] + s.languages;
      SizePayloads(s, block, first, second, third);
      ThreePacks();
      ghost var c1 := CellsOf(0xf, first, 0);
      ghost var c2 := c1 + CellsOf(0xf, second, 1);
      ghost var c3 := c2 + CellsOf(0xf, third, 2);
      assert [] + c1 == c1 && c3 == SizeCells(info);
      ok := CreateTyblPacks(first, 0, 0xf, block, b, []);
      if !ok {
        return;
      }
      ok := CreateTyblPacks(second, 1, 0xf, block, b, c1);
      if !ok {
        return;
      }
      ok := CreateTyblPacks(third, 2, 0xf, block, b, c2);
      if !ok {
        return;
      }
      FinishType(b, 0xf, block, c3);
      packCount := seq(16, _ => 0);
    }

    // ---------- the late patch

    /** Replaces four bytes of pack i and seals the pack again. */
    method ReplaceFour(i: nat, at: nat, four: Text)
      requires Valid() && open == [] && i < numPacks && at <= 12 && |four| == 4
      modifies this`done, packs
      ensures Valid() && i < |old(done)|
      ensures var p := old(done)[i]; done == old(done)[i := Sealed(p[..at] + four + p[at + 4..16])]
    {
      hide Holds, PacksIn, Sealed;
      HoldsSizes(packs[..], numPacks, tdUsed, done, open);
      HoldsAt(packs[..], numPacks, tdUsed, done, open, i);
      ghost var before, p := packs[..], done[i];
      PutFour(packs, i * 18 + at, four[0], four[1], four[2], four[3]);
      assert [four[0], four[1], four[2], four[3]] == four;
      Spliced(before, packs[..], i * 18, at, four);
      Seal(packs, i * 18);
      HoldsChanged(before, packs[..], numPacks, done, i);
      done := done[i := Sealed(p[..at] + four + p[at + 4..16])];
    }

    /** Patches pack i if it is the second or third of type 0x8f. */
    method PatchPack(i: nat, last: Text)
      requires Valid() && open == [] && i < numPacks && |last| == 8
      modifies this`done, packs
      ensures Valid() && done == old(done)[i := Patched(old(done[i]), last)]
    {
      hide Holds, PacksIn, Sealed, ToNat;
      HoldsSizes(packs[..], numPacks, tdUsed, done, open);
      HoldsAt(packs[..], numPacks, tdUsed, done, open, i);
      ghost var p := done[i];
      assert packs[i * 18] == p[0] && packs[i * 18 + 1] == p[1];
      if ToNat(packs[i * 18]) == 0x8f && ToNat(packs[i * 18 + 1]) == 1 {
        assert p[..12] + last[..4] + p[16..16] == p[..12] + last[..4];
        ReplaceFour(i, 12, last[..4]);
      } else if ToNat(packs[i * 18]) == 0x8f && ToNat(packs[i * 18 + 1]) == 2 {
        ReplaceFour(i, 4, last[4..]);
      } else {
        assert done == done[i := p];
      }
    }

    /** The loop at the end of burn_cdtext_from_session. */
    method InsertLastNumbers()
      requires Valid() && open == []
      modifies this`done, packs
      ensures Valid() && open == [] && done == AllPatched(old(done), LastOf(hiseq))
    {
      hide Holds, Patched, LastOf;
      HoldsSizes(packs[..], numPacks, tdUsed, done, open);
      for i := 0 to numPacks
        invariant Valid() && |done| == numPacks
        invariant done[..i] == AllPatched(old(done), LastOf(hiseq))[..i] && done[i..] == old(done)[i..]
      {
        PatchPack(i, LastOf(hiseq));
      }
    }
  }

  /** The highest sequence numbers from the counters. */
  function LastOf(hiseq: seq<nat>): (last: Text)
    requires |hiseq| == 8
    ensures |last| == 8
  {
    seq(8, j requires 0 <= j < 8 => if hiseq[j] > 0 then Byte(hiseq[j] - 1) else 0)
  }

  /** A pack after insertion of the highest sequence numbers, if it is one which tells them. */
  function Patched(p: Pack, last: Text): Pack
    requires |last| == 8
  {
    if ToNat(p[0]) == 0x8f && ToNat(p[1]) == 1 then Sealed(p[..12] + last[..4])
    else if ToNat(p[0]) == 0x8f && ToNat(p[1]) == 2 then Sealed(p[..4] + last[4..] + p[8..16])
    else p
  }

  function AllPatched(ps: seq<Pack>, last: Text): (r: seq<Pack>)
    requires |last| == 8
    ensures |r| == |ps| && forall i :: 0 <= i < |ps| ==> r[i] == Patched(ps[i], last)
  {
    seq(|ps|, i requires 0 <= i < |ps| => Patched(ps[i], last))
  }

  lemma Spliced(before: seq<bv8>, after: seq<bv8>, idx: nat, at: nat, four: seq<bv8>)
    requires idx + 18 <= |before| && at <= 12 && |four| == 4
    requires after == before[..idx + at] + four + before[idx + at + 4..]
    ensures var p := before[idx..idx + 18]; after[idx..idx + 16] == p[..at] + four + p[at + 4..16]
    ensures after[..idx] == before[..idx] && after[idx + 18..] == before[idx + 18..]
  {
    SplicedPoints(before, after, idx + at, four);
    var p := before[idx..idx + 18];
    var x, y := after[idx..idx + 16], p[..at] + four + p[at + 4..16];
    forall k | 0 <= k < 16
      ensures x[k] == y[k]
    {
      assert x[k] == after[idx + k];
    }
  }

  lemma SplicedPoints(before: seq<bv8>, after: seq<bv8>, s: nat, four: seq<bv8>)
    requires s + 4 <= |before| && |four| == 4 && after == before[..s] + four + before[s + 4..]
    ensures |after| == |before|
    ensures forall k :: 0 <= k < |before| ==> after[k] == if s <= k < s + 4 then four[k - s] else before[k]
  {}

  lemma HoldsAt(bytes: seq<bv8>, n: nat, used: nat, done: seq<Pack>, open: seq<bv8>, i: nat)
    requires |bytes| == 18 * MAX_PACKS && n <= MAX_PACKS && Holds(bytes, n, used, done, open) && i < n
    ensures |done| == n && bytes[18 * i..18 * i + 18] == done[i]
  {
    assert PacksIn(bytes, n)[i] == PackAt(bytes, i);
  }

  lemma HoldsChanged(before: seq<bv8>, after: seq<bv8>, n: nat, done: seq<Pack>, i: nat)
    requires |before| == |after| == 18 * MAX_PACKS && i < n <= MAX_PACKS && Holds(before, n, 0, done, [])
    requires after[..18 * i] == before[..18 * i] && after[18 * i + 18..] == before[18 * i + 18..]
    ensures |done| == n && Holds(after, n, 0, done[i := after[18 * i..18 * i + 18]], [])
  {
    forall k | 0 <= k < n && k != i
      ensures PackAt(after, k) == PackAt(before, k)
    {
      if k < i {
        assert after[18 * k..18 * k + 18] == after[..18 * i][18 * k..18 * k + 18];
        assert before[18 * k..18 * k + 18] == before[..18 * i][18 * k..18 * k + 18];
      } else {
        var d := 18 * (k - i - 1);
        assert after[18 * k..18 * k + 18] == after[18 * i + 18..][d..d + 18];
        assert before[18 * k..18 * k + 18] == before[18 * i + 18..][d..d + 18];
      }
    }
    assert PacksIn(after, n) == PacksIn(before, n)[i := PackAt(after, i)];
  }

  function CountBytes(count: seq<nat>, from: nat, n: nat): (t: Text)
    requires from + n <= |count|
    ensures |t| == n && forall i :: 0 <= i < n ==> t[i] == Byte(count[from + i])
  {
    seq(n, i requires 0 <= i < n => Byte(count[from + i]))
  }

  lemma ThreePacks()
    ensures NumPacks(0) == 0 && NumPacks(12) == 1 && NumPacks(24) == 2 && NumPacks(36) == 3
  {}

  lemma SizePayloads(s: Session, block: nat, first: Text, second: Text, third: Text)
    requires IsSession(s) && block < 8 && s.cdtext[block].Some?
    requires |first| == 12 && |second| == 12 && |third| == 12
    requires first[..4]
      == [s.charCodes[block], Byte(s.firsttrack), Byte(|s.tracks| + s.firsttrack - 1), s.copyrights[block]]
    requires forall ty :: 0 <= ty < 8 ==> first[4 + ty] == Byte(TypePacks(s, ty, block))
    requires forall ty :: 8 <= ty < 15 ==> second[ty - 8] == Byte(TypePacks(s, ty, block))
    requires second[7..] == [3, 0, 0, 0, 0] && third == [0, 0, 0, 0] + s.languages
    ensures var info := SizeInfo(s, block, Fill(8));
      info[..12] == first && info[12..24] == second && info[24..] == third
  {
    hide TypePacks, Byte;
    var info := SizeInfo(s, block, Fill(8));
    assert info == first + second + third by {
      assert first == first[..4] + first[4..];
      assert second == second[..7] + second[7..];
    }
  }

  /** burn_decide_cdtext_tab */
  method DecideTab(curr: Option<Block>, prev: Option<Block>, ty: nat) returns (useTab: bool)
    requires ty < 16
    ensures useTab == (curr.Some? && prev.Some? && curr.value[ty] == prev.value[ty] && |curr.value[ty]| > 1)
  {
    if curr.None? || prev.None? {
      return false;
    }
    var length := |curr.value[ty]|;
    if length != |prev.value[ty]| || length <= 1 {
      return false;
    }
    for j := 0 to length
      invariant curr.value[ty][..j] == prev.value[ty][..j]
    {
      if curr.value[ty][j] != prev.value[ty][j] {
        return false;
      }
    }
    return true;
  }

  lemma AfterNothing(b: Base, ty: nat, block: nat)
    requires IsBase(b) && ty < 16 && block < 8
    ensures After(b, ty, block, []) == b && NumPacks(0) == 0
  {
    hide Sum;
    assert b.hiseq[block := b.hiseq[block] + 0] == b.hiseq;
    assert b.packCount[ty := b.packCount[ty] + 0] == b.packCount;
  }

  lemma {:induction false} TrackCellsGrow(s: Session, i: nat, n: nat, ty: nat, block: nat)
    requires i <= n <= |s.tracks| && ty < 16 && block < 8
    ensures |TrackCells(s, i, ty, block)| <= |TrackCells(s, n, ty, block)|
  {
    hide WrittenText, CellsOf;
    if i < n {
      TrackCellsGrow(s, i, n - 1, ty, block);
    }
  }

  lemma TypeCellsShape(s: Session, ty: nat, block: nat)
    requires ty < 16 && block < 8 && s.cdtext[block].Some?
    ensures var payload := s.cdtext[block].value[ty];
      && (payload == [] ==> TypeCells(s, ty, block) == [])
      && (payload != [] && HasTrackTexts(ty) ==>
        TypeCells(s, ty, block) == CellsOf(ty, payload, 0) + TrackCells(s, |s.tracks|, ty, block))
      && (payload != [] && !HasTrackTexts(ty) ==> TypeCells(s, ty, block) == CellsOf(ty, payload, 0))
  {
    hide CellsOf, TrackCells;
  }

  lemma NextTrackCells(s: Session, i: nat, ty: nat, block: nat, c: Cells)
    requires i < |s.tracks| && ty < 16 && block < 8
    ensures var text := WrittenText(s.tracks, i, ty, block);
      var next := c + TrackCells(s, i + 1, ty, block);
      && next == c + TrackCells(s, i, ty, block) + CellsOf(ty, text, i + s.firsttrack)
      && |next| == |c + TrackCells(s, i, ty, block)| + |text|
      && |next| <= |c + TrackCells(s, |s.tracks|, ty, block)|
  {
    hide WrittenText, CellsOf;
    TrackCellsGrow(s, i + 1, |s.tracks|, ty, block);
  }

  lemma NumPacksMonotone(m: nat, n: nat)
    requires m <= n
    ensures NumPacks(m) <= NumPacks(n)
  {}

  lemma CellAt(ty: nat, payload: Text, track: nat, i: nat)
    requires i < |payload|
    ensures CellsOf(ty, payload, track)[i] == Cell(payload[i], track, CharPos(i - BinaryPart(ty, |payload|)))
  {}

  /** The base state after the packs of a type. */
  ghost function After(b: Base, ty: nat, block: nat, c: Cells): Base
    requires IsBase(b) && ty < 16 && block < 8
  {
    var n := NumPacks(|c|);
    Base(b.done + PacksOf(ty, block, b.hiseq[block], c),
         b.hiseq[block := b.hiseq[block] + n], b.packCount[ty := b.packCount[ty] + n])
  }

  lemma AfterIsBase(b: Base, ty: nat, block: nat, c: Cells)
    requires IsBase(b) && ty < 16 && block < 8 && b.hiseq[block] + NumPacks(|c|) <= 255
    ensures IsBase(After(b, ty, block, c))
  {
    SumUpdate(b.hiseq, block, b.hiseq[block] + NumPacks(|c|));
    hide Sum, PacksOf;
  }

  // ---------- what the cursor holds while it writes cells

  /** The finalized packs. */
  function FullPacks(ty: nat, block: nat, first: nat, c: Cells): seq<Pack> {
    if c == [] then [] else PacksOf(ty, block, first, c)[..NumPacks(|c|) - 1]
  }

  /** The open pack. */
  function LastPack(ty: nat, block: nat, first: nat, c: Cells): seq<bv8> {
    if c == [] then [] else
      var n := NumPacks(|c|);
      OpenPack(ty, block, first + n - 1, Chunk(c, n - 1))
  }

  lemma LastPackSize(ty: nat, block: nat, first: nat, c: Cells)
    ensures LastPack(ty, block, first, c) == [] <==> c == []
    ensures c != [] ==> |LastPack(ty, block, first, c)| == 4 + |c| - 12 * (NumPacks(|c|) - 1)
    ensures |c| % 12 == 0 <==> c == [] || |LastPack(ty, block, first, c)| == 16
    ensures |LastPack(ty, block, first, c)| <= 16
  {
    hide MakeHeader, Values;
    if c != [] {
      LastChunk(c);
    }
  }

  lemma LastChunk(c: Cells)
    requires c != []
    ensures var n := NumPacks(|c|);
      n > 0 && |Chunk(c, n - 1)| == |c| - 12 * (n - 1) && (|c| % 12 == 0 <==> |c| == 12 * n)
  {}

  /** Finalizing the last pack completes the packs of the cells. */
  lemma FinishedPacks(ty: nat, block: nat, first: nat, c: Cells)
    ensures c == [] ==> PacksOf(ty, block, first, c) == [] && FullPacks(ty, block, first, c) == []
    ensures c != [] ==>
      var open := LastPack(ty, block, first, c);
      && |open| <= 16 && |open + Fill(16 - |open|)| == 16
      && FullPacks(ty, block, first, c) + [Sealed(open + Fill(16 - |open|))] == PacksOf(ty, block, first, c)
  {
    hide MakePack, Sealed, MakeHeader, PacksOf, OpenPack, Chunk;
    PacksEnd(ty, block, first, c);
    if c != [] {
      var n := NumPacks(|c|);
      FinalizedPack(ty, block, first + n - 1, Chunk(c, n - 1));
    }
  }

  lemma PacksEnd(ty: nat, block: nat, first: nat, c: Cells)
    ensures var ps := PacksOf(ty, block, first, c);
      if c == [] then ps == []
      else
        var n := NumPacks(|c|);
        n > 0 && ps[n - 1] == MakePack(ty, block, first + n - 1, Chunk(c, n - 1)) && ps == ps[..n - 1] + [ps[n - 1]]
  {
    hide MakePack, Chunk;
  }

  /** The effect of another byte if the last pack is full or there is none. */
  lemma PackStarted(ty: nat, block: nat, first: nat, c: Cells, x: Cell)
    requires |c| % 12 == 0
    ensures NumPacks(|c| + 1) == NumPacks(|c|) + 1
    ensures FullPacks(ty, block, first, c + [x]) == PacksOf(ty, block, first, c)
    ensures LastPack(ty, block, first, c + [x]) == MakeHeader(ty, block, first + NumPacks(|c|), x) + [x.value]
  {
    hide PacksOf, MakeHeader, Chunk;
    PacksKept(ty, block, first, c, x);
    StartNewChunk(c, x);
  }

  lemma PackGrown(ty: nat, block: nat, first: nat, c: Cells, x: Cell)
    requires |c| % 12 != 0
    ensures NumPacks(|c| + 1) == NumPacks(|c|)
    ensures FullPacks(ty, block, first, c + [x]) == FullPacks(ty, block, first, c)
    ensures LastPack(ty, block, first, c + [x]) == LastPack(ty, block, first, c) + [x.value]
  {
    hide PacksOf, MakeHeader, Chunk;
    PacksKept(ty, block, first, c, x);
    GrowLastChunk(c, x);
  }

  /** The effect of another byte. */
  lemma MorePacks(ty: nat, block: nat, first: nat, c: Cells, x: Cell)
    ensures |c| % 12 == 0 ==>
      && NumPacks(|c| + 1) == NumPacks(|c|) + 1
      && FullPacks(ty, block, first, c + [x]) == PacksOf(ty, block, first, c)
      && LastPack(ty, block, first, c + [x]) == MakeHeader(ty, block, first + NumPacks(|c|), x) + [x.value]
    ensures |c| % 12 != 0 ==>
      && NumPacks(|c| + 1) == NumPacks(|c|)
      && FullPacks(ty, block, first, c + [x]) == FullPacks(ty, block, first, c)
      && LastPack(ty, block, first, c + [x]) == LastPack(ty, block, first, c) + [x.value]
  {
    hide *;
    if |c| % 12 == 0 {
      PackStarted(ty, block, first, c, x);
    } else {
      PackGrown(ty, block, first, c, x);
    }
  }

  /** The check for 2048 packs never strikes: there are at most 255 in each of the 8 blocks. */
  lemma RoomForPacks(b: Base, block: nat, n: nat)
    requires IsBase(b) && block < 8 && b.hiseq[block] + n <= 255
    ensures |b.done| + n < MAX_PACKS
  {
    SumUpdate(b.hiseq, block, b.hiseq[block] + n);
    SumBound(b.hiseq[block := b.hiseq[block] + n]);
  }
}
