/** What headers and data of the packs tell about the texts of a session, without regard to how packs get made. */
module CdTextHeaders {
  import opened Bytes
  import opened CdText
  import opened CdTextReading
  import opened CdTextRoundTrip

  // ---------- counting in text bytes

  /** The number of 0 bytes. */
  function Zeros(d: Text): nat {
    if d == [] then 0 else Zeros(d[..|d| - 1]) + if d[|d| - 1] == 0 then 1 else 0
  }

  /** The number of bytes after the last 0. */
  function SinceZero(d: Text): nat {
    if d == [] || d[|d| - 1] == 0 then 0 else 1 + SinceZero(d[..|d| - 1])
  }

  lemma CountNext(d: Text, b: bv8)
    ensures Zeros(d + [b]) == Zeros(d) + if b == 0 then 1 else 0
    ensures SinceZero(d + [b]) == if b == 0 then 0 else SinceZero(d) + 1
  {
    assert (d + [b])[..|d|] == d;
  }

  /** Within a text which begins after a 0 or at the start. */
  lemma {:induction false} CountInText(d: Text, text: Text, k: nat)
    requires SinceZero(d) == 0 && Terminated(text) && k <= |text|
    ensures k < |text| ==> Zeros(d + text[..k]) == Zeros(d) && SinceZero(d + text[..k]) == k
    ensures k == |text| ==> Zeros(d + text[..k]) == Zeros(d) + 1 && SinceZero(d + text[..k]) == 0
  {
    if k == 0 {
      assert d + text[..0] == d;
    } else {
      CountInText(d, text, k - 1);
      CountNext(d + text[..k - 1], text[k - 1]);
      assert d + text[..k] == d + text[..k - 1] + [text[k - 1]];
    }
  }

  // ---------- the cells of one type

  function AtMost15(n: int): int {
    if n < 0 then 0 else if n > 15 then 15 else n
  }

  /** The track of the text with number z. The text of the session comes first. */
  function TrackOfText(s: Session, z: nat): int {
    if z == 0 then 0 else s.firsttrack + z - 1
  }

  /** Cells know their track and position from the values before them. */
  ghost predicate CellsTell(s: Session, c: Cells) {
    forall k :: 0 <= k < |c| ==> CellTells(s, c, k)
  }

  ghost predicate CellTells(s: Session, c: Cells, k: nat)
    requires k < |c|
  {
    && c[k].pos == AtMost15(SinceZero(Values(c)[..k]))
    && c[k].track == TrackOfText(s, Zeros(Values(c)[..k]))
  }

  /** So far there are z complete texts. */
  ghost predicate Complete(s: Session, c: Cells, z: nat) {
    CellsTell(s, c) && SinceZero(Values(c)) == 0 && Zeros(Values(c)) == z
  }

  lemma TextAppended(s: Session, c: Cells, ty: nat, text: Text, z: nat)
    requires Complete(s, c, z) && Terminated(text) && (ty <= 0x5 || ty == 0xe)
    ensures Complete(s, c + CellsOf(ty, text, TrackOfText(s, z)), z + 1)
  {
    hide Terminated, SinceZero, Zeros;
    var added := CellsOf(ty, text, TrackOfText(s, z));
    var all := c + added;
    AppendedValues(c, added, text);
    forall k | 0 <= k < |all|
      ensures CellTells(s, all, k)
    {
      if k < |c| {
        assert all[k] == c[k] && CellTells(s, c, k);
        assert Values(all)[..k] == Values(c)[..k];
      } else {
        var j := k - |c|;
        CountInText(Values(c), text, j);
        CellAt(ty, text, TrackOfText(s, z), j);
        assert all[k] == added[j] && added[j].pos == AtMost15(j);
        assert Values(all)[..k] == Values(c) + text[..j];
      }
    }
    CountInText(Values(c), text, |text|);
    assert text[..|text|] == text;
  }

  lemma CellAt(ty: nat, payload: Text, track: nat, k: nat)
    requires k < |payload|
    ensures CellsOf(ty, payload, track)[k] == Cell(payload[k], track, CharPos(k - BinaryPart(ty, |payload|)))
  {}

  lemma AppendedValues(c: Cells, added: Cells, text: Text)
    requires |added| == |text| && forall i :: 0 <= i < |text| ==> added[i].value == text[i]
    ensures Values(c + added) == Values(c) + text
  {}

  lemma {:induction false} TrackCellsTell(s: Session, n: nat, ty: nat, block: nat)
    requires n <= |s.tracks| && block < 8 && s.cdtext[block].Some?
    requires (ty <= 0x5 || ty == 0xe) && TextsTerminated(s, ty, block)
    ensures Complete(s, CellsOf(ty, s.cdtext[block].value[ty], 0) + TrackCells(s, n, ty, block), n + 1)
  {
    hide Terminated, Complete, CellsOf, WrittenText;
    var first := CellsOf(ty, s.cdtext[block].value[ty], 0);
    if n == 0 {
      NothingComplete(s);
      assert [] + first == first;
      TextAppended(s, [], ty, s.cdtext[block].value[ty], 0);
      assert first + TrackCells(s, 0, ty, block) == first;
    } else {
      var text := WrittenText(s.tracks, n - 1, ty, block);
      TrackCellsTell(s, n - 1, ty, block);
      OneWrittenTerminated(s, n - 1, ty, block);
      TextAppended(s, first + TrackCells(s, n - 1, ty, block), ty, text, n);
      assert first + TrackCells(s, n, ty, block)
        == first + TrackCells(s, n - 1, ty, block) + CellsOf(ty, text, n - 1 + s.firsttrack);
    }
  }

  lemma NothingComplete(s: Session)
    ensures Complete(s, [], 0)
  {}

  lemma OneWrittenTerminated(s: Session, i: nat, ty: nat, block: nat)
    requires i < |s.tracks| && ty < 16 && block < 8 && s.cdtext[block].Some? && TextsTerminated(s, ty, block)
    ensures Terminated(WrittenText(s.tracks, i, ty, block))
  {}

  // ---------- the packs of one type

  lemma {:induction false} AllDataOfFirst(ps: seq<Pack>, i: nat)
    requires i <= |ps|
    ensures AllData(ps)[..12 * i] == AllData(ps[..i])
  {
    if i == |ps| {
      assert ps[..i] == ps;
    } else {
      var before := ps[..|ps| - 1];
      AllDataOfFirst(before, i);
      assert before[..i] == ps[..i];
      assert AllData(ps)[..12 * i] == AllData(before)[..12 * i];
    }
  }

  /** What is before pack i in the data fields is what is before its first cell. */
  lemma DataBefore(ty: nat, block: nat, first: nat, c: Cells, i: nat)
    requires i < NumPacks(|c|)
    ensures 12 * i < |c| && AllData(PacksOf(ty, block, first, c)[..i]) == Values(c)[..12 * i]
  {
    hide MakePack, AllData;
    var ps := PacksOf(ty, block, first, c);
    DataOfPacks(ty, block, first, c);
    AllDataOfFirst(ps, i);
  }

  lemma PackTells(ty: nat, block: nat, first: nat, c: Cells, i: nat)
    requires ty < 16 && block < 8 && i < NumPacks(|c|)
    ensures var p := PacksOf(ty, block, first, c)[i];
      12 * i < |c| && ToNat(p[3]) == 16 * block + c[12 * i].pos && TrackOf(p) == c[12 * i].track % 256
  {
    hide MakePack, TypeOf, TrackOf, NumberOf, BlockOf, ToNat;
    HeaderOf(ty, block, first + i, Chunk(c, i));
  }

  /** Packs of texts tell how many characters of their first text are in previous packs, and to which track
      this text belongs: the number of texts which end in previous packs. */
  lemma TextHeaders(s: Session, ty: nat, block: nat, i: nat)
    requires IsSession(s) && block < 8 && s.cdtext[block].Some? && (ty <= 0x5 || ty == 0xe)
    requires TextsTerminated(s, ty, block) && i < |OfKind(s, ty, block)|
    ensures var p, before := OfKind(s, ty, block)[i], AllData(OfKind(s, ty, block)[..i]);
      && ToNat(p[3]) == 16 * block + (if SinceZero(before) < 15 then SinceZero(before) else 15)
      && ToNat(p[1]) == (if Zeros(before) == 0 then 0 else s.firsttrack + Zeros(before) - 1) % 256
  {
    hide OfKind, PacksOf, PacksBelow, ToNat, SinceZero, Zeros, AllData, TextsTerminated, CellsOf, TrackCells, Complete;
    SelectedPacks(s, ty, block);
    var c := TypeCells(s, ty, block);
    PayloadThere(s, ty, block);
    TrackCellsTell(s, |s.tracks|, ty, block);
    PackTells(ty, block, PacksBelow(s, ty, block), c, i);
    DataBefore(ty, block, PacksBelow(s, ty, block), c, i);
    CompleteTells(s, c, |s.tracks| + 1, 12 * i);
  }

  lemma PayloadThere(s: Session, ty: nat, block: nat)
    requires ty < 16 && block < 8 && s.cdtext[block].Some? && TextsTerminated(s, ty, block)
    ensures s.cdtext[block].value[ty] != []
  {}

  lemma CompleteTells(s: Session, c: Cells, z: nat, k: nat)
    requires Complete(s, c, z) && k < |c|
    ensures CellTells(s, c, k)
  {}

  /** Other packs tell no track. Their position counts bytes from the start of the payload, after the genre code of
      type 0x87, and not at all if the payload is binary. */
  lemma PayloadHeaders(s: Session, ty: nat, block: nat, i: nat)
    requires IsSession(s) && block < 8 && s.cdtext[block].Some? && 0x6 <= ty <= 0xd && i < |OfKind(s, ty, block)|
    ensures var p := OfKind(s, ty, block)[i];
      && TrackOf(p) == 0
      && (ty == 0x6 || ty == 0xd ==> ToNat(p[3]) == 16 * block + (if 12 * i < 15 then 12 * i else 15))
      && (ty == 0x7 ==> ToNat(p[3]) == 16 * block + (if i == 0 then 0 else if i == 1 then 10 else 15))
      && (0x8 <= ty <= 0xc ==> ToNat(p[3]) == 16 * block)
  {
    hide OfKind, PacksOf, PacksBelow, ToNat, TrackOf, TypeCells;
    SelectedPacks(s, ty, block);
    var c := TypeCells(s, ty, block);
    PackTells(ty, block, PacksBelow(s, ty, block), c, i);
    OnlyPayload(s, ty, block);
  }

  lemma OnlyPayload(s: Session, ty: nat, block: nat)
    requires block < 8 && s.cdtext[block].Some? && 0x6 <= ty <= 0xd
    ensures var c, payload := TypeCells(s, ty, block), s.cdtext[block].value[ty];
      && |c| == |payload| && Values(c) == payload
      && forall k :: 0 <= k < |c| ==>
           c[k].track == 0 && c[k].pos == AtMost15(if ty == 0x7 then k - 2 else if 0x8 <= ty <= 0xc then 0 else k)
  {
    var payload := s.cdtext[block].value[ty];
    assert CellsOf(ty, payload, 0) + [] == CellsOf(ty, payload, 0);
    CellsValues(ty, payload, 0);
    forall k | 0 <= k < |payload|
      ensures CellsOf(ty, payload, 0)[k] == Cell(payload[k], 0, CharPos(k - BinaryPart(ty, |payload|)))
    {
      CellAt(ty, payload, 0, k);
    }
  }

  /** The data fields of other packs hold the payload, filled up by 0. */
  lemma PayloadData(s: Session, ty: nat, block: nat)
    requires IsSession(s) && block < 8 && s.cdtext[block].Some? && 0x6 <= ty <= 0xd
    ensures var data, payload := AllData(OfKind(s, ty, block)), s.cdtext[block].value[ty];
      && |payload| <= |data| < |payload| + 12 && data[..|payload|] == payload
      && forall k :: |payload| <= k < |data| ==> data[k] == 0
  {
    hide OfKind, PacksOf, PacksBelow, AllData;
    SelectedPacks(s, ty, block);
    var c := TypeCells(s, ty, block);
    DataOfPacks(ty, block, PacksBelow(s, ty, block), c);
    OnlyPayload(s, ty, block);
  }

  // ---------- the packs of texts

  /** What is written for a track: a TAB if the text is longer than one byte and the same as with the previous track,
      a lone 0 if there is no text, the text else. */
  ghost predicate IsWritten(s: Session, i: nat, ty: nat, block: nat, w: Text)
    requires i < |s.tracks| && ty < 16 && block < 8
  {
    var curr := s.tracks[i][block];
    w == if i > 0 && curr.Some? && s.tracks[i - 1][block].Some?
              && curr.value[ty] == s.tracks[i - 1][block].value[ty] && |curr.value[ty]| > 1 then [9, 0]
         else if curr.Some? && curr.value[ty] != [] then curr.value[ty]
         else [0]
  }

  /** The data fields hold the text of the session and what is written for each track, filled up by 0.
      Without text of the session there are no packs at all. */
  lemma TextData(s: Session, ty: nat, block: nat) returns (ws: seq<Text>)
    requires IsSession(s) && block < 8 && s.cdtext[block].Some? && (ty <= 0x5 || ty == 0xe)
    ensures s.cdtext[block].value[ty] == [] ==> OfKind(s, ty, block) == []
    ensures |ws| == |s.tracks| && forall i :: 0 <= i < |ws| ==> IsWritten(s, i, ty, block, ws[i])
    ensures s.cdtext[block].value[ty] != [] ==>
      var data, text := AllData(OfKind(s, ty, block)), s.cdtext[block].value[ty] + Flatten(ws);
      && |text| <= |data| < |text| + 12 && data[..|text|] == text
      && forall k :: |text| <= k < |data| ==> data[k] == 0
  {
    hide OfKind, PacksOf, PacksBelow, AllData, WrittenText, CellsOf, TrackCells;
    SelectedPacks(s, ty, block);
    var payload, c := s.cdtext[block].value[ty], TypeCells(s, ty, block);
    ws := seq(|s.tracks|, i requires 0 <= i < |s.tracks| => WrittenText(s.tracks, i, ty, block));
    forall i | 0 <= i < |ws|
      ensures IsWritten(s, i, ty, block, ws[i])
    {
      WrittenIs(s, i, ty, block);
    }
    DataOfPacks(ty, block, PacksBelow(s, ty, block), c);
    TrackCellsValues(s, |s.tracks|, ty, block);
    assert Written(s, |s.tracks|, ty, block) == [payload] + ws;
    assert ([payload] + ws)[1..] == ws;
    CellsValues(ty, payload, 0);
    ValuesConcat(CellsOf(ty, payload, 0), TrackCells(s, |s.tracks|, ty, block));
  }

  lemma WrittenIs(s: Session, i: nat, ty: nat, block: nat)
    requires i < |s.tracks| && ty < 16 && block < 8
    ensures IsWritten(s, i, ty, block, WrittenText(s.tracks, i, ty, block))
  {}

  // ---------- the packs of type 0x8f

  /** Apart from the counts and last numbers, the three packs hold code, first and last track, copyright, and the
      languages of all blocks. Their tracks are 0, 1, and 2. */
  lemma SizeFields(s: Session, block: nat)
    requires IsSession(s) && block < 8 && s.cdtext[block].Some?
    ensures var ps := OfKind(s, 0xf, block);
      |ps| == 3 && forall i: nat :: i < 3 ==> TrackOf(ps[i]) == i && ToNat(ps[i][3]) == 16 * block
    ensures var info := AllData(OfKind(s, 0xf, block));
      && |info| == 36 && info[0] == s.charCodes[block] && ToNat(info[1]) == s.firsttrack % 256
      && ToNat(info[2]) == (|s.tracks| + s.firsttrack - 1) % 256 && info[3] == s.copyrights[block]
      && forall b :: 0 <= b < 8 ==> info[28 + b] == s.languages[b]
  {
    hide OfKind, PacksOf, PacksBelow, AllData, SizeInfo, SizeCells, Byte, ToNat, TrackOf;
    var last := LastNumbers(s);
    SelectedPacks(s, 0xf, block);
    SizePacksData(s, block, last);
    SizeInfoFields(s, block, last);
    forall i: nat | i < 3
      ensures TrackOf(SizePacks(s, block, last)[i]) == i && ToNat(SizePacks(s, block, last)[i][3]) == 16 * block
    {
      SizeCellsAt(SizeInfo(s, block, last), i);
      PackTells(0xf, block, PacksBelow(s, 15, block), SizeCells(SizeInfo(s, block, last)), i);
    }
  }

  lemma SizeCellsAt(info: Text, i: nat)
    requires |info| == 36 && i < 3
    ensures |SizeCells(info)| == 36 && SizeCells(info)[12 * i].track == i && SizeCells(info)[12 * i].pos == 0
  {
    CellAt(0xf, info[..12], 0, 0);
    CellAt(0xf, info[12..24], 1, 0);
    CellAt(0xf, info[24..], 2, 0);
    hide CellsOf;
    assert 12 * i == 0 || 12 * i == 12 || 12 * i == 24;
  }

  lemma SizeInfoFields(s: Session, block: nat, last: Text)
    requires IsSession(s) && block < 8 && s.cdtext[block].Some? && |last| == 8
    ensures var info := SizeInfo(s, block, last);
      && info[0] == s.charCodes[block] && info[1] == Byte(s.firsttrack)
      && info[2] == Byte(|s.tracks| + s.firsttrack - 1) && info[3] == s.copyrights[block]
      && forall b :: 0 <= b < 8 ==> info[28 + b] == s.languages[b]
  {
    hide Byte, TypePacks;
  }

  // ---------- the sequence of packs

  /** Pack p may come before pack q: blocks come one after the other, and within them the types. */
  predicate InSequence(p: Pack, q: Pack) {
    BlockOf(p) < BlockOf(q) || (BlockOf(p) == BlockOf(q) && TypeOf(p) <= TypeOf(q))
  }

  ghost predicate Sorted(ps: seq<Pack>) {
    forall i, j :: 0 <= i < j < |ps| ==> InSequence(ps[i], ps[j])
  }

  /** All packs are of blocks below n. */
  ghost predicate BlocksBelow(ps: seq<Pack>, n: nat) {
    forall i :: 0 <= i < |ps| ==> BlockOf(ps[i]) < n
  }

  ghost predicate TypesBelow(ps: seq<Pack>, block: nat, n: nat) {
    forall i :: 0 <= i < |ps| ==> BlockOf(ps[i]) == block && 0x80 <= TypeOf(ps[i]) < 0x80 + n
  }

  lemma SortedTypes(ps: seq<Pack>, qs: seq<Pack>, ty: nat, block: nat, first: nat)
    requires Sorted(ps) && TypesBelow(ps, block, ty) && Headed(qs, ty, block, first)
    ensures Sorted(ps + qs) && TypesBelow(ps + qs, block, ty + 1)
  {
    hide BlockOf, TypeOf, NumberOf;
  }

  lemma SortedBlocks(ps: seq<Pack>, qs: seq<Pack>, block: nat)
    requires Sorted(ps) && BlocksBelow(ps, block) && Sorted(qs) && TypesBelow(qs, block, 16)
    ensures Sorted(ps + qs) && BlocksBelow(ps + qs, block + 1)
  {
    hide BlockOf, TypeOf;
  }

  lemma {:induction false} TextPacksSorted(s: Session, n: nat, block: nat)
    requires n <= 15 && block < 8 && s.cdtext[block].Some?
    ensures Sorted(TextPacks(s, n, block)) && TypesBelow(TextPacks(s, n, block), block, n)
  {
    hide TextPacks, OneType, PacksBelow, Headed;
    if n == 0 {
      TextPacksStep(s, 0, block);
    } else {
      hide Sorted, TypesBelow;
      TextPacksStep(s, n - 1, block);
      TextPacksSorted(s, n - 1, block);
      OneTypeNumbered(s, n - 1, block);
      SortedTypes(TextPacks(s, n - 1, block), OneType(s, n - 1, block), n - 1, block, PacksBelow(s, n - 1, block));
    }
  }

  lemma BlockPacksSorted(s: Session, block: nat, last: Text)
    requires IsSession(s) && block < 8 && |last| == 8
    ensures Sorted(BlockPacks(s, block, last)) && TypesBelow(BlockPacks(s, block, last), block, 16)
  {
    hide PacksOf, SizeInfo, SizeCells, Headed, TextPacks, BlockOf, TypeOf;
    if s.cdtext[block].Some? {
      TextPacksSorted(s, 15, block);
      PacksOfHeaded(0xf, block, PacksBelow(s, 15, block), SizeCells(SizeInfo(s, block, last)));
      SortedTypes(TextPacks(s, 15, block), SizePacks(s, block, last), 15, block, PacksBelow(s, 15, block));
    }
  }

  lemma {:induction false} SessionPacksSorted(s: Session, n: nat, last: Text)
    requires IsSession(s) && n <= 8 && |last| == 8
    ensures Sorted(SessionPacks(s, n, last)) && BlocksBelow(SessionPacks(s, n, last), n)
  {
    hide BlockPacks, BlockOf, TypeOf, TypesBelow;
    if n > 0 {
      hide Sorted, BlocksBelow;
      SessionPacksSorted(s, n - 1, last);
      BlockPacksSorted(s, n - 1, last);
      SortedBlocks(SessionPacks(s, n - 1, last), BlockPacks(s, n - 1, last), n - 1);
    }
  }

  /** Packs come sorted by block, and within each block by type. Blocks which the session does not have get no packs. */
  lemma PacksAreSorted(s: Session)
    requires IsSession(s)
    ensures forall i, j :: 0 <= i < j < |Packs(s)| ==> InSequence(Packs(s)[i], Packs(s)[j])
    ensures forall b: nat :: b < 8 && s.cdtext[b].None? ==> OfBlock(Packs(s), b) == []
  {
    hide BlockOf, TypeOf, OfBlock;
    SessionPacksSorted(s, 8, LastNumbers(s));
    forall b: nat | b < 8 && s.cdtext[b].None?
      ensures OfBlock(Packs(s), b) == []
    {
      OfBlockSession(s, 8, b, LastNumbers(s));
    }
  }
}
