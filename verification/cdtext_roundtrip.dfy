/** The texts of a session can be read back from its packs. */
module CdTextRoundTrip {
  import opened CdText
  import opened CdTextReading

  // ---------- the reader: texts end at a 0 byte, a lone TAB repeats the text of the previous track

  function FirstZero(d: Text): (z: nat)
    ensures z <= |d|
  {
    if d == [] || d[0] == 0 then 0 else 1 + FirstZero(d[1..])
  }

  /** The first n texts, without their 0 bytes. */
  function ReadTexts(d: Text, n: nat): (texts: seq<Text>)
    ensures |texts| == n
    decreases n
  {
    if n == 0 then [] else
      var z := FirstZero(d);
      [d[..z]] + ReadTexts(if z < |d| then d[z + 1..] else [], n - 1)
  }

  /** Text 0 is the one of the session, text 1 the one of the first track. */
  function Expanded(texts: seq<Text>): (r: seq<Text>)
    ensures |r| == |texts|
  {
    if texts == [] then [] else
      var before := Expanded(texts[..|texts| - 1]);
      var text := texts[|texts| - 1];
      before + [if |texts| > 2 && text == [9] then before[|texts| - 2] else text]
  }

  function ReadBack(s: Session, ty: nat, block: nat): seq<Text>
    requires IsSession(s)
  {
    Expanded(ReadTexts(AllData(OfKind(s, ty, block)), |s.tracks| + 1))
  }

  // ---------- the texts to be read

  predicate Terminated(t: Text) {
    |t| > 0 && t[|t| - 1] == 0 && forall i :: 0 <= i < |t| - 1 ==> t[i] != 0
  }

  /** A text without its terminating byte. */
  function Body(t: Text): Text {
    if t == [] then [] else t[..|t| - 1]
  }

  ghost predicate TextsTerminated(s: Session, ty: nat, block: nat)
    requires ty < 16 && block < 8 && s.cdtext[block].Some?
  {
    Terminated(s.cdtext[block].value[ty]) &&
    forall i :: 0 <= i < |s.tracks| ==> Terminated(TrackText(s.tracks[i], ty, block))
  }

  function Originals(s: Session, n: nat, ty: nat, block: nat): (texts: seq<Text>)
    requires n <= |s.tracks| && ty < 16 && block < 8 && s.cdtext[block].Some?
    ensures |texts| == n + 1
  {
    [Body(s.cdtext[block].value[ty])]
    + seq(n, i requires 0 <= i < n => Body(TrackText(s.tracks[i], ty, block)))
  }

  /** A lone TAB as text of a track can only be told from the abbreviation if the previous track has it too. */
  predicate TabsAreClear(s: Session, n: nat, ty: nat, block: nat)
    requires n <= |s.tracks| && ty < 16 && block < 8
  {
    forall i :: 0 < i < n && TrackText(s.tracks[i], ty, block) == TAB_TEXT ==>
      TrackText(s.tracks[i - 1], ty, block) == TAB_TEXT
  }

  // ---------- splitting

  function Flatten(ws: seq<Text>): Text {
    if ws == [] then [] else ws[0] + Flatten(ws[1..])
  }

  lemma {:induction false} FlattenAppend(ws: seq<Text>, w: Text)
    ensures Flatten(ws + [w]) == Flatten(ws) + w
  {
    if ws == [] {
      assert [w][1..] == [];
    } else {
      FlattenAppend(ws[1..], w);
      assert (ws + [w])[1..] == ws[1..] + [w];
    }
  }

  lemma {:induction false} FirstZeroOf(w: Text, rest: Text)
    requires Terminated(w)
    ensures FirstZero(w + rest) == |w| - 1
  {
    if |w| > 1 {
      assert (w + rest)[1..] == w[1..] + rest;
      FirstZeroOf(w[1..], rest);
    }
  }

  lemma {:induction false} ReadFlatten(ws: seq<Text>, rest: Text)
    requires forall i :: 0 <= i < |ws| ==> Terminated(ws[i])
    ensures forall i :: 0 <= i < |ws| ==> ReadTexts(Flatten(ws) + rest, |ws|)[i] == Body(ws[i])
  {
    if ws == [] {
    } else {
      hide Terminated;
      var w, tail := ws[0], Flatten(ws[1..]) + rest;
      assert Flatten(ws) + rest == w + tail;
      FirstZeroOf(w, tail);
      SplitFirst(w, tail);
      ReadFlatten(ws[1..], rest);
      forall i | 0 < i < |ws|
        ensures ReadTexts(Flatten(ws) + rest, |ws|)[i] == Body(ws[i])
      {
        assert ws[i] == ws[1..][i - 1];
      }
    }
  }

  lemma SplitFirst(w: Text, tail: Text)
    requires |w| > 0
    ensures (w + tail)[..|w| - 1] == Body(w) && (w + tail)[|w|..] == tail
  {}

  // ---------- what was written

  function Written(s: Session, n: nat, ty: nat, block: nat): (ws: seq<Text>)
    requires n <= |s.tracks| && ty < 16 && block < 8 && s.cdtext[block].Some?
    ensures |ws| == n + 1
  {
    [s.cdtext[block].value[ty]] + seq(n, i requires 0 <= i < n => WrittenText(s.tracks, i, ty, block))
  }

  lemma CellsValues(ty: nat, payload: Text, track: nat)
    ensures Values(CellsOf(ty, payload, track)) == payload
  {}

  lemma {:induction false} TrackCellsValues(s: Session, n: nat, ty: nat, block: nat)
    requires n <= |s.tracks| && ty < 16 && block < 8 && s.cdtext[block].Some?
    ensures s.cdtext[block].value[ty] + Values(TrackCells(s, n, ty, block)) == Flatten(Written(s, n, ty, block))
  {
    var payload := s.cdtext[block].value[ty];
    if n == 0 {
      assert Written(s, 0, ty, block) == [payload];
      assert [payload][1..] == [];
    } else {
      var text := WrittenText(s.tracks, n - 1, ty, block);
      TrackCellsValues(s, n - 1, ty, block);
      CellsValues(ty, text, n - 1 + s.firsttrack);
      assert Written(s, n, ty, block) == Written(s, n - 1, ty, block) + [text];
      FlattenAppend(Written(s, n - 1, ty, block), text);
      hide WrittenText, CellsOf;
      assert Values(TrackCells(s, n, ty, block)) == Values(TrackCells(s, n - 1, ty, block)) + text;
    }
  }

  lemma WrittenTerminated(s: Session, ty: nat, block: nat)
    requires ty < 16 && block < 8 && s.cdtext[block].Some? && TextsTerminated(s, ty, block)
    ensures forall i :: 0 <= i <= |s.tracks| ==> Terminated(Written(s, |s.tracks|, ty, block)[i])
  {}

  /** Splitting the text fields at 0 gives the written texts. */
  lemma ReadGivesWritten(s: Session, ty: nat, block: nat)
    requires IsSession(s) && block < 8 && s.cdtext[block].Some?
    requires ty < 15 && HasTrackTexts(ty) && TextsTerminated(s, ty, block)
    ensures forall i :: 0 <= i <= |s.tracks| ==>
      ReadTexts(AllData(OfKind(s, ty, block)), |s.tracks| + 1)[i] == Body(Written(s, |s.tracks|, ty, block)[i])
  {
    var c := TypeCells(s, ty, block);
    var rest := Fill(12 * NumPacks(|c|) - |c|);
    var ws := Written(s, |s.tracks|, ty, block);
    assert Values(c) == Flatten(ws) by {
      var payload := s.cdtext[block].value[ty];
      CellsValues(ty, payload, 0);
      TrackCellsValues(s, |s.tracks|, ty, block);
      ValuesConcat(CellsOf(ty, payload, 0), TrackCells(s, |s.tracks|, ty, block));
    }
    WrittenTerminated(s, ty, block);
    hide TypeCells, OfKind, Packs, PacksOf, Written, Terminated;
    SelectedPacks(s, ty, block);
    DataOfPacks(ty, block, PacksBelow(s, ty, block), c);
    ReadFlatten(ws, rest);
  }

  lemma ValuesConcat(c: Cells, d: Cells)
    ensures Values(c + d) == Values(c) + Values(d)
  {}

  // ---------- expanding TABs

  lemma ExpandedAt(texts: seq<Text>, i: nat)
    requires i < |texts|
    ensures Expanded(texts)[i] == if i >= 2 && texts[i] == [9] then Expanded(texts)[i - 1] else texts[i]
  {
    if i < |texts| - 1 {
      ExpandedAt(texts[..|texts| - 1], i);
    }
  }

  lemma WrittenTab(s: Session, i: nat, ty: nat, block: nat)
    requires i < |s.tracks| && ty < 16 && block < 8 && s.cdtext[block].Some?
    requires TextsTerminated(s, ty, block)
    ensures var text := TrackText(s.tracks[i], ty, block);
      var written := Body(WrittenText(s.tracks, i, ty, block));
      && (written != [9] ==> written == Body(text))
      && (i == 0 ==> written == Body(text))
      && (i > 0 && written == [9] && text != TAB_TEXT ==> text == TrackText(s.tracks[i - 1], ty, block))
      && (text == TAB_TEXT ==> written == [9])
  {
    assert Terminated(TrackText(s.tracks[i], ty, block));
    var written := WrittenText(s.tracks, i, ty, block);
    if Body(written) == [9] {
      assert written == [9, written[1]];
    }
  }

  lemma TextsAt(s: Session, i: nat, ty: nat, block: nat)
    requires i <= |s.tracks| && ty < 16 && block < 8 && s.cdtext[block].Some?
    ensures Originals(s, |s.tracks|, ty, block)[i] ==
      if i == 0 then Body(s.cdtext[block].value[ty]) else Body(TrackText(s.tracks[i - 1], ty, block))
    ensures Written(s, |s.tracks|, ty, block)[i] ==
      if i == 0 then s.cdtext[block].value[ty] else WrittenText(s.tracks, i - 1, ty, block)
  {}

  lemma {:induction false} ExpandedIsOriginal(s: Session, texts: seq<Text>, i: nat, ty: nat, block: nat)
    requires ty < 16 && block < 8 && s.cdtext[block].Some? && TextsTerminated(s, ty, block)
    requires |texts| == |s.tracks| + 1 && i < |texts|
    requires forall k :: 0 <= k < |texts| ==> texts[k] == Body(Written(s, |s.tracks|, ty, block)[k])
    requires TabsAreClear(s, |s.tracks|, ty, block)
    ensures Expanded(texts)[i] == Originals(s, |s.tracks|, ty, block)[i]
  {
    hide TrackText, WrittenText, Expanded, TextsTerminated, Written, Originals;
    ExpandedAt(texts, i);
    TextsAt(s, i, ty, block);
    if i > 0 {
      ExpandedIsOriginal(s, texts, i - 1, ty, block);
      TextsAt(s, i - 1, ty, block);
      WrittenTab(s, i - 1, ty, block);
    }
  }

  lemma BodyIsTab(prev: Text)
    requires Terminated(prev) && Body(prev) == [9]
    ensures prev == TAB_TEXT
  {
    assert prev == Body(prev) + [0];
  }

  lemma ClearTab(s: Session, texts: seq<Text>, i: nat, ty: nat, block: nat)
    requires ty < 16 && block < 8 && s.cdtext[block].Some? && TextsTerminated(s, ty, block)
    requires 0 < i < |s.tracks| && |texts| == |s.tracks| + 1
    requires texts[i + 1] == Body(Written(s, |s.tracks|, ty, block)[i + 1])
    requires Expanded(texts) == Originals(s, |s.tracks|, ty, block)
    requires TrackText(s.tracks[i], ty, block) == TAB_TEXT
    ensures TrackText(s.tracks[i - 1], ty, block) == TAB_TEXT
  {
    WrittenTab(s, i, ty, block);
    ExpandedAt(texts, i + 1);
    var prev := TrackText(s.tracks[i - 1], ty, block);
    var all := Originals(s, |s.tracks|, ty, block);
    assert Terminated(prev);
    assert all[i + 1] == Body(TAB_TEXT) && all[i] == Body(prev);
    assert texts[i + 1] == [9];
    hide TrackText, WrittenText, Written, Expanded, Originals, Terminated;
    BodyIsTab(prev);
  }

  lemma ClearTabs(s: Session, texts: seq<Text>, ty: nat, block: nat)
    requires ty < 16 && block < 8 && s.cdtext[block].Some? && TextsTerminated(s, ty, block)
    requires |texts| == |s.tracks| + 1
    requires forall k :: 0 <= k < |texts| ==> texts[k] == Body(Written(s, |s.tracks|, ty, block)[k])
    requires Expanded(texts) == Originals(s, |s.tracks|, ty, block)
    ensures TabsAreClear(s, |s.tracks|, ty, block)
  {
    hide TextsTerminated, Written, Expanded, Originals, TrackText;
    forall i | 0 < i < |s.tracks| && TrackText(s.tracks[i], ty, block) == TAB_TEXT
      ensures TrackText(s.tracks[i - 1], ty, block) == TAB_TEXT
    {
      ClearTab(s, texts, i, ty, block);
    }
  }

  /** The texts of session and tracks get read back exactly if no lone TAB of a track is ambiguous. */
  lemma RoundTrip(s: Session, ty: nat, block: nat)
    requires IsSession(s) && block < 8 && s.cdtext[block].Some?
    requires (ty <= 0x5 || ty == 0xe) && TextsTerminated(s, ty, block)
    ensures ReadBack(s, ty, block) == Originals(s, |s.tracks|, ty, block) <==> TabsAreClear(s, |s.tracks|, ty, block)
  {
    var texts := ReadTexts(AllData(OfKind(s, ty, block)), |s.tracks| + 1);
    ReadGivesWritten(s, ty, block);
    hide TextsTerminated, OfKind, Packs, Written, Originals, Expanded;
    if TabsAreClear(s, |s.tracks|, ty, block) {
      forall i | 0 <= i < |texts|
        ensures Expanded(texts)[i] == Originals(s, |s.tracks|, ty, block)[i]
      {
        ExpandedIsOriginal(s, texts, i, ty, block);
      }
    } else if ReadBack(s, ty, block) == Originals(s, |s.tracks|, ty, block) {
      ClearTabs(s, texts, ty, block);
      assert false;
    }
  }
}
