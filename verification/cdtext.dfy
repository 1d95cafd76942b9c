/** What libburn/cdtext.c shall produce: the CD-TEXT packs of a session, as of MMC-3 Annex J. */
module CdText {
  import opened Bytes
  import opened Crc

  datatype Option<T> = None | Some(value: T)

  type Text = seq<bv8>
  type Pack = p: seq<bv8> | |p| == 18 witness seq(18, _ => 0)

  /** The texts of one block by pack type 0x80 to 0x8f. An empty payload means none. */
  type Block = b: seq<Text> | |b| == 16 witness seq(16, _ => [])

  type Blocks = b: seq<Option<Block>> | |b| == 8 witness seq(8, _ => None)

  datatype Session = Session(
    cdtext: Blocks,
    tracks: seq<Blocks>,
    firsttrack: nat,
    charCodes: seq<bv8>,
    copyrights: seq<bv8>,
    languages: seq<bv8>)

  ghost predicate IsSession(s: Session) {
    |s.charCodes| == 8 && |s.copyrights| == 8 && |s.languages| == 8
  }

  // ---------- cells: bytes which know their track and character position

  /** The 4 bit wide character position of a pack header. */
  type Position = n: nat | n < 16

  datatype Cell = Cell(value: bv8, track: nat, pos: Position)

  type Cells = seq<Cell>

  /** Storing an int as unsigned char. */
  function Byte(n: int): (b: bv8)
    ensures ToNat(b) == n % 256
  {
    RoundTrip(n % 256);
    ToByte(n % 256)
  }

  /** The number of leading bytes which count no characters. */
  function BinaryPart(ty: nat, length: nat): nat {
    if ty == 0x7 then 2 else if 0x8 <= ty <= 0xc || ty == 0xf then length else 0
  }

  function CharPos(pos: int): Position {
    if pos > 15 then 15 else if pos < 0 then 0 else pos
  }

  function CellsOf(ty: nat, payload: Text, track: nat): (c: Cells)
    ensures |c| == |payload|
  {
    seq(|payload|, i requires 0 <= i < |payload| =>
      Cell(payload[i], track, CharPos(i - BinaryPart(ty, |payload|))))
  }

  // ---------- packs

  function Values(c: Cells): (v: Text)
    ensures |v| == |c| && forall i :: 0 <= i < |c| ==> v[i] == c[i].value
  {
    seq(|c|, i requires 0 <= i < |c| => c[i].value)
  }

  function Fill(k: nat): (z: Text)
    ensures |z| == k && forall i :: 0 <= i < k ==> z[i] == 0
  {
    seq(k, _ => 0)
  }

  /** 12 text bytes, filled up by 0. */
  function DataField(c: Cells): (d: seq<bv8>)
    ensures |d| == 12
  {
    seq(12, j requires 0 <= j < 12 => if j < |c| then c[j].value else 0)
  }

  function MakeHeader(ty: nat, block: nat, number: nat, first: Cell): (h: seq<bv8>)
    ensures |h| == 4
  {
    [Byte(0x80 + ty), Byte(first.track), Byte(number), Byte(16 * block + first.pos)]
  }

  function Sealed(content: seq<bv8>): (p: Pack)
    requires |content| == 16
  {
    content + CrcField(content)
  }

  function MakePack(ty: nat, block: nat, number: nat, c: Cells): Pack
    requires |c| > 0
  {
    Sealed(MakeHeader(ty, block, number, c[0]) + DataField(c))
  }

  function NumPacks(length: nat): nat {
    (length + 11) / 12
  }

  function Chunk(c: Cells, i: nat): (d: Cells)
    requires i < NumPacks(|c|)
    ensures 0 < |d| <= 12
  {
    c[12 * i..if 12 * i + 12 <= |c| then 12 * i + 12 else |c|]
  }

  /** The packs of one type in one block, numbered from first. */
  function PacksOf(ty: nat, block: nat, first: nat, c: Cells): (ps: seq<Pack>)
    ensures |ps| == NumPacks(|c|)
  {
    seq(NumPacks(|c|), i requires 0 <= i < NumPacks(|c|) => MakePack(ty, block, first + i, Chunk(c, i)))
  }

  // ---------- texts of a session

  /** Text types have an entry for each track. */
  predicate HasTrackTexts(ty: nat) {
    ty <= 0x5 || ty == 0xe
  }

  function TrackText(t: Blocks, ty: nat, block: nat): (text: Text)
    requires ty < 16 && block < 8
    ensures |text| > 0
  {
    if t[block].Some? && t[block].value[ty] != [] then t[block].value[ty] else [0]
  }

  /** Whether the TAB abbreviation is used: the text repeats the one of the previous track. */
  predicate UseTab(curr: Blocks, prev: Blocks, ty: nat, block: nat)
    requires ty < 16 && block < 8
  {
    && curr[block].Some? && prev[block].Some?
    && curr[block].value[ty] == prev[block].value[ty] && |curr[block].value[ty]| > 1
  }

  const TAB_TEXT: Text := [9, 0]

  function WrittenText(tracks: seq<Blocks>, i: nat, ty: nat, block: nat): (text: Text)
    requires i < |tracks| && ty < 16 && block < 8
    ensures |text| > 0
  {
    if i > 0 && UseTab(tracks[i], tracks[i - 1], ty, block) then TAB_TEXT else TrackText(tracks[i], ty, block)
  }

  function TrackCells(s: Session, n: nat, ty: nat, block: nat): Cells
    requires n <= |s.tracks| && ty < 16 && block < 8
  {
    if n == 0 then [] else
      TrackCells(s, n - 1, ty, block) + CellsOf(ty, WrittenText(s.tracks, n - 1, ty, block), n - 1 + s.firsttrack)
  }

  /** Everything to be written for one type in one block. */
  function TypeCells(s: Session, ty: nat, block: nat): Cells
    requires ty < 16 && block < 8 && s.cdtext[block].Some?
  {
    var payload := s.cdtext[block].value[ty];
    if payload == [] then []
    else CellsOf(ty, payload, 0) + (if HasTrackTexts(ty) then TrackCells(s, |s.tracks|, ty, block) else [])
  }

  // ---------- blocks

  function TypePacks(s: Session, ty: nat, block: nat): nat
    requires ty < 16 && block < 8 && s.cdtext[block].Some?
  {
    NumPacks(|TypeCells(s, ty, block)|)
  }

  /** Number of packs of the types 0x80 to 0x80 + n - 1. */
  function PacksBelow(s: Session, n: nat, block: nat): nat
    requires n <= 15 && block < 8 && s.cdtext[block].Some?
  {
    if n == 0 then 0 else PacksBelow(s, n - 1, block) + TypePacks(s, n - 1, block)
  }

  /** The packs of one text type. They get numbered after the ones of the types below. */
  function OneType(s: Session, ty: nat, block: nat): (ps: seq<Pack>)
    requires ty < 15 && block < 8 && s.cdtext[block].Some?
    ensures |ps| == TypePacks(s, ty, block)
  {
    PacksOf(ty, block, PacksBelow(s, ty, block), TypeCells(s, ty, block))
  }

  function TextPacks(s: Session, n: nat, block: nat): (ps: seq<Pack>)
    requires n <= 15 && block < 8 && s.cdtext[block].Some?
    ensures |ps| == PacksBelow(s, n, block)
  {
    if n == 0 then [] else TextPacks(s, n - 1, block) + OneType(s, n - 1, block)
  }

  /** All packs of a block: three packs of type 0x8f come last. */
  function BlockSize(s: Session, block: nat): nat
    requires block < 8
  {
    if s.cdtext[block].Some? then PacksBelow(s, 15, block) + 3 else 0
  }

  function LastNumber(s: Session, block: nat): nat
    requires block < 8
  {
    if BlockSize(s, block) > 0 then BlockSize(s, block) - 1 else 0
  }

  /** The highest sequence number of each block. */
  function LastNumbers(s: Session): (last: Text)
    ensures |last| == 8
  {
    seq(8, b requires 0 <= b < 8 => Byte(LastNumber(s, b)))
  }

  /** The content of the three packs of type 0x8f. */
  function SizeInfo(s: Session, block: nat, last: Text): (info: Text)
    requires IsSession(s) && block < 8 && s.cdtext[block].Some? && |last| == 8
    ensures |info| == 36
  {
    [s.charCodes[block], Byte(s.firsttrack), Byte(|s.tracks| + s.firsttrack - 1), s.copyrights[block]]
    + seq(15, ty requires 0 <= ty < 15 => Byte(TypePacks(s, ty, block)))
    + [3]
    + last
    + s.languages
  }

  function SizeCells(info: Text): Cells
    requires |info| == 36
  {
    CellsOf(0xf, info[..12], 0) + CellsOf(0xf, info[12..24], 1) + CellsOf(0xf, info[24..], 2)
  }

  /** The packs of type 0x8f. */
  function SizePacks(s: Session, block: nat, last: Text): (ps: seq<Pack>)
    requires IsSession(s) && block < 8 && s.cdtext[block].Some? && |last| == 8
    ensures |ps| == 3
  {
    PacksOf(0xf, block, PacksBelow(s, 15, block), SizeCells(SizeInfo(s, block, last)))
  }

  function BlockPacks(s: Session, block: nat, last: Text): (ps: seq<Pack>)
    requires IsSession(s) && block < 8 && |last| == 8
    ensures |ps| == BlockSize(s, block)
  {
    if s.cdtext[block].None? then [] else TextPacks(s, 15, block) + SizePacks(s, block, last)
  }

  function SessionPacks(s: Session, n: nat, last: Text): seq<Pack>
    requires IsSession(s) && n <= 8 && |last| == 8
  {
    if n == 0 then [] else SessionPacks(s, n - 1, last) + BlockPacks(s, n - 1, last)
  }

  /** The packs of all blocks. */
  function Packs(s: Session): seq<Pack>
    requires IsSession(s)
  {
    SessionPacks(s, 8, LastNumbers(s))
  }

  /** The sequence numbers of each block have to fit into 0 to 254. */
  predicate Fits255(s: Session) {
    forall b: nat :: b < 8 ==> BlockSize(s, b) <= 255
  }
}
