/** Choice and check of a write type: libburn/options.c with the capabilities and demands of libburn/drive.c. */
module WriteTypes {

  datatype WriteType = Packet | Tao | Sao | Raw | NoType

  datatype BlockType =
    | Raw0 | Raw16 | Raw96P | Raw96R | Mode1 | SaoBlock
    | Mode2R | Mode2Pathetic | Mode2Lame | Mode2Obscure | Mode2Ok

  datatype Status = Blank | Appendable | Full | Empty | Ungrabbed | Unsuitable

  /** What matters of a drive and its medium. packet, tao, sao, raw are the offered block types. */
  datatype Drive = Drive(
    role: int, status: Status, released: bool, profile: int, isCd: bool, hasFeat21h: bool, canSimulate: bool,
    packet: set<BlockType>, tao: set<BlockType>, sao: set<BlockType>, raw: set<BlockType>)

  /** mode is a bit field. */
  datatype Track = Track(mode: nat, openEnded: bool, defaultSize: int)

  type Disc = seq<seq<Track>>

  /** blockType is a bit field. The options object always has exactly one type set. */
  datatype Opts = Opts(
    writeType: WriteType, blockType: set<BlockType>, multi: bool, fillUp: bool, force: bool, simulate: bool,
    textPacks: nat)

  // ---------- burn_disc_get_multi_caps

  datatype Caps = Caps(
    multiSession: bool, multiTrack: bool, mightTao: nat, mightSao: nat, mightRaw: nat, mightSimulate: bool)

  const NO_CAPS := Caps(false, false, 0, 0, 0, false)

  /** The return value and the capabilities. They are also handed out if the return value is 0. */
  datatype CapsReply = CapsReply(ret: int, caps: Caps)

  function DiscStatus(d: Drive): Status {
    if d.released then Ungrabbed else d.status
  }

  function IsSaoOrRaw(wt: WriteType): bool {
    wt == Sao || wt == Raw
  }

  /** What role, profile and write type tell: an inquiry which ends with 0, or one which goes on to the final checks. */
  datatype Inquiry = Ended(caps: Caps) | Going(caps: Caps)

  function CdCaps(d: Drive, wt: WriteType): Caps {
    var any := d.tao != {} || d.sao != {};
    Caps(wt != Raw && any, wt != Raw && any,
         if d.tao != {} then 2 else 0, if d.sao != {} then 1 else 0, if d.raw != {} then 1 else 0,
         (wt == NoType || wt == Sao || wt == Tao) && d.canSimulate)
  }

  function DvdRCaps(d: Drive, wt: WriteType, s: Status): Caps {
    Caps(d.hasFeat21h && d.profile != 0x15 && wt != Sao, d.hasFeat21h && wt != Sao,
         if d.hasFeat21h then 2 else 0, if s == Blank then 1 else 0, 0, wt == NoType || wt == Sao || wt == Tao)
  }

  function MediumCaps(d: Drive, wt: WriteType): Inquiry {
    var s := DiscStatus(d);
    if d.role == 0 || d.role == 4 then Ended(NO_CAPS)
    else if d.role == 2 then Going(NO_CAPS.(mightSao := 4, mightTao := 2, mightSimulate := true))
    else if d.role == 5 then
      if s == Appendable && IsSaoOrRaw(wt) then Ended(NO_CAPS)
      else Going(NO_CAPS.(mightSao := if s == Appendable then 0 else 4, mightTao := 2, mightSimulate := true))
    else if d.role != 1 then Going(NO_CAPS.(mightSao := 4, mightTao := 2, mightSimulate := true))
    else if s != Blank && s != Appendable then Ended(NO_CAPS)
    else if s == Appendable && IsSaoOrRaw(wt) then Ended(NO_CAPS)
    else if wt == Raw && !d.isCd then Ended(NO_CAPS)
    else if d.profile == 0x09 || d.profile == 0x0a then Going(CdCaps(d, wt))
    else if d.profile == 0x11 || d.profile == 0x14 || d.profile == 0x15 then Going(DvdRCaps(d, wt, s))
    else if d.profile == 0x12 || d.profile == 0x13 || d.profile == 0x1a || d.profile == 0x43 then
      Going(NO_CAPS.(mightSao := 4, mightTao := 2))
    else if d.profile == 0x1b || d.profile == 0x2b || d.profile == 0x41 then
      Going(NO_CAPS.(multiSession := true, multiTrack := true, mightTao := 2, mightSao := 1))
    else Ended(NO_CAPS)
  }

  function GetCaps(d: Drive, wt: WriteType): CapsReply {
    var s := DiscStatus(d);
    if s == Ungrabbed then CapsReply(-1, NO_CAPS)
    else
      match MediumCaps(d, wt)
      case Ended(c) => CapsReply(0, c)
      case Going(c) =>
        var o := if s == Appendable then c.(mightSao := 0, mightRaw := 0) else c;
        if (wt == Tao && o.mightTao == 0) || (wt == Sao && o.mightSao == 0) || (wt == Raw && o.mightRaw == 0)
        then CapsReply(0, o) else CapsReply(1, o)
  }

  // ---------- burn_disc_get_write_mode_demands

  datatype Demands = Demands(multiSession: bool, multiTrack: bool, unknownSize: nat, mixedMode: bool, audio: bool,
                             exotic: bool, blockTypes: set<BlockType>, willAppend: bool)

  predicate IsMode1(mode: nat) {
    mode / 4 % 2 == 1
  }

  predicate IsAudio(mode: nat) {
    mode / 64 % 2 == 1
  }

  /** Demands, the number of tracks with unknown size, and whether the last track is one of them. */
  datatype Tally = Tally(demands: Demands, unknown: nat, lastUnknown: bool)

  /** 0 = all sizes are known, 1 = some size is unknown, 2 = default sizes are needed. */
  function SizeKnowledge(known: nat, track: Track): nat {
    if !track.openEnded then known
    else if track.defaultSize <= 0 then 1
    else if known == 0 then 2
    else known
  }

  function ModeDemands(d: Demands, track: Track, mode: nat, opts: Opts): Demands {
    var blocks := if IsMode1(track.mode) then {Mode1} else if IsAudio(track.mode) then {Raw0} else opts.blockType;
    d.(mixedMode := d.mixedMode || mode % 128 != track.mode % 128,
       audio := d.audio || (!IsMode1(track.mode) && IsAudio(track.mode)),
       exotic := d.exotic || !IsMode1(track.mode), blockTypes := d.blockTypes + blocks)
  }

  function AddTrack(t: Tally, track: Track, mode: nat, opts: Opts): Tally {
    var d := t.demands.(unknownSize := SizeKnowledge(t.demands.unknownSize, track));
    Tally(ModeDemands(d, track, mode, opts), t.unknown + if track.openEnded then 1 else 0, track.openEnded)
  }

  function AddTracks(t: Tally, session: seq<Track>, n: nat, opts: Opts): Tally
    requires n <= |session|
  {
    if n == 0 then t else AddTrack(AddTracks(t, session, n - 1, opts), session[n - 1], session[0].mode, opts)
  }

  function AddSessions(t: Tally, disc: Disc, n: nat, opts: Opts): Tally
    requires n <= |disc|
  {
    if n == 0 then t
    else
      var u, session := AddSessions(t, disc, n - 1, opts), disc[n - 1];
      var v := if |session| > 1 then u.(demands := u.demands.(multiTrack := true)) else u;
      AddTracks(v, session, |session|, opts)
  }

  function DiscDemands(disc: Disc, opts: Opts, d: Drive): Demands {
    var several := |disc| > 1;
    var start := Demands(several, false, 0, false, false, false, {}, DiscStatus(d) == Appendable || several);
    var t := AddSessions(Tally(start, 0, false), disc, |disc|, opts);
    if opts.fillUp && t.unknown == 1 && t.lastUnknown then t.demands.(unknownSize := 0) else t.demands
  }

  // ---------- the conditions of the write types

  predicate SaoFits(o: Opts, d: Drive, m: Demands, c: Caps) {
    && ((o.multi || m.multiSession) ==> c.multiSession) && !m.willAppend && (m.multiTrack ==> c.multiTrack)
    && !(m.unknownSize == 1 && (c.mightSao == 1 || c.mightSao == 3)) && !m.mixedMode
    && !(m.exotic && !d.isCd) && (d.isCd ==> m.blockTypes <= d.tao) && !(d.isCd && o.fillUp)
  }

  predicate TaoFits(o: Opts, d: Drive, m: Demands, c: Caps) {
    && ((o.multi || m.multiSession) ==> c.multiSession) && (m.multiTrack ==> c.multiTrack)
    && !(m.exotic && !d.isCd) && (d.isCd && !o.force ==> m.blockTypes <= d.tao)
  }

  predicate CannotSimulate(o: Opts, c: Caps) {
    !c.mightSimulate && o.simulate && !o.force
  }

  /** SAO would do, but TAO is to be preferred. */
  predicate PrefersTao(m: Demands, c: Caps) {
    (m.unknownSize == 2 && (c.mightSao == 1 || c.mightSao == 3)) || c.mightSao >= 3
  }

  predicate Early(d: Drive, m: Demands, disc: Disc) {
    (d.status != Blank && d.status != Appendable) || disc == [] || (m.exotic && !d.isCd)
  }

  /** The write type chosen by a call with flag bit0 not set. */
  function Choice(o: Opts, d: Drive, disc: Disc): WriteType {
    var m := DiscDemands(disc, o, d);
    var sao, tao := GetCaps(d, Sao), GetCaps(d, Tao);
    var saoWorks := d.status == Blank && sao.ret > 0 && SaoFits(o, d, m, sao.caps);
    if Early(d, m, disc) then NoType
    else if d.status == Blank && sao.ret < 0 then NoType
    else if saoWorks && !PrefersTao(m, sao.caps) then (if CannotSimulate(o, sao.caps) then NoType else Sao)
    else if o.textPacks > 0 || tao.ret < 0 then NoType
    else if tao.ret > 0 && TaoFits(o, d, m, tao.caps) then (if CannotSimulate(o, tao.caps) then NoType else Tao)
    else if saoWorks && !CannotSimulate(o, tao.caps) then Sao
    else NoType
  }

  /** The outcome of a call with flag bit0, which checks the write type that is already set. */
  function Check(o: Opts, d: Drive, disc: Disc): WriteType {
    var m := DiscDemands(disc, o, d);
    var sao, tao := GetCaps(d, Sao), GetCaps(d, Tao);
    if Early(d, m, disc) then NoType
    else if o.writeType == Sao && d.status == Blank && sao.ret < 0 then NoType
    else if o.writeType == Sao && d.status == Blank && sao.ret > 0 && SaoFits(o, d, m, sao.caps) then
      (if CannotSimulate(o, sao.caps) then NoType else Sao)
    else if o.textPacks > 0 then NoType
    else if o.writeType == Tao then
      (if tao.ret > 0 && TaoFits(o, d, m, tao.caps) && !CannotSimulate(o, tao.caps) then Tao else NoType)
    else if o.writeType == Raw && d.isCd && d.status == Blank && m.blockTypes <= d.tao && o.force then Raw
    else NoType
  }

  function Offered(d: Drive, wt: WriteType): set<BlockType>
    requires wt != NoType
  {
    match wt
    case Packet => d.packet
    case Tao => d.tao
    case Sao => d.sao
    case Raw => d.raw
  }

  predicate IsRawOrMode1(b: BlockType) {
    b.Raw0? || b.Raw16? || b.Raw96P? || b.Raw96R? || b.Mode1?
  }

  /** A single block type which is offered, or goes always with SAO. Raw and packet writing know only some of them. */
  predicate CanSet(d: Drive, wt: WriteType, block: set<BlockType>)
    requires wt != NoType
  {
    exists b :: b in block && block == {b}
      && (b in Offered(d, wt) || (wt == Sao && b == SaoBlock)) && (wt == Sao || wt == Tao || IsRawOrMode1(b))
  }

  /** burn_write_opts_set_write_type: the options after an attempt to set a chosen write type. */
  function Set(o: Opts, d: Drive, wt: WriteType): Opts {
    if wt == Sao && CanSet(d, Sao, {SaoBlock}) then o.(writeType := Sao, blockType := {SaoBlock})
    else if wt == Tao && CanSet(d, Tao, {Mode1}) then o.(writeType := Tao, blockType := {Mode1})
    else o
  }

  lemma ChosenCanBeSet(d: Drive)
    ensures CanSet(d, Sao, {SaoBlock}) && (CanSet(d, Tao, {Mode1}) <==> Mode1 in d.tao)
  {
    assert SaoBlock in {SaoBlock} && Mode1 in {Mode1};
  }

  // ---------- agreement of choice and check

  /** Tracks which demand the block type that is set. */
  predicate IsOther(track: Track) {
    !IsMode1(track.mode) && !IsAudio(track.mode)
  }

  predicate HasOther(session: seq<Track>, n: nat)
    requires n <= |session|
  {
    exists k :: 0 <= k < n && IsOther(session[k])
  }

  predicate DiscHasOther(disc: Disc, n: nat)
    requires n <= |disc|
  {
    exists k :: 0 <= k < n && HasOther(disc[k], |disc[k]|)
  }

  predicate DataOrAudio(disc: Disc) {
    !DiscHasOther(disc, |disc|)
  }

  /** Options which set no block type. */
  const NO_OPTS := Opts(NoType, {}, false, false, false, false, 0)

  function WithBlocks(m: Demands, blocks: set<BlockType>): Demands {
    m.(blockTypes := m.blockTypes + blocks)
  }

  function If(b: bool, blocks: set<BlockType>): set<BlockType> {
    if b then blocks else {}
  }

  function TallyWith(t: Tally, blocks: set<BlockType>): Tally {
    t.(demands := WithBlocks(t.demands, blocks))
  }

  lemma TrackBlocks(t: Tally, track: Track, mode: nat, o: Opts, other: bool)
    ensures AddTrack(TallyWith(t, If(other, o.blockType)), track, mode, o)
      == TallyWith(AddTrack(t, track, mode, NO_OPTS), If(other || IsOther(track), o.blockType))
  {
    var a := AddTrack(TallyWith(t, If(other, o.blockType)), track, mode, o);
    var b := TallyWith(AddTrack(t, track, mode, NO_OPTS), If(other || IsOther(track), o.blockType));
    assert a.demands.blockTypes == b.demands.blockTypes;
  }

  lemma {:induction false} TracksBlocks(t: Tally, session: seq<Track>, n: nat, o: Opts, other: bool)
    requires n <= |session|
    ensures AddTracks(TallyWith(t, If(other, o.blockType)), session, n, o)
      == TallyWith(AddTracks(t, session, n, NO_OPTS), If(other || HasOther(session, n), o.blockType))
  {
    hide AddTrack, TallyWith, IsOther, If;
    if n > 0 {
      TracksBlocks(t, session, n - 1, o, other);
      TrackBlocks(AddTracks(t, session, n - 1, NO_OPTS), session[n - 1], session[0].mode, o,
        other || HasOther(session, n - 1));
      assert HasOther(session, n) <==> HasOther(session, n - 1) || IsOther(session[n - 1]);
    }
  }

  function SessionStart(t: Tally, session: seq<Track>): Tally {
    if |session| > 1 then t.(demands := t.demands.(multiTrack := true)) else t
  }

  lemma {:induction false} SessionsBlocks(t: Tally, disc: Disc, n: nat, o: Opts)
    requires n <= |disc|
    ensures AddSessions(t, disc, n, o)
      == TallyWith(AddSessions(t, disc, n, NO_OPTS), If(DiscHasOther(disc, n), o.blockType))
  {
    hide HasOther, AddTracks;
    if n > 0 {
      SessionsBlocks(t, disc, n - 1, o);
      var u, session := AddSessions(t, disc, n - 1, NO_OPTS), disc[n - 1];
      TracksBlocks(SessionStart(u, session), session, |session|, o, DiscHasOther(disc, n - 1));
      assert DiscHasOther(disc, n) <==> DiscHasOther(disc, n - 1) || HasOther(session, |session|);
    }
  }

  /** The block type which is set matters to tracks of other kinds, and to nothing else. */
  lemma DemandsBlocks(disc: Disc, o: Opts, d: Drive)
    ensures DiscDemands(disc, o, d)
      == WithBlocks(DiscDemands(disc, NO_OPTS.(fillUp := o.fillUp), d), If(DiscHasOther(disc, |disc|), o.blockType))
  {
    hide AddSessions, DiscHasOther;
    var several := |disc| > 1;
    var start := Demands(several, false, 0, false, false, false, {}, DiscStatus(d) == Appendable || several);
    SessionsBlocks(Tally(start, 0, false), disc, |disc|, o);
    SessionsBlocks(Tally(start, 0, false), disc, |disc|, NO_OPTS.(fillUp := o.fillUp));
    assert If(DiscHasOther(disc, |disc|), NO_OPTS.blockType) == {};
    TallyWithNone(AddSessions(Tally(start, 0, false), disc, |disc|, NO_OPTS));
  }

  lemma TallyWithNone(t: Tally)
    ensures TallyWith(t, {}) == t
  {
    assert t.demands.blockTypes + {} == t.demands.blockTypes;
  }

  /** The demands of data and audio tracks do not depend on the block type which is set. */
  lemma SameDemands(disc: Disc, o: Opts, p: Opts, d: Drive)
    requires DataOrAudio(disc) && o.fillUp == p.fillUp
    ensures DiscDemands(disc, o, d) == DiscDemands(disc, p, d)
  {
    hide DiscDemands;
    DemandsBlocks(disc, o, d);
    DemandsBlocks(disc, p, d);
  }

  /** Both inquiries tell the same about simulation, if SAO is offered at all. */
  lemma SameSimulation(d: Drive)
    requires GetCaps(d, Sao).ret > 0
    ensures GetCaps(d, Tao).ret >= 0 && GetCaps(d, Tao).caps.mightSimulate == GetCaps(d, Sao).caps.mightSimulate
  {}

  lemma {:induction false} OtherTrackIsExotic(t: Tally, session: seq<Track>, n: nat, o: Opts)
    requires n <= |session|
    ensures t.demands.exotic || HasOther(session, n) ==> AddTracks(t, session, n, o).demands.exotic
  {
    if n > 0 {
      OtherTrackIsExotic(t, session, n - 1, o);
    }
  }

  lemma {:induction false} OtherIsExotic(t: Tally, disc: Disc, n: nat, o: Opts)
    requires n <= |disc|
    ensures t.demands.exotic || DiscHasOther(disc, n) ==> AddSessions(t, disc, n, o).demands.exotic
  {
    hide AddTracks, HasOther;
    if n > 0 {
      OtherIsExotic(t, disc, n - 1, o);
      var u, session := AddSessions(t, disc, n - 1, o), disc[n - 1];
      OtherTrackIsExotic(SessionStart(u, session), session, |session|, o);
    }
  }

  lemma ExoticDemands(disc: Disc, o: Opts, d: Drive)
    requires DiscHasOther(disc, |disc|)
    ensures DiscDemands(disc, o, d).exotic
  {
    hide AddSessions, DiscHasOther;
    var several := |disc| > 1;
    var start := Demands(several, false, 0, false, false, false, {}, DiscStatus(d) == Appendable || several);
    OtherIsExotic(Tally(start, 0, false), disc, |disc|, o);
  }

  /** The check confirms the chosen type exactly if it can be set (or TAO was set already) and the drive offers
      the block type of SAO wherever tracks demand the block type which is set. */
  lemma CheckConfirmsChoice(o: Opts, d: Drive, disc: Disc)
    requires Choice(o, d, disc) != NoType
    ensures var wt := Choice(o, d, disc);
      Check(Set(o, d, wt), d, disc) == wt <==>
        if wt == Sao then DataOrAudio(disc) || SaoBlock in d.tao else Mode1 in d.tao || o.writeType == Tao
  {
    hide GetCaps, DiscDemands, PrefersTao, DiscHasOther, CanSet;
    ChosenCanBeSet(d);
    var p := Set(o, d, Choice(o, d, disc));
    DemandsBlocks(disc, o, d);
    DemandsBlocks(disc, p, d);
    if DiscHasOther(disc, |disc|) {
      ExoticDemands(disc, o, d);
    }
    if GetCaps(d, Sao).ret > 0 {
      SameSimulation(d);
    }
  }

  /** With a track of another kind, the check may refuse what has been chosen. */
  lemma OtherTracksMayDisagree()
    ensures var d := Drive(1, Blank, false, 0x09, true, false, true, {}, {Mode1, Raw0}, {SaoBlock}, {});
      var o := Opts(Tao, {Mode1}, false, false, false, false, 0);
      var disc := [[Track(0, false, 0)]];
      Choice(o, d, disc) == Sao && Check(Set(o, d, Sao), d, disc) == NoType
  {
    var d := Drive(1, Blank, false, 0x09, true, false, true, {}, {Mode1, Raw0}, {SaoBlock}, {});
    var o := Opts(Tao, {Mode1}, false, false, false, false, 0);
    ChosenCanBeSet(d);
    OtherTrackDemands(o, d);
    OtherTrackDemands(Set(o, d, Sao), d);
  }

  lemma OtherTrackDemands(o: Opts, d: Drive)
    requires d.status == Blank && !d.released && !o.fillUp
    ensures DiscDemands([[Track(0, false, 0)]], o, d)
      == Demands(false, false, 0, false, false, true, o.blockType, false)
  {
    var disc, session := [[Track(0, false, 0)]], [Track(0, false, 0)];
    var t := Tally(Demands(false, false, 0, false, false, false, {}, false), 0, false);
    assert AddTracks(t, session, 0, o) == t;
    assert AddTracks(t, session, 1, o) == AddTrack(t, session[0], 0, o);
    assert AddSessions(t, disc, 0, o) == t && disc[0] == session;
    assert AddSessions(t, disc, 1, o) == AddTracks(t, session, 1, o);
  }

  // ---------- demands

  /** Capabilities of the type cover what options and disc demand. The block types matter with CD. */
  predicate MeetsDemands(o: Opts, d: Drive, disc: Disc, wt: WriteType) {
    var m, c := DiscDemands(disc, o, d), GetCaps(d, wt).caps;
    && ((o.multi || m.multiSession) ==> c.multiSession)
    && (m.multiTrack ==> c.multiTrack)
    && (d.isCd && !(wt == Tao && o.force) ==> m.blockTypes <= d.tao)
    && (m.exotic ==> d.isCd)
    && (wt == Sao ==> d.status == Blank && !m.mixedMode && !m.willAppend)
    && (o.simulate && !o.force ==> c.mightSimulate)
  }

  /** Whatever gets chosen is offered by the drive and meets the demands, up to force. */
  lemma ChoiceMeetsDemands(o: Opts, d: Drive, disc: Disc)
    ensures var wt := Choice(o, d, disc);
      wt == NoType || ((wt == Sao || wt == Tao) && GetCaps(d, wt).ret > 0 && MeetsDemands(o, d, disc, wt))
  {
    hide GetCaps, DiscDemands, PrefersTao;
    if GetCaps(d, Sao).ret > 0 {
      SameSimulation(d);
    }
  }

  /** The same holds for what passes the check, except for raw writing, which is possible only with force. */
  lemma CheckMeetsDemands(o: Opts, d: Drive, disc: Disc)
    ensures var wt := Check(o, d, disc);
      && (wt == NoType || wt == o.writeType)
      && (wt == Sao || wt == Tao ==> GetCaps(d, wt).ret > 0 && MeetsDemands(o, d, disc, wt))
      && (wt == Raw ==> o.force && d.isCd && d.status == Blank && DiscDemands(disc, o, d).blockTypes <= d.tao)
  {
    hide GetCaps, DiscDemands;
  }
}
