/** Which write type gets chosen, told by role, profile and status of the drive and by the tracks of the disc. */
module WriteChoice {
  import opened WriteTypes

  // ---------- what a disc demands

  /** The tracks of all sessions. */
  function AllTracks(disc: Disc): seq<Track> {
    if disc == [] then [] else AllTracks(disc[..|disc| - 1]) + disc[|disc| - 1]
  }

  predicate Some(tracks: seq<Track>, p: Track -> bool) {
    exists k :: 0 <= k < |tracks| && p(tracks[k])
  }

  /** The size of the track is not known in advance. */
  predicate IsOpen(t: Track) {
    t.openEnded
  }

  /** ... and there is no default for it. */
  predicate IsUnpredictable(t: Track) {
    t.openEnded && t.defaultSize <= 0
  }

  predicate IsData(t: Track) {
    t.mode / 4 % 2 == 1
  }

  predicate IsSound(t: Track) {
    t.mode / 4 % 2 == 0 && t.mode / 64 % 2 == 1
  }

  predicate IsNeither(t: Track) {
    t.mode / 4 % 2 == 0 && t.mode / 64 % 2 == 0
  }

  predicate SomeSessionHasTracks(disc: Disc) {
    exists k :: 0 <= k < |disc| && |disc[k]| > 1
  }

  /** In some session not all tracks have the mode of the first one. */
  predicate IsMixed(disc: Disc) {
    exists k :: 0 <= k < |disc| && SessionMixed(disc[k], |disc[k]|)
  }

  predicate SessionMixed(session: seq<Track>, n: nat)
    requires n <= |session|
  {
    exists l :: 0 <= l < n && session[l].mode % 128 != session[0].mode % 128
  }

  /** Only the size of the very last track is not known in advance. */
  predicate OnlyLastIsOpen(tracks: seq<Track>) {
    tracks != [] && IsOpen(tracks[|tracks| - 1]) && !Some(tracks[..|tracks| - 1], IsOpen)
  }

  /** The last track may fill up the medium. */
  predicate LastFillsUp(disc: Disc, o: Opts) {
    o.fillUp && OnlyLastIsOpen(AllTracks(disc))
  }

  predicate NeedsUnknownSize(disc: Disc, o: Opts) {
    Some(AllTracks(disc), IsUnpredictable) && !LastFillsUp(disc, o)
  }

  predicate NeedsDefaultSize(disc: Disc, o: Opts) {
    Some(AllTracks(disc), IsOpen) && !Some(AllTracks(disc), IsUnpredictable) && !LastFillsUp(disc, o)
  }

  /** The drive offers the block types of all tracks. */
  predicate BlocksOffered(disc: Disc, o: Opts, d: Drive) {
    && (Some(AllTracks(disc), IsData) ==> Mode1 in d.tao)
    && (Some(AllTracks(disc), IsSound) ==> Raw0 in d.tao)
    && (Some(AllTracks(disc), IsNeither) ==> o.blockType <= d.tao)
  }

  // ---------- the demands are those of the tracks

  function CountOpen(tracks: seq<Track>): nat {
    if tracks == [] then 0
    else CountOpen(tracks[..|tracks| - 1]) + if tracks[|tracks| - 1].openEnded then 1 else 0
  }

  function SizesOf(tracks: seq<Track>): nat {
    if Some(tracks, IsUnpredictable) then 1 else if Some(tracks, IsOpen) then 2 else 0
  }

  function BlocksOf(tracks: seq<Track>, o: Opts): set<BlockType> {
    (if Some(tracks, IsData) then {Mode1} else {}) + (if Some(tracks, IsSound) then {Raw0} else {})
    + if Some(tracks, IsNeither) then o.blockType else {}
  }

  predicate Tallied(t: Tally, tracks: seq<Track>, o: Opts) {
    && t.demands.unknownSize == SizesOf(tracks) && t.unknown == CountOpen(tracks)
    && (t.lastUnknown <==> tracks != [] && tracks[|tracks| - 1].openEnded)
    && (t.demands.exotic <==> Some(tracks, IsSound) || Some(tracks, IsNeither))
    && t.demands.blockTypes == BlocksOf(tracks, o)
  }

  lemma SomeAppend(tracks: seq<Track>, track: Track, p: Track -> bool)
    ensures Some(tracks + [track], p) <==> Some(tracks, p) || p(track)
  {
    var all := tracks + [track];
    assert all[|tracks|] == track && forall k :: 0 <= k < |tracks| ==> all[k] == tracks[k];
  }

  lemma TalliedNext(t: Tally, tracks: seq<Track>, track: Track, mode: nat, o: Opts)
    requires Tallied(t, tracks, o)
    ensures Tallied(AddTrack(t, track, mode, o), tracks + [track], o)
  {
    hide Some;
    SomeAppend(tracks, track, IsUnpredictable);
    SomeAppend(tracks, track, IsOpen);
    SomeAppend(tracks, track, IsData);
    SomeAppend(tracks, track, IsSound);
    SomeAppend(tracks, track, IsNeither);
    assert (tracks + [track])[..|tracks|] == tracks;
  }

  lemma {:induction false} TalliedTracks(t: Tally, tracks: seq<Track>, session: seq<Track>, n: nat, o: Opts)
    requires n <= |session| && Tallied(t, tracks, o)
    ensures Tallied(AddTracks(t, session, n, o), tracks + session[..n], o)
  {
    hide Tallied, AddTrack;
    if n == 0 {
      assert tracks + session[..0] == tracks;
    } else {
      TalliedTracks(t, tracks, session, n - 1, o);
      TalliedNext(AddTracks(t, session, n - 1, o), tracks + session[..n - 1], session[n - 1], session[0].mode, o);
      assert tracks + session[..n] == tracks + session[..n - 1] + [session[n - 1]];
    }
  }

  lemma {:induction false} MixedTracks(t: Tally, session: seq<Track>, n: nat, o: Opts)
    requires n <= |session|
    ensures AddTracks(t, session, n, o).demands.mixedMode <==> t.demands.mixedMode || SessionMixed(session, n)
    ensures var u := AddTracks(t, session, n, o).demands;
      u.multiTrack == t.demands.multiTrack && u.multiSession == t.demands.multiSession
      && u.willAppend == t.demands.willAppend
  {
    if n > 0 {
      MixedTracks(t, session, n - 1, o);
    }
  }

  predicate SomeMixed(disc: Disc, n: nat)
    requires n <= |disc|
  {
    exists k :: 0 <= k < n && SessionMixed(disc[k], |disc[k]|)
  }

  predicate SomeSeveral(disc: Disc, n: nat)
    requires n <= |disc|
  {
    exists k :: 0 <= k < n && |disc[k]| > 1
  }

  lemma {:induction false} TalliedSessions(t: Tally, disc: Disc, n: nat, o: Opts)
    requires n <= |disc| && Tallied(t, [], o) && !t.demands.mixedMode && !t.demands.multiTrack
    ensures var u := AddSessions(t, disc, n, o);
      && Tallied(u, AllTracks(disc[..n]), o)
      && (u.demands.mixedMode <==> SomeMixed(disc, n)) && (u.demands.multiTrack <==> SomeSeveral(disc, n))
      && u.demands.multiSession == t.demands.multiSession && u.demands.willAppend == t.demands.willAppend
  {
    hide AddTracks, SessionMixed, Some, CountOpen;
    if n > 0 {
      TalliedSessions(t, disc, n - 1, o);
      var u, session := AddSessions(t, disc, n - 1, o), disc[n - 1];
      var v := if |session| > 1 then u.(demands := u.demands.(multiTrack := true)) else u;
      assert Tallied(v, AllTracks(disc[..n - 1]), o);
      TalliedTracks(v, AllTracks(disc[..n - 1]), session, |session|, o);
      MixedTracks(v, session, |session|, o);
      assert disc[..n][..n - 1] == disc[..n - 1] && session[..|session|] == session;
    }
  }

  lemma {:induction false} NoneOpen(tracks: seq<Track>)
    ensures CountOpen(tracks) == 0 <==> !Some(tracks, IsOpen)
  {
    if tracks != [] {
      var before := tracks[..|tracks| - 1];
      NoneOpen(before);
      SomeAppend(before, tracks[|tracks| - 1], IsOpen);
      assert before + [tracks[|tracks| - 1]] == tracks;
    }
  }

  lemma SomeIsSome(tracks: seq<Track>)
    ensures Some(tracks, IsUnpredictable) ==> Some(tracks, IsOpen)
  {}

  /** The demands in terms of the tracks. */
  predicate DemandsMean(disc: Disc, o: Opts, d: Drive) {
    var m, all := DiscDemands(disc, o, d), AllTracks(disc);
    && m.unknownSize == (if NeedsUnknownSize(disc, o) then 1 else if NeedsDefaultSize(disc, o) then 2 else 0)
    && (m.exotic <==> Some(all, IsSound) || Some(all, IsNeither))
    && (m.mixedMode <==> IsMixed(disc)) && (m.multiTrack <==> SomeSessionHasTracks(disc))
    && (m.multiSession <==> |disc| > 1)
    && (m.willAppend <==> (!d.released && d.status == Appendable) || |disc| > 1)
    && (m.blockTypes <= d.tao <==> BlocksOffered(disc, o, d))
  }

  lemma BlocksFit(tracks: seq<Track>, o: Opts, tao: set<BlockType>)
    ensures BlocksOf(tracks, o) <= tao <==>
      && (Some(tracks, IsData) ==> Mode1 in tao) && (Some(tracks, IsSound) ==> Raw0 in tao)
      && (Some(tracks, IsNeither) ==> o.blockType <= tao)
  {
    hide Some;
    var all := BlocksOf(tracks, o);
    assert Some(tracks, IsData) ==> Mode1 in all;
    assert Some(tracks, IsSound) ==> Raw0 in all;
    assert Some(tracks, IsNeither) ==> o.blockType <= all;
  }

  lemma DemandsOfTracks(disc: Disc, o: Opts, d: Drive)
    ensures DemandsMean(disc, o, d)
  {
    hide AddSessions, Some, AllTracks, BlocksOf, CountOpen, SomeMixed;
    var several, all := |disc| > 1, AllTracks(disc);
    var start := Demands(several, false, 0, false, false, false, {}, DiscStatus(d) == Appendable || several);
    TalliedStart(start, o);
    TalliedSessions(Tally(start, 0, false), disc, |disc|, o);
    assert disc[..|disc|] == disc;
    BlocksFit(all, o, d.tao);
    SomeIsSome(all);
    SameMixed(disc);
    if all != [] {
      CountLast(all);
      NoneOpen(all[..|all| - 1]);
    }
  }

  lemma SameMixed(disc: Disc)
    ensures SomeMixed(disc, |disc|) == IsMixed(disc)
  {}

  lemma CountLast(tracks: seq<Track>)
    requires tracks != []
    ensures CountOpen(tracks) == CountOpen(tracks[..|tracks| - 1]) + if IsOpen(tracks[|tracks| - 1]) then 1 else 0
  {}

  lemma TalliedStart(start: Demands, o: Opts)
    requires start.unknownSize == 0 && !start.exotic && start.blockTypes == {}
    ensures Tallied(Tally(start, 0, false), [], o)
  {}

  // ---------- what drives and media offer

  predicate IsCdMedium(d: Drive) {
    d.profile == 0x09 || d.profile == 0x0a
  }

  /** DVD-R, sequential DVD-RW, DVD-R DL */
  predicate IsSequentialDvd(d: Drive) {
    d.profile == 0x11 || d.profile == 0x14 || d.profile == 0x15
  }

  /** DVD-RAM, overwritable DVD-RW, DVD+RW, BD-RE */
  predicate IsOverwritable(d: Drive) {
    d.profile == 0x12 || d.profile == 0x13 || d.profile == 0x1a || d.profile == 0x43
  }

  /** DVD+R, DVD+R DL, BD-R */
  predicate IsDvdPlusR(d: Drive) {
    d.profile == 0x1b || d.profile == 0x2b || d.profile == 0x41
  }

  /** A grabbed drive or an emulated one with a medium that is blank or appendable. */
  predicate IsReady(d: Drive) {
    !d.released && (d.status == Blank || d.status == Appendable) && d.role != 0 && d.role != 4
  }

  predicate OffersSao(d: Drive) {
    && IsReady(d) && d.status == Blank
    && (d.role != 1 || (IsCdMedium(d) && d.sao != {}) || IsSequentialDvd(d) || IsOverwritable(d) || IsDvdPlusR(d))
  }

  predicate OffersTao(d: Drive) {
    && IsReady(d)
    && (d.role != 1 || (IsCdMedium(d) && d.tao != {}) || (IsSequentialDvd(d) && d.hasFeat21h)
        || IsOverwritable(d) || IsDvdPlusR(d))
  }

  /** Start addresses are random. So nothing speaks for SAO. */
  predicate IsRandomAccess(d: Drive) {
    d.role != 1 || IsOverwritable(d)
  }

  predicate SimulatesWriting(d: Drive) {
    d.role != 1 || (IsCdMedium(d) && d.canSimulate) || IsSequentialDvd(d)
  }

  predicate SimulationWorks(o: Opts, d: Drive) {
    o.simulate ==> o.force || SimulatesWriting(d)
  }

  predicate IsExotic(disc: Disc) {
    Some(AllTracks(disc), IsSound) || Some(AllTracks(disc), IsNeither)
  }

  /** Nothing speaks against SAO, default sizes included. */
  predicate SaoIsPossible(o: Opts, d: Drive, disc: Disc) {
    && OffersSao(d) && |disc| == 1 && !IsMixed(disc) && (IsExotic(disc) ==> d.isCd)
    && (o.multi || SomeSessionHasTracks(disc) ==> d.role == 1 && (IsCdMedium(d) || IsDvdPlusR(d)))
    && (NeedsUnknownSize(disc, o) ==> IsRandomAccess(d))
    && (d.isCd ==> BlocksOffered(disc, o, d) && !o.fillUp)
  }

  /** Nothing speaks against TAO. */
  predicate TaoIsPossible(o: Opts, d: Drive, disc: Disc) {
    && OffersTao(d) && disc != [] && (IsExotic(disc) ==> d.isCd)
    && (o.multi || |disc| > 1 || SomeSessionHasTracks(disc) ==> !IsRandomAccess(d))
    && (o.multi || |disc| > 1 ==> d.profile != 0x15)
    && (d.isCd && !o.force ==> BlocksOffered(disc, o, d))
  }

  // ---------- capabilities

  lemma SaoCaps(d: Drive)
    requires d.status == Blank
    ensures var r := GetCaps(d, Sao);
      && (r.ret > 0 <==> OffersSao(d)) && (r.ret < 0 <==> d.released)
      && (OffersSao(d) ==>
            && (r.caps.multiSession <==> d.role == 1 && (IsCdMedium(d) || IsDvdPlusR(d)))
            && (r.caps.multiTrack <==> d.role == 1 && (IsCdMedium(d) || IsDvdPlusR(d)))
            && (r.caps.mightSao == if IsRandomAccess(d) then 4 else 1)
            && (r.caps.mightSimulate <==> SimulatesWriting(d)))
  {}

  lemma TaoCaps(d: Drive)
    requires d.status == Blank || d.status == Appendable
    ensures var r := GetCaps(d, Tao);
      && (r.ret > 0 <==> OffersTao(d)) && (r.ret < 0 <==> d.released)
      && (OffersTao(d) ==>
            && (r.caps.multiSession <==> !IsRandomAccess(d) && d.profile != 0x15)
            && (r.caps.multiTrack <==> !IsRandomAccess(d))
            && (r.caps.mightSimulate <==> SimulatesWriting(d)))
  {}

  lemma SaoFitsIf(o: Opts, d: Drive, disc: Disc)
    requires d.status == Blank && disc != []
    ensures var m := DiscDemands(disc, o, d);
      GetCaps(d, Sao).ret > 0 && SaoFits(o, d, m, GetCaps(d, Sao).caps) <==> SaoIsPossible(o, d, disc)
  {
    hide GetCaps, DiscDemands, Some, BlocksOffered, IsMixed, SomeSessionHasTracks, OnlyLastIsOpen;
    SaoCaps(d);
    DemandsOfTracks(disc, o, d);
  }

  lemma TaoFitsIf(o: Opts, d: Drive, disc: Disc)
    requires (d.status == Blank || d.status == Appendable) && disc != []
    ensures var m := DiscDemands(disc, o, d);
      GetCaps(d, Tao).ret > 0 && TaoFits(o, d, m, GetCaps(d, Tao).caps) <==> TaoIsPossible(o, d, disc)
  {
    hide GetCaps, DiscDemands, Some, BlocksOffered, IsMixed, SomeSessionHasTracks, OnlyLastIsOpen;
    TaoCaps(d);
    DemandsOfTracks(disc, o, d);
  }

  // ---------- the choice

  /** SAO is chosen if possible and if it neither needs default sizes nor is without advantage. With default sizes
      it is the last resort. TAO is chosen if it is possible and SAO is not to be preferred. */
  lemma WhichTypeIsChosen(o: Opts, d: Drive, disc: Disc)
    ensures var saoPreferred :=
        SaoIsPossible(o, d, disc) && !IsRandomAccess(d) && !NeedsDefaultSize(disc, o);
      && (Choice(o, d, disc) == Sao <==>
            && SimulationWorks(o, d)
            && (saoPreferred
                || (SaoIsPossible(o, d, disc) && NeedsDefaultSize(disc, o) && !OffersTao(d) && o.textPacks == 0)))
      && (Choice(o, d, disc) == Tao <==>
            SimulationWorks(o, d) && TaoIsPossible(o, d, disc) && o.textPacks == 0 && !saoPreferred)
  {
    hide GetCaps, DiscDemands, SaoFits, TaoFits, Some, BlocksOffered, IsMixed, SomeSessionHasTracks, OnlyLastIsOpen;
    if disc != [] && (d.status == Blank || d.status == Appendable) {
      DemandsOfTracks(disc, o, d);
      TaoFitsIf(o, d, disc);
      TaoCaps(d);
      if d.status == Blank {
        SaoFitsIf(o, d, disc);
        SaoCaps(d);
        if OffersSao(d) {
          SameSimulation(d);
        }
      }
    }
  }

  /** What a check of the write type which is already set comes to. */
  lemma WhichTypeIsConfirmed(o: Opts, d: Drive, disc: Disc)
    ensures Check(o, d, disc) ==
      match o.writeType
      case Sao => if SaoIsPossible(o, d, disc) && SimulationWorks(o, d) then Sao else NoType
      case Tao => if TaoIsPossible(o, d, disc) && SimulationWorks(o, d) && o.textPacks == 0 then Tao else NoType
      case Raw =>
        if d.status == Blank && d.isCd && disc != [] && BlocksOffered(disc, o, d) && o.force && o.textPacks == 0
        then Raw else NoType
      case _ => NoType
  {
    hide GetCaps, DiscDemands, SaoFits, TaoFits, Some, BlocksOffered, IsMixed, SomeSessionHasTracks, OnlyLastIsOpen;
    if disc != [] && (d.status == Blank || d.status == Appendable) {
      DemandsOfTracks(disc, o, d);
      TaoFitsIf(o, d, disc);
      TaoCaps(d);
      if d.status == Blank {
        SaoFitsIf(o, d, disc);
        SaoCaps(d);
      }
    }
  }

  // ---------- by kind of medium

  /** On media with random access SAO is never chosen, and TAO for a single track whenever it is possible. */
  lemma RandomAccessGetsTao(o: Opts, d: Drive, disc: Disc)
    requires d.role != 1 || d.profile == 0x12 || d.profile == 0x13 || d.profile == 0x1a || d.profile == 0x43
    ensures Choice(o, d, disc) != Sao
    ensures Choice(o, d, disc) == Tao <==>
      && !d.released && (d.status == Blank || d.status == Appendable) && d.role != 0 && d.role != 4
      && |disc| == 1 && |disc[0]| <= 1 && !o.multi && o.textPacks == 0
      && (IsExotic(disc) ==> d.isCd) && (d.isCd && !o.force ==> BlocksOffered(disc, o, d))
      && (o.simulate && !o.force ==> d.role != 1)
  {
    hide Choice, BlocksOffered, IsMixed, Some;
    WhichTypeIsChosen(o, d, disc);
  }

  /** On blank CD which offer both types, SAO is chosen exactly if it is possible and no track size is missing. */
  lemma BlankCdGetsSao(o: Opts, d: Drive, disc: Disc)
    requires d.role == 1 && (d.profile == 0x09 || d.profile == 0x0a) && d.isCd && d.status == Blank && !d.released
    requires d.tao != {} && d.sao != {}
    ensures Choice(o, d, disc) == Sao <==>
      && |disc| == 1 && !IsMixed(disc) && BlocksOffered(disc, o, d) && !o.fillUp
      && !Some(AllTracks(disc), IsOpen) && (o.simulate && !o.force ==> d.canSimulate)
    ensures Choice(o, d, disc) == Tao <==>
      && disc != [] && o.textPacks == 0 && (o.force || BlocksOffered(disc, o, d))
      && (o.simulate && !o.force ==> d.canSimulate)
      && !(|disc| == 1 && !IsMixed(disc) && BlocksOffered(disc, o, d) && !o.fillUp && !Some(AllTracks(disc), IsOpen))
  {
    hide Choice, BlocksOffered, IsMixed, Some;
    WhichTypeIsChosen(o, d, disc);
    SomeIsSome(AllTracks(disc));
  }

  /** On blank sequential DVD and on DVD+R, SAO is chosen if it is possible and no default size is needed. */
  lemma BlankDvdGetsSao(o: Opts, d: Drive, disc: Disc)
    requires d.role == 1 && d.status == Blank && !d.released && !d.isCd
    requires ((d.profile == 0x11 || d.profile == 0x14 || d.profile == 0x15) && d.hasFeat21h)
             || d.profile == 0x1b || d.profile == 0x2b || d.profile == 0x41
    ensures Choice(o, d, disc) == Sao <==>
      && |disc| == 1 && !IsMixed(disc) && !IsExotic(disc)
      && !NeedsUnknownSize(disc, o) && !NeedsDefaultSize(disc, o)
      && (o.multi || |disc[0]| > 1 ==> d.profile == 0x1b || d.profile == 0x2b || d.profile == 0x41)
      && (o.simulate && !o.force ==> d.profile == 0x11 || d.profile == 0x14 || d.profile == 0x15)
  {
    hide Choice, BlocksOffered, IsMixed, Some;
    WhichTypeIsChosen(o, d, disc);
  }

  /** On appendable media SAO is never chosen. TAO gets chosen whenever it is possible. */
  lemma AppendableGetsTao(o: Opts, d: Drive, disc: Disc)
    requires d.status == Appendable
    ensures Choice(o, d, disc)
      == if TaoIsPossible(o, d, disc) && SimulationWorks(o, d) && o.textPacks == 0 then Tao else NoType
  {
    hide TaoIsPossible, SimulationWorks;
    WhichTypeIsChosen(o, d, disc);
    ChoiceMeetsDemands(o, d, disc);
  }

  /** The reply to an inquiry about capabilities, with any write type. */
  lemma CapsReplied(d: Drive, wt: WriteType)
    ensures var r := GetCaps(d, wt);
      && (d.released || d.status == Ungrabbed ==> r == CapsReply(-1, Caps(false, false, 0, 0, 0, false)))
      && (!d.released && d.status != Ungrabbed && r.ret != 1 ==> r.ret == 0)
      && (r.ret == 1 ==> IsReady(d) || (!d.released && d.role != 0 && d.role != 1 && d.role != 4))
      && (r.ret == 1 && d.status == Appendable ==> wt != Sao && wt != Raw)
      && (r.ret == 1 ==> r.caps.mightTao == if OffersTao(d) || d.role != 1 then 2 else 0)
      && (r.ret == 1 && d.role == 1 ==>
            r.caps.mightSao == if !OffersSao(d) then 0 else if IsOverwritable(d) then 4 else 1)
      && (r.ret == 1 ==>
            r.caps.mightRaw == if d.role == 1 && d.status == Blank && IsCdMedium(d) && d.raw != {} then 1 else 0)
  {}
}
