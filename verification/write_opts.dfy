/** The write options object with the goto-driven decision of burn_write_opts_auto_write_type(). */
module WriteOpts {
  import opened WriteTypes

  /** sector_get_outmode does not yield -1 */
  predicate HasOutmode(wt: WriteType, block: set<BlockType>) {
    || wt == Sao || wt == Tao
    || block == {Raw0} || block == {Raw16} || block == {Raw96P} || block == {Raw96R} || block == {Mode1}
  }

  /** spc_block_type does not yield -1 */
  predicate IsOneType(block: set<BlockType>) {
    exists b :: b in block && block == {b}
  }

  class WriteOpts {
    var writeType: WriteType
    var blockType: set<BlockType>
    var multi: bool
    var fillUp: bool
    var force: bool
    var simulate: bool
    var textPacks: nat

    function View(): Opts
      reads this
    {
      Opts(writeType, blockType, multi, fillUp, force, simulate, textPacks)
    }

    /** burn_write_opts_set_write_type. The type must be one of the four which have offered block types. */
    method SetWriteType(d: Drive, wt: WriteType, block: set<BlockType>) returns (ok: bool)
      requires wt != NoType
      modifies this`writeType, this`blockType
      ensures ok == CanSet(d, wt, block)
      ensures View() == if ok then old(View()).(writeType := wt, blockType := block) else old(View())
    {
      if !((wt == Sao && block == {SaoBlock}) || Offered(d, wt) * block != {}) {
        assert forall b :: b in block && b in Offered(d, wt) ==> b in Offered(d, wt) * block;
        return false;
      }
      if !HasOutmode(wt, block) || !IsOneType(block) {
        assert CanSet(d, wt, block) ==> exists b :: b in block && block == {b};
        return false;
      }
      var b :| b in block && block == {b};
      assert Offered(d, wt) * block != {} ==> b in Offered(d, wt);
      writeType, blockType := wt, block;
      ok := true;
    }

    /** Evaluates the mode of a track. "mode" is the one of the first track of its session. */
    method CountMode(result: Demands, track: Track, mode: nat) returns (result': Demands)
      ensures result' == ModeDemands(result, track, mode, View())
    {
      result' := result;
      if mode % 128 != track.mode % 128 {
        result' := result'.(mixedMode := true);
      }
      if IsMode1(track.mode) {
        result' := result'.(blockTypes := result'.blockTypes + {Mode1});
      } else if IsAudio(track.mode) {
        result' := result'.(audio := true, exotic := true, blockTypes := result'.blockTypes + {Raw0});
      } else {
        result' := result'.(exotic := true, blockTypes := result'.blockTypes + blockType);
      }
    }

    /** Evaluates one track. */
    method CountTrack(result: Demands, unknown: nat, track: Track, mode: nat, ghost was: bool)
      returns (result': Demands, unknown': nat, lastTrackIsUnknown: bool)
      ensures Tally(result', unknown', lastTrackIsUnknown) == AddTrack(Tally(result, unknown, was), track, mode, View())
    {
      hide ModeDemands;
      result', unknown' := result, unknown;
      if track.openEnded {
        if track.defaultSize > 0 {
          if result.unknownSize == 0 {
            result' := result.(unknownSize := 2);
          }
        } else {
          result' := result.(unknownSize := 1);
        }
        unknown' := unknown + 1;
      }
      lastTrackIsUnknown := track.openEnded;
      result' := CountMode(result', track, mode);
    }

    /** burn_disc_get_write_mode_demands */
    method GetDemands(d: Drive, disc: Disc) returns (ret: int, result: Demands)
      ensures ret == (if disc != [] then 1 else 0) && result == DiscDemands(disc, View(), d)
    {
      hide AddTrack;
      result := Demands(|disc| > 1, false, 0, false, false, false, {}, DiscStatus(d) == Appendable || |disc| > 1);
      var unknownTrackSizes, lastTrackIsUnknown := 0, false;
      ghost var start := Tally(result, 0, false);
      var i := 0;
      while i < |disc|
        invariant i <= |disc|
        invariant Tally(result, unknownTrackSizes, lastTrackIsUnknown) == AddSessions(start, disc, i, View())
      {
        var session := disc[i];
        if |session| > 1 {
          result := result.(multiTrack := true);
        }
        ghost var before := Tally(result, unknownTrackSizes, lastTrackIsUnknown);
        var j := 0;
        while j < |session|
          invariant j <= |session|
          invariant Tally(result, unknownTrackSizes, lastTrackIsUnknown) == AddTracks(before, session, j, View())
        {
          result, unknownTrackSizes, lastTrackIsUnknown :=
            CountTrack(result, unknownTrackSizes, session[j], session[0].mode, lastTrackIsUnknown);
          j := j + 1;
        }
        i := i + 1;
      }
      if fillUp && unknownTrackSizes == 1 && lastTrackIsUnknown {
        result := result.(unknownSize := 0);
      }
      ret := if |disc| > 0 then 1 else 0;
    }

    /** What speaks against SAO. */
    method SaoReasons(d: Drive, m: Demands, c: Caps) returns (reasons: seq<string>)
      ensures reasons == [] <==> SaoFits(View(), d, m, c)
    {
      reasons := [];
      if (multi || m.multiSession) && !c.multiSession {
        reasons := reasons + ["multi session capability lacking"];
      }
      if m.willAppend {
        reasons := reasons + ["appended session capability lacking"];
      }
      if m.multiTrack && !c.multiTrack {
        reasons := reasons + ["multi track capability lacking"];
      }
      if m.unknownSize == 1 && (c.mightSao == 1 || c.mightSao == 3) {
        reasons := reasons + ["track size unpredictable"];
      }
      if m.mixedMode {
        reasons := reasons + ["tracks of different modes mixed"];
      }
      if m.exotic && !d.isCd {
        reasons := reasons + ["non-data track on non-cd"];
      } else if d.isCd && !(m.blockTypes <= d.tao) {
        reasons := reasons + ["drive dislikes block type"];
      }
      if d.isCd && fillUp {
        reasons := reasons + ["cd sao cannot do media fill up yet"];
      }
    }

    /** What speaks against TAO. */
    method TaoReasons(d: Drive, m: Demands, c: Caps) returns (reasons: seq<string>)
      ensures reasons == [] <==> TaoFits(View(), d, m, c)
    {
      reasons := [];
      if (multi || m.multiSession) && !c.multiSession {
        reasons := reasons + ["multi session capability lacking"];
      }
      if m.multiTrack && !c.multiTrack {
        reasons := reasons + ["multi track capability lacking"];
      }
      if m.exotic && !d.isCd {
        reasons := reasons + ["non-data track on non-cd"];
      }
      if d.isCd && !force && !(m.blockTypes <= d.tao) {
        reasons := reasons + ["drive dislikes block type"];
      }
    }

    /** The steps after label do_sao. */
    method DoSao(d: Drive, c: Caps, check: bool) returns (wt: WriteType)
      modifies this`writeType, this`blockType
      ensures wt == if CannotSimulate(old(View()), c) then NoType else Sao
      ensures View() == if wt == Sao && !check then Set(old(View()), d, Sao) else old(View())
    {
      if !c.mightSimulate && simulate && !force {
        return NoType;
      }
      if !check {
        var _ := SetWriteType(d, Sao, {SaoBlock});
      }
      wt := Sao;
    }

    /** The steps up to label try_tao. If they do not come to an end, then they tell whether SAO would do. */
    method TrySao(d: Drive, m: Demands, check: bool)
      returns (done: bool, wt: WriteType, wouldDoSao: bool, reasons: seq<string>)
      modifies this`writeType, this`blockType
      ensures var sao := GetCaps(d, Sao);
        var works := d.status == Blank && sao.ret > 0 && SaoFits(old(View()), d, m, sao.caps);
        if check && old(writeType) != Sao then !done && !wouldDoSao
        else if d.status == Blank && sao.ret < 0 then done && wt == NoType
        else if works && (check || !PrefersTao(m, sao.caps)) then
          done && wt == if CannotSimulate(old(View()), sao.caps) then NoType else Sao
        else !done && wouldDoSao == works
      ensures View() == if done && wt == Sao && !check then Set(old(View()), d, Sao) else old(View())
    {
      hide GetCaps, SaoFits, Set;
      done, wt, wouldDoSao, reasons := false, NoType, false, [];
      if check && writeType != Sao {
        return;
      }
      if d.status != Blank {
        reasons := ["write type SAO works only on blank media"];
        return;
      }
      var reply := GetCaps(d, Sao);
      if reply.ret < 0 {
        done, reasons := true, ["cannot inquire write mode capabilities"];
        return;
      } else if reply.ret == 0 {
        reasons := ["no SAO offered by drive and media"];
        return;
      }
      reasons := SaoReasons(d, m, reply.caps);
      if reasons != [] {
        return;
      }
      wouldDoSao := true;
      if m.unknownSize == 2 && !check && (reply.caps.mightSao == 1 || reply.caps.mightSao == 3) {
        reasons := ["would have to use default track sizes"];
        return;
      } else if reply.caps.mightSao >= 3 && !check {
        return;
      }
      done := true;
      wt := DoSao(d, reply.caps, check);
    }

    /** The steps from label try_tao up to label try_raw. */
    method TryTao(d: Drive, m: Demands, check: bool, wouldDoSao: bool)
      returns (done: bool, wt: WriteType, reasons: seq<string>)
      modifies this`writeType, this`blockType
      ensures var o, tao := old(View()), GetCaps(d, Tao);
        if textPacks > 0 then done && wt == NoType
        else if check && o.writeType != Tao then !done
        else if tao.ret < 0 then done && wt == NoType
        else if tao.ret > 0 && TaoFits(o, d, m, tao.caps) then
          done && wt == if CannotSimulate(o, tao.caps) then NoType else Tao
        else if wouldDoSao && !check then done && wt == if CannotSimulate(o, tao.caps) then NoType else Sao
        else wt == NoType
      ensures View() == if done && wt != NoType && !check then Set(old(View()), d, wt) else old(View())
    {
      hide GetCaps, TaoFits, CanSet;
      done, wt, reasons := true, NoType, [];
      if textPacks > 0 {
        reasons := ["CD-TEXT: write type SAO required"];
        return;
      }
      if check && writeType != Tao {
        done := false;
        return;
      }
      var reply := GetCaps(d, Tao);
      if reply.ret < 0 {
        reasons := ["cannot inquire write mode capabilities"];
        return;
      }
      reasons := ["no TAO offered by drive and media"];
      if reply.ret > 0 {
        reasons := TaoReasons(d, m, reply.caps);
        if reasons == [] {
          if !reply.caps.mightSimulate && simulate && !force {
            reasons := ["simulation of write job not supported by drive and media"];
            return;
          }
          if !check {
            var _ := SetWriteType(d, Tao, {Mode1});
          }
          wt := Tao;
          return;
        }
      }
      if wouldDoSao && !check {
        wt := DoSao(d, reply.caps, check);
        return;
      }
      done := !d.isCd;
    }

    /** burn_write_opts_auto_write_type. "check" is bit0 of its flag. */
    method AutoWriteType(d: Drive, disc: Disc, check: bool) returns (wt: WriteType, reasons: seq<string>)
      modifies this`writeType, this`blockType
      ensures wt == if check then Check(old(View()), d, disc) else Choice(old(View()), d, disc)
      ensures View() == if check || wt == NoType then old(View()) else Set(old(View()), d, wt)
    {
      hide GetCaps, DiscDemands, SaoFits, TaoFits, PrefersTao, Set;
      if d.status != Blank && d.status != Appendable {
        return NoType, ["MEDIA: closed or not recordable"];
      }
      var ret, m := GetDemands(d, disc);
      if ret <= 0 {
        return NoType, ["cannot recognize job demands"];
      }
      if m.exotic && !d.isCd {
        return NoType, ["exotic track prohibited by non-CD"];
      }
      var done, wouldDoSao, more;
      done, wt, wouldDoSao, reasons := TrySao(d, m, check);
      if done {
        return;
      }
      done, wt, more := TryTao(d, m, check, wouldDoSao);
      reasons := reasons + more;
      if done {
        return;
      }
      wt := NoType;
      if check && writeType == Raw {
        if !d.isCd {
          reasons := reasons + ["write type RAW prohibited by non-cd"];
        } else if d.status != Blank {
          reasons := reasons + ["write type RAW works only on blank media"];
        } else if !(m.blockTypes <= d.tao) {
          reasons := reasons + ["drive dislikes block type"];
        } else if force {
          wt := Raw;
        }
      }
    }
  }
}
