/** burn_cdtext_crc_mismatches of libburn/cdtext.c: checking and repairing the checksums of packs. */
module CdTextCheck {
  import opened Crc
  import opened CdText
  import opened CdTextCursor

  predicate NoChecksum(p: Pack) {
    p[16] == 0 && p[17] == 0
  }

  function Mismatches(ps: seq<Pack>): nat {
    if ps == [] then 0 else Mismatches(ps[..|ps| - 1]) + (if PackValid(ps[|ps| - 1]) then 0 else 1)
  }

  /** The number of wrong checksums which are not both 0. */
  function WrongChecksums(ps: seq<Pack>): nat {
    if ps == [] then 0 else
      WrongChecksums(ps[..|ps| - 1]) + (if PackValid(ps[|ps| - 1]) || NoChecksum(ps[|ps| - 1]) then 0 else 1)
  }

  function Repaired(p: Pack): Pack {
    Sealed(p[..16])
  }

  function AllRepaired(ps: seq<Pack>): (r: seq<Pack>)
    ensures |r| == |ps| && forall i :: 0 <= i < |ps| ==> r[i] == Repaired(ps[i])
  {
    seq(|ps|, i requires 0 <= i < |ps| => Repaired(ps[i]))
  }

  function RepairedBelow(ps: seq<Pack>, n: nat): (r: seq<Pack>)
    requires n <= |ps|
    ensures |r| == |ps|
  {
    AllRepaired(ps[..n]) + ps[n..]
  }

  lemma RepairStep(ps: seq<Pack>, i: nat)
    requires i < |ps|
    ensures RepairedBelow(ps, i)[i] == ps[i]
    ensures RepairedBelow(ps, i + 1) == RepairedBelow(ps, i)[i := Repaired(ps[i])]
  {
    hide Repaired;
  }

  lemma RepairEnds(ps: seq<Pack>)
    ensures RepairedBelow(ps, 0) == ps && RepairedBelow(ps, |ps|) == AllRepaired(ps)
  {
    hide Repaired;
    assert ps[..|ps|] == ps;
  }

  lemma EmptyCounts(ps: seq<Pack>)
    ensures Mismatches(ps[..0]) == 0 && WrongChecksums(ps[..0]) == 0
  {}

  lemma PackInBuffer(bytes: seq<bv8>, n: nat, i: nat)
    requires i < n && 18 * n <= |bytes|
    ensures PacksIn(bytes, n)[i] == bytes[18 * i..18 * i + 18]
  {}

  lemma CountStep(ps: seq<Pack>, i: nat)
    requires i < |ps|
    ensures Mismatches(ps[..i + 1]) == Mismatches(ps[..i]) + (if PackValid(ps[i]) then 0 else 1)
    ensures WrongChecksums(ps[..i + 1]) == WrongChecksums(ps[..i])
      + (if PackValid(ps[i]) || NoChecksum(ps[i]) then 0 else 1)
  {
    hide PackValid, NoChecksum;
    assert ps[..i + 1][..i] == ps[..i];
  }

  lemma RepairedIf(p: Pack)
    ensures Repaired(p)[..16] == p[..16]
    ensures PackValid(p) ==> Repaired(p) == p
    ensures PackValid(Repaired(p))
  {
    hide CrcField;
    assert p == p[..16] + p[16..];
    assert Repaired(p)[..16] == p[..16] && Repaired(p)[16..] == CrcField(p[..16]);
  }

  lemma InvertedBytes(residue: bv32)
    requires residue < 0x10000
    ensures (((residue >> 8) & 0xff) ^ 0xff) as bv8 == Inverted(HighByte(residue))
    ensures ((residue & 0xff) ^ 0xff) as bv8 == Inverted(LowByte(residue))
  {}

  /** The two bytes which shall be stored with pack i. */
  method ChecksumOf(packs: array<bv8>, idx: nat) returns (crc0: bv8, crc1: bv8)
    requires idx + 18 <= packs.Length
    ensures [crc0, crc1] == CrcField(packs[idx..idx + 16])
  {
    hide Inverted, HighByte, LowByte, Crc11021;
    var residue := ComputeCrc(packs, idx, 16);
    ghost var q := CrcIsRemainder(packs[idx..idx + 16]);
    InvertedBytes(residue);
    crc0 := (((residue >> 8) & 0xff) ^ 0xff) as bv8;
    crc1 := ((residue & 0xff) ^ 0xff) as bv8;
  }

  /** Whether all checksums are 0. */
  method AllZero(packs: array<bv8>, numPacks: nat) returns (all: bool)
    requires 18 * numPacks <= packs.Length
    ensures all <==> forall i :: 0 <= i < numPacks ==> NoChecksum(PacksIn(packs[..], numPacks)[i])
  {
    ghost var ps := PacksIn(packs[..], numPacks);
    for i := 0 to numPacks
      invariant forall k :: 0 <= k < i ==> NoChecksum(ps[k])
    {
      PackInBuffer(packs[..], numPacks, i);
      assert packs[18 * i + 16] == ps[i][16] && packs[18 * i + 17] == ps[i][17];
      if packs[18 * i + 16] != 0 || packs[18 * i + 17] != 0 {
        return false;
      }
    }
    return true;
  }

  /** Without repair the result counts the invalid packs. With repair all packs become valid. */
  method CrcMismatches(packs: array<bv8>, numPacks: nat, repairFlag: bool, repairZeros: bool) returns (count: int)
    requires 18 * numPacks <= packs.Length
    modifies packs
    ensures var ps := PacksIn(old(packs[..]), numPacks);
      if repairFlag || (repairZeros && forall i :: 0 <= i < numPacks ==> ps[i][16] == ps[i][17] == 0)
      then PacksIn(packs[..], numPacks) == AllRepaired(ps) && count == 0 - WrongChecksums(ps)
      else packs[..] == old(packs[..]) && count == Mismatches(ps)
  {
    hide Repaired, PacksIn, PackValid, AllRepaired, RepairedBelow, Mismatches, WrongChecksums;
    RepairEnds(PacksIn(packs[..], numPacks));
    EmptyCounts(PacksIn(packs[..], numPacks));
    ghost var ps := PacksIn(packs[..], numPacks);
    count := 0;
    var repair := repairFlag;
    if repairZeros {
      var all := AllZero(packs, numPacks);
      if all {
        repair := true;
      }
    }
    for i := 0 to numPacks
      invariant !repair ==> packs[..] == old(packs[..]) && count == Mismatches(ps[..i])
      invariant repair ==> count == 0 - WrongChecksums(ps[..i])
      invariant repair ==> PacksIn(packs[..], numPacks) == RepairedBelow(ps, i)
    {
      CountStep(ps, i);
      RepairStep(ps, i);
      var change := CheckPack(packs, numPacks, i, repair);
      count := count + change;
    }
    assert ps[..numPacks] == ps;
    RepairEnds(ps);
  }

  /** The treatment of one pack. */
  method CheckPack(packs: array<bv8>, numPacks: nat, i: nat, repair: bool) returns (change: int)
    requires i < numPacks && 18 * numPacks <= packs.Length
    modifies packs
    ensures !repair ==> packs[..] == old(packs[..])
    ensures var ps := PacksIn(old(packs[..]), numPacks);
      && (repair ==> PacksIn(packs[..], numPacks) == ps[i := Repaired(ps[i])])
      && change == (if PackValid(ps[i]) then 0 else if !repair then 1 else if NoChecksum(ps[i]) then 0 else -1)
  {
    hide CrcField, PacksIn;
    ghost var before, ps := packs[..], PacksIn(packs[..], numPacks);
    var idx := 18 * i;
    PackInBuffer(before, numPacks, i);
    ghost var p := ps[i];
    RepairedIf(p);
    assert packs[idx..idx + 16] == p[..16];
    var crc0, crc1 := ChecksumOf(packs, idx);
    assert packs[idx + 16] == p[16] && packs[idx + 17] == p[17];
    assert p[16..] == [p[16], p[17]];
    change := 0;
    if crc0 != packs[idx + 16] || crc1 != packs[idx + 17] {
      if repair {
        if packs[idx + 16] != 0 || packs[idx + 17] != 0 {
          change := -1;
        }
        packs[idx + 16] := crc0;
        packs[idx + 17] := crc1;
        PackReplaced(before, packs[..], numPacks, i);
        assert packs[..][idx..idx + 18] == Repaired(p);
      } else {
        change := 1;
      }
    } else {
      assert ps == ps[i := p];
    }
  }

  lemma PackReplaced(before: seq<bv8>, after: seq<bv8>, n: nat, i: nat)
    requires |before| == |after| && 18 * n <= |before| && i < n
    requires forall k :: 0 <= k < |before| && !(18 * i <= k < 18 * i + 18) ==> after[k] == before[k]
    ensures PacksIn(after, n) == PacksIn(before, n)[i := after[18 * i..18 * i + 18]]
  {
    forall k | 0 <= k < n && k != i
      ensures PackAt(after, k) == PackAt(before, k)
    {}
  }

  // ---------- consequences

  lemma {:induction false} MismatchFound(ps: seq<Pack>, i: nat)
    requires i < |ps| && !PackValid(ps[i])
    ensures Mismatches(ps) > 0
  {
    hide PackValid;
    if i < |ps| - 1 {
      MismatchFound(ps[..|ps| - 1], i);
    }
  }

  lemma {:induction false} NoneFound(ps: seq<Pack>)
    requires forall i :: 0 <= i < |ps| ==> PackValid(ps[i])
    ensures Mismatches(ps) == 0
  {
    hide PackValid;
    if ps != [] {
      NoneFound(ps[..|ps| - 1]);
    }
  }

  /** The count is 0 exactly if all packs are valid. */
  lemma NoMismatch(ps: seq<Pack>)
    ensures Mismatches(ps) == 0 <==> forall i :: 0 <= i < |ps| ==> PackValid(ps[i])
  {
    hide PackValid, Mismatches;
    if forall i :: 0 <= i < |ps| ==> PackValid(ps[i]) {
      NoneFound(ps);
    } else {
      var i :| 0 <= i < |ps| && !PackValid(ps[i]);
      MismatchFound(ps, i);
    }
  }

  /** A burst error of up to 16 bits in one of several valid packs makes the count positive. */
  lemma BurstIsReported(ps: seq<Pack>, i: nat, damaged: Pack, s: nat)
    requires Mismatches(ps) == 0 && i < |ps| && damaged != ps[i]
    requires forall k :: 0 <= k < 144 && BitsOf(ps[i])[k] != BitsOf(damaged)[k] ==> s <= k < s + 16
    ensures Mismatches(ps[i := damaged]) > 0
  {
    hide PackValid, Mismatches;
    NoMismatch(ps);
    BurstIsDetected(ps[i], damaged, s);
    MismatchFound(ps[i := damaged], i);
  }

  /** What has been repaired passes the check, and a second repair changes nothing. */
  lemma RepairIsFinal(ps: seq<Pack>)
    ensures Mismatches(AllRepaired(ps)) == 0 && AllRepaired(AllRepaired(ps)) == AllRepaired(ps)
  {
    hide PackValid, Repaired;
    NoMismatch(AllRepaired(ps));
    forall i | 0 <= i < |ps|
      ensures PackValid(AllRepaired(ps)[i]) && Repaired(AllRepaired(ps)[i]) == AllRepaired(ps)[i]
    {
      RepairedIf(ps[i]);
      RepairedIf(Repaired(ps[i]));
    }
  }

  /** The positions of invalid packs. */
  function Invalid(ps: seq<Pack>): set<int> {
    set i | 0 <= i < |ps| && !PackValid(ps[i])
  }

  /** The positions of invalid packs with a checksum other than 0, 0. */
  function Wrong(ps: seq<Pack>): set<int> {
    set i | 0 <= i < |ps| && !PackValid(ps[i]) && !(ps[i][16] == ps[i][17] == 0)
  }

  /** The result without repair counts the invalid packs. The one with repair counts the wrong checksums. */
  lemma {:induction false} CountsAreTrue(ps: seq<Pack>)
    ensures Mismatches(ps) == |Invalid(ps)|
    ensures WrongChecksums(ps) == |Wrong(ps)|
  {
    hide PackValid;
    if ps == [] {
      assert Invalid(ps) == {} == Wrong(ps);
    } else {
      var n, before := |ps| - 1, ps[..|ps| - 1];
      CountsAreTrue(before);
      SetGrows(n, Invalid(before), Invalid(ps), !PackValid(ps[n]));
      SetGrows(n, Wrong(before), Wrong(ps), !PackValid(ps[n]) && !(ps[n][16] == ps[n][17] == 0));
    }
  }

  lemma SetGrows<T>(n: T, small: set<T>, large: set<T>, more: bool)
    requires n !in small && forall i :: i in large <==> i in small || (more && i == n)
    ensures |large| == |small| + if more then 1 else 0
  {
    if more {
      assert large == small + {n};
    } else {
      assert large == small;
    }
  }

  /** Repair makes all packs valid and leaves their contents as they are. */
  lemma RepairKeepsContents(ps: seq<Pack>, i: nat)
    requires i < |ps|
    ensures PackValid(AllRepaired(ps)[i]) && AllRepaired(ps)[i][..16] == ps[i][..16]
  {
    hide PackValid, Repaired;
    RepairedIf(ps[i]);
  }
}
