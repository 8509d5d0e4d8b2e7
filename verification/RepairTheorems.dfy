/** What repair_FAT_table promises about the FAT copies, over one and several runs. */
module RepairTheorems {
  import opened Bytes
  import opened FatSectors
  import opened FatRepair
  import opened Options
  import opened RepairMachine
  import opened RepairRun

  ghost predicate AllYes(answers: seq<bool>) {
    forall k :: 0 <= k < |answers| ==> answers[k]
  }

  /** The copies after a run in which every question is answered yes. */
  ghost function Run(p: Volume, copies: seq<seq<Sector>>, looksLikeFat: Sector -> bool): (r: seq<seq<Sector>>)
    requires Shape(p, copies)
    ensures |r| == |copies| && forall k :: 0 <= k < |r| ==> |r[k]| == |copies[0]|
    ensures forall k, i :: 0 <= k < |r| && 0 <= i < |copies[0]| ==> r[k][i] == Target(p, copies, k, i, looksLikeFat)
  {
    Repaired(p, copies, seq(|copies|, k => true), looksLikeFat, |copies[0]|)
  }

  lemma RunIsRepaired(p: Volume, copies: seq<seq<Sector>>, answers: seq<bool>, looksLikeFat: Sector -> bool)
    requires Shape(p, copies) && |answers| == |copies| && AllYes(answers)
    ensures Repaired(p, copies, answers, looksLikeFat, |copies[0]|) == Run(p, copies, looksLikeFat)
  {
    assert answers == seq(|copies|, k => true);
  }

  /** A target is a scanned sector or a clean one. */
  lemma TargetIsScannedOrClean(p: Volume, copies: seq<seq<Sector>>, k: nat, i: nat, looksLikeFat: Sector -> bool)
    returns (j: nat)
    requires Shape(p, copies) && k < |copies| && i < |copies[0]|
    ensures j < |copies|
    ensures var t := Target(p, copies, k, i, looksLikeFat);
            t == Scan(p, copies[k][i], Base(p, i)).sector || (t == copies[j][i] && CleanAt(p, copies, j, i))
  {
    hide Clean, Scan, TrustedAt, Fits;
    j := if |copies| == 1 then 0
         else if CleanAt(p, copies, 0, i) && CleanAt(p, copies, 1, i) then TrustedAt(p, copies, i, looksLikeFat)
         else if CleanAt(p, copies, 0, i) then 0 else 1;
  }

  /** A target is a clean sector of words that fit. */
  lemma TargetIsClean(p: Volume, copies: seq<seq<Sector>>, k: nat, i: nat, looksLikeFat: Sector -> bool)
    requires Shape(p, copies) && k < |copies| && i < |copies[0]|
    ensures IsRepairedSector(p, Target(p, copies, k, i, looksLikeFat), Base(p, i))
  {
    hide Clean, Scan, Fits, Target;
    var j := TargetIsScannedOrClean(p, copies, k, i, looksLikeFat);
    ScanIsRepaired(p, copies[k][i], Base(p, i));
  }

  ghost predicate IsRepairedSector(p: Volume, s: Sector, base: nat) {
    p.IsSector(s) && Fits(p.z, s) && Clean(p, s, base)
  }

  lemma ScanIsRepaired(p: Volume, s: Sector, base: nat)
    requires p.IsSector(s) && Fits(p.z, s)
    ensures IsRepairedSector(p, Scan(p, s, base).sector, base)
  {
    hide Clean, Fits, ScanTo;
    ScanIsClean(p, s, base);
    ScanToFits(p, s, base, WordCount(p, base));
  }

  lemma RunHasShape(p: Volume, copies: seq<seq<Sector>>, looksLikeFat: Sector -> bool)
    requires Shape(p, copies)
    ensures Shape(p, Run(p, copies, looksLikeFat))
  {
    forall k, i | 0 <= k < |copies| && 0 <= i < |copies[0]|
      ensures p.IsSector(Target(p, copies, k, i, looksLikeFat)) && Fits(p.z, Target(p, copies, k, i, looksLikeFat))
    {
      TargetIsClean(p, copies, k, i, looksLikeFat);
    }
  }

  /** After a run no copy holds a bad entry for any cluster from 2 to noOfCluster + 1. */
  lemma NoBadEntryIsLeft(p: Volume, copies: seq<seq<Sector>>, looksLikeFat: Sector -> bool, k: nat, i: nat)
    requires Shape(p, copies) && k < |copies| && i < |copies[0]|
    ensures Clean(p, Run(p, copies, looksLikeFat)[k][i], Base(p, i))
    ensures forall w :: 0 <= w < p.per && 2 <= i * p.per + w <= p.noOfCluster + 1 ==>
              IsSoundWord(p, i * p.per + w, Run(p, copies, looksLikeFat)[k][i][w])
  {
    hide Run, Target;
    TargetIsClean(p, copies, k, i, looksLikeFat);
    BaseIs(p, i);
    forall w | 0 <= w < p.per && 2 <= i * p.per + w <= p.noOfCluster + 1
      ensures IsSoundWord(p, i * p.per + w, Run(p, copies, looksLikeFat)[k][i][w])
    {
      GoodWord(p, Run(p, copies, looksLikeFat)[k][i], Base(p, i), w);
      BadIff(p, Base(p, i) + w, Run(p, copies, looksLikeFat)[k][i][w]);
    }
  }

  /** Words of a sector that belong to clusters of the volume. */
  lemma WordsOfClusters(p: Volume, base: nat, w: nat)
    requires w < p.per && (base == 0 || 2 <= base)
    ensures FirstWord(base) <= w < WordCount(p, base) <==> 2 <= base + w <= p.noOfCluster + 1
  {
  }

  lemma GoodWord(p: Volume, r: Sector, base: nat, w: nat)
    requires p.IsSector(r) && Clean(p, r, base) && w < p.per && 2 <= base + w <= p.noOfCluster + 1
    ensures !p.Bad(base + w, r[w])
  {
  }

  lemma {:induction false} BaseIs(p: Volume, i: nat)
    ensures Base(p, i) == i * p.per
  {
    if i > 0 {
      BaseIs(p, i - 1);
      assert i * p.per == (i - 1) * p.per + p.per;
    }
  }

  /**
   * The copies agree on a sector after a run exactly when one of them was clean there or they scan to the same words. The
   * only clean one replaces the other; corrupted ones keep their own sectors with the bad entries replaced.
   */
  lemma WhenCopiesAgree(p: Volume, copies: seq<seq<Sector>>, looksLikeFat: Sector -> bool, i: nat)
    requires Shape(p, copies) && |copies| == 2 && i < |copies[0]|
    ensures var r, clean := Run(p, copies, looksLikeFat), CleanColumn(p, copies, i);
            && (r[0][i] == r[1][i] <==> clean[0] || clean[1] || ScannedColumn(p, copies, i)[0] == ScannedColumn(p, copies, i)[1])
            && (forall k :: 0 <= k < 2 && clean[k] && !clean[1 - k] ==> r[0][i] == r[1][i] == copies[k][i])
            && (!clean[0] && !clean[1] ==> [r[0][i], r[1][i]] == ScannedColumn(p, copies, i))
  {
    hide CleanAt, Scan;
    CleanScans(p, copies, i);
    hide ScannedColumn, CleanColumn, TargetOf, TrustedAt;
    SameScans(p, copies, i);
    TargetsOfTwo(Column(copies, i), ScannedColumn(p, copies, i), CleanColumn(p, copies, i), TrustedAt(p, copies, i, looksLikeFat));
  }

  /** Equal sectors scan to equal sectors. */
  lemma SameScans(p: Volume, copies: seq<seq<Sector>>, i: nat)
    requires Shape(p, copies) && |copies| == 2 && i < |copies[0]|
    ensures Column(copies, i)[0] == Column(copies, i)[1] ==>
              && ScannedColumn(p, copies, i)[0] == ScannedColumn(p, copies, i)[1]
              && CleanColumn(p, copies, i)[0] == CleanColumn(p, copies, i)[1]
  {
  }

  lemma TargetsOfTwo(originals: seq<Sector>, scans: seq<Sector>, ok: seq<bool>, trusted: nat)
    requires |originals| == |scans| == |ok| == 2 && trusted < 2
    requires originals[0] == originals[1] ==> scans[0] == scans[1] && ok[0] == ok[1]
    requires forall j :: 0 <= j < 2 && ok[j] ==> scans[j] == originals[j]
    ensures var a, b := TargetOf(originals, scans, ok, trusted, 0), TargetOf(originals, scans, ok, trusted, 1);
            && (a == b <==> ok[0] || ok[1] || scans[0] == scans[1])
            && (forall k :: 0 <= k < 2 && ok[k] && !ok[1 - k] ==> a == b == originals[k])
            && (!ok[0] && !ok[1] ==> [a, b] == scans)
  {
  }

  /** A clean sector that both copies share is kept, and so is every good entry of a single copy. */
  lemma GoodEntriesAreKept(p: Volume, copies: seq<seq<Sector>>, looksLikeFat: Sector -> bool, k: nat, i: nat, w: nat)
    requires p.Valid() && Shape(p, copies) && k < |copies| && i < |copies[0]| && w < p.per
    requires |copies| == 1 || copies[0][i] == copies[1][i]
    ensures var word, cluster := copies[k][i][w], i * p.per + w;
            Run(p, copies, looksLikeFat)[k][i][w]
            == if 2 <= cluster <= p.noOfCluster + 1 && !IsSoundWord(p, cluster, word)
               then (if p.z == Two then 0xFFF8 else 0x0FFF_FFF8) else word
  {
    hide Run, Target, ScanTo;
    TargetOfShared(p, copies, looksLikeFat, k, i);
    BaseIs(p, i);
    SectorStart(p, i);
    WordsOfClusters(p, Base(p, i), w);
    BadIff(p, Base(p, i) + w, copies[k][i][w]);
    ScanToMeaning(p, copies[k][i], Base(p, i), WordCount(p, Base(p, i)));
  }

  lemma SectorStart(p: Volume, i: nat)
    requires p.Valid()
    ensures Base(p, i) == 0 || 4 <= Base(p, i)
  {
  }

  lemma TargetOfShared(p: Volume, copies: seq<seq<Sector>>, looksLikeFat: Sector -> bool, k: nat, i: nat)
    requires Shape(p, copies) && k < |copies| && i < |copies[0]|
    requires |copies| == 1 || copies[0][i] == copies[1][i]
    ensures Target(p, copies, k, i, looksLikeFat) == Scan(p, copies[k][i], Base(p, i)).sector
  {
    hide Scan, CleanAt, TrustedAt, CleanColumn, ScannedColumn, Column;
  }

  /** Where two clean copies differ, the one with more clean sectors so far is copied over the other. */
  lemma MoreCleanSectorsWin(p: Volume, copies: seq<seq<Sector>>, looksLikeFat: Sector -> bool, i: nat, k: nat)
    requires Shape(p, copies) && |copies| == 2 && i < |copies[0]| && k < 2
    requires CleanAt(p, copies, 0, i) && CleanAt(p, copies, 1, i)
    requires CleanCount(p, copies, k, i + 1) > CleanCount(p, copies, 1 - k, i + 1)
    ensures Run(p, copies, looksLikeFat)[0][i] == Run(p, copies, looksLikeFat)[1][i] == copies[k][i]
  {
    hide Run, Clean, Scan, CleanCount, Column, ScannedColumn, CleanColumn, CleanCounts;
    ScanIsClean(p, copies[0][i], Base(p, i));
    ScanIsClean(p, copies[1][i], Base(p, i));
    assert TrustedAt(p, copies, i, looksLikeFat) == k;
  }

  /**
   * Where they have as many clean sectors, the second copy wins if its sector looks like the start of a FAT. In the last
   * sector the second copy wins unless only the sector of the first looks so.
   */
  lemma TiesAreBroken(p: Volume, copies: seq<seq<Sector>>, looksLikeFat: Sector -> bool, i: nat)
    requires Shape(p, copies) && |copies| == 2 && i < |copies[0]|
    requires CleanAt(p, copies, 0, i) && CleanAt(p, copies, 1, i)
    requires CleanCount(p, copies, 0, i + 1) == CleanCount(p, copies, 1, i + 1)
    ensures var second := if i + 1 < |copies[0]| then looksLikeFat(copies[1][i])
                          else looksLikeFat(copies[1][i]) || !looksLikeFat(copies[0][i]);
            Run(p, copies, looksLikeFat)[0][i] == Run(p, copies, looksLikeFat)[1][i] == copies[if second then 1 else 0][i]
  {
    hide Run, Clean, Scan, CleanCount, Column, ScannedColumn, CleanColumn, CleanCounts;
    ScanIsClean(p, copies[0][i], Base(p, i));
    ScanIsClean(p, copies[1][i], Base(p, i));
  }

  // ----- answers, damage, further runs -----

  /** When the user always declines, the copies stay as they are. */
  lemma DecliningChangesNothing(p: Volume, copies: seq<seq<Sector>>, answers: seq<bool>, looksLikeFat: Sector -> bool)
    requires Shape(p, copies) && |answers| == |copies| && forall k :: 0 <= k < |answers| ==> !answers[k]
    ensures Repaired(p, copies, answers, looksLikeFat, |copies[0]|) == copies
  {
    var r := Repaired(p, copies, answers, looksLikeFat, |copies[0]|);
    forall k | 0 <= k < |copies| ensures r[k] == copies[k] {
    }
  }

  /** A run that reports no damage has written nothing, whatever the answers; and a sector that is not damaged is its own target. */
  lemma UndamagedIsFixed(p: Volume, copies: seq<seq<Sector>>, answers: seq<bool>, looksLikeFat: Sector -> bool)
    requires Shape(p, copies) && |answers| == |copies| && !DamagedBelow(p, copies, |copies[0]|)
    ensures Repaired(p, copies, answers, looksLikeFat, |copies[0]|) == copies
  {
    var r := Repaired(p, copies, answers, looksLikeFat, |copies[0]|);
    forall k, i | 0 <= k < |copies| && 0 <= i < |copies[0]|
      ensures r[k][i] == copies[k][i]
    {
      UndamagedSector(p, copies, k, i, looksLikeFat);
    }
    forall k | 0 <= k < |copies| ensures r[k] == copies[k] {
    }
  }

  lemma UndamagedSector(p: Volume, copies: seq<seq<Sector>>, k: nat, i: nat, looksLikeFat: Sector -> bool)
    requires Shape(p, copies) && k < |copies| && i < |copies[0]| && !DamagedAt(p, copies, i)
    ensures Target(p, copies, k, i, looksLikeFat) == copies[k][i]
  {
    var j :| 0 <= j < |copies| && CleanAt(p, copies, j, i);
    assert copies[j][i] == copies[k][i];
    ScanIsClean(p, copies[k][i], Base(p, i));
  }

  /** One copy: a second run finds nothing to do. */
  lemma SecondRunOfOneCopy(p: Volume, copies: seq<seq<Sector>>, looksLikeFat: Sector -> bool)
    requires Shape(p, copies) && |copies| == 1
    ensures var r := Run(p, copies, looksLikeFat);
            Shape(p, r) && !DamagedBelow(p, r, |r[0]|) && Run(p, r, looksLikeFat) == r
  {
    var r := Run(p, copies, looksLikeFat);
    RunHasShape(p, copies, looksLikeFat);
    CleanRunIsUndamaged(p, copies, looksLikeFat);
    UndamagedIsFixed(p, r, [true], looksLikeFat);
    RunIsRepaired(p, r, [true], looksLikeFat);
  }

  /** After a run, a sector is damaged only if the copies still differ there. */
  lemma CleanRunIsUndamaged(p: Volume, copies: seq<seq<Sector>>, looksLikeFat: Sector -> bool)
    requires Shape(p, copies)
    ensures var r := Run(p, copies, looksLikeFat);
            && Shape(p, r)
            && (forall k, i :: 0 <= k < |r| && 0 <= i < |r[0]| ==> CleanAt(p, r, k, i))
            && (DamagedBelow(p, r, |r[0]|) <==> |r| == 2 && r[0] != r[1])
  {
    var r := Run(p, copies, looksLikeFat);
    RunHasShape(p, copies, looksLikeFat);
    forall k, i | 0 <= k < |r| && 0 <= i < |r[0]|
      ensures CleanAt(p, r, k, i)
    {
      TargetIsClean(p, copies, k, i, looksLikeFat);
    }
    if |r| == 2 && r[0] != r[1] {
      var i :| 0 <= i < |r[0]| && r[0][i] != r[1][i];
      assert DamagedAt(p, r, i);
    }
    if DamagedBelow(p, r, |r[0]|) {
      var i :| 0 <= i < |r[0]| && DamagedAt(p, r, i);
      assert CleanAt(p, r, 0, i);
    }
  }

  /** Two copies: a second run makes them equal, and a third one finds nothing to do. */
  lemma ThreeRunsOfTwoCopies(p: Volume, copies: seq<seq<Sector>>, looksLikeFat: Sector -> bool)
    requires Shape(p, copies) && |copies| == 2
    ensures var r1 := Run(p, copies, looksLikeFat);
            && Shape(p, r1)
            && var r2 := Run(p, r1, looksLikeFat);
            && Shape(p, r2) && r2[0] == r2[1] && !DamagedBelow(p, r2, |r2[0]|)
            && Run(p, r2, looksLikeFat) == r2
  {
    var r1 := Run(p, copies, looksLikeFat);
    CleanRunIsUndamaged(p, copies, looksLikeFat);
    var r2 := Run(p, r1, looksLikeFat);
    CleanRunIsUndamaged(p, r1, looksLikeFat);
    forall i | 0 <= i < |r1[0]|
      ensures r2[0][i] == r2[1][i]
    {
      assert CleanAt(p, r1, 0, i);
      WhenCopiesAgree(p, r1, looksLikeFat, i);
    }
    assert r2[0] == r2[1];
    UndamagedIsFixed(p, r2, [true, true], looksLikeFat);
    RunIsRepaired(p, r2, [true, true], looksLikeFat);
  }

  /** A sector full of end-of-chain marks. */
  function EndedSector(p: Volume): (s: Sector)
    ensures p.IsSector(s)
  {
    seq(p.per, w => p.EndOfChain())
  }

  /** Such a sector with these entries for clusters 2 and 3. */
  function SampleSector(p: Volume, second: nat, third: nat): (s: Sector)
    requires p.Valid()
    ensures p.IsSector(s)
  {
    EndedSector(p)[2 := second][3 := third]
  }

  /** A copy of m sectors, the first of them with these entries. */
  function SampleCopy(p: Volume, m: nat, second: nat, third: nat): (copy: seq<Sector>)
    requires p.Valid()
    ensures |copy| == m
    ensures forall i :: 0 <= i < m ==> copy[i] == if i == 0 then SampleSector(p, second, third) else EndedSector(p)
  {
    seq<Sector>(m, i => if i == 0 then SampleSector(p, second, third) else EndedSector(p))
  }

  function SampleCopies(p: Volume, m: nat): (copies: seq<seq<Sector>>)
    requires p.Valid()
    ensures |copies| == 2 && |copies[0]| == |copies[1]| == m
  {
    [SampleCopy(p, m, 1, 2), SampleCopy(p, m, 2, 1)]
  }

  lemma SampleShape(p: Volume, m: nat)
    requires p.Valid()
    ensures Shape(p, SampleCopies(p, m))
  {
    hide SampleCopy;
    assert Fits(p.z, EndedSector(p));
    assert Fits(p.z, SampleSector(p, 1, 2)) && Fits(p.z, SampleSector(p, 2, 1));
  }

  /**
   * Every volume has copies that are corrupted in different ways, so that one run repairs each of them and leaves them
   * different.
   */
  lemma OneRunMayLeaveCopiesDifferent(p: Volume, m: nat, looksLikeFat: Sector -> bool)
    requires p.Valid() && 2 <= p.noOfCluster && 1 <= m
    ensures Shape(p, SampleCopies(p, m))
    ensures var r, eoc := Run(p, SampleCopies(p, m), looksLikeFat), p.EndOfChain();
            r == [SampleCopy(p, m, eoc, 2), SampleCopy(p, m, 2, eoc)] && r[0] != r[1]
  {
    hide Run, Scan, CleanColumn, ScannedColumn, Base, Shape, EndedSector, SampleSector, SampleCopies;
    var copies, eoc := SampleCopies(p, m), p.EndOfChain();
    SampleShape(p, m);
    SampleEntries(p, m);
    var r := Run(p, copies, looksLikeFat);
    forall i | 0 <= i < m
      ensures r[0][i] == SampleCopy(p, m, eoc, 2)[i] && r[1][i] == SampleCopy(p, m, 2, eoc)[i]
    {
      if i == 0 {
        WhenCopiesAgree(p, copies, looksLikeFat, 0);
        SampleScan(p, m);
      } else {
        EndedSectorIsKept(p, copies, looksLikeFat, i);
      }
    }
    assert r[0] == SampleCopy(p, m, eoc, 2) && r[1] == SampleCopy(p, m, 2, eoc);
    assert r[0][0] != r[1][0];
  }

  lemma SampleEntries(p: Volume, m: nat)
    requires p.Valid()
    ensures SampleSector(p, p.EndOfChain(), 2) != SampleSector(p, 2, p.EndOfChain())
    ensures forall i :: 1 <= i < m ==> SampleCopies(p, m)[0][i] == SampleCopies(p, m)[1][i] == EndedSector(p)
  {
    assert SampleSector(p, p.EndOfChain(), 2)[2] == p.EndOfChain() != 2 == SampleSector(p, 2, p.EndOfChain())[2];
  }

  /** The scan of the first sectors replaces the entries 1 and nothing else. */
  lemma SampleScan(p: Volume, m: nat)
    requires p.Valid() && 2 <= p.noOfCluster && 1 <= m && Shape(p, SampleCopies(p, m))
    ensures var eoc := p.EndOfChain();
            ScannedColumn(p, SampleCopies(p, m), 0) == [SampleSector(p, eoc, 2), SampleSector(p, 2, eoc)]
    ensures CleanColumn(p, SampleCopies(p, m), 0) == [false, false]
  {
    hide SampleSector, Scan, Clean, Shape;
    SectorScan(p, 1, 2);
    SectorScan(p, 2, 1);
  }

  lemma SectorScan(p: Volume, second: nat, third: nat)
    requires p.Valid() && 2 <= p.noOfCluster && {second, third} == {1, 2}
    ensures Scan(p, SampleSector(p, second, third), 0).sector
            == SampleSector(p, if second == 1 then p.EndOfChain() else 2, if third == 1 then p.EndOfChain() else 2)
    ensures !Clean(p, SampleSector(p, second, third), 0)
  {
    hide Scan, ScanTo;
    var s := SampleSector(p, second, third);
    EndOfChainIsGood(p);
    ScanOfSector(p, s);
    ScanIsClean(p, s, 0);
    assert p.Bad(2, second) == (second == 1) && p.Bad(3, third) == (third == 1);
    assert p.Bad(2, s[2]) || p.Bad(3, s[3]);
  }

  lemma ScanOfSector(p: Volume, s: Sector)
    requires p.IsSector(s)
    ensures forall w :: 0 <= w < |s| ==>
              Scan(p, s, 0).sector[w] == if 2 <= w < WordCount(p, 0) && p.Bad(w, s[w]) then p.EndOfChain() else s[w]
  {
    ScanToMeaning(p, s, 0, WordCount(p, 0));
  }

  lemma EndedSectorIsKept(p: Volume, copies: seq<seq<Sector>>, looksLikeFat: Sector -> bool, i: nat)
    requires Shape(p, copies) && |copies| == 2 && i < |copies[0]| && copies[0][i] == copies[1][i] == EndedSector(p)
    ensures Run(p, copies, looksLikeFat)[0][i] == Run(p, copies, looksLikeFat)[1][i] == EndedSector(p)
  {
    EndOfChainIsGood(p);
    ScanIsClean(p, EndedSector(p), Base(p, i));
    TargetOfShared(p, copies, looksLikeFat, 0, i);
    TargetOfShared(p, copies, looksLikeFat, 1, i);
  }
}
