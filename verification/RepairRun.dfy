/** The scan loop of repair_FAT_table, and what a whole run does to the copies. */
module RepairRun {
  import opened Arith
  import opened Bytes
  import opened Disks
  import opened FatSectors
  import opened FatRepair
  import opened Options
  import opened RepairMachine

  /** Sectors that hold an entry of clusters 2 to noOfCluster + 1. */
  ghost function SectorCount(p: Volume): nat
    requires p.Valid()
  {
    if p.noOfCluster == 0 then 0 else Div(p.noOfCluster + 1, p.per) + 1
  }

  lemma {:induction false} BaseDivMod(p: Volume, x: nat)
    requires p.Valid()
    ensures Base(p, Div(x, p.per)) + Mod(x, p.per) == x
  {
    if x >= p.per {
      BaseDivMod(p, x - p.per);
    }
  }

  /** fat_history after the sectors below i; the flush before the first sector has counted once. */
  ghost function History(p: Volume, copies: seq<seq<Sector>>, i: nat): (h: seq<nat>)
    requires Shape(p, copies) && i <= |copies[0]|
    ensures |h| == |copies|
    ensures forall k :: 0 <= k < |h| ==> h[k] == 1 + CleanCount(p, copies, k, i)
  {
    seq(|copies|, k requires 0 <= k < |copies| => 1 + CleanCount(p, copies, k, i))
  }

  /** Do the copies differ in sector i? */
  ghost predicate Mismatch(copies: seq<seq<Sector>>, i: nat)
    requires forall k :: 0 <= k < |copies| ==> i < |copies[k]|
  {
    |copies| == 2 && copies[0][i] != copies[1][i]
  }

  /** The statuses of a completely scanned sector say which copies are clean. */
  lemma StatusesAreClean(p: Volume, copies: seq<seq<Sector>>, i: nat)
    requires Shape(p, copies) && i < |copies[0]|
    ensures GoodColumnTo(p, copies, i, WordCount(p, Base(p, i))) == CleanColumn(p, copies, i)
  {
    forall k | 0 <= k < |copies|
      ensures !Scan(p, copies[k][i], Base(p, i)).corrupted == CleanAt(p, copies, k, i)
    {
      ScanIsClean(p, copies[k][i], Base(p, i));
    }
  }

  /** Statuses of a matching pair agree. */
  lemma MatchingStatuses(p: Volume, copies: seq<seq<Sector>>, i: nat)
    requires Shape(p, copies) && i < |copies[0]| && |copies| == 2 && copies[0][i] == copies[1][i]
    ensures CleanColumn(p, copies, i)[0] == CleanColumn(p, copies, i)[1]
  {
  }

  lemma TrustedIgnoresOffset(counts: seq<nat>, h: seq<nat>, buffers: seq<Sector>, looksLikeFat: Sector -> bool, last: bool)
    requires |counts| == |h| == |buffers| == 2 && h[0] == 1 + counts[0] && h[1] == 1 + counts[1]
    ensures Trusted(h, buffers, looksLikeFat, last) == Trusted(counts, buffers, looksLikeFat, last)
  {
  }

  /** What a flush writes over copy k is its target; where it writes nothing, the copy holds its target already. */
  lemma SourceIsTarget(originals: seq<Sector>, scans: seq<Sector>, ok: seq<bool>, mismatch: bool, good: nat, trusted: nat, k: nat)
    requires 1 <= |originals| == |scans| == |ok| <= 2 && k < |originals| && good < |originals| && trusted < 2
    requires mismatch <==> |originals| == 2 && originals[0] != originals[1]
    requires |originals| == 2 && !mismatch ==> ok[0] == ok[1]
    requires forall j :: 0 <= j < |originals| && ok[j] ==> scans[j] == originals[j]
    requires mismatch && ok[0] != ok[1] ==> ok[good]
    requires mismatch && ok[0] && ok[1] ==> good == trusted
    ensures var source := Sources(scans, ok, mismatch, good)[k];
            (if source.Some? then source.value else originals[k]) == TargetOf(originals, scans, ok, trusted, k)
  {
    if |ok| == 2 {
      assert (exists j :: 0 <= j < |ok| && ok[j]) <==> ok[0] || ok[1];
    } else {
      assert (exists j :: 0 <= j < |ok| && ok[j]) <==> ok[0];
    }
  }

  /** Counting the statuses of sector i carries the history one sector on. */
  lemma HistoryStep(p: Volume, copies: seq<seq<Sector>>, i: nat)
    requires Shape(p, copies) && i < |copies[0]|
    ensures CountOk(CleanColumn(p, copies, i), History(p, copies, i)) == History(p, copies, i + 1)
  {
  }

  /** A flush chooses the copy the target trusts, and every source it prepares is a target. */
  lemma SourcesAreTargets(p: Volume, copies: seq<seq<Sector>>, i: nat, mismatch: bool, looksLikeFat: Sector -> bool, k: nat)
    requires Shape(p, copies) && i < |copies[0]| && k < |copies|
    requires mismatch == Mismatch(copies, i)
    ensures var scans, ok := ScannedColumn(p, copies, i), CleanColumn(p, copies, i);
            var good := GoodCopy(ok, History(p, copies, i + 1), scans, mismatch, i == |copies[0]| - 1, looksLikeFat);
            var source := Sources(scans, ok, mismatch, good)[k];
            (if source.Some? then source.value else copies[k][i]) == Target(p, copies, k, i, looksLikeFat)
  {
    var scans, ok, h := ScannedColumn(p, copies, i), CleanColumn(p, copies, i), History(p, copies, i + 1);
    var originals := Column(copies, i);
    var good := GoodCopy(ok, h, scans, mismatch, i == |copies[0]| - 1, looksLikeFat);
    CleanScans(p, copies, i);
    if |copies| == 2 {
      if mismatch && ok[0] && ok[1] {
        assert scans == originals;
        TrustedIgnoresOffset(CleanCounts(p, copies, i + 1), h, scans, looksLikeFat, i == |copies[0]| - 1);
      } else if !mismatch {
        MatchingStatuses(p, copies, i);
      }
    }
    SourceIsTarget(originals, scans, ok, mismatch, good, TrustedAt(p, copies, i, looksLikeFat), k);
  }

  lemma CleanScans(p: Volume, copies: seq<seq<Sector>>, i: nat)
    requires Shape(p, copies) && i < |copies[0]|
    ensures forall k :: 0 <= k < |copies| && CleanColumn(p, copies, i)[k] ==>
              ScannedColumn(p, copies, i)[k] == Column(copies, i)[k]
  {
    forall k | 0 <= k < |copies| && CleanAt(p, copies, k, i)
      ensures ScannedColumn(p, copies, i)[k] == Column(copies, i)[k]
    {
      ScanIsClean(p, copies[k][i], Base(p, i));
    }
  }

  lemma DamageSeen(p: Volume, copies: seq<seq<Sector>>, i: nat, mismatch: bool)
    requires Shape(p, copies) && i < |copies[0]|
    requires mismatch == Mismatch(copies, i)
    ensures var ok := CleanColumn(p, copies, i);
            (mismatch || forall k :: 0 <= k < |ok| ==> !ok[k]) <==> DamagedAt(p, copies, i)
  {
    var ok := CleanColumn(p, copies, i);
    assert (forall k :: 0 <= k < |ok| ==> !ok[k]) <==> !ok[0] && !ok[|ok| - 1];
    assert (forall k :: 0 <= k < |copies| ==> !CleanAt(p, copies, k, i)) <==>
           !CleanAt(p, copies, 0, i) && !CleanAt(p, copies, |copies| - 1, i);
  }

  /** The copies after sector i has been flushed. */
  ghost function AfterFlush(start: seq<seq<Sector>>, i: nat, buffers: seq<Sector>, ok: seq<bool>, mismatch: bool,
                            hist: seq<nat>, last: bool, answers: seq<bool>, looksLikeFat: Sector -> bool)
    : seq<seq<Sector>>
    requires 1 <= |buffers| == |ok| == |hist| == |start| == |answers| <= 2
  {
    WriteSources(start, i, Sources(buffers, ok, mismatch, GoodCopy(ok, hist, buffers, mismatch, last, looksLikeFat)),
                 answers, |start|)
  }

  /** The copies by the number of their finished sectors. */
  type Progress = nat -> seq<seq<Sector>>

  ghost function ProgressOf(p: Volume, copies: seq<seq<Sector>>, answers: seq<bool>, looksLikeFat: Sector -> bool): Progress
    requires Shape(p, copies) && |answers| == |copies|
  {
    (i: nat) => if Shape(p, copies) && |answers| == |copies| && i <= |copies[0]|
                then Repaired(p, copies, answers, looksLikeFat, i) else copies
  }

  /** Is `rep` the progress of the repair? */
  ghost predicate IsProgress(rep: Progress, p: Volume, copies: seq<seq<Sector>>, answers: seq<bool>,
                             looksLikeFat: Sector -> bool)
    requires Shape(p, copies) && |answers| == |copies|
  {
    && (forall i: nat {:trigger rep(i)} :: |rep(i)| == |copies|)
    && forall i: nat {:trigger Repaired(p, copies, answers, looksLikeFat, i)} :: i <= |copies[0]| ==>
         rep(i) == Repaired(p, copies, answers, looksLikeFat, i)
  }

  lemma ProgressIsRepaired(p: Volume, copies: seq<seq<Sector>>, answers: seq<bool>, looksLikeFat: Sector -> bool, i: nat)
    requires Shape(p, copies) && |answers| == |copies| && i <= |copies[0]|
    ensures IsProgress(ProgressOf(p, copies, answers, looksLikeFat), p, copies, answers, looksLikeFat)
    ensures ProgressOf(p, copies, answers, looksLikeFat)(i) == Repaired(p, copies, answers, looksLikeFat, i)
  {
  }

  /** Flushing a completely scanned sector brings it to its target where the user agrees. */
  lemma FlushReachesTarget(p: Volume, copies: seq<seq<Sector>>, i: nat, scans: seq<Sector>, ok: seq<bool>, mismatch: bool,
                           hist: seq<nat>, last: bool, answers: seq<bool>, looksLikeFat: Sector -> bool, rep: Progress)
    requires Shape(p, copies) && i < |copies[0]| && |answers| == |copies|
    requires scans == ScannedColumn(p, copies, i) && ok == CleanColumn(p, copies, i) && mismatch == Mismatch(copies, i)
    requires hist == History(p, copies, i + 1) && (last <==> i == |copies[0]| - 1)
    requires IsProgress(rep, p, copies, answers, looksLikeFat)
    ensures AfterFlush(rep(i), i, scans, ok, mismatch, hist, last, answers, looksLikeFat) == rep(i + 1)
  {
    var sources := Sources(scans, ok, mismatch, GoodCopy(ok, hist, scans, mismatch, last, looksLikeFat));
    forall k | 0 <= k < |copies|
      ensures (if sources[k].Some? then sources[k].value else copies[k][i]) == Target(p, copies, k, i, looksLikeFat)
    {
      SourcesAreTargets(p, copies, i, mismatch, looksLikeFat, k);
    }
    WriteTargets(p, copies, i, sources, answers, looksLikeFat);
    assert rep(i) == Repaired(p, copies, answers, looksLikeFat, i);
    assert rep(i + 1) == Repaired(p, copies, answers, looksLikeFat, i + 1);
  }

  lemma OneMoreTarget(p: Volume, copies: seq<seq<Sector>>, i: nat, k: nat, answers: seq<bool>, looksLikeFat: Sector -> bool)
    requires Shape(p, copies) && i < |copies[0]| && k < |copies| && |answers| == |copies|
    ensures var before, after := Repaired(p, copies, answers, looksLikeFat, i), Repaired(p, copies, answers, looksLikeFat, i + 1);
            && before[k][i] == copies[k][i]
            && after[k] == before[k][i := if answers[k] then Target(p, copies, k, i, looksLikeFat) else copies[k][i]]
  {
  }

  lemma WriteTargets(p: Volume, copies: seq<seq<Sector>>, i: nat, sources: seq<Option<Sector>>, answers: seq<bool>,
                     looksLikeFat: Sector -> bool)
    requires Shape(p, copies) && i < |copies[0]| && |answers| == |copies| == |sources|
    requires forall k :: 0 <= k < |copies| ==>
               (if sources[k].Some? then sources[k].value else copies[k][i]) == Target(p, copies, k, i, looksLikeFat)
    ensures WriteSources(Repaired(p, copies, answers, looksLikeFat, i), i, sources, answers, |copies|)
            == Repaired(p, copies, answers, looksLikeFat, i + 1)
  {
    var before, after := Repaired(p, copies, answers, looksLikeFat, i), Repaired(p, copies, answers, looksLikeFat, i + 1);
    var a := WriteSources(before, i, sources, answers, |copies|);
    forall k | 0 <= k < |copies|
      ensures a[k] == after[k]
    {
      OneMoreTarget(p, copies, i, k, answers, looksLikeFat);
      if !answers[k] || sources[k].None? {
        assert before[k][i := after[k][i]] == before[k];
      }
    }
  }

  // ----- the scan loop -----

  /** Read sector i of every copy. */
  method ReadColumn(disk: Disk, p: Volume, l: Layout, i: nat, ghost m: nat) returns (buffers: seq<Sector>)
    requires SectorsFit(l, disk.sectorSize, disk.bytes, m) && i < m
    ensures buffers == Column(Copies(p.z, l, disk.sectorSize, disk.bytes, m), i)
  {
    buffers := [];
    for k := 0 to l.fats
      invariant |buffers| == k
      invariant forall j :: 0 <= j < k ==> buffers[j] == Copies(p.z, l, disk.sectorSize, disk.bytes, m)[j][i]
    {
      var s := ReadSector(disk, p.z, l, k, i);
      buffers := buffers + [s];
    }
  }

  /** Check one cluster in every copy, and put an end-of-chain mark over a bad entry. */
  method ScanColumnWord(p: Volume, cluster: nat, w: nat, buffers: seq<Sector>, ok: seq<bool>)
    returns (buffers': seq<Sector>, ok': seq<bool>)
    requires |buffers| == |ok| && forall k :: 0 <= k < |buffers| ==> w < |buffers[k]|
    ensures |buffers'| == |ok'| == |ok|
    ensures forall k :: 0 <= k < |ok| ==>
              && buffers'[k] == (if p.Bad(cluster, buffers[k][w]) then buffers[k][w := p.EndOfChain()] else buffers[k])
              && ok'[k] == (ok[k] && !p.Bad(cluster, buffers[k][w]))
  {
    buffers', ok' := buffers, ok;
    for k := 0 to |buffers|
      invariant |buffers'| == |ok'| == |ok|
      invariant forall j :: k <= j < |ok| ==> buffers'[j] == buffers[j] && ok'[j] == ok[j]
      invariant forall j :: 0 <= j < k ==>
                  && buffers'[j] == (if p.Bad(cluster, buffers[j][w]) then buffers[j][w := p.EndOfChain()] else buffers[j])
                  && ok'[j] == (ok[j] && !p.Bad(cluster, buffers[j][w]))
    {
      if p.Bad(cluster, buffers'[k][w]) {
        var fixed: Sector := buffers'[k][w := p.EndOfChain()];
        buffers' := buffers'[k := fixed];
        ok' := ok'[k := false];
      }
    }
  }

  /** A freshly read column is a scan of no words. */
  lemma FreshColumn(p: Volume, copies: seq<seq<Sector>>, i: nat, w: nat)
    requires Shape(p, copies) && i < |copies[0]| && w <= FirstWord(Base(p, i)) && w <= p.per
    ensures ScanColumnTo(p, copies, i, w) == Column(copies, i)
    ensures GoodColumnTo(p, copies, i, w) == seq(|copies|, k => true)
  {
  }

  lemma ColumnStep(p: Volume, copies: seq<seq<Sector>>, i: nat, w: nat, before: seq<Sector>, okBefore: seq<bool>,
                   buffers: seq<Sector>, ok: seq<bool>)
    requires Shape(p, copies) && i < |copies[0]| && FirstWord(Base(p, i)) <= w < p.per
    requires before == ScanColumnTo(p, copies, i, w) && okBefore == GoodColumnTo(p, copies, i, w)
    requires |buffers| == |ok| == |okBefore|
    requires forall k :: 0 <= k < |okBefore| ==>
               && buffers[k] == (if p.Bad(Base(p, i) + w, before[k][w]) then before[k][w := p.EndOfChain()] else before[k])
               && ok[k] == (okBefore[k] && !p.Bad(Base(p, i) + w, before[k][w]))
    ensures buffers == ScanColumnTo(p, copies, i, w + 1) && ok == GoodColumnTo(p, copies, i, w + 1)
  {
  }

  lemma LaterClustersFit(p: Volume, c: nat)
    requires p.Valid() && 2 <= c <= p.noOfCluster + 1
    ensures Div(c, p.per) < SectorCount(p)
  {
    DivMonotone(c, p.noOfCluster + 1, p.per);
  }

  lemma {:induction false} ScanToFits(p: Volume, s: Sector, base: nat, w: nat)
    requires Fits(p.z, s) && w <= |s|
    ensures Fits(p.z, ScanTo(p, s, base, w).sector)
  {
    if w > FirstWord(base) {
      ScanToFits(p, s, base, w - 1);
    }
  }

  /** Buffers can be written: they are whole sectors of words that fit. */
  ghost predicate Writable(p: Volume, buffers: seq<Sector>) {
    forall k :: 0 <= k < |buffers| ==> Fits(p.z, buffers[k]) && |buffers[k]| == p.per
  }

  lemma ScannedIsWritable(p: Volume, copies: seq<seq<Sector>>, i: nat, w: nat)
    requires Shape(p, copies) && i < |copies[0]| && w <= p.per
    ensures Writable(p, ScanColumnTo(p, copies, i, w))
  {
    forall k | 0 <= k < |copies|
      ensures Fits(p.z, ScanTo(p, copies[k][i], Base(p, i), w).sector)
    {
      ScanToFits(p, copies[k][i], Base(p, i), w);
    }
  }

  /** The local variables of the scan. */
  datatype ScanState = ScanState(current: nat, buffers: seq<Sector>, ok: seq<bool>, mismatch: bool, hist: seq<nat>,
                                 allow: seq<Allow>, damaged: bool)

  /** The state of the scan before cluster c, the user's answers apart. */
  ghost predicate InScan(p: Volume, copies: seq<seq<Sector>>, c: nat, st: ScanState)
    requires p.Valid() && Shape(p, copies) && |copies[0]| == SectorCount(p) && 2 <= c <= p.noOfCluster + 2
  {
    if c == 2 then
      && st.current == 1234 && !st.mismatch && !st.damaged && |st.buffers| == |copies| && Writable(p, st.buffers)
      && st.ok == seq(|copies|, k => true) && st.hist == seq(|copies|, k => 0)
    else
      && st.current == Div(c - 1, p.per) && st.current < |copies[0]|
      && AtWord(p, copies, st, Mod(c - 1, p.per) + 1)
      && (st.damaged <==> DamagedBelow(p, copies, st.current))
  }

  /** The words of the current sector below w have been scanned. */
  ghost predicate AtWord(p: Volume, copies: seq<seq<Sector>>, st: ScanState, w: nat)
    requires Shape(p, copies) && st.current < |copies[0]| && w <= p.per
  {
    && st.buffers == ScanColumnTo(p, copies, st.current, w)
    && st.ok == GoodColumnTo(p, copies, st.current, w)
    && st.mismatch == Mismatch(copies, st.current)
    && st.hist == History(p, copies, st.current)
  }

  ghost predicate DamagedBelow(p: Volume, copies: seq<seq<Sector>>, n: nat)
    requires Shape(p, copies) && n <= |copies[0]|
  {
    exists i :: 0 <= i < n && DamagedAt(p, copies, i)
  }

  lemma DamagedStep(p: Volume, copies: seq<seq<Sector>>, n: nat)
    requires Shape(p, copies) && n < |copies[0]|
    ensures DamagedBelow(p, copies, n + 1) <==> DamagedBelow(p, copies, n) || DamagedAt(p, copies, n)
  {
  }

  ghost predicate SectorsFit(l: Layout, sectorSize: nat, bytes: seq<byte>, m: nat) {
    && m <= l.fatLength && 0 < sectorSize
    && forall k, i :: 0 <= k < l.fats && 0 <= i < m ==> SectorAddress(l, sectorSize, k, i) + sectorSize <= |bytes|
  }

  /** Bytes outside the scanned FAT sectors are the same. */
  ghost predicate SameElsewhere(l: Layout, sectorSize: nat, m: nat, bytes: seq<byte>, bytes': seq<byte>) {
    |bytes'| == |bytes| && forall x :: 0 <= x < |bytes| && !InFatSector(l, sectorSize, m, x) ==> bytes'[x] == bytes[x]
  }

  /** The disk while `done` sectors are finished. */
  ghost predicate OnDisk(p: Volume, l: Layout, sectorSize: nat, bytes: seq<byte>, copies: seq<seq<Sector>>,
                         answers: seq<bool>, looksLikeFat: Sector -> bool, done: nat)
    requires p.Valid() && Shape(p, copies) && |copies| == l.fats == |answers| && |copies[0]| == SectorCount(p)
  {
    && SectorsFit(l, sectorSize, bytes, SectorCount(p)) && done <= SectorCount(p)
    && Copies(p.z, l, sectorSize, bytes, SectorCount(p)) == Repaired(p, copies, answers, looksLikeFat, done)
  }

  /** Sectors that are finished before cluster c: all but the one in the buffers. */
  ghost function DoneBefore(c: nat, current: nat): nat {
    if c == 2 then 0 else current
  }

  /** The sector in the buffers has been scanned to its end. */
  ghost predicate SectorComplete(p: Volume, c: nat) requires p.Valid() {
    c == 2 || c == p.noOfCluster + 2 || Mod(c, p.per) == 0
  }

  lemma CompleteMeansAllWords(p: Volume, c: nat)
    requires p.Valid() && 2 < c <= p.noOfCluster + 2 && SectorComplete(p, c)
    ensures Mod(c - 1, p.per) + 1 == WordCount(p, Base(p, Div(c - 1, p.per)))
    ensures (c == p.noOfCluster + 2) <==> Div(c - 1, p.per) == SectorCount(p) - 1
  {
    BaseDivMod(p, c - 1);
    ModNext(c - 1, p.per);
    if c <= p.noOfCluster + 1 {
      DivNext(c - 1, p.per);
      DivMonotone(c, p.noOfCluster + 1, p.per);
    }
  }

  /** The flush in front of a new sector, and the one after the loop. */
  method FlushCurrent(disk: Disk, p: Volume, l: Layout, c: nat, st: ScanState, answers: seq<bool>,
                      looksLikeFat: Sector -> bool, ghost copies: seq<seq<Sector>>)
    returns (hist: seq<nat>, allow: seq<Allow>, damaged: bool, ghost done: nat)
    requires p.Valid() && Shape(p, copies) && |copies| == l.fats == |answers| && |copies[0]| == SectorCount(p)
    requires p.per * p.z.Bytes() == disk.sectorSize
    requires 2 <= c <= p.noOfCluster + 2 && SectorComplete(p, c) && InScan(p, copies, c, st)
    requires |st.allow| == l.fats && Honest(st.allow, answers)
    requires OnDisk(p, l, disk.sectorSize, disk.bytes, copies, answers, looksLikeFat, DoneBefore(c, st.current))
    modifies disk`bytes
    ensures done == DoneAfter(c, st.current)
    ensures OnDisk(p, l, disk.sectorSize, disk.bytes, copies, answers, looksLikeFat, done)
    ensures SameElsewhere(l, disk.sectorSize, SectorCount(p), old(disk.bytes), disk.bytes)
    ensures Honest(allow, answers) && hist == History(p, copies, done)
    ensures damaged <==> DamagedBelow(p, copies, done)
  {
    hide Shape, InScan, SectorComplete, DamagedBelow, DoneAfter, Honest, History, Repaired, IsProgress, ProgressOf;
    hide Copies, InFatSector, Sources, WriteSources, GoodCopy, CountOk, SectorCount;
    var last := c == p.noOfCluster + 2;
    done := DoneAfter(c, st.current);
    FlushWritable(p, copies, c, st);
    FlushHistory(p, copies, c, st);
    ghost var rep := ProgressOf(p, copies, answers, looksLikeFat);
    ProgressIsRepaired(p, copies, answers, looksLikeFat, DoneBefore(c, st.current));
    ProgressIsRepaired(p, copies, answers, looksLikeFat, done);
    FlushWrites(p, copies, c, st, answers, looksLikeFat, rep);
    var d: bool;
    hist, allow, d := Flush(disk, p, l, st.current, last, st.buffers, st.ok, st.mismatch, st.hist, st.allow, answers,
                            looksLikeFat, SectorCount(p));
    damaged := st.damaged || d;
  }

  ghost function DoneAfter(c: nat, current: nat): nat {
    if c == 2 then 0 else current + 1
  }

  /** What a flush finds in the buffers can be written. */
  lemma FlushWritable(p: Volume, copies: seq<seq<Sector>>, c: nat, st: ScanState)
    requires p.Valid() && Shape(p, copies) && |copies[0]| == SectorCount(p)
    requires 2 <= c <= p.noOfCluster + 2 && InScan(p, copies, c, st)
    ensures 1 <= |copies| <= 2 && (|copies| == 1 ==> !st.mismatch)
    ensures |st.buffers| == |st.ok| == |st.hist| == |copies| && Writable(p, st.buffers)
    ensures DoneBefore(c, st.current) <= SectorCount(p) && DoneAfter(c, st.current) <= SectorCount(p)
    ensures st.mismatch || (forall k :: 0 <= k < |st.ok| ==> !st.ok[k]) ==> st.current < SectorCount(p)
  {
    if c > 2 {
      ScannedIsWritable(p, copies, st.current, Mod(c - 1, p.per) + 1);
    } else {
      assert st.ok[0];
    }
  }

  /** What a flush sees in the state is what the finished sector is. */
  lemma CompleteState(p: Volume, copies: seq<seq<Sector>>, c: nat, st: ScanState)
    requires p.Valid() && Shape(p, copies) && |copies[0]| == SectorCount(p)
    requires 2 < c <= p.noOfCluster + 2 && SectorComplete(p, c) && InScan(p, copies, c, st)
    ensures st.current < |copies[0]| && (c == p.noOfCluster + 2 <==> st.current == |copies[0]| - 1)
    ensures st.buffers == ScannedColumn(p, copies, st.current) && st.ok == CleanColumn(p, copies, st.current)
    ensures st.mismatch == Mismatch(copies, st.current) && st.hist == History(p, copies, st.current)
  {
    CompleteMeansAllWords(p, c);
    StatusesAreClean(p, copies, st.current);
  }

  lemma FlushHistory(p: Volume, copies: seq<seq<Sector>>, c: nat, st: ScanState)
    requires p.Valid() && Shape(p, copies) && |copies[0]| == SectorCount(p)
    requires 2 <= c <= p.noOfCluster + 2 && SectorComplete(p, c) && InScan(p, copies, c, st)
    ensures DoneAfter(c, st.current) <= SectorCount(p) && |st.ok| == |st.hist|
    ensures CountOk(st.ok, st.hist) == History(p, copies, DoneAfter(c, st.current))
    ensures st.damaged || st.mismatch || (forall k :: 0 <= k < |st.ok| ==> !st.ok[k])
            <==> DamagedBelow(p, copies, DoneAfter(c, st.current))
  {
    hide Shape, SectorComplete, History, CountOk, CleanColumn, ScannedColumn, Mismatch, DamagedAt, AtWord, Writable;
    hide DamagedBelow;
    if c > 2 {
      CompleteState(p, copies, c, st);
      HistoryStep(p, copies, st.current);
      DamageSeen(p, copies, st.current, st.mismatch);
      DamagedStep(p, copies, st.current);
    } else {
      NothingCounted(p, copies, st.ok, st.hist);
    }
  }

  lemma NothingCounted(p: Volume, copies: seq<seq<Sector>>, ok: seq<bool>, hist: seq<nat>)
    requires Shape(p, copies) && ok == seq(|copies|, k => true) && hist == seq(|copies|, k => 0)
    ensures CountOk(ok, hist) == History(p, copies, 0) && !DamagedBelow(p, copies, 0)
    ensures exists k :: 0 <= k < |ok| && ok[k]
  {
    assert ok[0];
  }

  lemma FlushFinishes(p: Volume, copies: seq<seq<Sector>>, st: ScanState, last: bool, answers: seq<bool>,
                      looksLikeFat: Sector -> bool, rep: Progress)
    requires Shape(p, copies) && |answers| == |copies| && st.current < |copies[0]|
    requires st.buffers == ScannedColumn(p, copies, st.current) && st.ok == CleanColumn(p, copies, st.current)
    requires st.mismatch == Mismatch(copies, st.current) && st.hist == History(p, copies, st.current)
    requires last <==> st.current == |copies[0]| - 1
    requires IsProgress(rep, p, copies, answers, looksLikeFat)
    ensures AfterFlush(rep(st.current), st.current, st.buffers, st.ok, st.mismatch, CountOk(st.ok, st.hist), last, answers,
                       looksLikeFat) == rep(st.current + 1)
  {
    HistoryStep(p, copies, st.current);
    FlushReachesTarget(p, copies, st.current, st.buffers, st.ok, st.mismatch, CountOk(st.ok, st.hist), last, answers,
                       looksLikeFat, rep);
  }

  /** What a flush writes finishes one more sector. */
  lemma FlushWrites(p: Volume, copies: seq<seq<Sector>>, c: nat, st: ScanState, answers: seq<bool>,
                    looksLikeFat: Sector -> bool, rep: Progress)
    requires p.Valid() && Shape(p, copies) && |copies| == |answers| && |copies[0]| == SectorCount(p)
    requires 2 <= c <= p.noOfCluster + 2 && SectorComplete(p, c) && InScan(p, copies, c, st)
    requires IsProgress(rep, p, copies, answers, looksLikeFat)
    ensures |st.buffers| == |st.ok| == |st.hist| == |copies|
    ensures DoneBefore(c, st.current) <= SectorCount(p) && DoneAfter(c, st.current) <= SectorCount(p)
    ensures AfterFlush(rep(DoneBefore(c, st.current)), st.current, st.buffers, st.ok, st.mismatch,
                       CountOk(st.ok, st.hist), c == p.noOfCluster + 2, answers, looksLikeFat)
            == rep(DoneAfter(c, st.current))
  {
    if c > 2 {
      CompleteState(p, copies, c, st);
      FlushFinishes(p, copies, st, c == p.noOfCluster + 2, answers, looksLikeFat, rep);
    } else {
      NothingToFlush(p, copies, answers, looksLikeFat, st.current, st.buffers, c == p.noOfCluster + 2, rep);
    }
  }

  /** The flush before the first sector counts both copies as clean and writes nothing. */
  lemma NothingToFlush(p: Volume, copies: seq<seq<Sector>>, answers: seq<bool>, looksLikeFat: Sector -> bool,
                       i: nat, buffers: seq<Sector>, last: bool, rep: Progress)
    requires Shape(p, copies) && |buffers| == |copies| == |answers| && IsProgress(rep, p, copies, answers, looksLikeFat)
    ensures var ok, hist := seq(|copies|, k => true), seq(|copies|, k => 0);
            && CountOk(ok, hist) == History(p, copies, 0)
            && AfterFlush(rep(0), i, buffers, ok, false, CountOk(ok, hist), last, answers, looksLikeFat) == rep(0)
            && exists k :: 0 <= k < |ok| && ok[k]
  {
    var ok: seq<bool> := seq(|copies|, k => true);
    assert ok[0];
  }

  /** The loop body: a flush and a read at each new sector, then one cluster. */
  method ScanCluster(disk: Disk, p: Volume, l: Layout, c: nat, st: ScanState, answers: seq<bool>,
                     looksLikeFat: Sector -> bool, ghost copies: seq<seq<Sector>>)
    returns (st': ScanState)
    requires p.Valid() && Shape(p, copies) && |copies| == l.fats == |answers| && |copies[0]| == SectorCount(p)
    requires p.per * p.z.Bytes() == disk.sectorSize
    requires 2 <= c <= p.noOfCluster + 1 && InScan(p, copies, c, st)
    requires |st.allow| == l.fats && Honest(st.allow, answers)
    requires OnDisk(p, l, disk.sectorSize, disk.bytes, copies, answers, looksLikeFat, DoneBefore(c, st.current))
    modifies disk`bytes
    ensures InScan(p, copies, c + 1, st') && |st'.allow| == l.fats && Honest(st'.allow, answers)
    ensures OnDisk(p, l, disk.sectorSize, disk.bytes, copies, answers, looksLikeFat, DoneBefore(c + 1, st'.current))
    ensures SameElsewhere(l, disk.sectorSize, SectorCount(p), old(disk.bytes), disk.bytes)
  {
    hide Shape, AtWord, OnDisk, Honest, SectorComplete, DamagedBelow;
    SectorOfCluster(p, c, st.current);
    var offsetS, offsetO := c / p.per, c % p.per;
    st' := st;
    if offsetS != st.current {
      st' := NextSector(disk, p, l, c, offsetS, st, answers, looksLikeFat, copies);
    } else {
      StayInSector(p, copies, c, st);
    }
    st' := ScanInBuffers(p, c, offsetO, st', copies);
  }

  /** One cluster of the sector in the buffers. */
  method ScanInBuffers(p: Volume, c: nat, w: nat, st: ScanState, ghost copies: seq<seq<Sector>>) returns (st': ScanState)
    requires Shape(p, copies) && st.current < |copies[0]| && FirstWord(Base(p, st.current)) <= w < p.per
    requires AtWord(p, copies, st, w) && c == Base(p, st.current) + w
    ensures st'.current == st.current && st'.allow == st.allow && st'.damaged == st.damaged
    ensures AtWord(p, copies, st', w + 1)
  {
    var buffers, ok := ScanColumnWord(p, c, w, st.buffers, st.ok);
    ColumnStep(p, copies, st.current, w, st.buffers, st.ok, buffers, ok);
    st' := st.(buffers := buffers, ok := ok);
  }

  lemma StayInSector(p: Volume, copies: seq<seq<Sector>>, c: nat, st: ScanState)
    requires p.Valid() && Shape(p, copies) && |copies[0]| == SectorCount(p)
    requires 2 < c <= p.noOfCluster + 1 && InScan(p, copies, c, st)
    requires Mod(c, p.per) == Mod(c - 1, p.per) + 1
    ensures AtWord(p, copies, st, Mod(c, p.per))
  {
  }

  /** A sector that is not finished is read as it was. */
  method ReadUnfinished(disk: Disk, p: Volume, l: Layout, i: nat, ghost answers: seq<bool>,
                        ghost looksLikeFat: Sector -> bool, ghost copies: seq<seq<Sector>>)
    returns (buffers: seq<Sector>)
    requires p.Valid() && Shape(p, copies) && |copies| == l.fats == |answers| && |copies[0]| == SectorCount(p)
    requires OnDisk(p, l, disk.sectorSize, disk.bytes, copies, answers, looksLikeFat, i) && i < SectorCount(p)
    ensures buffers == Column(copies, i)
  {
    hide Shape, Repaired, SectorCount, Copies;
    buffers := ReadColumn(disk, p, l, i, SectorCount(p));
    RepairedLeavesRest(p, copies, answers, looksLikeFat, i);
  }

  /** The state in front of the first word of a sector. */
  lemma FreshState(p: Volume, copies: seq<seq<Sector>>, st: ScanState, w: nat)
    requires Shape(p, copies) && st.current < |copies[0]| && w <= FirstWord(Base(p, st.current)) && w <= p.per
    requires st.buffers == Column(copies, st.current) && st.hist == History(p, copies, st.current)
    requires st.ok == seq(|copies|, k => true)
    requires st.mismatch == (|copies| == 2 && st.buffers[0] != st.buffers[1])
    ensures AtWord(p, copies, st, w)
  {
    hide Shape, ScanColumnTo, GoodColumnTo, History;
    FreshColumn(p, copies, st.current, w);
  }

  /** Flush the finished sector and read the next one. */
  method NextSector(disk: Disk, p: Volume, l: Layout, c: nat, offsetS: nat, st: ScanState, answers: seq<bool>,
                    looksLikeFat: Sector -> bool, ghost copies: seq<seq<Sector>>)
    returns (st': ScanState)
    requires p.Valid() && Shape(p, copies) && |copies| == l.fats == |answers| && |copies[0]| == SectorCount(p)
    requires p.per * p.z.Bytes() == disk.sectorSize
    requires 2 <= c <= p.noOfCluster + 1 && InScan(p, copies, c, st)
    requires |st.allow| == l.fats && Honest(st.allow, answers)
    requires OnDisk(p, l, disk.sectorSize, disk.bytes, copies, answers, looksLikeFat, DoneBefore(c, st.current))
    requires SectorComplete(p, c) && offsetS < SectorCount(p) && offsetS == if c == 2 then 0 else st.current + 1
    requires Mod(c, p.per) <= FirstWord(Base(p, offsetS))
    modifies disk`bytes
    ensures st'.current == offsetS && AtWord(p, copies, st', Mod(c, p.per))
    ensures st'.damaged <==> DamagedBelow(p, copies, offsetS)
    ensures |st'.allow| == l.fats && Honest(st'.allow, answers)
    ensures OnDisk(p, l, disk.sectorSize, disk.bytes, copies, answers, looksLikeFat, offsetS)
    ensures SameElsewhere(l, disk.sectorSize, SectorCount(p), old(disk.bytes), disk.bytes)
  {
    hide Shape, InScan, SectorComplete, DamagedBelow, History, SectorCount, SameElsewhere, AtWord, OnDisk;
    var hist, allow, damaged, done := FlushCurrent(disk, p, l, c, st, answers, looksLikeFat, copies);
    var buffers := ReadUnfinished(disk, p, l, offsetS, answers, looksLikeFat, copies);
    var ok := seq(l.fats, k => true);
    st' := ScanState(offsetS, buffers, ok, l.fats == 2 && buffers[0] != buffers[1], hist, allow, damaged);
    FreshState(p, copies, st', Mod(c, p.per));
  }

  /** Sectors that are not finished still read as they were. */
  lemma RepairedLeavesRest(p: Volume, copies: seq<seq<Sector>>, answers: seq<bool>, looksLikeFat: Sector -> bool, i: nat)
    requires Shape(p, copies) && |answers| == |copies| && i < |copies[0]|
    ensures Column(Repaired(p, copies, answers, looksLikeFat, i), i) == Column(copies, i)
  {
  }

  /** The scan in front of cluster c: the buffers, the bookkeeping and what is already on the disk. */
  ghost predicate AtScan(p: Volume, l: Layout, sectorSize: nat, first: seq<byte>, bytes: seq<byte>,
                         copies: seq<seq<Sector>>, answers: seq<bool>, looksLikeFat: Sector -> bool, c: nat, st: ScanState)
    requires p.Valid() && Shape(p, copies) && |copies| == l.fats == |answers| && |copies[0]| == SectorCount(p)
    requires 2 <= c <= p.noOfCluster + 2
  {
    && InScan(p, copies, c, st) && |st.allow| == l.fats && Honest(st.allow, answers)
    && OnDisk(p, l, sectorSize, bytes, copies, answers, looksLikeFat, DoneBefore(c, st.current))
    && SameElsewhere(l, sectorSize, SectorCount(p), first, bytes)
  }

  /** The states of a scan, as a function of the disk, the next cluster and the local variables. */
  type ScanStates = (seq<byte>, nat, ScanState) -> bool

  ghost function StatesOf(p: Volume, l: Layout, sectorSize: nat, first: seq<byte>, copies: seq<seq<Sector>>,
                          answers: seq<bool>, looksLikeFat: Sector -> bool): ScanStates
    requires p.Valid() && Shape(p, copies) && |copies| == l.fats == |answers| && |copies[0]| == SectorCount(p)
  {
    (bytes: seq<byte>, c: nat, st: ScanState) =>
      && p.Valid() && Shape(p, copies) && |copies| == l.fats == |answers| && |copies[0]| == SectorCount(p)
      && 2 <= c <= p.noOfCluster + 2 && AtScan(p, l, sectorSize, first, bytes, copies, answers, looksLikeFat, c, st)
  }

  /** Is `at` that function? */
  ghost predicate IsScanStates(at: ScanStates, p: Volume, l: Layout, sectorSize: nat, first: seq<byte>,
                            copies: seq<seq<Sector>>, answers: seq<bool>, looksLikeFat: Sector -> bool)
    requires p.Valid() && Shape(p, copies) && |copies| == l.fats == |answers| && |copies[0]| == SectorCount(p)
  {
    forall bytes: seq<byte>, c: nat, st: ScanState
      {:trigger AtScan(p, l, sectorSize, first, bytes, copies, answers, looksLikeFat, c, st)} ::
      2 <= c <= p.noOfCluster + 2 ==>
        at(bytes, c, st) == AtScan(p, l, sectorSize, first, bytes, copies, answers, looksLikeFat, c, st)
  }

  /** The loop over the clusters. */
  method ScanClusters(disk: Disk, p: Volume, l: Layout, start: ScanState, answers: seq<bool>,
                      looksLikeFat: Sector -> bool, ghost copies: seq<seq<Sector>>, ghost first: seq<byte>,
                      ghost at: ScanStates)
    returns (c: nat, st: ScanState)
    requires p.Valid() && Shape(p, copies) && |copies| == l.fats == |answers| && |copies[0]| == SectorCount(p)
    requires p.per * p.z.Bytes() == disk.sectorSize
    requires IsScanStates(at, p, l, disk.sectorSize, first, copies, answers, looksLikeFat)
    requires at(disk.bytes, 2, start)
    modifies disk`bytes
    ensures c == p.noOfCluster + 2 && at(disk.bytes, c, st)
  {
    c, st := 2, start;
    while c <= p.noOfCluster + 1
      invariant 2 <= c <= p.noOfCluster + 2 && at(disk.bytes, c, st)
    {
      st := ScanNext(disk, p, l, c, st, answers, looksLikeFat, copies, first, at);
      c := c + 1;
    }
  }

  method ScanNext(disk: Disk, p: Volume, l: Layout, c: nat, st: ScanState, answers: seq<bool>,
                  looksLikeFat: Sector -> bool, ghost copies: seq<seq<Sector>>, ghost first: seq<byte>,
                  ghost at: ScanStates)
    returns (st': ScanState)
    requires p.Valid() && Shape(p, copies) && |copies| == l.fats == |answers| && |copies[0]| == SectorCount(p)
    requires p.per * p.z.Bytes() == disk.sectorSize && 2 <= c <= p.noOfCluster + 1
    requires IsScanStates(at, p, l, disk.sectorSize, first, copies, answers, looksLikeFat)
    requires at(disk.bytes, c, st)
    modifies disk`bytes
    ensures at(disk.bytes, c + 1, st')
  {
    assert AtScan(p, l, disk.sectorSize, first, disk.bytes, copies, answers, looksLikeFat, c, st);
    st' := ScanCluster(disk, p, l, c, st, answers, looksLikeFat, copies);
    SameElsewhereTwice(l, disk.sectorSize, SectorCount(p), first, old(disk.bytes), disk.bytes);
    assert AtScan(p, l, disk.sectorSize, first, disk.bytes, copies, answers, looksLikeFat, c + 1, st');
  }

  lemma SameElsewhereTwice(l: Layout, sectorSize: nat, m: nat, a: seq<byte>, b: seq<byte>, c: seq<byte>)
    requires SameElsewhere(l, sectorSize, m, a, b) && SameElsewhere(l, sectorSize, m, b, c)
    ensures SameElsewhere(l, sectorSize, m, a, c)
  {
  }

  /** repair_FAT_table for FAT16 and FAT32; a volume without one or two FATs is refused. */
  method RepairFatTable(disk: Disk, p: Volume, l: Layout, answers: seq<bool>, looksLikeFat: Sector -> bool)
    returns (res: int, fatDamaged: bool)
    requires p.Valid() && |answers| == l.fats
    requires SectorsFit(l, disk.sectorSize, disk.bytes, SectorCount(p)) && p.per * p.z.Bytes() == disk.sectorSize
    modifies disk`bytes
    ensures !(1 <= l.fats <= 2) ==> res == 1 && disk.bytes == old(disk.bytes)
    ensures 1 <= l.fats <= 2 ==>
              && res == 0
              && SameElsewhere(l, disk.sectorSize, SectorCount(p), old(disk.bytes), disk.bytes)
              && var copies := Copies(p.z, l, disk.sectorSize, old(disk.bytes), SectorCount(p));
              && Shape(p, copies)
              && OnDisk(p, l, disk.sectorSize, disk.bytes, copies, answers, looksLikeFat, SectorCount(p))
              && (fatDamaged <==> DamagedBelow(p, copies, SectorCount(p)))
  {
    if l.fats == 0 || l.fats > 2 {
      return 1, false;
    }
    ghost var copies := Copies(p.z, l, disk.sectorSize, disk.bytes, SectorCount(p));
    CopiesHaveShape(p, l, disk.sectorSize, disk.bytes, SectorCount(p));
    RepairedNothing(p, copies, answers, looksLikeFat);
    var zero: Sector := seq(p.per, j => 0);
    var st := ScanState(1234, seq(l.fats, k => zero), seq(l.fats, k => true), false, seq(l.fats, k => 0),
                        seq(l.fats, k => Ask), false);
    ghost var first := disk.bytes;
    ghost var at := StatesOf(p, l, disk.sectorSize, first, copies, answers, looksLikeFat);
    assert AtScan(p, l, disk.sectorSize, first, disk.bytes, copies, answers, looksLikeFat, 2, st);
    var c;
    c, st := ScanClusters(disk, p, l, st, answers, looksLikeFat, copies, first, at);
    assert AtScan(p, l, disk.sectorSize, first, disk.bytes, copies, answers, looksLikeFat, c, st);
    if c > 2 { CompleteMeansAllWords(p, c); }
    var _, _, damaged, done := FlushCurrent(disk, p, l, c, st, answers, looksLikeFat, copies);
    assert done == SectorCount(p);
    return 0, damaged;
  }

  lemma CopiesHaveShape(p: Volume, l: Layout, sectorSize: nat, bytes: seq<byte>, m: nat)
    requires p.Valid() && 1 <= l.fats <= 2 && p.per * p.z.Bytes() == sectorSize
    requires forall k, i :: 0 <= k < l.fats && 0 <= i < m ==> SectorAddress(l, sectorSize, k, i) + sectorSize <= |bytes|
    ensures Shape(p, Copies(p.z, l, sectorSize, bytes, m))
  {
    forall k, i | 0 <= k < l.fats && 0 <= i < m
      ensures Fits(p.z, SectorAt(p.z, l, sectorSize, bytes, k, i)) && |SectorAt(p.z, l, sectorSize, bytes, k, i)| == p.per
    {
      WordsFit(p.z, bytes[SectorAddress(l, sectorSize, k, i)..SectorAddress(l, sectorSize, k, i) + sectorSize]);
    }
  }

  lemma RepairedNothing(p: Volume, copies: seq<seq<Sector>>, answers: seq<bool>, looksLikeFat: Sector -> bool)
    requires Shape(p, copies) && |answers| == |copies|
    ensures Repaired(p, copies, answers, looksLikeFat, 0) == copies
  {
    var r := Repaired(p, copies, answers, looksLikeFat, 0);
    forall k | 0 <= k < |copies| ensures r[k] == copies[k] {
    }
  }

  /** The quotient and remainder the loop computes for cluster c. */
  lemma SectorOfCluster(p: Volume, c: nat, current: nat)
    requires p.Valid() && 2 <= c <= p.noOfCluster + 1
    requires c == 2 ==> current == 1234
    requires c > 2 ==> current == Div(c - 1, p.per)
    ensures c / p.per == Div(c, p.per) < SectorCount(p) && c % p.per == Mod(c, p.per) < p.per
    ensures Base(p, Div(c, p.per)) + Mod(c, p.per) == c
    ensures c / p.per != current ==> SectorComplete(p, c) && Mod(c, p.per) <= FirstWord(Base(p, Div(c, p.per)))
    ensures c / p.per == current ==> c > 2 && Mod(c, p.per) == Mod(c - 1, p.per) + 1
    ensures FirstWord(Base(p, Div(c, p.per))) <= Mod(c, p.per)
    ensures c > 2 && c / p.per != current ==> Div(c, p.per) == current + 1
  {
    DivIsQuotient(c, p.per);
    ModIsRemainder(c, p.per);
    BaseDivMod(p, c);
    LaterClustersFit(p, c);
    DivNext(c - 1, p.per);
    ModNext(c - 1, p.per);
  }
}
