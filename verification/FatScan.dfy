/** fat*_remove_used_space: take the allocated clusters of a FAT out of the search space. */
module FatScan {
  import opened Arith
  import opened Bytes
  import opened Disks
  import opened FatTable
  import opened FatIo
  import opened SearchSpaces
  import opened LostSectors

  /** Clusters first to last, all allocated. */
  datatype Run = Run(first: nat, last: nat)

  /** Byte address of cluster c when cluster 2 is at `data` and clusters are `len` bytes long. */
  ghost function Address(data: nat, len: nat, c: nat): nat {
    if c <= 2 then data else Address(data, len, c - 1) + len
  }

  ghost function SpanOf(data: nat, len: nat, r: Run): Span
    requires 0 < len
  {
    Span(Address(data, len, r.first), Address(data, len, r.last) + len - 1)
  }

  ghost function SpansOf(data: nat, len: nat, runs: seq<Run>): (spans: seq<Span>)
    requires 0 < len
    ensures |spans| == |runs|
    ensures forall i :: 0 <= i < |runs| ==> spans[i] == SpanOf(data, len, runs[i])
  {
    seq(|runs|, i requires 0 <= i < |runs| => SpanOf(data, len, runs[i]))
  }

  predicate InRun(r: Run, c: int) {
    r.first <= c <= r.last
  }

  /** The runs are exactly the maximal stretches of allocated clusters in 2..n, in increasing order. */
  ghost predicate MaximalRuns(runs: seq<Run>, used: seq<bool>, n: nat)
    requires n <= |used|
  {
    AreApart(runs, used, n) && forall c :: 2 <= c < n && used[c] ==> InSomeRun(runs, c)
  }

  /** Runs of allocated clusters with at least one free cluster between any two. */
  ghost predicate AreApart(runs: seq<Run>, used: seq<bool>, n: nat)
    requires n <= |used|
  {
    && (forall i :: 0 <= i < |runs| ==> 2 <= runs[i].first <= runs[i].last < n)
    && (forall i, c :: 0 <= i < |runs| && InRun(runs[i], c) ==> used[c])
    && (forall i, j :: 0 <= i < j < |runs| ==> runs[i].last + 1 < runs[j].first)
  }

  ghost predicate InSomeRun(runs: seq<Run>, c: int) {
    exists i :: 0 <= i < |runs| && InRun(runs[i], c)
  }

  /** Byte x belongs to an allocated cluster. */
  ghost predicate InUsedCluster(data: nat, len: nat, used: seq<bool>, x: int) {
    exists c :: 2 <= c < |used| && used[c] && InCluster(data, len, c, x)
  }

  ghost predicate InCluster(data: nat, len: nat, c: nat, x: int) {
    Address(data, len, c) <= x < Address(data, len, c) + len
  }

  // ----- addresses -----

  lemma {:induction false} AddressesApart(data: nat, len: nat, c: nat, d: nat)
    requires 2 <= c < d
    ensures Address(data, len, c) + len <= Address(data, len, d)
    decreases d
  {
    if c + 1 < d {
      AddressesApart(data, len, c, d - 1);
    }
  }

  lemma {:induction false} AddressClosedForm(data: nat, len: nat, c: nat)
    requires 2 <= c
    ensures Address(data, len, c) == data + (c - 2) * len
  {
    if c > 2 {
      AddressClosedForm(data, len, c - 1);
      assert (c - 2) * len == (c - 3) * len + len;
    }
  }

  /** Every byte of a run lies in one of its clusters. */
  lemma {:induction false} ByteInRun(data: nat, len: nat, r: Run, x: int) returns (c: nat)
    requires 0 < len && 2 <= r.first <= r.last && InSpan(SpanOf(data, len, r), x)
    ensures InRun(r, c) && Address(data, len, c) <= x < Address(data, len, c) + len
    decreases r.last
  {
    if Address(data, len, r.last) <= x {
      c := r.last;
    } else {
      c := ByteInRun(data, len, Run(r.first, r.last - 1), x);
    }
  }

  lemma ClusterInRun(data: nat, len: nat, r: Run, c: nat, x: int)
    requires 0 < len && 2 <= r.first && InRun(r, c) && InCluster(data, len, c, x)
    ensures InSpan(SpanOf(data, len, r), x)
  {
    if r.first < c { AddressesApart(data, len, r.first, c); }
    if c < r.last { AddressesApart(data, len, c, r.last); }
  }

  /** The spans of maximal runs cover exactly the bytes of allocated clusters. */
  lemma RunsCoverUsedClusters(data: nat, len: nat, runs: seq<Run>, used: seq<bool>, x: int)
    requires 0 < len && MaximalRuns(runs, used, |used|)
    ensures Covers(SpansOf(data, len, runs), x) <==> InUsedCluster(data, len, used, x)
  {
    var spans := SpansOf(data, len, runs);
    if Covers(spans, x) {
      var i :| 0 <= i < |spans| && InSpan(spans[i], x);
      var c := ByteInRun(data, len, runs[i], x);
      assert used[c] && InCluster(data, len, c, x);
    }
    if InUsedCluster(data, len, used, x) {
      var c :| 2 <= c < |used| && used[c] && InCluster(data, len, c, x);
      assert InSomeRun(runs, c);
      var i :| 0 <= i < |runs| && InRun(runs[i], c);
      ClusterInRun(data, len, runs[i], c, x);
      assert InSpan(spans[i], x);
    }
  }

  // ----- the coalescing loop body -----

  /** start_free and end_free, with the runs they stand for. */
  class Coalescer {
    const data: nat
    const len: nat
    const space: SearchSpace
    var startFree: nat
    var endFree: nat
    ghost var runs: seq<Run>     // runs already deleted from the space
    ghost var pending: seq<Run>  // no run or the one in startFree..endFree
    ghost const before: seq<Span>   // the space when the scan began
    ghost const log: seq<Span>      // the deletions before the scan began

    constructor (data: nat, len: nat, space: SearchSpace)
      requires 2 <= data && 0 < len && Sorted(space.spans)
      ensures this.data == data && this.len == len && this.space == space
      ensures before == space.spans && log == space.deleted && runs == [] && pending == [] && Valid()
    {
      this.data, this.len, this.space := data, len, space;
      startFree, endFree := 0, 0;
      runs, pending := [], [];
      before, log := space.spans, space.deleted;
    }

    ghost predicate Valid()
      reads this, space
    {
      && 2 <= data && 0 < len
      && |pending| <= 1
      && (pending == [] ==> startFree == endFree == 0 && runs == [])
      && (pending != [] ==> && 2 <= pending[0].first <= pending[0].last
                            && Span(startFree, endFree) == SpanOf(data, len, pending[0]))
      && Sorted(space.spans)
      && space.deleted == log + SpansOf(data, len, runs)
      && forall x :: Covers(space.spans, x) <==> Covers(before, x) && !Covers(SpansOf(data, len, runs), x)
    }

    /** An allocated cluster: extend the pending run or delete it and begin a new one. */
    method NotFree(test: nat, ghost c: nat, address: nat)
      requires Valid() && 2 <= c && test == address == Address(data, len, c)
      requires pending != [] ==> pending[0].last < c
      requires len > 1
      modifies this, space
      ensures Valid()
      ensures if old(pending) != [] && old(pending)[0].last == c - 1 then
                runs == old(runs) && pending == [Run(old(pending)[0].first, c)]
              else
                runs == old(runs) + old(pending) && pending == [Run(c, c)]
    {
      if endFree + 1 == test {
        if pending != [] && pending[0].last < c - 1 { AddressesApart(data, len, pending[0].last, c - 1); }
        endFree := endFree + len;
        pending := [Run(pending[0].first, c)];
      } else {
        Flush();
        startFree := address;
        endFree := startFree + len - 1;
        pending := [Run(c, c)];
      }
    }

    /** Delete the pending run, if there is one. */
    method Flush()
      requires Valid() && len > 1
      modifies this, space
      ensures 2 <= data && runs == old(runs) + old(pending) && pending == old(pending)
      ensures Sorted(space.spans)
      ensures space.deleted == log + SpansOf(data, len, runs)
      ensures forall x :: Covers(space.spans, x) <==> Covers(before, x) && !Covers(SpansOf(data, len, runs), x)
    {
      if pending != [] && pending[0].first < pending[0].last {
        AddressesApart(data, len, pending[0].first, pending[0].last);
      }
      if startFree != endFree {
        ghost var spans := SpansOf(data, len, runs);
        space.Del(startFree, endFree);
        runs := runs + pending;
        assert SpansOf(data, len, runs) == spans + [Span(startFree, endFree)];
        forall x
          ensures Covers(SpansOf(data, len, runs), x) <==> Covers(spans, x) || startFree <= x <= endFree
        {
          CoversConcat(spans, [Span(startFree, endFree)], x);
          assert Covers([Span(startFree, endFree)], x) <==> InSpan([Span(startFree, endFree)][0], x);
        }
      }
    }
  }

  // ----- the scans -----

  ghost function Used(fat: seq<nat>): (used: seq<bool>)
    ensures |used| == |fat|
    ensures forall c :: 0 <= c < |fat| ==> used[c] == (fat[c] != 0)
  {
    seq(|fat|, c requires 0 <= c < |fat| => fat[c] != 0)
  }

  /** Where the volume lies: byte offsets of the partition, its FAT and its cluster 2, and its size in clusters. */
  datatype Geometry = Geometry(part: nat, fatOffset: nat, startData: nat, clusterSize: nat, noOfCluster: nat)

  /** Bounds that the 8 and 32 bit boot sector fields and the caller's arithmetic give. */
  predicate Sane(g: Geometry) {
    && 0 < g.startData && 0 < g.clusterSize
    && g.startData + g.noOfCluster * g.clusterSize < 0x1_0000_0000
  }

  /** part_offset + (start_data + (c - 2) * cluster_size) * sector_size. */
  method ClusterAddress(g: Geometry, sectorSize: nat, c: nat) returns (a: nat)
    requires 2 <= c
    ensures a == Address(g.part + g.startData * sectorSize, g.clusterSize * sectorSize, c)
  {
    a := g.part + (g.startData + (c - 2) * g.clusterSize) * sectorSize;
    AddressClosedForm(g.part + g.startData * sectorSize, g.clusterSize * sectorSize, c);
    Distribute(g.startData, c - 2, g.clusterSize, sectorSize);
  }

  /** The same address with the sector number computed in 32 bits, as the FAT32 scan tests it. */
  method ClusterAddress32(g: Geometry, sectorSize: nat, c: nat) returns (a: nat)
    requires 2 <= c
    ensures a == g.part + (g.startData + (c - 2) * g.clusterSize) % 0x1_0000_0000 * sectorSize
  {
    a := g.part + (g.startData + (c - 2) * g.clusterSize) % 0x1_0000_0000 * sectorSize;
  }

  /** The 32-bit test address is the 64-bit address exactly when the sector number fits in 32 bits. */
  lemma TestAddressAgrees(g: Geometry, sectorSize: nat, c: nat)
    requires 2 <= c && 0 < sectorSize
    ensures g.part + (g.startData + (c - 2) * g.clusterSize) % 0x1_0000_0000 * sectorSize
            == Address(g.part + g.startData * sectorSize, g.clusterSize * sectorSize, c)
            <==> g.startData + (c - 2) * g.clusterSize < 0x1_0000_0000
  {
    var n := g.startData + (c - 2) * g.clusterSize;
    AddressClosedForm(g.part + g.startData * sectorSize, g.clusterSize * sectorSize, c);
    Distribute(g.startData, c - 2, g.clusterSize, sectorSize);
    MulMonotone(sectorSize, n % 0x1_0000_0000, n);
    assert sectorSize * n == n * sectorSize;
    assert sectorSize * (n % 0x1_0000_0000) == n % 0x1_0000_0000 * sectorSize;
  }

  /** In a sane volume the sector number of every cluster fits in 32 bits. */
  lemma SaneClusterFits(g: Geometry, c: nat)
    requires Sane(g) && 2 <= c <= g.noOfCluster + 1
    ensures g.startData + (c - 2) * g.clusterSize < 0x1_0000_0000
  {
    MulMonotone(g.clusterSize, c - 2, g.noOfCluster);
    assert g.clusterSize * (c - 2) == (c - 2) * g.clusterSize;
    assert g.clusterSize * g.noOfCluster == g.noOfCluster * g.clusterSize;
  }

  /** The maximal runs below c, built up one cluster at a time. */
  ghost function RunsOf(used: seq<bool>, c: nat): seq<Run>
    requires c <= |used|
  {
    if c <= 2 then [] else WithCluster(RunsOf(used, c - 1), used[c - 1], c - 1)
  }

  /** The runs with one more cluster, if it is allocated. */
  ghost function WithCluster(prior: seq<Run>, isUsed: bool, c: nat): seq<Run> {
    if !isUsed then prior
    else if prior != [] && prior[|prior| - 1].last == c - 1 then
      prior[..|prior| - 1] + [Run(prior[|prior| - 1].first, c)]
    else prior + [Run(c, c)]
  }

  lemma WithClusterIsMaximal(prior: seq<Run>, used: seq<bool>, c: nat)
    requires 2 <= c < |used| && MaximalRuns(prior, used, c)
    ensures MaximalRuns(WithCluster(prior, used[c], c), used, c + 1)
  {
    hide MaximalRuns;
    if used[c] {
      GrowRuns(prior, WithCluster(prior, true, c), used, c);
    } else {
      SkipFree(prior, used, c);
    }
  }

  lemma NoRuns(used: seq<bool>, c: nat)
    requires c <= |used| && c <= 2
    ensures MaximalRuns([], used, c)
  {
  }

  lemma {:induction false} RunsOfAreMaximal(used: seq<bool>, c: nat)
    requires c <= |used|
    ensures MaximalRuns(RunsOf(used, c), used, c)
  {
    hide MaximalRuns, WithCluster;
    if c <= 2 {
      NoRuns(used, c);
    } else {
      RunsOfAreMaximal(used, c - 1);
      WithClusterIsMaximal(RunsOf(used, c - 1), used, c - 1);
    }
  }

  /** One cluster of a scan. */
  method ScanStep(co: Coalescer, ghost used: seq<bool>, c: nat, next: nat, test: nat, address: nat)
    requires co.Valid() && co.len > 1 && 2 <= c < |used| && used[c] == (next != 0)
    requires test == address == Address(co.data, co.len, c)
    requires co.runs + co.pending == RunsOf(used, c)
    modifies co, co.space
    ensures co.Valid() && co.runs + co.pending == RunsOf(used, c + 1)
  {
    ghost var prior := RunsOf(used, c);
    RunsOfAreMaximal(used, c);
    if next != 0 {
      if co.pending != [] {
        assert prior[|prior| - 1] == co.pending[0];
        assert prior[..|prior| - 1] == co.runs;
      }
      co.NotFree(test, c, address);
    }
  }

  lemma SkipFree(runs: seq<Run>, used: seq<bool>, c: nat)
    requires 2 <= c < |used| && !used[c] && MaximalRuns(runs, used, c)
    ensures MaximalRuns(runs, used, c + 1)
  {
  }

  /** Is `runs` the list `prior` with cluster c added, to its last run or as a new one? */
  ghost predicate Grown(prior: seq<Run>, runs: seq<Run>, c: nat) {
    if prior != [] && prior[|prior| - 1].last == c - 1 then
      runs == prior[..|prior| - 1] + [Run(prior[|prior| - 1].first, c)]
    else runs == prior + [Run(c, c)]
  }

  lemma PushRun(runs: seq<Run>, r: Run, used: seq<bool>, n: nat)
    requires n <= |used| && AreApart(runs, used, n) && 2 <= r.first <= r.last < n
    requires runs != [] ==> runs[|runs| - 1].last + 1 < r.first
    requires forall c :: InRun(r, c) ==> used[c]
    ensures AreApart(runs + [r], used, n)
  {
    assert forall i :: 0 <= i < |runs| - 1 ==> runs[i].last + 1 < runs[|runs| - 1].first;
  }

  lemma GrownStayApart(prior: seq<Run>, runs: seq<Run>, used: seq<bool>, c: nat)
    requires 2 <= c < |used| && used[c] && AreApart(prior, used, c) && Grown(prior, runs, c)
    ensures AreApart(runs, used, c + 1)
  {
    var m := |prior| - 1;
    if prior != [] && prior[m].last == c - 1 {
      assert forall k :: InRun(prior[m], k) ==> used[k];
      assert m > 0 ==> prior[..m][m - 1] == prior[m - 1];
      PushRun(prior[..m], Run(prior[m].first, c), used, c + 1);
    } else {
      PushRun(prior, Run(c, c), used, c + 1);
    }
  }

  lemma GrownCovers(prior: seq<Run>, runs: seq<Run>, c: nat, k: nat)
    requires 2 <= c && Grown(prior, runs, c) && (k == c || InSomeRun(prior, k))
    requires prior != [] ==> prior[|prior| - 1].first <= prior[|prior| - 1].last
    ensures InSomeRun(runs, k)
  {
    if k == c {
      assert InRun(runs[|runs| - 1], c);
    } else {
      var i :| 0 <= i < |prior| && InRun(prior[i], k);
      assert InRun(runs[i], k);
    }
  }

  lemma GrowRuns(prior: seq<Run>, runs: seq<Run>, used: seq<bool>, c: nat)
    requires 2 <= c < |used| && used[c] && MaximalRuns(prior, used, c) && Grown(prior, runs, c)
    ensures MaximalRuns(runs, used, c + 1)
  {
    GrownStayApart(prior, runs, used, c);
    forall k | 2 <= k < c + 1 && used[k]
      ensures InSomeRun(runs, k)
    {
      GrownCovers(prior, runs, c, k);
    }
  }

  /** What a scan leaves behind: the metadata and then the maximal runs deleted, and a space without any of their bytes. */
  ghost predicate Removed(g: Geometry, sectorSize: nat, used: seq<bool>,
                          before: seq<Span>, log: seq<Span>, after: seq<Span>, deleted: seq<Span>)
  {
    var data, len := g.part + g.startData * sectorSize, g.clusterSize * sectorSize;
    && g.part < data && 0 < len
    && deleted == log + [Span(g.part, data - 1)] + SpansOf(data, len, RunsOf(used, |used|))
    && Sorted(after)
    && forall x :: Covers(after, x) <==> Covers(before, x) && !(g.part <= x < data) && !InUsedCluster(data, len, used, x)
  }

  lemma Positive(a: nat, b: nat)
    requires 0 < a && 0 < b
    ensures a * b >= b && a * b >= a
  {
    MulMonotone(b, 1, a);
    MulMonotone(a, 1, b);
    assert b * a == a * b;
  }

  /** Delete the metadata area and begin a scan behind it. */
  method StartScan(g: Geometry, sectorSize: nat, space: SearchSpace, ghost used: seq<bool>) returns (co: Coalescer)
    requires Sane(g) && 16 <= sectorSize && Sorted(space.spans) && 2 <= |used|
    modifies space
    ensures fresh(co) && co.Valid() && co.runs + co.pending == RunsOf(used, 2) && co.len > 1
    ensures co.space == space && co.data == g.part + g.startData * sectorSize && co.len == g.clusterSize * sectorSize
    ensures g.part < co.data && co.log == old(space.deleted) + [Span(g.part, co.data - 1)]
    ensures Subtracted(old(space.spans), g.part, co.data - 1, co.before)
  {
    Positive(g.startData, sectorSize);
    Positive(g.clusterSize, sectorSize);
    space.Del(g.part, g.part + g.startData * sectorSize - 1);
    co := new Coalescer(g.part + g.startData * sectorSize, g.clusterSize * sectorSize, space);
  }

  /** Delete the last run. */
  method EndScan(co: Coalescer, g: Geometry, sectorSize: nat, ghost used: seq<bool>, ghost before: seq<Span>, ghost log: seq<Span>)
    requires co.Valid() && co.runs + co.pending == RunsOf(used, |used|) && co.len > 1
    requires co.data == g.part + g.startData * sectorSize && co.len == g.clusterSize * sectorSize
    requires g.part < co.data && co.log == log + [Span(g.part, co.data - 1)]
    requires Subtracted(before, g.part, co.data - 1, co.before)
    modifies co, co.space
    ensures Removed(g, sectorSize, used, before, log, co.space.spans, co.space.deleted)
  {
    co.Flush();
    RunsOfAreMaximal(used, |used|);
    forall x
      ensures Covers(SpansOf(co.data, co.len, co.runs), x) <==> InUsedCluster(co.data, co.len, used, x)
    {
      RunsCoverUsedClusters(co.data, co.len, co.runs, used, x);
    }
  }

  /** The volume that a scan works on. */
  ghost predicate OnVolume(co: Coalescer, g: Geometry, sectorSize: nat) {
    && Sane(g) && co.len > 1
    && co.data == g.part + g.startData * sectorSize && co.len == g.clusterSize * sectorSize
  }

  /** The test address and the address of a cluster; only the FAT32 scan tests in 32 bits. */
  method Addresses(t: FatType, g: Geometry, sectorSize: nat, c: nat) returns (test: nat, address: nat)
    requires Sane(g) && 0 < sectorSize && 2 <= c <= g.noOfCluster + 1
    ensures test == address == Address(g.part + g.startData * sectorSize, g.clusterSize * sectorSize, c)
  {
    address := ClusterAddress(g, sectorSize, c);
    test := address;
    if t == FAT32 {
      SaneClusterFits(g, c);
      TestAddressAgrees(g, sectorSize, c);
      test := ClusterAddress32(g, sectorSize, c);
    }
  }

  /** The state of a FAT16 or FAT32 scan in front of cluster c. */
  ghost predicate AtCached(disk: Disk, t: FatType, got: Delivery, base: nat, buffer: seq<byte>, hdOffset: nat,
                           co: Coalescer, used: seq<bool>, c: nat)
    requires UsableSector(disk.sectorSize) && 2 <= c <= |used|
    reads disk, co, co.space
  {
    && co.Valid() && co.runs + co.pending == RunsOf(used, c)
    && AtSector(t, disk.sectorSize, disk.bytes, got, base, buffer, hdOffset, c)
  }

  /** The loop body of the FAT16 and FAT32 scans. */
  method ScanCachedCluster(disk: Disk, t: FatType, got: Delivery, base: nat, buffer: array<byte>, hdOffset: nat, g: Geometry,
                           co: Coalescer, ghost used: seq<bool>, c: nat) returns (hdOffset': nat)
    requires UsableSector(disk.sectorSize) && OnVolume(co, g, disk.sectorSize)
    requires 2 <= c <= g.noOfCluster + 1
    requires used == Used(Seen(t, disk.sectorSize, disk.bytes, got, base, g.noOfCluster + 2))
    requires AtCached(disk, t, got, base, buffer[..], hdOffset, co, used, c)
    modifies buffer, co, co.space
    ensures AtCached(disk, t, got, base, buffer[..], hdOffset', co, used, c + 1)
  {
    hide AtSector, SeenEntry, RunsOf;
    var next;
    next, hdOffset' := CachedEntry(disk, t, got, base, buffer, hdOffset, c);
    var test, address := Addresses(t, g, disk.sectorSize, c);
    ScanStep(co, used, c, next, test, address);
  }

  /** The loop of fat16_remove_used_space and fat32_remove_used_space. */
  method ScanCached(disk: Disk, t: FatType, got: Delivery, base: nat, g: Geometry, co: Coalescer, ghost used: seq<bool>)
    returns (c: nat)
    requires (t == FAT16 || t == FAT32) && UsableSector(disk.sectorSize) && OnVolume(co, g, disk.sectorSize)
    requires used == Used(Seen(t, disk.sectorSize, disk.bytes, got, base, g.noOfCluster + 2))
    requires co.Valid() && co.runs + co.pending == RunsOf(used, 2)
    modifies co, co.space
    ensures c == g.noOfCluster + 2 && co.Valid() && co.runs + co.pending == RunsOf(used, c)
  {
    hide RunsOf, AtSector;
    var hdOffset := base;
    var buffer := new byte[disk.sectorSize](_ => 0);
    AtFirstSector(t, disk.sectorSize, disk.bytes, got, base, buffer[..]);
    c := 2;
    while c <= g.noOfCluster + 1
      invariant 2 <= c <= g.noOfCluster + 2
      invariant AtCached(disk, t, got, base, buffer[..], hdOffset, co, used, c)
    {
      hdOffset := ScanCachedCluster(disk, t, got, base, buffer, hdOffset, g, co, used, c);
      c := c + 1;
    }
  }

  /** The loop body of the FAT12 scan. */
  method ScanCluster12(disk: Disk, got: Delivery, base: nat, buffer: array<byte>, startPrev: nat, g: Geometry,
                       co: Coalescer, ghost used: seq<bool>, c: nat) returns (startPrev': nat)
    requires UsableSector(disk.sectorSize) && OnVolume(co, g, disk.sectorSize)
    requires 2 <= c <= g.noOfCluster + 1
    requires used == Used(Seen(FAT12, disk.sectorSize, disk.bytes, got, base, g.noOfCluster + 2))
    requires AtSectors(disk.sectorSize, disk.bytes, got, base, buffer[..], startPrev, c)
    requires co.Valid() && co.runs + co.pending == RunsOf(used, c)
    modifies buffer, co, co.space
    ensures co.Valid() && co.runs + co.pending == RunsOf(used, c + 1)
    ensures AtSectors(disk.sectorSize, disk.bytes, got, base, buffer[..], startPrev', c + 1)
  {
    hide AtSectors, SeenEntry, RunsOf;
    var next;
    next, startPrev' := CachedEntry12(disk, got, base, buffer, startPrev, c);
    var test, address := Addresses(FAT12, g, disk.sectorSize, c);
    ScanStep(co, used, c, next, test, address);
  }

  /** The loop of fat12_remove_used_space. */
  method Scan12(disk: Disk, got: Delivery, base: nat, g: Geometry, co: Coalescer, ghost used: seq<bool>)
    returns (c: nat)
    requires UsableSector(disk.sectorSize) && OnVolume(co, g, disk.sectorSize)
    requires used == Used(Seen(FAT12, disk.sectorSize, disk.bytes, got, base, g.noOfCluster + 2))
    requires co.Valid() && co.runs + co.pending == RunsOf(used, 2)
    modifies co, co.space
    ensures c == g.noOfCluster + 2 && co.Valid() && co.runs + co.pending == RunsOf(used, c)
  {
    hide RunsOf, AtSectors;
    var startPrev: nat := 0;
    var buffer := new byte[2 * disk.sectorSize](_ => 0);
    AtFirstSectors(disk.sectorSize, disk.bytes, got, base, buffer[..]);
    c := 2;
    while c <= g.noOfCluster + 1
      invariant 2 <= c <= g.noOfCluster + 2
      invariant co.Valid() && co.runs + co.pending == RunsOf(used, c)
      invariant AtSectors(disk.sectorSize, disk.bytes, got, base, buffer[..], startPrev, c)
    {
      startPrev := ScanCluster12(disk, got, base, buffer, startPrev, g, co, used, c);
      c := c + 1;
    }
  }

  /** The scan that the FAT type asks for. */
  method ScanTable(disk: Disk, t: FatType, got: Delivery, base: nat, g: Geometry, co: Coalescer, ghost used: seq<bool>)
    requires t != NotFat && UsableSector(disk.sectorSize) && OnVolume(co, g, disk.sectorSize)
    requires used == Used(Seen(t, disk.sectorSize, disk.bytes, got, base, g.noOfCluster + 2))
    requires co.Valid() && co.runs + co.pending == RunsOf(used, 2)
    modifies co, co.space
    ensures co.Valid() && co.runs + co.pending == RunsOf(used, |used|)
  {
    if t == FAT12 {
      var _ := Scan12(disk, got, base, g, co, used);
    } else {
      var _ := ScanCached(disk, t, got, base, g, co, used);
    }
  }

  method RemoveMarked(disk: Disk, t: FatType, got: Delivery, base: nat, g: Geometry, space: SearchSpace,
                      ghost used: seq<bool>)
    requires t != NotFat && Sane(g) && UsableSector(disk.sectorSize) && Sorted(space.spans)
    requires used == Used(Seen(t, disk.sectorSize, disk.bytes, got, base, g.noOfCluster + 2))
    modifies space
    ensures Removed(g, disk.sectorSize, used, old(space.spans), old(space.deleted), space.spans, space.deleted)
  {
    var co := StartScan(g, disk.sectorSize, space, used);
    ScanTable(disk, t, got, base, g, co, used);
    EndScan(co, g, disk.sectorSize, used, old(space.spans), old(space.deleted));
  }

  /** The scan has removed the metadata and the clusters whose entries in `fat` are not 0. */
  ghost predicate ScanRemoved(g: Geometry, sectorSize: nat, fat: seq<nat>, before: seq<Span>, log: seq<Span>,
                              space: SearchSpace)
    reads space
  {
    Removed(g, sectorSize, Used(fat), before, log, space.spans, space.deleted)
  }

  /**
   * fat12_, fat16_ and fat32_remove_used_space, as fat_remove_used_space chooses them; `got` says what the reads of the
   * table deliver.
   */
  method RemoveUsedSpace(disk: Disk, t: FatType, g: Geometry, space: SearchSpace, got: Delivery)
    requires t != NotFat && Sane(g) && UsableSector(disk.sectorSize) && Sorted(space.spans)
    modifies space
    ensures var base, n := g.part + g.fatOffset * disk.sectorSize, g.noOfCluster + 2;
            var size, sector := |disk.bytes|, disk.sectorSize;
            var before, log := old(space.spans), old(space.deleted);
            && ScanRemoved(g, sector, Seen(t, sector, disk.bytes, got, base, n), before, log, space)
            && (NoneIsCut(t, sector, size, got, base, n) ==>
                  ScanRemoved(g, sector, LostAsFree(t, sector, disk.bytes, got, base, n), before, log, space))
            && (AllAreWhole(t, sector, disk.bytes, got, base, n) ==>
                  ScanRemoved(g, sector, Entries(t, sector, disk.bytes, base, n), before, log, space))
  {
    hide Removed, NoneIsCut, AllAreWhole;
    var base: nat := g.part + g.fatOffset * disk.sectorSize;
    ghost var n := g.noOfCluster + 2;
    RemoveMarked(disk, t, got, base, g, space, Used(Seen(t, disk.sectorSize, disk.bytes, got, base, n)));
    if NoneIsCut(t, disk.sectorSize, |disk.bytes|, got, base, n) {
      LostCountsAsFree(t, disk.sectorSize, disk.bytes, got, base, n);
    }
    if AllAreWhole(t, disk.sectorSize, disk.bytes, got, base, n) {
      AllShown(t, disk.sectorSize, disk.bytes, got, base, n);
    }
  }
}
