/** Following cluster chains: reading a directory and recovering a file by path. */
module FatChains {
  import opened Arith
  import opened Bytes
  import opened Disks
  import opened FatTable
  import opened FatIo
  import opened Options
  import opened SearchSpaces

  const MAX_DIR_CLUSTERS: nat := 0x10_0000

  lemma MaximalClusters()
    ensures MAX_DIR_CLUSTERS == 1024 * 1024
  {
  }

  /** Where the clusters are: the FAT at `base`, cluster 2 at `startData`, and the number of clusters as computed. */
  datatype Volume = Volume(t: FatType, base: nat, startData: nat, clusterSize: nat, noOfCluster: nat) {
    ghost predicate Valid(disk: Disk) {
      UsableSector(disk.sectorSize) && 0 < clusterSize
    }
  }

  /** (part_size - start_data) / cluster_size, in 64 bits. */
  function ClusterCount(partSize: nat, startData: nat, clusterSize: nat): nat
    requires 0 < clusterSize
  {
    (partSize - startData) % 0x1_0000_0000_0000_0000 / clusterSize
  }

  predicate IsEoc(t: FatType, cluster: nat) {
    match t
    case FAT12 => cluster >= 0x0FF8
    case FAT16 => cluster >= 0xFFF8
    case FAT32 => cluster >= 0x0FFF_FFF8
    case NotFat => true
  }

  predicate InRange(v: Volume, cluster: nat) {
    2 <= cluster <= v.noOfCluster + 2
  }

  /** Disk offset of a cluster. */
  function StartOf(v: Volume, cluster: nat): nat {
    if cluster < 2 then v.startData else v.startData + (cluster - 2) * v.clusterSize
  }

  /** Is `next` what get_next_cluster shows? */
  ghost predicate Shows(v: Volume, sectorSize: nat, bytes: seq<byte>, next: nat -> nat)
    requires UsableSector(sectorSize)
  {
    forall c: nat {:trigger NextCluster(v.t, sectorSize, bytes, v.base, c)} ::
      next(c) == NextCluster(v.t, sectorSize, bytes, v.base, c)
  }

  predicate IsLive(v: Volume, eoc: bool, c: nat) {
    InRange(v, c) && !(eoc && IsEoc(v.t, c))
  }

  /** At most `cap` clusters of the chain from c on: it ends at a cluster out of range, or at a mark if `eoc`. */
  ghost function Chain(v: Volume, next: nat -> nat, eoc: bool, c: nat, cap: nat): (r: seq<nat>)
    ensures |r| <= cap && forall i :: 0 <= i < |r| ==> IsLive(v, eoc, r[i])
    decreases cap
  {
    if cap == 0 || !IsLive(v, eoc, c) then [] else [c] + Chain(v, next, eoc, next(c), cap - 1)
  }

  predicate Readable(v: Volume, bytes: seq<byte>, cluster: nat) {
    StartOf(v, cluster) + v.clusterSize <= |bytes|
  }

  predicate AllReadable(v: Volume, bytes: seq<byte>, chain: seq<nat>) {
    forall i :: 0 <= i < |chain| ==> Readable(v, bytes, chain[i])
  }

  /** The clusters in front of the first one that cannot be read. */
  function ReadablePart(v: Volume, bytes: seq<byte>, chain: seq<nat>): seq<nat> {
    if chain == [] || !Readable(v, bytes, chain[0]) then [] else [chain[0]] + ReadablePart(v, bytes, chain[1..])
  }

  function ClusterBytes(v: Volume, bytes: seq<byte>, cluster: nat): (r: seq<byte>)
    requires Readable(v, bytes, cluster)
    ensures |r| == v.clusterSize
  {
    bytes[StartOf(v, cluster)..StartOf(v, cluster) + v.clusterSize]
  }

  /** The contents of the clusters, one after the other. */
  function Contents(v: Volume, bytes: seq<byte>, chain: seq<nat>): seq<byte>
    requires AllReadable(v, bytes, chain)
  {
    if chain == [] then [] else ClusterBytes(v, bytes, chain[0]) + Contents(v, bytes, chain[1..])
  }

  function SpanOf(v: Volume, cluster: nat): Span
    requires 0 < v.clusterSize
  {
    Span(StartOf(v, cluster), StartOf(v, cluster) + v.clusterSize - 1)
  }

  function SpansOf(v: Volume, chain: seq<nat>): seq<Span>
    requires 0 < v.clusterSize
  {
    seq(|chain|, i requires 0 <= i < |chain| => SpanOf(v, chain[i]))
  }

  /** Is the list `next` what is left of `prior` without the bytes of these clusters? */
  ghost predicate WithoutClusters(prior: seq<Span>, v: Volume, chain: seq<nat>, next: seq<Span>)
    requires 0 < v.clusterSize
  {
    && Sorted(next)
    && forall x :: Covers(next, x) <==> Covers(prior, x) && !Covers(SpansOf(v, chain), x)
  }

  lemma WithoutOneMore(prior: seq<Span>, v: Volume, chain: seq<nat>, next: seq<Span>, c: nat, later: seq<Span>)
    requires 0 < v.clusterSize
    requires WithoutClusters(prior, v, chain, next)
    requires Subtracted(next, SpanOf(v, c).start, SpanOf(v, c).end, later)
    ensures WithoutClusters(prior, v, chain + [c], later)
  {
    assert SpansOf(v, chain + [c]) == SpansOf(v, chain) + [SpanOf(v, c)];
    forall x
      ensures Covers(later, x) <==> Covers(prior, x) && !Covers(SpansOf(v, chain + [c]), x)
    {
      CoversConcat(SpansOf(v, chain), [SpanOf(v, c)], x);
      assert Covers([SpanOf(v, c)], x) <==> InSpan([SpanOf(v, c)][0], x);
    }
  }

  /** A larger cap only makes a chain longer. */
  lemma {:induction false} CapsAgree(v: Volume, next: nat -> nat, eoc: bool, c: nat, cap: nat, more: nat)
    requires cap <= more
    ensures var b := Chain(v, next, eoc, c, more); Chain(v, next, eoc, c, cap) == b[..Min(|b|, cap)]
    decreases cap
  {
    if cap > 0 && IsLive(v, eoc, c) {
      CapsAgree(v, next, eoc, next(c), cap - 1, more - 1);
    }
  }

  /** The chain from c on comes to its end or to an unreadable cluster before the second pass leaves the buffer of the first. */
  ghost predicate StaysInBuffer(v: Volume, bytes: seq<byte>, next: nat -> nat, c: nat) {
    |ReadablePart(v, bytes, Chain(v, next, true, c, MAX_DIR_CLUSTERS + 1))| <= MAX_DIR_CLUSTERS
  }

  lemma {:induction false} ContentsAppend(v: Volume, bytes: seq<byte>, chain: seq<nat>, c: nat)
    requires AllReadable(v, bytes, chain) && Readable(v, bytes, c)
    ensures AllReadable(v, bytes, chain + [c])
    ensures Contents(v, bytes, chain + [c]) == Contents(v, bytes, chain) + ClusterBytes(v, bytes, c)
  {
    if chain == [] {
      assert [] + [c] == [c] && [c][1..] == [];
    } else {
      ContentsAppend(v, bytes, chain[1..], c);
      assert (chain + [c])[1..] == chain[1..] + [c];
    }
  }

  lemma {:induction false} ContentsLength(v: Volume, bytes: seq<byte>, chain: seq<nat>)
    requires AllReadable(v, bytes, chain)
    ensures |Contents(v, bytes, chain)| == v.clusterSize * |chain|
  {
    if chain != [] {
      ContentsLength(v, bytes, chain[1..]);
      assert v.clusterSize * |chain| == v.clusterSize * (|chain| - 1) + v.clusterSize;
    }
  }

  method Follow(disk: Disk, v: Volume, cluster: nat, ghost next: nat -> nat) returns (n: nat)
    requires v.Valid(disk) && Shows(v, disk.sectorSize, disk.bytes, next)
    ensures n == next(cluster)
  {
    n := GetNextCluster(disk, v.t, v.base, cluster);
  }

  /** The first pass: how many clusters does the chain have? */
  method CountClusters(disk: Disk, v: Volume, cluster: nat, ghost next: nat -> nat) returns (nbrClusters: nat)
    requires v.Valid(disk) && Shows(v, disk.sectorSize, disk.bytes, next)
    ensures nbrClusters == |Chain(v, next, true, cluster, MAX_DIR_CLUSTERS)|
  {
    nbrClusters := 0;
    var nextCluster: nat := cluster;
    while nbrClusters < MAX_DIR_CLUSTERS && 2 <= nextCluster <= v.noOfCluster + 2 && !IsEoc(v.t, nextCluster)
      invariant nbrClusters <= MAX_DIR_CLUSTERS
      invariant nbrClusters + |Chain(v, next, true, nextCluster, MAX_DIR_CLUSTERS - nbrClusters)|
                == |Chain(v, next, true, cluster, MAX_DIR_CLUSTERS)|
      decreases MAX_DIR_CLUSTERS - nbrClusters
    {
      nbrClusters := nbrClusters + 1;
      nextCluster := Follow(disk, v, nextCluster, next);
      if nextCluster == 0 {
        break;
      }
    }
  }

  /** Read one cluster behind those that are already in the buffer. */
  method AppendCluster(disk: Disk, v: Volume, buffer: array<byte>, nbr: nat, cluster: nat, ghost chain: seq<nat>)
    returns (ok: bool)
    requires |chain| == nbr && v.clusterSize * nbr + v.clusterSize <= buffer.Length && 0 < v.clusterSize
    requires AllReadable(v, disk.bytes, chain)
    requires buffer[..v.clusterSize * nbr] == Contents(v, disk.bytes, chain)
    modifies buffer
    ensures ok <==> Readable(v, disk.bytes, cluster)
    ensures ok ==> AllReadable(v, disk.bytes, chain + [cluster])
                   && buffer[..v.clusterSize * nbr + v.clusterSize] == Contents(v, disk.bytes, chain + [cluster])
    ensures !ok ==> buffer[..v.clusterSize * nbr] == Contents(v, disk.bytes, chain)
  {
    var at := v.clusterSize * nbr;
    var res := disk.Pread(buffer, at, v.clusterSize, StartOf(v, cluster));
    ok := res == v.clusterSize;
    assert buffer[..at] == Contents(v, disk.bytes, chain);
    if ok {
      assert buffer[..at + v.clusterSize] == buffer[..at] + buffer[at..at + v.clusterSize];
      ContentsAppend(v, disk.bytes, chain, cluster);
    }
  }

  /** The clusters of a directory that kf_fat_read_dir_chain reads: the chain up to the first unreadable cluster. */
  ghost function DirChain(v: Volume, bytes: seq<byte>, next: nat -> nat, c: nat): (r: seq<nat>)
    ensures AllReadable(v, bytes, r)
  {
    ReadablePartIsReadable(v, bytes, Chain(v, next, true, c, MAX_DIR_CLUSTERS));
    ReadablePart(v, bytes, Chain(v, next, true, c, MAX_DIR_CLUSTERS))
  }

  lemma {:induction false} ReadablePartIsReadable(v: Volume, bytes: seq<byte>, chain: seq<nat>)
    ensures AllReadable(v, bytes, ReadablePart(v, bytes, chain))
  {
    if chain != [] {
      ReadablePartIsReadable(v, bytes, chain[1..]);
    }
  }

  lemma {:induction false} ReadableSplit(v: Volume, bytes: seq<byte>, a: seq<nat>, b: seq<nat>)
    requires AllReadable(v, bytes, a)
    ensures ReadablePart(v, bytes, a + b) == a + ReadablePart(v, bytes, b)
  {
    if a != [] {
      ReadableSplit(v, bytes, a[1..], b);
      assert (a + b)[1..] == a[1..] + b;
    } else {
      assert a + b == b;
    }
  }

  lemma RoomForOneMore(size: nat, k: nat, n: nat)
    requires k < n
    ensures size * k + size <= size * n
  {
    MulMonotone(size, k, n);
  }

  /** What is left of a search space, and what has been taken out of it, in order. */
  datatype Space = Space(spans: seq<Span>, deleted: seq<Span>)

  ghost function SpaceOf(list: SearchSpace): Space
    reads list
  {
    Space(list.spans, list.deleted)
  }

  /** Exactly these clusters have been taken out, one by one. */
  ghost predicate TakenOut(prior: Space, v: Volume, chain: seq<nat>, later: Space)
    requires 0 < v.clusterSize
  {
    WithoutClusters(prior.spans, v, chain, later.spans) && later.deleted == prior.deleted + SpansOf(v, chain)
  }

  /** The first clusters of the chain are in the buffer and no longer in the search space. */
  ghost predicate HasRead(v: Volume, bytes: seq<byte>, chain: seq<nat>, buffer: seq<byte>, prior: Space, later: Space)
    requires 0 < v.clusterSize
  {
    && AllReadable(v, bytes, chain) && v.clusterSize * |chain| <= |buffer|
    && buffer[..v.clusterSize * |chain|] == Contents(v, bytes, chain)
    && TakenOut(prior, v, chain, later)
  }

  lemma TakeOutOne(prior: Space, v: Volume, chain: seq<nat>, next: Space, c: nat, later: Space)
    requires 0 < v.clusterSize && TakenOut(prior, v, chain, next)
    requires Subtracted(next.spans, SpanOf(v, c).start, SpanOf(v, c).end, later.spans)
    requires later.deleted == next.deleted + [SpanOf(v, c)]
    ensures TakenOut(prior, v, chain + [c], later)
  {
    WithoutOneMore(prior.spans, v, chain, next.spans, c, later.spans);
    assert SpansOf(v, chain + [c]) == SpansOf(v, chain) + [SpanOf(v, c)];
  }

  /** Take one cluster out of the search space. */
  method TakeOut(list: SearchSpace, v: Volume, cluster: nat, ghost chain: seq<nat>, ghost prior: Space)
    requires 0 < v.clusterSize && TakenOut(prior, v, chain, SpaceOf(list))
    modifies list
    ensures TakenOut(prior, v, chain + [cluster], SpaceOf(list))
  {
    var start := StartOf(v, cluster);
    list.Del(start, start + v.clusterSize - 1);
    TakeOutOne(prior, v, chain, old(SpaceOf(list)), cluster, SpaceOf(list));
  }

  method ReadOne(disk: Disk, v: Volume, buffer: array<byte>, nbr: nat, cluster: nat, list: SearchSpace,
                 ghost chain: seq<nat>, ghost prior: Space)
    returns (ok: bool)
    requires 0 < v.clusterSize && |chain| == nbr
    requires HasRead(v, disk.bytes, chain, buffer[..], prior, SpaceOf(list))
    requires v.clusterSize * nbr + v.clusterSize <= buffer.Length
    modifies buffer, list
    ensures ok <==> Readable(v, disk.bytes, cluster)
    ensures HasRead(v, disk.bytes, if ok then chain + [cluster] else chain, buffer[..], prior, SpaceOf(list))
  {
    hide TakenOut, Readable, Contents, AllReadable;
    assert buffer[..][..v.clusterSize * nbr] == buffer[..v.clusterSize * nbr];
    ok := AppendCluster(disk, v, buffer, nbr, cluster, chain);
    assert buffer[..][..v.clusterSize * nbr] == buffer[..v.clusterSize * nbr];
    if ok {
      assert v.clusterSize * (nbr + 1) == v.clusterSize * nbr + v.clusterSize;
      assert buffer[..][..v.clusterSize * (nbr + 1)] == buffer[..v.clusterSize * nbr + v.clusterSize];
      TakeOut(list, v, cluster, chain, prior);
    }
  }

  /** The walk along a chain has come to its k-th cluster. */
  ghost predicate AtCluster(v: Volume, next: nat -> nat, eoc: bool, whole: seq<nat>, cap: nat, k: nat, c: nat) {
    k <= |whole| <= cap && whole[k..] == Chain(v, next, eoc, c, cap - k)
  }

  lemma ChainStep(v: Volume, next: nat -> nat, eoc: bool, whole: seq<nat>, cap: nat, k: nat, c: nat)
    requires AtCluster(v, next, eoc, whole, cap, k, c) && k < cap
    ensures IsLive(v, eoc, c) ==>
              && k < |whole| && whole[k] == c && whole[..k] + [c] == whole[..k + 1]
              && AtCluster(v, next, eoc, whole, cap, k + 1, next(c))
    ensures !IsLive(v, eoc, c) ==> k == |whole|
  {
    if IsLive(v, eoc, c) {
      assert whole[k..][0] == c && whole[k..][1..] == whole[k + 1..];
    }
  }

  /** The readable part of a chain ends at its first unreadable cluster. */
  lemma ReadableEnds(v: Volume, bytes: seq<byte>, whole: seq<nat>, k: nat)
    requires k <= |whole| && AllReadable(v, bytes, whole[..k])
    requires k < |whole| ==> !Readable(v, bytes, whole[k])
    ensures ReadablePart(v, bytes, whole) == whole[..k]
  {
    ReadableSplit(v, bytes, whole[..k], whole[k..]);
    assert whole == whole[..k] + whole[k..];
    assert k < |whole| ==> whole[k..][0] == whole[k];
  }

  lemma NothingRead(v: Volume, bytes: seq<byte>, chain: seq<nat>, buffer: seq<byte>, prior: Space)
    requires 0 < v.clusterSize && chain == [] && Sorted(prior.spans)
    ensures HasRead(v, bytes, chain, buffer, prior, prior)
  {
  }

  /** Read a cluster for which the buffer has no room, to see whether it can be read. */
  method ReadBeyond(disk: Disk, v: Volume, cluster: nat) returns (ok: bool)
    requires 0 < v.clusterSize
    ensures ok <==> Readable(v, disk.bytes, cluster)
  {
    var beyond := new byte[v.clusterSize](_ => 0);
    var res := disk.PreadAll(beyond, StartOf(v, cluster));
    ok := res == v.clusterSize;
  }

  /** What a walk along the chain `whole` has come to: its clusters before the k-th can be read, the k-th is at hand. */
  ghost predicate AtReadable(v: Volume, bytes: seq<byte>, next: nat -> nat, whole: seq<nat>, k: nat, c: nat) {
    AtCluster(v, next, true, whole, MAX_DIR_CLUSTERS + 1, k, c) && AllReadable(v, bytes, whole[..k])
  }

  /** If the walk has come to the end of the chain, or to an unreadable cluster, it has seen the readable part. */
  lemma ReadablePartSeen(v: Volume, bytes: seq<byte>, next: nat -> nat, whole: seq<nat>, k: nat, c: nat)
    requires AtReadable(v, bytes, next, whole, k, c) && k <= MAX_DIR_CLUSTERS
    requires !IsLive(v, true, c) || !Readable(v, bytes, c)
    ensures ReadablePart(v, bytes, whole) == whole[..k]
  {
    ChainStep(v, next, true, whole, MAX_DIR_CLUSTERS + 1, k, c);
    ReadableEnds(v, bytes, whole, k);
  }

  /** A readable cluster behind a full buffer: the readable part is too long. */
  lemma ReadablePartIsTooLong(v: Volume, bytes: seq<byte>, next: nat -> nat, whole: seq<nat>, c: nat)
    requires AtReadable(v, bytes, next, whole, MAX_DIR_CLUSTERS, c) && IsLive(v, true, c) && Readable(v, bytes, c)
    ensures |ReadablePart(v, bytes, whole)| == MAX_DIR_CLUSTERS + 1
  {
    ChainStep(v, next, true, whole, MAX_DIR_CLUSTERS + 1, MAX_DIR_CLUSTERS, c);
    ReadableEnds(v, bytes, whole, MAX_DIR_CLUSTERS + 1);
  }

  /**
   * The second pass: read the clusters of the chain, without looking at the cap. Its result is undefined when it
   * reads a cluster for which the buffer has no room; then `inside` is false.
   */
  method ReadClusters(disk: Disk, v: Volume, cluster: nat, list: SearchSpace, buffer: array<byte>,
                      ghost next: nat -> nat, ghost whole: seq<nat>)
    returns (nbrClusters: nat, inside: bool)
    requires v.Valid(disk) && Shows(v, disk.sectorSize, disk.bytes, next) && Sorted(list.spans)
    requires AtCluster(v, next, true, whole, MAX_DIR_CLUSTERS + 1, 0, cluster)
    requires buffer.Length == v.clusterSize * Min(|whole|, MAX_DIR_CLUSTERS)
    modifies list, buffer
    ensures inside <==> |ReadablePart(v, disk.bytes, whole)| <= MAX_DIR_CLUSTERS
    ensures inside ==> nbrClusters <= |whole| && ReadablePart(v, disk.bytes, whole) == whole[..nbrClusters]
                       && HasRead(v, disk.bytes, whole[..nbrClusters], buffer[..], old(SpaceOf(list)), SpaceOf(list))
  {
    hide HasRead, Chain, ReadablePart, Shows;
    var nextCluster: nat := cluster;
    nbrClusters, inside := 0, true;
    NothingRead(v, disk.bytes, whole[..0], buffer[..], SpaceOf(list));
    while 2 <= nextCluster <= v.noOfCluster + 2 && !IsEoc(v.t, nextCluster)
      invariant inside && nbrClusters <= MAX_DIR_CLUSTERS
      invariant AtReadable(v, disk.bytes, next, whole, nbrClusters, nextCluster)
      invariant HasRead(v, disk.bytes, whole[..nbrClusters], buffer[..], old(SpaceOf(list)), SpaceOf(list))
      decreases MAX_DIR_CLUSTERS - nbrClusters
    {
      ChainStep(v, next, true, whole, MAX_DIR_CLUSTERS + 1, nbrClusters, nextCluster);
      var ok;
      if nbrClusters == MAX_DIR_CLUSTERS {
        ok := ReadBeyond(disk, v, nextCluster);
        if ok {
          ReadablePartIsTooLong(v, disk.bytes, next, whole, nextCluster);
          return nbrClusters, false;
        }
      } else {
        RoomForOneMore(v.clusterSize, nbrClusters, Min(|whole|, MAX_DIR_CLUSTERS));
        ok := ReadOne(disk, v, buffer, nbrClusters, nextCluster, list, whole[..nbrClusters], old(SpaceOf(list)));
      }
      if !ok {
        break;
      }
      nbrClusters := nbrClusters + 1;
      nextCluster := Follow(disk, v, nextCluster, next);
      if nextCluster == 0 {
        break;
      }
    }
    ReadablePartSeen(v, disk.bytes, next, whole, nbrClusters, nextCluster);
  }

  /** Within the buffer, what is read is the readable part of the chain that has been counted. */
  lemma CapIsEnough(v: Volume, bytes: seq<byte>, next: nat -> nat, c: nat)
    requires StaysInBuffer(v, bytes, next, c)
    ensures ReadablePart(v, bytes, Chain(v, next, true, c, MAX_DIR_CLUSTERS + 1)) == DirChain(v, bytes, next, c)
  {
    var long, short := Chain(v, next, true, c, MAX_DIR_CLUSTERS + 1), Chain(v, next, true, c, MAX_DIR_CLUSTERS);
    CapsAgree(v, next, true, c, MAX_DIR_CLUSTERS, MAX_DIR_CLUSTERS + 1);
    ReadablePartIsPrefix(v, bytes, long);
    ReadableBeginning(v, bytes, long, |short|);
  }

  lemma ReadableBeginning(v: Volume, bytes: seq<byte>, chain: seq<nat>, n: nat)
    requires |ReadablePart(v, bytes, chain)| <= n <= |chain|
    ensures ReadablePart(v, bytes, chain) == ReadablePart(v, bytes, chain[..n])
  {
    var k := |ReadablePart(v, bytes, chain)|;
    ReadablePartIsPrefix(v, bytes, chain);
    assert chain[..n][..k] == chain[..k];
    ReadableEnds(v, bytes, chain[..n], k);
  }

  /** The readable part is the longest readable beginning. */
  lemma {:induction false} ReadablePartIsPrefix(v: Volume, bytes: seq<byte>, chain: seq<nat>)
    ensures var k := |ReadablePart(v, bytes, chain)|;
            && k <= |chain| && ReadablePart(v, bytes, chain) == chain[..k] && AllReadable(v, bytes, chain[..k])
            && (k < |chain| ==> !Readable(v, bytes, chain[k]))
  {
    if chain != [] && Readable(v, bytes, chain[0]) {
      ReadablePartIsPrefix(v, bytes, chain[1..]);
      var k := |ReadablePart(v, bytes, chain[1..])|;
      assert chain[..k + 1] == [chain[0]] + chain[1..][..k];
    }
  }

  /** Copy the clusters that have been read out of the buffer. */
  method Filled(v: Volume, ghost bytes: seq<byte>, buffer: array<byte>, nbr: nat, ghost chain: seq<nat>,
                ghost prior: Space, ghost later: Space)
    returns (content: seq<byte>)
    requires 0 < v.clusterSize && |chain| == nbr && HasRead(v, bytes, chain, buffer[..], prior, later)
    ensures content == Contents(v, bytes, chain)
  {
    var size := v.clusterSize * nbr;
    content := buffer[..size];
    assert content == buffer[..][..size];
  }

  /** kf_fat_read_dir_chain; `inside` is false when it reads behind its buffer. */
  method KfFatReadDirChain(disk: Disk, v: Volume, cluster: nat, list: SearchSpace, ghost next: nat -> nat)
    returns (dir: Option<seq<byte>>, inside: bool)
    requires v.Valid(disk) && Sorted(list.spans) && Shows(v, disk.sectorSize, disk.bytes, next)
    modifies list
    ensures inside <==> StaysInBuffer(v, disk.bytes, next, cluster)
    ensures inside ==>
              var chain := DirChain(v, disk.bytes, next, cluster);
              && dir == (if chain == [] then None else Some(Contents(v, disk.bytes, chain)))
              && TakenOut(old(SpaceOf(list)), v, chain, SpaceOf(list))
  {
    ghost var whole := Chain(v, next, true, cluster, MAX_DIR_CLUSTERS + 1);
    CapsAgree(v, next, true, cluster, MAX_DIR_CLUSTERS, MAX_DIR_CLUSTERS + 1);
    assert SpansOf(v, []) == [];
    var nbrClusters := CountClusters(disk, v, cluster, next);
    if nbrClusters == 0 {
      return None, true;
    }
    var buffer := new byte[v.clusterSize * nbrClusters](_ => 0);
    nbrClusters, inside := ReadClusters(disk, v, cluster, list, buffer, next, whole);
    dir := None;
    if inside {
      CapIsEnough(v, disk.bytes, next, cluster);
      if nbrClusters != 0 {
        var content := Filled(v, disk.bytes, buffer, nbrClusters, whole[..nbrClusters], old(SpaceOf(list)), SpaceOf(list));
        dir := Some(content);
      }
    }
  }
}
