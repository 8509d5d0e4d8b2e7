/** fat_copy: copying a listed file, by its chain, by the next free clusters or simply by the next clusters. */
module FatCopy {
  import opened Arith
  import opened Bytes
  import opened Disks
  import opened FatTable
  import opened FatChains
  import opened FatRecovery
  import opened Seqs

  datatype Method = FollowCluster | NextFreeCluster | NextCluster

  /** is_EOC: the eight values that mark the end of a chain. */
  predicate IsEndMark(t: FatType, cluster: nat) {
    match t
    case FAT12 => cluster / 8 % 0x200 == 0x1FF
    case FAT16 => cluster / 8 % 0x2000 == 0x1FFF
    case _ => cluster / 8 % 0x200_0000 == 0x1FF_FFFF
  }

  /** The first cluster from c on that is free, or the end of the volume. */
  ghost function FirstFree(v: Volume, next: nat -> nat, c: nat): nat
    decreases v.noOfCluster + 2 - c
  {
    if c < v.noOfCluster + 2 && next(c) != 0 then FirstFree(v, next, c + 1) else c
  }

  ghost function MethodAfter(v: Volume, next: nat -> nat, first: nat, m: Method, c: nat): Method {
    if m != FollowCluster || InRange(v, next(c)) then m
    else if c == first && next(c) == 0 then NextFreeCluster
    else NextCluster
  }

  ghost function ClusterAfter(v: Volume, next: nat -> nat, first: nat, m: Method, c: nat): nat {
    match MethodAfter(v, next, first, m, c)
    case FollowCluster => next(c)
    case NextFreeCluster => FirstFree(v, next, c + 1)
    case NextCluster => c + 1
  }

  /** The clusters that are copied for a file of k blocks. */
  ghost function Trail(v: Volume, next: nat -> nat, first: nat, m: Method, c: nat, k: nat): (r: seq<nat>)
    ensures |r| <= k
    decreases k
  {
    if k == 0 || !InRange(v, c) then []
    else if k == 1 then [c]
    else [c] + Trail(v, next, first, MethodAfter(v, next, first, m, c), ClusterAfter(v, next, first, m, c), k - 1)
  }

  /** The copying has come to its k-th cluster. */
  ghost predicate OnTrail(v: Volume, next: nat -> nat, first: nat, whole: seq<nat>, blocks: nat, k: nat, m: Method, c: nat) {
    k <= |whole| && k <= blocks && whole[k..] == Trail(v, next, first, m, c, blocks - k)
  }

  lemma TrailStep(v: Volume, next: nat -> nat, first: nat, whole: seq<nat>, blocks: nat, k: nat, m: Method, c: nat)
    requires OnTrail(v, next, first, whole, blocks, k, m, c) && k < blocks
    ensures InRange(v, c) ==> k < |whole| && whole[k] == c
    ensures !InRange(v, c) ==> k == |whole|
    ensures InRange(v, c) && k + 1 < blocks ==>
              OnTrail(v, next, first, whole, blocks, k + 1, MethodAfter(v, next, first, m, c), ClusterAfter(v, next, first, m, c))
    ensures InRange(v, c) && k + 1 == blocks ==> k + 1 == |whole|
  {
    if InRange(v, c) {
      assert whole[k..][0] == c && whole[k..][1..] == whole[k + 1..];
    }
  }

  /** The bytes that fat_copy writes. */
  ghost function TrailCopy(v: Volume, bytes: seq<byte>, got: Delivery, next: nat -> nat, first: nat, size: nat): seq<byte>
    requires 0 < v.clusterSize
  {
    Copied(v, bytes, got, Trail(v, next, first, FollowCluster, first, Blocks(size, v.clusterSize)), size)
  }

  ghost predicate PartlyCopied(v: Volume, bytes: seq<byte>, got: Delivery, whole: seq<nat>, k: nat, left: nat,
                               data: seq<byte>, copy: seq<byte>)
  {
    k <= |whole| && copy == data + Copied(v, bytes, got, whole[k..], left)
  }

  /** Copy one block; false if it does not fit. */
  method CopyBlock(disk: Disk, v: Volume, got: Delivery, cluster: nat, left: nat, buffer: array<byte>, out: OutFile,
                   ghost whole: seq<nat>, ghost k: nat, ghost copy: seq<byte>)
    returns (n: nat, ok: bool)
    requires 0 < v.clusterSize && 0 < left && |out.data| <= out.room && k < |whole| && whole[k] == cluster
    requires PartlyCopied(v, disk.bytes, got, whole, k, left, out.data, copy) && buffer.Length == v.clusterSize
    modifies buffer, out`data
    ensures n == Min(left, v.clusterSize) && |out.data| <= out.room
    ensures ok ==> PartlyCopied(v, disk.bytes, got, whole, k + 1, left - n, out.data, copy)
    ensures !ok ==> |out.data| == out.room < |copy| && out.data == copy[..out.room]
  {
    n := if v.clusterSize > left then left else v.clusterSize;
    CopiedStep(v, disk.bytes, got, whole, k, left);
    disk.PreadAnyhow(buffer, n, StartOf(v, cluster), got);
    ghost var read := Delivered(disk.bytes, got, StartOf(v, cluster), n);
    Associate(out.data, read, Copied(v, disk.bytes, got, whole[k + 1..], left - n));
    assert buffer[..n] == read;
    var written := out.Write(buffer, n);
    ok := written == n;
    assert buffer[..written] == read[..written];
  }

  /** ++cluster until a free one or the end of the volume. */
  method SkipToFree(disk: Disk, v: Volume, from: nat, ghost next: nat -> nat) returns (cluster: nat)
    requires v.Valid(disk) && Shows(v, disk.sectorSize, disk.bytes, next)
    ensures cluster == FirstFree(v, next, from + 1)
  {
    cluster := from + 1;
    while cluster < v.noOfCluster + 2
      invariant from < cluster && FirstFree(v, next, cluster) == FirstFree(v, next, from + 1)
      decreases v.noOfCluster + 2 - cluster
    {
      var n := Follow(disk, v, cluster, next);
      if n == 0 {
        break;
      }
      cluster := cluster + 1;
    }
  }

  /** The choice of the next cluster. */
  method Advance(disk: Disk, v: Volume, first: nat, m: Method, c: nat, ghost next: nat -> nat)
    returns (m': Method, c': nat)
    requires v.Valid(disk) && Shows(v, disk.sectorSize, disk.bytes, next)
    ensures m' == MethodAfter(v, next, first, m, c) && c' == ClusterAfter(v, next, first, m, c)
  {
    m', c' := m, c;
    if m == FollowCluster {
      var nextCluster := Follow(disk, v, c, next);
      if 2 <= nextCluster <= v.noOfCluster + 2 {
        c' := nextCluster;
      } else if c == first && nextCluster == 0 {
        m' := NextFreeCluster;
      } else {
        m' := NextCluster;
      }
    }
    if m' == NextCluster {
      c' := c + 1;
    } else if m' == NextFreeCluster {
      c' := SkipToFree(disk, v, c, next);
    }
  }

  /** One round of the loop keeps the copy on its trail. */
  ghost predicate OnItsWay(v: Volume, next: nat -> nat, first: nat, whole: seq<nat>, blocks: nat, k: nat, m: Method, c: nat,
                           left: nat)
    requires 0 < v.clusterSize
  {
    && k <= blocks && Blocks(left, v.clusterSize) == blocks - k
    && (if left > 0 then OnTrail(v, next, first, whole, blocks, k, m, c) else k == |whole|)
  }

  lemma WayGoesOn(v: Volume, next: nat -> nat, first: nat, whole: seq<nat>, blocks: nat, k: nat, m: Method, c: nat, left: nat)
    requires 0 < v.clusterSize && 0 < left && OnItsWay(v, next, first, whole, blocks, k, m, c, left)
    ensures !InRange(v, c) ==> k == |whole|
    ensures InRange(v, c) ==> k < |whole| && whole[k] == c
    ensures InRange(v, c) ==>
              var l := left - Min(left, v.clusterSize);
              if l > 0 then OnItsWay(v, next, first, whole, blocks, k + 1, MethodAfter(v, next, first, m, c),
                                     ClusterAfter(v, next, first, m, c), l)
              else OnItsWay(v, next, first, whole, blocks, k + 1, m, c, l)
  {
    BlocksStep(left, v.clusterSize);
    TrailStep(v, next, first, whole, blocks, k, m, c);
  }

  lemma AllCopied(v: Volume, bytes: seq<byte>, got: Delivery, whole: seq<nat>, left: nat, data: seq<byte>, copy: seq<byte>)
    requires PartlyCopied(v, bytes, got, whole, |whole|, left, data, copy)
    ensures data == copy
  {
  }

  method CopyTrail(disk: Disk, v: Volume, got: Delivery, first: nat, size: nat, out: OutFile, ghost next: nat -> nat,
                   ghost whole: seq<nat>, ghost copy: seq<byte>)
    returns (status: Status)
    requires v.Valid(disk) && Shows(v, disk.sectorSize, disk.bytes, next) && out.data == []
    requires OnItsWay(v, next, first, whole, Blocks(size, v.clusterSize), 0, FollowCluster, first, size)
    requires PartlyCopied(v, disk.bytes, got, whole, 0, size, [], copy)
    modifies out`data
    ensures status == (if |copy| <= out.room then Ok else NoSpace) && out.data == copy[..Min(|copy|, out.room)]
  {
    ghost var blocks := Blocks(size, v.clusterSize);
    ghost var k: nat := 0;
    var buffer := new byte[v.clusterSize](_ => 0);
    var cluster: nat, fileSize: nat, fatMeth := first, size, FollowCluster;
    while 2 <= cluster <= v.noOfCluster + 2 && fileSize > 0
      invariant OnItsWay(v, next, first, whole, blocks, k, fatMeth, cluster, fileSize)
      invariant PartlyCopied(v, disk.bytes, got, whole, k, fileSize, out.data, copy)
      invariant |out.data| <= out.room
      decreases fileSize
    {
      WayGoesOn(v, next, first, whole, blocks, k, fatMeth, cluster, fileSize);
      var n, ok := CopyBlock(disk, v, got, cluster, fileSize, buffer, out, whole, k, copy);
      if !ok {
        return NoSpace;
      }
      k, fileSize := k + 1, fileSize - n;
      if fileSize > 0 {
        fatMeth, cluster := Advance(disk, v, first, fatMeth, cluster, next);
      }
    }
    if fileSize > 0 {
      WayGoesOn(v, next, first, whole, blocks, k, fatMeth, cluster, fileSize);
    }
    AllCopied(v, disk.bytes, got, whole, fileSize, out.data, copy);
    status := Ok;
  }

  /** fat_copy, once the output file has been created; what a read delivers does not matter to it. */
  method CopyFile(disk: Disk, v: Volume, got: Delivery, first: nat, size: nat, out: OutFile, ghost next: nat -> nat)
    returns (status: Status)
    requires v.Valid(disk) && Shows(v, disk.sectorSize, disk.bytes, next) && out.data == []
    modifies out`data
    ensures var copy := TrailCopy(v, disk.bytes, got, next, first, size);
            status == (if |copy| <= out.room then Ok else NoSpace) && out.data == copy[..Min(|copy|, out.room)]
  {
    ghost var whole := Trail(v, next, first, FollowCluster, first, Blocks(size, v.clusterSize));
    assert whole[0..] == whole;
    status := CopyTrail(disk, v, got, first, size, out, next, whole, TrailCopy(v, disk.bytes, got, next, first, size));
  }

  /** The disk offset of a cluster as fat_copy computes it: the product has 32 bits. */
  function AddressInCopy(part: nat, startData: nat, perCluster: nat, sectorSize: nat, c: nat): nat
    requires 2 <= c
  {
    part + (startData + (c - 2) * perCluster % 0x1_0000_0000) * sectorSize
  }

  /** On a volume with a 32-bit number of sectors it is the start of the cluster, also of the one behind the volume. */
  lemma AddressInCopyIsStart(v: Volume, part: nat, partSize: nat, startData: nat, perCluster: nat, sectorSize: nat, c: nat)
    requires 0 < perCluster && startData <= partSize < 0x1_0000_0000 && InRange(v, c)
    requires v.noOfCluster == (partSize - startData) / perCluster
    requires v.startData == part + startData * sectorSize && v.clusterSize == perCluster * sectorSize
    ensures AddressInCopy(part, startData, perCluster, sectorSize, c) == StartOf(v, c)
  {
    var size := partSize - startData;
    ProductFits(v.noOfCluster, size % perCluster, perCluster, size, c - 2);
    Distribute(startData, c - 2, perCluster, sectorSize);
  }

  /** Elsewhere it is not, exactly from the first product beyond 32 bits on. */
  lemma AddressInCopyIsStartIff(v: Volume, part: nat, startData: nat, perCluster: nat, sectorSize: nat, c: nat)
    requires 2 <= c && 0 < sectorSize
    requires v.startData == part + startData * sectorSize && v.clusterSize == perCluster * sectorSize
    ensures AddressInCopy(part, startData, perCluster, sectorSize, c) == StartOf(v, c) <==> (c - 2) * perCluster < 0x1_0000_0000
  {
    var x := (c - 2) * perCluster;
    Distribute(startData, c - 2, perCluster, sectorSize);
    ShorterProduct(startData + x % 0x1_0000_0000, startData + x, sectorSize);
  }

  lemma ShorterProduct(a: nat, b: nat, k: nat)
    requires 0 < k && a <= b
    ensures a * k == b * k <==> a == b
  {
    MulMonotone(k, a, b);
    assert k * a == a * k && k * b == b * k;
  }

  lemma ProductFits(q: nat, r: nat, perCluster: nat, size: nat, k: nat)
    requires size == perCluster * q + r && size < 0x1_0000_0000 && k <= q
    ensures k * perCluster % 0x1_0000_0000 == k * perCluster
  {
    MulMonotone(perCluster, k, q);
    assert k * perCluster == perCluster * k;
  }

  // ----- which clusters the trail visits -----

  /** is_EOC and kf_fat_is_eoc test differently but agree on everything that an entry can hold. */
  lemma EndMarksAgree(t: FatType, cluster: nat)
    requires t != NotFat
    requires cluster < (match t case FAT12 => 0x1000 case FAT16 => 0x1_0000 case _ => 0x1000_0000)
    ensures IsEndMark(t, cluster) <==> IsEoc(t, cluster)
  {
  }

  /** A chain that is long enough for the file is copied as it is. */
  lemma {:induction false} CompleteChainIsCopied(v: Volume, next: nat -> nat, first: nat, c: nat, k: nat)
    requires |Chain(v, next, false, c, k)| == k
    ensures Trail(v, next, first, FollowCluster, c, k) == Chain(v, next, false, c, k)
    decreases k
  {
    if k > 1 {
      var rest := Chain(v, next, false, next(c), k - 1);
      assert rest[0] == next(c);
      CompleteChainIsCopied(v, next, first, next(c), k - 1);
    } else if k == 1 {
      assert Chain(v, next, false, next(c), 0) == [];
    }
  }

  /** So the copy of such a file is the contents of its clusters, cut to its size. */
  lemma CompleteFileIsCopied(v: Volume, bytes: seq<byte>, got: Delivery, next: nat -> nat, first: nat, size: nat)
    requires 0 < v.clusterSize
    requires var chain := Chain(v, next, false, first, Blocks(size, v.clusterSize));
             |chain| == Blocks(size, v.clusterSize) && AllReadable(v, bytes, chain) && AllDelivered(v, got, chain)
    ensures var whole := Contents(v, bytes, Chain(v, next, false, first, Blocks(size, v.clusterSize)));
            TrailCopy(v, bytes, got, next, first, size) == whole[..Min(size, |whole|)]
  {
    var k := Blocks(size, v.clusterSize);
    CompleteChainIsCopied(v, next, first, first, k);
    CopiedIsContents(v, bytes, got, Chain(v, next, false, first, k), size);
  }

  /** Without a trustworthy chain the clusters follow one another, up to the one behind the last cluster. */
  lemma {:induction false} NextClustersAreConsecutive(v: Volume, next: nat -> nat, first: nat, c: nat, k: nat)
    requires 2 <= c <= v.noOfCluster + 3
    ensures var r := Trail(v, next, first, NextCluster, c, k);
            |r| == Min(k, v.noOfCluster + 3 - c) && forall i :: 0 <= i < |r| ==> r[i] == c + i
    decreases k
  {
    if k > 1 && InRange(v, c) {
      NextClustersAreConsecutive(v, next, first, c + 1, k - 1);
    }
  }

  predicate IsFree(v: Volume, next: nat -> nat, after: nat, c: nat) {
    after < c < v.noOfCluster + 2 && next(c) == 0
  }

  lemma {:induction false} FirstFreeIsFirst(v: Volume, next: nat -> nat, c: nat)
    requires c <= v.noOfCluster + 2
    ensures var f := FirstFree(v, next, c);
            && c <= f <= v.noOfCluster + 2
            && (f < v.noOfCluster + 2 ==> next(f) == 0)
            && forall x :: c <= x < f ==> next(x) != 0
    decreases v.noOfCluster + 2 - c
  {
    if c < v.noOfCluster + 2 && next(c) != 0 {
      FirstFreeIsFirst(v, next, c + 1);
    }
  }

  /** The free clusters behind `after`, in ascending order, none left out, at most k of them. */
  ghost predicate AreNextFree(v: Volume, next: nat -> nat, after: nat, k: nat, free: seq<nat>) {
    && |free| <= k
    && (forall i :: 0 <= i < |free| ==> IsFree(v, next, after, free[i]))
    && (forall i, j :: 0 <= i < j < |free| ==> free[i] < free[j])
    && (forall x: nat :: IsFree(v, next, after, x) ==> x in free || (|free| == k && forall i :: 0 <= i < k ==> free[i] < x))
  }

  lemma FreeBehindFirst(v: Volume, next: nat -> nat, after: nat, k: nat, rest: seq<nat>)
    requires after < v.noOfCluster + 2 && 0 < k
    requires var f := FirstFree(v, next, after + 1); f < v.noOfCluster + 2 && AreNextFree(v, next, f, k - 1, rest)
    ensures AreNextFree(v, next, after, k, [FirstFree(v, next, after + 1)] + rest)
  {
    FirstFreeIsFirst(v, next, after + 1);
    var f := FirstFree(v, next, after + 1);
    var free := [f] + rest;
    forall i | 0 <= i < |free|
      ensures IsFree(v, next, after, free[i]) && f <= free[i]
    {
      assert i > 0 ==> IsFree(v, next, f, rest[i - 1]);
    }
    forall x: nat | IsFree(v, next, after, x)
      ensures x in free || (|free| == k && forall i :: 0 <= i < k ==> free[i] < x)
    {
      assert x > f ==> IsFree(v, next, f, x);
      assert x in rest ==> x in free;
    }
  }

  lemma NoneIsFree(v: Volume, next: nat -> nat, after: nat, k: nat)
    ensures k == 0 || FirstFree(v, next, after + 1) >= v.noOfCluster + 2 ==> AreNextFree(v, next, after, k, [])
  {
    if after + 1 <= v.noOfCluster + 2 {
      FirstFreeIsFirst(v, next, after + 1);
    }
  }

  /**
   * A deleted file, whose first entry is 0, is copied as its first cluster and the next free clusters in ascending
   * order. When they run out, the cluster behind the last one of the volume is copied as well.
   */
  lemma {:induction false} FreeClustersAreCopied(v: Volume, next: nat -> nat, first: nat, c: nat, k: nat)
    returns (free: seq<nat>)
    requires 2 <= c < v.noOfCluster + 2 && 0 < k
    ensures AreNextFree(v, next, c, k - 1, free)
    ensures Trail(v, next, first, NextFreeCluster, c, k)
            == [c] + free + if |free| < k - 1 then [v.noOfCluster + 2] else []
    decreases k
  {
    hide AreNextFree;
    FirstFreeIsFirst(v, next, c + 1);
    NoneIsFree(v, next, c, k - 1);
    var f := FirstFree(v, next, c + 1);
    free := [];
    if k > 1 {
      if f < v.noOfCluster + 2 {
        var rest := FreeClustersAreCopied(v, next, first, f, k - 1);
        FreeBehindFirst(v, next, c, k - 1, rest);
        free := [f] + rest;
      } else {
        assert Trail(v, next, first, NextFreeCluster, f, k - 1) == [f] by {
          assert FirstFree(v, next, f + 1) == f + 1;
        }
      }
    }
  }

  lemma DeletedFileIsCopied(v: Volume, next: nat -> nat, first: nat, k: nat) returns (free: seq<nat>)
    requires 2 <= first < v.noOfCluster + 2 && next(first) == 0 && 0 < k
    ensures AreNextFree(v, next, first, k - 1, free)
    ensures Trail(v, next, first, FollowCluster, first, k)
            == [first] + free + if |free| < k - 1 then [v.noOfCluster + 2] else []
  {
    free := FreeClustersAreCopied(v, next, first, first, k);
    assert MethodAfter(v, next, first, FollowCluster, first) == MethodAfter(v, next, first, NextFreeCluster, first);
  }

  // ----- the methods along the way -----

  datatype State = State(m: Method, c: nat)

  /** The state after i steps. */
  ghost function StateAfter(v: Volume, next: nat -> nat, first: nat, i: nat): State {
    if i == 0 then State(FollowCluster, first)
    else
      var s := StateAfter(v, next, first, i - 1);
      State(MethodAfter(v, next, first, s.m, s.c), ClusterAfter(v, next, first, s.m, s.c))
  }

  /** The method changes at most once: away from following the chain, and never back. */
  lemma {:induction false} MethodChangesOnce(v: Volume, next: nat -> nat, first: nat, i: nat, j: nat)
    requires i <= j && StateAfter(v, next, first, i).m != FollowCluster
    ensures StateAfter(v, next, first, j).m == StateAfter(v, next, first, i).m
    decreases j
  {
    if i < j {
      MethodChangesOnce(v, next, first, i, j - 1);
    }
  }

  /** The copied clusters are those of the states. */
  lemma {:induction false} TrailIsStates(v: Volume, next: nat -> nat, first: nat, i: nat, k: nat, n: nat)
    requires var s := StateAfter(v, next, first, i); n < |Trail(v, next, first, s.m, s.c, k)|
    ensures var s := StateAfter(v, next, first, i);
            Trail(v, next, first, s.m, s.c, k)[n] == StateAfter(v, next, first, i + n).c
    decreases n
  {
    if n > 0 {
      TrailIsStates(v, next, first, i + 1, k - 1, n - 1);
      assert i + n == i + 1 + (n - 1);
    }
  }
}
