/** kf_fat_recover_file: copying the clusters of one file to the destination. */
module FatRecovery {
  import opened Arith
  import opened Bytes
  import opened Disks
  import opened SearchSpaces
  import opened Seqs
  import opened FatChains

  /** The file being written, on a destination with room for a limited number of bytes. */
  class OutFile {
    const room: nat
    var data: seq<byte>

    constructor (room: nat)
      ensures this.room == room && data == []
    {
      this.room, data := room, [];
    }

    /** fwrite: all the bytes, or as many as still fit. */
    method Write(buffer: array<byte>, count: nat) returns (written: nat)
      requires count <= buffer.Length && |data| <= room
      modifies this`data
      ensures written == Min(count, room - |old(data)|)
      ensures data == old(data) + buffer[..written] && |data| <= room
    {
      written := if count <= room - |data| then count else room - |data|;
      data := data + buffer[..written];
    }
  }

  /** How many clusters a file of this size takes. */
  function Blocks(size: nat, clusterSize: nat): nat
    requires 0 < clusterSize
  {
    if size == 0 then 0 else if size <= clusterSize then 1 else 1 + Blocks(size - clusterSize, clusterSize)
  }

  /** The bytes that are written for the clusters of a file, `size` bytes being left: zeros for what cannot be read. */
  function Copied(v: Volume, bytes: seq<byte>, got: Delivery, chain: seq<nat>, size: nat): seq<byte> {
    if chain == [] then []
    else
      var n := if size < v.clusterSize then size else v.clusterSize;
      Delivered(bytes, got, StartOf(v, chain[0]), n) + Copied(v, bytes, got, chain[1..], size - n)
  }

  /** Cutting two pieces together, or one after the other. */
  lemma CutTwoPieces(a: seq<byte>, b: seq<byte>, size: nat)
    requires 0 < |a| && (size < |a| ==> b == [])
    ensures var n := Min(size, |a|);
            (a + b)[..Min(size, |a + b|)] == a[..n] + b[..Min(size - n, |b|)]
  {
  }

  predicate DeliversAll(got: Delivery, at: nat, count: nat) {
    forall x :: at <= x < at + count ==> got(at, x)
  }

  /** Is every byte of these clusters delivered? */
  predicate AllDelivered(v: Volume, got: Delivery, chain: seq<nat>) {
    forall i :: 0 <= i < |chain| ==> DeliversAll(got, StartOf(v, chain[i]), v.clusterSize)
  }

  lemma DeliveredIsBeginning(v: Volume, bytes: seq<byte>, got: Delivery, c: nat, n: nat)
    requires n <= v.clusterSize && Readable(v, bytes, c) && DeliversAll(got, StartOf(v, c), v.clusterSize)
    ensures Delivered(bytes, got, StartOf(v, c), n) == ClusterBytes(v, bytes, c)[..n]
  {
  }

  /** With every cluster readable, the file is the contents of the chain cut to its size. */
  lemma {:induction false} CopiedIsContents(v: Volume, bytes: seq<byte>, got: Delivery, chain: seq<nat>, size: nat)
    requires 0 < v.clusterSize && AllReadable(v, bytes, chain) && AllDelivered(v, got, chain)
    requires |chain| <= Blocks(size, v.clusterSize)
    ensures var whole := Contents(v, bytes, chain);
            Copied(v, bytes, got, chain, size) == whole[..Min(size, |whole|)]
  {
    hide Readable, ClusterBytes, DeliversAll;
    if chain != [] {
      var n := Min(size, v.clusterSize);
      DeliveredIsBeginning(v, bytes, got, chain[0], n);
      CopiedIsContents(v, bytes, got, chain[1..], size - n);
      CutTwoPieces(ClusterBytes(v, bytes, chain[0]), Contents(v, bytes, chain[1..]), size);
    }
  }

  /** Where the i-th block of a file begins. */
  function BlockAt(clusterSize: nat, i: nat): nat {
    if i == 0 then 0 else clusterSize + BlockAt(clusterSize, i - 1)
  }

  lemma {:induction false} BlockAtIsProduct(clusterSize: nat, i: nat)
    ensures BlockAt(clusterSize, i) == clusterSize * i
  {
    if i > 0 {
      BlockAtIsProduct(clusterSize, i - 1);
    }
  }

  lemma CopiedOneMore(v: Volume, bytes: seq<byte>, got: Delivery, chain: seq<nat>, size: nat)
    requires chain != []
    ensures var n := Min(size, v.clusterSize);
            Copied(v, bytes, got, chain, size)
            == Delivered(bytes, got, StartOf(v, chain[0]), n) + Copied(v, bytes, got, chain[1..], size - n)
  {
  }

  lemma {:induction false} ByteOfBlock(v: Volume, bytes: seq<byte>, got: Delivery, chain: seq<nat>, size: nat, i: nat, j: nat)
    requires i < |chain| && j < v.clusterSize && BlockAt(v.clusterSize, i) + j < size
    ensures var copy, at := Copied(v, bytes, got, chain, size), StartOf(v, chain[i]);
            && BlockAt(v.clusterSize, i) + j < |copy|
            && copy[BlockAt(v.clusterSize, i) + j] == DeliveredByte(bytes, got, at, at + j)
  {
    hide DeliveredByte, StartOf, Copied;
    CopiedOneMore(v, bytes, got, chain, size);
    if i > 0 {
      ByteOfBlock(v, bytes, got, chain[1..], size - v.clusterSize, i - 1, j);
      var first := Delivered(bytes, got, StartOf(v, chain[0]), v.clusterSize);
      var rest := Copied(v, bytes, got, chain[1..], size - v.clusterSize);
      BehindFirst(first, rest, BlockAt(v.clusterSize, i - 1) + j);
    }
  }

  lemma BehindFirst(first: seq<byte>, rest: seq<byte>, k: nat)
    requires k < |rest|
    ensures (first + rest)[|first| + k] == rest[k]
  {
  }

  /** Where a cluster cannot be read, in part or at all, the file has zeros for what is missing. */
  lemma CopiedByte(v: Volume, bytes: seq<byte>, got: Delivery, chain: seq<nat>, size: nat, i: nat, j: nat)
    requires i < |chain| && j < v.clusterSize && v.clusterSize * i + j < size
    ensures var copy, at := Copied(v, bytes, got, chain, size), StartOf(v, chain[i]);
            && v.clusterSize * i + j < |copy|
            && copy[v.clusterSize * i + j] == DeliveredByte(bytes, got, at, at + j)
  {
    hide Copied, DeliveredByte, StartOf;
    BlockAtIsProduct(v.clusterSize, i);
    ByteOfBlock(v, bytes, got, chain, size, i, j);
  }

  datatype Status = Ok | Stopped | NoAccess | NoSpace

  /** k clusters of a file have been copied; `left` bytes are still to come. */
  ghost predicate HasCopied(v: Volume, bytes: seq<byte>, got: Delivery, chain: seq<nat>, k: nat, left: nat,
                            data: seq<byte>, copy: seq<byte>, prior: Space, later: Space)
    requires 0 < v.clusterSize
  {
    && k <= |chain| && copy == data + Copied(v, bytes, got, chain[k..], left)
    && (left > 0 ==> |data| == v.clusterSize * k)
    && TakenOut(prior, v, chain[..k], later)
  }

  lemma CopiedStep(v: Volume, bytes: seq<byte>, got: Delivery, chain: seq<nat>, k: nat, left: nat)
    requires k < |chain|
    ensures var n := Min(left, v.clusterSize);
            Copied(v, bytes, got, chain[k..], left)
            == Delivered(bytes, got, StartOf(v, chain[k]), n) + Copied(v, bytes, got, chain[k + 1..], left - n)
  {
    hide Delivered;
    assert chain[k..][0] == chain[k] && chain[k..][1..] == chain[k + 1..];
  }

  lemma OneMoreCopied(v: Volume, bytes: seq<byte>, got: Delivery, chain: seq<nat>, k: nat, left: nat, data: seq<byte>,
                      copy: seq<byte>, prior: Space, mid: Space, later: Space)
    requires 0 < v.clusterSize && 0 < left && k < |chain|
    requires HasCopied(v, bytes, got, chain, k, left, data, copy, prior, mid)
    requires TakenOut(prior, v, chain[..k] + [chain[k]], later)
    ensures var n := Min(left, v.clusterSize);
            HasCopied(v, bytes, got, chain, k + 1, left - n,
                      data + Delivered(bytes, got, StartOf(v, chain[k]), n), copy, prior, later)
  {
    hide Delivered;
    var n := Min(left, v.clusterSize);
    CopiedStep(v, bytes, got, chain, k, left);
    Associate(data, Delivered(bytes, got, StartOf(v, chain[k]), n), Copied(v, bytes, got, chain[k + 1..], left - n));
    assert chain[..k] + [chain[k]] == chain[..k + 1];
    OneMoreBlock(v.clusterSize, k, left);
  }

  lemma OneMoreBlock(size: nat, k: nat, left: nat)
    ensures left > Min(left, size) ==> size * k + Min(left, size) == size * (k + 1)
  {
  }

  lemma DestinationIsFull(v: Volume, bytes: seq<byte>, got: Delivery, chain: seq<nat>, k: nat, left: nat, data: seq<byte>,
                          copy: seq<byte>, prior: Space, mid: Space, written: nat)
    requires 0 < v.clusterSize && 0 < left && k < |chain| && written < Min(left, v.clusterSize)
    requires HasCopied(v, bytes, got, chain, k, left, data, copy, prior, mid)
    ensures var full := data + Delivered(bytes, got, StartOf(v, chain[k]), Min(left, v.clusterSize))[..written];
            |full| < |copy| && full == copy[..|full|]
    ensures |data| == v.clusterSize * k
  {
    CopiedStep(v, bytes, got, chain, k, left);
  }

  /** Is this the outcome of copying a file to a destination with limited room? */
  ghost predicate IsCopied(v: Volume, chain: seq<nat>, copy: seq<byte>, room: nat, status: Status, copied: nat,
                           data: seq<byte>, prior: Space, later: Space)
    requires 0 < v.clusterSize
  {
    && copied <= |chain| && TakenOut(prior, v, chain[..copied], later)
    && (status == Ok ==> |copy| <= room && data == copy && copied == |chain|)
    && (status == NoSpace ==> room < |copy| && data == copy[..room]
                              && v.clusterSize * copied <= room < v.clusterSize * copied + v.clusterSize)
  }

  /** Copy the k-th cluster of a file; false if it does not fit. */
  method CopyCluster(disk: Disk, v: Volume, got: Delivery, cluster: nat, ghost k: nat, left: nat, buffer: array<byte>,
                     out: OutFile, list: SearchSpace, ghost chain: seq<nat>, ghost copy: seq<byte>, ghost prior: Space)
    returns (n: nat, ok: bool)
    requires 0 < v.clusterSize && 0 < left && |out.data| <= out.room
    requires HasCopied(v, disk.bytes, got, chain, k, left, out.data, copy, prior, SpaceOf(list))
    requires buffer.Length == v.clusterSize && k < |chain| && chain[k] == cluster
    modifies buffer, out`data, list
    ensures n == Min(left, v.clusterSize) && |out.data| <= out.room
    ensures ok ==> HasCopied(v, disk.bytes, got, chain, k + 1, left - n, out.data, copy, prior, SpaceOf(list))
    ensures !ok ==> IsCopied(v, chain, copy, out.room, NoSpace, k, out.data, prior, SpaceOf(list))
  {
    ghost var data := out.data;
    n := if left < v.clusterSize then left else v.clusterSize;
    disk.PreadAnyhow(buffer, n, StartOf(v, cluster), got);
    ghost var read := Delivered(disk.bytes, got, StartOf(v, cluster), n);
    assert buffer[..n] == read;
    var written := out.Write(buffer, n);
    ok := written == n;
    assert buffer[..written] == read[..written];
    if ok {
      TakeOut(list, v, cluster, chain[..k], prior);
      OneMoreCopied(v, disk.bytes, got, chain, k, left, data, copy, prior, old(SpaceOf(list)), SpaceOf(list));
    } else {
      DestinationIsFull(v, disk.bytes, got, chain, k, left, data, copy, prior, SpaceOf(list), written);
    }
  }

  lemma BlocksStep(left: nat, size: nat)
    requires 0 < size && 0 < left
    ensures Blocks(left, size) == 1 + Blocks(left - Min(left, size), size)
  {
  }

  /** What a file of this size, starting at this cluster, is copied as. */
  ghost function FileChain(v: Volume, next: nat -> nat, start: nat, size: nat): seq<nat>
    requires 0 < v.clusterSize
  {
    Chain(v, next, false, start, Blocks(size, v.clusterSize))
  }

  ghost function FileCopy(v: Volume, bytes: seq<byte>, got: Delivery, next: nat -> nat, start: nat, size: nat): seq<byte>
    requires 0 < v.clusterSize
  {
    Copied(v, bytes, got, FileChain(v, next, start, size), size)
  }

  /** The state of the loop in front of its k-th cluster. */
  ghost predicate AtRound(v: Volume, bytes: seq<byte>, got: Delivery, next: nat -> nat, chain: seq<nat>, cap: nat, k: nat,
                          cluster: nat, left: nat, data: seq<byte>, copy: seq<byte>, prior: Space, later: Space)
    requires 0 < v.clusterSize
  {
    && AtCluster(v, next, false, chain, cap, k, cluster) && k <= cap && Blocks(left, v.clusterSize) == cap - k
    && HasCopied(v, bytes, got, chain, k, left, data, copy, prior, later)
  }

  /** The body of the loop over the clusters of a file. */
  method CopyRound(disk: Disk, v: Volume, got: Delivery, cluster: nat, ghost k: nat, left: nat, buffer: array<byte>,
                   out: OutFile, list: SearchSpace, ghost next: nat -> nat, ghost chain: seq<nat>, ghost cap: nat,
                   ghost copy: seq<byte>, ghost prior: Space)
    returns (ok: bool, cluster': nat, left': nat)
    requires v.Valid(disk) && Shows(v, disk.sectorSize, disk.bytes, next) && |out.data| <= out.room
    requires InRange(v, cluster) && 0 < left && buffer.Length == v.clusterSize
    requires AtRound(v, disk.bytes, got, next, chain, cap, k, cluster, left, out.data, copy, prior, SpaceOf(list))
    modifies buffer, out`data, list
    ensures |out.data| <= out.room && left' < left
    ensures ok ==> AtRound(v, disk.bytes, got, next, chain, cap, k + 1, cluster', left', out.data, copy, prior,
                           SpaceOf(list))
    ensures !ok ==> IsCopied(v, chain, copy, out.room, NoSpace, k, out.data, prior, SpaceOf(list))
  {
    hide AtCluster, HasCopied, IsCopied, Shows, Blocks, Chain;
    BlocksStep(left, v.clusterSize);
    ChainStep(v, next, false, chain, cap, k, cluster);
    var n;
    n, ok := CopyCluster(disk, v, got, cluster, k, left, buffer, out, list, chain, copy, prior);
    left' := left - n;
    cluster' := cluster;
    if ok {
      cluster' := Follow(disk, v, cluster, next);
    }
  }

  /** The loop over the clusters of a file. */
  method CopyClusters(disk: Disk, v: Volume, got: Delivery, start: nat, size: nat, list: SearchSpace, out: OutFile,
                      ghost next: nat -> nat, ghost chain: seq<nat>, ghost copy: seq<byte>)
    returns (status: Status, ghost copied: nat)
    requires v.Valid(disk) && Shows(v, disk.sectorSize, disk.bytes, next) && Sorted(list.spans) && out.data == []
    requires AtCluster(v, next, false, chain, Blocks(size, v.clusterSize), 0, start)
    requires copy == Copied(v, disk.bytes, got, chain, size)
    modifies list, out`data
    ensures status == Ok || status == NoSpace
    ensures IsCopied(v, chain, copy, out.room, status, copied, out.data, old(SpaceOf(list)), SpaceOf(list))
  {
    ghost var prior := SpaceOf(list);
    ghost var cap := Blocks(size, v.clusterSize);
    copied := 0;
    var buffer := new byte[v.clusterSize](_ => 0);
    var cluster: nat, fileSize: nat := start, size;
    NothingCopied(v, disk.bytes, got, chain, size, prior);
    while 2 <= cluster <= v.noOfCluster + 2 && fileSize > 0
      invariant AtRound(v, disk.bytes, got, next, chain, cap, copied, cluster, fileSize, out.data, copy, prior,
                        SpaceOf(list))
      invariant |out.data| <= out.room
      decreases fileSize
    {
      var ok;
      ok, cluster, fileSize := CopyRound(disk, v, got, cluster, copied, fileSize, buffer, out, list, next, chain, cap,
                                         copy, prior);
      if !ok {
        return NoSpace, copied;
      }
      copied := copied + 1;
      if cluster == 0 {
        break;
      }
    }
    EndOfChain(v, next, chain, cap, copied, cluster, fileSize);
    EverythingCopied(v, disk.bytes, got, chain, copied, fileSize, out.data, copy, prior, SpaceOf(list));
    status := Ok;
  }

  lemma NothingTakenOut(prior: Space, v: Volume)
    requires 0 < v.clusterSize && Sorted(prior.spans)
    ensures TakenOut(prior, v, [], prior)
  {
    assert SpansOf(v, []) == [];
  }

  lemma NothingCopied(v: Volume, bytes: seq<byte>, got: Delivery, chain: seq<nat>, size: nat, prior: Space)
    requires 0 < v.clusterSize && Sorted(prior.spans)
    ensures HasCopied(v, bytes, got, chain, 0, size, [], Copied(v, bytes, got, chain, size), prior, prior)
  {
    hide Copied;
    NothingTakenOut(prior, v);
    assert chain[0..] == chain && chain[..0] == [];
  }

  lemma EverythingCopied(v: Volume, bytes: seq<byte>, got: Delivery, chain: seq<nat>, k: nat, left: nat,
                         data: seq<byte>, copy: seq<byte>, prior: Space, later: Space)
    requires 0 < v.clusterSize && k == |chain| && HasCopied(v, bytes, got, chain, k, left, data, copy, prior, later)
    ensures data == copy && TakenOut(prior, v, chain[..k], later)
  {
  }

  lemma EndOfChain(v: Volume, next: nat -> nat, chain: seq<nat>, cap: nat, k: nat, cluster: nat, left: nat)
    requires 0 < v.clusterSize && AtCluster(v, next, false, chain, cap, k, cluster)
    requires Blocks(left, v.clusterSize) == cap - k
    requires !(2 <= cluster <= v.noOfCluster + 2) || left == 0
    ensures k == |chain|
  {
    if k < cap {
      ChainStep(v, next, false, chain, cap, k, cluster);
    }
  }

  /** kf_fat_recover_file, once the output file has been created. */
  method KfFatRecoverFile(disk: Disk, v: Volume, got: Delivery, start: nat, size: nat, list: SearchSpace, out: OutFile,
                          ghost next: nat -> nat)
    returns (status: Status, ghost copied: nat)
    requires v.Valid(disk) && Shows(v, disk.sectorSize, disk.bytes, next) && Sorted(list.spans) && out.data == []
    modifies list, out`data
    ensures status == Ok || status == NoSpace
    ensures IsCopied(v, FileChain(v, next, start, size), FileCopy(v, disk.bytes, got, next, start, size), out.room,
                     status, copied, out.data, old(SpaceOf(list)), SpaceOf(list))
  {
    ghost var chain := FileChain(v, next, start, size);
    assert chain[0..] == chain;
    status, copied := CopyClusters(disk, v, got, start, size, list, out, next, chain,
                                   FileCopy(v, disk.bytes, got, next, start, size));
  }
}
