/** When following a cluster chain ends, and which clusters the computed bound lets through. */
module ChainTheorems {
  import opened Arith
  import opened Bytes
  import opened FatChains

  lemma RestOfCons(c: nat, rest: seq<nat>, i: nat)
    requires 0 < i <= |rest|
    ensures ([c] + rest)[i..] == rest[i - 1..] && ([c] + rest)[i] == rest[i - 1]
  {
  }

  /** The rest of a chain is the chain from its i-th cluster on. */
  lemma {:induction false} ChainSuffix(v: Volume, next: nat -> nat, eoc: bool, c: nat, cap: nat, i: nat)
    requires i < |Chain(v, next, eoc, c, cap)|
    ensures var r := Chain(v, next, eoc, c, cap); r[i..] == Chain(v, next, eoc, r[i], cap - i)
    decreases i
  {
    if i > 0 {
      var rest := Chain(v, next, eoc, next(c), cap - 1);
      ChainSuffix(v, next, eoc, next(c), cap - 1, i - 1);
      RestOfCons(c, rest, i);
    }
  }

  /** A chain that ends visits no cluster twice. */
  lemma EndedChainIsDistinct(v: Volume, next: nat -> nat, eoc: bool, c: nat, cap: nat, i: nat, j: nat)
    requires |Chain(v, next, eoc, c, cap)| < cap && i < j < |Chain(v, next, eoc, c, cap)|
    ensures Chain(v, next, eoc, c, cap)[i] != Chain(v, next, eoc, c, cap)[j]
  {
    var r := Chain(v, next, eoc, c, cap);
    ChainSuffix(v, next, eoc, c, cap, i);
    ChainSuffix(v, next, eoc, c, cap, j);
    CapsAgree(v, next, eoc, r[j], cap - j, cap - i);
    assert |r[i..]| == |r| - i && |r[j..]| == |r| - j;
  }

  function Elements(s: seq<nat>): set<nat> {
    set x | x in s
  }

  lemma {:induction false} DistinctCount(s: seq<nat>)
    requires forall i, j :: 0 <= i < j < |s| ==> s[i] != s[j]
    ensures |Elements(s)| == |s|
  {
    if s != [] {
      DistinctCount(s[1..]);
      assert Elements(s) == Elements(s[1..]) + {s[0]};
    }
  }

  lemma {:induction false} IntervalCount(lo: nat, hi: nat, s: set<nat>)
    requires lo <= hi && forall x :: x in s ==> lo <= x < hi
    ensures |s| <= hi - lo
    decreases hi - lo
  {
    if lo < hi {
      IntervalCount(lo, hi - 1, s - {hi - 1});
    } else {
      assert s == {};
    }
  }

  ghost predicate ChainEnds(v: Volume, next: nat -> nat, eoc: bool, c: nat) {
    exists cap: nat :: |Chain(v, next, eoc, c, cap)| < cap
  }

  /** A chain ends if and only if it ends within the number of clusters: a caller can tell after that many steps. */
  lemma ChainEndsSoonOrNever(v: Volume, next: nat -> nat, eoc: bool, c: nat)
    ensures ChainEnds(v, next, eoc, c) <==> |Chain(v, next, eoc, c, v.noOfCluster + 2)| <= v.noOfCluster + 1
  {
    var bound := v.noOfCluster + 2;
    if cap: nat :| |Chain(v, next, eoc, c, cap)| < cap {
      var r := Chain(v, next, eoc, c, cap);
      forall i, j | 0 <= i < j < |r|
        ensures r[i] != r[j]
      {
        EndedChainIsDistinct(v, next, eoc, c, cap, i, j);
      }
      DistinctCount(r);
      IntervalCount(2, bound + 1, Elements(r));
      if cap <= bound {
        CapsAgree(v, next, eoc, c, cap, bound);
      } else {
        CapsAgree(v, next, eoc, c, bound, cap);
      }
    }
  }

  /** How the reading pass goes on: an unreadable cluster leads nowhere. */
  ghost function Onward(v: Volume, bytes: seq<byte>, next: nat -> nat): nat -> nat {
    (c: nat) => if Readable(v, bytes, c) then next(c) else 0
  }

  /** The reading pass goes along the chain that ends behind the first unreadable cluster. */
  lemma {:induction false} OnwardIsReadablePart(v: Volume, bytes: seq<byte>, next: nat -> nat, c: nat, cap: nat)
    ensures var on := Chain(v, Onward(v, bytes, next), true, c, cap);
            var r := ReadablePart(v, bytes, Chain(v, next, true, c, cap));
            |r| <= |on| <= |r| + 1 && (|r| < cap <==> |on| < cap || (|on| == cap > 0 && !Readable(v, bytes, on[cap - 1])))
    decreases cap
  {
    var on := Chain(v, Onward(v, bytes, next), true, c, cap);
    var whole := Chain(v, next, true, c, cap);
    if cap > 0 && IsLive(v, true, c) {
      if Readable(v, bytes, c) {
        OnwardIsReadablePart(v, bytes, next, next(c), cap - 1);
        assert whole[1..] == Chain(v, next, true, next(c), cap - 1);
      } else {
        assert on == [c] + Chain(v, Onward(v, bytes, next), true, 0, cap - 1) == [c];
      }
    }
  }

  lemma UnreadableIsLast(v: Volume, bytes: seq<byte>, next: nat -> nat, c: nat, cap: nat)
    requires 0 < cap == |Chain(v, Onward(v, bytes, next), true, c, cap)|
    requires !Readable(v, bytes, Chain(v, Onward(v, bytes, next), true, c, cap)[cap - 1])
    ensures |Chain(v, Onward(v, bytes, next), true, c, cap + 1)| == cap
  {
    var onward := Onward(v, bytes, next);
    var on, more := Chain(v, onward, true, c, cap), Chain(v, onward, true, c, cap + 1);
    CapsAgree(v, onward, true, c, cap, cap + 1);
    assert on == more[..cap];
    ChainSuffix(v, onward, true, c, cap + 1, cap - 1);
    assert Chain(v, onward, true, more[cap - 1], 2) == [more[cap - 1]] + Chain(v, onward, true, 0, 1);
  }

  /** Does the reading pass come to an end at all? */
  ghost predicate Ends(v: Volume, bytes: seq<byte>, next: nat -> nat, c: nat) {
    exists cap: nat :: |ReadablePart(v, bytes, Chain(v, next, true, c, cap))| < cap
  }

  lemma StayingEnds(v: Volume, bytes: seq<byte>, next: nat -> nat, c: nat)
    ensures StaysInBuffer(v, bytes, next, c) ==> Ends(v, bytes, next, c)
  {
  }

  lemma EndsAsOnward(v: Volume, bytes: seq<byte>, next: nat -> nat, c: nat)
    ensures Ends(v, bytes, next, c) <==> ChainEnds(v, Onward(v, bytes, next), true, c)
  {
    var onward := Onward(v, bytes, next);
    if cap: nat :| |ReadablePart(v, bytes, Chain(v, next, true, c, cap))| < cap {
      OnwardIsReadablePart(v, bytes, next, c, cap);
      var on := Chain(v, onward, true, c, cap);
      if |on| == cap {
        ChainSuffix(v, onward, true, c, cap, cap - 1);
        UnreadableIsLast(v, bytes, next, c, cap);
      }
    }
    if cap: nat :| |Chain(v, onward, true, c, cap)| < cap {
      OnwardIsReadablePart(v, bytes, next, c, cap);
    }
  }

  /** On a volume below the cap, the reading pass stays in its buffer exactly when it comes to an end at all. */
  lemma StaysInBufferIff(v: Volume, bytes: seq<byte>, next: nat -> nat, c: nat)
    requires v.noOfCluster + 1 < MAX_DIR_CLUSTERS
    ensures StaysInBuffer(v, bytes, next, c) <==> Ends(v, bytes, next, c)
  {
    hide Ends, ChainEnds, Chain, ReadablePart, Onward;
    StayingEnds(v, bytes, next, c);
    EndsAsOnward(v, bytes, next, c);
    ChainEndsSoonOrNever(v, Onward(v, bytes, next), true, c);
    CapsAgree(v, Onward(v, bytes, next), true, c, v.noOfCluster + 2, MAX_DIR_CLUSTERS + 1);
    OnwardIsReadablePart(v, bytes, next, c, MAX_DIR_CLUSTERS + 1);
  }

  lemma {:induction false} SelfLoopIsRead(v: Volume, bytes: seq<byte>, next: nat -> nat, c: nat, cap: nat)
    requires IsLive(v, true, c) && next(c) == c
    ensures |ReadablePart(v, bytes, Chain(v, next, true, c, cap))| == if Readable(v, bytes, c) then cap else 0
    decreases cap
  {
    if cap > 0 {
      SelfLoopIsRead(v, bytes, next, c, cap - 1);
      assert Chain(v, next, true, c, cap)[1..] == Chain(v, next, true, c, cap - 1);
    }
  }

  /** A cluster that leads to itself: the reading pass ends, and stays in its buffer, exactly if it cannot be read. */
  lemma SelfLoopEndsIff(v: Volume, bytes: seq<byte>, next: nat -> nat, c: nat)
    requires IsLive(v, true, c) && next(c) == c
    ensures Ends(v, bytes, next, c) <==> !Readable(v, bytes, c)
    ensures StaysInBuffer(v, bytes, next, c) <==> !Readable(v, bytes, c)
  {
    SelfLoopIsRead(v, bytes, next, c, MAX_DIR_CLUSTERS + 1);
    if cap: nat :| |ReadablePart(v, bytes, Chain(v, next, true, c, cap))| < cap {
      SelfLoopIsRead(v, bytes, next, c, cap);
    }
    if !Readable(v, bytes, c) {
      assert |ReadablePart(v, bytes, Chain(v, next, true, c, MAX_DIR_CLUSTERS + 1))| < MAX_DIR_CLUSTERS + 1;
    }
  }

  predicate Admits(bound: nat, c: nat) {
    c <= bound + 2
  }

  lemma AdmitsAllIff(bound: nat, clusters: nat)
    ensures (forall c: nat :: 2 <= c < clusters + 2 ==> Admits(bound, c)) <==> clusters <= bound + 1
  {
    if clusters > bound + 1 {
      assert !Admits(bound, clusters + 1);
    }
  }

  lemma WrapsAround(partSize: nat, startData: nat)
    requires partSize < 0x4000_0000_0000_0000 && startData < 0x8000_0000_0000_0000
    ensures (partSize - startData) % 0x1_0000_0000_0000_0000
            == partSize - startData + if startData > partSize then 0x1_0000_0000_0000_0000 else 0
  {
  }

  /**
   * start_data counts from the start of the disk, part_size from the start of the partition. The bound on the clusters
   * lets all of them through exactly when the partition starts early enough on the disk, or so late that the
   * difference wraps around.
   */
  lemma BoundAdmitsAllClusters(partOffset: nat, partSize: nat, startData: nat, clusterSize: nat, bound: nat)
    requires 0 < clusterSize && partOffset <= startData <= partOffset + partSize < 0x4000_0000_0000_0000
    requires bound == ClusterCount(partSize, startData, clusterSize)
    ensures var data := partSize - (startData - partOffset);
            (forall c: nat :: 2 <= c < data / clusterSize + 2 ==> Admits(bound, c))
            <==> startData > partSize || partOffset <= data % clusterSize + clusterSize
  {
    hide Admits, ClusterCount;
    var data := partSize - (startData - partOffset);
    AdmitsAllIff(bound, data / clusterSize);
    BoundIs(partSize, startData, clusterSize);
    if partOffset > data {
      DivMonotone(data, data - partOffset + 0x1_0000_0000_0000_0000, clusterSize);
      DivIsQuotient(data, clusterSize);
      DivIsQuotient(data - partOffset + 0x1_0000_0000_0000_0000, clusterSize);
    } else {
      DivBelow(data, partOffset, clusterSize);
    }
  }

  lemma BoundIs(partSize: nat, startData: nat, clusterSize: nat)
    requires 0 < clusterSize && partSize < 0x4000_0000_0000_0000 && startData < 0x8000_0000_0000_0000
    ensures ClusterCount(partSize, startData, clusterSize)
            == (partSize - startData + if startData > partSize then 0x1_0000_0000_0000_0000 else 0) / clusterSize
  {
    WrapsAround(partSize, startData);
  }

  /** Going down by x loses at most one whole unit exactly when x is at most the remainder and one unit. */
  lemma DivBelow(a: nat, x: nat, d: nat)
    requires x <= a && 0 < d
    ensures a / d <= (a - x) / d + 1 <==> x <= a % d + d
  {
    QuotientsBelow(a / d, a % d, (a - x) / d, (a - x) % d, d, x);
  }

  lemma QuotientsBelow(q: nat, r: nat, p: nat, s: nat, d: nat, x: nat)
    requires d * q + r == d * p + s + x && r < d && s < d
    ensures q <= p + 1 <==> x <= r + d
  {
    if q <= p + 1 {
      MulMonotone(d, q, p + 1);
    } else {
      MulMonotone(d, p + 2, q);
    }
  }
}
