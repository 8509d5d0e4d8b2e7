/** Where ext2 keeps superblocks, and the scan that visits these places in order. */
module ExtBackups {
  import opened Arith

  const MIN_BLOCK_SIZE: nat := 1024

  // block groups for blocks of 1024, 2048, 4096 and 65536 bytes
  const GROUP_SIZE: seq<nat> := [0x80_0000, 0x200_0000, 0x800_0000, 0x8_0000_0000]
  const FACTORS: seq<nat> := [3, 5, 7]

  /** A group has as many blocks as a block has bits. */
  lemma GroupsFillTheirBitmap()
    ensures GROUP_SIZE == [1024 * (8 * 1024), 2048 * (8 * 2048), 4096 * (8 * 4096), 65536 * (8 * 65536)]
  {
  }

  function GroupOffset(j: nat): nat {
    if j == 0 then 1024 else 0
  }

  /** The first group begins with the block that holds byte 1024. */
  lemma FirstGroupHoldsSuperblock(j: nat)
    requires j < 4
    ensures var block := [1024, 2048, 4096, 65536][j]; GroupOffset(j) <= 1024 < GroupOffset(j) + block && GroupOffset(j) % block == 0
  {
  }

  function Power(f: nat, k: nat): nat {
    if k == 0 then 1 else Power(f, k - 1) * f
  }

  /** The k-th place of one family: a power of the factor, in groups. */
  function Place(f: nat, group: nat, offset: nat, k: nat): nat {
    Power(f, k) * group + offset
  }

  lemma {:induction false} PlacesRise(f: nat, group: nat, offset: nat, k: nat, m: nat)
    requires 2 <= f && 0 < group && k < m
    ensures 0 < Power(f, k) && Place(f, group, offset, k) < Place(f, group, offset, m)
    decreases m
  {
    PowerIsPositive(f, m - 1);
    PowerIsPositive(f, k);
    assert Power(f, m) * group == (Power(f, m - 1) * group) * f;
    MulMonotone(Power(f, m - 1) * group, 1, f);
    assert 0 < Power(f, m - 1) * group;
    if k < m - 1 {
      PlacesRise(f, group, offset, k, m - 1);
    }
  }

  lemma {:induction false} PowerIsPositive(f: nat, k: nat)
    requires 0 < f
    ensures 0 < Power(f, k)
  {
    if k > 0 {
      PowerIsPositive(f, k - 1);
    }
  }

  function PlaceAt(j: nat, i: nat, k: nat): nat
    requires j < 4 && i < 3
  {
    Place(FACTORS[i], GROUP_SIZE[j], GroupOffset(j), k)
  }

  /** Is there a group whose number is a power of 3, 5 or 7, for one of the block sizes, that begins at y? */
  ghost predicate IsGroupPlace(y: nat) {
    exists j: nat, i: nat, k: nat :: j < 4 && i < 3 && y == PlaceAt(j, i, k)
  }

  /** A place that can hold a superblock: the first block for each block size, or the start of a group. */
  ghost predicate IsBackup(y: nat) {
    y == 1024 || y == 2048 || y == 4096 || y == 65536 || IsGroupPlace(y)
  }

  // the last place within 64 bits of each family, as an exponent
  const LAST: seq<seq<nat>> := [[25, 17, 14], [24, 16, 13], [23, 15, 13], [18, 12, 10]]
  const LIMIT: nat := 0x2D1E_11F1_CE00_0000  // 7^13 groups of 2048-byte blocks

  lemma PowersOf3()
    ensures Power(3, 18) == 387420489 && Power(3, 23) == 94143178827 && Power(3, 24) == 282429536481
    ensures Power(3, 25) == 847288609443
  {
    assert Power(3, 3) == 27 && Power(3, 6) == 729 && Power(3, 9) == 19683;
    assert Power(3, 12) == 531441 && Power(3, 15) == 14348907 && Power(3, 18) == 387420489;
    assert Power(3, 21) == 10460353203 && Power(3, 23) == 94143178827 && Power(3, 24) == 282429536481;
  }

  lemma PowersOf5()
    ensures Power(5, 12) == 244140625 && Power(5, 15) == 30517578125 && Power(5, 16) == 152587890625
    ensures Power(5, 17) == 762939453125
  {
    assert Power(5, 3) == 125 && Power(5, 6) == 15625 && Power(5, 9) == 1953125;
    assert Power(5, 12) == 244140625 && Power(5, 15) == 30517578125 && Power(5, 16) == 152587890625;
  }

  lemma PowersOf7()
    ensures Power(7, 10) == 282475249 && Power(7, 13) == 96889010407 && Power(7, 14) == 678223072849
  {
    assert Power(7, 3) == 343 && Power(7, 6) == 117649 && Power(7, 8) == 5764801;
    assert Power(7, 10) == 282475249 && Power(7, 12) == 13841287201 && Power(7, 13) == 96889010407;
  }

  lemma LastPlaces(j: nat, i: nat)
    requires j < 4 && i < 3
    ensures LIMIT <= PlaceAt(j, i, LAST[j][i]) < 0x1_0000_0000_0000_0000
  {
    hide Power;
    PowersOf3();
    PowersOf5();
    PowersOf7();
  }

  /** Every family has a place beyond `after` that fits 64 bits exactly if `after` is below the limit. */
  lemma PlacesFitIff(after: nat)
    ensures (forall j: nat, i: nat :: j < 4 && i < 3 ==> HasPlace(j, i, after)) <==> after < LIMIT
  {
    if after < LIMIT {
      forall j: nat, i: nat | j < 4 && i < 3
        ensures HasPlace(j, i, after)
      {
        LastPlaces(j, i);
      }
    } else if HasPlace(1, 2, after) {
      var k: nat :| after < PlaceAt(1, 2, k) < 0x1_0000_0000_0000_0000;
      PowersOf7();
      if k < 13 {
        PlacesRise(7, GROUP_SIZE[1], 0, k, 13);
      } else if k > 14 {
        PlacesRise(7, GROUP_SIZE[1], 0, 14, k);
      }
    }
  }

  ghost predicate HasPlace(j: nat, i: nat, after: nat)
    requires j < 4 && i < 3
  {
    exists k: nat :: after < PlaceAt(j, i, k) < 0x1_0000_0000_0000_0000
  }

  /** The first place of one family beyond an offset; no product leaves 64 bits. */
  method FirstBeyond(j: nat, i: nat, after: nat) returns (place: nat, ghost k: nat)
    requires j < 4 && i < 3 && after < LIMIT
    ensures place == PlaceAt(j, i, k) && after < place < 0x1_0000_0000_0000_0000
    ensures forall m :: after < PlaceAt(j, i, m) ==> place <= PlaceAt(j, i, m)
  {
    var f, group, offset := FACTORS[i], GROUP_SIZE[j], GroupOffset(j);
    var val := 1;
    k := 0;
    while val * group + offset <= after
      invariant val == Power(f, k) && 0 < val
      invariant val * group + offset < 0x1_0000_0000_0000_0000
      invariant forall m :: 0 <= m < k ==> PlaceAt(j, i, m) <= after
      decreases after - val * group
    {
      PlacesRise(f, group, offset, k, k + 1);
      StaysIn64Bits(j, i, k);
      val := val * f;
      k := k + 1;
    }
    place := val * group + offset;
    forall m: nat | after < PlaceAt(j, i, m)
      ensures place <= PlaceAt(j, i, m)
    {
      if k < m {
        PlacesRise(f, group, offset, k, m);
      }
    }
  }

  /** Behind a place below the limit comes another one within 64 bits. */
  lemma StaysIn64Bits(j: nat, i: nat, k: nat)
    requires j < 4 && i < 3 && PlaceAt(j, i, k) < LIMIT
    ensures PlaceAt(j, i, k + 1) < 0x1_0000_0000_0000_0000
  {
    hide Power;
    LastPlaces(j, i);
    var last := LAST[j][i];
    if last < k {
      PlacesRise(FACTORS[i], GROUP_SIZE[j], GroupOffset(j), last, k);
    } else if k + 1 < last {
      PlacesRise(FACTORS[i], GROUP_SIZE[j], GroupOffset(j), k + 1, last);
    }
  }

  /** Is `place` the least place beyond `after` in the families (j', i') in front of (j, i)? */
  ghost predicate IsLeastSoFar(place: nat, after: nat, j: nat, i: nat) {
    && (place == 0 <==> j == 0 && i == 0)
    && (place != 0 ==> after < place < 0x1_0000_0000_0000_0000 && IsGroupPlace(place))
    && forall j': nat, i': nat, k: nat :: j' < 4 && i' < 3 && (j' < j || (j' == j && i' < i)) && after < PlaceAt(j', i', k) ==>
         place <= PlaceAt(j', i', k)
  }

  method LeastGroupPlace(after: nat) returns (hdOffset: nat)
    requires after < LIMIT
    ensures IsLeastSoFar(hdOffset, after, 4, 0)
  {
    hdOffset := 0;
    var j := 0;
    while j < 4
      invariant 0 <= j <= 4 && IsLeastSoFar(hdOffset, after, j, 0)
    {
      var i := 0;
      while i < 3
        invariant 0 <= i <= 3 && IsLeastSoFar(hdOffset, after, j, i)
      {
        var place, k := FirstBeyond(j, i, after);
        assert IsGroupPlace(place) by {
          assert place == PlaceAt(j, i, k);
        }
        if hdOffset == 0 || place < hdOffset {
          hdOffset := place;
        }
        i := i + 1;
      }
      j := j + 1;
    }
  }

  lemma GroupPlacesAreFar(y: nat)
    requires IsGroupPlace(y)
    ensures y >= 0x80_0000
  {
    var j: nat, i: nat, k: nat :| j < 4 && i < 3 && y == PlaceAt(j, i, k);
    hide Power, PlaceAt;
    PowerIsPositive(FACTORS[i], k);
    MulMonotone(GROUP_SIZE[j], 1, Power(FACTORS[i], k));
  }

  /** next_sb: the least place of a superblock beyond an offset. */
  method NextSb(after: nat) returns (hdOffset: nat)
    requires after < LIMIT
    ensures after < hdOffset < 0x1_0000_0000_0000_0000 && IsBackup(hdOffset)
    ensures forall y: nat :: after < y && IsBackup(y) ==> hdOffset <= y
  {
    hdOffset := LeastGroupPlace(after);
    GroupPlacesAreFar(hdOffset);
    ghost var group := hdOffset;
    if after < MIN_BLOCK_SIZE && MIN_BLOCK_SIZE < hdOffset {
      hdOffset := MIN_BLOCK_SIZE;
    } else if after < 2 * MIN_BLOCK_SIZE && 2 * MIN_BLOCK_SIZE < hdOffset {
      hdOffset := 2 * MIN_BLOCK_SIZE;
    } else if after < 4 * MIN_BLOCK_SIZE && 4 * MIN_BLOCK_SIZE < hdOffset {
      hdOffset := 4 * MIN_BLOCK_SIZE;
    } else if after < 64 * MIN_BLOCK_SIZE && 64 * MIN_BLOCK_SIZE < hdOffset {
      hdOffset := 64 * MIN_BLOCK_SIZE;
    }
    forall y: nat | after < y && IsBackup(y)
      ensures hdOffset <= y
    {
      if IsGroupPlace(y) {
        GroupPlacesAreFar(y);
        var j: nat, i: nat, k: nat :| j < 4 && i < 3 && y == PlaceAt(j, i, k);
        assert group <= PlaceAt(j, i, k);
      }
    }
  }

  /** Strictly rising, from 0 on. */
  ghost predicate Rises(s: seq<nat>) {
    && (forall a, b :: 0 <= a < b < |s| ==> s[a] < s[b])
    && (s != [] ==> s[0] == 0)
  }

  /** Every visited place but the start can hold a superblock, and none below `end` has been passed over. */
  ghost predicate VisitsAll(s: seq<nat>, end: nat) {
    && (forall a :: 0 < a < |s| ==> IsBackup(s[a]))
    && (forall y: nat :: 0 < y < end && IsBackup(y) ==> y in s)
  }

  /** The places visited so far, all of them below x, the next place to visit. */
  ghost predicate IsAt(s: seq<nat>, x: nat) {
    && Rises(s) && (s == [] <==> x == 0) && (s != [] ==> s[|s| - 1] < x && IsBackup(x)) && VisitsAll(s, x)
  }

  lemma VisitOne(s: seq<nat>, x: nat, next: nat)
    requires IsAt(s, x) && x < next && IsBackup(next)
    requires forall y: nat :: x < y && IsBackup(y) ==> next <= y
    ensures IsAt(s + [x], next) && VisitsAll(s + [x], x + 1)
  {
    hide IsBackup;
    forall y: nat | 0 < y < next && IsBackup(y)
      ensures y in s + [x]
    {
      if y < x {
        assert y in s;
      }
    }
  }

  /** How many of the visited places hold a superblock. */
  function Hits(visited: seq<nat>, holdsSb: nat -> bool): nat {
    if visited == [] then 0
    else Hits(visited[..|visited| - 1], holdsSb) + if holdsSb(visited[|visited| - 1]) then 1 else 0
  }

  /** No user request to stop yet, and fewer than ten superblocks found. */
  ghost predicate GoesOn(visited: seq<nat>, holdsSb: nat -> bool, stop: nat -> bool) {
    (visited != [] ==> !stop(visited[|visited| - 1])) && Hits(visited, holdsSb) < 10
  }

  /** The scan went on at every place but perhaps the last one. */
  ghost predicate WentOn(visited: seq<nat>, holdsSb: nat -> bool, stop: nat -> bool) {
    visited == [] || (GoesOn(visited[..|visited| - 1], holdsSb, stop) && WentOn(visited[..|visited| - 1], holdsSb, stop))
  }

  lemma NothingVisited(holdsSb: nat -> bool, stop: nat -> bool)
    ensures IsAt([], 0) && WentOn([], holdsSb, stop) && Hits([], holdsSb) == 0
  {
  }

  lemma WhatWasVisited(visited: seq<nat>, hdOffset: nat, partSize: nat)
    requires IsAt(visited, hdOffset)
    ensures Rises(visited) && (partSize <= hdOffset ==> VisitsAll(visited, partSize))
  {
  }

  lemma StopsHere(visited: seq<nat>, holdsSb: nat -> bool, stop: nat -> bool)
    ensures GoesOn(visited, holdsSb, stop) <==>
              Hits(visited, holdsSb) < 10 && !(visited != [] && stop(visited[|visited| - 1]))
  {
  }

  lemma ScanOne(visited: seq<nat>, x: nat, holdsSb: nat -> bool, stop: nat -> bool)
    requires WentOn(visited, holdsSb, stop) && GoesOn(visited, holdsSb, stop)
    ensures WentOn(visited + [x], holdsSb, stop)
    ensures Hits(visited + [x], holdsSb) == Hits(visited, holdsSb) + if holdsSb(x) then 1 else 0
  {
    assert (visited + [x])[..|visited|] == visited;
  }

  /**
   * The loop of search_superblock over its offsets: it ends, and it visits every place below the size of the
   * partition, in order, unless it stops early; then it stops at once, on a user request or at the tenth superblock.
   */
  method SearchSuperblock(partSize: nat, holdsSb: nat -> bool, stop: nat -> bool) returns (visited: seq<nat>, early: bool)
    requires partSize <= LIMIT
    ensures Rises(visited) && (visited != [] ==> visited[|visited| - 1] < partSize)
    ensures early ==> visited != [] && VisitsAll(visited, visited[|visited| - 1] + 1)
    ensures early ==> !GoesOn(visited, holdsSb, stop)
    ensures !early ==> VisitsAll(visited, partSize)
    ensures WentOn(visited, holdsSb, stop)
  {
    hide IsAt, Rises, VisitsAll, WentOn, Hits, IsBackup, GoesOn;
    visited := [];
    NothingVisited(holdsSb, stop);
    var hdOffset: nat, nbrSb, indStop := 0, 0, false;
    while hdOffset < partSize && nbrSb < 10 && !indStop
      invariant IsAt(visited, hdOffset)
      invariant visited != [] ==> visited[|visited| - 1] < partSize && VisitsAll(visited, visited[|visited| - 1] + 1)
      invariant nbrSb == Hits(visited, holdsSb) && indStop == (visited != [] && stop(visited[|visited| - 1]))
      invariant WentOn(visited, holdsSb, stop)
      decreases partSize - hdOffset
    {
      indStop := stop(hdOffset);
      if holdsSb(hdOffset) {
        nbrSb := nbrSb + 1;
      }
      StopsHere(visited, holdsSb, stop);
      var next := NextSb(hdOffset);
      VisitOne(visited, hdOffset, next);
      ScanOne(visited, hdOffset, holdsSb, stop);
      visited, hdOffset := visited + [hdOffset], next;
    }
    early := hdOffset < partSize;
    WhatWasVisited(visited, hdOffset, partSize);
    if early {
      StopsHere(visited, holdsSb, stop);
    }
  }
}
