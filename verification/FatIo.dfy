/** Reading and writing FAT entries through whole sectors. */
module FatIo {
  import opened Arith
  import opened Bytes
  import opened Disks
  import opened FatTable
  import opened Seqs

  /** Sector sizes for which cluster 2 lies in the first sector of a FAT and entries do not straddle sectors, FAT12 apart. */
  ghost predicate UsableSector(sectorSize: nat) {
    16 <= sectorSize && sectorSize % 4 == 0
  }

  /** Bytes that one access reads: a FAT12 entry may straddle two sectors. */
  function AccessSize(t: FatType, sectorSize: nat): nat {
    if t == FAT12 then 2 * sectorSize else sectorSize
  }

  /** Byte offset of the entry inside its sector. */
  function OffsetInSector(t: FatType, sectorSize: nat, cluster: nat): (o: nat)
    requires UsableSector(sectorSize)
    ensures o <= EntryOffset(t, cluster)
  {
    match t
    case FAT12 => Mod(cluster + cluster / 2, sectorSize)
    case FAT16 => 2 * Mod(cluster, sectorSize / 2)
    case _ => 4 * Mod(cluster, sectorSize / 4)
  }

  /** Byte offset, in the table, of the sector that holds the entry. */
  function SectorStart(t: FatType, sectorSize: nat, cluster: nat): nat
    requires UsableSector(sectorSize)
  {
    EntryOffset(t, cluster) - OffsetInSector(t, sectorSize, cluster)
  }

  lemma OffsetFits(t: FatType, sectorSize: nat, cluster: nat)
    requires UsableSector(sectorSize)
    ensures OffsetInSector(t, sectorSize, cluster) + EntryWidth(t) <= AccessSize(t, sectorSize)
  {
  }

  lemma ScaledStart(c: nat, per: nat, width: nat, sectorSize: nat)
    requires 0 < per && 0 < width && width * per == sectorSize
    ensures Multiple(width * (c - Mod(c, per)), sectorSize)
  {
    hide Multiple, Mod;
    WithoutRemainder(c, per);
    MultipleScaled(c - Mod(c, per), per, width);
  }

  lemma Parts(sectorSize: nat)
    requires UsableSector(sectorSize)
    ensures 2 * (sectorSize / 2) == sectorSize && 4 * (sectorSize / 4) == sectorSize
  {
  }

  lemma StartIsMultiple(t: FatType, sectorSize: nat, c: nat)
    requires UsableSector(sectorSize)
    ensures Multiple(SectorStart(t, sectorSize, c), sectorSize)
  {
    hide Multiple, Mod;
    Parts(sectorSize);
    match t
    case FAT12 => WithoutRemainder(c + c / 2, sectorSize);
    case FAT16 => ScaledStart(c, sectorSize / 2, 2, sectorSize);
    case _ => ScaledStart(c, sectorSize / 4, 4, sectorSize);
  }

  /** x / per sectors, and what is left of x, in bytes. */
  method SplitIntoSectors(x: nat, per: nat, sectorSize: nat, width: nat) returns (start: nat, offset: nat)
    requires 0 < per && sectorSize == per * width
    ensures offset == width * Mod(x, per) && start == width * x - width * Mod(x, per)
  {
    hide Mod;
    start, offset := x / per * sectorSize, width * (x % per);
    ModIsRemainder(x, per);
    QuotientInBytes(x / per, x % per, per, width);
    assert x / per * per + x % per == x;
  }

  lemma QuotientInBytes(q: nat, r: nat, per: nat, width: nat)
    ensures q * (per * width) == width * (q * per + r) - width * r
  {
    assert q * (per * width) == width * (q * per);
  }

  lemma SectorHoldsEntry(t: FatType, sectorSize: nat, cluster: nat)
    requires UsableSector(sectorSize)
    ensures var start, offset := SectorStart(t, sectorSize, cluster), OffsetInSector(t, sectorSize, cluster);
            start + offset == EntryOffset(t, cluster) && offset + EntryWidth(t) <= AccessSize(t, sectorSize)
  {
    OffsetFits(t, sectorSize, cluster);
  }

  /** offset_s * sector_size and the byte offset of the entry behind it, as the source computes them. */
  method Locate(t: FatType, sectorSize: nat, cluster: nat) returns (start: nat, offset: nat)
    requires UsableSector(sectorSize)
    ensures offset == OffsetInSector(t, sectorSize, cluster) && start == SectorStart(t, sectorSize, cluster)
    ensures start + offset == EntryOffset(t, cluster) && offset + EntryWidth(t) <= AccessSize(t, sectorSize)
  {
    SectorHoldsEntry(t, sectorSize, cluster);
    if t == FAT12 {
      start, offset := SplitIntoSectors(cluster + cluster / 2, sectorSize, sectorSize, 1);
    } else if t == FAT16 {
      start, offset := SplitHalves(cluster, sectorSize);
    } else {
      start, offset := SplitQuarters(cluster, sectorSize);
    }
  }

  method SplitHalves(x: nat, sectorSize: nat) returns (start: nat, offset: nat)
    requires UsableSector(sectorSize)
    ensures offset == 2 * Mod(x, sectorSize / 2) && start == 2 * x - offset
  {
    start, offset := SplitIntoSectors(x, sectorSize / 2, sectorSize, 2);
  }

  method SplitQuarters(x: nat, sectorSize: nat) returns (start: nat, offset: nat)
    requires UsableSector(sectorSize)
    ensures offset == 4 * Mod(x, sectorSize / 4) && start == 4 * x - offset
  {
    start, offset := SplitIntoSectors(x, sectorSize / 4, sectorSize, 4);
  }

  /** Does the access for this cluster stay on the disk? */
  predicate Reachable(t: FatType, sectorSize: nat, bytes: seq<byte>, base: nat, cluster: nat)
    requires UsableSector(sectorSize)
  {
    base + SectorStart(t, sectorSize, cluster) + AccessSize(t, sectorSize) <= |bytes|
  }

  lemma ReachableHasEntry(t: FatType, sectorSize: nat, bytes: seq<byte>, base: nat, cluster: nat)
    requires UsableSector(sectorSize) && Reachable(t, sectorSize, bytes, base, cluster)
    ensures HasEntry(t, bytes, base, cluster)
  {
    OffsetFits(t, sectorSize, cluster);
  }

  /** The value get_next_cluster returns: the entry, or 0 after a read error or for an unknown type. */
  function NextCluster(t: FatType, sectorSize: nat, bytes: seq<byte>, base: nat, cluster: nat): nat
    requires UsableSector(sectorSize)
  {
    if t != NotFat && Reachable(t, sectorSize, bytes, base, cluster) then
      ReachableHasEntry(t, sectorSize, bytes, base, cluster);
      Entry(t, bytes, base, cluster)
    else 0
  }

  /** Read whole sectors and cut out the bytes of one entry. */
  method ReadRaw(disk: Disk, buffer: array<byte>, at: nat, offset: nat, width: nat) returns (res: int, raw: seq<byte>)
    requires offset + width <= buffer.Length
    modifies buffer
    ensures |raw| == width
    ensures res == buffer.Length <==> at + buffer.Length <= |disk.bytes|
    ensures res == buffer.Length ==> buffer[..] == disk.bytes[at..at + buffer.Length]
                                     && raw == disk.bytes[at + offset..at + offset + width]
  {
    res := disk.PreadAll(buffer, at);
    raw := buffer[..][offset..offset + width];
    if res == buffer.Length {
      SliceOfSlice(disk.bytes, at, buffer.Length, offset, width);
    }
  }

  /** Change some bytes of the sectors in the buffer and write the sectors back. */
  method WriteRaw(disk: Disk, buffer: array<byte>, at: nat, offset: nat, patch: seq<byte>) returns (res: int)
    requires offset + |patch| <= buffer.Length && at + buffer.Length <= |disk.bytes|
    requires buffer[..] == disk.bytes[at..at + buffer.Length]
    modifies buffer, disk`bytes
    ensures res == buffer.Length && disk.bytes == Patch(old(disk.bytes), at + offset, patch)
  {
    ghost var window := buffer[..];
    forall k | 0 <= k < |patch| {
      buffer[offset + k] := patch[k];
    }
    assert buffer[..] == Patch(window, offset, patch);
    PatchInWindow(disk.bytes, at, buffer.Length, offset, patch);
    res := disk.PwriteAll(buffer, at);
  }

  /** Writing back a changed window changes the disk in the changed place only. */
  lemma PatchInWindow(bytes: seq<byte>, at: nat, size: nat, offset: nat, patch: seq<byte>)
    requires at + size <= |bytes| && offset + |patch| <= size
    ensures Patch(bytes, at, Patch(bytes[at..at + size], offset, patch)) == Patch(bytes, at + offset, patch)
  {
  }

  /** get_next_cluster and its three variants; `base` is part_offset + offset * sector_size. */
  method GetNextCluster(disk: Disk, t: FatType, base: nat, cluster: nat) returns (next: nat)
    requires UsableSector(disk.sectorSize)
    ensures next == NextCluster(t, disk.sectorSize, disk.bytes, base, cluster)
  {
    if t == NotFat {
      return 0;
    }
    var buffer := new byte[AccessSize(t, disk.sectorSize)](_ => 0);
    var start, offset := Locate(t, disk.sectorSize, cluster);
    var res, raw := ReadRaw(disk, buffer, base + start, offset, EntryWidth(t));
    if res != buffer.Length {
      return 0;
    }
    next := Decode(t, cluster, raw);
  }

  /** set_next_cluster: read the sectors, change the entry, write the sectors back if the disk is writable. */
  method SetNextCluster(disk: Disk, t: FatType, base: nat, cluster: nat, v: nat, writable: bool) returns (res: int)
    requires UsableSector(disk.sectorSize)
    modifies disk`bytes
    ensures res == if t != NotFat && writable && Reachable(t, disk.sectorSize, old(disk.bytes), base, cluster) then 0 else 1
    ensures res == 0 ==> HasEntry(t, old(disk.bytes), base, cluster)
                         && disk.bytes == Store(t, old(disk.bytes), base, cluster, v)
    ensures res != 0 ==> disk.bytes == old(disk.bytes)
  {
    hide Encode, Decode, Entry, EntryOffset, OffsetInSector, SectorStart, Patch;
    if t == NotFat {
      return 1;
    }
    var buffer := new byte[AccessSize(t, disk.sectorSize)](_ => 0);
    var start, offset := Locate(t, disk.sectorSize, cluster);
    var got, raw := ReadRaw(disk, buffer, base + start, offset, EntryWidth(t));
    if got != buffer.Length || !writable {
      return 1;
    }
    var put := WriteRaw(disk, buffer, base + start, offset, Encode(t, cluster, v, raw));
    if put != buffer.Length {
      return 1;
    }
    res := 0;
  }

  // ----- scans that keep one sector in a buffer -----

  /** The state of a scan before cluster c: hdOffset is behind the buffered sector, which holds cluster c - 1. */
  ghost predicate Cached(t: FatType, sectorSize: nat, bytes: seq<byte>, base: nat, buffer: seq<byte>, hdOffset: nat, c: nat)
    requires UsableSector(sectorSize)
  {
    && (t == FAT16 || t == FAT32) && |buffer| == sectorSize && 2 <= c
    && (c == 2 ==> hdOffset == base)
    && (c > 2 ==> Buffered(t, sectorSize, bytes, base, buffer, hdOffset, c - 1))
  }

  /** The buffer holds the sector of cluster c, and hdOffset is behind it. */
  ghost predicate Buffered(t: FatType, sectorSize: nat, bytes: seq<byte>, base: nat, buffer: seq<byte>, hdOffset: nat, c: nat)
    requires UsableSector(sectorSize)
  {
    && hdOffset == base + SectorStart(t, sectorSize, c) + sectorSize <= |bytes|
    && buffer == bytes[hdOffset - sectorSize..hdOffset]
  }

  /** Where cluster x * unit begins among sectors of per clusters: a new sector at each multiple of per. */
  lemma SectorOfNext(c: nat, per: nat)
    requires 2 < c && 2 < per
    ensures c - Mod(c, per) == c - 1 - Mod(c - 1, per) + if Mod(c, per) == 0 then per else 0
  {
    ModNext(c - 1, per);
  }

  lemma NextSectorOf(c: nat, per: nat, width: nat, sectorSize: nat)
    requires 2 <= c && 2 < per && 0 < width && sectorSize == width * per
    ensures c == 2 ==> width * c - width * Mod(c, per) == 0
    ensures c > 2 ==> width * c - width * Mod(c, per) == width * (c - 1) - width * Mod(c - 1, per)
                      + if width * Mod(c, per) == 0 then sectorSize else 0
  {
    if c > 2 {
      SectorOfNext(c, per);
      MulDiff(width, c, Mod(c, per));
      MulDiff(width, c - 1, Mod(c - 1, per));
      if Mod(c, per) == 0 {
        assert width * (c - 1 - Mod(c - 1, per) + per) == width * (c - 1 - Mod(c - 1, per)) + width * per;
      }
    }
  }

  lemma MulDiff(width: nat, a: nat, b: nat)
    requires b <= a
    ensures width * a - width * b == width * (a - b)
  {
  }

  /** A new sector begins exactly at a multiple of the entries per sector. */
  lemma NextSector(t: FatType, sectorSize: nat, c: nat)
    requires UsableSector(sectorSize) && (t == FAT16 || t == FAT32) && 2 <= c
    ensures c == 2 ==> SectorStart(t, sectorSize, c) == 0
    ensures c > 2 ==> SectorStart(t, sectorSize, c) == SectorStart(t, sectorSize, c - 1)
                      + if OffsetInSector(t, sectorSize, c) == 0 then sectorSize else 0
  {
    if t == FAT16 {
      NextSectorOf(c, sectorSize / 2, 2, sectorSize);
    } else {
      NextSectorOf(c, sectorSize / 4, 4, sectorSize);
    }
  }

  /** The buffered sector shows the entry. */
  lemma BufferedEntry(t: FatType, sectorSize: nat, bytes: seq<byte>, base: nat, buffer: seq<byte>, hdOffset: nat, c: nat)
    requires UsableSector(sectorSize) && (t == FAT16 || t == FAT32) && |buffer| == sectorSize
    requires Buffered(t, sectorSize, bytes, base, buffer, hdOffset, c)
    ensures var offset := OffsetInSector(t, sectorSize, c);
            && offset + EntryWidth(t) <= sectorSize
            && Decode(t, c, buffer[offset..offset + EntryWidth(t)]) == NextCluster(t, sectorSize, bytes, base, c)
  {
    hide Decode, OffsetInSector, SectorStart, EntryOffset;
    SectorHoldsEntry(t, sectorSize, c);
    SliceOfSlice(bytes, hdOffset - sectorSize, sectorSize, OffsetInSector(t, sectorSize, c), EntryWidth(t));
  }

  /** How far a scan can read: the sectors of clusters 2 to last lie on the disk. */
  ghost predicate ScanFits(t: FatType, sectorSize: nat, bytes: seq<byte>, base: nat, last: nat)
    requires UsableSector(sectorSize)
  {
    forall c :: 2 <= c <= last ==> Reachable(t, sectorSize, bytes, base, c)
  }

  /** offset_o, in bytes, for the two entry widths that never straddle sectors. */
  method SlotOffset(t: FatType, sectorSize: nat, c: nat) returns (offset: nat)
    requires UsableSector(sectorSize) && (t == FAT16 || t == FAT32)
    ensures offset == OffsetInSector(t, sectorSize, c)
  {
    if t == FAT16 {
      ModIsRemainder(c, sectorSize / 2);
      offset := 2 * (c % (sectorSize / 2));
    } else {
      ModIsRemainder(c, sectorSize / 4);
      offset := 4 * (c % (sectorSize / 4));
    }
  }

  /** The whole table as get_next_cluster shows it: one value for each cluster below n. */
  ghost function Entries(t: FatType, sectorSize: nat, bytes: seq<byte>, base: nat, n: nat): (fat: seq<nat>)
    requires UsableSector(sectorSize)
    ensures |fat| == n
    ensures forall c :: 0 <= c < n ==> fat[c] == NextCluster(t, sectorSize, bytes, base, c)
  {
    seq(n, c requires 0 <= c < n => NextCluster(t, sectorSize, bytes, base, c))
  }

  /** Read the sector when cluster c is the first one in it; false if it cannot be read. */
  method ReadNextSector(disk: Disk, t: FatType, ghost base: nat, buffer: array<byte>, hdOffset: nat, c: nat, offset: nat)
    returns (ok: bool, hdOffset': nat)
    requires UsableSector(disk.sectorSize) && offset == OffsetInSector(t, disk.sectorSize, c)
    requires Cached(t, disk.sectorSize, disk.bytes, base, buffer[..], hdOffset, c)
    modifies buffer
    ensures ok <==> Reachable(t, disk.sectorSize, disk.bytes, base, c)
    ensures ok ==> Buffered(t, disk.sectorSize, disk.bytes, base, buffer[..], hdOffset', c)
  {
    NextSector(t, disk.sectorSize, c);
    ok, hdOffset' := true, hdOffset;
    if offset == 0 || c == 2 {
      var res := disk.PreadAll(buffer, hdOffset);
      if res != disk.sectorSize {
        return false, hdOffset;
      }
      hdOffset' := hdOffset + disk.sectorSize;
    }
  }

  /** The entry of cluster c, unless its sector cannot be read. */
  method EntryOrError(disk: Disk, t: FatType, ghost base: nat, buffer: array<byte>, hdOffset: nat, c: nat)
    returns (ok: bool, entry: nat, hdOffset': nat)
    requires UsableSector(disk.sectorSize)
    requires Cached(t, disk.sectorSize, disk.bytes, base, buffer[..], hdOffset, c)
    modifies buffer
    ensures ok <==> Reachable(t, disk.sectorSize, disk.bytes, base, c)
    ensures ok ==> Cached(t, disk.sectorSize, disk.bytes, base, buffer[..], hdOffset', c + 1)
    ensures ok ==> entry == NextCluster(t, disk.sectorSize, disk.bytes, base, c)
  {
    var offset := SlotOffset(t, disk.sectorSize, c);
    ok, hdOffset' := ReadNextSector(disk, t, base, buffer, hdOffset, c, offset);
    entry := 0;
    if ok {
      BufferedEntry(t, disk.sectorSize, disk.bytes, base, buffer[..], hdOffset', c);
      entry := Decode(t, c, buffer[..][offset..offset + EntryWidth(t)]);
    }
  }

  /** Clusters 2 to n - 1 can be read and do not lead to `cluster`. */
  ghost predicate NoneLeadsTo(sectorSize: nat, bytes: seq<byte>, base: nat, cluster: nat, n: nat)
    requires UsableSector(sectorSize) && 1 <= n
  {
    && ScanFits(FAT32, sectorSize, bytes, base, n - 1)
    && forall c :: 2 <= c < n ==> NextCluster(FAT32, sectorSize, bytes, base, c) != cluster
  }

  /** A scan for a cluster that leads to `cluster` can end without a result at n: behind the volume or at a read error. */
  ghost predicate EndsAt(sectorSize: nat, bytes: seq<byte>, base: nat, cluster: nat, noOfCluster: nat, n: nat)
    requires UsableSector(sectorSize)
  {
    && 2 <= n <= noOfCluster + 2 && NoneLeadsTo(sectorSize, bytes, base, cluster, n)
    && (n == noOfCluster + 2 || !Reachable(FAT32, sectorSize, bytes, base, n))
  }

  /** fat32_get_prev_cluster: the first cluster that leads to `cluster`, or 0. */
  method Fat32GetPrevCluster(disk: Disk, base: nat, cluster: nat, noOfCluster: nat) returns (prev: nat)
    requires UsableSector(disk.sectorSize)
    ensures prev == 0 ==> exists n: nat :: EndsAt(disk.sectorSize, disk.bytes, base, cluster, noOfCluster, n)
    ensures prev != 0 ==> 2 <= prev <= noOfCluster + 1 && NoneLeadsTo(disk.sectorSize, disk.bytes, base, cluster, prev)
                          && Reachable(FAT32, disk.sectorSize, disk.bytes, base, prev)
                          && NextCluster(FAT32, disk.sectorSize, disk.bytes, base, prev) == cluster
  {
    var buffer := new byte[disk.sectorSize](_ => 0);
    var hdOffset := base;
    prev := 2;
    while prev <= noOfCluster + 1
      invariant 2 <= prev <= noOfCluster + 2
      invariant Cached(FAT32, disk.sectorSize, disk.bytes, base, buffer[..], hdOffset, prev)
      invariant NoneLeadsTo(disk.sectorSize, disk.bytes, base, cluster, prev)
    {
      var ok, entry;
      ok, entry, hdOffset := EntryOrError(disk, FAT32, base, buffer, hdOffset, prev);
      if !ok {
        assert EndsAt(disk.sectorSize, disk.bytes, base, cluster, noOfCluster, prev);
        return 0;
      }
      if entry == cluster {
        return;
      }
      prev := prev + 1;
    }
    assert EndsAt(disk.sectorSize, disk.bytes, base, cluster, noOfCluster, prev);
    prev := 0;
  }

  /** The free clusters from 2 up to, not including, c. */
  function FreeClusters(fat: seq<nat>, c: nat): set<nat>
    requires c <= |fat|
  {
    set k | 2 <= k < c && fat[k] == 0
  }

  /** next_free and free_count describe this set of free clusters. */
  ghost predicate Describes(nextFree: nat, freeCount: nat, free: set<nat>) {
    && freeCount == |free|
    && (nextFree == 0 <==> free == {})
    && (nextFree != 0 ==> nextFree in free && forall k :: k in free ==> nextFree <= k)
  }

  /** Counting one more cluster keeps the description. */
  lemma DescribesStep(fat: seq<nat>, c: nat, nextFree: nat, freeCount: nat)
    requires 2 <= c < |fat| && Describes(nextFree, freeCount, FreeClusters(fat, c))
    ensures Describes(if fat[c] == 0 && nextFree == 0 then c else nextFree,
                      if fat[c] == 0 then freeCount + 1 else freeCount,
                      FreeClusters(fat, c + 1))
  {
    var free := FreeClusters(fat, c);
    assert c !in free;
    assert FreeClusters(fat, c + 1) == if fat[c] == 0 then free + {c} else free;
  }

  /** The body of the loop of fat32_free_info; false if the sector cannot be read. */
  method CountCluster(disk: Disk, ghost base: nat, buffer: array<byte>, hdOffset: nat, c: nat, nextFree: nat, freeCount: nat,
                      ghost fat: seq<nat>)
    returns (ok: bool, hdOffset': nat, nextFree': nat, freeCount': nat)
    requires UsableSector(disk.sectorSize) && 2 <= c < |fat|
    requires Cached(FAT32, disk.sectorSize, disk.bytes, base, buffer[..], hdOffset, c)
    requires fat[c] == NextCluster(FAT32, disk.sectorSize, disk.bytes, base, c)
    requires Describes(nextFree, freeCount, FreeClusters(fat, c))
    modifies buffer
    ensures ok <==> Reachable(FAT32, disk.sectorSize, disk.bytes, base, c)
    ensures ok ==> Cached(FAT32, disk.sectorSize, disk.bytes, base, buffer[..], hdOffset', c + 1)
    ensures ok ==> Describes(nextFree', freeCount', FreeClusters(fat, c + 1))
  {
    hide Describes, FreeClusters, Cached, Reachable;
    DescribesStep(fat, c, nextFree, freeCount);
    var entry;
    ok, entry, hdOffset' := EntryOrError(disk, FAT32, base, buffer, hdOffset, c);
    nextFree', freeCount' := nextFree, freeCount;
    if ok && entry == 0 {
      freeCount' := freeCount + 1;
      if nextFree == 0 {
        nextFree' := c;
      }
    }
  }

  lemma NothingScanned(sectorSize: nat, bytes: seq<byte>, base: nat, buffer: seq<byte>, fat: seq<nat>)
    requires UsableSector(sectorSize) && |buffer| == sectorSize && 2 <= |fat|
    ensures Cached(FAT32, sectorSize, bytes, base, buffer, base, 2) && ScanFits(FAT32, sectorSize, bytes, base, 1)
    ensures Describes(0, 0, FreeClusters(fat, 2))
  {
  }

  lemma ScanFitsStep(sectorSize: nat, bytes: seq<byte>, base: nat, c: nat, last: nat)
    requires UsableSector(sectorSize) && 2 <= c <= last && ScanFits(FAT32, sectorSize, bytes, base, c - 1)
    ensures ScanFits(FAT32, sectorSize, bytes, base, c) <==> Reachable(FAT32, sectorSize, bytes, base, c)
    ensures !Reachable(FAT32, sectorSize, bytes, base, c) ==> !ScanFits(FAT32, sectorSize, bytes, base, last)
  {
    hide Reachable;
  }

  /** fat32_free_info: the number of free clusters and the first of them, or 1 and two marks when a sector cannot be read. */
  method Fat32FreeInfo(disk: Disk, base: nat, noOfCluster: nat) returns (res: int, nextFree: nat, freeCount: nat)
    requires UsableSector(disk.sectorSize)
    ensures res == if ScanFits(FAT32, disk.sectorSize, disk.bytes, base, noOfCluster + 1) then 0 else 1
    ensures res != 0 ==> nextFree == freeCount == 0xFFFF_FFFF
    ensures res == 0 ==>
              Describes(nextFree, freeCount,
                        FreeClusters(Entries(FAT32, disk.sectorSize, disk.bytes, base, noOfCluster + 2), noOfCluster + 2))
  {
    hide Describes, FreeClusters, Cached, Reachable, Entries, ScanFits;
    ghost var fat := Entries(FAT32, disk.sectorSize, disk.bytes, base, noOfCluster + 2);
    var buffer := new byte[disk.sectorSize](_ => 0);
    var hdOffset := base;
    nextFree, freeCount := 0, 0;
    NothingScanned(disk.sectorSize, disk.bytes, base, buffer[..], fat);
    var prev := 2;
    while prev <= noOfCluster + 1
      invariant 2 <= prev <= noOfCluster + 2
      invariant Cached(FAT32, disk.sectorSize, disk.bytes, base, buffer[..], hdOffset, prev)
      invariant Describes(nextFree, freeCount, FreeClusters(fat, prev))
      invariant ScanFits(FAT32, disk.sectorSize, disk.bytes, base, prev - 1)
    {
      ScanFitsStep(disk.sectorSize, disk.bytes, base, prev, noOfCluster + 1);
      var ok;
      ok, hdOffset, nextFree, freeCount := CountCluster(disk, base, buffer, hdOffset, prev, nextFree, freeCount, fat);
      if !ok {
        return 1, 0xFFFF_FFFF, 0xFFFF_FFFF;
      }
      prev := prev + 1;
    }
    assert prev == noOfCluster + 2 && fat == Entries(FAT32, disk.sectorSize, disk.bytes, base, noOfCluster + 2);
    res := 0;
  }
}
