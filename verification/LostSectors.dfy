/** FAT scans that go on when a sector cannot be read: what they see then, and when that counts as free clusters. */
module LostSectors {
  import opened Arith
  import opened Bytes
  import opened Disks
  import opened FatIo
  import opened FatTable
  import opened Seqs

  /** Where the read for the entry of cluster c begins on the disk. */
  function ReadAt(t: FatType, sectorSize: nat, base: nat, c: nat): nat
    requires UsableSector(sectorSize)
  {
    base + SectorStart(t, sectorSize, c)
  }

  /** What the buffer holds when the scan looks at cluster c: the sectors of its entry, with zeros for what is lost. */
  function SeenBuffer(t: FatType, sectorSize: nat, bytes: seq<byte>, got: Delivery, base: nat, c: nat): (b: seq<byte>)
    requires UsableSector(sectorSize)
    ensures |b| == AccessSize(t, sectorSize)
  {
    Delivered(bytes, got, ReadAt(t, sectorSize, base, c), AccessSize(t, sectorSize))
  }

  /** The entry that the scan sees for cluster c. */
  function SeenEntry(t: FatType, sectorSize: nat, bytes: seq<byte>, got: Delivery, base: nat, c: nat): nat
    requires UsableSector(sectorSize)
  {
    var offset := OffsetInSector(t, sectorSize, c);
    OffsetFits(t, sectorSize, c);
    Decode(t, c, SeenBuffer(t, sectorSize, bytes, got, base, c)[offset..offset + EntryWidth(t)])
  }

  /** One value for each cluster below n. */
  ghost function Seen(t: FatType, sectorSize: nat, bytes: seq<byte>, got: Delivery, base: nat, n: nat): (fat: seq<nat>)
    requires UsableSector(sectorSize)
    ensures |fat| == n
    ensures forall c :: 0 <= c < n ==> fat[c] == SeenEntry(t, sectorSize, bytes, got, base, c)
  {
    seq(n, c requires 0 <= c < n => SeenEntry(t, sectorSize, bytes, got, base, c))
  }

  // ----- the cached reads -----

  /** The state of a FAT16 or FAT32 scan in front of cluster c: hdOffset is behind the sector of cluster c - 1. */
  ghost predicate AtSector(t: FatType, sectorSize: nat, bytes: seq<byte>, got: Delivery, base: nat, buffer: seq<byte>,
                           hdOffset: nat, c: nat)
    requires UsableSector(sectorSize) && 2 <= c
  {
    && (t == FAT16 || t == FAT32) && |buffer| == sectorSize
    && hdOffset == (if c == 2 then base else ReadAt(t, sectorSize, base, c - 1) + sectorSize)
    && (c > 2 ==> buffer == SeenBuffer(t, sectorSize, bytes, got, base, c - 1))
  }

  /** A FAT16 or FAT32 scan reads the sectors of the table one after the other. */
  lemma SectorStep(t: FatType, sectorSize: nat, base: nat, c: nat)
    requires UsableSector(sectorSize) && (t == FAT16 || t == FAT32) && 2 <= c
    ensures c == 2 ==> ReadAt(t, sectorSize, base, c) == base
    ensures c > 2 ==> ReadAt(t, sectorSize, base, c) == ReadAt(t, sectorSize, base, c - 1)
                      + if OffsetInSector(t, sectorSize, c) == 0 then sectorSize else 0
  {
    NextSector(t, sectorSize, c);
  }

  lemma AtFirstSector(t: FatType, sectorSize: nat, bytes: seq<byte>, got: Delivery, base: nat, buffer: seq<byte>)
    requires UsableSector(sectorSize) && (t == FAT16 || t == FAT32) && |buffer| == sectorSize
    ensures AtSector(t, sectorSize, bytes, got, base, buffer, base, 2)
  {
  }

  /** Try to read the sector when cluster c is the first one in it. */
  method KeepSector(disk: Disk, t: FatType, got: Delivery, ghost base: nat, buffer: array<byte>, hdOffset: nat, c: nat,
                    offset: nat)
    returns (hdOffset': nat)
    requires UsableSector(disk.sectorSize) && 2 <= c && offset == OffsetInSector(t, disk.sectorSize, c)
    requires AtSector(t, disk.sectorSize, disk.bytes, got, base, buffer[..], hdOffset, c)
    modifies buffer
    ensures AtSector(t, disk.sectorSize, disk.bytes, got, base, buffer[..], hdOffset', c + 1)
  {
    hide ReadAt, OffsetInSector, Delivered;
    SectorStep(t, disk.sectorSize, base, c);
    hdOffset' := hdOffset;
    if offset == 0 || c == 2 {
      disk.PreadAnyhow(buffer, disk.sectorSize, hdOffset, got);
      hdOffset' := hdOffset + disk.sectorSize;
    }
  }

  /** The entry of cluster c as the FAT16 and FAT32 scans see it. */
  method CachedEntry(disk: Disk, t: FatType, got: Delivery, ghost base: nat, buffer: array<byte>, hdOffset: nat, c: nat)
    returns (entry: nat, hdOffset': nat)
    requires UsableSector(disk.sectorSize) && 2 <= c
    requires AtSector(t, disk.sectorSize, disk.bytes, got, base, buffer[..], hdOffset, c)
    modifies buffer
    ensures AtSector(t, disk.sectorSize, disk.bytes, got, base, buffer[..], hdOffset', c + 1)
    ensures entry == SeenEntry(t, disk.sectorSize, disk.bytes, got, base, c)
  {
    hide SeenBuffer, ReadAt;
    var offset := SlotOffset(t, disk.sectorSize, c);
    hdOffset' := KeepSector(disk, t, got, base, buffer, hdOffset, c, offset);
    OffsetFits(t, disk.sectorSize, c);
    entry := Decode(t, c, buffer[..][offset..offset + EntryWidth(t)]);
  }

  /** The state of a FAT12 scan in front of cluster c: the two sectors from startPrev on have been asked for. */
  ghost predicate AtSectors(sectorSize: nat, bytes: seq<byte>, got: Delivery, base: nat, buffer: seq<byte>,
                            startPrev: nat, c: nat)
    requires UsableSector(sectorSize) && 2 <= c
  {
    && |buffer| == 2 * sectorSize
    && (c > 2 ==> startPrev == SectorStart(FAT12, sectorSize, c - 1)
                  && buffer == SeenBuffer(FAT12, sectorSize, bytes, got, base, c - 1))
  }

  lemma AtFirstSectors(sectorSize: nat, bytes: seq<byte>, got: Delivery, base: nat, buffer: seq<byte>)
    requires UsableSector(sectorSize) && |buffer| == 2 * sectorSize
    ensures AtSectors(sectorSize, bytes, got, base, buffer, 0, 2)
  {
  }

  /** Try to read two sectors when the first of them changes. */
  method KeepSectors(disk: Disk, got: Delivery, base: nat, buffer: array<byte>, startPrev: nat, c: nat, start: nat)
    returns (startPrev': nat)
    requires UsableSector(disk.sectorSize) && 2 <= c && start == SectorStart(FAT12, disk.sectorSize, c)
    requires AtSectors(disk.sectorSize, disk.bytes, got, base, buffer[..], startPrev, c)
    modifies buffer
    ensures AtSectors(disk.sectorSize, disk.bytes, got, base, buffer[..], startPrev', c + 1)
  {
    hide SectorStart, Delivered;
    startPrev' := startPrev;
    if start != startPrev || c == 2 {
      startPrev' := start;
      disk.PreadAnyhow(buffer, 2 * disk.sectorSize, base + start, got);
    }
  }

  /** The entry of cluster c as the FAT12 scan sees it. */
  method CachedEntry12(disk: Disk, got: Delivery, base: nat, buffer: array<byte>, startPrev: nat, c: nat)
    returns (entry: nat, startPrev': nat)
    requires UsableSector(disk.sectorSize) && 2 <= c
    requires AtSectors(disk.sectorSize, disk.bytes, got, base, buffer[..], startPrev, c)
    modifies buffer
    ensures AtSectors(disk.sectorSize, disk.bytes, got, base, buffer[..], startPrev', c + 1)
    ensures entry == SeenEntry(FAT12, disk.sectorSize, disk.bytes, got, base, c)
  {
    hide SectorStart, OffsetInSector, Decode, SeenBuffer;
    var start, offset := Locate(FAT12, disk.sectorSize, c);
    startPrev' := KeepSectors(disk, got, base, buffer, startPrev, c, start);
    entry := Decode(FAT12, c, buffer[..][offset..offset + 2]);
  }

  // ----- what the scans see -----

  /** Where the entry of cluster c begins on the disk. */
  function EntryAt(t: FatType, base: nat, c: nat): nat {
    base + EntryOffset(t, c)
  }

  predicate HasByte(size: nat, got: Delivery, at: nat, x: nat) {
    x < size && got(at, x)
  }

  /** Is byte k of the entry delivered when the scan reads for cluster c? */
  predicate Arrives(t: FatType, sectorSize: nat, size: nat, got: Delivery, base: nat, c: nat, k: nat)
    requires UsableSector(sectorSize)
  {
    HasByte(size, got, ReadAt(t, sectorSize, base, c), EntryAt(t, base, c) + k)
  }

  /** Every byte of the entry is delivered. */
  predicate IsWhole(t: FatType, sectorSize: nat, size: nat, got: Delivery, base: nat, c: nat)
    requires UsableSector(sectorSize)
  {
    forall k :: 0 <= k < EntryWidth(t) ==> Arrives(t, sectorSize, size, got, base, c, k)
  }

  /** No byte of the entry is delivered. */
  predicate IsLost(t: FatType, sectorSize: nat, size: nat, got: Delivery, base: nat, c: nat)
    requires UsableSector(sectorSize)
  {
    forall k :: 0 <= k < EntryWidth(t) ==> !Arrives(t, sectorSize, size, got, base, c, k)
  }

  /** The bytes in which the scan finds the entry: those of the table where they are delivered, and zeros. */
  lemma SeenRaw(t: FatType, sectorSize: nat, bytes: seq<byte>, got: Delivery, base: nat, c: nat) returns (raw: seq<byte>)
    requires UsableSector(sectorSize)
    ensures |raw| == EntryWidth(t) && SeenEntry(t, sectorSize, bytes, got, base, c) == Decode(t, c, raw)
    ensures forall k :: 0 <= k < EntryWidth(t) ==> raw[k] == ArrivedByte(t, sectorSize, bytes, got, base, c, k)
  {
    hide SectorStart, OffsetInSector, Decode, EntryOffset;
    SectorHoldsEntry(t, sectorSize, c);
    var offset := OffsetInSector(t, sectorSize, c);
    raw := SeenBuffer(t, sectorSize, bytes, got, base, c)[offset..offset + EntryWidth(t)];
    forall k | 0 <= k < EntryWidth(t)
      ensures raw[k] == ArrivedByte(t, sectorSize, bytes, got, base, c, k)
    {
      assert ReadAt(t, sectorSize, base, c) + (offset + k) == EntryAt(t, base, c) + k;
    }
  }

  /** Byte k of the entry, or zero if it is not delivered. */
  function ArrivedByte(t: FatType, sectorSize: nat, bytes: seq<byte>, got: Delivery, base: nat, c: nat, k: nat): byte
    requires UsableSector(sectorSize)
  {
    if Arrives(t, sectorSize, |bytes|, got, base, c, k) then bytes[EntryAt(t, base, c) + k] else 0
  }

  /** An entry that is delivered is seen as it is. */
  lemma WholeIsSeen(t: FatType, sectorSize: nat, bytes: seq<byte>, got: Delivery, base: nat, c: nat)
    requires UsableSector(sectorSize) && IsWhole(t, sectorSize, |bytes|, got, base, c)
    ensures HasEntry(t, bytes, base, c)
    ensures SeenEntry(t, sectorSize, bytes, got, base, c) == Entry(t, bytes, base, c)
  {
    hide Decode, SeenEntry, ReadAt, EntryOffset;
    var raw := SeenRaw(t, sectorSize, bytes, got, base, c);
    assert Arrives(t, sectorSize, |bytes|, got, base, c, EntryWidth(t) - 1);
    assert raw == RawEntry(t, bytes, base, c);
  }

  lemma DecodeZeros(t: FatType, c: nat, raw: seq<byte>)
    requires |raw| == EntryWidth(t) && forall k :: 0 <= k < |raw| ==> raw[k] == 0
    ensures Decode(t, c, raw) == 0
  {
  }

  /** An entry of which nothing is delivered is seen as free. */
  lemma LostIsFree(t: FatType, sectorSize: nat, bytes: seq<byte>, got: Delivery, base: nat, c: nat)
    requires UsableSector(sectorSize) && IsLost(t, sectorSize, |bytes|, got, base, c)
    ensures SeenEntry(t, sectorSize, bytes, got, base, c) == 0
  {
    hide Decode, SeenEntry, Arrives;
    var raw := SeenRaw(t, sectorSize, bytes, got, base, c);
    DecodeZeros(t, c, raw);
  }

  /** The table with 0 for the clusters whose entries are not delivered. */
  ghost function LostAsFree(t: FatType, sectorSize: nat, bytes: seq<byte>, got: Delivery, base: nat, n: nat): (fat: seq<nat>)
    requires UsableSector(sectorSize)
    ensures |fat| == n
    ensures forall c :: 0 <= c < n ==> fat[c] == ShownEntry(t, sectorSize, bytes, got, base, c)
  {
    seq(n, c requires 0 <= c < n => ShownEntry(t, sectorSize, bytes, got, base, c))
  }

  ghost function ShownEntry(t: FatType, sectorSize: nat, bytes: seq<byte>, got: Delivery, base: nat, c: nat): nat
    requires UsableSector(sectorSize)
  {
    if IsWhole(t, sectorSize, |bytes|, got, base, c) then
      WholeIsSeen(t, sectorSize, bytes, got, base, c);
      Entry(t, bytes, base, c)
    else 0
  }

  /** The entry of each cluster is delivered or lost, and never cut. */
  ghost predicate NoneIsCut(t: FatType, sectorSize: nat, size: nat, got: Delivery, base: nat, n: nat)
    requires UsableSector(sectorSize)
  {
    forall c :: 0 <= c < n ==> IsWhole(t, sectorSize, size, got, base, c) || IsLost(t, sectorSize, size, got, base, c)
  }

  /** Unreadable FAT sectors count as free clusters as long as no entry is cut. */
  lemma LostCountsAsFree(t: FatType, sectorSize: nat, bytes: seq<byte>, got: Delivery, base: nat, n: nat)
    requires UsableSector(sectorSize) && NoneIsCut(t, sectorSize, |bytes|, got, base, n)
    ensures Seen(t, sectorSize, bytes, got, base, n) == LostAsFree(t, sectorSize, bytes, got, base, n)
  {
    hide SeenEntry, IsWhole, IsLost, Entry;
    forall c | 0 <= c < n
      ensures SeenEntry(t, sectorSize, bytes, got, base, c) == ShownEntry(t, sectorSize, bytes, got, base, c)
    {
      if IsWhole(t, sectorSize, |bytes|, got, base, c) {
        WholeIsSeen(t, sectorSize, bytes, got, base, c);
      } else {
        LostIsFree(t, sectorSize, bytes, got, base, c);
      }
    }
  }

  /** A disk on which no half byte is zero. */
  function Elevens(size: nat): (bytes: seq<byte>)
    ensures |bytes| == size && forall i :: 0 <= i < size ==> bytes[i] == 0x11
  {
    seq<byte>(size, i => 0x11)
  }

  lemma DecodeElevens(t: FatType, c: nat, raw: seq<byte>, i: nat)
    requires t != NotFat && i < |raw| == EntryWidth(t) && raw[i] == 0x11
    requires forall k :: 0 <= k < |raw| ==> raw[k] == 0 || raw[k] == 0x11
    ensures Decode(t, c, raw) != 0
  {
    if t == FAT32 {
      assert raw[0] % 0x11 == raw[1] % 0x11 == raw[2] % 0x11 == raw[3] % 0x11 == 0;
    }
  }

  /** A cut entry is not seen as free on such a disk. */
  lemma CutIsNotFree(t: FatType, sectorSize: nat, size: nat, got: Delivery, base: nat, c: nat)
    requires UsableSector(sectorSize) && t != NotFat && !IsLost(t, sectorSize, size, got, base, c)
    ensures SeenEntry(t, sectorSize, Elevens(size), got, base, c) != 0
  {
    hide Decode, SeenEntry, ReadAt, EntryAt, Elevens;
    var raw := SeenRaw(t, sectorSize, Elevens(size), got, base, c);
    var i: nat :| i < EntryWidth(t) && Arrives(t, sectorSize, size, got, base, c, i);
    DecodeElevens(t, c, raw, i);
  }

  /** On every disk of this size the scan sees lost entries as free, and all others as they are. */
  ghost predicate AlwaysCountsAsFree(t: FatType, sectorSize: nat, size: nat, got: Delivery, base: nat, n: nat)
    requires UsableSector(sectorSize)
  {
    forall bytes: seq<byte> :: |bytes| == size ==>
      Seen(t, sectorSize, bytes, got, base, n) == LostAsFree(t, sectorSize, bytes, got, base, n)
  }

  /** Whatever the disk holds, unreadable FAT sectors count as free clusters exactly if no entry is cut. */
  lemma LostCountsAsFreeIff(t: FatType, sectorSize: nat, size: nat, got: Delivery, base: nat, n: nat)
    requires UsableSector(sectorSize) && t != NotFat
    ensures AlwaysCountsAsFree(t, sectorSize, size, got, base, n) <==> NoneIsCut(t, sectorSize, size, got, base, n)
  {
    hide SeenEntry, IsWhole, IsLost;
    if NoneIsCut(t, sectorSize, size, got, base, n) {
      forall bytes: seq<byte> | |bytes| == size
        ensures Seen(t, sectorSize, bytes, got, base, n) == LostAsFree(t, sectorSize, bytes, got, base, n)
      {
        LostCountsAsFree(t, sectorSize, bytes, got, base, n);
      }
    } else {
      var c :| 0 <= c < n && !IsWhole(t, sectorSize, size, got, base, c) && !IsLost(t, sectorSize, size, got, base, c);
      CutIsNotFree(t, sectorSize, size, got, base, c);
      var bytes := Elevens(size);
      assert Seen(t, sectorSize, bytes, got, base, n)[c] != LostAsFree(t, sectorSize, bytes, got, base, n)[c];
    }
  }

  // ----- sectors -----

  /** Is x a byte of the sector at s? The sectors begin at multiples of the sector size from `base` on. */
  predicate InSector(sectorSize: nat, base: nat, s: nat, x: nat)
    requires 0 < sectorSize
  {
    base <= s && Multiple(s - base, sectorSize) && s <= x < s + sectorSize
  }

  /** A read delivers a sector or loses it. */
  ghost predicate BySectors(sectorSize: nat, size: nat, got: Delivery, base: nat)
    requires 0 < sectorSize
  {
    forall at: nat, s: nat, x: nat ::
      InSector(sectorSize, base, s, x) ==> (HasByte(size, got, at, x) <==> HasByte(size, got, at, s))
  }

  /** The entry lies across two sectors: a byte at the end of one and a byte at the beginning of the next. */
  predicate IsAcross(t: FatType, sectorSize: nat, c: nat)
    requires UsableSector(sectorSize)
  {
    t == FAT12 && OffsetInSector(FAT12, sectorSize, c) == sectorSize - 1
  }

  /** Are the two sectors of an entry that lies across them both delivered, or both lost? */
  predicate HalvesAgree(sectorSize: nat, size: nat, got: Delivery, base: nat, c: nat)
    requires UsableSector(sectorSize)
  {
    var at := ReadAt(FAT12, sectorSize, base, c);
    HasByte(size, got, at, at) <==> HasByte(size, got, at, at + sectorSize)
  }

  /** An entry inside one sector is not cut, and one across two sectors is cut if only one of them is delivered. */
  lemma CutIff(t: FatType, sectorSize: nat, size: nat, got: Delivery, base: nat, c: nat)
    requires UsableSector(sectorSize) && BySectors(sectorSize, size, got, base)
    ensures IsWhole(t, sectorSize, size, got, base, c) || IsLost(t, sectorSize, size, got, base, c)
            <==> (IsAcross(t, sectorSize, c) ==> HalvesAgree(sectorSize, size, got, base, c))
  {
    hide HasByte, BySectors, SectorStart, OffsetInSector, EntryOffset;
    SectorHoldsEntry(t, sectorSize, c);
    InsideSector(t, sectorSize, c);
    var at, offset := ReadAt(t, sectorSize, base, c), OffsetInSector(t, sectorSize, c);
    forall k | 0 <= k < EntryWidth(t)
      ensures Arrives(t, sectorSize, size, got, base, c, k)
              <==> HasByte(size, got, at, if offset + k < sectorSize then at else at + sectorSize)
    {
      assert EntryAt(t, base, c) + k == at + (offset + k);
      ByteOfSector(t, sectorSize, size, got, base, c, offset + k);
    }
    assert Arrives(t, sectorSize, size, got, base, c, 0) <==> HasByte(size, got, at, at);
    assert IsAcross(t, sectorSize, c) ==>
             (Arrives(t, sectorSize, size, got, base, c, 1) <==> HasByte(size, got, at, at + sectorSize));
  }

  /** Only FAT12 entries reach into a second sector, by one byte. */
  lemma InsideSector(t: FatType, sectorSize: nat, c: nat)
    requires UsableSector(sectorSize)
    ensures OffsetInSector(t, sectorSize, c) < sectorSize
    ensures OffsetInSector(t, sectorSize, c) + EntryWidth(t) > sectorSize <==> IsAcross(t, sectorSize, c)
  {
  }

  /** Byte j of a read is delivered exactly if the sector in which it lies is. */
  lemma ByteOfSector(t: FatType, sectorSize: nat, size: nat, got: Delivery, base: nat, c: nat, j: nat)
    requires UsableSector(sectorSize) && BySectors(sectorSize, size, got, base) && j < 2 * sectorSize
    ensures var at := ReadAt(t, sectorSize, base, c);
            HasByte(size, got, at, at + j) <==> HasByte(size, got, at, if j < sectorSize then at else at + sectorSize)
  {
    hide HasByte, SectorStart;
    StartIsMultiple(t, sectorSize, c);
    var at := ReadAt(t, sectorSize, base, c);
    var s := if j < sectorSize then at else at + sectorSize;
    assert Multiple(at + sectorSize - base, sectorSize);
    assert InSector(sectorSize, base, s, at + j);
  }

  /**
   * When reads lose whole sectors, these count as free clusters on all disks exactly if no two of them, of which one is
   * lost and one is not, share an entry.
   */
  lemma LostSectorsCountAsFreeIff(t: FatType, sectorSize: nat, size: nat, got: Delivery, base: nat, n: nat)
    requires UsableSector(sectorSize) && t != NotFat && BySectors(sectorSize, size, got, base)
    ensures AlwaysCountsAsFree(t, sectorSize, size, got, base, n)
            <==> forall c :: 0 <= c < n && IsAcross(t, sectorSize, c) ==> HalvesAgree(sectorSize, size, got, base, c)
  {
    hide AlwaysCountsAsFree, IsWhole, IsLost, IsAcross, HalvesAgree, BySectors;
    LostCountsAsFreeIff(t, sectorSize, size, got, base, n);
    forall c | 0 <= c < n
      ensures IsWhole(t, sectorSize, size, got, base, c) || IsLost(t, sectorSize, size, got, base, c)
              <==> (IsAcross(t, sectorSize, c) ==> HalvesAgree(sectorSize, size, got, base, c))
    {
      CutIff(t, sectorSize, size, got, base, c);
    }
  }

  /** In a FAT16 or FAT32, lost sectors count as free clusters, whichever they are and whatever the disk holds. */
  lemma LostSectorsAreFree(t: FatType, sectorSize: nat, bytes: seq<byte>, got: Delivery, base: nat, n: nat)
    requires UsableSector(sectorSize) && (t == FAT16 || t == FAT32) && BySectors(sectorSize, |bytes|, got, base)
    ensures Seen(t, sectorSize, bytes, got, base, n) == LostAsFree(t, sectorSize, bytes, got, base, n)
  {
    hide IsWhole, IsLost, BySectors, HalvesAgree, Seen, LostAsFree;
    forall c | 0 <= c < n
      ensures IsWhole(t, sectorSize, |bytes|, got, base, c) || IsLost(t, sectorSize, |bytes|, got, base, c)
    {
      CutIff(t, sectorSize, |bytes|, got, base, c);
    }
    LostCountsAsFree(t, sectorSize, bytes, got, base, n);
  }

  lemma DecodeHalf(c: nat, raw: seq<byte>)
    requires |raw| == 2
    ensures raw[1] == 0 ==> Decode(FAT12, c, raw) == if c % 2 == 0 then raw[0] else raw[0] / 16
    ensures raw[0] == 0 ==> Decode(FAT12, c, raw) == if c % 2 == 0 then (raw[1] as nat) % 16 * 256 else (raw[1] as nat) * 16
  {
    hide Le16;
    if c % 2 == 0 {
      LowTwelve(raw);
    } else {
      HighTwelve(raw);
    }
  }

  /** What the scan sees of a FAT12 entry whose second byte is lost, or its first one. */
  lemma CutEntryIsSeen(sectorSize: nat, bytes: seq<byte>, got: Delivery, base: nat, c: nat)
    requires UsableSector(sectorSize)
    ensures var seen, x := SeenEntry(FAT12, sectorSize, bytes, got, base, c), EntryAt(FAT12, base, c);
            var first := Arrives(FAT12, sectorSize, |bytes|, got, base, c, 0);
            var second := Arrives(FAT12, sectorSize, |bytes|, got, base, c, 1);
            && (first && !second ==> seen == if c % 2 == 0 then bytes[x] else bytes[x] / 16)
            && (!first && second ==> seen == if c % 2 == 0 then (bytes[x + 1] as nat) % 16 * 256 else (bytes[x + 1] as nat) * 16)
  {
    hide SeenEntry, Arrives, EntryOffset, Decode;
    var raw := SeenRaw(FAT12, sectorSize, bytes, got, base, c);
    DecodeHalf(c, raw);
    assert raw[0] == ArrivedByte(FAT12, sectorSize, bytes, got, base, c, 0);
    assert raw[1] == ArrivedByte(FAT12, sectorSize, bytes, got, base, c, 1);
  }

  /**
   * A FAT12 behind one reserved sector, on a disk whose sector 3 cannot be read: cluster 682 has its entry across
   * sectors 2 and 3, and it is taken for allocated unless the last byte of sector 2 is zero.
   */
  lemma CutEntrySample(bytes: seq<byte>)
    requires 2048 <= |bytes|
    ensures var got := (at: nat, x: nat) => !(1536 <= x < 2048);
            && IsAcross(FAT12, 512, 682) && !IsWhole(FAT12, 512, |bytes|, got, 512, 682)
            && SeenEntry(FAT12, 512, bytes, got, 512, 682) == bytes[1535]
  {
    var got := (at: nat, x: nat) => !(1536 <= x < 2048);
    assert Mod(1023, 512) == Mod(511, 512) == 511;
    CutEntryIsSeen(512, bytes, got, 512, 682);
    assert !Arrives(FAT12, 512, |bytes|, got, 512, 682, 1);
  }

  /** Every entry is delivered, and get_next_cluster can read it. */
  ghost predicate AllAreWhole(t: FatType, sectorSize: nat, bytes: seq<byte>, got: Delivery, base: nat, n: nat)
    requires UsableSector(sectorSize)
  {
    forall c :: 0 <= c < n ==>
      IsWhole(t, sectorSize, |bytes|, got, base, c) && Reachable(t, sectorSize, bytes, base, c)
  }

  /** When every sector can be read, the scan sees what get_next_cluster answers. */
  lemma AllShown(t: FatType, sectorSize: nat, bytes: seq<byte>, got: Delivery, base: nat, n: nat)
    requires UsableSector(sectorSize) && t != NotFat
    requires AllAreWhole(t, sectorSize, bytes, got, base, n)
    ensures Seen(t, sectorSize, bytes, got, base, n) == Entries(t, sectorSize, bytes, base, n)
  {
    hide SeenEntry, IsWhole, Reachable;
    forall c | 0 <= c < n
      ensures SeenEntry(t, sectorSize, bytes, got, base, c) == NextCluster(t, sectorSize, bytes, base, c)
    {
      WholeIsSeen(t, sectorSize, bytes, got, base, c);
    }
  }
}
