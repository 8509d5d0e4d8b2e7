/** repair_FAT_table for FAT16 and FAT32: the copies are scanned and repaired one sector at a time. */
module FatRepair {
  import opened Arith
  import opened Bytes
  import opened Disks
  import opened FatSectors

  type Sector = seq<nat>

  // ----- one sector -----

  /** What the scan knows about the volume; per is the number of entries in a sector. */
  datatype Volume = Volume(z: WordSize, per: nat, noOfCluster: nat, root: nat) {
    ghost predicate Valid() {
      4 <= per
    }

    function BadMark(): nat {
      if z == Two then 0xFFF7 else 0x0FFF_FFF7
    }

    /** FAT16_EOC or FAT32_EOC. */
    function EndOfChain(): nat {
      if z == Two then 0xFFF8 else 0x0FFF_FFF8
    }

    /** The entry in a word: FAT32 uses 28 bits. */
    function Next(word: nat): nat {
      if z == Two then word else word % 0x1000_0000
    }

    /** A word the scan replaces by an end-of-chain mark. */
    predicate Bad(cluster: nat, word: nat) {
      var next := Next(word);
      || (next < BadMark() && (next == 1 || next > noOfCluster + 1))
      || (z == Four && cluster == root && next == 0)
    }

    predicate IsSector(s: seq<nat>) {
      |s| == per
    }
  }

  /** A sector buffer and whether the scan has changed it. */
  datatype Scanned = Scanned(sector: seq<nat>, corrupted: bool)

  /** The first word of a sector that belongs to a cluster: clusters 0 and 1 do not exist. */
  function FirstWord(base: nat): nat {
    if base == 0 then 2 else 0
  }

  /** One cluster: word w of the sector whose first word is for cluster `base`. */
  function ScanWord(p: Volume, st: Scanned, base: nat, w: nat): Scanned
    requires w < |st.sector|
  {
    if p.Bad(base + w, st.sector[w]) then Scanned(st.sector[w := p.EndOfChain()], true) else st
  }

  /** The sector after its words below w have been scanned. */
  ghost function ScanTo(p: Volume, s: seq<nat>, base: nat, w: nat): (r: Scanned)
    requires w <= |s|
    ensures |r.sector| == |s|
  {
    if w <= FirstWord(base) then Scanned(s, false) else ScanWord(p, ScanTo(p, s, base, w - 1), base, w - 1)
  }

  /** Words of a sector that belong to clusters up to noOfCluster + 1. */
  function WordCount(p: Volume, base: nat): nat {
    Min(p.per, if base <= p.noOfCluster + 2 then p.noOfCluster + 2 - base else 0)
  }

  /** The completely scanned sector. */
  ghost function Scan(p: Volume, s: seq<nat>, base: nat): (r: Scanned)
    requires p.IsSector(s)
    ensures p.IsSector(r.sector)
  {
    ScanTo(p, s, base, WordCount(p, base))
  }

  /** No entry of an existing cluster is bad. */
  ghost predicate Clean(p: Volume, s: seq<nat>, base: nat)
    requires p.IsSector(s)
  {
    forall k :: FirstWord(base) <= k < WordCount(p, base) ==> !p.Bad(base + k, s[k])
  }

  /**
   * May this value stand in an entry? It may be free, unless it is the entry of the FAT32 root directory, or the number
   * of a cluster, or anything from the mark of a bad cluster on.
   */
  predicate IsSound(z: WordSize, noOfCluster: nat, isRoot: bool, entry: nat) {
    || (entry == 0 && !(z == Four && isRoot))
    || 2 <= entry <= noOfCluster + 1
    || (if z == Two then 0xFFF7 else 0x0FFF_FFF7) <= entry
  }

  /** The same for the word that holds the entry: FAT32 leaves its four high bits out. */
  predicate IsSoundWord(p: Volume, cluster: nat, word: nat) {
    IsSound(p.z, p.noOfCluster, cluster == p.root, if p.z == Two then word else word % 0x1000_0000)
  }

  /** The scan replaces exactly the entries that are not sound. */
  lemma BadIff(p: Volume, cluster: nat, word: nat)
    ensures p.Bad(cluster, word) <==> !IsSoundWord(p, cluster, word)
  {
  }

  lemma EndOfChainIsGood(p: Volume)
    ensures forall c :: !p.Bad(c, p.EndOfChain())
  {
  }

  /** Word by word meaning of a scan: bad entries become end-of-chain, everything else stays. */
  lemma {:induction false} ScanToMeaning(p: Volume, s: seq<nat>, base: nat, w: nat)
    requires w <= |s|
    ensures var r := ScanTo(p, s, base, w);
            && (forall k :: 0 <= k < |s| ==>
                  r.sector[k] == if FirstWord(base) <= k < w && p.Bad(base + k, s[k]) then p.EndOfChain() else s[k])
            && (r.corrupted <==> exists k :: FirstWord(base) <= k < w && p.Bad(base + k, s[k]))
  {
    if w > FirstWord(base) {
      ScanToMeaning(p, s, base, w - 1);
    }
  }

  /** A scanned sector is clean, and a sector is clean exactly when the scan does not touch it. */
  lemma ScanIsClean(p: Volume, s: seq<nat>, base: nat)
    requires p.IsSector(s)
    ensures Clean(p, Scan(p, s, base).sector, base)
    ensures Clean(p, s, base) <==> !Scan(p, s, base).corrupted
    ensures Clean(p, s, base) <==> Scan(p, s, base).sector == s
  {
    ScanToMeaning(p, s, base, WordCount(p, base));
    EndOfChainIsGood(p);
    var fixed := Scan(p, s, base).sector;
    if !Clean(p, s, base) {
      var k :| FirstWord(base) <= k < WordCount(p, base) && p.Bad(base + k, s[k]);
      assert fixed[k] == p.EndOfChain() != s[k];
    } else {
      assert fixed == s;
    }
  }

  // ----- the copies on disk -----

  /** Sector numbers of the FAT copies: the first of the first copy, and the length of a copy. */
  datatype Layout = Layout(part: nat, startFat: nat, fatLength: nat, fats: nat)

  /** Byte address of sector i of copy k. */
  function SectorAddress(l: Layout, sectorSize: nat, k: nat, i: nat): nat {
    l.part + (l.startFat + l.fatLength * k + i) * sectorSize
  }

  /** The scan of m sectors stays inside each copy, and the copies on the disk. */
  ghost predicate CopiesFit(l: Layout, disk: Disk, m: nat)
    reads disk
  {
    && m <= l.fatLength && 0 < disk.sectorSize
    && forall k, i :: 0 <= k < l.fats && 0 <= i < m ==>
         SectorAddress(l, disk.sectorSize, k, i) + disk.sectorSize <= |disk.bytes|
  }

  /** The sectors of both copies as the repair sees them: copies[k][i] is sector i of copy k. */
  ghost function SectorAt(z: WordSize, l: Layout, sectorSize: nat, bytes: seq<byte>, k: nat, i: nat): seq<nat>
    requires SectorAddress(l, sectorSize, k, i) + sectorSize <= |bytes|
  {
    WordsOf(z, bytes[SectorAddress(l, sectorSize, k, i)..SectorAddress(l, sectorSize, k, i) + sectorSize])
  }

  /** The first m sectors of every copy. */
  ghost function Copies(z: WordSize, l: Layout, sectorSize: nat, bytes: seq<byte>, m: nat): (c: seq<seq<Sector>>)
    requires forall k, i :: 0 <= k < l.fats && 0 <= i < m ==> SectorAddress(l, sectorSize, k, i) + sectorSize <= |bytes|
    ensures |c| == l.fats
    ensures forall k :: 0 <= k < |c| ==> |c[k]| == m
    ensures forall k, i :: 0 <= k < |c| && 0 <= i < m ==> c[k][i] == SectorAt(z, l, sectorSize, bytes, k, i)
  {
    seq(l.fats, k requires 0 <= k < l.fats => seq(m, i requires 0 <= i < m => SectorAt(z, l, sectorSize, bytes, k, i)))
  }

  /** Different sectors of the copies do not overlap. */
  lemma SectorsApart(l: Layout, sectorSize: nat, k: nat, i: nat, k': nat, i': nat)
    requires i < l.fatLength && i' < l.fatLength && (k != k' || i != i')
    ensures SectorAddress(l, sectorSize, k, i) + sectorSize <= SectorAddress(l, sectorSize, k', i')
            || SectorAddress(l, sectorSize, k', i') + sectorSize <= SectorAddress(l, sectorSize, k, i)
  {
    MulMonotone(l.fatLength, k, k');
    MulMonotone(l.fatLength, k', k);
    var a, b := l.startFat + l.fatLength * k + i, l.startFat + l.fatLength * k' + i';
    assert a != b;
    MulMonotone(sectorSize, a, b);
    MulMonotone(sectorSize, b, a);
    assert sectorSize * a == a * sectorSize && sectorSize * b == b * sectorSize;
  }

  /** pread of one FAT sector into a buffer of words. */
  method ReadSector(disk: Disk, z: WordSize, l: Layout, k: nat, i: nat) returns (s: seq<nat>)
    requires SectorAddress(l, disk.sectorSize, k, i) + disk.sectorSize <= |disk.bytes|
    ensures s == SectorAt(z, l, disk.sectorSize, disk.bytes, k, i)
    ensures Fits(z, s) && |s| * z.Bytes() <= disk.sectorSize < |s| * z.Bytes() + z.Bytes()
  {
    var buffer := new byte[disk.sectorSize](_ => 0);
    var _ := disk.PreadAll(buffer, SectorAddress(l, disk.sectorSize, k, i));
    s := WordsOf(z, buffer[..]);
    WordsFit(z, buffer[..]);
  }

  /** pwrite of one FAT sector: it changes that sector of that copy and no other byte. */
  method WriteSector(disk: Disk, z: WordSize, l: Layout, k: nat, i: nat, s: seq<nat>, ghost m: nat)
    requires CopiesFit(l, disk, m) && k < l.fats && i < m
    requires Fits(z, s) && |s| * z.Bytes() == disk.sectorSize
    modifies disk`bytes
    ensures CopiesFit(l, disk, m) && |disk.bytes| == |old(disk.bytes)|
    ensures var copies := Copies(z, l, disk.sectorSize, old(disk.bytes), m);
            Copies(z, l, disk.sectorSize, disk.bytes, m) == copies[k := copies[k][i := s]]
    ensures forall x :: 0 <= x < |disk.bytes| && !InFatSector(l, disk.sectorSize, m, x) ==> disk.bytes[x] == old(disk.bytes)[x]
  {
    var b := BytesOf(z, s);
    var buffer := new byte[disk.sectorSize](j requires 0 <= j < disk.sectorSize => b[j]);
    assert buffer[..] == b;
    var at := SectorAddress(l, disk.sectorSize, k, i);
    PatchSector(z, l, disk.sectorSize, disk.bytes, k, i, s, m);
    var _ := disk.PwriteAll(buffer, at);
  }

  /** The bytes of one sector replaced: that sector of that copy changes, and nothing else. */
  lemma PatchSector(z: WordSize, l: Layout, sectorSize: nat, bytes: seq<byte>, k: nat, i: nat, s: Sector, m: nat)
    requires m <= l.fatLength && k < l.fats && i < m
    requires forall k, i :: 0 <= k < l.fats && 0 <= i < m ==> SectorAddress(l, sectorSize, k, i) + sectorSize <= |bytes|
    requires Fits(z, s) && |BytesOf(z, s)| == sectorSize > 0
    ensures var bytes' := Patch(bytes, SectorAddress(l, sectorSize, k, i), BytesOf(z, s));
            var copies := Copies(z, l, sectorSize, bytes, m);
            && Copies(z, l, sectorSize, bytes', m) == copies[k := copies[k][i := s]]
            && forall x :: 0 <= x < |bytes| && !InFatSector(l, sectorSize, m, x) ==> bytes'[x] == bytes[x]
  {
    var at := SectorAddress(l, sectorSize, k, i);
    var bytes' := Patch(bytes, at, BytesOf(z, s));
    forall k', i' | 0 <= k' < l.fats && 0 <= i' < m
      ensures SectorAt(z, l, sectorSize, bytes', k', i')
              == if k' == k && i' == i then s else SectorAt(z, l, sectorSize, bytes, k', i')
    {
      PatchOneSector(z, l, sectorSize, bytes, k, i, s, k', i');
    }
    CopiesAgree(z, l, sectorSize, bytes, bytes', k, i, s, m);
    forall x | 0 <= x < |bytes| && !InFatSector(l, sectorSize, m, x)
      ensures bytes'[x] == bytes[x]
    {
      assert !InSector(l, sectorSize, k, i, x);
    }
  }

  lemma PatchOneSector(z: WordSize, l: Layout, sectorSize: nat, bytes: seq<byte>, k: nat, i: nat, s: Sector, k': nat, i': nat)
    requires i < l.fatLength && i' < l.fatLength
    requires SectorAddress(l, sectorSize, k, i) + sectorSize <= |bytes|
    requires SectorAddress(l, sectorSize, k', i') + sectorSize <= |bytes|
    requires Fits(z, s) && |BytesOf(z, s)| == sectorSize > 0
    ensures var bytes' := Patch(bytes, SectorAddress(l, sectorSize, k, i), BytesOf(z, s));
            SectorAt(z, l, sectorSize, bytes', k', i')
            == if k' == k && i' == i then s else SectorAt(z, l, sectorSize, bytes, k', i')
  {
    if k' != k || i' != i {
      SectorsApart(l, sectorSize, k, i, k', i');
    }
    PatchWords(z, bytes, SectorAddress(l, sectorSize, k, i), s, SectorAddress(l, sectorSize, k', i'), sectorSize);
  }

  lemma PatchWords(z: WordSize, bytes: seq<byte>, at: nat, s: Sector, at': nat, n: nat)
    requires Fits(z, s) && |BytesOf(z, s)| == n && at + n <= |bytes| && at' + n <= |bytes|
    requires at' == at || at' + n <= at || at + n <= at'
    ensures WordsOf(z, Patch(bytes, at, BytesOf(z, s))[at'..at' + n])
            == if at' == at then s else WordsOf(z, bytes[at'..at' + n])
  {
    PatchSlice(bytes, at, BytesOf(z, s), at');
    WordsOfBytesOf(z, s);
  }

  lemma PatchSlice(bytes: seq<byte>, at: nat, b: seq<byte>, at': nat)
    requires at + |b| <= |bytes| && at' + |b| <= |bytes|
    ensures at' == at ==> Patch(bytes, at, b)[at'..at' + |b|] == b
    ensures at' + |b| <= at || at + |b| <= at' ==>
              Patch(bytes, at, b)[at'..at' + |b|] == bytes[at'..at' + |b|]
  {
  }

  lemma CopiesAgree(z: WordSize, l: Layout, sectorSize: nat, bytes: seq<byte>, bytes': seq<byte>,
                    k: nat, i: nat, s: Sector, m: nat)
    requires k < l.fats && i < m && |bytes| == |bytes'|
    requires forall k, i :: 0 <= k < l.fats && 0 <= i < m ==> SectorAddress(l, sectorSize, k, i) + sectorSize <= |bytes|
    requires forall k', i' :: 0 <= k' < l.fats && 0 <= i' < m ==>
               SectorAt(z, l, sectorSize, bytes', k', i')
               == if k' == k && i' == i then s else SectorAt(z, l, sectorSize, bytes, k', i')
    ensures var copies := Copies(z, l, sectorSize, bytes, m);
            Copies(z, l, sectorSize, bytes', m) == copies[k := copies[k][i := s]]
  {
    var copies := Copies(z, l, sectorSize, bytes, m);
    var a, b := Copies(z, l, sectorSize, bytes', m), copies[k := copies[k][i := s]];
    forall k' | 0 <= k' < l.fats ensures a[k'] == b[k'] {
    }
  }

  predicate InSector(l: Layout, sectorSize: nat, k: nat, i: nat, x: int) {
    SectorAddress(l, sectorSize, k, i) <= x < SectorAddress(l, sectorSize, k, i) + sectorSize
  }

  /** Byte x belongs to one of the first m sectors of some copy. */
  ghost predicate InFatSector(l: Layout, sectorSize: nat, m: nat, x: int) {
    exists k, i :: 0 <= k < l.fats && 0 <= i < m && InSector(l, sectorSize, k, i, x)
  }
}
