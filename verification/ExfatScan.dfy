/** exfat_remove_used_space: the same coalescing over the allocation bitmap of an exFAT volume. */
module ExfatScan {
  import opened Arith
  import opened Bytes
  import opened Disks
  import opened FatIo
  import opened FatScan
  import opened FatTable
  import opened SearchSpaces

  /** Bit n of a byte, counted from the lowest. */
  function Bit(b: byte, n: nat): bool {
    if n == 0 then b % 2 == 1 else Bit(b / 2, n - 1)
  }

  /** Bit n of a sequence of bytes. */
  function BitOf(bytes: seq<byte>, n: nat): bool
    requires n < 8 * |bytes|
  {
    Bit(bytes[n / 8], n % 8)
  }

  /**
   * What the boot sector and the root directory say: the byte offset of the partition, the sizes of blocks and clusters,
   * the blocks where the clusters and the FAT begin, the first cluster of the bitmap and the number of clusters.
   */
  datatype Volume = Volume(part: nat, blockSize: nat, blocksPerCluster: nat, clusBlock: nat, fatBlock: nat, first: nat,
                           total: nat) {
    function ClusterSize(): nat {
      blocksPerCluster * blockSize
    }

    /** exfat_cluster_to_offset, with its block number in 32 bits. */
    function ClusterOffset(c: nat): nat {
      ((c + 0xFFFF_FFFE) % 0x1_0000_0000 * blocksPerCluster % 0x1_0000_0000 + clusBlock) % 0x1_0000_0000 * blockSize
    }

    /** start_exfat1: where the FAT begins in the partition, in bytes. */
    function FatStart(): nat {
      fatBlock * blockSize
    }

    /** Where get_next_cluster looks for the FAT, when it is given bytes for sectors. */
    function LookupBase(sectorSize: nat): nat {
      part + FatStart() * sectorSize
    }

    /** Where the FAT is. */
    function FatBase(): nat {
      part + FatStart()
    }

    function Data(): nat {
      part + clusBlock * blockSize
    }

    /** Clusters of at least four bytes, whose blocks have 32-bit numbers. */
    predicate Sane() {
      && 4 <= ClusterSize() && 2 <= Data() && 0 < blocksPerCluster
      && clusBlock + total * blocksPerCluster < 0x1_0000_0000
    }
  }

  lemma MulSplit(a: nat, b: nat, k: nat)
    ensures (a + b) * k == a * k + b * k
  {
  }

  lemma MulLess(a: nat, b: nat, k: nat)
    requires a < b
    ensures a * k + k <= b * k
  {
    MulSplit(a + 1, b - a - 1, k);
    MulSplit(a, 1, k);
  }

  /** The clusters of a sane volume lie one behind the other. */
  lemma OffsetIsAddress(v: Volume, c: nat)
    requires v.Sane() && 2 <= c <= v.total + 1
    ensures v.part + v.ClusterOffset(c) == Address(v.Data(), v.ClusterSize(), c)
  {
    MulLess(c - 2, v.total, v.blocksPerCluster);
    MulLess(0, v.blocksPerCluster, c - 2);
    NoWrap(c, (c - 2) * v.blocksPerCluster, v.clusBlock);
    AddressClosedForm(v.Data(), v.ClusterSize(), c);
    Distribute(v.clusBlock, c - 2, v.blocksPerCluster, v.blockSize);
  }

  lemma NoWrap(c: nat, blocks: nat, clusBlock: nat)
    requires 2 <= c && c - 2 <= blocks && clusBlock + blocks < 0x1_0000_0000
    ensures (c + 0xFFFF_FFFE) % 0x1_0000_0000 == c - 2
    ensures blocks % 0x1_0000_0000 == blocks && (blocks + clusBlock) % 0x1_0000_0000 == blocks + clusBlock
  {
  }

  /** For a cluster with a 32-bit number, reducing the block number once at the end comes to the same. */
  lemma OffsetIsReducedOnce(v: Volume, c: nat)
    requires 2 <= c < 0x1_0000_0000
    ensures v.ClusterOffset(c) == (v.clusBlock + (c - 2) * v.blocksPerCluster) % 0x1_0000_0000 * v.blockSize
  {
    var blocks := (c - 2) * v.blocksPerCluster;
    assert (c + 0xFFFF_FFFE) % 0x1_0000_0000 == c - 2;
    AddReduced(blocks, v.clusBlock);
  }

  lemma AddReduced(x: nat, y: nat)
    ensures (x % 0x1_0000_0000 + y) % 0x1_0000_0000 == (y + x) % 0x1_0000_0000
  {
    var q, r := (x % 0x1_0000_0000 + y) / 0x1_0000_0000, (x % 0x1_0000_0000 + y) % 0x1_0000_0000;
    DivModUnique(y + x, 0x1_0000_0000, x / 0x1_0000_0000 + q, r);
  }

  /** What an attempt to read cluster c leaves in the buffer. */
  function ClusterSeen(v: Volume, bytes: seq<byte>, got: Delivery, c: nat): (r: seq<byte>)
    ensures |r| == v.ClusterSize()
  {
    Delivered(bytes, got, v.part + v.ClusterOffset(c), v.ClusterSize())
  }

  /** The k-th cluster of the bitmap, when the FAT is looked for at `base`. */
  function BitmapCluster(v: Volume, sectorSize: nat, bytes: seq<byte>, base: nat, k: nat): nat
    requires UsableSector(sectorSize)
  {
    if k == 0 then v.first else NextCluster(FAT32, sectorSize, bytes, base, BitmapCluster(v, sectorSize, bytes, base, k - 1))
  }

  /** What the buffer holds after the k-th cluster of the bitmap has been read. */
  function BitmapBuffer(v: Volume, sectorSize: nat, bytes: seq<byte>, got: Delivery, base: nat, k: nat): (r: seq<byte>)
    requires UsableSector(sectorSize)
    ensures |r| == v.ClusterSize()
  {
    ClusterSeen(v, bytes, got, BitmapCluster(v, sectorSize, bytes, base, k))
  }

  /** Is cluster c marked in the bitmap that is seen with the FAT at `base`? */
  ghost function IsMarkedAt(v: Volume, sectorSize: nat, bytes: seq<byte>, got: Delivery, base: nat, c: nat): bool
    requires UsableSector(sectorSize) && v.Sane() && 2 <= c
  {
    var per := 8 * v.ClusterSize();
    BitOf(BitmapBuffer(v, sectorSize, bytes, got, base, Div(c - 2, per)), Mod(c - 2, per))
  }

  ghost function Marks(v: Volume, sectorSize: nat, bytes: seq<byte>, got: Delivery, base: nat): (used: seq<bool>)
    requires UsableSector(sectorSize) && v.Sane()
    ensures |used| == v.total + 2
    ensures forall c :: 2 <= c < v.total + 2 ==> used[c] == IsMarkedAt(v, sectorSize, bytes, got, base, c)
  {
    seq(v.total + 2, c requires 0 <= c < v.total + 2 => c >= 2 && IsMarkedAt(v, sectorSize, bytes, got, base, c))
  }

  // ----- the scan -----

  /** (b >> n) & 1. */
  method TestBit(b: byte, n: nat) returns (set_: bool)
    ensures set_ == Bit(b, n)
  {
    var r: byte, k := b, 0;
    while k < n
      invariant 0 <= k <= n && Bit(b, n) == Bit(r, n - k)
    {
      r := r / 2;
      k := k + 1;
    }
    set_ := r % 2 == 1;
  }

  /** The buffer holds the bitmap cluster of c - 1, and the one after it comes next. */
  ghost predicate HasBitmap(v: Volume, sectorSize: nat, bytes: seq<byte>, got: Delivery, base: nat, c: nat, buffer: seq<byte>,
                            nextBitmap: nat)
    requires UsableSector(sectorSize) && v.Sane()
  {
    if c <= 2 then nextBitmap == v.first
    else
      var k := Div(c - 3, 8 * v.ClusterSize());
      && buffer == BitmapBuffer(v, sectorSize, bytes, got, base, k)
      && nextBitmap == BitmapCluster(v, sectorSize, bytes, base, k + 1)
  }

  /** Read the next cluster of the bitmap and look up the one behind it. */
  method ReadBitmap(disk: Disk, v: Volume, got: Delivery, base: nat, buffer: array<byte>, bitmap: nat, ghost k: nat)
    returns (bitmap': nat)
    requires UsableSector(disk.sectorSize) && buffer.Length == v.ClusterSize()
    requires bitmap == BitmapCluster(v, disk.sectorSize, disk.bytes, base, k)
    modifies buffer
    ensures buffer[..] == BitmapBuffer(v, disk.sectorSize, disk.bytes, got, base, k)
    ensures bitmap' == BitmapCluster(v, disk.sectorSize, disk.bytes, base, k + 1)
  {
    hide NextCluster, Volume.ClusterOffset, Volume.ClusterSize, Delivered;
    disk.PreadAnyhow(buffer, buffer.Length, v.part + v.ClusterOffset(bitmap), got);
    bitmap' := GetNextCluster(disk, FAT32, base, bitmap);
  }

  /** Read the next cluster of the bitmap when cluster c is the first one in it, then test the bit of c. */
  method NextBit(disk: Disk, v: Volume, got: Delivery, base: nat, c: nat, buffer: array<byte>, bitmap: nat)
    returns (bit: bool, bitmap': nat)
    requires UsableSector(disk.sectorSize) && v.Sane() && 2 <= c && buffer.Length == v.ClusterSize()
    requires HasBitmap(v, disk.sectorSize, disk.bytes, got, base, c, buffer[..], bitmap)
    modifies buffer
    ensures bit == IsMarkedAt(v, disk.sectorSize, disk.bytes, got, base, c)
    ensures HasBitmap(v, disk.sectorSize, disk.bytes, got, base, c + 1, buffer[..], bitmap')
  {
    hide BitmapBuffer, BitmapCluster;
    var per := 8 * v.ClusterSize();
    ModIsRemainder(c - 2, per);
    var offset := (c - 2) % per;
    if c > 2 {
      DivNext(c - 3, per);
      BitmapFromStart(v, disk.sectorSize, disk.bytes, base);
    } else {
      BitmapFromStart(v, disk.sectorSize, disk.bytes, base);
    }
    bitmap' := bitmap;
    if offset == 0 {
      bitmap' := ReadBitmap(disk, v, got, base, buffer, bitmap, Div(c - 2, per));
    }
    bit := TestBit(buffer[offset / 8], offset % 8);
    assert buffer[..][offset / 8] == buffer[offset / 8];
  }

  lemma BitmapFromStart(v: Volume, sectorSize: nat, bytes: seq<byte>, base: nat)
    requires UsableSector(sectorSize)
    ensures BitmapCluster(v, sectorSize, bytes, base, 0) == v.first
  {
  }

  /** The state of the scan in front of cluster c. */
  ghost predicate AtMark(v: Volume, sectorSize: nat, bytes: seq<byte>, got: Delivery, base: nat, co: Coalescer, used: seq<bool>, c: nat,
                         buffer: seq<byte>, bitmap: nat)
    requires UsableSector(sectorSize) && v.Sane() && c <= |used|
    reads co, co.space
  {
    && co.Valid() && co.data == v.Data() && co.len == v.ClusterSize() && co.runs + co.pending == RunsOf(used, c)
    && HasBitmap(v, sectorSize, bytes, got, base, c, buffer, bitmap)
  }

  /** The loop body. */
  method ScanMark(disk: Disk, v: Volume, got: Delivery, base: nat, c: nat, buffer: array<byte>, bitmap: nat, co: Coalescer,
                  ghost used: seq<bool>)
    returns (bitmap': nat)
    requires UsableSector(disk.sectorSize) && v.Sane() && 2 <= c < v.total + 2 && buffer.Length == v.ClusterSize()
    requires used == Marks(v, disk.sectorSize, disk.bytes, got, base)
    requires AtMark(v, disk.sectorSize, disk.bytes, got, base, co, used, c, buffer[..], bitmap)
    modifies buffer, co, co.space
    ensures AtMark(v, disk.sectorSize, disk.bytes, got, base, co, used, c + 1, buffer[..], bitmap')
  {
    hide HasBitmap, IsMarkedAt, RunsOf;
    var bit;
    bit, bitmap' := NextBit(disk, v, got, base, c, buffer, bitmap);
    OffsetIsAddress(v, c);
    var address := v.part + v.ClusterOffset(c);
    ScanStep(co, used, c, if bit then 1 else 0, address, address);
  }

  lemma NothingRead(v: Volume, sectorSize: nat, bytes: seq<byte>, got: Delivery, base: nat, buffer: seq<byte>)
    requires UsableSector(sectorSize) && v.Sane()
    ensures HasBitmap(v, sectorSize, bytes, got, base, 2, buffer, v.first)
  {
  }

  /** The loop over the clusters. */
  method ScanBitmap(disk: Disk, v: Volume, got: Delivery, base: nat, co: Coalescer, ghost used: seq<bool>) returns (c: nat)
    requires UsableSector(disk.sectorSize) && v.Sane() && used == Marks(v, disk.sectorSize, disk.bytes, got, base)
    requires co.Valid() && co.data == v.Data() && co.len == v.ClusterSize() && co.runs + co.pending == RunsOf(used, 2)
    modifies co, co.space
    ensures c == v.total + 2 && co.Valid() && co.runs + co.pending == RunsOf(used, c)
  {
    hide HasBitmap, IsMarkedAt, RunsOf;
    var buffer := new byte[v.ClusterSize()](_ => 0);
    var bitmap: nat := v.first;
    c := 2;
    NothingRead(v, disk.sectorSize, disk.bytes, got, base, buffer[..]);
    while c < v.total + 2
      invariant 2 <= c <= v.total + 2
      invariant AtMark(v, disk.sectorSize, disk.bytes, got, base, co, used, c, buffer[..], bitmap)
    {
      bitmap := ScanMark(disk, v, got, base, c, buffer, bitmap, co, used);
      c := c + 1;
    }
  }

  lemma NoRunsYet(used: seq<bool>)
    requires 2 <= |used|
    ensures RunsOf(used, 2) == []
  {
  }

  lemma SpansAreUsedClusters(v: Volume, used: seq<bool>, runs: seq<Run>)
    requires v.Sane() && |used| == v.total + 2 && runs == RunsOf(used, v.total + 2)
    ensures forall x :: Covers(SpansOf(v.Data(), v.ClusterSize(), runs), x) <==>
              InUsedCluster(v.Data(), v.ClusterSize(), used, x)
  {
    hide RunsOf, InUsedCluster, Covers, Volume.Data, Volume.ClusterSize;
    RunsOfAreMaximal(used, v.total + 2);
    forall x
      ensures Covers(SpansOf(v.Data(), v.ClusterSize(), runs), x) <==> InUsedCluster(v.Data(), v.ClusterSize(), used, x)
    {
      RunsCoverUsedClusters(v.Data(), v.ClusterSize(), runs, used, x);
    }
  }

  /**
   * exfat_remove_used_space, once the bitmap has been found: the FAT is looked for at start_exfat1 sectors. `got` says what
   * the reads of the bitmap deliver.
   */
  method ExfatRemoveUsedSpace(disk: Disk, v: Volume, space: SearchSpace, got: Delivery)
    requires UsableSector(disk.sectorSize) && v.Sane() && Sorted(space.spans)
    modifies space
    ensures var used := Marks(v, disk.sectorSize, disk.bytes, got, v.LookupBase(disk.sectorSize));
            && space.deleted == old(space.deleted) + SpansOf(v.Data(), v.ClusterSize(), RunsOf(used, v.total + 2))
            && Sorted(space.spans)
            && forall x :: Covers(space.spans, x) <==>
                 Covers(old(space.spans), x) && !InUsedCluster(v.Data(), v.ClusterSize(), used, x)
  {
    hide Marks, RunsOf, Volume.LookupBase, Volume.Data, Volume.ClusterSize, InUsedCluster, Covers;
    var base := v.LookupBase(disk.sectorSize);
    ghost var used := Marks(v, disk.sectorSize, disk.bytes, got, base);
    var co := new Coalescer(v.Data(), v.ClusterSize(), space);
    NoRunsYet(used);
    var _ := ScanBitmap(disk, v, got, base, co, used);
    co.Flush();
    SpansAreUsedClusters(v, used, co.runs);
  }

  // ----- when the marks are the right ones -----

  /** The scan gets from each of the first n bitmap clusters to the one that really follows. */
  ghost predicate EntriesAgree(v: Volume, sectorSize: nat, bytes: seq<byte>, n: nat)
    requires UsableSector(sectorSize)
  {
    forall k: nat :: k < n ==>
      var c := BitmapCluster(v, sectorSize, bytes, v.FatBase(), k);
      NextCluster(FAT32, sectorSize, bytes, v.LookupBase(sectorSize), c) == NextCluster(FAT32, sectorSize, bytes, v.FatBase(), c)
  }

  lemma {:induction false} AgreeingClusters(v: Volume, sectorSize: nat, bytes: seq<byte>, n: nat, k: nat)
    requires UsableSector(sectorSize) && EntriesAgree(v, sectorSize, bytes, n) && k <= n
    ensures BitmapCluster(v, sectorSize, bytes, v.LookupBase(sectorSize), k) == BitmapCluster(v, sectorSize, bytes, v.FatBase(), k)
  {
    hide NextCluster, Volume.LookupBase, Volume.FatBase;
    if k > 0 {
      AgreeingClusters(v, sectorSize, bytes, n, k - 1);
    }
  }

  lemma {:induction false} DivBelow(x: nat, d: nat, n: nat)
    requires 0 < d && x < n * d
    ensures Div(x, d) < n
    decreases n
  {
    assert n * d == (n - 1) * d + d;
    if x >= d {
      DivBelow(x - d, d, n - 1);
    }
  }

  /** The marks are right on a disk where the entries agree along the bitmap, but for its last cluster. */
  lemma AgreeingEntriesAreEnough(v: Volume, sectorSize: nat, bytes: seq<byte>, got: Delivery, n: nat)
    requires UsableSector(sectorSize) && v.Sane()
    requires v.total <= (n + 1) * (8 * v.ClusterSize()) && EntriesAgree(v, sectorSize, bytes, n)
    ensures Marks(v, sectorSize, bytes, got, v.LookupBase(sectorSize)) == Marks(v, sectorSize, bytes, got, v.FatBase())
  {
    var wrong, right := Marks(v, sectorSize, bytes, got, v.LookupBase(sectorSize)), Marks(v, sectorSize, bytes, got, v.FatBase());
    forall c | 0 <= c < v.total + 2
      ensures wrong[c] == right[c]
    {
      if c >= 2 {
        DivBelow(c - 2, 8 * v.ClusterSize(), n + 1);
        AgreeingClusters(v, sectorSize, bytes, n, Div(c - 2, 8 * v.ClusterSize()));
      }
    }
  }

  /** The FAT lies in front of the clusters, and they lie on the disk. */
  ghost predicate FitsDisk(v: Volume, sectorSize: nat, size: nat)
    requires UsableSector(sectorSize)
  {
    && v.Sane() && 2 <= v.first <= v.total + 1
    && v.FatBase() + SectorStart(FAT32, sectorSize, v.first) + sectorSize <= v.Data()
    && Address(v.Data(), v.ClusterSize(), v.total + 2) <= size
  }

  /** A disk that is zero but for the entry of the first bitmap cluster, which is c, and the first byte of c. */
  function TwoBytes(v: Volume, size: nat, c: byte): (bytes: seq<byte>)
    ensures |bytes| == size
  {
    seq<byte>(size, i => if i == v.FatBase() + 4 * v.first then c else if i == v.part + v.ClusterOffset(c) then 1 else 0)
  }

  /** c is neither where the wrong lookup looks nor where cluster 0 would be. */
  ghost predicate IsGoodChoice(v: Volume, sectorSize: nat, c: byte) {
    var at, wrong := v.part + v.ClusterOffset(c), v.LookupBase(sectorSize) + 4 * v.first;
    && c % 2 == 0 && 2 <= c
    && !(wrong <= at < wrong + 4) && v.ClusterOffset(c) != v.ClusterOffset(0)
  }

  /** One of the clusters 2, 4 and 6 will do. */
  lemma SomeChoiceIsGood(v: Volume, sectorSize: nat, size: nat) returns (c: byte)
    requires UsableSector(sectorSize) && FitsDisk(v, sectorSize, size) && 6 <= v.total
    ensures c <= 6 && IsGoodChoice(v, sectorSize, c)
  {
    OffsetIsAddress(v, 2);
    OffsetIsAddress(v, 4);
    OffsetIsAddress(v, 6);
    AddressesApart(v.Data(), v.ClusterSize(), 2, 4);
    AddressesApart(v.Data(), v.ClusterSize(), 4, 6);
    c := if IsGoodChoice(v, sectorSize, 2) then 2 else if IsGoodChoice(v, sectorSize, 4) then 4 else 6;
  }

  lemma SmallEntry(raw: seq<byte>, c: byte)
    requires |raw| == 4 && raw[0] == c && raw[1] == raw[2] == raw[3] == 0
    ensures Le32(raw) % 0x1000_0000 == c
  {
  }

  lemma ZeroEntry(raw: seq<byte>)
    requires |raw| == 4 && raw[0] == raw[1] == raw[2] == raw[3] == 0
    ensures Le32(raw) % 0x1000_0000 == 0
  {
  }

  /** The right lookup finds c. */
  lemma RightLookup(v: Volume, sectorSize: nat, size: nat, c: byte)
    requires UsableSector(sectorSize) && FitsDisk(v, sectorSize, size) && 2 <= c <= v.total + 1
    ensures NextCluster(FAT32, sectorSize, TwoBytes(v, size, c), v.FatBase(), v.first) == c
  {
    var bytes, at := TwoBytes(v, size, c), v.FatBase() + 4 * v.first;
    SectorHoldsEntry(FAT32, sectorSize, v.first);
    OffsetIsAddress(v, c);
    FatInFront(v, sectorSize, size, c);
    var raw := bytes[at..at + 4];
    SmallEntry(raw, c);
    assert RawEntry(FAT32, bytes, v.FatBase(), v.first) == raw;
  }

  lemma FatInFront(v: Volume, sectorSize: nat, size: nat, c: nat)
    requires UsableSector(sectorSize) && FitsDisk(v, sectorSize, size) && 2 <= c <= v.total + 1
    ensures v.FatBase() + 4 * v.first + 4 <= v.Data() <= v.part + v.ClusterOffset(c)
    ensures v.part + v.ClusterOffset(c) + v.ClusterSize() <= size
  {
    SectorHoldsEntry(FAT32, sectorSize, v.first);
    OffsetIsAddress(v, c);
    if c > 2 {
      AddressesApart(v.Data(), v.ClusterSize(), 2, c);
    }
    AddressesApart(v.Data(), v.ClusterSize(), c, v.total + 2);
  }

  /** The wrong lookup finds nothing. */
  lemma WrongLookup(v: Volume, sectorSize: nat, size: nat, c: byte)
    requires UsableSector(sectorSize) && 0 < v.FatStart() && IsGoodChoice(v, sectorSize, c)
    ensures NextCluster(FAT32, sectorSize, TwoBytes(v, size, c), v.LookupBase(sectorSize), v.first) == 0
  {
    BasesApart(v, sectorSize);
    NothingThere(v, size, c, sectorSize, v.LookupBase(sectorSize));
  }

  lemma BasesApart(v: Volume, sectorSize: nat)
    requires 4 < sectorSize && 0 < v.FatStart()
    ensures v.FatBase() + 4 <= v.LookupBase(sectorSize)
  {
    MulLess(0, v.FatStart(), sectorSize - 1);
    assert v.FatStart() * sectorSize == v.FatStart() * (sectorSize - 1) + v.FatStart();
  }

  lemma NothingThere(v: Volume, size: nat, c: byte, sectorSize: nat, base: nat)
    requires UsableSector(sectorSize) && v.FatBase() + 4 <= base
    requires !(base + 4 * v.first <= v.part + v.ClusterOffset(c) < base + 4 * v.first + 4)
    ensures NextCluster(FAT32, sectorSize, TwoBytes(v, size, c), base, v.first) == 0
  {
    hide Volume.FatBase, Volume.ClusterOffset;
    var bytes, at := TwoBytes(v, size, c), base + 4 * v.first;
    if Reachable(FAT32, sectorSize, bytes, base, v.first) {
      SectorHoldsEntry(FAT32, sectorSize, v.first);
      var raw := bytes[at..at + 4];
      ZeroBytes(v, size, c, at);
      ZeroEntry(raw);
      assert RawEntry(FAT32, bytes, base, v.first) == raw;
    }
  }

  lemma ZeroBytes(v: Volume, size: nat, c: byte, at: nat)
    requires at + 4 <= size && v.FatBase() + 4 * v.first < at && !(at <= v.part + v.ClusterOffset(c) < at + 4)
    ensures forall k :: at <= k < at + 4 ==> TwoBytes(v, size, c)[k] == 0
  {
  }

  /** Every read delivers everything. */
  function Everything(): (got: Delivery)
    ensures forall at: nat, x: nat :: got(at, x)
  {
    (at: nat, x: nat) => true
  }

  /** With the right FAT the first cluster of the second bitmap cluster is marked, with the wrong one it is not. */
  lemma MarksDiffer(v: Volume, sectorSize: nat, size: nat, c: byte)
    requires UsableSector(sectorSize) && FitsDisk(v, sectorSize, size) && 0 < v.FatStart()
    requires IsGoodChoice(v, sectorSize, c) && c <= 6 <= v.total
    ensures var bytes, mark := TwoBytes(v, size, c), 8 * v.ClusterSize() + 2;
            && IsMarkedAt(v, sectorSize, bytes, Everything(), v.FatBase(), mark)
            && !IsMarkedAt(v, sectorSize, bytes, Everything(), v.LookupBase(sectorSize), mark)
  {
    hide NextCluster, ClusterSeen, BitOf, IsMarkedAt;
    var bytes, per := TwoBytes(v, size, c), 8 * v.ClusterSize();
    SecondCluster(v, sectorSize, bytes, Everything(), v.FatBase());
    SecondCluster(v, sectorSize, bytes, Everything(), v.LookupBase(sectorSize));
    RightLookup(v, sectorSize, size, c);
    WrongLookup(v, sectorSize, size, c);
    FatInFront(v, sectorSize, size, c);
    BitsOfTwoBytes(v, size, c);
  }

  /** The mark is the first bit of the second bitmap cluster. */
  lemma SecondCluster(v: Volume, sectorSize: nat, bytes: seq<byte>, got: Delivery, base: nat)
    requires UsableSector(sectorSize) && v.Sane()
    ensures IsMarkedAt(v, sectorSize, bytes, got, base, 8 * v.ClusterSize() + 2)
            == BitOf(ClusterSeen(v, bytes, got, NextCluster(FAT32, sectorSize, bytes, base, v.first)), 0)
  {
    var per := 8 * v.ClusterSize();
    assert Div(per, per) == 1 && Mod(per, per) == 0;
    assert BitmapCluster(v, sectorSize, bytes, base, 0) == v.first;
  }

  lemma BitZero(b: byte, bytes: seq<byte>)
    requires bytes != [] && bytes[0] == b
    ensures BitOf(bytes, 0) == (b % 2 == 1)
  {
  }

  /** The first bit of cluster c is set; that of cluster 0 is not. */
  lemma BitsOfTwoBytes(v: Volume, size: nat, c: byte)
    requires 4 <= v.ClusterSize() && c % 2 == 0 && v.ClusterOffset(c) != v.ClusterOffset(0)
    requires v.part + v.ClusterOffset(c) + v.ClusterSize() <= size && v.FatBase() + 4 * v.first < v.part + v.ClusterOffset(c)
    ensures var bytes := TwoBytes(v, size, c);
            && BitOf(ClusterSeen(v, bytes, Everything(), c), 0) && !BitOf(ClusterSeen(v, bytes, Everything(), 0), 0)
  {
    hide Volume.ClusterOffset, Volume.FatBase, BitOf;
    var bytes := TwoBytes(v, size, c);
    BitZero(1, ClusterSeen(v, bytes, Everything(), c));
    var other := ClusterSeen(v, bytes, Everything(), 0);
    assert other[0] == 0 || other[0] == c;
    BitZero(other[0], other);
  }

  ghost predicate MarksAreRight(v: Volume, sectorSize: nat, bytes: seq<byte>, got: Delivery)
    requires UsableSector(sectorSize) && v.Sane()
  {
    Marks(v, sectorSize, bytes, got, v.LookupBase(sectorSize)) == Marks(v, sectorSize, bytes, got, v.FatBase())
  }

  /** On every disk of this size, whatever its reads deliver. */
  ghost predicate AllMarksAreRight(v: Volume, sectorSize: nat, size: nat)
    requires UsableSector(sectorSize) && v.Sane()
  {
    forall bytes: seq<byte>, got: Delivery :: |bytes| == size ==> MarksAreRight(v, sectorSize, bytes, got)
  }

  lemma RightMarks(v: Volume, sectorSize: nat, bytes: seq<byte>, got: Delivery)
    requires UsableSector(sectorSize) && v.Sane() && (v.total <= 8 * v.ClusterSize() || v.FatStart() == 0)
    ensures MarksAreRight(v, sectorSize, bytes, got)
  {
    if v.total <= 8 * v.ClusterSize() {
      AgreeingEntriesAreEnough(v, sectorSize, bytes, got, 0);
    }
  }

  lemma WrongMarks(v: Volume, sectorSize: nat, size: nat) returns (bytes: seq<byte>)
    requires UsableSector(sectorSize) && FitsDisk(v, sectorSize, size)
    requires 8 * v.ClusterSize() < v.total && 0 < v.FatStart()
    ensures |bytes| == size && !MarksAreRight(v, sectorSize, bytes, Everything())
  {
    hide TwoBytes, IsMarkedAt, Volume.LookupBase, Volume.FatBase, Volume.ClusterOffset, IsGoodChoice;
    var c := SomeChoiceIsGood(v, sectorSize, size);
    bytes := TwoBytes(v, size, c);
    MarksDiffer(v, sectorSize, size, c);
    var mark, got := 8 * v.ClusterSize() + 2, Everything();
    var wrong, right := Marks(v, sectorSize, bytes, got, v.LookupBase(sectorSize)), Marks(v, sectorSize, bytes, got, v.FatBase());
    assert wrong[mark] != right[mark];
  }

  /**
   * The marks are right on every disk, whatever its reads deliver, exactly if the bitmap is one cluster or the FAT begins
   * with the partition.
   */
  lemma MarksAreRightIff(v: Volume, sectorSize: nat, size: nat)
    requires UsableSector(sectorSize) && FitsDisk(v, sectorSize, size)
    ensures AllMarksAreRight(v, sectorSize, size) <==> v.total <= 8 * v.ClusterSize() || v.FatStart() == 0
  {
    hide MarksAreRight;
    if v.total <= 8 * v.ClusterSize() || v.FatStart() == 0 {
      forall bytes: seq<byte>, got: Delivery | |bytes| == size
        ensures MarksAreRight(v, sectorSize, bytes, got)
      {
        RightMarks(v, sectorSize, bytes, got);
      }
    } else {
      var bytes := WrongMarks(v, sectorSize, size);
    }
  }
}
