/** A bitmap stored on an exFAT volume, and the marks that the scan reads from it. */
module ExfatBitmap {
  import opened Arith
  import opened Bytes
  import opened Disks
  import opened ExfatScan
  import opened FatIo
  import opened FatScan
  import opened FatTable

  /** Bit i as a number. */
  function Value(bits: seq<bool>, i: nat): (r: nat)
    ensures r < 2
  {
    if i < |bits| && bits[i] then 1 else 0
  }

  /** Eight bits in a byte, the first one in its lowest place. */
  function PackedByte(bits: seq<bool>, at: nat): byte {
    Value(bits, at) + 2 * Value(bits, at + 1) + 4 * Value(bits, at + 2) + 8 * Value(bits, at + 3)
    + 16 * Value(bits, at + 4) + 32 * Value(bits, at + 5) + 64 * Value(bits, at + 6) + 128 * Value(bits, at + 7)
  }

  /** The same by doubling. */
  function Doubled(bits: seq<bool>, at: nat, n: nat): nat
    decreases n
  {
    if n == 0 then 0 else Value(bits, at) + 2 * Doubled(bits, at + 1, n - 1)
  }

  lemma DoublingTwice(bits: seq<bool>, at: nat, n: nat)
    requires 4 <= n
    ensures Doubled(bits, at, n) == Value(bits, at) + 2 * Value(bits, at + 1) + 4 * Value(bits, at + 2)
                                    + 8 * Value(bits, at + 3) + 16 * Doubled(bits, at + 4, n - 4)
  {
    hide Value;
    assert Doubled(bits, at + 1, n - 1) == Value(bits, at + 1) + 2 * Doubled(bits, at + 2, n - 2);
    assert Doubled(bits, at + 2, n - 2) == Value(bits, at + 2) + 2 * Doubled(bits, at + 3, n - 3);
    assert Doubled(bits, at + 3, n - 3) == Value(bits, at + 3) + 2 * Doubled(bits, at + 4, n - 4);
  }

  lemma NothingDoubled(bits: seq<bool>, at: nat)
    ensures Doubled(bits, at, 0) == 0
  {
  }

  lemma PackedIsDoubled(bits: seq<bool>, at: nat)
    ensures PackedByte(bits, at) == Doubled(bits, at, 8)
  {
    hide Value, Doubled;
    DoublingTwice(bits, at, 8);
    DoublingTwice(bits, at + 4, 4);
    NothingDoubled(bits, at + 8);
  }

  lemma {:induction false} BitOfDoubled(bits: seq<bool>, at: nat, n: nat, b: byte, k: nat)
    requires b == Doubled(bits, at, n) && k < n
    ensures Bit(b, k) <==> at + k < |bits| && bits[at + k]
    decreases n
  {
    var rest := Doubled(bits, at + 1, n - 1);
    DivModUnique(b, 2, rest, Value(bits, at));
    if k > 0 {
      BitOfDoubled(bits, at + 1, n - 1, rest, k - 1);
    }
  }

  /** Bit k of a packed byte is the bit that has been packed there. */
  lemma BitOfPacked(bits: seq<bool>, at: nat, k: nat)
    requires k < 8
    ensures Bit(PackedByte(bits, at), k) <==> at + k < |bits| && bits[at + k]
  {
    PackedIsDoubled(bits, at);
    BitOfDoubled(bits, at, 8, PackedByte(bits, at), k);
  }

  /** Where cluster c begins on the disk. */
  function StartOfCluster(v: Volume, c: nat): nat
    requires 2 <= c
  {
    v.part + v.clusBlock * v.blockSize + (c - 2) * (v.blocksPerCluster * v.blockSize)
  }

  /** The clusters hold the bitmap one behind the other. */
  ghost predicate HoldsBitmap(v: Volume, bytes: seq<byte>, chain: seq<nat>, bits: seq<bool>) {
    forall k :: 0 <= k < |chain| ==> HoldsPart(v, bytes, chain[k], bits, 8 * (k * (v.blocksPerCluster * v.blockSize)))
  }

  /** Cluster c holds the bits from `first` on. */
  ghost predicate HoldsPart(v: Volume, bytes: seq<byte>, c: nat, bits: seq<bool>, first: nat) {
    && 2 <= c <= v.total + 1
    && forall x :: 0 <= x < v.blocksPerCluster * v.blockSize ==>
         && StartOfCluster(v, c) + x < |bytes|
         && bytes[StartOfCluster(v, c) + x] == PackedByte(bits, first + 8 * x)
  }

  /** The entries that get_next_cluster reads with the FAT at `base` lead from each cluster to the next. */
  ghost predicate IsLinked(sectorSize: nat, bytes: seq<byte>, base: nat, chain: seq<nat>)
    requires UsableSector(sectorSize)
  {
    forall k {:trigger chain[k]} :: 0 <= k < |chain| - 1 ==> NextCluster(FAT32, sectorSize, bytes, base, chain[k]) == chain[k + 1]
  }

  lemma {:induction false} ChainIsFollowed(v: Volume, sectorSize: nat, bytes: seq<byte>, base: nat, chain: seq<nat>, k: nat)
    requires UsableSector(sectorSize) && k < |chain| && chain[0] == v.first && IsLinked(sectorSize, bytes, base, chain)
    ensures BitmapCluster(v, sectorSize, bytes, base, k) == chain[k]
  {
    hide NextCluster;
    if k > 0 {
      ChainIsFollowed(v, sectorSize, bytes, base, chain, k - 1);
      assert NextCluster(FAT32, sectorSize, bytes, base, chain[k - 1]) == chain[k];
    }
  }

  lemma StartIsOffset(v: Volume, c: nat)
    requires v.Sane() && 2 <= c <= v.total + 1
    ensures v.part + v.ClusterOffset(c) == StartOfCluster(v, c)
  {
    OffsetIsAddress(v, c);
    AddressClosedForm(v.Data(), v.ClusterSize(), c);
  }

  lemma ByteOfPart(v: Volume, bytes: seq<byte>, c: nat, bits: seq<bool>, first: nat, x: nat)
    requires HoldsPart(v, bytes, c, bits, first) && x < v.ClusterSize()
    ensures StartOfCluster(v, c) + x < |bytes| && bytes[StartOfCluster(v, c) + x] == PackedByte(bits, first + 8 * x)
  {
    hide PackedByte, StartOfCluster;
  }

  /** A bit of a cluster that holds a part of the bitmap. */
  lemma BitOfCluster(v: Volume, bytes: seq<byte>, got: Delivery, c: nat, bits: seq<bool>, first: nat, r: nat)
    requires v.Sane() && HoldsPart(v, bytes, c, bits, first) && (forall at, x :: got(at, x))
    requires r < 8 * v.ClusterSize() && first + r < |bits|
    ensures BitOf(ClusterSeen(v, bytes, got, c), r) == bits[first + r]
  {
    hide Volume.ClusterOffset, StartOfCluster, PackedByte, Bit;
    StartIsOffset(v, c);
    var x := r / 8;
    ByteOfPart(v, bytes, c, bits, first, x);
    assert ClusterSeen(v, bytes, got, c)[x] == bytes[StartOfCluster(v, c) + x];
    BitOfPacked(bits, first + 8 * x, r % 8);
  }

  lemma {:induction false} DivModParts(x: nat, d: nat)
    requires 0 < d
    ensures Div(x, d) * d + Mod(x, d) == x
  {
    if x >= d {
      DivModParts(x - d, d);
      assert Div(x, d) * d == Div(x - d, d) * d + d;
    }
  }

  lemma PlaceOfBit(size: nat, q: nat, r: nat, n: nat, m: nat)
    requires q * (8 * size) + r == n < m * (8 * size)
    ensures 8 * (q * size) + r == n && q < m
  {
    MulMonotone(8 * size, m, q);
    assert q * (8 * size) == 8 * (q * size);
  }

  /** A cluster is marked exactly when its bit is set in a bitmap that is stored along the chain. */
  lemma StoredBitIsSeen(v: Volume, sectorSize: nat, bytes: seq<byte>, got: Delivery, base: nat, chain: seq<nat>, bits: seq<bool>,
                        c: nat)
    requires UsableSector(sectorSize) && v.Sane() && chain != [] && chain[0] == v.first && 2 <= c < v.total + 2
    requires |bits| == v.total <= |chain| * (8 * v.ClusterSize()) && (forall at, x :: got(at, x))
    requires HoldsBitmap(v, bytes, chain, bits) && IsLinked(sectorSize, bytes, base, chain)
    ensures IsMarkedAt(v, sectorSize, bytes, got, base, c) == bits[c - 2]
  {
    hide HoldsPart, IsLinked, BitmapCluster, BitOf;
    var per := 8 * v.ClusterSize();
    var q, r := Div(c - 2, per), Mod(c - 2, per);
    DivModParts(c - 2, per);
    PlaceOfBit(v.ClusterSize(), q, r, c - 2, |chain|);
    ChainIsFollowed(v, sectorSize, bytes, base, chain, q);
    BitOfCluster(v, bytes, got, chain[q], bits, 8 * (q * v.ClusterSize()), r);
  }

  /** The scan marks exactly the clusters of this bitmap. */
  ghost predicate MarksBits(v: Volume, used: seq<bool>, bits: seq<bool>) {
    |used| == v.total + 2 == |bits| + 2 && forall c :: 2 <= c < v.total + 2 ==> used[c] == bits[c - 2]
  }

  lemma StoredBitsAreSeen(v: Volume, sectorSize: nat, bytes: seq<byte>, got: Delivery, base: nat, chain: seq<nat>, bits: seq<bool>)
    requires UsableSector(sectorSize) && v.Sane() && chain != [] && chain[0] == v.first
    requires |bits| == v.total <= |chain| * (8 * v.ClusterSize()) && (forall at, x :: got(at, x))
    requires HoldsBitmap(v, bytes, chain, bits) && IsLinked(sectorSize, bytes, base, chain)
    ensures MarksBits(v, Marks(v, sectorSize, bytes, got, base), bits)
  {
    hide IsLinked, HoldsBitmap, IsMarkedAt;
    forall c | 2 <= c < v.total + 2
      ensures IsMarkedAt(v, sectorSize, bytes, got, base, c) == bits[c - 2]
    {
      StoredBitIsSeen(v, sectorSize, bytes, got, base, chain, bits, c);
    }
  }

  /** The place start_exfat1 sectors behind the start of the partition, and the one start_exfat1 bytes behind it. */
  function SectorsBehind(v: Volume, sectorSize: nat): nat {
    v.part + v.fatBlock * v.blockSize * sectorSize
  }

  function BytesBehind(v: Volume): nat {
    v.part + v.fatBlock * v.blockSize
  }

  lemma LookupBases(v: Volume, sectorSize: nat)
    ensures v.LookupBase(sectorSize) == SectorsBehind(v, sectorSize) && v.FatBase() == BytesBehind(v)
  {
  }

  /**
   * A bitmap stored in its clusters, bit by bit from the lowest bit of each byte on, is what the scan reads when the
   * clusters are linked in a table that begins start_exfat1 sectors behind the start of the partition. To be read as it
   * should be, they would have to be linked in the table that begins start_exfat1 bytes behind it.
   */
  lemma StoredBitmapIsRead(v: Volume, sectorSize: nat, bytes: seq<byte>, got: Delivery, chain: seq<nat>, bits: seq<bool>)
    requires UsableSector(sectorSize) && v.Sane() && chain != [] && chain[0] == v.first
    requires |bits| == v.total <= |chain| * (8 * v.ClusterSize()) && (forall at, x :: got(at, x))
    requires HoldsBitmap(v, bytes, chain, bits)
    ensures IsLinked(sectorSize, bytes, SectorsBehind(v, sectorSize), chain) ==>
              MarksBits(v, Marks(v, sectorSize, bytes, got, v.LookupBase(sectorSize)), bits)
    ensures IsLinked(sectorSize, bytes, BytesBehind(v), chain) ==>
              MarksBits(v, Marks(v, sectorSize, bytes, got, v.FatBase()), bits)
  {
    LookupBases(v, sectorSize);
    hide IsLinked, HoldsBitmap, Marks, MarksBits, SectorsBehind, BytesBehind, Volume.LookupBase, Volume.FatBase;
    if IsLinked(sectorSize, bytes, SectorsBehind(v, sectorSize), chain) {
      StoredBitsAreSeen(v, sectorSize, bytes, got, SectorsBehind(v, sectorSize), chain, bits);
    }
    if IsLinked(sectorSize, bytes, BytesBehind(v), chain) {
      StoredBitsAreSeen(v, sectorSize, bytes, got, BytesBehind(v), chain, bits);
    }
  }
}
