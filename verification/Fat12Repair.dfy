/** repair_FAT_table for a FAT12 with one copy: a window of two sectors slides over the table. */
module Fat12Repair {
  import opened Arith
  import opened Bytes
  import opened Disks
  import opened FatIo
  import opened FatTable
  import opened Options
  import opened Seqs

  const FAT12_EOC: nat := 0xFF8

  /** Where the table begins on the disk, its sectors, and the number of clusters; the last one is clusters + 1. */
  datatype Table = Table(base: nat, sectorSize: nat, length: nat, clusters: nat) {
    /** The entries lie in the table, and the table on the disk. */
    ghost predicate Fits(bytes: seq<byte>) {
      && UsableSector(sectorSize)
      && EntryOffset(FAT12, clusters + 1) + 2 <= length * sectorSize && base + length * sectorSize <= |bytes|
    }

    predicate IsCluster(c: nat) {
      2 <= c <= clusters + 1
    }

    /** A value that is neither free, nor a cluster, nor a mark. */
    predicate Bad(next: nat) {
      next < 0xFF7 && (next == 1 || next > clusters + 1)
    }

    /** A value an entry may hold: free, a cluster, or anything from the mark of a bad cluster on. */
    predicate Sound(next: nat) {
      next == 0 || 2 <= next <= clusters + 1 || 0xFF7 <= next
    }

    /** The byte offset in the table of the sector in which the entry begins. */
    function Start(c: nat): nat
      requires UsableSector(sectorSize)
    {
      SectorStart(FAT12, sectorSize, c)
    }

    function Offset(c: nat): nat
      requires UsableSector(sectorSize)
    {
      OffsetInSector(FAT12, sectorSize, c)
    }

    /** rw_size at cluster c: one sector at the end of the table, and two in front of it. */
    function Size(c: nat): nat
      requires UsableSector(sectorSize)
    {
      if Start(c) == length * sectorSize - sectorSize then sectorSize else 2 * sectorSize
    }

    /** The last byte in front of the last sector is the first byte of the entry, and a later cluster exists. */
    predicate Crosses(c: nat) {
      c + c / 2 + 1 + sectorSize == length * sectorSize && c <= clusters
    }

    /** The entry lies across the last two sectors, and a later one begins in the last sector. */
    predicate IsHalved(c: nat)
      requires UsableSector(sectorSize)
    {
      Start(c) + 2 * sectorSize == length * sectorSize && Offset(c) == sectorSize - 1 && c + 1 <= clusters + 1
    }
  }

  // ----- what the repair makes of the table -----

  function EntryAt(t: Table, bytes: seq<byte>, c: nat): nat
    requires HasEntry(FAT12, bytes, t.base, c)
  {
    Entry(FAT12, bytes, t.base, c)
  }

  lemma HasClusters(t: Table, bytes: seq<byte>, c: nat)
    requires t.Fits(bytes) && c <= t.clusters + 1
    ensures HasEntry(FAT12, bytes, t.base, c) && EntryOffset(FAT12, c) + 2 <= t.length * t.sectorSize
  {
    assert c / 2 <= (t.clusters + 1) / 2;
  }

  /** One bad entry corrected: with an end-of-chain mark, or with the first byte of one. */
  function CorrectOne(t: Table, bytes: seq<byte>, c: nat): (r: seq<byte>)
    requires UsableSector(t.sectorSize) && HasEntry(FAT12, bytes, t.base, c)
    ensures |r| == |bytes|
  {
    if !t.Bad(EntryAt(t, bytes, c)) then bytes
    else if t.IsHalved(c) then
      Patch(bytes, t.base + EntryOffset(FAT12, c), Encode(FAT12, c, FAT12_EOC, RawEntry(FAT12, bytes, t.base, c))[..1])
    else Store(FAT12, bytes, t.base, c, FAT12_EOC)
  }

  /** The entries below c corrected, one after the other. */
  ghost function Corrected(t: Table, bytes: seq<byte>, c: nat): (r: seq<byte>)
    requires t.Fits(bytes) && c <= t.clusters + 2
    ensures |r| == |bytes|
  {
    if c <= 2 then bytes
    else
      HasClusters(t, bytes, c - 1);
      CorrectOne(t, Corrected(t, bytes, c - 1), c - 1)
  }

  /** What is left of an entry when the second byte of its end-of-chain mark is not written. */
  function HalfMark(c: nat, next: nat): nat {
    if c % 2 == 0 then next / 256 * 256 + 0xF8 else next / 16 * 16 + 8
  }

  lemma EvenHalf(raw: seq<byte>, next: seq<byte>)
    requires |raw| == |next| == 2 && next[0] == 0xF8 && next[1] == raw[1]
    ensures Le16(next) % 0x1000 == Le16(raw) % 0x1000 / 256 * 256 + 0xF8
  {
    hide Le16;
    LowTwelve(raw);
    LowTwelve(next);
    DivModUnique(Le16(raw) % 0x1000, 256, raw[1] as nat % 16, raw[0]);
  }

  lemma OddHalf(raw: seq<byte>, next: seq<byte>)
    requires |raw| == |next| == 2 && next[0] / 16 == 8 && next[1] == raw[1]
    ensures Le16(next) / 16 == Le16(raw) / 16 / 16 * 16 + 8
  {
    hide Le16;
    HighTwelve(raw);
    HighTwelve(next);
    DivModUnique(Le16(raw) / 16, 16, raw[1], raw[0] as nat / 16);
  }

  lemma LowByte(m: nat, q: nat, r: nat)
    requires r < 256 && m == 256 * q + r && m < 0x1_0000
    ensures EncodeLe16(m)[0] == r
  {
    DivModUnique(m, 256, q, r);
  }

  /** The first byte of the mark: all of it for even clusters, its high half for odd ones. */
  lemma FirstByteOfMark(c: nat, raw: seq<byte>)
    requires |raw| == 2
    ensures var b := Encode(FAT12, c, FAT12_EOC, raw)[0];
            if c % 2 == 0 then b == 0xF8 else b / 16 == 8 && b % 16 == raw[0] % 16
  {
    hide Merge12, Le16;
    var prior := Le16(raw);
    Le16Bound(raw);
    if c % 2 == 0 {
      var m := Merge12(false, FAT12_EOC, prior);
      Merge12Even(FAT12_EOC, prior);
      LowByte(m, 16 * (m / 0x1000) + 15, 0xF8);
    } else {
      var m := Merge12(true, FAT12_EOC, prior);
      Merge12Odd(FAT12_EOC, prior);
      LowNibble(raw);
      LowByte(m, 0xFF, 0x80 + prior % 16);
    }
  }

  lemma Le16Bound(raw: seq<byte>)
    requires |raw| == 2
    ensures Le16(raw) < 0x1_0000
  {
  }

  /** What a correction does to the entry itself. */
  lemma CorrectedEntry(t: Table, bytes: seq<byte>, c: nat)
    requires UsableSector(t.sectorSize) && HasEntry(FAT12, bytes, t.base, c)
    ensures var next := EntryAt(t, bytes, c);
            EntryAt(t, CorrectOne(t, bytes, c), c)
            == if !t.Bad(next) then next else if t.IsHalved(c) then HalfMark(c, next) else FAT12_EOC
  {
    hide Encode, Table.IsHalved;
    if t.Bad(EntryAt(t, bytes, c)) {
      if t.IsHalved(c) {
        var raw := RawEntry(FAT12, bytes, t.base, c);
        var after := RawEntry(FAT12, CorrectOne(t, bytes, c), t.base, c);
        assert after[0] == Encode(FAT12, c, FAT12_EOC, raw)[0] && after[1] == raw[1];
        FirstByteOfMark(c, raw);
        if c % 2 == 0 {
          EvenHalf(raw, after);
        } else {
          OddHalf(raw, after);
        }
      } else {
        StoreThenEntry(FAT12, bytes, t.base, c, FAT12_EOC);
      }
    }
  }

  /** All other entries are kept. */
  lemma OthersAreKept(t: Table, bytes: seq<byte>, c: nat, other: nat)
    requires UsableSector(t.sectorSize) && HasEntry(FAT12, bytes, t.base, c) && HasEntry(FAT12, bytes, t.base, other)
    requires other != c
    ensures EntryAt(t, CorrectOne(t, bytes, c), other) == EntryAt(t, bytes, other)
  {
    hide Encode, Decode, Table.IsHalved, Merge12;
    if t.Bad(EntryAt(t, bytes, c)) {
      if t.IsHalved(c) {
        HalfKeepsOthers(t, bytes, c, other);
      } else {
        StoreKeepsOtherEntries(FAT12, bytes, t.base, c, FAT12_EOC, other);
        FittingValuesDisturbNothing(FAT12, bytes, t.base, c, FAT12_EOC, other);
      }
    }
  }

  lemma HalfKeepsOthers(t: Table, bytes: seq<byte>, c: nat, other: nat)
    requires HasEntry(FAT12, bytes, t.base, c) && HasEntry(FAT12, bytes, t.base, other) && other != c
    ensures var mark := Encode(FAT12, c, FAT12_EOC, RawEntry(FAT12, bytes, t.base, c));
            var r := Patch(bytes, t.base + EntryOffset(FAT12, c), mark[..1]);
            EntryAt(t, r, other) == EntryAt(t, bytes, other)
  {
    hide Encode;
    var raw := RawEntry(FAT12, bytes, t.base, c);
    var r := Patch(bytes, t.base + EntryOffset(FAT12, c), Encode(FAT12, c, FAT12_EOC, raw)[..1]);
    var before, after := RawEntry(FAT12, bytes, t.base, other), RawEntry(FAT12, r, t.base, other);
    FirstByteOfMark(c, raw);
    if c % 2 != 0 && other == c - 1 {
      assert before[1] == raw[0] && after[0] == before[0];
      LowTwelve(before);
      LowTwelve(after);
    } else {
      if !(c % 2 == 0 && other == c + 1) {
        OffsetsApart(FAT12, c, other);
      }
      assert after == before;
    }
  }

  lemma BadIff(t: Table)
    ensures forall next :: t.Bad(next) <==> !t.Sound(next)
  {
  }

  lemma {:induction false} ModOfProduct(q: nat, d: nat)
    requires 0 < d
    ensures Mod(q * d, d) == 0
  {
    if q > 0 {
      assert q * d == (q - 1) * d + d;
      ModOfProduct(q - 1, d);
    }
  }

  lemma LastByte(x: nat, d: nat, length: nat)
    requires 0 < d && x + 1 + d == length * d
    ensures Mod(x, d) == d - 1
  {
    assert (length - 1) * d == length * d - d;
    ModOfProduct(length - 1, d);
    ModNext(x, d);
  }

  lemma HalvedIff(t: Table, c: nat)
    requires UsableSector(t.sectorSize)
    ensures t.IsHalved(c) <==> t.Crosses(c)
  {
    hide Table.Start, Table.Offset, UsableSector;
    NextStart(t, c);
    if t.Crosses(c) {
      LastByte(c + c / 2, t.sectorSize, t.length);
      LastOffset(t, c);
    }
  }

  lemma LastOffset(t: Table, c: nat)
    requires UsableSector(t.sectorSize) && Mod(c + c / 2, t.sectorSize) == t.sectorSize - 1
    ensures t.Offset(c) == t.sectorSize - 1
  {
  }

  /** The entries after the corrections below c, one by one. */
  lemma {:induction false} CorrectedEntries(t: Table, bytes: seq<byte>, c: nat, other: nat)
    requires t.Fits(bytes) && c <= t.clusters + 2 && HasEntry(FAT12, bytes, t.base, other)
    ensures var next := EntryAt(t, bytes, other);
            EntryAt(t, Corrected(t, bytes, c), other)
            == if 2 <= other < c && !t.Sound(next) then (if t.Crosses(other) then HalfMark(other, next) else 0xFF8)
               else next
  {
    hide Table.IsHalved, Table.Crosses, Table.Bad, Table.Sound, CorrectOne;
    if c > 2 {
      BadIff(t);
      HalvedIff(t, other);
      CorrectedEntries(t, bytes, c - 1, other);
      HasClusters(t, bytes, c - 1);
      if other == c - 1 {
        CorrectedEntry(t, Corrected(t, bytes, c - 1), other);
      } else {
        OthersAreKept(t, Corrected(t, bytes, c - 1), c - 1, other);
      }
    }
  }

  /** No byte outside the entries of the clusters is touched. */
  lemma {:induction false} OtherBytesAreKept(t: Table, bytes: seq<byte>, c: nat, x: nat)
    requires t.Fits(bytes) && c <= t.clusters + 2 && x < |bytes|
    requires x < t.base + 3 || t.base + EntryOffset(FAT12, t.clusters + 1) + 2 <= x
    ensures Corrected(t, bytes, c)[x] == bytes[x]
  {
    hide Encode;
    if c > 2 {
      OtherBytesAreKept(t, bytes, c - 1, x);
      HasClusters(t, bytes, c - 1);
      assert 1 <= (c - 1) / 2 <= (t.clusters + 1) / 2;
    }
  }

  /** Every entry of a cluster is sound. */
  ghost predicate AllGood(t: Table, bytes: seq<byte>)
    requires t.Fits(bytes)
  {
    forall c: nat :: t.IsCluster(c) ==> HasEntry(FAT12, bytes, t.base, c) && t.Sound(EntryAt(t, bytes, c))
  }

  /** An entry across the last two sectors that is still bad after its first byte has been corrected. */
  ghost predicate StaysBad(t: Table, bytes: seq<byte>, c: nat)
    requires t.Fits(bytes)
  {
    t.IsCluster(c) && t.Crosses(c) && HasEntry(FAT12, bytes, t.base, c)
    && !t.Sound(EntryAt(t, bytes, c)) && !t.Sound(HalfMark(c, EntryAt(t, bytes, c)))
  }

  lemma MarkIsGood(t: Table)
    ensures t.Sound(0xFF8)
  {
  }

  /** The corrections leave a bad entry exactly if one lies across the last two sectors and its half mark is bad as well. */
  lemma AllGoodIff(t: Table, bytes: seq<byte>)
    requires t.Fits(bytes)
    ensures AllGood(t, Corrected(t, bytes, t.clusters + 2)) <==> !exists c: nat :: StaysBad(t, bytes, c)
  {
    hide Table.Crosses, Corrected, Entry, Decode, Table.Sound, HalfMark;
    var r := Corrected(t, bytes, t.clusters + 2);
    MarkIsGood(t);
    forall c: nat | t.IsCluster(c)
      ensures HasEntry(FAT12, bytes, t.base, c) && (!t.Sound(EntryAt(t, r, c)) <==> StaysBad(t, bytes, c))
    {
      HasClusters(t, bytes, c);
      CorrectedEntries(t, bytes, t.clusters + 2, c);
    }
  }

  /** Half a mark over half a mark changes nothing. */
  lemma HalfMarkStays(t: Table, bytes: seq<byte>, c: nat)
    requires UsableSector(t.sectorSize) && HasEntry(FAT12, bytes, t.base, c) && t.IsHalved(c)
    requires EntryAt(t, bytes, c) == HalfMark(c, EntryAt(t, bytes, c))
    ensures CorrectOne(t, bytes, c) == bytes
  {
    hide Encode, Table.IsHalved;
    var raw := RawEntry(FAT12, bytes, t.base, c);
    FirstByteOfMark(c, raw);
    if c % 2 == 0 {
      LowTwelve(raw);
    } else {
      HighTwelve(raw);
    }
    SameByte(bytes, t.base + EntryOffset(FAT12, c), Encode(FAT12, c, FAT12_EOC, raw)[..1], c % 2 == 0, Decode(FAT12, c, raw));
  }

  lemma SameByte(bytes: seq<byte>, at: nat, patch: seq<byte>, even: bool, next: nat)
    requires |patch| == 1 && at + 1 < |bytes|
    requires if even then patch[0] == 0xF8 && next == bytes[at] as nat + 256 * (bytes[at + 1] as nat % 16)
             else patch[0] / 16 == 8 && patch[0] % 16 == bytes[at] % 16
                  && next == bytes[at] as nat / 16 + 16 * (bytes[at + 1] as nat)
    requires if even then next == next / 256 * 256 + 0xF8 else next == next / 16 * 16 + 8
    ensures Patch(bytes, at, patch) == bytes
  {
    if even {
      DivModUnique(next, 256, bytes[at + 1] as nat % 16, bytes[at]);
    } else {
      DivModUnique(next, 16, bytes[at + 1], bytes[at] as nat / 16);
    }
    assert patch[0] == bytes[at];
  }

  lemma HalfMarkTwice(c: nat, next: nat)
    ensures HalfMark(c, HalfMark(c, next)) == HalfMark(c, next)
  {
    if c % 2 == 0 {
      DivModUnique(HalfMark(c, next), 256, next / 256, 0xF8);
    } else {
      DivModUnique(HalfMark(c, next), 16, next / 16, 8);
    }
  }

  /** A second repair changes nothing: what the first one has left bad stays bad. */
  lemma {:induction false} SecondRepairChangesNothing(t: Table, bytes: seq<byte>, c: nat)
    requires t.Fits(bytes) && c <= t.clusters + 2
    ensures var r := Corrected(t, bytes, t.clusters + 2); t.Fits(r) && Corrected(t, r, c) == r
  {
    hide CorrectOne, Table.IsHalved, Table.Crosses, Table.Sound, Table.Bad, HalfMark;
    var r := Corrected(t, bytes, t.clusters + 2);
    MarkIsGood(t);
    BadIff(t);
    if c > 2 {
      HalvedIff(t, c - 1);
      SecondRepairChangesNothing(t, bytes, c - 1);
      HasClusters(t, bytes, c - 1);
      CorrectedEntries(t, bytes, t.clusters + 2, c - 1);
      HalfMarkTwice(c - 1, EntryAt(t, bytes, c - 1));
      if t.Bad(EntryAt(t, r, c - 1)) {
        HalfMarkStays(t, r, c - 1);
      } else {
        GoodIsKept(t, r, c - 1);
      }
    }
  }

  lemma GoodIsKept(t: Table, bytes: seq<byte>, c: nat)
    requires UsableSector(t.sectorSize) && HasEntry(FAT12, bytes, t.base, c)
    ensures !t.Bad(EntryAt(t, bytes, c)) ==> CorrectOne(t, bytes, c) == bytes
  {
  }

  /** 354 clusters and a table of two sectors of 512 bytes: the entry of cluster 341 lies across them. */
  lemma HalvedSample(t: Table, bytes: seq<byte>)
    requires t.sectorSize == 512 && t.length == 2 && t.clusters == 354 && t.Fits(bytes)
    requires HasEntry(FAT12, bytes, t.base, 341) && EntryAt(t, bytes, 341) == 0xABC
    ensures EntryAt(t, Corrected(t, bytes, t.clusters + 2), 341) == 0xAB8
    ensures StaysBad(t, bytes, 341)
  {
    hide CorrectOne, Corrected, Entry;
    assert Mod(511, 512) == 511;
    CorrectedEntries(t, bytes, t.clusters + 2, 341);
  }

  // ----- the windows -----

  lemma NextStart(t: Table, c: nat)
    requires UsableSector(t.sectorSize)
    ensures t.Start(c) + t.Offset(c) == EntryOffset(FAT12, c) && t.Offset(c) < t.sectorSize
    ensures t.Start(c + 1) == t.Start(c) || (t.Start(c + 1) == t.Start(c) + t.sectorSize && t.Offset(c + 1) < 2)
    ensures t.Offset(c) == t.sectorSize - 1 ==> t.Start(c + 1) == t.Start(c) + t.sectorSize
  {
    var x := c + c / 2;
    ModNext(x, t.sectorSize);
    ModNext(x + 1, t.sectorSize);
  }

  /** How much a flush in front of cluster c, or behind the last one, writes. */
  function FlushSize(t: Table, c: nat): nat
    requires UsableSector(t.sectorSize) && 2 < c
  {
    t.Size(if c <= t.clusters + 1 then c else c - 1)
  }

  lemma SizeFits(t: Table, bytes: seq<byte>, c: nat)
    requires t.Fits(bytes) && 2 <= c <= t.clusters + 1
    ensures t.Start(c) + t.Size(c) <= t.length * t.sectorSize && t.Offset(c) + 2 <= t.Size(c)
    ensures t.Size(c) <= 2 * t.sectorSize && (c > 2 ==> t.Size(c) <= t.Size(c - 1))
  {
    hide Multiple;
    HasClusters(t, bytes, c);
    NextStart(t, c);
    if c > 2 {
      NextStart(t, c - 1);
    }
    StartsAtSector(t, c);
  }

  lemma StartsAtSector(t: Table, c: nat)
    requires UsableSector(t.sectorSize) && t.Start(c) < t.length * t.sectorSize
    ensures t.Start(c) + t.sectorSize <= t.length * t.sectorSize
    ensures t.Start(c) + t.sectorSize == t.length * t.sectorSize || t.Start(c) + 2 * t.sectorSize <= t.length * t.sectorSize
  {
    StartIsMultiple(FAT12, t.sectorSize, c);
    ProductIsMultiple(t.length, t.sectorSize);
    NextMultiple(t.Start(c), t.length * t.sectorSize, t.sectorSize);
  }

  lemma NextMultiple(a: nat, b: nat, unit: nat)
    requires 0 < unit && Multiple(a, unit) && Multiple(b, unit) && a < b
    ensures a + unit <= b && (a + unit == b || a + 2 * unit <= b)
  {
    MultiplesApart(a, b, unit);
    if a + unit < b {
      assert Multiple(a + unit, unit);
      MultiplesApart(a + unit, b, unit);
    }
  }

  lemma PatchAll(bytes: seq<byte>, w: nat, buffer: seq<byte>, size: nat, off: nat, e: seq<byte>)
    requires off + |e| <= size <= |buffer| && w + size <= |bytes|
    ensures Patch(bytes, w, Patch(buffer, off, e)[..size]) == Patch(Patch(bytes, w, buffer[..size]), w + off, e)
  {
  }

  /** Writing the first half of a window whose second half is as on the disk. */
  lemma PatchHalf(bytes: seq<byte>, w: nat, buffer: seq<byte>, half: nat, off: nat, e: seq<byte>)
    requires |buffer| == 2 * half && off < half && off + |e| <= 2 * half && w + 2 * half <= |bytes|
    requires buffer[half..] == bytes[w + half..w + 2 * half]
    ensures Patch(bytes, w, Patch(buffer, off, e)[..half])
            == Patch(Patch(bytes, w, buffer), w + off, e[..Min(|e|, half - off)])
  {
    hide Patch;
    HalfIsEnough(bytes, w, buffer, half);
    PatchCut(buffer, half, off, e);
    PatchAll(bytes, w, buffer[..half], half, off, e[..Min(|e|, half - off)]);
    assert buffer[..half][..half] == buffer[..half];
    var part := e[..Min(|e|, half - off)];
    assert Patch(buffer[..half], off, part)[..half] == Patch(buffer[..half], off, part);
  }

  lemma HalfIsEnough(bytes: seq<byte>, w: nat, buffer: seq<byte>, half: nat)
    requires |buffer| == 2 * half && w + 2 * half <= |bytes| && buffer[half..] == bytes[w + half..w + 2 * half]
    ensures Patch(bytes, w, buffer) == Patch(bytes, w, buffer[..half])
  {
    var a, b := Patch(bytes, w, buffer), Patch(bytes, w, buffer[..half]);
    forall k | 0 <= k < |bytes|
      ensures a[k] == b[k]
    {
      if w + half <= k < w + 2 * half {
        assert buffer[half..][k - w - half] == bytes[w + half..w + 2 * half][k - w - half];
      }
    }
  }

  lemma PatchCut(buffer: seq<byte>, half: nat, off: nat, e: seq<byte>)
    requires off < half <= |buffer| && off + |e| <= |buffer|
    ensures Patch(buffer, off, e)[..half] == Patch(buffer[..half], off, e[..Min(|e|, half - off)])
  {
  }

  /** The second sector of the window is as on the disk. */
  predicate SecondIsKept(t: Table, bytes: seq<byte>, win: nat, buffer: seq<byte>) {
    t.base + win + 2 * t.sectorSize <= |bytes| && |buffer| == 2 * t.sectorSize
    && buffer[t.sectorSize..] == bytes[t.base + win + t.sectorSize..t.base + win + 2 * t.sectorSize]
  }

  /** The table with the window in the buffer. */
  function WithWindow(t: Table, bytes: seq<byte>, win: nat, buffer: seq<byte>, size: nat): (r: seq<byte>)
    requires size <= |buffer| && t.base + win + size <= |bytes|
    ensures |r| == |bytes|
  {
    Patch(bytes, t.base + win, buffer[..size])
  }

  /** The buffer after cluster c has been looked at. */
  function Checked(t: Table, buffer: seq<byte>, c: nat): (r: seq<byte>)
    requires UsableSector(t.sectorSize) && t.Offset(c) + 2 <= |buffer|
    ensures |r| == |buffer|
  {
    var raw := buffer[t.Offset(c)..t.Offset(c) + 2];
    if t.Bad(Decode(FAT12, c, raw)) then Patch(buffer, t.Offset(c), Encode(FAT12, c, FAT12_EOC, raw)) else buffer
  }

  lemma RawInWindow(t: Table, bytes: seq<byte>, buffer: seq<byte>, c: nat)
    requires t.Fits(bytes) && t.IsCluster(c) && t.Size(c) <= |buffer|
    ensures t.base + t.Start(c) + t.Size(c) <= |bytes| && t.Offset(c) + 2 <= t.Size(c)
    ensures var full := WithWindow(t, bytes, t.Start(c), buffer, t.Size(c));
            && HasEntry(FAT12, full, t.base, c)
            && RawEntry(FAT12, full, t.base, c) == buffer[t.Offset(c)..t.Offset(c) + 2]
  {
    hide Table.Start, Table.Offset, Table.Size;
    SizeFits(t, bytes, c);
    NextStart(t, c);
    HasClusters(t, bytes, c);
  }

  /** What a flush behind cluster c writes is the corrected table. */
  lemma FlushIsCorrection(t: Table, bytes: seq<byte>, buffer: seq<byte>, c: nat)
    requires t.Fits(bytes) && t.IsCluster(c) && |buffer| == 2 * t.sectorSize
    requires t.Size(c) == 2 * t.sectorSize ==> SecondIsKept(t, bytes, t.Start(c), buffer)
    ensures t.base + t.Start(c) + t.Size(c) <= |bytes| && t.Offset(c) + 2 <= t.Size(c) && FlushSize(t, c + 1) <= t.Size(c)
    ensures var full := WithWindow(t, bytes, t.Start(c), buffer, t.Size(c));
            && HasEntry(FAT12, full, t.base, c)
            && WithWindow(t, bytes, t.Start(c), Checked(t, buffer, c), FlushSize(t, c + 1)) == CorrectOne(t, full, c)
  {
    hide Encode, Decode, Table.Start, Table.Offset, Table.IsHalved, Patch, SecondIsKept;
    RawInWindow(t, bytes, buffer, c);
    FlushSizes(t, bytes, c);
    NextStart(t, c);
    var raw := buffer[t.Offset(c)..t.Offset(c) + 2];
    if t.Bad(Decode(FAT12, c, raw)) {
      PatchedWindow(t, bytes, t.Start(c), buffer, t.Size(c), FlushSize(t, c + 1), t.Offset(c),
                    Encode(FAT12, c, FAT12_EOC, raw));
    } else {
      KeptWindow(t, bytes, t.Start(c), buffer, t.Size(c), FlushSize(t, c + 1));
    }
  }

  /** The flush is as long as the window, or it cuts the window in the middle; then an entry across the cut is halved. */
  lemma FlushSizes(t: Table, bytes: seq<byte>, c: nat)
    requires t.Fits(bytes) && t.IsCluster(c)
    ensures var size, flush := t.Size(c), FlushSize(t, c + 1);
            && (flush == size || (size == 2 * t.sectorSize && flush == t.sectorSize && t.Offset(c) < flush))
            && (t.IsHalved(c) <==> flush != size && t.Offset(c) == t.sectorSize - 1)
  {
    hide Table.Start, Table.Offset;
    NextStart(t, c);
    if c + 1 <= t.clusters + 1 {
      SizeFits(t, bytes, c + 1);
    }
  }

  lemma CutToLength(a: seq<byte>, b: seq<byte>)
    ensures a[..|a|] == a && b[..|b|] == b
  {
  }

  lemma PatchedWindow(t: Table, bytes: seq<byte>, win: nat, buffer: seq<byte>, size: nat, flush: nat, off: nat, e: seq<byte>)
    requires |e| == 2 && off + 2 <= size <= |buffer| && t.base + win + size <= |bytes|
    requires flush == size
             || (size == 2 * t.sectorSize && flush == t.sectorSize && off < flush && SecondIsKept(t, bytes, win, buffer))
    ensures WithWindow(t, bytes, win, Patch(buffer, off, e), flush)
            == Patch(WithWindow(t, bytes, win, buffer, size), t.base + win + off,
                     if flush != size && off == flush - 1 then e[..1] else e)
  {
    hide Patch;
    if flush == size {
      PatchAll(bytes, t.base + win, buffer, size, off, e);
    } else {
      PatchHalf(bytes, t.base + win, buffer, t.sectorSize, off, e);
      CutToLength(buffer, e);
    }
  }

  lemma KeptWindow(t: Table, bytes: seq<byte>, win: nat, buffer: seq<byte>, size: nat, flush: nat)
    requires size <= |buffer| && t.base + win + size <= |bytes|
    requires flush == size
             || (size == 2 * t.sectorSize && flush == t.sectorSize && 0 < flush && SecondIsKept(t, bytes, win, buffer))
    ensures WithWindow(t, bytes, win, buffer, flush) == WithWindow(t, bytes, win, buffer, size)
  {
    hide Patch;
    if flush != size {
      assert buffer[..2 * t.sectorSize] == buffer;
      HalfIsEnough(bytes, t.base + win, buffer, t.sectorSize);
    }
  }

  // ----- the code -----

  /** Is there a bad entry among those below c? */
  ghost predicate BadBelow(t: Table, bytes: seq<byte>, c: nat)
    requires t.Fits(bytes) && c <= t.clusters + 2
  {
    exists k: nat :: 2 <= k < c && IsBadAt(t, bytes, k)
  }

  predicate IsBadAt(t: Table, bytes: seq<byte>, c: nat) {
    HasEntry(FAT12, bytes, t.base, c) && !t.Sound(EntryAt(t, bytes, c))
  }

  /** The entries from c on are as they were. */
  ghost predicate SameFrom(t: Table, orig: seq<byte>, bytes: seq<byte>, c: nat)
    requires t.Fits(orig) && |bytes| == |orig|
  {
    forall k: nat :: c <= k <= t.clusters + 1 ==> IsBadAt(t, bytes, k) == IsBadAt(t, orig, k)
  }

  /** What the repair has done to the disk, and `full`, what it would be after a flush. */
  ghost predicate IsAt(t: Table, orig: seq<byte>, bytes: seq<byte>, full: seq<byte>, corrupted: bool, yes: bool, c: nat)
    requires t.Fits(orig) && c <= t.clusters + 2
  {
    && |bytes| == |full| == |orig|
    && (!corrupted ==> full == bytes)
    && (yes ==> full == Corrected(t, orig, c))
    && (!yes ==> bytes == orig)
    && SameFrom(t, orig, full, c)
  }

  /** In front of cluster c, with the window of the cluster before it in the buffer. */
  ghost predicate InFront(t: Table, orig: seq<byte>, bytes: seq<byte>, buffer: seq<byte>, win: nat, corrupted: bool,
                          yes: bool, c: nat)
    requires t.Fits(orig) && 2 < c <= t.clusters + 2
  {
    && win == t.Start(c - 1) && |buffer| == 2 * t.sectorSize && t.base + win + FlushSize(t, c) <= |bytes|
    && IsAt(t, orig, bytes, WithWindow(t, bytes, win, buffer, FlushSize(t, c)), corrupted, yes, c)
    && (t.Start(c) == win && t.Size(c) == 2 * t.sectorSize ==> SecondIsKept(t, bytes, win, buffer))
  }

  /** In front of cluster c, with its own window in the buffer. */
  ghost predicate Loaded(t: Table, orig: seq<byte>, bytes: seq<byte>, buffer: seq<byte>, corrupted: bool, yes: bool, c: nat)
    requires t.Fits(orig) && t.IsCluster(c)
  {
    && |buffer| == 2 * t.sectorSize && t.base + t.Start(c) + t.Size(c) <= |bytes|
    && IsAt(t, orig, bytes, WithWindow(t, bytes, t.Start(c), buffer, t.Size(c)), corrupted, yes, c)
    && (t.Size(c) == 2 * t.sectorSize ==> SecondIsKept(t, bytes, t.Start(c), buffer))
  }

  lemma CorrectionStep(t: Table, orig: seq<byte>, bytes: seq<byte>, full: seq<byte>, corrupted: bool, yes: bool, c: nat)
    requires t.Fits(orig) && t.IsCluster(c) && IsAt(t, orig, bytes, full, corrupted, yes, c)
    ensures HasEntry(FAT12, full, t.base, c)
    ensures IsAt(t, orig, bytes, CorrectOne(t, full, c), corrupted || t.Bad(EntryAt(t, full, c)), yes, c + 1)
    ensures t.Bad(EntryAt(t, full, c)) <==> IsBadAt(t, orig, c)
    ensures BadBelow(t, orig, c + 1) <==> BadBelow(t, orig, c) || IsBadAt(t, orig, c)
  {
    hide CorrectOne, Table.Bad, Table.Sound, Corrected;
    BadIff(t);
    HasClusters(t, orig, c);
    CorrectedNext(t, orig, c);
    GoodIsKept(t, full, c);
    assert IsBadAt(t, full, c) == IsBadAt(t, orig, c);
    forall k: nat | c + 1 <= k <= t.clusters + 1
      ensures IsBadAt(t, CorrectOne(t, full, c), k) == IsBadAt(t, orig, k)
    {
      HasClusters(t, orig, k);
      OthersAreKept(t, full, c, k);
    }
  }

  lemma CorrectedNext(t: Table, bytes: seq<byte>, c: nat)
    requires t.Fits(bytes) && t.IsCluster(c)
    ensures HasEntry(FAT12, Corrected(t, bytes, c), t.base, c)
    ensures Corrected(t, bytes, c + 1) == CorrectOne(t, Corrected(t, bytes, c), c)
  {
    HasClusters(t, bytes, c);
  }

  /** Write the window at cluster c if it has been corrected and the user agrees; he is asked once. */
  method Flush(disk: Disk, t: Table, buffer: array<byte>, win: nat, size: nat, corrupted: bool, answer: bool)
    requires size <= buffer.Length && t.base + win + size <= |disk.bytes|
    modifies disk`bytes
    ensures disk.bytes == if corrupted && answer then WithWindow(t, old(disk.bytes), win, buffer[..], size) else old(disk.bytes)
  {
    if corrupted && answer {
      var _ := disk.Pwrite(buffer, size, t.base + win);
      assert buffer[..][..size] == buffer[..size];
    }
  }

  lemma FreshWindow(t: Table, bytes: seq<byte>, win: nat, buffer: seq<byte>, size: nat)
    requires size <= |buffer| == 2 * t.sectorSize && t.base + win + size <= |bytes|
    requires buffer[..size] == bytes[t.base + win..t.base + win + size]
    ensures WithWindow(t, bytes, win, buffer, size) == bytes
    ensures size == 2 * t.sectorSize ==> SecondIsKept(t, bytes, win, buffer)
  {
  }

  /** Flush the window in the buffer, if there is one, and read that of cluster c. */
  method NextWindow(disk: Disk, t: Table, ghost orig: seq<byte>, buffer: array<byte>, win: nat, start: nat, size: nat,
                    corrupted: bool, answer: bool, c: nat)
    requires t.Fits(orig) && t.IsCluster(c) && |disk.bytes| == |orig| && buffer.Length == 2 * t.sectorSize
    requires start == t.Start(c) && size == t.Size(c) && (c == 2 ==> disk.bytes == orig)
    requires c > 2 ==> InFront(t, orig, disk.bytes, buffer[..], win, corrupted, answer, c)
    modifies disk`bytes, buffer
    ensures Loaded(t, orig, disk.bytes, buffer[..], false, answer, c)
  {
    hide Table.Start, Table.Offset, Patch, SecondIsKept, SameFrom, WithWindow, Corrected;
    SizeFits(t, orig, c);
    if c > 2 {
      Flush(disk, t, buffer, win, size, corrupted, answer);
    } else {
      NothingCorrected(t, orig);
    }
    var _ := disk.Pread(buffer, 0, size, t.base + start);
    assert buffer[..][..size] == buffer[0..size];
    FreshWindow(t, disk.bytes, start, buffer[..], size);
    SameAsBefore(t, orig, c);
  }

  lemma SameAsBefore(t: Table, orig: seq<byte>, c: nat)
    requires t.Fits(orig)
    ensures SameFrom(t, orig, orig, c)
  {
  }

  lemma NothingCorrected(t: Table, orig: seq<byte>)
    requires t.Fits(orig)
    ensures Corrected(t, orig, 2) == orig && SameFrom(t, orig, orig, 2)
  {
  }

  /** Look at the entry of cluster c in the buffer, and put an end-of-chain mark over it if it is bad. */
  method CheckEntry(t: Table, buffer: array<byte>, offset: nat, c: nat) returns (bad: bool)
    requires UsableSector(t.sectorSize) && offset == t.Offset(c) && offset + 2 <= buffer.Length
    modifies buffer
    ensures buffer[..] == Checked(t, old(buffer[..]), c)
    ensures bad <==> t.Bad(Decode(FAT12, c, old(buffer[..])[offset..offset + 2]))
  {
    hide Encode, Decode;
    var raw := buffer[..][offset..offset + 2];
    bad := t.Bad(Decode(FAT12, c, raw));
    if bad {
      var mark := Encode(FAT12, c, FAT12_EOC, raw);
      buffer[offset], buffer[offset + 1] := mark[0], mark[1];
      assert buffer[..] == Patch(old(buffer[..]), offset, mark);
    }
  }

  /** A check in front of the end of the first sector leaves the second sector alone. */
  lemma CheckedKeepsSecond(t: Table, bytes: seq<byte>, win: nat, buffer: seq<byte>, c: nat)
    requires UsableSector(t.sectorSize) && SecondIsKept(t, bytes, win, buffer) && t.Offset(c) + 2 <= t.sectorSize
    ensures SecondIsKept(t, bytes, win, Checked(t, buffer, c))
  {
    hide Encode, Decode;
    assert Checked(t, buffer, c)[t.sectorSize..] == buffer[t.sectorSize..];
  }

  lemma SameWindow(t: Table, c: nat)
    requires UsableSector(t.sectorSize)
    ensures t.Start(c + 1) == t.Start(c) ==> t.Offset(c) + 2 <= t.sectorSize && t.Size(c + 1) == t.Size(c)
  {
    hide Table.Start, Table.Offset;
    NextStart(t, c);
  }

  /** From a loaded window to the next cluster. */
  lemma CheckedIsInFront(t: Table, orig: seq<byte>, bytes: seq<byte>, buffer: seq<byte>, corrupted: bool, yes: bool, c: nat)
    requires t.Fits(orig) && t.IsCluster(c) && Loaded(t, orig, bytes, buffer, corrupted, yes, c)
    ensures t.Offset(c) + 2 <= |buffer|
    ensures var bad := t.Bad(Decode(FAT12, c, buffer[t.Offset(c)..t.Offset(c) + 2]));
            && InFront(t, orig, bytes, Checked(t, buffer, c), t.Start(c), corrupted || bad, yes, c + 1)
            && (BadBelow(t, orig, c + 1) <==> BadBelow(t, orig, c) || bad)
  {
    hide Table.Start, Table.Offset, Table.Size, Table.Bad, SecondIsKept, WithWindow, CorrectOne, Corrected, SameFrom, Checked,
         Decode, BadBelow;
    SizeFits(t, bytes, c);
    RawInWindow(t, bytes, buffer, c);
    FlushIsCorrection(t, bytes, buffer, c);
    CorrectionStep(t, orig, bytes, WithWindow(t, bytes, t.Start(c), buffer, t.Size(c)), corrupted, yes, c);
    SameWindow(t, c);
    if t.Start(c + 1) == t.Start(c) && t.Size(c + 1) == 2 * t.sectorSize {
      CheckedKeepsSecond(t, bytes, t.Start(c), buffer, c);
    }
  }

  /** The check of one cluster. */
  method CheckCluster(disk: Disk, t: Table, ghost orig: seq<byte>, buffer: array<byte>, offset: nat, corrupted: bool,
                      ghost yes: bool, c: nat)
    returns (corrupted': bool, ghost bad: bool)
    requires t.Fits(orig) && t.IsCluster(c) && Loaded(t, orig, disk.bytes, buffer[..], corrupted, yes, c)
    requires offset == t.Offset(c)
    modifies buffer
    ensures corrupted' == (corrupted || bad) && InFront(t, orig, disk.bytes, buffer[..], t.Start(c), corrupted', yes, c + 1)
    ensures BadBelow(t, orig, c + 1) <==> BadBelow(t, orig, c) || bad
  {
    hide Table.Start, Table.Offset, Table.Size, InFront, Loaded, Checked, Decode, BadBelow;
    CheckedIsInFront(t, orig, disk.bytes, buffer[..], corrupted, yes, c);
    var isBad := CheckEntry(t, buffer, offset, c);
    corrupted', bad := corrupted || isBad, isBad;
  }

  /** The state of the loop in front of cluster c. */
  ghost predicate AtLoop(t: Table, orig: seq<byte>, bytes: seq<byte>, buffer: seq<byte>, win: nat, size: nat, corrupted: bool,
                         damaged: bool, yes: bool, c: nat)
    requires t.Fits(orig) && 2 <= c <= t.clusters + 2
  {
    && |bytes| == |orig| && |buffer| == 2 * t.sectorSize
    && size == (if c == 2 then 2 * t.sectorSize else t.Size(c - 1))
    && (c == 2 ==> bytes == orig && !corrupted)
    && (c > 2 ==> InFront(t, orig, bytes, buffer, win, corrupted, yes, c))
    && (damaged || corrupted <==> BadBelow(t, orig, c))
  }

  /** rw_size at cluster c: it is cut to one sector when the last sector is reached. */
  method SizeAt(t: Table, ghost orig: seq<byte>, start: nat, size: nat, c: nat) returns (size': nat)
    requires t.Fits(orig) && t.IsCluster(c) && start == t.Start(c)
    requires size == (if c == 2 then 2 * t.sectorSize else t.Size(c - 1))
    ensures size' == t.Size(c)
  {
    hide Table.Start, Table.Offset;
    SizeFits(t, orig, c);
    size' := if start == t.length * t.sectorSize - t.sectorSize then t.sectorSize else size;
  }

  /** The loop body. */
  method RepairCluster(disk: Disk, t: Table, ghost orig: seq<byte>, buffer: array<byte>, win: nat, size: nat, corrupted: bool,
                       damaged: bool, answer: bool, c: nat)
    returns (win': nat, size': nat, corrupted': bool, damaged': bool)
    requires t.Fits(orig) && t.IsCluster(c) && buffer.Length == 2 * t.sectorSize
    requires AtLoop(t, orig, disk.bytes, buffer[..], win, size, corrupted, damaged, answer, c)
    modifies disk`bytes, buffer
    ensures AtLoop(t, orig, disk.bytes, buffer[..], win', size', corrupted', damaged', answer, c + 1)
  {
    hide SectorStart, OffsetInSector, Table.Size, SecondIsKept, WithWindow, Corrected, SameFrom, BadBelow;
    var start, offset := Locate(FAT12, t.sectorSize, c);
    size' := SizeAt(t, orig, start, size, c);
    win', corrupted', damaged' := start, corrupted, damaged;
    if c == 2 || start != win {
      NextWindow(disk, t, orig, buffer, win, start, size', corrupted, answer, c);
      damaged', corrupted' := damaged || corrupted, false;
    } else {
      SameWindow(t, c - 1);
    }
    ghost var bad;
    corrupted', bad := CheckCluster(disk, t, orig, buffer, offset, corrupted', answer, c);
  }

  /** repair_FAT_table for one copy of a FAT12: is the table damaged, and what is made of it? */
  method RepairFat12(disk: Disk, t: Table, answer: bool) returns (damaged: bool)
    requires t.Fits(disk.bytes)
    modifies disk`bytes
    ensures damaged <==> BadBelow(t, old(disk.bytes), t.clusters + 2)
    ensures disk.bytes == if answer then Corrected(t, old(disk.bytes), t.clusters + 2) else old(disk.bytes)
  {
    hide Table.Start, Table.Offset, Table.Size, SecondIsKept, Corrected, SameFrom, WithWindow;
    ghost var orig := disk.bytes;
    var buffer := new byte[2 * t.sectorSize](_ => 0);
    var c, win: nat, size: nat, corrupted := 2, 0, 2 * t.sectorSize, false;
    damaged := false;
    while c <= t.clusters + 1
      invariant 2 <= c <= t.clusters + 2
      invariant AtLoop(t, orig, disk.bytes, buffer[..], win, size, corrupted, damaged, answer, c)
    {
      win, size, corrupted, damaged := RepairCluster(disk, t, orig, buffer, win, size, corrupted, damaged, answer, c);
      c := c + 1;
    }
    if c > 2 {
      SizeFits(t, orig, c - 1);
      Flush(disk, t, buffer, win, size, corrupted, answer);
    } else {
      NothingCorrected(t, orig);
    }
    damaged := damaged || corrupted;
  }
}
