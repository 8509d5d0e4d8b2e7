/** What a repair run means for the table as get_next_cluster reads it afterwards. */
module RepairedTable {
  import opened Arith
  import opened Bytes
  import FatChains
  import opened FatSectors
  import opened FatTable
  import opened FatRepair
  import opened RepairMachine
  import opened RepairRun
  import opened RepairTheorems
  import opened Seqs

  function TypeOf(z: WordSize): FatType {
    if z == Two then FAT16 else FAT32
  }

  lemma {:induction false} BaseIsProduct(p: Volume, i: nat, width: nat, sectorSize: nat)
    requires sectorSize == p.per * width
    ensures width * Base(p, i) == i * sectorSize
  {
    if i > 0 {
      BaseIsProduct(p, i - 1, width, sectorSize);
      assert width * (Base(p, i - 1) + p.per) == width * Base(p, i - 1) + p.per * width;
      assert i * sectorSize == (i - 1) * sectorSize + sectorSize;
    }
  }

  lemma AddressOfSector(l: Layout, sectorSize: nat, k: nat, i: nat)
    ensures SectorAddress(l, sectorSize, k, i) == FatBase(l, sectorSize, k) + i * sectorSize
  {
    assert l.fatLength * k == k * l.fatLength;
  }

  /** The bytes of the entry of a cluster lie in the word of its sector. */
  lemma OffsetOfWord(p: Volume, l: Layout, sectorSize: nat, k: nat, i: nat, w: nat)
    requires sectorSize == p.per * p.z.Bytes() && w < p.per
    ensures FatBase(l, sectorSize, k) + EntryOffset(TypeOf(p.z), Base(p, i) + w)
            == SectorAddress(l, sectorSize, k, i) + EntryOffset(TypeOf(p.z), w)
    ensures EntryOffset(TypeOf(p.z), w) + p.z.Bytes() <= sectorSize
  {
    AddressOfSector(l, sectorSize, k, i);
    BaseIsProduct(p, i, p.z.Bytes(), sectorSize);
  }

  lemma RawEntryElsewhere(t: FatType, bytes: seq<byte>, base: nat, cluster: nat, from: nat, size: nat, w: nat)
    requires from + size <= |bytes| && EntryOffset(t, w) + EntryWidth(t) <= size && t != FAT12
    requires base + EntryOffset(t, cluster) == from + EntryOffset(t, w)
    ensures HasEntry(t, bytes, base, cluster) && HasEntry(t, bytes[from..from + size], 0, w)
    ensures Entry(t, bytes, base, cluster) == Entry(t, bytes[from..from + size], 0, w)
  {
    hide Decode;
    var at, n := EntryOffset(t, w), EntryWidth(t);
    SliceOfSlice(bytes, from, size, at, n);
    SameDecoding(t, cluster, w, RawEntry(t, bytes, base, cluster));
  }

  /** The words that the repair works on are the entries of the table. */
  lemma EntryOfWord(p: Volume, l: Layout, sectorSize: nat, bytes: seq<byte>, k: nat, i: nat, w: nat)
    requires sectorSize == p.per * p.z.Bytes() && w < p.per
    requires SectorAddress(l, sectorSize, k, i) + sectorSize <= |bytes|
    ensures var t := TypeOf(p.z);
            var base := FatBase(l, sectorSize, k);
            var s := SectorAt(p.z, l, sectorSize, bytes, k, i);
            && |s| == p.per && HasEntry(t, bytes, base, Base(p, i) + w)
            && Entry(t, bytes, base, Base(p, i) + w) == p.Next(s[w])
  {
    var from := SectorAddress(l, sectorSize, k, i);
    EntryIsNext(p, bytes[from..from + sectorSize], w);
    OffsetOfWord(p, l, sectorSize, k, i, w);
    RawEntryElsewhere(TypeOf(p.z), bytes, FatBase(l, sectorSize, k), Base(p, i) + w, from, sectorSize, w);
  }

  lemma EntryIsNext(p: Volume, b: seq<byte>, w: nat)
    requires |b| == p.per * p.z.Bytes() && w < p.per
    ensures |WordsOf(p.z, b)| == p.per && HasEntry(TypeOf(p.z), b, 0, w)
    ensures Entry(TypeOf(p.z), b, 0, w) == p.Next(WordsOf(p.z, b)[w])
  {
    WordsFit(p.z, b);
    WordIsEntry(p.z, b, w);
  }

  /** Sound; with a single FAT, the word before the run unless that was not sound. */
  predicate IsRepaired(p: Volume, cluster: nat, was: nat, now: nat, single: bool) {
    && IsSoundWord(p, cluster, now)
    && (single ==> now == if IsSoundWord(p, cluster, was) then was else if p.z == Two then 0xFFF8 else 0x0FFF_FFF8)
  }

  /** Where the bytes of copy k begin on the disk. */
  function FatBase(l: Layout, sectorSize: nat, k: nat): nat {
    l.part + (l.startFat + k * l.fatLength) * sectorSize
  }

  /** Does the entry of a cluster hold something it may hold, in the FAT whose bytes begin at `base`? */
  predicate IsSoundEntry(p: Volume, bytes: seq<byte>, base: nat, cluster: nat)
    requires HasEntry(TypeOf(p.z), bytes, base, cluster)
  {
    IsSound(p.z, p.noOfCluster, cluster == p.root, Entry(TypeOf(p.z), bytes, base, cluster))
  }

  /** The entry is sound; with a single FAT it is what it was, or ends its chain if that was not sound. */
  predicate EntryIsRepaired(p: Volume, before: seq<byte>, after: seq<byte>, base: nat, cluster: nat, single: bool) {
    var t := TypeOf(p.z);
    && HasEntry(t, before, base, cluster) && HasEntry(t, after, base, cluster)
    && IsSoundEntry(p, after, base, cluster)
    && var was, now := Entry(t, before, base, cluster), Entry(t, after, base, cluster);
       single ==> if IsSoundEntry(p, before, base, cluster) then now == was else FatChains.IsEoc(t, now)
  }

  /**
   * After a run with every question answered yes, every entry that get_next_cluster reads for a cluster of the volume is
   * sound in every copy of the FAT. On a volume with one FAT, a sound entry is the one before the run, and any other one
   * ends its chain.
   */
  lemma RepairedEntry(p: Volume, l: Layout, sectorSize: nat, before: seq<byte>, after: seq<byte>, copies: seq<seq<Sector>>,
                      answers: seq<bool>, looksLikeFat: Sector -> bool, k: nat, cluster: nat)
    requires p.Valid() && Shape(p, copies) && |copies| == l.fats == |answers| && |copies[0]| == SectorCount(p)
    requires sectorSize == p.per * p.z.Bytes() && SectorsFit(l, sectorSize, before, SectorCount(p))
    requires copies == Copies(p.z, l, sectorSize, before, SectorCount(p))
    requires OnDisk(p, l, sectorSize, after, copies, answers, looksLikeFat, SectorCount(p)) && AllYes(answers)
    requires k < l.fats && 2 <= cluster <= p.noOfCluster + 1
    ensures EntryIsRepaired(p, before, after, FatBase(l, sectorSize, k), cluster, l.fats == 1)
  {
    BaseDivMod(p, cluster);
    LaterClustersFit(p, cluster);
    RepairedEntryAt(p, l, sectorSize, before, after, copies, answers, looksLikeFat, k, Div(cluster, p.per), Mod(cluster, p.per));
  }

  lemma RepairedEntryAt(p: Volume, l: Layout, sectorSize: nat, before: seq<byte>, after: seq<byte>, copies: seq<seq<Sector>>,
                        answers: seq<bool>, looksLikeFat: Sector -> bool, k: nat, i: nat, w: nat)
    requires p.Valid() && Shape(p, copies) && |copies| == l.fats == |answers| && |copies[0]| == SectorCount(p)
    requires sectorSize == p.per * p.z.Bytes() && SectorsFit(l, sectorSize, before, SectorCount(p))
    requires copies == Copies(p.z, l, sectorSize, before, SectorCount(p))
    requires OnDisk(p, l, sectorSize, after, copies, answers, looksLikeFat, SectorCount(p)) && AllYes(answers)
    requires k < l.fats && i < SectorCount(p) && w < p.per && 2 <= Base(p, i) + w <= p.noOfCluster + 1
    ensures EntryIsRepaired(p, before, after, FatBase(l, sectorSize, k), Base(p, i) + w, l.fats == 1)
  {
    hide IsRepaired, EntryIsRepaired, SectorAt, OnDisk, Shape, SectorCount, Base;
    var was, now := RepairedWord(p, l, sectorSize, before, after, copies, answers, looksLikeFat, k, i, w);
    EntriesOfWords(p, l, sectorSize, before, after, k, i, w, was, now, l.fats == 1);
  }

  lemma EntriesOfWords(p: Volume, l: Layout, sectorSize: nat, before: seq<byte>, after: seq<byte>, k: nat, i: nat, w: nat,
                       was: nat, now: nat, single: bool)
    requires sectorSize == p.per * p.z.Bytes() && w < p.per
    requires SectorAddress(l, sectorSize, k, i) + sectorSize <= |before| && SectorAddress(l, sectorSize, k, i) + sectorSize <= |after|
    requires |SectorAt(p.z, l, sectorSize, before, k, i)| == |SectorAt(p.z, l, sectorSize, after, k, i)| == p.per
    requires was == SectorAt(p.z, l, sectorSize, before, k, i)[w] && now == SectorAt(p.z, l, sectorSize, after, k, i)[w]
    requires IsRepaired(p, Base(p, i) + w, was, now, single)
    ensures EntryIsRepaired(p, before, after, FatBase(l, sectorSize, k), Base(p, i) + w, single)
  {
    hide SectorAt, Entry, HasEntry;
    EntryOfWord(p, l, sectorSize, before, k, i, w);
    EntryOfWord(p, l, sectorSize, after, k, i, w);
  }

  /** The same for one word of one sector. */
  lemma RepairedWord(p: Volume, l: Layout, sectorSize: nat, before: seq<byte>, after: seq<byte>, copies: seq<seq<Sector>>,
                     answers: seq<bool>, looksLikeFat: Sector -> bool, k: nat, i: nat, w: nat)
    returns (was: nat, now: nat)
    requires p.Valid() && Shape(p, copies) && |copies| == l.fats == |answers| && |copies[0]| == SectorCount(p)
    requires SectorsFit(l, sectorSize, before, SectorCount(p))
    requires copies == Copies(p.z, l, sectorSize, before, SectorCount(p))
    requires OnDisk(p, l, sectorSize, after, copies, answers, looksLikeFat, SectorCount(p)) && AllYes(answers)
    requires k < l.fats && i < SectorCount(p) && w < p.per && 2 <= Base(p, i) + w <= p.noOfCluster + 1
    ensures SectorAddress(l, sectorSize, k, i) + sectorSize <= |before| && SectorAddress(l, sectorSize, k, i) + sectorSize <= |after|
    ensures |SectorAt(p.z, l, sectorSize, before, k, i)| == |SectorAt(p.z, l, sectorSize, after, k, i)| == p.per
    ensures was == SectorAt(p.z, l, sectorSize, before, k, i)[w] && now == SectorAt(p.z, l, sectorSize, after, k, i)[w]
    ensures IsRepaired(p, Base(p, i) + w, was, now, l.fats == 1)
  {
    hide IsRepaired, Run, SectorAt, OnDisk;
    var r := WordAfterRun(p, copies, looksLikeFat, k, i, w);
    SectorOnDisk(p, l, sectorSize, after, copies, answers, looksLikeFat, k, i);
    assert copies[k][i] == SectorAt(p.z, l, sectorSize, before, k, i);
    was, now := copies[k][i][w], r[w];
  }

  lemma SectorAfterRun(p: Volume, copies: seq<seq<Sector>>, looksLikeFat: Sector -> bool, k: nat, i: nat)
    returns (r: Sector)
    requires Shape(p, copies) && k < |copies| && i < |copies[0]|
    ensures r == Run(p, copies, looksLikeFat)[k][i] && p.IsSector(r) && Clean(p, r, Base(p, i))
  {
    r := Target(p, copies, k, i, looksLikeFat);
    TargetIsClean(p, copies, k, i, looksLikeFat);
  }

  lemma WordAfterRun(p: Volume, copies: seq<seq<Sector>>, looksLikeFat: Sector -> bool, k: nat, i: nat, w: nat)
    returns (r: Sector)
    requires p.Valid() && Shape(p, copies) && k < |copies| && i < |copies[0]| && w < p.per
    requires 2 <= Base(p, i) + w <= p.noOfCluster + 1
    ensures r == Run(p, copies, looksLikeFat)[k][i] && |r| == p.per
    ensures IsRepaired(p, Base(p, i) + w, copies[k][i][w], r[w], |copies| == 1)
  {
    hide Run, Target, Clean, Shape;
    r := SectorAfterRun(p, copies, looksLikeFat, k, i);
    GoodWord(p, r, Base(p, i), w);
    BadIff(p, Base(p, i) + w, r[w]);
    BaseIs(p, i);
    if |copies| == 1 {
      GoodEntriesAreKept(p, copies, looksLikeFat, k, i, w);
    }
  }

  /** Sector i of copy k as the run leaves it on the disk. */
  lemma SectorOnDisk(p: Volume, l: Layout, sectorSize: nat, after: seq<byte>, copies: seq<seq<Sector>>,
                     answers: seq<bool>, looksLikeFat: Sector -> bool, k: nat, i: nat)
    requires p.Valid() && Shape(p, copies) && |copies| == l.fats == |answers| && |copies[0]| == SectorCount(p)
    requires OnDisk(p, l, sectorSize, after, copies, answers, looksLikeFat, SectorCount(p)) && AllYes(answers)
    requires k < l.fats && i < SectorCount(p)
    ensures SectorAddress(l, sectorSize, k, i) + sectorSize <= |after|
    ensures SectorAt(p.z, l, sectorSize, after, k, i) == Run(p, copies, looksLikeFat)[k][i]
  {
    RunIsRepaired(p, copies, answers, looksLikeFat);
    assert Copies(p.z, l, sectorSize, after, SectorCount(p))[k][i] == SectorAt(p.z, l, sectorSize, after, k, i);
  }

  // ----- damage -----

  /** The entry of a cluster in copy k holds something it may not hold. */
  predicate IsSpoilt(p: Volume, l: Layout, sectorSize: nat, bytes: seq<byte>, k: nat, cluster: nat) {
    && HasEntry(TypeOf(p.z), bytes, FatBase(l, sectorSize, k), cluster)
    && !IsSoundEntry(p, bytes, FatBase(l, sectorSize, k), cluster)
  }

  ghost predicate HasSpoiltEntry(p: Volume, l: Layout, sectorSize: nat, bytes: seq<byte>, k: nat, i: nat) {
    exists cluster :: && 2 <= cluster <= p.noOfCluster + 1 && i * p.per <= cluster < i * p.per + p.per
                      && IsSpoilt(p, l, sectorSize, bytes, k, cluster)
  }

  predicate Differ(bytes: seq<byte>, a: nat, b: nat, size: nat) {
    a + size <= |bytes| && b + size <= |bytes| && bytes[a..a + size] != bytes[b..b + size]
  }

  /** Sector i differs between two copies, or every copy holds an entry there that is not sound. */
  ghost predicate IsDamagedSector(p: Volume, l: Layout, sectorSize: nat, bytes: seq<byte>, i: nat) {
    || (l.fats == 2 && Differ(bytes, FatBase(l, sectorSize, 0) + i * sectorSize, FatBase(l, sectorSize, 1) + i * sectorSize, sectorSize))
    || forall k :: 0 <= k < l.fats ==> HasSpoiltEntry(p, l, sectorSize, bytes, k, i)
  }

  lemma QuotientBound(x: nat, d: nat, q: nat, r: nat, i: nat)
    requires r < d && q * d + r == x
    ensures i <= q <==> i * d <= x
  {
    MulMonotone(d, i, q);
    MulMonotone(d, q, i);
    assert d * i == i * d && d * q == q * d;
  }

  lemma SectorHasCluster(p: Volume, i: nat)
    requires p.Valid()
    ensures i < SectorCount(p) <==> 0 < p.noOfCluster && i * p.per <= p.noOfCluster + 1
  {
    var x := p.noOfCluster + 1;
    BaseDivMod(p, x);
    BaseIs(p, Div(x, p.per));
    QuotientBound(x, p.per, Div(x, p.per), Mod(x, p.per), i);
  }

  /** What a scan reports as a bad entry is one that is not sound. */
  lemma CleanIff(p: Volume, l: Layout, sectorSize: nat, bytes: seq<byte>, k: nat, i: nat)
    requires sectorSize == p.per * p.z.Bytes() && SectorAddress(l, sectorSize, k, i) + sectorSize <= |bytes| && p.Valid()
    ensures var s := SectorAt(p.z, l, sectorSize, bytes, k, i);
            p.IsSector(s) && (Clean(p, s, Base(p, i)) <==> !HasSpoiltEntry(p, l, sectorSize, bytes, k, i))
  {
    hide SectorAt, IsSpoilt, FirstWord, WordCount, Base, Volume.Bad, Clean;
    var s := SectorAt(p.z, l, sectorSize, bytes, k, i);
    SpoiltWord(p, l, sectorSize, bytes, k, i, 0);
    if HasSpoiltEntry(p, l, sectorSize, bytes, k, i) {
      var cluster :| && 2 <= cluster <= p.noOfCluster + 1 && i * p.per <= cluster < i * p.per + p.per
                     && IsSpoilt(p, l, sectorSize, bytes, k, cluster);
      SpoiltWord(p, l, sectorSize, bytes, k, i, cluster - i * p.per);
      BadWordIsFound(p, s, Base(p, i), cluster - i * p.per);
    }
    if !Clean(p, s, Base(p, i)) {
      var w := BadWord(p, s, Base(p, i));
      SpoiltWord(p, l, sectorSize, bytes, k, i, w);
    }
  }

  lemma BadWordIsFound(p: Volume, s: Sector, base: nat, w: nat)
    requires p.IsSector(s) && w < p.per && FirstWord(base) <= w < WordCount(p, base) && p.Bad(base + w, s[w])
    ensures !Clean(p, s, base)
  {
  }

  lemma BadWord(p: Volume, s: Sector, base: nat) returns (w: nat)
    requires p.IsSector(s) && !Clean(p, s, base)
    ensures w < p.per && FirstWord(base) <= w < WordCount(p, base) && p.Bad(base + w, s[w])
  {
    w :| FirstWord(base) <= w < WordCount(p, base) && p.Bad(base + w, s[w]);
  }

  lemma SpoiltWord(p: Volume, l: Layout, sectorSize: nat, bytes: seq<byte>, k: nat, i: nat, w: nat)
    requires sectorSize == p.per * p.z.Bytes() && SectorAddress(l, sectorSize, k, i) + sectorSize <= |bytes|
    requires p.Valid() && w < p.per
    ensures var s := SectorAt(p.z, l, sectorSize, bytes, k, i);
            && |s| == p.per && Base(p, i) == i * p.per
            && (FirstWord(Base(p, i)) <= w < WordCount(p, Base(p, i)) <==> 2 <= i * p.per + w <= p.noOfCluster + 1)
            && (p.Bad(Base(p, i) + w, s[w]) <==> IsSpoilt(p, l, sectorSize, bytes, k, i * p.per + w))
  {
    BaseIs(p, i);
    SectorStart(p, i);
    WordsOfClusters(p, Base(p, i), w);
    EntryOfWord(p, l, sectorSize, bytes, k, i, w);
    BadIff(p, Base(p, i) + w, SectorAt(p.z, l, sectorSize, bytes, k, i)[w]);
  }

  /** Different words are different bytes. */
  lemma WordsDiffer(z: WordSize, per: nat, a: seq<byte>, b: seq<byte>)
    requires |a| == |b| == per * z.Bytes()
    ensures WordsOf(z, a) == WordsOf(z, b) <==> a == b
  {
    BytesOfWordsOf(z, a);
    BytesOfWordsOf(z, b);
  }

  /**
   * A run reports damage exactly when some sector that holds clusters of the volume differs between the copies, or shows
   * in every copy an entry that is not sound.
   */
  lemma DamageIff(p: Volume, l: Layout, sectorSize: nat, bytes: seq<byte>, copies: seq<seq<Sector>>)
    requires p.Valid() && Shape(p, copies) && |copies| == l.fats && |copies[0]| == SectorCount(p)
    requires sectorSize == p.per * p.z.Bytes() && SectorsFit(l, sectorSize, bytes, SectorCount(p))
    requires copies == Copies(p.z, l, sectorSize, bytes, SectorCount(p))
    ensures DamagedBelow(p, copies, SectorCount(p))
            <==> exists i: nat :: 0 < p.noOfCluster && i * p.per <= p.noOfCluster + 1 && IsDamagedSector(p, l, sectorSize, bytes, i)
  {
    hide Shape, DamagedAt, IsDamagedSector, SectorCount;
    forall i: nat
      ensures i < SectorCount(p) <==> 0 < p.noOfCluster && i * p.per <= p.noOfCluster + 1
      ensures i < SectorCount(p) ==> (DamagedAt(p, copies, i) <==> IsDamagedSector(p, l, sectorSize, bytes, i))
    {
      SectorHasCluster(p, i);
      if i < SectorCount(p) {
        DamagedSector(p, l, sectorSize, bytes, copies, i);
      }
    }
  }

  lemma DamagedSector(p: Volume, l: Layout, sectorSize: nat, bytes: seq<byte>, copies: seq<seq<Sector>>, i: nat)
    requires p.Valid() && Shape(p, copies) && |copies| == l.fats && |copies[0]| == SectorCount(p) && i < SectorCount(p)
    requires sectorSize == p.per * p.z.Bytes() && SectorsFit(l, sectorSize, bytes, SectorCount(p))
    requires copies == Copies(p.z, l, sectorSize, bytes, SectorCount(p))
    ensures DamagedAt(p, copies, i) <==> IsDamagedSector(p, l, sectorSize, bytes, i)
  {
    hide HasSpoiltEntry, Clean;
    forall k | 0 <= k < l.fats
      ensures CleanAt(p, copies, k, i) <==> !HasSpoiltEntry(p, l, sectorSize, bytes, k, i)
    {
      assert copies[k][i] == SectorAt(p.z, l, sectorSize, bytes, k, i);
      CleanIff(p, l, sectorSize, bytes, k, i);
    }
    if l.fats == 2 {
      DifferentSectors(p, l, sectorSize, bytes, i);
    }
  }

  lemma DifferentSectors(p: Volume, l: Layout, sectorSize: nat, bytes: seq<byte>, i: nat)
    requires sectorSize == p.per * p.z.Bytes()
    requires forall k :: 0 <= k < 2 ==> SectorAddress(l, sectorSize, k, i) + sectorSize <= |bytes|
    ensures SectorAt(p.z, l, sectorSize, bytes, 0, i) != SectorAt(p.z, l, sectorSize, bytes, 1, i)
            <==> Differ(bytes, FatBase(l, sectorSize, 0) + i * sectorSize, FatBase(l, sectorSize, 1) + i * sectorSize, sectorSize)
  {
    AddressOfSector(l, sectorSize, 0, i);
    AddressOfSector(l, sectorSize, 1, i);
    var a, b := SectorAddress(l, sectorSize, 0, i), SectorAddress(l, sectorSize, 1, i);
    WordsDiffer(p.z, p.per, bytes[a..a + sectorSize], bytes[b..b + sectorSize]);
  }

  /** On a volume with one FAT, damage is an entry of some cluster that is not sound. */
  lemma OneFatIsDamagedIff(p: Volume, l: Layout, sectorSize: nat, bytes: seq<byte>, copies: seq<seq<Sector>>)
    requires p.Valid() && Shape(p, copies) && |copies| == l.fats == 1 && |copies[0]| == SectorCount(p)
    requires sectorSize == p.per * p.z.Bytes() && SectorsFit(l, sectorSize, bytes, SectorCount(p))
    requires copies == Copies(p.z, l, sectorSize, bytes, SectorCount(p))
    ensures DamagedBelow(p, copies, SectorCount(p))
            <==> exists cluster :: 2 <= cluster <= p.noOfCluster + 1 && IsSpoilt(p, l, sectorSize, bytes, 0, cluster)
  {
    hide Shape, DamagedBelow, IsSpoilt, SectorCount;
    DamageIff(p, l, sectorSize, bytes, copies);
    forall cluster | 2 <= cluster <= p.noOfCluster + 1 && IsSpoilt(p, l, sectorSize, bytes, 0, cluster)
      ensures exists i: nat :: i * p.per <= p.noOfCluster + 1 && IsDamagedSector(p, l, sectorSize, bytes, i)
    {
      var i, w := Div(cluster, p.per), Mod(cluster, p.per);
      BaseDivMod(p, cluster);
      BaseIs(p, i);
      assert i * p.per + w == cluster;
      MulMonotone(p.per, 0, i);
      assert HasSpoiltEntry(p, l, sectorSize, bytes, 0, i);
      assert IsDamagedSector(p, l, sectorSize, bytes, i);
    }
    forall i: nat | IsDamagedSector(p, l, sectorSize, bytes, i)
      ensures exists cluster :: 2 <= cluster <= p.noOfCluster + 1 && IsSpoilt(p, l, sectorSize, bytes, 0, cluster)
    {
      assert HasSpoiltEntry(p, l, sectorSize, bytes, 0, i);
    }
  }
}
