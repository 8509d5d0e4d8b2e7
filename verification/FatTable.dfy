/** Packed file allocation table entries: 12, 16 and 28 bits wide. */
module FatTable {
  import opened Arith
  import opened Bytes
  import opened Disks

  datatype FatType = FAT12 | FAT16 | FAT32 | NotFat

  // ----- the entry as a function of the bytes of the table -----

  function EntryOffset(t: FatType, cluster: nat): nat {
    match t
    case FAT12 => cluster + cluster / 2
    case FAT16 => 2 * cluster
    case _ => 4 * cluster
  }

  function EntryWidth(t: FatType): nat {
    if t == FAT32 then 4 else 2
  }

  /** The entry of a cluster in a table whose bytes begin at `base`. */
  predicate HasEntry(t: FatType, bytes: seq<byte>, base: nat, cluster: nat) {
    base + EntryOffset(t, cluster) + EntryWidth(t) <= |bytes|
  }

  function RawEntry(t: FatType, bytes: seq<byte>, base: nat, cluster: nat): (raw: seq<byte>)
    requires HasEntry(t, bytes, base, cluster)
    ensures |raw| == EntryWidth(t)
  {
    bytes[base + EntryOffset(t, cluster)..base + EntryOffset(t, cluster) + EntryWidth(t)]
  }

  /** Interpret the raw bytes of one entry. */
  function Decode(t: FatType, cluster: nat, raw: seq<byte>): nat
    requires |raw| == EntryWidth(t)
  {
    match t
    case FAT12 => if cluster % 2 != 0 then Le16(raw) / 16 else Le16(raw) % 0x1000
    case FAT16 => Le16(raw)
    case FAT32 => Le32(raw) % 0x1000_0000
    case NotFat => 0
  }

  function Entry(t: FatType, bytes: seq<byte>, base: nat, cluster: nat): nat
    requires HasEntry(t, bytes, base, cluster)
  {
    Decode(t, cluster, RawEntry(t, bytes, base, cluster))
  }

  function BitOr(a: nat, b: nat): nat
    decreases a + b
  {
    if a == 0 then b else if b == 0 then a
    else (if a % 2 + b % 2 > 0 then 1 else 0) + 2 * BitOr(a / 2, b / 2)
  }

  lemma {:induction false} BitOrBound(a: nat, b: nat)
    ensures a < 16 && b < 16 ==> BitOr(a, b) < 16
    ensures a < 8 && b < 8 ==> BitOr(a, b) < 8
    ensures a < 4 && b < 4 ==> BitOr(a, b) < 4
    ensures a < 2 && b < 2 ==> BitOr(a, b) < 2
    decreases a + b
  {
    if a != 0 && b != 0 {
      BitOrBound(a / 2, b / 2);
    }
  }

  /** n without its lowest k bits. */
  function Shifted(n: nat, k: nat): nat {
    if k == 0 then n else Shifted(n / 2, k - 1)
  }

  /** Bit by bit, BitOr is the disjunction. */
  lemma {:induction false} BitOrIsOr(a: nat, b: nat, k: nat)
    ensures Shifted(BitOr(a, b), k) % 2 == 1 <==> Shifted(a, k) % 2 == 1 || Shifted(b, k) % 2 == 1
    decreases k
  {
    if a == 0 || b == 0 {
      ShiftedZero(k);
    } else if k > 0 {
      BitOrIsOr(a / 2, b / 2, k - 1);
    }
  }

  lemma {:induction false} ShiftedZero(k: nat)
    ensures Shifted(0, k) == 0
  {
    if k > 0 {
      ShiftedZero(k - 1);
    }
  }

  /** The 16-bit value that a FAT12 store puts over the old one: v << 4 | prior & 0xF, or v | prior & 0xF000. */
  function Merge12(odd: bool, v: nat, prior: nat): (m: nat)
    requires prior < 0x1_0000
    ensures m < 0x1_0000
  {
    if odd then (v * 16 + prior % 16) % 0x1_0000
    else
      BitOrBound(v / 0x1000 % 16, prior / 0x1000);
      v % 0x1000 + 0x1000 * BitOr(v / 0x1000 % 16, prior / 0x1000)
  }

  /** The raw bytes that set_next_cluster puts over the old ones. */
  function Encode(t: FatType, cluster: nat, v: nat, prior: seq<byte>): (raw: seq<byte>)
    requires |prior| == EntryWidth(t)
    ensures |raw| == EntryWidth(t)
  {
    match t
    case FAT12 => EncodeLe16(Merge12(cluster % 2 != 0, v, Le16(prior)))
    case FAT32 => EncodeLe32(v % 0x1_0000_0000)
    case _ => EncodeLe16(v % 0x1_0000)
  }

  /** Values an entry can hold. */
  function Capacity(t: FatType): nat {
    match t
    case FAT12 => 0x1000
    case FAT16 => 0x1_0000
    case _ => 0x1000_0000
  }

  /** The table after a successful set_next_cluster. */
  function Store(t: FatType, bytes: seq<byte>, base: nat, cluster: nat, v: nat): (r: seq<byte>)
    requires HasEntry(t, bytes, base, cluster)
    ensures |r| == |bytes|
  {
    Patch(bytes, base + EntryOffset(t, cluster), Encode(t, cluster, v, RawEntry(t, bytes, base, cluster)))
  }

  // ----- laws of the table -----

  lemma Merge12Odd(v: nat, prior: nat)
    requires prior < 0x1_0000
    ensures Merge12(true, v, prior) / 16 == v % 0x1000 && Merge12(true, v, prior) % 16 == prior % 16
  {
    var q, r := v / 0x1000, v % 0x1000;
    DivModUnique(v * 16 + prior % 16, 0x1_0000, q, 16 * r + prior % 16);
    DivModUnique(16 * r + prior % 16, 16, r, prior % 16);
  }

  lemma Merge12Even(v: nat, prior: nat)
    requires prior < 0x1_0000
    ensures Merge12(false, v, prior) % 0x1000 == v % 0x1000
    ensures Merge12(false, v, prior) / 0x1000 == BitOr(v / 0x1000 % 16, prior / 0x1000) < 16
  {
    BitOrBound(v / 0x1000 % 16, prior / 0x1000);
  }

  lemma Mod28Of32(v: nat)
    ensures v % 0x1_0000_0000 % 0x1000_0000 == v % 0x1000_0000
  {
    var q, w := v / 0x1_0000_0000, v % 0x1_0000_0000;
    assert v == 0x1000_0000 * (16 * q + w / 0x1000_0000) + w % 0x1000_0000;
  }

  lemma DecodeEncode(t: FatType, cluster: nat, v: nat, prior: seq<byte>)
    requires t != NotFat && |prior| == EntryWidth(t)
    ensures Decode(t, cluster, Encode(t, cluster, v, prior)) == v % Capacity(t)
  {
    match t
    case FAT12 =>
      DecodeLe16(Merge12(cluster % 2 != 0, v, Le16(prior)));
      Merge12Odd(v, Le16(prior));
      Merge12Even(v, Le16(prior));
    case FAT32 =>
      DecodeLe32(v % 0x1_0000_0000);
      Mod28Of32(v);
    case FAT16 => DecodeLe16(v % 0x1_0000);
    case NotFat =>
  }

  /** Reading back a stored entry gives the value, cut to the width of the entry. */
  lemma StoreThenEntry(t: FatType, bytes: seq<byte>, base: nat, cluster: nat, v: nat)
    requires t != NotFat && HasEntry(t, bytes, base, cluster)
    ensures Entry(t, Store(t, bytes, base, cluster, v), base, cluster) == v % Capacity(t)
  {
    RawAfterStore(t, bytes, base, cluster, v);
    DecodeEncode(t, cluster, v, RawEntry(t, bytes, base, cluster));
  }

  lemma RawAfterStore(t: FatType, bytes: seq<byte>, base: nat, cluster: nat, v: nat)
    requires HasEntry(t, bytes, base, cluster)
    ensures RawEntry(t, Store(t, bytes, base, cluster, v), base, cluster)
            == Encode(t, cluster, v, RawEntry(t, bytes, base, cluster))
  {
  }

  /** The one neighbour a store can disturb: FAT12, an even cluster, and a value wider than 12 bits. */
  ghost predicate Disturbs(t: FatType, bytes: seq<byte>, base: nat, cluster: nat, v: nat, other: nat)
    requires HasEntry(t, bytes, base, cluster)
  {
    && t == FAT12 && cluster % 2 == 0 && other == cluster + 1
    && var nibble := Le16(RawEntry(t, bytes, base, cluster)) / 0x1000;
       BitOr(v / 0x1000 % 16, nibble) != nibble
  }

  /** Every other entry keeps its value exactly when it is not that neighbour. */
  lemma StoreKeepsOtherEntries(t: FatType, bytes: seq<byte>, base: nat, cluster: nat, v: nat, other: nat)
    requires HasEntry(t, bytes, base, cluster) && HasEntry(t, bytes, base, other) && other != cluster
    requires t != NotFat
    ensures Entry(t, Store(t, bytes, base, cluster, v), base, other) == Entry(t, bytes, base, other)
            <==> !Disturbs(t, bytes, base, cluster, v, other)
  {
    if t == FAT12 && cluster % 2 == 0 && other == cluster + 1 {
      NextNeighbour(bytes, base, cluster, v);
    } else if t == FAT12 && cluster % 2 != 0 && other == cluster - 1 {
      PreviousNeighbour(bytes, base, cluster, v);
    } else {
      FarEntryIsKept(t, bytes, base, cluster, v, other);
    }
  }

  lemma FarEntryIsKept(t: FatType, bytes: seq<byte>, base: nat, cluster: nat, v: nat, other: nat)
    requires HasEntry(t, bytes, base, cluster) && HasEntry(t, bytes, base, other) && other != cluster && t != NotFat
    requires t == FAT12 ==> !(cluster % 2 == 0 && other == cluster + 1) && !(cluster % 2 != 0 && other == cluster - 1)
    ensures Entry(t, Store(t, bytes, base, cluster, v), base, other) == Entry(t, bytes, base, other)
  {
    OffsetsApart(t, cluster, other);
    RawElsewhere(t, bytes, base, cluster, v, other);
  }

  /** Entries that are not FAT12 neighbours sharing a byte do not overlap. */
  lemma OffsetsApart(t: FatType, a: nat, b: nat)
    requires t != NotFat && a != b
    requires t == FAT12 ==> !(a % 2 == 0 && b == a + 1) && !(a % 2 != 0 && b == a - 1)
    ensures EntryOffset(t, b) + EntryWidth(t) <= EntryOffset(t, a) || EntryOffset(t, a) + EntryWidth(t) <= EntryOffset(t, b)
  {
    if t == FAT12 {
      assert a + 1 < b ==> a / 2 + 1 <= b / 2;
      assert b + 1 < a ==> b / 2 + 1 <= a / 2;
    }
  }

  lemma RawElsewhere(t: FatType, bytes: seq<byte>, base: nat, cluster: nat, v: nat, other: nat)
    requires HasEntry(t, bytes, base, cluster) && HasEntry(t, bytes, base, other)
    requires EntryOffset(t, other) + EntryWidth(t) <= EntryOffset(t, cluster)
             || EntryOffset(t, cluster) + EntryWidth(t) <= EntryOffset(t, other)
    ensures RawEntry(t, Store(t, bytes, base, cluster, v), base, other) == RawEntry(t, bytes, base, other)
  {
  }

  /** An even FAT12 cluster shares its second byte with the cluster after it. */
  lemma NextNeighbour(bytes: seq<byte>, base: nat, cluster: nat, v: nat)
    requires HasEntry(FAT12, bytes, base, cluster) && HasEntry(FAT12, bytes, base, cluster + 1) && cluster % 2 == 0
    ensures Entry(FAT12, Store(FAT12, bytes, base, cluster, v), base, cluster + 1) == Entry(FAT12, bytes, base, cluster + 1)
            <==> !Disturbs(FAT12, bytes, base, cluster, v, cluster + 1)
  {
    var prior := RawEntry(FAT12, bytes, base, cluster);
    var next := Encode(FAT12, cluster, v, prior);
    var before := RawEntry(FAT12, bytes, base, cluster + 1);
    var after := RawEntry(FAT12, Store(FAT12, bytes, base, cluster, v), base, cluster + 1);
    assert before[0] == prior[1] && after[0] == next[1] && after[1] == before[1];
    DecodeLe16(Merge12(false, v, Le16(prior)));
    Merge12Even(v, Le16(prior));
    HighNibble(prior);
    HighNibble(next);
    HighTwelve(before);
    HighTwelve(after);
  }

  lemma HighNibble(raw: seq<byte>)
    requires |raw| == 2
    ensures Le16(raw) / 0x1000 == raw[1] as nat / 16
  {
  }

  lemma HighTwelve(raw: seq<byte>)
    requires |raw| == 2
    ensures Le16(raw) / 16 == raw[0] as nat / 16 + 16 * (raw[1] as nat)
  {
  }

  /** An odd FAT12 cluster shares its first byte with the cluster before it. */
  lemma PreviousNeighbour(bytes: seq<byte>, base: nat, cluster: nat, v: nat)
    requires HasEntry(FAT12, bytes, base, cluster) && cluster % 2 != 0
    ensures Entry(FAT12, Store(FAT12, bytes, base, cluster, v), base, cluster - 1) == Entry(FAT12, bytes, base, cluster - 1)
  {
    var prior := RawEntry(FAT12, bytes, base, cluster);
    var next := Encode(FAT12, cluster, v, prior);
    var before := RawEntry(FAT12, bytes, base, cluster - 1);
    var after := RawEntry(FAT12, Store(FAT12, bytes, base, cluster, v), base, cluster - 1);
    assert before[1] == prior[0] && after[1] == next[0] && after[0] == before[0];
    DecodeLe16(Merge12(true, v, Le16(prior)));
    Merge12Odd(v, Le16(prior));
    LowNibble(prior);
    LowNibble(next);
    LowTwelve(before);
    LowTwelve(after);
  }

  lemma LowNibble(raw: seq<byte>)
    requires |raw| == 2
    ensures Le16(raw) % 16 == raw[0] as nat % 16
  {
  }

  lemma LowTwelve(raw: seq<byte>)
    requires |raw| == 2
    ensures Le16(raw) % 0x1000 == raw[0] as nat + 256 * (raw[1] as nat % 16)
  {
  }

  /** A value that fits the entry never disturbs a neighbour. */
  lemma FittingValuesDisturbNothing(t: FatType, bytes: seq<byte>, base: nat, cluster: nat, v: nat, other: nat)
    requires HasEntry(t, bytes, base, cluster) && v < Capacity(t)
    ensures !Disturbs(t, bytes, base, cluster, v, other)
  {
  }

  /** FAT32 keeps nothing of the four reserved bits: the store takes all 32 bits from the value. */
  lemma StoreOverwritesReservedBits(bytes: seq<byte>, base: nat, cluster: nat, v: nat)
    requires HasEntry(FAT32, bytes, base, cluster) && v < 0x1_0000_0000
    ensures Le32(RawEntry(FAT32, Store(FAT32, bytes, base, cluster, v), base, cluster)) == v
  {
    var r := Store(FAT32, bytes, base, cluster, v);
    assert RawEntry(FAT32, r, base, cluster) == Encode(FAT32, cluster, v, RawEntry(FAT32, bytes, base, cluster));
    DecodeLe32(v);
  }
}
