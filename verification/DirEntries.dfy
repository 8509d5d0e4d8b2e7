/** The 32-byte records of a FAT directory: short entries, and the long-name slots that share their layout. */
module DirEntries {
  import opened Arith
  import opened Bytes

  type DirEntry = e: seq<byte> | |e| == 32 witness seq(32, _ => 0)

  type CodeUnit = u: int | 0 <= u < 0x1_0000

  const DELETED_FLAG: byte := 0xE5
  const ATTR_EXT: byte := 15
  const MAX_SLOTS := 20

  predicate IsSlot(e: DirEntry) {
    e[11] == ATTR_EXT
  }

  predicate IsVolume(e: DirEntry) {
    (e[11] / 8) % 2 == 1
  }

  predicate IsDirectory(e: DirEntry) {
    (e[11] / 16) % 2 == 1
  }

  predicate IsFree(e: DirEntry) {
    e[0] == 0 || e[0] == DELETED_FLAG
  }

  /** Is bit 0x40 of the slot number set, as in the slot that is stored first? */
  predicate IsMarked(e: DirEntry) {
    (e[0] / 64) % 2 == 1
  }

  /** The slot number without that bit. */
  function Number(e: DirEntry): nat {
    if IsMarked(e) then e[0] as nat - 64 else e[0] as nat
  }

  function Alias(e: DirEntry): byte {
    e[13]
  }

  function Unit(e: DirEntry, at: nat): CodeUnit
    requires at + 2 <= 32
  {
    (e[at] as int) + 256 * (e[at + 1] as int)
  }

  /** Where the i-th code unit of a slot is stored. */
  function UnitAt(i: nat): nat {
    if i < 5 then 1 + 2 * i else if i < 11 then 4 + 2 * i else 6 + 2 * i
  }

  /** The 13 code units of a slot. */
  function Units(e: DirEntry): (u: seq<CodeUnit>)
    ensures |u| == 13
  {
    seq<CodeUnit>(13, i requires 0 <= i < 13 => Unit(e, UnitAt(i)))
  }

  function Low(u: CodeUnit): byte {
    u % 256
  }

  function High(u: CodeUnit): byte {
    u / 256
  }

  /** The index of the code unit that the byte at p belongs to, and whether it is the low byte. */
  function UnitOf(p: nat): nat {
    if p == 0 then 0 else if p <= 10 then (p - 1) / 2 else if p <= 25 then (p - 4) / 2 else (p - 6) / 2
  }

  /** The byte at p of the slot with these code units. */
  function SlotByte(id: byte, alias: byte, u: seq<CodeUnit>, p: nat): byte
    requires |u| == 13 && p < 32
  {
    if p == 0 then id
    else if p == 11 then 0x0F
    else if p == 13 then alias
    else if p == 12 || p == 26 || p == 27 then 0
    else if UnitAt(UnitOf(p)) == p then Low(u[UnitOf(p)]) else High(u[UnitOf(p)])
  }

  /** The slot with these 13 code units. */
  function Slot(id: byte, alias: byte, u: seq<CodeUnit>): (e: DirEntry)
    requires |u| == 13
  {
    seq<byte>(32, p requires 0 <= p < 32 => SlotByte(id, alias, u, p))
  }

  lemma UnitsOfSlot(id: byte, alias: byte, u: seq<CodeUnit>)
    requires |u| == 13
    ensures Units(Slot(id, alias, u)) == u && IsSlot(Slot(id, alias, u)) && Alias(Slot(id, alias, u)) == alias
    ensures Slot(id, alias, u)[0] == id
  {
    var s := Slot(id, alias, u);
    forall k | 0 <= k < 13
      ensures Units(s)[k] == u[k]
    {
      var p := UnitAt(k);
      assert UnitOf(p) == k && UnitOf(p + 1) == k;
      assert s[p] == Low(u[k]) && s[p + 1] == High(u[k]);
    }
  }

  /** One step of the checksum of a short name: rotate right, then add. */
  function Rotated(sum: byte, b: byte): byte {
    ((sum % 2) * 128 + sum / 2 + b) % 256
  }

  function Checksum(name: seq<byte>): byte {
    if name == [] then 0 else Rotated(Checksum(name[..|name| - 1]), name[|name| - 1])
  }

  function ShortChecksum(e: DirEntry): byte {
    Checksum(e[..11])
  }

  /** The code units before the first zero. */
  function UpToZero(u: seq<CodeUnit>): seq<CodeUnit> {
    if u == [] || u[0] == 0 then [] else [u[0]] + UpToZero(u[1..])
  }

  lemma {:induction false} UpToZeroIs(u: seq<CodeUnit>, n: nat)
    requires n <= |u| && (n == |u| || u[n] == 0) && forall i :: 0 <= i < n ==> u[i] != 0
    ensures UpToZero(u) == u[..n]
  {
    if n > 0 {
      UpToZeroIs(u[1..], n - 1);
      assert u[..n] == [u[0]] + u[1..][..n - 1];
    }
  }

  lemma {:induction false} UpToZeroStops(u: seq<CodeUnit>, v: seq<CodeUnit>)
    ensures UpToZero(u + [0] + v) == UpToZero(u)
  {
    if u == [] {
      assert (u + [0] + v)[0] == 0;
    } else {
      UpToZeroStops(u[1..], v);
      assert (u + [0] + v)[1..] == u[1..] + [0] + v;
    }
  }

  /** The bytes before the first space. */
  function Unspaced(s: seq<byte>): (r: seq<CodeUnit>)
    ensures |r| <= |s| && forall i :: 0 <= i < |r| ==> r[i] == s[i] && s[i] != 0x20
    ensures |r| < |s| ==> s[|r|] == 0x20
  {
    if s == [] || s[0] == 0x20 then [] else [s[0]] + Unspaced(s[1..])
  }

  /** The name of a short entry, in 8.3 form. */
  function ShortName(e: DirEntry): seq<CodeUnit> {
    UpToZero(Unspaced(e[..8]) + if e[8] == 0x20 then [] else [0x2E] + Unspaced(e[8..11]))
  }

  /** How many bits of the start cluster count: FLAG_LIST_MASK12, FLAG_LIST_MASK16 or neither. */
  datatype Mask = Mask12 | Mask16 | NoMask

  /** The start cluster of an entry. */
  function StartCluster(e: DirEntry, mask: Mask): nat {
    var c := Le16(e[20..22]) * 0x1_0000 + Le16(e[26..28]);
    match mask
    case Mask12 => c % 0x1000
    case Mask16 => c % 0x1_0000
    case NoMask => c % 0x1000_0000
  }

  /** One file of a directory listing; time and date stay in their DOS form. */
  datatype FileInfo = FileInfo(name: seq<CodeUnit>, cluster: nat, size: nat, isDirectory: bool, readOnly: bool,
                               time: nat, date: nat)

  function Info(name: seq<CodeUnit>, e: DirEntry, mask: Mask): FileInfo {
    FileInfo(name, StartCluster(e, mask), Le32(e[28..32]), IsDirectory(e), e[11] % 2 == 1,
             Le16(e[22..24]), Le16(e[24..26]))
  }

  // ----- a short entry field by field -----

  /** The attributes; `high` are the archive bit and the two bits above it. */
  datatype Attributes = Attributes(readOnly: bool, hidden: bool, system: bool, volume: bool, directory: bool, high: nat)

  function BitValue(on: bool, value: nat): nat {
    if on then value else 0
  }

  predicate AreAttributes(a: Attributes) {
    a.high < 8
  }

  function AttributeByte(a: Attributes): byte
    requires AreAttributes(a)
  {
    BitValue(a.readOnly, 0x01) + BitValue(a.hidden, 0x02) + BitValue(a.system, 0x04) + BitValue(a.volume, 0x08)
    + BitValue(a.directory, 0x10) + 0x20 * a.high
  }

  /** The 11 bytes of the 8.3 name, and what is stored behind it; the 8 bytes at 12 are not looked at. */
  datatype Entry = Entry(name: seq<byte>, attributes: Attributes, unread: seq<byte>, cluster: nat, time: nat, date: nat, size: nat)

  predicate IsEntry(n: Entry) {
    && |n.name| == 11 && AreAttributes(n.attributes) && |n.unread| == 8
    && n.cluster < 0x1_0000_0000 && n.time < 0x1_0000 && n.date < 0x1_0000 && n.size < 0x1_0000_0000
  }

  function EncodeEntry(n: Entry): (e: DirEntry)
    requires IsEntry(n)
  {
    n.name + [AttributeByte(n.attributes)] + n.unread
    + EncodeLe16(n.cluster / 0x1_0000) + EncodeLe16(n.time) + EncodeLe16(n.date) + EncodeLe16(n.cluster % 0x1_0000)
    + EncodeLe32(n.size)
  }

  lemma EntrySlices(n: Entry)
    requires IsEntry(n)
    ensures var e := EncodeEntry(n);
            && e[..11] == n.name && e[11] == AttributeByte(n.attributes)
            && e[20..22] == EncodeLe16(n.cluster / 0x1_0000) && e[22..24] == EncodeLe16(n.time)
            && e[24..26] == EncodeLe16(n.date) && e[26..28] == EncodeLe16(n.cluster % 0x1_0000)
            && e[28..32] == EncodeLe32(n.size)
  {
    hide EncodeLe16, EncodeLe32, AttributeByte;
  }

  function LowBits(a: Attributes): nat {
    BitValue(a.readOnly, 1) + BitValue(a.hidden, 2) + BitValue(a.system, 4)
  }

  lemma QuotientBits(low: nat, volume: nat, directory: nat, high: nat, readOnly: nat, rest: nat)
    requires low == readOnly + 2 * rest < 8 && volume < 2 && directory < 2 && readOnly < 2
    ensures var b := low + 8 * volume + 16 * directory + 32 * high;
            b % 2 == readOnly && b / 8 % 2 == volume && b / 16 % 2 == directory
  {
    var b := low + 8 * volume + 16 * directory + 32 * high;
    DivModUnique(b, 2, rest + 4 * volume + 8 * directory + 16 * high, readOnly);
    DivModUnique(b, 8, volume + 2 * directory + 4 * high, low);
    DivModUnique(volume + 2 * directory + 4 * high, 2, directory + 2 * high, volume);
    DivModUnique(b, 16, directory + 2 * high, low + 8 * volume);
    DivModUnique(directory + 2 * high, 2, high, directory);
  }

  lemma AttributeBits(a: Attributes)
    requires AreAttributes(a)
    ensures var b := AttributeByte(a);
            && (b % 2 == 1 <==> a.readOnly) && (b / 8 % 2 == 1 <==> a.volume) && (b / 16 % 2 == 1 <==> a.directory)
            && (b == 0x0F <==> a == Attributes(true, true, true, true, false, 0))
  {
    var low, volume, directory := LowBits(a), BitValue(a.volume, 1), BitValue(a.directory, 1);
    assert AttributeByte(a) == low + 8 * volume + 16 * directory + 32 * a.high;
    QuotientBits(low, volume, directory, a.high, BitValue(a.readOnly, 1), BitValue(a.hidden, 1) + 2 * BitValue(a.system, 1));
  }

  /** Bits of the start cluster that a listing keeps. */
  function ClusterLimit(mask: Mask): nat {
    match mask
    case Mask12 => 0x1000
    case Mask16 => 0x1_0000
    case NoMask => 0x1000_0000
  }

  /** What a listing shows of an entry is what has been stored in it. */
  lemma EntryIsRead(n: Entry, name: seq<CodeUnit>, mask: Mask)
    requires IsEntry(n)
    ensures Info(name, EncodeEntry(n), mask)
            == FileInfo(name, n.cluster % ClusterLimit(mask), n.size, n.attributes.directory, n.attributes.readOnly, n.time, n.date)
    ensures IsVolume(EncodeEntry(n)) <==> n.attributes.volume
    ensures IsSlot(EncodeEntry(n)) <==> n.attributes == Attributes(true, true, true, true, false, 0)
    ensures EncodeEntry(n)[0] == n.name[0]
  {
    hide EncodeEntry, AttributeByte;
    EntrySlices(n);
    assert EncodeEntry(n)[0] == EncodeEntry(n)[..11][0];
    AttributeBits(n.attributes);
    DecodeLe16(n.cluster / 0x1_0000);
    DecodeLe16(n.time);
    DecodeLe16(n.date);
    DecodeLe16(n.cluster % 0x1_0000);
    DecodeLe32(n.size);
  }

  /** The attributes with this byte. */
  function AttributesOf(b: byte): (a: Attributes)
    ensures AreAttributes(a)
  {
    var (h1, h2, h3, h4) := (b / 2, b / 2 / 2, b / 2 / 2 / 2, b / 2 / 2 / 2 / 2);
    Attributes(b % 2 == 1, h1 % 2 == 1, h2 % 2 == 1, h3 % 2 == 1, h4 % 2 == 1, h4 / 2)
  }

  lemma AttributesAreRead(b: byte)
    ensures AttributeByte(AttributesOf(b)) == b
  {
  }

  function EntryOf(e: DirEntry): Entry {
    Entry(e[..11], AttributesOf(e[11]), e[12..20], Le16(e[20..22]) * 0x1_0000 + Le16(e[26..28]), Le16(e[22..24]), Le16(e[24..26]),
          Le32(e[28..32]))
  }

  /** Every record is an entry of this form. */
  lemma EveryRecordIsEntry(e: DirEntry)
    ensures IsEntry(EntryOf(e)) && EncodeEntry(EntryOf(e)) == e
  {
    hide AttributeByte, AttributesOf, EncodeLe16, EncodeLe32, Le16, Le32;
    AttributesAreRead(e[11]);
    EncodeDecode16(e[20..22]);
    EncodeDecode16(e[22..24]);
    EncodeDecode16(e[24..26]);
    EncodeDecode16(e[26..28]);
    EncodeDecode32(e[28..32]);
    HalvesOf(Le16(e[26..28]), Le16(e[20..22]));
    assert e == e[..11] + [e[11]] + e[12..20] + e[20..22] + e[22..24] + e[24..26] + e[26..28] + e[28..32];
  }

  /** A name of at most n characters, padded with spaces. */
  function Padding(s: seq<byte>, n: nat): (r: seq<byte>)
    requires |s| <= n
    ensures |r| == n && r[..|s|] == s && forall i :: |s| <= i < n ==> r[i] == 0x20
  {
    s + seq(n - |s|, _ => 0x20)
  }
}
