/** What a listing contains: the names that were stored, whatever lies between them. */
module DirTheorems {
  import opened Bytes
  import opened DirEntries
  import opened DirParser
  import opened Seqs

  /** A run seen from its end: a marked slot, then slots with falling numbers and the same alias checksum. */
  ghost predicate IsRun(e: seq<DirEntry>, head: nat, missing: nat, k: nat)
    requires k <= |e|
  {
    && head < k && IsSlot(e[head]) && IsMarked(e[head]) && Number(e[head]) == missing + (k - head) <= MAX_SLOTS
    && forall j: nat :: head < j < k ==>
         IsSlot(e[j]) && !IsMarked(e[j]) && Number(e[j]) == missing + (k - j) && Alias(e[j]) == Alias(e[head])
  }

  /** The forward scan finds exactly the runs that reading backwards would find. */
  lemma {:induction false} RunIsReadBackwards(e: seq<DirEntry>, head: nat, missing: nat, k: nat)
    requires k <= |e|
    ensures RunBefore(e, k) == Open(head, missing) <==> IsRun(e, head, missing, k)
    decreases k
  {
    if k > 0 && !IsMarked(e[k - 1]) && head < k - 1 {
      RunIsReadBackwards(e, head, missing + 1, k - 1);
      if IsRun(e, head, missing, k) {
        assert IsRun(e, head, missing + 1, k - 1);
      }
    }
  }

  lemma {:induction false} UnspacedPadding(s: seq<byte>, n: nat)
    requires |s| <= n && 0x20 !in s
    ensures Unspaced(Padding(s, n)) == s
  {
    UnspacedIs(Padding(s, n), |s|);
    forall i | 0 <= i < |s|
      ensures Padding(s, n)[i] == s[i]
    {
      assert Padding(s, n)[i] == Padding(s, n)[..|s|][i];
    }
  }

  /** A base and an extension padded with spaces are shown with a dot between them. */
  lemma DottedName(n: Entry, base: seq<byte>, extension: seq<byte>)
    requires IsEntry(n) && |base| <= 8 && |extension| <= 3 && n.name == Padding(base, 8) + Padding(extension, 3)
    requires 0x20 !in base && 0x20 !in extension && 0 !in base && 0 !in extension
    ensures ShortName(EncodeEntry(n)) == if extension == [] then base else base + [0x2E] + extension
  {
    hide EncodeEntry, UpToZero, Unspaced, Padding;
    var e := EncodeEntry(n);
    EntrySlices(n);
    assert e[..8] == e[..11][..8] == Padding(base, 8) && e[8..11] == e[..11][8..] == Padding(extension, 3);
    UnspacedPadding(base, 8);
    UnspacedPadding(extension, 3);
    assert e[8] == e[8..11][0];
    var shown: seq<CodeUnit> := Unspaced(e[..8]) + if e[8] == 0x20 then [] else [0x2E] + Unspaced(e[8..11]);
    forall i | 0 <= i < |shown|
      ensures shown[i] != 0
    {
      assert i < |base| ==> shown[i] == base[i];
      assert |base| < i ==> shown[i] == extension[i - |base| - 1];
    }
    UpToZeroIs(shown, |shown|);
  }

  /** No name needs more than 20 slots, so none comes near the limit of 1022 bytes for the name of a file. */
  lemma NamesFit(e: seq<DirEntry>, k: nat)
    requires k < |e|
    ensures |NameAt(e, k)| <= 13 * 20
  {
    if HasLongName(e, k) {
      UpToZeroIsPrefix(LongUnits(e, RunBefore(e, k).head, k));
    } else {
      var s := Unspaced(e[k][..8]) + if e[k][8] == 0x20 then [] else [0x2E] + Unspaced(e[k][8..11]);
      UpToZeroIsPrefix(s);
      assert |s| <= 12;
    }
  }

  lemma {:induction false} UpToZeroIsPrefix(u: seq<CodeUnit>)
    ensures |UpToZero(u)| <= |u|
  {
    if u != [] && u[0] != 0 {
      UpToZeroIsPrefix(u[1..]);
    }
  }

  /**
   * What a directory stores: a file with a long name (or none) in front of its short entry, a volume label, or a deleted
   * record, which may still have its long name in front of it.
   */
  datatype Item =
    | File(name: seq<CodeUnit>, alias: byte, short: Entry)
    | VolumeLabel(entry: Entry)
    | Deleted(name: seq<CodeUnit>, alias: byte, rest: seq<byte>)

  function SlotCount(name: seq<CodeUnit>): (n: nat)
    ensures 13 * n >= |name| && 13 * n < |name| + 13
  {
    (|name| + 12) / 13
  }

  /** Long names are closed by a zero and filled up with 0xFFFF, unless they fill their slots. */
  function Filled(name: seq<CodeUnit>, p: nat): CodeUnit {
    if p < |name| then name[p] else if p == |name| then 0 else 0xFFFF
  }

  function FilledRange(name: seq<CodeUnit>, from: nat, to: nat): (r: seq<CodeUnit>)
    requires from <= to
    ensures |r| == to - from && forall i :: 0 <= i < to - from ==> r[i] == Filled(name, from + i)
  {
    seq<CodeUnit>(to - from, i requires 0 <= i < to - from => Filled(name, from + i))
  }

  function NumberedSlot(name: seq<CodeUnit>, alias: byte, number: nat): DirEntry
    requires 1 <= number <= SlotCount(name) <= MAX_SLOTS
  {
    Slot(if number == SlotCount(name) then number + 64 else number, alias,
         FilledRange(name, 13 * (number - 1), 13 * number))
  }

  function Slots(name: seq<CodeUnit>, alias: byte): (s: seq<DirEntry>)
    requires SlotCount(name) <= MAX_SLOTS
    ensures |s| == SlotCount(name)
  {
    seq(SlotCount(name), i requires 0 <= i < SlotCount(name) => NumberedSlot(name, alias, SlotCount(name) - i))
  }

  /** The name that a listing shows: the long one when its checksum matches the short one. */
  function ShownName(name: seq<CodeUnit>, alias: byte, short: DirEntry): seq<CodeUnit> {
    if name != [] && alias == ShortChecksum(short) then name else ShortName(short)
  }

  predicate IsItem(item: Item) {
    match item
    case File(name, alias, short) =>
      && SlotCount(name) <= 20 && 0 !in name
      && IsEntry(short) && !short.attributes.volume && short.name[0] != 0 && short.name[0] != 0xE5
      && ShownName(name, alias, EncodeEntry(short)) != []
    case VolumeLabel(entry) =>
      IsEntry(entry) && entry.attributes.volume && entry.name[0] != 0
      && entry.attributes != Attributes(true, true, true, true, false, 0)
    case Deleted(name, alias, rest) => SlotCount(name) <= 20 && |rest| == 31
  }

  function Stored(item: Item): seq<DirEntry>
    requires IsItem(item)
  {
    match item
    case File(name, alias, short) => Slots(name, alias) + [EncodeEntry(short)]
    case VolumeLabel(entry) => [EncodeEntry(entry)]
    case Deleted(name, alias, rest) => Slots(name, alias) + [[0xE5] + rest]
  }

  /** The files that a listing shows for an item. A name that starts with U+00E5 looks deleted and is left out. */
  function Shown(item: Item, mask: Mask): seq<FileInfo>
    requires IsItem(item)
  {
    match item
    case File(name, alias, short) =>
      var shown := ShownName(name, alias, EncodeEntry(short));
      if shown[0] == 0xE5 then []
      else [FileInfo(shown, short.cluster % ClusterLimit(mask), short.size, short.attributes.directory, short.attributes.readOnly,
                     short.time, short.date)]
    case _ => []
  }

  function StoredAll(items: seq<Item>): seq<DirEntry>
    requires forall i :: 0 <= i < |items| ==> IsItem(items[i])
  {
    if items == [] then [] else Stored(items[0]) + StoredAll(items[1..])
  }

  function ShownAll(items: seq<Item>, mask: Mask): seq<FileInfo>
    requires forall i :: 0 <= i < |items| ==> IsItem(items[i])
  {
    if items == [] then [] else Shown(items[0], mask) + ShownAll(items[1..], mask)
  }

  ghost predicate Placed(e: seq<DirEntry>, s: nat, part: seq<DirEntry>) {
    s + |part| <= |e| && e[s..s + |part|] == part
  }

  /** Is d the slot of the name with this number? */
  ghost predicate IsPart(d: DirEntry, name: seq<CodeUnit>, alias: byte, number: nat)
    requires 1 <= number
  {
    && IsSlot(d) && Alias(d) == alias && Number(d) == number
    && (IsMarked(d) <==> number == SlotCount(name))
    && Units(d) == FilledRange(name, 13 * (number - 1), 13 * number)
  }

  lemma PartHasNumber(d: DirEntry, name: seq<CodeUnit>, alias: byte, number: nat)
    requires 1 <= number <= SlotCount(name) <= MAX_SLOTS && IsSlot(d) && Alias(d) == alias
    requires d[0] as nat == if number == SlotCount(name) then number + 64 else number
    requires Units(d) == FilledRange(name, 13 * (number - 1), 13 * number)
    ensures IsPart(d, name, alias, number)
  {
  }

  lemma SlotFacts(name: seq<CodeUnit>, alias: byte, number: nat)
    requires 1 <= number <= SlotCount(name) <= MAX_SLOTS
    ensures IsPart(NumberedSlot(name, alias, number), name, alias, number)
  {
    hide Slot, Units, IsSlot, Alias, IsPart, SlotCount, FilledRange;
    UnitsOfSlot(if number == SlotCount(name) then number + 64 else number, alias,
                FilledRange(name, 13 * (number - 1), 13 * number));
    PartHasNumber(NumberedSlot(name, alias, number), name, alias, number);
  }

  /** The slots of the name stand in falling order from s on. */
  ghost predicate PartsFrom(e: seq<DirEntry>, s: nat, name: seq<CodeUnit>, alias: byte) {
    && s + SlotCount(name) <= |e|
    && forall i: nat :: s <= i < s + SlotCount(name) ==> IsPart(e[i], name, alias, SlotCount(name) - (i - s))
  }

  lemma PlacedParts(e: seq<DirEntry>, s: nat, name: seq<CodeUnit>, alias: byte)
    requires SlotCount(name) <= MAX_SLOTS && Placed(e, s, Slots(name, alias))
    ensures PartsFrom(e, s, name, alias)
  {
    forall i: nat | s <= i < s + SlotCount(name)
      ensures IsPart(e[i], name, alias, SlotCount(name) - (i - s))
    {
      assert e[i] == Slots(name, alias)[i - s];
      SlotFacts(name, alias, SlotCount(name) - (i - s));
    }
  }

  /** The slots of a name make one run. */
  lemma {:induction false} SlotsMakeRun(e: seq<DirEntry>, s: nat, name: seq<CodeUnit>, alias: byte, i: nat)
    requires SlotCount(name) <= MAX_SLOTS && PartsFrom(e, s, name, alias) && 1 <= i <= SlotCount(name)
    ensures RunBefore(e, s + i) == Open(s, SlotCount(name) - i) && Alias(e[s]) == alias && AllInRuns(e, s, s + i)
  {
    assert IsPart(e[s + i - 1], name, alias, SlotCount(name) - (i - 1));
    if i > 1 {
      SlotsMakeRun(e, s, name, alias, i - 1);
    }
  }

  /** The run supplies the name from its end to its start: the slots from n down to `number` supply all but the beginning. */
  lemma {:induction false} SlotsSupplyName(e: seq<DirEntry>, s: nat, name: seq<CodeUnit>, alias: byte, number: nat, k: nat)
    requires SlotCount(name) <= MAX_SLOTS && PartsFrom(e, s, name, alias)
    requires 1 <= number <= SlotCount(name) + 1 && k == s + SlotCount(name) + 1 - number
    ensures LongUnits(e, s, k) == FilledRange(name, 13 * (number - 1), 13 * SlotCount(name))
    decreases k
  {
    if number <= SlotCount(name) {
      assert IsPart(e[k - 1], name, alias, number);
      SlotsSupplyName(e, s, name, alias, number + 1, k - 1);
      JoinSupply(name, Units(e[k - 1]), LongUnits(e, s, k - 1), 13 * (number - 1), 13 * number, 13 * SlotCount(name));
    }
  }

  lemma JoinSupply(name: seq<CodeUnit>, u: seq<CodeUnit>, v: seq<CodeUnit>, a: nat, b: nat, c: nat)
    requires a <= b <= c && u == FilledRange(name, a, b) && v == FilledRange(name, b, c)
    ensures u + v == FilledRange(name, a, c)
  {
  }

  lemma FilledName(name: seq<CodeUnit>)
    requires 0 !in name
    ensures UpToZero(FilledRange(name, 0, 13 * SlotCount(name))) == name
  {
    var u := FilledRange(name, 0, 13 * SlotCount(name));
    assert forall i :: 0 <= i < |name| ==> u[i] == name[i] && name[i] in name;
    UpToZeroIs(u, |name|);
    assert u[..|name|] == name;
  }

  lemma SplitPlaced(e: seq<DirEntry>, s: nat, a: seq<DirEntry>, b: seq<DirEntry>)
    requires Placed(e, s, a + b)
    ensures Placed(e, s, a) && Placed(e, s + |a|, b)
  {
    var ab := a + b;
    assert ab[..|a|] == a && ab[|a|..] == b;
    assert e[s..s + |a|] == e[s..s + |ab|][..|a|];
    assert e[s + |a|..s + |ab|] == e[s..s + |ab|][|a|..];
  }

  /** The slots of a name, and the record behind them. */
  lemma SplitSlots(e: seq<DirEntry>, s: nat, name: seq<CodeUnit>, alias: byte, last: DirEntry)
    requires SlotCount(name) <= MAX_SLOTS && Placed(e, s, Slots(name, alias) + [last])
    ensures var k := s + SlotCount(name); k < |e| && e[k] == last && PartsFrom(e, s, name, alias)
  {
    hide IsPart, PartsFrom, NumberedSlot, SlotCount, Slots;
    var n, slots := SlotCount(name), Slots(name, alias);
    SplitPlaced(e, s, slots, [last]);
    assert e[s + n] == e[s + n..s + n + 1][0] == last;
    PlacedParts(e, s, name, alias);
  }

  lemma SplitFile(e: seq<DirEntry>, s: nat, item: Item)
    requires item.File? && IsItem(item) && Placed(e, s, Stored(item))
    ensures var k := s + SlotCount(item.name);
            k < |e| && e[k] == EncodeEntry(item.short) && PartsFrom(e, s, item.name, item.alias)
  {
    hide PartsFrom, ShownName, SlotCount, Slots, EncodeEntry, Placed;
    SplitSlots(e, s, item.name, item.alias, EncodeEntry(item.short));
  }

  lemma NameOfRun(e: seq<DirEntry>, s: nat, k: nat, name: seq<CodeUnit>)
    requires k < |e| && RunBefore(e, k) == Open(s, 0) && !IsFree(e[k]) && UpToZero(LongUnits(e, s, k)) == name
    ensures NameAt(e, k) == if Alias(e[s]) == ShortChecksum(e[k]) then name else ShortName(e[k])
  {
  }

  lemma NoSlotsNoRun(e: seq<DirEntry>, s: nat)
    requires s < |e|
    ensures AllInRuns(e, s, s)
    ensures RunBefore(e, s).Closed? && !IsFree(e[s]) ==> NameAt(e, s) == ShortName(e[s])
  {
  }

  /** A stored file is listed under its name. */
  lemma FileIsShown(e: seq<DirEntry>, s: nat, name: seq<CodeUnit>, alias: byte)
    requires SlotCount(name) <= MAX_SLOTS && PartsFrom(e, s, name, alias) && RunBefore(e, s).Closed? && 0 !in name
    requires var k := s + SlotCount(name); k < |e| && !IsFree(e[k])
    ensures var k := s + SlotCount(name); NameAt(e, k) == ShownName(name, alias, e[k]) && AllInRuns(e, s, k)
  {
    hide PartsFrom, IsPart, IsFree, RunBefore, LongUnits, UpToZero, FilledRange, SlotCount, AllInRuns, NameAt;
    var n := SlotCount(name);
    NoSlotsNoRun(e, s);
    if n > 0 {
      SlotsMakeRun(e, s, name, alias, n);
      SlotsSupplyName(e, s, name, alias, 1, s + n);
      FilledName(name);
      NameOfRun(e, s, s + n, name);
    }
  }

  lemma StepIsShown(e: seq<DirEntry>, mask: Mask, steps: seq<Step>, k: nat, item: Item)
    requires item.File? && IsItem(item) && k < |e| && e[k] == EncodeEntry(item.short) && AreSteps(e, mask, steps)
    requires NameAt(e, k) == ShownName(item.name, item.alias, EncodeEntry(item.short))
    ensures steps[k] == Go(Shown(item, mask)) && RunBefore(e, k + 1).Closed?
  {
    hide EncodeEntry, Info, ShownName, NameAt, IsSlot, IsVolume;
    EntryIsRead(item.short, NameAt(e, k), mask);
    assert StepAt(e, mask, k) == Go(Shown(item, mask));
  }

  /** The slots and the short entry of a file, in front of which no run is open. */
  ghost predicate HoldsFile(e: seq<DirEntry>, s: nat, k: nat, item: Item) {
    && item.File? && IsItem(item) && s <= k < |e| && k == s + SlotCount(item.name) && e[k] == EncodeEntry(item.short)
    && PartsFrom(e, s, item.name, item.alias) && RunBefore(e, s).Closed?
  }

  lemma ItemOfFile(item: Item)
    requires item.File? && IsItem(item)
    ensures SlotCount(item.name) <= MAX_SLOTS && 0 !in item.name && !IsFree(EncodeEntry(item.short))
  {
    EntryIsRead(item.short, [], NoMask);
  }

  lemma FileLeavesNoRun(e: seq<DirEntry>, mask: Mask, steps: seq<Step>, s: nat, k: nat, item: Item)
    requires HoldsFile(e, s, k, item) && AreSteps(e, mask, steps)
    ensures AllInRuns(e, s, k) && steps[k] == Go(Shown(item, mask)) && RunBefore(e, k + 1).Closed?
  {
    hide IsItem, PartsFrom, AreSteps, AllInRuns, RunBefore, NameAt, Shown, ShownName, SlotCount;
    ItemOfFile(item);
    FileIsShown(e, s, item.name, item.alias);
    StepIsShown(e, mask, steps, k, item);
  }

  lemma FileStep(e: seq<DirEntry>, mask: Mask, steps: seq<Step>, s: nat, k: nat, item: Item)
    requires HoldsFile(e, s, k, item) && AreSteps(e, mask, steps)
    ensures ListFrom(steps, s) == Shown(item, mask) + ListFrom(steps, k + 1) && RunBefore(e, k + 1).Closed?
  {
    hide IsItem, PartsFrom, AreSteps, AllInRuns, RunBefore, Shown, SlotCount, ListFrom;
    FileLeavesNoRun(e, mask, steps, s, k, item);
    FirstIsNotZero(e, s, k, item);
    RunsThenGo(e, mask, steps, s, k, Shown(item, mask));
  }

  lemma ListFromGo(steps: seq<Step>, k: nat, listed: seq<FileInfo>)
    requires k < |steps| && steps[k] == Go(listed)
    ensures ListFrom(steps, k) == listed + ListFrom(steps, k + 1)
  {
  }

  lemma RunsThenGo(e: seq<DirEntry>, mask: Mask, steps: seq<Step>, s: nat, k: nat, listed: seq<FileInfo>)
    requires AreSteps(e, mask, steps) && s <= k < |e| && AllInRuns(e, s, k) && AtLabelGetNew(e, s)
    requires steps[k] == Go(listed)
    ensures ListFrom(steps, s) == listed + ListFrom(steps, k + 1)
  {
    RunsListNothing(e, mask, steps, s, k);
    ListFromGo(steps, k, listed);
  }

  lemma FileItemIsShown(e: seq<DirEntry>, mask: Mask, steps: seq<Step>, s: nat, item: Item) returns (k: nat)
    requires item.File? && IsItem(item) && Placed(e, s, Stored(item))
    requires AreSteps(e, mask, steps) && RunBefore(e, s).Closed?
    ensures k == s + |Stored(item)| && RunBefore(e, k).Closed?
    ensures ListFrom(steps, s) == Shown(item, mask) + ListFrom(steps, k)
  {
    hide IsItem, PartsFrom, AreSteps, RunBefore, Shown, SlotCount, ListFrom, Placed, Slots;
    k := s + SlotCount(item.name);
    SplitFile(e, s, item);
    FileStep(e, mask, steps, s, k, item);
    k := k + 1;
  }

  lemma DeletedStep(e: seq<DirEntry>, k: nat, mask: Mask)
    requires k < |e| && e[k][0] == 0xE5
    ensures StepAt(e, mask, k) == Go([]) && RunBefore(e, k + 1).Closed?
  {
    if IsNamed(e[k]) {
      var base := Unspaced(e[k][..8]);
      assert base[0] == e[k][0];
    }
  }

  lemma SlotsAreInRuns(e: seq<DirEntry>, s: nat, name: seq<CodeUnit>, alias: byte)
    requires SlotCount(name) <= MAX_SLOTS && PartsFrom(e, s, name, alias)
    ensures AllInRuns(e, s, s + SlotCount(name)) && (0 < SlotCount(name) ==> e[s][0] != 0)
  {
    hide PartsFrom, IsPart, RunBefore, SlotCount;
    if SlotCount(name) > 0 {
      SlotsMakeRun(e, s, name, alias, SlotCount(name));
      FirstSlotIsNotZero(e, s, name, alias);
    }
  }

  lemma FirstSlotIsNotZero(e: seq<DirEntry>, s: nat, name: seq<CodeUnit>, alias: byte)
    requires 0 < SlotCount(name) && PartsFrom(e, s, name, alias)
    ensures e[s][0] != 0
  {
    assert IsPart(e[s], name, alias, SlotCount(name));
  }

  /** A deleted record is not listed, even if its long name is still in front of it. */
  lemma DeletedIsSkipped(e: seq<DirEntry>, mask: Mask, steps: seq<Step>, s: nat, item: Item) returns (k: nat)
    requires item.Deleted? && IsItem(item) && Placed(e, s, Stored(item))
    requires AreSteps(e, mask, steps) && RunBefore(e, s).Closed?
    ensures k == s + |Stored(item)| && RunBefore(e, k).Closed? && ListFrom(steps, s) == [] + ListFrom(steps, k)
  {
    hide PartsFrom, RunBefore, SlotCount, ListFrom, Placed, Slots, AllInRuns, StepAt;
    var last: DirEntry := [0xE5] + item.rest;
    k := s + SlotCount(item.name);
    SplitSlots(e, s, item.name, item.alias, last);
    SlotsAreInRuns(e, s, item.name, item.alias);
    DeletedStep(e, k, mask);
    assert steps[k] == StepAt(e, mask, k);
    if k == s {
      assert e[s][0] == last[0] == 0xE5;
    }
    RunsThenGo(e, mask, steps, s, k, []);
    k := k + 1;
  }

  lemma LabelIsSkipped(e: seq<DirEntry>, mask: Mask, steps: seq<Step>, s: nat, item: Item)
    requires item.VolumeLabel? && IsItem(item) && Placed(e, s, Stored(item))
    requires AreSteps(e, mask, steps) && RunBefore(e, s).Closed?
    ensures RunBefore(e, s + 1).Closed? && ListFrom(steps, s) == [] + ListFrom(steps, s + 1)
  {
    hide EncodeEntry, NameAt;
    assert e[s] == e[s..s + 1][0] == EncodeEntry(item.entry);
    EntryIsRead(item.entry, [], mask);
    assert StepAt(e, mask, s) == Go([]);
    ListFromGo(steps, s, []);
  }

  /** One item adds what it shows, and leaves no run open. */
  lemma ItemIsShown(e: seq<DirEntry>, mask: Mask, steps: seq<Step>, s: nat, item: Item) returns (k: nat)
    requires IsItem(item) && Placed(e, s, Stored(item)) && AreSteps(e, mask, steps) && RunBefore(e, s).Closed?
    ensures k == s + |Stored(item)| && RunBefore(e, k).Closed?
    ensures ListFrom(steps, s) == Shown(item, mask) + ListFrom(steps, k)
  {
    match item
    case File(_, _, _) => k := FileItemIsShown(e, mask, steps, s, item);
    case VolumeLabel(entry) =>
      k := s + 1;
      LabelIsSkipped(e, mask, steps, s, item);
    case Deleted(_, _, _) => k := DeletedIsSkipped(e, mask, steps, s, item);
  }

  lemma FirstIsNotZero(e: seq<DirEntry>, s: nat, k: nat, item: Item)
    requires item.File? && IsItem(item) && PartsFrom(e, s, item.name, item.alias)
    requires k == s + SlotCount(item.name) < |e| && e[k] == EncodeEntry(item.short)
    ensures e[s][0] != 0
  {
    EntryIsRead(item.short, [], NoMask);
    if SlotCount(item.name) > 0 {
      assert IsPart(e[s], item.name, item.alias, SlotCount(item.name));
    }
  }

  lemma FirstItem(e: seq<DirEntry>, mask: Mask, steps: seq<Step>, s: nat, items: seq<Item>) returns (m: nat)
    requires items != [] && forall i :: 0 <= i < |items| ==> IsItem(items[i])
    requires Placed(e, s, StoredAll(items)) && AreSteps(e, mask, steps) && RunBefore(e, s).Closed?
    ensures m == s + |Stored(items[0])| && Placed(e, m, StoredAll(items[1..])) && RunBefore(e, m).Closed?
    ensures ListFrom(steps, s) == Shown(items[0], mask) + ListFrom(steps, m)
  {
    hide Placed, IsItem, Stored, Shown, AreSteps, RunBefore, ListFrom;
    SplitPlaced(e, s, Stored(items[0]), StoredAll(items[1..]));
    m := ItemIsShown(e, mask, steps, s, items[0]);
  }

  lemma {:induction false} ItemsAreShown(e: seq<DirEntry>, mask: Mask, steps: seq<Step>, s: nat, items: seq<Item>)
    returns (k: nat)
    requires forall i :: 0 <= i < |items| ==> IsItem(items[i])
    requires Placed(e, s, StoredAll(items)) && AreSteps(e, mask, steps) && RunBefore(e, s).Closed?
    ensures k == s + |StoredAll(items)| && RunBefore(e, k).Closed?
    ensures ListFrom(steps, s) == ShownAll(items, mask) + ListFrom(steps, k)
    decreases items
  {
    k := s;
    if items != [] {
      k := FirstItem(e, mask, steps, s, items);
      k := ItemsAreShown(e, mask, steps, k, items[1..]);
      Associate(Shown(items[0], mask), ShownAll(items[1..], mask), ListFrom(steps, k));
    }
  }

  lemma ListedUpToEnd(e: seq<DirEntry>, mask: Mask, steps: seq<Step>, items: seq<Item>)
    requires forall i :: 0 <= i < |items| ==> IsItem(items[i])
    requires Placed(e, 0, StoredAll(items)) && AreSteps(e, mask, steps)
    requires var k := |StoredAll(items)|; 0 < k && (k < |e| ==> e[k][0] == 0)
    ensures ListFrom(steps, 0) == ShownAll(items, mask)
  {
    var k := ItemsAreShown(e, mask, steps, 0, items);
    if k < |e| {
      ZeroMarkStops(e, mask, steps, k);
    }
  }

  lemma StoredIsNotEmpty(item: Item)
    requires IsItem(item)
    ensures Stored(item) != []
  {
  }

  /** The listing of a directory shows exactly the stored files, in order, up to the end mark. */
  lemma DirectoryIsListed(items: seq<Item>, tail: seq<DirEntry>, mask: Mask)
    requires items != [] && forall i :: 0 <= i < |items| ==> IsItem(items[i])
    requires tail == [] || tail[0][0] == 0
    ensures Listing(StoredAll(items) + tail, mask) == ShownAll(items, mask)
  {
    var stored := StoredAll(items);
    StoredIsNotEmpty(items[0]);
    assert (stored + tail)[0..0 + |stored|] == stored;
    ListedUpToEnd(stored + tail, mask, Steps(stored + tail, mask), items);
  }

  lemma ZeroNameStops(e: seq<DirEntry>, mask: Mask, k: nat, zero: Entry)
    requires k < |e| && IsEntry(zero) && e[k] == EncodeEntry(zero) && zero.name[0] == 0 && !zero.attributes.volume
    ensures StepAt(e, mask, k) == Stop
  {
    hide EncodeEntry, RunBefore, LongUnits;
    EntryIsRead(zero, [], mask);
    assert Unspaced(e[k][..8])[0] == 0;
  }

  lemma SlotsThenStop(e: seq<DirEntry>, mask: Mask, steps: seq<Step>, s: nat, name: seq<CodeUnit>, alias: byte, zero: Entry)
    requires 1 <= SlotCount(name) <= MAX_SLOTS && IsEntry(zero) && zero.name[0] == 0 && !zero.attributes.volume
    requires Placed(e, s, Slots(name, alias) + [EncodeEntry(zero)]) && AreSteps(e, mask, steps) && RunBefore(e, s).Closed?
    ensures ListFrom(steps, s) == []
  {
    hide PartsFrom, RunBefore, SlotCount, Placed, Slots, AllInRuns, StepAt, EncodeEntry, IsEntry, ListFrom;
    var k := s + SlotCount(name);
    SplitSlots(e, s, name, alias, EncodeEntry(zero));
    SlotsAreInRuns(e, s, name, alias);
    RunsListNothing(e, mask, steps, s, k);
    ZeroNameStops(e, mask, k, zero);
    assert steps[k] == StepAt(e, mask, k);
    NothingFromStop(steps, k);
  }

  lemma NothingFromStop(steps: seq<Step>, k: nat)
    requires k < |steps| && steps[k] == Stop
    ensures ListFrom(steps, k) == []
  {
  }

  /** A record whose name begins with a zero ends the listing even if slots stand in front of it. */
  lemma SlotsInFrontOfEnd(items: seq<Item>, name: seq<CodeUnit>, alias: byte, zero: Entry, tail: seq<DirEntry>, mask: Mask)
    requires (forall i :: 0 <= i < |items| ==> IsItem(items[i])) && 1 <= SlotCount(name) <= 20
    requires IsEntry(zero) && zero.name[0] == 0 && !zero.attributes.volume
    ensures Listing(StoredAll(items) + (Slots(name, alias) + [EncodeEntry(zero)]) + tail, mask) == ShownAll(items, mask)
  {
    hide EncodeEntry, Slots, IsItem, IsEntry, StepAt, SlotCount, RunBefore, Placed, ListFrom;
    var last := Slots(name, alias) + [EncodeEntry(zero)];
    var stored := StoredAll(items) + last;
    var e := stored + tail;
    BeginsWith(stored, tail);
    SplitPlaced(e, 0, StoredAll(items), last);
    var s := ItemsAreShown(e, mask, Steps(e, mask), 0, items);
    SlotsThenStop(e, mask, Steps(e, mask), s, name, alias, zero);
  }

  lemma BeginsWith(a: seq<DirEntry>, b: seq<DirEntry>)
    ensures Placed(a + b, 0, a)
  {
  }
}
