/** dir_fat_aux without the listing of deleted files: the scan of one directory. */
module DirParser {
  import opened Bytes
  import opened DirEntries
  import opened Seqs

  /** A long name being put together: the index of its first slot, and how many slots are still missing. */
  datatype Run = Closed | Open(head: nat, missing: nat)

  /** The slots that directly precede entry k and belong together. */
  function RunBefore(e: seq<DirEntry>, k: nat): (r: Run)
    requires k <= |e|
    ensures r.Open? ==> r.head < k && IsSlot(e[r.head]) && r.missing + (k - r.head) <= MAX_SLOTS
  {
    if k == 0 then Closed
    else
      var d := e[k - 1];
      if !IsSlot(d) then Closed
      else if IsMarked(d) then
        if 1 <= Number(d) <= MAX_SLOTS then Open(k - 1, Number(d) - 1) else Closed
      else match RunBefore(e, k - 1)
        case Open(h, m) => if 0 < m == Number(d) && Alias(d) == Alias(e[h]) then Open(h, m - 1) else Closed
        case Closed => Closed
  }

  /** The code units of the slots from `head` to k: later slots hold earlier parts of the name. */
  function LongUnits(e: seq<DirEntry>, head: nat, k: nat): (u: seq<CodeUnit>)
    requires head <= k <= |e|
    ensures |u| == 13 * (k - head)
  {
    if k == head then [] else Units(e[k - 1]) + LongUnits(e, head, k - 1)
  }

  /** Does entry k own the run of slots in front of it? */
  predicate HasLongName(e: seq<DirEntry>, k: nat)
    requires k < |e|
  {
    match RunBefore(e, k)
    case Open(h, m) => m == 0 && Alias(e[h]) == ShortChecksum(e[k]) && !IsFree(e[k])
    case Closed => false
  }

  predicate IsNamed(e: DirEntry) {
    !IsSlot(e) && !IsVolume(e)
  }

  function NameAt(e: seq<DirEntry>, k: nat): seq<CodeUnit>
    requires k < |e|
  {
    if HasLongName(e, k) then UpToZero(LongUnits(e, RunBefore(e, k).head, k)) else ShortName(e[k])
  }

  /** The scan ends at entry k: a zero mark outside a run, or an empty name. */
  predicate StopsAt(e: seq<DirEntry>, k: nat)
    requires k < |e|
  {
    || (0 < k && e[k][0] == 0 && RunBefore(e, k).Closed?)
    || (IsNamed(e[k]) && NameAt(e, k) == [])
  }

  /** What entry k adds to the listing. */
  function ListedAt(e: seq<DirEntry>, k: nat, mask: Mask): seq<FileInfo>
    requires k < |e|
  {
    if IsNamed(e[k]) && NameAt(e, k) != [] && NameAt(e, k)[0] != DELETED_FLAG as int
    then [Info(NameAt(e, k), e[k], mask)] else []
  }

  /** What the scan does at entry k. */
  datatype Step = Stop | Go(listed: seq<FileInfo>)

  function StepAt(e: seq<DirEntry>, mask: Mask, k: nat): Step
    requires k < |e|
  {
    if StopsAt(e, k) then Stop else Go(ListedAt(e, k, mask))
  }

  function Steps(e: seq<DirEntry>, mask: Mask): seq<Step> {
    seq(|e|, k requires 0 <= k < |e| => StepAt(e, mask, k))
  }

  /** What the steps from the k-th on list, up to the first stop. */
  function ListFrom(steps: seq<Step>, k: nat): seq<FileInfo>
    requires k <= |steps|
    decreases |steps| - k
  {
    if k == |steps| || steps[k].Stop? then [] else steps[k].listed + ListFrom(steps, k + 1)
  }

  /** The listing of a directory. */
  function Listing(e: seq<DirEntry>, mask: Mask): seq<FileInfo> {
    ListFrom(Steps(e, mask), 0)
  }

  ghost predicate AreSteps(e: seq<DirEntry>, mask: Mask, steps: seq<Step>) {
    |steps| == |e| && forall k: nat {:trigger StepAt(e, mask, k)} :: k < |e| ==> steps[k] == StepAt(e, mask, k)
  }

  /** The two loops over an 8.3 name that add up its checksum. */
  method AddUp(e: DirEntry) returns (sum: byte)
    ensures sum == ShortChecksum(e)
  {
    sum := 0;
    var i := 0;
    while i < 11
      invariant 0 <= i <= 11 && sum == Checksum(e[..i])
    {
      assert e[..i + 1][..i] == e[..i];
      sum := ((sum % 2) * 128 + (sum - sum % 2) / 2 + e[i]) % 256;
      i := i + 1;
    }
  }

  lemma UnspacedIs(s: seq<byte>, i: nat)
    requires i <= |s| && (forall k :: 0 <= k < i ==> s[k] != 0x20) && (i < |s| ==> s[i] == 0x20)
    ensures |Unspaced(s)| == i
  {
    hide Unspaced;
  }

  /** Copy the bytes before the first space, from position `at` of the name buffer on. */
  method CopyUnspaced(s: seq<byte>, unicode: array<CodeUnit>, at: nat) returns (j: nat)
    requires at + |s| <= unicode.Length
    modifies unicode
    ensures j == at + |Unspaced(s)| && unicode[..j] == old(unicode[..at]) + Unspaced(s)
  {
    hide Unspaced;
    var i := 0;
    while i < |s| && s[i] != 0x20
      invariant i <= |s| && forall k :: 0 <= k < i ==> s[k] != 0x20
      invariant unicode[..at] == old(unicode[..at])
      invariant forall k :: 0 <= k < i ==> unicode[at + k] == s[k] as CodeUnit
    {
      unicode[at + i] := s[i];
      i := i + 1;
    }
    UnspacedIs(s, i);
    j := at + i;
    assert unicode[..j] == unicode[..at] + unicode[at..j];
  }

  method EndName(unicode: array<CodeUnit>, j: nat)
    requires j < unicode.Length
    modifies unicode
    ensures UpToZero(unicode[..]) == UpToZero(old(unicode[..j]))
  {
    ghost var name := unicode[..j];
    unicode[j] := 0;
    assert unicode[..] == name + [0] + unicode[j + 1..];
    UpToZeroStops(name, unicode[j + 1..]);
  }

  /** Put the 8.3 name into the name buffer. */
  method CopyShortName(e: DirEntry, unicode: array<CodeUnit>)
    requires unicode.Length == 1000
    modifies unicode
    ensures UpToZero(unicode[..]) == ShortName(e)
  {
    hide Unspaced, UpToZero;
    var base, ext := e[..8], e[8..11];
    var j := CopyUnspaced(base, unicode, 0);
    assert unicode[..j] == Unspaced(base);
    if ext[0] != 0x20 {
      unicode[j] := 0x2E;
      assert unicode[..j + 1] == unicode[..j] + [0x2E];
      j := CopyUnspaced(ext, unicode, j + 1);
      Associate(Unspaced(base), [0x2E], Unspaced(ext));
    } else {
      assert Unspaced(base) + [] == Unspaced(base);
    }
    EndName(unicode, j);
  }

  /** fat16_towchar, three times: put the code units of one slot in front of what later slots supply. */
  method PutUnits(u: seq<CodeUnit>, unicode: array<CodeUnit>, offset: nat, isLast: bool, ghost tail: seq<CodeUnit>)
    requires |u| == 13 && offset + 13 < unicode.Length
    requires !isLast ==> offset + 13 + |tail| <= unicode.Length && unicode[offset + 13..offset + 13 + |tail|] == tail
    modifies unicode
    ensures isLast ==> unicode[offset..offset + 14] == u + [0]
    ensures !isLast ==> unicode[offset..offset + 13 + |tail|] == u + tail
  {
    forall k | 0 <= k < 13 {
      unicode[offset + k] := u[k];
    }
    assert unicode[offset..offset + 13] == u;
    if isLast {
      unicode[offset + 13] := 0;
    } else {
      assert unicode[offset + 13..offset + 13 + |tail|] == tail;
    }
  }

  /** The name buffer holds the part of the long name that the slots from head to k supply, and its end mark. */
  ghost predicate Holds(e: seq<DirEntry>, k: nat, unicode: seq<CodeUnit>)
    requires k <= |e| && RunBefore(e, k).Open? && |unicode| == 1000
  {
    var r := RunBefore(e, k);
    unicode[13 * r.missing..13 * (r.missing + (k - r.head)) + 1] == LongUnits(e, r.head, k) + [0]
  }

  /** Take slot k, which opens a run or continues the open one. */
  method TakeSlot(e: seq<DirEntry>, k: nat, slot: nat, unicode: array<CodeUnit>)
    requires k < |e| && unicode.Length == 1000
    requires RunBefore(e, k + 1).Open? && slot == RunBefore(e, k + 1).missing
    requires !IsMarked(e[k]) ==> Holds(e, k, unicode[..])
    modifies unicode
    ensures Holds(e, k + 1, unicode[..])
  {
    var u := Units(e[k]);
    hide Units, UpToZero, IsSlot, Alias;
    ghost var head := RunBefore(e, k + 1).head;
    ghost var tail := if IsMarked(e[k]) then [] else LongUnits(e, head, k) + [0];
    assert !IsMarked(e[k]) ==> RunBefore(e, k) == Open(head, slot + 1);
    PutUnits(u, unicode, slot * 13, (e[k][0] / 64) % 2 != 0, tail);
    if IsMarked(e[k]) {
      assert LongUnits(e, k, k + 1) == u + [];
    } else {
      assert (u + LongUnits(e, head, k)) + [0] == u + tail;
    }
  }

  /** Is every entry from `from` up to k a slot, and part of a run? */
  ghost predicate AllInRuns(e: seq<DirEntry>, from: nat, k: nat)
    requires k <= |e|
  {
    k <= from || (IsSlot(e[k - 1]) && RunBefore(e, k).Open? && AllInRuns(e, from, k - 1))
  }

  lemma {:induction false} JoinRuns(e: seq<DirEntry>, from: nat, mid: nat, k: nat)
    requires mid <= k <= |e| && AllInRuns(e, from, mid) && AllInRuns(e, mid, k)
    ensures AllInRuns(e, from, k)
  {
    if mid < k {
      JoinRuns(e, from, mid, k - 1);
    }
  }

  /** Does entry k continue the run in front of it? */
  predicate Continues(e: seq<DirEntry>, k: nat)
    requires k < |e|
  {
    match RunBefore(e, k)
    case Open(h, m) => 0 < m == Number(e[k]) && IsSlot(e[k]) && Alias(e[k]) == Alias(e[h])
    case Closed => false
  }

  lemma RunStep(e: seq<DirEntry>, k: nat)
    requires k < |e| && Continues(e, k)
    ensures var r, next := RunBefore(e, k), RunBefore(e, k + 1);
            && IsSlot(e[k]) && next.Open? && next.missing == r.missing - 1 && Alias(e[next.head]) == Alias(e[r.head])
  {
  }

  /** The slots from `start` up to de make a run with `slot` more to come. */
  ghost predicate Follows(e: seq<DirEntry>, start: nat, de: nat, slot: nat, unicode: seq<CodeUnit>)
    requires |unicode| == 1000
  {
    && start < de <= |e| && AllInRuns(e, start, de) && RunBefore(e, de).Open? && slot == RunBefore(e, de).missing
    && Alias(e[RunBefore(e, de).head]) == Alias(e[start]) && Holds(e, de, unicode)
  }

  method FirstSlot(e: seq<DirEntry>, start: nat, unicode: array<CodeUnit>) returns (slot: nat)
    requires start < |e| && IsSlot(e[start]) && IsMarked(e[start]) && 1 <= Number(e[start]) <= MAX_SLOTS
    requires unicode.Length == 1000
    modifies unicode
    ensures Follows(e, start, start + 1, slot, unicode[..])
  {
    slot := Number(e[start]) - 1;
    TakeSlot(e, start, slot, unicode);
  }

  method NextSlot(e: seq<DirEntry>, start: nat, de: nat, slot: nat, unicode: array<CodeUnit>)
    requires unicode.Length == 1000 && Follows(e, start, de, slot, unicode[..]) && de < |e| && Continues(e, de)
    modifies unicode
    ensures slot > 0 && Follows(e, start, de + 1, slot - 1, unicode[..])
  {
    RunStep(e, de);
    TakeSlot(e, de, slot - 1, unicode);
  }

  /** Follow the run that a marked slot opens, as far as its slots fit together. */
  method FollowRun(e: seq<DirEntry>, start: nat, unicode: array<CodeUnit>) returns (de: nat, slot: nat)
    requires start < |e| && IsSlot(e[start]) && IsMarked(e[start]) && 1 <= Number(e[start]) <= MAX_SLOTS
    requires unicode.Length == 1000
    modifies unicode
    ensures Follows(e, start, de, slot, unicode[..])
    ensures slot == 0 || de == |e| || !Continues(e, de)
  {
    var alias := Alias(e[start]);
    slot := FirstSlot(e, start, unicode);
    de := start + 1;
    while de < |e| && slot != 0 && IsSlot(e[de]) && Number(e[de]) == slot && Alias(e[de]) == alias
      invariant Follows(e, start, de, slot, unicode[..])
    {
      NextSlot(e, start, de, slot, unicode);
      slot := slot - 1;
      de := de + 1;
    }
  }

  /** Does the scan leave the runs at entry de, knowing how many slots of a long name belong to it? */
  ghost predicate LeavesRunsAt(e: seq<DirEntry>, de: nat, longSlots: nat, unicode: seq<CodeUnit>)
    requires de < |e|
  {
    if IsSlot(e[de]) then RunBefore(e, de + 1).Closed?
    else (longSlots != 0 <==> HasLongName(e, de) && !IsVolume(e[de]))
         && (longSlots != 0 ==> UpToZero(unicode) == NameAt(e, de))
  }

  lemma FullRunIsName(e: seq<DirEntry>, k: nat, unicode: seq<CodeUnit>)
    requires k < |e| && |unicode| == 1000 && HasLongName(e, k) && Holds(e, k, unicode)
    ensures UpToZero(unicode) == NameAt(e, k)
  {
    var u := LongUnits(e, RunBefore(e, k).head, k);
    assert unicode == u + [0] + unicode[|u| + 1..];
    UpToZeroStops(u, unicode[|u| + 1..]);
  }

  /** From the label ParseLong to the label RecEnd. */
  method ParseLong(e: seq<DirEntry>, start: nat, unicode: array<CodeUnit>) returns (de: nat, longSlots: nat)
    requires start < |e| && IsSlot(e[start]) && !Continues(e, start) && unicode.Length == 1000
    modifies unicode
    ensures start <= de <= |e| && AllInRuns(e, start, de)
    ensures de < |e| ==> LeavesRunsAt(e, de, longSlots, unicode[..])
  {
    de, longSlots := start, 0;
    while true
      invariant start <= de < |e| && AllInRuns(e, start, de) && IsSlot(e[de]) && !Continues(e, de)
      decreases |e| - de
    {
      var slots := Number(e[de]);
      if !IsMarked(e[de]) || slots > MAX_SLOTS || slots == 0 {
        return;
      }
      longSlots := slots;
      var alias := Alias(e[de]);
      var slot;
      ghost var mid := de;
      de, slot := FollowRun(e, de, unicode);
      JoinRuns(e, start, mid, de);
      if de == |e| {
        return;
      }
      if !IsSlot(e[de]) {
        if slot != 0 || IsFree(e[de]) || IsVolume(e[de]) {
          longSlots := 0;
          return;
        }
        var sum := AddUp(e[de]);
        if sum != alias {
          longSlots := 0;
        } else {
          FullRunIsName(e, de, unicode[..]);
        }
        return;
      }
    }
  }

  /** The scan lists nothing while it goes through runs of slots. */
  lemma {:induction false} RunsListNothing(e: seq<DirEntry>, mask: Mask, steps: seq<Step>, from: nat, k: nat)
    requires AreSteps(e, mask, steps) && from <= k <= |e| && AllInRuns(e, from, k)
    requires from < k ==> AtLabelGetNew(e, from)
    ensures ListFrom(steps, from) == ListFrom(steps, k)
    ensures from < k ==> RunBefore(e, k).Open?
  {
    if from < k {
      RunsListNothing(e, mask, steps, from, k - 1);
      assert StepAt(e, mask, k - 1) == Go([]);
    }
  }

  /** The name buffer as a string. */
  method ReadName(unicode: array<CodeUnit>) returns (name: seq<CodeUnit>)
    ensures name == UpToZero(unicode[..])
  {
    name := [];
    var i := 0;
    while i < unicode.Length && unicode[i] != 0
      invariant 0 <= i <= unicode.Length && name == unicode[..i]
      invariant forall k :: 0 <= k < i ==> unicode[k] != 0
    {
      name := name + [unicode[i]];
      i := i + 1;
    }
    UpToZeroIs(unicode[..], i);
  }

  /** From the label RecEnd to the end of the loop body: does the scan end, and what has been added? */
  method ListEntry(e: seq<DirEntry>, de: nat, longSlots: nat, unicode: array<CodeUnit>, mask: Mask)
    returns (ends: bool, added: seq<FileInfo>)
    requires de < |e| && unicode.Length == 1000 && LeavesRunsAt(e, de, longSlots, unicode[..])
    modifies unicode
    ensures ends <==> IsNamed(e[de]) && NameAt(e, de) == []
    ensures added == ListedAt(e, de, mask)
  {
    ends, added := false, [];
    var d := e[de];
    if longSlots == 0 && !IsSlot(d) {
      CopyShortName(d, unicode);
    }
    if (!IsSlot(d) || longSlots != 0) && !IsVolume(d) {
      assert UpToZero(unicode[..]) == NameAt(e, de);
      if unicode[0] == 0 {
        return true, [];
      }
      if unicode[0] != DELETED_FLAG as int {
        var name := ReadName(unicode);
        added := [Info(name, d, mask)];
      }
    }
  }

  /** The scan is in front of an entry that it has not looked at yet. */
  ghost predicate AtLabelGetNew(e: seq<DirEntry>, de: nat)
    requires de < |e|
  {
    RunBefore(e, de).Closed? && (de > 0 ==> e[de][0] != 0)
  }

  /** From the label GetNew to the end of the loop body. */
  method TakeEntry(e: seq<DirEntry>, start: nat, unicode: array<CodeUnit>, mask: Mask, ghost steps: seq<Step>)
    returns (de: nat, step: Step)
    requires start < |e| && AtLabelGetNew(e, start) && unicode.Length == 1000 && AreSteps(e, mask, steps)
    modifies unicode
    ensures start <= de <= |e| && ListFrom(steps, start) == ListFrom(steps, de)
    ensures de < |e| ==> step == steps[de] && RunBefore(e, de + 1).Closed?
    ensures de == |e| ==> step == Stop
  {
    de := start;
    var longSlots := 0;
    if IsSlot(e[de]) {
      de, longSlots := ParseLong(e, de, unicode);
      RunsListNothing(e, mask, steps, start, de);
      if de == |e| {
        return de, Stop;
      }
    }
    var ends, added := ListEntry(e, de, longSlots, unicode, mask);
    assert steps[de] == StepAt(e, mask, de);
    step := if ends then Stop else Go(added);
  }

  /** A zero mark after an entry that is not part of a run ends the listing. */
  lemma ZeroMarkStops(e: seq<DirEntry>, mask: Mask, steps: seq<Step>, k: nat)
    requires AreSteps(e, mask, steps) && k < |e| && RunBefore(e, k).Closed? && 0 < k && e[k][0] == 0
    ensures ListFrom(steps, k) == []
  {
    assert StepAt(e, mask, k) == Stop;
  }

  lemma AddStep(steps: seq<Step>, k: nat, files: seq<FileInfo>, whole: seq<FileInfo>)
    requires k < |steps| && files + ListFrom(steps, k) == whole
    ensures steps[k].Stop? ==> files == whole
    ensures steps[k].Go? ==> (files + steps[k].listed) + ListFrom(steps, k + 1) == whole
  {
  }

  /** dir_fat_aux: the listing of a directory. */
  method DirFatAux(e: seq<DirEntry>, mask: Mask) returns (files: seq<FileInfo>)
    requires e != []
    ensures files == Listing(e, mask)
  {
    files := Scan(e, mask, Steps(e, mask));
  }

  method Scan(e: seq<DirEntry>, mask: Mask, ghost steps: seq<Step>) returns (files: seq<FileInfo>)
    requires e != [] && AreSteps(e, mask, steps)
    ensures files == ListFrom(steps, 0)
  {
    var unicode := new CodeUnit[1000](_ => 0);
    files := [];
    var de := 0;
    while true
      invariant 0 <= de < |e| && AtLabelGetNew(e, de)
      invariant files + ListFrom(steps, de) == ListFrom(steps, 0)
      decreases |e| - de
    {
      var step;
      de, step := TakeEntry(e, de, unicode, mask, steps);
      if de == |e| {
        return;
      }
      AddStep(steps, de, files, ListFrom(steps, 0));
      if step == Stop {
        return;
      }
      files := files + step.listed;
      de := de + 1;
      if de == |e| {
        return;
      }
      if e[de][0] == 0 {
        ZeroMarkStops(e, mask, steps, de);
        return;
      }
    }
  }
}
