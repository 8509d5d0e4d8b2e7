/** The state machine of repair_FAT_table. */
module RepairMachine {
  import opened Arith
  import opened Bytes
  import opened Disks
  import opened FatSectors
  import opened FatRepair
  import opened Options

  // ----- what the repair does to the copies, sector by sector -----

  /** One or two copies of the same number of well-formed sectors. */
  ghost predicate Shape(p: Volume, copies: seq<seq<Sector>>) {
    && 1 <= |copies| <= 2
    && (forall k :: 0 <= k < |copies| ==> |copies[k]| == |copies[0]|)
    && (forall k, i :: 0 <= k < |copies| && 0 <= i < |copies[k]| ==> p.IsSector(copies[k][i]) && Fits(p.z, copies[k][i]))
  }

  /** Cluster of the first word of sector i. */
  ghost function Base(p: Volume, i: nat): nat {
    if i == 0 then 0 else Base(p, i - 1) + p.per
  }

  ghost predicate CleanAt(p: Volume, copies: seq<seq<Sector>>, k: nat, i: nat)
    requires Shape(p, copies) && k < |copies| && i < |copies[k]|
  {
    Clean(p, copies[k][i], Base(p, i))
  }

  /** How many of the first i sectors of copy k are clean. */
  ghost function CleanCount(p: Volume, copies: seq<seq<Sector>>, k: nat, i: nat): nat
    requires Shape(p, copies) && k < |copies| && i <= |copies[k]|
  {
    if i == 0 then 0 else CleanCount(p, copies, k, i - 1) + if CleanAt(p, copies, k, i - 1) then 1 else 0
  }

  /** Copy k beats the copy chosen so far: more clean sectors, or as many and it looks like the start of a FAT. */
  function Better(ok: seq<nat>, buffers: seq<Sector>, looksLikeFat: Sector -> bool, k: nat, good: nat): nat
    requires k < |ok| && good < |ok| && |ok| == |buffers|
  {
    if ok[k] > ok[good] || (ok[k] == ok[good] && looksLikeFat(buffers[k])) then k else good
  }

  /** The copy to trust when both are clean; the last sector breaks ties in another order. */
  function Trusted(ok: seq<nat>, buffers: seq<Sector>, looksLikeFat: Sector -> bool, last: bool): (good: nat)
    requires |ok| == |buffers| == 2
    ensures good < 2
  {
    if last then
      var g := Better(ok, buffers, looksLikeFat, 0, 1);
      if g != 1 then Better(ok, buffers, looksLikeFat, 1, g) else g
    else Better(ok, buffers, looksLikeFat, 1, 0)
  }

  /** Sector i of every copy. */
  ghost function Column(copies: seq<seq<Sector>>, i: nat): (c: seq<Sector>)
    requires forall k :: 0 <= k < |copies| ==> i < |copies[k]|
    ensures |c| == |copies| && forall k :: 0 <= k < |c| ==> c[k] == copies[k][i]
  {
    seq(|copies|, k requires 0 <= k < |copies| => copies[k][i])
  }

  /** Sector i of every copy after its words below w have been scanned. */
  ghost function ScanColumnTo(p: Volume, copies: seq<seq<Sector>>, i: nat, w: nat): (c: seq<Sector>)
    requires Shape(p, copies) && i < |copies[0]| && w <= p.per
    ensures |c| == |copies| && forall k :: 0 <= k < |c| ==> c[k] == ScanTo(p, copies[k][i], Base(p, i), w).sector
  {
    seq(|copies|, k requires 0 <= k < |copies| => ScanTo(p, copies[k][i], Base(p, i), w).sector)
  }

  /** Which copies have shown no bad entry in the words of sector i below w. */
  ghost function GoodColumnTo(p: Volume, copies: seq<seq<Sector>>, i: nat, w: nat): (c: seq<bool>)
    requires Shape(p, copies) && i < |copies[0]| && w <= p.per
    ensures |c| == |copies| && forall k :: 0 <= k < |c| ==> c[k] == !ScanTo(p, copies[k][i], Base(p, i), w).corrupted
  {
    seq(|copies|, k requires 0 <= k < |copies| => !ScanTo(p, copies[k][i], Base(p, i), w).corrupted)
  }

  /** Sector i of every copy, scanned. */
  ghost function ScannedColumn(p: Volume, copies: seq<seq<Sector>>, i: nat): (c: seq<Sector>)
    requires Shape(p, copies) && i < |copies[0]|
    ensures |c| == |copies| && forall k :: 0 <= k < |c| ==> c[k] == Scan(p, copies[k][i], Base(p, i)).sector
  {
    ScanColumnTo(p, copies, i, WordCount(p, Base(p, i)))
  }

  /** Which copies are clean in sector i. */
  ghost function CleanColumn(p: Volume, copies: seq<seq<Sector>>, i: nat): (c: seq<bool>)
    requires Shape(p, copies) && i < |copies[0]|
    ensures |c| == |copies| && forall k :: 0 <= k < |c| ==> c[k] == CleanAt(p, copies, k, i)
  {
    seq(|copies|, k requires 0 <= k < |copies| => CleanAt(p, copies, k, i))
  }

  /** The number of clean sectors of each copy among the first i. */
  ghost function CleanCounts(p: Volume, copies: seq<seq<Sector>>, i: nat): (c: seq<nat>)
    requires Shape(p, copies) && i <= |copies[0]|
    ensures |c| == |copies| && forall k :: 0 <= k < |c| ==> c[k] == CleanCount(p, copies, k, i)
  {
    seq(|copies|, k requires 0 <= k < |copies| => CleanCount(p, copies, k, i))
  }

  /** What copy k of a sector should hold: the scanned sector where the copies agree or neither is clean, else a clean copy. */
  function TargetOf(originals: seq<Sector>, scans: seq<Sector>, ok: seq<bool>, trusted: nat, k: nat): Sector
    requires 1 <= |originals| == |scans| == |ok| <= 2 && trusted < 2 && k < |originals|
  {
    if |originals| == 1 || originals[0] == originals[1] then scans[k]
    else if ok[0] && ok[1] then originals[trusted]
    else if ok[0] then originals[0]
    else if ok[1] then originals[1]
    else scans[k]
  }

  /** The copy that wins the vote on sector i. */
  ghost function TrustedAt(p: Volume, copies: seq<seq<Sector>>, i: nat, looksLikeFat: Sector -> bool): (good: nat)
    requires Shape(p, copies) && i < |copies[0]|
    ensures good < 2
  {
    if |copies| == 1 then 0
    else Trusted(CleanCounts(p, copies, i + 1), Column(copies, i), looksLikeFat, i == |copies[0]| - 1)
  }

  /** What sector i of copy k should hold after the repair. */
  ghost function Target(p: Volume, copies: seq<seq<Sector>>, k: nat, i: nat, looksLikeFat: Sector -> bool): Sector
    requires Shape(p, copies) && k < |copies| && i < |copies[0]|
  {
    TargetOf(Column(copies, i), ScannedColumn(p, copies, i), CleanColumn(p, copies, i),
             TrustedAt(p, copies, i, looksLikeFat), k)
  }

  /** The copies after their first `done` sectors have been repaired where the user agreed. */
  ghost function Repaired(p: Volume, copies: seq<seq<Sector>>, answers: seq<bool>, looksLikeFat: Sector -> bool, done: nat)
    : (r: seq<seq<Sector>>)
    requires Shape(p, copies) && |answers| == |copies| && done <= |copies[0]|
    ensures |r| == |copies|
    ensures forall k :: 0 <= k < |r| ==> |r[k]| == |copies[0]|
    ensures forall k, i :: 0 <= k < |r| && 0 <= i < |copies[0]| ==>
              r[k][i] == if i < done && answers[k] then Target(p, copies, k, i, looksLikeFat) else copies[k][i]
  {
    seq(|copies|, k requires 0 <= k < |copies| =>
      seq(|copies[0]|, i requires 0 <= i < |copies[0]| =>
        if i < done && answers[k] then Target(p, copies, k, i, looksLikeFat) else copies[k][i]))
  }

  /** Some sector differs between the copies, or is corrupted in all of them. */
  ghost predicate DamagedAt(p: Volume, copies: seq<seq<Sector>>, i: nat)
    requires Shape(p, copies) && i < |copies[0]|
  {
    || (|copies| == 2 && copies[0][i] != copies[1][i])
    || (forall k :: 0 <= k < |copies| ==> !CleanAt(p, copies, k, i))
  }

  // ----- one flush -----

  datatype Allow = Ask | Yes | No

  /** allow_write[k] is what the user answered, once asked. */
  ghost predicate Honest(allow: seq<Allow>, answers: seq<bool>) {
    |allow| == |answers| && forall k :: 0 <= k < |allow| ==> allow[k] == Ask || allow[k] == if answers[k] then Yes else No
  }

  /** The copies that a flush asks about: those it wants to write and has not asked about before. */
  function Asked(sources: seq<Option<Sector>>, allow: seq<Allow>, n: nat): seq<nat>
    requires n <= |sources| == |allow|
  {
    if n == 0 then []
    else Asked(sources, allow, n - 1) + if sources[n - 1].Some? && allow[n - 1] == Ask then [n - 1] else []
  }

  /** What a flush wants to write over sector i of each copy. */
  function Sources(buffers: seq<Sector>, ok: seq<bool>, mismatch: bool, good: nat): (s: seq<Option<Sector>>)
    requires |buffers| == |ok| && good < |buffers|
    ensures |s| == |buffers|
  {
    if mismatch && (exists k :: 0 <= k < |ok| && ok[k]) then
      seq(|buffers|, k requires 0 <= k < |buffers| => if k != good then Some(buffers[good]) else None)
    else if forall k :: 0 <= k < |ok| ==> !ok[k] then
      seq(|buffers|, k requires 0 <= k < |buffers| => Some(buffers[k]))
    else
      seq(|buffers|, k requires 0 <= k < |buffers| => None)
  }

  ghost function WriteSources(copies: seq<seq<Sector>>, i: nat, sources: seq<Option<Sector>>, answers: seq<bool>, n: nat)
    : (r: seq<seq<Sector>>)
    requires n <= |copies| == |sources| == |answers|
    ensures |r| == |copies|
    ensures forall k :: 0 <= k < |copies| ==>
              r[k] == if k < n && i < |copies[k]| && sources[k].Some? && answers[k] then copies[k][i := sources[k].value]
                      else copies[k]
  {
    seq(|copies|, k requires 0 <= k < |copies| =>
      if k < n && i < |copies[k]| && sources[k].Some? && answers[k] then copies[k][i := sources[k].value] else copies[k])
  }

  /** The copies below k have been written. */
  ghost predicate HasWritten(now: seq<seq<Sector>>, copies: seq<seq<Sector>>, i: nat, sources: seq<Option<Sector>>,
                             answers: seq<bool>, k: nat) {
    k <= |copies| == |sources| == |answers| && now == WriteSources(copies, i, sources, answers, k)
  }

  lemma NothingWritten(copies: seq<seq<Sector>>, i: nat, sources: seq<Option<Sector>>, answers: seq<bool>)
    requires |copies| == |sources| == |answers|
    ensures HasWritten(copies, copies, i, sources, answers, 0)
  {
  }

  lemma WrittenStep(now: seq<seq<Sector>>, next: seq<seq<Sector>>, copies: seq<seq<Sector>>, i: nat, sources: seq<Option<Sector>>,
                    answers: seq<bool>, k: nat, m: nat)
    requires HasWritten(now, copies, i, sources, answers, k) && k < |copies| && |now| == |copies| && |copies[k]| == |now[k]| == m
    requires next == if i < m && sources[k].Some? && answers[k] then now[k := now[k][i := sources[k].value]] else now
    ensures HasWritten(next, copies, i, sources, answers, k + 1)
  {
    assert next == WriteSources(copies, i, sources, answers, k + 1);
  }

  /** The first n copies have been asked about where that was still to be done, and no copy twice. */
  ghost predicate AskedOnce(sources: seq<Option<Sector>>, allow: seq<Allow>, allow': seq<Allow>, asked: seq<nat>, n: nat) {
    && n <= |sources| == |allow| == |allow'| && asked == Asked(sources, allow, n)
    && (forall k :: 0 <= k < |allow| ==> (allow'[k] == Ask <==> allow[k] == Ask && k !in asked))
    && (forall k :: k in asked ==> k < n)
  }

  /** Ask about copy k unless that has been done. */
  method AskAbout(sources: seq<Option<Sector>>, ghost before: seq<Allow>, allow: seq<Allow>, answers: seq<bool>, asked: seq<nat>,
                  k: nat)
    returns (allow': seq<Allow>, asked': seq<nat>)
    requires Honest(allow, answers) && AskedOnce(sources, before, allow, asked, k) && k < |sources|
    ensures Honest(allow', answers) && AskedOnce(sources, before, allow', asked', k + 1)
    ensures sources[k].Some? ==> (allow'[k] == Yes <==> answers[k])
  {
    allow', asked' := allow, asked;
    if sources[k].Some? && allow[k] == Ask {
      allow', asked' := allow[k := if answers[k] then Yes else No], asked + [k];
    }
  }

  /** The disk after the copies below k have been written, `bytes` being what it held before. */
  ghost predicate IsWriting(disk: Disk, z: WordSize, l: Layout, m: nat, bytes: seq<byte>, i: nat, sources: seq<Option<Sector>>,
                            answers: seq<bool>, k: nat)
    reads disk
  {
    && CopiesFit(l, disk, m) && |disk.bytes| == |bytes|
    && HasWritten(Copies(z, l, disk.sectorSize, disk.bytes, m), Copies(z, l, disk.sectorSize, bytes, m), i, sources, answers, k)
    && forall x :: 0 <= x < |bytes| && !InFatSector(l, disk.sectorSize, m, x) ==> disk.bytes[x] == bytes[x]
  }

  /** Write copy k if there is something to write and the answer was yes. */
  method WriteCopy(disk: Disk, p: Volume, l: Layout, k: nat, i: nat, sources: seq<Option<Sector>>, yes: bool, ghost answers: seq<bool>,
                   ghost m: nat, ghost bytes: seq<byte>)
    requires IsWriting(disk, p.z, l, m, bytes, i, sources, answers, k) && k < l.fats == |sources| == |answers|
    requires sources[k].Some? ==>
               yes == answers[k] && i < m && Fits(p.z, sources[k].value) && |sources[k].value| * p.z.Bytes() == disk.sectorSize
    modifies disk`bytes
    ensures IsWriting(disk, p.z, l, m, bytes, i, sources, answers, k + 1)
  {
    hide HasWritten, InFatSector, Fits;
    ghost var before := Copies(p.z, l, disk.sectorSize, disk.bytes, m);
    if sources[k].Some? && yes {
      WriteSector(disk, p.z, l, k, i, sources[k].value, m);
    }
    WrittenStep(before, Copies(p.z, l, disk.sectorSize, disk.bytes, m), Copies(p.z, l, disk.sectorSize, bytes, m), i, sources,
                answers, k, m);
  }

  /** Ask where nobody has been asked, and write where the answer was yes. */
  method WriteCopies(disk: Disk, p: Volume, l: Layout, i: nat, sources: seq<Option<Sector>>,
                     allow: seq<Allow>, answers: seq<bool>, ghost m: nat)
    returns (allow': seq<Allow>, asked: seq<nat>)
    requires CopiesFit(l, disk, m) && |sources| == l.fats && Honest(allow, answers) && |allow| == l.fats
    requires forall k :: 0 <= k < l.fats && sources[k].Some? ==>
               i < m && Fits(p.z, sources[k].value) && |sources[k].value| * p.z.Bytes() == disk.sectorSize
    modifies disk`bytes
    ensures Honest(allow', answers) && AskedOnce(sources, allow, allow', asked, l.fats)
    ensures CopiesFit(l, disk, m) && |disk.bytes| == |old(disk.bytes)|
    ensures Copies(p.z, l, disk.sectorSize, disk.bytes, m)
            == WriteSources(old(Copies(p.z, l, disk.sectorSize, disk.bytes, m)), i, sources, answers, l.fats)
    ensures forall x :: 0 <= x < |disk.bytes| && !InFatSector(l, disk.sectorSize, m, x) ==>
              disk.bytes[x] == old(disk.bytes)[x]
  {
    allow', asked := allow, [];
    ghost var bytes := disk.bytes;
    hide Honest, IsWriting, AskedOnce;
    BeginWriting(disk, p.z, l, m, allow, i, sources, answers);
    for k := 0 to l.fats
      invariant Honest(allow', answers) && AskedOnce(sources, allow, allow', asked, k)
      invariant IsWriting(disk, p.z, l, m, bytes, i, sources, answers, k)
    {
      allow', asked := AskAbout(sources, allow, allow', answers, asked, k);
      WriteCopy(disk, p, l, k, i, sources, allow'[k] == Yes, answers, m, bytes);
    }
    EndWriting(disk, p.z, l, m, bytes, i, sources, answers);
  }

  lemma BeginWriting(disk: Disk, z: WordSize, l: Layout, m: nat, allow: seq<Allow>, i: nat, sources: seq<Option<Sector>>,
                     answers: seq<bool>)
    requires CopiesFit(l, disk, m) && |sources| == |allow| == l.fats && Honest(allow, answers)
    ensures IsWriting(disk, z, l, m, disk.bytes, i, sources, answers, 0) && AskedOnce(sources, allow, allow, [], 0)
    ensures |answers| == l.fats
  {
    hide HasWritten, InFatSector;
    NothingWritten(Copies(z, l, disk.sectorSize, disk.bytes, m), i, sources, answers);
  }

  lemma EndWriting(disk: Disk, z: WordSize, l: Layout, m: nat, bytes: seq<byte>, i: nat, sources: seq<Option<Sector>>,
                   answers: seq<bool>)
    requires IsWriting(disk, z, l, m, bytes, i, sources, answers, l.fats) && |sources| == |answers| == l.fats
    ensures CopiesFit(l, disk, m) && |disk.bytes| == |bytes|
    ensures Copies(z, l, disk.sectorSize, disk.bytes, m)
            == WriteSources(Copies(z, l, disk.sectorSize, bytes, m), i, sources, answers, l.fats)
    ensures forall x :: 0 <= x < |disk.bytes| && !InFatSector(l, disk.sectorSize, m, x) ==> disk.bytes[x] == bytes[x]
  {
    hide InFatSector;
  }

  /** The copy a flush trusts: the last clean one, or the winner of the vote when both are clean and differ. */
  function GoodCopy(ok: seq<bool>, hist: seq<nat>, buffers: seq<Sector>, mismatch: bool, last: bool,
                    looksLikeFat: Sector -> bool): (good: nat)
    requires 1 <= |ok| == |hist| == |buffers| <= 2
    ensures good < |ok|
  {
    if |ok| == 1 then 0
    else if ok[0] && ok[1] then
      if mismatch then Trusted(hist, buffers, looksLikeFat, last) else 1
    else if ok[1] then 1 else 0
  }

  /** fat_history[k][FAT_OK] after the statuses of one sector have been counted. */
  function CountOk(ok: seq<bool>, hist: seq<nat>): (r: seq<nat>)
    requires |ok| == |hist|
    ensures |r| == |ok| && forall k :: 0 <= k < |ok| ==> r[k] == hist[k] + if ok[k] then 1 else 0
  {
    seq(|ok|, k requires 0 <= k < |ok| => hist[k] + if ok[k] then 1 else 0)
  }

  /** The statistics of one sector: the histories, the number of clean copies and the last clean one. */
  method CountStatuses(ok: seq<bool>, hist: seq<nat>) returns (hist': seq<nat>, nbrOk: nat, good: nat)
    requires 1 <= |ok| == |hist| <= 2
    ensures hist' == CountOk(ok, hist)
    ensures nbrOk == 0 <==> forall j :: 0 <= j < |ok| ==> !ok[j]
    ensures nbrOk > 1 <==> |ok| == 2 && ok[0] && ok[1]
    ensures good == if |ok| == 2 && ok[1] then 1 else 0
  {
    nbrOk, good, hist' := 0, 0, hist;
    for k := 0 to |ok|
      invariant |hist'| == |ok| && good < |ok| && nbrOk <= k
      invariant forall j :: 0 <= j < |ok| ==> hist'[j] == hist[j] + if j < k && ok[j] then 1 else 0
      invariant nbrOk == 0 <==> forall j :: 0 <= j < k ==> !ok[j]
      invariant nbrOk > 0 ==> good < k && ok[good] && forall j :: good < j < k ==> !ok[j]
      invariant nbrOk == 0 ==> good == 0
      invariant nbrOk > 1 <==> k == 2 && ok[0] && ok[1]
    {
      if ok[k] {
        nbrOk, good := nbrOk + 1, k;
        hist' := hist'[k := hist'[k] + 1];
      }
    }
    assert hist' == CountOk(ok, hist);
  }

  /** "Write if necessary": statistics, the choice of the good copy, and the writes. */
  method Flush(disk: Disk, p: Volume, l: Layout, i: nat, last: bool, buffers: seq<Sector>, ok: seq<bool>, mismatch: bool,
               hist: seq<nat>, allow: seq<Allow>, answers: seq<bool>, looksLikeFat: Sector -> bool, ghost m: nat)
    returns (hist': seq<nat>, allow': seq<Allow>, damaged: bool)
    requires 1 <= l.fats <= 2 && |buffers| == |ok| == |hist| == |allow| == l.fats && Honest(allow, answers)
    requires CopiesFit(l, disk, m) && (l.fats == 1 ==> !mismatch)
    requires !(mismatch || forall k :: 0 <= k < |ok| ==> !ok[k]) || i < m
    requires forall k :: 0 <= k < l.fats ==> Fits(p.z, buffers[k]) && |buffers[k]| * p.z.Bytes() == disk.sectorSize
    modifies disk`bytes
    ensures hist' == CountOk(ok, hist) && Honest(allow', answers)
    ensures damaged <==> mismatch || forall k :: 0 <= k < |ok| ==> !ok[k]
    ensures CopiesFit(l, disk, m) && |disk.bytes| == |old(disk.bytes)|
    ensures Copies(p.z, l, disk.sectorSize, disk.bytes, m)
            == WriteSources(old(Copies(p.z, l, disk.sectorSize, disk.bytes, m)), i,
                            Sources(buffers, ok, mismatch, GoodCopy(ok, hist', buffers, mismatch, last, looksLikeFat)),
                            answers, l.fats)
    ensures forall x :: 0 <= x < |disk.bytes| && !InFatSector(l, disk.sectorSize, m, x) ==>
              disk.bytes[x] == old(disk.bytes)[x]
  {
    hide Honest, Copies, WriteSources, CopiesFit, InFatSector, Fits;
    var nbrOk, good;
    hist', nbrOk, good := CountStatuses(ok, hist);
    if mismatch && nbrOk > 1 {
      if last {
        good := Better(hist', buffers, looksLikeFat, 0, good);
        if good != 1 {
          good := Better(hist', buffers, looksLikeFat, 1, good);
        }
      } else {
        good := Better(hist', buffers, looksLikeFat, 1, 0);
      }
    }
    var sources: seq<Option<Sector>>;
    if mismatch {
      damaged := true;
      if nbrOk >= 1 {
        sources := seq(l.fats, k requires 0 <= k < l.fats => if k != good then Some(buffers[good]) else None);
      } else {
        sources := seq(l.fats, k requires 0 <= k < l.fats => Some(buffers[k]));
      }
    } else if nbrOk == 0 {
      damaged := true;
      sources := seq(l.fats, k requires 0 <= k < l.fats => Some(buffers[k]));
    } else {
      damaged := false;
      sources := seq(l.fats, k requires 0 <= k < l.fats => None);
    }
    assert sources == Sources(buffers, ok, mismatch, GoodCopy(ok, hist', buffers, mismatch, last, looksLikeFat));
    var asked;
    allow', asked := WriteCopies(disk, p, l, i, sources, allow, answers, m);
  }
}
