/** The sliding two-block window that feeds a file to a data_check callback. */
module Carver {
  import opened Arith
  import opened Bytes
  import opened ChunkFormats

  // ----- reference: one pass over the zero-padded file -----

  /** The callbacks a carver can install in file_recovery->data_check. */
  datatype Checker = Chunks(fmt: Format) | Footer(footer: seq<byte>)

  datatype Verdict = Ended | Stopped | Rejected

  /** Outcome of a pass: calculated_file_size, why it ended, and the last header it looked at. */
  datatype Pass = Pass(size: nat, verdict: Verdict, header: nat)

  /** Follow headers from pos as long as a whole header lies strictly before `limit`. */
  ghost function Walk(fmt: Format, file: seq<byte>, pos: nat, limit: nat): Pass
    requires fmt.Valid()
    decreases limit - pos
  {
    if pos + fmt.headerLength >= limit then Pass(pos, Ended, pos)
    else
      match fmt.next(Window(file, pos, fmt.headerLength))
      case Advance(n) => Walk(fmt, file, pos + n, limit)
      case Stop(n) => Pass(pos + n, Stopped, pos)
      case StopBack => Pass(if pos > 0 then pos - 1 else 0, Stopped, pos)
      case Reject => Pass(pos, Rejected, pos)
  }

  const AXP_FOOTER: seq<byte> := [
    0x3C, 0, 0x2F, 0, 0x56, 0, 0x46, 0,
    0x4E, 0, 0x47, 0, 0x44, 0, 0x6F, 0,
    0x63, 0, 0x75, 0, 0x6D, 0, 0x65, 0,
    0x6E, 0, 0x74, 0, 0x3E, 0, 0x0D, 0,
    0x0A, 0
  ]

  /** A footer that cannot begin with padding. */
  ghost predicate ValidFooter(footer: seq<byte>) {
    0 < |footer| && footer[0] != 0
  }

  /** A footer ends at byte offset e of the zero-padded file. */
  ghost predicate FooterEndsAt(file: seq<byte>, footer: seq<byte>, e: int) {
    Window(file, e - |footer|, |footer|) == footer
  }

  /** Look for the first footer that ends at or after pos and not after limit. */
  ghost function FooterScan(file: seq<byte>, footer: seq<byte>, pos: nat, limit: nat): Pass
    decreases limit - pos
  {
    if FooterEndsAt(file, footer, pos) then Pass(pos, Stopped, pos)
    else if pos >= limit then Pass(pos, Ended, pos)
    else FooterScan(file, footer, pos + 1, limit)
  }

  ghost predicate ValidChecker(ck: Checker) {
    match ck
    case Chunks(fmt) => fmt.Valid()
    case Footer(footer) => ValidFooter(footer)
  }

  ghost function OnePass(ck: Checker, file: seq<byte>, pos: nat, limit: nat): Pass
    requires ValidChecker(ck)
  {
    match ck
    case Chunks(fmt) => Walk(fmt, file, pos, limit)
    case Footer(footer) => FooterScan(file, footer, pos, limit)
  }

  // ----- properties of the reference -----

  /** Stopping a walk at an earlier limit and resuming it is the same walk. */
  lemma {:induction false} WalkSplit(fmt: Format, file: seq<byte>, pos: nat, mid: nat, limit: nat)
    requires fmt.Valid()
    requires mid <= limit
    ensures var p := Walk(fmt, file, pos, mid);
            && p.header >= pos
            && (p.verdict.Ended? ==> p.size + fmt.headerLength >= mid
                                     && Walk(fmt, file, pos, limit) == Walk(fmt, file, p.size, limit))
            && (!p.verdict.Ended? ==> Walk(fmt, file, pos, limit) == p && p.header + fmt.headerLength < mid)
    decreases limit - pos
  {
    if pos + fmt.headerLength < mid {
      var s := fmt.next(Window(file, pos, fmt.headerLength));
      if s.Advance? {
        WalkSplit(fmt, file, pos + s.n, mid, limit);
      }
    }
  }

  lemma {:induction false} FooterSplit(file: seq<byte>, footer: seq<byte>, pos: nat, mid: nat, limit: nat)
    requires pos <= mid <= limit
    ensures var p := FooterScan(file, footer, pos, mid);
            && (p.verdict.Ended? ==> p.size == mid && FooterScan(file, footer, pos, limit) == FooterScan(file, footer, mid, limit))
            && (!p.verdict.Ended? ==> FooterScan(file, footer, pos, limit) == p && p.verdict.Stopped? && pos <= p.size <= mid)
    decreases mid - pos
  {
    if !FooterEndsAt(file, footer, pos) && pos < mid {
      FooterSplit(file, footer, pos + 1, mid, limit);
    }
  }

  /** The scan stops exactly at the first footer end in its range. */
  lemma {:induction false} FooterScanFindsFirst(file: seq<byte>, footer: seq<byte>, pos: nat, limit: nat)
    requires pos <= limit
    ensures var p := FooterScan(file, footer, pos, limit);
            && (p.verdict.Stopped? <==> exists e :: pos <= e <= limit && FooterEndsAt(file, footer, e))
            && (p.verdict.Stopped? ==> FooterEndsAt(file, footer, p.size) && pos <= p.size <= limit
                                       && forall e :: pos <= e < p.size ==> !FooterEndsAt(file, footer, e))
    decreases limit - pos
  {
    if !FooterEndsAt(file, footer, pos) && pos < limit {
      FooterScanFindsFirst(file, footer, pos + 1, limit);
    }
  }

  /** No footer can end inside its own length: it would begin in front of the file. */
  lemma FooterNeedsRoom(file: seq<byte>, footer: seq<byte>, e: int)
    requires ValidFooter(footer) && e < |footer|
    ensures !FooterEndsAt(file, footer, e)
  {
    assert Window(file, e - |footer|, |footer|)[0] == 0;
  }

  // ----- the state and the callbacks -----

  datatype DataCheckResult = DC_CONTINUE | DC_STOP

  /** The fields of file_recovery_t that the callbacks and the driver use. */
  class FileRecovery {
    var fileSize: nat
    var calculatedFileSize: nat
    var dataCheck: bool     // false models a NULL data_check pointer
    var fileCheck: bool     // false models a NULL file_check pointer
    const checker: Checker  // what data_check points to while it is not NULL

    constructor (checker: Checker, calculated: nat)
      ensures fileSize == 0 && calculatedFileSize == calculated && dataCheck && fileCheck && this.checker == checker
    {
      this.checker := checker;
      fileSize, calculatedFileSize, dataCheck, fileCheck := 0, calculated, true, true;
    }
  }

  /** The chunk walkers on one window; `file` is the file the window was cut from. */
  method DataCheckChunks(fmt: Format, buffer: seq<byte>, fr: FileRecovery, ghost file: seq<byte>)
    returns (res: DataCheckResult)
    requires fmt.Valid()
    requires |buffer| % 2 == 0
    requires buffer == Window(file, fr.fileSize - |buffer| / 2, |buffer|)
    modifies fr`calculatedFileSize, fr`dataCheck, fr`fileCheck
    ensures old(fr.calculatedFileSize) + |buffer| / 2 < fr.fileSize ==>
              res == DC_CONTINUE && unchanged(fr)
    ensures old(fr.calculatedFileSize) + |buffer| / 2 >= fr.fileSize ==>
              var p := Walk(fmt, file, old(fr.calculatedFileSize), fr.fileSize + |buffer| / 2);
              && fr.calculatedFileSize == p.size
              && (res == DC_CONTINUE <==> p.verdict.Ended?)
              && fr.dataCheck == (old(fr.dataCheck) && !p.verdict.Rejected?)
              && fr.fileCheck == (old(fr.fileCheck) && !p.verdict.Rejected?)
  {
    ghost var start, limit := fr.calculatedFileSize, fr.fileSize + |buffer| / 2;
    var h := fmt.headerLength;
    while fr.calculatedFileSize + |buffer| / 2 >= fr.fileSize && fr.calculatedFileSize + h < fr.fileSize + |buffer| / 2
      invariant fr.calculatedFileSize >= start
      invariant fr.calculatedFileSize == start || start + |buffer| / 2 >= fr.fileSize
      invariant Walk(fmt, file, start, limit) == Walk(fmt, file, fr.calculatedFileSize, limit)
      invariant fr.dataCheck == old(fr.dataCheck) && fr.fileCheck == old(fr.fileCheck)
      decreases limit - fr.calculatedFileSize
    {
      var i := fr.calculatedFileSize + |buffer| / 2 - fr.fileSize;
      assert buffer[i..i + h] == Window(file, fr.calculatedFileSize, h);
      match fmt.next(buffer[i..i + h]) {
        case Advance(n) =>
          fr.calculatedFileSize := fr.calculatedFileSize + n;
        case Stop(n) =>
          fr.calculatedFileSize := fr.calculatedFileSize + n;
          return DC_STOP;
        case StopBack =>
          if fr.calculatedFileSize > 0 {
            fr.calculatedFileSize := fr.calculatedFileSize - 1;
          }
          return DC_STOP;
        case Reject =>
          fr.dataCheck := false;
          fr.fileCheck := false;
          return DC_STOP;
      }
    }
    return DC_CONTINUE;
  }

  /** The AXP footer search on one window. */
  method DataCheckFooter(footer: seq<byte>, buffer: seq<byte>, fr: FileRecovery, ghost file: seq<byte>)
    returns (res: DataCheckResult)
    requires 0 < |footer|
    requires |buffer| % 2 == 0 && |buffer| >= 2 * |footer|
    requires buffer == Window(file, fr.fileSize - |buffer| / 2, |buffer|)
    requires fr.calculatedFileSize == fr.fileSize
    modifies fr`calculatedFileSize
    ensures var p := FooterScan(file, footer, fr.fileSize, fr.fileSize + |buffer| / 2);
            && fr.calculatedFileSize == p.size
            && (res == DC_CONTINUE <==> p.verdict.Ended?)
  {
    hide FooterScan, FooterEndsAt, Window;
    var n, half := |footer|, |buffer| / 2;
    var j := half - n;
    while j + n <= |buffer|
      invariant half <= j + n <= |buffer| + 1
      invariant forall k :: half - n <= k < j ==> !MatchesAt(buffer, footer, k)
    {
      if buffer[j] == footer[0] && buffer[j..j + n] == footer {
        FirstMatchInWindow(footer, buffer, file, fr.fileSize, j);
        fr.calculatedFileSize := fr.calculatedFileSize + j + n - half;
        return DC_STOP;
      }
      assert buffer[j] == buffer[j..j + n][0];
      j := j + 1;
    }
    FirstMatchInWindow(footer, buffer, file, fr.fileSize, j);
    fr.calculatedFileSize := fr.fileSize + half;
    return DC_CONTINUE;
  }

  predicate MatchesAt(buffer: seq<byte>, footer: seq<byte>, k: int) {
    0 <= k && k + |footer| <= |buffer| && buffer[k..k + |footer|] == footer
  }

  lemma MatchIsFooterEnd(footer: seq<byte>, buffer: seq<byte>, file: seq<byte>, from: int, k: nat)
    requires buffer == Window(file, from, |buffer|) && k + |footer| <= |buffer|
    ensures MatchesAt(buffer, footer, k) <==> FooterEndsAt(file, footer, from + k + |footer|)
  {
    assert buffer[k..k + |footer|] == Window(file, from + k, |footer|);
  }

  /** The first match in a window is where FooterScan stops; no match means that it ends. */
  lemma FirstMatchInWindow(footer: seq<byte>, buffer: seq<byte>, file: seq<byte>, fileSize: nat, j: nat)
    requires 0 < |footer| && |buffer| % 2 == 0 && |buffer| >= 2 * |footer|
    requires buffer == Window(file, fileSize - |buffer| / 2, |buffer|)
    requires |buffer| / 2 <= j + |footer| <= |buffer| + 1
    requires forall k :: |buffer| / 2 - |footer| <= k < j ==> !MatchesAt(buffer, footer, k)
    requires j + |footer| <= |buffer| ==> MatchesAt(buffer, footer, j)
    ensures var p := FooterScan(file, footer, fileSize, fileSize + |buffer| / 2);
            if j + |footer| <= |buffer| then p.verdict.Stopped? && p.size == fileSize + j + |footer| - |buffer| / 2
            else p.verdict.Ended? && p.size == fileSize + |buffer| / 2
  {
    hide Window, FooterEndsAt, MatchesAt;
    var n, limit := |footer|, fileSize + |buffer| / 2;
    var from := fileSize - |buffer| / 2;
    FooterScanFindsFirst(file, footer, fileSize, limit);
    FooterSplit(file, footer, fileSize, limit, limit);
    forall e | fileSize <= e < from + j + n
      ensures !FooterEndsAt(file, footer, e)
    {
      MatchIsFooterEnd(footer, buffer, file, from, e - from - n);
    }
    if j + n <= |buffer| {
      MatchIsFooterEnd(footer, buffer, file, from, j);
    }
  }

  // ----- the driver -----

  const READ_SIZE: nat := 524288

  /** An open file; reads succeed up to its end. */
  class Handle {
    const content: seq<byte>
    var pos: nat

    constructor (content: seq<byte>)
      ensures this.content == content && pos == 0
    {
      this.content, pos := content, 0;
    }

    /** fread: the bytes outside the filled range stay as they were. */
    method Fread(buffer: array<byte>, at: nat, n: nat) returns (lu: nat)
      requires at + n <= buffer.Length && pos <= |content|
      modifies this`pos, buffer
      ensures lu == Min(n, |content| - old(pos)) && pos == old(pos) + lu
      ensures buffer[at..at + lu] == content[old(pos)..pos]
      ensures forall j :: 0 <= j < buffer.Length && !(at <= j < at + lu) ==> buffer[j] == old(buffer[j])
    {
      lu := Min(n, |content| - pos);
      forall j | 0 <= j < lu {
        buffer[at + j] := content[pos + j];
      }
      pos := pos + lu;
    }
  }

  /** The end of the last window that the driver looks at. */
  function ScanLimit(length: nat, blocksize: nat): nat
    requires 0 < blocksize
  {
    RoundUp(Min(length, MAX_FILE_SIZE), blocksize)
  }

  /** Block sizes the walkers accept: they divide READ_SIZE and hold one header. */
  ghost predicate Admissible(ck: Checker, blocksize: nat) {
    && 0 < blocksize && Multiple(READ_SIZE, blocksize)
    && match ck
       case Chunks(fmt) => fmt.headerLength <= blocksize
       case Footer(footer) => |footer| <= blocksize
  }

  /** Where file_size stands when a pass stops at p: at the end of the window that held the decision. */
  ghost predicate StopsInWindow(ck: Checker, p: Pass, fileSize: nat, blocksize: nat)
    requires 0 < blocksize
  {
    && Multiple(fileSize, blocksize)
    && match ck
       case Chunks(fmt) => fileSize - blocksize <= p.header + fmt.headerLength < fileSize
       case Footer(_) => fileSize - blocksize < p.size <= fileSize
  }

  /** data_check_wrapper. */
  method DataCheckWrapper(buffer: seq<byte>, fr: FileRecovery, ghost file: seq<byte>) returns (res: DataCheckResult)
    requires ValidChecker(fr.checker)
    requires |buffer| % 2 == 0 && buffer == Window(file, fr.fileSize - |buffer| / 2, |buffer|)
    requires Ready(fr.checker, |buffer| / 2, fr.fileSize, fr.calculatedFileSize)
    modifies fr`calculatedFileSize, fr`dataCheck, fr`fileCheck
    ensures var p := OnePass(fr.checker, file, old(fr.calculatedFileSize), fr.fileSize + |buffer| / 2);
            && fr.calculatedFileSize == p.size
            && (res == DC_CONTINUE <==> p.verdict.Ended?)
            && fr.dataCheck == (old(fr.dataCheck) && !p.verdict.Rejected?)
            && fr.fileCheck == (old(fr.fileCheck) && !p.verdict.Rejected?)
  {
    match fr.checker {
      case Chunks(fmt) => res := DataCheckChunks(fmt, buffer, fr, file);
      case Footer(footer) =>
        FooterSplit(file, footer, fr.fileSize, fr.fileSize + |buffer| / 2, fr.fileSize + |buffer| / 2);
        res := DataCheckFooter(footer, buffer, fr, file);
    }
  }

  /** OnePass up to `mid` decides how OnePass up to `limit` goes on. */
  lemma PassSplit(ck: Checker, file: seq<byte>, pos: nat, mid: nat, limit: nat)
    requires ValidChecker(ck) && mid <= limit
    requires ck.Footer? ==> pos <= mid
    ensures var p := OnePass(ck, file, pos, mid);
            && (ck.Chunks? ==> p.header >= pos)
            && (ck.Chunks? && !p.verdict.Ended? ==> p.header + ck.fmt.headerLength < mid)
            && (p.verdict.Ended? ==> OnePass(ck, file, pos, limit) == OnePass(ck, file, p.size, limit))
            && (!p.verdict.Ended? ==> OnePass(ck, file, pos, limit) == p)
            && (p.verdict.Ended? ==> match ck
                                     case Chunks(fmt) => p.size + fmt.headerLength >= mid
                                     case Footer(_) => p.size == mid)
  {
    match ck
    case Chunks(fmt) => WalkSplit(fmt, file, pos, mid, limit);
    case Footer(footer) => FooterSplit(file, footer, pos, mid, limit);
  }

  /** A window that begins inside the scanned range also ends inside it. */
  lemma LimitFacts(length: nat, blocksize: nat, fileSize: nat)
    requires 0 < blocksize && Multiple(READ_SIZE, blocksize) && Multiple(fileSize, blocksize)
    ensures fileSize < Min(length, MAX_FILE_SIZE) ==> fileSize + blocksize <= ScanLimit(length, blocksize)
    ensures fileSize <= ScanLimit(length, blocksize) && Min(length, MAX_FILE_SIZE) <= fileSize ==>
              fileSize == ScanLimit(length, blocksize)
    ensures ScanLimit(length, blocksize) <= MAX_FILE_SIZE + 1
  {
    var x := Min(length, MAX_FILE_SIZE);
    var limit := ScanLimit(length, blocksize);
    RoundUpFacts(x, blocksize);
    if fileSize < x {
      MultiplesApart(fileSize, limit, blocksize);
    } else if fileSize < limit {
      MultiplesApart(fileSize, limit, blocksize);
    }
    MultipleIsMod(MAX_FILE_SIZE + 1, READ_SIZE);
    MultipleTransitive(MAX_FILE_SIZE + 1, READ_SIZE, blocksize);
    if MAX_FILE_SIZE + 1 < limit {
      MultiplesApart(MAX_FILE_SIZE + 1, limit, blocksize);
    }
  }

  /** The state between two windows: everything before fileSize has been walked. */
  ghost predicate Walked(ck: Checker, file: seq<byte>, start: nat, blocksize: nat, fileSize: nat, calculated: nat)
    requires ValidChecker(ck) && 0 < blocksize
  {
    var p := OnePass(ck, file, start, fileSize);
    && p.verdict.Ended? && p.size == calculated
    && Multiple(fileSize, blocksize)
    && fileSize <= ScanLimit(|file|, blocksize)
    && (fileSize == 0 || fileSize < MAX_FILE_SIZE)
    && (ck.Footer? ==> start == 0)
  }

  /** What a complete run leaves in file_recovery. */
  ghost predicate Carved(ck: Checker, file: seq<byte>, start: nat, blocksize: nat,
                         fileSize: nat, calculated: nat, callbacks: bool)
    requires ValidChecker(ck) && 0 < blocksize
  {
    var p := OnePass(ck, file, start, ScanLimit(|file|, blocksize));
    && calculated == p.size
    && callbacks == !p.verdict.Rejected?
    && (!p.verdict.Ended? ==> StopsInWindow(ck, p, fileSize, blocksize))
    && (p.verdict.Ended? && p.size < MAX_FILE_SIZE ==> fileSize == ScanLimit(|file|, blocksize))
  }

  lemma WalkedToTheEnd(ck: Checker, file: seq<byte>, start: nat, blocksize: nat, fileSize: nat, calculated: nat)
    requires ValidChecker(ck) && Admissible(ck, blocksize)
    requires Walked(ck, file, start, blocksize, fileSize, calculated) && |file| <= fileSize
    ensures Carved(ck, file, start, blocksize, fileSize, calculated, true)
  {
    LimitFacts(|file|, blocksize, fileSize);
  }

  lemma ReadyForWindow(ck: Checker, file: seq<byte>, start: nat, blocksize: nat, fileSize: nat, calculated: nat)
    requires ValidChecker(ck) && Admissible(ck, blocksize)
    requires Walked(ck, file, start, blocksize, fileSize, calculated)
    ensures Ready(ck, blocksize, fileSize, calculated)
  {
    PassSplit(ck, file, start, fileSize, fileSize);
  }

  /** Where OnePass stands after one more window. */
  lemma PassOneWindow(ck: Checker, file: seq<byte>, start: nat, blocksize: nat, fileSize: nat, calculated: nat)
    requires ValidChecker(ck) && Admissible(ck, blocksize)
    requires Walked(ck, file, start, blocksize, fileSize, calculated) && fileSize < |file|
    ensures var mid := fileSize + blocksize;
            var q := OnePass(ck, file, calculated, mid);
            && Multiple(mid, blocksize) && mid <= ScanLimit(|file|, blocksize)
            && OnePass(ck, file, start, mid) == q
            && (!q.verdict.Ended? ==> StopsInWindow(ck, q, mid, blocksize)
                                      && OnePass(ck, file, start, ScanLimit(|file|, blocksize)) == q)
  {
    hide FooterEndsAt, ValidChecker;
    var mid, limit := fileSize + blocksize, ScanLimit(|file|, blocksize);
    LimitFacts(|file|, blocksize, fileSize);
    PassSplit(ck, file, start, fileSize, mid);
    PassSplit(ck, file, start, mid, limit);
    PassSplit(ck, file, calculated, mid, limit);
    if ck.Footer? {
      FooterSplit(file, ck.footer, start, fileSize, fileSize);
      assert !FooterEndsAt(file, ck.footer, fileSize);
      FooterSplit(file, ck.footer, fileSize, mid, mid);
      FooterScanFindsFirst(file, ck.footer, fileSize, mid);
    }
  }

  /** One window: what the callback returns settles the run or lets it go on. */
  lemma WindowStep(ck: Checker, file: seq<byte>, start: nat, blocksize: nat, fileSize: nat, calculated: nat,
                   q: Pass, callbacks: bool)
    requires ValidChecker(ck) && Admissible(ck, blocksize)
    requires Walked(ck, file, start, blocksize, fileSize, calculated) && fileSize < |file|
    requires q == OnePass(ck, file, calculated, fileSize + blocksize) && callbacks == !q.verdict.Rejected?
    ensures var mid := fileSize + blocksize;
            if !q.verdict.Ended? || q.size >= MAX_FILE_SIZE || mid >= MAX_FILE_SIZE then
              Carved(ck, file, start, blocksize, mid, q.size, callbacks)
            else
              Walked(ck, file, start, blocksize, mid, q.size)
  {
    var mid, limit := fileSize + blocksize, ScanLimit(|file|, blocksize);
    PassOneWindow(ck, file, start, blocksize, fileSize, calculated);
    if q.verdict.Ended? {
      LimitFacts(|file|, blocksize, mid);
      PassSplit(ck, file, start, mid, limit);
    }
  }

  ghost predicate Ready(ck: Checker, blocksize: nat, fileSize: nat, calculated: nat) {
    match ck
    case Chunks(fmt) => calculated + blocksize >= fileSize
    case Footer(footer) => |footer| <= blocksize && calculated == fileSize
  }

  /** After a read the whole buffer shows the block before base and READ_SIZE bytes from it. */
  lemma BufferIsWindow(file: seq<byte>, base: nat, blocksize: nat, lu: nat, buffer: array<byte>)
    requires buffer.Length == blocksize + READ_SIZE && base + lu <= |file| && lu <= READ_SIZE
    requires lu < READ_SIZE ==> base + lu == |file|
    requires buffer[..blocksize] == Window(file, base - blocksize, blocksize)
    requires buffer[blocksize..blocksize + lu] == file[base..base + lu]
    requires forall j :: blocksize + lu <= j < buffer.Length ==> buffer[j] == 0
    ensures buffer[..] == Window(file, base - blocksize, blocksize + READ_SIZE)
  {
    forall j | 0 <= j < buffer.Length
      ensures buffer[j] == Padded(file, base - blocksize + j)
    {
      if j < blocksize {
        assert buffer[j] == buffer[..blocksize][j];
      } else if j < blocksize + lu {
        assert buffer[j] == buffer[blocksize..blocksize + lu][j - blocksize];
      }
    }
  }

  /** memset and fread behind the kept block: the buffer becomes one long window of the file. */
  method Refill(handle: Handle, blocksize: nat, bufferStart: array<byte>) returns (lu: nat)
    requires bufferStart.Length == blocksize + READ_SIZE && handle.pos <= |handle.content|
    requires bufferStart[..blocksize] == Window(handle.content, handle.pos - blocksize, blocksize)
    modifies handle`pos, bufferStart
    ensures lu == Min(READ_SIZE, |handle.content| - old(handle.pos)) && handle.pos == old(handle.pos) + lu
    ensures bufferStart[..] == Window(handle.content, old(handle.pos) - blocksize, blocksize + READ_SIZE)
  {
    ghost var base := handle.pos;
    forall j | blocksize <= j < bufferStart.Length {
      bufferStart[j] := 0;
    }
    assert bufferStart[..blocksize] == Window(handle.content, base - blocksize, blocksize);
    ghost var kept := bufferStart[..blocksize];
    lu := handle.Fread(bufferStart, blocksize, READ_SIZE);
    assert bufferStart[..blocksize] == kept;
    BufferIsWindow(handle.content, base, blocksize, lu, bufferStart);
  }

  /** The body of the inner loop of data_check_aux: one window, and whether the run is over. */
  method CheckWindow(fr: FileRecovery, buffer: seq<byte>, ghost file: seq<byte>, ghost start: nat)
    returns (res: DataCheckResult)
    requires |buffer| % 2 == 0 && buffer == Window(file, fr.fileSize - |buffer| / 2, |buffer|)
    requires ValidChecker(fr.checker) && Admissible(fr.checker, |buffer| / 2)
    requires fr.fileSize < |file|
    requires Walked(fr.checker, file, start, |buffer| / 2, fr.fileSize, fr.calculatedFileSize)
    requires fr.dataCheck && fr.fileCheck
    modifies fr
    ensures fr.dataCheck == fr.fileCheck && fr.fileSize == old(fr.fileSize) + |buffer| / 2
    ensures res == DC_STOP ==>
              Carved(fr.checker, file, start, |buffer| / 2, fr.fileSize, fr.calculatedFileSize, fr.dataCheck)
    ensures res == DC_CONTINUE ==>
              fr.dataCheck && Walked(fr.checker, file, start, |buffer| / 2, fr.fileSize, fr.calculatedFileSize)
  {
    var blocksize := |buffer| / 2;
    ReadyForWindow(fr.checker, file, start, blocksize, fr.fileSize, fr.calculatedFileSize);
    ghost var q := OnePass(fr.checker, file, fr.calculatedFileSize, fr.fileSize + blocksize);
    WindowStep(fr.checker, file, start, blocksize, fr.fileSize, fr.calculatedFileSize, q, !q.verdict.Rejected?);
    res := DataCheckWrapper(buffer, fr, file);
    fr.fileSize := fr.fileSize + blocksize;
    if res != DC_CONTINUE || !fr.dataCheck {
      return res;
    }
    if fr.calculatedFileSize >= MAX_FILE_SIZE || fr.fileSize >= MAX_FILE_SIZE {
      return DC_STOP;
    }
  }

  /** The inner loop of data_check_aux: every window that starts in the lu bytes just read. */
  method CheckWindows(fr: FileRecovery, blocksize: nat, lu: nat, buffer: seq<byte>, ghost file: seq<byte>, ghost start: nat)
    returns (res: DataCheckResult)
    requires ValidChecker(fr.checker) && Admissible(fr.checker, blocksize)
    requires 0 < lu <= READ_SIZE && fr.fileSize + lu <= |file|
    requires buffer == Window(file, fr.fileSize - blocksize, blocksize + READ_SIZE)
    requires Walked(fr.checker, file, start, blocksize, fr.fileSize, fr.calculatedFileSize)
    requires fr.dataCheck && fr.fileCheck
    modifies fr
    ensures fr.dataCheck == fr.fileCheck
    ensures res == DC_STOP ==>
              Carved(fr.checker, file, start, blocksize, fr.fileSize, fr.calculatedFileSize, fr.dataCheck)
    ensures res == DC_CONTINUE ==>
              && fr.dataCheck && fr.fileSize >= old(fr.fileSize) + lu
              && (lu == READ_SIZE ==> fr.fileSize == old(fr.fileSize) + lu)
              && Walked(fr.checker, file, start, blocksize, fr.fileSize, fr.calculatedFileSize)
  {
    hide Walked, Carved, ValidChecker, Window;
    ghost var base := fr.fileSize;
    var i := 0;
    while i < lu
      invariant 0 <= i <= READ_SIZE && Multiple(i, blocksize) && fr.fileSize == base + i
      invariant Walked(fr.checker, file, start, blocksize, fr.fileSize, fr.calculatedFileSize)
      invariant fr.dataCheck && fr.fileCheck
    {
      MultiplesApart(i, READ_SIZE, blocksize);
      SliceOfWindow(file, base - blocksize, |buffer|, i, 2 * blocksize);
      res := CheckWindow(fr, buffer[i..i + 2 * blocksize], file, start);
      if res == DC_STOP {
        return DC_STOP;
      }
      i := i + blocksize;
    }
    return DC_CONTINUE;
  }

  lemma SliceOfWindow(file: seq<byte>, from: int, len: nat, i: nat, n: nat)
    requires i + n <= len
    ensures Window(file, from, len)[i..i + n] == Window(file, from + i, n)
  {
  }

  /** data_check_aux: the window slides over the file, refilling the buffer READ_SIZE bytes at a time. */
  method DataCheckAux(fr: FileRecovery, handle: Handle, blocksize: nat, bufferStart: array<byte>)
    returns (res: DataCheckResult)
    requires ValidChecker(fr.checker) && Admissible(fr.checker, blocksize)
    requires bufferStart.Length == blocksize + READ_SIZE
    requires forall j :: 0 <= j < blocksize ==> bufferStart[j] == 0
    requires fr.dataCheck && fr.fileCheck && fr.fileSize == 0 && handle.pos == 0
    requires fr.checker.Footer? ==> fr.calculatedFileSize == 0
    modifies fr, handle, bufferStart
    ensures res == DC_STOP && fr.dataCheck == fr.fileCheck
    ensures Carved(fr.checker, handle.content, old(fr.calculatedFileSize), blocksize,
                   fr.fileSize, fr.calculatedFileSize, fr.dataCheck)
  {
    hide Walked, Carved, ValidChecker;
    ghost var file, start := handle.content, fr.calculatedFileSize;
    BeforeFirstWindow(fr.checker, file, start, blocksize);
    while true
      invariant fr.fileSize == handle.pos <= |file|
      invariant Walked(fr.checker, file, start, blocksize, fr.fileSize, fr.calculatedFileSize)
      invariant bufferStart[..blocksize] == Window(file, fr.fileSize - blocksize, blocksize)
      invariant fr.dataCheck && fr.fileCheck
      decreases |file| - handle.pos
    {
      ghost var base := fr.fileSize;
      var lu := Refill(handle, blocksize, bufferStart);
      if lu <= 0 {
        WalkedToTheEnd(fr.checker, file, start, blocksize, fr.fileSize, fr.calculatedFileSize);
        return DC_STOP;
      }
      res := CheckWindows(fr, blocksize, lu, bufferStart[..], file, start);
      if res == DC_STOP {
        return DC_STOP;
      }
      if lu != READ_SIZE {
        WalkedToTheEnd(fr.checker, file, start, blocksize, fr.fileSize, fr.calculatedFileSize);
        return DC_STOP;
      }
      KeepLastBlock(file, base, blocksize, bufferStart);
    }
  }

  /** memcpy of the last block to the front of the buffer. */
  method KeepLastBlock(ghost file: seq<byte>, ghost base: nat, blocksize: nat, bufferStart: array<byte>)
    requires bufferStart.Length == blocksize + READ_SIZE && blocksize <= READ_SIZE
    requires bufferStart[..] == Window(file, base - blocksize, blocksize + READ_SIZE)
    modifies bufferStart
    ensures bufferStart[..blocksize] == Window(file, base + READ_SIZE - blocksize, blocksize)
  {
    ghost var was := bufferStart[..];
    forall j | 0 <= j < blocksize {
      bufferStart[j] := bufferStart[READ_SIZE + j];
    }
    assert forall j :: 0 <= j < blocksize ==> bufferStart[..blocksize][j] == was[READ_SIZE + j];
  }

  lemma BeforeFirstWindow(ck: Checker, file: seq<byte>, start: nat, blocksize: nat)
    requires ValidChecker(ck) && 0 < blocksize && (ck.Footer? ==> start == 0)
    ensures Walked(ck, file, start, blocksize, 0, start)
  {
    if ck.Footer? { FooterNeedsRoom(file, ck.footer, 0); }
  }
}
