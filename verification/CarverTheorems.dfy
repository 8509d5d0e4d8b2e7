/** What a carved size means: block-size independence, round trips over encoded files, the identified size. */
module CarverTheorems {
  import opened Arith
  import opened Bytes
  import opened ChunkFormats
  import opened Carver

  // ----- block sizes -----

  /** The part of the file that every block size scans. */
  function CommonLimit(file: seq<byte>): nat {
    Min(|file|, MAX_FILE_SIZE)
  }

  /** A pass that stops before the end of the file is what the driver computes, whatever the block size. */
  lemma StopBeforeEndIsBlockSizeFree(ck: Checker, file: seq<byte>, start: nat, blocksize: nat)
    requires ValidChecker(ck) && Admissible(ck, blocksize)
    requires ck.Footer? ==> start <= CommonLimit(file)
    requires !OnePass(ck, file, start, CommonLimit(file)).verdict.Ended?
    ensures OnePass(ck, file, start, ScanLimit(|file|, blocksize)) == OnePass(ck, file, start, CommonLimit(file))
  {
    RoundUpFacts(CommonLimit(file), blocksize);
    PassSplit(ck, file, start, CommonLimit(file), ScanLimit(|file|, blocksize));
  }

  /** A format that never steps forward by a single byte. */
  ghost predicate AdvancesFar(fmt: Format)
    requires fmt.Valid()
  {
    forall h: seq<byte> | |h| == fmt.headerLength && fmt.next(h).Advance? :: fmt.next(h).n > 1
  }

  lemma FormatsAdvanceFar()
    ensures AdvancesFar(BLEND4_LE) && AdvancesFar(BLEND8_LE) && AdvancesFar(BLEND4_BE) && AdvancesFar(BLEND8_BE)
    ensures AdvancesFar(CAF) && AdvancesFar(ABR) && AdvancesFar(BAC) && AdvancesFar(ADDRESS_BOOK)
    ensures AdvancesFar(AMR) && AdvancesFar(BVR)
  {
  }

  /** Does the walk stop at a header at `pos` without changing the size? */
  ghost predicate Rests(fmt: Format, file: seq<byte>, pos: nat)
    requires fmt.Valid()
  {
    match fmt.next(Window(file, pos, fmt.headerLength))
    case Advance(_) => false
    case Stop(n) => n == 0
    case StopBack => pos == 0
    case Reject => true
  }

  /** A walk ends at most one byte in front of where it begins. */
  lemma {:induction false} WalkGoesForward(fmt: Format, file: seq<byte>, pos: nat, limit: nat)
    requires fmt.Valid()
    ensures Walk(fmt, file, pos, limit).size + 1 >= pos
    decreases limit - pos
  {
    if pos + fmt.headerLength < limit {
      var s := fmt.next(Window(file, pos, fmt.headerLength));
      if s.Advance? {
        WalkGoesForward(fmt, file, pos + s.n, limit);
      }
    }
  }

  /** A walk gets nowhere exactly if there is no room for a header or the header at hand ends it there. */
  lemma WalkStaysIff(fmt: Format, file: seq<byte>, pos: nat, limit: nat)
    requires fmt.Valid() && AdvancesFar(fmt)
    ensures Walk(fmt, file, pos, limit).size == pos <==> pos + fmt.headerLength >= limit || Rests(fmt, file, pos)
  {
    if pos + fmt.headerLength < limit {
      var s := fmt.next(Window(file, pos, fmt.headerLength));
      if s.Advance? {
        WalkGoesForward(fmt, file, pos + s.n, limit);
      }
    }
  }

  /** A pass that ended at `pos` stays there up to a later limit. */
  ghost predicate StaysPut(ck: Checker, file: seq<byte>, pos: nat, limit: nat)
    requires ValidChecker(ck)
  {
    match ck
    case Chunks(fmt) => pos + fmt.headerLength >= limit || Rests(fmt, file, pos)
    case Footer(_) => pos >= limit
  }

  /**
   * Two block sizes give the same size exactly if the pass up to the nearer limit does not run to its end, or it does
   * and stays there up to the farther one. They give the same verdict unless the rest of the pass meets a rejection.
   */
  lemma BlockSizesAgree(ck: Checker, file: seq<byte>, start: nat, bs1: nat, bs2: nat,
                        fileSize1: nat, calculated1: nat, callbacks1: bool,
                        fileSize2: nat, calculated2: nat, callbacks2: bool)
    requires ValidChecker(ck) && 0 < bs1 && 0 < bs2 && ScanLimit(|file|, bs1) <= ScanLimit(|file|, bs2)
    requires match ck case Chunks(fmt) => AdvancesFar(fmt) case Footer(_) => start <= ScanLimit(|file|, bs1)
    requires Carved(ck, file, start, bs1, fileSize1, calculated1, callbacks1)
    requires Carved(ck, file, start, bs2, fileSize2, calculated2, callbacks2)
    ensures var p := OnePass(ck, file, start, ScanLimit(|file|, bs1));
            var ends := p.verdict.Ended?;
            && (calculated1 == calculated2 <==> ends ==> StaysPut(ck, file, p.size, ScanLimit(|file|, bs2)))
            && (callbacks1 == callbacks2 <==>
                  ends ==> !OnePass(ck, file, p.size, ScanLimit(|file|, bs2)).verdict.Rejected?)
  {
    var near, far := ScanLimit(|file|, bs1), ScanLimit(|file|, bs2);
    PassSplit(ck, file, start, near, far);
    var p := OnePass(ck, file, start, near);
    if p.verdict.Ended? {
      match ck
      case Chunks(fmt) => WalkStaysIff(fmt, file, p.size, far);
      case Footer(footer) => FooterMovesOn(file, footer, start, near, far);
    }
  }

  /** A footer scan that ended at its limit goes beyond it with a later limit. */
  lemma FooterMovesOn(file: seq<byte>, footer: seq<byte>, start: nat, near: nat, far: nat)
    requires start <= near <= far && FooterScan(file, footer, start, near).verdict.Ended?
    ensures FooterScan(file, footer, near, far).size == near <==> near == far
  {
    FooterScanFindsFirst(file, footer, start, near);
    FooterSplit(file, footer, start, near, near);
    FooterSplit(file, footer, start, near, far);
    FooterScanFindsFirst(file, footer, near, far);
    FooterSplit(file, footer, near, far, far);
  }

  /**
   * Zeros behind the file stop these five walkers where they are: a walk that has passed the end of the file gives one
   * size for all block sizes. CAF and Blender walkers move on or back there.
   */
  lemma PaddingStops(file: seq<byte>, pos: nat)
    requires |file| <= pos
    ensures Rests(ABR, file, pos) && Rests(BAC, file, pos) && Rests(ADDRESS_BOOK, file, pos)
    ensures Rests(AMR, file, pos) && Rests(BVR, file, pos)
    ensures 0 < pos ==> !Rests(CAF, file, pos)
    ensures !Rests(BLEND4_LE, file, pos) && !Rests(BLEND8_LE, file, pos)
    ensures !Rests(BLEND4_BE, file, pos) && !Rests(BLEND8_BE, file, pos)
  {
    ZerosBehind(file, pos, 4);
    ZerosBehind(file, pos, 8);
    ZerosBehind(file, pos, 12);
    ZerosBehind(file, pos, 16);
    ZerosBehind(file, pos, 0x14);
    ZerosBehind(file, pos, 0x18);
    assert AmrNext(Zeros(4)) == Stop(0);
    assert Zeros(12)[..4][0] != BIM8[0] && Zeros(0x18)[12..16][0] != BB02[0] && Zeros(16)[..4][0] != BLUE[0];
    assert Zeros(0x14)[..4][0] != ENDB[0] && Zeros(0x18)[..4][0] != ENDB[0];
  }

  lemma ZerosBehind(file: seq<byte>, pos: nat, n: nat)
    requires |file| <= pos
    ensures Window(file, pos, n) == Zeros(n)
  {
  }

  const CAF_HEADER: seq<byte> := [0x63, 0x61, 0x66, 0x66, 0, 1, 0, 0]
  const DESC: seq<byte> := [0x64, 0x65, 0x73, 0x63]

  /** A CAF file of 505 bytes: its header, one description chunk that fills it, and nothing after it. */
  function TightCaf(): (file: seq<byte>)
    ensures |file| == 505
  {
    CAF_HEADER + CafChunk(DESC, seq<byte>(485, i => 1))
  }

  /** Such a file has another size with blocks of 512 bytes than with those of file_identify. */
  lemma PaddingCanChangeTheSize()
    ensures Admissible(Chunks(CAF), 512) && Admissible(Chunks(CAF), 65536)
    ensures OnePass(Chunks(CAF), TightCaf(), 8, ScanLimit(505, 512)).size == 505
    ensures OnePass(Chunks(CAF), TightCaf(), 8, ScanLimit(505, 65536)).size == 504
  {
    var file := TightCaf();
    MultipleIsMod(READ_SIZE, 512);
    MultipleIsMod(READ_SIZE, 65536);
    var h := Window(file, 8, 12);
    assert h[4..12] == EncodeBe64(485);
    DecodeBe64(485);
    assert CafNext(h) == Advance(497);
    var end := Window(file, 505, 12);
    assert CafNext(end) == StopBack;
    assert Walk(CAF, file, 505, 65536).size == 504;
    assert Walk(CAF, file, 505, 512).size == 505;
  }

  // ----- the AXP search -----

  lemma AxpFooterIsValid()
    ensures ValidFooter(AXP_FOOTER) && |AXP_FOOTER| == 34
  {
  }

  /** An AXP file is carved at the end of its first footer, or at the end of the last window if it has none. */
  lemma AxpFileIsCarved(file: seq<byte>, blocksize: nat, fileSize: nat, calculated: nat, callbacks: bool)
    requires Admissible(Footer(AXP_FOOTER), blocksize)
    requires Carved(Footer(AXP_FOOTER), file, 0, blocksize, fileSize, calculated, callbacks)
    ensures var limit := ScanLimit(|file|, blocksize);
            && callbacks
            && (forall e :: 0 <= e < calculated ==> !FooterEndsAt(file, AXP_FOOTER, e))
            && if exists e :: 0 <= e <= limit && FooterEndsAt(file, AXP_FOOTER, e)
               then 34 <= calculated <= limit && FooterEndsAt(file, AXP_FOOTER, calculated)
               else calculated == limit
  {
    var limit := ScanLimit(|file|, blocksize);
    AxpFooterIsValid();
    FooterScanFindsFirst(file, AXP_FOOTER, 0, limit);
    FooterSplit(file, AXP_FOOTER, 0, limit, limit);
    if calculated < 34 {
      FooterNeedsRoom(file, AXP_FOOTER, calculated);
    }
  }

  // ----- round trips -----

  /** A byte string that the walker steps over as one chunk. */
  ghost predicate IsChunk(fmt: Format, c: seq<byte>)
    requires fmt.Valid()
  {
    |c| >= fmt.headerLength && fmt.next(c[..fmt.headerLength]) == Advance(|c|)
  }

  function Flatten(chunks: seq<seq<byte>>): seq<byte> {
    if chunks == [] then [] else chunks[0] + Flatten(chunks[1..])
  }

  /** Walking over encoded chunks ends up exactly behind them. */
  lemma {:induction false} WalkOverChunks(fmt: Format, prefix: seq<byte>, chunks: seq<seq<byte>>, rest: seq<byte>, limit: nat)
    requires fmt.Valid()
    requires forall c :: c in chunks ==> IsChunk(fmt, c)
    requires |prefix + Flatten(chunks)| + fmt.headerLength < limit
    ensures var file := prefix + Flatten(chunks) + rest;
            Walk(fmt, file, |prefix|, limit) == Walk(fmt, file, |prefix + Flatten(chunks)|, limit)
    decreases |chunks|
  {
    if chunks != [] {
      var c, more := chunks[0], chunks[1..];
      var file := prefix + Flatten(chunks) + rest;
      assert IsChunk(fmt, c);
      assert Window(file, |prefix|, fmt.headerLength) == c[..fmt.headerLength];
      assert prefix + Flatten(chunks) == (prefix + c) + Flatten(more);
      WalkOverChunks(fmt, prefix + c, more, rest, limit);
    } else {
      assert prefix + Flatten(chunks) == prefix;
    }
  }

  /** Chunks, then a stop header with room behind it: the carved size is the end of the stop header's chunk. */
  lemma ChunkedFileIsCarved(fmt: Format, prefix: seq<byte>, chunks: seq<seq<byte>>, last: seq<byte>, rest: seq<byte>,
                            add: nat, blocksize: nat, fileSize: nat, calculated: nat, callbacks: bool)
    requires fmt.Valid() && Admissible(Chunks(fmt), blocksize)
    requires forall c :: c in chunks ==> IsChunk(fmt, c)
    requires |last| == fmt.headerLength && fmt.next(last) == Stop(add)
    requires rest != [] && |prefix + Flatten(chunks) + last + rest| <= MAX_FILE_SIZE
    requires Carved(Chunks(fmt), prefix + Flatten(chunks) + last + rest, |prefix|, blocksize,
                    fileSize, calculated, callbacks)
    ensures calculated == |prefix + Flatten(chunks)| + add && callbacks
  {
    var file := prefix + Flatten(chunks) + last + rest;
    var p := |prefix + Flatten(chunks)|;
    assert file == prefix + Flatten(chunks) + (last + rest);
    WalkOverChunks(fmt, prefix, chunks, last + rest, |file|);
    assert Window(file, p, fmt.headerLength) == last;
    assert Walk(fmt, file, p, |file|) == Pass(p + add, Stopped, p);
    StopBeforeEndIsBlockSizeFree(Chunks(fmt), file, |prefix|, blocksize);
  }

  function BlendBlock(littleEndian: bool, code: seq<byte>, extra: seq<byte>, payload: seq<byte>): seq<byte>
    requires |payload| < 0x1_0000_0000
  {
    code + (if littleEndian then EncodeLe32(|payload|) else EncodeBe32(|payload|)) + extra + payload
  }

  /** The walker of a byte order and a pointer width. */
  function BlendFormat(littleEndian: bool, wide: bool): Format {
    if littleEndian then (if wide then BLEND8_LE else BLEND4_LE) else (if wide then BLEND8_BE else BLEND4_BE)
  }

  /** What follows the length in the header: an old address, a type and a count. */
  function ExtraLength(wide: bool): nat {
    if wide then 16 else 12
  }

  /** A Blender block of either byte order and pointer width is stepped over exactly. */
  lemma BlendBlockIsChunk(littleEndian: bool, wide: bool, code: seq<byte>, extra: seq<byte>, payload: seq<byte>)
    requires |code| == 4 && code != ENDB && |extra| == ExtraLength(wide) && |payload| < 0x1_0000_0000
    ensures IsChunk(BlendFormat(littleEndian, wide), BlendBlock(littleEndian, code, extra, payload))
  {
    var b := BlendBlock(littleEndian, code, extra, payload);
    var size := if littleEndian then EncodeLe32(|payload|) else EncodeBe32(|payload|);
    var h := b[..8 + |extra|];
    assert h[..4] == code && h[4..8] == size;
    DecodeLe32(|payload|);
    DecodeBe32(|payload|);
    assert if littleEndian then BlendLeNext(h) == Advance(|b|) else BlendBeNext(h) == Advance(|b|);
  }

  function CafChunk(kind: seq<byte>, payload: seq<byte>): seq<byte>
    requires |payload| <= MAX_FILE_SIZE
  {
    kind + EncodeBe64(|payload|) + payload
  }

  lemma CafChunkIsChunk(kind: seq<byte>, payload: seq<byte>)
    requires |kind| == 4 && kind[0] != 0 && |payload| <= MAX_FILE_SIZE
    ensures IsChunk(CAF, CafChunk(kind, payload))
  {
    var h := CafChunk(kind, payload)[..12];
    assert h[4..12] == EncodeBe64(|payload|) && h[0] == kind[0];
    DecodeBe64(|payload|);
    assert CafNext(h) == Advance(|CafChunk(kind, payload)|);
  }

  function AbrBlock(info: seq<byte>, payload: seq<byte>): seq<byte>
    requires |payload| < 0x1_0000_0000
  {
    BIM8 + info + EncodeBe32(|payload|) + payload
  }

  lemma AbrBlockIsChunk(info: seq<byte>, payload: seq<byte>)
    requires |info| == 4 && |payload| < 0x1_0000_0000
    ensures IsChunk(ABR, AbrBlock(info, payload))
  {
    var h := AbrBlock(info, payload)[..12];
    assert h[..4] == BIM8 && h[8..12] == EncodeBe32(|payload|);
    DecodeBe32(|payload|);
    assert AbrNext(h) == Advance(|AbrBlock(info, payload)|);
  }

  /** A Bacula block: its length field counts the header as well. */
  function BacBlock(checksum: seq<byte>, number: seq<byte>, session: seq<byte>, payload: seq<byte>): seq<byte>
    requires 0x18 + |payload| < 0x1_0000_0000
  {
    checksum + EncodeBe32(0x18 + |payload|) + number + BB02 + session + payload
  }

  lemma BacBlockIsChunk(checksum: seq<byte>, number: seq<byte>, session: seq<byte>, payload: seq<byte>)
    requires |checksum| == 4 && |number| == 4 && |session| == 8 && 0x18 + |payload| < 0x1_0000_0000
    ensures IsChunk(BAC, BacBlock(checksum, number, session, payload))
  {
    var h := BacBlock(checksum, number, session, payload)[..0x18];
    assert h[4..8] == EncodeBe32(0x18 + |payload|) && h[12..16] == BB02;
    DecodeBe32(0x18 + |payload|);
    assert BacNext(h) == Advance(|BacBlock(checksum, number, session, payload)|);
  }

  function BvrBlock(extra: seq<byte>, payload: seq<byte>): seq<byte>
    requires |extra| == 24 && |payload| < 0x1_0000_0000
  {
    BLUE + extra[..8] + EncodeLe32(|payload|) + extra[8..] + payload
  }

  lemma BvrBlockIsChunk(extra: seq<byte>, payload: seq<byte>)
    requires |extra| == 24 && 0 < |payload| < 0x1_0000_0000
    ensures IsChunk(BVR, BvrBlock(extra, payload))
  {
    var h := BvrBlock(extra, payload)[..16];
    assert h[..4] == BLUE && h[12..16] == EncodeLe32(|payload|);
    DecodeLe32(|payload|);
    assert BvrNext(h) == Advance(|BvrBlock(extra, payload)|);
  }

  /** An address book record: its length field counts the header as well. */
  function AddressBookRecord(version: byte, payload: seq<byte>): seq<byte>
    requires 8 + |payload| < 0x1_0000_0000
  {
    [0x4C, 0x4A, version, 0] + EncodeBe32(8 + |payload|) + payload
  }

  lemma AddressBookRecordIsChunk(version: byte, payload: seq<byte>)
    requires 8 + |payload| < 0x1_0000_0000
    ensures IsChunk(ADDRESS_BOOK, AddressBookRecord(version, payload))
  {
    var h := AddressBookRecord(version, payload)[..8];
    assert h[0] == 0x4C && h[1] == 0x4A && h[3] == 0 && h[4..8] == EncodeBe32(8 + |payload|);
    DecodeBe32(8 + |payload|);
    assert AddressBookNext(h) == Advance(|AddressBookRecord(version, payload)|);
  }

  /** An AMR frame: its type and quality bit, and the speech data. */
  function AmrSpeech(frameType: nat, quality: bool, data: seq<byte>): seq<byte>
    requires frameType < 16
  {
    [(8 * frameType + if quality then 4 else 0) as byte] + data
  }

  /**
   * The walker takes the type of a frame modulo 8. A frame of the length that belongs to this type is stepped over exactly
   * if it does not begin with four zeros; one that does ends the walk.
   */
  lemma AmrSpeechIsChunkIff(frameType: nat, quality: bool, data: seq<byte>)
    requires frameType < 16 && |data| + 1 == AmrFrame(frameType % 8)
    ensures IsChunk(AMR, AmrSpeech(frameType, quality, data))
            <==> frameType != 0 || quality || data[..3] != [0, 0, 0]
  {
    var h := AmrSpeech(frameType, quality, data)[..4];
    var b := h[0];
    assert b / 128 == 0 && b % 4 == 0 && b / 8 == frameType;
    assert h[1..] == data[..3];
    assert h == [b] + data[..3];
    assert h == [0, 0, 0, 0] <==> b == 0 && data[..3] == [0, 0, 0];
  }

  /** A Blender file is carved at the end of its ENDB header, whatever its blocks, payloads and trailing data. */
  lemma BlendFileIsCarved(littleEndian: bool, wide: bool, prefix: seq<byte>, blocks: seq<(seq<byte>, seq<byte>, seq<byte>)>,
                          extra: seq<byte>, rest: seq<byte>, blocksize: nat,
                          fileSize: nat, calculated: nat, callbacks: bool)
    requires |prefix| == 12 && |extra| == ExtraLength(wide) && rest != []
    requires forall b :: b in blocks ==>
               |b.0| == 4 && b.0 != ENDB && |b.1| == ExtraLength(wide) && |b.2| < 0x1_0000_0000
    requires blocksize > 0 && Multiple(READ_SIZE, blocksize) && blocksize >= 8 + ExtraLength(wide)
    requires var file := prefix + Flatten(BlendBlocks(littleEndian, blocks)) + BlendBlock(littleEndian, ENDB, extra, []) + rest;
             && |file| <= MAX_FILE_SIZE
             && Carved(Chunks(BlendFormat(littleEndian, wide)), file, 12, blocksize, fileSize, calculated, callbacks)
    ensures calculated == |prefix + Flatten(BlendBlocks(littleEndian, blocks)) + BlendBlock(littleEndian, ENDB, extra, [])|
    ensures callbacks
  {
    var fmt := BlendFormat(littleEndian, wide);
    var chunks := BlendBlocks(littleEndian, blocks);
    var last := BlendBlock(littleEndian, ENDB, extra, []);
    forall c | c in chunks ensures IsChunk(fmt, c) {
      var i :| 0 <= i < |blocks| && c == chunks[i];
      BlendBlockIsChunk(littleEndian, wide, blocks[i].0, blocks[i].1, blocks[i].2);
    }
    assert last[..4] == ENDB;
    assert fmt.next(last) == Stop(|last|);
    ChunkedFileIsCarved(fmt, prefix, chunks, last, rest, |last|, blocksize, fileSize, calculated, callbacks);
  }

  function BlendBlocks(littleEndian: bool, blocks: seq<(seq<byte>, seq<byte>, seq<byte>)>): (chunks: seq<seq<byte>>)
    requires forall b :: b in blocks ==> |b.2| < 0x1_0000_0000
    ensures |chunks| == |blocks|
    ensures forall i :: 0 <= i < |blocks| ==>
              chunks[i] == BlendBlock(littleEndian, blocks[i].0, blocks[i].1, blocks[i].2)
  {
    seq(|blocks|, i requires 0 <= i < |blocks| => BlendBlock(littleEndian, blocks[i].0, blocks[i].1, blocks[i].2))
  }

  // ----- the size that file_identify reports -----

  /** data_check: guard, rewind, fresh zeroed buffer, run. */
  method DataCheck(fr: FileRecovery, handle: Handle, blocksize: nat) returns (res: DataCheckResult)
    requires ValidChecker(fr.checker) && Admissible(fr.checker, blocksize)
    requires fr.dataCheck && fr.fileCheck && fr.fileSize == 0
    requires fr.checker.Footer? ==> fr.calculatedFileSize == 0
    modifies fr, handle
    ensures res == DC_STOP && fr.dataCheck == fr.fileCheck
    ensures old(fr.calculatedFileSize) >= MAX_FILE_SIZE ==> unchanged(fr)
    ensures old(fr.calculatedFileSize) < MAX_FILE_SIZE ==>
              Carved(fr.checker, handle.content, old(fr.calculatedFileSize), blocksize,
                     fr.fileSize, fr.calculatedFileSize, fr.dataCheck)
  {
    if fr.calculatedFileSize >= MAX_FILE_SIZE {
      return DC_STOP;
    }
    handle.pos := 0;
    var bufferStart := new byte[blocksize + READ_SIZE](_ => 0);
    res := DataCheckAux(fr, handle, blocksize, bufferStart);
  }

  /** The end of the window in which a header at p is examined. */
  function DecidingWindow(header: nat, headerLength: nat, blocksize: nat): nat
    requires 0 < blocksize
  {
    RoundUp(header + headerLength + 1, blocksize)
  }

  /** The chunk walkers' carved size survives file_check_size exactly when it fits the file and the last window. */
  ghost predicate SizeIsKept(fmt: Format, file: seq<byte>, p: Pass, blocksize: nat)
    requires 0 < blocksize
  {
    && p.size <= |file|
    && (p.verdict.Stopped? ==> p.size <= DecidingWindow(p.header, fmt.headerLength, blocksize))
  }

  lemma {:induction false} RoundUpUnique(x: nat, unit: nat, m: nat)
    requires 0 < unit && Multiple(m, unit) && m - unit < x <= m
    ensures RoundUp(x, unit) == m
  {
    RoundUpFacts(x, unit);
    if m < RoundUp(x, unit) {
      MultiplesApart(m, RoundUp(x, unit), unit);
    } else if RoundUp(x, unit) < m {
      MultiplesApart(RoundUp(x, unit), m, unit);
    }
  }

  /** file_identify after header_check: run the walker, clip to the file, file_check_size, minimum size. */
  method IdentifySize(fr: FileRecovery, handle: Handle, blocksize: nat, minFileSize: nat)
    requires ValidChecker(fr.checker) && Admissible(fr.checker, blocksize) && fr.checker.Chunks?
    requires fr.dataCheck && fr.fileCheck && fr.fileSize == 0
    requires fr.calculatedFileSize < MAX_FILE_SIZE && |handle.content| < MAX_FILE_SIZE
    modifies fr, handle
    ensures var p := OnePass(fr.checker, handle.content, old(fr.calculatedFileSize),
                             ScanLimit(|handle.content|, blocksize));
            var size := if p.verdict.Rejected? then |handle.content|
                        else if SizeIsKept(fr.checker.fmt, handle.content, p, blocksize) then p.size else 0;
            fr.fileSize == if size < minFileSize then 0 else size
  {
    hide OnePass, ValidChecker;
    var fileSize := |handle.content|;
    ghost var ck, file, start := fr.checker, handle.content, fr.calculatedFileSize;
    ghost var p := OnePass(ck, file, start, ScanLimit(|file|, blocksize));
    if fileSize > 0 {
      var _ := DataCheck(fr, handle, blocksize);
      RoundUpFacts(|file|, blocksize);
      if p.verdict.Stopped? {
        RoundUpUnique(p.header + ck.fmt.headerLength + 1, blocksize, fr.fileSize);
      }
      if fr.fileSize > fileSize {
        fr.fileSize := fileSize;
      }
      if !fr.dataCheck {
        fr.fileSize := fileSize;
        fr.calculatedFileSize := fr.fileSize;
      }
      if fr.fileSize > 0 && fr.fileCheck {
        FileCheckSize(fr);
      }
    }
    if fr.fileSize < minFileSize {
      fr.fileSize := 0;
    }
  }

  method FileCheckSize(fr: FileRecovery)
    modifies fr`fileSize
    ensures fr.fileSize == if old(fr.fileSize) < fr.calculatedFileSize then 0 else fr.calculatedFileSize
  {
    if fr.fileSize < fr.calculatedFileSize {
      fr.fileSize := 0;
    } else {
      fr.fileSize := fr.calculatedFileSize;
    }
  }

  /** Formats whose stop adds no more than the header keep every carved size that fits the file. */
  lemma TightStopsKeepTheSize(fmt: Format, file: seq<byte>, start: nat, blocksize: nat)
    requires fmt.Valid() && 0 < blocksize
    requires forall h: seq<byte> | |h| == fmt.headerLength && fmt.next(h).Stop? :: fmt.next(h).add <= fmt.headerLength
    ensures var p := Walk(fmt, file, start, ScanLimit(|file|, blocksize));
            SizeIsKept(fmt, file, p, blocksize) <==> p.size <= |file|
  {
    var limit := ScanLimit(|file|, blocksize);
    var p := Walk(fmt, file, start, limit);
    StopAddsToHeader(fmt, file, start, limit);
    RoundUpFacts(p.header + fmt.headerLength + 1, blocksize);
  }

  lemma {:induction false} StopAddsToHeader(fmt: Format, file: seq<byte>, pos: nat, limit: nat)
    requires fmt.Valid()
    ensures var p := Walk(fmt, file, pos, limit);
            p.verdict.Stopped? ==>
              var s := fmt.next(Window(file, p.header, fmt.headerLength));
              (s == StopBack && p.size <= p.header) || (s.Stop? && p.size == p.header + s.add)
    decreases limit - pos
  {
    if pos + fmt.headerLength < limit {
      var s := fmt.next(Window(file, pos, fmt.headerLength));
      if s.Advance? {
        StopAddsToHeader(fmt, file, pos + s.n, limit);
      }
    }
  }

  const BVR_START: seq<byte> := [0x20, 0, 0x10, 0]  // what follows BLUE at the beginning of a file

  function BvrFirstBlock(): (block: seq<byte>)
    ensures |block| == 65510
  {
    BvrBlock(BVR_START + seq<byte>(20, i => 7), seq<byte>(65478, i => 7))
  }

  /** A DVR file whose empty last block begins shortly in front of the end of the first block of file_identify. */
  function BvrSample(): (file: seq<byte>)
    ensures |file| == 65626
  {
    BvrFirstBlock() + (BLUE + seq<byte>(112, i => 0))
  }

  /** The BVR stop adds 0x20 behind a 16-byte header: file_identify, with its 65536-byte blocks, reports this file as empty. */
  lemma BvrSizeCanBeLost()
    ensures BvrSample()[..8] == BLUE + BVR_START && Admissible(Chunks(BVR), 65536)
    ensures var p := Walk(BVR, BvrSample(), 0, ScanLimit(65626, 65536));
            p == Pass(65542, Stopped, 65510) && !SizeIsKept(BVR, BvrSample(), p, 65536)
  {
    MultipleIsMod(READ_SIZE, 65536);
    MultipleIsMod(131072, 65536);
    RoundUpUnique(65626, 65536, 131072);
    RoundUpUnique(65527, 65536, 65536);
    BvrSampleWalk(131072);
  }

  lemma BvrSampleWalk(limit: nat)
    requires 65526 < limit
    ensures Walk(BVR, BvrSample(), 0, limit) == Pass(65542, Stopped, 65510)
  {
    var block, rest := BvrFirstBlock(), BLUE + seq<byte>(112, i => 0);
    BvrBlockIsChunk(BVR_START + seq<byte>(20, i => 7), seq<byte>(65478, i => 7));
    assert [] + Flatten([block]) == block;
    assert BvrSample() == [] + Flatten([block]) + rest;
    WalkOverChunks(BVR, [], [block], rest, limit);
    BvrSampleHeader();
  }

  lemma BvrSampleHeader()
    ensures BvrNext(Window(BvrSample(), 65510, 16)) == Stop(0x20)
  {
    var h := Window(BvrSample(), 65510, 16);
    assert h[..4] == BLUE && h[12..16] == [0, 0, 0, 0];
  }

  /** When the size of a file with such a stop is kept: the file, and the window that decides, reach 0x20 bytes behind the header. */
  lemma BvrSizeIsKeptIff(file: seq<byte>, blocksize: nat)
    requires 0 < blocksize
    ensures var p := Walk(BVR, file, 0, ScanLimit(|file|, blocksize));
            p.verdict.Stopped? && p.size == p.header + 0x20 ==>
              (SizeIsKept(BVR, file, p, blocksize) <==>
               p.header + 0x20 <= |file| && Mod(p.header + 0x10, blocksize) + 0x10 <= blocksize)
  {
    var p := Walk(BVR, file, 0, ScanLimit(|file|, blocksize));
    RoundUpIsMod(p.header + 0x10, blocksize);
  }

  lemma {:induction false} RoundUpIsMod(x: nat, unit: nat)
    requires 0 < unit
    ensures RoundUp(x + 1, unit) == x - Mod(x, unit) + unit
  {
    if x >= unit {
      RoundUpIsMod(x - unit, unit);
    }
  }
}
