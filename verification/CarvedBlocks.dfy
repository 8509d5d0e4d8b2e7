/** Which headers a chunk walker goes on at, and the files that are carved from their blocks. */
module CarvedBlocks {
  import opened Arith
  import opened Bytes
  import opened ChunkFormats
  import opened Carver
  import opened CarverTheorems
  import opened Seqs

  // ----- constants -----

  predicate Spells(bytes: seq<byte>, text: string) {
    |bytes| == |text| && forall i :: 0 <= i < |text| ==> bytes[i] == text[i] as int
  }

  /** The marks of the formats as text, and the limit of two tebibytes. */
  lemma MarksAreText()
    ensures Spells(ENDB, "ENDB") && Spells(BIM8, "8BIM") && Spells(BB02, "BB02") && Spells(BLUE, "BLUE")
    ensures Spells(CAF_HEADER[..4], "caff") && Spells(DESC, "desc")
    ensures MAX_FILE_SIZE + 1 == 2 * 1024 * 1024 * 1024 * 1024
  {
  }

  /** The closing tag of an AXP file and its line end, in little-endian code units of 16 bits. */
  lemma FooterIsText()
    ensures |AXP_FOOTER| == 34
    ensures var f := AXP_FOOTER;
            && Spells([f[0], f[2], f[4], f[6], f[8], f[10], f[12], f[14], f[16]], "</VFNGDoc")
            && Spells([f[18], f[20], f[22], f[24], f[26], f[28], f[30], f[32]], "ument>\r\n")
    ensures forall i :: 0 <= i < 17 ==> AXP_FOOTER[2 * i + 1] == 0
  {
  }

  /** Speech bits of the AMR frame types 0 to 7: RFC 3267, section 5, and 3GPP TS 26.101, table 1. */
  const SPEECH_BITS: seq<nat> := [95, 103, 118, 134, 148, 159, 204, 244]

  /** A frame is one header byte and the speech bits, filled up to whole bytes. */
  lemma AmrFrameHoldsSpeech(frameType: nat)
    requires frameType < 8
    ensures 8 * (AmrFrame(frameType) - 1) >= SPEECH_BITS[frameType] > 8 * (AmrFrame(frameType) - 2)
  {
  }

  // ----- blocks -----

  /** The encoded files that the walkers follow. */
  datatype Encoding =
    | AbrBlocks | BacBlocks | AddressBookRecords | AmrFrames | BvrBlocks | CafChunks
    | BlenderBlocks(littleEndian: bool, wide: bool)
  {
    function Walker(): (fmt: Format)
      ensures fmt.Valid()
    {
      match this
      case AbrBlocks => ABR
      case BacBlocks => BAC
      case AddressBookRecords => ADDRESS_BOOK
      case AmrFrames => AMR
      case BvrBlocks => BVR
      case CafChunks => CAF
      case BlenderBlocks(littleEndian, wide) => BlendFormat(littleEndian, wide)
    }
  }

  ghost predicate IsAbrBlock(c: seq<byte>) {
    exists info: seq<byte>, payload: seq<byte> :: |info| == 4 && |payload| < 0x1_0000_0000 && c == AbrBlock(info, payload)
  }

  ghost predicate IsBacBlock(c: seq<byte>) {
    exists checksum: seq<byte>, number: seq<byte>, session: seq<byte>, payload: seq<byte> ::
      |checksum| == 4 && |number| == 4 && |session| == 8 && 0x18 + |payload| < 0x1_0000_0000
      && c == BacBlock(checksum, number, session, payload)
  }

  ghost predicate IsAddressBookRecord(c: seq<byte>) {
    exists version: byte, payload: seq<byte> :: 8 + |payload| < 0x1_0000_0000 && c == AddressBookRecord(version, payload)
  }

  /** A frame that does not begin with four zeros, with the length that belongs to its type modulo 8. */
  ghost predicate IsAmrFrame(c: seq<byte>) {
    exists frameType: nat, quality: bool, data: seq<byte> ::
      frameType < 16 && |data| + 1 == AmrFrame(frameType % 8) && c == AmrSpeech(frameType, quality, data)
      && c[..4] != [0, 0, 0, 0]
  }

  ghost predicate IsBvrBlock(c: seq<byte>) {
    exists extra: seq<byte>, payload: seq<byte> ::
      |extra| == 24 && 0 < |payload| < 0x1_0000_0000 && c == BvrBlock(extra, payload)
  }

  ghost predicate IsCafChunk(c: seq<byte>) {
    exists kind: seq<byte>, payload: seq<byte> ::
      |kind| == 4 && kind[0] != 0 && |payload| <= MAX_FILE_SIZE && c == CafChunk(kind, payload)
  }

  ghost predicate IsBlenderBlock(littleEndian: bool, wide: bool, c: seq<byte>) {
    exists code: seq<byte>, extra: seq<byte>, payload: seq<byte> ::
      |code| == 4 && code != ENDB && |extra| == ExtraLength(wide) && |payload| < 0x1_0000_0000
      && c == BlendBlock(littleEndian, code, extra, payload)
  }

  ghost predicate IsBlock(e: Encoding, c: seq<byte>) {
    match e
    case AbrBlocks => IsAbrBlock(c)
    case BacBlocks => IsBacBlock(c)
    case AddressBookRecords => IsAddressBookRecord(c)
    case AmrFrames => IsAmrFrame(c)
    case BvrBlocks => IsBvrBlock(c)
    case CafChunks => IsCafChunk(c)
    case BlenderBlocks(littleEndian, wide) => IsBlenderBlock(littleEndian, wide, c)
  }

  /** Is this the header of a block? */
  ghost predicate BeginsBlock(e: Encoding, h: seq<byte>) {
    exists c: seq<byte> :: IsBlock(e, c) && |h| <= |c| && h == c[..|h|]
  }

  /** Every block is stepped over exactly. */
  lemma BlockIsChunk(e: Encoding, c: seq<byte>)
    requires IsBlock(e, c)
    ensures IsChunk(e.Walker(), c)
  {
    match e
    case AbrBlocks =>
      var info: seq<byte>, payload: seq<byte> :|
        |info| == 4 && |payload| < 0x1_0000_0000 && c == AbrBlock(info, payload);
      AbrBlockIsChunk(info, payload);
    case BacBlocks =>
      var checksum: seq<byte>, number: seq<byte>, session: seq<byte>, payload: seq<byte> :|
        |checksum| == 4 && |number| == 4 && |session| == 8 && 0x18 + |payload| < 0x1_0000_0000
        && c == BacBlock(checksum, number, session, payload);
      BacBlockIsChunk(checksum, number, session, payload);
    case AddressBookRecords =>
      var version: byte, payload: seq<byte> :| 8 + |payload| < 0x1_0000_0000 && c == AddressBookRecord(version, payload);
      AddressBookRecordIsChunk(version, payload);
    case AmrFrames =>
      var frameType: nat, quality: bool, data: seq<byte> :|
        frameType < 16 && |data| + 1 == AmrFrame(frameType % 8) && c == AmrSpeech(frameType, quality, data)
        && c[..4] != [0, 0, 0, 0];
      AmrSpeechIsChunkIff(frameType, quality, data);
      AmrZeros(frameType, quality, data);
    case BvrBlocks =>
      var extra: seq<byte>, payload: seq<byte> :|
        |extra| == 24 && 0 < |payload| < 0x1_0000_0000 && c == BvrBlock(extra, payload);
      BvrBlockIsChunk(extra, payload);
    case CafChunks =>
      var kind: seq<byte>, payload: seq<byte> :|
        |kind| == 4 && kind[0] != 0 && |payload| <= MAX_FILE_SIZE && c == CafChunk(kind, payload);
      CafChunkIsChunk(kind, payload);
    case BlenderBlocks(littleEndian, wide) =>
      var code: seq<byte>, extra: seq<byte>, payload: seq<byte> :|
        |code| == 4 && code != ENDB && |extra| == ExtraLength(wide) && |payload| < 0x1_0000_0000
        && c == BlendBlock(littleEndian, code, extra, payload);
      BlendBlockIsChunk(littleEndian, wide, code, extra, payload);
  }

  lemma AmrZeros(frameType: nat, quality: bool, data: seq<byte>)
    requires frameType < 16 && 3 <= |data| && AmrSpeech(frameType, quality, data)[..4] != [0, 0, 0, 0]
    ensures frameType != 0 || quality || data[..3] != [0, 0, 0]
  {
    assert AmrSpeech(0, false, data)[..4] == [0] + data[..3];
  }

  // ----- where a walk goes on -----

  lemma EncodeLe16Of(raw: seq<byte>)
    requires |raw| == 2
    ensures Le16(raw) < 0x1_0000 && EncodeLe16(Le16(raw)) == raw
  {
  }

  lemma EncodeBe16Of(raw: seq<byte>)
    requires |raw| == 2
    ensures Be16(raw) < 0x1_0000 && EncodeBe16(Be16(raw)) == raw
  {
  }

  lemma Halves(hi: nat, lo: nat, unit: nat)
    requires 0 < unit && hi < unit && lo < unit
    ensures (unit * hi + lo) / unit == hi && (unit * hi + lo) % unit == lo && unit * hi + lo < unit * unit
  {
    DivModUnique(unit * hi + lo, unit, hi, lo);
    MulMonotone(unit, hi, unit);
  }

  lemma EncodeLe32Of(raw: seq<byte>)
    requires |raw| == 4
    ensures Le32(raw) < 0x1_0000_0000 && EncodeLe32(Le32(raw)) == raw
  {
    hide Le16, EncodeLe16;
    EncodeLe16Of(raw[..2]);
    EncodeLe16Of(raw[2..]);
    Halves(Le16(raw[2..]), Le16(raw[..2]), 0x1_0000);
  }

  lemma EncodeBe32Of(raw: seq<byte>)
    requires |raw| == 4
    ensures Be32(raw) < 0x1_0000_0000 && EncodeBe32(Be32(raw)) == raw
  {
    hide Be16, EncodeBe16;
    EncodeBe16Of(raw[..2]);
    EncodeBe16Of(raw[2..]);
    Halves(Be16(raw[..2]), Be16(raw[2..]), 0x1_0000);
  }

  lemma EncodeBe64Of(raw: seq<byte>)
    requires |raw| == 8
    ensures Be64(raw) < 0x1_0000_0000_0000_0000 && EncodeBe64(Be64(raw)) == raw
  {
    hide Be32, EncodeBe32;
    EncodeBe32Of(raw[..4]);
    EncodeBe32Of(raw[4..]);
    Halves(Be32(raw[..4]), Be32(raw[4..]), 0x1_0000_0000);
  }

  lemma Regroup(h: seq<byte>, a: nat, b: nat, c: nat)
    requires a <= b <= c <= |h|
    ensures h[..a] + h[a..b] == h[..b] && h[..b] + h[b..c] == h[..c]
    ensures c == |h| ==> h[..c] == h && h[b..c] == h[b..]
  {
  }

  /** A header at which a walker goes on is the beginning of a block. */
  lemma AdvanceBeginsBlock(e: Encoding, h: seq<byte>)
    requires |h| == e.Walker().headerLength && e.Walker().next(h).Advance?
    ensures BeginsBlock(e, h)
  {
    match e
    case AbrBlocks => AbrBlockOf(h);
    case BacBlocks => BacBlockOf(h);
    case AddressBookRecords => AddressBookRecordOf(h);
    case AmrFrames => AmrFrameOf(h);
    case BvrBlocks => BvrBlockOf(h);
    case CafChunks => CafChunkOf(h);
    case BlenderBlocks(littleEndian, wide) => BlenderBlockOf(littleEndian, wide, h);
  }

  lemma AbrBlockOf(h: seq<byte>)
    requires |h| == 12 && AbrNext(h).Advance?
    ensures BeginsBlock(AbrBlocks, h)
  {
    hide Be32, Le32, EncodeBe32, EncodeLe32;
    EncodeBe32Of(h[8..12]);
    var payload := Zeros(Be32(h[8..12]));
    var c := AbrBlock(h[4..8], payload);
    Regroup(h, 4, 8, 12);
    assert c == h + payload;
    assert IsAbrBlock(c);
    assert IsBlock(AbrBlocks, c);
  }

  lemma BacBlockOf(h: seq<byte>)
    requires |h| == 0x18 && BacNext(h).Advance?
    ensures BeginsBlock(BacBlocks, h)
  {
    hide Be32, Le32, EncodeBe32, EncodeLe32;
    EncodeBe32Of(h[4..8]);
    var payload := Zeros(Be32(h[4..8]) - 0x18);
    var c := BacBlock(h[..4], h[8..12], h[16..], payload);
    Regroup(h, 4, 8, 12);
    Regroup(h, 12, 16, 0x18);
    assert c == h + payload;
    assert IsBacBlock(c);
    assert IsBlock(BacBlocks, c);
  }

  lemma AddressBookRecordOf(h: seq<byte>)
    requires |h| == 8 && AddressBookNext(h).Advance?
    ensures BeginsBlock(AddressBookRecords, h)
  {
    EncodeBe32Of(h[4..8]);
    var c := AddressBookRecord(h[2], Zeros(Be32(h[4..8]) - 8));
    assert IsAddressBookRecord(c) && c[..8] == h[..4] + h[4..8] == h;
    assert IsBlock(AddressBookRecords, c);
  }

  lemma AmrFrameOf(h: seq<byte>)
    requires |h| == 4 && AmrNext(h).Advance?
    ensures BeginsBlock(AmrFrames, h)
  {
    var frameType, quality := h[0] / 8, h[0] / 4 % 2 == 1;
    var data := h[1..] + Zeros(AmrFrame(frameType % 8) - 4);
    var c := AmrSpeech(frameType, quality, data);
    AmrHeader(h[0]);
    assert c[..4] == h;
    assert IsAmrFrame(c);
    assert IsBlock(AmrFrames, c);
  }

  lemma AmrHeader(b: byte)
    requires b / 128 == 0 && b % 4 == 0
    ensures b == 8 * (b / 8) + if b / 4 % 2 == 1 then 4 else 0
  {
  }

  lemma BvrBlockOf(h: seq<byte>)
    requires |h| == 16 && BvrNext(h).Advance?
    ensures BeginsBlock(BvrBlocks, h)
  {
    hide Be32, Le32, EncodeBe32, EncodeLe32;
    EncodeLe32Of(h[12..16]);
    var extra := h[4..12] + Zeros(16);
    var payload := Zeros(Le32(h[12..16]));
    var c := BvrBlock(extra, payload);
    assert extra[..8] == h[4..12];
    Regroup(h, 4, 12, 16);
    Associate(h, extra[8..], payload);
    assert c == h + (extra[8..] + payload);
    assert IsBvrBlock(c);
    assert IsBlock(BvrBlocks, c);
  }

  lemma CafChunkOf(h: seq<byte>)
    requires |h| == 12 && CafNext(h).Advance?
    ensures BeginsBlock(CafChunks, h)
  {
    EncodeBe64Of(h[4..12]);
    var c := CafChunk(h[..4], Zeros(Be64(h[4..12])));
    assert IsCafChunk(c) && c[..12] == h[..4] + h[4..12] == h;
    assert IsBlock(CafChunks, c);
  }

  lemma BlenderBlockOf(littleEndian: bool, wide: bool, h: seq<byte>)
    requires |h| == 8 + ExtraLength(wide) && BlendFormat(littleEndian, wide).next(h).Advance?
    ensures BeginsBlock(BlenderBlocks(littleEndian, wide), h)
  {
    hide Be32, Le32, EncodeBe32, EncodeLe32;
    EncodeLe32Of(h[4..8]);
    EncodeBe32Of(h[4..8]);
    var payload := Zeros(if littleEndian then Le32(h[4..8]) else Be32(h[4..8]));
    var c := BlendBlock(littleEndian, h[..4], h[8..], payload);
    Regroup(h, 4, 8, |h|);
    assert c == h + payload;
    assert IsBlenderBlock(littleEndian, wide, c);
    assert IsBlock(BlenderBlocks(littleEndian, wide), c);
  }

  /** The last block of a BVR file has no payload. */
  ghost predicate EndsBvrFile(h: seq<byte>) {
    exists extra: seq<byte> :: |extra| == 24 && h == BvrBlock(extra, [])[..16]
  }

  /** A CAF chunk that is longer than any file. */
  ghost predicate IsHugeChunk(h: seq<byte>) {
    exists kind: seq<byte>, n: nat ::
      |kind| == 4 && kind[0] != 0 && MAX_FILE_SIZE < n < 0x1_0000_0000_0000_0000 && h == kind + EncodeBe64(n)
  }

  lemma NoHugeBlock(h: seq<byte>)
    requires |h| == 12
    ensures IsHugeChunk(h) <==> h[0] != 0 && Be64(h[4..12]) > MAX_FILE_SIZE
  {
    EncodeBe64Of(h[4..12]);
    if h[0] != 0 && Be64(h[4..12]) > MAX_FILE_SIZE {
      assert h == h[..4] + EncodeBe64(Be64(h[4..12]));
    }
    if IsHugeChunk(h) {
      var kind: seq<byte>, n: nat :|
        |kind| == 4 && kind[0] != 0 && MAX_FILE_SIZE < n < 0x1_0000_0000_0000_0000 && h == kind + EncodeBe64(n);
      DecodeBe64(n);
      assert h[4..12] == EncodeBe64(n);
    }
  }

  lemma EmptyBlockHeader(extra: seq<byte>)
    requires |extra| == 24
    ensures var h := BvrBlock(extra, [])[..16]; h[..4] == BLUE && h[12..16] == EncodeLe32(0)
  {
    hide EncodeLe32;
    var front := BLUE + extra[..8];
    assert BvrBlock(extra, []) == front + EncodeLe32(0) + extra[8..];
    assert front[..4] == BLUE && (front + EncodeLe32(0) + extra[8..])[12..16] == EncodeLe32(0);
  }

  lemma EndsBvrFileIff(h: seq<byte>)
    requires |h| == 16
    ensures EndsBvrFile(h) <==> h[..4] == BLUE && Le32(h[12..16]) == 0
  {
    EncodeLe32Of(h[12..16]);
    DecodeLe32(0);
    if h[..4] == BLUE && Le32(h[12..16]) == 0 {
      var extra := h[4..12] + Zeros(16);
      assert extra[..8] == h[4..12];
      assert h == BvrBlock(extra, [])[..16];
    }
    if EndsBvrFile(h) {
      var extra: seq<byte> :| |extra| == 24 && h == BvrBlock(extra, [])[..16];
      EmptyBlockHeader(extra);
    }
  }

  /**
   * How far a walk moves at a header that does not begin a block: BVR files end with an empty block, Blender files with the
   * header of ENDB; CAF steps back from a kind that begins with zero, and rejects a chunk longer than any file.
   */
  ghost function Tail(e: Encoding, h: seq<byte>): int
    requires |h| == e.Walker().headerLength
  {
    match e
    case BvrBlocks => if EndsBvrFile(h) then 0x20 else 0
    case CafChunks => if IsHugeChunk(h) then 0 else -1
    case BlenderBlocks(_, _) => |h|
    case _ => 0
  }

  /**
   * A walker goes on at a header exactly if it is the beginning of a block, and then steps over that block. Elsewhere it
   * stops, and only CAF rejects the file.
   */
  lemma GoesOnIff(e: Encoding, h: seq<byte>)
    requires |h| == e.Walker().headerLength
    ensures var s := e.Walker().next(h);
            && (s.Advance? <==> BeginsBlock(e, h))
            && (forall c: seq<byte> :: IsBlock(e, c) && |h| <= |c| && h == c[..|h|] ==> s == Advance(|c|))
            && (!BeginsBlock(e, h) ==>
                  s == if e.CafChunks? && IsHugeChunk(h) then Reject
                       else if Tail(e, h) < 0 then StopBack else Stop(Tail(e, h)))
            && (e.BlenderBlocks? ==> (BeginsBlock(e, h) <==> !Spells(h[..4], "ENDB")))
  {
    hide IsBlock;
    forall c: seq<byte> | IsBlock(e, c) && |h| <= |c| && h == c[..|h|]
      ensures e.Walker().next(h) == Advance(|c|)
    {
      BlockIsChunk(e, c);
    }
    if e.Walker().next(h).Advance? {
      AdvanceBeginsBlock(e, h);
    }
    match e
    case BvrBlocks => EndsBvrFileIff(h);
    case CafChunks => NoHugeBlock(h);
    case _ =>
  }

  // ----- files of blocks -----

  /** The last block is a bare header that ends with the file and with the last window: the walk has no room for it. */
  predicate IsCutOff(fmt: Format, chunks: seq<seq<byte>>, rest: seq<byte>, size: nat, limit: nat) {
    chunks != [] && |chunks[|chunks| - 1]| == fmt.headerLength && rest == [] && limit == size
  }

  /** Where a walk over chunks gets to. */
  ghost function Behind(fmt: Format, prefix: seq<byte>, chunks: seq<seq<byte>>, rest: seq<byte>, limit: nat): int {
    var end := |prefix + Flatten(chunks)|;
    if IsCutOff(fmt, chunks, rest, |prefix + Flatten(chunks) + rest|, limit) then end - fmt.headerLength else end
  }

  /** A walk over chunks gets behind the last one, unless that one is cut off, and goes on from there. */
  lemma {:induction false} WalkGetsBehind(fmt: Format, prefix: seq<byte>, chunks: seq<seq<byte>>, rest: seq<byte>, limit: nat)
    requires fmt.Valid() && forall c :: c in chunks ==> IsChunk(fmt, c)
    requires |prefix + Flatten(chunks) + rest| <= limit
    ensures var file, pos := prefix + Flatten(chunks) + rest, Behind(fmt, prefix, chunks, rest, limit);
            0 <= pos && Walk(fmt, file, |prefix|, limit) == Walk(fmt, file, pos, limit)
    decreases |chunks|
  {
    hide Walk;
    if chunks == [] {
      assert prefix + Flatten(chunks) == prefix;
    } else {
      var c, more := chunks[0], chunks[1..];
      assert IsChunk(fmt, c);
      assert prefix + Flatten(chunks) == (prefix + c) + Flatten(more);
      if |prefix| + fmt.headerLength < limit {
        assert prefix + Flatten(chunks) + rest == prefix + c + (Flatten(more) + rest);
        StepOverChunk(fmt, prefix, c, Flatten(more) + rest, limit);
        WalkGetsBehind(fmt, prefix + c, more, rest, limit);
        if more != [] {
          assert more[|more| - 1] == chunks[|chunks| - 1];
        } else {
          OneChunkLeft(fmt, prefix, c, rest, limit);
        }
      } else {
        assert Flatten(chunks) == c + Flatten(more);
        LastIsCutOff(fmt, prefix, c, more, rest, limit);
      }
    }
  }

  lemma StepOverChunk(fmt: Format, prefix: seq<byte>, c: seq<byte>, tail: seq<byte>, limit: nat)
    requires fmt.Valid() && IsChunk(fmt, c) && |prefix| + fmt.headerLength < limit
    ensures Walk(fmt, prefix + c + tail, |prefix|, limit) == Walk(fmt, prefix + c + tail, |prefix + c|, limit)
  {
    assert Window(prefix + c + tail, |prefix|, fmt.headerLength) == c[..fmt.headerLength];
  }

  lemma OneChunkLeft(fmt: Format, prefix: seq<byte>, c: seq<byte>, rest: seq<byte>, limit: nat)
    requires fmt.headerLength <= |c| && |prefix| + fmt.headerLength < limit && |prefix + c + rest| <= limit
    ensures !(|c| == fmt.headerLength && rest == [] && limit == |prefix + c + rest|)
  {
  }

  lemma ChunksHaveBytes(fmt: Format, chunks: seq<seq<byte>>)
    requires fmt.Valid() && forall c :: c in chunks ==> IsChunk(fmt, c)
    ensures chunks != [] ==> 0 < |Flatten(chunks)|
  {
    if chunks != [] {
      assert IsChunk(fmt, chunks[0]);
    }
  }

  lemma LastIsCutOff(fmt: Format, prefix: seq<byte>, c: seq<byte>, more: seq<seq<byte>>, rest: seq<byte>, limit: nat)
    requires fmt.Valid() && forall d :: d in more ==> IsChunk(fmt, d)
    requires fmt.headerLength <= |c| && |prefix| + |c| + |Flatten(more)| + |rest| <= limit <= |prefix| + fmt.headerLength
    ensures more == [] && rest == [] && |c| == fmt.headerLength && limit == |prefix| + fmt.headerLength
  {
    ChunksHaveBytes(fmt, more);
  }

  /** What the rest of the file looks like to the walker. */
  function HeaderOf(e: Encoding, rest: seq<byte>): (h: seq<byte>)
    ensures |h| == e.Walker().headerLength
  {
    Window(rest, 0, e.Walker().headerLength)
  }

  /**
   * A file of blocks, followed by anything that does not begin another block, is carved at the end of its last block under
   * every admissible block size; or at the tail that ends such files, if it fits the last window. The one exception is a
   * last block that is a bare header and ends with the last window: it is left out.
   */
  lemma FileOfBlocksIsCarved(e: Encoding, prefix: seq<byte>, blocks: seq<seq<byte>>, rest: seq<byte>, blocksize: nat,
                             fileSize: nat, calculated: nat, callbacks: bool)
    requires Admissible(Chunks(e.Walker()), blocksize)
    requires (forall c :: c in blocks ==> IsBlock(e, c)) && !BeginsBlock(e, HeaderOf(e, rest))
    requires var file := prefix + Flatten(blocks) + rest;
             |file| <= MAX_FILE_SIZE && Carved(Chunks(e.Walker()), file, |prefix|, blocksize, fileSize, calculated, callbacks)
    ensures var end, limit := |prefix + Flatten(blocks)|, ScanLimit(|prefix + Flatten(blocks) + rest|, blocksize);
            var h := HeaderOf(e, rest);
            if IsCutOff(e.Walker(), blocks, rest, end, limit) then
              calculated == end - |h| && callbacks
            else if limit <= end + |h| then
              calculated == end && callbacks
            else
              && calculated == (if end + Tail(e, h) < 0 then 0 else end + Tail(e, h))
              && (callbacks <==> !(e.CafChunks? && IsHugeChunk(h)))
  {
    hide IsBlock, BeginsBlock, Encoding.Walker, Tail, Walk, Window, IsHugeChunk;
    var fmt, file := e.Walker(), prefix + Flatten(blocks) + rest;
    var end, limit := |prefix + Flatten(blocks)|, ScanLimit(|file|, blocksize);
    forall c | c in blocks
      ensures IsChunk(fmt, c)
    {
      BlockIsChunk(e, c);
    }
    RoundUpFacts(|file|, blocksize);
    WalkGetsBehind(fmt, prefix, blocks, rest, limit);
    TailOfWalk(e, prefix + Flatten(blocks), rest, limit);
    if IsCutOff(fmt, blocks, rest, end, limit) {
      NoRoom(fmt, file, end - fmt.headerLength, limit);
    }
  }

  lemma NoRoom(fmt: Format, file: seq<byte>, pos: nat, limit: nat)
    requires fmt.Valid() && limit <= pos + fmt.headerLength
    ensures Walk(fmt, file, pos, limit) == Pass(pos, Ended, pos)
  {
  }

  /** The end of a walk at something that does not begin a block. */
  lemma TailOfWalk(e: Encoding, blocks: seq<byte>, rest: seq<byte>, limit: nat)
    requires !BeginsBlock(e, HeaderOf(e, rest))
    ensures var end, h := |blocks|, HeaderOf(e, rest);
            var p := Walk(e.Walker(), blocks + rest, end, limit);
            if limit <= end + |h| then p == Pass(end, Ended, end)
            else
              && p.size == (if end + Tail(e, h) < 0 then 0 else end + Tail(e, h))
              && (p.verdict.Rejected? <==> e.CafChunks? && IsHugeChunk(h))
  {
    hide BeginsBlock, Encoding.Walker, IsHugeChunk;
    var fmt, end := e.Walker(), |blocks|;
    GoesOnIff(e, HeaderOf(e, rest));
    TailFits(e, HeaderOf(e, rest));
    assert Window(blocks + rest, end, fmt.headerLength) == HeaderOf(e, rest);
    hide Tail, Window, HeaderOf;
    StepOfWalk(fmt, blocks + rest, end, limit);
  }

  lemma StepOfWalk(fmt: Format, file: seq<byte>, pos: nat, limit: nat)
    requires fmt.Valid()
    ensures var s, p := fmt.next(Window(file, pos, fmt.headerLength)), Walk(fmt, file, pos, limit);
            if limit <= pos + fmt.headerLength then p == Pass(pos, Ended, pos)
            else match s
              case Advance(_) => true
              case Stop(n) => p == Pass(pos + n, Stopped, pos)
              case StopBack => p == Pass(if pos > 0 then pos - 1 else 0, Stopped, pos)
              case Reject => p == Pass(pos, Rejected, pos)
  {
  }

  lemma TailFits(e: Encoding, h: seq<byte>)
    requires |h| == e.Walker().headerLength
    ensures -1 <= Tail(e, h)
    ensures e.CafChunks? && IsHugeChunk(h) ==> Tail(e, h) == 0
  {
  }

  /** An AMR frame of comfort noise has type 8 and 39 bits; the walker steps over 13 bytes instead of 6. */
  lemma NoiseFrameIsMisread(quality: bool, data: seq<byte>)
    requires |data| == 5
    ensures var c := AmrSpeech(8, quality, data); |c| == 6 && AMR.next(c[..4]) == Advance(13)
  {
    var h := AmrSpeech(8, quality, data)[..4];
    assert h[0] == if quality then 68 else 64;
  }
}
