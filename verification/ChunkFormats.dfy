/** The chunked file formats whose length PhotoRec finds by walking headers. */
module ChunkFormats {
  import opened Bytes

  type pos = x: int | 0 < x witness 1

  /** What one header tells the walker to do with calculated_file_size. */
  datatype Step =
    | Advance(n: pos)   // go to the next header
    | Stop(add: nat)    // add that many bytes and stop
    | StopBack          // remove one byte and stop
    | Reject            // stop and forget both callbacks

  /** A format is a header length and what to do with one header of that length. */
  datatype Format = Format(headerLength: nat, next: seq<byte> --> Step) {
    ghost predicate Valid() {
      && 0 < headerLength
      && forall h: seq<byte> | |h| == headerLength :: next.requires(h)
    }
  }

  const MAX_FILE_SIZE: nat := 0x1FF_FFFF_FFFF  // PHOTOREC_MAX_FILE_SIZE, 2^41 - 1

  const ENDB: seq<byte> := [0x45, 0x4E, 0x44, 0x42]
  const BIM8: seq<byte> := [0x38, 0x42, 0x49, 0x4D]
  const BB02: seq<byte> := [0x42, 0x42, 0x30, 0x32]
  const BLUE: seq<byte> := [0x42, 0x4C, 0x55, 0x45]

  /** Length of an AMR frame from its type, RFC 3267 section 5. */
  function AmrFrame(frameType: nat): pos {
    match frameType
    case 0 => 13
    case 1 => 14
    case 2 => 16
    case 3 => 18
    case 4 => 20
    case 5 => 21
    case 6 => 27
    case _ => 32
  }

  // ----- one loop body of each data_check_* walker -----

  function BlendLeNext(h: seq<byte>): Step
    requires |h| >= 8
  {
    if h[..4] == ENDB then Stop(|h|) else Advance(|h| + Le32(h[4..8]))
  }

  function BlendBeNext(h: seq<byte>): Step
    requires |h| >= 8
  {
    if h[..4] == ENDB then Stop(|h|) else Advance(|h| + Be32(h[4..8]))
  }

  function CafNext(h: seq<byte>): Step
    requires |h| == 12
  {
    if h[0] == 0 then StopBack
    else if Be64(h[4..12]) > MAX_FILE_SIZE then Reject
    else Advance(12 + Be64(h[4..12]))
  }

  function AbrNext(h: seq<byte>): Step
    requires |h| == 12
  {
    if h[..4] != BIM8 then Stop(0) else Advance(12 + Be32(h[8..12]))
  }

  function BacNext(h: seq<byte>): Step
    requires |h| == 0x18
  {
    if h[12..16] != BB02 || Be32(h[4..8]) < 0x18 then Stop(0) else Advance(Be32(h[4..8]))
  }

  function AddressBookNext(h: seq<byte>): Step
    requires |h| == 8
  {
    if h[0] != 0x4C || h[1] != 0x4A || h[3] != 0 || Be32(h[4..8]) < 8 then Stop(0)
    else Advance(Be32(h[4..8]))
  }

  function AmrNext(h: seq<byte>): Step
    requires |h| == 4
  {
    if h[0] / 128 != 0 || h[0] % 4 != 0 then Stop(0)
    else if h == [0, 0, 0, 0] then Stop(0)
    else Advance(AmrFrame(h[0] / 8 % 8))
  }

  function BvrNext(h: seq<byte>): Step
    requires |h| == 16
  {
    if h[..4] != BLUE then Stop(0)
    else if Le32(h[12..16]) == 0 then Stop(0x20)
    else Advance(0x20 + Le32(h[12..16]))
  }

  // ----- the formats -----

  const BLEND4_LE := Format(0x14, BlendLeNext)
  const BLEND8_LE := Format(0x18, BlendLeNext)
  const BLEND4_BE := Format(0x14, BlendBeNext)
  const BLEND8_BE := Format(0x18, BlendBeNext)
  const CAF := Format(12, CafNext)
  const ABR := Format(12, AbrNext)
  const BAC := Format(0x18, BacNext)
  const ADDRESS_BOOK := Format(8, AddressBookNext)
  const AMR := Format(4, AmrNext)
  const BVR := Format(16, BvrNext)

  lemma FormatsAreValid()
    ensures BLEND4_LE.Valid() && BLEND8_LE.Valid() && BLEND4_BE.Valid() && BLEND8_BE.Valid()
    ensures CAF.Valid() && ABR.Valid() && BAC.Valid() && ADDRESS_BOOK.Valid() && AMR.Valid() && BVR.Valid()
  {
  }
}
