/** align_pread and align_pwrite: byte-addressable reads and writes on a device that moves whole sectors. */
module AlignedIo {
  import opened Arith
  import opened Bytes
  import opened Disks

  /**
   * A device whose transfers begin and end at sector boundaries, or an image file, which grows when it is written behind its
   * end. A read at `at` delivers at most reach(at) bytes.
   */
  class Device {
    const sectorSize: nat
    const grows: bool
    const reach: nat -> nat
    var bytes: seq<byte>

    constructor (sectorSize: nat, grows: bool, reach: nat -> nat, bytes: seq<byte>)
      ensures this.sectorSize == sectorSize && this.grows == grows && this.reach == reach && this.bytes == bytes
    {
      this.sectorSize, this.grows, this.reach, this.bytes := sectorSize, grows, reach, bytes;
    }

    /** Where the bytes end that a read at this place delivers. */
    function End(at: nat): (end: nat)
      reads this
      ensures end <= |bytes|
    {
      ReadEnd(|bytes|, reach, at)
    }

    /** file_pread_aux: a read may be short, and then the rest of the buffer is zeros; a read of nothing fails. */
    method Pread(buffer: array<byte>, count: nat, at: nat) returns (res: int)
      requires 0 < sectorSize && Multiple(at, sectorSize) && Multiple(count, sectorSize) && 0 < count <= buffer.Length
      modifies buffer
      ensures res == if End(at) <= at then -1 else Available(End(at), at, count)
      ensures buffer[..count] == Window(bytes[..End(at)], at, count)
      ensures forall k :: count <= k < buffer.Length ==> buffer[k] == old(buffer[k])
    {
      var delivered := bytes[..End(at)];
      forall k | 0 <= k < count {
        buffer[k] := Padded(delivered, at + k);
      }
      res := if End(at) <= at then -1 else Available(End(at), at, count);
    }

    /** file_pwrite_aux. */
    method Pwrite(buffer: array<byte>, count: nat, at: nat) returns (res: int)
      requires 0 < sectorSize && Multiple(at, sectorSize) && Multiple(count, sectorSize) && count <= buffer.Length
      modifies this`bytes
      ensures res == if grows || at + count <= |old(bytes)| then count else -1
      ensures bytes == if res == count then Patch(Extended(old(bytes), at + count), at, buffer[..count]) else old(bytes)
    {
      if !grows && at + count > |bytes| {
        return -1;
      }
      bytes := Patch(Extended(bytes, at + count), at, buffer[..count]);
      res := count;
    }
  }

  function ReadEnd(size: nat, reach: nat -> nat, at: nat): (end: nat)
    ensures end <= size
  {
    Min(size, at + reach(at))
  }

  /** The bytes, followed by zeros up to `size`. */
  function Extended(bytes: seq<byte>, size: nat): (r: seq<byte>)
    ensures |r| == if size <= |bytes| then |bytes| else size
    ensures forall k :: 0 <= k < |r| ==> r[k] == Padded(bytes, k)
  {
    if size <= |bytes| then bytes else Window(bytes, 0, size)
  }

  /** How many of `count` bytes from `at` on lie on a device of this size. */
  function Available(size: nat, at: nat, count: nat): (n: nat)
    ensures n <= count && (at < size ==> at + n <= size) && (at >= size ==> n == 0)
  {
    if at >= size then 0 else if at + count <= size then count else size - at
  }

  /** The start of the sector that holds a byte. */
  function SectorOf(at: nat, sectorSize: nat): (r: nat)
    requires 0 < sectorSize
    ensures r <= at
  {
    at - Mod(at, sectorSize)
  }

  /** The length of the sectors that hold `count` bytes from `at` on. */
  function Span(at: nat, count: nat, sectorSize: nat): nat
    requires 0 < sectorSize
  {
    RoundUp(Mod(at, sectorSize) + count, sectorSize)
  }

  lemma {:induction false} SectorStartsAligned(at: nat, sectorSize: nat)
    requires 0 < sectorSize
    ensures Multiple(SectorOf(at, sectorSize), sectorSize)
  {
    if at >= sectorSize {
      SectorStartsAligned(at - sectorSize, sectorSize);
    }
  }

  lemma SectorIsQuotient(x: nat, unit: nat)
    requires 0 < unit
    ensures x / unit * unit == SectorOf(x, unit) && x % unit == Mod(x, unit)
  {
    ModIsRemainder(x, unit);
  }

  lemma {:induction false} RoundUpIsQuotient(x: nat, unit: nat)
    requires 0 < unit
    ensures (x + unit - 1) / unit * unit == RoundUp(x, unit)
  {
    if x == 0 {
      DivModUnique(unit - 1, unit, 0, unit - 1);
    } else if x <= unit {
      DivModUnique(x + unit - 1, unit, 1, x - 1);
    } else {
      RoundUpIsQuotient(x - unit, unit);
      ModAdd(x - 1, unit);
      assert ((x - 1) / unit + 1) * unit == (x - 1) / unit * unit + unit;
    }
  }

  /** The sectors cover the bytes, and no shorter transfer would. */
  lemma SpanFacts(at: nat, count: nat, sectorSize: nat)
    requires 0 < sectorSize
    ensures Multiple(SectorOf(at, sectorSize), sectorSize) && Multiple(Span(at, count, sectorSize), sectorSize)
    ensures SectorOf(at, sectorSize) + Mod(at, sectorSize) == at < SectorOf(at, sectorSize) + sectorSize
    ensures at + count <= SectorOf(at, sectorSize) + Span(at, count, sectorSize) < at + count + sectorSize
  {
    SectorStartsAligned(at, sectorSize);
    RoundUpFacts(Mod(at, sectorSize) + count, sectorSize);
  }

  /** A request that is as long as its sectors begins at a sector: the fast path is aligned. */
  lemma FastPathIsAligned(at: nat, count: nat, sectorSize: nat)
    requires 0 < sectorSize && 0 < count && count == Span(at, count, sectorSize)
    ensures Mod(at, sectorSize) == 0 && SectorOf(at, sectorSize) == at
  {
    var head := Mod(at, sectorSize);
    RoundUpFacts(head + count, sectorSize);
  }

  const FIRST_SIZE: nat := 128 * 512
  const MAX_SIZE: nat := 0x8000_0000

  predicate IsPowerOfTwo(n: nat) {
    n == 1 || (n > 1 && n % 2 == 0 && IsPowerOfTwo(n / 2))
  }

  /** The doubling loop: enough room, without leaving 32 bits. */
  method GrownSize(countNew: nat) returns (size: nat)
    requires countNew <= MAX_SIZE
    ensures countNew <= size <= MAX_SIZE
  {
    size := FIRST_SIZE;
    ghost var left := 0x8000;
    while size < countNew
      invariant size * left == MAX_SIZE && IsPowerOfTwo(left) && size <= MAX_SIZE
      decreases left
    {
      Double(size, left);
      size := size * 2;
      left := left / 2;
    }
  }

  lemma Double(size: nat, left: nat)
    requires size * left == MAX_SIZE && IsPowerOfTwo(left) && size < MAX_SIZE
    ensures size * 2 * (left / 2) == MAX_SIZE && IsPowerOfTwo(left / 2) && size * 2 <= MAX_SIZE
  {
    assert left != 1;
    assert left == 2 * (left / 2);
    MulMonotone(size * 2, 1, left / 2);
  }

  /** The disk layer on top of a device that begins `offset` bytes into it. */
  class AlignedDisk {
    const device: Device
    const offset: nat
    const direct: bool  // opened with TESTDISK_O_DIRECT
    var rbuffer: array?<byte>
    var rbufferSize: nat
    var wbuffer: array?<byte>
    var wbufferSize: nat

    constructor (device: Device, offset: nat, direct: bool)
      requires 0 < device.sectorSize
      ensures this.device == device && this.offset == offset && this.direct == direct && Valid()
    {
      this.device, this.offset, this.direct := device, offset, direct;
      rbuffer, rbufferSize, wbuffer, wbufferSize := null, 0, null, 0;
    }

    ghost predicate Valid()
      reads this
    {
      && 0 < device.sectorSize
      && (rbuffer != null ==> rbuffer.Length == rbufferSize)
      && (wbuffer != null ==> wbuffer.Length == wbufferSize)
    }

    /** Is this request small enough for a 32-bit length of whole sectors? */
    predicate Fits(count: nat, at: nat)
      requires 0 < device.sectorSize
    {
      Span(at + offset, count, device.sectorSize) <= MAX_SIZE
    }

    /** offset_new rounded down, what is left of it, and count_new. */
    method Align(count: nat, at: nat) returns (start: nat, head: nat, countNew: nat)
      requires Valid()
      ensures start == SectorOf(at + offset, device.sectorSize) && head == Mod(at + offset, device.sectorSize)
      ensures countNew == Span(at + offset, count, device.sectorSize)
    {
      var size := device.sectorSize;
      var offsetNew := at + offset;
      start, head := offsetNew / size * size, offsetNew % size;
      SectorIsQuotient(offsetNew, size);
      countNew := (head + count + size - 1) / size * size;
      RoundUpIsQuotient(head + count, size);
    }

    /** Make the read buffer large enough. */
    method RoomToRead(countNew: nat)
      requires Valid() && countNew <= MAX_SIZE
      modifies this`rbuffer, this`rbufferSize
      ensures Valid() && rbuffer != null && countNew <= rbuffer.Length
      ensures rbuffer == old(rbuffer) || fresh(rbuffer)
    {
      if rbufferSize < countNew {
        rbuffer := null;
      }
      if rbuffer == null {
        rbufferSize := GrownSize(countNew);
        rbuffer := new byte[rbufferSize](_ => 0);
      }
    }

    /** Make the write buffer large enough. */
    method RoomToWrite(countNew: nat)
      requires Valid() && countNew <= MAX_SIZE
      modifies this`wbuffer, this`wbufferSize
      ensures Valid() && wbuffer != null && countNew <= wbuffer.Length
      ensures wbuffer == old(wbuffer) || fresh(wbuffer)
    {
      if wbufferSize < countNew {
        wbuffer := null;
      }
      if wbuffer == null {
        wbufferSize := GrownSize(countNew);
        wbuffer := new byte[wbufferSize](_ => 0);
      }
    }

    /** Where the bytes end that are delivered for a request. */
    function EndFor(at: nat): nat
      requires 0 < device.sectorSize
      reads device
    {
      device.End(SectorOf(at + offset, device.sectorSize))
    }

    /** The path through the read buffer. */
    method ReadSectorsTo(buf: array<byte>, count: nat, start: nat, head: nat, countNew: nat) returns (res: int)
      requires Valid() && count <= buf.Length && 0 < countNew <= MAX_SIZE && buf != rbuffer && head + count <= countNew
      requires Multiple(start, device.sectorSize) && Multiple(countNew, device.sectorSize)
      modifies this`rbuffer, this`rbufferSize, rbuffer, buf
      ensures Valid()
      ensures res == if device.End(start) <= start then -1 else Available(device.End(start), start, countNew)
      ensures buf[..count] == Window(device.bytes[..device.End(start)], start + head, count)
      ensures forall k :: count <= k < buf.Length ==> buf[k] == old(buf[k])
    {
      RoomToRead(countNew);
      res := device.Pread(rbuffer, countNew, start);
      var data := rbuffer;
      forall k | 0 <= k < count {
        buf[k] := data[head + k];
      }
      assert forall k :: 0 <= k < count ==> buf[k] == data[..countNew][head + k];
    }

    /** align_pread; `misaligned` tells whether the address of the buffer is no multiple of the sector size. */
    method AlignPread(buf: array<byte>, count: nat, at: nat, misaligned: bool) returns (res: int)
      requires Valid() && 0 < count <= buf.Length && Fits(count, at) && buf != rbuffer
      modifies this`rbuffer, this`rbufferSize, rbuffer, buf
      ensures Valid()
      ensures res == if EndFor(at) <= SectorOf(at + offset, device.sectorSize) then -1
                     else Reported(EndFor(at), at + offset, count, device.sectorSize)
      ensures buf[..count] == Window(device.bytes[..EndFor(at)], at + offset, count)
      ensures forall k :: count <= k < buf.Length ==> buf[k] == old(buf[k])
    {
      hide SectorOf, Span, Mod, Multiple, Patch, ReadEnd;
      var start, head, countNew := Align(count, at);
      SpanFacts(at + offset, count, device.sectorSize);
      if count != countNew || (direct && misaligned) {
        res := ReadSectorsTo(buf, count, start, head, countNew);
        assert start + head == at + offset;
        return if res < count then res else count;
      }
      FastPathIsAligned(at + offset, count, device.sectorSize);
      res := device.Pread(buf, count, at + offset);
    }

    /** align_pread of a request all of whose bytes are delivered. */
    method AlignPreadInside(buf: array<byte>, count: nat, at: nat, misaligned: bool) returns (res: int)
      requires Valid() && 0 < count <= buf.Length && Fits(count, at) && buf != rbuffer
      requires at + offset + count <= EndFor(at)
      modifies this`rbuffer, this`rbufferSize, rbuffer, buf
      ensures Valid() && res == count && buf[..count] == device.bytes[at + offset..at + offset + count]
    {
      SpanFacts(at + offset, count, device.sectorSize);
      res := AlignPread(buf, count, at, misaligned);
    }

    /** Put the bytes of a request over the sectors in the write buffer. */
    method MergeAndWrite(buf: array<byte>, count: nat, start: nat, head: nat, countNew: nat, ghost base: seq<byte>)
      returns (res: int)
      requires Valid() && wbuffer != null && buf != wbuffer && count <= buf.Length && head + count <= countNew
      requires Multiple(start, device.sectorSize) && Multiple(countNew, device.sectorSize)
      requires countNew <= wbuffer.Length && wbuffer[..countNew] == base
      modifies wbuffer, device`bytes
      ensures res == if device.grows || start + countNew <= |old(device.bytes)| then countNew else -1
      ensures device.bytes == if res < 0 then old(device.bytes)
                              else Patch(Extended(old(device.bytes), start + countNew), start, Patch(base, head, buf[..count]))
    {
      var data := wbuffer;
      forall k | 0 <= k < count {
        data[head + k] := buf[k];
      }
      assert data[..countNew] == Patch(base, head, buf[..count]);
      res := device.Pwrite(data, countNew, start);
    }

    /** Read the sectors of a request, and clear the whole buffer if none of them can be read. */
    method ReadSectors(start: nat, countNew: nat)
      requires Valid() && wbuffer != null && 0 < countNew <= wbuffer.Length
      requires Multiple(start, device.sectorSize) && Multiple(countNew, device.sectorSize)
      modifies wbuffer
      ensures wbuffer[..countNew] == Window(device.bytes[..device.End(start)], start, countNew)
    {
      var data := wbuffer;
      var got := device.Pread(data, countNew, start);
      if got < 0 {
        forall k | 0 <= k < data.Length {
          data[k] := 0;
        }
        assert data[..countNew] == Window(device.bytes[..device.End(start)], start, countNew);
      }
    }

    /** align_pwrite: it fails when the sectors of the request do not all lie on a device that cannot grow. */
    method AlignPwrite(buf: array<byte>, count: nat, at: nat, misaligned: bool) returns (res: int)
      requires Valid() && 0 < count <= buf.Length && Fits(count, at) && buf != wbuffer
      modifies this`wbuffer, this`wbufferSize, wbuffer, device`bytes
      ensures Valid()
      ensures res == if device.grows || SectorsFit(|old(device.bytes)|, at + offset, count, device.sectorSize) then count else -1
      ensures device.bytes == if res < 0 then old(device.bytes)
                              else Stored(old(device.bytes), device.sectorSize, device.reach, at + offset, buf[..count])
    {
      hide SectorOf, Span, Mod, Multiple, Patch, Stored, Rewritten, Extended, ReadEnd, SectorsFit, Window;
      var start, head, countNew := Align(count, at);
      SectorsFitIff(|device.bytes|, at + offset, count, device.sectorSize);
      SpanFacts(at + offset, count, device.sectorSize);
      StoredIs(device.bytes, device.sectorSize, device.reach, at + offset, buf[..count]);
      if count != countNew || (direct && misaligned) {
        res := WriteSectors(buf, count, start, head, countNew);
        return;
      }
      FastPathIsAligned(at + offset, count, device.sectorSize);
      res := device.Pwrite(buf, count, at + offset);
    }

    /** The path through the write buffer. */
    method WriteSectors(buf: array<byte>, count: nat, start: nat, head: nat, countNew: nat) returns (res: int)
      requires Valid() && count <= buf.Length && buf != wbuffer && 0 < countNew <= MAX_SIZE && head + count <= countNew
      requires Multiple(start, device.sectorSize) && Multiple(countNew, device.sectorSize)
      modifies this`wbuffer, this`wbufferSize, wbuffer, device`bytes
      ensures Valid() && res == if device.grows || start + countNew <= |old(device.bytes)| then count else -1
      ensures device.bytes == if res < 0 then old(device.bytes)
                              else Rewritten(old(device.bytes), old(device.End(start)), start, countNew, start + head,
                                             buf[..count])
    {
      hide Multiple, ReadEnd, Patch, Extended, Window;
      RoomToWrite(countNew);
      ReadSectors(start, countNew);
      ghost var base := wbuffer[..countNew];
      MergeIsPatch(Extended(device.bytes, start + countNew), start, base, head, buf[..count]);
      var tmp := MergeAndWrite(buf, count, start, head, countNew, base);
      res := if tmp < count then tmp else count;
    }
  }

  /** Do all the sectors of a request lie on a device of this size? */
  predicate SectorsFit(size: nat, at: nat, count: nat, sectorSize: nat)
    requires 0 < sectorSize
  {
    SectorOf(at, sectorSize) + Span(at, count, sectorSize) <= size
  }

  lemma SectorsFitIff(size: nat, at: nat, count: nat, sectorSize: nat)
    requires 0 < sectorSize
    ensures SectorsFit(size, at, count, sectorSize) <==> SectorOf(at, sectorSize) + Span(at, count, sectorSize) <= size
  {
  }

  /** The n bytes from start on written again, as far as the bytes up to `end` were delivered, with the patch over them. */
  function Rewritten(bytes: seq<byte>, end: nat, start: nat, n: nat, at: nat, patch: seq<byte>): seq<byte>
    requires end <= |bytes| && start <= at && at + |patch| <= start + n
  {
    Patch(Patch(Extended(bytes, start + n), start, Window(bytes[..end], start, n)), at, patch)
  }

  /** The device after align_pwrite. */
  function Stored(bytes: seq<byte>, sectorSize: nat, reach: nat -> nat, at: nat, patch: seq<byte>): seq<byte>
    requires 0 < sectorSize
  {
    SpanFacts(at, |patch|, sectorSize);
    var start := SectorOf(at, sectorSize);
    Rewritten(bytes, ReadEnd(|bytes|, reach, start), start, Span(at, |patch|, sectorSize), at, patch)
  }

  lemma StoredIs(bytes: seq<byte>, sectorSize: nat, reach: nat -> nat, at: nat, patch: seq<byte>)
    requires 0 < sectorSize
    ensures var start, n := SectorOf(at, sectorSize), Span(at, |patch|, sectorSize);
            && start <= at && at + |patch| <= start + n
            && Stored(bytes, sectorSize, reach, at, patch) == Rewritten(bytes, ReadEnd(|bytes|, reach, start), start, n, at, patch)
            && (start == at && n == |patch| ==>
                  Stored(bytes, sectorSize, reach, at, patch) == Patch(Extended(bytes, at + |patch|), at, patch))
  {
    hide SectorOf, Span, Mod, Multiple, Patch, ReadEnd, Extended;
    SpanFacts(at, |patch|, sectorSize);
    var start := SectorOf(at, sectorSize);
    if start == at && Span(at, |patch|, sectorSize) == |patch| {
      PatchTwice(Extended(bytes, at + |patch|), at, Window(bytes[..ReadEnd(|bytes|, reach, start)], start, |patch|), patch);
    }
  }

  lemma PatchTwice(bytes: seq<byte>, at: nat, first: seq<byte>, second: seq<byte>)
    requires |first| == |second| && at + |first| <= |bytes|
    ensures Patch(Patch(bytes, at, first), at, second) == Patch(bytes, at, second)
  {
  }

  lemma MergeIsPatch(bytes: seq<byte>, start: nat, base: seq<byte>, head: nat, patch: seq<byte>)
    requires head + |patch| <= |base| && start + |base| <= |bytes|
    ensures Patch(bytes, start, Patch(base, head, patch)) == Patch(Patch(bytes, start, base), start + head, patch)
  {
  }

  /**
   * A write changes nothing but the bytes it is given, and zeros at the end of a device that grows, exactly if no byte of its
   * sectors that was not delivered holds anything but zero.
   */
  lemma OthersAreKeptIff(bytes: seq<byte>, sectorSize: nat, reach: nat -> nat, at: nat, patch: seq<byte>)
    requires 0 < sectorSize
    ensures var start, n := SectorOf(at, sectorSize), Span(at, |patch|, sectorSize);
            && at + |patch| <= start + n
            && (Stored(bytes, sectorSize, reach, at, patch) == Patch(Extended(bytes, start + n), at, patch)
                <==> forall k :: start + reach(start) <= k < start + n && !(at <= k < at + |patch|) ==> Padded(bytes, k) == 0)
  {
    hide SectorOf, Span, Mod, Multiple, Stored, Rewritten, Patch, Extended;
    SpanFacts(at, |patch|, sectorSize);
    StoredIs(bytes, sectorSize, reach, at, patch);
    var start, n := SectorOf(at, sectorSize), Span(at, |patch|, sectorSize);
    RewrittenKeepsIff(bytes, start + reach(start), start, n, at, patch);
  }

  lemma RewrittenAt(bytes: seq<byte>, end: nat, start: nat, n: nat, at: nat, patch: seq<byte>, k: nat)
    requires end <= |bytes| && start <= at && at + |patch| <= start + n && k < |Extended(bytes, start + n)|
    ensures |Rewritten(bytes, end, start, n, at, patch)| == |Extended(bytes, start + n)|
    ensures Rewritten(bytes, end, start, n, at, patch)[k]
            == if at <= k < at + |patch| then patch[k - at]
               else if start <= k < start + n && end <= k then 0
               else Padded(bytes, k)
  {
    var whole := Extended(bytes, start + n);
    var again := Patch(whole, start, Window(bytes[..end], start, n));
    assert again[k] == if start <= k < start + n then Window(bytes[..end], start, n)[k - start] else whole[k];
  }

  lemma RewrittenKeepsIff(bytes: seq<byte>, end: nat, start: nat, n: nat, at: nat, patch: seq<byte>)
    requires start <= at && at + |patch| <= start + n && start <= end
    ensures Rewritten(bytes, Min(|bytes|, end), start, n, at, patch) == Patch(Extended(bytes, start + n), at, patch)
            <==> forall k :: end <= k < start + n && !(at <= k < at + |patch|) ==> Padded(bytes, k) == 0
  {
    hide Rewritten;
    var r, p := Rewritten(bytes, Min(|bytes|, end), start, n, at, patch), Patch(Extended(bytes, start + n), at, patch);
    RewrittenSize(bytes, Min(|bytes|, end), start, n, at, patch);
    forall k | 0 <= k < |p|
      ensures r[k] == p[k] <==> !(end <= k < start + n && !(at <= k < at + |patch|)) || Padded(bytes, k) == 0
    {
      RewrittenAt(bytes, Min(|bytes|, end), start, n, at, patch, k);
    }
    if r == p {
      forall k | end <= k < start + n && !(at <= k < at + |patch|)
        ensures Padded(bytes, k) == 0
      {
        assert r[k] == p[k];
      }
    }
  }

  lemma RewrittenSize(bytes: seq<byte>, end: nat, start: nat, n: nat, at: nat, patch: seq<byte>)
    requires end <= |bytes| && start <= at && at + |patch| <= start + n
    ensures |Rewritten(bytes, end, start, n, at, patch)| == |Extended(bytes, start + n)|
  {
  }

  /** On a device of whole sectors, a request that lies on the device gets all its bytes. */
  lemma InsideSectorsFit(size: nat, at: nat, count: nat, sectorSize: nat)
    requires 0 < sectorSize && 0 < count && Multiple(size, sectorSize) && at + count <= size
    ensures SectorOf(at, sectorSize) + Span(at, count, sectorSize) <= size
    ensures Available(size, SectorOf(at, sectorSize), Span(at, count, sectorSize)) == Span(at, count, sectorSize)
  {
    var start, n := SectorOf(at, sectorSize), Span(at, count, sectorSize);
    SpanFacts(at, count, sectorSize);
    RoundUpFacts(Mod(at, sectorSize) + count, sectorSize);
    MultipleSum(start, n, sectorSize);
    if start + n > size {
      MultiplesApart(size, start + n, sectorSize);
    }
  }

  /** What align_pread returns for a request, when the device can be read there. */
  function Reported(size: nat, at: nat, count: nat, sectorSize: nat): nat
    requires 0 < sectorSize
  {
    Min(Available(size, SectorOf(at, sectorSize), Span(at, count, sectorSize)), count)
  }

  /**
   * It is the number of bytes of the request that lie on the device exactly if the request begins at a sector, or
   * its first sector is not on the device at all, or all of it lies on the device.
   */
  lemma ReportIsHonestIff(size: nat, at: nat, count: nat, sectorSize: nat)
    requires 0 < sectorSize && 0 < count
    ensures Reported(size, at, count, sectorSize) == Available(size, at, count)
            <==> Mod(at, sectorSize) == 0 || size <= SectorOf(at, sectorSize) || at + count <= size
  {
    SpanFacts(at, count, sectorSize);
  }

  /** A device of 700 bytes, and a request for the last 100 bytes and 100 more: 188 bytes are reported. */
  lemma ShortLastSector()
    ensures Reported(700, 600, 200, 512) == 188 && Available(700, 600, 200) == 100
  {
    assert Mod(600, 512) == Mod(88, 512) == 88 && Span(600, 200, 512) == 512;
  }

  // ----- sequences of writes -----

  /** A byte-addressable store after a sequence of writes: it grows as far as it is written. */
  function After(store: seq<byte>, writes: seq<Write>): seq<byte> {
    if writes == [] then store
    else
      var w, before := writes[|writes| - 1], After(store, writes[..|writes| - 1]);
      Patch(Extended(before, w.at + |w.data|), w.at, w.data)
  }

  /** Every byte is the one that was written there last, or the original one, or zero. */
  lemma {:induction false} StoreRemembers(store: seq<byte>, writes: seq<Write>, x: nat, last: nat)
    requires last <= |writes| && (last > 0 ==> Touches(writes[last - 1], x))
    requires forall i :: last <= i < |writes| ==> !Touches(writes[i], x)
    ensures Padded(After(store, writes), x)
            == if last == 0 then Padded(store, x) else writes[last - 1].data[x - writes[last - 1].at]
  {
    if last < |writes| {
      StoreRemembers(store, writes[..|writes| - 1], x, last);
    }
  }

  /** The device after a sequence of calls of align_pwrite that succeed. */
  function StoredAll(bytes: seq<byte>, sectorSize: nat, reach: nat -> nat, writes: seq<Write>): seq<byte>
    requires 0 < sectorSize
  {
    if writes == [] then bytes
    else
      var w, before := writes[|writes| - 1], StoredAll(bytes, sectorSize, reach, writes[..|writes| - 1]);
      Stored(before, sectorSize, reach, w.at, w.data)
  }

  /** Can the sectors of this write be read? */
  predicate IsReadable(sectorSize: nat, reach: nat -> nat, w: Write)
    requires 0 < sectorSize
  {
    Span(w.at, |w.data|, sectorSize) <= reach(SectorOf(w.at, sectorSize))
  }

  lemma StoredByte(bytes: seq<byte>, sectorSize: nat, reach: nat -> nat, w: Write, x: nat)
    requires 0 < sectorSize && IsReadable(sectorSize, reach, w)
    ensures Padded(Stored(bytes, sectorSize, reach, w.at, w.data), x)
            == if Touches(w, x) then w.data[x - w.at] else Padded(bytes, x)
  {
    hide SectorOf, Span, Stored;
    OthersAreKeptIff(bytes, sectorSize, reach, w.at, w.data);
  }

  /** While the sectors of the writes can be read, the device is a byte-addressable store, with zeros up to a whole sector. */
  lemma {:induction false} DeviceIsStore(bytes: seq<byte>, sectorSize: nat, reach: nat -> nat, writes: seq<Write>, x: nat)
    requires 0 < sectorSize && forall i :: 0 <= i < |writes| ==> IsReadable(sectorSize, reach, writes[i])
    ensures Padded(StoredAll(bytes, sectorSize, reach, writes), x) == Padded(After(bytes, writes), x)
  {
    hide Stored, IsReadable;
    if writes != [] {
      DeviceIsStore(bytes, sectorSize, reach, writes[..|writes| - 1], x);
      StoredByte(StoredAll(bytes, sectorSize, reach, writes[..|writes| - 1]), sectorSize, reach, writes[|writes| - 1], x);
    }
  }

  /** Writes that lie on a device of whole sectors do not need it to grow, and do not make it grow. */
  lemma {:induction false} InsideStaysInside(bytes: seq<byte>, sectorSize: nat, reach: nat -> nat, writes: seq<Write>)
    requires 0 < sectorSize && Multiple(|bytes|, sectorSize)
    requires forall i :: 0 <= i < |writes| ==> writes[i].data != [] && writes[i].at + |writes[i].data| <= |bytes|
    ensures |StoredAll(bytes, sectorSize, reach, writes)| == |bytes|
    ensures forall i :: 0 <= i < |writes| ==> SectorsFit(|bytes|, writes[i].at, |writes[i].data|, sectorSize)
  {
    hide Multiple, SectorOf, Span, ReadEnd;
    if writes != [] {
      InsideStaysInside(bytes, sectorSize, reach, writes[..|writes| - 1]);
      var w := writes[|writes| - 1];
      InsideSectorsFit(|bytes|, w.at, |w.data|, sectorSize);
      assert forall i :: 0 <= i < |writes| - 1 ==> writes[..|writes| - 1][i] == writes[i];
    }
  }
}
