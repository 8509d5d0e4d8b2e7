/** disk_image: copying a partition to a file, skipping unreadable parts and filling the gaps backwards. */
module DiskImage {
  import opened Bytes
  import opened Disks

  const READ_SIZE: nat := 256 * 512
  const SKIP_SIZE: nat := 10 * 1024 * 1024

  /** Reads of 128 KiB, and steps of 10 MiB. */
  lemma SizesOfReads()
    ensures READ_SIZE == 0x2_0000 && SKIP_SIZE == 10 * 0x10_0000
  {
  }

  /** The disk being copied: its contents, and what each read delivers (all of it, a part, or an error). */
  datatype Source = Source(sectorSize: nat, bytes: seq<byte>, got: (nat, nat) -> int) {

    /** disk->pread: nothing is read beyond the end of the disk. */
    function Delivers(at: nat, count: nat): (res: int)
      ensures res <= count && (res > 0 ==> at + res <= |bytes|)
    {
      var r := got(at, count);
      if 0 <= r <= count && at + r <= |bytes| then r else -1
    }
  }

  method Pread(disk: Source, buffer: array<byte>, count: nat, at: nat) returns (res: int)
    requires count <= buffer.Length
    modifies buffer
    ensures res == disk.Delivers(at, count)
    ensures res > 0 ==> buffer[..res] == disk.bytes[at..at + res]
  {
    res := disk.Delivers(at, count);
    if res > 0 {
      forall k | 0 <= k < res {
        buffer[k] := disk.bytes[at + k];
      }
    }
  }

  /** The part of the image file that has been written: later writes win, the rest is a hole. */
  type Image = map<nat, byte>

  /** The image after a write of these bytes. */
  function Put(image: Image, at: nat, data: seq<byte>): Image
    decreases |data|
  {
    if data == [] then image
    else
      var n := |data| - 1;
      Put(image, at, data[..n])[at + n := data[n]]
  }

  lemma {:induction false} PutIs(image: Image, at: nat, data: seq<byte>)
    ensures var r := Put(image, at, data);
            && (forall x :: x in r <==> x in image || at <= x < at + |data|)
            && (forall x :: x in r ==> r[x] == if at <= x < at + |data| then data[x - at] else image[x])
    decreases |data|
  {
    if data != [] {
      PutIs(image, at, data[..|data| - 1]);
    }
  }

  /** Is b the byte of the partition at x? */
  predicate IsByteOf(bytes: seq<byte>, partOffset: nat, x: nat, b: byte) {
    partOffset + x < |bytes| && b == bytes[partOffset + x]
  }

  /** Every byte of the image is the one of the partition. */
  ghost predicate IsFaithful(image: Image, bytes: seq<byte>, partOffset: nat) {
    forall x :: x in image ==> IsByteOf(bytes, partOffset, x, image[x])
  }

  // ----- filling a gap backwards -----

  /** The image after the sectors from `low` up to `end` have been written where they lie on the disk. */
  function Filled(image: Image, bytes: seq<byte>, low: nat, end: nat): Image
    requires low <= end <= |bytes|
  {
    Put(image, low, bytes[low..end])
  }

  lemma PutHas(image: Image, at: nat, data: seq<byte>, x: nat)
    ensures var r := Put(image, at, data);
            && (x in r <==> x in image || at <= x < at + |data|)
            && (x in r ==> r[x] == if at <= x < at + |data| then data[x - at] else image[x])
  {
    PutIs(image, at, data);
  }

  lemma FilledHas(image: Image, bytes: seq<byte>, low: nat, end: nat, x: nat)
    requires low <= end <= |bytes|
    ensures var f := Filled(image, bytes, low, end);
            && (x in f <==> x in image || low <= x < end)
            && (x in f ==> f[x] == if low <= x < end then bytes[x] else image[x])
  {
    PutIs(image, low, bytes[low..end]);
  }

  lemma FillOneMore(image: Image, bytes: seq<byte>, low: nat, mid: nat, end: nat)
    requires low <= mid <= end <= |bytes|
    ensures Put(Filled(image, bytes, mid, end), low, bytes[low..mid]) == Filled(image, bytes, low, end)
  {
    var upper, lower := Filled(image, bytes, mid, end), bytes[low..mid];
    var a, b := Put(upper, low, lower), Filled(image, bytes, low, end);
    forall x: nat
      ensures (x in a <==> x in b) && (x in a ==> a[x] == b[x])
    {
      PutHas(upper, low, lower, x);
      FilledHas(image, bytes, mid, end, x);
      FilledHas(image, bytes, low, end, x);
    }
    assert a == b;
  }

  /**
   * How far down a backward fill gets that has come to `low`: to the first sector that cannot be read. The first
   * sector of the gap is not tried again.
   */
  ghost function LowOf(disk: Source, start: nat, low: nat): (r: nat)
    requires 0 < disk.sectorSize
    ensures r <= low && (start < low ==> start < r)
    decreases low
  {
    if start + disk.sectorSize < low && disk.Delivers(low - disk.sectorSize, disk.sectorSize) == disk.sectorSize
    then LowOf(disk, start, low - disk.sectorSize)
    else low
  }

  /** The fill stops at the first sector of the gap or above one that cannot be read, and the lowest it copies can be. */
  lemma {:induction false} LowOfIsFirstFailure(disk: Source, start: nat, low: nat)
    requires 0 < disk.sectorSize
    ensures var r, ss := LowOf(disk, start, low), disk.sectorSize;
            && (r <= start + ss || disk.Delivers(r - ss, ss) != ss)
            && (r < low ==> disk.Delivers(r, ss) == ss)
    decreases low
  {
    var ss := disk.sectorSize;
    if start + ss < low && disk.Delivers(low - ss, ss) == ss {
      LowOfIsFirstFailure(disk, start, low - ss);
    }
  }

  /** Copy the sector at src; false if it cannot be read. */
  method FillSector(disk: Source, buffer: array<byte>, now: Image, ghost image: Image, ghost end: nat, ghost low: nat, src: nat)
    returns (ok: bool, next: Image)
    requires 0 < disk.sectorSize == buffer.Length && |disk.bytes| < 0x8000_0000_0000_0000
    requires low <= end <= |disk.bytes| && now == Filled(image, disk.bytes, low, end)
    requires src == if low >= disk.sectorSize then low - disk.sectorSize else low - disk.sectorSize + 0x1_0000_0000_0000_0000
    modifies buffer
    ensures ok <==> disk.sectorSize <= low && disk.Delivers(src, disk.sectorSize) == disk.sectorSize
    ensures ok ==> next == Filled(image, disk.bytes, src, end)
    ensures !ok ==> next == now
  {
    var res := Pread(disk, buffer, disk.sectorSize, src);
    ok := res == disk.sectorSize;
    next := now;
    if ok {
      FillOneMore(image, disk.bytes, src, low, end);
      next := Put(now, src, buffer[..disk.sectorSize]);
    }
  }

  /**
   * disk_image_backward: sector by sector down from the end of the gap, as long as the sectors can be read. A sector
   * that lies at `src` on the disk goes to `src` in the image.
   */
  method DiskImageBackward(disk: Source, image: Image, start: nat, end: nat) returns (image': Image)
    requires 0 < disk.sectorSize <= end && start < end <= |disk.bytes| < 0x8000_0000_0000_0000
    ensures image' == Filled(image, disk.bytes, LowOf(disk, start, end), end)
  {
    var buffer := new byte[disk.sectorSize](_ => 0);
    image' := image;
    ghost var low := end;
    var src: nat := end - disk.sectorSize;
    while src > start
      invariant start < low <= end && image' == Filled(image, disk.bytes, low, end)
      invariant src == if low >= disk.sectorSize then low - disk.sectorSize else low - disk.sectorSize + 0x1_0000_0000_0000_0000
      invariant LowOf(disk, start, low) == LowOf(disk, start, end)
      decreases low
    {
      var ok;
      ok, image' := FillSector(disk, buffer, image', image, end, low, src);
      if !ok {
        return;
      }
      low := src;
      src := if src >= disk.sectorSize then src - disk.sectorSize else src - disk.sectorSize + 0x1_0000_0000_0000_0000;
    }
  }

  // ----- the reads of the main loop -----

  /** One read: where the one before it was, where it is, how much was asked for, and what came back. */
  datatype Chunk = Chunk(last: nat, at: nat, size: nat, res: int) {
    predicate IsFull() {
      res == size
    }

    /** After a full read the copy goes on right behind it, after a failure or a short read far ahead. */
    function Following(): nat {
      at + if IsFull() then size else SKIP_SIZE
    }

    /** Does it come right behind a gap? */
    predicate ClosesGap() {
      0 < res && last + SKIP_SIZE == at
    }
  }

  /** After a failure or a short read a single sector is tried. */
  function Wanted(c: Chunk, sectorSize: nat): nat {
    if c.IsFull() then READ_SIZE else sectorSize
  }

  function ChunkAt(disk: Source, end: nat, at: nat, last: nat, wanted: nat): (c: Chunk)
    requires at < end
  {
    var size := if end - at < wanted then end - at else wanted;
    Chunk(last, at, size, disk.Delivers(at, size))
  }

  /** All reads from `at` on: the one before was at `last`, and `wanted` bytes are asked for first. */
  ghost function Reads(disk: Source, end: nat, at: nat, last: nat, wanted: nat): seq<Chunk>
    requires 0 < disk.sectorSize && 0 < wanted
    decreases end - at
  {
    if end <= at then []
    else
      var c := ChunkAt(disk, end, at, last, wanted);
      [c] + Reads(disk, end, c.Following(), at, Wanted(c, disk.sectorSize))
  }

  // ----- the image by value -----

  /** The image after all these writes, one after the other. */
  function Written(image: Image, writes: seq<Write>): Image
    decreases |writes|
  {
    if writes == [] then image else Written(Put(image, writes[0].at, writes[0].data), writes[1..])
  }

  lemma {:induction false} WrittenInParts(image: Image, a: seq<Write>, b: seq<Write>)
    ensures Written(image, a + b) == Written(Written(image, a), b)
    decreases |a|
  {
    if a == [] {
      assert a + b == b;
    } else {
      assert (a + b)[0] == a[0] && (a + b)[1..] == a[1..] + b;
      WrittenInParts(Put(image, a[0].at, a[0].data), a[1..], b);
    }
  }

  lemma {:induction false} UntouchedIsKept(image: Image, writes: seq<Write>, x: nat)
    requires forall i :: 0 <= i < |writes| ==> !Touches(writes[i], x)
    ensures var r := Written(image, writes);
            (x in r <==> x in image) && (x in r ==> r[x] == image[x])
    decreases |writes|
  {
    if writes != [] {
      var w := writes[0];
      assert !Touches(w, x);
      PutHas(image, w.at, w.data, x);
      UntouchedIsKept(Put(image, w.at, w.data), writes[1..], x);
    }
  }

  /** Later writes win: a place holds the byte that the last write touching it has there. */
  lemma LastWriteWins(image: Image, writes: seq<Write>, i: nat, x: nat)
    requires i < |writes| && Touches(writes[i], x)
    requires forall j :: i < j < |writes| ==> !Touches(writes[j], x)
    ensures var r := Written(image, writes);
            x in r && r[x] == writes[i].data[x - writes[i].at]
  {
    var w, rest := writes[i], writes[i + 1..];
    var before := Written(image, writes[..i]);
    assert writes == writes[..i] + ([w] + rest);
    WrittenInParts(image, writes[..i], [w] + rest);
    assert ([w] + rest)[1..] == rest;
    PutHas(before, w.at, w.data, x);
    UntouchedIsKept(Put(before, w.at, w.data), rest, x);
  }

  /** What one read writes: what it delivered, and then the sectors of the gap that it closes. */
  ghost function WritesOf(disk: Source, partOffset: nat, c: Chunk): seq<Write>
    requires 0 < disk.sectorSize && partOffset <= c.at && c.res == disk.Delivers(c.at, c.size)
  {
    if c.res <= 0 then []
    else
      [Write(c.at - partOffset, disk.bytes[c.at..c.at + c.res])]
      + if c.ClosesGap() then [FillOf(disk, c)] else []
  }

  /** The fill of a gap, as one write. */
  ghost function FillOf(disk: Source, c: Chunk): Write
    requires 0 < disk.sectorSize && c.at <= |disk.bytes|
  {
    var low := LowOf(disk, c.last, c.at);
    Write(low, disk.bytes[low..c.at])
  }

  ghost predicate AreReads(disk: Source, partOffset: nat, log: seq<Chunk>) {
    forall c :: c in log ==> partOffset <= c.at && c.res == disk.Delivers(c.at, c.size)
  }

  /** All writes of a copy, in order. */
  ghost function WritesOfAll(disk: Source, partOffset: nat, log: seq<Chunk>): seq<Write>
    requires 0 < disk.sectorSize && AreReads(disk, partOffset, log)
  {
    if log == [] then [] else WritesOf(disk, partOffset, log[0]) + WritesOfAll(disk, partOffset, log[1..])
  }

  lemma {:induction false} ReadsAreReads(disk: Source, partOffset: nat, end: nat, at: nat, last: nat, wanted: nat)
    requires 0 < disk.sectorSize && 0 < wanted && partOffset <= at
    ensures AreReads(disk, partOffset, Reads(disk, end, at, last, wanted))
    decreases end - at
  {
    if at < end {
      var c := ChunkAt(disk, end, at, last, wanted);
      ReadsAreReads(disk, partOffset, end, c.Following(), at, Wanted(c, disk.sectorSize));
    }
  }

  /** The writes from `at` on. */
  ghost function WritesFrom(disk: Source, partOffset: nat, end: nat, at: nat, last: nat, wanted: nat): seq<Write>
    requires 0 < disk.sectorSize && 0 < wanted && partOffset <= at
  {
    ReadsAreReads(disk, partOffset, end, at, last, wanted);
    WritesOfAll(disk, partOffset, Reads(disk, end, at, last, wanted))
  }

  lemma WritesOfOneRead(disk: Source, partOffset: nat, end: nat, at: nat, last: nat, wanted: nat)
    requires 0 < disk.sectorSize && 0 < wanted && partOffset <= at < end
    ensures var c := ChunkAt(disk, end, at, last, wanted);
            WritesFrom(disk, partOffset, end, at, last, wanted)
            == WritesOf(disk, partOffset, c) + WritesFrom(disk, partOffset, end, c.Following(), at, Wanted(c, disk.sectorSize))
  {
    var c := ChunkAt(disk, end, at, last, wanted);
    var rest := Reads(disk, end, c.Following(), at, Wanted(c, disk.sectorSize));
    ReadsAreReads(disk, partOffset, end, at, last, wanted);
    ReadsAreReads(disk, partOffset, end, c.Following(), at, Wanted(c, disk.sectorSize));
    assert ([c] + rest)[0] == c && ([c] + rest)[1..] == rest;
  }

  lemma WrittenByOneRead(disk: Source, partOffset: nat, end: nat, at: nat, last: nat, wanted: nat, image: Image)
    requires 0 < disk.sectorSize && 0 < wanted && partOffset <= at < end
    ensures var c := ChunkAt(disk, end, at, last, wanted);
            Written(image, WritesFrom(disk, partOffset, end, at, last, wanted))
            == Written(Written(image, WritesOf(disk, partOffset, c)),
                       WritesFrom(disk, partOffset, end, c.Following(), at, Wanted(c, disk.sectorSize)))
  {
    var c := ChunkAt(disk, end, at, last, wanted);
    WritesOfOneRead(disk, partOffset, end, at, last, wanted);
    WrittenInParts(image, WritesOf(disk, partOffset, c),
                   WritesFrom(disk, partOffset, end, c.Following(), at, Wanted(c, disk.sectorSize)));
  }

  lemma NothingLeft(disk: Source, partOffset: nat, end: nat, at: nat, last: nat, wanted: nat, image: Image)
    requires 0 < disk.sectorSize && 0 < wanted && partOffset <= at && end <= at
    ensures WritesFrom(disk, partOffset, end, at, last, wanted) == []
    ensures Written(image, WritesFrom(disk, partOffset, end, at, last, wanted)) == image
  {
    assert Reads(disk, end, at, last, wanted) == [];
  }

  /** The image that disk_image leaves for a partition and an image file that already holds `dst0` bytes. */
  ghost function Copied(disk: Source, partOffset: nat, partSize: nat, image0: Image, dst0: nat): Image
    requires 0 < disk.sectorSize
  {
    Written(image0, WritesFrom(disk, partOffset, partOffset + partSize, partOffset + dst0, partOffset + dst0, READ_SIZE))
  }

  /** Read one chunk and store what it delivers; fill the gap behind it if one has just been skipped. */
  method CopyChunk(disk: Source, buffer: array<byte>, readSize: nat, image: Image, srcOld: nat, src: nat, dst: nat,
                   ghost partOffset: nat)
    returns (res: int, image': Image)
    requires 0 < disk.sectorSize <= READ_SIZE && |disk.bytes| < 0x8000_0000_0000_0000
    requires 0 < readSize <= buffer.Length && src == partOffset + dst
    modifies buffer
    ensures res == disk.Delivers(src, readSize)
    ensures image' == Written(image, WritesOf(disk, partOffset, Chunk(srcOld, src, readSize, res)))
  {
    res := Pread(disk, buffer, readSize, src);
    image' := image;
    ghost var c := Chunk(srcOld, src, readSize, res);
    if res > 0 {
      image' := Put(image, dst, buffer[..res]);
      ghost var put := Write(dst, disk.bytes[src..src + res]);
      WrittenInParts(image, [put], []);
      if srcOld + SKIP_SIZE == src {
        WrittenInParts(image, [put], [FillOf(disk, c)]);
        image' := DiskImageBackward(disk, image', srcOld, src);
      }
    }
  }

  /** disk_image: the image is, byte for byte, what the writes of all reads make of it. */
  method CopyPartition(disk: Source, partOffset: nat, partSize: nat, image0: Image, dst0: nat) returns (image: Image)
    requires 0 < disk.sectorSize <= READ_SIZE && |disk.bytes| < 0x8000_0000_0000_0000
    ensures image == Copied(disk, partOffset, partSize, image0, dst0)
  {
    hide Written, WritesFrom, WritesOf;
    ghost var end := partOffset + partSize;
    var src: nat, dst: nat, readSize: nat := partOffset + dst0, dst0, READ_SIZE;
    var srcOld: nat := src;
    var buffer := new byte[READ_SIZE](_ => 0);
    image := image0;
    while src < partOffset + partSize
      invariant 0 < readSize <= READ_SIZE && src == partOffset + dst
      invariant Written(image, WritesFrom(disk, partOffset, end, src, srcOld, readSize))
                == Copied(disk, partOffset, partSize, image0, dst0)
      decreases partOffset + partSize - src
    {
      ghost var c := ChunkAt(disk, end, src, srcOld, readSize);
      WrittenByOneRead(disk, partOffset, end, src, srcOld, readSize, image);
      if partOffset + partSize - src < readSize {
        readSize := partOffset + partSize - src;
      }
      var res;
      res, image := CopyChunk(disk, buffer, readSize, image, srcOld, src, dst, partOffset);
      srcOld := src;
      if res == readSize {
        src, dst, readSize := src + readSize, dst + readSize, READ_SIZE;
      } else {
        src, dst, readSize := src + SKIP_SIZE, dst + SKIP_SIZE, disk.sectorSize;
      }
    }
    NothingLeft(disk, partOffset, end, src, srcOld, readSize, image);
  }

  // ----- when the image is right -----

  /** The data of a write are those of the partition at that place. */
  ghost predicate IsRight(w: Write, bytes: seq<byte>, partOffset: nat) {
    partOffset + w.at + |w.data| <= |bytes| && w.data == bytes[partOffset + w.at..partOffset + w.at + |w.data|]
  }

  lemma RightWriteKeepsFaithful(image: Image, bytes: seq<byte>, partOffset: nat, w: Write)
    requires IsFaithful(image, bytes, partOffset) && IsRight(w, bytes, partOffset)
    ensures IsFaithful(Put(image, w.at, w.data), bytes, partOffset)
  {
    var r := Put(image, w.at, w.data);
    forall x: nat | x in r
      ensures IsByteOf(bytes, partOffset, x, r[x])
    {
      PutHas(image, w.at, w.data, x);
      if !Touches(w, x) {
        assert IsByteOf(bytes, partOffset, x, image[x]);
      }
    }
  }

  lemma {:induction false} RightWritesKeepFaithful(image: Image, bytes: seq<byte>, partOffset: nat, writes: seq<Write>)
    requires IsFaithful(image, bytes, partOffset) && forall w :: w in writes ==> IsRight(w, bytes, partOffset)
    ensures IsFaithful(Written(image, writes), bytes, partOffset)
    decreases |writes|
  {
    if writes != [] {
      assert writes[0] in writes;
      RightWriteKeepsFaithful(image, bytes, partOffset, writes[0]);
      RightWritesKeepFaithful(Put(image, writes[0].at, writes[0].data), bytes, partOffset, writes[1..]);
    }
  }

  /** A gap is closed at least SKIP_SIZE behind `from`, by a read that delivers something: here there is no room for one. */
  ghost predicate CannotClose(size: nat, from: nat, end: nat) {
    from + SKIP_SIZE >= end || from + SKIP_SIZE >= size
  }

  lemma WritesOfReadAreRight(disk: Source, partOffset: nat, c: Chunk)
    requires 0 < disk.sectorSize && partOffset <= c.at && c.res == disk.Delivers(c.at, c.size)
    requires partOffset == 0 || !c.ClosesGap()
    ensures forall w :: w in WritesOf(disk, partOffset, c) ==> IsRight(w, disk.bytes, partOffset)
  {
  }

  lemma {:induction false} WritesAreRight(disk: Source, partOffset: nat, end: nat, at: nat, last: nat, wanted: nat, from: nat)
    requires 0 < disk.sectorSize && 0 < wanted <= READ_SIZE && disk.sectorSize <= READ_SIZE
    requires partOffset <= from <= last <= at
    requires partOffset == 0 || CannotClose(|disk.bytes|, from, end)
    ensures forall w :: w in WritesFrom(disk, partOffset, end, at, last, wanted) ==> IsRight(w, disk.bytes, partOffset)
    decreases end - at
  {
    if at < end {
      var c := ChunkAt(disk, end, at, last, wanted);
      WritesOfOneRead(disk, partOffset, end, at, last, wanted);
      WritesOfReadAreRight(disk, partOffset, c);
      WritesAreRight(disk, partOffset, end, c.Following(), at, Wanted(c, disk.sectorSize), from);
    } else {
      assert Reads(disk, end, at, last, wanted) == [];
    }
  }

  /** A copy is right if the partition starts at 0 or no gap can be closed. */
  lemma CopyIsFaithful(disk: Source, partOffset: nat, partSize: nat, image0: Image, dst0: nat)
    requires 0 < disk.sectorSize <= READ_SIZE && IsFaithful(image0, disk.bytes, partOffset)
    requires partOffset == 0 || CannotClose(|disk.bytes|, partOffset + dst0, partOffset + partSize)
    ensures IsFaithful(Copied(disk, partOffset, partSize, image0, dst0), disk.bytes, partOffset)
  {
    hide WritesFrom, Written, IsFaithful, IsRight;
    var start, end := partOffset + dst0, partOffset + partSize;
    WritesAreRight(disk, partOffset, end, start, start, READ_SIZE, start);
    RightWritesKeepFaithful(image0, disk.bytes, partOffset, WritesFrom(disk, partOffset, end, start, start, READ_SIZE));
  }

  /** A disk that is zero but for one byte. */
  function OneByte(size: nat, at: nat): (bytes: seq<byte>)
    ensures |bytes| == size && forall i :: 0 <= i < size ==> bytes[i] == if i == at then 1 else 0
  {
    seq<byte>(size, i => if i == at then 1 else 0)
  }

  /** Reads fail but for one byte at `at` and the sector in front of it. */
  function OnlyAround(at: nat, sectorSize: nat): (nat, nat) -> int {
    (a: nat, n: nat) => if a == at then 1 else if a + sectorSize == at && n == sectorSize then n else -1
  }

  /** The disk whose byte in front of a closed gap's end differs from the one that belongs there. */
  function BadDisk(sectorSize: nat, size: nat, at: nat): Source
    requires 0 < at
  {
    Source(sectorSize, OneByte(size, at - 1), OnlyAround(at, sectorSize))
  }

  /** After a read at or behind `at` has been tried, nothing more is delivered. */
  lemma {:induction false} NothingFollows(disk: Source, partOffset: nat, end: nat, at: nat, from: nat, last: nat, wanted: nat)
    requires 0 < disk.sectorSize <= READ_SIZE < at && 0 < wanted <= READ_SIZE && partOffset <= from
    requires disk.got == OnlyAround(at, disk.sectorSize) && at < from
    ensures WritesFrom(disk, partOffset, end, from, last, wanted) == []
    decreases end - from
  {
    if from < end {
      var c := ChunkAt(disk, end, from, last, wanted);
      WritesOfOneRead(disk, partOffset, end, from, last, wanted);
      NothingFollows(disk, partOffset, end, at, c.Following(), from, Wanted(c, disk.sectorSize));
    } else {
      assert Reads(disk, end, from, last, wanted) == [];
    }
  }

  /** On such a disk the copy makes two writes: one byte, and the fill in front of it. */
  lemma BadDiskWrites(sectorSize: nat, partOffset: nat, start: nat, end: nat, size: nat)
    requires 0 < sectorSize <= READ_SIZE && partOffset <= start && start + SKIP_SIZE < end && start + SKIP_SIZE < size
    ensures var at := start + SKIP_SIZE;
            var disk := BadDisk(sectorSize, size, at);
            && LowOf(disk, start, at) < at
            && WritesFrom(disk, partOffset, end, start, start, READ_SIZE)
               == [Write(at - partOffset, disk.bytes[at..at + 1]), FillOf(disk, Chunk(start, at, 1, 1))]
  {
    hide WritesFrom;
    var at := start + SKIP_SIZE;
    var disk := BadDisk(sectorSize, size, at);
    var c := ChunkAt(disk, end, start, start, READ_SIZE);
    WritesOfOneRead(disk, partOffset, end, start, start, READ_SIZE);
    assert c.res == -1 && c.Following() == at && WritesOf(disk, partOffset, c) == [];
    var d := ChunkAt(disk, end, at, start, sectorSize);
    WritesOfOneRead(disk, partOffset, end, at, start, sectorSize);
    assert d.res == 1 && d.ClosesGap();
    NothingFollows(disk, partOffset, end, at, d.Following(), at, Wanted(d, sectorSize));
    assert disk.Delivers(at - sectorSize, sectorSize) == sectorSize;
  }

  lemma BadDiskIsCopiedWrong(sectorSize: nat, partOffset: nat, partSize: nat, dst0: nat, size: nat)
    requires 0 < sectorSize <= READ_SIZE && 0 < partOffset
    requires !CannotClose(size, partOffset + dst0, partOffset + partSize)
    ensures var disk := BadDisk(sectorSize, size, partOffset + dst0 + SKIP_SIZE);
            !IsFaithful(Copied(disk, partOffset, partSize, map[], dst0), disk.bytes, partOffset)
  {
    hide Written, WritesFrom, LowOf, OneByte, OnlyAround;
    var start, end := partOffset + dst0, partOffset + partSize;
    var at := start + SKIP_SIZE;
    var disk := BadDisk(sectorSize, size, at);
    BadDiskWrites(sectorSize, partOffset, start, end, size);
    var writes := WritesFrom(disk, partOffset, end, start, start, READ_SIZE);
    assert writes[1].data[at - 1 - writes[1].at] == disk.bytes[at - 1] == 1;
    LastWriteWins(map[], writes, 1, at - 1);
    assert !IsByteOf(disk.bytes, partOffset, at - 1, 1);
  }

  /** For every disk of this size, every pattern of failures and every right beginning, the copy is right. */
  ghost predicate AllCopiesAreRight(sectorSize: nat, size: nat, partOffset: nat, partSize: nat, dst0: nat)
    requires 0 < sectorSize
  {
    forall disk: Source, image0: Image ::
      disk.sectorSize == sectorSize && |disk.bytes| == size && IsFaithful(image0, disk.bytes, partOffset) ==>
        IsFaithful(Copied(disk, partOffset, partSize, image0, dst0), disk.bytes, partOffset)
  }

  /**
   * Copies are right whatever fails exactly for partitions that start at 0, for those that are too short behind the
   * bytes already copied, and for disks that end before the first gap could be closed.
   */
  lemma CopiesAreRightIff(sectorSize: nat, size: nat, partOffset: nat, partSize: nat, dst0: nat)
    requires 0 < sectorSize <= READ_SIZE
    ensures AllCopiesAreRight(sectorSize, size, partOffset, partSize, dst0) <==>
              partOffset == 0 || dst0 + SKIP_SIZE >= partSize || partOffset + dst0 + SKIP_SIZE >= size
  {
    if partOffset == 0 || CannotClose(size, partOffset + dst0, partOffset + partSize) {
      forall disk: Source, image0: Image |
        disk.sectorSize == sectorSize && |disk.bytes| == size && IsFaithful(image0, disk.bytes, partOffset)
        ensures IsFaithful(Copied(disk, partOffset, partSize, image0, dst0), disk.bytes, partOffset)
      {
        CopyIsFaithful(disk, partOffset, partSize, image0, dst0);
      }
    } else {
      var disk := BadDisk(sectorSize, size, partOffset + dst0 + SKIP_SIZE);
      BadDiskIsCopiedWrong(sectorSize, partOffset, partSize, dst0, size);
      assert IsFaithful(map[], disk.bytes, partOffset);
    }
  }

  /** Every read below `end` delivers all it is asked for. */
  ghost predicate NeverFails(disk: Source, end: nat) {
    forall at: nat, n: nat :: at + n <= end && 0 < n ==> disk.Delivers(at, n) == n
  }

  lemma {:induction false} PutJoined(image: Image, at: nat, mid: nat, s: seq<byte>, t: seq<byte>)
    requires mid == at + |s|
    ensures Put(Put(image, at, s), mid, t) == Put(image, at, s + t)
  {
    if t == [] {
      assert s + t == s;
    } else {
      var n := |t| - 1;
      PutJoined(image, at, mid, s, t[..n]);
      assert (s + t)[..|s + t| - 1] == s + t[..n];
      assert (s + t)[|s + t| - 1] == t[n];
    }
  }

  lemma {:induction false} WritesWithoutFailure(disk: Source, partOffset: nat, end: nat, at: nat, last: nat, image: Image)
    requires 0 < disk.sectorSize && partOffset <= at <= end <= |disk.bytes| && last + SKIP_SIZE != at
    requires NeverFails(disk, end)
    ensures Written(image, WritesFrom(disk, partOffset, end, at, last, READ_SIZE))
            == Put(image, at - partOffset, disk.bytes[at..end])
    decreases end - at
  {
    hide Written, WritesFrom, WritesOf;
    if at < end {
      var c := ChunkAt(disk, end, at, last, READ_SIZE);
      var mid := c.Following();
      WrittenByOneRead(disk, partOffset, end, at, last, READ_SIZE, image);
      WriteOfFullRead(disk, partOffset, c, image);
      WritesWithoutFailure(disk, partOffset, end, mid, at, Put(image, at - partOffset, disk.bytes[at..mid]));
      PutJoined(image, at - partOffset, mid - partOffset, disk.bytes[at..mid], disk.bytes[mid..end]);
      assert disk.bytes[at..mid] + disk.bytes[mid..end] == disk.bytes[at..end];
    } else {
      NothingLeft(disk, partOffset, end, at, last, READ_SIZE, image);
    }
  }

  lemma WriteOfFullRead(disk: Source, partOffset: nat, c: Chunk, image: Image)
    requires 0 < disk.sectorSize && partOffset <= c.at && 0 < c.size
    requires c.res == disk.Delivers(c.at, c.size) == c.size && !c.ClosesGap()
    ensures Written(image, WritesOf(disk, partOffset, c)) == Put(image, c.at - partOffset, disk.bytes[c.at..c.Following()])
  {
    WrittenInParts(image, WritesOf(disk, partOffset, c), []);
  }

  /** Without a failure the image gets the whole rest of the partition. */
  lemma CopyIsComplete(disk: Source, partOffset: nat, partSize: nat, image0: Image, dst0: nat)
    requires 0 < disk.sectorSize && dst0 <= partSize && partOffset + partSize <= |disk.bytes|
    requires NeverFails(disk, partOffset + partSize)
    ensures Copied(disk, partOffset, partSize, image0, dst0)
            == Put(image0, dst0, disk.bytes[partOffset + dst0..partOffset + partSize])
  {
    hide Written, WritesFrom, NeverFails;
    WritesWithoutFailure(disk, partOffset, partOffset + partSize, partOffset + dst0, partOffset + dst0, image0);
  }

  /** A partition at sector 1 of a disk with 512-byte sectors, whose first read fails and which can be read at 512 + SKIP_SIZE. */
  function SampleDisk(): Source {
    Source(512, OneByte(SKIP_SIZE + 1024, SKIP_SIZE),
           (at: nat, n: nat) => if at == SKIP_SIZE || at == SKIP_SIZE + 512 then n else -1)
  }

  /** The fill writes the sector in front over the one that has just been read at the right place. */
  lemma FillOverwritesWhatWasRead()
    ensures var disk := SampleDisk();
            var image := Copied(disk, 512, SKIP_SIZE + 512, map[], 0);
            && disk.Delivers(SKIP_SIZE + 512, 512) == 512 && disk.bytes[512 + SKIP_SIZE] == 0
            && SKIP_SIZE in image && image[SKIP_SIZE] == 1
  {
    hide WritesFrom, Written;
    var disk, end, at := SampleDisk(), SKIP_SIZE + 1024, SKIP_SIZE + 512;
    var c := ChunkAt(disk, end, 512, 512, READ_SIZE);
    WritesOfOneRead(disk, 512, end, 512, 512, READ_SIZE);
    assert c.res == -1 && c.Following() == at && WritesOf(disk, 512, c) == [];
    var d := ChunkAt(disk, end, at, 512, 512);
    WritesOfOneRead(disk, 512, end, at, 512, 512);
    assert d.IsFull() && d.ClosesGap();
    NothingLeft(disk, 512, end, end, at, READ_SIZE, map[]);
    assert LowOf(disk, 512, at) == SKIP_SIZE;
    var writes := WritesFrom(disk, 512, end, 512, 512, READ_SIZE);
    assert writes == [Write(SKIP_SIZE, disk.bytes[at..end]), Write(SKIP_SIZE, disk.bytes[SKIP_SIZE..at])];
    LastWriteWins(map[], writes, 1, SKIP_SIZE);
  }
}
