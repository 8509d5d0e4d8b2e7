/** What reads through the cache deliver, after any sequence of reads and writes. */
module CacheTheorems {
  import opened Arith
  import opened Bytes
  import opened Disks
  import opened DiskCache
  import opened Options
  import opened Seqs

  // ----- what every buffer keeps -----

  /** The buffer holds what the disk holds, as far as its status says, and zeros. */
  ghost predicate IsTrue(bytes: seq<byte>, slot: Slot) {
    slot.data != [] ==>
      && slot.status <= |slot.data| && (0 < slot.status ==> slot.offset + slot.status <= |bytes|)
      && slot.data == Content(bytes, slot.offset, slot.status, |slot.data|)
  }

  ghost predicate AllTrue(bytes: seq<byte>, s: State) {
    forall i :: 0 <= i < |s.slots| ==> IsTrue(bytes, s.slots[i])
  }

  /** Every byte is that of the disk or zero. */
  ghost predicate IsMixed(bytes: seq<byte>, offset: nat, data: seq<byte>) {
    forall k :: 0 <= k < |data| ==> data[k] == 0 || data[k] == Padded(bytes, offset + k)
  }

  lemma MixedParts(bytes: seq<byte>, offset: nat, a: seq<byte>, b: seq<byte>)
    requires IsMixed(bytes, offset, a) && IsMixed(bytes, offset + |a|, b)
    ensures IsMixed(bytes, offset, a + b)
  {
    forall k | 0 <= k < |a + b|
      ensures (a + b)[k] == 0 || (a + b)[k] == Padded(bytes, offset + k)
    {
      if |a| <= k {
        assert (a + b)[k] == b[k - |a|];
      }
    }
  }

  lemma SlotIsMixed(bytes: seq<byte>, slot: Slot, skip: nat, count: nat)
    requires IsTrue(bytes, slot) && skip + count <= |slot.data|
    ensures IsMixed(bytes, slot.offset + skip, slot.data[skip..skip + count])
  {
  }

  lemma FilledIsTrue(d: Source, s: State, size: nat, offset: nat)
    requires s.Valid() && AllTrue(d.bytes, s)
    ensures AllTrue(d.bytes, Filled(d, s, size, offset)) && AllTrue(d.bytes, Dropped(Filled(d, s, size, offset)))
  {
  }

  /** A read leaves bytes of the disk and zeros, counts at most what it was asked for, and keeps the buffers true. */
  lemma {:induction false} ReadAuxIsSound(u: Setup, d: Source, s: State, count: nat, offset: nat, ahead: bool)
    requires s.Valid() && 0 < count && AllTrue(d.bytes, s)
    ensures var o := ReadAux(u, d, s, count, offset, ahead);
            AllTrue(d.bytes, o.state) && o.res <= count && IsMixed(d.bytes, offset, o.data)
    decreases if ahead then 2 else if u.sectorSize < count then 1 else 0, count, 1
  {
    hide IsTrue, IsMixed, AllTrue, ReadMissing, Find;
    var found := Find(s.slots, s.last, CACHE_BUFFER_NBR, offset);
    if found.None? {
      ReadMissingIsSound(u, d, s, count, offset, ahead);
    } else {
      var slot := s.slots[found.value];
      var available := slot.offset + |slot.data| - offset;
      SlotOfTrue(d.bytes, s, found.value);
      HitIsMixed(d.bytes, slot, offset, Min(count, available));
      if available < count {
        ReadAuxIsSound(u, d, s, count - available, offset + available, ahead);
        MixedParts(d.bytes, offset, slot.data[offset - slot.offset..],
                   ReadAux(u, d, s, count - available, offset + available, ahead).data);
      }
    }
  }

  lemma HitIsMixed(bytes: seq<byte>, slot: Slot, offset: nat, count: nat)
    requires IsTrue(bytes, slot) && Hits(slot, offset) && offset + count <= slot.offset + |slot.data|
    ensures var skip := offset - slot.offset;
            && IsMixed(bytes, offset, slot.data[skip..skip + count])
            && (skip + count == |slot.data| ==> IsMixed(bytes, offset, slot.data[skip..]))
  {
    SlotIsMixed(bytes, slot, offset - slot.offset, count);
  }

  lemma SlotOfTrue(bytes: seq<byte>, s: State, i: nat)
    requires AllTrue(bytes, s) && i < |s.slots|
    ensures IsTrue(bytes, s.slots[i]) && (s.slots[i].data != [] ==> s.slots[i].status <= |s.slots[i].data|)
  {
  }

  lemma {:induction false} ReadMissingIsSound(u: Setup, d: Source, s: State, count: nat, offset: nat, ahead: bool)
    requires s.Valid() && 0 < count && AllTrue(d.bytes, s)
    ensures var o := ReadMissing(u, d, s, count, offset, ahead);
            AllTrue(d.bytes, o.state) && o.res <= count && IsMixed(d.bytes, offset, o.data)
    decreases if ahead then 2 else if u.sectorSize < count then 1 else 0, count, 0
  {
    hide IsTrue, IsMixed, Split, Content, Status;
    var size := ReadSize(u, count, offset, ahead);
    var t := Filled(d, s, size, offset);
    FilledIsTrue(d, s, size, offset);
    SlotIsMixed(d.bytes, t.slots[t.last], 0, count);
    if !(count <= t.slots[t.last].status || size <= u.sectorSize || u.sectorSize == 0 || 0 < s.errors) {
      SplitIsSound(u, d, Dropped(t).(errors := s.errors + 1), count, offset, 0);
    }
  }

  lemma {:induction false} SplitIsSound(u: Setup, d: Source, s: State, count: nat, offset: nat, off: nat)
    requires s.Valid() && 0 < u.sectorSize && off <= count && AllTrue(d.bytes, s)
    ensures var o := Split(u, d, s, count, offset, off);
            AllTrue(d.bytes, o.state) && o.res <= count && IsMixed(d.bytes, offset + off, o.data)
    decreases 1, 0, count - off
  {
    hide IsTrue, IsMixed, AllTrue, ReadAux;
    if off < count {
      var n := Min(u.sectorSize, count - off);
      var one := ReadAux(u, d, s, n, offset + off, false);
      ReadAuxIsSound(u, d, s, n, offset + off, false);
      if one.res <= 0 {
        ZerosAreMixed(d.bytes, offset + off + n, count - off - n);
        MixedParts(d.bytes, offset + off, one.data, Zeros(count - off - n));
      } else {
        SplitIsSound(u, d, one.state, count, offset, off + n);
        MixedParts(d.bytes, offset + off, one.data, Split(u, d, one.state, count, offset, off + n).data);
      }
    } else {
      ZerosAreMixed(d.bytes, offset + off, 0);
    }
  }

  lemma ZerosAreMixed(bytes: seq<byte>, offset: nat, n: nat)
    ensures IsMixed(bytes, offset, Zeros(n)) && IsMixed(bytes, offset, [])
  {
  }

  /** After a write, the buffers that it has not dropped are still true. */
  lemma WriteKeepsTrue(bytes: seq<byte>, s: State, at: nat, data: seq<byte>)
    requires s.Valid() && AllTrue(bytes, s) && data != []
    ensures AllTrue(Stored(bytes, at, data), Discarded(s, at, |data|))
  {
    var later, t := Stored(bytes, at, data), Discarded(s, at, |data|);
    forall i | 0 <= i < CACHE_BUFFER_NBR
      ensures IsTrue(later, t.slots[i])
    {
      if t.slots[i].data != [] {
        KeptContent(bytes, s.slots[i], at, data);
      }
    }
  }

  lemma KeptContent(bytes: seq<byte>, slot: Slot, at: nat, data: seq<byte>)
    requires IsTrue(bytes, slot) && slot.data != [] && data != [] && !Overlaps(slot, at, |data|)
    ensures IsTrue(Stored(bytes, at, data), slot)
  {
    var later := Stored(bytes, at, data);
    forall k | 0 <= k < |slot.data|
      ensures Content(later, slot.offset, slot.status, |slot.data|)[k] == slot.data[k]
    {
    }
    assert Content(later, slot.offset, slot.status, |slot.data|) == slot.data;
  }

  // ----- any sequence of reads and writes -----

  datatype Request = ReadOf(count: nat, offset: nat) | WriteOf(at: nat, data: seq<byte>)

  /** No request is empty. */
  predicate IsProper(r: Request) {
    match r
    case ReadOf(count, _) => 0 < count
    case WriteOf(_, data) => data != []
  }

  ghost predicate AllProper(requests: seq<Request>) {
    forall i :: 0 <= i < |requests| ==> IsProper(requests[i])
  }

  type Reply = (nat, nat, nat) -> int

  /** The disk and its cache. */
  datatype World = World(bytes: seq<byte>, cache: State)

  function Serve(u: Setup, reply: Reply, w: World, r: Request): (v: World)
    requires w.cache.Valid() && IsProper(r)
    ensures v.cache.Valid() && |v.bytes| == |w.bytes|
  {
    match r
    case ReadOf(count, offset) => World(w.bytes, Read(u, Source(w.bytes, reply), w.cache, count, offset).state)
    case WriteOf(at, data) => World(Stored(w.bytes, at, data), Discarded(w.cache, at, |data|))
  }

  /** The disk and its cache, empty at first, after all these requests. */
  ghost function Served(u: Setup, reply: Reply, bytes: seq<byte>, requests: seq<Request>): (w: World)
    requires AllProper(requests)
    ensures w.cache.Valid() && |w.bytes| == |bytes|
  {
    if requests == [] then World(bytes, Empty())
    else Serve(u, reply, Served(u, reply, bytes, requests[..|requests| - 1]), requests[|requests| - 1])
  }

  /** The disk alone, after the writes among these requests. */
  function Plain(bytes: seq<byte>, requests: seq<Request>): (r: seq<byte>)
    ensures |r| == |bytes|
  {
    if requests == [] then bytes
    else
      var before := Plain(bytes, requests[..|requests| - 1]);
      match requests[|requests| - 1]
      case ReadOf(_, _) => before
      case WriteOf(at, data) => Stored(before, at, data)
  }

  lemma {:induction false} ServedIsTrue(u: Setup, reply: Reply, bytes: seq<byte>, requests: seq<Request>)
    requires AllProper(requests)
    ensures var w := Served(u, reply, bytes, requests);
            w.bytes == Plain(bytes, requests) && AllTrue(w.bytes, w.cache)
  {
    hide AllTrue;
    if requests == [] {
      EmptyIsTrue(bytes);
    } else {
      ServedIsTrue(u, reply, bytes, requests[..|requests| - 1]);
      var w := Served(u, reply, bytes, requests[..|requests| - 1]);
      match requests[|requests| - 1]
      case ReadOf(count, offset) =>
        ReadAuxIsSound(u, Source(w.bytes, reply), w.cache, count, offset, w.cache.errors == 0);
      case WriteOf(at, data) =>
        WriteKeepsTrue(w.bytes, w.cache, at, data);
    }
  }

  lemma EmptyIsTrue(bytes: seq<byte>)
    ensures AllTrue(bytes, Empty())
  {
  }

  /**
   * Whatever the disk delivers and whenever it fails, a read through the cache leaves nothing in the buffer but bytes that
   * the disk holds now, and zeros: stale data is never seen.
   */
  lemma NothingStaleIsRead(u: Setup, reply: Reply, bytes: seq<byte>, requests: seq<Request>, count: nat, offset: nat)
    returns (got: Delivery)
    requires AllProper(requests) && 0 < count
    ensures var w, now := Served(u, reply, bytes, requests), Plain(bytes, requests);
            var o := Read(u, Source(w.bytes, reply), w.cache, count, offset);
            w.bytes == now && o.data == Delivered(now, got, offset, count) && o.res <= count
  {
    hide Served, AllTrue, ReadAux, IsMixed;
    ServedIsTrue(u, reply, bytes, requests);
    var w := Served(u, reply, bytes, requests);
    ReadAuxIsSound(u, Source(w.bytes, reply), w.cache, count, offset, w.cache.errors == 0);
    got := MixedIsDelivered(w.bytes, offset, Read(u, Source(w.bytes, reply), w.cache, count, offset).data);
  }

  lemma MixedIsDelivered(bytes: seq<byte>, offset: nat, data: seq<byte>) returns (got: Delivery)
    requires IsMixed(bytes, offset, data)
    ensures data == Delivered(bytes, got, offset, |data|)
  {
    got := (at: nat, x: nat) => offset <= x < offset + |data| && data[x - offset] == Padded(bytes, x);
    forall k | 0 <= k < |data|
      ensures data[k] == Delivered(bytes, got, offset, |data|)[k]
    {
    }
  }

  // ----- a disk that never fails -----

  /** Every read delivers all that the disk has of its range. */
  ghost predicate NeverFails(reply: Reply) {
    forall call: nat, at: nat, n: nat :: n <= reply(call, at, n)
  }

  /** How much of the range the disk has, or -1. */
  function Reach(size: nat, offset: nat, count: nat): int {
    if size <= offset then -1 else Min(count, size - offset)
  }

  /** The buffer is what a read of the disk would leave now. */
  ghost predicate IsCurrent(bytes: seq<byte>, slot: Slot) {
    slot.data != [] ==>
      slot.data == Window(bytes, slot.offset, |slot.data|) && slot.status == Reach(|bytes|, slot.offset, |slot.data|)
  }

  ghost predicate AllCurrent(bytes: seq<byte>, s: State) {
    forall i :: 0 <= i < |s.slots| ==> IsCurrent(bytes, s.slots[i])
  }

  /** Does a read leave what a read of the disk would, and count it if all of the range is on the disk? */
  ghost predicate IsPlainRead(bytes: seq<byte>, offset: nat, count: nat, data: seq<byte>, res: int) {
    data == Window(bytes, offset, count) && (offset + count <= |bytes| ==> res == count)
  }

  lemma PlainParts(bytes: seq<byte>, offset: nat, n: nat, a: seq<byte>, res: int, m: nat, b: seq<byte>, more: int)
    requires IsPlainRead(bytes, offset, n, a, res) && IsPlainRead(bytes, offset + n, m, b, more)
    ensures IsPlainRead(bytes, offset, n + m, a + b, res + more)
  {
  }

  lemma HitIsPlain(bytes: seq<byte>, slot: Slot, offset: nat, count: nat)
    requires IsCurrent(bytes, slot) && Hits(slot, offset) && 0 < count && offset + count <= slot.offset + |slot.data|
    ensures var skip := offset - slot.offset;
            && IsPlainRead(bytes, offset, count, slot.data[skip..skip + count], Min(slot.status - skip, count))
            && (skip + count == |slot.data| ==> IsPlainRead(bytes, offset, count, slot.data[skip..], slot.status - skip))
  {
    var skip := offset - slot.offset;
    assert slot.data[skip..skip + count] == Window(bytes, offset, count);
    assert skip + count == |slot.data| ==> slot.data[skip..] == slot.data[skip..skip + count];
  }

  lemma FilledIsCurrent(d: Source, s: State, size: nat, offset: nat)
    requires s.Valid() && AllCurrent(d.bytes, s) && NeverFails(d.reply) && 0 < size
    ensures AllCurrent(d.bytes, Filled(d, s, size, offset)) && AllCurrent(d.bytes, Dropped(Filled(d, s, size, offset)))
  {
    var status := Status(d, s.calls, offset, size);
    assert size <= d.reply(s.calls, offset, size);
    assert status == Reach(|d.bytes|, offset, size);
    assert Content(d.bytes, offset, status, size) == Window(d.bytes, offset, size);
  }

  lemma {:induction false} ReadAuxIsPlain(u: Setup, d: Source, s: State, count: nat, offset: nat, ahead: bool)
    requires s.Valid() && 0 < count && AllCurrent(d.bytes, s) && NeverFails(d.reply)
    ensures var o := ReadAux(u, d, s, count, offset, ahead);
            AllCurrent(d.bytes, o.state) && IsPlainRead(d.bytes, offset, count, o.data, o.res)
    decreases if ahead then 2 else if u.sectorSize < count then 1 else 0, count, 1
  {
    hide IsCurrent, IsPlainRead, ReadMissing, Find, NeverFails;
    var found := Find(s.slots, s.last, CACHE_BUFFER_NBR, offset);
    if found.None? {
      ReadMissingIsPlain(u, d, s, count, offset, ahead);
    } else {
      var slot := s.slots[found.value];
      var skip, available := offset - slot.offset, slot.offset + |slot.data| - offset;
      HitIsPlain(d.bytes, slot, offset, Min(count, available));
      if available < count {
        ReadAuxIsPlain(u, d, s, count - available, offset + available, ahead);
        var rest := ReadAux(u, d, s, count - available, offset + available, ahead);
        PlainParts(d.bytes, offset, available, slot.data[skip..], slot.status - skip, count - available, rest.data, rest.res);
      }
    }
  }

  lemma {:induction false} ReadMissingIsPlain(u: Setup, d: Source, s: State, count: nat, offset: nat, ahead: bool)
    requires s.Valid() && 0 < count && AllCurrent(d.bytes, s) && NeverFails(d.reply)
    ensures var o := ReadMissing(u, d, s, count, offset, ahead);
            AllCurrent(d.bytes, o.state) && IsPlainRead(d.bytes, offset, count, o.data, o.res)
    decreases if ahead then 2 else if u.sectorSize < count then 1 else 0, count, 0
  {
    hide Split, Content, Status, NeverFails, Window, IsCurrent;
    var size := ReadSize(u, count, offset, ahead);
    var t := Filled(d, s, size, offset);
    FilledIsCurrent(d, s, size, offset);
    FirstOfSlot(d.bytes, t.slots[t.last], count);
    if !(count <= t.slots[t.last].status || size <= u.sectorSize || u.sectorSize == 0 || 0 < s.errors) {
      SplitIsPlain(u, d, Dropped(t).(errors := s.errors + 1), count, offset, 0);
    }
  }

  lemma FirstOfSlot(bytes: seq<byte>, slot: Slot, count: nat)
    requires IsCurrent(bytes, slot) && 0 < count <= |slot.data|
    ensures IsPlainRead(bytes, slot.offset, count, slot.data[..count], Min(count, slot.status))
  {
  }

  lemma {:induction false} SplitIsPlain(u: Setup, d: Source, s: State, count: nat, offset: nat, off: nat)
    requires s.Valid() && 0 < u.sectorSize && off <= count && AllCurrent(d.bytes, s) && NeverFails(d.reply)
    ensures var o := Split(u, d, s, count, offset, off);
            && AllCurrent(d.bytes, o.state) && o.data == Window(d.bytes, offset + off, count - off)
            && (offset + count <= |d.bytes| ==> o.res == count)
    decreases 1, 0, count - off
  {
    hide AllCurrent, ReadAux, NeverFails;
    if off < count {
      var n := Min(u.sectorSize, count - off);
      var one := ReadAux(u, d, s, n, offset + off, false);
      ReadAuxIsPlain(u, d, s, n, offset + off, false);
      if one.res > 0 {
        SplitIsPlain(u, d, one.state, count, offset, off + n);
      }
    }
  }

  lemma WriteKeepsCurrent(bytes: seq<byte>, s: State, at: nat, data: seq<byte>)
    requires s.Valid() && AllCurrent(bytes, s) && data != []
    ensures AllCurrent(Stored(bytes, at, data), Discarded(s, at, |data|))
  {
    var later, t := Stored(bytes, at, data), Discarded(s, at, |data|);
    forall i | 0 <= i < CACHE_BUFFER_NBR
      ensures IsCurrent(later, t.slots[i])
    {
      if t.slots[i].data != [] {
        KeptWindow(bytes, s.slots[i], at, data);
      }
    }
  }

  lemma KeptWindow(bytes: seq<byte>, slot: Slot, at: nat, data: seq<byte>)
    requires IsCurrent(bytes, slot) && slot.data != [] && data != [] && !Overlaps(slot, at, |data|)
    ensures IsCurrent(Stored(bytes, at, data), slot)
  {
    assert Window(Stored(bytes, at, data), slot.offset, |slot.data|) == slot.data;
  }

  lemma {:induction false} ServedIsCurrent(u: Setup, reply: Reply, bytes: seq<byte>, requests: seq<Request>)
    requires AllProper(requests) && NeverFails(reply)
    ensures var w := Served(u, reply, bytes, requests);
            w.bytes == Plain(bytes, requests) && AllCurrent(w.bytes, w.cache)
  {
    hide AllCurrent, NeverFails;
    if requests == [] {
      EmptyIsCurrent(bytes);
    } else {
      ServedIsCurrent(u, reply, bytes, requests[..|requests| - 1]);
      var w := Served(u, reply, bytes, requests[..|requests| - 1]);
      match requests[|requests| - 1]
      case ReadOf(count, offset) =>
        ReadAuxIsPlain(u, Source(w.bytes, reply), w.cache, count, offset, w.cache.errors == 0);
      case WriteOf(at, data) =>
        WriteKeepsCurrent(w.bytes, w.cache, at, data);
    }
  }

  lemma EmptyIsCurrent(bytes: seq<byte>)
    ensures AllCurrent(bytes, Empty())
  {
  }

  /**
   * In front of a disk that never fails the cache cannot be noticed: after any reads and writes, a read leaves in the buffer
   * what the disk alone would leave there, and counts all of it if it lies on the disk.
   */
  lemma CacheIsTransparent(u: Setup, reply: Reply, bytes: seq<byte>, requests: seq<Request>, count: nat, offset: nat)
    requires AllProper(requests) && NeverFails(reply) && 0 < count
    ensures var w := Served(u, reply, bytes, requests);
            var o := Read(u, Source(w.bytes, reply), w.cache, count, offset);
            IsPlainRead(Plain(bytes, requests), offset, count, o.data, o.res)
  {
    hide Served, AllCurrent, ReadAux, NeverFails, IsPlainRead;
    ServedIsCurrent(u, reply, bytes, requests);
    var w := Served(u, reply, bytes, requests);
    ReadAuxIsPlain(u, Source(w.bytes, reply), w.cache, count, offset, w.cache.errors == 0);
  }

  // ----- a disk that delivers whole sectors or nothing -----

  /** No read of whole sectors ends inside a sector. */
  ghost predicate GivesSectors(u: Setup, d: Source)
    requires 0 < u.sectorSize
  {
    forall call: nat, at: nat, n: nat :: Multiple(at, u.sectorSize) && Multiple(n, u.sectorSize) ==>
      Status(d, call, at, n) <= 0 || Multiple(Status(d, call, at, n), u.sectorSize)
  }

  predicate IsSectored(u: Setup, slot: Slot)
    requires 0 < u.sectorSize
  {
    slot.data != [] ==>
      && Multiple(slot.offset, u.sectorSize) && Multiple(|slot.data|, u.sectorSize)
      && (slot.status <= 0 || Multiple(slot.status, u.sectorSize))
  }

  ghost predicate AllSectored(u: Setup, s: State)
    requires 0 < u.sectorSize
  {
    forall i :: 0 <= i < |s.slots| ==> IsSectored(u, s.slots[i])
  }

  /** A full count means that all bytes are those of the disk; and one sector is counted fully or not at all. */
  ghost predicate IsHonest(u: Setup, bytes: seq<byte>, offset: nat, count: nat, data: seq<byte>, res: int) {
    && (res == count ==> offset + count <= |bytes| && data == bytes[offset..offset + count])
    && (0 < res && count <= u.sectorSize ==> res == count)
  }

  lemma {:induction false} MultipleLess(a: nat, b: nat, unit: nat)
    requires 0 < unit && Multiple(a, unit) && Multiple(b, unit) && b <= a
    ensures Multiple(a - b, unit)
  {
    if b > 0 {
      MultipleLess(a - unit, b - unit, unit);
    }
  }

  /** Positive multiples are at least one unit. */
  lemma MultipleIsLarge(a: nat, unit: nat)
    requires 0 < unit && Multiple(a, unit) && 0 < a
    ensures unit <= a
  {
  }

  lemma TrueBytes(bytes: seq<byte>, slot: Slot, skip: nat, count: nat)
    requires IsTrue(bytes, slot) && 0 < count && skip + count <= Min(|slot.data|, slot.status)
    ensures var at := slot.offset + skip;
            at + count <= |bytes| && slot.data[skip..skip + count] == bytes[at..at + count]
  {
  }

  lemma HitIsHonest(u: Setup, bytes: seq<byte>, slot: Slot, offset: nat, count: nat)
    requires 0 < u.sectorSize && IsTrue(bytes, slot) && IsSectored(u, slot) && Hits(slot, offset)
    requires Multiple(offset, u.sectorSize) && 0 < count && offset + count <= slot.offset + |slot.data|
    ensures var skip := offset - slot.offset;
            && IsHonest(u, bytes, offset, count, slot.data[skip..skip + count], Min(slot.status - skip, count))
            && Multiple(|slot.data| - skip, u.sectorSize)
  {
    hide Multiple, IsTrue;
    var skip := offset - slot.offset;
    MultipleLess(offset, slot.offset, u.sectorSize);
    MultipleLess(|slot.data|, skip, u.sectorSize);
    if slot.status > skip {
      MultipleLess(slot.status, skip, u.sectorSize);
      MultipleIsLarge(slot.status - skip, u.sectorSize);
    }
    if count <= slot.status - skip {
      TrueBytes(bytes, slot, skip, count);
    }
  }

  /** Two parts are counted fully only if both are; the first one is a whole sector at least. */
  lemma HonestParts(u: Setup, bytes: seq<byte>, offset: nat, n: nat, a: seq<byte>, res: int, m: nat, b: seq<byte>, more: int)
    requires IsHonest(u, bytes, offset, n, a, res) && IsHonest(u, bytes, offset + n, m, b, more)
    requires res <= n && more <= m && u.sectorSize <= n && 0 < m
    ensures IsHonest(u, bytes, offset, n + m, a + b, res + more)
  {
  }

  lemma FilledIsSectored(u: Setup, d: Source, s: State, size: nat, offset: nat)
    requires 0 < u.sectorSize && s.Valid() && AllSectored(u, s) && GivesSectors(u, d)
    requires Multiple(offset, u.sectorSize) && Multiple(size, u.sectorSize)
    ensures AllSectored(u, Filled(d, s, size, offset)) && AllSectored(u, Dropped(Filled(d, s, size, offset)))
  {
    hide Multiple;
  }

  ghost predicate IsAligned(u: Setup, count: nat, offset: nat) {
    && 0 < u.sectorSize && Multiple(u.ahead, u.sectorSize)
    && 0 < count && Multiple(count, u.sectorSize) && Multiple(offset, u.sectorSize)
  }

  lemma {:induction false} ReadAuxIsHonest(u: Setup, d: Source, s: State, count: nat, offset: nat, ahead: bool)
    requires IsAligned(u, count, offset) && s.Valid() && GivesSectors(u, d) && AllTrue(d.bytes, s) && AllSectored(u, s)
    ensures var o := ReadAux(u, d, s, count, offset, ahead);
            AllSectored(u, o.state) && IsHonest(u, d.bytes, offset, count, o.data, o.res)
    decreases if ahead then 2 else if u.sectorSize < count then 1 else 0, count, 1
  {
    hide IsTrue, IsSectored, IsHonest, ReadMissing, Find, GivesSectors, Multiple, AllTrue, AllSectored;
    var found := Find(s.slots, s.last, CACHE_BUFFER_NBR, offset);
    if found.None? {
      ReadMissingIsHonest(u, d, s, count, offset, ahead);
    } else {
      var slot := s.slots[found.value];
      var available := slot.offset + |slot.data| - offset;
      SlotOfTrue(d.bytes, s, found.value);
      SlotOfSectored(u, s, found.value);
      HitIsHonest(u, d.bytes, slot, offset, Min(count, available));
      if available < count {
        MultipleSum(offset, available, u.sectorSize);
        MultipleLess(count, available, u.sectorSize);
        ReadAuxIsSound(u, d, s, count - available, offset + available, ahead);
        ReadAuxIsHonest(u, d, s, count - available, offset + available, ahead);
        HitThenRestIsHonest(u, d.bytes, slot, offset, count, ReadAux(u, d, s, count - available, offset + available, ahead));
      }
    }
  }

  lemma HitThenRestIsHonest(u: Setup, bytes: seq<byte>, slot: Slot, offset: nat, count: nat, rest: Outcome)
    requires 0 < u.sectorSize && IsTrue(bytes, slot) && IsSectored(u, slot) && Hits(slot, offset)
    requires Multiple(offset, u.sectorSize) && slot.offset + |slot.data| < offset + count
    requires var available := slot.offset + |slot.data| - offset;
             rest.res <= count - available && IsHonest(u, bytes, offset + available, count - available, rest.data, rest.res)
    ensures var skip := offset - slot.offset;
            IsHonest(u, bytes, offset, count, slot.data[skip..] + rest.data, slot.status - skip + rest.res)
  {
    hide IsHonest, Multiple;
    var skip, available := offset - slot.offset, slot.offset + |slot.data| - offset;
    HitIsHonest(u, bytes, slot, offset, available);
    MultipleIsLarge(available, u.sectorSize);
    assert slot.data[skip..skip + available] == slot.data[skip..];
    assert slot.status <= |slot.data|;
    HonestParts(u, bytes, offset, available, slot.data[skip..], slot.status - skip, count - available, rest.data, rest.res);
  }

  lemma SlotOfSectored(u: Setup, s: State, i: nat)
    requires 0 < u.sectorSize && AllSectored(u, s) && i < |s.slots|
    ensures IsSectored(u, s.slots[i])
  {
  }

  lemma FirstIsHonest(u: Setup, bytes: seq<byte>, slot: Slot, count: nat)
    requires 0 < u.sectorSize && IsTrue(bytes, slot) && IsSectored(u, slot) && 0 < count <= |slot.data|
    ensures IsHonest(u, bytes, slot.offset, count, slot.data[..count], Min(count, slot.status))
  {
    hide Multiple, IsTrue;
    if slot.status > 0 {
      MultipleIsLarge(slot.status, u.sectorSize);
    }
    if count <= slot.status {
      TrueBytes(bytes, slot, 0, count);
      assert slot.data[0..count] == slot.data[..count];
    }
  }

  lemma {:induction false} ReadMissingIsHonest(u: Setup, d: Source, s: State, count: nat, offset: nat, ahead: bool)
    requires IsAligned(u, count, offset) && s.Valid() && GivesSectors(u, d) && AllTrue(d.bytes, s) && AllSectored(u, s)
    ensures var o := ReadMissing(u, d, s, count, offset, ahead);
            AllSectored(u, o.state) && IsHonest(u, d.bytes, offset, count, o.data, o.res)
    decreases if ahead then 2 else if u.sectorSize < count then 1 else 0, count, 0
  {
    hide Split, Content, Status, GivesSectors, IsTrue, IsSectored, IsHonest, Multiple;
    var size := ReadSize(u, count, offset, ahead);
    var t := Filled(d, s, size, offset);
    FilledIsSectored(u, d, s, size, offset);
    FilledIsTrue(d, s, size, offset);
    FirstIsHonest(u, d.bytes, t.slots[t.last], count);
    if !(count <= t.slots[t.last].status || size <= u.sectorSize || u.sectorSize == 0 || 0 < s.errors) {
      OneUnit(u.sectorSize);
      SplitIsHonest(u, d, Dropped(t).(errors := s.errors + 1), count, offset, 0);
      WholeSplitIsHonest(u, d.bytes, offset, count, Split(u, d, Dropped(t).(errors := s.errors + 1), count, offset, 0));
    }
  }

  lemma WholeSplitIsHonest(u: Setup, bytes: seq<byte>, offset: nat, count: nat, o: Outcome)
    requires 0 < u.sectorSize && Multiple(count, u.sectorSize) && 0 < count && IsHonestRest(u, bytes, offset, count, 0, o)
    ensures IsHonest(u, bytes, offset, count, o.data, o.res)
  {
    hide Multiple;
    MultipleIsLarge(count, u.sectorSize);
  }

  /** The loop ends with a full count only if all the rest has been read, and else with the beginning of a sector. */
  ghost predicate IsHonestRest(u: Setup, bytes: seq<byte>, offset: nat, count: nat, off: nat, o: Outcome)
    requires off <= count
  {
    && (o.res == count ==> offset + count <= |bytes| && o.data == bytes[offset + off..offset + count])
    && (o.res < count ==> off <= o.res && (0 < o.res ==> u.sectorSize <= o.res))
    && o.res <= count
  }

  lemma {:induction false} SplitIsHonest(u: Setup, d: Source, s: State, count: nat, offset: nat, off: nat)
    requires IsAligned(u, count, offset) && Multiple(off, u.sectorSize) && off <= count
    requires s.Valid() && GivesSectors(u, d) && AllTrue(d.bytes, s) && AllSectored(u, s)
    requires off == count ==> offset + count <= |d.bytes|
    ensures var o := Split(u, d, s, count, offset, off);
            AllSectored(u, o.state) && IsHonestRest(u, d.bytes, offset, count, off, o)
    decreases 1, 0, count - off
  {
    hide AllTrue, AllSectored, ReadAux, GivesSectors, Multiple, IsHonest, IsHonestRest;
    if off == count {
      NothingIsHonest(u, d.bytes, offset, count, Outcome(s, [], count));
    } else {
      MultipleLess(count, off, u.sectorSize);
      MultipleIsLarge(count - off, u.sectorSize);
      MultipleSum(offset, off, u.sectorSize);
      OneUnit(u.sectorSize);
      var n := u.sectorSize;
      var one := ReadAux(u, d, s, n, offset + off, false);
      ReadAuxIsSound(u, d, s, n, offset + off, false);
      ReadAuxIsHonest(u, d, s, n, offset + off, false);
      if one.res > 0 {
        MultipleSum(off, n, u.sectorSize);
        LiesOnDisk(u, d.bytes, offset + off, one.data, one.res);
        SplitIsHonest(u, d, one.state, count, offset, off + n);
        OneMoreIsHonest(u, d.bytes, offset, count, off, one, Split(u, d, one.state, count, offset, off + n));
      } else {
        StopIsHonest(u, d.bytes, offset, count, off, Outcome(one.state, one.data + Zeros(count - off - n), off));
      }
    }
  }

  lemma NothingIsHonest(u: Setup, bytes: seq<byte>, offset: nat, count: nat, o: Outcome)
    requires offset + count <= |bytes| && o.data == [] && o.res == count
    ensures IsHonestRest(u, bytes, offset, count, count, o)
  {
  }

  lemma LiesOnDisk(u: Setup, bytes: seq<byte>, offset: nat, data: seq<byte>, res: int)
    requires IsHonest(u, bytes, offset, u.sectorSize, data, res) && 0 < res
    ensures res == u.sectorSize && offset + u.sectorSize <= |bytes| && data == bytes[offset..offset + u.sectorSize]
  {
  }

  lemma StopIsHonest(u: Setup, bytes: seq<byte>, offset: nat, count: nat, off: nat, o: Outcome)
    requires 0 < u.sectorSize && Multiple(off, u.sectorSize) && off < count && o.res == off
    ensures IsHonestRest(u, bytes, offset, count, off, o)
  {
    hide Multiple;
    if off > 0 {
      MultipleIsLarge(off, u.sectorSize);
    }
  }

  lemma OneMoreIsHonest(u: Setup, bytes: seq<byte>, offset: nat, count: nat, off: nat, one: Outcome, rest: Outcome)
    requires off + u.sectorSize <= count && IsHonest(u, bytes, offset + off, u.sectorSize, one.data, one.res) && 0 < one.res
    requires IsHonestRest(u, bytes, offset, count, off + u.sectorSize, rest)
    ensures IsHonestRest(u, bytes, offset, count, off, Outcome(rest.state, one.data + rest.data, rest.res))
  {
    LiesOnDisk(u, bytes, offset + off, one.data, one.res);
  }

  lemma OneUnit(unit: nat)
    requires 0 < unit
    ensures Multiple(unit, unit) && Multiple(0, unit)
  {
  }

  /** Reads of whole sectors, and any writes. */
  ghost predicate AllAligned(u: Setup, requests: seq<Request>) {
    && AllProper(requests)
    && forall i :: 0 <= i < |requests| && requests[i].ReadOf? ==> IsAligned(u, requests[i].count, requests[i].offset)
  }

  lemma SameReplies(u: Setup, reply: Reply, a: seq<byte>, b: seq<byte>)
    requires 0 < u.sectorSize && |a| == |b| && GivesSectors(u, Source(a, reply))
    ensures GivesSectors(u, Source(b, reply))
  {
    hide Multiple;
    forall call: nat, at: nat, n: nat | Multiple(at, u.sectorSize) && Multiple(n, u.sectorSize)
      ensures Status(Source(b, reply), call, at, n) <= 0 || Multiple(Status(Source(b, reply), call, at, n), u.sectorSize)
    {
      assert Status(Source(b, reply), call, at, n) == Status(Source(a, reply), call, at, n);
    }
  }

  lemma {:induction false} ServedIsSectored(u: Setup, reply: Reply, bytes: seq<byte>, requests: seq<Request>)
    requires 0 < u.sectorSize && AllAligned(u, requests) && GivesSectors(u, Source(bytes, reply))
    ensures AllSectored(u, Served(u, reply, bytes, requests).cache)
  {
    hide GivesSectors, IsAligned, ReadAux, AllTrue;
    if requests != [] {
      ServedIsSectored(u, reply, bytes, requests[..|requests| - 1]);
      ServedIsTrue(u, reply, bytes, requests[..|requests| - 1]);
      var w := Served(u, reply, bytes, requests[..|requests| - 1]);
      if requests[|requests| - 1].ReadOf? {
        SameReplies(u, reply, bytes, w.bytes);
        ReadAuxIsHonest(u, Source(w.bytes, reply), w.cache, requests[|requests| - 1].count, requests[|requests| - 1].offset,
                        w.cache.errors == 0);
      }
    }
  }

  lemma AlignedIsProper(u: Setup, requests: seq<Request>)
    requires AllAligned(u, requests)
    ensures AllProper(requests)
  {
  }

  /** The outcome of a read after these requests. */
  ghost function ReadAfter(u: Setup, reply: Reply, bytes: seq<byte>, requests: seq<Request>, count: nat, offset: nat): Outcome
    requires AllProper(requests) && 0 < count
  {
    var w := Served(u, reply, bytes, requests);
    Read(u, Source(w.bytes, reply), w.cache, count, offset)
  }

  /**
   * In front of a disk that delivers whole sectors or nothing, failing now and then, a full count means that all the bytes
   * are those that the disk holds now.
   */
  lemma FullCountMeansRead(u: Setup, reply: Reply, bytes: seq<byte>, requests: seq<Request>, count: nat, offset: nat)
    requires IsAligned(u, count, offset) && AllAligned(u, requests) && GivesSectors(u, Source(bytes, reply))
    ensures var o, now := ReadAfter(u, reply, bytes, requests, count, offset), Plain(bytes, requests);
            o.res == count ==> offset + count <= |now| && o.data == now[offset..offset + count]
  {
    hide GivesSectors, Multiple, ReadAux, AllTrue, AllSectored, AllAligned, AllProper;
    AlignedIsProper(u, requests);
    ServedIsTrue(u, reply, bytes, requests);
    ServedIsSectored(u, reply, bytes, requests);
    var w := Served(u, reply, bytes, requests);
    SameReplies(u, reply, bytes, w.bytes);
    ReadAuxIsHonest(u, Source(w.bytes, reply), w.cache, count, offset, w.cache.errors == 0);
  }

  // ----- what is lost -----

  predicate IsReadOrLost(bytes: seq<byte>, at: nat, data: seq<byte>) {
    data == Zeros(|data|) || (at + |data| <= |bytes| && data == bytes[at..at + |data|])
  }

  /** Each sector of what was read is that of the disk, or zero. */
  ghost predicate IsBySectors(u: Setup, bytes: seq<byte>, offset: nat, data: seq<byte>)
    requires 0 < u.sectorSize
  {
    forall q: nat :: Multiple(q, u.sectorSize) && q + u.sectorSize <= |data| ==>
      IsReadOrLost(bytes, offset + q, data[q..q + u.sectorSize])
  }

  lemma SectorOfSlot(u: Setup, bytes: seq<byte>, slot: Slot, q: nat)
    requires 0 < u.sectorSize && IsTrue(bytes, slot) && IsSectored(u, slot) && slot.data != []
    requires Multiple(q, u.sectorSize) && q + u.sectorSize <= |slot.data|
    ensures IsReadOrLost(bytes, slot.offset + q, slot.data[q..q + u.sectorSize])
  {
    hide Multiple;
    if q < slot.status {
      MultipleLess(slot.status, q, u.sectorSize);
      MultipleIsLarge(slot.status - q, u.sectorSize);
      TrueBytes(bytes, slot, q, u.sectorSize);
    } else {
      ZerosBehind(bytes, slot, q, u.sectorSize);
    }
  }

  lemma ZerosBehind(bytes: seq<byte>, slot: Slot, q: nat, n: nat)
    requires IsTrue(bytes, slot) && slot.status <= q && 0 < n && q + n <= |slot.data|
    ensures slot.data[q..q + n] == Zeros(n)
  {
    forall k | q <= k < q + n
      ensures slot.data[k] == 0
    {
      assert slot.data[k] == Content(bytes, slot.offset, slot.status, |slot.data|)[k];
    }
  }

  lemma SlotIsBySectors(u: Setup, bytes: seq<byte>, slot: Slot, offset: nat, count: nat)
    requires 0 < u.sectorSize && IsTrue(bytes, slot) && IsSectored(u, slot) && Hits(slot, offset)
    requires Multiple(offset, u.sectorSize) && offset + count <= slot.offset + |slot.data|
    ensures var skip := offset - slot.offset; IsBySectors(u, bytes, offset, slot.data[skip..skip + count])
  {
    hide Multiple, IsTrue, IsReadOrLost;
    var skip := offset - slot.offset;
    MultipleLess(offset, slot.offset, u.sectorSize);
    forall q: nat | Multiple(q, u.sectorSize) && q + u.sectorSize <= count
      ensures IsReadOrLost(bytes, offset + q, slot.data[skip..skip + count][q..q + u.sectorSize])
    {
      MultipleSum(skip, q, u.sectorSize);
      SectorOfSlot(u, bytes, slot, skip + q);
      SliceOfSlice(slot.data, skip, count, q, u.sectorSize);
    }
  }

  lemma SliceOfParts(a: seq<byte>, b: seq<byte>, q: nat, n: nat)
    requires q + n <= |a| + |b|
    ensures q + n <= |a| ==> (a + b)[q..q + n] == a[q..q + n]
    ensures |a| <= q ==> (a + b)[q..q + n] == b[q - |a|..q - |a| + n]
  {
  }

  lemma SectorOfParts(u: Setup, bytes: seq<byte>, offset: nat, a: seq<byte>, b: seq<byte>, q: nat)
    requires 0 < u.sectorSize && Multiple(|a|, u.sectorSize)
    requires IsBySectors(u, bytes, offset, a) && IsBySectors(u, bytes, offset + |a|, b)
    requires Multiple(q, u.sectorSize) && q + u.sectorSize <= |a + b|
    ensures IsReadOrLost(bytes, offset + q, (a + b)[q..q + u.sectorSize])
  {
    hide Multiple, IsReadOrLost;
    SliceOfParts(a, b, q, u.sectorSize);
    if q < |a| {
      MultipleLess(|a|, q, u.sectorSize);
      MultipleIsLarge(|a| - q, u.sectorSize);
    } else {
      MultipleLess(q, |a|, u.sectorSize);
      assert offset + |a| + (q - |a|) == offset + q;
    }
  }

  lemma SectorsOfParts(u: Setup, bytes: seq<byte>, offset: nat, a: seq<byte>, b: seq<byte>)
    requires 0 < u.sectorSize && Multiple(|a|, u.sectorSize)
    requires IsBySectors(u, bytes, offset, a) && IsBySectors(u, bytes, offset + |a|, b)
    ensures IsBySectors(u, bytes, offset, a + b)
  {
    hide Multiple, IsReadOrLost;
    forall q: nat | Multiple(q, u.sectorSize) && q + u.sectorSize <= |a + b|
      ensures IsReadOrLost(bytes, offset + q, (a + b)[q..q + u.sectorSize])
    {
      SectorOfParts(u, bytes, offset, a, b, q);
    }
  }

  lemma ZerosAreBySectors(u: Setup, bytes: seq<byte>, offset: nat, n: nat)
    requires 0 < u.sectorSize
    ensures IsBySectors(u, bytes, offset, Zeros(n)) && IsBySectors(u, bytes, offset, [])
  {
    hide Multiple;
    forall q: nat | Multiple(q, u.sectorSize) && q + u.sectorSize <= n
      ensures IsReadOrLost(bytes, offset + q, Zeros(n)[q..q + u.sectorSize])
    {
      assert Zeros(n)[q..q + u.sectorSize] == Zeros(u.sectorSize);
    }
  }

  lemma {:induction false} ReadAuxIsBySectors(u: Setup, d: Source, s: State, count: nat, offset: nat, ahead: bool)
    requires IsAligned(u, count, offset) && s.Valid() && GivesSectors(u, d) && AllTrue(d.bytes, s) && AllSectored(u, s)
    ensures IsBySectors(u, d.bytes, offset, ReadAux(u, d, s, count, offset, ahead).data)
    decreases if ahead then 2 else if u.sectorSize < count then 1 else 0, count, 1
  {
    hide IsTrue, IsSectored, IsBySectors, ReadMissing, Find, GivesSectors, Multiple, AllTrue, AllSectored;
    var found := Find(s.slots, s.last, CACHE_BUFFER_NBR, offset);
    if found.None? {
      ReadMissingIsBySectors(u, d, s, count, offset, ahead);
    } else {
      var slot := s.slots[found.value];
      var skip, available := offset - slot.offset, slot.offset + |slot.data| - offset;
      SlotOfTrue(d.bytes, s, found.value);
      SlotOfSectored(u, s, found.value);
      SlotIsBySectors(u, d.bytes, slot, offset, Min(count, available));
      if available < count {
        HitIsHonest(u, d.bytes, slot, offset, available);
        MultipleSum(offset, available, u.sectorSize);
        MultipleLess(count, available, u.sectorSize);
        ReadAuxIsBySectors(u, d, s, count - available, offset + available, ahead);
        assert slot.data[skip..skip + available] == slot.data[skip..];
        SectorsOfParts(u, d.bytes, offset, slot.data[skip..],
                       ReadAux(u, d, s, count - available, offset + available, ahead).data);
      }
    }
  }

  lemma {:induction false} ReadMissingIsBySectors(u: Setup, d: Source, s: State, count: nat, offset: nat, ahead: bool)
    requires IsAligned(u, count, offset) && s.Valid() && GivesSectors(u, d) && AllTrue(d.bytes, s) && AllSectored(u, s)
    ensures IsBySectors(u, d.bytes, offset, ReadMissing(u, d, s, count, offset, ahead).data)
    decreases if ahead then 2 else if u.sectorSize < count then 1 else 0, count, 0
  {
    hide Split, Content, Status, GivesSectors, IsTrue, IsSectored, IsBySectors, Multiple;
    var size := ReadSize(u, count, offset, ahead);
    var t := Filled(d, s, size, offset);
    FilledIsSectored(u, d, s, size, offset);
    FilledIsTrue(d, s, size, offset);
    SlotIsBySectors(u, d.bytes, t.slots[t.last], offset, count);
    assert t.slots[t.last].data[0..count] == t.slots[t.last].data[..count];
    if !(count <= t.slots[t.last].status || size <= u.sectorSize || u.sectorSize == 0 || 0 < s.errors) {
      OneUnit(u.sectorSize);
      SplitIsBySectors(u, d, Dropped(t).(errors := s.errors + 1), count, offset, 0);
    }
  }

  lemma {:induction false} SplitIsBySectors(u: Setup, d: Source, s: State, count: nat, offset: nat, off: nat)
    requires IsAligned(u, count, offset) && Multiple(off, u.sectorSize) && off <= count
    requires s.Valid() && GivesSectors(u, d) && AllTrue(d.bytes, s) && AllSectored(u, s)
    ensures IsBySectors(u, d.bytes, offset + off, Split(u, d, s, count, offset, off).data)
    decreases 1, 0, count - off
  {
    hide AllTrue, AllSectored, ReadAux, GivesSectors, Multiple, IsHonest, IsBySectors;
    ZerosAreBySectors(u, d.bytes, offset + off, 0);
    if off < count {
      MultipleLess(count, off, u.sectorSize);
      MultipleIsLarge(count - off, u.sectorSize);
      MultipleSum(offset, off, u.sectorSize);
      OneUnit(u.sectorSize);
      var n := u.sectorSize;
      var one := ReadAux(u, d, s, n, offset + off, false);
      ReadAuxIsSound(u, d, s, n, offset + off, false);
      ReadAuxIsHonest(u, d, s, n, offset + off, false);
      ReadAuxIsBySectors(u, d, s, n, offset + off, false);
      if one.res > 0 {
        MultipleSum(off, n, u.sectorSize);
        SplitIsBySectors(u, d, one.state, count, offset, off + n);
        SectorsOfParts(u, d.bytes, offset + off, one.data, Split(u, d, one.state, count, offset, off + n).data);
      } else {
        ZerosAreBySectors(u, d.bytes, offset + off + n, count - off - n);
        SectorsOfParts(u, d.bytes, offset + off, one.data, Zeros(count - off - n));
      }
    }
  }

  /**
   * In front of such a disk, whatever fails and whatever has been read before, a read of whole sectors leaves for each of
   * them what the disk holds now, or zeros.
   */
  lemma SectorsAreReadOrLost(u: Setup, reply: Reply, bytes: seq<byte>, requests: seq<Request>, count: nat, offset: nat)
    requires IsAligned(u, count, offset) && AllAligned(u, requests) && GivesSectors(u, Source(bytes, reply))
    ensures IsBySectors(u, Plain(bytes, requests), offset, ReadAfter(u, reply, bytes, requests, count, offset).data)
  {
    hide GivesSectors, Multiple, ReadAux, AllTrue, AllSectored, AllAligned, AllProper;
    AlignedIsProper(u, requests);
    ServedIsTrue(u, reply, bytes, requests);
    ServedIsSectored(u, reply, bytes, requests);
    var w := Served(u, reply, bytes, requests);
    SameReplies(u, reply, bytes, w.bytes);
    ReadAuxIsBySectors(u, Source(w.bytes, reply), w.cache, count, offset, w.cache.errors == 0);
  }

  // ----- a disk that ends inside a sector -----

  /** All that was asked for. */
  function Everything(): (reply: Reply)
    ensures NeverFails(reply) && forall call: nat, at: nat, n: nat :: reply(call, at, n) == n
  {
    (call: nat, at: nat, n: nat) => n
  }

  /** No buffer holds a byte from `off` on. */
  ghost predicate AllBelow(s: State, off: nat) {
    forall i :: 0 <= i < |s.slots| ==> s.slots[i].data == [] || s.slots[i].offset + |s.slots[i].data| <= off
  }

  lemma {:induction false} FindsNothing(slots: seq<Slot>, at: nat, left: nat, offset: nat)
    requires |slots| == CACHE_BUFFER_NBR && at < CACHE_BUFFER_NBR
    requires forall i :: 0 <= i < |slots| ==> !Hits(slots[i], offset)
    ensures Find(slots, at, left, offset) == None
    decreases left
  {
    if left > 0 {
      FindsNothing(slots, (at + CACHE_BUFFER_NBR - 1) % CACHE_BUFFER_NBR, left - 1, offset);
    }
  }

  /** A read of one sector in which the disk ends, or before that one. */
  lemma SectorIsCounted(u: Setup, d: Source, s: State, off: nat)
    requires s.Valid() && 0 < u.sectorSize && AllBelow(s, off) && off < |d.bytes| && d.reply == Everything()
    ensures var o := ReadAux(u, d, s, u.sectorSize, off, false);
            o.res > 0 && AllBelow(o.state, off + u.sectorSize)
  {
    hide Content;
    FindsNothing(s.slots, s.last, CACHE_BUFFER_NBR, off);
  }

  lemma {:induction false} SplitCountsAll(u: Setup, d: Source, s: State, count: nat, off: nat)
    requires s.Valid() && 0 < u.sectorSize && AllBelow(s, off) && d.reply == Everything()
    requires off <= count < |d.bytes| + u.sectorSize && Multiple(count - off, u.sectorSize)
    ensures Split(u, d, s, count, 0, off).res == count
    decreases count - off
  {
    hide ReadAux, AllBelow, Everything;
    if off < count {
      SectorIsCounted(u, d, s, off);
      SplitCountsAll(u, d, ReadAux(u, d, s, u.sectorSize, off, false).state, count, off + u.sectorSize);
    }
  }

  /** The sectors of such a disk, from its beginning on, are counted fully, though it ends inside the last one. */
  lemma LastSectorIsCounted(u: Setup, bytes: seq<byte>)
    requires 0 < u.sectorSize <= |bytes| && !Multiple(|bytes|, u.sectorSize)
    ensures var count := RoundUp(|bytes|, u.sectorSize);
            |bytes| < count && ReadAfter(u, Everything(), bytes, [], count, 0).res == count
  {
    hide Split, Multiple, RoundUp, ReadMissing;
    var count, d := RoundUp(|bytes|, u.sectorSize), Source(bytes, Everything());
    RoundUpFacts(|bytes|, u.sectorSize);
    FindsNothing(Empty().slots, 0, CACHE_BUFFER_NBR, 0);
    var s := FirstReadIsSplit(u, d, count);
    SplitCountsAll(u, d, s, count, 0);
  }

  lemma FirstReadIsSplit(u: Setup, d: Source, count: nat) returns (s: State)
    requires 0 < u.sectorSize <= |d.bytes| < count
    ensures s.Valid() && AllBelow(s, 0)
    ensures ReadMissing(u, d, Empty(), count, 0, true) == Split(u, d, s, count, 0, 0)
  {
    hide Content, Split;
    s := Dropped(Filled(d, Empty(), ReadSize(u, count, 0, true), 0)).(errors := 1);
  }

  /** A full count, after any reads of whole sectors and any writes, means that the range lies on the disk. */
  ghost predicate FullCountsFit(u: Setup, size: nat) {
    forall bytes: seq<byte>, requests: seq<Request>, count: nat, offset: nat ::
      (|bytes| == size && AllAligned(u, requests) && IsAligned(u, count, offset)
       && ReadAfter(u, Everything(), bytes, requests, count, offset).res == count) ==> offset + count <= size
  }

  /** Even in front of a disk that never fails, full counts are right exactly if it consists of whole sectors. */
  lemma FullCountsFitIff(u: Setup, size: nat)
    requires 0 < u.sectorSize <= size && Multiple(u.ahead, u.sectorSize)
    ensures FullCountsFit(u, size) <==> Multiple(size, u.sectorSize)
  {
    hide ReadAfter, Multiple, RoundUp, Everything, GivesSectors;
    if Multiple(size, u.sectorSize) {
      forall bytes: seq<byte>, requests: seq<Request>, count: nat, offset: nat |
        |bytes| == size && AllAligned(u, requests) && IsAligned(u, count, offset)
        && ReadAfter(u, Everything(), bytes, requests, count, offset).res == count
        ensures offset + count <= size
      {
        WholeSectorsAreGiven(u, bytes);
        FullCountMeansRead(u, Everything(), bytes, requests, count, offset);
      }
    } else {
      var count := RoundUp(size, u.sectorSize);
      RoundUpFacts(size, u.sectorSize);
      LastSectorIsCounted(u, Zeros(size));
      AlignedFromStart(u, count);
      assert ReadAfter(u, Everything(), Zeros(size), [], count, 0).res == count;
    }
  }

  lemma AlignedFromStart(u: Setup, count: nat)
    requires 0 < u.sectorSize && Multiple(u.ahead, u.sectorSize) && Multiple(count, u.sectorSize) && 0 < count
    ensures IsAligned(u, count, 0) && AllAligned(u, [])
  {
  }

  lemma WholeSectorsAreGiven(u: Setup, bytes: seq<byte>)
    requires 0 < u.sectorSize && Multiple(|bytes|, u.sectorSize)
    ensures GivesSectors(u, Source(bytes, Everything()))
  {
    hide Multiple;
    forall call: nat, at: nat, n: nat | Multiple(at, u.sectorSize) && Multiple(n, u.sectorSize)
      ensures var status := Status(Source(bytes, Everything()), call, at, n);
              status <= 0 || Multiple(status, u.sectorSize)
    {
      if at < |bytes| {
        MultipleLess(|bytes|, at, u.sectorSize);
      }
    }
  }
}
