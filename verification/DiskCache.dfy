/** The read cache in front of a disk: sixteen buffers, read-ahead, and a second attempt sector by sector. */
module DiskCache {
  import opened Arith
  import opened Bytes
  import opened Disks
  import opened Options
  import opened Seqs

  const CACHE_BUFFER_NBR: nat := 16

  // ----- by value -----

  /**
   * The disk behind the cache. `reply` says how many bytes a read delivers at most; it is asked for the number of the read,
   * its place and its length, so that a place may fail at one time and not at another.
   */
  datatype Source = Source(bytes: seq<byte>, reply: (nat, nat, nat) -> int)

  /** What a read returns: -1 or the number of bytes that it delivers. */
  function Status(d: Source, call: nat, offset: nat, count: nat): (status: int)
    ensures status <= count && status != 0 && (0 < status ==> offset + status <= |d.bytes|)
  {
    var n := Min(d.reply(call, offset, count), Min(count, |d.bytes| - offset));
    if n <= 0 then -1 else n
  }

  /** Where the delivered bytes end. */
  function Reached(bytes: seq<byte>, offset: nat, status: int): (end: nat)
    ensures end <= |bytes|
  {
    if status <= 0 then 0 else Min(offset + status, |bytes|)
  }

  /** What a read with this status leaves in its buffer: zeros behind the bytes delivered. */
  function Content(bytes: seq<byte>, offset: nat, status: int, count: nat): (data: seq<byte>)
    ensures |data| == count
    ensures forall k :: 0 <= k < count ==> data[k] == if k < status then Padded(bytes, offset + k) else 0
  {
    Window(bytes[..Reached(bytes, offset, status)], offset, count)
  }

  /** A cache buffer: where its content comes from, and what the read that filled it returned. Without content it is unused. */
  datatype Slot = Slot(offset: nat, data: seq<byte>, status: int)

  predicate Hits(slot: Slot, offset: nat) {
    slot.offset <= offset < slot.offset + |slot.data|
  }

  /** The sector size of the disk, cache_size_min, and disk_real_size. */
  datatype Setup = Setup(sectorSize: nat, ahead: nat, realSize: nat)

  /** The buffers, the one used last, the read errors in a row, and the reads of the disk so far. */
  datatype State = State(slots: seq<Slot>, last: nat, errors: nat, calls: nat) {
    predicate Valid() {
      |slots| == CACHE_BUFFER_NBR && last < CACHE_BUFFER_NBR
    }
  }

  /** new_diskcache. */
  function Empty(): (s: State)
    ensures s.Valid()
  {
    State(seq(CACHE_BUFFER_NBR, i => Slot(0, [], 0)), 0, 0, 0)
  }

  lemma SixteenBuffers()
    ensures |Empty().slots| == 16 && forall i :: 0 <= i < 16 ==> Empty().slots[i].data == []
  {
  }

  /** The first of `left` buffers, from `at` on backwards, that holds a byte. */
  function Find(slots: seq<Slot>, at: nat, left: nat, offset: nat): (found: Option<nat>)
    requires |slots| == CACHE_BUFFER_NBR && at < CACHE_BUFFER_NBR
    ensures found.Some? ==> found.value < CACHE_BUFFER_NBR && Hits(slots[found.value], offset)
    decreases left
  {
    if left == 0 then None
    else if Hits(slots[at], offset) then Some(at)
    else Find(slots, (at + CACHE_BUFFER_NBR - 1) % CACHE_BUFFER_NBR, left - 1, offset)
  }

  /** count_new: how much is read from the disk. */
  function ReadSize(u: Setup, count: nat, offset: nat, ahead: bool): (n: nat)
    ensures count <= n && (!ahead ==> n == count)
  {
    if ahead && count < u.ahead && offset + u.ahead < u.realSize then u.ahead else count
  }

  /** The state of the cache after a read, the bytes left in the buffer, and the result. */
  datatype Outcome = Outcome(state: State, data: seq<byte>, res: int)

  /** The cache after a read of the disk into the next buffer. */
  function Filled(d: Source, s: State, size: nat, offset: nat): (t: State)
    requires s.Valid()
    ensures t.Valid()
  {
    var last := (s.last + 1) % CACHE_BUFFER_NBR;
    var status := Status(d, s.calls, offset, size);
    State(s.slots[last := Slot(offset, Content(d.bytes, offset, status, size), status)], last,
          s.errors, s.calls + 1)
  }

  /** The cache without the content of the buffer used last. */
  function Dropped(s: State): (t: State)
    requires s.Valid()
    ensures t.Valid()
  {
    s.(slots := s.slots[s.last := s.slots[s.last].(data := [])])
  }

  /** cache_pread_aux. */
  function ReadAux(u: Setup, d: Source, s: State, count: nat, offset: nat, ahead: bool): (o: Outcome)
    requires s.Valid() && 0 < count
    ensures o.state.Valid() && |o.data| == count
    decreases if ahead then 2 else if u.sectorSize < count then 1 else 0, count, 1
  {
    match Find(s.slots, s.last, CACHE_BUFFER_NBR, offset)
    case Some(i) =>
      var slot, skip := s.slots[i], offset - s.slots[i].offset;
      var available, res := |slot.data| - skip, slot.status - skip;
      if count <= available then Outcome(s, slot.data[skip..skip + count], Min(res, count))
      else
        var rest := ReadAux(u, d, s, count - available, offset + available, ahead);
        Outcome(rest.state, slot.data[skip..] + rest.data, res + rest.res)
    case None => ReadMissing(u, d, s, count, offset, ahead)
  }

  /** The part of cache_pread_aux that reads the disk. */
  function ReadMissing(u: Setup, d: Source, s: State, count: nat, offset: nat, ahead: bool): (o: Outcome)
    requires s.Valid() && 0 < count
    ensures o.state.Valid() && |o.data| == count
    decreases if ahead then 2 else if u.sectorSize < count then 1 else 0, count, 0
  {
    var size := ReadSize(u, count, offset, ahead);
    var t := Filled(d, s, size, offset);
    var slot := t.slots[t.last];
    if count <= slot.status then Outcome(t.(errors := 0), slot.data[..count], count)
    else if size <= u.sectorSize || u.sectorSize == 0 || 0 < s.errors then
      Outcome(t.(errors := s.errors + 1), slot.data[..count], slot.status)
    else Split(u, d, Dropped(t).(errors := s.errors + 1), count, offset, 0)
  }

  /** The loop that reads sector by sector, from byte `off` of the request on, until a sector fails. */
  function Split(u: Setup, d: Source, s: State, count: nat, offset: nat, off: nat): (o: Outcome)
    requires s.Valid() && 0 < u.sectorSize && off <= count
    ensures o.state.Valid() && |o.data| == count - off
    decreases 1, 0, count - off
  {
    if off == count then Outcome(s, [], count)
    else
      var n := Min(u.sectorSize, count - off);
      var one := ReadAux(u, d, s, n, offset + off, false);
      if one.res <= 0 then Outcome(one.state, one.data + Zeros(count - off - n), off)
      else
        var rest := Split(u, d, one.state, count, offset, off + n);
        Outcome(rest.state, one.data + rest.data, rest.res)
  }

  /** cache_pread: read ahead unless the last read of the disk failed. */
  function Read(u: Setup, d: Source, s: State, count: nat, offset: nat): (o: Outcome)
    requires s.Valid() && 0 < count
    ensures o.state.Valid() && |o.data| == count
  {
    ReadAux(u, d, s, count, offset, s.errors == 0)
  }

  predicate Overlaps(slot: Slot, at: nat, count: nat) {
    !(slot.offset + |slot.data| - 1 < at || at + count - 1 < slot.offset)
  }

  /** A buffer overlaps a range exactly if it holds one of its bytes. */
  lemma OverlapsIff(slot: Slot, at: nat, count: nat)
    requires slot.data != [] && 0 < count
    ensures Overlaps(slot, at, count) <==> exists x: nat :: Hits(slot, x) && at <= x < at + count
  {
    if Overlaps(slot, at, count) {
      assert Hits(slot, if slot.offset <= at then at else slot.offset);
    }
  }

  /** The cache after a write: buffers with a byte of the range are dropped. */
  function Discarded(s: State, at: nat, count: nat): (t: State)
    requires s.Valid()
    ensures t.Valid()
    ensures forall i :: 0 <= i < CACHE_BUFFER_NBR ==>
              t.slots[i] == if Overlaps(s.slots[i], at, count) then s.slots[i].(data := []) else s.slots[i]
  {
    s.(slots := seq(CACHE_BUFFER_NBR, i requires 0 <= i < CACHE_BUFFER_NBR =>
      if Overlaps(s.slots[i], at, count) then s.slots[i].(data := []) else s.slots[i]))
  }

  /** The disk after a write; one that does not fit fails. */
  function Stored(bytes: seq<byte>, at: nat, data: seq<byte>): (r: seq<byte>)
    ensures |r| == |bytes|
  {
    if at + |data| <= |bytes| then Patch(bytes, at, data) else bytes
  }

  // ----- the code -----

  lemma PatchParts(s: seq<byte>, at: nat, x: seq<byte>, y: seq<byte>)
    requires at + |x| + |y| <= |s|
    ensures Patch(Patch(s, at, x), at + |x|, y) == Patch(s, at, x + y)
  {
  }

  /** The disk behind the cache. */
  class Device {
    const reply: (nat, nat, nat) -> int
    var bytes: seq<byte>
    var calls: nat

    constructor (reply: (nat, nat, nat) -> int, bytes: seq<byte>)
      ensures this.reply == reply && this.bytes == bytes && calls == 0
    {
      this.reply, this.bytes, calls := reply, bytes, 0;
    }

    method Pread(count: nat, offset: nat) returns (data: seq<byte>, status: int)
      modifies this`calls
      ensures status == Status(Source(bytes, reply), old(calls), offset, count)
      ensures data == Content(bytes, offset, status, count) && calls == old(calls) + 1
    {
      status := Status(Source(bytes, reply), calls, offset, count);
      data := Content(bytes, offset, status, count);
      calls := calls + 1;
    }

    method Pwrite(data: seq<byte>, at: nat) returns (res: int)
      modifies this`bytes
      ensures res == if at + |data| <= |old(bytes)| then |data| else -1
      ensures bytes == Stored(old(bytes), at, data)
    {
      res := if at + |data| <= |bytes| then |data| else -1;
      if at + |data| <= |bytes| {
        bytes := Patch(bytes, at, data);
      }
    }
  }

  /** Is this what a read does to the cache and to the buffer, from position `at` on? */
  ghost predicate IsOutcome(o: Outcome, state: State, res: int, before: seq<byte>, at: nat, after: seq<byte>)
    requires at + |o.data| <= |before|
  {
    state == o.state && res == o.res && after == Patch(before, at, o.data)
  }

  /** Is `rest` what is left of `whole` behind its first bytes? */
  ghost predicate IsRest(whole: Outcome, rest: Outcome, off: nat) {
    off <= |whole.data| && rest.state == whole.state && rest.res == whole.res && rest.data == whole.data[off..]
  }

  lemma WholeIsRest(whole: Outcome)
    ensures IsRest(whole, whole, 0) && whole.data[..0] + Zeros(|whole.data|) == Zeros(|whole.data|)
  {
  }

  lemma NothingLeft(u: Setup, d: Source, s: State, count: nat, offset: nat, whole: Outcome)
    requires s.Valid() && 0 < u.sectorSize && |whole.data| == count
    requires IsRest(whole, Split(u, d, s, count, offset, count), count)
    ensures whole.state == s && whole.res == count && whole.data[..count] + Zeros(0) == whole.data
  {
  }

  lemma SplitStep(u: Setup, d: Source, s: State, count: nat, offset: nat, off: nat, whole: Outcome)
    requires s.Valid() && 0 < u.sectorSize && off < count && |whole.data| == count
    requires IsRest(whole, Split(u, d, s, count, offset, off), off)
    ensures var n := Min(u.sectorSize, count - off);
            var one := ReadAux(u, d, s, n, offset + off, false);
            if one.res <= 0 then
              whole.state == one.state && whole.res == off && whole.data[off..] == one.data + Zeros(count - off - n)
            else whole.data[..off] + one.data == whole.data[..off + n]
                 && IsRest(whole, Split(u, d, one.state, count, offset, off + n), off + n)
  {
    hide ReadAux;
    var n := Min(u.sectorSize, count - off);
    var one := ReadAux(u, d, s, n, offset + off, false);
    if one.res > 0 {
      var rest := Split(u, d, one.state, count, offset, off + n);
      assert whole.data[off..] == one.data + rest.data;
      assert whole.data[off..][..n] == one.data && whole.data[off..][n..] == rest.data;
      assert whole.data[off + n..] == rest.data;
    }
  }

  /** Writing over the beginning of the zeros. */
  lemma OverZeros(s: seq<byte>, at: nat, front: seq<byte>, data: seq<byte>, n: nat)
    requires |data| <= n && at + |front| + n <= |s|
    ensures Patch(Patch(s, at, front + Zeros(n)), at + |front|, data) == Patch(s, at, front + (data + Zeros(n - |data|)))
  {
  }

  class Cache {
    const device: Device
    const u: Setup
    var slots: seq<Slot>
    var last: nat
    var errors: nat

    constructor (device: Device, u: Setup)
      requires device.calls == 0
      ensures Valid() && this.device == device && this.u == u && CacheState() == Empty()
    {
      this.device, this.u := device, u;
      slots, last, errors := seq(CACHE_BUFFER_NBR, i => Slot(0, [], 0)), 0, 0;
    }

    ghost predicate Valid()
      reads this`slots, this`last
    {
      |slots| == CACHE_BUFFER_NBR && last < CACHE_BUFFER_NBR
    }

    ghost function CacheState(): (s: State)
      requires Valid()
      reads this`slots, this`last, this`errors, device`calls
      ensures s.Valid()
    {
      State(slots, last, errors, device.calls)
    }

    ghost function Disk(): Source
      reads device`bytes
    {
      Source(device.bytes, device.reply)
    }

    /** The loop over the buffers, from the one used last on backwards. */
    method FindSlot(offset: nat) returns (found: Option<nat>)
      requires Valid()
      ensures found == Find(slots, last, CACHE_BUFFER_NBR, offset)
    {
      var i: nat, at: nat := 0, last;
      while i < CACHE_BUFFER_NBR
        invariant 0 <= i <= CACHE_BUFFER_NBR && at < CACHE_BUFFER_NBR
        invariant Find(slots, last, CACHE_BUFFER_NBR, offset) == Find(slots, at, CACHE_BUFFER_NBR - i, offset)
      {
        if Hits(slots[at], offset) {
          return Some(at);
        }
        i := i + 1;
        at := (at + CACHE_BUFFER_NBR - 1) % CACHE_BUFFER_NBR;
      }
      found := None;
    }

    /** Read the disk into the next buffer. */
    method Fill(size: nat, offset: nat)
      requires Valid()
      modifies this`slots, this`last, device`calls
      ensures Valid() && CacheState() == Filled(old(Disk()), old(CacheState()), size, offset)
    {
      last := (last + 1) % CACHE_BUFFER_NBR;
      var data, status := device.Pread(size, offset);
      slots := slots[last := Slot(offset, data, status)];
    }

    /** cache_pread_aux, into the buffer from position `at` on. */
    method PreadAux(buffer: array<byte>, at: nat, count: nat, offset: nat, ahead: bool) returns (res: int)
      requires Valid() && 0 < count && at + count <= buffer.Length
      modifies this`slots, this`last, this`errors, device`calls, buffer
      ensures Valid()
      ensures IsOutcome(ReadAux(u, Disk(), old(CacheState()), count, offset, ahead), CacheState(), res,
                        old(buffer[..]), at, buffer[..])
      decreases if ahead then 2 else if u.sectorSize < count then 1 else 0, count, 1
    {
      hide Patch, Find, ReadMissing;
      var found := FindSlot(offset);
      if found.None? {
        res := FetchMissing(buffer, at, count, offset, ahead);
        return;
      }
      var slot := slots[found.value];
      var skip := offset - slot.offset;
      var available := |slot.data| - skip;
      res := slot.status - skip;
      if count <= available {
        Copy(buffer, at, slot.data[skip..skip + count]);
        return if res < count then res else count;
      }
      Copy(buffer, at, slot.data[skip..]);
      ghost var rest := ReadAux(u, Disk(), CacheState(), count - available, offset + available, ahead);
      PatchParts(old(buffer[..]), at, slot.data[skip..], rest.data);
      var more := PreadAux(buffer, at + available, count - available, offset + available, ahead);
      res := res + more;
    }

    /** count_new: read ahead unless that would leave the disk. */
    method CountNew(count: nat, offset: nat, ahead: bool) returns (size: nat)
      ensures size == ReadSize(u, count, offset, ahead)
    {
      size := count;
      if ahead && count < u.ahead && offset + u.ahead < u.realSize {
        size := u.ahead;
      }
    }

    /** The part of cache_pread_aux that reads the disk. */
    method FetchMissing(buffer: array<byte>, at: nat, count: nat, offset: nat, ahead: bool) returns (res: int)
      requires Valid() && 0 < count && at + count <= buffer.Length
      modifies this`slots, this`last, this`errors, device`calls, buffer
      ensures Valid()
      ensures IsOutcome(ReadMissing(u, Disk(), old(CacheState()), count, offset, ahead), CacheState(), res,
                        old(buffer[..]), at, buffer[..])
      decreases if ahead then 2 else if u.sectorSize < count then 1 else 0, count, 0
    {
      hide Patch, Content, Status, ReadSize, Split;
      var size := CountNew(count, offset, ahead);
      Fill(size, offset);
      var slot := slots[last];
      if count <= slot.status {
        errors := 0;
        Copy(buffer, at, slot.data[..count]);
        return count;
      }
      errors := errors + 1;
      if size <= u.sectorSize || u.sectorSize == 0 || errors > 1 {
        Copy(buffer, at, slot.data[..count]);
        return slot.status;
      }
      slots := slots[last := slot.(data := [])];
      res := ReadSectors(buffer, at, count, offset);
    }

    /** The buffer and the cache when the sectors in front of byte `off` of the request have been read. */
    ghost predicate AtSector(whole: Outcome, was: seq<byte>, at: nat, count: nat, offset: nat, off: nat, buffer: seq<byte>)
      requires Valid() && 0 < u.sectorSize && off <= count == |whole.data| && at + count <= |was|
      reads this`slots, this`last, this`errors, device`calls, device`bytes
    {
      && IsRest(whole, Split(u, Disk(), CacheState(), count, offset, off), off)
      && buffer == Patch(was, at, whole.data[..off] + Zeros(count - off))
    }

    /** Read one more sector. */
    method ReadSector(buffer: array<byte>, at: nat, count: nat, offset: nat, off: nat, ghost whole: Outcome,
                      ghost was: seq<byte>)
      returns (n: nat, res: int)
      requires Valid() && 0 < u.sectorSize && off < count == |whole.data| && at + count <= |was| == buffer.Length
      requires AtSector(whole, was, at, count, offset, off, buffer[..])
      modifies this`slots, this`last, this`errors, device`calls, buffer
      ensures Valid() && 0 < n && off + n <= count
      ensures res > 0 ==> AtSector(whole, was, at, count, offset, off + n, buffer[..])
      ensures res <= 0 ==> IsOutcome(whole, CacheState(), off, was, at, buffer[..])
      decreases 1, 0, count - off, 0
    {
      hide Patch, ReadAux, Split, IsRest, Zeros;
      n := if u.sectorSize < count - off then u.sectorSize else count - off;
      SplitStep(u, Disk(), CacheState(), count, offset, off, whole);
      ghost var one := ReadAux(u, Disk(), CacheState(), n, offset + off, false);
      OverZeros(was, at, whole.data[..off], one.data, count - off);
      res := PreadAux(buffer, at + off, n, offset + off, false);
      if res <= 0 {
        assert whole.data[..off] + whole.data[off..] == whole.data;
      } else {
        Associate(whole.data[..off], one.data, Zeros(count - off - n));
      }
    }

    /** Read sector by sector into a cleared buffer. */
    method ReadSectors(buffer: array<byte>, at: nat, count: nat, offset: nat) returns (res: int)
      requires Valid() && 0 < count && at + count <= buffer.Length && 0 < u.sectorSize
      modifies this`slots, this`last, this`errors, device`calls, buffer
      ensures Valid()
      ensures IsOutcome(Split(u, Disk(), old(CacheState()), count, offset, 0), CacheState(), res,
                        old(buffer[..]), at, buffer[..])
      decreases 1, 0, count, 1
    {
      hide Patch, Split, IsRest, Zeros;
      ghost var whole := Split(u, Disk(), CacheState(), count, offset, 0);
      ghost var was := buffer[..];
      Copy(buffer, at, Zeros(count));
      var off := 0;
      WholeIsRest(whole);
      while off < count
        invariant Valid() && 0 <= off <= count
        invariant AtSector(whole, was, at, count, offset, off, buffer[..])
      {
        var n, one := ReadSector(buffer, at, count, offset, off, whole, was);
        if one <= 0 {
          return off;
        }
        off := off + n;
      }
      NothingLeft(u, Disk(), CacheState(), count, offset, whole);
      res := count;
    }

    /** cache_pread. */
    method Pread(buffer: array<byte>, count: nat, offset: nat) returns (res: int)
      requires Valid() && 0 < count <= buffer.Length
      modifies this`slots, this`last, this`errors, device`calls, buffer
      ensures Valid()
      ensures IsOutcome(Read(u, Disk(), old(CacheState()), count, offset), CacheState(), res,
                        old(buffer[..]), 0, buffer[..])
    {
      res := PreadAux(buffer, 0, count, offset, errors == 0);
    }

    /** cache_pwrite: drop what the range overlaps, and write through. */
    method Pwrite(data: seq<byte>, at: nat) returns (res: int)
      requires Valid() && data != []
      modifies this`slots, device`bytes
      ensures Valid() && CacheState() == Discarded(old(CacheState()), at, |data|)
      ensures device.bytes == Stored(old(device.bytes), at, data)
      ensures res == if at + |data| <= |old(device.bytes)| then |data| else -1
    {
      ghost var all := Discarded(CacheState(), at, |data|);
      var i := 0;
      while i < CACHE_BUFFER_NBR
        invariant Valid() && 0 <= i <= CACHE_BUFFER_NBR
        invariant last == old(last) && errors == old(errors) && device.calls == old(device.calls)
        invariant device.bytes == old(device.bytes)
        invariant forall k :: 0 <= k < CACHE_BUFFER_NBR ==> slots[k] == if k < i then all.slots[k] else old(slots)[k]
      {
        if Overlaps(slots[i], at, |data|) {
          slots := slots[i := slots[i].(data := [])];
        }
        i := i + 1;
      }
      assert slots == all.slots;
      assert CacheState() == all;
      res := device.Pwrite(data, at);
    }
  }

  /** memcpy into the buffer from position `at` on. */
  method Copy(buffer: array<byte>, at: nat, data: seq<byte>)
    requires at + |data| <= buffer.Length
    modifies buffer
    ensures buffer[..] == Patch(old(buffer[..]), at, data)
  {
    forall k | 0 <= k < |data| {
      buffer[at + k] := data[k];
    }
  }
}
