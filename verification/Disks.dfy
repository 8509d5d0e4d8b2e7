/** The disk as TestDisk sees it through disk->pread and disk->pwrite. */
module Disks {
  import opened Bytes

  /** s with the bytes at `at` replaced by `patch`. */
  function Patch(s: seq<byte>, at: nat, patch: seq<byte>): (r: seq<byte>)
    requires at + |patch| <= |s|
    ensures |r| == |s|
    ensures forall k :: 0 <= k < |s| ==> r[k] == if at <= k < at + |patch| then patch[k - at] else s[k]
  {
    s[..at] + patch + s[at + |patch|..]
  }

  /** A piece of data written at a place. */
  datatype Write = Write(at: nat, data: seq<byte>)

  predicate Touches(w: Write, x: nat) {
    w.at <= x < w.at + |w.data|
  }

  /** Which bytes of the disk does a read deliver? It is asked for the place where the read begins, and for the byte. */
  type Delivery = (nat, nat) -> bool

  /** What a read at `at` leaves for the byte at x: zero if it has not been delivered. */
  function DeliveredByte(bytes: seq<byte>, got: Delivery, at: nat, x: nat): byte {
    if x < |bytes| && got(at, x) then bytes[x] else 0
  }

  /** What a read leaves in its buffer. */
  function Delivered(bytes: seq<byte>, got: Delivery, at: nat, count: nat): (s: seq<byte>)
    ensures |s| == count
    ensures forall k :: 0 <= k < count ==> s[k] == DeliveredByte(bytes, got, at, at + k)
  {
    seq<byte>(count, k requires 0 <= k < count => DeliveredByte(bytes, got, at, at + k))
  }

  class Disk {
    const sectorSize: nat
    var bytes: seq<byte>

    constructor (sectorSize: nat, bytes: seq<byte>)
      ensures this.sectorSize == sectorSize && this.bytes == bytes
    {
      this.sectorSize, this.bytes := sectorSize, bytes;
    }

    /** A read succeeds when its range lies on the disk; where nothing has been read the buffer gets zeros. */
    method Pread(buffer: array<byte>, at: nat, count: nat, offset: nat) returns (res: int)
      requires at + count <= buffer.Length
      modifies buffer
      ensures res == if offset + count <= |bytes| then count else if offset < |bytes| then |bytes| - offset else -1
      ensures forall k :: 0 <= k < buffer.Length ==>
                buffer[k] == if at <= k < at + count then Padded(bytes, offset + k - at) else old(buffer[k])
      ensures res == count ==> buffer[at..at + count] == bytes[offset..offset + count]
    {
      forall k | 0 <= k < count {
        buffer[at + k] := Padded(bytes, offset + k);
      }
      res := if offset + count <= |bytes| then count else if offset < |bytes| then |bytes| - offset else -1;
    }

    /** A read that fills the whole buffer. */
    method PreadAll(buffer: array<byte>, offset: nat) returns (res: int)
      modifies buffer
      ensures res == buffer.Length <==> offset + buffer.Length <= |bytes|
      ensures buffer[..] == Window(bytes, offset, buffer.Length)
      ensures res == buffer.Length ==> buffer[..] == bytes[offset..offset + buffer.Length]
    {
      res := Pread(buffer, 0, buffer.Length, offset);
      assert buffer[0..buffer.Length] == buffer[..];
    }

    /** A read whose result nobody looks at. */
    method PreadAnyhow(buffer: array<byte>, count: nat, offset: nat, got: Delivery)
      requires count <= buffer.Length
      modifies buffer
      ensures buffer[..] == Delivered(bytes, got, offset, count) + old(buffer[count..])
    {
      ghost var rest := buffer[count..];
      forall k | 0 <= k < count {
        buffer[k] := DeliveredByte(bytes, got, offset, offset + k);
      }
      assert buffer[..count] == Delivered(bytes, got, offset, count) && buffer[count..] == rest;
      assert buffer[..] == buffer[..count] + buffer[count..];
    }

    /** A write of the whole buffer. */
    method PwriteAll(buffer: array<byte>, offset: nat) returns (res: int)
      modifies this`bytes
      ensures res == if offset + buffer.Length <= |old(bytes)| then buffer.Length else -1
      ensures bytes == if offset + buffer.Length <= |old(bytes)| then Patch(old(bytes), offset, buffer[..])
                       else old(bytes)
    {
      assert buffer[..buffer.Length] == buffer[..];
      res := Pwrite(buffer, buffer.Length, offset);
    }

    method Pwrite(buffer: array<byte>, count: nat, offset: nat) returns (res: int)
      requires count <= buffer.Length
      modifies this`bytes
      ensures res == if offset + count <= |old(bytes)| then count else -1
      ensures bytes == if res == count then Patch(old(bytes), offset, buffer[..count]) else old(bytes)
    {
      if offset + count > |bytes| {
        return -1;
      }
      bytes := Patch(bytes, offset, buffer[..count]);
      res := count;
    }
  }
}
