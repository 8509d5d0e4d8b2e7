/** The CRC-32 of RFC 1952, section 8, computed byte by byte. */
module Crc {
  import Seqs

  const POLY: bv32 := 0xEDB8_8320

  /** One step of the shift register. */
  function Shift(r: bv32): bv32 {
    if r & 1 != 0 then (r >> 1) ^ POLY else r >> 1
  }

  function Xor(x: bv32, y: bv32): bv32 {
    x ^ y
  }

  /** f, n times. */
  function Iterate<T>(f: T -> T, r: T, n: nat): T
    decreases n
  {
    if n == 0 then r else Iterate(f, f(r), n - 1)
  }

  ghost predicate IsLinear<T(!new)>(f: T -> T, op: (T, T) -> T) {
    forall x, y :: f(op(x, y)) == op(f(x), f(y))
  }

  ghost predicate IsInjective<T(!new)>(f: T -> T) {
    forall x, y :: f(x) == f(y) ==> x == y
  }

  lemma {:induction false} IterateIsLinear<T(!new)>(f: T -> T, op: (T, T) -> T, x: T, y: T, n: nat)
    requires IsLinear(f, op)
    ensures Iterate(f, op(x, y), n) == op(Iterate(f, x, n), Iterate(f, y, n))
    decreases n
  {
    if n > 0 {
      IterateIsLinear(f, op, f(x), f(y), n - 1);
    }
  }

  lemma {:induction false} IterateIsInjective<T(!new)>(f: T -> T, x: T, y: T, n: nat)
    requires IsInjective(f)
    ensures Iterate(f, x, n) == Iterate(f, y, n) ==> x == y
    decreases n
  {
    if n > 0 {
      IterateIsInjective(f, f(x), f(y), n - 1);
    }
  }

  lemma {:induction false} IterateAdds<T>(f: T -> T, r: T, m: nat, n: nat)
    ensures Iterate(f, r, m + n) == Iterate(f, Iterate(f, r, m), n)
    decreases m
  {
    if m > 0 {
      IterateAdds(f, f(r), m - 1, n);
    }
  }

  lemma Iterate8<T>(f: T -> T, r: T)
    ensures Iterate(f, r, 8) == f(f(f(f(f(f(f(f(r))))))))
  {
    IterateAdds(f, r, 4, 4);
    Iterate4(f, r);
    Iterate4(f, Iterate(f, r, 4));
  }

  lemma Iterate4<T>(f: T -> T, r: T)
    ensures Iterate(f, r, 4) == f(f(f(f(r))))
  {
    assert Iterate(f, r, 4) == Iterate(f, f(r), 3);
    assert Iterate(f, f(r), 3) == Iterate(f, f(f(r)), 2);
  }

  lemma BothEven(x: bv32, y: bv32)
    requires x & 1 == 0 && y & 1 == 0
    ensures Shift(x ^ y) == Shift(x) ^ Shift(y)
  {
  }

  lemma OddAndEven(x: bv32, y: bv32)
    requires x & 1 == 1 && y & 1 == 0
    ensures Shift(x ^ y) == Shift(x) ^ Shift(y) && Shift(y ^ x) == Shift(y) ^ Shift(x)
  {
  }

  lemma BothOdd(x: bv32, y: bv32)
    requires x & 1 == 1 && y & 1 == 1
    ensures Shift(x ^ y) == Shift(x) ^ Shift(y)
  {
  }

  lemma LowBit(x: bv32)
    ensures x & 1 == 0 || x & 1 == 1
  {
  }

  lemma ShiftOfXor(x: bv32, y: bv32)
    ensures Shift(Xor(x, y)) == Xor(Shift(x), Shift(y))
  {
    LowBit(x);
    LowBit(y);
    if x & 1 == 0 {
      if y & 1 == 0 {
        BothEven(x, y);
      } else {
        OddAndEven(y, x);
      }
    } else {
      if y & 1 == 0 {
        OddAndEven(x, y);
      } else {
        BothOdd(x, y);
      }
    }
  }

  /** The register is linear over exclusive or. */
  lemma ShiftIsLinear()
    ensures IsLinear(Shift, Xor)
  {
    forall x, y
      ensures Shift(Xor(x, y)) == Xor(Shift(x), Shift(y))
    {
      ShiftOfXor(x, y);
    }
  }

  lemma ShiftTellsApart(x: bv32, y: bv32)
    ensures Shift(x) == Shift(y) ==> x == y
  {
  }

  /** Different registers stay different: the polynomial has its top bit set. */
  lemma ShiftIsInjective()
    ensures IsInjective(Shift)
  {
    forall x, y
      ensures Shift(x) == Shift(y) ==> x == y
    {
      ShiftTellsApart(x, y);
    }
  }

  /** Eight steps with nothing in the low byte are a plain shift. */
  lemma HighBytesMove(x: bv32)
    ensures Shift(Shift(Shift(Shift(Shift(Shift(Shift(Shift(x & 0xFFFF_FF00)))))))) == x >> 8
  {
  }

  /** Eight steps of the register: make_crc32_table, as a function of the index. */
  function Shift8(r: bv32): bv32 {
    Iterate(Shift, r, 8)
  }

  lemma SplitLowByte(x: bv32)
    ensures x == (x & 0xFF) ^ (x & 0xFFFF_FF00)
  {
  }

  lemma TableStep(x: bv32)
    ensures Shift8(x & 0xFF) ^ (x >> 8) == Shift8(x)
  {
    SplitLowByte(x);
    ShiftIsLinear();
    IterateIsLinear(Shift, Xor, x & 0xFF, x & 0xFFFF_FF00, 8);
    Iterate8(Shift, x & 0xFFFF_FF00);
    HighBytesMove(x);
  }

  type Table = bv32 -> bv32

  /** Looking up the low byte and shifting the rest does the same as feeding the whole register. */
  ghost predicate IsTableOf(table: Table, register: Table) {
    forall x: bv32 {:trigger register(x)} :: table(x & 0xFF) ^ (x >> 8) == register(x)
  }

  /** The generated table is one of the shift register. */
  lemma GeneratedTable()
    ensures IsTableOf(Shift8, Shift8)
  {
    forall x: bv32
      ensures Shift8(x & 0xFF) ^ (x >> 8) == Shift8(x)
    {
      TableStep(x);
    }
  }

  /** Adding a byte to the register. */
  function AddByte(r: bv32, b: bv8): bv32 {
    r ^ (b as bv32)
  }

  /** One step of get_crc32. */
  function ByteStep(table: Table, crc: bv32, b: bv8): bv32 {
    table((crc ^ (b as bv32)) & 0xFF) ^ (crc >> 8)
  }

  lemma ByteOnlyInLowByte(crc: bv32, b: bv8)
    ensures (crc ^ (b as bv32)) >> 8 == crc >> 8
  {
  }

  /** The step of get_crc32 feeds one byte to the register. */
  lemma ByteStepFeeds(table: Table, register: Table, crc: bv32, b: bv8)
    requires IsTableOf(table, register)
    ensures ByteStep(table, crc, b) == register(crc ^ (b as bv32))
  {
    ByteOnlyInLowByte(crc, b);
  }

  /** Every element of a message is added to the register, which then makes its step. */
  function Folded<R, B>(step: R -> R, add: (R, B) -> R, message: seq<B>, seed: R): R {
    if message == [] then seed
    else step(add(Folded(step, add, message[..|message| - 1], seed), message[|message| - 1]))
  }

  lemma FoldedOneMore<R, B>(step: R -> R, add: (R, B) -> R, a: seq<B>, b: B, seed: R)
    ensures Folded(step, add, a + [b], seed) == step(add(Folded(step, add, a, seed), b))
  {
    assert (a + [b])[..|a|] == a;
  }

  lemma FoldedPrefix<R, B>(step: R -> R, add: (R, B) -> R, s: seq<B>, i: nat, seed: R)
    requires i < |s|
    ensures Folded(step, add, s[..i + 1], seed) == step(add(Folded(step, add, s[..i], seed), s[i]))
  {
    assert s[..i + 1] == s[..i] + [s[i]];
    FoldedOneMore(step, add, s[..i], s[i], seed);
  }

  lemma NothingFolded<R, B>(step: R -> R, add: (R, B) -> R, seed: R)
    ensures Folded(step, add, [], seed) == seed
  {
  }

  lemma {:induction false} FoldedInParts<R, B>(step: R -> R, add: (R, B) -> R, a: seq<B>, b: seq<B>, seed: R)
    ensures Folded(step, add, a + b, seed) == Folded(step, add, b, Folded(step, add, a, seed))
  {
    hide Folded;
    var middle := Folded(step, add, a, seed);
    if b == [] {
      assert a + b == a;
      NothingFolded(step, add, middle);
    } else {
      var front, last := b[..|b| - 1], b[|b| - 1];
      FoldedInParts(step, add, a, front, seed);
      FoldedOneMore(step, add, a + front, last, seed);
      FoldedOneMore(step, add, front, last, middle);
      Seqs.EndsWithLast(b);
      Seqs.Associate(a, front, [last]);
    }
  }

  ghost predicate KeepsApart<R(!new), B(!new)>(add: (R, B) -> R) {
    && (forall x, y, b :: add(x, b) == add(y, b) ==> x == y)
    && (forall r, b, c :: add(r, b) == add(r, c) ==> b == c)
  }

  /** Messages that continue alike keep different registers apart. */
  lemma {:induction false} SeedsStayApart<R(!new), B(!new)>(step: R -> R, add: (R, B) -> R, message: seq<B>, x: R,
                                                            y: R)
    requires IsInjective(step) && KeepsApart(add) && x != y
    ensures Folded(step, add, message, x) != Folded(step, add, message, y)
  {
    if message != [] {
      SeedsStayApart(step, add, message[..|message| - 1], x, y);
    }
  }

  lemma FoldsStayApart<R(!new), B(!new)>(step: R -> R, add: (R, B) -> R, a: seq<B>, b: B, c: B, rest: seq<B>,
                                         seed: R)
    requires IsInjective(step) && KeepsApart(add) && b != c
    ensures Folded(step, add, a + [b] + rest, seed) != Folded(step, add, a + [c] + rest, seed)
  {
    FoldedInParts(step, add, a + [b], rest, seed);
    FoldedInParts(step, add, a + [c], rest, seed);
    FoldedOneMore(step, add, a, b, seed);
    FoldedOneMore(step, add, a, c, seed);
    SeedsStayApart(step, add, rest, Folded(step, add, a + [b], seed), Folded(step, add, a + [c], seed));
  }

  /** The definition of the checksum, before its last complement. */
  function Fed(register: Table, message: seq<bv8>, seed: bv32): bv32 {
    Folded(register, AddByte, message, seed)
  }

  lemma FedPrefix(register: Table, s: seq<bv8>, i: nat, seed: bv32)
    requires i < |s|
    ensures Fed(register, s[..i + 1], seed) == register(AddByte(Fed(register, s[..i], seed), s[i]))
  {
    hide AddByte;
    FoldedPrefix(register, AddByte, s, i, seed);
  }

  lemma ByteStepAdds(table: Table, register: Table, crc: bv32, b: bv8)
    requires IsTableOf(table, register)
    ensures ByteStep(table, crc, b) == register(AddByte(crc, b))
  {
    hide ByteStep, IsTableOf;
    ByteStepFeeds(table, register, crc, b);
  }

  lemma FedStep(table: Table, register: Table, s: seq<bv8>, i: nat, seed: bv32)
    requires IsTableOf(table, register) && i < |s|
    ensures Fed(register, s[..i + 1], seed) == ByteStep(table, Fed(register, s[..i], seed), s[i])
  {
    hide AddByte, ByteStep, Fed, IsTableOf;
    FedPrefix(register, s, i, seed);
    ByteStepAdds(table, register, Fed(register, s[..i], seed), s[i]);
  }

  /** What the bytes of a message make of the register when each of them is looked up in a table. */
  function FedByTable(table: Table, message: seq<bv8>, seed: bv32): bv32 {
    if message == [] then seed
    else ByteStep(table, FedByTable(table, message[..|message| - 1], seed), message[|message| - 1])
  }

  lemma {:induction false} FedByTableIsFed(table: Table, register: Table, message: seq<bv8>, seed: bv32)
    requires IsTableOf(table, register)
    ensures FedByTable(table, message, seed) == Fed(register, message, seed)
  {
    hide ByteStep, IsTableOf;
    if message != [] {
      var n := |message| - 1;
      FedByTableIsFed(table, register, message[..n], seed);
      FedStep(table, register, message, n, seed);
      assert message[..n + 1] == message;
    }
  }

  /** get_crc32. */
  method GetCrc32(table: Table, s: seq<bv8>, seed: bv32, ghost register: Table) returns (crc32val: bv32)
    requires IsTableOf(table, register)
    ensures crc32val == Fed(register, s, seed)
  {
    crc32val := seed;
    var i := 0;
    while i < |s|
      invariant 0 <= i <= |s| && crc32val == Fed(register, s[..i], seed)
    {
      FedStep(table, register, s, i, seed);
      crc32val := ByteStep(table, crc32val, s[i]);
      i := i + 1;
    }
    assert s[..i] == s;
  }

  /** The checksum of a message is that of its end, seeded with that of its start. */
  lemma FedInParts(register: Table, a: seq<bv8>, b: seq<bv8>, seed: bv32)
    ensures Fed(register, a + b, seed) == Fed(register, b, Fed(register, a, seed))
  {
    FoldedInParts(register, AddByte, a, b, seed);
  }

  lemma Shift8IsInjective()
    ensures IsInjective(Shift8)
  {
    ShiftIsInjective();
    forall x, y
      ensures Shift8(x) == Shift8(y) ==> x == y
    {
      IterateIsInjective(Shift, x, y, 8);
    }
  }

  lemma XorCancels(x: bv32, y: bv32, b: bv32)
    ensures x ^ b == y ^ b ==> x == y
    ensures b ^ x == b ^ y ==> x == y
  {
  }

  lemma WidenedBytesDiffer(b: bv8, c: bv8)
    ensures b as bv32 == c as bv32 ==> b == c
  {
  }

  lemma AddByteKeepsApart()
    ensures KeepsApart(AddByte)
  {
    forall x, y, b
      ensures AddByte(x, b) == AddByte(y, b) ==> x == y
    {
      XorCancels(x, y, b as bv32);
    }
    forall r, b, c
      ensures AddByte(r, b) == AddByte(r, c) ==> b == c
    {
      XorCancels(b as bv32, c as bv32, r);
      WidenedBytesDiffer(b, c);
    }
  }

  /** A change of one byte anywhere in a message changes what an injective register makes of it. */
  lemma ChangedByteIsDetected(register: Table, a: seq<bv8>, b: bv8, c: bv8, rest: seq<bv8>, seed: bv32)
    requires IsInjective(register) && b != c
    ensures Fed(register, a + [b] + rest, seed) != Fed(register, a + [c] + rest, seed)
  {
    AddByteKeepsApart();
    FoldsStayApart(register, AddByte, a, b, c, rest, seed);
  }

  // ----- check_ace_crc -----

  /** A stream that is read in pieces. */
  class Stream {
    const content: seq<bv8>
    var pos: nat

    constructor (content: seq<bv8>)
      ensures this.content == content && pos == 0
    {
      this.content, pos := content, 0;
    }

    /** fread: up to `count` bytes, fewer at the end of the stream. */
    method Fread(count: nat) returns (piece: seq<bv8>)
      requires pos <= |content|
      modifies this
      ensures pos == if old(pos) + count <= |content| then old(pos) + count else |content|
      ensures piece == content[old(pos)..pos]
    {
      var end := if pos + count <= |content| then pos + count else |content|;
      piece := content[pos..end];
      pos := end;
    }
  }

  lemma ReadOn(register: Table, content: seq<bv8>, start: nat, mid: nat, end: nat)
    requires start <= mid <= end <= |content|
    ensures Fed(register, content[mid..end], Fed(register, content[start..mid], 0xFFFF_FFFF))
            == Fed(register, content[start..end], 0xFFFF_FFFF)
  {
    FedInParts(register, content[start..mid], content[mid..end], 0xFFFF_FFFF);
    assert content[start..mid] + content[mid..end] == content[start..end];
  }

  /** The loop of check_ace_crc, with a buffer of bufSize bytes. */
  method CrcOfStream(table: Table, handle: Stream, len: nat, bufSize: nat, ghost register: Table)
    returns (complete: bool, crc32: bv32)
    requires IsTableOf(table, register) && handle.pos <= |handle.content| && 0 < bufSize
    modifies handle
    ensures complete <==> old(handle.pos) + len <= |handle.content|
    ensures complete ==>
              crc32 == Fed(register, handle.content[old(handle.pos)..old(handle.pos) + len], 0xFFFF_FFFF)
  {
    crc32 := 0xFFFF_FFFF;
    var remaining := len;
    ghost var start := handle.pos;
    assert handle.content[start..start] == [];
    while remaining > 0
      invariant 0 <= remaining <= len && handle.pos == start + len - remaining <= |handle.content|
      invariant crc32 == Fed(register, handle.content[start..handle.pos], 0xFFFF_FFFF)
    {
      var count := if remaining > bufSize then bufSize else remaining;
      ghost var at := handle.pos;
      var piece := handle.Fread(count);
      if |piece| != count {
        return false, crc32;
      }
      ReadOn(register, handle.content, start, at, handle.pos);
      crc32 := GetCrc32(table, piece, crc32, register);
      remaining := remaining - count;
    }
    complete := true;
  }

  /** check_ace_crc: 0 when the header is there and the low half of its checksum is right. */
  method CheckAceCrc(table: Table, handle: Stream, len: nat, crc32Low: bv32, bufSize: nat, ghost register: Table)
    returns (res: int)
    requires IsTableOf(table, register) && handle.pos <= |handle.content| && 0 < bufSize
    modifies handle
    ensures res == if old(handle.pos) + len <= |handle.content|
                      && crc32Low == Fed(register, handle.content[old(handle.pos)..old(handle.pos) + len], 0xFFFF_FFFF) & 0xFFFF
                   then 0 else 1
  {
    var complete, crc32 := CrcOfStream(table, handle, len, bufSize, register);
    if !complete {
      return 1;
    }
    res := if crc32Low != crc32 & 0xFFFF then 1 else 0;
  }
}
