/** A FAT16 or FAT32 sector as the array of little-endian words that the repair code casts it to. */
module FatSectors {
  import opened Bytes
  import opened FatTable

  /** 16 or 32 bit words. */
  datatype WordSize = Two | Four {
    function Bytes(): nat {
      if this == Two then 2 else 4
    }

    function Limit(): nat {
      if this == Two then 0x1_0000 else 0x1_0000_0000
    }

    function Decode(raw: seq<byte>): nat
      requires |raw| == Bytes()
    {
      if this == Two then Le16(raw) else Le32(raw)
    }

    function Encode(v: nat): (raw: seq<byte>)
      requires v < Limit()
      ensures |raw| == Bytes()
    {
      if this == Two then EncodeLe16(v) else EncodeLe32(v)
    }
  }

  function WordsOf(z: WordSize, b: seq<byte>): (ws: seq<nat>)
    decreases |b|
  {
    if |b| < z.Bytes() then [] else [z.Decode(b[..z.Bytes()])] + WordsOf(z, b[z.Bytes()..])
  }

  ghost predicate Fits(z: WordSize, ws: seq<nat>) {
    forall k :: 0 <= k < |ws| ==> ws[k] < z.Limit()
  }

  function BytesOf(z: WordSize, ws: seq<nat>): (b: seq<byte>)
    requires Fits(z, ws)
    ensures |b| == |ws| * z.Bytes()
  {
    if ws == [] then [] else z.Encode(ws[0]) + BytesOf(z, ws[1..])
  }

  lemma {:induction false} WordsFit(z: WordSize, b: seq<byte>)
    ensures Fits(z, WordsOf(z, b))
    ensures |WordsOf(z, b)| * z.Bytes() <= |b| < |WordsOf(z, b)| * z.Bytes() + z.Bytes()
    decreases |b|
  {
    if |b| >= z.Bytes() {
      WordsFit(z, b[z.Bytes()..]);
    }
  }

  lemma {:induction false} WordsOfBytesOf(z: WordSize, ws: seq<nat>)
    requires Fits(z, ws)
    ensures WordsOf(z, BytesOf(z, ws)) == ws
  {
    if ws != [] {
      WordsOfBytesOf(z, ws[1..]);
      var raw, rest := z.Encode(ws[0]), BytesOf(z, ws[1..]);
      assert (raw + rest)[..z.Bytes()] == raw && (raw + rest)[z.Bytes()..] == rest;
      if z == Two { DecodeLe16(ws[0]); } else { DecodeLe32(ws[0]); }
    }
  }

  lemma {:induction false} BytesOfWordsOf(z: WordSize, b: seq<byte>)
    requires exists n: nat :: |b| == n * z.Bytes()
    ensures Fits(z, WordsOf(z, b)) && BytesOf(z, WordsOf(z, b)) == b
    decreases |b|
  {
    hide WordSize.Encode, WordSize.Decode, Fits;
    WordsFit(z, b);
    var n: nat :| |b| == n * z.Bytes();
    if |b| >= z.Bytes() {
      var raw, rest := b[..z.Bytes()], b[z.Bytes()..];
      assert |rest| == (n - 1) * z.Bytes();
      BytesOfWordsOf(z, rest);
      assert WordsOf(z, b)[1..] == WordsOf(z, rest);
      EncodeDecode(z, raw);
    }
  }

  lemma EncodeDecode(z: WordSize, raw: seq<byte>)
    requires |raw| == z.Bytes()
    ensures z.Decode(raw) < z.Limit() && z.Encode(z.Decode(raw)) == raw
  {
    if z == Two {
      EncodeDecode16(raw);
    } else {
      EncodeDecode32(raw);
    }
  }

  /** The words are the entries of the table, the four reserved bits of FAT32 apart. */
  lemma {:induction false} WordIsEntry(z: WordSize, b: seq<byte>, k: nat)
    requires k < |WordsOf(z, b)|
    ensures var t := if z == Two then FAT16 else FAT32;
            HasEntry(t, b, 0, k) && Entry(t, b, 0, k) == WordsOf(z, b)[k] % Capacity(t)
    decreases k
  {
    var t := if z == Two then FAT16 else FAT32;
    if k == 0 {
      FirstWordIsEntry(z, b);
    } else {
      hide Entry, HasEntry;
      WordIsEntry(z, b[z.Bytes()..], k - 1);
      ShiftedEntry(t, b, z.Bytes(), k);
    }
  }

  lemma FirstWordIsEntry(z: WordSize, b: seq<byte>)
    requires WordsOf(z, b) != []
    ensures var t := if z == Two then FAT16 else FAT32;
            HasEntry(t, b, 0, 0) && Entry(t, b, 0, 0) == WordsOf(z, b)[0] % Capacity(t)
  {
    WordsFit(z, b);
    EncodeDecode(z, b[..z.Bytes()]);
    assert b[0..z.Bytes()] == b[..z.Bytes()];
  }

  lemma ShiftedEntry(t: FatType, b: seq<byte>, width: nat, k: nat)
    requires (t == FAT16 && width == 2) || (t == FAT32 && width == 4)
    requires 0 < k && width <= |b| && HasEntry(t, b[width..], 0, k - 1)
    ensures HasEntry(t, b, 0, k) && Entry(t, b, 0, k) == Entry(t, b[width..], 0, k - 1)
  {
    hide Decode;
    assert EntryOffset(t, k) == EntryOffset(t, k - 1) + width;
    SliceOfDrop(b, width, EntryOffset(t, k));
    SameDecoding(t, k, k - 1, RawEntry(t, b, 0, k));
  }

  lemma SliceOfDrop(b: seq<byte>, width: nat, at: nat)
    requires width <= at && at + width <= |b|
    ensures b[at..at + width] == b[width..][at - width..at]
  {
  }

  lemma SameDecoding(t: FatType, k: nat, n: nat, raw: seq<byte>)
    requires t != FAT12 && |raw| == EntryWidth(t)
    ensures Decode(t, k, raw) == Decode(t, n, raw)
  {
  }
}
