/** Bytes, byte order and the zero-padded view of a file shared by every module. */
module Bytes {

  type byte = x: int | 0 <= x < 256

  function Min(a: int, b: int): int {
    if a <= b then a else b
  }

  function Le16(s: seq<byte>): nat
    requires |s| == 2
  {
    (s[0] as nat) + 256 * (s[1] as nat)
  }

  function Le32(s: seq<byte>): nat
    requires |s| == 4
  {
    Le16(s[..2]) + 0x1_0000 * Le16(s[2..])
  }

  function Be16(s: seq<byte>): nat
    requires |s| == 2
  {
    256 * (s[0] as nat) + (s[1] as nat)
  }

  function Be32(s: seq<byte>): nat
    requires |s| == 4
  {
    0x1_0000 * Be16(s[..2]) + Be16(s[2..])
  }

  function Be64(s: seq<byte>): nat
    requires |s| == 8
  {
    0x1_0000_0000 * Be32(s[..4]) + Be32(s[4..])
  }

  function EncodeLe16(v: nat): (s: seq<byte>)
    requires v < 0x1_0000
    ensures |s| == 2
  {
    [v % 256, v / 256]
  }

  function EncodeBe16(v: nat): (s: seq<byte>)
    requires v < 0x1_0000
    ensures |s| == 2
  {
    [v / 256, v % 256]
  }

  function EncodeLe32(v: nat): (s: seq<byte>)
    requires v < 0x1_0000_0000
    ensures |s| == 4
  {
    EncodeLe16(v % 0x1_0000) + EncodeLe16(v / 0x1_0000)
  }

  function EncodeBe32(v: nat): (s: seq<byte>)
    requires v < 0x1_0000_0000
    ensures |s| == 4
  {
    EncodeBe16(v / 0x1_0000) + EncodeBe16(v % 0x1_0000)
  }

  function EncodeBe64(v: nat): (s: seq<byte>)
    requires v < 0x1_0000_0000_0000_0000
    ensures |s| == 8
  {
    EncodeBe32(v / 0x1_0000_0000) + EncodeBe32(v % 0x1_0000_0000)
  }

  lemma DecodeLe16(v: nat)
    requires v < 0x1_0000
    ensures Le16(EncodeLe16(v)) == v
  {
  }

  lemma DecodeLe32(v: nat)
    requires v < 0x1_0000_0000
    ensures Le32(EncodeLe32(v)) == v
  {
    var lo, hi := EncodeLe16(v % 0x1_0000), EncodeLe16(v / 0x1_0000);
    assert (lo + hi)[..2] == lo && (lo + hi)[2..] == hi;
    DecodeLe16(v % 0x1_0000);
    DecodeLe16(v / 0x1_0000);
  }

  lemma EncodeDecode16(raw: seq<byte>)
    requires |raw| == 2
    ensures Le16(raw) < 0x1_0000 && EncodeLe16(Le16(raw)) == raw
  {
  }

  lemma HalvesOf(lo: nat, hi: nat)
    requires lo < 0x1_0000 && hi < 0x1_0000
    ensures (lo + 0x1_0000 * hi) % 0x1_0000 == lo && (lo + 0x1_0000 * hi) / 0x1_0000 == hi
    ensures lo + 0x1_0000 * hi < 0x1_0000_0000
  {
  }

  lemma EncodeDecode32(raw: seq<byte>)
    requires |raw| == 4
    ensures Le32(raw) < 0x1_0000_0000 && EncodeLe32(Le32(raw)) == raw
  {
    EncodeDecode16(raw[..2]);
    EncodeDecode16(raw[2..]);
    HalvesOf(Le16(raw[..2]), Le16(raw[2..]));
  }

  lemma DecodeBe32(v: nat)
    requires v < 0x1_0000_0000
    ensures Be32(EncodeBe32(v)) == v
  {
    var hi, lo := EncodeBe16(v / 0x1_0000), EncodeBe16(v % 0x1_0000);
    assert (hi + lo)[..2] == hi && (hi + lo)[2..] == lo;
  }

  lemma DecodeBe64(v: nat)
    requires v < 0x1_0000_0000_0000_0000
    ensures Be64(EncodeBe64(v)) == v
  {
    var hi, lo := EncodeBe32(v / 0x1_0000_0000), EncodeBe32(v % 0x1_0000_0000);
    assert (hi + lo)[..4] == hi && (hi + lo)[4..] == lo;
    DecodeBe32(v / 0x1_0000_0000);
    DecodeBe32(v % 0x1_0000_0000);
  }

  /** The byte at position p of a file that is followed, and preceded, by zeros. */
  function Padded(file: seq<byte>, p: int): byte {
    if 0 <= p < |file| then file[p] else 0
  }

  function Zeros(n: nat): (r: seq<byte>)
    ensures |r| == n && forall k :: 0 <= k < n ==> r[k] == 0
  {
    seq<byte>(n, i => 0)
  }

  /** len bytes of the zero-padded file, starting at `from`. */
  function Window(file: seq<byte>, from: int, len: nat): (w: seq<byte>)
    ensures |w| == len
    ensures forall j :: 0 <= j < len ==> w[j] == Padded(file, from + j)
  {
    seq<byte>(len, j requires 0 <= j < len => Padded(file, from + j))
  }
}
