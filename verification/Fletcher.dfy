/** The Fletcher-64 checksum of APFS objects, reduced only once at the end. */
module Fletcher {
  import opened Seqs

  const M: nat := 0xFFFF_FFFF

  type uint32 = x: int | 0 <= x < 0x1_0000_0000

  /** The longest run of words for which no 64-bit sum can wrap around, whatever the words and the initial sums are. */
  const MAX_WORDS: nat := 92680

  datatype Sums = Sums(s1: nat, s2: nat)

  /** The definition: two running sums, each reduced at every step. */
  function Checksum(data: seq<uint32>, init: Sums): Sums {
    if data == [] then Sums(init.s1 % M, init.s2 % M)
    else
      var c := Checksum(data[..|data| - 1], init);
      var s1 := (c.s1 + data[|data| - 1]) % M;
      Sums(s1, (c.s2 + s1) % M)
  }

  /** The same sums without any reduction. */
  function Plain(data: seq<uint32>, init: Sums): Sums {
    if data == [] then init
    else
      var c := Plain(data[..|data| - 1], init);
      Sums(c.s1 + data[|data| - 1], c.s2 + c.s1 + data[|data| - 1])
  }

  lemma AddMod(a: nat, b: nat)
    ensures (a % M + b) % M == (a + b) % M && (a + b % M) % M == (a + b) % M
  {
    ModOfSum(a / M, a % M + b);
    ModOfSum(b / M, a + b % M);
  }

  lemma ModOfSum(q: nat, x: nat)
    ensures (M * q + x) % M == x % M
  {
  }

  lemma OneWord(p: Sums, w: nat)
    ensures (p.s1 % M + w) % M == (p.s1 + w) % M
    ensures (p.s2 % M + (p.s1 % M + w) % M) % M == (p.s2 + p.s1 + w) % M
  {
    AddMod(p.s1, w);
    AddMod(p.s2 % M, p.s1 + w);
    AddMod(p.s2, p.s1 + w);
  }

  /** One reduction at the end gives the same result as one at every step. */
  lemma {:induction false} PlainIsChecksum(data: seq<uint32>, init: Sums)
    ensures var p := Plain(data, init); Checksum(data, init) == Sums(p.s1 % M, p.s2 % M)
  {
    if data != [] {
      var w := data[|data| - 1];
      var p := Plain(data[..|data| - 1], init);
      PlainIsChecksum(data[..|data| - 1], init);
      OneWord(p, w);
    }
  }

  /** 1 + 2 + ... + n. */
  function Triangle(n: nat): nat {
    if n == 0 then 0 else Triangle(n - 1) + n
  }

  lemma {:induction false} TriangleFormula(n: nat)
    ensures 2 * Triangle(n) == n * (n + 1)
  {
    if n > 0 {
      TriangleFormula(n - 1);
    }
  }

  /** How large the sums can become; all words at their maximum reach this. */
  lemma {:induction false} PlainBound(data: seq<uint32>, init: Sums)
    requires init.s1 <= M && init.s2 <= M
    ensures Plain(data, init).s1 <= M * (|data| + 1)
    ensures Plain(data, init).s2 <= M * (1 + |data| + Triangle(|data|))
  {
    if data != [] {
      PlainBound(data[..|data| - 1], init);
    }
  }

  lemma {:induction false} TriangleRises(n: nat, m: nat)
    requires n <= m
    ensures Triangle(n) <= Triangle(m)
    decreases m
  {
    if n < m {
      TriangleRises(n, m - 1);
    }
  }

  lemma NothingWraps(data: seq<uint32>, init: Sums)
    requires init.s1 <= M && init.s2 <= M && |data| <= MAX_WORDS
    ensures Plain(data, init).s1 < 0x1_0000_0000_0000_0000 && Plain(data, init).s2 < 0x1_0000_0000_0000_0000
  {
    PlainBound(data, init);
    TriangleRises(|data|, MAX_WORDS);
    TriangleFormula(MAX_WORDS);
  }

  function Largest(n: nat): seq<uint32> {
    seq<uint32>(n, i => M)
  }

  /** The bound is exact: one more word, and the largest words and initial sums do wrap around. */
  lemma OneMoreWordWraps()
    ensures Plain(Largest(MAX_WORDS + 1), Sums(M, M)).s2 >= 0x1_0000_0000_0000_0000
  {
    PlainOfLargest(MAX_WORDS + 1);
    TriangleFormula(MAX_WORDS + 1);
  }

  lemma {:induction false} PlainOfLargest(n: nat)
    ensures Plain(Largest(n), Sums(M, M)) == Sums(M * (n + 1), M * (1 + n + Triangle(n)))
  {
    if n > 0 {
      PlainOfLargest(n - 1);
      assert Largest(n)[..n - 1] == Largest(n - 1);
    }
  }

  /** Checking one part after another is checking the whole. */
  lemma {:induction false} ChecksumOfParts(a: seq<uint32>, b: seq<uint32>, init: Sums)
    ensures Checksum(a + b, init) == Checksum(b, Checksum(a, init))
  {
    hide Checksum;
    if b == [] {
      assert a + b == a;
      ChecksumOfNothing(a, init);
    } else {
      var front, last := b[..|b| - 1], b[|b| - 1];
      ChecksumOfParts(a, front, init);
      OneMoreWord(a + front, last, init);
      OneMoreWord(front, last, Checksum(a, init));
      EndsWithLast(b);
      Associate(a, front, [last]);
    }
  }

  lemma ChecksumOfNothing(data: seq<uint32>, init: Sums)
    ensures Checksum([], Checksum(data, init)) == Checksum(data, init)
  {
    ChecksumIsReduced(data, init);
  }

  /** Feeding one more word to the checksum. */
  function Fed(c: Sums, w: uint32): Sums {
    Sums((c.s1 + w) % M, (c.s2 + (c.s1 + w) % M) % M)
  }

  lemma OneMoreWord(data: seq<uint32>, w: uint32, init: Sums)
    ensures Checksum(data + [w], init) == Fed(Checksum(data, init), w)
  {
    assert (data + [w])[..|data|] == data;
  }

  lemma ChecksumIsReduced(data: seq<uint32>, init: Sums)
    ensures Checksum(data, init).s1 < M && Checksum(data, init).s2 < M
  {
  }

  function Packed(s: Sums): nat {
    s.s2 * 0x1_0000_0000 + s.s1
  }

  function Unpacked(v: nat): Sums {
    Sums(v % 0x1_0000_0000, v / 0x1_0000_0000)
  }

  /** fletcher64, with its 64-bit sums. */
  method Fletcher64(data: seq<uint32>, init: nat) returns (sum: nat)
    requires init < 0x1_0000_0000_0000_0000
    ensures sum < 0x1_0000_0000_0000_0000
    ensures |data| <= MAX_WORDS ==> Unpacked(sum) == Checksum(data, Unpacked(init))
  {
    var sum1, sum2 := init % 0x1_0000_0000, init / 0x1_0000_0000;
    var k := 0;
    while k < |data|
      invariant 0 <= k <= |data| && 0 <= sum1 && 0 <= sum2
      invariant |data| <= MAX_WORDS ==> Sums(sum1, sum2) == Plain(data[..k], Unpacked(init))
    {
      PlainStep(data, k, Unpacked(init));
      sum1, sum2 := AddWord(sum1, sum2, data[k]);
      k := k + 1;
    }
    assert data[..k] == data;
    PlainIsChecksum(data, Unpacked(init));
    sum1 := sum1 % 0xFFFF_FFFF;
    sum2 := sum2 % 0xFFFF_FFFF;
    UnpackPacked(Sums(sum1, sum2));
    sum := sum2 * 0x1_0000_0000 + sum1;
  }

  /** One round of the loop, in 64 bits. */
  method AddWord(sum1: nat, sum2: nat, w: uint32) returns (sum1': nat, sum2': nat)
    ensures sum1 + w < 0x1_0000_0000_0000_0000 && sum2 + sum1 + w < 0x1_0000_0000_0000_0000 ==>
              sum1' == sum1 + w && sum2' == sum2 + sum1 + w
  {
    sum1' := (sum1 + w) % 0x1_0000_0000_0000_0000;
    sum2' := (sum2 + sum1') % 0x1_0000_0000_0000_0000;
  }

  lemma UnpackPacked(s: Sums)
    requires s.s1 < M && s.s2 < M
    ensures Unpacked(Packed(s)) == s && Packed(s) < 0x1_0000_0000_0000_0000
  {
  }

  lemma PlainStep(data: seq<uint32>, k: nat, init: Sums)
    requires k < |data| && init.s1 <= M && init.s2 <= M
    ensures var p := Plain(data[..k], init);
            Plain(data[..k + 1], init) == Sums(p.s1 + data[k], p.s2 + p.s1 + data[k])
    ensures |data| <= MAX_WORDS ==> Plain(data[..k + 1], init).s1 < 0x1_0000_0000_0000_0000
                                    && Plain(data[..k + 1], init).s2 < 0x1_0000_0000_0000_0000
  {
    assert data[..k + 1][..k] == data[..k];
    if |data| <= MAX_WORDS {
      NothingWraps(data[..k + 1], init);
    }
  }

  /** The words in the order in which VerifyBlock adds them up: the stored checksum comes last. */
  function Rotated(block: seq<uint32>): seq<uint32>
    requires 2 <= |block|
  {
    block[2..] + block[..2]
  }

  /** VerifyBlock. */
  method VerifyBlock(block: seq<uint32>) returns (cs: nat)
    requires 2 <= |block|
    ensures |block| <= MAX_WORDS ==> Unpacked(cs) == Checksum(Rotated(block), Sums(0, 0))
  {
    cs := Fletcher64(block[2..], 0);
    cs := Fletcher64(block[..2], cs);
    ChecksumOfParts(block[2..], block[..2], Sums(0, 0));
  }

  /** A block passes exactly when its first two words are what the checksum of the rest demands. */
  lemma BlockIsValidIff(block: seq<uint32>)
    requires 2 <= |block|
    ensures var c := Checksum(block[2..], Sums(0, 0));
            Checksum(Rotated(block), Sums(0, 0)) == Sums(0, 0)
            <==> (block[0] + c.s1 + c.s2) % M == 0 && (block[1] + c.s1 + block[0]) % M == 0
  {
    var c := Checksum(block[2..], Sums(0, 0));
    ChecksumOfParts(block[2..], block[..2], Sums(0, 0));
    ChecksumIsReduced(block[2..], Sums(0, 0));
    TwoWords(block[..2], c);
  }

  lemma PlainOfTwo(w: seq<uint32>, c: Sums)
    requires |w| == 2
    ensures Plain(w, c) == Sums(c.s1 + w[0] + w[1], (c.s2 + c.s1 + w[0]) + (c.s1 + w[0] + w[1]))
  {
    assert w[..1][..0] == [];
    assert Plain(w[..1], c) == Sums(c.s1 + w[0], c.s2 + c.s1 + w[0]);
  }

  lemma BothZero(x: nat, z: nat)
    ensures x % M == 0 && (z + x) % M == 0 <==> x % M == 0 && z % M == 0
  {
  }

  lemma TwoWords(w: seq<uint32>, c: Sums)
    requires |w| == 2 && c.s1 < M && c.s2 < M
    ensures Checksum(w, c) == Sums(0, 0) <==> (w[0] + c.s1 + c.s2) % M == 0 && (w[1] + c.s1 + w[0]) % M == 0
  {
    PlainIsChecksum(w, c);
    PlainOfTwo(w, c);
    BothZero(c.s1 + w[0] + w[1], c.s2 + c.s1 + w[0]);
  }

  function Sum(data: seq<uint32>): nat {
    if data == [] then 0 else Sum(data[..|data| - 1]) + data[|data| - 1]
  }

  lemma {:induction false} FirstSumIsSum(data: seq<uint32>)
    ensures Checksum(data, Sums(0, 0)).s1 == Sum(data) % M
  {
    PlainIsChecksum(data, Sums(0, 0));
    PlainIsSum(data);
  }

  lemma {:induction false} PlainIsSum(data: seq<uint32>)
    ensures Plain(data, Sums(0, 0)).s1 == Sum(data)
  {
    if data != [] {
      PlainIsSum(data[..|data| - 1]);
    }
  }

  lemma {:induction false} SumOfChanged(data: seq<uint32>, i: nat, w: uint32)
    requires i < |data|
    ensures Sum(data[i := w]) == Sum(data) - data[i] + w
  {
    var n := |data| - 1;
    if i < n {
      SumOfChanged(data[..n], i, w);
      assert data[i := w][..n] == data[..n][i := w];
    } else {
      assert data[i := w][..n] == data[..n];
    }
  }

  lemma NoLongerZero(sum: nat, prior: nat, word: nat)
    requires prior <= sum + word && sum % M == 0 && prior % M != word % M
    ensures (sum - prior + word) % M != 0
  {
  }

  /** Changing any one word of a valid block, other than between 0 and 0xFFFFFFFF, makes it invalid. */
  lemma ChangedWordIsDetected(block: seq<uint32>, i: nat, w: uint32)
    requires 2 <= |block| && i < |block| && w % M != block[i] % M
    requires Checksum(Rotated(block), Sums(0, 0)) == Sums(0, 0)
    ensures Checksum(Rotated(block[i := w]), Sums(0, 0)) != Sums(0, 0)
  {
    var at := if i < 2 then |block| - 2 + i else i - 2;
    assert Rotated(block[i := w]) == Rotated(block)[at := w];
    SumOfChanged(Rotated(block), at, w);
    FirstSumIsSum(Rotated(block));
    FirstSumIsSum(Rotated(block[i := w]));
    NoLongerZero(Sum(Rotated(block)), block[i], w);
  }
}
