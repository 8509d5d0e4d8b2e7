/** Laws of sequences that the solver finds more easily by name. */
module Seqs {

  lemma Associate<T>(a: seq<T>, b: seq<T>, c: seq<T>)
    ensures a + (b + c) == (a + b) + c
  {
  }

  lemma SliceOfSlice<T>(s: seq<T>, from: nat, size: nat, at: nat, n: nat)
    requires from + size <= |s| && at + n <= size
    ensures s[from..from + size][at..at + n] == s[from + at..from + at + n]
  {
    var a, b := s[from..from + size][at..at + n], s[from + at..from + at + n];
    forall k | 0 <= k < n
      ensures a[k] == b[k]
    {
    }
    assert a == b;
  }

  lemma EndsWithLast<T>(s: seq<T>)
    requires s != []
    ensures s == s[..|s| - 1] + [s[|s| - 1]]
  {
  }
}
