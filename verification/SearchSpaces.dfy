/** The list of byte ranges that PhotoRec still has to search. */
module SearchSpaces {

  datatype Span = Span(start: nat, end: nat)  // both ends belong to the range

  predicate InSpan(s: Span, x: int) {
    s.start <= x <= s.end
  }

  ghost predicate Covers(spans: seq<Span>, x: int) {
    exists i :: 0 <= i < |spans| && InSpan(spans[i], x)
  }

  /** Nonempty, disjoint and in increasing order. */
  ghost predicate Sorted(spans: seq<Span>) {
    && (forall i :: 0 <= i < |spans| ==> spans[i].start <= spans[i].end)
    && (forall i, j :: 0 <= i < j < |spans| ==> spans[i].end < spans[j].start)
  }

  ghost predicate StartsAt(spans: seq<Span>, x: nat) {
    exists i :: 0 <= i < |spans| && spans[i].start == x
  }

  /** Is the result the old list without the bytes from start to end? */
  ghost predicate Subtracted(prior: seq<Span>, start: int, end: int, next: seq<Span>) {
    && Sorted(next)
    && forall x :: Covers(next, x) <==> Covers(prior, x) && !(start <= x <= end)
  }

  lemma SubtractTwice(a: seq<Span>, s: int, m: int, b: seq<Span>, e: int, c: seq<Span>)
    requires Subtracted(a, s, m, b) && Subtracted(b, m + 1, e, c) && s <= m + 1 && m <= e
    ensures Subtracted(a, s, e, c)
  {
  }

  class SearchSpace {
    var spans: seq<Span>
    ghost var deleted: seq<Span>  // every del_search_space call so far, in order

    constructor (spans: seq<Span>)
      ensures this.spans == spans && deleted == []
    {
      this.spans, deleted := spans, [];
    }

    /** del_search_space. */
    method Del(start: nat, end: nat)
      requires Sorted(spans)
      modifies this
      ensures Subtracted(old(spans), start, end, spans)
      ensures deleted == old(deleted) + [Span(start, end)]
    {
      UpdateSearchSpace(start, end);
      deleted := deleted + [Span(start, end)];
    }

    /** update_search_space_aux without a current position to move. */
    method UpdateSearchSpace(start: nat, end: int)
      requires Sorted(spans)
      modifies this`spans
      ensures Subtracted(old(spans), start, end, spans)
      decreases end - start + 1, if StartsAt(spans, start) then 0 else 1
    {
      if start > end {
        return;
      }
      ghost var prior := spans;
      var i := |spans|;
      while i > 0
        invariant 0 <= i <= |spans| && spans == prior
        invariant forall k, x :: i <= k < |spans| && start <= x <= end ==> !InSpan(spans[k], x)
      {
        i := i - 1;
        var cur := spans[i];
        if cur.start == start {
          if end < cur.end {
            spans := spans[i := Span(end + 1, cur.end)];
            ReplaceSpan(prior, i, Span(end + 1, cur.end), start, end);
            return;
          }
          spans := spans[..i] + spans[i + 1..];
          RemoveSpan(prior, i);
          UpdateSearchSpace(cur.end + 1, end);
          SubtractTwice(prior, start, cur.end, prior[..i] + prior[i + 1..], end, spans);
          return;
        }
        if cur.end == end {
          if cur.start < start {
            spans := spans[i := Span(cur.start, start - 1)];
            ReplaceSpan(prior, i, Span(cur.start, start - 1), start, end);
            return;
          }
          spans := spans[..i] + spans[i + 1..];
          RemoveSpan(prior, i);
          UpdateSearchSpace(start, cur.start - 1);
          return;
        }
        if start < cur.start && cur.start <= end {
          UpdateSearchSpace(start, cur.start - 1);
          ghost var mid := spans;
          UpdateSearchSpace(cur.start, end);
          SubtractTwice(prior, start, cur.start - 1, mid, end, spans);
          return;
        }
        if start <= cur.end && cur.end < end {
          UpdateSearchSpace(start, cur.end);
          ghost var mid := spans;
          UpdateSearchSpace(cur.end + 1, end);
          SubtractTwice(prior, start, cur.end, mid, end, spans);
          return;
        }
        if cur.start < start && end < cur.end {
          spans := spans[..i] + [Span(cur.start, start - 1), Span(start, cur.end)] + spans[i + 1..];
          SplitSpan(prior, i, start);
          UpdateSearchSpace(start, end);
          return;
        }
      }
    }
  }

  lemma CoversConcat(a: seq<Span>, b: seq<Span>, x: int)
    ensures Covers(a + b, x) <==> Covers(a, x) || Covers(b, x)
  {
    if Covers(a, x) {
      var k :| 0 <= k < |a| && InSpan(a[k], x);
      assert InSpan((a + b)[k], x);
    }
    if Covers(b, x) {
      var k :| 0 <= k < |b| && InSpan(b[k], x);
      assert InSpan((a + b)[|a| + k], x);
    }
  }

  /** What a list covers, seen from its element i. */
  lemma CoversAround(spans: seq<Span>, i: nat, mid: seq<Span>, x: int)
    requires i < |spans|
    ensures Covers(spans[..i] + mid + spans[i + 1..], x)
            <==> Covers(spans[..i], x) || Covers(mid, x) || Covers(spans[i + 1..], x)
  {
    CoversConcat(spans[..i], mid, x);
    CoversConcat(spans[..i] + mid, spans[i + 1..], x);
  }

  /** Elements of a sorted list do not meet: what is in element i is in no other one. */
  lemma CoveredOnce(spans: seq<Span>, i: nat, x: int)
    requires Sorted(spans) && i < |spans|
    ensures Covers(spans, x) <==> Covers(spans[..i], x) || InSpan(spans[i], x) || Covers(spans[i + 1..], x)
    ensures InSpan(spans[i], x) ==> !Covers(spans[..i], x) && !Covers(spans[i + 1..], x)
  {
    assert spans == spans[..i] + [spans[i]] + spans[i + 1..];
    CoversAround(spans, i, [spans[i]], x);
    assert Covers([spans[i]], x) <==> InSpan([spans[i]][0], x);
  }

  /** Elements put in the place of element i keep the list sorted when they stay inside it. */
  lemma SortedAround(spans: seq<Span>, i: nat, mid: seq<Span>)
    requires Sorted(spans) && i < |spans| && Sorted(mid)
    requires forall k :: 0 <= k < |mid| ==> spans[i].start <= mid[k].start && mid[k].end <= spans[i].end
    ensures Sorted(spans[..i] + mid + spans[i + 1..])
  {
  }

  lemma ReplaceSpan(prior: seq<Span>, i: nat, s: Span, start: nat, end: nat)
    requires Sorted(prior) && i < |prior|
    requires s.start <= s.end && prior[i].start <= s.start && s.end <= prior[i].end
    requires forall x :: InSpan(s, x) <==> InSpan(prior[i], x) && !(start <= x <= end)
    requires prior[i].start <= start && end <= prior[i].end
    ensures Subtracted(prior, start, end, prior[i := s])
  {
    assert prior[i := s] == prior[..i] + [s] + prior[i + 1..];
    SortedAround(prior, i, [s]);
    forall x
      ensures Covers(prior[i := s], x) <==> Covers(prior, x) && !(start <= x <= end)
    {
      CoversAround(prior, i, [s], x);
      CoveredOnce(prior, i, x);
      assert Covers([s], x) <==> InSpan([s][0], x);
      assert start <= x <= end ==> prior[i].start <= x <= prior[i].end;
    }
  }

  lemma RemoveSpan(prior: seq<Span>, i: nat)
    requires Sorted(prior) && i < |prior|
    ensures Subtracted(prior, prior[i].start, prior[i].end, prior[..i] + prior[i + 1..])
  {
    assert prior[..i] + [] + prior[i + 1..] == prior[..i] + prior[i + 1..];
    SortedAround(prior, i, []);
    forall x
      ensures Covers(prior[..i] + prior[i + 1..], x) <==> Covers(prior, x) && !InSpan(prior[i], x)
    {
      CoversAround(prior, i, [], x);
      CoveredOnce(prior, i, x);
    }
  }

  lemma SplitSpan(prior: seq<Span>, i: nat, at: nat)
    requires Sorted(prior) && i < |prior| && prior[i].start < at <= prior[i].end
    ensures var next := prior[..i] + [Span(prior[i].start, at - 1), Span(at, prior[i].end)] + prior[i + 1..];
            && Sorted(next) && StartsAt(next, at) && !StartsAt(prior, at)
            && forall x :: Covers(next, x) <==> Covers(prior, x)
  {
    var mid := [Span(prior[i].start, at - 1), Span(at, prior[i].end)];
    var next := prior[..i] + mid + prior[i + 1..];
    assert next[i + 1].start == at;
    SortedAround(prior, i, mid);
    forall x
      ensures Covers(next, x) <==> Covers(prior, x)
    {
      CoversAround(prior, i, mid, x);
      CoveredOnce(prior, i, x);
      assert Covers(mid, x) <==> InSpan(mid[0], x) || InSpan(mid[1], x);
    }
  }
}
