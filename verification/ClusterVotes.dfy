/** Guessing the cluster size and the place of cluster 2 from the subdirectories found on a volume. */
module ClusterVotes {
  import opened Arith
  import opened FatTable
  import opened Options

  type uint32 = x: int | 0 <= x < 0x1_0000_0000

  /** A subdirectory found at a sector, and the cluster that its first entry names. */
  datatype Sample = Sample(sector: uint32, cluster: uint32)

  /** A line through the samples: cluster c begins at sector offset + (c - 2) * sectorsPerCluster. */
  datatype Line = Line(sectorsPerCluster: nat, offset: nat)

  datatype Candidate = Candidate(line: Line, nbr: nat, firstSol: nat)

  predicate IsClusterSize(n: int) {
    n == 1 || n == 2 || n == 4 || n == 8 || n == 16 || n == 32 || n == 64 || n == 128
  }

  /** (cluster - 2), in 32 bits. */
  function Below2(cluster: uint32): uint32 {
    (cluster - 2) % 0x1_0000_0000
  }

  predicate OnLine(s: Sample, line: Line) {
    s.sector == line.offset + Below2(s.cluster) * line.sectorsPerCluster
  }

  /** Sectors per cluster between two samples with rising clusters, in 32 bits. */
  function Slope(a: Sample, b: Sample): nat
    requires a.cluster < b.cluster
  {
    (b.sector - a.sector) % 0x1_0000_0000 / (b.cluster - a.cluster)
  }

  /** The line that two samples propose, if any. */
  function Proposal(a: Sample, b: Sample): (p: Option<Line>)
    ensures p.Some? ==> OnLine(a, p.value) && IsClusterSize(p.value.sectorsPerCluster) && 0 < p.value.offset
  {
    if b.cluster <= a.cluster then None
    else
      var n := Slope(a, b);
      if IsClusterSize(n) && a.sector > Below2(a.cluster) * n then Some(Line(n, a.sector - Below2(a.cluster) * n))
      else None
  }

  /** The proposal of every pair of samples, by their indices. */
  type Proposals = (nat, nat) -> Option<Line>

  ghost predicate Shows(s: seq<Sample>, p: Proposals) {
    forall a: nat, b: nat {:trigger Proposal(s[a], s[b])} :: a < |s| && b < |s| ==> p(a, b) == Proposal(s[a], s[b])
  }

  /** How many of the samples behind `first`, up to `to`, propose the line together with it? */
  ghost function Votes(p: Proposals, first: nat, line: Line, to: nat): nat {
    if to <= first + 1 then 0 else Votes(p, first, line, to - 1) + if p(first, to - 1) == Some(line) then 1 else 0
  }

  /** Has the pair (a, b) been looked at when the loops are in front of the pair (i, j)? */
  predicate Before(a: nat, b: nat, i: nat, j: nat) {
    a < b && (a < i || (a == i && b < j))
  }

  ghost predicate Distinct(sols: seq<Candidate>) {
    forall a, b :: 0 <= a < b < |sols| ==> sols[a].line != sols[b].line
  }

  ghost predicate Knows(sols: seq<Candidate>, line: Line) {
    exists a :: 0 <= a < |sols| && sols[a].line == line
  }

  /** A candidate goes back to the first sample that proposed it, and carries that sample's votes. */
  ghost predicate IsCounted(p: Proposals, n: nat, c: Candidate, i: nat, j: nat) {
    && c.firstSol <= i && 0 < c.nbr == Votes(p, c.firstSol, c.line, if c.firstSol == i then j else n)
    && forall a: nat, b: nat :: a < c.firstSol && a < b < n ==> p(a, b) != Some(c.line)
  }

  /** The candidates in front of the pair (i, j) are exactly the lines proposed so far, each once. */
  ghost predicate Tallied(p: Proposals, n: nat, sols: seq<Candidate>, i: nat, j: nat) {
    && Distinct(sols)
    && (forall k :: 0 <= k < |sols| ==> IsCounted(p, n, sols[k], i, j))
    && (forall a: nat, b: nat {:trigger Before(a, b, i, j)} :: b < n && Before(a, b, i, j) && p(a, b).Some? ==> Knows(sols, p(a, b).value))
  }

  /** One vote: for a known line only if sample i was the first to propose it. */
  ghost predicate IsVote(sols: seq<Candidate>, line: Line, i: nat, next: seq<Candidate>) {
    if Knows(sols, line) then
      |next| == |sols| && forall k :: 0 <= k < |sols| ==>
        next[k] == if sols[k].line == line && sols[k].firstSol == i then sols[k].(nbr := sols[k].nbr + 1) else sols[k]
    else next == sols + [Candidate(line, 1, i)]
  }

  /** The search for the line among the candidates. */
  method Vote(sols: seq<Candidate>, line: Line, i: nat) returns (next: seq<Candidate>)
    requires Distinct(sols)
    ensures IsVote(sols, line, i, next)
  {
    var solCur, found := 0, false;
    next := sols;
    while solCur < |sols| && !found
      invariant 0 <= solCur <= |sols|
      invariant !found ==> next == sols && forall k :: 0 <= k < solCur ==> sols[k].line != line
      invariant found ==> Knows(sols, line) && IsVote(sols, line, i, next)
    {
      if sols[solCur].line == line {
        if sols[solCur].firstSol == i {
          next := sols[solCur := sols[solCur].(nbr := sols[solCur].nbr + 1)];
        }
        found := true;
      }
      solCur := solCur + 1;
    }
    if !found {
      next := next + [Candidate(line, 1, i)];
    }
  }

  lemma VotedLineIsKnown(sols: seq<Candidate>, line: Line, i: nat, next: seq<Candidate>, other: Line)
    requires IsVote(sols, line, i, next)
    ensures Knows(next, line) && (Knows(sols, other) ==> Knows(next, other))
  {
    if Knows(sols, other) {
      var a :| 0 <= a < |sols| && sols[a].line == other;
      assert next[a].line == other;
    }
    if Knows(sols, line) {
      var a :| 0 <= a < |sols| && sols[a].line == line;
      assert next[a].line == line;
    } else {
      assert next[|sols|].line == line;
    }
  }

  /** Looking at one pair, with or without a proposal. */
  ghost predicate IsStep(proposal: Option<Line>, sols: seq<Candidate>, i: nat, next: seq<Candidate>) {
    match proposal
    case None => next == sols
    case Some(line) => IsVote(sols, line, i, next)
  }

  lemma StepKeepsDistinct(proposal: Option<Line>, sols: seq<Candidate>, i: nat, next: seq<Candidate>)
    requires Distinct(sols) && IsStep(proposal, sols, i, next)
    ensures Distinct(next) && |sols| <= |next| <= |sols| + 1
  {
  }

  /** A line that is not known has no votes from this sample, and none from an earlier one. */
  lemma {:induction false} NoVotesYet(p: Proposals, n: nat, sols: seq<Candidate>, i: nat, j: nat, line: Line, to: nat)
    requires i < j <= n && Tallied(p, n, sols, i, j) && !Knows(sols, line) && to <= j
    ensures Votes(p, i, line, to) == 0
    ensures forall a: nat, b: nat :: a < i && a < b < n ==> p(a, b) != Some(line)
  {
    if to > i + 1 {
      NoVotesYet(p, n, sols, i, j, line, to - 1);
      assert Before(i, to - 1, i, j);
    }
    forall a: nat, b: nat | a < i && a < b < n
      ensures p(a, b) != Some(line)
    {
      assert Before(a, b, i, j);
    }
  }

  lemma StepKeepsCounts(p: Proposals, n: nat, sols: seq<Candidate>, i: nat, j: nat, next: seq<Candidate>, k: nat)
    requires i < j < n && Tallied(p, n, sols, i, j) && IsStep(p(i, j), sols, i, next) && k < |next|
    ensures IsCounted(p, n, next[k], i, j + 1)
  {
    if k < |sols| {
      assert IsCounted(p, n, sols[k], i, j);
      if p(i, j) == Some(sols[k].line) {
        assert Knows(sols, p(i, j).value);
      }
    } else {
      NoVotesYet(p, n, sols, i, j, p(i, j).value, j);
    }
  }

  lemma StepKnows(p: Proposals, n: nat, sols: seq<Candidate>, i: nat, j: nat, next: seq<Candidate>, a: nat, b: nat)
    requires i < j < n && Tallied(p, n, sols, i, j) && IsStep(p(i, j), sols, i, next)
    requires b < n && Before(a, b, i, j + 1) && p(a, b).Some?
    ensures Knows(next, p(a, b).value)
  {
    if p(i, j).Some? {
      VotedLineIsKnown(sols, p(i, j).value, i, next, p(a, b).value);
    }
    assert a != i || b != j ==> Before(a, b, i, j);
  }

  lemma StepTallies(p: Proposals, n: nat, sols: seq<Candidate>, i: nat, j: nat, next: seq<Candidate>)
    requires i < j < n && Tallied(p, n, sols, i, j) && IsStep(p(i, j), sols, i, next)
    ensures Tallied(p, n, next, i, j + 1)
  {
    StepKeepsDistinct(p(i, j), sols, i, next);
    forall k: nat | k < |next|
      ensures IsCounted(p, n, next[k], i, j + 1)
    {
      StepKeepsCounts(p, n, sols, i, j, next, k);
    }
    forall a: nat, b: nat | b < n && Before(a, b, i, j + 1) && p(a, b).Some?
      ensures Knows(next, p(a, b).value)
    {
      StepKnows(p, n, sols, i, j, next, a, b);
    }
  }

  lemma NextRow(p: Proposals, n: nat, sols: seq<Candidate>, i: nat)
    requires i + 2 < n && Tallied(p, n, sols, i, n)
    ensures Tallied(p, n, sols, i + 1, i + 2)
  {
    forall k | 0 <= k < |sols|
      ensures IsCounted(p, n, sols[k], i + 1, i + 2)
    {
      assert IsCounted(p, n, sols[k], i, n);
    }
    forall a: nat, b: nat | b < n && Before(a, b, i + 1, i + 2) && p(a, b).Some?
      ensures Knows(sols, p(a, b).value)
    {
      assert Before(a, b, i, n);
    }
  }

  /** The number of pairs whose first sample is one of the first i. */
  function Pairs(n: nat, i: nat): nat
    requires i <= n
  {
    if i == 0 then 0 else Pairs(n, i - 1) + (n - i)
  }

  lemma {:induction false} PairsFormula(n: nat, i: nat)
    requires i <= n
    ensures 2 * Pairs(n, i) == i * (2 * n - i - 1)
  {
    if i > 0 {
      PairsFormula(n, i - 1);
    }
  }

  lemma PairsStep(n: nat, i: nat)
    requires i < n
    ensures Pairs(n, 0) == 0 && Pairs(n, i + 1) == Pairs(n, i) + (n - i - 1)
  {
  }

  lemma NothingTallied(p: Proposals, n: nat)
    requires 2 <= n
    ensures Tallied(p, n, [], 0, 1) && Pairs(n, 0) == 0
  {
  }

  /** The first two loops: candidates from all pairs of samples. */
  method CastVotes(s: seq<Sample>, ghost p: Proposals) returns (sols: seq<Candidate>)
    requires 2 <= |s| && Shows(s, p)
    ensures Tallied(p, |s|, sols, |s| - 2, |s|) && 2 * |sols| <= |s| * (|s| - 1)
  {
    hide Tallied, Shows, Pairs;
    sols := [];
    var i := 0;
    NothingTallied(p, |s|);
    while i < |s| - 1
      invariant 0 <= i <= |s| - 1
      invariant i < |s| - 1 ==> Tallied(p, |s|, sols, i, i + 1)
      invariant i == |s| - 1 ==> Tallied(p, |s|, sols, |s| - 2, |s|)
      invariant |sols| <= Pairs(|s|, i)
    {
      PairsStep(|s|, i);
      sols := CastRow(s, sols, i, p);
      if i + 2 < |s| {
        NextRow(p, |s|, sols, i);
      }
      i := i + 1;
    }
    PairsFormula(|s|, |s| - 1);
  }

  /** The pairs of one sample with the samples behind it. */
  method CastRow(s: seq<Sample>, before: seq<Candidate>, i: nat, ghost p: Proposals) returns (sols: seq<Candidate>)
    requires i + 1 < |s| && Shows(s, p) && Tallied(p, |s|, before, i, i + 1)
    ensures Tallied(p, |s|, sols, i, |s|) && |sols| <= |before| + (|s| - i - 1)
  {
    sols := before;
    var j := i + 1;
    while j < |s|
      invariant i < j <= |s| && Tallied(p, |s|, sols, i, j)
      invariant |sols| <= |before| + (j - i - 1)
    {
      sols := CastAndTally(s, sols, i, j, p);
      j := j + 1;
    }
  }

  method CastAndTally(s: seq<Sample>, sols: seq<Candidate>, i: nat, j: nat, ghost p: Proposals)
    returns (next: seq<Candidate>)
    requires i < j < |s| && Shows(s, p) && Tallied(p, |s|, sols, i, j)
    ensures Tallied(p, |s|, next, i, j + 1) && |next| <= |sols| + 1
  {
    next := CastPair(s, sols, i, j, p);
    StepKeepsDistinct(p(i, j), sols, i, next);
    StepTallies(p, |s|, sols, i, j, next);
  }

  method CastPair(s: seq<Sample>, sols: seq<Candidate>, i: nat, j: nat, ghost p: Proposals)
    returns (next: seq<Candidate>)
    requires i < j < |s| && Shows(s, p) && Distinct(sols)
    ensures IsStep(p(i, j), sols, i, next)
  {
    next := sols;
    assert p(i, j) == Proposal(s[i], s[j]);
    if s[j].cluster > s[i].cluster {
      var n := (s[j].sector - s[i].sector) % 0x1_0000_0000 / (s[j].cluster - s[i].cluster);
      if n == 1 || n == 2 || n == 4 || n == 8 || n == 16 || n == 32 || n == 64 || n == 128 {
        if s[i].sector > Below2(s[i].cluster) * n {
          next := Vote(sols, Line(n, s[i].sector - Below2(s[i].cluster) * n), i);
        }
      }
    }
  }

  /** no_of_cluster2part_type. */
  function TypeOfCount(n: nat): FatType {
    if n < 65525 then if n < 4085 then FAT12 else FAT16 else FAT32
  }

  /** The FAT type of a volume of this many sectors with this line; the subtraction is one of 64 bits. */
  function TypeOfLine(partSectors: nat, line: Line): FatType
    requires 0 < line.sectorsPerCluster
  {
    TypeOfCount((partSectors - line.offset) % 0x1_0000_0000_0000_0000 / line.sectorsPerCluster)
  }

  /** The last of n clusters, n + 1, lies below the ten highest values of an entry, which are reserved. */
  predicate HasRoom(t: FatType, n: nat) {
    n + 1 < Capacity(t) - 10
  }

  /** The narrowest entries that have room for n clusters; FAT32 when neither of the others has. */
  predicate IsNarrowest(t: FatType, n: nat) {
    match t
    case FAT12 => HasRoom(FAT12, n)
    case FAT16 => !HasRoom(FAT12, n) && HasRoom(FAT16, n)
    case FAT32 => !HasRoom(FAT12, n) && !HasRoom(FAT16, n)
    case NotFat => false
  }

  /** The type of a count is the narrowest one. */
  lemma TypeIsNarrowest(n: nat, t: FatType)
    ensures TypeOfCount(n) == t <==> IsNarrowest(t, n)
  {
  }

  /** n whole clusters lie between the start of cluster 2 and the end of the volume; the subtraction is one of 64 bits. */
  predicate HasClusters(partSectors: nat, line: Line, n: nat) {
    n * line.sectorsPerCluster <= (partSectors - line.offset) % 0x1_0000_0000_0000_0000 < (n + 1) * line.sectorsPerCluster
  }

  /** A wanted FAT type, or None for UP_UNK. */
  ghost predicate IsWanted(partSectors: nat, wanted: Option<FatType>, line: Line) {
    && 0 < line.sectorsPerCluster
    && (wanted.Some? ==> exists n: nat :: HasClusters(partSectors, line, n) && IsNarrowest(wanted.value, n))
  }

  lemma ClustersOfLine(partSectors: nat, line: Line, n: nat)
    requires 0 < line.sectorsPerCluster
    ensures HasClusters(partSectors, line, n)
            <==> n == (partSectors - line.offset) % 0x1_0000_0000_0000_0000 / line.sectorsPerCluster
  {
    var room, unit := (partSectors - line.offset) % 0x1_0000_0000_0000_0000, line.sectorsPerCluster;
    var q := room / unit;
    assert room == unit * q + room % unit && q * unit == unit * q && (q + 1) * unit == unit * q + unit;
    if HasClusters(partSectors, line, n) {
      assert n * unit == unit * n && (n + 1) * unit == unit * n + unit;
      DivModUnique(room, unit, n, room - unit * n);
    }
  }

  lemma WantedIs(partSectors: nat, wanted: Option<FatType>, line: Line)
    requires 0 < line.sectorsPerCluster
    ensures IsWanted(partSectors, wanted, line) <==> wanted == None || wanted == Some(TypeOfLine(partSectors, line))
  {
    hide HasClusters, IsNarrowest, TypeOfCount;
    var n := (partSectors - line.offset) % 0x1_0000_0000_0000_0000 / line.sectorsPerCluster;
    ClustersOfLine(partSectors, line, n);
    if wanted.Some? {
      TypeIsNarrowest(n, wanted.value);
      forall m: nat | HasClusters(partSectors, line, m)
        ensures m == n
      {
        ClustersOfLine(partSectors, line, m);
      }
    }
  }

  /** The first candidate of maximal vote among the wanted ones of the first n. */
  ghost predicate IsBest(sols: seq<Candidate>, partSectors: nat, wanted: Option<FatType>, n: nat, k: nat)
    requires n <= |sols|
  {
    && k < n && IsWanted(partSectors, wanted, sols[k].line)
    && (forall a :: 0 <= a < n && IsWanted(partSectors, wanted, sols[a].line) ==> sols[a].nbr <= sols[k].nbr)
    && (forall a :: 0 <= a < k && IsWanted(partSectors, wanted, sols[a].line) ==> sols[a].nbr < sols[k].nbr)
  }

  /** The loop that picks the result. */
  method PickBest(sols: seq<Candidate>, partSectors: nat, wanted: Option<FatType>)
    returns (best: Option<Line>, ghost at: nat)
    requires forall k :: 0 <= k < |sols| ==> 0 < sols[k].nbr && 0 < sols[k].line.sectorsPerCluster
    ensures best == None ==> forall k :: 0 <= k < |sols| ==> !IsWanted(partSectors, wanted, sols[k].line)
    ensures best.Some? ==> IsBest(sols, partSectors, wanted, |sols|, at) && best == Some(sols[at].line)
  {
    hide IsWanted;
    var nbrMax := 0;
    best, at := None, 0;
    var i := 0;
    while i < |sols|
      invariant 0 <= i <= |sols|
      invariant nbrMax == 0 ==> best == None && forall k :: 0 <= k < i ==> !IsWanted(partSectors, wanted, sols[k].line)
      invariant nbrMax > 0 ==> IsBest(sols, partSectors, wanted, i, at) && best == Some(sols[at].line) && nbrMax == sols[at].nbr
    {
      var typeNew := TypeOfLine(partSectors, sols[i].line);
      WantedIs(partSectors, wanted, sols[i].line);
      if (wanted == None || wanted == Some(typeNew)) && sols[i].nbr > nbrMax {
        nbrMax := sols[i].nbr;
        best, at := Some(sols[i].line), i;
      }
      i := i + 1;
    }
  }

  ghost function ProposalsOf(s: seq<Sample>): Proposals {
    (a: nat, b: nat) => if a < |s| && b < |s| then Proposal(s[a], s[b]) else None
  }

  /** A line with a vote was proposed by the sample it goes back to. */
  lemma {:induction false} VoteHasProposal(p: Proposals, first: nat, line: Line, to: nat) returns (b: nat)
    requires 0 < Votes(p, first, line, to)
    ensures first < b < to && p(first, b) == Some(line)
  {
    b := to - 1;
    if p(first, b) != Some(line) {
      b := VoteHasProposal(p, first, line, to - 1);
    }
  }

  /** Every candidate passes through the sample it goes back to. */
  lemma CandidateIsOnItsSample(s: seq<Sample>, c: Candidate)
    requires 2 <= |s| && IsCounted(ProposalsOf(s), |s|, c, |s| - 2, |s|)
    ensures OnLine(s[c.firstSol], c.line) && IsClusterSize(c.line.sectorsPerCluster) && 0 < c.line.offset
  {
    var b := VoteHasProposal(ProposalsOf(s), c.firstSol, c.line, |s|);
    assert Proposal(s[c.firstSol], s[b]) == Some(c.line);
  }

  lemma CandidatesAreUsable(s: seq<Sample>, sols: seq<Candidate>)
    requires 2 <= |s| && Tallied(ProposalsOf(s), |s|, sols, |s| - 2, |s|)
    ensures forall k :: 0 <= k < |sols| ==> 0 < sols[k].nbr && 0 < sols[k].line.sectorsPerCluster
  {
    forall k | 0 <= k < |sols|
      ensures 0 < sols[k].nbr && 0 < sols[k].line.sectorsPerCluster
    {
      assert IsCounted(ProposalsOf(s), |s|, sols[k], |s| - 2, |s|);
      CandidateIsOnItsSample(s, sols[k]);
    }
  }

  /** The candidates after both loops, and the best wanted one among them. */
  ghost predicate IsElected(s: seq<Sample>, partSectors: nat, wanted: Option<FatType>, best: Option<Line>,
                            sols: seq<Candidate>, at: nat)
    requires 2 <= |s|
  {
    && Tallied(ProposalsOf(s), |s|, sols, |s| - 2, |s|)
    && match best
       case None => forall k :: 0 <= k < |sols| ==> !IsWanted(partSectors, wanted, sols[k].line)
       case Some(line) => IsBest(sols, partSectors, wanted, |sols|, at) && line == sols[at].line
  }

  /** find_sectors_per_cluster_aux: None for fewer than two samples or when no candidate has the wanted type. */
  method FindSectorsPerClusterAux(s: seq<Sample>, partSectors: nat, wanted: Option<FatType>)
    returns (best: Option<Line>, ghost sols: seq<Candidate>, ghost at: nat)
    ensures |s| < 2 ==> best == None
    ensures 2 <= |s| ==> IsElected(s, partSectors, wanted, best, sols, at) && 2 * |sols| <= |s| * (|s| - 1)
  {
    if |s| < 2 {
      return None, [], 0;
    }
    var found := CastVotes(s, ProposalsOf(s));
    CandidatesAreUsable(s, found);
    sols := found;
    best, at := PickBest(found, partSectors, wanted);
  }

  // ----- samples that fit one line -----

  /** All samples lie on the line, on clusters that exist. */
  ghost predicate AllOnLine(s: seq<Sample>, line: Line) {
    forall i :: 0 <= i < |s| ==> 2 <= s[i].cluster && OnLine(s[i], line)
  }

  lemma RiseOfLine(x: nat, y: nat, n: nat)
    requires x <= y
    ensures n * (y - x) == y * n - x * n
  {
  }

  lemma SlopeOfLine(a: Sample, b: Sample, line: Line)
    requires 2 <= a.cluster < b.cluster && OnLine(a, line) && OnLine(b, line)
    ensures Slope(a, b) == line.sectorsPerCluster
  {
    var x, y, n := a.cluster - 2, b.cluster - 2, line.sectorsPerCluster;
    assert Below2(a.cluster) == x && Below2(b.cluster) == y;
    SlopeIs(a.sector, b.sector, line.offset, x, y, n);
  }

  lemma SlopeIs(s: nat, t: nat, offset: nat, x: nat, y: nat, n: nat)
    requires x < y && s == offset + x * n && t == offset + y * n && t < 0x1_0000_0000
    ensures (t - s) % 0x1_0000_0000 / (y - x) == n
  {
    RiseOfLine(x, y, n);
    DivModUnique(t - s, y - x, n, 0);
  }

  /** Samples on one line can only propose that line. */
  lemma OnlyTheLineIsProposed(a: Sample, b: Sample, line: Line)
    requires 2 <= a.cluster && 2 <= b.cluster && OnLine(a, line) && OnLine(b, line)
    requires IsClusterSize(line.sectorsPerCluster) && 0 < line.offset
    ensures Proposal(a, b) == if a.cluster < b.cluster then Some(line) else None
  {
    if a.cluster < b.cluster {
      SlopeOfLine(a, b, line);
    }
  }

  /**
   * When all samples lie on the line of a cluster size, cluster 2 does not start at sector 0, at least one pair has
   * rising clusters and the wanted type is the narrowest for the clusters of the volume, the answer is that line.
   */
  lemma LineIsElected(s: seq<Sample>, partSectors: nat, wanted: Option<FatType>, best: Option<Line>,
                      sols: seq<Candidate>, at: nat, line: Line, n: nat, i: nat, j: nat)
    requires AllOnLine(s, line) && IsClusterSize(line.sectorsPerCluster) && 0 < line.offset
    requires i < j < |s| && s[i].cluster < s[j].cluster
    requires HasClusters(partSectors, line, n) && (wanted.Some? ==> IsNarrowest(wanted.value, n))
    requires IsElected(s, partSectors, wanted, best, sols, at)
    ensures best == Some(line)
  {
    var p := ProposalsOf(s);
    forall k | 0 <= k < |sols|
      ensures sols[k].line == line
    {
      assert IsCounted(p, |s|, sols[k], |s| - 2, |s|);
      var b := VoteHasProposal(p, sols[k].firstSol, sols[k].line, |s|);
      OnlyTheLineIsProposed(s[sols[k].firstSol], s[b], line);
    }
    OnlyTheLineIsProposed(s[i], s[j], line);
    assert Before(i, j, |s| - 2, |s|) && p(i, j) == Some(line);
  }
}
