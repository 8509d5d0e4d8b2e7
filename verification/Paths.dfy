/** The path filter of the directory-tree recovery: normal form, and ancestor tests that ignore case. */
module Paths {

  predicate IsSeparator(c: char) {
    c == '/' || c == '\\'
  }

  /** The slash that every separator becomes. */
  function Slash(c: char): char {
    if c == '\\' then '/' else c
  }

  function Slashed(s: string): (r: string)
    ensures |r| == |s| && forall i :: 0 <= i < |s| ==> r[i] == Slash(s[i])
  {
    seq(|s|, i requires 0 <= i < |s| => Slash(s[i]))
  }

  function DropLeading(s: string): string {
    if s != "" && IsSeparator(s[0]) then DropLeading(s[1..]) else s
  }

  function DropTrailing(s: string): string {
    if s != "" && s[|s| - 1] == '/' then DropTrailing(s[..|s| - 1]) else s
  }

  function Take(s: string, n: nat): string {
    if |s| <= n then s else s[..n]
  }

  /** The path that kf_normalize_path leaves in a buffer of `size` characters. */
  function Normalized(src: string, size: nat): string
    requires 0 < size
  {
    DropTrailing(Slashed(Take(DropLeading(src), size - 1)))
  }

  /** The C string at the start of a buffer. */
  function CString(s: string): string {
    if s == "" || s[0] == '\0' then "" else [s[0]] + CString(s[1..])
  }

  lemma {:induction false} CStringEnds(s: string, n: nat)
    requires n < |s| && s[n] == '\0' && '\0' !in s[..n]
    ensures CString(s) == s[..n]
  {
    if n > 0 {
      assert s[0] == s[..n][0] && s[1..][..n - 1] == s[..n][1..];
      CStringEnds(s[1..], n - 1);
    }
  }

  lemma {:induction false} SuffixOfDropLeading(s: string, i: nat)
    requires i <= |s| && forall k :: 0 <= k < i ==> IsSeparator(s[k])
    ensures DropLeading(s) == DropLeading(s[i..])
  {
    if i > 0 {
      SuffixOfDropLeading(s[1..], i - 1);
      assert s[1..][i - 1..] == s[i..];
    } else {
      assert s[0..] == s;
    }
  }

  lemma {:induction false} PrefixOfDropTrailing(s: string, j: nat)
    requires j <= |s| && forall k :: j <= k < |s| ==> s[k] == '/'
    ensures DropTrailing(s) == DropTrailing(s[..j])
  {
    if j < |s| {
      PrefixOfDropTrailing(s[..|s| - 1], j);
      assert s[..|s| - 1][..j] == s[..j];
    } else {
      assert s[..j] == s;
    }
  }

  /** Copy from position `from` on, as far as there is room for a terminator, turning separators into slashes. */
  method CopySlashed(src: string, from: nat, dst: array<char>) returns (j: nat)
    requires from <= |src| && 0 < dst.Length
    modifies dst
    ensures j < dst.Length && dst[..j] == Slashed(Take(src[from..], dst.Length - 1))
  {
    j := 0;
    while from + j < |src| && j + 1 < dst.Length
      invariant from + j <= |src| && j < dst.Length
      invariant dst[..j] == Slashed(src[from..from + j])
    {
      if src[from + j] == '\\' {
        dst[j] := '/';
      } else {
        dst[j] := src[from + j];
      }
      j := j + 1;
    }
    assert src[from..from + j] == Take(src[from..], dst.Length - 1);
  }

  /** kf_normalize_path. */
  method NormalizePath(src: string, dst: array<char>)
    requires '\0' !in src && 0 < dst.Length
    modifies dst
    ensures CString(dst[..]) == Normalized(src, dst.Length)
  {
    var i := 0;
    while i < |src| && (src[i] == '\\' || src[i] == '/')
      invariant i <= |src| && forall k :: 0 <= k < i ==> IsSeparator(src[k])
    {
      i := i + 1;
    }
    SuffixOfDropLeading(src, i);
    var j := CopySlashed(src, i, dst);
    ghost var full := dst[..j];
    NoTerminator(src, i, dst.Length - 1);
    while j > 0 && dst[j - 1] == '/'
      invariant 0 <= j <= |full| < dst.Length && dst[..|full|] == full
      invariant forall k :: j <= k < |full| ==> full[k] == '/'
    {
      assert full[j - 1] == dst[j - 1];
      j := j - 1;
    }
    Terminate(full, dst, j);
  }

  method Terminate(ghost full: string, dst: array<char>, j: nat)
    requires j <= |full| < dst.Length && dst[..|full|] == full && '\0' !in full
    requires forall k :: j <= k < |full| ==> full[k] == '/'
    requires j > 0 ==> dst[j - 1] != '/'
    modifies dst
    ensures CString(dst[..]) == DropTrailing(full)
  {
    assert j > 0 ==> full[j - 1] == dst[j - 1];
    assert full[..j] == dst[..j];
    PrefixOfDropTrailing(full, j);
    dst[j] := '\0';
    assert dst[..][..j] == full[..j];
    CStringEnds(dst[..], j);
  }

  lemma NoTerminator(src: string, i: nat, n: nat)
    requires i <= |src| && '\0' !in src
    ensures '\0' !in Slashed(Take(src[i..], n))
  {
  }

  /** ASCII case folding, as strncasecmp does it in the C locale. */
  function Fold(c: char): char {
    if 'A' <= c <= 'Z' then (c as int + 32) as char else c
  }

  predicate SameFolded(a: string, b: string) {
    |a| == |b| && forall i :: 0 <= i < |a| ==> Fold(a[i]) == Fold(b[i])
  }

  const CAPITALS := "ABCDEFGHIJKLMNOPQRSTUVWXYZ"

  const SMALLS := "abcdefghijklmnopqrstuvwxyz"

  /** The same character, or the capital and the small form of one letter. */
  predicate SameLetter(a: char, b: char) {
    a == b || exists k :: 0 <= k < 26 && ((a == CAPITALS[k] && b == SMALLS[k]) || (a == SMALLS[k] && b == CAPITALS[k]))
  }

  /** The same text, letter case aside. */
  predicate SameName(a: string, b: string) {
    |a| == |b| && forall i :: 0 <= i < |a| ==> SameLetter(a[i], b[i])
  }

  lemma AlphabetHalf(k: nat)
    requires k < 13
    ensures CAPITALS[k] == ('A' as int + k) as char && SMALLS[k] == ('a' as int + k) as char
    ensures CAPITALS[k + 13] == ('N' as int + k) as char && SMALLS[k + 13] == ('n' as int + k) as char
  {
  }

  lemma Alphabet(k: nat)
    requires k < 26
    ensures CAPITALS[k] == ('A' as int + k) as char && SMALLS[k] == ('a' as int + k) as char
  {
    hide CAPITALS, SMALLS;
    if k < 13 {
      AlphabetHalf(k);
    } else {
      AlphabetHalf(k - 13);
    }
  }

  /** Two characters are the same under strncasecmp exactly when they are the same letter. */
  lemma FoldsAgreeIff(a: char, b: char)
    ensures Fold(a) == Fold(b) <==> SameLetter(a, b)
  {
    assert |CAPITALS| == |SMALLS| == 26;
    hide CAPITALS, SMALLS;
    forall k | 0 <= k < 26
      ensures CAPITALS[k] == ('A' as int + k) as char && SMALLS[k] == ('a' as int + k) as char
    {
      Alphabet(k);
    }
    if Fold(a) == Fold(b) && a != b {
      var k := Fold(a) as int - 'a' as int;
      assert 0 <= k < 26;
      assert (a == CAPITALS[k] && b == SMALLS[k]) || (a == SMALLS[k] && b == CAPITALS[k]);
    }
  }

  lemma SameFoldedIff(a: string, b: string)
    ensures SameFolded(a, b) <==> SameName(a, b)
  {
    hide SameLetter, Fold;
    if |a| == |b| {
      forall i | 0 <= i < |a|
        ensures Fold(a[i]) == Fold(b[i]) <==> SameLetter(a[i], b[i])
      {
        FoldsAgreeIff(a[i], b[i]);
      }
    }
  }

  /** kf_path_is_within: is parent an ancestor of child, or child itself? */
  predicate IsWithin(parent: string, child: string) {
    || parent == ""
    || (&& |parent| <= |child| && SameFolded(child[..|parent|], parent)
        && (|child| == |parent| || child[|parent|] == '/'))
  }

  /** kf_paths_related. */
  predicate Related(a: string, b: string) {
    IsWithin(a, b) || IsWithin(b, a)
  }

  /** Two ancestors of one path are comparable, so a directory that leads to a wanted one is never pruned. */
  lemma AncestorsAreRelated(a: string, b: string, c: string)
    requires IsWithin(a, c) && IsWithin(b, c)
    ensures Related(a, b)
  {
    if a != "" && b != "" {
      if |a| <= |b| {
        AncestorOfAncestor(a, b, c);
      } else {
        AncestorOfAncestor(b, a, c);
      }
    }
  }

  lemma AncestorOfAncestor(a: string, b: string, c: string)
    requires a != "" && IsWithin(a, c) && IsWithin(b, c) && |a| <= |b|
    ensures IsWithin(a, b)
  {
    forall i | 0 <= i < |a|
      ensures Fold(b[..|a|][i]) == Fold(a[i])
    {
      assert Fold(c[..|a|][i]) == Fold(a[i]);
      assert Fold(c[..|b|][i]) == Fold(b[i]);
    }
    if |a| < |b| {
      assert Fold(c[..|b|][|a|]) == Fold(b[|a|]);
    }
  }

  lemma WithinIsTransitive(a: string, b: string, c: string)
    requires IsWithin(a, b) && IsWithin(b, c)
    ensures IsWithin(a, c)
  {
    if a != "" {
      forall i | 0 <= i < |a|
        ensures Fold(c[..|a|][i]) == Fold(a[i])
      {
        assert Fold(b[..|a|][i]) == Fold(a[i]);
        assert Fold(c[..|b|][i]) == Fold(b[i]);
      }
      if |a| < |b| {
        assert Fold(c[..|b|][|a|]) == Fold(b[|a|]);
      }
    }
  }

  /** A name that can be a path component. */
  predicate IsName(s: string) {
    s != "" && '/' !in s
  }

  ghost predicate AreNames(parts: seq<string>) {
    forall i :: 0 <= i < |parts| ==> IsName(parts[i])
  }

  /** The path with these components. */
  function Join(parts: seq<string>): string {
    if parts == [] then "" else if |parts| == 1 then parts[0] else parts[0] + "/" + Join(parts[1..])
  }

  /** Does the list `parent` start the list `child`, letter case aside? */
  ghost predicate IsPrefixFolded(parent: seq<string>, child: seq<string>) {
    |parent| <= |child| && forall i :: 0 <= i < |parent| ==> SameName(child[i], parent[i])
  }

  lemma JoinIsNotEmpty(parts: seq<string>)
    requires AreNames(parts) && parts != []
    ensures |Join(parts)| >= |parts[0]| > 0 && Join(parts)[..|parts[0]|] == parts[0]
    ensures |parts| == 1 ==> |Join(parts)| == |parts[0]|
    ensures |parts| > 1 ==> Join(parts) == parts[0] + "/" + Join(parts[1..])
  {
  }

  /** The ancestor test compares whole components. */
  lemma {:induction false} WithinComparesComponents(parent: seq<string>, child: seq<string>)
    requires AreNames(parent) && AreNames(child)
    ensures IsWithin(Join(parent), Join(child)) <==> IsPrefixFolded(parent, child)
  {
    if parent != [] {
      JoinIsNotEmpty(parent);
      if child != [] {
        JoinIsNotEmpty(child);
        FirstComponent(parent, child);
        if |parent| > 1 && |child| > 1 {
          WithinComparesComponents(parent[1..], child[1..]);
          JoinIsNotEmpty(parent[1..]);
        }
        PrefixStep(parent, child);
      }
    }
  }

  lemma PrefixStep(parent: seq<string>, child: seq<string>)
    requires parent != [] && child != []
    ensures IsPrefixFolded(parent, child) <==> SameFolded(child[0], parent[0]) && IsPrefixFolded(parent[1..], child[1..])
  {
    hide SameName, SameFolded;
    SameFoldedIff(child[0], parent[0]);
    if SameName(child[0], parent[0]) && IsPrefixFolded(parent[1..], child[1..]) {
      forall i | 0 <= i < |parent|
        ensures SameName(child[i], parent[i])
      {
        if i > 0 {
          assert SameName(child[1..][i - 1], parent[1..][i - 1]);
        }
      }
    }
    if IsPrefixFolded(parent, child) {
      forall i | 0 <= i < |parent| - 1
        ensures SameName(child[1..][i], parent[1..][i])
      {
        assert SameName(child[i + 1], parent[i + 1]);
      }
    }
  }

  /** What may follow a component: nothing, or a slash and more. */
  predicate IsTail(s: string) {
    s == "" || s[0] == '/'
  }

  lemma MisalignedIsNotWithin(x: string, s: string, y: string, t: string)
    requires IsName(x) && IsName(y) && IsTail(s) && IsTail(t) && |x| != |y|
    ensures !IsWithin(x + s, y + t)
  {
    var p, c := x + s, y + t;
    if |x| < |y| {
      assert c[|x|] == y[|x|] && y[|x|] in y;
      assert s != "" && |p| <= |c| ==> c[..|p|][|x|] == c[|x|] && p[|x|] == '/';
    } else {
      assert p[|y|] == x[|y|] && x[|y|] in x;
      assert t != "" && |p| <= |c| ==> c[..|p|][|y|] == '/';
    }
  }

  lemma AlignedWithin(x: string, s: string, y: string, t: string)
    requires IsName(x) && IsName(y) && IsTail(s) && IsTail(t) && |x| == |y| && |s| != 1
    ensures IsWithin(x + s, y + t) <==> SameFolded(y, x) && (s != "" ==> t != "" && IsWithin(s[1..], t[1..]))
  {
    var p, c := x + s, y + t;
    if IsWithin(p, c) {
      forall i | 0 <= i < |x|
        ensures Fold(y[i]) == Fold(x[i])
      {
        assert Fold(c[..|p|][i]) == Fold(p[i]);
      }
      forall i | 0 <= i < |s| - 1
        ensures Fold(t[1..][i]) == Fold(s[1..][i])
      {
        assert Fold(c[..|p|][|x| + 1 + i]) == Fold(p[|x| + 1 + i]);
      }
    }
    if SameFolded(y, x) && (s != "" ==> t != "" && IsWithin(s[1..], t[1..])) {
      forall i | 0 <= i < |p|
        ensures Fold(c[..|p|][i]) == Fold(p[i])
      {
        if i > |x| {
          assert Fold(t[1..][..|s| - 1][i - |x| - 1]) == Fold(s[1..][i - |x| - 1]);
        }
      }
    }
  }

  /** Everything behind the first component. */
  function Tail(parts: seq<string>): string {
    if |parts| > 1 then "/" + Join(parts[1..]) else ""
  }

  lemma TailFacts(parts: seq<string>)
    requires AreNames(parts) && parts != []
    ensures Join(parts) == parts[0] + Tail(parts) && IsTail(Tail(parts)) && |Tail(parts)| != 1
    ensures Tail(parts) != "" <==> |parts| > 1
    ensures |parts| > 1 ==> Tail(parts)[1..] == Join(parts[1..])
  {
    if |parts| > 1 {
      var rest := Join(parts[1..]);
      JoinIsNotEmpty(parts[1..]);
      assert parts[0] + "/" + rest == parts[0] + ("/" + rest);
      assert ("/" + rest)[1..] == rest;
    } else {
      assert parts[0] + "" == parts[0];
    }
  }

  lemma WithinByParts(x: string, s: string, y: string, t: string)
    requires IsName(x) && IsName(y) && IsTail(s) && IsTail(t) && |s| != 1
    ensures IsWithin(x + s, y + t) <==> SameFolded(y, x) && (s != "" ==> t != "" && IsWithin(s[1..], t[1..]))
  {
    if |x| == |y| {
      AlignedWithin(x, s, y, t);
    } else {
      MisalignedIsNotWithin(x, s, y, t);
    }
  }

  lemma FirstComponent(parent: seq<string>, child: seq<string>)
    requires AreNames(parent) && AreNames(child) && parent != [] && child != []
    ensures IsWithin(Join(parent), Join(child)) <==>
            && SameFolded(child[0], parent[0])
            && (|parent| > 1 ==> |child| > 1 && IsWithin(Join(parent[1..]), Join(child[1..])))
  {
    TailFacts(parent);
    TailFacts(child);
    WithinByParts(parent[0], Tail(parent), child[0], Tail(child));
  }

  /** The ancestor test does not see the letter case of the ancestor. */
  lemma SameNameIsWithin(a: string, b: string, c: string)
    requires SameName(a, b)
    ensures IsWithin(a, c) <==> IsWithin(b, c)
  {
    SameFoldedIff(a, b);
    if |a| <= |c| {
      forall i | 0 <= i < |a|
        ensures Fold(c[..|a|][i]) == Fold(a[i]) <==> Fold(c[..|a|][i]) == Fold(b[i])
      {
      }
    }
  }

  /** Letter case does not matter for the normal form either. */
  lemma SameNameIsNormal(a: string, b: string)
    requires SameName(a, b) && IsNormal(b)
    ensures IsNormal(a)
  {
    SameFoldedIff(a, b);
    forall i | 0 <= i < |a|
      ensures a[i] == '\\' ==> b[i] == '\\'
      ensures a[i] == '/' ==> b[i] == '/'
    {
      assert Fold(a[i]) == Fold(b[i]);
    }
  }

  /** A path without backslashes and without a separator at either end. */
  predicate IsNormal(s: string) {
    '\\' !in s && (s != "" ==> s[0] != '/' && s[|s| - 1] != '/')
  }

  lemma {:induction false} DropLeadingIsSuffix(s: string)
    ensures var r := DropLeading(s); |r| <= |s| && s[|s| - |r|..] == r && (r != "" ==> !IsSeparator(r[0]))
  {
    if s != "" && IsSeparator(s[0]) {
      DropLeadingIsSuffix(s[1..]);
    }
  }

  lemma {:induction false} DropTrailingIsPrefix(s: string)
    ensures var r := DropTrailing(s); |r| <= |s| && s[..|r|] == r && (r != "" ==> r[|r| - 1] != '/')
  {
    if s != "" && s[|s| - 1] == '/' {
      DropTrailingIsPrefix(s[..|s| - 1]);
    }
  }

  /** Every path comes out in normal form and fits its buffer. */
  lemma NormalizedIsNormal(src: string, size: nat)
    requires 0 < size
    ensures IsNormal(Normalized(src, size)) && |Normalized(src, size)| < size
  {
    var body := DropLeading(src);
    var flat := Slashed(Take(body, size - 1));
    DropLeadingIsSuffix(src);
    DropTrailingIsPrefix(flat);
    var r := Normalized(src, size);
    assert forall i :: 0 <= i < |r| ==> r[i] == flat[i];
  }

  /** Every spelling of a path, with any mix of separators around and between its components, has the same normal form. */
  lemma SpellingsAgree(lead: string, mid: string, trail: string, path: string, size: nat)
    requires forall i :: 0 <= i < |lead| ==> IsSeparator(lead[i])
    requires forall i :: 0 <= i < |trail| ==> IsSeparator(trail[i])
    requires Slashed(mid) == path && IsNormal(path) && |mid| < size
    ensures Normalized(lead + mid + trail, size) == path
  {
    var src := lead + mid + trail;
    SuffixOfDropLeading(src, |lead|);
    assert src[|lead|..] == mid + trail;
    if mid == "" {
      SuffixOfDropLeading(trail, |trail|);
    } else {
      assert path[0] == Slash(mid[0]);
      var flat := Slashed(Take(mid + trail, size - 1));
      assert flat[..|mid|] == Slashed(mid);
      PrefixOfDropTrailing(flat, |mid|);
      assert DropTrailing(flat) == Slashed(mid);
    }
  }

  lemma {:induction false} JoinIsNormal(parts: seq<string>)
    requires AreNames(parts) && forall i :: 0 <= i < |parts| ==> '\\' !in parts[i]
    ensures IsNormal(Join(parts))
  {
    if |parts| > 1 {
      JoinIsNormal(parts[1..]);
      JoinIsNotEmpty(parts[1..]);
    }
    if parts != [] {
      assert forall i :: 0 <= i < |parts[0]| ==> parts[0][i] in parts[0];
    }
  }

  /** Normalising twice changes nothing. */
  lemma NormalizeTwice(src: string, size: nat)
    requires 0 < size
    ensures Normalized(Normalized(src, size), size) == Normalized(src, size)
  {
    var r := Normalized(src, size);
    NormalizedIsNormal(src, size);
    assert "" + r + "" == r;
    SlashedNormal(r);
    SpellingsAgree("", r, "", r, size);
  }

  lemma SlashedNormal(s: string)
    requires IsNormal(s)
    ensures Slashed(s) == s
  {
    assert forall i :: 0 <= i < |s| ==> s[i] in s;
  }
}
