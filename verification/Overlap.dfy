/** The longest suffix of one string that is a prefix of another: a reference
    definition and the linear-time border search that computes it. */
module Overlap {
  import opened Text

  /** The last `k` of the first `n` characters of `t` are the first `k` characters of `p`. */
  predicate Match(t: string, n: nat, p: string, k: nat)
    requires n <= |t|
  {
    k <= n && k <= |p| && t[n - k..n] == p[..k]
  }

  /** The last `k` characters of `existing` are the first `k` characters of `prefix`. */
  predicate Overlaps(existing: string, prefix: string, k: nat) {
    Match(existing, |existing|, prefix, k)
  }

  /** The greatest overlap that is at most `bound`. */
  ghost function OverlapUpTo(existing: string, prefix: string, bound: nat): (k: nat)
    ensures Overlaps(existing, prefix, k)
    ensures forall j: nat :: j <= bound && Overlaps(existing, prefix, j) ==> j <= k
  {
    if bound == 0 || Overlaps(existing, prefix, bound) then bound
    else OverlapUpTo(existing, prefix, bound - 1)
  }

  ghost function LongestOverlap(existing: string, prefix: string): (k: nat)
    ensures Overlaps(existing, prefix, k)
    ensures forall j: nat :: Overlaps(existing, prefix, j) ==> j <= k
  {
    OverlapUpTo(existing, prefix, Min(|existing|, |prefix|))
  }

  /** No match of length at most `cap` is longer than `m`. */
  ghost predicate Ceiling(t: string, n: nat, p: string, cap: int, m: nat)
    requires n <= |t|
  {
    forall j: nat :: j <= cap && Match(t, n, p, j) ==> j <= m
  }

  /** `k` is the longest proper border of the first `n` characters of `p`. */
  ghost predicate IsLongestBorder(p: string, n: nat, k: nat)
    requires n <= |p|
  {
    k < n && Match(p, n, p, k) && Ceiling(p, n, p, n - 1, k)
  }

  /** Entry `i` is the longest proper border of the first `i + 1` characters. */
  ghost predicate BorderAt(p: string, i: nat, k: nat)
    requires i < |p|
  {
    IsLongestBorder(p, i + 1, k)
  }

  lemma MatchDrop(t: string, n: nat, p: string, k: nat)
    requires n < |t| && 0 < k && Match(t, n + 1, p, k)
    ensures Match(t, n, p, k - 1) && t[n] == p[k - 1]
  {
  }

  lemma MatchExtend(t: string, n: nat, p: string, k: nat)
    requires n < |t| && k < |p| && Match(t, n, p, k) && t[n] == p[k]
    ensures Match(t, n + 1, p, k + 1)
  {
  }

  lemma MatchNest(t: string, n: nat, p: string, m: nat, k: nat)
    requires n <= |t| && Match(t, n, p, m) && k <= m
    ensures Match(t, n, p, k) <==> Match(p, m, p, k)
  {
  }

  /** Reading one more character raises the ceiling by at most one. */
  lemma CeilingStep(t: string, n: nat, p: string, cap: int, m: nat)
    requires n < |t| && Ceiling(t, n, p, cap, m)
    ensures Ceiling(t, n + 1, p, cap + 1, m + 1)
  {
    var n' := n + 1;
    forall j: nat | j <= cap + 1 && Match(t, n', p, j)
      ensures j <= m + 1
    {
      if j > 0 {
        MatchDrop(t, n, p, j);
      }
    }
  }

  /** On a mismatch the search may continue from the longest border. */
  lemma FallBack(t: string, n: nat, p: string, cap: int, m: nat, f: nat)
    requires n < |t| && 0 < m < |p| && Match(t, n, p, m) && t[n] != p[m]
    requires IsLongestBorder(p, m, f)
    requires Ceiling(t, n + 1, p, cap, m + 1)
    ensures Match(t, n, p, f) && Ceiling(t, n + 1, p, cap, f + 1)
  {
    MatchNest(t, n, p, m, f);
    var n' := n + 1;
    forall j: nat | j <= cap && Match(t, n', p, j)
      ensures j <= f + 1
    {
      if j > 0 {
        MatchDrop(t, n, p, j);
        MatchNest(t, n, p, m, j - 1);
      }
    }
  }

  /** A mismatch with nothing matched leaves the empty match. */
  lemma NothingMatches(t: string, n: nat, p: string, cap: int)
    requires n < |t| && p != "" && t[n] != p[0] && Ceiling(t, n + 1, p, cap, 1)
    ensures Match(t, n + 1, p, 0) && Ceiling(t, n + 1, p, cap, 0)
  {
  }

  /** A full match before the end is replaced by its longest border. */
  lemma FullMatchToBorder(t: string, n: nat, p: string, f: nat)
    requires n <= |t| && p != "" && Match(t, n, p, |p|) && IsLongestBorder(p, |p|, f)
    ensures Match(t, n, p, f) && Ceiling(t, n, p, |p| - 1, f)
  {
    MatchNest(t, n, p, |p|, f);
    forall j: nat | j <= |p| - 1 && Match(t, n, p, j)
      ensures j <= f
    {
      MatchNest(t, n, p, |p|, j);
    }
  }

  /** The border-following loop both passes share: give up matched characters
      until the next one fits or nothing is left. */
  method FollowBorders(failure: seq<nat>, p: string, t: string, n: nat, ghost cap: int, start: nat)
    returns (matched: nat, ghost steps: nat)
    requires n < |t| && start < |p| && start <= |failure| && Match(t, n, p, start)
    requires forall j: nat :: j < start ==> BorderAt(p, j, failure[j])
    requires Ceiling(t, n + 1, p, cap, start + 1)
    ensures matched <= start && Match(t, n, p, matched)
    ensures matched != 0 ==> t[n] == p[matched]
    ensures Ceiling(t, n + 1, p, cap, matched + 1)
    ensures steps + matched <= start
  {
    matched, steps := start, 0;
    while matched != 0 && t[n] != p[matched]
      invariant matched <= start && Match(t, n, p, matched)
      invariant Ceiling(t, n + 1, p, cap, matched + 1)
      invariant steps + matched <= start
    {
      assert BorderAt(p, matched - 1, failure[matched - 1]);
      FallBack(t, n, p, cap, matched, failure[matched - 1]);
      matched := failure[matched - 1];
      steps := steps + 1;
    }
  }

  /** The failure table: entry `i` is the longest proper border of the first `i + 1` characters. */
  method FailureTable(prefix: string) returns (failure: seq<nat>, ghost fallbacks: nat)
    requires prefix != ""
    ensures |failure| == |prefix|
    ensures forall j: nat :: j < |prefix| ==> BorderAt(prefix, j, failure[j])
    ensures fallbacks < |prefix|
  {
    failure := seq(|prefix|, _ => 0);
    fallbacks := 0;
    var matched: nat := 0;
    for index := 1 to |prefix|
      invariant |failure| == |prefix| && failure[index - 1] == matched
      invariant forall j: nat :: j < index ==> BorderAt(prefix, j, failure[j])
      invariant fallbacks + matched <= index - 1
    {
      assert BorderAt(prefix, index - 1, matched);
      CeilingStep(prefix, index, prefix, index - 1, matched);
      ghost var steps;
      matched, steps := FollowBorders(failure, prefix, prefix, index, index, matched);
      fallbacks := fallbacks + steps;
      if prefix[index] == prefix[matched] {
        MatchExtend(prefix, index, prefix, matched);
        matched := matched + 1;
      } else {
        NothingMatches(prefix, index, prefix, index);
      }
      failure := failure[index := matched];
      assert BorderAt(prefix, index, matched);
    }
  }

  /** The matched length after `n` characters, as the search keeps it: below a
      full match until the text ends. */
  ghost predicate Scanned(existing: string, n: nat, prefix: string, matched: nat)
    requires n <= |existing|
  {
    && Match(existing, n, prefix, matched)
    && (n < |existing| ==> matched < |prefix| && Ceiling(existing, n, prefix, |prefix| - 1, matched))
    && (n == |existing| ==> Ceiling(existing, n, prefix, |prefix|, matched))
  }

  /** One step of the search: read the character at `index`. */
  method ScanCharacter(failure: seq<nat>, prefix: string, existing: string, index: nat, start: nat)
    returns (matched: nat, ghost steps: nat)
    requires prefix != "" && |failure| == |prefix| && index < |existing|
    requires forall j: nat :: j < |prefix| ==> BorderAt(prefix, j, failure[j])
    requires Scanned(existing, index, prefix, start)
    ensures Scanned(existing, index + 1, prefix, matched)
    ensures steps + matched <= start + 1
  {
    CeilingStep(existing, index, prefix, |prefix| - 1, start);
    matched, steps := FollowBorders(failure, prefix, existing, index, |prefix|, start);
    if existing[index] == prefix[matched] {
      MatchExtend(existing, index, prefix, matched);
      matched := matched + 1;
      if matched == |prefix| && index != |existing| - 1 {
        assert BorderAt(prefix, matched - 1, failure[matched - 1]);
        FullMatchToBorder(existing, index + 1, prefix, failure[matched - 1]);
        matched := failure[matched - 1];
        steps := steps + 1;
      }
    } else {
      NothingMatches(existing, index, prefix, |prefix|);
    }
  }

  /** The search: its result is the longest overlap, and its fallback steps are
      bounded by the sum of the two lengths. */
  method SuffixPrefixLength(existing: string, prefix: string) returns (matched: nat, ghost fallbacks: nat)
    ensures matched == LongestOverlap(existing, prefix)
    ensures fallbacks <= |existing| + |prefix|
  {
    if existing == "" || prefix == "" {
      return 0, 0;
    }
    var failure;
    failure, fallbacks := FailureTable(prefix);
    matched := 0;
    for index := 0 to |existing|
      invariant Scanned(existing, index, prefix, matched)
      invariant fallbacks + matched <= |prefix| + index
    {
      ghost var steps;
      matched, steps := ScanCharacter(failure, prefix, existing, index, matched);
      fallbacks := fallbacks + steps;
    }
    assert Overlaps(existing, prefix, matched);
  }
}
