/** Automatic continuation: removing the part of a follow-up model round that
    repeats text already given, in one shot and chunk by chunk. */
module Continuation {
  import opened Text
  import opened Overlap
  import opened Whitespace

  /** A one-character or whitespace-only overlap is too weak to drop text for. */
  ghost predicate StrongOverlap(repeated: string) {
    |Strip(repeated)| >= 2
  }

  /** How much of `prefix` repeats the end of `suffix`: the greatest whitespace-tolerant
      overlap when it is strong, and the greatest exact overlap otherwise. */
  ghost function Cut(suffix: string, prefix: string): nat {
    var exact := LongestOverlap(suffix, prefix);
    var k := LongestOverlap(Collapse(suffix), Collapse(prefix));
    if k > 0 && StrongOverlap(Collapse(prefix)[..k])
    then Max(exact, CollapsedEnd(prefix, k))
    else exact
  }

  function LastChars(s: string, window: nat): string {
    s[Max(0, |s| - window)..]
  }

  function FirstChars(s: string, window: nat): string {
    s[..Min(window, |s|)]
  }

  /** The part of `continuation` that `continuation_novel_text` returns. */
  ghost function NovelText(existing: string, continuation: string, comparisonWindow: int): string {
    if continuation == "" then ""
    else if existing == "" then continuation
    else if EndsWith(existing, continuation) then ""
    else
      var window := Max(1, comparisonWindow);
      var cut := Cut(LastChars(existing, window), FirstChars(continuation, window));
      CutInRange(LastChars(existing, window), FirstChars(continuation, window));
      continuation[cut..]
  }

  ghost function Merge(existing: string, continuation: string, comparisonWindow: int): string {
    existing + NovelText(existing, continuation, comparisonWindow)
  }

  // --- What a cut means ---

  /** Dropping the first `n` characters of `prefix` loses nothing but whitespace layout. */
  ghost predicate Repeats(suffix: string, prefix: string, n: nat) {
    n <= |prefix| && EndsWith(Collapse(suffix), Collapse(prefix[..n]))
  }

  lemma CutInRange(suffix: string, prefix: string)
    ensures Cut(suffix, prefix) <= |prefix|
  {
    CollapsedEndIsGreatest(prefix, LongestOverlap(Collapse(suffix), Collapse(prefix)), 0);
  }

  lemma OverlapIsEnding(a: string, b: string, k: nat)
    requires k <= |b|
    ensures Overlaps(a, b, k) <==> EndsWith(a, b[..k])
  {
  }

  /** An exact repetition is a repetition after collapsing. */
  lemma ExactRepeats(suffix: string, prefix: string, n: nat)
    requires Overlaps(suffix, prefix, n)
    ensures Repeats(suffix, prefix, n)
  {
    CollapseOfSuffix(suffix[..|suffix| - n], prefix[..n]);
    assert suffix == suffix[..|suffix| - n] + prefix[..n];
  }

  /** The tolerant overlap, read back as a cut of the original, is a repetition. */
  lemma TolerantCutRepeats(suffix: string, prefix: string)
    ensures Repeats(suffix, prefix, CollapsedEnd(prefix, LongestOverlap(Collapse(suffix), Collapse(prefix))))
  {
    var k := LongestOverlap(Collapse(suffix), Collapse(prefix));
    CollapsedEndIsExact(prefix, k);
    OverlapIsEnding(Collapse(suffix), Collapse(prefix), k);
  }

  /** No longer cut is a repetition. */
  lemma TolerantCutIsGreatest(suffix: string, prefix: string, n: nat)
    requires Repeats(suffix, prefix, n)
    ensures n <= CollapsedEnd(prefix, LongestOverlap(Collapse(suffix), Collapse(prefix)))
  {
    var c := Collapse(prefix[..n]);
    CollapseOfPrefix(prefix, n);
    OverlapIsEnding(Collapse(suffix), Collapse(prefix), |c|);
    CollapsedEndIsGreatest(prefix, LongestOverlap(Collapse(suffix), Collapse(prefix)), n);
  }

  /** The tolerant cut is never shorter than the exact one. */
  lemma TolerantDominatesExact(suffix: string, prefix: string)
    ensures LongestOverlap(suffix, prefix)
         <= CollapsedEnd(prefix, LongestOverlap(Collapse(suffix), Collapse(prefix)))
  {
    var exact := LongestOverlap(suffix, prefix);
    ExactRepeats(suffix, prefix, exact);
    TolerantCutIsGreatest(suffix, prefix, exact);
  }

  /** Reference meaning of the cut: it is a repetition, and the greatest one of
      its kind, tolerant when the tolerant overlap is strong and exact otherwise. */
  lemma CutIsGreatestRepetition(suffix: string, prefix: string, n: nat)
    requires n <= |prefix|
    ensures Repeats(suffix, prefix, Cut(suffix, prefix))
    ensures Overlaps(suffix, prefix, n) ==> n <= Cut(suffix, prefix)
    ensures var k := LongestOverlap(Collapse(suffix), Collapse(prefix));
            if StrongOverlap(Collapse(prefix)[..k])
            then Repeats(suffix, prefix, n) ==> n <= Cut(suffix, prefix)
            else Overlaps(suffix, prefix, Cut(suffix, prefix))
  {
    TolerantDominatesExact(suffix, prefix);
    TolerantCutRepeats(suffix, prefix);
    if Repeats(suffix, prefix, n) {
      TolerantCutIsGreatest(suffix, prefix, n);
    }
    ExactRepeats(suffix, prefix, LongestOverlap(suffix, prefix));
  }

  // --- One-shot removal ---

  /** A repetition is strong when it has two characters that are not whitespace. */
  ghost predicate StronglyRepeats(suffix: string, prefix: string, n: nat) {
    Repeats(suffix, prefix, n) && |Solid(prefix[..n])| >= 2
  }

  lemma SolidGrows(s: string, m: nat, n: nat)
    requires m <= n <= |s|
    ensures |Solid(s[..m])| <= |Solid(s[..n])|
  {
    assert s[..n] == s[..m] + s[m..n];
    SolidAppend(s[..m], s[m..n]);
  }

  lemma StrongIffSomeIs(suffix: string, prefix: string)
    ensures StrongOverlap(Collapse(prefix)[..LongestOverlap(Collapse(suffix), Collapse(prefix))])
            <==> exists n: nat :: StronglyRepeats(suffix, prefix, n)
  {
    var k := LongestOverlap(Collapse(suffix), Collapse(prefix));
    var greatest := CollapsedEnd(prefix, k);
    CollapsedEndIsExact(prefix, k);
    TolerantCutRepeats(suffix, prefix);
    CollapseMeaning(prefix[..greatest]);
    TwoSolidCharacters(Collapse(prefix)[..k]);
    assert StrongOverlap(Collapse(prefix)[..k]) ==> StronglyRepeats(suffix, prefix, greatest);
    if n: nat :| StronglyRepeats(suffix, prefix, n) {
      TolerantCutIsGreatest(suffix, prefix, n);
      SolidGrows(prefix, n, greatest);
    }
  }

  /** Dropping `cut` characters drops the greatest repetition up to whitespace if some
      repetition is strong, and the greatest exact one if none is. */
  ghost predicate DropsGreatest(suffix: string, prefix: string, cut: nat) {
    && cut <= |prefix|
    && if exists m: nat :: StronglyRepeats(suffix, prefix, m)
       then Repeats(suffix, prefix, cut) && forall n: nat :: Repeats(suffix, prefix, n) ==> n <= cut
       else Overlaps(suffix, prefix, cut) && forall n: nat :: Overlaps(suffix, prefix, n) ==> n <= cut
  }

  lemma CutByStrength(suffix: string, prefix: string)
    ensures DropsGreatest(suffix, prefix, Cut(suffix, prefix))
  {
    CutInRange(suffix, prefix);
    StrongIffSomeIs(suffix, prefix);
    forall n: nat | n <= |prefix|
      ensures Overlaps(suffix, prefix, n) ==> n <= Cut(suffix, prefix)
      ensures var k := LongestOverlap(Collapse(suffix), Collapse(prefix));
              StrongOverlap(Collapse(prefix)[..k]) ==> (Repeats(suffix, prefix, n) ==> n <= Cut(suffix, prefix))
    {
      CutIsGreatestRepetition(suffix, prefix, n);
    }
    CutIsGreatestRepetition(suffix, prefix, 0);
  }

  lemma SuffixTransitive(a: string, b: string, c: string)
    requires EndsWith(a, b) && EndsWith(b, c)
    ensures EndsWith(a, c)
  {
  }

  /** A repetition of the last window is a repetition of the whole text. */
  lemma WindowRepeats(existing: string, window: nat, prefix: string, n: nat)
    requires Repeats(LastChars(existing, window), prefix, n)
    ensures Repeats(existing, prefix, n)
  {
    var suffix := LastChars(existing, window);
    var before := existing[..|existing| - |suffix|];
    CollapseOfSuffix(before, suffix);
    assert existing == before + suffix;
    SuffixTransitive(Collapse(existing), Collapse(suffix), Collapse(prefix[..n]));
  }

  lemma PrefixRepeats(existing: string, continuation: string, window: nat, n: nat)
    requires Repeats(existing, FirstChars(continuation, window), n)
    ensures Repeats(existing, continuation, n)
  {
    assert FirstChars(continuation, window)[..n] == continuation[..n];
  }

  /** The novel text is the continuation without a prefix that the existing text
      already ends with, up to whitespace layout. */
  lemma NovelTextDropsOnlyRepetition(existing: string, continuation: string, window: int) returns (cut: nat)
    ensures cut <= |continuation|
    ensures NovelText(existing, continuation, window) == continuation[cut..]
    ensures Repeats(existing, continuation, cut)
  {
    if continuation == "" || existing == "" {
      cut := 0;
    } else if EndsWith(existing, continuation) {
      cut := |continuation|;
      assert continuation[..cut] == continuation;
      assert Overlaps(existing, continuation, cut);
      ExactRepeats(existing, continuation, cut);
    } else {
      var w := Max(1, window);
      var suffix, prefix := LastChars(existing, w), FirstChars(continuation, w);
      cut := Cut(suffix, prefix);
      CutIsGreatestRepetition(suffix, prefix, 0);
      WindowRepeats(existing, w, prefix, cut);
      PrefixRepeats(existing, continuation, w, cut);
    }
  }

  /** And of the last and first `w` characters it drops the greatest such repetition. */
  lemma NovelTextDropsGreatest(existing: string, continuation: string, window: int) returns (cut: nat)
    requires existing != "" && continuation != "" && !EndsWith(existing, continuation)
    ensures cut <= |continuation| && NovelText(existing, continuation, window) == continuation[cut..]
    ensures var w := if window < 1 then 1 else window;
            DropsGreatest(if |existing| <= w then existing else existing[|existing| - w..],
                          if |continuation| <= w then continuation else continuation[..w], cut)
  {
    var w := Max(1, window);
    var suffix, prefix := LastChars(existing, w), FirstChars(continuation, w);
    assert |existing| <= w ==> suffix == existing;
    assert |continuation| <= w ==> prefix == continuation;
    cut := Cut(suffix, prefix);
    CutInRange(suffix, prefix);
    CutByStrength(suffix, prefix);
  }

  /** Merging loses nothing: the result starts with the existing text and, up to
      whitespace layout, ends with the whole continuation. */
  lemma MergeKeepsBoth(existing: string, continuation: string, window: int)
    ensures existing <= Merge(existing, continuation, window)
    ensures EndsWith(Collapse(Merge(existing, continuation, window)), Collapse(continuation))
  {
    var cut := NovelTextDropsOnlyRepetition(existing, continuation, window);
    var dropped, kept := continuation[..cut], continuation[cut..];
    assert continuation == dropped + kept;
    if cut == 0 {
      assert kept == continuation;
      CollapseOfSuffix(existing, continuation);
    } else {
      AppendKeepsEnding(existing, dropped, kept);
    }
  }

  /** A continuation the existing text already ends with adds nothing, however long it is. */
  lemma RepeatAddsNothing(existing: string, continuation: string, window: int)
    ensures EndsWith(existing, continuation) ==> Merge(existing, continuation, window) == existing
  {
  }

  /** The overlap computation of `continuation_novel_text` on the two windows. */
  method ComputeCut(existingSuffix: string, continuationPrefix: string) returns (cut: nat)
    ensures cut == Cut(existingSuffix, continuationPrefix)
  {
    var exact, _ := SuffixPrefixLength(existingSuffix, continuationPrefix);
    cut := exact;
    var normalizedExisting, _ := NormaliseWhitespace(existingSuffix);
    var normalizedContinuation, continuationEnds := NormaliseWhitespace(continuationPrefix);
    var normalizedOverlap, _ := SuffixPrefixLength(normalizedExisting, normalizedContinuation);
    if normalizedOverlap != 0 {
      var repeated := Strip(normalizedContinuation[..normalizedOverlap]);
      if |repeated| >= 2 {
        cut := Max(cut, continuationEnds[normalizedOverlap - 1]);
      }
    }
  }

  method ContinuationNovelText(existing: string, continuation: string, comparisonWindow: int)
    returns (novel: string)
    ensures novel == NovelText(existing, continuation, comparisonWindow)
  {
    if continuation == "" {
      return "";
    }
    if existing == "" {
      return continuation;
    }
    if EndsWith(existing, continuation) {
      return "";
    }
    var window := Max(1, comparisonWindow);
    var existingSuffix := LastChars(existing, window);
    var continuationPrefix := FirstChars(continuation, window);
    var cut := ComputeCut(existingSuffix, continuationPrefix);
    CutInRange(existingSuffix, continuationPrefix);
    novel := continuation[cut..];
  }

  method MergeContinuation(existing: string, continuation: string, comparisonWindow: int)
    returns (merged: string)
    ensures merged == Merge(existing, continuation, comparisonWindow)
  {
    var novel := ContinuationNovelText(existing, continuation, comparisonWindow);
    merged := existing + novel;
  }
}
