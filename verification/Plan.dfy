/** Plans as dependency graphs of steps: chains of dependencies and the depth of a step. */
module Plan {
  datatype PlanStep = PlanStep(id: string, dependencies: seq<string>)

  ghost predicate UniqueIds(steps: seq<PlanStep>) {
    forall i, j :: 0 <= i < j < |steps| ==> steps[i].id != steps[j].id
  }

  /** Every dependency names a step of the plan. */
  ghost predicate AllKnown(steps: seq<PlanStep>) {
    forall i: nat, d :: i < |steps| && d in steps[i].dependencies ==> IsStep(steps, d)
  }

  ghost predicate IsStep(steps: seq<PlanStep>, id: string) {
    IsStepBefore(steps, |steps|, id)
  }

  ghost predicate IsStepBefore(steps: seq<PlanStep>, n: nat, id: string)
    requires n <= |steps|
  {
    exists i :: 0 <= i < n && steps[i].id == id
  }

  lemma StepsGrow(steps: seq<PlanStep>, n: nat)
    requires n < |steps|
    ensures forall id :: IsStepBefore(steps, n + 1, id) <==> IsStepBefore(steps, n, id) || id == steps[n].id
  {
    forall id | IsStepBefore(steps, n + 1, id)
      ensures IsStepBefore(steps, n, id) || id == steps[n].id
    {
      var i :| 0 <= i < n + 1 && steps[i].id == id;
    }
  }

  ghost predicate DependsOn(steps: seq<PlanStep>, id: string, dependency: string) {
    exists i :: 0 <= i < |steps| && steps[i].id == id && dependency in steps[i].dependencies
  }

  /** Each element depends on the one before it. */
  ghost predicate IsChain(steps: seq<PlanStep>, chain: seq<string>) {
    forall i: nat :: i < |chain| - 1 ==> DependsOn(steps, chain[i + 1], chain[i])
  }

  /** A chain that comes back to where it started; a step that depends on itself is one. */
  ghost predicate IsCycle(steps: seq<PlanStep>, chain: seq<string>) {
    |chain| >= 2 && chain[0] == chain[|chain| - 1] && IsChain(steps, chain)
  }

  ghost predicate Acyclic(steps: seq<PlanStep>) {
    forall chain: seq<string> :: !IsCycle(steps, chain)
  }

  // --- Depths ---

  /** A dependency chain that ends at `id`. */
  ghost predicate IsChainTo(steps: seq<PlanStep>, chain: seq<string>, id: string) {
    chain != [] && chain[|chain| - 1] == id && IsChain(steps, chain)
  }

  /** `d` links is the longest chain that ends at `id`. */
  ghost predicate IsDepth(steps: seq<PlanStep>, id: string, d: nat) {
    && (exists chain: seq<string> :: IsChainTo(steps, chain, id) && |chain| == d + 1)
    && (forall chain: seq<string> :: IsChainTo(steps, chain, id) ==> |chain| <= d + 1)
  }

  lemma ExtendChain(steps: seq<PlanStep>, chain: seq<string>, dependency: string, id: string)
    requires IsChainTo(steps, chain, dependency) && DependsOn(steps, id, dependency)
    ensures IsChainTo(steps, chain + [id], id)
  {
  }

  ghost predicate ShallowerThan(steps: seq<PlanStep>, id: string, d: nat) {
    exists e: nat :: e < d && IsDepth(steps, id, e)
  }

  /** The depth of a step is one more than the greatest depth of its dependencies. */
  lemma DepthFromDependencies(steps: seq<PlanStep>, id: string, deepest: string, d: nat)
    requires DependsOn(steps, id, deepest) && d > 0 && IsDepth(steps, deepest, d - 1)
    requires forall x :: DependsOn(steps, id, x) ==> ShallowerThan(steps, x, d)
    ensures IsDepth(steps, id, d)
  {
    var longest: seq<string> :| IsChainTo(steps, longest, deepest) && |longest| == d;
    ExtendChain(steps, longest, deepest, id);
    assert |longest + [id]| == d + 1;
    forall chain: seq<string> | IsChainTo(steps, chain, id)
      ensures |chain| <= d + 1
    {
      if |chain| > 1 {
        ShortenChain(steps, chain, id);
        assert ShallowerThan(steps, chain[|chain| - 2], d);
        var e: nat :| e < d && IsDepth(steps, chain[|chain| - 2], e);
        ChainBound(steps, chain[|chain| - 2], e, chain[..|chain| - 1]);
      }
    }
  }

  lemma ChainBound(steps: seq<PlanStep>, id: string, d: nat, chain: seq<string>)
    requires IsDepth(steps, id, d) && IsChainTo(steps, chain, id)
    ensures |chain| <= d + 1
  {
  }

  lemma ShortenChain(steps: seq<PlanStep>, chain: seq<string>, id: string)
    requires IsChainTo(steps, chain, id) && |chain| > 1
    ensures DependsOn(steps, id, chain[|chain| - 2])
    ensures IsChainTo(steps, chain[..|chain| - 1], chain[|chain| - 2])
  {
    ChainEndsInDependency(steps, chain, id);
  }

  lemma ChainEndsInDependency(steps: seq<PlanStep>, chain: seq<string>, id: string)
    requires IsChainTo(steps, chain, id) && |chain| > 1
    ensures DependsOn(steps, id, chain[|chain| - 2])
  {
  }

  lemma DepthOfRoot(steps: seq<PlanStep>, id: string)
    requires forall x :: !DependsOn(steps, id, x)
    ensures IsDepth(steps, id, 0)
  {
    assert IsChainTo(steps, [id], id) && |[id]| == 1;
    forall chain: seq<string> | IsChainTo(steps, chain, id)
      ensures |chain| <= 1
    {
      if |chain| > 1 {
        ChainEndsInDependency(steps, chain, id);
      }
    }
  }

  /** Depths are unique, and every dependency edge strictly increases the stage. */
  lemma EdgeIncreasesStage(steps: seq<PlanStep>, id: string, dependency: string, d: nat, e: nat)
    requires DependsOn(steps, id, dependency) && IsDepth(steps, id, d) && IsDepth(steps, dependency, e)
    ensures e < d
  {
    var chain: seq<string> :| IsChainTo(steps, chain, dependency) && |chain| == e + 1;
    ExtendChain(steps, chain, dependency, id);
  }

  lemma DepthUnique(steps: seq<PlanStep>, id: string, d: nat, e: nat)
    requires IsDepth(steps, id, d) && IsDepth(steps, id, e)
    ensures d == e
  {
  }

  /** The dependencies recorded for a step. */
  method DependencyMap(steps: seq<PlanStep>) returns (deps: map<string, seq<string>>)
    requires UniqueIds(steps)
    ensures forall id :: id in deps <==> IsStep(steps, id)
    ensures forall id, d :: id in deps ==> (d in deps[id] <==> DependsOn(steps, id, d))
  {
    deps := map[];
    for i := 0 to |steps|
      invariant forall id :: id in deps <==> IsStepBefore(steps, i, id)
      invariant forall k :: 0 <= k < i ==> steps[k].id in deps && deps[steps[k].id] == steps[k].dependencies
    {
      StepsGrow(steps, i);
      deps := deps[steps[i].id := steps[i].dependencies];
    }
  }
}
