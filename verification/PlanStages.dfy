/** Stages and lanes of a plan: the longest dependency chain of each step, and its place
    among the steps of the same stage. */
module PlanStages {
  import opened Results
  import opened Plan
  import opened PlanOrder

  /** The greatest recorded depth among the dependencies. */
  method Deepest(dependencies: seq<string>, depth: map<string, nat>) returns (deepest: string)
    requires dependencies != [] && forall d :: d in dependencies ==> d in depth
    ensures deepest in dependencies && forall d :: d in dependencies ==> depth[d] <= depth[deepest]
  {
    deepest := dependencies[0];
    for i := 1 to |dependencies|
      invariant deepest in dependencies
      invariant forall k :: 0 <= k < i ==> depth[dependencies[k]] <= depth[deepest]
    {
      assert dependencies[i] in dependencies;
      if depth[deepest] < depth[dependencies[i]] {
        deepest := dependencies[i];
      }
    }
  }

  /** Each step's stage is the length of its longest chain; there are stages exactly for
      plans whose dependencies are known and not circular. */
  method StageDepths(steps: seq<PlanStep>) returns (r: Result<map<string, nat>, PlanError>)
    requires UniqueIds(steps)
    ensures r.Ok? <==> AllKnown(steps) && Acyclic(steps)
    ensures r.Ok? ==> forall id :: id in r.value <==> IsStep(steps, id)
    ensures r.Ok? ==> forall id :: id in r.value ==> IsDepth(steps, id, r.value[id])
  {
    var deps := DependencyMap(steps);
    var sorted := Toposort(steps);
    if sorted.Err? {
      return Err(sorted.error);
    }
    var depth := DepthsAlong(steps, deps, sorted.value);
    return Ok(depth);
  }

  lemma DependenciesAreDeep(steps: seq<PlanStep>, order: seq<string>, k: nat, dependencies: seq<string>)
    requires DependenciesFirst(steps, order) && k < |order|
    requires forall d :: d in dependencies ==> DependsOn(steps, order[k], d)
    ensures forall d :: d in dependencies ==> d in order[..k]
  {
  }

  lemma OneBelowDeepest(steps: seq<PlanStep>, id: string, dependencies: seq<string>, depth: map<string, nat>, deepest: string)
    requires forall d :: d in dependencies <==> DependsOn(steps, id, d)
    requires forall d :: d in dependencies ==> d in depth && IsDepth(steps, d, depth[d])
    requires deepest in dependencies && forall d :: d in dependencies ==> depth[d] <= depth[deepest]
    ensures IsDepth(steps, id, 1 + depth[deepest])
  {
    forall x | DependsOn(steps, id, x)
      ensures ShallowerThan(steps, x, 1 + depth[deepest])
    {
      assert IsDepth(steps, x, depth[x]);
    }
    DepthFromDependencies(steps, id, deepest, 1 + depth[deepest]);
  }

  method DepthsAlong(steps: seq<PlanStep>, deps: map<string, seq<string>>, order: seq<string>) returns (depth: map<string, nat>)
    requires IsTopologicalOrder(steps, order)
    requires forall id :: id in deps <==> IsStep(steps, id)
    requires forall id, d :: id in deps ==> (d in deps[id] <==> DependsOn(steps, id, d))
    ensures forall id :: id in depth <==> IsStep(steps, id)
    ensures forall id :: id in depth ==> IsDepth(steps, id, depth[id])
  {
    depth := map[];
    for k := 0 to |order|
      invariant forall id :: id in depth <==> id in order[..k]
      invariant forall id :: id in depth ==> IsDepth(steps, id, depth[id])
    {
      var id := order[k];
      assert order[..k + 1] == order[..k] + [id];
      assert id in order;
      if deps[id] != [] {
        DependenciesAreDeep(steps, order, k, deps[id]);
        var deepest := Deepest(deps[id], depth);
        OneBelowDeepest(steps, id, deps[id], depth, deepest);
        depth := depth[id := 1 + depth[deepest]];
      } else {
        DepthOfRoot(steps, id);
        depth := depth[id := 0];
      }
    }
    assert order[..|order|] == order;
  }

  // --- Lanes ---

  function StageOf(stages: map<string, nat>, id: string): nat {
    if id in stages then stages[id] else 0
  }

  /** How many of the first `n` steps are in the stage. */
  function CountInStage(steps: seq<PlanStep>, stages: map<string, nat>, n: nat, stage: nat): nat
    requires n <= |steps|
  {
    if n == 0 then 0
    else CountInStage(steps, stages, n - 1, stage) + if StageOf(stages, steps[n - 1].id) == stage then 1 else 0
  }

  /** The steps among the first `n` that are in the stage, by position; a step without a
      stage counts as one of stage zero. */
  ghost function Members(steps: seq<PlanStep>, stages: map<string, nat>, n: nat, stage: nat): set<nat>
    requires n <= |steps|
  {
    set i: nat | i < n && stage == if steps[i].id in stages then stages[steps[i].id] else 0
  }

  lemma {:induction false} CountIsSize(steps: seq<PlanStep>, stages: map<string, nat>, n: nat, stage: nat)
    requires n <= |steps|
    ensures CountInStage(steps, stages, n, stage) == |Members(steps, stages, n, stage)|
  {
    if n == 0 {
      assert Members(steps, stages, n, stage) == {};
    } else {
      CountIsSize(steps, stages, n - 1, stage);
      var earlier := Members(steps, stages, n - 1, stage);
      assert Members(steps, stages, n, stage)
          == if StageOf(stages, steps[n - 1].id) == stage then earlier + {n - 1} else earlier;
    }
  }

  ghost predicate LaneIsCount(steps: seq<PlanStep>, stages: map<string, nat>, lanes: map<string, nat>, i: nat)
    requires i < |steps|
  {
    var stage := if steps[i].id in stages then stages[steps[i].id] else 0;
    steps[i].id in lanes && lanes[steps[i].id] == CountInStage(steps, stages, i, stage)
  }

  function Counter(counters: map<nat, nat>, stage: nat): nat {
    if stage in counters then counters[stage] else 0
  }

  lemma CountStep(steps: seq<PlanStep>, stages: map<string, nat>, n: nat)
    requires n < |steps|
    ensures forall stage: nat :: CountInStage(steps, stages, n + 1, stage)
              == CountInStage(steps, stages, n, stage) + if StageOf(stages, steps[n].id) == stage then 1 else 0
  {
  }

  lemma LanesExtend(steps: seq<PlanStep>, stages: map<string, nat>, lanes: map<string, nat>, n: nat, after: map<string, nat>)
    requires UniqueIds(steps) && n < |steps|
    requires forall i: nat :: i < n ==> LaneIsCount(steps, stages, lanes, i)
    requires after == lanes[steps[n].id := CountInStage(steps, stages, n, StageOf(stages, steps[n].id))]
    ensures forall i: nat :: i <= n ==> LaneIsCount(steps, stages, after, i)
  {
    forall i: nat | i < n
      ensures LaneIsCount(steps, stages, after, i)
    {
      assert LaneIsCount(steps, stages, lanes, i);
      assert steps[i].id != steps[n].id;
    }
  }

  /** A step's lane is the number of earlier steps in the same stage. */
  method LaneIndexes(stages: map<string, nat>, steps: seq<PlanStep>) returns (lanes: map<string, nat>)
    requires UniqueIds(steps)
    ensures forall id :: id in lanes <==> IsStep(steps, id)
    ensures forall i: nat :: i < |steps| ==> LaneIsCount(steps, stages, lanes, i)
  {
    lanes := map[];
    var counters: map<nat, nat> := map[];
    for n := 0 to |steps|
      invariant forall id :: id in lanes <==> IsStepBefore(steps, n, id)
      invariant forall i: nat :: i < n ==> LaneIsCount(steps, stages, lanes, i)
      invariant forall stage: nat :: Counter(counters, stage) == CountInStage(steps, stages, n, stage)
    {
      var id := steps[n].id;
      var stage := StageOf(stages, id);
      var lane := Counter(counters, stage);
      StepsGrow(steps, n);
      CountStep(steps, stages, n);
      LanesExtend(steps, stages, lanes, n, lanes[id := lane]);
      lanes := lanes[id := lane];
      counters := counters[stage := lane + 1];
    }
  }

  lemma {:induction false} CountGrows(steps: seq<PlanStep>, stages: map<string, nat>, i: nat, j: nat, stage: nat)
    requires i <= j <= |steps|
    ensures CountInStage(steps, stages, i, stage) <= CountInStage(steps, stages, j, stage)
  {
    if i < j {
      CountGrows(steps, stages, i, j - 1, stage);
    }
  }

  /** No two steps share a stage and a lane, and later steps of a stage get higher lanes. */
  lemma LanesAreDistinct(steps: seq<PlanStep>, stages: map<string, nat>, i: nat, j: nat, stage: nat)
    requires i < j < |steps| && StageOf(stages, steps[i].id) == stage && StageOf(stages, steps[j].id) == stage
    ensures CountInStage(steps, stages, i, stage) < CountInStage(steps, stages, j, stage)
  {
    assert CountInStage(steps, stages, i + 1, stage) == CountInStage(steps, stages, i, stage) + 1;
    CountGrows(steps, stages, i + 1, j, stage);
  }

  /** The lanes of a stage are exactly 0 .. count-1: every one of them is some step's lane. */
  lemma {:induction false} LanesAreDense(steps: seq<PlanStep>, stages: map<string, nat>, n: nat, stage: nat, lane: nat) returns (i: nat)
    requires n <= |steps| && lane < CountInStage(steps, stages, n, stage)
    ensures i < n && StageOf(stages, steps[i].id) == stage && CountInStage(steps, stages, i, stage) == lane
  {
    if lane < CountInStage(steps, stages, n - 1, stage) {
      i := LanesAreDense(steps, stages, n - 1, stage, lane);
    } else {
      i := n - 1;
    }
  }

  /** And no lane of a stage is as high as the number of its steps. */
  lemma LanesAreBounded(steps: seq<PlanStep>, stages: map<string, nat>, i: nat, stage: nat)
    requires i < |steps| && StageOf(stages, steps[i].id) == stage
    ensures CountInStage(steps, stages, i, stage) < CountInStage(steps, stages, |steps|, stage)
  {
    CountGrows(steps, stages, i + 1, |steps|, stage);
  }
}
