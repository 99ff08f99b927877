/** Validation of plans, and the order in which their steps can run. */
module PlanOrder {
  import opened Results
  import opened Plan

  datatype PlanError =
    | DuplicateId(id: string)
    | UnknownDependency(id: string, dependency: string)
    | CycleDetected(remaining: set<string>)

  ghost predicate Distinct(ids: seq<string>) {
    forall i, j :: 0 <= i < j < |ids| ==> ids[i] != ids[j]
  }

  /** Every step once, and each one after all of its dependencies. */
  ghost predicate IsTopologicalOrder(steps: seq<PlanStep>, order: seq<string>) {
    && (forall id :: id in order <==> IsStep(steps, id))
    && Distinct(order)
    && DependenciesFirst(steps, order)
  }

  ghost predicate DependenciesFirst(steps: seq<PlanStep>, order: seq<string>) {
    forall k: nat, d :: k < |order| && DependsOn(steps, order[k], d) ==> d in order[..k]
  }

  ghost predicate DeclaredBefore(steps: seq<PlanStep>, a: string, b: string) {
    exists i, j :: 0 <= i < j < |steps| && steps[i].id == a && steps[j].id == b
  }

  /** The depth of each element; shallower steps come first, and steps of one depth in the
      order in which they are declared. */
  ghost predicate Layered(steps: seq<PlanStep>, order: seq<string>, depths: seq<nat>) {
    && |depths| == |order|
    && (forall k: nat :: k < |order| ==> IsDepth(steps, order[k], depths[k]))
    && (forall a: nat, b: nat :: a < b < |order| ==>
          depths[a] < depths[b] || (depths[a] == depths[b] && DeclaredBefore(steps, order[a], order[b])))
  }

  /** By depth, and by declaration among steps of one depth. */
  ghost predicate IsStable(steps: seq<PlanStep>, order: seq<string>) {
    exists depths: seq<nat> :: Layered(steps, order, depths)
  }

  // --- An order exists only without cycles ---

  /** Where a chain ends in the order, everything before its end comes earlier. */
  lemma {:induction false} ChainIsOrdered(steps: seq<PlanStep>, order: seq<string>, chain: seq<string>, k: nat)
    requires DependenciesFirst(steps, order) && IsChain(steps, chain) && |chain| >= 2
    requires k < |order| && order[k] == chain[|chain| - 1]
    ensures chain[0] in order[..k]
  {
    var n := |chain| - 1;
    assert DependsOn(steps, chain[n - 1 + 1], chain[n - 1]);
    var j: nat :| j < |order[..k]| && order[..k][j] == chain[n - 1];
    if n > 1 {
      ChainIsOrdered(steps, order, chain[..n], j);
      assert order[..j] <= order[..k];
    }
  }

  lemma OrderedIsAcyclic(steps: seq<PlanStep>, order: seq<string>)
    requires IsTopologicalOrder(steps, order)
    ensures Acyclic(steps)
  {
    forall chain: seq<string>
      ensures !IsCycle(steps, chain)
    {
      if |chain| >= 2 && IsChain(steps, chain) {
        EndIsStep(steps, chain);
        var k: nat :| k < |order| && order[k] == chain[|chain| - 1];
        ChainIsOrdered(steps, order, chain, k);
      }
    }
  }

  lemma EndIsStep(steps: seq<PlanStep>, chain: seq<string>)
    requires |chain| >= 2 && IsChain(steps, chain)
    ensures IsStep(steps, chain[|chain| - 1])
  {
    var i: nat := |chain| - 2;
    assert DependsOn(steps, chain[i + 1], chain[i]);
  }

  lemma OrderedIsKnown(steps: seq<PlanStep>, order: seq<string>)
    requires IsTopologicalOrder(steps, order)
    ensures AllKnown(steps)
  {
    forall i: nat, d | i < |steps| && d in steps[i].dependencies
      ensures IsStep(steps, d)
    {
      assert IsStep(steps, steps[i].id);
      var k: nat :| k < |order| && order[k] == steps[i].id;
      assert DependsOn(steps, order[k], d);
      assert d in order[..k];
    }
  }

  // --- A set of steps that all wait for each other holds a cycle ---

  /** Each of these depends on one of them. */
  ghost predicate Stuck(steps: seq<PlanStep>, waiting: set<string>) {
    forall id {:trigger WaitsFor(steps, waiting, id)} :: id in waiting ==> WaitsFor(steps, waiting, id)
  }

  ghost predicate WaitsFor(steps: seq<PlanStep>, waiting: set<string>, id: string) {
    exists d :: d in waiting && DependsOn(steps, id, d)
  }

  lemma {:induction false} LongChain(steps: seq<PlanStep>, waiting: set<string>, n: nat) returns (chain: seq<string>)
    requires waiting != {} && Stuck(steps, waiting) && n > 0
    ensures |chain| == n && IsChain(steps, chain) && forall i :: 0 <= i < n ==> chain[i] in waiting
  {
    if n == 1 {
      var id :| id in waiting;
      chain := [id];
    } else {
      var later := LongChain(steps, waiting, n - 1);
      assert WaitsFor(steps, waiting, later[0]);
      var d :| d in waiting && DependsOn(steps, later[0], d);
      chain := [d] + later;
      LinkInFront(steps, d, later);
    }
  }

  lemma LinkInFront(steps: seq<PlanStep>, d: string, later: seq<string>)
    requires later != [] && IsChain(steps, later) && DependsOn(steps, later[0], d)
    ensures IsChain(steps, [d] + later)
  {
    var chain := [d] + later;
    forall i: nat | i < |chain| - 1
      ensures DependsOn(steps, chain[i + 1], chain[i])
    {
      assert i > 0 ==> DependsOn(steps, later[i - 1 + 1], later[i - 1]);
    }
  }

  lemma {:induction false} DistinctFits(ids: seq<string>, all: set<string>)
    requires Distinct(ids) && forall i :: 0 <= i < |ids| ==> ids[i] in all
    ensures |ids| <= |all|
  {
    if ids != [] {
      var n := |ids| - 1;
      DistinctFits(ids[..n], all - {ids[n]});
    }
  }

  lemma StuckMeansCycle(steps: seq<PlanStep>, waiting: set<string>)
    requires waiting != {} && Stuck(steps, waiting)
    ensures !Acyclic(steps)
  {
    var chain := LongChain(steps, waiting, |waiting| + 1);
    if Distinct(chain) {
      DistinctFits(chain, waiting);
    }
    var i: nat, j: nat :| i < j < |chain| && chain[i] == chain[j];
    RepetitionIsCycle(steps, chain, i, j);
  }

  lemma RepetitionIsCycle(steps: seq<PlanStep>, chain: seq<string>, i: nat, j: nat)
    requires IsChain(steps, chain) && i < j < |chain| && chain[i] == chain[j]
    ensures IsCycle(steps, chain[i..j + 1])
  {
    var part := chain[i..j + 1];
    forall k: nat | k < |part| - 1
      ensures DependsOn(steps, part[k + 1], part[k])
    {
      assert DependsOn(steps, chain[i + k + 1], chain[i + k]);
    }
  }

  // --- The steps that can never run ---

  /** Each of these is a step with a dependency that is unknown or one of them. */
  ghost predicate Blocked(steps: seq<PlanStep>, waiting: set<string>) {
    forall id {:trigger HasBlocker(steps, waiting, id)} :: id in waiting ==> IsStep(steps, id) && HasBlocker(steps, waiting, id)
  }

  ghost predicate HasBlocker(steps: seq<PlanStep>, waiting: set<string>, id: string) {
    exists d :: DependsOn(steps, id, d) && (d in waiting || !IsStep(steps, d))
  }

  /** The greatest such set: all steps that no order can place. */
  ghost predicate NeverRun(steps: seq<PlanStep>, waiting: set<string>) {
    Blocked(steps, waiting) && forall other: set<string> :: Blocked(steps, other) ==> other <= waiting
  }

  /** No blocked step stands in an order that has dependencies first. */
  lemma {:induction false} BlockedIsNotEmitted(steps: seq<PlanStep>, order: seq<string>, waiting: set<string>, k: nat)
    requires DependenciesFirst(steps, order) && Blocked(steps, waiting) && k < |order|
    requires forall i :: 0 <= i < |order| ==> IsStep(steps, order[i])
    ensures order[k] !in waiting
  {
    if order[k] in waiting {
      assert HasBlocker(steps, waiting, order[k]);
      var d :| DependsOn(steps, order[k], d) && (d in waiting || !IsStep(steps, d));
      assert d in order[..k];
      var j: nat :| j < k && order[..k][j] == d;
      BlockedIsNotEmitted(steps, order, waiting, j);
      assert false;
    }
  }

  // --- The algorithm ---

  /** What has been emitted so far: an order of its own, apart from what remains. */
  ghost predicate Emitting(steps: seq<PlanStep>, order: seq<string>, remaining: set<string>) {
    && (forall id :: IsStep(steps, id) <==> id in order || id in remaining)
    && (forall id :: id in order ==> id !in remaining)
    && Distinct(order) && DependenciesFirst(steps, order)
  }

  lemma EmitOne(steps: seq<PlanStep>, order: seq<string>, remaining: set<string>, id: string)
    requires Emitting(steps, order, remaining) && id in remaining
    requires forall d :: DependsOn(steps, id, d) ==> d in order
    ensures Emitting(steps, order + [id], remaining - {id})
  {
    var longer := order + [id];
    forall k: nat, d | k < |longer| && DependsOn(steps, longer[k], d)
      ensures d in longer[..k]
    {
      assert k < |order| ==> longer[..k] == order[..k] && longer[k] == order[k];
      assert k == |order| ==> longer[..k] == order;
    }
  }

  /** Inside a round: what it has emitted, from position `from` on, are steps of its depth
      declared among the first `n`. */
  ghost predicate InRound(steps: seq<PlanStep>, order: seq<string>, depths: seq<nat>, from: nat, n: nat, round: nat)
    requires n <= |steps|
  {
    && Layered(steps, order, depths) && from <= |order|
    && (forall k: nat :: k < from ==> depths[k] < round)
    && (forall k: nat :: from <= k < |order| ==> depths[k] == round && IsStepBefore(steps, n, order[k]))
  }

  lemma RoundSkips(steps: seq<PlanStep>, order: seq<string>, depths: seq<nat>, from: nat, n: nat, round: nat)
    requires n < |steps| && InRound(steps, order, depths, from, n, round)
    ensures InRound(steps, order, depths, from, n + 1, round)
  {
    StepsGrow(steps, n);
  }

  lemma RoundEmits(steps: seq<PlanStep>, order: seq<string>, depths: seq<nat>, from: nat, n: nat, round: nat)
    requires n < |steps| && InRound(steps, order, depths, from, n, round) && IsDepth(steps, steps[n].id, round)
    ensures InRound(steps, order + [steps[n].id], depths + [round], from, n + 1, round)
  {
    forall a: nat | from <= a < |order|
      ensures DeclaredBefore(steps, order[a], steps[n].id)
    {
      assert IsStepBefore(steps, n, order[a]);
    }
    StepsGrow(steps, n);
    assert IsStepBefore(steps, n + 1, steps[n].id);
  }

  ghost function ReadyBefore(steps: seq<PlanStep>, ready: set<string>, n: nat): set<string>
    requires n <= |steps|
  {
    set id | id in ready && IsStepBefore(steps, n, id)
  }

  lemma ReadyBeforeGrows(steps: seq<PlanStep>, ready: set<string>, n: nat)
    requires UniqueIds(steps) && n < |steps|
    ensures steps[n].id !in ReadyBefore(steps, ready, n)
    ensures ReadyBefore(steps, ready, n + 1)
         == if steps[n].id in ready then ReadyBefore(steps, ready, n) + {steps[n].id} else ReadyBefore(steps, ready, n)
  {
    StepsGrow(steps, n);
  }

  lemma WithoutBoth(m: map<string, seq<string>>, a: set<string>, id: string)
    ensures m - a - {id} == m - (a + {id})
  {
  }

  /** One round: emit the ready steps, which are those of one depth, in declared order. */
  method EmitReady(steps: seq<PlanStep>, ready: set<string>, order0: seq<string>, remaining0: map<string, seq<string>>,
                   ghost depths0: seq<nat>, ghost round: nat)
    returns (order: seq<string>, remaining: map<string, seq<string>>, ghost depths: seq<nat>)
    requires UniqueIds(steps) && Emitting(steps, order0, remaining0.Keys) && ready <= remaining0.Keys
    requires forall id, d :: id in ready && DependsOn(steps, id, d) ==> d in order0
    requires InRound(steps, order0, depths0, |order0|, 0, round)
    requires forall id :: id in ready ==> IsDepth(steps, id, round)
    ensures Emitting(steps, order, remaining.Keys) && remaining == remaining0 - ready && order0 <= order
    ensures InRound(steps, order, depths, |order0|, |steps|, round)
  {
    order, remaining, depths := order0, remaining0, depths0;
    assert remaining0 - {} == remaining0;
    for i := 0 to |steps|
      invariant Emitting(steps, order, remaining.Keys) && order0 <= order
      invariant InRound(steps, order, depths, |order0|, i, round)
      invariant remaining == remaining0 - ReadyBefore(steps, ready, i)
    {
      var id := steps[i].id;
      ReadyBeforeGrows(steps, ready, i);
      if id in ready {
        WithoutBoth(remaining0, ReadyBefore(steps, ready, i), id);
        EmitOne(steps, order, remaining.Keys, id);
        RoundEmits(steps, order, depths, |order0|, i, round);
        order, depths := order + [id], depths + [round];
        remaining := remaining - {id};
      } else {
        RoundSkips(steps, order, depths, |order0|, i, round);
      }
    }
    AllReadyEmitted(steps, order0, remaining0.Keys, ready);
  }

  lemma AllReadyEmitted(steps: seq<PlanStep>, order: seq<string>, remaining: set<string>, ready: set<string>)
    requires Emitting(steps, order, remaining) && ready <= remaining
    ensures ReadyBefore(steps, ready, |steps|) == ready
  {
    assert forall id :: id in ready ==> IsStep(steps, id);
  }

  /** The state between two rounds. */
  ghost predicate Sorting(steps: seq<PlanStep>, order: seq<string>, remaining: map<string, seq<string>>,
                          depths: seq<nat>, round: nat, start: nat) {
    && Emitting(steps, order, remaining.Keys)
    && (forall id, d :: id in remaining ==> (d in remaining[id] <==> DependsOn(steps, id, d)))
    && InRounds(steps, order, depths, round, start)
    && (round > 0 ==> AllOpen(remaining, order[..start]))
  }

  ghost predicate AllOpen(remaining: map<string, seq<string>>, order: seq<string>) {
    forall id {:trigger HasOpenDependency(remaining[id], order)} :: id in remaining ==> HasOpenDependency(remaining[id], order)
  }

  /** The steps whose dependencies have all been emitted. */
  function ReadySteps(order: seq<string>, remaining: map<string, seq<string>>): set<string> {
    set id | id in remaining && forall x :: x in remaining[id] ==> x in order
  }

  lemma OthersAreOpen(order: seq<string>, remaining: map<string, seq<string>>)
    ensures AllOpen(remaining - ReadySteps(order, remaining), order)
  {
    var rest := remaining - ReadySteps(order, remaining);
    forall id | id in rest
      ensures HasOpenDependency(rest[id], order)
    {
      assert id !in ReadySteps(order, remaining);
    }
  }

  lemma ReadyDepths(steps: seq<PlanStep>, order: seq<string>, remaining: map<string, seq<string>>, depths: seq<nat>,
                    round: nat, start: nat)
    requires Sorting(steps, order, remaining, depths, round, start)
    ensures forall id :: id in ReadySteps(order, remaining) ==> IsDepth(steps, id, round)
  {
    forall id | id in ReadySteps(order, remaining)
      ensures IsDepth(steps, id, round)
    {
      assert round > 0 ==> HasOpenDependency(remaining[id], order[..start]);
      ReadyDepth(steps, order, depths, round, start, id, remaining[id]);
    }
  }

  /** One turn of the loop, unless nothing is ready. */
  method NextRound(steps: seq<PlanStep>, order0: seq<string>, remaining0: map<string, seq<string>>,
                   ghost depths0: seq<nat>, ghost round: nat, ghost start: nat)
    returns (stuck: bool, order: seq<string>, remaining: map<string, seq<string>>, ghost depths: seq<nat>)
    requires UniqueIds(steps) && Sorting(steps, order0, remaining0, depths0, round, start)
    ensures stuck <==> ReadySteps(order0, remaining0) == {}
    ensures !stuck ==> Sorting(steps, order, remaining, depths, round + 1, |order0|) && remaining.Keys < remaining0.Keys
  {
    var ready := ReadySteps(order0, remaining0);
    if ready == {} {
      return true, order0, remaining0, depths0;
    }
    ReadyDepths(steps, order0, remaining0, depths0, round, start);
    OthersAreOpen(order0, remaining0);
    order, remaining, depths := EmitReady(steps, ready, order0, remaining0, depths0, round);
    assert order[..|order0|] == order0;
    FewerRemain(remaining0.Keys, ready);
    stuck := false;
  }

  lemma FewerRemain(all: set<string>, ready: set<string>)
    requires ready != {} && ready <= all
    ensures all - ready < all
  {
    var id :| id in ready;
    assert id in all && id !in all - ready;
  }

  /** Kahn's algorithm: ends on every plan, with an order if and only if all dependencies are
      known and none is circular; the order is by depth, and declared order within one. */
  method Toposort(steps: seq<PlanStep>) returns (r: Result<seq<string>, PlanError>)
    requires UniqueIds(steps)
    ensures r.Ok? <==> AllKnown(steps) && Acyclic(steps)
    ensures r.Ok? ==> IsTopologicalOrder(steps, r.value) && IsStable(steps, r.value)
    ensures r.Err? ==> r.error.CycleDetected? && r.error.remaining != {} && NeverRun(steps, r.error.remaining)
  {
    var remaining := DependencyMap(steps);
    var order: seq<string> := [];
    ghost var depths: seq<nat>, round: nat, start: nat := [], 0, 0;
    while remaining != map[]
      invariant Sorting(steps, order, remaining, depths, round, start)
      decreases remaining.Keys
    {
      ghost var emitted := |order|;
      var stuck, order', remaining', depths' := NextRound(steps, order, remaining, depths, round, start);
      if stuck {
        OthersAreOpen(order, remaining);
        assert remaining - {} == remaining;
        NothingReady(steps, order, remaining);
        NotEmpty(remaining);
        RemainingNeverRun(steps, order, remaining);
        return Err(CycleDetected(remaining.Keys));
      }
      order, remaining, depths := order', remaining', depths';
      round, start := round + 1, emitted;
    }
    OrderedIsKnown(steps, order);
    OrderedIsAcyclic(steps, order);
    return Ok(order);
  }

  /** After so many rounds every emitted step is shallower, and the last round, which starts
      at `start`, emitted those of the greatest depth. */
  ghost predicate InRounds(steps: seq<PlanStep>, order: seq<string>, depths: seq<nat>, round: nat, start: nat) {
    && Layered(steps, order, depths) && start <= |order|
    && (forall k: nat :: k < |depths| ==> depths[k] < round)
    && (forall k: nat :: start <= k < |depths| ==> depths[k] == round - 1)
  }

  /** A step that becomes ready in a round has the depth of that round: it was held up by one
      of the steps that the round before emitted. */
  lemma ReadyDepth(steps: seq<PlanStep>, order: seq<string>, depths: seq<nat>, round: nat, start: nat, id: string,
                   dependencies: seq<string>)
    requires InRounds(steps, order, depths, round, start)
    requires forall d :: d in dependencies <==> DependsOn(steps, id, d)
    requires forall d :: d in dependencies ==> d in order
    requires round > 0 ==> HasOpenDependency(dependencies, order[..start])
    ensures IsDepth(steps, id, round)
  {
    forall x | DependsOn(steps, id, x)
      ensures ShallowerThan(steps, x, round)
    {
      var k: nat :| k < |order| && order[k] == x;
      assert IsDepth(steps, x, depths[k]);
    }
    if round > 0 {
      var deepest :| deepest in dependencies && deepest !in order[..start];
      var k: nat :| k < |order| && order[k] == deepest;
      LaterThan(order, start, k);
      DepthFromDependencies(steps, id, deepest, round);
    } else {
      assert forall x :: !ShallowerThan(steps, x, 0);
      DepthOfRoot(steps, id);
    }
  }

  lemma LaterThan(order: seq<string>, start: nat, k: nat)
    requires start <= |order| && k < |order| && order[k] !in order[..start]
    ensures start <= k
  {
  }

  ghost predicate HasOpenDependency(dependencies: seq<string>, order: seq<string>) {
    exists x :: x in dependencies && x !in order
  }

  lemma DependencyIsStep(steps: seq<PlanStep>, id: string, dependency: string)
    requires AllKnown(steps) && DependsOn(steps, id, dependency)
    ensures IsStep(steps, dependency)
  {
  }

  /** Each remaining step has a recorded dependency that is not emitted. */
  ghost predicate NoneReady(steps: seq<PlanStep>, order: seq<string>, remaining: map<string, seq<string>>) {
    && (forall id, d :: id in remaining && d in remaining[id] ==> DependsOn(steps, id, d))
    && (forall id {:trigger HasOpenDependency(remaining[id], order)} :: id in remaining ==>
          HasOpenDependency(remaining[id], order))
  }

  lemma OpenDependency(steps: seq<PlanStep>, order: seq<string>, remaining: map<string, seq<string>>, id: string)
    returns (dependency: string)
    requires NoneReady(steps, order, remaining) && id in remaining
    ensures DependsOn(steps, id, dependency) && dependency !in order
  {
    assert HasOpenDependency(remaining[id], order);
    dependency :| dependency in remaining[id] && dependency !in order;
  }

  lemma NoneReadyIsStuck(steps: seq<PlanStep>, order: seq<string>, remaining: map<string, seq<string>>, keys: set<string>)
    requires Emitting(steps, order, keys) && keys == remaining.Keys
    requires AllKnown(steps) && NoneReady(steps, order, remaining)
    ensures Stuck(steps, keys)
  {
    forall id | id in keys
      ensures WaitsFor(steps, keys, id)
    {
      var x := OpenDependency(steps, order, remaining, id);
      DependencyIsStep(steps, id, x);
    }
  }

  /** When no remaining step is ready, a dependency is unknown or some are circular. */
  lemma NothingReady(steps: seq<PlanStep>, order: seq<string>, remaining: map<string, seq<string>>)
    requires Emitting(steps, order, remaining.Keys) && remaining != map[] && NoneReady(steps, order, remaining)
    ensures !(AllKnown(steps) && Acyclic(steps))
  {
    if AllKnown(steps) {
      NoneReadyIsStuck(steps, order, remaining, remaining.Keys);
      NotEmpty(remaining);
      StuckMeansCycle(steps, remaining.Keys);
    }
  }

  /** What remains then is exactly what can never run. */
  lemma RemainingNeverRun(steps: seq<PlanStep>, order: seq<string>, remaining: map<string, seq<string>>)
    requires Emitting(steps, order, remaining.Keys) && NoneReady(steps, order, remaining)
    ensures NeverRun(steps, remaining.Keys)
  {
    forall id | id in remaining.Keys
      ensures IsStep(steps, id) && HasBlocker(steps, remaining.Keys, id)
    {
      var d := OpenDependency(steps, order, remaining, id);
      assert IsStep(steps, d) ==> d in remaining.Keys;
    }
    forall other: set<string> | Blocked(steps, other)
      ensures other <= remaining.Keys
    {
      forall id | id in other
        ensures id in remaining.Keys
      {
        assert HasBlocker(steps, other, id);
        if id in order {
          var k: nat :| k < |order| && order[k] == id;
          BlockedIsNotEmitted(steps, order, other, k);
        }
      }
    }
  }

  lemma NotEmpty(m: map<string, seq<string>>)
    requires m != map[]
    ensures m.Keys != {}
  {
    assert m.Keys == {} ==> m == map[];
  }

  // --- Validation ---

  /** Step `j` is the first one whose id an earlier step has. */
  ghost predicate FirstRepeat(steps: seq<PlanStep>, j: nat) {
    j < |steps| && IsStepBefore(steps, j, steps[j].id) && UniqueIds(steps[..j])
  }

  /** Dependency `j` of step `i` is the first one that names no step. */
  ghost predicate FirstUnknown(steps: seq<PlanStep>, i: nat, j: nat) {
    && i < |steps| && j < |steps[i].dependencies| && !IsStep(steps, steps[i].dependencies[j])
    && (forall k :: 0 <= k < j ==> IsStep(steps, steps[i].dependencies[k]))
    && (forall k: nat, d :: k < i && d in steps[k].dependencies ==> IsStep(steps, d))
  }

  /** The error names what is wrong: the first repeated id, the first unknown dependency and
      its step, or the steps that can never run. */
  ghost predicate Explains(steps: seq<PlanStep>, error: PlanError) {
    match error
    case DuplicateId(id) => exists j: nat :: FirstRepeat(steps, j) && steps[j].id == id
    case UnknownDependency(id, dependency) =>
      exists i: nat, j: nat :: FirstUnknown(steps, i, j) && steps[i].id == id && steps[i].dependencies[j] == dependency
    case CycleDetected(remaining) => remaining != {} && NeverRun(steps, remaining)
  }

  method FindDuplicate(steps: seq<PlanStep>) returns (error: Option<PlanError>)
    ensures error.None? <==> UniqueIds(steps)
    ensures error.Some? ==> error.value.DuplicateId? && Explains(steps, error.value)
  {
    var seen: set<string> := {};
    for i := 0 to |steps|
      invariant forall id :: id in seen <==> IsStepBefore(steps, i, id)
      invariant forall a, b :: 0 <= a < b < i ==> steps[a].id != steps[b].id
    {
      if steps[i].id in seen {
        assert FirstRepeat(steps, i);
        return Some(DuplicateId(steps[i].id));
      }
      StepsGrow(steps, i);
      seen := seen + {steps[i].id};
    }
    return None;
  }

  method FindUnknown(steps: seq<PlanStep>) returns (error: Option<PlanError>)
    ensures error.None? <==> AllKnown(steps)
    ensures error.Some? ==> error.value.UnknownDependency? && Explains(steps, error.value)
  {
    var ids := set i | 0 <= i < |steps| :: steps[i].id;
    for i := 0 to |steps|
      invariant forall k: nat, d :: k < i && d in steps[k].dependencies ==> IsStep(steps, d)
    {
      for j := 0 to |steps[i].dependencies|
        invariant forall k :: 0 <= k < j ==> IsStep(steps, steps[i].dependencies[k])
      {
        var d := steps[i].dependencies[j];
        if d !in ids {
          assert FirstUnknown(steps, i, j) && d in steps[i].dependencies;
          return Some(UnknownDependency(steps[i].id, d));
        }
      }
    }
    return None;
  }

  /** A plan is valid if and only if its ids are unique and its dependencies known and not
      circular; the first of these that fails is reported. */
  method Validate(steps: seq<PlanStep>) returns (error: Option<PlanError>)
    ensures error.None? <==> UniqueIds(steps) && AllKnown(steps) && Acyclic(steps)
    ensures error.Some? ==>
      && (error.value.DuplicateId? <==> !UniqueIds(steps))
      && (error.value.UnknownDependency? <==> UniqueIds(steps) && !AllKnown(steps))
      && Explains(steps, error.value)
  {
    error := FindDuplicate(steps);
    if error.Some? {
      return;
    }
    error := FindUnknown(steps);
    if error.Some? {
      return;
    }
    var order := Toposort(steps);
    if order.Err? {
      return Some(order.error);
    }
  }
}
