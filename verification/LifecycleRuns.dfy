/** What every step of the lifecycle keeps, exactly when it keeps it, and what
    whole runs guarantee. */
module LifecycleRuns {
  import opened Results
  import opened AgentGraph
  import opened Lifecycle

  datatype Step =
    | Start(id: string)
    | Wait(id: string)
    | Complete(id: string)
    | Fail(id: string, error: string)
    | RetryNode(id: string, retry: Retry)
    | Cancel(id: string)
    | Resume(id: string)
    | CloseAll

  ghost function Next(g: Graph, step: Step): (g': Graph)
    requires g.WellFormed()
    ensures g'.WellFormed() && g'.links == g.links && g'.nodes.Keys == g.nodes.Keys
  {
    match step
    case Start(id) => Started(g, id)
    case Wait(id) => PutOnHold(g, id)
    case Complete(id) => Done(g, id)
    case Fail(id, error) => Broken(g, id, error)
    case RetryNode(id, retry) => Retried(g, id, retry)
    case Cancel(id) => Dropped(g, id)
    case Resume(id) => Resumed(g, id)
    case CloseAll => AllClosed(g)
  }

  // --- The ordering invariant and the exact condition under which a step keeps it ---

  /** A completed edge comes from a completed node, and a node that runs or has
      completed has only completed inbound edges. */
  ghost predicate Ordered(g: Graph)
    requires g.WellFormed()
  {
    && (forall i: nat :: i < |g.edges| && g.edges[i] == EdgeCompleted ==>
          g.links[i].source in g.nodes && g.nodes[g.links[i].source].status == Completed)
    && (forall id :: id in g.nodes && g.nodes[id].status in {Running, Completed} ==> InboundDone(g, id))
  }

  /** Some outbound edge of the node has already been handed off. */
  ghost predicate HandedOff(g: Graph, id: string)
    requires g.WellFormed()
  {
    exists i: nat :: i < |g.edges| && g.links[i].source == id && g.edges[i] == EdgeCompleted
  }

  /** Every inbound edge is completed, or is a pending edge from the node to itself. */
  ghost predicate InboundReady(g: Graph, id: string)
    requires g.WellFormed()
  {
    forall i: nat :: i < |g.edges| && g.links[i].target == id ==>
      g.edges[i] == EdgeCompleted || (g.links[i].source == id && g.edges[i] == EdgePending)
  }

  /** What a caller must check before a step. The emitter checks it itself for starting,
      waiting and cancelling, and leaves it to the driver for the others. */
  ghost predicate Guarded(g: Graph, step: Step)
    requires g.WellFormed()
  {
    match step
    case Complete(id) => id in g.nodes && g.nodes[id].status !in {Completed, Cancelled} ==> InboundReady(g, id)
    case Fail(id, _) => id in g.nodes ==> !HandedOff(g, id)
    case RetryNode(id, _) => id in g.nodes && g.nodes[id].status != Cancelled ==> InboundDone(g, id) && !HandedOff(g, id)
    case Resume(id) => id in g.nodes && g.nodes[id].status == Waiting ==> InboundDone(g, id)
    case _ => true
  }

  lemma CompleteKeepsOrder(g: Graph, id: string)
    requires g.WellFormed() && Ordered(g)
    ensures Ordered(Done(g, id)) <==> Guarded(g, Complete(id))
  {
    var g' := Done(g, id);
    if id in g.nodes && g.nodes[id].status !in {Completed, Cancelled} {
      if InboundReady(g, id) {
        forall n | n in g'.nodes && g'.nodes[n].status in {Running, Completed}
          ensures InboundDone(g', n)
        {
          assert n != id ==> InboundDone(g, n);
        }
      } else {
        var i: nat :| i < |g.edges| && g.links[i].target == id
                      && !(g.edges[i] == EdgeCompleted || (g.links[i].source == id && g.edges[i] == EdgePending));
        assert g'.edges[i] != EdgeCompleted;
        assert !InboundDone(g', id);
      }
    }
  }

  lemma FailKeepsOrder(g: Graph, id: string, error: string)
    requires g.WellFormed() && Ordered(g)
    ensures Ordered(Broken(g, id, error)) <==> Guarded(g, Fail(id, error))
  {
    var g' := Broken(g, id, error);
    if id in g.nodes {
      if HandedOff(g, id) {
        var i: nat :| i < |g.edges| && g.links[i].source == id && g.edges[i] == EdgeCompleted;
        assert g'.edges[i] == EdgeCompleted && g'.nodes[id].status == Failed;
      } else {
        forall n | n in g'.nodes && g'.nodes[n].status in {Running, Completed}
          ensures InboundDone(g', n)
        {
          assert InboundDone(g, n);
        }
      }
    }
  }

  lemma RunAgainKeepsOrder(g: Graph, step: Step)
    requires g.WellFormed() && Ordered(g) && (step.RetryNode? || step.Resume?)
    ensures Ordered(Next(g, step)) <==> Guarded(g, step)
  {
    var id, g' := step.id, Next(g, step);
    if id in g.nodes && g' != g {
      assert g'.nodes[id].status == Running && g'.edges == g.edges;
      assert InboundDone(g', id) <==> InboundDone(g, id);
      if HandedOff(g, id) {
        var i: nat :| i < |g.edges| && g.links[i].source == id && g.edges[i] == EdgeCompleted;
        assert g.nodes[id].status == Completed && step.RetryNode?;
      }
    }
    if id in g.nodes && g' == g && step.RetryNode? && g.nodes[id].status != Cancelled {
      assert g'.nodes[id].status == Running;
    }
  }

  lemma OtherStepsKeepOrder(g: Graph, step: Step)
    requires g.WellFormed() && Ordered(g) && !step.Complete? && !step.Fail? && !step.RetryNode? && !step.Resume?
    ensures Ordered(Next(g, step))
  {
    var g' := Next(g, step);
    forall n | n in g'.nodes && g'.nodes[n].status in {Running, Completed}
      ensures InboundDone(g', n)
    {
      assert g.nodes[n].status in {Running, Completed} ==> InboundDone(g, n);
    }
  }

  /** Each step keeps the order exactly when its guard holds: the guards are the weakest
      conditions under which the order, which later steps rely on, is kept. */
  lemma StepKeepsOrderIff(g: Graph, step: Step)
    requires g.WellFormed() && Ordered(g)
    ensures Ordered(Next(g, step)) <==> Guarded(g, step)
  {
    match step
    case Complete(id) => CompleteKeepsOrder(g, id);
    case Fail(id, error) => FailKeepsOrder(g, id, error);
    case RetryNode(_, _) => RunAgainKeepsOrder(g, step);
    case Resume(_) => RunAgainKeepsOrder(g, step);
    case _ => OtherStepsKeepOrder(g, step);
  }

  // --- Consequences of the order ---

  lemma {:induction false} AncestorsCompleted(g: Graph, p: seq<string>, i: nat)
    requires g.WellFormed() && Ordered(g) && IsPath(g.links, p) && i < |p| - 1
    requires p[|p| - 1] in g.nodes && g.nodes[p[|p| - 1]].status in {Running, Completed}
    ensures p[i] in g.nodes && g.nodes[p[i]].status == Completed
    decreases |p| - i
  {
    if i + 1 < |p| - 1 {
      AncestorsCompleted(g, p, i + 1);
    }
    assert HasLink(g.links, p[i], p[i + 1]);
    var k: nat :| k < |g.links| && g.links[k] == Link(p[i], p[i + 1]);
    assert InboundDone(g, p[i + 1]);
    assert g.edges[k] == EdgeCompleted;
  }

  /** Whenever a node runs, everything upstream of it is completed. */
  lemma UpstreamOfRunningIsCompleted(g: Graph, a: string, b: string)
    requires g.WellFormed() && Ordered(g) && Reaches(g.links, a, b)
    requires b in g.nodes && g.nodes[b].status == Running
    ensures a in g.nodes && g.nodes[a].status == Completed
  {
    var p: seq<string> :| Connects(g.links, p, a, b);
    AncestorsCompleted(g, p, 0);
  }

  /** Two nodes are ordered by the graph. */
  ghost predicate Comparable(links: seq<Link>, a: string, b: string) {
    a == b || Reaches(links, a, b) || Reaches(links, b, a)
  }

  /** Running nodes are never ordered by the graph, so a sequential graph runs one node at a time. */
  lemma RunningNodesAreIncomparable(g: Graph, a: string, b: string)
    requires g.WellFormed() && Ordered(g) && Comparable(g.links, a, b)
    requires a in g.nodes && g.nodes[a].status == Running
    requires b in g.nodes && g.nodes[b].status == Running
    ensures a == b
  {
    if a != b && Reaches(g.links, a, b) {
      UpstreamOfRunningIsCompleted(g, a, b);
    } else if a != b {
      UpstreamOfRunningIsCompleted(g, b, a);
    }
  }

  // --- The promise itself, and the exact condition under which a step keeps it ---

  /** A running node has only completed nodes upstream. */
  ghost predicate Promised(g: Graph) {
    forall a, b :: Reaches(g.links, a, b) && Runs(g, b) ==> HasCompleted(g, a)
  }

  ghost predicate Runs(g: Graph, id: string) {
    id in g.nodes && g.nodes[id].status == Running
  }

  ghost predicate HasCompleted(g: Graph, id: string) {
    id in g.nodes && g.nodes[id].status == Completed
  }

  /** A step makes the node run again. */
  ghost predicate Revives(g: Graph, step: Step) {
    || (step.RetryNode? && step.id in g.nodes && g.nodes[step.id].status != Cancelled)
    || (step.Resume? && step.id in g.nodes && g.nodes[step.id].status == Waiting)
  }

  /** Everything upstream of the node, which is not upstream of itself, has completed, and
      nothing downstream of it runs. */
  ghost predicate MayRun(g: Graph, id: string) {
    && (forall a :: Reaches(g.links, a, id) ==> a != id && HasCompleted(g, a))
    && (forall b :: Reaches(g.links, id, b) ==> !Runs(g, b))
  }

  /** What a caller must check before a step for the promise alone. Completing needs nothing;
      a failure must leave nothing running downstream. */
  ghost predicate KeepsPromise(g: Graph, step: Step) {
    match step
    case Fail(id, _) => id in g.nodes ==> forall b :: b != id && Reaches(g.links, id, b) ==> !Runs(g, b)
    case RetryNode(id, _) => Revives(g, step) ==> MayRun(g, id)
    case Resume(id) => Revives(g, step) ==> MayRun(g, id)
    case _ => true
  }

  /** The order implies the promise. */
  lemma OrderedIsPromised(g: Graph)
    requires g.WellFormed() && Ordered(g)
    ensures Promised(g)
  {
    forall a, b | Reaches(g.links, a, b) && Runs(g, b)
      ensures HasCompleted(g, a)
    {
      UpstreamOfRunningIsCompleted(g, a, b);
    }
  }

  /** A step that makes nothing run and takes no completion back keeps the promise. */
  lemma NothingNewRuns(g: Graph, g': Graph)
    requires Promised(g) && g'.links == g.links
    requires forall id :: Runs(g', id) ==> Runs(g, id)
    requires forall id :: HasCompleted(g, id) ==> HasCompleted(g', id)
    ensures Promised(g')
  {
  }

  lemma CompleteKeepsPromise(g: Graph, id: string)
    requires g.WellFormed() && Promised(g)
    ensures Promised(Done(g, id))
  {
    NothingNewRuns(g, Done(g, id));
  }

  /** What a failure leaves running and completed. */
  lemma AfterFailure(g: Graph, id: string, error: string, n: string)
    requires g.WellFormed() && id in g.nodes
    ensures Runs(Broken(g, id, error), n) <==> Runs(g, n) && n != id
    ensures HasCompleted(Broken(g, id, error), n) <==> HasCompleted(g, n) && n != id
  {
  }

  lemma FailKeepsPromiseIff(g: Graph, id: string, error: string)
    requires g.WellFormed() && Promised(g)
    ensures Promised(Broken(g, id, error)) <==> KeepsPromise(g, Fail(id, error))
  {
    var g' := Broken(g, id, error);
    if id in g.nodes {
      forall n
        ensures Runs(g', n) <==> Runs(g, n) && n != id
        ensures HasCompleted(g', n) <==> HasCompleted(g, n) && n != id
      {
        AfterFailure(g, id, error, n);
      }
    }
  }

  /** Only the revived node changes. */
  lemma AfterRevival(g: Graph, step: Step, n: string)
    requires g.WellFormed() && Revives(g, step)
    ensures Next(g, step).links == g.links
    ensures Runs(Next(g, step), n) <==> Runs(g, n) || n == step.id
    ensures HasCompleted(Next(g, step), n) <==> HasCompleted(g, n) && n != step.id
  {
  }

  lemma ReviveKeepsPromiseIff(g: Graph, step: Step)
    requires g.WellFormed() && Promised(g) && Revives(g, step)
    ensures Promised(Next(g, step)) <==> MayRun(g, step.id)
  {
    var g', id := Next(g, step), step.id;
    forall n
      ensures Runs(g', n) <==> Runs(g, n) || n == id
      ensures HasCompleted(g', n) <==> HasCompleted(g, n) && n != id
    {
      AfterRevival(g, step, n);
    }
    assert g'.links == g.links;
    RevivedIff(g, g', id);
  }

  lemma RevivedIff(g: Graph, g': Graph, id: string)
    requires Promised(g) && g'.links == g.links
    requires forall n :: Runs(g', n) <==> Runs(g, n) || n == id
    requires forall n :: HasCompleted(g', n) <==> HasCompleted(g, n) && n != id
    ensures Promised(g') <==> MayRun(g, id)
  {
    if Promised(g') {
      forall a | Reaches(g.links, a, id)
        ensures a != id && HasCompleted(g, a)
      {
        assert Runs(g', id);
      }
      forall b | Reaches(g.links, id, b)
        ensures !Runs(g, b)
      {
        assert Runs(g, b) ==> Runs(g', b);
      }
    }
  }

  lemma OtherStepsKeepPromise(g: Graph, step: Step)
    requires g.WellFormed() && Ordered(g) && !step.Complete? && !step.Fail? && !Revives(g, step)
    ensures Promised(Next(g, step))
  {
    OrderedIsPromised(g);
    if step.Start? {
      OtherStepsKeepOrder(g, step);
      OrderedIsPromised(Next(g, step));
    } else {
      NothingNewRuns(g, Next(g, step));
    }
  }

  /** From an ordered graph each step keeps the promise exactly under this condition, which
      is weaker than the guard: a step can keep the promise and still spoil the order. */
  lemma StepKeepsPromiseIff(g: Graph, step: Step)
    requires g.WellFormed() && Ordered(g)
    ensures Promised(Next(g, step)) <==> KeepsPromise(g, step)
  {
    OrderedIsPromised(g);
    if Revives(g, step) {
      ReviveKeepsPromiseIff(g, step);
    } else if step.Fail? {
      FailKeepsPromiseIff(g, step.id, step.error);
    } else if step.Complete? {
      CompleteKeepsPromise(g, step.id);
    } else {
      OtherStepsKeepPromise(g, step);
    }
  }

  // --- Runs of a disciplined driver ---

  /** The graph together with the nodes whose start succeeded. */
  datatype Run = Run(graph: Graph, started: set<string>)

  ghost predicate Fresh(r: Run) {
    && r.graph.WellFormed() && r.started == {}
    && (forall id :: id in r.graph.nodes ==> r.graph.nodes[id] == Node(Pending, None, None))
    && (forall i: nat :: i < |r.graph.edges| ==> r.graph.edges[i] == EdgePending)
  }

  ghost function Advance(r: Run, step: Step): Run
    requires r.graph.WellFormed()
  {
    var g := r.graph;
    Run(Next(g, step),
        if step.Start? && step.id in g.nodes && !Terminal(g.nodes[step.id].status) && InboundDone(g, step.id)
        then r.started + {step.id} else r.started)
  }

  /** The driver reports only on nodes it started and that have neither completed nor
      been cancelled, and retries only failed ones. */
  ghost predicate Disciplined(r: Run, step: Step) {
    match step
    case Complete(id) => id in r.graph.nodes ==> id in r.started && r.graph.nodes[id].status !in {Completed, Cancelled}
    case Fail(id, _) => id in r.graph.nodes ==> id in r.started && r.graph.nodes[id].status !in {Completed, Cancelled}
    case Resume(id) => id in r.graph.nodes ==> id in r.started && r.graph.nodes[id].status !in {Completed, Cancelled}
    case RetryNode(id, _) => id in r.graph.nodes ==> r.graph.nodes[id].status == Failed
    case _ => true
  }

  ghost predicate RunInvariant(r: Run) {
    && r.graph.WellFormed() && Ordered(r.graph)
    && (forall id :: id in r.started ==> InboundDone(r.graph, id))
    && (forall id :: id in r.graph.nodes && r.graph.nodes[id].status == Failed ==> id in r.started)
  }

  /** The discipline implies every guard. */
  lemma DisciplinedIsGuarded(r: Run, step: Step)
    requires RunInvariant(r) && Disciplined(r, step)
    ensures Guarded(r.graph, step)
  {
  }

  lemma AdvanceKeepsInvariant(r: Run, step: Step)
    requires RunInvariant(r) && Disciplined(r, step)
    ensures RunInvariant(Advance(r, step))
  {
    DisciplinedIsGuarded(r, step);
    StepKeepsOrderIff(r.graph, step);
    var r' := Advance(r, step);
    forall i: nat | i < |r.graph.edges| && r.graph.edges[i] == EdgeCompleted
      ensures r'.graph.edges[i] == EdgeCompleted
    {
    }
    forall id | id in r'.started
      ensures InboundDone(r'.graph, id)
    {
      assert InboundDone(r.graph, id);
    }
  }

  ghost function After(r: Run, steps: seq<Step>): (r': Run)
    requires r.graph.WellFormed()
    ensures r'.graph.WellFormed() && r'.graph.links == r.graph.links && r'.graph.nodes.Keys == r.graph.nodes.Keys
    decreases |steps|
  {
    if steps == [] then r else After(Advance(r, steps[0]), steps[1..])
  }

  ghost predicate AllDisciplined(r: Run, steps: seq<Step>)
    requires r.graph.WellFormed()
    decreases |steps|
  {
    steps == [] || (Disciplined(r, steps[0]) && AllDisciplined(Advance(r, steps[0]), steps[1..]))
  }

  lemma {:induction false} RunKeepsInvariant(r: Run, steps: seq<Step>)
    requires RunInvariant(r) && AllDisciplined(r, steps)
    ensures RunInvariant(After(r, steps))
    decreases |steps|
  {
    if steps != [] {
      AdvanceKeepsInvariant(r, steps[0]);
      RunKeepsInvariant(Advance(r, steps[0]), steps[1..]);
    }
  }

  /** The sequential-stage rule over whole runs: from an all-pending graph, whatever a
      disciplined driver does, a running node has only completed nodes upstream. */
  lemma RunningMeansUpstreamCompleted(r: Run, steps: seq<Step>, a: string, b: string)
    requires Fresh(r) && AllDisciplined(r, steps) && Reaches(r.graph.links, a, b)
    requires b in After(r, steps).graph.nodes && After(r, steps).graph.nodes[b].status == Running
    ensures a in After(r, steps).graph.nodes && After(r, steps).graph.nodes[a].status == Completed
  {
    RunKeepsInvariant(r, steps);
    UpstreamOfRunningIsCompleted(After(r, steps).graph, a, b);
  }

  /** A chain profile: each stage hands off to the next. */
  ghost predicate IsChain(g: Graph, order: seq<string>) {
    && (forall id :: id in g.nodes <==> id in order)
    && (forall i: nat :: i < |order| - 1 ==> HasLink(g.links, order[i], order[i + 1]))
  }

  lemma ChainReaches(g: Graph, order: seq<string>, i: nat, j: nat)
    requires IsChain(g, order) && i < j < |order|
    ensures Reaches(g.links, order[i], order[j])
  {
    var p := order[i..j + 1];
    forall k: nat | k < |p| - 1
      ensures HasLink(g.links, p[k], p[k + 1])
    {
      assert HasLink(g.links, order[i + k], order[i + k + 1]);
    }
    assert Connects(g.links, p, order[i], order[j]);
  }

  /** A chain profile never has more than one running node. */
  lemma ChainRunsOneAtATime(r: Run, steps: seq<Step>, order: seq<string>, a: string, b: string)
    requires Fresh(r) && AllDisciplined(r, steps) && IsChain(r.graph, order)
    requires a in r.graph.nodes && b in r.graph.nodes
    requires After(r, steps).graph.nodes[a].status == Running && After(r, steps).graph.nodes[b].status == Running
    ensures a == b
  {
    RunKeepsInvariant(r, steps);
    var i: nat :| i < |order| && order[i] == a;
    var j: nat :| j < |order| && order[j] == b;
    if i < j {
      ChainReaches(r.graph, order, i, j);
    } else if j < i {
      ChainReaches(r.graph, order, j, i);
    }
    RunningNodesAreIncomparable(After(r, steps).graph, a, b);
  }

  // --- Handoffs, for any driver ---

  /** Nothing is left half handed off: no edge stays active, and a completed node has no
      pending outbound edge. */
  ghost predicate HandoffsDone(g: Graph)
    requires g.WellFormed()
  {
    forall i: nat :: i < |g.edges| ==>
      && g.edges[i] != EdgeActive
      && (g.links[i].source in g.nodes && g.nodes[g.links[i].source].status == Completed ==> g.edges[i] != EdgePending)
  }

  lemma StepKeepsHandoffs(g: Graph, step: Step)
    requires g.WellFormed() && HandoffsDone(g)
    ensures HandoffsDone(Next(g, step))
  {
    var g' := Next(g, step);
    forall i: nat | i < |g'.edges|
      ensures g'.edges[i] != EdgeActive
      ensures g'.links[i].source in g'.nodes && g'.nodes[g'.links[i].source].status == Completed
              ==> g'.edges[i] != EdgePending
    {
      assert g.edges[i] != EdgeActive;
    }
  }

  lemma {:induction false} RunKeepsHandoffs(r: Run, steps: seq<Step>)
    requires r.graph.WellFormed() && HandoffsDone(r.graph)
    ensures HandoffsDone(After(r, steps).graph)
    decreases |steps|
  {
    if steps != [] {
      StepKeepsHandoffs(r.graph, steps[0]);
      RunKeepsHandoffs(Advance(r, steps[0]), steps[1..]);
    }
  }

  /** Join semantics over whole runs: asking for a start makes an unfinished node run
      exactly when every predecessor has completed and no inbound edge has failed. */
  lemma StartsExactlyWhenPredecessorsCompleted(r: Run, steps: seq<Step>, id: string)
    requires Fresh(r) && AllDisciplined(r, steps)
    requires id in After(r, steps).graph.nodes && !Terminal(After(r, steps).graph.nodes[id].status)
    ensures var g := After(r, steps).graph;
            Next(g, Start(id)).nodes[id].status == Running
            <==> forall i: nat :: i < |g.links| && g.links[i].target == id ==>
                   && g.links[i].source in g.nodes && g.nodes[g.links[i].source].status == Completed
                   && g.edges[i] != EdgeFailed
  {
    RunKeepsInvariant(r, steps);
    RunKeepsHandoffs(r, steps);
    var g := After(r, steps).graph;
    assert InboundDone(g, id) <==> forall i: nat :: i < |g.links| && g.links[i].target == id ==>
                   && g.links[i].source in g.nodes && g.nodes[g.links[i].source].status == Completed
                   && g.edges[i] != EdgeFailed;
  }

  // --- Terminal nodes, failure marks and the cascade, for any driver ---

  /** A terminal node is flipped back to running by exactly one kind of step: a retry
      of a node that has completed or failed. */
  lemma RegressionOnlyByRetry(g: Graph, step: Step, id: string)
    requires g.WellFormed() && id in g.nodes && Terminal(g.nodes[id].status)
    ensures Next(g, step).nodes[id].status == Running
            <==> step.RetryNode? && step.id == id && g.nodes[id].status != Cancelled
  {
  }

  lemma StepLeavesSettled(r: Run, step: Step, id: string)
    requires RunInvariant(r) && Disciplined(r, step)
    requires id in r.graph.nodes && r.graph.nodes[id].status in {Completed, Cancelled}
    ensures Next(r.graph, step).nodes[id] == r.graph.nodes[id]
  {
  }

  /** Completed and cancelled nodes stay as they are over every run of a disciplined driver. */
  lemma {:induction false} SettledForever(r: Run, steps: seq<Step>, id: string)
    requires RunInvariant(r) && AllDisciplined(r, steps)
    requires id in r.graph.nodes && r.graph.nodes[id].status in {Completed, Cancelled}
    ensures After(r, steps).graph.nodes[id] == r.graph.nodes[id]
    decreases |steps|
  {
    if steps != [] {
      StepLeavesSettled(r, steps[0], id);
      AdvanceKeepsInvariant(r, steps[0]);
      SettledForever(Advance(r, steps[0]), steps[1..], id);
    }
  }

  /** An error is shown exactly on failed nodes, and a completed node shows no retry. */
  ghost predicate MarksConsistent(g: Graph) {
    forall id :: id in g.nodes ==>
      && (g.nodes[id].error.Some? <==> g.nodes[id].status == Failed)
      && (g.nodes[id].retrying.Some? ==> g.nodes[id].status != Completed)
  }

  lemma StepKeepsMarks(g: Graph, step: Step)
    requires g.WellFormed() && MarksConsistent(g)
    ensures MarksConsistent(Next(g, step))
  {
    var g' := Next(g, step);
    forall id | id in g'.nodes
      ensures g'.nodes[id].error.Some? <==> g'.nodes[id].status == Failed
      ensures g'.nodes[id].retrying.Some? ==> g'.nodes[id].status != Completed
    {
      assert id in g.nodes;
    }
  }

  /** Over every run, of any driver. */
  lemma {:induction false} RunKeepsMarks(r: Run, steps: seq<Step>)
    requires r.graph.WellFormed() && MarksConsistent(r.graph)
    ensures MarksConsistent(After(r, steps).graph)
    decreases |steps|
  {
    if steps != [] {
      StepKeepsMarks(r.graph, steps[0]);
      RunKeepsMarks(Advance(r, steps[0]), steps[1..]);
    }
  }

  /** A failure settles everything downstream, on cyclic graphs too: the nodes that
      change besides the failing one are exactly those downstream that were neither
      terminal nor running, and they become cancelled. */
  lemma FailureSettlesDownstream(g: Graph, id: string, error: string, n: string)
    requires g.WellFormed() && id in g.nodes && n in g.nodes
    ensures var after := Broken(g, id, error).nodes;
            && after[id].status == Failed
            && (Reaches(g.links, id, n) ==> Terminal(after[n].status) || after[n].status == Running)
            && (n != id ==>
                  (after[n] != g.nodes[n] <==>
                     Reaches(g.links, id, n) && !Terminal(g.nodes[n].status) && g.nodes[n].status != Running)
                  && (after[n] != g.nodes[n] ==> after[n] == g.nodes[n].(status := Cancelled)))
  {
  }

  lemma {:induction false} OpenIdsExactly(order: seq<string>, nodes: map<string, Node>, id: string)
    ensures id in OpenIds(order, nodes) <==> id in order && id in nodes && !Terminal(nodes[id].status)
  {
    if order != [] {
      var n := |order| - 1;
      OpenIdsExactly(order[..n], nodes, id);
      assert order == order[..n] + [order[n]];
    }
  }

  /** Closing a cancelled run leaves no node open, and the returned list names exactly
      the nodes it changed. */
  lemma ClosingChangesExactlyOpenNodes(g: Graph, order: seq<string>, id: string)
    requires (forall n :: n in order <==> n in g.nodes) && id in g.nodes
    ensures Terminal(AllClosed(g).nodes[id].status)
    ensures id in OpenIds(order, g.nodes) <==> AllClosed(g).nodes[id] != g.nodes[id]
  {
    OpenIdsExactly(order, g.nodes, id);
  }

  /** A retry that then succeeds does not reopen what the failure closed. */
  lemma RetryDoesNotReopenDownstream(g: Graph, id: string, error: string, retry: Retry, n: string)
    requires g.WellFormed() && id in g.nodes && n in g.nodes && n != id
    requires Reaches(g.links, id, n) && !Terminal(g.nodes[n].status) && g.nodes[n].status != Running
    ensures var after := Done(Retried(Broken(g, id, error), id, retry), id);
            && after.nodes[id].status == Completed && after.nodes[n].status == Cancelled
            && forall i: nat :: i < |g.edges| && g.links[i].source == id && g.edges[i] != EdgeCompleted
                 ==> after.edges[i] == EdgeFailed
  {
  }

  /** The graph of a two-stage sequence before anything ran. */
  function TwoStages(): Graph {
    Graph([Link("analyst", "writer")], [EdgePending],
          map["analyst" := Node(Pending, None, None), "writer" := Node(Pending, None, None)])
  }

  /** The driver's discipline is needed: a late retry of the completed first stage,
      while the second one runs, leaves both stages of a sequence running. */
  lemma LateRetryBreaksSequence()
    ensures var g1 := Next(TwoStages(), Start("analyst"));
            var g2 := Next(g1, Complete("analyst"));
            var g3 := Next(g2, Start("writer"));
            var g4 := Next(g3, RetryNode("analyst", Retry(1, "late")));
            && g1.nodes["analyst"].status == Running && g2.nodes["analyst"].status == Completed
            && g4.nodes["analyst"].status == Running && g4.nodes["writer"].status == Running
  {
    var g1 := Started(TwoStages(), "analyst");
    assert InboundDone(TwoStages(), "analyst");
    var g2 := Done(g1, "analyst");
    assert InboundDone(g2, "writer");
  }
}
