/** What a lifecycle step does to each node and edge, told by outcome, and what follows for
    whole runs: why a node has its status, what an early start changes, and that an acyclic
    graph can be run to the end. */
module LifecycleEffects {
  import opened Results
  import opened AgentGraph
  import opened Lifecycle
  import opened LifecycleRuns

  // --- One step, by outcome ---

  /** Some inbound edge of the node is not completed. */
  ghost predicate Blocked(g: Graph, id: string)
    requires g.WellFormed()
  {
    exists i: nat :: i < |g.links| && g.links[i].target == id && g.edges[i] != EdgeCompleted
  }

  predicate Open(status: NodeStatus) {
    status != Completed && status != Failed && status != Cancelled
  }

  /** The steps that give a node a status. */
  ghost predicate Gives(g: Graph, step: Step, n: string, status: NodeStatus)
    requires g.WellFormed() && n in g.nodes
  {
    var now := g.nodes[n].status;
    match status
    case Running =>
      || (step == Start(n) && Open(now) && !Blocked(g, n))
      || (step == Resume(n) && now == Waiting)
      || (step.RetryNode? && step.id == n && now != Cancelled)
    case Waiting =>
      || (step == Start(n) && Open(now) && Blocked(g, n))
      || (step == Wait(n) && Open(now))
    case Completed => step == Complete(n) && now != Completed && now != Cancelled
    case Failed => step.Fail? && step.id == n
    case Cancelled =>
      || (step == Cancel(n) && Open(now))
      || (step == CloseAll && Open(now))
      || (step.Fail? && step.id in g.nodes && step.id != n && Reaches(g.links, step.id, n) && Open(now) && now != Running)
    case _ => false
  }

  lemma BlockedIsNotDone(g: Graph, id: string)
    requires g.WellFormed()
    ensures InboundDone(g, id) <==> !Blocked(g, id)
  {
  }

  lemma OwnStatusAfterStep(g: Graph, step: Step, n: string, status: NodeStatus)
    requires g.WellFormed() && n in g.nodes && !step.CloseAll? && step.id == n
    ensures Gives(g, step, n, status) ==> Next(g, step).nodes[n].status == status
    ensures Next(g, step).nodes[n].status == status ==> Gives(g, step, n, status) || g.nodes[n].status == status
  {
    BlockedIsNotDone(g, n);
  }

  /** A step gives a node this status, or leaves the one it has. */
  lemma StatusAfterStep(g: Graph, step: Step, n: string, status: NodeStatus)
    requires g.WellFormed() && n in g.nodes
    ensures Gives(g, step, n, status) ==> Next(g, step).nodes[n].status == status
    ensures Next(g, step).nodes[n].status == status ==> Gives(g, step, n, status) || g.nodes[n].status == status
  {
    if !step.CloseAll? && step.id == n {
      OwnStatusAfterStep(g, step, n, status);
    }
  }

  /** Failing records its error, completing clears both marks, retrying shows the retry
      instead of the error, and nothing else touches the marks. */
  lemma MarksAfterStep(g: Graph, step: Step, n: string)
    requires g.WellFormed() && n in g.nodes
    ensures Next(g, step).nodes[n].error ==
      if Gives(g, step, n, Failed) then Some(step.error)
      else if Gives(g, step, n, Completed) || (step.RetryNode? && Gives(g, step, n, Running)) then None
      else g.nodes[n].error
    ensures Next(g, step).nodes[n].retrying ==
      if step.RetryNode? && Gives(g, step, n, Running) then Some(step.retry)
      else if Gives(g, step, n, Completed) then None
      else g.nodes[n].retrying
  {
    BlockedIsNotDone(g, n);
  }

  /** Edges change only when their source completes or fails. */
  lemma EdgesAfterStep(g: Graph, step: Step, i: nat)
    requires g.WellFormed() && i < |g.edges|
    ensures var source := g.links[i].source;
            Next(g, step).edges[i] ==
              if source in g.nodes && g.edges[i] == EdgePending && Gives(g, step, source, Completed) then EdgeCompleted
              else if source in g.nodes && g.edges[i] != EdgeCompleted && Gives(g, step, source, Failed) then EdgeFailed
              else g.edges[i]
  {
  }

  // --- Why a node has its status ---

  function StatusOf(r: Run, n: string): NodeStatus
    requires n in r.graph.nodes
  {
    r.graph.nodes[n].status
  }

  lemma {:induction false} AfterLast(r: Run, steps: seq<Step>)
    requires r.graph.WellFormed() && steps != []
    ensures After(r, steps) == Advance(After(r, steps[..|steps| - 1]), steps[|steps| - 1])
    decreases |steps|
  {
    if |steps| > 1 {
      AfterLast(Advance(r, steps[0]), steps[1..]);
      assert steps[..|steps| - 1][1..] == steps[1..][..|steps| - 2];
    }
  }

  /** Over every run of any driver: a status that a node did not have at first was given to it
      by one of the steps. */
  lemma {:induction false} StatusHasAReason(r: Run, steps: seq<Step>, n: string) returns (k: nat)
    requires r.graph.WellFormed() && n in r.graph.nodes && StatusOf(After(r, steps), n) != StatusOf(r, n)
    ensures k < |steps| && Gives(After(r, steps[..k]).graph, steps[k], n, StatusOf(After(r, steps), n))
    decreases |steps|
  {
    var last := |steps| - 1;
    var before := After(r, steps[..last]);
    AfterLast(r, steps);
    StatusAfterStep(before.graph, steps[last], n, StatusOf(After(r, steps), n));
    if StatusOf(before, n) != StatusOf(After(r, steps), n) {
      k := last;
    } else {
      k := StatusHasAReason(r, steps[..last], n);
      assert steps[..last][..k] == steps[..k];
    }
  }

  /** A node is over only because it completed, failed or was cancelled itself, because the
      whole run was closed, or because a node upstream of it failed. */
  lemma EndedForAReason(r: Run, steps: seq<Step>, n: string) returns (k: nat)
    requires r.graph.WellFormed() && n in r.graph.nodes
    requires Open(StatusOf(r, n)) && !Open(StatusOf(After(r, steps), n))
    ensures k < |steps|
    ensures || steps[k] == Complete(n) || steps[k] == Cancel(n) || steps[k] == CloseAll
            || (steps[k].Fail? && (steps[k].id == n || Reaches(r.graph.links, steps[k].id, n)))
  {
    k := StatusHasAReason(r, steps, n);
  }

  // --- Starting too early ---

  /** The two runs agree, except that in the first one the node, which has not started,
      waits. */
  ghost predicate WaitsInstead(r: Run, s: Run, id: string) {
    && s.graph.WellFormed() && id in s.graph.nodes && id !in s.started
    && Open(StatusOf(s, id)) && StatusOf(s, id) != Running
    && r == s.(graph := WithStatus(s.graph, id, Waiting))
  }

  ghost predicate Alike(r: Run, s: Run, id: string) {
    r == s || WaitsInstead(r, s, id)
  }

  /** What a step makes of a node depends on the edges and that node alone. */
  lemma StepIsLocal(g: Graph, h: Graph, step: Step, n: string)
    requires g.WellFormed() && h.links == g.links && h.edges == g.edges && h.nodes.Keys == g.nodes.Keys
    requires n in g.nodes && g.nodes[n] == h.nodes[n]
    ensures Next(g, step).nodes[n] == Next(h, step).nodes[n]
  {
    BlockedIsNotDone(g, n);
    BlockedIsNotDone(h, n);
    assert Blocked(g, n) == Blocked(h, n);
  }

  /** A waiting node and one that has not started go on in the same way, or still differ in
      nothing but that. */
  ghost predicate NodeAlike(a: Node, b: Node) {
    a == b || (a == b.(status := Waiting) && Open(b.status) && b.status != Running)
  }

  lemma WaitingNodeAlike(g: Graph, h: Graph, step: Step, id: string)
    requires g.WellFormed() && h == g.(nodes := h.nodes) && h.nodes.Keys == g.nodes.Keys && id in g.nodes
    requires NodeAlike(g.nodes[id], h.nodes[id])
    requires !(step.Complete? || step.Fail? || step.Resume? || step.RetryNode?) || step.id != id
    ensures NodeAlike(Next(g, step).nodes[id], Next(h, step).nodes[id])
  {
    assert InboundDone(g, id) <==> InboundDone(h, id);
  }

  lemma EdgesAlike(r: Run, s: Run, step: Step, id: string)
    requires RunInvariant(s) && WaitsInstead(r, s, id) && Disciplined(r, step)
    ensures Next(r.graph, step).edges == Next(s.graph, step).edges
  {
    if step.Complete? || step.Fail? {
      assert step.id != id;
    }
  }

  lemma OneNodeDiffers(a: map<string, Node>, b: map<string, Node>, id: string)
    requires a.Keys == b.Keys && id in b
    requires forall n :: n in b && n != id ==> a[n] == b[n]
    ensures a == b[id := a[id]]
    ensures a[id] == b[id] ==> a == b
  {
  }

  lemma SameDiscipline(r: Run, s: Run, step: Step, id: string)
    requires WaitsInstead(r, s, id) && Disciplined(r, step)
    ensures Disciplined(s, step)
    ensures (step.Complete? || step.Fail? || step.Resume? || step.RetryNode?) ==> step.id != id
  {
  }

  lemma SameStarted(r: Run, s: Run, step: Step, id: string)
    requires s.graph.WellFormed() && WaitsInstead(r, s, id)
    ensures Advance(r, step).started == Advance(s, step).started
    ensures id in Advance(s, step).started ==> Next(r.graph, step).nodes[id] == Next(s.graph, step).nodes[id]
  {
    if step.Start? {
      assert InboundDone(r.graph, step.id) <==> InboundDone(s.graph, step.id);
    }
  }

  lemma AlikeIfNodeIs(r: Run, s: Run, id: string)
    requires s.graph.WellFormed() && r.started == s.started && id in s.graph.nodes
    requires r.graph == s.graph.(nodes := r.graph.nodes) && r.graph.nodes.Keys == s.graph.nodes.Keys
    requires forall n :: n in s.graph.nodes && n != id ==> r.graph.nodes[n] == s.graph.nodes[n]
    requires NodeAlike(r.graph.nodes[id], s.graph.nodes[id])
    requires id in s.started ==> r.graph.nodes[id] == s.graph.nodes[id]
    ensures Alike(r, s, id)
  {
    OneNodeDiffers(r.graph.nodes, s.graph.nodes, id);
  }

  /** Both runs take any further disciplined step in the same way. */
  lemma StepKeepsAlike(r: Run, s: Run, step: Step, id: string)
    requires RunInvariant(s) && WaitsInstead(r, s, id) && Disciplined(r, step)
    ensures Disciplined(s, step) && Alike(Advance(r, step), Advance(s, step), id)
  {
    SameDiscipline(r, s, step, id);
    SameStarted(r, s, step, id);
    forall n | n in s.graph.nodes && n != id
      ensures Next(r.graph, step).nodes[n] == Next(s.graph, step).nodes[n]
    {
      StepIsLocal(r.graph, s.graph, step, n);
    }
    WaitingNodeAlike(r.graph, s.graph, step, id);
    EdgesAlike(r, s, step, id);
    AlikeIfNodeIs(Advance(r, step), Advance(s, step), id);
  }

  lemma {:induction false} RunKeepsAlike(r: Run, s: Run, steps: seq<Step>, id: string)
    requires RunInvariant(s) && RunInvariant(r) && Alike(r, s, id) && AllDisciplined(r, steps)
    ensures Alike(After(r, steps), After(s, steps), id)
    decreases |steps|
  {
    if steps != [] && r != s {
      StepKeepsAlike(r, s, steps[0], id);
      AdvanceKeepsInvariant(r, steps[0]);
      AdvanceKeepsInvariant(s, steps[0]);
      RunKeepsAlike(Advance(r, steps[0]), Advance(s, steps[0]), steps[1..], id);
    }
  }

  lemma StartLevels(r: Run, s: Run, id: string)
    requires s.graph.WellFormed() && Alike(r, s, id)
    ensures Advance(r, Start(id)) == Advance(s, Start(id))
  {
    if r != s {
      SameStarted(r, s, Start(id), id);
      assert InboundDone(r.graph, id) <==> InboundDone(s.graph, id);
      var status := if InboundDone(s.graph, id) then Running else Waiting;
      assert WithStatus(r.graph, id, status).nodes == WithStatus(s.graph, id, status).nodes;
    }
  }

  /** Starting a blocked node too early changes nothing in the long run: whatever a
      disciplined driver does afterwards, the next start of the node leads to the same run as
      if the early one had not been. */
  lemma EarlyStartIsHarmless(r: Run, steps: seq<Step>, id: string)
    requires RunInvariant(r) && Blocked(r.graph, id) && AllDisciplined(Advance(r, Start(id)), steps)
    ensures Advance(After(Advance(r, Start(id)), steps), Start(id)) == Advance(After(r, steps), Start(id))
  {
    BlockedIsNotDone(r.graph, id);
    AdvanceKeepsInvariant(r, Start(id));
    var early := Advance(r, Start(id));
    assert Alike(early, r, id);
    RunKeepsAlike(early, r, steps, id);
    StartLevels(After(early, steps), After(r, steps), id);
  }

  // --- Running an acyclic graph to the end ---

  /** Start and complete the nodes one after another. */
  function DriveAll(order: seq<string>): seq<Step> {
    if order == [] then []
    else DriveAll(order[..|order| - 1]) + [Start(order[|order| - 1])] + [Complete(order[|order| - 1])]
  }

  lemma {:induction false} DisciplinedLast(r: Run, steps: seq<Step>, step: Step)
    requires r.graph.WellFormed() && AllDisciplined(r, steps) && Disciplined(After(r, steps), step)
    ensures AllDisciplined(r, steps + [step]) && After(r, steps + [step]) == Advance(After(r, steps), step)
    decreases |steps|
  {
    if steps == [] {
      assert [step][1..] == [];
    } else {
      DisciplinedLast(Advance(r, steps[0]), steps[1..], step);
      assert (steps + [step])[1..] == steps[1..] + [step];
    }
  }

  /** The order lists every node once, and each edge leads from an earlier node to a later one. */
  ghost predicate Topological(g: Graph, order: seq<string>)
    requires g.WellFormed()
  {
    && (forall id :: id in g.nodes <==> id in order)
    && (forall j, k :: 0 <= j < k < |order| ==> order[j] != order[k])
    && (forall i: nat, k: nat :: i < |g.links| && k < |order| && g.links[i].target == order[k] ==>
          g.links[i].source in order[..k])
    && (forall i: nat :: i < |g.links| ==> g.links[i].source in order)
  }

  /** The first `k` nodes have completed and handed off, and nothing else has happened. */
  ghost predicate DoneUpTo(r: Run, order: seq<string>, k: nat)
    requires k <= |order|
  {
    && r.graph.WellFormed() && (forall id :: id in r.started <==> id in order[..k])
    && (forall id :: id in r.graph.nodes <==> id in order)
    && (forall id :: id in r.graph.nodes ==>
          r.graph.nodes[id] == Node(if id in order[..k] then Completed else Pending, None, None))
    && (forall i: nat :: i < |r.graph.edges| ==>
          r.graph.edges[i] == if r.graph.links[i].source in order[..k] then EdgeCompleted else EdgePending)
  }

  lemma NextNodeCompletes(r: Run, order: seq<string>, k: nat)
    requires k < |order| && DoneUpTo(r, order, k) && Topological(r.graph, order)
    ensures var started := Advance(r, Start(order[k]));
            && Disciplined(r, Start(order[k])) && Disciplined(started, Complete(order[k]))
            && DoneUpTo(Advance(started, Complete(order[k])), order, k + 1)
  {
    var id := order[k];
    assert id !in order[..k];
    assert order[..k + 1] == order[..k] + [id];
    assert InboundDone(r.graph, id);
  }

  lemma {:induction false} DrivenUpTo(r: Run, order: seq<string>, k: nat)
    requires Fresh(r) && Topological(r.graph, order) && k <= |order|
    ensures AllDisciplined(r, DriveAll(order[..k])) && DoneUpTo(After(r, DriveAll(order[..k])), order, k)
  {
    if k > 0 {
      DrivenUpTo(r, order, k - 1);
      assert order[..k][..k - 1] == order[..k - 1];
      var id, steps := order[k - 1], DriveAll(order[..k - 1]);
      NextNodeCompletes(After(r, steps), order, k - 1);
      DisciplinedLast(r, steps, Start(id));
      DisciplinedLast(r, steps + [Start(id)], Complete(id));
    }
  }

  /** The discipline gets work done: any acyclic graph can be driven until every node has
      completed and every edge has been handed off. */
  lemma AcyclicGraphFinishes(r: Run, order: seq<string>)
    requires Fresh(r) && Topological(r.graph, order)
    ensures AllDisciplined(r, DriveAll(order))
    ensures var g := After(r, DriveAll(order)).graph;
            && (forall id :: id in g.nodes ==> g.nodes[id].status == Completed)
            && (forall i: nat :: i < |g.edges| ==> g.edges[i] == EdgeCompleted)
  {
    DrivenUpTo(r, order, |order|);
    assert order[..|order|] == order;
  }

  // --- Announcements and lists, in order ---

  /** Indices below `n`, each greater than the one before. */
  ghost predicate Increasing(which: seq<nat>, n: nat) {
    && (forall a, b :: 0 <= a < b < |which| ==> which[a] < which[b])
    && (forall k: nat :: k < |which| ==> which[k] < n)
  }

  /** A completion announces each handed-off edge as active and then as completed, in edge
      order, and nothing else. */
  lemma {:induction false} HandoffsExactly(links: seq<Link>, edges: seq<EdgeStatus>, id: string, n: nat)
      returns (which: seq<nat>)
    requires n <= |links| == |edges|
    ensures Increasing(which, n)
    ensures forall i: nat :: i in which <==> i < n && links[i].source == id && edges[i] == EdgePending
    ensures |Handoffs(links, edges, id, n)| == 2 * |which|
    ensures forall k: nat :: k < |which| ==>
              Handoffs(links, edges, id, n)[2 * k..2 * k + 2]
              == [AgentEdge(which[k], EdgeActive), AgentEdge(which[k], EdgeCompleted)]
  {
    if n == 0 {
      which := [];
    } else {
      which := HandoffsExactly(links, edges, id, n - 1);
      var before := Handoffs(links, edges, id, n - 1);
      if links[n - 1].source == id && edges[n - 1] == EdgePending {
        forall k: nat | k < |which|
          ensures Handoffs(links, edges, id, n)[2 * k..2 * k + 2] == before[2 * k..2 * k + 2]
        {
        }
        which := which + [n - 1];
      }
    }
  }

  /** A failure announces each outbound edge it fails, in edge order, and nothing else. */
  lemma {:induction false} SeveringsExactly(links: seq<Link>, edges: seq<EdgeStatus>, id: string, n: nat)
      returns (which: seq<nat>)
    requires n <= |links| == |edges|
    ensures Increasing(which, n)
    ensures forall i: nat :: i in which <==>
              i < n && links[i].source == id && edges[i] != EdgeCompleted && edges[i] != EdgeFailed
    ensures |Severings(links, edges, id, n)| == |which|
    ensures forall k: nat :: k < |which| ==> Severings(links, edges, id, n)[k] == AgentEdge(which[k], EdgeFailed)
  {
    if n == 0 {
      which := [];
    } else {
      which := SeveringsExactly(links, edges, id, n - 1);
      if links[n - 1].source == id && edges[n - 1] !in {EdgeCompleted, EdgeFailed} {
        which := which + [n - 1];
      }
    }
  }

  /** The ids found at these increasing positions of the declaration order. */
  ghost predicate AtPositions(ids: seq<string>, order: seq<string>, at: seq<nat>) {
    |at| == |ids| && Increasing(at, |order|) && forall k: nat :: k < |at| ==> ids[k] == order[at[k]]
  }

  /** Running nodes are listed in declaration order. */
  lemma {:induction false} RunningInOrder(order: seq<string>, nodes: map<string, Node>) returns (at: seq<nat>)
    ensures AtPositions(RunningIds(order, nodes), order, at)
    ensures forall i: nat :: i in at <==> i < |order| && order[i] in nodes && nodes[order[i]].status == Running
  {
    if order == [] {
      at := [];
    } else {
      var n := |order| - 1;
      at := RunningInOrder(order[..n], nodes);
      if order[n] in nodes && nodes[order[n]].status == Running {
        at := at + [n];
      }
    }
  }

  /** And so are the nodes that closing a run cancels. */
  lemma {:induction false} OpenInOrder(order: seq<string>, nodes: map<string, Node>) returns (at: seq<nat>)
    ensures AtPositions(OpenIds(order, nodes), order, at)
    ensures forall i: nat :: i in at <==> i < |order| && order[i] in nodes && Open(nodes[order[i]].status)
  {
    if order == [] {
      at := [];
    } else {
      var n := |order| - 1;
      at := OpenInOrder(order[..n], nodes);
      if order[n] in nodes && Open(nodes[order[n]].status) {
        at := at + [n];
      }
    }
  }
}
