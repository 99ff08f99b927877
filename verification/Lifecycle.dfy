/** The lifecycle emitter: the single place where node and edge statuses change,
    and the events that announce every change. */
module Lifecycle {
  import opened Results
  import opened AgentGraph

  // --- Transitions, as functions of the graph ---

  ghost predicate InboundDone(g: Graph, id: string)
    requires g.WellFormed()
  {
    forall i: nat :: i < |g.links| && g.links[i].target == id ==> g.edges[i] == EdgeCompleted
  }

  function WithStatus(g: Graph, id: string, status: NodeStatus): Graph
    requires id in g.nodes
  {
    g.(nodes := g.nodes[id := g.nodes[id].(status := status)])
  }

  /** A node starts only when all inbound edges are completed, and waits otherwise. */
  ghost function Started(g: Graph, id: string): Graph
    requires g.WellFormed()
  {
    if id !in g.nodes || Terminal(g.nodes[id].status) then g
    else WithStatus(g, id, if InboundDone(g, id) then Running else Waiting)
  }

  function PutOnHold(g: Graph, id: string): Graph {
    if id !in g.nodes || Terminal(g.nodes[id].status) then g else WithStatus(g, id, Waiting)
  }

  /** The pending outbound edges of `id`, handed off. */
  function HandOver(links: seq<Link>, edges: seq<EdgeStatus>, id: string): seq<EdgeStatus>
    requires |edges| == |links|
  {
    seq(|edges|, i requires 0 <= i < |edges| =>
      if links[i].source == id && edges[i] == EdgePending then EdgeCompleted else edges[i])
  }

  /** The outbound edges of `id` that are not completed, failed. */
  function Sever(links: seq<Link>, edges: seq<EdgeStatus>, id: string): seq<EdgeStatus>
    requires |edges| == |links|
  {
    seq(|edges|, i requires 0 <= i < |edges| =>
      if links[i].source == id && edges[i] != EdgeCompleted then EdgeFailed else edges[i])
  }

  /** Completion clears failure marks and hands off along the pending outbound edges. */
  function Done(g: Graph, id: string): Graph
    requires g.WellFormed()
  {
    if id !in g.nodes || g.nodes[id].status in {Completed, Cancelled} then g
    else g.(nodes := g.nodes[id := Node(Completed, None, None)], edges := HandOver(g.links, g.edges, id))
  }

  /** Everything downstream that has neither started nor finished is cancelled. */
  ghost function DownstreamCancelled(g: Graph, id: string): Graph {
    g.(nodes := map n | n in g.nodes ::
         if Reaches(g.links, id, n) && !Terminal(g.nodes[n].status) && g.nodes[n].status != Running
         then g.nodes[n].(status := Cancelled) else g.nodes[n])
  }

  /** The failing node itself: failed, with its unfinished outbound edges. */
  function MarkedFailed(g: Graph, id: string, error: string): Graph
    requires g.WellFormed() && id in g.nodes
  {
    g.(nodes := g.nodes[id := g.nodes[id].(status := Failed, error := Some(error))],
       edges := Sever(g.links, g.edges, id))
  }

  ghost function Broken(g: Graph, id: string, error: string): Graph
    requires g.WellFormed()
  {
    if id !in g.nodes then g else DownstreamCancelled(MarkedFailed(g, id, error), id)
  }

  function Retried(g: Graph, id: string, retry: Retry): Graph {
    if id !in g.nodes || g.nodes[id].status == Cancelled then g
    else g.(nodes := g.nodes[id := Node(Running, None, Some(retry))])
  }

  function Dropped(g: Graph, id: string): Graph {
    if id !in g.nodes || Terminal(g.nodes[id].status) then g else WithStatus(g, id, Cancelled)
  }

  /** An approved pause flips a waiting node back to running. */
  function Resumed(g: Graph, id: string): Graph {
    if id !in g.nodes || g.nodes[id].status != Waiting then g else WithStatus(g, id, Running)
  }

  /** The end of a cancelled run: no node stays open. */
  function AllClosed(g: Graph): Graph {
    g.(nodes := map n | n in g.nodes ::
         if Terminal(g.nodes[n].status) then g.nodes[n] else g.nodes[n].(status := Cancelled))
  }

  /** Cancelling the listed nodes one after another. */
  function DroppedAll(g: Graph, ids: seq<string>): Graph {
    if ids == [] then g else Dropped(DroppedAll(g, ids[..|ids| - 1]), ids[|ids| - 1])
  }

  lemma {:induction false} DroppedAllEffect(g: Graph, ids: seq<string>)
    ensures DroppedAll(g, ids).links == g.links && DroppedAll(g, ids).edges == g.edges
    ensures DroppedAll(g, ids).nodes.Keys == g.nodes.Keys
    ensures forall n :: n in g.nodes ==>
              DroppedAll(g, ids).nodes[n] == if n in ids then AllClosed(g).nodes[n] else g.nodes[n]
  {
    if ids != [] {
      var k := |ids| - 1;
      DroppedAllEffect(g, ids[..k]);
      assert ids == ids[..k] + [ids[k]];
    }
  }

  lemma DroppedAllClosesAll(g: Graph, order: seq<string>)
    requires forall id :: id in order <==> id in g.nodes
    ensures DroppedAll(g, order) == AllClosed(g)
  {
    DroppedAllEffect(g, order);
    assert DroppedAll(g, order).nodes == AllClosed(g).nodes;
  }

  lemma NextToClose(g: Graph, order: seq<string>, i: nat)
    requires i < |order| && order[i] in g.nodes
    requires forall j, k :: 0 <= j < k < |order| ==> order[j] != order[k]
    ensures DroppedAll(g, order[..i]).nodes.Keys == g.nodes.Keys
    ensures DroppedAll(g, order[..i]).nodes[order[i]] == g.nodes[order[i]]
    ensures DroppedAll(g, order[..i + 1]) == Dropped(DroppedAll(g, order[..i]), order[i])
    ensures OpenIds(order[..i + 1], g.nodes)
         == if Terminal(g.nodes[order[i]].status) then OpenIds(order[..i], g.nodes)
            else OpenIds(order[..i], g.nodes) + [order[i]]
  {
    DroppedAllEffect(g, order[..i]);
    assert order[..i + 1][..i] == order[..i];
    assert order[i] !in order[..i];
  }

  // --- Events and what a listener reconstructs from them ---

  datatype Event =
    | AgentStatus(id: string, status: NodeStatus)
    | AgentEdge(index: nat, edgeStatus: EdgeStatus)
    | RunStatus(active: seq<string>)

  /** A listener's picture: the status of every node and edge, and the active nodes last announced. */
  datatype View = View(nodes: map<string, NodeStatus>, edges: seq<EdgeStatus>, active: seq<string>)

  function Statuses(nodes: map<string, Node>): map<string, NodeStatus> {
    map n | n in nodes :: nodes[n].status
  }

  function Observe(v: View, e: Event): View {
    match e
    case AgentStatus(id, status) => v.(nodes := v.nodes[id := status])
    case AgentEdge(i, status) => if i < |v.edges| then v.(edges := v.edges[i := status]) else v
    case RunStatus(active) => v.(active := active)
  }

  function Replay(initial: View, events: seq<Event>): View {
    if events == [] then initial
    else Observe(Replay(initial, events[..|events| - 1]), events[|events| - 1])
  }

  lemma ReplayAppend(initial: View, events: seq<Event>, e: Event)
    ensures Replay(initial, events + [e]) == Observe(Replay(initial, events), e)
  {
  }

  lemma StatusesUpdated(nodes: map<string, Node>, id: string, node: Node)
    ensures Statuses(nodes[id := node]) == Statuses(nodes)[id := node.status]
  {
  }

  lemma StatusesDiffer(nodes: map<string, Node>, id: string, node: Node)
    requires id in nodes && nodes[id].status != node.status
    ensures Statuses(nodes[id := node]) != Statuses(nodes)
  {
    assert Statuses(nodes)[id] != Statuses(nodes[id := node])[id];
  }

  /** The announcements of a completion: every handed-off edge goes active, then completed. */
  function Handoffs(links: seq<Link>, edges: seq<EdgeStatus>, id: string, n: nat): seq<Event>
    requires n <= |links| == |edges|
  {
    if n == 0 then []
    else if links[n - 1].source == id && edges[n - 1] == EdgePending
    then Handoffs(links, edges, id, n - 1) + [AgentEdge(n - 1, EdgeActive)] + [AgentEdge(n - 1, EdgeCompleted)]
    else Handoffs(links, edges, id, n - 1)
  }

  /** The announcements of a failure: every outbound edge neither completed nor failed fails. */
  function Severings(links: seq<Link>, edges: seq<EdgeStatus>, id: string, n: nat): seq<Event>
    requires n <= |links| == |edges|
  {
    if n == 0 then []
    else if links[n - 1].source == id && edges[n - 1] !in {EdgeCompleted, EdgeFailed}
    then Severings(links, edges, id, n - 1) + [AgentEdge(n - 1, EdgeFailed)]
    else Severings(links, edges, id, n - 1)
  }

  /** What was announced since is only cancellations of nodes downstream. */
  ghost predicate OnlyCancels(before: seq<Event>, after: seq<Event>, links: seq<Link>, id: string) {
    && before <= after
    && forall k: nat :: |before| <= k < |after| ==>
         after[k].AgentStatus? && after[k].status == Cancelled && Reaches(links, id, after[k].id)
  }

  lemma OneMoreCancel(before: seq<Event>, after: seq<Event>, links: seq<Link>, id: string, n: string)
    requires OnlyCancels(before, after, links, id) && Reaches(links, id, n)
    ensures OnlyCancels(before, after + [AgentStatus(n, Cancelled)], links, id)
  {
  }

  lemma ExtendOnce(events: seq<Event>, more: seq<Event>, e: Event)
    ensures events + (more + [e]) == events + more + [e]
  {
  }

  lemma ExtendTwice(events: seq<Event>, more: seq<Event>, e: Event, f: Event)
    ensures events + (more + [e] + [f]) == events + more + [e] + [f]
  {
  }

  // --- The running nodes ---

  /** The ids listed as running are exactly the running nodes. */
  lemma {:induction false} RunningIdsExactly(order: seq<string>, nodes: map<string, Node>, id: string)
    ensures id in RunningIds(order, nodes) <==> id in order && id in nodes && nodes[id].status == Running
  {
    if order != [] {
      var n := |order| - 1;
      RunningIdsExactly(order[..n], nodes, id);
      assert order == order[..n] + [order[n]];
    }
  }

  /** The list depends on nothing but which nodes run. */
  lemma {:induction false} RunningIdsCongruent(order: seq<string>, a: map<string, Node>, b: map<string, Node>)
    requires a.Keys == b.Keys
    requires forall n :: n in a ==> (a[n].status == Running <==> b[n].status == Running)
    ensures RunningIds(order, a) == RunningIds(order, b)
  {
    if order != [] {
      RunningIdsCongruent(order[..|order| - 1], a, b);
    }
  }

  /** Taking `id` out of the running ones changes the list exactly when it was running. */
  lemma StoppedNodeIsMissed(order: seq<string>, nodes: map<string, Node>, id: string, node: Node)
    requires id in order && id in nodes && node.status != Running
    ensures RunningIds(order, nodes) == RunningIds(order, nodes[id := node]) <==> nodes[id].status != Running
  {
    RunningIdsExactly(order, nodes, id);
    RunningIdsExactly(order, nodes[id := node], id);
    if nodes[id].status != Running {
      RunningIdsCongruent(order, nodes, nodes[id := node]);
    }
  }

  lemma {:induction false} NothingRuns(order: seq<string>, nodes: map<string, Node>)
    requires forall n :: n in nodes ==> nodes[n].status != Running
    ensures RunningIds(order, nodes) == []
  {
    if order != [] {
      NothingRuns(order[..|order| - 1], nodes);
    }
  }

  class AgentLifecycleEmitter {
    const links: seq<Link>
    const order: seq<string>
    const published: View
    var edges: seq<EdgeStatus>
    var nodes: map<string, Node>
    var active: seq<string>
    var events: seq<Event>

    ghost function State(): Graph
      reads this
    {
      Graph(links, edges, nodes)
    }

    ghost predicate Valid()
      reads this
    {
      && |edges| == |links|
      && (forall id :: id in order <==> id in nodes)
      && (forall i, j :: 0 <= i < j < |order| ==> order[i] != order[j])
    }

    ghost function Seen(): View
      reads this
    {
      Replay(published, events)
    }

    /** Replaying the events over the published topology gives the current statuses. */
    ghost predicate Mirrored()
      reads this
    {
      Seen().nodes == Statuses(nodes) && Seen().edges == edges
    }

    /** The active nodes a listener was last told of are the nodes running now. */
    ghost predicate Announced()
      reads this
    {
      Seen().active == RunningIds(order, nodes)
    }

    /** Built on a graph and publishing its topology. */
    constructor (links: seq<Link>, order: seq<string>, nodes: map<string, Node>, edges: seq<EdgeStatus>)
      requires |edges| == |links|
      requires forall id :: id in order <==> id in nodes
      requires forall i, j :: 0 <= i < j < |order| ==> order[i] != order[j]
      ensures Valid() && Mirrored() && State() == Graph(links, edges, nodes)
      ensures this.order == order && this.events == [] && Seen().active == []
    {
      this.links, this.order, this.nodes, this.edges := links, order, nodes, edges;
      this.published := View(Statuses(nodes), edges, []);
      this.active, this.events := [], [];
    }

    /** Change one node and announce its status. */
    method SetNode(id: string, node: Node)
      requires Valid() && id in nodes
      modifies this`nodes, this`events
      ensures Valid() && nodes == old(nodes)[id := node]
      ensures events == old(events) + [AgentStatus(id, node.status)]
      ensures Seen().active == old(Seen().active)
      ensures old(Mirrored()) ==> Mirrored()
    {
      nodes := nodes[id := node];
      events := events + [AgentStatus(id, node.status)];
      StatusesUpdated(old(nodes), id, node);
      ReplayAppend(published, old(events), AgentStatus(id, node.status));
    }

    method SetEdge(i: nat, status: EdgeStatus)
      requires Valid() && i < |edges|
      modifies this`edges, this`events
      ensures Valid() && edges == old(edges)[i := status]
      ensures events == if old(edges)[i] == status then old(events) else old(events) + [AgentEdge(i, status)]
      ensures Seen().active == old(Seen().active)
      ensures old(Mirrored()) ==> Mirrored()
    {
      if edges[i] == status {
        return;
      }
      edges := edges[i := status];
      events := events + [AgentEdge(i, status)];
      ReplayAppend(published, old(events), AgentEdge(i, status));
    }

    /** A pending edge goes active and is completed at once. */
    method HandOffEdge(i: nat)
      requires Valid() && i < |edges| && edges[i] == EdgePending
      modifies this`edges, this`events
      ensures Valid() && edges == old(edges)[i := EdgeCompleted]
      ensures events == old(events) + [AgentEdge(i, EdgeActive)] + [AgentEdge(i, EdgeCompleted)]
      ensures old(Mirrored()) ==> Mirrored()
    {
      SetEdge(i, EdgeActive);
      SetEdge(i, EdgeCompleted);
    }

    /** Announce the handoff along every pending outbound edge. */
    method HandOff(id: string)
      requires Valid()
      modifies this`edges, this`events
      ensures Valid() && edges == HandOver(links, old(edges), id)
      ensures events == old(events) + Handoffs(links, old(edges), id, |links|)
      ensures old(Mirrored()) ==> Mirrored()
    {
      ghost var before := edges;
      ghost var announced := events;
      var i := 0;
      assert announced + [] == announced;
      while i < |links|
        invariant i <= |links| && Valid()
        invariant old(Mirrored()) ==> Mirrored()
        invariant events == announced + Handoffs(links, before, id, i)
        invariant forall j: nat :: j < |links| ==>
          edges[j] == if j < i then HandOver(links, before, id)[j] else before[j]
      {
        if links[i].source == id && edges[i] == EdgePending {
          ExtendTwice(announced, Handoffs(links, before, id, i), AgentEdge(i, EdgeActive), AgentEdge(i, EdgeCompleted));
          HandOffEdge(i);
        }
        i := i + 1;
      }
      assert edges == HandOver(links, before, id);
    }

    /** Announce the failure of every outbound edge that is not completed. */
    method SeverOutbound(id: string)
      requires Valid()
      modifies this`edges, this`events
      ensures Valid() && edges == Sever(links, old(edges), id)
      ensures events == old(events) + Severings(links, old(edges), id, |links|)
      ensures old(Mirrored()) ==> Mirrored()
    {
      ghost var before := edges;
      ghost var announced := events;
      var i := 0;
      assert announced + [] == announced;
      while i < |links|
        invariant i <= |links| && Valid()
        invariant old(Mirrored()) ==> Mirrored()
        invariant events == announced + Severings(links, before, id, i)
        invariant forall j: nat :: j < |links| ==>
          edges[j] == if j < i then Sever(links, before, id)[j] else before[j]
      {
        if links[i].source == id && edges[i] != EdgeCompleted {
          ExtendOnce(announced, Severings(links, before, id, i), AgentEdge(i, EdgeFailed));
          SetEdge(i, EdgeFailed);
        }
        i := i + 1;
      }
      assert edges == Sever(links, before, id);
    }

    /** Active means running, recomputed from the nodes. */
    method RecomputeActive()
      requires Valid()
      modifies this`active
      ensures active == RunningIds(order, nodes)
    {
      active := [];
      var i := 0;
      while i < |order|
        invariant i <= |order|
        invariant active == RunningIds(order[..i], nodes)
      {
        assert order[..i + 1][..i] == order[..i];
        if nodes[order[i]].status == Running {
          active := active + [order[i]];
        }
        i := i + 1;
      }
      assert order[..i] == order;
    }

    /** A run status carries exactly the ids of the running nodes. */
    method EmitRunStatus()
      requires Valid()
      modifies this`active, this`events
      ensures Valid() && Announced() && active == RunningIds(order, nodes)
      ensures events == old(events) + [RunStatus(active)]
      ensures old(Mirrored()) ==> Mirrored()
    {
      RecomputeActive();
      events := events + [RunStatus(active)];
      ReplayAppend(published, old(events), RunStatus(active));
    }

    method EmitAgentStarted(id: string) returns (started: bool)
      requires Valid()
      modifies this
      ensures Valid() && State() == Started(old(State()), id)
      ensures started <==>
        && id in old(nodes)
        && old(nodes[id].status) !in {Completed, Failed, Cancelled}
        && forall i: nat :: i < |links| && links[i].target == id ==> old(edges)[i] == EdgeCompleted
      ensures edges == old(edges)
      ensures if started then nodes == old(nodes)[id := old(nodes[id]).(status := Running)]
                              && events == old(events) + [AgentStatus(id, Running)] + [RunStatus(active)]
              else if id in old(nodes) && old(nodes[id].status) !in {Completed, Failed, Cancelled}
              then nodes == old(nodes)[id := old(nodes[id]).(status := Waiting)]
                   && events == if old(nodes[id].status) == Waiting then old(events)
                                else old(events) + [AgentStatus(id, Waiting)]
              else nodes == old(nodes) && events == old(events)
      ensures old(Mirrored()) ==> Mirrored()
      ensures if started then Announced()
              else old(Announced()) ==> (Announced() <==> !(id in old(nodes) && old(nodes[id].status) == Running))
    {
      if id !in nodes || Terminal(nodes[id].status) {
        return false;
      }
      var blocked := false;
      for i := 0 to |links|
        invariant blocked <==> exists j: nat :: j < i && links[j].target == id && edges[j] != EdgeCompleted
      {
        if links[i].target == id && edges[i] != EdgeCompleted {
          blocked := true;
        }
      }
      if blocked {
        assert !InboundDone(State(), id);
        StoppedNodeIsMissed(order, nodes, id, nodes[id].(status := Waiting));
        if nodes[id].status != Waiting {
          SetNode(id, nodes[id].(status := Waiting));
        } else {
          assert nodes == nodes[id := nodes[id].(status := Waiting)];
        }
        return false;
      }
      SetNode(id, nodes[id].(status := Running));
      EmitRunStatus();
      return true;
    }

    /** Waiting is not followed by a run status, so putting a running node on hold leaves
        the announced active nodes stale. */
    method EmitAgentWaiting(id: string)
      requires Valid()
      modifies this
      ensures Valid() && State() == PutOnHold(old(State()), id)
      ensures events == if id in old(nodes) && old(nodes[id].status) !in {Completed, Failed, Cancelled}
                        then old(events) + [AgentStatus(id, Waiting)] else old(events)
      ensures old(Mirrored()) ==> Mirrored()
      ensures old(Announced()) ==> (Announced() <==> !(id in old(nodes) && old(nodes[id].status) == Running))
    {
      if id !in nodes || Terminal(nodes[id].status) {
        return;
      }
      StoppedNodeIsMissed(order, nodes, id, nodes[id].(status := Waiting));
      SetNode(id, nodes[id].(status := Waiting));
    }

    method EmitAgentCompleted(id: string)
      requires Valid()
      modifies this
      ensures Valid() && State() == Done(old(State()), id)
      ensures old(Mirrored()) ==> Mirrored()
      ensures if id !in old(nodes) || old(nodes[id].status) in {Completed, Cancelled} then events == old(events)
              else Announced() && events == old(events) + [AgentStatus(id, Completed)]
                                            + Handoffs(links, old(edges), id, |links|) + [RunStatus(active)]
    {
      if id !in nodes || nodes[id].status == Completed || nodes[id].status == Cancelled {
        return;
      }
      SetNode(id, Node(Completed, None, None));
      HandOff(id);
      EmitRunStatus();
    }

    method EmitAgentFailed(id: string, error: string)
      requires Valid()
      modifies this
      ensures Valid() && State() == Broken(old(State()), id, error)
      ensures old(Mirrored()) ==> Mirrored()
      ensures if id in old(nodes) then Announced() else events == old(events)
      ensures id in old(nodes) ==>
        var told := old(events) + [AgentStatus(id, Failed)] + Severings(links, old(edges), id, |links|) + [RunStatus(active)];
        OnlyCancels(told, events, links, id)
    {
      if id !in nodes {
        return;
      }
      SetNode(id, nodes[id].(status := Failed, error := Some(error)));
      SeverOutbound(id);
      EmitRunStatus();
      CancelDownstream(id);
    }

    method EmitAgentRetrying(id: string, attempt: nat, error: string)
      requires Valid()
      modifies this
      ensures Valid() && State() == Retried(old(State()), id, Retry(attempt, error))
      ensures old(Mirrored()) ==> Mirrored()
      ensures if id in old(nodes) && old(nodes[id].status) != Cancelled
              then Announced() && events == old(events) + [AgentStatus(id, Running)] + [RunStatus(active)]
              else events == old(events)
    {
      if id !in nodes || nodes[id].status == Cancelled {
        return;
      }
      SetNode(id, Node(Running, None, Some(Retry(attempt, error))));
      EmitRunStatus();
    }

    /** Like waiting, cancelling one node is not followed by a run status. */
    method EmitAgentCancelled(id: string)
      requires Valid()
      modifies this`nodes, this`events
      ensures Valid() && State() == Dropped(old(State()), id)
      ensures events == if id in old(nodes) && old(nodes[id].status) !in {Completed, Failed, Cancelled}
                        then old(events) + [AgentStatus(id, Cancelled)] else old(events)
      ensures old(Mirrored()) ==> Mirrored()
      ensures Seen().active == old(Seen().active)
      ensures old(Announced()) ==> (Announced() <==> !(id in old(nodes) && old(nodes[id].status) == Running))
    {
      if id !in nodes || Terminal(nodes[id].status) {
        return;
      }
      StoppedNodeIsMissed(order, nodes, id, nodes[id].(status := Cancelled));
      SetNode(id, nodes[id].(status := Cancelled));
    }

    /** The approval bridge resumes a paused node: the status changes, but only the
        run status is announced. */
    method ResumeApproved(id: string)
      requires Valid()
      modifies this
      ensures Valid() && State() == Resumed(old(State()), id)
      ensures old(Mirrored()) ==> (Mirrored() <==> !(id in old(nodes) && old(nodes[id].status) == Waiting))
      ensures if id in old(nodes) && old(nodes[id].status) == Waiting
              then Announced() && events == old(events) + [RunStatus(active)] else events == old(events)
    {
      if id !in nodes || nodes[id].status != Waiting {
        return;
      }
      nodes := nodes[id := nodes[id].(status := Running)];
      EmitRunStatus();
      ReplayAppend(published, old(events), RunStatus(active));
      StatusesDiffer(old(nodes), id, nodes[id]);
    }

    /** Every node id downstream of `id`, by a stack worklist. */
    method CollectDownstream(id: string) returns (reachable: set<string>)
      requires Valid()
      ensures forall n :: n in reachable <==> Reaches(links, id, n)
    {
      reachable := {};
      var stack := [id];
      ghost var targets := set i | 0 <= i < |links| :: links[i].target;
      while stack != []
        invariant reachable <= targets
        invariant forall n :: n in reachable ==> Reaches(links, id, n)
        invariant forall n :: n in stack ==> n == id || n in reachable
        invariant forall u, v :: (u == id || u in reachable) && u !in stack && HasLink(links, u, v) ==> v in reachable
        decreases targets - reachable, |stack|
      {
        var cur := stack[|stack| - 1];
        ghost var before := stack;
        stack := stack[..|stack| - 1];
        assert forall n :: n in before ==> n in stack || n == cur;
        ghost var reachableBefore, stackBefore := reachable, stack;
        var i := 0;
        while i < |links|
          invariant i <= |links| && reachableBefore <= reachable <= targets
          invariant reachable == reachableBefore ==> stack == stackBefore
          invariant forall n :: n in stackBefore ==> n in stack
          invariant forall n :: n in reachable ==> n in reachableBefore || n in stack
          invariant forall n :: n in reachable ==> Reaches(links, id, n)
          invariant forall n :: n in stack ==> n == id || n in reachable
          invariant forall j: nat :: j < i && links[j].source == cur ==> links[j].target in reachable
        {
          if links[i].source == cur && links[i].target !in reachable {
            assert HasLink(links, cur, links[i].target);
            ReachStep(links, id, cur, links[i].target);
            reachable := reachable + {links[i].target};
            stack := stack + [links[i].target];
          }
          i := i + 1;
        }
      }
      assert ClosedFrom(links, id, reachable);
      forall n | Reaches(links, id, n)
        ensures n in reachable
      {
        ClosedHoldsDownstream(links, id, reachable, n);
      }
    }

    method CancelDownstream(id: string)
      requires Valid()
      modifies this`nodes, this`events
      ensures Valid() && State() == DownstreamCancelled(old(State()), id)
      ensures old(Mirrored()) ==> Mirrored()
      ensures old(Announced()) ==> Announced()
      ensures OnlyCancels(old(events), events, links, id)
    {
      var reachable := CollectDownstream(id);
      ghost var before, after := nodes, DownstreamCancelled(State(), id).nodes;
      var todo := reachable;
      while todo != {}
        invariant todo <= reachable && Valid() && nodes.Keys == before.Keys
        invariant old(Mirrored()) ==> Mirrored()
        invariant Seen().active == old(Seen().active)
        invariant OnlyCancels(old(events), events, links, id)
        invariant forall n :: n in nodes ==> nodes[n] == if n in reachable - todo then after[n] else before[n]
        decreases todo
      {
        var n :| n in todo;
        todo := todo - {n};
        OneMoreCancel(old(events), events, links, id, n);
        CancelIfNotStarted(n);
      }
      assert nodes == after;
      RunningIdsCongruent(order, before, nodes);
    }

    /** Cancel a node unless it runs or is terminal. */
    method CancelIfNotStarted(id: string)
      requires Valid()
      modifies this`nodes, this`events
      ensures Valid() && nodes.Keys == old(nodes.Keys)
      ensures forall n :: n in nodes ==>
        nodes[n] == if n == id && !Terminal(old(nodes)[n].status) && old(nodes)[n].status != Running
                    then old(nodes)[n].(status := Cancelled) else old(nodes)[n]
      ensures events == old(events) || events == old(events) + [AgentStatus(id, Cancelled)]
      ensures old(Mirrored()) ==> Mirrored()
      ensures Seen().active == old(Seen().active)
    {
      if id in nodes && !Terminal(nodes[id].status) && nodes[id].status != Running {
        EmitAgentCancelled(id);
      }
    }

    /** Cancel the open nodes one after another, in declaration order. */
    method CloseInOrder() returns (cancelled: seq<string>)
      requires Valid()
      modifies this`nodes, this`events
      ensures Valid() && State() == DroppedAll(old(State()), order)
      ensures cancelled == OpenIds(order, old(nodes))
      ensures old(Mirrored()) ==> Mirrored()
      ensures Seen().active == old(Seen().active)
    {
      cancelled := [];
      ghost var g := State();
      var i := 0;
      while i < |order|
        invariant i <= |order| && Valid() && State() == DroppedAll(g, order[..i])
        invariant old(Mirrored()) ==> Mirrored()
        invariant Seen().active == old(Seen().active)
        invariant cancelled == OpenIds(order[..i], g.nodes)
      {
        NextToClose(g, order, i);
        if !Terminal(nodes[order[i]].status) {
          EmitAgentCancelled(order[i]);
          cancelled := cancelled + [order[i]];
        }
        i := i + 1;
      }
      assert order[..i] == order;
    }

    /** The end of a cancelled run; no run status follows, so the announced active nodes
        stay current only if none was running. */
    method CancelUnfinished() returns (cancelled: seq<string>)
      requires Valid()
      modifies this`nodes, this`events
      ensures Valid() && State() == AllClosed(old(State()))
      ensures cancelled == OpenIds(order, old(nodes))
      ensures old(Mirrored()) ==> Mirrored()
      ensures old(Announced()) ==> (Announced() <==> RunningIds(order, old(nodes)) == [])
    {
      cancelled := CloseInOrder();
      DroppedAllClosesAll(old(State()), order);
      NothingRuns(order, nodes);
    }
  }
}
