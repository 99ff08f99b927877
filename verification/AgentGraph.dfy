/** The multi-agent execution graph: static topology plus live node and edge statuses. */
module AgentGraph {
  import opened Results

  datatype NodeStatus = Pending | Queued | Running | Waiting | Completed | Failed | Cancelled

  datatype EdgeStatus = EdgePending | EdgeActive | EdgeCompleted | EdgeFailed

  datatype Link = Link(source: string, target: string)

  datatype Retry = Retry(attempt: nat, error: string)

  datatype Node = Node(status: NodeStatus, error: Option<string>, retrying: Option<Retry>)

  /** `links[i]` is the edge whose live status is `edges[i]`. */
  datatype Graph = Graph(links: seq<Link>, edges: seq<EdgeStatus>, nodes: map<string, Node>) {
    predicate WellFormed() {
      |edges| == |links|
    }
  }

  predicate Terminal(status: NodeStatus) {
    status in {Completed, Failed, Cancelled}
  }

  ghost predicate HasLink(links: seq<Link>, u: string, v: string) {
    Link(u, v) in links
  }

  /** `p` walks along edges, from its first node to its last. */
  ghost predicate IsPath(links: seq<Link>, p: seq<string>) {
    forall i: nat :: i < |p| - 1 ==> HasLink(links, p[i], p[i + 1])
  }

  ghost predicate Connects(links: seq<Link>, p: seq<string>, a: string, b: string) {
    |p| >= 2 && p[0] == a && p[|p| - 1] == b && IsPath(links, p)
  }

  /** `b` is downstream of `a`: at least one edge away. */
  ghost predicate Reaches(links: seq<Link>, a: string, b: string) {
    exists p: seq<string> :: Connects(links, p, a, b)
  }

  lemma ReachStep(links: seq<Link>, a: string, b: string, c: string)
    requires (a == b || Reaches(links, a, b)) && HasLink(links, b, c)
    ensures Reaches(links, a, c)
  {
    if a == b {
      assert Connects(links, [a, c], a, c);
    } else {
      var p: seq<string> :| Connects(links, p, a, b);
      var q := p + [c];
      forall i: nat | i < |q| - 1
        ensures HasLink(links, q[i], q[i + 1])
      {
        if i < |p| - 1 {
          assert HasLink(links, p[i], p[i + 1]);
        }
      }
      assert Connects(links, q, a, c);
    }
  }

  /** A set that holds every direct successor of `a` and of its own members holds all of downstream. */
  ghost predicate ClosedFrom(links: seq<Link>, a: string, s: set<string>) {
    forall u, v :: (u == a || u in s) && HasLink(links, u, v) ==> v in s
  }

  lemma {:induction false} ClosedHoldsPath(links: seq<Link>, a: string, s: set<string>, p: seq<string>, i: nat)
    requires ClosedFrom(links, a, s) && IsPath(links, p) && 0 < i < |p| && p[0] == a
    ensures p[i] in s
  {
    if i > 1 {
      ClosedHoldsPath(links, a, s, p, i - 1);
    }
    assert HasLink(links, p[i - 1], p[i - 1 + 1]);
  }

  lemma ClosedHoldsDownstream(links: seq<Link>, a: string, s: set<string>, b: string)
    requires ClosedFrom(links, a, s) && Reaches(links, a, b)
    ensures b in s
  {
    var p: seq<string> :| Connects(links, p, a, b);
    ClosedHoldsPath(links, a, s, p, |p| - 1);
  }

  /** The ids of running nodes, in declaration order. */
  function RunningIds(order: seq<string>, nodes: map<string, Node>): seq<string> {
    if order == [] then []
    else
      var n := |order| - 1;
      RunningIds(order[..n], nodes)
      + (if order[n] in nodes && nodes[order[n]].status == Running then [order[n]] else [])
  }

  /** The ids of nodes that have not reached a terminal status, in declaration order. */
  function OpenIds(order: seq<string>, nodes: map<string, Node>): seq<string> {
    if order == [] then []
    else
      var n := |order| - 1;
      OpenIds(order[..n], nodes)
      + (if order[n] in nodes && !Terminal(nodes[order[n]].status) then [order[n]] else [])
  }
}
