/** The spawn graph of agents: breadth-first descendants over stored parent/child edges. */
module SpawnGraph {
  import opened AgentGraph

  datatype SpawnEdge = SpawnEdge(parent: string, child: string, open: bool)

  predicate Admitted(e: SpawnEdge, includeClosed: bool) {
    includeClosed || e.open
  }

  /** The edges a traversal may follow. */
  function Links(edges: seq<SpawnEdge>, includeClosed: bool): seq<Link> {
    if edges == [] then []
    else
      var n := |edges| - 1;
      if Admitted(edges[n], includeClosed) then Links(edges[..n], includeClosed) + [Link(edges[n].parent, edges[n].child)]
      else Links(edges[..n], includeClosed)
  }

  /** A traversal may follow the stored edges that are open, and the closed ones too if asked to. */
  lemma {:induction false} LinkIsEdge(edges: seq<SpawnEdge>, includeClosed: bool, u: string, v: string)
    ensures HasLink(Links(edges, includeClosed), u, v) <==>
            exists i: nat :: i < |edges| && (includeClosed || edges[i].open) && edges[i].parent == u && edges[i].child == v
  {
    if edges != [] {
      var n := |edges| - 1;
      LinkIsEdge(edges[..n], includeClosed, u, v);
      if HasLink(Links(edges[..n], includeClosed), u, v) {
        var i: nat :| i < n && (includeClosed || edges[..n][i].open) && edges[..n][i].parent == u && edges[..n][i].child == v;
        assert edges[i] == edges[..n][i];
      }
      if i: nat :| i < |edges| && (includeClosed || edges[i].open) && edges[i].parent == u && edges[i].child == v {
        assert i < n ==> edges[..n][i] == edges[i];
      }
    }
  }

  /** The first `n` stored edges of one parent, by index. */
  function EdgesOf(edges: seq<SpawnEdge>, parent: string, n: nat): seq<nat>
    requires n <= |edges|
  {
    if n == 0 then []
    else if edges[n - 1].parent == parent then EdgesOf(edges, parent, n - 1) + [n - 1]
    else EdgesOf(edges, parent, n - 1)
  }

  /** Those of them a traversal may follow. */
  function AdmittedOf(edges: seq<SpawnEdge>, includeClosed: bool, indexes: seq<nat>): seq<nat> {
    if indexes == [] then []
    else
      var n := |indexes| - 1;
      if indexes[n] < |edges| && Admitted(edges[indexes[n]], includeClosed) then AdmittedOf(edges, includeClosed, indexes[..n]) + [indexes[n]]
      else AdmittedOf(edges, includeClosed, indexes[..n])
  }

  lemma {:induction false} EdgesOfMembers(edges: seq<SpawnEdge>, parent: string, n: nat)
    requires n <= |edges|
    ensures forall k: nat :: k in EdgesOf(edges, parent, n) <==> k < n && edges[k].parent == parent
    ensures forall k: nat :: multiset(EdgesOf(edges, parent, n))[k] <= 1
  {
    if n > 0 {
      EdgesOfMembers(edges, parent, n - 1);
    }
  }

  lemma {:induction false} AdmittedOfCount(edges: seq<SpawnEdge>, includeClosed: bool, indexes: seq<nat>)
    ensures forall k: nat :: multiset(AdmittedOf(edges, includeClosed, indexes))[k]
              == if k < |edges| && Admitted(edges[k], includeClosed) then multiset(indexes)[k] else 0
  {
    if indexes != [] {
      var n := |indexes| - 1;
      assert indexes == indexes[..n] + [indexes[n]];
      AdmittedOfCount(edges, includeClosed, indexes[..n]);
    }
  }

  /** What visiting one node contributes. */
  function Visit(edges: seq<SpawnEdge>, includeClosed: bool, node: string): seq<nat> {
    AdmittedOf(edges, includeClosed, EdgesOf(edges, node, |edges|))
  }

  /** The traversal's output when the nodes are visited in this order. */
  function Visits(edges: seq<SpawnEdge>, includeClosed: bool, order: seq<string>): seq<nat> {
    if order == [] then []
    else Visits(edges, includeClosed, order[..|order| - 1]) + Visit(edges, includeClosed, order[|order| - 1])
  }

  lemma VisitCount(edges: seq<SpawnEdge>, includeClosed: bool, node: string, k: nat)
    ensures multiset(Visit(edges, includeClosed, node))[k]
         == if k < |edges| && Admitted(edges[k], includeClosed) && edges[k].parent == node then 1 else 0
  {
    var own: seq<nat> := EdgesOf(edges, node, |edges|);
    EdgesOfMembers(edges, node, |edges|);
    AdmittedOfCount(edges, includeClosed, own);
    var count := multiset(own);
    assert k in own <==> k in count;
  }

  /** An edge is output as often as its parent is visited. */
  lemma {:induction false} VisitsCount(edges: seq<SpawnEdge>, includeClosed: bool, order: seq<string>, k: nat)
    ensures multiset(Visits(edges, includeClosed, order))[k]
         == if k < |edges| && Admitted(edges[k], includeClosed) then multiset(order)[edges[k].parent] else 0
  {
    if order != [] {
      var n := |order| - 1;
      VisitsCount(edges, includeClosed, order[..n], k);
      VisitCount(edges, includeClosed, order[n], k);
      assert order == order[..n] + [order[n]];
    }
  }

  // --- Distances ---

  /** A walk of exactly `d` links. */
  ghost predicate Walk(links: seq<Link>, a: string, b: string, d: nat)
    decreases d
  {
    if d == 0 then a == b else exists c :: Walk(links, a, c, d - 1) && HasLink(links, c, b)
  }

  ghost predicate IsDistance(links: seq<Link>, a: string, b: string, d: nat) {
    Walk(links, a, b, d) && forall e: nat :: e < d ==> !Walk(links, a, b, e)
  }

  /** A node found after the root: downstream of it, at its distance unless it is the root again. */
  ghost predicate Placed(links: seq<Link>, root: string, v: string, d: nat) {
    Reaches(links, root, v) && Walk(links, root, v, d) && (v != root ==> IsDistance(links, root, v, d))
  }

  /** A breadth-first order: the root, then every node once in the order found, with the
      length at which each was found, never decreasing. */
  ghost predicate Discovered(links: seq<Link>, root: string, order: seq<string>, found: seq<nat>) {
    && |order| == |found| && order != [] && order[0] == root && found[0] == 0
    && (forall i, j :: 1 <= i < j < |order| ==> order[i] != order[j])
    && (forall i, j :: 0 <= i <= j < |order| ==> found[i] <= found[j])
    && (forall j: nat :: 1 <= j < |order| ==> Placed(links, root, order[j], found[j]))
  }

  /** Everything one link away from an expanded node has been found. */
  ghost predicate Expanded(links: seq<Link>, order: seq<string>, visited: nat)
    requires visited <= |order|
  {
    forall i: nat, v :: i < visited && HasLink(links, order[i], v) ==> v in order[1..]
  }

  /** Every node within reach of the frontier's length has been found at most that late. */
  ghost predicate Layered(links: seq<Link>, root: string, order: seq<string>, found: seq<nat>, reach: nat)
    requires |order| == |found|
  {
    forall v, e: nat :: e <= reach && Walk(links, root, v, e) ==> FoundBy(order, found, v, e)
  }

  ghost predicate FoundBy(order: seq<string>, found: seq<nat>, v: string, e: nat)
    requires |order| == |found|
  {
    exists j: nat :: j < |order| && order[j] == v && found[j] <= e
  }

  /** Nothing in the queue was found more than one link later than its head. */
  ghost predicate Frontier(found: seq<nat>, k: nat)
    requires k < |found|
  {
    forall j: nat :: j < |found| ==> found[j] <= found[k] + 1
  }

  /** The state of the search while the node at position `k` is expanded. */
  ghost predicate Searching(links: seq<Link>, root: string, order: seq<string>, found: seq<nat>, k: nat) {
    && k < |order| && Discovered(links, root, order, found)
    && Frontier(found, k) && Layered(links, root, order, found, found[k])
  }

  lemma NewChildIsPlaced(links: seq<Link>, root: string, order: seq<string>, found: seq<nat>, k: nat, child: string)
    requires Searching(links, root, order, found, k)
    requires HasLink(links, order[k], child) && child !in order[1..]
    ensures Placed(links, root, child, found[k] + 1)
  {
    var d := found[k] + 1;
    assert k > 0 ==> Placed(links, root, order[k], found[k]);
    assert Walk(links, root, order[k], d - 1);
    assert Walk(links, root, child, d);
    ReachStep(links, root, order[k], child);
    NotInTail(order, child);
    if child != root {
      assert forall e: nat :: !FoundBy(order, found, child, e);
    }
  }

  lemma NotInTail(order: seq<string>, child: string)
    requires order != [] && child !in order[1..]
    ensures forall j: nat :: 1 <= j < |order| ==> order[j] != child
  {
  }

  lemma EarlierIfSmaller(found: seq<nat>, a: nat, b: nat)
    requires a < |found| && b < |found| && found[a] < found[b]
    requires forall i, j :: 0 <= i <= j < |found| ==> found[i] <= found[j]
    ensures a < b
  {
  }

  lemma DiscoveredGrows(links: seq<Link>, root: string, order: seq<string>, found: seq<nat>, child: string, d: nat)
    requires Discovered(links, root, order, found) && Placed(links, root, child, d) && child !in order[1..]
    requires forall j: nat :: j < |found| ==> found[j] <= d
    ensures Discovered(links, root, order + [child], found + [d])
  {
    NotInTail(order, child);
    var order', found' := order + [child], found + [d];
    forall j: nat | 1 <= j < |order'|
      ensures Placed(links, root, order'[j], found'[j])
    {
      assert j < |order| ==> Placed(links, root, order[j], found[j]);
    }
  }

  lemma Discover(links: seq<Link>, root: string, order: seq<string>, found: seq<nat>, k: nat, child: string)
    requires Searching(links, root, order, found, k)
    requires HasLink(links, order[k], child) && child !in order[1..]
    ensures Searching(links, root, order + [child], found + [found[k] + 1], k)
  {
    NewChildIsPlaced(links, root, order, found, k, child);
    LayeredGrows(links, root, order, found, found[k], child, found[k] + 1);
    DiscoveredGrows(links, root, order, found, child, found[k] + 1);
    assert (found + [found[k] + 1])[k] == found[k];
  }

  lemma LayeredGrows(links: seq<Link>, root: string, order: seq<string>, found: seq<nat>, reach: nat, child: string, d: nat)
    requires |order| == |found| && Layered(links, root, order, found, reach)
    ensures Layered(links, root, order + [child], found + [d], reach)
  {
    var order', found' := order + [child], found + [d];
    forall v, e: nat | e <= reach && Walk(links, root, v, e)
      ensures FoundBy(order', found', v, e)
    {
      var j: nat :| j < |order| && order[j] == v && found[j] <= e;
      assert order'[j] == v && found'[j] <= e;
    }
  }

  lemma LayeredFinds(links: seq<Link>, root: string, order: seq<string>, found: seq<nat>, reach: nat, v: string)
    returns (j: nat)
    requires |order| == |found| && Layered(links, root, order, found, reach) && Walk(links, root, v, reach)
    ensures j < |order| && order[j] == v && found[j] <= reach
  {
    assert FoundBy(order, found, v, reach);
    j :| j < |order| && order[j] == v && found[j] <= reach;
  }

  lemma ExpandedFinds(links: seq<Link>, order: seq<string>, visited: nat, i: nat, v: string) returns (j: nat)
    requires visited <= |order| && Expanded(links, order, visited) && i < visited && HasLink(links, order[i], v)
    ensures j < |order| && order[j] == v
  {
    assert v in order[1..];
    var m: nat :| m < |order[1..]| && order[1..][m] == v;
    j := m + 1;
  }

  /** A node one link past the current layer has been found no later than that. */
  lemma NextLayerFound(links: seq<Link>, root: string, order: seq<string>, found: seq<nat>, k: nat, v: string)
    returns (j: nat)
    requires Searching(links, root, order, found, k) && Expanded(links, order, k + 1)
    requires k + 1 < |order| && found[k + 1] == found[k] + 1
    requires Walk(links, root, v, found[k + 1])
    ensures j < |order| && order[j] == v && found[j] <= found[k + 1]
  {
    var c :| Walk(links, root, c, found[k]) && HasLink(links, c, v);
    var i := LayeredFinds(links, root, order, found, found[k], c);
    EarlierIfSmaller(found, i, k + 1);
    j := ExpandedFinds(links, order, k + 1, i, v);
  }

  /** Once the node at `k` is expanded, the layers reach as far as the next node in the queue. */
  lemma NextLayer(links: seq<Link>, root: string, order: seq<string>, found: seq<nat>, k: nat)
    requires Searching(links, root, order, found, k) && Expanded(links, order, k + 1) && k + 1 < |order|
    ensures Searching(links, root, order, found, k + 1)
  {
    assert found[k] <= found[k + 1] <= found[k] + 1;
    forall v, e: nat | e <= found[k + 1] && Walk(links, root, v, e)
      ensures FoundBy(order, found, v, e)
    {
      if e > found[k] {
        var j := NextLayerFound(links, root, order, found, k, v);
      }
    }
  }

  lemma StartIsLayered(links: seq<Link>, root: string)
    ensures Searching(links, root, [root], [0], 0)
  {
  }

  method GroupByParent(edges: seq<SpawnEdge>) returns (byParent: map<string, seq<nat>>)
    ensures forall p :: (if p in byParent then byParent[p] else []) == EdgesOf(edges, p, |edges|)
  {
    byParent := map[];
    for i := 0 to |edges|
      invariant forall p :: (if p in byParent then byParent[p] else []) == EdgesOf(edges, p, i)
    {
      var parent := edges[i].parent;
      byParent := byParent[parent := (if parent in byParent then byParent[parent] else []) + [i]];
    }
  }

  /** The bookkeeping of the traversal against the order found so far. */
  ghost predicate Tracks(order: seq<string>, k: nat, seen: set<string>, queue: seq<string>) {
    k < |order| && queue == order[k + 1..] && forall v :: v in seen <==> v in order[1..]
  }

  /** The order after the listed children of the current node are looked at, one by one. */
  function Grow(order: seq<string>, children: seq<string>): (longer: seq<string>)
    ensures order <= longer
  {
    if children == [] then order
    else
      var n := |children| - 1;
      var o := Grow(order, children[..n]);
      if o != [] && children[n] in o[1..] then o else o + [children[n]]
  }

  function ChildAt(edges: seq<SpawnEdge>, i: nat): string {
    if i < |edges| then edges[i].child else ""
  }

  function ChildrenAt(edges: seq<SpawnEdge>, indexes: seq<nat>): seq<string> {
    seq(|indexes|, n requires 0 <= n < |indexes| => ChildAt(edges, indexes[n]))
  }

  ghost function Children(edges: seq<SpawnEdge>): set<string> {
    set i | 0 <= i < |edges| :: edges[i].child
  }

  /** The inner loop: output the admitted edges of the current node and queue their unseen children. */
  method ExpandNode(edges: seq<SpawnEdge>, includeClosed: bool, own: seq<nat>, seen0: set<string>, queue0: seq<string>,
                    ghost k: nat, ghost order0: seq<string>)
    returns (more: seq<nat>, seen: set<string>, queue: seq<string>)
    requires forall n: nat :: n < |own| ==> own[n] < |edges|
    requires Tracks(order0, k, seen0, queue0) && seen0 <= Children(edges)
    ensures more == AdmittedOf(edges, includeClosed, own)
    ensures Tracks(Grow(order0, ChildrenAt(edges, more)), k, seen, queue)
    ensures seen0 <= seen <= Children(edges) && (seen == seen0 ==> queue == queue0)
  {
    more, seen, queue := [], seen0, queue0;
    for n := 0 to |own|
      invariant more == AdmittedOf(edges, includeClosed, own[..n])
      invariant Tracks(Grow(order0, ChildrenAt(edges, more)), k, seen, queue)
      invariant seen0 <= seen <= Children(edges) && (seen == seen0 ==> queue == queue0)
    {
      var i := own[n];
      assert own[..n + 1][..n] == own[..n];
      if Admitted(edges[i], includeClosed) {
        GrowOne(edges, order0, more, i);
        seen, queue := SeeChild(edges[i].child, seen, queue, k, Grow(order0, ChildrenAt(edges, more)));
        more := more + [i];
      }
    }
    assert own[..|own|] == own;
  }

  lemma GrowOne(edges: seq<SpawnEdge>, order: seq<string>, more: seq<nat>, i: nat)
    requires i < |edges| && order != []
    ensures var o := Grow(order, ChildrenAt(edges, more));
            Grow(order, ChildrenAt(edges, more + [i])) == if edges[i].child in o[1..] then o else o + [edges[i].child]
  {
    var longer := ChildrenAt(edges, more + [i]);
    assert longer[..|more|] == ChildrenAt(edges, more);
  }

  method SeeChild(child: string, seen0: set<string>, queue0: seq<string>, ghost k: nat, ghost order: seq<string>)
    returns (seen: set<string>, queue: seq<string>)
    requires Tracks(order, k, seen0, queue0)
    ensures Tracks(if child in order[1..] then order else order + [child], k, seen, queue)
    ensures seen == seen0 + {child} && (seen == seen0 ==> queue == queue0)
  {
    seen, queue := seen0, queue0;
    if child !in seen {
      assert (order + [child])[1..] == order[1..] + [child];
      assert (order + [child])[k + 1..] == order[k + 1..] + [child];
      seen := seen + {child};
      queue := queue + [child];
    }
  }

  // --- One turn of the traversal, on the order alone ---

  /** The children found when the node at position `k` is expanded. */
  function Found(edges: seq<SpawnEdge>, includeClosed: bool, node: string): seq<string> {
    ChildrenAt(edges, Visit(edges, includeClosed, node))
  }

  lemma VisitInRange(edges: seq<SpawnEdge>, includeClosed: bool, node: string)
    ensures forall n: nat :: n < |Visit(edges, includeClosed, node)| ==> Visit(edges, includeClosed, node)[n] < |edges|
    ensures forall n: nat :: n < |EdgesOf(edges, node, |edges|)| ==> EdgesOf(edges, node, |edges|)[n] < |edges|
  {
    var visit := Visit(edges, includeClosed, node);
    forall n: nat | n < |visit|
      ensures visit[n] < |edges|
    {
      VisitedParent(edges, includeClosed, node, n);
    }
    var own := EdgesOf(edges, node, |edges|);
    EdgesOfMembers(edges, node, |edges|);
    assert forall n: nat :: n < |own| ==> own[n] in own;
  }

  lemma FoundAreLinked(edges: seq<SpawnEdge>, includeClosed: bool, node: string, v: string)
    ensures v in Found(edges, includeClosed, node) <==> HasLink(Links(edges, includeClosed), node, v)
  {
    LinkIsEdge(edges, includeClosed, node, v);
    var visit: seq<nat> := Visit(edges, includeClosed, node);
    VisitInRange(edges, includeClosed, node);
    if v in Found(edges, includeClosed, node) {
      var n: nat :| n < |visit| && edges[visit[n]].child == v;
      VisitedParent(edges, includeClosed, node, n);
    }
    if HasLink(Links(edges, includeClosed), node, v) {
      var i: nat :| i < |edges| && Admitted(edges[i], includeClosed) && edges[i].parent == node && edges[i].child == v;
      VisitCount(edges, includeClosed, node, i);
      var count := multiset(visit);
      assert i in count && i in visit;
      var n: nat :| n < |visit| && visit[n] == i;
      assert Found(edges, includeClosed, node)[n] == v;
    }
  }

  lemma {:induction false} GrowHolds(order: seq<string>, children: seq<string>)
    requires order != []
    ensures forall v :: v in children ==> v in Grow(order, children)[1..]
  {
    if children != [] {
      var n := |children| - 1;
      var o := Grow(order, children[..n]);
      GrowHolds(order, children[..n]);
      assert children == children[..n] + [children[n]];
      assert (o + [children[n]])[1..] == o[1..] + [children[n]];
    }
  }

  lemma {:induction false} GrowKeepsSearching(links: seq<Link>, root: string, order: seq<string>, found: seq<nat>, k: nat, children: seq<string>)
    returns (found': seq<nat>)
    requires Searching(links, root, order, found, k)
    requires forall n: nat :: n < |children| ==> HasLink(links, order[k], children[n])
    ensures Searching(links, root, Grow(order, children), found', k)
  {
    if children == [] {
      found' := found;
    } else {
      var n := |children| - 1;
      found' := GrowKeepsSearching(links, root, order, found, k, children[..n]);
      var o := Grow(order, children[..n]);
      if children[n] !in o[1..] {
        assert o[k] == order[k];
        Discover(links, root, o, found', k, children[n]);
        found' := found' + [found'[k] + 1];
      }
    }
  }

  /** The traversal with the first `visited` nodes of the order expanded. */
  ghost predicate Traversing(edges: seq<SpawnEdge>, includeClosed: bool, root: string, order: seq<string>, found: seq<nat>, visited: nat) {
    && visited <= |order| && Discovered(Links(edges, includeClosed), root, order, found)
    && Expanded(Links(edges, includeClosed), order, visited)
    && (visited < |order| ==> Searching(Links(edges, includeClosed), root, order, found, visited))
  }

  /** The children of the node at `visited` complete its part of the expansion. */
  lemma ExpandedGrows(links: seq<Link>, order: seq<string>, longer: seq<string>, visited: nat, children: seq<string>)
    requires visited < |order| && order <= longer && Expanded(links, order, visited)
    requires forall v :: HasLink(links, order[visited], v) ==> v in children
    requires forall v :: v in children ==> v in longer[1..]
    ensures Expanded(links, longer, visited + 1)
  {
    TailGrows(order, longer);
    forall i: nat, v | i < visited + 1 && HasLink(links, longer[i], v)
      ensures v in longer[1..]
    {
      assert longer[i] == order[i];
    }
  }

  lemma TailGrows(order: seq<string>, longer: seq<string>)
    requires order != [] && order <= longer
    ensures forall v :: v in order[1..] ==> v in longer[1..]
  {
    assert order[1..] <= longer[1..];
  }

  /** Expanding a node in the search: its children join the order, and the search moves on. */
  lemma ExpandKeepsSearching(links: seq<Link>, root: string, order: seq<string>, found: seq<nat>, visited: nat,
                             children: seq<string>) returns (found': seq<nat>)
    requires Searching(links, root, order, found, visited) && Expanded(links, order, visited)
    requires forall v :: v in children <==> HasLink(links, order[visited], v)
    ensures Discovered(links, root, Grow(order, children), found')
    ensures visited + 1 <= |Grow(order, children)| && Expanded(links, Grow(order, children), visited + 1)
    ensures visited + 1 < |Grow(order, children)| ==> Searching(links, root, Grow(order, children), found', visited + 1)
  {
    assert forall n: nat :: n < |children| ==> children[n] in children;
    found' := GrowKeepsSearching(links, root, order, found, visited, children);
    GrowHolds(order, children);
    ExpandedGrows(links, order, Grow(order, children), visited, children);
    if visited + 1 < |Grow(order, children)| {
      NextLayer(links, root, Grow(order, children), found', visited);
    }
  }

  lemma ExpandKeepsTraversing(edges: seq<SpawnEdge>, includeClosed: bool, root: string, order: seq<string>, found: seq<nat>, visited: nat)
    returns (found': seq<nat>)
    requires visited < |order| && Traversing(edges, includeClosed, root, order, found, visited)
    ensures Traversing(edges, includeClosed, root, Grow(order, Found(edges, includeClosed, order[visited])), found', visited + 1)
  {
    forall v
      ensures v in Found(edges, includeClosed, order[visited]) <==> HasLink(Links(edges, includeClosed), order[visited], v)
    {
      FoundAreLinked(edges, includeClosed, order[visited], v);
    }
    found' := ExpandKeepsSearching(Links(edges, includeClosed), root, order, found, visited,
                                   Found(edges, includeClosed, order[visited]));
  }

  /** The variables of the traversal against the order found so far. */
  ghost predicate TraversalState(edges: seq<SpawnEdge>, includeClosed: bool, order: seq<string>, visited: nat,
                                 out: seq<nat>, seen: set<string>, queue: seq<string>) {
    && visited <= |order| && order != [] && queue == order[visited..]
    && out == Visits(edges, includeClosed, order[..visited])
    && seen <= Children(edges) && forall v :: v in seen <==> v in order[1..]
  }

  /** One turn of the loop: take the head of the queue and expand it. */
  method Turn(edges: seq<SpawnEdge>, includeClosed: bool, byParent: map<string, seq<nat>>,
              out0: seq<nat>, seen0: set<string>, queue0: seq<string>, ghost order: seq<string>, ghost visited: nat)
    returns (out: seq<nat>, seen: set<string>, queue: seq<string>)
    requires forall p :: (if p in byParent then byParent[p] else []) == EdgesOf(edges, p, |edges|)
    requires TraversalState(edges, includeClosed, order, visited, out0, seen0, queue0) && queue0 != []
    ensures TraversalState(edges, includeClosed, Grow(order, Found(edges, includeClosed, order[visited])), visited + 1, out, seen, queue)
    ensures (seen == seen0 && |queue| < |queue0|) || Children(edges) - seen < Children(edges) - seen0
  {
    var current := queue0[0];
    assert current == order[visited] && queue0[1..] == order[visited + 1..];
    var own := if current in byParent then byParent[current] else [];
    VisitInRange(edges, includeClosed, current);
    var more;
    more, seen, queue := ExpandNode(edges, includeClosed, own, seen0, queue0[1..], visited, order);
    out := out0 + more;
    ghost var longer := Grow(order, Found(edges, includeClosed, current));
    assert longer[..visited + 1][..visited] == order[..visited] && longer[visited] == current;
    SeenGrows(Children(edges), seen0, seen);
  }

  lemma SeenGrows(all: set<string>, before: set<string>, after: set<string>)
    requires before <= after <= all
    ensures before == after || all - after < all - before
  {
  }

  lemma AllFound(links: seq<Link>, root: string, order: seq<string>, found: seq<nat>)
    requires Discovered(links, root, order, found) && Expanded(links, order, |order|)
    ensures forall v :: v in order[1..] <==> Reaches(links, root, v)
  {
    var s := set v | v in order[1..];
    forall u, v | (u == root || u in s) && HasLink(links, u, v)
      ensures v in s
    {
      var i: nat :| i < |order| && order[i] == u;
    }
    forall v | Reaches(links, root, v)
      ensures v in order[1..]
    {
      ClosedHoldsDownstream(links, root, s, v);
    }
    forall v | v in order[1..]
      ensures Reaches(links, root, v)
    {
      var j: nat :| j < |order[1..]| && order[1..][j] == v;
      assert Placed(links, root, order[j + 1], found[j + 1]);
    }
  }

  // --- What the output is ---

  /** How often an edge is listed: once if its parent is the root, once more if its parent
      is downstream of the root, and never if it may not be followed. */
  ghost predicate ListsExactly(edges: seq<SpawnEdge>, includeClosed: bool, root: string, out: seq<nat>) {
    forall k: nat :: multiset(out)[k] == Listings(edges, includeClosed, root, k)
  }

  ghost function Listings(edges: seq<SpawnEdge>, includeClosed: bool, root: string, k: nat): nat {
    if k >= |edges| || !(includeClosed || edges[k].open) then 0
    else
      (if edges[k].parent == root then 1 else 0)
      + (if Reaches(Links(edges, includeClosed), root, edges[k].parent) then 1 else 0)
  }

  /** The parents of listed edges come in non-decreasing distance from the root. */
  ghost predicate ListsByDistance(edges: seq<SpawnEdge>, includeClosed: bool, root: string, out: seq<nat>) {
    forall a: nat, b: nat, da: nat, db: nat :: a <= b < |out|
      && out[a] < |edges| && IsDistance(Links(edges, includeClosed), root, edges[out[a]].parent, da)
      && out[b] < |edges| && IsDistance(Links(edges, includeClosed), root, edges[out[b]].parent, db)
      ==> da <= db
  }

  lemma {:induction false} DistinctCount(s: seq<string>, x: string)
    requires forall i, j :: 0 <= i < j < |s| ==> s[i] != s[j]
    ensures multiset(s)[x] == if x in s then 1 else 0
  {
    if s != [] {
      var n := |s| - 1;
      DistinctCount(s[..n], x);
      assert s == s[..n] + [s[n]];
    }
  }

  lemma OrderCount(order: seq<string>, x: string)
    requires order != [] && forall i, j :: 1 <= i < j < |order| ==> order[i] != order[j]
    ensures multiset(order)[x] == (if x == order[0] then 1 else 0) + (if x in order[1..] then 1 else 0)
  {
    assert order == [order[0]] + order[1..];
    DistinctCount(order[1..], x);
  }

  /** Visiting the root and then every node downstream of it once lists each edge as often
      as it should be. */
  lemma OutputExactly(edges: seq<SpawnEdge>, includeClosed: bool, root: string, order: seq<string>, found: seq<nat>)
    requires Discovered(Links(edges, includeClosed), root, order, found)
    requires forall v :: v in order[1..] <==> Reaches(Links(edges, includeClosed), root, v)
    ensures ListsExactly(edges, includeClosed, root, Visits(edges, includeClosed, order))
  {
    forall k: nat
      ensures multiset(Visits(edges, includeClosed, order))[k] == Listings(edges, includeClosed, root, k)
    {
      VisitsCount(edges, includeClosed, order, k);
      if k < |edges| {
        OrderCount(order, edges[k].parent);
      }
    }
  }

  /** Positions in the visiting order of the parents of two output edges, in the same order. */
  lemma {:induction false} VisitsInOrder(edges: seq<SpawnEdge>, includeClosed: bool, order: seq<string>, a: nat, b: nat)
    returns (i: nat, j: nat)
    requires a <= b < |Visits(edges, includeClosed, order)|
    ensures Visits(edges, includeClosed, order)[a] < |edges| && Visits(edges, includeClosed, order)[b] < |edges|
    ensures i <= j < |order|
    ensures edges[Visits(edges, includeClosed, order)[a]].parent == order[i]
    ensures edges[Visits(edges, includeClosed, order)[b]].parent == order[j]
  {
    var n := |order| - 1;
    var earlier, last := Visits(edges, includeClosed, order[..n]), Visit(edges, includeClosed, order[n]);
    if b < |earlier| {
      i, j := VisitsInOrder(edges, includeClosed, order[..n], a, b);
    } else {
      j := n;
      VisitedParent(edges, includeClosed, order[n], b - |earlier|);
      if a < |earlier| {
        var same;
        i, same := VisitsInOrder(edges, includeClosed, order[..n], a, a);
      } else {
        i := n;
        VisitedParent(edges, includeClosed, order[n], a - |earlier|);
      }
    }
  }

  lemma VisitedParent(edges: seq<SpawnEdge>, includeClosed: bool, node: string, m: nat)
    requires m < |Visit(edges, includeClosed, node)|
    ensures var i := Visit(edges, includeClosed, node)[m];
            i < |edges| && edges[i].parent == node && Admitted(edges[i], includeClosed)
  {
    var visit: seq<nat> := Visit(edges, includeClosed, node);
    VisitCount(edges, includeClosed, node, visit[m]);
    var count := multiset(visit);
    assert visit[m] in visit && visit[m] in count;
  }

  /** When the root is on no cycle, visiting nodes as they are found lists edges by distance. */
  lemma OutputByDistance(edges: seq<SpawnEdge>, includeClosed: bool, root: string, order: seq<string>, found: seq<nat>)
    requires Discovered(Links(edges, includeClosed), root, order, found)
    requires !Reaches(Links(edges, includeClosed), root, root)
    ensures ListsByDistance(edges, includeClosed, root, Visits(edges, includeClosed, order))
  {
    var links, out := Links(edges, includeClosed), Visits(edges, includeClosed, order);
    forall a: nat, b: nat, da: nat, db: nat | a <= b < |out|
      && out[a] < |edges| && IsDistance(links, root, edges[out[a]].parent, da)
      && out[b] < |edges| && IsDistance(links, root, edges[out[b]].parent, db)
      ensures da <= db
    {
      var i, j := VisitsInOrder(edges, includeClosed, order, a, b);
      FoundIsDistance(links, root, order, found, i, da);
      FoundIsDistance(links, root, order, found, j, db);
    }
  }

  // --- The order among the edges of one parent ---

  ghost predicate Increasing(indexes: seq<nat>) {
    forall a, b :: 0 <= a < b < |indexes| ==> indexes[a] < indexes[b]
  }

  lemma {:induction false} EdgesOfIncrease(edges: seq<SpawnEdge>, parent: string, n: nat)
    requires n <= |edges|
    ensures var own := EdgesOf(edges, parent, n);
            Increasing(own) && forall a :: 0 <= a < |own| ==> own[a] < n
  {
    if n > 0 {
      EdgesOfIncrease(edges, parent, n - 1);
    }
  }

  lemma {:induction false} AdmittedOfIncrease(edges: seq<SpawnEdge>, includeClosed: bool, indexes: seq<nat>, bound: nat)
    requires Increasing(indexes) && forall a :: 0 <= a < |indexes| ==> indexes[a] < bound
    ensures var kept := AdmittedOf(edges, includeClosed, indexes);
            Increasing(kept) && forall a :: 0 <= a < |kept| ==> kept[a] < bound
  {
    if indexes != [] {
      var n := |indexes| - 1;
      AdmittedOfIncrease(edges, includeClosed, indexes[..n], indexes[n]);
    }
  }

  /** The edges of one parent are listed in the order in which they are stored. */
  ghost predicate ListsInStoredOrder(edges: seq<SpawnEdge>, out: seq<nat>) {
    forall a, b :: 0 <= a < b < |out| && out[a] < |edges| && out[b] < |edges| && edges[out[a]].parent == edges[out[b]].parent
      ==> out[a] < out[b]
  }

  /** A visit has its edges in stored order, and they all have the visited parent. */
  lemma VisitInStoredOrder(edges: seq<SpawnEdge>, includeClosed: bool, node: string)
    ensures var visit := Visit(edges, includeClosed, node);
            Increasing(visit) && forall m :: 0 <= m < |visit| ==> visit[m] < |edges| && edges[visit[m]].parent == node
  {
    EdgesOfIncrease(edges, node, |edges|);
    AdmittedOfIncrease(edges, includeClosed, EdgesOf(edges, node, |edges|), |edges|);
    forall m: nat | m < |Visit(edges, includeClosed, node)|
      ensures edges[Visit(edges, includeClosed, node)[m]].parent == node
    {
      VisitedParent(edges, includeClosed, node, m);
    }
  }

  lemma StoredOrderGrows(edges: seq<SpawnEdge>, earlier: seq<nat>, visit: seq<nat>, node: string)
    requires ListsInStoredOrder(edges, earlier) && Increasing(visit)
    requires forall m :: 0 <= m < |earlier| ==> earlier[m] < |edges| && edges[earlier[m]].parent != node
    requires forall m :: 0 <= m < |visit| ==> visit[m] < |edges| && edges[visit[m]].parent == node
    ensures ListsInStoredOrder(edges, earlier + visit)
  {
    var out := earlier + visit;
    forall a, b | 0 <= a < b < |out| && edges[out[a]].parent == edges[out[b]].parent
      ensures out[a] < out[b]
    {
      assert a < |earlier| ==> out[a] == earlier[a];
      assert a >= |earlier| ==> out[a] == visit[a - |earlier|];
      assert b < |earlier| ==> out[b] == earlier[b];
      assert b >= |earlier| ==> out[b] == visit[b - |earlier|];
    }
  }

  lemma {:induction false} DistinctVisitsInStoredOrder(edges: seq<SpawnEdge>, includeClosed: bool, order: seq<string>)
    requires forall i, j :: 0 <= i < j < |order| ==> order[i] != order[j]
    ensures ListsInStoredOrder(edges, Visits(edges, includeClosed, order))
    ensures forall m :: 0 <= m < |Visits(edges, includeClosed, order)| ==>
              && Visits(edges, includeClosed, order)[m] < |edges|
              && edges[Visits(edges, includeClosed, order)[m]].parent in order
  {
    if order != [] {
      var n := |order| - 1;
      DistinctVisitsInStoredOrder(edges, includeClosed, order[..n]);
      VisitInStoredOrder(edges, includeClosed, order[n]);
      assert order == order[..n] + [order[n]];
      StoredOrderGrows(edges, Visits(edges, includeClosed, order[..n]), Visit(edges, includeClosed, order[n]), order[n]);
    }
  }

  /** When the root is on no cycle no node is visited twice. */
  lemma OutputInStoredOrder(edges: seq<SpawnEdge>, includeClosed: bool, root: string, order: seq<string>, found: seq<nat>)
    requires Discovered(Links(edges, includeClosed), root, order, found)
    requires !Reaches(Links(edges, includeClosed), root, root)
    ensures ListsInStoredOrder(edges, Visits(edges, includeClosed, order))
  {
    forall i, j | 0 <= i < j < |order|
      ensures order[i] != order[j]
    {
      assert Placed(Links(edges, includeClosed), root, order[j], found[j]);
    }
    DistinctVisitsInStoredOrder(edges, includeClosed, order);
  }

  lemma DistanceUnique(links: seq<Link>, a: string, b: string, d: nat, e: nat)
    requires IsDistance(links, a, b, d) && IsDistance(links, a, b, e)
    ensures d == e
  {
  }

  lemma FoundIsDistance(links: seq<Link>, root: string, order: seq<string>, found: seq<nat>, i: nat, d: nat)
    requires Discovered(links, root, order, found) && !Reaches(links, root, root)
    requires i < |order| && IsDistance(links, root, order[i], d)
    ensures found[i] == d
  {
    if i == 0 {
      assert Walk(links, root, root, 0);
    } else {
      assert Placed(links, root, order[i], found[i]);
      DistanceUnique(links, root, order[i], found[i], d);
    }
  }

  lemma TraversalEnds(edges: seq<SpawnEdge>, includeClosed: bool, root: string, order: seq<string>, found: seq<nat>,
                      visited: nat, out: seq<nat>, seen: set<string>)
    requires Traversing(edges, includeClosed, root, order, found, visited)
    requires TraversalState(edges, includeClosed, order, visited, out, seen, [])
    ensures ListsExactly(edges, includeClosed, root, out)
    ensures !Reaches(Links(edges, includeClosed), root, root) ==>
              ListsByDistance(edges, includeClosed, root, out) && ListsInStoredOrder(edges, out)
  {
    assert visited == |order| && order[..visited] == order;
    AllFound(Links(edges, includeClosed), root, order, found);
    OutputExactly(edges, includeClosed, root, order, found);
    if !Reaches(Links(edges, includeClosed), root, root) {
      OutputByDistance(edges, includeClosed, root, order, found);
      OutputInStoredOrder(edges, includeClosed, root, order, found);
    }
  }

  method Descendants(edges: seq<SpawnEdge>, root: string, includeClosed: bool) returns (out: seq<nat>)
    ensures ListsExactly(edges, includeClosed, root, out)
    ensures !Reaches(Links(edges, includeClosed), root, root) ==>
              ListsByDistance(edges, includeClosed, root, out) && ListsInStoredOrder(edges, out)
  {
    var byParent := GroupByParent(edges);
    var seen, queue := {}, [root];
    out := [];
    ghost var order, found, visited := [root], [0], 0;
    StartIsLayered(Links(edges, includeClosed), root);
    while queue != []
      invariant Traversing(edges, includeClosed, root, order, found, visited)
      invariant TraversalState(edges, includeClosed, order, visited, out, seen, queue)
      decreases Children(edges) - seen, |queue|
    {
      out, seen, queue := Turn(edges, includeClosed, byParent, out, seen, queue, order, visited);
      found := ExpandKeepsTraversing(edges, includeClosed, root, order, found, visited);
      order := Grow(order, Found(edges, includeClosed, order[visited]));
      visited := visited + 1;
    }
    TraversalEnds(edges, includeClosed, root, order, found, visited, out, seen);
  }
}
