/**
 Breadth-first search over any graph: exactly the reachable nodes, once each,
 nearest first.  The graph is a function from a node to its successors.
 */
module Search {
  import opened Base

  datatype Dep = Dep(name: string, tag: string)

  datatype Label = Direct | Transitive

  datatype Resolved = Resolved(dep: Dep, kind: Label)

  datatype LookupError = TagNotFound | DanglingDependency

  type Graph = Dep -> iset<Dep>

  /** The node is reached from the start along n edges. */
  ghost predicate Walk(g: Graph, start: Dep, n: nat, d: Dep) {
    if n == 0 then d == start else exists u :: Walk(g, start, n - 1, u) && d in g(u)
  }

  predicate Distinct(deps: seq<Dep>) {
    forall i, j :: 0 <= i < j < |deps| ==> deps[i] != deps[j]
  }

  /** A lookup returns the successors, once each and in any order; a node whose lookup fails has none. */
  ghost predicate IsLookedUp(g: Graph, d: Dep, r: Result<seq<Dep>, LookupError>) {
    match r
    case Ok(deps) => Distinct(deps) && forall v :: v in deps <==> v in g(d)
    case Err(_) => forall v :: v !in g(d)
  }

  ghost predicate Has(nodes: seq<Dep>, depth: seq<nat>, d: Dep, limit: nat)
    requires |depth| == |nodes|
  {
    exists j :: 0 <= j < |nodes| && nodes[j] == d && depth[j] <= limit
  }

  predicate Sorted(depth: seq<nat>) {
    forall i, j :: 0 <= i < j < |depth| ==> depth[i] <= depth[j]
  }

  /** All edges out of a node have been followed: each leads to the root or to a listed node within the limit. */
  ghost predicate Followed(g: Graph, root: Dep, nodes: seq<Dep>, depth: seq<nat>, u: Dep, limit: nat)
    requires |depth| == |nodes|
  {
    forall v :: v in g(u) ==> v == root || Has(nodes, depth, v, limit)
  }

  /** The state of the search: the nodes listed so far with their distances, the first h of them expanded. */
  ghost predicate Searching(g: Graph, start: Dep, root: Dep, nodes: seq<Dep>, depth: seq<nat>, h: nat) {
    && |depth| == |nodes| && h <= |nodes|
    && Distinct(nodes) && Sorted(depth)
    && (forall i :: 0 <= i < |nodes| ==> depth[i] >= 1 && Walk(g, start, depth[i], nodes[i]))
    && (h < |nodes| ==> forall i :: 0 <= i < |nodes| ==> depth[i] <= depth[h] + 1)
    && (forall v :: v in g(start) ==> Has(nodes, depth, v, 1))
    && (root in nodes ==> root in g(start))
    && (forall i :: 0 <= i < h ==> Followed(g, root, nodes, depth, nodes[i], depth[i] + 1))
  }

  lemma HasMonotone(nodes: seq<Dep>, depth: seq<nat>, d: Dep, limit: nat, v: Dep, n: nat)
    requires |depth| == |nodes| && Has(nodes, depth, d, limit)
    ensures Has(nodes + [v], depth + [n], d, limit)
  {
    var j :| 0 <= j < |nodes| && nodes[j] == d && depth[j] <= limit;
    assert (nodes + [v])[j] == d && (depth + [n])[j] == depth[j];
  }

  /** Listing one more successor of the node being expanded. */
  lemma ListOneMore(g: Graph, start: Dep, root: Dep, nodes: seq<Dep>, depth: seq<nat>, h: nat, v: Dep)
    requires Searching(g, start, root, nodes, depth, h) && h < |nodes|
    requires v in g(nodes[h]) && v != root && v !in nodes
    ensures Searching(g, start, root, nodes + [v], depth + [depth[h] + 1], h)
    ensures Has(nodes + [v], depth + [depth[h] + 1], v, depth[h] + 1)
  {
    var nodes', depth' := nodes + [v], depth + [depth[h] + 1];
    assert Walk(g, start, depth[h] + 1, v);
    forall d, limit: nat | Has(nodes, depth, d, limit)
      ensures Has(nodes', depth', d, limit)
    {
      HasMonotone(nodes, depth, d, limit, v, depth[h] + 1);
    }
    forall i | 0 <= i < h
      ensures Followed(g, root, nodes', depth', nodes'[i], depth'[i] + 1)
    {
      assert Followed(g, root, nodes, depth, nodes[i], depth[i] + 1);
    }
    assert nodes'[|nodes|] == v && depth'[|nodes|] == depth[h] + 1;
  }

  lemma ExpandDone(g: Graph, start: Dep, root: Dep, nodes: seq<Dep>, depth: seq<nat>, h: nat)
    requires Searching(g, start, root, nodes, depth, h) && h < |nodes|
    requires Followed(g, root, nodes, depth, nodes[h], depth[h] + 1)
    ensures Searching(g, start, root, nodes, depth, h + 1)
  {
    if h + 1 < |nodes| {
      assert depth[h] <= depth[h + 1];
    }
  }

  /** When all that is listed has been expanded, every walk ends at a listed node, no deeper than its length. */
  lemma {:induction false} WalksAreListed(g: Graph, start: Dep, root: Dep, nodes: seq<Dep>, depth: seq<nat>, n: nat, d: Dep)
    requires Searching(g, start, root, nodes, depth, |nodes|)
    requires root == start || forall u :: root !in g(u)
    requires n >= 1 && Walk(g, start, n, d)
    ensures Has(nodes, depth, d, n) || (d == root && root !in g(start))
    decreases n
  {
    var u :| Walk(g, start, n - 1, u) && d in g(u);
    if u == start {
      var j :| 0 <= j < |nodes| && nodes[j] == d && depth[j] <= 1;
    } else {
      WalksAreListed(g, start, root, nodes, depth, n - 1, u);
      assert u != root by {
        assert n > 1 && Walk(g, start, n - 1, u);
      }
      var i :| 0 <= i < |nodes| && nodes[i] == u && depth[i] <= n - 1;
      assert Followed(g, root, nodes, depth, nodes[i], depth[i] + 1);
      if d != root {
        var j :| 0 <= j < |nodes| && nodes[j] == d && depth[j] <= depth[i] + 1;
      } else if root in g(start) {
        var j :| 0 <= j < |nodes| && nodes[j] == d && depth[j] <= 1;
      }
    }
  }

  /** The distance of a node: the least positive number of edges that reaches it. */
  ghost predicate IsDistance(g: Graph, start: Dep, d: Dep, n: nat) {
    n >= 1 && Walk(g, start, n, d) && forall m: nat :: m >= 1 && Walk(g, start, m, d) ==> n <= m
  }

  function DepsOf(rs: seq<Resolved>): seq<Dep> {
    seq(|rs|, i requires 0 <= i < |rs| => rs[i].dep)
  }

  /** The nodes reached by at least one edge, except the root when it is not its own direct dependency. */
  ghost predicate IsReached(g: Graph, start: Dep, root: Dep, d: Dep) {
    (exists n: nat :: n >= 1 && Walk(g, start, n, d)) && (d == root ==> root in g(start))
  }

  /** Exactly the reached nodes, once each, nearest first, with the direct ones labelled. */
  ghost predicate IsResolution(g: Graph, start: Dep, root: Dep, rs: seq<Resolved>, depth: seq<nat>) {
    && |depth| == |rs| && Distinct(DepsOf(rs)) && Sorted(depth)
    && (forall d :: d in DepsOf(rs) <==> IsReached(g, start, root, d))
    && (forall i :: 0 <= i < |rs| ==> IsDistance(g, start, rs[i].dep, depth[i]))
    && (forall i :: 0 <= i < |rs| ==> (rs[i].kind == Direct <==> rs[i].dep in g(start)))
  }

  lemma DepthsAreDistances(g: Graph, start: Dep, root: Dep, nodes: seq<Dep>, depth: seq<nat>, i: nat)
    requires Searching(g, start, root, nodes, depth, |nodes|) && i < |nodes|
    requires root == start || forall u :: root !in g(u)
    ensures IsDistance(g, start, nodes[i], depth[i])
    ensures depth[i] == 1 <==> nodes[i] in g(start)
  {
    forall m: nat | m >= 1 && Walk(g, start, m, nodes[i])
      ensures depth[i] <= m
    {
      WalksAreListed(g, start, root, nodes, depth, m, nodes[i]);
      assert nodes[i] in nodes;
      var j :| 0 <= j < |nodes| && nodes[j] == nodes[i] && depth[j] <= m;
    }
    if nodes[i] in g(start) {
      var j :| 0 <= j < |nodes| && nodes[j] == nodes[i] && depth[j] <= 1;
    } else {
      assert Walk(g, start, depth[i], nodes[i]);
    }
  }

  lemma ListedIsReached(g: Graph, start: Dep, root: Dep, nodes: seq<Dep>, depth: seq<nat>, d: Dep)
    requires Searching(g, start, root, nodes, depth, |nodes|)
    requires root == start || forall u :: root !in g(u)
    ensures d in nodes <==> IsReached(g, start, root, d)
  {
    if d in nodes {
      var i :| 0 <= i < |nodes| && nodes[i] == d;
      assert Walk(g, start, depth[i], d);
    }
    if IsReached(g, start, root, d) {
      var n: nat :| n >= 1 && Walk(g, start, n, d);
      WalksAreListed(g, start, root, nodes, depth, n, d);
    }
  }

  /** When the queue is empty, the list is the resolution. */
  lemma SearchIsExact(g: Graph, start: Dep, root: Dep, rs: seq<Resolved>, depth: seq<nat>)
    requires Searching(g, start, root, DepsOf(rs), depth, |rs|)
    requires root == start || forall u :: root !in g(u)
    requires forall i :: 0 <= i < |rs| ==> (rs[i].kind == Direct <==> depth[i] == 1)
    ensures IsResolution(g, start, root, rs, depth)
  {
    var nodes := DepsOf(rs);
    forall d
      ensures d in nodes <==> IsReached(g, start, root, d)
    {
      ListedIsReached(g, start, root, nodes, depth, d);
    }
    forall i | 0 <= i < |rs|
      ensures IsDistance(g, start, rs[i].dep, depth[i]) && (depth[i] == 1 <==> rs[i].dep in g(start))
    {
      DepthsAreDistances(g, start, root, nodes, depth, i);
    }
  }

  /** The variables of the search agree: what is listed, visited, queued from position q on, and labelled. */
  ghost predicate InStep(g: Graph, start: Dep, root: Dep, list: seq<Resolved>, depth: seq<nat>, h: nat,
                         visited: set<Dep>, queue: seq<Dep>, q: nat, universe: set<Dep>)
  {
    && Searching(g, start, root, DepsOf(list), depth, h)
    && q <= |list| && queue == DepsOf(list)[q..]
    && visited == {root} + (set d | d in DepsOf(list))
    && visited <= universe
    && (forall k :: 0 <= k < |list| ==> (list[k].kind == Direct <==> depth[k] == 1))
  }

  /** The first i successors of the node being expanded have been dealt with. */
  ghost predicate SeenUpTo(root: Dep, nodes: seq<Dep>, depth: seq<nat>, next: seq<Dep>, i: nat, limit: nat)
    requires |depth| == |nodes| && i <= |next|
  {
    forall k :: 0 <= k < i ==> next[k] == root || Has(nodes, depth, next[k], limit)
  }

  lemma ListSuccessor(g: Graph, start: Dep, root: Dep, list: seq<Resolved>, depth: seq<nat>, h: nat,
                      visited: set<Dep>, queue: seq<Dep>, universe: set<Dep>, next: seq<Dep>, i: nat)
    requires InStep(g, start, root, list, depth, h, visited, queue, h + 1, universe) && h < |list|
    requires i < |next| && next[i] in g(list[h].dep) && next[i] in universe && next[i] !in visited
    requires SeenUpTo(root, DepsOf(list), depth, next, i, depth[h] + 1)
    ensures var list', depth' := list + [Resolved(next[i], Transitive)], depth + [depth[h] + 1];
            && InStep(g, start, root, list', depth', h, visited + {next[i]}, queue + [next[i]], h + 1, universe)
            && SeenUpTo(root, DepsOf(list'), depth', next, i + 1, depth'[h] + 1)
  {
    var d, nodes := next[i], DepsOf(list);
    var list', depth' := list + [Resolved(d, Transitive)], depth + [depth[h] + 1];
    ListOneMore(g, start, root, nodes, depth, h, d);
    assert DepsOf(list') == nodes + [d];
    forall k | 0 <= k < i && next[k] != root
      ensures Has(nodes + [d], depth', next[k], depth[h] + 1)
    {
      HasMonotone(nodes, depth, next[k], depth[h] + 1, d, depth[h] + 1);
    }
    assert depth[h] >= 1;
  }

  lemma VisitedIsNear(g: Graph, start: Dep, root: Dep, nodes: seq<Dep>, depth: seq<nat>, h: nat, d: Dep)
    requires Searching(g, start, root, nodes, depth, h) && h < |nodes| && d in nodes
    ensures Has(nodes, depth, d, depth[h] + 1)
  {
    var j :| 0 <= j < |nodes| && nodes[j] == d;
  }

  /** The inner loop: lists and enqueues the successors that have not been visited. */
  method Expand(ghost g: Graph, ghost start: Dep, root: Dep, list0: seq<Resolved>, ghost depth0: seq<nat>, ghost h: nat,
                visited0: set<Dep>, queue0: seq<Dep>, next: seq<Dep>, ghost universe: set<Dep>)
    returns (list: seq<Resolved>, visited: set<Dep>, queue: seq<Dep>, ghost depth: seq<nat>)
    requires InStep(g, start, root, list0, depth0, h, visited0, queue0, h + 1, universe) && h < |list0|
    requires forall v :: v in next ==> v in g(list0[h].dep) && v in universe
    ensures InStep(g, start, root, list, depth, h, visited, queue, h + 1, universe)
    ensures list0 <= list && visited0 <= visited && (visited == visited0 ==> queue == queue0)
    ensures SeenUpTo(root, DepsOf(list), depth, next, |next|, depth[h] + 1)
  {
    list, visited, queue, depth := list0, visited0, queue0, depth0;
    for i := 0 to |next|
      invariant InStep(g, start, root, list, depth, h, visited, queue, h + 1, universe)
      invariant list0 <= list && visited0 <= visited && (visited == visited0 ==> queue == queue0)
      invariant SeenUpTo(root, DepsOf(list), depth, next, i, depth[h] + 1)
    {
      var d := next[i];
      assert d in next && list[h] == list0[h];
      if d !in visited {
        ListSuccessor(g, start, root, list, depth, h, visited, queue, universe, next, i);
        visited := visited + {d};
        list := list + [Resolved(d, Transitive)];
        queue := queue + [d];
        depth := depth + [depth[h] + 1];
      } else {
        if d != root {
          VisitedIsNear(g, start, root, DepsOf(list), depth, h, d);
        }
        SeenNext(root, DepsOf(list), depth, next, i, depth[h] + 1);
      }
    }
  }

  lemma SeenNext(root: Dep, nodes: seq<Dep>, depth: seq<nat>, next: seq<Dep>, i: nat, limit: nat)
    requires |depth| == |nodes| && i < |next| && SeenUpTo(root, nodes, depth, next, i, limit)
    requires next[i] == root || Has(nodes, depth, next[i], limit)
    ensures SeenUpTo(root, nodes, depth, next, i + 1, limit)
  {
  }

  /** The node has been expanded once all that its lookup returned has been dealt with. */
  lemma NodeDone(g: Graph, start: Dep, root: Dep, list: seq<Resolved>, depth: seq<nat>, h: nat,
                 visited: set<Dep>, queue: seq<Dep>, universe: set<Dep>, next: seq<Dep>)
    requires InStep(g, start, root, list, depth, h, visited, queue, h + 1, universe) && h < |list|
    requires forall v :: v in g(list[h].dep) ==> v in next
    requires SeenUpTo(root, DepsOf(list), depth, next, |next|, depth[h] + 1)
    ensures InStep(g, start, root, list, depth, h + 1, visited, queue, h + 1, universe)
  {
    var nodes := DepsOf(list);
    forall v | v in g(nodes[h])
      ensures v == root || Has(nodes, depth, v, depth[h] + 1)
    {
      var k :| 0 <= k < |next| && next[k] == v;
    }
    ExpandDone(g, start, root, nodes, depth, h);
  }

  lemma QueuedIsListed(g: Graph, start: Dep, root: Dep, list: seq<Resolved>, depth: seq<nat>, h: nat,
                       visited: set<Dep>, current: Dep, rest: seq<Dep>, universe: set<Dep>)
    requires InStep(g, start, root, list, depth, h, visited, [current] + rest, h, universe)
    ensures h < |list| && list[h].dep == current
    ensures InStep(g, start, root, list, depth, h, visited, rest, h + 1, universe)
    ensures exists u :: current in g(u)
  {
    var nodes := DepsOf(list);
    assert nodes[h..][0] == current && nodes[h..][1..] == nodes[h + 1..];
    assert Walk(g, start, depth[h], nodes[h]);
  }

  ghost predicate BoundedBy(g: Graph, universe: set<Dep>) {
    forall u, v :: v in g(u) ==> v in universe && v.tag != ""
  }

  lemma QueuedIsNamed(g: Graph, start: Dep, root: Dep, list: seq<Resolved>, depth: seq<nat>, h: nat,
                      visited: set<Dep>, queue: seq<Dep>, universe: set<Dep>)
    requires InStep(g, start, root, list, depth, h, visited, queue, h, universe) && queue != []
    requires BoundedBy(g, universe)
    ensures queue[0].tag != ""
  {
    assert queue == [queue[0]] + queue[1..];
    QueuedIsListed(g, start, root, list, depth, h, visited, queue[0], queue[1..], universe);
  }

  /** One round of the outer loop, after the lookup of the node at the head of the queue. */
  method Round(ghost g: Graph, ghost start: Dep, root: Dep, list0: seq<Resolved>, ghost depth0: seq<nat>, h: nat,
               visited0: set<Dep>, queue0: seq<Dep>, next: Result<seq<Dep>, LookupError>, ghost universe: set<Dep>)
    returns (list: seq<Resolved>, visited: set<Dep>, queue: seq<Dep>, ghost depth: seq<nat>)
    requires InStep(g, start, root, list0, depth0, h, visited0, queue0, h, universe) && queue0 != []
    requires BoundedBy(g, universe) && IsLookedUp(g, queue0[0], next)
    ensures InStep(g, start, root, list, depth, h + 1, visited, queue, h + 1, universe)
    ensures |universe - visited| < |universe - visited0| ||
            (|universe - visited| == |universe - visited0| && |queue| < |queue0|)
  {
    assert queue0 == [queue0[0]] + queue0[1..];
    QueuedIsListed(g, start, root, list0, depth0, h, visited0, queue0[0], queue0[1..], universe);
    list, visited, queue, depth := list0, visited0, queue0[1..], depth0;
    if next.Ok? {
      list, visited, queue, depth := Expand(g, start, root, list, depth, h, visited, queue, next.value, universe);
      NodeDone(g, start, root, list, depth, h, visited, queue, universe, next.value);
    } else {
      NodeDone(g, start, root, list, depth, h, visited, queue, universe, []);
    }
    UniverseShrinks(universe, visited0, visited);
  }

  /** An empty queue means that every listed node has been expanded. */
  lemma FinishSearch(g: Graph, start: Dep, root: Dep, list: seq<Resolved>, depth: seq<nat>, h: nat,
                     visited: set<Dep>, universe: set<Dep>)
    requires InStep(g, start, root, list, depth, h, visited, [], h, universe)
    requires root == start || forall u :: root !in g(u)
    ensures h == |list| && IsResolution(g, start, root, list, depth)
  {
    assert |DepsOf(list)[h..]| == |list| - h;
    SearchIsExact(g, start, root, list, depth);
  }

  lemma StartSearch(g: Graph, start: Dep, root: Dep, list: seq<Resolved>, visited: set<Dep>, universe: set<Dep>)
    requires IsLookedUp(g, start, Ok(DepsOf(list))) && forall k :: 0 <= k < |list| ==> list[k].kind == Direct
    requires visited == ({root} + set d | d in DepsOf(list)) && visited <= universe
    ensures InStep(g, start, root, list, seq(|list|, _ => 1), 0, visited, DepsOf(list), 0, universe)
  {
    var direct, depth := DepsOf(list), seq(|list|, _ => 1);
    forall i | 0 <= i < |direct|
      ensures Walk(g, start, 1, direct[i])
    {
      assert direct[i] in direct;
      assert Walk(g, start, 1 - 1, start) && direct[i] in g(start);
    }
    forall v | v in g(start)
      ensures Has(direct, depth, v, 1)
    {
      assert v in direct;
    }
    assert direct[0..] == direct;
  }

  lemma UniverseShrinks(universe: set<Dep>, before: set<Dep>, after: set<Dep>)
    requires before <= after <= universe
    ensures |universe - after| <= |universe - before|
    ensures before != after ==> |universe - after| < |universe - before|
  {
    var small, big := universe - after, universe - before;
    assert big == small + (after - before);
    if before != after {
      assert after - before != {};
    }
  }

  lemma NothingIsReached(g: Graph, start: Dep, root: Dep, rs: seq<Resolved>, depth: seq<nat>)
    requires (forall v :: v !in g(start)) && IsResolution(g, start, root, rs, depth)
    ensures rs == []
  {
    if rs != [] {
      assert IsDistance(g, start, rs[0].dep, depth[0]);
      FirstEdge(g, start, depth[0], rs[0].dep);
      assert false;
    }
  }

  lemma {:induction false} FirstEdge(g: Graph, start: Dep, n: nat, d: Dep)
    requires n >= 1 && Walk(g, start, n, d)
    ensures exists v :: v in g(start)
  {
    var u :| Walk(g, start, n - 1, u) && d in g(u);
    if n > 1 {
      FirstEdge(g, start, n - 1, u);
    }
  }
}
