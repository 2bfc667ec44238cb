/** `FlowManager.get_path`: the graph of switch-to-switch links, by switch
    name, and an unweighted shortest path over it. The library search the
    source calls is modelled by a breadth-first search whose result is only
    promised to be SOME shortest path, since the library's tie-break is not
    part of the model. */
module FlowPath {
  import opened Wrappers
  import opened Mininet

  type Edge = (string, string)

  /** Both ends of the link are switches. */
  predicate SwitchToSwitch(l: Link) {
    l.node1.Switch? && l.node2.Switch?
  }

  /** The edges `g.add_edge(n1.name, n2.name)` puts in the graph, in link order. */
  function SwitchEdges(links: seq<Link>): (e: seq<Edge>)
    ensures forall x :: x in e <==>
              exists i :: 0 <= i < |links| && SwitchToSwitch(links[i])
                && x == (links[i].node1.name, links[i].node2.name)
  {
    if links == [] then []
    else
      var prev := SwitchEdges(links[..|links| - 1]);
      var l := links[|links| - 1];
      assert forall i :: 0 <= i < |links| - 1 ==> links[..|links| - 1][i] == links[i];
      if SwitchToSwitch(l) then prev + [(l.node1.name, l.node2.name)] else prev
  }

  /** The nodes of the graph: every name that is an end of an edge. */
  function Nodes(edges: seq<Edge>): set<string> {
    (set e | e in edges :: e.0) + (set e | e in edges :: e.1)
  }

  /** An undirected edge joins `a` and `b`. */
  predicate Adjacent(edges: seq<Edge>, a: string, b: string) {
    (a, b) in edges || (b, a) in edges
  }

  /** `q` is a walk in the graph: a non-empty sequence of graph nodes, each
      adjacent to the next. */
  ghost predicate IsWalk(edges: seq<Edge>, q: seq<string>) {
    && |q| >= 1
    && q[0] in Nodes(edges)
    && forall i :: 0 <= i < |q| - 1 ==> Adjacent(edges, q[i], q[i + 1])
  }

  ghost predicate IsWalkFromTo(edges: seq<Edge>, q: seq<string>, src: string, dst: string) {
    IsWalk(edges, q) && q[0] == src && q[|q| - 1] == dst
  }

  /** `p` goes from `src` to `dst` and no walk between them is shorter. */
  ghost predicate IsShortestPath(edges: seq<Edge>, p: seq<string>, src: string, dst: string) {
    && IsWalkFromTo(edges, p, src, dst)
    && forall q :: IsWalkFromTo(edges, q, src, dst) ==> |p| <= |q|
  }

  lemma WalkPrefix(edges: seq<Edge>, q: seq<string>)
    requires IsWalk(edges, q) && |q| >= 2
    ensures IsWalk(edges, q[..|q| - 1])
  {
    var p := q[..|q| - 1];
    forall i | 0 <= i < |p| - 1 ensures Adjacent(edges, p[i], p[i + 1]) {
      assert p[i] == q[i] && p[i + 1] == q[i + 1];
    }
  }

  lemma WalkExtend(edges: seq<Edge>, q: seq<string>, w: string)
    requires IsWalk(edges, q) && Adjacent(edges, q[|q| - 1], w)
    ensures IsWalk(edges, q + [w])
  {
    var p := q + [w];
    assert forall i :: 0 <= i < |q| ==> p[i] == q[i];
  }

  lemma AdjacentInNodes(edges: seq<Edge>, a: string, b: string)
    requires Adjacent(edges, a, b)
    ensures a in Nodes(edges) && b in Nodes(edges)
  {
    if (a, b) in edges {
      assert (a, b).0 == a && (a, b).1 == b;
    } else {
      assert (b, a).0 == b && (b, a).1 == a;
    }
  }

  /** Every node of a walk is a node of the graph. */
  lemma WalkInNodes(edges: seq<Edge>, q: seq<string>)
    requires IsWalk(edges, q)
    ensures forall i :: 0 <= i < |q| ==> q[i] in Nodes(edges)
  {
    forall i | 0 < i < |q| ensures q[i] in Nodes(edges) {
      AdjacentInNodes(edges, q[i - 1], q[i]);
    }
  }

  /** A set that contains `src` and is closed under the edges contains the
      end of every walk from `src`. */
  lemma {:induction false} ClosedContainsWalkEnds(edges: seq<Edge>, src: string, reached: set<string>, q: seq<string>)
    requires src in reached
    requires forall i :: 0 <= i < |edges| ==>
               (edges[i].0 in reached ==> edges[i].1 in reached) && (edges[i].1 in reached ==> edges[i].0 in reached)
    requires IsWalk(edges, q) && q[0] == src
    ensures q[|q| - 1] in reached
    decreases |q|
  {
    if |q| > 1 {
      WalkPrefix(edges, q);
      ClosedContainsWalkEnds(edges, src, reached, q[..|q| - 1]);
      var u, w := q[|q| - 2], q[|q| - 1];
      assert Adjacent(edges, u, w);
      var i :| 0 <= i < |edges| && (edges[i] == (u, w) || edges[i] == (w, u));
    }
  }

  /** Each reached node maps to a walk from `src` to it of at most `k + 1` nodes. */
  ghost predicate WalksToReached(edges: seq<Edge>, src: string, paths: map<string, seq<string>>, k: nat) {
    && src in paths
    && paths.Keys <= Nodes(edges)
    && forall v :: v in paths ==> IsWalkFromTo(edges, paths[v], src, v) && |paths[v]| <= k + 1
  }

  /** The frontier is the layer of nodes exactly `k` steps from `src`. */
  ghost predicate IsLayer(paths: map<string, seq<string>>, frontier: set<string>, k: nat) {
    && frontier <= paths.Keys
    && forall v :: v in paths ==> (v in frontier <==> |paths[v]| == k + 1)
  }

  /** Every edge out of a node closer than `k` steps has been followed. */
  ghost predicate ClosedBelow(edges: seq<Edge>, paths: map<string, seq<string>>, k: nat) {
    forall i :: 0 <= i < |edges| ==>
      (edges[i].0 in paths && |paths[edges[i].0]| <= k ==> edges[i].1 in paths)
      && (edges[i].1 in paths && |paths[edges[i].1]| <= k ==> edges[i].0 in paths)
  }

  /** Every node a walk from `src` of at most `k + 1` nodes ends at is reached. */
  ghost predicate CoversWithin(edges: seq<Edge>, src: string, paths: map<string, seq<string>>, k: nat) {
    forall q :: IsWalk(edges, q) && q[0] == src && |q| <= k + 1 ==> q[|q| - 1] in paths
  }

  /** No walk from `src` to a reached node is shorter than the recorded one. */
  ghost predicate RecordedAreShortest(edges: seq<Edge>, src: string, paths: map<string, seq<string>>) {
    forall v, q :: v in paths && IsWalkFromTo(edges, q, src, v) ==> |paths[v]| <= |q|
  }

  /** The search state after `k` rounds. */
  ghost predicate SearchInvariant(edges: seq<Edge>, src: string, paths: map<string, seq<string>>,
                                  frontier: set<string>, k: nat)
  {
    && WalksToReached(edges, src, paths, k)
    && IsLayer(paths, frontier, k)
    && ClosedBelow(edges, paths, k)
    && CoversWithin(edges, src, paths, k)
    && RecordedAreShortest(edges, src, paths)
  }

  /** Part way through a round: the old entries are kept, and every new one
      is a walk from `src` one node longer than the frontier's. */
  ghost predicate RoundSoFar(edges: seq<Edge>, src: string, paths: map<string, seq<string>>, k: nat,
                             newPaths: map<string, seq<string>>, next: set<string>) {
    && paths.Keys <= newPaths.Keys <= Nodes(edges)
    && (forall v :: v in paths ==> newPaths[v] == paths[v])
    && next == newPaths.Keys - paths.Keys
    && (forall v :: v in next ==> IsWalkFromTo(edges, newPaths[v], src, v) && |newPaths[v]| == k + 2)
  }

  /** What one round of edge scanning establishes: `newPaths` extends `paths`
      by `next`, each new node one step past the frontier, and every edge out of
      the frontier has been followed. */
  ghost predicate RoundDone(edges: seq<Edge>, src: string, paths: map<string, seq<string>>, frontier: set<string>, k: nat,
                             newPaths: map<string, seq<string>>, next: set<string>)
  {
    && paths.Keys <= newPaths.Keys <= Nodes(edges)
    && (forall v :: v in paths ==> newPaths[v] == paths[v])
    && next == newPaths.Keys - paths.Keys
    && (forall v :: v in next ==> IsWalkFromTo(edges, newPaths[v], src, v) && |newPaths[v]| == k + 2)
    && (forall i :: 0 <= i < |edges| ==>
          (edges[i].0 in frontier ==> edges[i].1 in newPaths) && (edges[i].1 in frontier ==> edges[i].0 in newPaths))
  }

  lemma StepWalks(edges: seq<Edge>, src: string, paths: map<string, seq<string>>, frontier: set<string>, k: nat,
                  newPaths: map<string, seq<string>>, next: set<string>)
    requires WalksToReached(edges, src, paths, k)
    requires RoundDone(edges, src, paths, frontier, k, newPaths, next)
    ensures WalksToReached(edges, src, newPaths, k + 1)
    ensures IsLayer(newPaths, next, k + 1)
  {
  }

  lemma StepClosed(edges: seq<Edge>, src: string, paths: map<string, seq<string>>, frontier: set<string>, k: nat,
                   newPaths: map<string, seq<string>>, next: set<string>)
    requires WalksToReached(edges, src, paths, k) && IsLayer(paths, frontier, k) && ClosedBelow(edges, paths, k)
    requires RoundDone(edges, src, paths, frontier, k, newPaths, next)
    ensures ClosedBelow(edges, newPaths, k + 1)
  {
    forall i | 0 <= i < |edges|
      ensures edges[i].0 in newPaths && |newPaths[edges[i].0]| <= k + 1 ==> edges[i].1 in newPaths
      ensures edges[i].1 in newPaths && |newPaths[edges[i].1]| <= k + 1 ==> edges[i].0 in newPaths
    {
      var (a, b) := edges[i];
      if a in newPaths && |newPaths[a]| <= k + 1 {
        assert a in paths;
      }
      if b in newPaths && |newPaths[b]| <= k + 1 {
        assert b in paths;
      }
    }
  }

  /** Following an edge out of a node within `k + 1` steps lands on a node
      reached after the round. */
  lemma FollowEdge(edges: seq<Edge>, src: string, paths: map<string, seq<string>>, frontier: set<string>, k: nat,
                   newPaths: map<string, seq<string>>, next: set<string>, u: string, w: string)
    requires IsLayer(paths, frontier, k) && ClosedBelow(edges, paths, k)
    requires RoundDone(edges, src, paths, frontier, k, newPaths, next)
    requires u in paths && |paths[u]| <= k + 1 && Adjacent(edges, u, w)
    ensures w in newPaths
  {
    var i :| 0 <= i < |edges| && (edges[i] == (u, w) || edges[i] == (w, u));
    if |paths[u]| == k + 1 {
      assert u in frontier;
    }
  }

  /** A walk of `k + 2` nodes from `src` ends at a node reached after the round. */
  lemma CoverOne(edges: seq<Edge>, src: string, paths: map<string, seq<string>>, frontier: set<string>, k: nat,
                 newPaths: map<string, seq<string>>, next: set<string>, q: seq<string>)
    requires (forall v :: v in paths ==> |paths[v]| <= k + 1) && IsLayer(paths, frontier, k) && ClosedBelow(edges, paths, k)
    requires CoversWithin(edges, src, paths, k)
    requires RoundDone(edges, src, paths, frontier, k, newPaths, next)
    requires IsWalk(edges, q) && q[0] == src && |q| == k + 2
    ensures q[|q| - 1] in newPaths
  {
    var p, u := q[..|q| - 1], q[|q| - 2];
    assert p[0] == src && |p| == k + 1 && p[|p| - 1] == u;
    assert Adjacent(edges, u, q[|q| - 1]);
    WalkPrefix(edges, q);
    assert u in paths;
    FollowEdge(edges, src, paths, frontier, k, newPaths, next, u, q[|q| - 1]);
  }

  lemma StepCovers(edges: seq<Edge>, src: string, paths: map<string, seq<string>>, frontier: set<string>, k: nat,
                   newPaths: map<string, seq<string>>, next: set<string>)
    requires WalksToReached(edges, src, paths, k) && IsLayer(paths, frontier, k) && ClosedBelow(edges, paths, k)
    requires CoversWithin(edges, src, paths, k)
    requires RoundDone(edges, src, paths, frontier, k, newPaths, next)
    ensures CoversWithin(edges, src, newPaths, k + 1)
  {
    forall q | IsWalk(edges, q) && q[0] == src && |q| <= k + 2
      ensures q[|q| - 1] in newPaths
    {
      if |q| == k + 2 {
        CoverOne(edges, src, paths, frontier, k, newPaths, next, q);
      }
    }
  }

  lemma StepShortest(edges: seq<Edge>, src: string, paths: map<string, seq<string>>, frontier: set<string>, k: nat,
                     newPaths: map<string, seq<string>>, next: set<string>)
    requires CoversWithin(edges, src, paths, k) && RecordedAreShortest(edges, src, paths)
    requires RoundDone(edges, src, paths, frontier, k, newPaths, next)
    ensures RecordedAreShortest(edges, src, newPaths)
  {
    forall v, q | v in newPaths && IsWalkFromTo(edges, q, src, v)
      ensures |newPaths[v]| <= |q|
    {
      if v !in paths {
        assert |q| > k + 1;
      }
    }
  }

  /** One round of the search keeps the invariant. */
  lemma LayerStep(edges: seq<Edge>, src: string, paths: map<string, seq<string>>, frontier: set<string>, k: nat,
                  newPaths: map<string, seq<string>>, next: set<string>)
    requires SearchInvariant(edges, src, paths, frontier, k)
    requires RoundDone(edges, src, paths, frontier, k, newPaths, next)
    ensures SearchInvariant(edges, src, newPaths, next, k + 1)
  {
    StepWalks(edges, src, paths, frontier, k, newPaths, next);
    StepClosed(edges, src, paths, frontier, k, newPaths, next);
    StepCovers(edges, src, paths, frontier, k, newPaths, next);
    StepShortest(edges, src, paths, frontier, k, newPaths, next);
  }

  /** A round never unreaches a node, and one that reaches a new node
      leaves fewer unreached. */
  lemma RoundShrinks(nodes: set<string>, reached: set<string>, reached': set<string>)
    requires reached <= reached' <= nodes
    ensures |nodes - reached'| <= |nodes - reached|
    ensures reached' - reached != {} ==> |nodes - reached'| < |nodes - reached|
  {
    assert nodes - reached' <= nodes - reached;
    if reached' - reached != {} {
      var v :| v in reached' - reached;
      assert v in nodes - reached && v !in nodes - reached';
    }
  }

  /** One direction of one edge: when `a` is on the frontier and `b` is not
      reached yet, `b` is reached by `a`'s walk extended by `b`. */
  method Visit(edges: seq<Edge>, src: string, paths: map<string, seq<string>>, frontier: set<string>, ghost k: nat,
               newPaths: map<string, seq<string>>, next: set<string>, a: string, b: string)
    returns (newPaths': map<string, seq<string>>, next': set<string>)
    requires WalksToReached(edges, src, paths, k) && IsLayer(paths, frontier, k)
    requires RoundSoFar(edges, src, paths, k, newPaths, next)
    requires Adjacent(edges, a, b) && b in Nodes(edges)
    ensures RoundSoFar(edges, src, paths, k, newPaths', next')
    ensures newPaths.Keys <= newPaths'.Keys
    ensures a in frontier ==> b in newPaths'
  {
    newPaths', next' := newPaths, next;
    if a in frontier && b !in newPaths {
      WalkExtend(edges, paths[a], b);
      newPaths' := newPaths[b := paths[a] + [b]];
      next' := next + {b};
    }
  }

  /** Both directions of the first `j` edges out of the frontier reach nodes
      of `reached`. */
  ghost predicate FollowedBefore(edges: seq<Edge>, frontier: set<string>, reached: set<string>, j: nat) {
    forall i :: 0 <= i < j && i < |edges| ==>
      (edges[i].0 in frontier ==> edges[i].1 in reached) && (edges[i].1 in frontier ==> edges[i].0 in reached)
  }

  lemma FollowedStep(edges: seq<Edge>, frontier: set<string>, reached: set<string>, reached': set<string>, j: nat)
    requires FollowedBefore(edges, frontier, reached, j) && reached <= reached' && j < |edges|
    requires edges[j].0 in frontier ==> edges[j].1 in reached'
    requires edges[j].1 in frontier ==> edges[j].0 in reached'
    ensures FollowedBefore(edges, frontier, reached', j + 1)
  { }

  /** One round of the search: a pass over the edges that reaches every
      unreached neighbour of the frontier, by a walk one node longer. */
  method ScanEdges(edges: seq<Edge>, src: string, paths: map<string, seq<string>>, frontier: set<string>, ghost k: nat)
    returns (newPaths: map<string, seq<string>>, next: set<string>)
    requires WalksToReached(edges, src, paths, k) && IsLayer(paths, frontier, k)
    ensures RoundDone(edges, src, paths, frontier, k, newPaths, next)
  {
    newPaths, next := paths, {};
    var j := 0;
    while j < |edges|
      invariant 0 <= j <= |edges|
      invariant RoundSoFar(edges, src, paths, k, newPaths, next)
      invariant FollowedBefore(edges, frontier, newPaths.Keys, j)
    {
      var a, b := edges[j].0, edges[j].1;
      assert Adjacent(edges, a, b) && Adjacent(edges, b, a);
      AdjacentInNodes(edges, a, b);
      ghost var before := newPaths.Keys;
      newPaths, next := Visit(edges, src, paths, frontier, k, newPaths, next, a, b);
      newPaths, next := Visit(edges, src, paths, frontier, k, newPaths, next, b, a);
      FollowedStep(edges, frontier, before, newPaths.Keys, j);
      j := j + 1;
    }
  }

  /** The breadth-first search standing for `networkx.shortest_path(g, src, dst)`:
      `None` for the library's `NodeNotFound` and `NetworkXNoPath`. */
  method ShortestPath(edges: seq<Edge>, src: string, dst: string) returns (r: Option<seq<string>>)
    ensures r.Some? ==> IsShortestPath(edges, r.value, src, dst)
    ensures r.None? ==> forall q :: !IsWalkFromTo(edges, q, src, dst)
  {
    if src !in Nodes(edges) {
      return None;
    }
    var paths: map<string, seq<string>> := map[src := [src]];
    var frontier: set<string> := {src};
    ghost var k: nat := 0;
    SearchStart(edges, src);
    while dst !in paths && frontier != {}
      invariant SearchInvariant(edges, src, paths, frontier, k)
      decreases |Nodes(edges) - paths.Keys|, |frontier|
    {
      var newPaths, next := ScanEdges(edges, src, paths, frontier, k);
      LayerStep(edges, src, paths, frontier, k, newPaths, next);
      RoundShrinks(Nodes(edges), paths.Keys, newPaths.Keys);
      paths, frontier, k := newPaths, next, k + 1;
    }
    if dst in paths {
      SearchFound(edges, src, paths, frontier, k, dst);
      r := Some(paths[dst]);
    } else {
      SearchExhausted(edges, src, paths, k, dst);
      r := None;
    }
  }

  /** Before the first round only `src` is reached, by the one-node walk. */
  lemma SearchStart(edges: seq<Edge>, src: string)
    requires src in Nodes(edges)
    ensures SearchInvariant(edges, src, map[src := [src]], {src}, 0)
  {
    var paths := map[src := [src]];
    assert IsWalkFromTo(edges, [src], src, src);
    forall q | IsWalk(edges, q) && q[0] == src && |q| <= 1 ensures q[|q| - 1] in paths {
      assert q[|q| - 1] == q[0];
    }
  }

  /** A reached node's recorded walk is a shortest one. */
  lemma SearchFound(edges: seq<Edge>, src: string, paths: map<string, seq<string>>, frontier: set<string>, k: nat, dst: string)
    requires SearchInvariant(edges, src, paths, frontier, k) && dst in paths
    ensures IsShortestPath(edges, paths[dst], src, dst)
  { }

  /** When the search stops with `dst` unreached, the frontier is empty, the
      reached set is closed under the edges, and so no walk reaches `dst`. */
  lemma SearchExhausted(edges: seq<Edge>, src: string, paths: map<string, seq<string>>, k: nat, dst: string)
    requires SearchInvariant(edges, src, paths, {}, k) && dst !in paths
    ensures forall q :: !IsWalkFromTo(edges, q, src, dst)
  {
    forall q | IsWalkFromTo(edges, q, src, dst) ensures false {
      ClosedContainsWalkEnds(edges, src, paths.Keys, q);
    }
  }

  /** `get_path(net, src, dst)`: builds the switch-only graph from the links,
      then asks for a shortest path between two switch names. */
  method GetPath(links: seq<Link>, src: string, dst: string) returns (r: Option<seq<string>>)
    ensures r.Some? ==> IsShortestPath(SwitchEdges(links), r.value, src, dst)
    ensures r.None? ==> forall q :: !IsWalkFromTo(SwitchEdges(links), q, src, dst)
  {
    var edges: seq<Edge> := [];
    for i := 0 to |links|
      invariant edges == SwitchEdges(links[..i])
    {
      assert links[..i + 1][..i] == links[..i];
      if SwitchToSwitch(links[i]) {
        edges := edges + [(links[i].node1.name, links[i].node2.name)];
      }
    }
    assert links[..|links|] == links;
    r := ShortestPath(edges, src, dst);
  }
}
