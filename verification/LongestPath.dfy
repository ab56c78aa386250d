/** Longest path in an acyclic induced subgraph (`oxgraph-algo/src/longest_path_dag.rs`). */
module LongestPath {
  import opened Options
  import opened Topology
  import opened Toposort

  datatype PathResult = Path(path: seq<nat>) | CycleError

  // ----- what the relaxation pass establishes

  /** `u` comes before `v` in `order`. */
  ghost predicate Before(order: seq<nat>, u: nat, v: nat) {
    exists i, j :: 0 <= i < j < |order| && order[i] == u && order[j] == v
  }

  /** Every connection of the first `done` elements has been relaxed, members or not. */
  ghost predicate Relaxed(g: Graph, order: seq<nat>, done: nat, lengths: seq<nat>)
    requires |lengths| == g.bound
  {
    forall k, t: nat :: 0 <= k < done && k < |order| && t < g.bound && order[k] < g.bound && t in g.succ(order[k])
      ==> lengths[order[k]] + 1 <= lengths[t]
  }

  /** A recorded predecessor is the first processed element that explains the length of `t`. */
  ghost predicate Explains(g: Graph, order: seq<nat>, done: nat, lengths: seq<nat>, t: nat, k: nat)
    requires |lengths| == g.bound && t < g.bound && (forall i :: 0 <= i < |order| ==> order[i] < g.bound)
  {
    && k < done && k < |order|
    && t in g.succ(order[k]) && lengths[t] == lengths[order[k]] + 1
    && forall i :: 0 <= i < k && t in g.succ(order[i]) ==> lengths[order[i]] + 1 < lengths[t]
  }

  ghost predicate ExplainedAt(g: Graph, order: seq<nat>, done: nat, lengths: seq<nat>,
      predecessor: seq<Option<nat>>, t: nat)
    requires |lengths| == |predecessor| == g.bound && (forall i :: 0 <= i < |order| ==> order[i] < g.bound)
  {
    t < g.bound ==>
      match predecessor[t]
      case None => lengths[t] == 0
      case Some(u) => exists k :: 0 <= k < |order| && order[k] == u && Explains(g, order, done, lengths, t, k)
  }

  ghost predicate Explained(g: Graph, order: seq<nat>, done: nat, lengths: seq<nat>, predecessor: seq<Option<nat>>)
    requires |lengths| == |predecessor| == g.bound && (forall i :: 0 <= i < |order| ==> order[i] < g.bound)
  {
    forall t: nat {:trigger ExplainedAt(g, order, done, lengths, predecessor, t)} ::
      ExplainedAt(g, order, done, lengths, predecessor, t)
  }

  /** No path to `x` has more than `n` edges. */
  ghost predicate AtMost(c: Induced, x: nat, n: int) {
    forall p :: c.IsPath(p) && p[|p| - 1] == x ==> |p| - 1 <= n
  }

  /** The recorded length bounds every path that ends there. */
  lemma {:induction false} LengthsBoundPaths(c: Induced, order: seq<nat>, lengths: seq<nat>, p: seq<nat>)
    requires c.Valid() && |lengths| == c.graph.bound && Relaxed(c.graph, order, |order|, lengths)
    requires forall x: nat :: c.In(x) ==> x in order
    requires c.IsPath(p)
    ensures |p| - 1 <= lengths[p[|p| - 1]]
  {
    if |p| > 1 {
      var q, u, x := p[..|p| - 1], p[|p| - 2], p[|p| - 1];
      assert forall i :: 0 <= i < |q| - 1 ==> c.Edge(p[i], p[i + 1]);
      LengthsBoundPaths(c, order, lengths, q);
      assert c.Edge(u, x);
      var k :| 0 <= k < |order| && order[k] == u;
    }
  }

  // ----- what the result promises

  /** `path` is a longest induced path. Its end is the earliest in `order` at which a path of that
      length ends; each element before the end is the earliest in `order` that starts the last
      edge of a longest path to its successor. */
  ghost predicate IsLongestPath(c: Induced, order: seq<nat>, path: seq<nat>) {
    && c.IsPath(path) && NoDuplicates(path)
    && (forall p :: c.IsPath(p) ==> |p| <= |path|)
    && (forall j :: 0 <= j < |path| ==> AtMost(c, path[j], j))
    && (forall v: nat :: c.In(v) && Before(order, v, path[|path| - 1]) ==> AtMost(c, v, |path| - 2))
    && (forall j, v: nat :: 0 <= j < |path| - 1 && c.Edge(v, path[j + 1]) && Before(order, v, path[j]) ==> AtMost(c, v, j - 1))
  }

  // ----- the forward pass

  ghost predicate MemberOrder(c: Induced, order: seq<nat>) {
    && c.Valid() && NoDuplicates(order) && Forward(c, order)
    && (forall i :: 0 <= i < |order| ==> order[i] < c.graph.bound && c.In(order[i]))
    && (forall x: nat :: c.In(x) ==> x in order)
  }

  /** Lengths and predecessors after the connections `targets` of `node` are relaxed. */
  ghost predicate NodeRelaxed(g: Graph, node: nat, targets: seq<nat>, lengths: seq<nat>, predecessor: seq<Option<nat>>,
                              lengths': seq<nat>, predecessor': seq<Option<nat>>) {
    && |lengths| == |predecessor| == |lengths'| == |predecessor'| == g.bound && node < g.bound
    && forall t :: 0 <= t < g.bound ==>
         if t in targets && lengths[t] < lengths[node] + 1
         then lengths'[t] == lengths[node] + 1 && predecessor'[t] == Some(node)
         else lengths'[t] == lengths[t] && predecessor'[t] == predecessor[t]
  }

  method RelaxNode(g: Graph, node: nat, lengths: array<nat>, predecessor: array<Option<nat>>)
    requires lengths.Length == predecessor.Length == g.bound && node < g.bound && node !in g.succ(node)
    modifies lengths, predecessor
    ensures NodeRelaxed(g, node, g.succ(node), old(lengths[..]), old(predecessor[..]), lengths[..], predecessor[..])
  {
    var nodeLength := lengths[node];
    var successors := g.succ(node);
    for k := 0 to |successors|
      invariant NodeRelaxed(g, node, successors[..k], old(lengths[..]), old(predecessor[..]), lengths[..], predecessor[..])
    {
      var target := successors[k];
      assert successors[..k + 1] == successors[..k] + [target];
      if target < g.bound && lengths[target] < nodeLength + 1 {
        lengths[target] := nodeLength + 1;
        predecessor[target] := Some(node);
      }
    }
    assert successors[..|successors|] == successors;
  }

  /** Lengths of processed elements are final: no later element has a connection to them. */
  lemma ProcessedIsFinal(c: Induced, order: seq<nat>, i: nat, lengths: seq<nat>, predecessor: seq<Option<nat>>,
                         lengths': seq<nat>, predecessor': seq<Option<nat>>)
    requires MemberOrder(c, order) && i < |order|
    requires NodeRelaxed(c.graph, order[i], c.graph.succ(order[i]), lengths, predecessor, lengths', predecessor')
    ensures forall k :: 0 <= k <= i ==> lengths'[order[k]] == lengths[order[k]]
  {
    forall k | 0 <= k <= i ensures order[k] !in c.graph.succ(order[i]) {
      if order[k] in c.graph.succ(order[i]) {
        assert c.Edge(order[i], order[k]);
      }
    }
  }

  lemma NodeRelaxedKeeps(c: Induced, order: seq<nat>, i: nat, lengths: seq<nat>, predecessor: seq<Option<nat>>,
                         lengths': seq<nat>, predecessor': seq<Option<nat>>)
    requires MemberOrder(c, order) && i < |order|
    requires NodeRelaxed(c.graph, order[i], c.graph.succ(order[i]), lengths, predecessor, lengths', predecessor')
    requires Relaxed(c.graph, order, i, lengths) && Explained(c.graph, order, i, lengths, predecessor)
    ensures Relaxed(c.graph, order, i + 1, lengths') && Explained(c.graph, order, i + 1, lengths', predecessor')
  {
    var g := c.graph;
    ProcessedIsFinal(c, order, i, lengths, predecessor, lengths', predecessor');
    var done := i + 1;
    forall t: nat
      ensures ExplainedAt(g, order, done, lengths', predecessor', t)
    {
      assert ExplainedAt(g, order, i, lengths, predecessor, t);
      if t < g.bound {
        if t in g.succ(order[i]) && lengths[t] < lengths[order[i]] + 1 {
          assert Explains(g, order, i + 1, lengths', t, i);
        } else if predecessor[t].Some? {
          var k :| 0 <= k < |order| && order[k] == predecessor[t].value && Explains(g, order, i, lengths, t, k);
          assert Explains(g, order, i + 1, lengths', t, k);
        }
      }
    }
  }

  /** `best` is the first of the first `done` elements with the greatest length. */
  ghost predicate IsBest(order: seq<nat>, done: nat, lengths: seq<nat>, best: nat)
    requires done <= |order| && forall i :: 0 <= i < |order| ==> order[i] < |lengths|
  {
    && best < done
    && (forall k :: 0 <= k < done ==> lengths[order[k]] <= lengths[order[best]])
    && (forall k :: 0 <= k < best ==> lengths[order[k]] < lengths[order[best]])
  }

  method RelaxAll(g: Graph, order: seq<nat>, ghost c: Induced)
    returns (lengths: array<nat>, predecessor: array<Option<nat>>, bestEnd: Option<nat>, ghost best: nat)
    requires c.graph == g && MemberOrder(c, order) && order != []
    ensures lengths.Length == predecessor.Length == c.graph.bound
    ensures Relaxed(c.graph, order, |order|, lengths[..])
    ensures Explained(c.graph, order, |order|, lengths[..], predecessor[..])
    ensures IsBest(order, |order|, lengths[..], best) && bestEnd == Some(order[best])
  {
    hide Relaxed, Explained, Forward, NodeRelaxed, IsBest;
    lengths := new nat[g.bound](_ => 0);
    predecessor := new Option<nat>[g.bound](_ => None);
    bestEnd, best := None, 0;
    var bestLength := 0;
    NothingRelaxed(g, order, lengths[..], predecessor[..]);
    for i := 0 to |order|
      invariant Relaxed(g, order, i, lengths[..]) && Explained(g, order, i, lengths[..], predecessor[..])
      invariant if i == 0 then bestEnd == None else
        best < i && IsBest(order, i, lengths[..], best) && bestEnd == Some(order[best]) && bestLength == lengths[order[best]]
    {
      var node := order[i];
      var nodeLength := lengths[node];
      ghost var wasBest := best;
      if bestEnd == None || nodeLength > bestLength {
        bestLength := nodeLength;
        bestEnd := Some(node);
        best := i;
      }
      ghost var l, p := lengths[..], predecessor[..];
      NoSelfLoop(c, order, i);
      RelaxNode(g, node, lengths, predecessor);
      NodeRelaxedKeeps(c, order, i, l, p, lengths[..], predecessor[..]);
      ProcessedIsFinal(c, order, i, l, p, lengths[..], predecessor[..]);
      BestMoves(order, i, l, lengths[..], wasBest);
    }
  }

  /** The next element becomes the best end only if its length exceeds the best so far. */
  lemma BestMoves(order: seq<nat>, i: nat, lengths: seq<nat>, lengths': seq<nat>, best: nat)
    requires i < |order| && |lengths| == |lengths'| && forall k :: 0 <= k < |order| ==> order[k] < |lengths|
    requires i > 0 ==> IsBest(order, i, lengths, best)
    requires forall k :: 0 <= k <= i ==> lengths'[order[k]] == lengths[order[k]]
    ensures i > 0 ==> best < i
    ensures IsBest(order, i + 1, lengths', if i == 0 || lengths[order[i]] > lengths[order[best]] then i else best)
  {
  }

  lemma NothingRelaxed(g: Graph, order: seq<nat>, lengths: seq<nat>, predecessor: seq<Option<nat>>)
    requires |lengths| == |predecessor| == g.bound && (forall i :: 0 <= i < |order| ==> order[i] < g.bound)
    requires forall t :: 0 <= t < g.bound ==> lengths[t] == 0 && predecessor[t] == None
    ensures Relaxed(g, order, 0, lengths) && Explained(g, order, 0, lengths, predecessor)
  {
  }

  lemma NoSelfLoop(c: Induced, order: seq<nat>, i: nat)
    requires MemberOrder(c, order) && i < |order|
    ensures order[i] !in c.graph.succ(order[i])
  {
    assert c.Edge(order[i], order[i]) <==> order[i] in c.graph.succ(order[i]);
  }

  // ----- walking the predecessors back

  /** `back` walks predecessors from its first element, and `cursor` is where it goes next. */
  ghost predicate IsWalk(back: seq<nat>, lengths: seq<nat>, predecessor: seq<Option<nat>>, cursor: Option<nat>)
    requires |lengths| == |predecessor|
  {
    && (forall i :: 0 <= i < |back| ==> back[i] < |lengths|)
    && (forall i :: 0 <= i < |back| - 1 ==> predecessor[back[i]] == Some(back[i + 1]))
    && (back != [] ==> cursor == predecessor[back[|back| - 1]])
  }

  method WalkBack(lengths: array<nat>, predecessor: array<Option<nat>>, end: nat, ghost c: Induced,
      ghost order: seq<nat>)
    returns (back: seq<nat>)
    requires MemberOrder(c, order) && lengths.Length == predecessor.Length == c.graph.bound && end in order
    requires Explained(c.graph, order, |order|, lengths[..], predecessor[..])
    ensures back != [] && back[0] == end && IsWalk(back, lengths[..], predecessor[..], None)
    ensures forall i :: 0 <= i < |back| ==> back[i] in order
  {
    back := [];
    var cursor: Option<nat> := Some(end);
    ghost var budget: nat := lengths[end] + 1;
    while cursor != None
      invariant IsWalk(back, lengths[..], predecessor[..], cursor)
      invariant back == [] ==> cursor == Some(end)
      invariant back != [] ==> back[0] == end
      invariant forall i :: 0 <= i < |back| ==> back[i] in order
      invariant cursor.Some? ==> cursor.value in order && budget == lengths[cursor.value] + 1
      decreases if cursor.Some? then budget else 0
    {
      var node := cursor.value;
      assert ExplainedAt(c.graph, order, |order|, lengths[..], predecessor[..], node);
      back := back + [node];
      cursor := predecessor[node];
      if cursor.Some? {
        ghost var k :| 0 <= k < |order| && order[k] == cursor.value && Explains(c.graph, order, |order|, lengths[..], node, k);
        budget := lengths[cursor.value] + 1;
      }
    }
  }

  /** On the reversed walk, element `j` has recorded length `j`. */
  lemma {:induction false} WalkLengths(c: Induced, order: seq<nat>, lengths: seq<nat>,
      predecessor: seq<Option<nat>>, back: seq<nat>, j: nat)
    requires MemberOrder(c, order) && |lengths| == |predecessor| == c.graph.bound
    requires Explained(c.graph, order, |order|, lengths, predecessor)
    requires back != [] && IsWalk(back, lengths, predecessor, None) && j < |back|
    ensures lengths[Reversed(back)[j]] == j
  {
    var path := Reversed(back);
    if j > 0 {
      WalkLengths(c, order, lengths, predecessor, back, j - 1);
      assert predecessor[back[|back| - 1 - j]] == Some(back[|back| - j]);
      assert ExplainedAt(c.graph, order, |order|, lengths, predecessor, path[j]);
    } else {
      assert ExplainedAt(c.graph, order, |order|, lengths, predecessor, path[0]);
    }
  }

  lemma WalkIsLongest(c: Induced, order: seq<nat>, lengths: seq<nat>, predecessor: seq<Option<nat>>, best: nat,
      back: seq<nat>)
    requires MemberOrder(c, order) && |lengths| == |predecessor| == c.graph.bound
    requires Relaxed(c.graph, order, |order|, lengths) && Explained(c.graph, order, |order|, lengths, predecessor)
    requires IsBest(order, |order|, lengths, best)
    requires back != [] && back[0] == order[best] && IsWalk(back, lengths, predecessor, None)
    requires forall i :: 0 <= i < |back| ==> back[i] in order
    ensures IsLongestPath(c, order, Reversed(back))
  {
    var path := Reversed(back);
    forall j | 0 <= j < |path| ensures lengths[path[j]] == j && c.In(path[j]) {
      WalkLengths(c, order, lengths, predecessor, back, j);
      assert path[j] in order;
    }
    forall j | 0 <= j < |path| - 1
      ensures c.Edge(path[j], path[j + 1])
      ensures forall v: nat :: c.Edge(v, path[j + 1]) && Before(order, v, path[j]) ==> lengths[v] < j
    {
      FirstPredecessor(c, order, lengths, predecessor, path[j], path[j + 1]);
    }
    assert path[|path| - 1] == order[best];
    forall p | c.IsPath(p) ensures |p| - 1 <= lengths[p[|p| - 1]] && |p| <= |path| {
      LengthsBoundPaths(c, order, lengths, p);
      assert c.In(p[|p| - 1]);
      var k :| 0 <= k < |order| && order[k] == p[|p| - 1];
    }
  }

  /** The recorded predecessor beats every earlier element with a connection to `t`. */
  lemma FirstPredecessor(c: Induced, order: seq<nat>, lengths: seq<nat>, predecessor: seq<Option<nat>>, u: nat, t: nat)
    requires MemberOrder(c, order) && |lengths| == |predecessor| == c.graph.bound && c.In(t)
    requires Explained(c.graph, order, |order|, lengths, predecessor) && predecessor[t] == Some(u)
    ensures c.Edge(u, t)
    ensures forall v: nat :: c.Edge(v, t) && Before(order, v, u) ==> v < |lengths| && lengths[v] < lengths[u]
  {
    assert ExplainedAt(c.graph, order, |order|, lengths, predecessor, t);
    var k :| 0 <= k < |order| && order[k] == u && Explains(c.graph, order, |order|, lengths, t, k);
    assert c.In(order[k]);
  }

  // ----- the result is determined

  lemma EndsAgree(c: Induced, order: seq<nat>, p: seq<nat>, q: seq<nat>)
    requires MemberOrder(c, order) && IsLongestPath(c, order, p) && IsLongestPath(c, order, q)
    ensures |p| == |q| && p[|p| - 1] == q[|q| - 1]
  {
    var x, y := p[|p| - 1], q[|q| - 1];
    assert c.In(x) && c.In(y);
    OneIsBefore(order, x, y);
    assert !AtMost(c, x, |p| - 2) && !AtMost(c, y, |q| - 2);
  }

  lemma OneIsBefore(order: seq<nat>, x: nat, y: nat)
    requires x in order && y in order
    ensures x == y || Before(order, x, y) || Before(order, y, x)
  {
  }

  lemma {:induction false} TailsAgree(c: Induced, order: seq<nat>, p: seq<nat>, q: seq<nat>, n: nat)
    requires MemberOrder(c, order) && IsLongestPath(c, order, p) && IsLongestPath(c, order, q) && |p| == |q|
    requires n < |p|
    ensures p[|p| - 1 - n] == q[|p| - 1 - n]
  {
    if n == 0 {
      EndsAgree(c, order, p, q);
    } else {
      TailsAgree(c, order, p, q, n - 1);
      var j := |p| - 1 - n;
      StepsAgree(c, order, p, q, j);
    }
  }

  lemma StepsAgree(c: Induced, order: seq<nat>, p: seq<nat>, q: seq<nat>, j: nat)
    requires MemberOrder(c, order) && IsLongestPath(c, order, p) && IsLongestPath(c, order, q) && |p| == |q|
    requires j < |p| - 1 && p[j + 1] == q[j + 1]
    ensures p[j] == q[j]
  {
    assert c.Edge(p[j], p[j + 1]) && c.Edge(q[j], q[j + 1]);
    OneIsBefore(order, p[j], q[j]);
    PathTo(c, p, j);
    PathTo(c, q, j);
  }

  lemma PathTo(c: Induced, p: seq<nat>, j: nat)
    requires c.IsPath(p) && j < |p|
    ensures !AtMost(c, p[j], j - 1)
  {
    var front := p[..j + 1];
    assert forall i :: 0 <= i < |front| - 1 ==> c.Edge(p[i], p[i + 1]);
    assert c.IsPath(front) && front[|front| - 1] == p[j];
  }

  lemma SortedIsMemberOrder(c: Induced, nodes: seq<nat>, order: seq<nat>)
    requires c.Valid() && IsTopologicalOrder(c, nodes, order)
    ensures MemberOrder(c, order)
  {
    hide FirstReadyFirst;
    forall i | 0 <= i < |order| ensures c.In(order[i]) && order[i] < c.graph.bound {
      assert order[i] in order;
    }
  }

  /** The topological order leaves one such path, and it is itself determined. */
  lemma LongestPathIsUnique(c: Induced, nodes: seq<nat>, order: seq<nat>, p: seq<nat>, q: seq<nat>)
    requires c.Valid() && IsTopologicalOrder(c, nodes, order) && (forall x: nat :: x in nodes <==> c.In(x))
    requires IsLongestPath(c, order, p) && IsLongestPath(c, order, q)
    ensures p == q
  {
    SortedIsMemberOrder(c, nodes, order);
    hide IsTopologicalOrder, MemberOrder, IsLongestPath;
    EndsAgree(c, order, p, q);
    forall i | 0 <= i < |p| ensures p[i] == q[i] {
      TailsAgree(c, order, p, q, |p| - 1 - i);
    }
  }

  method LongestPathDag(graph: Graph, elements: seq<nat>) returns (result: PathResult, ghost order: seq<nat>)
    ensures result.CycleError? <==> !InducedBy(graph, elements).Acyclic()
    ensures result.Path? ==> IsTopologicalOrder(InducedBy(graph, elements), Distinct(graph.bound, elements), order)
    ensures result.Path? ==>
      if order == [] then result.path == [] else IsLongestPath(InducedBy(graph, elements), order, result.path)
  {
    var sorted := TopologicalSort(graph, elements);
    order := [];
    if sorted.Cycle? {
      return CycleError, order;
    }
    order := sorted.order;
    if sorted.order == [] {
      return Path([]), order;
    }
    ghost var c := InducedBy(graph, elements);
    var lengths, predecessor, bestEnd, best := RelaxAll(graph, sorted.order, c);
    var back := WalkBack(lengths, predecessor, bestEnd.value, c, order);
    WalkIsLongest(c, order, lengths[..], predecessor[..], best, back);
    result := Path(Reversed(back));
  }
}
