/** Kahn's topological sort over an induced subgraph (`oxgraph-algo/src/toposort.rs`). */
module Toposort {
  import opened Options
  import opened Topology

  datatype SortResult = Sorted(order: seq<nat>) | Cycle

  /** How often `x` occurs in `s`: parallel edges count with multiplicity. */
  function Count(s: seq<nat>, x: nat): (n: nat)
    ensures n > 0 <==> x in s
  {
    if s == [] then 0
    else
      assert s == s[..|s| - 1] + [s[|s| - 1]];
      Count(s[..|s| - 1], x) + (if s[|s| - 1] == x then 1 else 0)
  }

  lemma {:induction false} CountSplit(a: seq<nat>, b: seq<nat>, x: nat)
    ensures Count(a + b, x) == Count(a, x) + Count(b, x)
  {
    if b == [] {
      assert a + b == a;
    } else {
      assert (a + b)[..|a + b| - 1] == a + b[..|b| - 1];
      CountSplit(a, b[..|b| - 1], x);
    }
  }

  ghost function ToSet(s: seq<nat>): (r: set<nat>)
    ensures forall x :: x in r <==> x in s
  {
    set x | x in s
  }

  /** The edges into `t`, with multiplicity, from listed nodes that are not yet expanded. */
  ghost function Pending(c: Induced, nodes: seq<nat>, done: set<nat>, t: nat): nat {
    if nodes == [] then 0
    else
      var u := nodes[|nodes| - 1];
      Pending(c, nodes[..|nodes| - 1], done, t) + (if u in done then 0 else Count(c.graph.succ(u), t))
  }

  lemma {:induction false} PendingZero(c: Induced, nodes: seq<nat>, done: set<nat>, t: nat)
    ensures Pending(c, nodes, done, t) == 0 <==> forall u :: u in nodes && u !in done ==> t !in c.graph.succ(u)
  {
    if nodes != [] {
      var front := nodes[..|nodes| - 1];
      assert nodes == front + [nodes[|nodes| - 1]];
      PendingZero(c, front, done, t);
    }
  }

  lemma {:induction false} PendingExpand(c: Induced, nodes: seq<nat>, done: set<nat>, node: nat, t: nat)
    requires NoDuplicates(nodes) && node !in done
    ensures Pending(c, nodes, done, t)
         == Pending(c, nodes, done + {node}, t) + (if node in nodes then Count(c.graph.succ(node), t) else 0)
  {
    if nodes != [] {
      var front, u := nodes[..|nodes| - 1], nodes[|nodes| - 1];
      assert nodes == front + [u];
      PendingExpand(c, front, done, node, t);
    }
  }

  /** Counts the edges into each member from the listed nodes. */
  method CountIndegrees(c: Induced, nodes: seq<nat>) returns (indegree: array<nat>)
    requires c.Valid()
    ensures fresh(indegree) && indegree.Length == c.graph.bound
    ensures forall t :: 0 <= t < c.graph.bound && c.In(t) ==> indegree[t] == Pending(c, nodes, {}, t)
  {
    indegree := new nat[c.graph.bound](_ => 0);
    for n := 0 to |nodes|
      invariant forall t :: 0 <= t < c.graph.bound && c.In(t) ==> indegree[t] == Pending(c, nodes[..n], {}, t)
    {
      var successors := c.graph.succ(nodes[n]);
      assert nodes[..n + 1][..n] == nodes[..n];
      for k := 0 to |successors|
        invariant forall t :: 0 <= t < c.graph.bound && c.In(t) ==>
          indegree[t] == Pending(c, nodes[..n], {}, t) + Count(successors[..k], t)
      {
        assert successors[..k + 1][..k] == successors[..k];
        var target := successors[k];
        if target < c.graph.bound && c.member[target] {
          indegree[target] := indegree[target] + 1;
        }
      }
      assert successors[..|successors|] == successors;
    }
    assert nodes[..|nodes|] == nodes;
  }

  // ----- the order in which elements become ready

  /** When an element enters the queue: as a source, by input position, or after the `edge`-th
      connection of the element expanded at `step`. */
  datatype Stage = Source(at: nat) | After(step: nat, edge: nat)

  predicate Earlier(a: Stage, b: Stage) {
    match (a, b)
    case (Source(m), Source(n)) => m < n
    case (Source(_), After(_, _)) => true
    case (After(_, _), Source(_)) => false
    case (After(i, k), After(j, l)) => i < j || (i == j && k < l)
  }

  /** `x` loses its last unexpanded predecessor at exactly this stage. */
  ghost predicate ReadyAt(c: Induced, nodes: seq<nat>, order: seq<nat>, x: nat, stage: Stage) {
    match stage
    case Source(at) => at < |nodes| && nodes[at] == x && forall u: nat :: !c.Edge(u, x)
    case After(step, edge) =>
      && step < |order| && c.Edge(order[step], x)
      && edge < |c.graph.succ(order[step])| && c.graph.succ(order[step])[edge] == x
      && (forall k :: edge < k < |c.graph.succ(order[step])| ==> c.graph.succ(order[step])[k] != x)
      && (forall u: nat :: c.Edge(u, x) ==> u in order[..step + 1])
  }

  /** The queue is first-in first-out in the stages at which its elements became ready. */
  ghost predicate FirstReadyFirst(c: Induced, nodes: seq<nat>, order: seq<nat>, all: seq<nat>, stages: seq<Stage>) {
    && |stages| == |all|
    && (forall i :: 0 <= i < |all| ==> ReadyAt(c, nodes, order, all[i], stages[i]))
    && (forall i, j :: 0 <= i < j < |all| ==> Earlier(stages[i], stages[j]))
  }

  /** `order` lists every member once, after all of its induced predecessors, first ready first. */
  ghost predicate IsTopologicalOrder(c: Induced, nodes: seq<nat>, order: seq<nat>) {
    && NoDuplicates(order)
    && (forall x: nat :: x in order <==> c.In(x))
    && (forall i, u: nat :: 0 <= i < |order| && c.Edge(u, order[i]) ==> u in order[..i])
    && exists stages :: FirstReadyFirst(c, nodes, order, order, stages)
  }

  // ----- the invariant of the expansion loop

  /** `all` is duplicate-free and lists exactly the members whose indegree is zero. */
  ghost predicate ReadyOk(c: Induced, all: seq<nat>, indegree: seq<nat>) {
    && |indegree| == c.graph.bound && c.Valid()
    && NoDuplicates(all)
    && (forall x: nat :: x in all <==> c.In(x) && indegree[x] == 0)
  }

  /** Each member's indegree counts the edges from unexpanded members and from `rest`, the
      connections of the current element that are still to be relaxed. */
  ghost predicate IndegreeOk(c: Induced, nodes: seq<nat>, done: set<nat>, rest: seq<nat>, indegree: seq<nat>) {
    && |indegree| == c.graph.bound && c.Valid()
    && forall x: nat :: c.In(x) ==> indegree[x] == Pending(c, nodes, done, x) + Count(rest, x)
  }

  ghost predicate Forward(c: Induced, order: seq<nat>) {
    forall i, u: nat :: 0 <= i < |order| && c.Edge(u, order[i]) ==> u in order[..i]
  }

  ghost predicate AllBefore(stages: seq<Stage>, stage: Stage) {
    forall i :: 0 <= i < |stages| ==> Earlier(stages[i], stage)
  }

  ghost predicate ListsMembers(c: Induced, nodes: seq<nat>) {
    NoDuplicates(nodes) && forall x: nat :: x in nodes <==> c.In(x)
  }

  /** A ready element has only expanded predecessors. */
  lemma ReadyHasDonePredecessors(c: Induced, nodes: seq<nat>, done: set<nat>, x: nat)
    requires ListsMembers(c, nodes)
    ensures Pending(c, nodes, done, x) == 0 <==> forall u: nat :: c.In(u) && x in c.graph.succ(u) ==> u in done
  {
    PendingZero(c, nodes, done, x);
  }

  lemma StartExpansion(c: Induced, nodes: seq<nat>, order: seq<nat>, node: nat, queue: seq<nat>, indegree: seq<nat>)
    requires ListsMembers(c, nodes) && ReadyOk(c, order + ([node] + queue), indegree) && Forward(c, order)
    requires IndegreeOk(c, nodes, ToSet(order), [], indegree)
    ensures c.In(node) && node !in order && Forward(c, order + [node])
    ensures IndegreeOk(c, nodes, ToSet(order + [node]), c.graph.succ(node), indegree)
  {
    var all := order + ([node] + queue);
    assert all[|order|] == node;
    assert node in all;
    assert forall i :: 0 <= i < |order| ==> all[i] == order[i];
    var done := ToSet(order);
    assert ToSet(order + [node]) == done + {node};
    forall x: nat | c.In(x)
      ensures indegree[x] == Pending(c, nodes, done + {node}, x) + Count(c.graph.succ(node), x)
    {
      PendingExpand(c, nodes, done, node, x);
    }
    ReadyHasDonePredecessors(c, nodes, done, node);
    assert forall i :: 0 <= i < |order| ==> (order + [node])[..i] == order[..i];
    assert (order + [node])[..|order|] == order;
  }

  /** Relaxing one more connection: a member loses one indegree, and joins when it reaches zero. */
  lemma RelaxMember(c: Induced, nodes: seq<nat>, done: set<nat>, rest: seq<nat>, all: seq<nat>, indegree: seq<nat>)
    requires IndegreeOk(c, nodes, done, rest, indegree) && ReadyOk(c, all, indegree)
    requires rest != [] && c.In(rest[0])
    ensures indegree[rest[0]] > 0
    ensures var lower := indegree[rest[0] := indegree[rest[0]] - 1];
      && IndegreeOk(c, nodes, done, rest[1..], lower)
      && ReadyOk(c, if lower[rest[0]] == 0 then all + [rest[0]] else all, lower)
      && (lower[rest[0]] == 0 ==> Pending(c, nodes, done, rest[0]) == 0 && Count(rest[1..], rest[0]) == 0)
  {
    assert rest == [rest[0]] + rest[1..];
    forall x: nat ensures Count(rest, x) == (if x == rest[0] then 1 else 0) + Count(rest[1..], x) {
      CountSplit([rest[0]], rest[1..], x);
    }
  }

  lemma SkipNonMember(c: Induced, nodes: seq<nat>, done: set<nat>, rest: seq<nat>, indegree: seq<nat>)
    requires IndegreeOk(c, nodes, done, rest, indegree) && rest != [] && !c.In(rest[0])
    ensures IndegreeOk(c, nodes, done, rest[1..], indegree)
  {
    assert rest == [rest[0]] + rest[1..];
    forall x: nat ensures Count(rest, x) == (if x == rest[0] then 1 else 0) + Count(rest[1..], x) {
      CountSplit([rest[0]], rest[1..], x);
    }
  }

  lemma ReadyStage(c: Induced, nodes: seq<nat>, order: seq<nat>, k: nat, all: seq<nat>, stages: seq<Stage>)
    requires ListsMembers(c, nodes) && order != []
    requires var node := order[|order| - 1]; var succ := c.graph.succ(node);
      && c.In(node) && k < |succ| && c.In(succ[k])
      && Pending(c, nodes, ToSet(order), succ[k]) == 0 && Count(succ[k..][1..], succ[k]) == 0
    requires FirstReadyFirst(c, nodes, order, all, stages) && AllBefore(stages, After(|order| - 1, k))
    ensures var x := c.graph.succ(order[|order| - 1])[k];
      FirstReadyFirst(c, nodes, order, all + [x], stages + [After(|order| - 1, k)])
    ensures AllBefore(stages + [After(|order| - 1, k)], After(|order| - 1, k + 1))
  {
    var node := order[|order| - 1];
    var succ := c.graph.succ(node);
    var x := succ[k];
    ReadyHasDonePredecessors(c, nodes, ToSet(order), x);
    assert order[..|order|] == order;
    forall j | k < j < |succ| ensures succ[j] != x {
      assert succ[k..][1..][j - k - 1] == succ[j];
    }
  }

  lemma StagesSurvive(c: Induced, nodes: seq<nat>, order: seq<nat>, node: nat, all: seq<nat>, stages: seq<Stage>)
    requires FirstReadyFirst(c, nodes, order, all, stages)
    ensures FirstReadyFirst(c, nodes, order + [node], all, stages)
    ensures AllBefore(stages, After(|order|, 0))
  {
    forall i | 0 <= i < |all|
      ensures ReadyAt(c, nodes, order + [node], all[i], stages[i]) && Earlier(stages[i], After(|order|, 0))
    {
      assert ReadyAt(c, nodes, order, all[i], stages[i]);
      if stages[i].After? {
        assert (order + [node])[..stages[i].step + 1] == order[..stages[i].step + 1];
      }
    }
  }

  /** Relaxes every connection of the element that was just appended to `order`. */
  method Expand(c: Induced, nodes: seq<nat>, order: seq<nat>, queue: seq<nat>, indegree: array<nat>,
      ghost stages: seq<Stage>)
    returns (queue': seq<nat>, ghost stages': seq<Stage>)
    requires ListsMembers(c, nodes) && order != [] && c.In(order[|order| - 1])
    requires c.Valid() && indegree.Length == c.graph.bound
    requires ReadyOk(c, order + queue, indegree[..])
    requires IndegreeOk(c, nodes, ToSet(order), c.graph.succ(order[|order| - 1]), indegree[..])
    requires FirstReadyFirst(c, nodes, order, order + queue, stages) && AllBefore(stages, After(|order| - 1, 0))
    modifies indegree
    ensures ReadyOk(c, order + queue', indegree[..])
    ensures IndegreeOk(c, nodes, ToSet(order), [], indegree[..])
    ensures FirstReadyFirst(c, nodes, order, order + queue', stages')
  {
    hide ReadyOk, IndegreeOk, FirstReadyFirst, AllBefore, ListsMembers;
    var successors := c.graph.succ(order[|order| - 1]);
    ghost var done := ToSet(order);
    queue', stages' := queue, stages;
    assert successors[0..] == successors;
    for k := 0 to |successors|
      invariant ReadyOk(c, order + queue', indegree[..])
      invariant IndegreeOk(c, nodes, done, successors[k..], indegree[..])
      invariant FirstReadyFirst(c, nodes, order, order + queue', stages') && AllBefore(stages', After(|order| - 1, k))
    {
      var target := successors[k];
      ghost var rest := successors[k..];
      assert rest[0] == target && rest[1..] == successors[k + 1..];
      if target >= c.graph.bound || !c.member[target] {
        SkipNonMember(c, nodes, done, rest, indegree[..]);
        LaterStage(stages', |order| - 1, k);
        continue;
      }
      RelaxMember(c, nodes, done, rest, order + queue', indegree[..]);
      indegree[target] := indegree[target] - 1;
      if indegree[target] == 0 {
        ReadyStage(c, nodes, order, k, order + queue', stages');
        assert order + (queue' + [target]) == order + queue' + [target];
        queue' := queue' + [target];
        stages' := stages' + [After(|order| - 1, k)];
      } else {
        LaterStage(stages', |order| - 1, k);
      }
    }
  }

  lemma LaterStage(stages: seq<Stage>, step: nat, k: nat)
    requires AllBefore(stages, After(step, k))
    ensures AllBefore(stages, After(step, k + 1))
  {
  }

  // ----- cycles

  /** Along a path the positions in a forward order increase, so no path closes. */
  lemma {:induction false} PathIsForward(c: Induced, order: seq<nat>, p: seq<nat>)
    requires Forward(c, order) && NoDuplicates(order) && (forall x: nat :: c.In(x) ==> x in order)
    requires c.IsPath(p) && |p| > 1
    ensures exists i, j :: 0 <= i < j < |order| && order[i] == p[0] && order[j] == p[|p| - 1]
  {
    var u, x := p[|p| - 2], p[|p| - 1];
    assert c.Edge(u, x);
    var j :| 0 <= j < |order| && order[j] == x;
    assert u in order[..j];
    var m :| 0 <= m < j && order[m] == u;
    if |p| > 2 {
      var q := p[..|p| - 1];
      assert forall i :: 0 <= i < |q| - 1 ==> c.Edge(p[i], p[i + 1]);
      PathIsForward(c, order, q);
    }
  }

  lemma ForwardIsAcyclic(c: Induced, order: seq<nat>)
    requires Forward(c, order) && NoDuplicates(order) && (forall x: nat :: c.In(x) ==> x in order)
    ensures c.Acyclic()
  {
    forall p ensures !c.IsCycle(p) {
      if c.IsCycle(p) {
        PathIsForward(c, order, p);
      }
    }
  }

  ghost predicate HasPredecessor(c: Induced, stuck: set<nat>, x: nat) {
    exists u :: u in stuck && c.Edge(u, x)
  }

  ghost predicate Stuck(c: Induced, stuck: set<nat>) {
    stuck != {} && forall x {:trigger HasPredecessor(c, stuck, x)} :: x in stuck ==> c.In(x) && HasPredecessor(c, stuck, x)
  }

  /** If every element of `stuck` has a predecessor in `stuck`, paths of any length end there. */
  lemma {:induction false} BackwardPath(c: Induced, stuck: set<nat>, n: nat) returns (p: seq<nat>)
    requires Stuck(c, stuck)
    ensures c.IsPath(p) && |p| == n + 1 && forall i :: 0 <= i < |p| ==> p[i] in stuck
  {
    if n == 0 {
      var x :| x in stuck;
      assert HasPredecessor(c, stuck, x);
      p := [x];
    } else {
      p := BackwardPath(c, stuck, n - 1);
      assert HasPredecessor(c, stuck, p[0]);
      var u :| u in stuck && c.Edge(u, p[0]);
      p := PrependEdge(c, u, p);
    }
  }

  lemma PrependEdge(c: Induced, u: nat, p: seq<nat>) returns (q: seq<nat>)
    requires c.IsPath(p) && c.Edge(u, p[0])
    ensures q == [u] + p && c.IsPath(q)
  {
    q := [u] + p;
    forall i | 0 <= i < |q| - 1 ensures c.Edge(q[i], q[i + 1]) {
      if i > 0 { assert c.Edge(p[i - 1], p[i]); }
    }
  }

  /** The stretch of a path between two visits of one element is a cycle. */
  lemma RepeatIsCycle(c: Induced, p: seq<nat>, i: nat, j: nat)
    requires c.IsPath(p) && i < j < |p| && p[i] == p[j]
    ensures c.IsCycle(p[i..j + 1])
  {
    var q := p[i..j + 1];
    forall k | 0 <= k < |q| - 1 ensures c.Edge(q[k], q[k + 1]) {
      assert c.Edge(p[i + k], p[i + k + 1]);
    }
  }

  /** A list longer than the set it draws from repeats an element. */
  lemma {:induction false} Pigeonhole(p: seq<nat>, s: set<nat>) returns (i: nat, j: nat)
    requires |p| > |s| && forall k :: 0 <= k < |p| ==> p[k] in s
    ensures i < j < |p| && p[i] == p[j]
  {
    var x := p[|p| - 1];
    if k :| 0 <= k < |p| - 1 && p[k] == x {
      return k, |p| - 1;
    }
    i, j := Pigeonhole(p[..|p| - 1], s - {x});
  }

  lemma StuckIsCyclic(c: Induced, stuck: set<nat>)
    requires Stuck(c, stuck)
    ensures !c.Acyclic()
  {
    var p := BackwardPath(c, stuck, |stuck|);
    var i, j := Pigeonhole(p, stuck);
    RepeatIsCycle(c, p, i, j);
  }

  /** When the queue runs dry early, the members left over form a cycle. */
  lemma LeftoverIsCyclic(c: Induced, nodes: seq<nat>, order: seq<nat>, indegree: seq<nat>)
    requires ListsMembers(c, nodes) && ReadyOk(c, order, indegree) && IndegreeOk(c, nodes, ToSet(order), [], indegree)
    requires |order| != |nodes|
    ensures !c.Acyclic()
  {
    var stuck := c.Members() - ToSet(order);
    if stuck == {} {
      forall x: nat ensures x in order <==> x in nodes {
        assert x !in stuck;
      }
      SameSetSameLength(order, nodes);
    } else {
      forall x | x in stuck ensures HasPredecessor(c, stuck, x) {
        ReadyHasDonePredecessors(c, nodes, ToSet(order), x);
        var u: nat :| c.In(u) && x in c.graph.succ(u) && u !in order;
        assert u in stuck && c.Edge(u, x);
      }
      StuckIsCyclic(c, stuck);
    }
  }

  lemma {:induction false} SameSetSameLength(a: seq<nat>, b: seq<nat>)
    requires NoDuplicates(a) && NoDuplicates(b) && forall x: nat :: x in a <==> x in b
    ensures |a| == |b|
  {
    CardOfList(a);
    CardOfList(b);
    assert ToSet(a) == ToSet(b);
  }

  lemma {:induction false} CardOfList(a: seq<nat>)
    requires NoDuplicates(a)
    ensures |ToSet(a)| == |a|
  {
    if a != [] {
      var front, x := a[..|a| - 1], a[|a| - 1];
      CardOfList(front);
      assert a == front + [x];
      assert ToSet(a) == ToSet(front) + {x};
    }
  }

  lemma FullOrderListsAll(nodes: seq<nat>, order: seq<nat>, c: Induced)
    requires ListsMembers(c, nodes) && NoDuplicates(order) && (forall x: nat :: x in order ==> c.In(x))
    requires |order| == |nodes|
    ensures forall x: nat :: c.In(x) ==> x in order
  {
    CardOfList(order);
    CardOfList(nodes);
    assert ToSet(order) <= ToSet(nodes);
    if x: nat :| c.In(x) && x !in order {
      assert ToSet(order) <= ToSet(nodes) - {x};
      SubsetSize(ToSet(order), ToSet(nodes) - {x});
    }
  }

  // ----- the sort

  /** Queues the members without predecessors, in input order. */
  method QueueSources(c: Induced, nodes: seq<nat>, indegree: array<nat>)
    returns (queue: seq<nat>, ghost stages: seq<Stage>)
    requires c.Valid() && ListsMembers(c, nodes) && indegree.Length == c.graph.bound
    requires IndegreeOk(c, nodes, {}, [], indegree[..])
    ensures ReadyOk(c, queue, indegree[..]) && FirstReadyFirst(c, nodes, [], queue, stages)
  {
    queue, stages := [], [];
    for n := 0 to |nodes|
      invariant NoDuplicates(queue)
      invariant forall x: nat :: x in queue <==> c.In(x) && x in nodes[..n] && indegree[x] == 0
      invariant FirstReadyFirst(c, nodes, [], queue, stages) && AllBefore(stages, Source(n))
    {
      assert nodes[n] in nodes;
      if indegree[nodes[n]] == 0 {
        ReadyHasDonePredecessors(c, nodes, {}, nodes[n]);
        assert ReadyAt(c, nodes, [], nodes[n], Source(n));
        queue := queue + [nodes[n]];
        stages := stages + [Source(n)];
      }
      assert nodes[..n + 1] == nodes[..n] + [nodes[n]];
    }
    assert nodes[..|nodes|] == nodes;
  }

  method TopologicalSort(graph: Graph, elements: seq<nat>) returns (result: SortResult)
    ensures result.Sorted? <==> InducedBy(graph, elements).Acyclic()
    ensures result.Sorted? ==> IsTopologicalOrder(InducedBy(graph, elements), Distinct(graph.bound, elements), result.order)
  {
    hide ReadyOk, IndegreeOk, FirstReadyFirst, AllBefore, Forward, Induced.Acyclic;
    var c, nodes := CollectMembers(graph, elements);
    var indegree := CountIndegrees(c, nodes);
    InitialIndegree(c, nodes, indegree[..]);
    var queue, stages := QueueSources(c, nodes, indegree);
    var order: seq<nat> := [];
    assert order + queue == queue && ToSet(order) == {};
    assert Forward(c, order) by { EmptyForward(c); }
    while queue != []
      invariant ReadyOk(c, order + queue, indegree[..]) && IndegreeOk(c, nodes, ToSet(order), [], indegree[..])
      invariant Forward(c, order) && FirstReadyFirst(c, nodes, order, order + queue, stages)
      decreases c.Members() - ToSet(order)
    {
      var node := queue[0];
      assert queue == [node] + queue[1..];
      assert order + queue == (order + [node]) + queue[1..];
      StartExpansion(c, nodes, order, node, queue[1..], indegree[..]);
      StagesSurvive(c, nodes, order, node, order + queue, stages);
      assert node in c.Members() - ToSet(order) && node in ToSet(order + [node]);
      order := order + [node];
      queue, stages := Expand(c, nodes, order, queue[1..], indegree, stages);
    }
    assert order + queue == order;
    Conclude(c, nodes, order, indegree[..], stages);
    if |order| == |nodes| {
      return Sorted(order);
    } else {
      return Cycle;
    }
  }

  lemma InitialIndegree(c: Induced, nodes: seq<nat>, indegree: seq<nat>)
    requires c.Valid() && |indegree| == c.graph.bound
    requires forall t :: 0 <= t < c.graph.bound && c.In(t) ==> indegree[t] == Pending(c, nodes, {}, t)
    ensures IndegreeOk(c, nodes, {}, [], indegree)
  {
  }

  lemma EmptyForward(c: Induced)
    ensures Forward(c, [])
  {
  }

  lemma Conclude(c: Induced, nodes: seq<nat>, order: seq<nat>, indegree: seq<nat>, stages: seq<Stage>)
    requires ListsMembers(c, nodes) && ReadyOk(c, order, indegree) && IndegreeOk(c, nodes, ToSet(order), [], indegree)
    requires Forward(c, order) && FirstReadyFirst(c, nodes, order, order, stages)
    ensures |order| == |nodes| ==> IsTopologicalOrder(c, nodes, order)
    ensures |order| == |nodes| <==> c.Acyclic()
  {
    if |order| == |nodes| {
      FullOrderListsAll(nodes, order, c);
      ForwardIsAcyclic(c, order);
    } else {
      LeftoverIsCyclic(c, nodes, order, indegree);
    }
  }
}
