/** Directed views and induced subgraphs. */
module Topology {
  import opened Options

  /** A view: the exclusive index bound and the outgoing elements of each element. */
  datatype Graph = Graph(bound: nat, succ: nat -> seq<nat>)

  /** A view together with the membership marker of the subgraph that a caller-chosen element list
      induces. Every algorithm in `oxgraph-algo` that takes an element list works on it: duplicate and
      out-of-bound elements are dropped, and edges that leave the member set are ignored. Elements are
      identified with their dense index. */
  datatype Induced = Induced(graph: Graph, member: seq<bool>) {

    predicate Valid() {
      |member| == graph.bound
    }

    predicate In(x: nat) {
      x < |member| && member[x]
    }

    ghost function Members(): (s: set<nat>)
      ensures forall x :: x in s <==> In(x)
    {
      set x: nat | x < |member| && In(x)
    }

    predicate Edge(u: nat, v: nat) {
      In(u) && In(v) && v in graph.succ(u)
    }

    /** A nonempty walk along induced edges. */
    ghost predicate IsPath(p: seq<nat>) {
      && |p| > 0
      && (forall i :: 0 <= i < |p| ==> In(p[i]))
      && (forall i :: 0 <= i < |p| - 1 ==> Edge(p[i], p[i + 1]))
    }

    ghost predicate PathBetween(p: seq<nat>, a: nat, b: nat) {
      IsPath(p) && p[0] == a && p[|p| - 1] == b
    }

    ghost predicate Reach(a: nat, b: nat) {
      exists p :: PathBetween(p, a, b)
    }

    ghost predicate IsCycle(p: seq<nat>) {
      |p| > 1 && IsPath(p) && p[0] == p[|p| - 1]
    }

    ghost predicate Acyclic() {
      forall p :: !IsCycle(p)
    }
  }

  /** The member marker that an element list induces on a view. */
  function InducedBy(g: Graph, elements: seq<nat>): (c: Induced)
    ensures c.Valid() && c.graph == g
    ensures forall x: nat :: c.In(x) <==> x < g.bound && x in elements
  {
    Induced(g, seq(g.bound, i requires 0 <= i < g.bound => i in elements))
  }

  /** The first in-bound occurrence of every listed element, in input order. */
  function Distinct(bound: nat, elements: seq<nat>): (nodes: seq<nat>)
    ensures NoDuplicates(nodes)
    ensures forall x :: x in nodes <==> x < bound && x in elements
  {
    if elements == [] then []
    else
      var last := elements[|elements| - 1];
      var prefix := Distinct(bound, elements[..|elements| - 1]);
      assert elements == elements[..|elements| - 1] + [last];
      if last < bound && last !in prefix then prefix + [last] else prefix
  }

  /** `Distinct` keeps input order: each kept element first occurs before the next one. */
  lemma {:induction false} DistinctKeepsInputOrder(bound: nat, elements: seq<nat>, i: nat, j: nat)
    requires i < j < |Distinct(bound, elements)|
    ensures exists k :: 0 <= k <= |elements|
                        && Distinct(bound, elements)[i] in elements[..k]
                        && Distinct(bound, elements)[j] !in elements[..k]
  {
    var last := elements[|elements| - 1];
    var front := elements[..|elements| - 1];
    var nodes := Distinct(bound, elements);
    var prefix := Distinct(bound, front);
    if j < |prefix| {
      DistinctKeepsInputOrder(bound, front, i, j);
      var k :| 0 <= k <= |front| && prefix[i] in front[..k] && prefix[j] !in front[..k];
      assert front[..k] == elements[..k];
    } else {
      assert nodes[i] in prefix && last !in front;
      assert elements[..|front|] == front;
    }
  }

  /** The membership pass that opens every induced-subgraph algorithm. */
  method CollectMembers(g: Graph, elements: seq<nat>) returns (ctx: Induced, nodes: seq<nat>)
    ensures ctx == InducedBy(g, elements)
    ensures nodes == Distinct(g.bound, elements)
  {
    var member := new bool[g.bound](i => false);
    nodes := [];
    for n := 0 to |elements|
      invariant nodes == Distinct(g.bound, elements[..n])
      invariant forall i :: 0 <= i < g.bound ==> (member[i] <==> i in elements[..n])
    {
      var index := elements[n];
      assert elements[..n + 1][..n] == elements[..n];
      assert elements[..n + 1] == elements[..n] + [index];
      if index < g.bound && !member[index] {
        member[index] := true;
        nodes := nodes + [index];
      }
    }
    assert elements[..|elements|] == elements;
    ctx := Induced(g, member[..]);
    assert ctx.member == InducedBy(g, elements).member;
  }

  // Reachability facts.

  lemma ReachRefl(c: Induced, a: nat)
    requires c.In(a)
    ensures c.Reach(a, a)
  {
    assert c.PathBetween([a], a, a);
  }

  lemma ReachEdge(c: Induced, a: nat, b: nat)
    requires c.Edge(a, b)
    ensures c.Reach(a, b)
  {
    assert c.PathBetween([a, b], a, b);
  }

  lemma JoinPaths(c: Induced, p: seq<nat>, q: seq<nat>)
    requires c.IsPath(p) && c.IsPath(q) && p[|p| - 1] == q[0]
    ensures c.PathBetween(p + q[1..], p[0], q[|q| - 1])
  {
    var r := p + q[1..];
    forall i | 0 <= i < |r| - 1
      ensures c.Edge(r[i], r[i + 1])
    {
      if i < |p| - 1 {
        assert c.Edge(p[i], p[i + 1]);
      } else {
        assert c.Edge(q[i - |p| + 1], q[i - |p| + 2]);
        assert r[i] == q[i - |p| + 1];
      }
    }
  }

  lemma ReachTrans(c: Induced, x: nat, y: nat, z: nat)
    requires c.Reach(x, y) && c.Reach(y, z)
    ensures c.Reach(x, z)
  {
    var p :| c.PathBetween(p, x, y);
    var q :| c.PathBetween(q, y, z);
    JoinPaths(c, p, q);
  }

  lemma ReachIsInduced(c: Induced, a: nat, b: nat)
    requires c.Reach(a, b)
    ensures c.In(a) && c.In(b)
  {
    var p :| c.PathBetween(p, a, b);
    assert c.In(p[0]) && c.In(p[|p| - 1]);
  }

  ghost predicate Closed(c: Induced, s: set<nat>) {
    forall x, y :: x in s && c.Edge(x, y) ==> y in s
  }

  lemma ClosedUnderReach(c: Induced, s: set<nat>, a: nat, b: nat)
    requires Closed(c, s) && a in s && c.Reach(a, b)
    ensures b in s
  {
    var p :| c.PathBetween(p, a, b);
    ClosedAlongPath(c, s, p);
  }

  lemma {:induction false} ClosedAlongPath(c: Induced, s: set<nat>, p: seq<nat>)
    requires Closed(c, s) && c.IsPath(p) && p[0] in s
    ensures p[|p| - 1] in s
    decreases |p|
  {
    if |p| > 1 {
      assert c.Edge(p[0], p[1]);
      var rest := p[1..];
      forall i | 0 <= i < |rest| - 1
        ensures c.Edge(rest[i], rest[i + 1])
      {
        assert c.Edge(p[i + 1], p[i + 2]);
      }
      ClosedAlongPath(c, s, rest);
    }
  }

  // ----- sizes of index sets

  lemma SubsetSize(a: set<nat>, b: set<nat>)
    requires a <= b
    ensures |a| <= |b|
  {
    assert b == a + (b - a);
  }

  lemma {:induction false} IndexSetSize(n: nat, s: set<nat>)
    requires forall x :: x in s ==> x < n
    ensures |s| <= n
  {
    if n > 0 {
      IndexSetSize(n - 1, s - {n - 1});
    }
  }

  // ----- shared pieces

  /** Hangs the chaining of a transitive relation on its middle element. */
  ghost predicate Via(x: nat, y: nat, z: nat) { true }

  function Reversed(s: seq<nat>): (r: seq<nat>)
    ensures |r| == |s| && forall i :: 0 <= i < |s| ==> r[i] == s[|s| - 1 - i]
  {
    seq(|s|, i requires 0 <= i < |s| => s[|s| - 1 - i])
  }

  /** The place of `x` in the list, or its length. */
  function Pos(nodes: seq<nat>, x: nat): (p: nat)
    ensures if x in nodes then p < |nodes| && nodes[p] == x else p == |nodes|
  {
    if nodes == [] || nodes[0] == x then 0 else 1 + Pos(nodes[1..], x)
  }

  lemma PosIsPlace(nodes: seq<nat>, x: nat, at: nat)
    requires NoDuplicates(nodes) && at < |nodes| && nodes[at] == x
    ensures Pos(nodes, x) == at
  {
  }
}
