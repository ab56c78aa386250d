/** Depth-first discovery orders of induced subgraphs. */
module DepthFirst {
  import opened Options
  import opened Topology

  /** `u` is connected to a member that `seen` does not list. */
  ghost predicate Open(c: Induced, seen: seq<nat>, u: nat) {
    exists y: nat :: c.Edge(u, y) && y !in seen
  }

  ghost predicate LatestOpen(c: Induced, seen: seq<nat>, k: nat) {
    && k < |seen| && Open(c, seen, seen[k])
    && forall l :: k < l < |seen| ==> !Open(c, seen, seen[l])
  }

  /** `x` is the first member in `xs` that `seen` does not list. */
  ghost predicate FirstNew(c: Induced, seen: seq<nat>, xs: seq<nat>, x: nat) {
    exists i :: 0 <= i < |xs| && xs[i] == x && NewAt(c, seen, xs, i)
  }

  ghost predicate NewAt(c: Induced, seen: seq<nat>, xs: seq<nat>, i: nat) {
    i < |xs| && c.In(xs[i]) && xs[i] !in seen && forall j :: 0 <= j < i && c.In(xs[j]) ==> xs[j] in seen
  }

  /** Depth first: `x` is the first new connection of the latest element that has one, or, when none has, the
      first new element of the list. */
  ghost predicate FoundNext(c: Induced, nodes: seq<nat>, seen: seq<nat>, x: nat) {
    && (forall k: nat :: LatestOpen(c, seen, k) ==> FirstNew(c, seen, c.graph.succ(seen[k]), x))
    && ((forall k: nat :: !LatestOpen(c, seen, k)) ==> FirstNew(c, seen, nodes, x))
  }

  ghost predicate FoundInOrder(c: Induced, nodes: seq<nat>, order: seq<nat>) {
    forall i :: 0 <= i < |order| ==> FoundNext(c, nodes, order[..i], order[i])
  }

  /** `order` lists the members as a depth-first walk started from each of `nodes` in turn discovers them. */
  ghost predicate IsDiscovery(c: Induced, nodes: seq<nat>, order: seq<nat>) {
    NoDuplicates(order) && (forall x: nat :: x in order <==> c.In(x)) && FoundInOrder(c, nodes, order)
  }

  // ----- completion

  /** After `t` discoveries the element at place `p` and all those found since have no connection left to follow. */
  ghost predicate Spent(c: Induced, order: seq<nat>, p: nat, t: nat) {
    p < t <= |order| && forall k :: p <= k < t ==> !Open(c, order[..t], order[k])
  }

  ghost predicate CompletesAt(c: Induced, order: seq<nat>, p: nat, t: nat) {
    Spent(c, order, p, t) && forall u :: p < u < t ==> !Spent(c, order, p, u)
  }

  /** The walk completes the element at `p` before the one at `q`: after fewer discoveries, or on the way back to it. */
  ghost predicate CompletesBefore(c: Induced, order: seq<nat>, p: nat, q: nat) {
    exists t, u :: CompletesAt(c, order, p, t) && CompletesAt(c, order, q, u) && (t < u || (t == u && q < p))
  }

  lemma CompletesAtIsUnique(c: Induced, order: seq<nat>, p: nat, t: nat, u: nat)
    requires CompletesAt(c, order, p, t) && CompletesAt(c, order, p, u)
    ensures t == u
  {
  }

  lemma CompletesOneWay(c: Induced, order: seq<nat>, p: nat, q: nat)
    requires CompletesBefore(c, order, p, q)
    ensures !CompletesBefore(c, order, q, p)
  {
    var t, u :| CompletesAt(c, order, p, t) && CompletesAt(c, order, q, u) && (t < u || (t == u && q < p));
    forall u', t' | CompletesAt(c, order, q, u') && CompletesAt(c, order, p, t') ensures u' == u && t' == t {
      CompletesAtIsUnique(c, order, p, t, t');
      CompletesAtIsUnique(c, order, q, u, u');
    }
  }

  lemma SpentStays(c: Induced, order: seq<nat>, v: nat, p: nat, t: nat)
    requires t <= |order|
    ensures Spent(c, order + [v], p, t) <==> Spent(c, order, p, t)
  {
    assert (order + [v])[..t] == order[..t];
  }

  lemma CompletionStays(c: Induced, order: seq<nat>, v: nat, p: nat, t: nat)
    requires CompletesAt(c, order, p, t)
    ensures CompletesAt(c, order + [v], p, t)
  {
    forall u: nat | u <= t ensures Spent(c, order + [v], p, u) <==> Spent(c, order, p, u) {
      SpentStays(c, order, v, p, u);
    }
  }

  // ----- the order is determined

  lemma FirstNewIsUnique(c: Induced, seen: seq<nat>, xs: seq<nat>, x: nat, y: nat)
    requires FirstNew(c, seen, xs, x) && FirstNew(c, seen, xs, y)
    ensures x == y
  {
    var i :| 0 <= i < |xs| && xs[i] == x && NewAt(c, seen, xs, i);
    var j :| 0 <= j < |xs| && xs[j] == y && NewAt(c, seen, xs, j);
    assert !(i < j) && !(j < i);
  }

  lemma FoundNextIsUnique(c: Induced, nodes: seq<nat>, seen: seq<nat>, x: nat, y: nat)
    requires FoundNext(c, nodes, seen, x) && FoundNext(c, nodes, seen, y)
    ensures x == y
  {
    if k: nat :| LatestOpen(c, seen, k) {
      FirstNewIsUnique(c, seen, c.graph.succ(seen[k]), x, y);
    } else {
      FirstNewIsUnique(c, seen, nodes, x, y);
    }
  }

  lemma {:induction false} PrefixIsUnique(c: Induced, nodes: seq<nat>, a: seq<nat>, b: seq<nat>, n: nat)
    requires FoundInOrder(c, nodes, a) && FoundInOrder(c, nodes, b) && n <= |a| && n <= |b|
    ensures a[..n] == b[..n]
  {
    hide FoundNext;
    if n > 0 {
      PrefixIsUnique(c, nodes, a, b, n - 1);
      AgreeOnNext(c, nodes, a, b, n - 1);
    }
  }

  lemma AgreeOnNext(c: Induced, nodes: seq<nat>, a: seq<nat>, b: seq<nat>, n: nat)
    requires n < |a| && n < |b| && a[..n] == b[..n]
    requires FoundNext(c, nodes, a[..n], a[n]) && FoundNext(c, nodes, b[..n], b[n])
    ensures a[..n + 1] == b[..n + 1]
  {
    hide FoundNext;
    FoundNextIsUnique(c, nodes, a[..n], a[n], b[n]);
    assert a[..n + 1] == a[..n] + [a[n]] && b[..n + 1] == b[..n] + [b[n]];
  }

  /** The view and the list leave one discovery order. */
  lemma DiscoveryIsUnique(c: Induced, nodes: seq<nat>, a: seq<nat>, b: seq<nat>)
    requires IsDiscovery(c, nodes, a) && IsDiscovery(c, nodes, b)
    ensures a == b
  {
    hide FoundInOrder;
    CountedOnce(a, c.Members());
    CountedOnce(b, c.Members());
    PrefixIsUnique(c, nodes, a, b, |a|);
    assert a[..|a|] == a && b[..|a|] == b;
  }

  lemma {:induction false} CountedOnce(xs: seq<nat>, s: set<nat>)
    requires NoDuplicates(xs) && forall x: nat :: x in xs <==> x in s
    ensures |xs| == |s|
  {
    if xs != [] {
      var front, last := xs[..|xs| - 1], xs[|xs| - 1];
      assert xs == front + [last];
      CountedOnce(front, s - {last});
    }
  }
}
