/** Breadth-first hop distances over an induced subgraph (`oxgraph-algo/src/sssp.rs`). */
module Sssp {
  import opened Topology

  /** A listed element with its hop distance. */
  type Hop = (nat, nat)

  /** The `edge`-th connection of the `row`-th listed element. */
  datatype Probe = Probe(row: nat, edge: nat)

  predicate NoLater(a: Probe, b: Probe) {
    a.row < b.row || (a.row == b.row && a.edge <= b.edge)
  }

  predicate Sooner(a: Probe, b: Probe) {
    NoLater(a, b) && a != b
  }

  predicate Probes(c: Induced, hops: seq<Hop>, p: Probe, x: nat) {
    p.row < |hops| && p.edge < |c.graph.succ(hops[p.row].0)| && c.graph.succ(hops[p.row].0)[p.edge] == x
  }

  /** The source comes first at distance 0; every later entry was discovered through one probe of
      an earlier entry, one hop further out, and probes are in scanning order. */
  ghost predicate Layered(c: Induced, source: nat, hops: seq<Hop>, found: seq<Probe>) {
    && |found| == |hops| > 0 && hops[0] == (source, 0)
    && (forall j :: 0 <= j < |hops| ==> c.In(hops[j].0))
    && (forall j {:trigger found[j]} :: 1 <= j < |hops| ==>
          && found[j].row < j && Probes(c, hops, found[j], hops[j].0)
          && hops[j].1 == hops[found[j].row].1 + 1)
    && (forall i, j :: 1 <= i < j < |hops| ==> Sooner(found[i], found[j]))
    && (forall i, j :: 0 <= i < j < |hops| ==> hops[i].0 != hops[j].0)
  }

  /** The member reached by probe `p` is listed and was discovered no later than by `p`. */
  ghost predicate ListedBy(hops: seq<Hop>, found: seq<Probe>, x: nat, p: Probe)
    requires |found| == |hops|
  {
    exists j :: 0 <= j < |hops| && hops[j].0 == x && (j == 0 || NoLater(found[j], p))
  }

  /** Every probe sooner than `next` has been scanned. */
  ghost predicate Scanned(c: Induced, hops: seq<Hop>, found: seq<Probe>, next: Probe)
    requires |found| == |hops|
  {
    forall p, x {:trigger Probes(c, hops, p, x)} ::
      Sooner(p, next) && Probes(c, hops, p, x) && c.In(x) ==> ListedBy(hops, found, x, p)
  }

  ghost predicate FoundBefore(found: seq<Probe>, next: Probe) {
    forall j :: 1 <= j < |found| ==> Sooner(found[j], next)
  }

  ghost predicate VisitedOk(visited: seq<bool>, hops: seq<Hop>) {
    forall x :: 0 <= x < |visited| ==> (visited[x] <==> exists j :: 0 <= j < |hops| && hops[j].0 == x)
  }

  // ----- what a finished scan means

  lemma {:induction false} DistancesAscend(c: Induced, source: nat, hops: seq<Hop>, found: seq<Probe>, i: nat, j: nat)
    requires Layered(c, source, hops, found) && i <= j < |hops|
    ensures hops[i].1 <= hops[j].1
    decreases j
  {
    if 0 < i < j {
      assert Sooner(found[i], found[j]);
      DistancesAscend(c, source, hops, found, found[i].row, found[j].row);
    }
  }

  /** Each listed distance is the length of a real path. */
  lemma {:induction false} HopHasPath(c: Induced, source: nat, hops: seq<Hop>, found: seq<Probe>, j: nat)
    returns (p: seq<nat>)
    requires Layered(c, source, hops, found) && j < |hops|
    ensures c.PathBetween(p, source, hops[j].0) && |p| - 1 == hops[j].1
    decreases j
  {
    if j == 0 {
      p := [source];
    } else {
      var i := found[j].row;
      var q := HopHasPath(c, source, hops, found, i);
      p := q + [hops[j].0];
      assert c.Edge(hops[i].0, hops[j].0);
      forall k | 0 <= k < |p| - 1 ensures c.Edge(p[k], p[k + 1]) {
        if k < |q| - 1 { assert c.Edge(q[k], q[k + 1]); }
      }
    }
  }

  lemma SourceFirst(c: Induced, source: nat, hops: seq<Hop>, found: seq<Probe>)
    requires Layered(c, source, hops, found)
    ensures |hops| > 0 && hops[0] == (source, 0)
  {
  }

  /** Every path from the source ends at a listed element, at a distance of at most its length. */
  lemma {:induction false} PathIsListed(c: Induced, source: nat, hops: seq<Hop>, found: seq<Probe>, p: seq<nat>)
    returns (j: nat)
    requires Layered(c, source, hops, found) && Scanned(c, hops, found, Probe(|hops|, 0))
    requires c.IsPath(p) && p[0] == source
    ensures j < |hops| && hops[j].0 == p[|p| - 1] && hops[j].1 <= |p| - 1
  {
    hide Layered, Scanned;
    SourceFirst(c, source, hops, found);
    if |p| == 1 {
      j := 0;
    } else {
      var q, u, x := p[..|p| - 1], p[|p| - 2], p[|p| - 1];
      assert forall k :: 0 <= k < |q| - 1 ==> c.Edge(p[k], p[k + 1]);
      assert c.Edge(u, x);
      var i := PathIsListed(c, source, hops, found, q);
      j := NextIsListed(c, source, hops, found, i, x);
    }
  }

  /** Whatever a listed element is connected to is listed, at most one hop further. */
  lemma NextIsListed(c: Induced, source: nat, hops: seq<Hop>, found: seq<Probe>, i: nat, x: nat) returns (j: nat)
    requires Layered(c, source, hops, found) && Scanned(c, hops, found, Probe(|hops|, 0))
    requires i < |hops| && c.Edge(hops[i].0, x)
    ensures j < |hops| && hops[j].0 == x && hops[j].1 <= hops[i].1 + 1
  {
    var u := hops[i].0;
    var e :| 0 <= e < |c.graph.succ(u)| && c.graph.succ(u)[e] == x;
    assert Probes(c, hops, Probe(i, e), x) && Sooner(Probe(i, e), Probe(|hops|, 0));
    assert ListedBy(hops, found, x, Probe(i, e));
    j :| 0 <= j < |hops| && hops[j].0 == x && (j == 0 || NoLater(found[j], Probe(i, e)));
    if j > 0 {
      DistancesAscend(c, source, hops, found, found[j].row, i);
    }
  }

  ghost predicate ShortestDistance(c: Induced, source: nat, x: nat, d: nat) {
    && (exists p :: c.PathBetween(p, source, x) && |p| - 1 == d)
    && (forall p :: c.PathBetween(p, source, x) ==> d <= |p| - 1)
  }

  /** `hops` lists exactly the elements reachable from the source, each once and with its least hop
      count, by non-decreasing distance, in the order a breadth-first scan first meets them. */
  ghost predicate AreShortestDistances(c: Induced, source: nat, hops: seq<Hop>) {
    && (forall i, j :: 0 <= i < j < |hops| ==> hops[i].0 != hops[j].0 && hops[i].1 <= hops[j].1)
    && (forall j :: 0 <= j < |hops| ==> ShortestDistance(c, source, hops[j].0, hops[j].1))
    && (forall x: nat :: c.Reach(source, x) ==> exists j :: 0 <= j < |hops| && hops[j].0 == x)
    && exists found :: Layered(c, source, hops, found) && Scanned(c, hops, found, Probe(|hops|, 0))
  }

  lemma ScanIsShortest(c: Induced, source: nat, hops: seq<Hop>, found: seq<Probe>)
    requires Layered(c, source, hops, found) && Scanned(c, hops, found, Probe(|hops|, 0))
    ensures AreShortestDistances(c, source, hops)
  {
    forall i, j | 0 <= i < j < |hops| ensures hops[i].1 <= hops[j].1 {
      DistancesAscend(c, source, hops, found, i, j);
    }
    forall j | 0 <= j < |hops| ensures ShortestDistance(c, source, hops[j].0, hops[j].1) {
      var q := HopHasPath(c, source, hops, found, j);
      forall p | c.PathBetween(p, source, hops[j].0) ensures hops[j].1 <= |p| - 1 {
        var k := PathIsListed(c, source, hops, found, p);
      }
    }
    forall x: nat | c.Reach(source, x) ensures exists j :: 0 <= j < |hops| && hops[j].0 == x {
      var p :| c.PathBetween(p, source, x);
      var j := PathIsListed(c, source, hops, found, p);
    }
  }

  // ----- the listing is determined

  ghost predicate IsListing(c: Induced, source: nat, hops: seq<Hop>, found: seq<Probe>) {
    Layered(c, source, hops, found) && Scanned(c, hops, found, Probe(|hops|, 0))
  }

  lemma HopFacts(c: Induced, source: nat, hops: seq<Hop>, found: seq<Probe>, j: nat)
    requires Layered(c, source, hops, found) && 0 < j < |hops|
    ensures |found| == |hops| && found[j].row < j && c.In(hops[j].0) && Probes(c, hops, found[j], hops[j].0)
    ensures hops[j].1 == hops[found[j].row].1 + 1
    ensures forall k :: 1 <= k < j ==> Sooner(found[k], found[j])
    ensures forall k :: 0 <= k < j ==> hops[k].0 != hops[j].0
  {
    hide Probes, Sooner, Induced.In;
  }

  lemma SameRow(a: seq<Hop>, b: seq<Hop>, n: nat, row: nat)
    requires n <= |a| && n <= |b| && a[..n] == b[..n] && row < n
    ensures a[row] == b[row]
  {
    assert a[..n][row] == b[..n][row];
  }

  lemma ProbesOver(c: Induced, a: seq<Hop>, b: seq<Hop>, n: nat, p: Probe, x: nat)
    requires n <= |a| && n <= |b| && a[..n] == b[..n] && p.row < n && Probes(c, a, p, x)
    ensures Probes(c, b, p, x)
  {
    SameRow(a, b, n, p.row);
  }

  lemma SameTarget(c: Induced, a: seq<Hop>, b: seq<Hop>, n: nat, p: Probe, x: nat, y: nat)
    requires n <= |a| && n <= |b| && a[..n] == b[..n] && p.row < n && Probes(c, a, p, x) && Probes(c, b, p, y)
    ensures x == y
  {
    ProbesOver(c, a, b, n, p, x);
  }

  lemma NotLaterNotSooner(c: Induced, source: nat, hops: seq<Hop>, found: seq<Probe>, n: nat, k: nat, p: Probe)
    requires Layered(c, source, hops, found) && 0 < n <= k < |hops| && NoLater(found[k], p)
    ensures !Sooner(p, found[n])
  {
    if n < k { HopFacts(c, source, hops, found, k); }
  }

  lemma ListedSomewhere(c: Induced, source: nat, hops: seq<Hop>, found: seq<Probe>, p: Probe, x: nat) returns (k: nat)
    requires IsListing(c, source, hops, found) && Probes(c, hops, p, x) && c.In(x)
    ensures k < |hops| == |found| && hops[k].0 == x && (k == 0 || NoLater(found[k], p))
  {
    assert Sooner(p, Probe(|hops|, 0));
    assert |found| == |hops|;
    hide Layered, Induced.In;
    assert ListedBy(hops, found, x, p);
    k :| 0 <= k < |hops| && hops[k].0 == x && (k == 0 || NoLater(found[k], p));
  }

  /** Where two listings first part, neither was led on by the sooner probe. */
  lemma NotSooner(c: Induced, source: nat, a: seq<Hop>, f: seq<Probe>, b: seq<Hop>, g: seq<Probe>, n: nat)
    requires IsListing(c, source, a, f) && IsListing(c, source, b, g)
    requires 0 < n < |a| && n <= |b| && a[..n] == b[..n]
    ensures |f| == |a| && |g| == |b| && n < |b| && !Sooner(f[n], g[n])
  {
    assert IsListing(c, source, a, f) && |f| == |a|;
    HopFacts(c, source, a, f, n);
    hide Layered, Scanned, Induced.In, Probes, Sooner, NoLater;
    var p, x := f[n], a[n].0;
    ProbesOver(c, a, b, n, p, x);
    var k := ListedSomewhere(c, source, b, g, p, x);
    if k < n {
      SameRow(a, b, n, k);
    } else {
      NotLaterNotSooner(c, source, b, g, n, k, p);
    }
  }

  lemma HopReached(c: Induced, source: nat, hops: seq<Hop>, found: seq<Probe>, j: nat)
    requires IsListing(c, source, hops, found) && 0 < j < |hops|
    ensures j < |found| && found[j].row < j && Probes(c, hops, found[j], hops[j].0)
    ensures hops[j].1 == hops[found[j].row].1 + 1
  {
    HopFacts(c, source, hops, found, j);
  }

  lemma SameProbe(c: Induced, source: nat, a: seq<Hop>, f: seq<Probe>, b: seq<Hop>, g: seq<Probe>, n: nat)
    requires IsListing(c, source, a, f) && IsListing(c, source, b, g)
    requires 0 < n < |a| && n < |b| && a[..n] == b[..n]
    ensures n < |f| && n < |g| && f[n] == g[n]
  {
    hide IsListing;
    NotSooner(c, source, a, f, b, g, n);
    NotSooner(c, source, b, g, a, f, n);
  }

  lemma NextAgrees(c: Induced, source: nat, a: seq<Hop>, f: seq<Probe>, b: seq<Hop>, g: seq<Probe>, n: nat)
    requires IsListing(c, source, a, f) && IsListing(c, source, b, g)
    requires 0 < n < |a| && n < |b| && a[..n] == b[..n]
    ensures a[n] == b[n]
  {
    hide *;
    SameProbe(c, source, a, f, b, g, n);
    HopReached(c, source, a, f, n);
    HopReached(c, source, b, g, n);
    SameTarget(c, a, b, n, f[n], a[n].0, b[n].0);
    SameRow(a, b, n, f[n].row);
  }

  lemma {:induction false} ListingsAgree(c: Induced, source: nat, a: seq<Hop>, f: seq<Probe>, b: seq<Hop>, g: seq<Probe>,
      n: nat)
    requires IsListing(c, source, a, f) && IsListing(c, source, b, g) && n <= |a|
    ensures n <= |b| && a[..n] == b[..n]
  {
    FirstHop(c, source, a, f);
    FirstHop(c, source, b, g);
    hide *;
    if n > 1 {
      ListingsAgree(c, source, a, f, b, g, n - 1);
      NotSooner(c, source, a, f, b, g, n - 1);
      NextAgrees(c, source, a, f, b, g, n - 1);
      OneMoreHop(a, b, n - 1);
    }
  }

  lemma OneMoreHop(a: seq<Hop>, b: seq<Hop>, n: nat)
    requires n < |a| && n < |b| && a[..n] == b[..n] && a[n] == b[n]
    ensures a[..n + 1] == b[..n + 1]
  {
    forall k | 0 <= k < n ensures a[k] == b[k] {
      SameRow(a, b, n, k);
    }
  }

  lemma FirstHop(c: Induced, source: nat, hops: seq<Hop>, found: seq<Probe>)
    requires IsListing(c, source, hops, found)
    ensures hops != [] && hops[0] == (source, 0)
  {
    hide Scanned;
  }

  /** The view and the members leave one listing: distances and order. */
  lemma DistancesAreUnique(c: Induced, source: nat, a: seq<Hop>, b: seq<Hop>)
    requires AreShortestDistances(c, source, a) && AreShortestDistances(c, source, b)
    ensures a == b
  {
    var f :| Layered(c, source, a, f) && Scanned(c, a, f, Probe(|a|, 0));
    var g :| Layered(c, source, b, g) && Scanned(c, b, g, Probe(|b|, 0));
    ListingsAgree(c, source, a, f, b, g, |a|);
    ListingsAgree(c, source, b, g, a, f, |b|);
    assert a[..|a|] == a && b[..|b|] == b;
  }

  // ----- the scan

  lemma SkipProbe(c: Induced, hops: seq<Hop>, found: seq<Probe>, next: Probe)
    requires |found| == |hops| && Scanned(c, hops, found, next) && FoundBefore(found, next)
    requires next.row < |hops| && next.edge < |c.graph.succ(hops[next.row].0)|
    requires var x := c.graph.succ(hops[next.row].0)[next.edge];
      c.In(x) ==> exists j :: 0 <= j < |hops| && hops[j].0 == x
    ensures Scanned(c, hops, found, Probe(next.row, next.edge + 1))
    ensures FoundBefore(found, Probe(next.row, next.edge + 1))
  {
    var later := Probe(next.row, next.edge + 1);
    forall p, x | Sooner(p, later) && Probes(c, hops, p, x) && c.In(x) ensures ListedBy(hops, found, x, p) {
      if p == next {
        var j :| 0 <= j < |hops| && hops[j].0 == x;
      }
    }
  }

  ghost predicate NewProbe(c: Induced, hops: seq<Hop>, found: seq<Probe>, next: Probe, x: nat) {
    && |found| == |hops| && Probes(c, hops, next, x) && c.In(x)
    && forall j :: 0 <= j < |hops| ==> hops[j].0 != x
  }

  lemma ProbesOn(c: Induced, hops: seq<Hop>, p: Probe, x: nat, hop: Hop)
    requires Probes(c, hops, p, x)
    ensures Probes(c, hops + [hop], p, x)
  {
  }

  lemma DiscoverKeepsLayers(c: Induced, source: nat, hops: seq<Hop>, found: seq<Probe>, next: Probe, x: nat)
    requires Layered(c, source, hops, found) && FoundBefore(found, next) && NewProbe(c, hops, found, next, x)
    ensures Layered(c, source, hops + [(x, hops[next.row].1 + 1)], found + [next])
  {
    var hops', found' := hops + [(x, hops[next.row].1 + 1)], found + [next];
    assert next.row < |hops|;
    hide Probes, Sooner, Induced.In;
    forall j | 1 <= j < |hops'|
      ensures found'[j].row < j && Probes(c, hops', found'[j], hops'[j].0) && hops'[j].1 == hops'[found'[j].row].1 + 1
    {
      var p := if j < |hops| then found[j] else next;
      assert found'[j] == p;
      ProbesOn(c, hops, p, hops'[j].0, hops'[|hops|]);
    }
  }

  lemma DiscoverKeepsScan(c: Induced, hops: seq<Hop>, found: seq<Probe>, next: Probe, x: nat, d: nat)
    requires NewProbe(c, hops, found, next, x) && Scanned(c, hops, found, next) && FoundBefore(found, next)
    ensures var later := Probe(next.row, next.edge + 1);
      Scanned(c, hops + [(x, d)], found + [next], later) && FoundBefore(found + [next], later)
  {
    var hops', found' := hops + [(x, d)], found + [next];
    var later := Probe(next.row, next.edge + 1);
    forall p, y | Sooner(p, later) && Probes(c, hops', p, y) && c.In(y) ensures ListedBy(hops', found', y, p) {
      if p == next {
        assert hops'[|hops|].0 == y;
      } else {
        assert Probes(c, hops, p, y);
        var j :| 0 <= j < |hops| && hops[j].0 == y && (j == 0 || NoLater(found[j], p));
        assert hops'[j].0 == y;
      }
    }
  }

  lemma NextRow(c: Induced, hops: seq<Hop>, found: seq<Probe>, row: nat)
    requires |found| == |hops| && row < |hops|
    requires Scanned(c, hops, found, Probe(row, |c.graph.succ(hops[row].0)|))
    requires FoundBefore(found, Probe(row, |c.graph.succ(hops[row].0)|))
    ensures Scanned(c, hops, found, Probe(row + 1, 0)) && FoundBefore(found, Probe(row + 1, 0))
  {
  }

  lemma MarkVisited(visited: seq<bool>, hops: seq<Hop>, x: nat, d: nat)
    requires x < |visited| && !visited[x] && VisitedOk(visited, hops)
    ensures VisitedOk(visited[x := true], hops + [(x, d)])
    ensures forall j :: 0 <= j < |hops| ==> hops[j].0 != x
  {
    var hops', visited' := hops + [(x, d)], visited[x := true];
    assert hops'[|hops|].0 == x;
    forall y: nat | y < |visited|
      ensures visited'[y] <==> exists j :: 0 <= j < |hops'| && hops'[j].0 == y
    {
      if j :| 0 <= j < |hops| && hops[j].0 == y { assert hops'[j].0 == y; }
    }
  }

  lemma MemberIsListed(c: Induced, visited: seq<bool>, hops: seq<Hop>, x: nat)
    requires c.Valid() && |visited| == c.graph.bound && VisitedOk(visited, hops)
    requires c.In(x) ==> visited[x]
    ensures c.In(x) ==> exists j :: 0 <= j < |hops| && hops[j].0 == x
  {
  }

  /** Scans the connections of the element just listed, queueing the members met first here. */
  method ScanRow(c: Induced, source: nat, distances: seq<Hop>, queue: seq<Hop>, visited: array<bool>,
      ghost found: seq<Probe>)
    returns (queue': seq<Hop>, ghost found': seq<Probe>)
    requires c.Valid() && visited.Length == c.graph.bound && distances != []
    requires Layered(c, source, distances + queue, found) && VisitedOk(visited[..], distances + queue)
    requires Scanned(c, distances + queue, found, Probe(|distances| - 1, 0))
    requires FoundBefore(found, Probe(|distances| - 1, 0))
    modifies visited
    ensures Layered(c, source, distances + queue', found') && VisitedOk(visited[..], distances + queue')
    ensures Scanned(c, distances + queue', found', Probe(|distances|, 0)) && FoundBefore(found', Probe(|distances|, 0))
  {
    hide Layered, Scanned, FoundBefore, VisitedOk;
    var row := |distances| - 1;
    var (node, distance) := distances[row];
    var successors := c.graph.succ(node);
    queue', found' := queue, found;
    LayeredLength(c, source, distances + queue, found);
    for k := 0 to |successors|
      invariant Layered(c, source, distances + queue', found') && VisitedOk(visited[..], distances + queue')
      invariant |found'| == |distances + queue'|
      invariant Scanned(c, distances + queue', found', Probe(row, k)) && FoundBefore(found', Probe(row, k))
    {
      var target := successors[k];
      ghost var hops := distances + queue';
      assert hops[row] == (node, distance);
      if target < c.graph.bound && c.member[target] && !visited[target] {
        MarkVisited(visited[..], hops, target, distance + 1);
        DiscoverKeepsLayers(c, source, hops, found', Probe(row, k), target);
        DiscoverKeepsScan(c, hops, found', Probe(row, k), target, distance + 1);
        visited[target] := true;
        queue' := queue' + [(target, distance + 1)];
        found' := found' + [Probe(row, k)];
        assert distances + queue' == hops + [(target, distance + 1)];
      } else {
        MemberIsListed(c, visited[..], hops, target);
        SkipProbe(c, hops, found', Probe(row, k));
      }
    }
    assert (distances + queue')[row] == distances[row];
    NextRow(c, distances + queue', found', row);
  }

  ghost function Listed(hops: seq<Hop>): (r: set<nat>)
    ensures forall x :: x in r <==> exists j :: 0 <= j < |hops| && hops[j].0 == x
  {
    if hops == [] then {}
    else
      var r := Listed(hops[1..]) + {hops[0].0};
      assert forall j :: 1 <= j < |hops| ==> hops[j] == hops[1..][j - 1];
      assert forall j :: 0 <= j < |hops| - 1 ==> hops[1..][j] == hops[j + 1];
      r
  }

  method ShortestPathLengths(graph: Graph, source: nat, elements: seq<nat>) returns (distances: seq<Hop>)
    ensures distances == [] <==> !InducedBy(graph, elements).In(source)
    ensures distances != [] ==> AreShortestDistances(InducedBy(graph, elements), source, distances)
  {
    hide Layered, Scanned, FoundBefore, VisitedOk, AreShortestDistances, Listed, InducedBy, Distinct;
    var c, _ := CollectMembers(graph, elements);
    if source >= graph.bound || !c.member[source] {
      return [];
    }
    var visited := new bool[graph.bound](_ => false);
    distances := [];
    ghost var found := [Probe(0, 0)];
    visited[source] := true;
    var queue := [(source, 0)];
    assert distances + queue == [(source, 0)];
    StartScan(c, source, visited[..], found[0]);
    while queue != []
      invariant Layered(c, source, distances + queue, found) && VisitedOk(visited[..], distances + queue)
      invariant |found| == |distances + queue| > 0
      invariant Scanned(c, distances + queue, found, Probe(|distances|, 0)) && FoundBefore(found, Probe(|distances|, 0))
      decreases c.Members() - Listed(distances)
    {
      PopIsNew(c, source, distances, queue, found);
      Popped(distances, queue);
      distances := distances + [queue[0]];
      queue, found := ScanRow(c, source, distances, queue[1..], visited, found);
      LayeredLength(c, source, distances + queue, found);
    }
    assert distances + queue == distances;
    ScanIsShortest(c, source, distances, found);
  }

  lemma Popped(distances: seq<Hop>, queue: seq<Hop>)
    requires queue != []
    ensures distances + queue == (distances + [queue[0]]) + queue[1..]
  {
  }

  lemma LayeredLength(c: Induced, source: nat, hops: seq<Hop>, found: seq<Probe>)
    requires Layered(c, source, hops, found)
    ensures |found| == |hops|
  {
  }

  lemma StartScan(c: Induced, source: nat, visited: seq<bool>, p: Probe)
    requires c.In(source) && source < |visited| && forall x :: 0 <= x < |visited| ==> (visited[x] <==> x == source)
    ensures Layered(c, source, [(source, 0)], [p]) && VisitedOk(visited, [(source, 0)])
    ensures Scanned(c, [(source, 0)], [p], Probe(0, 0)) && FoundBefore([p], Probe(0, 0))
  {
    assert [(source, 0)][0].0 == source;
  }

  lemma PopIsNew(c: Induced, source: nat, distances: seq<Hop>, queue: seq<Hop>, found: seq<Probe>)
    requires Layered(c, source, distances + queue, found) && queue != []
    ensures c.Members() - Listed(distances + [queue[0]]) < c.Members() - Listed(distances)
  {
    var hops := distances + queue;
    var next := distances + [queue[0]];
    assert hops[|distances|] == queue[0];
    assert next[|distances|] == queue[0];
    assert forall j :: 0 <= j < |distances| ==> hops[j] == distances[j] == next[j];
    assert queue[0].0 in c.Members() - Listed(distances);
    forall x | x in Listed(distances) ensures x in Listed(next) {
      var j :| 0 <= j < |distances| && distances[j].0 == x;
      assert next[j].0 == x;
    }
  }
}
