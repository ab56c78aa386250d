/** Ties in the topological order: what order is returned, and when it follows the input. */
module TieRule {
  import opened Options
  import opened Topology
  import opened Toposort

  // ----- the order is determined

  /** Two complete orders that agree before `i` agree on when an element with all its predecessors there became ready. */
  lemma StagesAgree(c: Induced, nodes: seq<nat>, a: seq<nat>, b: seq<nat>, i: nat, x: nat, s: Stage, t: Stage)
    requires NoDuplicates(nodes) && NoDuplicates(a) && NoDuplicates(b) && i <= |a| && i <= |b| && a[..i] == b[..i]
    requires forall u: nat :: c.Edge(u, x) ==> u in a[..i]
    requires ReadyAt(c, nodes, a, x, s) && ReadyAt(c, nodes, b, x, t)
    ensures s == t
  {
    if s.After? && t.After? {
      var p, q := a[s.step], b[t.step];
      assert p in a[..i] && q in b[..i] && p in b[..t.step + 1] && q in a[..s.step + 1];
      assert a[..i][s.step] == b[..i][s.step] && a[..i][t.step] == b[..i][t.step];
    }
  }

  lemma OrderFacts(c: Induced, nodes: seq<nat>, order: seq<nat>, stages: seq<Stage>, i: nat)
    requires IsTopologicalOrder(c, nodes, order) && FirstReadyFirst(c, nodes, order, order, stages) && i < |order|
    ensures NoDuplicates(order) && |stages| == |order| && ReadyAt(c, nodes, order, order[i], stages[i])
    ensures forall u: nat :: c.Edge(u, order[i]) ==> u in order[..i]
    ensures forall j :: i < j < |order| ==> Earlier(stages[i], stages[j])
  {
  }

  lemma PlaceIn(a: seq<nat>, b: seq<nat>, i: nat) returns (j: nat)
    requires NoDuplicates(a) && i < |a| && i <= |b| && a[..i] == b[..i] && a[i] in b
    ensures i <= j < |b| && b[j] == a[i]
  {
    j :| 0 <= j < |b| && b[j] == a[i];
  }

  lemma AgreeOneMore(c: Induced, nodes: seq<nat>, a: seq<nat>, b: seq<nat>, s: seq<Stage>, t: seq<Stage>, i: nat)
    requires NoDuplicates(nodes) && IsTopologicalOrder(c, nodes, a) && IsTopologicalOrder(c, nodes, b)
    requires FirstReadyFirst(c, nodes, a, a, s) && FirstReadyFirst(c, nodes, b, b, t)
    requires i < |a| && i < |b| && a[..i] == b[..i]
    requires forall x: nat :: x in a <==> x in b
    ensures a[i] == b[i]
  {
    hide *;
    OrderFacts(c, nodes, a, s, i);
    OrderFacts(c, nodes, b, t, i);
    assert a[i] in b && b[i] in a;
    var j := PlaceIn(a, b, i);
    var k := PlaceIn(b, a, i);
    OrderFacts(c, nodes, a, s, k);
    OrderFacts(c, nodes, b, t, j);
    StagesAgree(c, nodes, a, b, i, a[i], s[i], t[j]);
    StagesAgree(c, nodes, b, a, i, b[i], t[i], s[k]);
    EarlierIsStrict(s[i], t[i]);
  }

  lemma EarlierIsStrict(a: Stage, b: Stage)
    ensures !Earlier(a, a) && !(Earlier(a, b) && Earlier(b, a))
  {
  }

  lemma ListsEvery(c: Induced, nodes: seq<nat>, order: seq<nat>)
    requires IsTopologicalOrder(c, nodes, order)
    ensures NoDuplicates(order) && forall x: nat :: x in order <==> c.In(x)
  {
  }

  /** At most one order lists every member after its predecessors, first ready first: the output is determined. */
  lemma {:induction false} OrderIsUnique(c: Induced, nodes: seq<nat>, a: seq<nat>, b: seq<nat>)
    requires NoDuplicates(nodes) && IsTopologicalOrder(c, nodes, a) && IsTopologicalOrder(c, nodes, b)
    ensures a == b
  {
    ListsEvery(c, nodes, a);
    ListsEvery(c, nodes, b);
    var s :| FirstReadyFirst(c, nodes, a, a, s);
    var t :| FirstReadyFirst(c, nodes, b, b, t);
    hide *;
    SameSetSameLength(a, b);
    for i := 0 to |a|
      invariant a[..i] == b[..i]
    {
      AgreeOneMore(c, nodes, a, b, s, t, i);
      SnocAgrees(a, b, i);
    }
    assert a[..|a|] == a && b[..|b|] == b;
  }

  lemma SnocAgrees(a: seq<nat>, b: seq<nat>, i: nat)
    requires i < |a| && i < |b| && a[..i] == b[..i] && a[i] == b[i]
    ensures a[..i + 1] == b[..i + 1]
  {
  }

  // ----- the documented rule

  /** The documented order: each element comes before every later-listed one that was also ready by then. */
  ghost predicate FollowsInput(c: Induced, nodes: seq<nat>, order: seq<nat>) {
    forall i, j :: 0 <= i < j < |order| && ReadyBefore(c, order, i, j) ==> Pos(nodes, order[i]) < Pos(nodes, order[j])
  }

  /** All predecessors of the `j`-th element returned are among the first `i`. */
  ghost predicate ReadyBefore(c: Induced, order: seq<nat>, i: nat, j: nat)
    requires i <= |order| && j < |order|
  {
    forall u: nat :: c.Edge(u, order[j]) ==> u in order[..i]
  }

  /** `level[x]` is the length of the longest induced path that ends at `x`. */
  ghost predicate IsLevels(c: Induced, level: seq<nat>) {
    && |level| == |c.member|
    && (forall u: nat, x: nat :: c.Edge(u, x) ==> level[u] < level[x])
    && (forall x: nat {:trigger HasLower(c, level, x)} :: c.In(x) && level[x] > 0 ==> HasLower(c, level, x))
  }

  ghost predicate HasLower(c: Induced, level: seq<nat>, x: nat)
    requires |level| == |c.member|
  {
    c.In(x) && exists u: nat :: c.Edge(u, x) && level[u] + 1 == level[x]
  }

  lemma {:induction false} PathBelowLevel(c: Induced, level: seq<nat>, p: seq<nat>)
    requires IsLevels(c, level) && c.IsPath(p)
    ensures c.In(p[|p| - 1]) && |p| - 1 <= level[p[|p| - 1]]
  {
    if |p| > 1 {
      var q := p[..|p| - 1];
      PathBelowLevel(c, level, q);
      assert c.Edge(p[|p| - 2], p[|p| - 1]);
    }
  }

  lemma {:induction false} LevelHasPath(c: Induced, level: seq<nat>, x: nat) returns (p: seq<nat>)
    requires IsLevels(c, level) && c.In(x)
    ensures c.IsPath(p) && p[|p| - 1] == x && |p| - 1 == level[x]
    decreases level[x]
  {
    if level[x] == 0 {
      p := [x];
    } else {
      assert HasLower(c, level, x);
      var u: nat :| c.Edge(u, x) && level[u] + 1 == level[x];
      var q := LevelHasPath(c, level, u);
      p := q + [x];
      assert forall i :: 0 <= i < |p| - 1 ==> c.Edge(p[i], p[i + 1]);
    }
  }

  /** `u` is the latest-listed predecessor of `x` one level below it. */
  ghost predicate Latest(c: Induced, nodes: seq<nat>, level: seq<nat>, u: nat, x: nat)
    requires |level| == |c.member|
  {
    && c.Edge(u, x) && level[u] + 1 == level[x]
    && forall v: nat :: c.Edge(v, x) && level[v] + 1 == level[x] ==> Pos(nodes, v) <= Pos(nodes, u)
  }

  /** The last connection from `u` to `x` is its `e`-th. */
  ghost predicate Meets(c: Induced, u: nat, x: nat, e: nat) {
    e < |c.graph.succ(u)| && c.graph.succ(u)[e] == x && forall k :: e < k < |c.graph.succ(u)| ==> c.graph.succ(u)[k] != x
  }

  /** The latest-listed predecessors decide for `x`; when they are the same, the order of its connections does. */
  ghost predicate Sooner(c: Induced, nodes: seq<nat>, level: seq<nat>, x: nat, y: nat)
    requires |level| == |c.member|
  {
    exists u: nat, v: nat :: Latest(c, nodes, level, u, x) && Latest(c, nodes, level, v, y)
      && (Pos(nodes, u) < Pos(nodes, v) || (u == v && MeetsSooner(c, u, x, y)))
  }

  ghost predicate MeetsSooner(c: Induced, u: nat, x: nat, y: nat) {
    exists d: nat, e: nat :: d < e && Meets(c, u, x, d) && Meets(c, u, y, e)
  }

  /** Within a level, earlier-listed members have earlier-listed latest predecessors. */
  ghost predicate LevelsOrdered(c: Induced, nodes: seq<nat>, level: seq<nat>)
    requires |level| == |c.member|
  {
    forall x: nat, y: nat :: c.In(x) && c.In(y) && level[x] == level[y] > 0 && Pos(nodes, x) < Pos(nodes, y) ==>
      Sooner(c, nodes, level, x, y)
  }

  ghost predicate LastListed(c: Induced, nodes: seq<nat>, level: seq<nat>, x: nat)
    requires |level| == |c.member|
  {
    c.In(x) && forall w: nat :: c.In(w) && level[w] == level[x] ==> Pos(nodes, w) <= Pos(nodes, x)
  }

  ghost predicate FirstListed(c: Induced, nodes: seq<nat>, level: seq<nat>, y: nat)
    requires |level| == |c.member|
  {
    c.In(y) && forall w: nat :: c.In(w) && level[w] == level[y] ==> Pos(nodes, y) <= Pos(nodes, w)
  }

  /** Between levels, the last-listed member of one is connected to, or listed before, the first-listed of the next. */
  ghost predicate SeamsOrdered(c: Induced, nodes: seq<nat>, level: seq<nat>)
    requires |level| == |c.member|
  {
    forall x: nat, y: nat :: LastListed(c, nodes, level, x) && FirstListed(c, nodes, level, y) && level[x] + 1 == level[y] ==>
      c.Edge(x, y) || Pos(nodes, x) < Pos(nodes, y)
  }

  /** What a caller can check of the graph and the list. */
  ghost predicate InputOrdered(c: Induced, nodes: seq<nat>) {
    exists level :: IsLevels(c, level) && LevelsOrdered(c, nodes, level) && SeamsOrdered(c, nodes, level)
  }

  // ----- the queue empties level by level

  /** An order the sort returns, with the stages of its elements and the levels of the members. */
  datatype Sorting = Sorting(c: Induced, nodes: seq<nat>, order: seq<nat>, stages: seq<Stage>, level: seq<nat>) {
    ghost predicate Valid() {
      && NoDuplicates(nodes) && (forall x: nat :: x in nodes <==> c.In(x))
      && IsTopologicalOrder(c, nodes, order) && FirstReadyFirst(c, nodes, order, order, stages) && IsLevels(c, level)
    }

    /** The level of the `i`-th element returned. */
    function L(i: nat): nat {
      if i < |order| && order[i] < |level| then level[order[i]] else 0
    }

    /** Its place in the input. */
    function P(i: nat): nat {
      if i < |order| then Pos(nodes, order[i]) else 0
    }
  }

  lemma InOrder(t: Sorting, x: nat) returns (i: nat)
    requires t.Valid() && t.c.In(x)
    ensures i < |t.order| && t.order[i] == x && t.L(i) == t.level[x] && t.P(i) == Pos(t.nodes, x)
  {
    assert x in t.order;
    i :| 0 <= i < |t.order| && t.order[i] == x;
  }

  lemma Member(t: Sorting, i: nat)
    requires t.Valid() && i < |t.order|
    ensures t.c.In(t.order[i]) && t.order[i] < |t.level| == |t.c.member| && t.L(i) == t.level[t.order[i]]
  {
    assert t.order[i] in t.order;
  }

  lemma Facts(t: Sorting, i: nat)
    requires t.Valid() && i < |t.order|
    ensures |t.stages| == |t.order| && t.c.In(t.order[i]) && t.order[i] < |t.level| == |t.c.member|
    ensures forall u: nat :: t.c.Edge(u, t.order[i]) ==> u in t.order[..i]
    ensures ReadyAt(t.c, t.nodes, t.order, t.order[i], t.stages[i])
    ensures forall j :: i < j < |t.order| ==> Earlier(t.stages[i], t.stages[j]) && t.order[i] != t.order[j]
  {
    OrderFacts(t.c, t.nodes, t.order, t.stages, i);
  }

  lemma Shape(t: Sorting)
    requires t.Valid()
    ensures |t.level| == |t.c.member| && |t.stages| == |t.order| && NoDuplicates(t.nodes) && IsLevels(t.c, t.level)
    ensures forall x: nat :: x in t.nodes <==> t.c.In(x)
  {
  }

  lemma LowerExists(c: Induced, level: seq<nat>, x: nat)
    requires IsLevels(c, level) && c.In(x) && level[x] > 0
    ensures HasLower(c, level, x)
  {
    hide Induced.Edge, HasLower;
  }

  lemma LevelWitness(t: Sorting, i: nat) returns (u: nat)
    requires t.Valid() && i < |t.order| && t.L(i) > 0
    ensures t.c.Edge(u, t.order[i]) && u < |t.level| && t.level[u] + 1 == t.L(i)
  {
    hide Sorting.Valid, IsLevels;
    Member(t, i);
    assert IsLevels(t.c, t.level) by { Shape(t); }
    LowerExists(t.c, t.level, t.order[i]);
    u :| t.c.Edge(u, t.order[i]) && t.level[u] + 1 == t.level[t.order[i]];
  }

  lemma SourceFacts(t: Sorting, i: nat)
    requires t.Valid() && i < |t.order| && t.stages[i].Source?
    ensures t.L(i) == 0 && t.P(i) == t.stages[i].at
  {
    hide Sorting.Valid;
    Facts(t, i);
    Shape(t);
    if t.L(i) > 0 {
      var u := LevelWitness(t, i);
    }
    PosIsPlace(t.nodes, t.order[i], t.stages[i].at);
  }

  lemma PredecessorPlace(t: Sorting, i: nat, u: nat) returns (p: nat)
    requires t.Valid() && i < |t.order| && t.c.Edge(u, t.order[i])
    ensures |t.stages| == |t.order| && t.stages[i].After? && p <= t.stages[i].step < |t.order| && p < i
    ensures t.order[p] == u && t.L(p) < t.L(i)
  {
    hide Sorting.Valid;
    Facts(t, i);
    assert u in t.order[..i];
    var s := t.stages[i];
    assert u in t.order[..s.step + 1];
    p :| 0 <= p <= s.step && t.order[p] == u;
    var q :| 0 <= q < i && t.order[q] == u;
    if q < p {
      Facts(t, q);
    }
    LevelEdge(t, u, t.order[i]);
  }

  lemma StepFacts(t: Sorting, i: nat)
    requires t.Valid() && i < |t.order| && |t.stages| == |t.order| && t.stages[i].After?
    ensures var s := t.stages[i];
      s.step < i && t.c.Edge(t.order[s.step], t.order[i]) && t.L(s.step) < t.L(i) &&
        Meets(t.c, t.order[s.step], t.order[i], s.edge)
  {
    hide Sorting.Valid;
    Facts(t, i);
    var s := t.stages[i].step;
    var p := PredecessorPlace(t, i, t.order[s]);
    if p < s {
      Facts(t, p);
    }
  }

  lemma LevelEdge(t: Sorting, u: nat, x: nat)
    requires t.Valid() && t.c.Edge(u, x)
    ensures u < |t.level| && x < |t.level| && t.level[u] < t.level[x]
  {
  }

  lemma LevelBelow(t: Sorting, i: nat) returns (p: nat)
    requires t.Valid() && i < |t.order| && t.L(i) > 0
    ensures |t.stages| == |t.order| && t.stages[i].After? && p <= t.stages[i].step < i && t.L(p) + 1 == t.L(i)
  {
    hide Sorting.Valid;
    Facts(t, i);
    var u := LevelWitness(t, i);
    p := PredecessorPlace(t, i, u);
    StepFacts(t, i);
  }

  /** Elements are returned level by level. */
  lemma {:induction false} LevelsAscend(t: Sorting, i: nat, j: nat)
    requires t.Valid() && i <= j < |t.order|
    ensures t.L(i) <= t.L(j)
    decreases j
  {
    hide Sorting.Valid;
    if i < j && t.L(i) > t.L(j) {
      Facts(t, i);
      var p := LevelBelow(t, i);
      if t.stages[j].Source? {
        assert false;
      } else {
        StepFacts(t, j);
        LevelsAscend(t, p, t.stages[j].step);
      }
    }
  }

  /** The last predecessor to be expanded is one level below. */
  lemma LastIsBelow(t: Sorting, i: nat)
    requires t.Valid() && i < |t.order| && t.L(i) > 0
    ensures |t.stages| == |t.order| && t.stages[i].After? && t.stages[i].step < i && t.L(t.stages[i].step) + 1 == t.L(i)
  {
    hide Sorting.Valid;
    var p := LevelBelow(t, i);
    StepFacts(t, i);
    LevelsAscend(t, p, t.stages[i].step);
  }

  // ----- the rule, read off the returned order

  ghost predicate RowsSorted(t: Sorting) {
    forall i, j :: 0 <= i < j < |t.order| && t.L(i) == t.L(j) ==> t.P(i) < t.P(j)
  }

  ghost predicate SeamSorted(t: Sorting, i: nat) {
    i + 1 < |t.order| && t.L(i) < t.L(i + 1) ==> t.c.Edge(t.order[i], t.order[i + 1]) || t.P(i) < t.P(i + 1)
  }

  ghost predicate SeamsSorted(t: Sorting) {
    forall i: nat :: SeamSorted(t, i)
  }

  lemma ReadyWhenLower(t: Sorting, i: nat, j: nat)
    requires t.Valid() && i <= j < |t.order|
    requires forall p :: i <= p < j && t.c.Edge(t.order[p], t.order[j]) ==> t.L(p) >= t.L(j)
    ensures ReadyBefore(t.c, t.order, i, j)
  {
    hide Sorting.Valid;
    forall u: nat | t.c.Edge(u, t.order[j]) ensures u in t.order[..i] {
      var p := PredecessorPlace(t, j, u);
      assert p < i;
    }
  }

  lemma FollowsIsSorted(t: Sorting)
    requires t.Valid() && FollowsInput(t.c, t.nodes, t.order)
    ensures RowsSorted(t) && SeamsSorted(t)
  {
    hide Sorting.Valid;
    forall i, j | 0 <= i < j < |t.order| && t.L(i) == t.L(j) ensures t.P(i) < t.P(j) {
      forall p | i <= p < j ensures t.L(p) >= t.L(j) {
        LevelsAscend(t, i, p);
      }
      ReadyWhenLower(t, i, j);
    }
    forall i: nat ensures SeamSorted(t, i) {
      if i + 1 < |t.order| && !t.c.Edge(t.order[i], t.order[i + 1]) {
        ReadyWhenLower(t, i, i + 1);
      }
    }
  }

  /** The boundary between the levels of `i` and `j`. */
  lemma Seam(t: Sorting, i: nat, j: nat) returns (m: nat)
    requires t.Valid() && i < j < |t.order| && t.L(i) < t.L(j)
    ensures i <= m < j && t.L(m) == t.L(i) && t.L(m) < t.L(m + 1)
  {
    hide Sorting.Valid;
    m := i;
    while t.L(m + 1) == t.L(i)
      invariant i <= m < j && t.L(m) == t.L(i)
      decreases j - m
    {
      m := m + 1;
    }
    LevelsAscend(t, m, m + 1);
  }

  lemma SortedFollows(t: Sorting)
    requires t.Valid() && RowsSorted(t) && SeamsSorted(t)
    ensures FollowsInput(t.c, t.nodes, t.order)
  {
    hide Sorting.Valid;
    forall i, j | 0 <= i < j < |t.order| && ReadyBefore(t.c, t.order, i, j) ensures t.P(i) < t.P(j) {
      LevelsAscend(t, i, j);
      if t.L(i) < t.L(j) {
        SeamFollows(t, i, j);
      }
    }
  }

  lemma SeamFollows(t: Sorting, i: nat, j: nat)
    requires t.Valid() && RowsSorted(t) && SeamsSorted(t)
    requires i < j < |t.order| && t.L(i) < t.L(j) && ReadyBefore(t.c, t.order, i, j)
    ensures t.P(i) < t.P(j)
  {
    hide Sorting.Valid;
    LastIsBelow(t, j);
    StepFacts(t, j);
    var s := t.stages[j].step;
    assert t.order[s] in t.order[..i];
    BeforeIn(t, s, i);
    LevelsAscend(t, s, i);
    var m := Seam(t, i, j);
    LevelsAscend(t, m + 1, j);
    assert t.L(m + 1) == t.L(j);
    assert SeamSorted(t, m);
    if t.c.Edge(t.order[m], t.order[m + 1]) {
      SeamEdge(t, m, j, i);
    }
  }

  /** When the seam is an edge, what follows becomes ready no sooner than at the seam. */
  lemma SeamEdge(t: Sorting, m: nat, j: nat, i: nat)
    requires t.Valid() && m < j < |t.order| && t.c.Edge(t.order[m], t.order[m + 1]) && i <= m
    requires |t.stages| == |t.order| && t.stages[j].After?
    ensures t.stages[j].step >= i
  {
    hide Sorting.Valid;
    var p := PredecessorPlace(t, m + 1, t.order[m]);
    Facts(t, p);
    Facts(t, m);
    StepFacts(t, m + 1);
    Facts(t, m + 1);
  }

  lemma BeforeIn(t: Sorting, s: nat, i: nat)
    requires t.Valid() && s < |t.order| && i <= |t.order| && t.order[s] in t.order[..i]
    ensures s < i
  {
    hide Sorting.Valid;
    var q :| 0 <= q < i && t.order[q] == t.order[s];
    if q < s {
      Facts(t, q);
    } else if s < q {
      Facts(t, s);
    }
  }

  // ----- the rule, read off the graph and the list

  /** When the level below is in input order, the last predecessor to be expanded is the latest-listed one. */
  lemma LastIsLatest(t: Sorting, i: nat)
    requires t.Valid() && i < |t.order| && t.L(i) > 0
    requires forall a, b :: 0 <= a < b < |t.order| && t.L(a) == t.L(b) == t.L(i) - 1 ==> t.P(a) < t.P(b)
    ensures |t.level| == |t.c.member| && |t.stages| == |t.order| && t.stages[i].After? && t.stages[i].step < |t.order|
    ensures Latest(t.c, t.nodes, t.level, t.order[t.stages[i].step], t.order[i])
  {
    hide Sorting.Valid;
    LastIsBelow(t, i);
    StepFacts(t, i);
    Facts(t, i);
    var s := t.stages[i].step;
    Facts(t, s);
    forall v: nat | t.c.Edge(v, t.order[i]) && t.level[v] + 1 == t.level[t.order[i]]
      ensures Pos(t.nodes, v) <= Pos(t.nodes, t.order[s])
    {
      var p := PredecessorPlace(t, i, v);
    }
  }

  lemma LatestIsUnique(t: Sorting, u: nat, v: nat, x: nat)
    requires t.Valid() && |t.level| == |t.c.member| && Latest(t.c, t.nodes, t.level, u, x)
    requires Latest(t.c, t.nodes, t.level, v, x)
    ensures u == v
  {
    hide Sorting.Valid;
    Shape(t);
    assert u in t.nodes && v in t.nodes;
  }

  lemma MeetsIsUnique(c: Induced, u: nat, x: nat, d: nat, e: nat)
    requires Meets(c, u, x, d) && Meets(c, u, x, e)
    ensures d == e
  {
  }

  lemma RowsAreOrdered(t: Sorting)
    requires t.Valid() && RowsSorted(t)
    ensures |t.level| == |t.c.member| && LevelsOrdered(t.c, t.nodes, t.level)
  {
    hide Sorting.Valid;
    Shape(t);
    forall x: nat, y: nat | t.c.In(x) && t.c.In(y) && t.level[x] == t.level[y] > 0 && Pos(t.nodes, x) < Pos(t.nodes, y)
      ensures Sooner(t.c, t.nodes, t.level, x, y)
    {
      var i := InOrder(t, x);
      var j := InOrder(t, y);
      RowIsSooner(t, i, j);
    }
  }

  lemma RowIsSooner(t: Sorting, i: nat, j: nat)
    requires t.Valid() && RowsSorted(t) && i < |t.order| && j < |t.order| && t.L(i) == t.L(j) > 0 && t.P(i) < t.P(j)
    ensures |t.level| == |t.c.member| && Sooner(t.c, t.nodes, t.level, t.order[i], t.order[j])
  {
    hide Sorting.Valid;
    LastIsLatest(t, i);
    LastIsLatest(t, j);
    LastIsBelow(t, i);
    LastIsBelow(t, j);
    StepFacts(t, i);
    StepFacts(t, j);
    Facts(t, i);
    hide Latest, Meets;
    assert i < j;
    var s, r := t.stages[i], t.stages[j];
    assert Earlier(s, r);
    if s.step < r.step {
      assert t.P(s.step) < t.P(r.step);
    } else {
      assert MeetsSooner(t.c, t.order[s.step], t.order[i], t.order[j]);
    }
  }

  lemma {:induction false} OrderedRow(t: Sorting, i: nat, j: nat)
    requires t.Valid() && |t.level| == |t.c.member| && LevelsOrdered(t.c, t.nodes, t.level)
    requires i < j < |t.order| && t.L(i) == t.L(j)
    ensures t.P(i) < t.P(j)
    decreases t.L(i)
  {
    hide Sorting.Valid;
    Facts(t, i);
    Facts(t, j);
    if t.L(i) == 0 {
      SourcesOrdered(t, i, j);
    } else if t.P(i) >= t.P(j) {
      forall a, b | 0 <= a < b < |t.order| && t.L(a) == t.L(b) == t.L(i) - 1 ensures t.P(a) < t.P(b) {
        OrderedRow(t, a, b);
      }
      PosApart(t, i, j);
      SoonerContradicts(t, i, j);
    }
  }

  lemma SourcesOrdered(t: Sorting, i: nat, j: nat)
    requires t.Valid() && i < j < |t.order| && t.L(i) == t.L(j) == 0
    ensures t.P(i) < t.P(j)
  {
    hide Sorting.Valid;
    Facts(t, i);
    Facts(t, j);
    if t.stages[i].After? {
      StepFacts(t, i);
    }
    if t.stages[j].After? {
      StepFacts(t, j);
    }
    SourceFacts(t, i);
    SourceFacts(t, j);
  }

  lemma PosApart(t: Sorting, i: nat, j: nat)
    requires t.Valid() && i < j < |t.order|
    ensures t.P(i) != t.P(j)
  {
    hide Sorting.Valid;
    Facts(t, i);
    Facts(t, j);
    Shape(t);
    assert t.order[i] in t.nodes && t.order[j] in t.nodes;
  }

  /** No element is returned before another of its level that becomes ready sooner. */
  lemma SoonerContradicts(t: Sorting, i: nat, j: nat)
    requires t.Valid() && |t.level| == |t.c.member| && i < j < |t.order| && t.L(i) == t.L(j) > 0
    requires forall a, b :: 0 <= a < b < |t.order| && t.L(a) == t.L(b) == t.L(i) - 1 ==> t.P(a) < t.P(b)
    ensures !Sooner(t.c, t.nodes, t.level, t.order[j], t.order[i])
  {
    hide Sorting.Valid, Latest;
    if Sooner(t.c, t.nodes, t.level, t.order[j], t.order[i]) {
      LastIsLatest(t, i);
      LastIsLatest(t, j);
      var s, r := t.stages[i], t.stages[j];
      var u: nat, v: nat :| Latest(t.c, t.nodes, t.level, u, t.order[j]) && Latest(t.c, t.nodes, t.level, v, t.order[i])
        && (Pos(t.nodes, u) < Pos(t.nodes, v) || (u == v && MeetsSooner(t.c, u, t.order[j], t.order[i])));
      LatestIsUnique(t, u, t.order[r.step], t.order[j]);
      LatestIsUnique(t, v, t.order[s.step], t.order[i]);
      NotSooner(t, i, j);
    }
  }

  lemma NotSooner(t: Sorting, i: nat, j: nat)
    requires t.Valid() && |t.stages| == |t.order| && i < j < |t.order| && t.L(i) == t.L(j) > 0
    requires forall a, b :: 0 <= a < b < |t.order| && t.L(a) == t.L(b) == t.L(i) - 1 ==> t.P(a) < t.P(b)
    ensures t.stages[i].After? && t.stages[j].After? && t.stages[i].step <= t.stages[j].step < |t.order|
    ensures t.stages[i].step < t.stages[j].step ==> t.P(t.stages[i].step) < t.P(t.stages[j].step)
    ensures t.stages[i].step == t.stages[j].step ==> !MeetsSooner(t.c, t.order[t.stages[i].step], t.order[j], t.order[i])
  {
    hide Sorting.Valid, Meets;
    LastIsBelow(t, i);
    LastIsBelow(t, j);
    StepFacts(t, i);
    StepFacts(t, j);
    Facts(t, i);
    var s, r := t.stages[i], t.stages[j];
    assert Earlier(s, r);
    if s.step == r.step && MeetsSooner(t.c, t.order[s.step], t.order[j], t.order[i]) {
      var u := t.order[s.step];
      var d: nat, e: nat :| d < e && Meets(t.c, u, t.order[j], d) && Meets(t.c, u, t.order[i], e);
      MeetsIsUnique(t.c, u, t.order[j], d, r.edge);
      MeetsIsUnique(t.c, u, t.order[i], e, s.edge);
    }
  }

  lemma SeamsIff(t: Sorting)
    requires t.Valid() && RowsSorted(t)
    ensures |t.level| == |t.c.member| && (SeamsSorted(t) <==> SeamsOrdered(t.c, t.nodes, t.level))
  {
    hide Sorting.Valid, SeamsSorted, SeamsOrdered;
    Shape(t);
    if SeamsSorted(t) {
      SortedSeamsAreOrdered(t);
    }
    if SeamsOrdered(t.c, t.nodes, t.level) {
      OrderedSeamsAreSorted(t);
    }
  }

  lemma SortedSeamsAreOrdered(t: Sorting)
    requires t.Valid() && RowsSorted(t) && SeamsSorted(t) && |t.level| == |t.c.member|
    ensures SeamsOrdered(t.c, t.nodes, t.level)
  {
    hide Sorting.Valid;
    forall x: nat, y: nat | LastListed(t.c, t.nodes, t.level, x) && FirstListed(t.c, t.nodes, t.level, y) &&
      t.level[x] + 1 == t.level[y]
      ensures t.c.Edge(x, y) || Pos(t.nodes, x) < Pos(t.nodes, y)
    {
      var i := InOrder(t, x);
      var j := InOrder(t, y);
      Adjacent(t, i, j);
      assert SeamSorted(t, i);
    }
  }

  lemma OrderedSeamsAreSorted(t: Sorting)
    requires t.Valid() && RowsSorted(t) && |t.level| == |t.c.member| && SeamsOrdered(t.c, t.nodes, t.level)
    ensures SeamsSorted(t)
  {
    hide Sorting.Valid;
    forall i: nat ensures SeamSorted(t, i) {
      if i + 1 < |t.order| && t.L(i) < t.L(i + 1) {
        SeamIsListed(t, i);
      }
    }
  }

  /** The last-listed of a level and the first-listed of the next are returned one after the other. */
  lemma Adjacent(t: Sorting, i: nat, j: nat)
    requires t.Valid() && RowsSorted(t) && |t.level| == |t.c.member| && i < |t.order| && j < |t.order|
    requires t.L(i) + 1 == t.L(j)
    requires LastListed(t.c, t.nodes, t.level, t.order[i]) && FirstListed(t.c, t.nodes, t.level, t.order[j])
    ensures j == i + 1
  {
    hide Sorting.Valid;
    if j <= i {
      LevelsAscend(t, j, i);
    } else if i + 1 < j {
      LevelsAscend(t, i, i + 1);
      LevelsAscend(t, i + 1, j);
      Member(t, i + 1);
    }
  }

  lemma SeamLevels(t: Sorting, i: nat)
    requires t.Valid() && i + 1 < |t.order| && t.L(i) < t.L(i + 1)
    ensures |t.level| == |t.c.member| && t.c.In(t.order[i]) && t.c.In(t.order[i + 1])
    ensures t.L(i) + 1 == t.L(i + 1) && t.L(i) == t.level[t.order[i]] && t.L(i + 1) == t.level[t.order[i + 1]]
  {
    hide Sorting.Valid;
    Member(t, i);
    Member(t, i + 1);
    LastIsBelow(t, i + 1);
    LevelsAscend(t, t.stages[i + 1].step, i);
  }

  lemma SeamIsListed(t: Sorting, i: nat)
    requires t.Valid() && RowsSorted(t) && i + 1 < |t.order| && t.L(i) < t.L(i + 1)
    ensures |t.level| == |t.c.member| && t.c.In(t.order[i]) && t.c.In(t.order[i + 1])
    ensures t.L(i) + 1 == t.L(i + 1) && t.L(i) == t.level[t.order[i]] && t.L(i + 1) == t.level[t.order[i + 1]]
    ensures LastListed(t.c, t.nodes, t.level, t.order[i]) && FirstListed(t.c, t.nodes, t.level, t.order[i + 1])
  {
    hide Sorting.Valid, RowsSorted;
    SeamLevels(t, i);
    forall w: nat | t.c.In(w) && t.level[w] == t.level[t.order[i]] ensures Pos(t.nodes, w) <= Pos(t.nodes, t.order[i]) {
      LowerSide(t, i, w);
    }
    forall w: nat | t.c.In(w) && t.level[w] == t.level[t.order[i + 1]] ensures Pos(t.nodes, t.order[i + 1]) <= Pos(t.nodes, w) {
      UpperSide(t, i, w);
    }
  }

  lemma LowerSide(t: Sorting, i: nat, w: nat)
    requires t.Valid() && RowsSorted(t) && i + 1 < |t.order| && t.L(i) < t.L(i + 1)
    requires t.c.In(w) && |t.level| == |t.c.member| && t.level[w] == t.L(i)
    ensures Pos(t.nodes, w) <= t.P(i)
  {
    hide Sorting.Valid;
    var k := InOrder(t, w);
    if k > i {
      LevelsAscend(t, i + 1, k);
    }
  }

  lemma UpperSide(t: Sorting, i: nat, w: nat)
    requires t.Valid() && RowsSorted(t) && i + 1 < |t.order| && t.L(i) < t.L(i + 1)
    requires t.c.In(w) && |t.level| == |t.c.member| && t.level[w] == t.L(i + 1)
    ensures t.P(i + 1) <= Pos(t.nodes, w)
  {
    hide Sorting.Valid;
    var k := InOrder(t, w);
    if k <= i {
      LevelsAscend(t, k, i);
    }
  }

  // ----- exactly when the documented rule holds

  lemma FollowsIffOrdered(t: Sorting)
    requires t.Valid()
    ensures |t.level| == |t.c.member|
    ensures FollowsInput(t.c, t.nodes, t.order) <==> LevelsOrdered(t.c, t.nodes, t.level) && SeamsOrdered(t.c, t.nodes, t.level)
  {
    Shape(t);
    hide FollowsInput, LevelsOrdered, SeamsOrdered, SeamsSorted;
    if FollowsInput(t.c, t.nodes, t.order) {
      FollowsIsSorted(t);
      RowsAreOrdered(t);
      SeamsIff(t);
    }
    if LevelsOrdered(t.c, t.nodes, t.level) && SeamsOrdered(t.c, t.nodes, t.level) {
      forall i, j | 0 <= i < j < |t.order| && t.L(i) == t.L(j) ensures t.P(i) < t.P(j) {
        OrderedRow(t, i, j);
      }
      SeamsIff(t);
      SortedFollows(t);
    }
  }

  /** The largest level that the predecessors of `x` require of it. */
  lemma LevelOf(c: Induced, level: seq<nat>, x: nat) returns (m: nat)
    requires |level| == |c.member|
    ensures forall u: nat :: c.Edge(u, x) ==> level[u] < m
    ensures m > 0 ==> exists u: nat :: c.Edge(u, x) && level[u] + 1 == m
  {
    m := 0;
    for n := 0 to |level|
      invariant forall u: nat :: u < n && c.Edge(u, x) ==> level[u] < m
      invariant m > 0 ==> exists u: nat :: c.Edge(u, x) && level[u] + 1 == m
    {
      if c.Edge(n, x) && level[n] >= m {
        m := level[n] + 1;
      }
    }
  }

  /** The levels of the first `n` elements are right. */
  ghost predicate LevelsUpTo(c: Induced, order: seq<nat>, n: nat, level: seq<nat>)
    requires n <= |order|
  {
    && |level| == |c.member|
    && (forall i, u: nat :: 0 <= i < n && c.Edge(u, order[i]) ==> level[u] < level[order[i]])
    && (forall i {:trigger HasLower(c, level, order[i])} :: 0 <= i < n && c.In(order[i]) && level[order[i]] > 0 ==>
      HasLower(c, level, order[i]))
  }

  lemma LevelsExist(c: Induced, nodes: seq<nat>, order: seq<nat>) returns (level: seq<nat>)
    requires IsTopologicalOrder(c, nodes, order)
    ensures IsLevels(c, level)
  {
    level := seq(|c.member|, _ => 0);
    for n := 0 to |order|
      invariant LevelsUpTo(c, order, n, level)
    {
      hide LevelsUpTo;
      level := OneMoreLevel(c, nodes, order, n, level);
    }
    AllLevels(c, nodes, order, level);
  }

  lemma AllLevels(c: Induced, nodes: seq<nat>, order: seq<nat>, level: seq<nat>)
    requires IsTopologicalOrder(c, nodes, order) && LevelsUpTo(c, order, |order|, level)
    ensures IsLevels(c, level)
  {
    forall x: nat | c.In(x) ensures exists i :: 0 <= i < |order| && order[i] == x {
      assert x in order;
    }
    hide IsTopologicalOrder;
  }

  lemma OneMoreLevel(c: Induced, nodes: seq<nat>, order: seq<nat>, n: nat, level: seq<nat>) returns (level': seq<nat>)
    requires IsTopologicalOrder(c, nodes, order) && n < |order| && LevelsUpTo(c, order, n, level)
    ensures LevelsUpTo(c, order, n + 1, level')
  {
    NewLevel(c, nodes, order, n);
    hide IsTopologicalOrder, HasLower, Induced.Edge, Induced.In;
    var m := LevelOf(c, level, order[n]);
    level' := level[order[n] := m];
    forall i, u: nat | 0 <= i <= n && c.Edge(u, order[i])
      ensures u < |level'| && order[i] < |level'| && level'[u] < level'[order[i]]
    {
      EdgeKept(c, order, n, level, m, i, u);
    }
    forall i | 0 <= i <= n && c.In(order[i]) && order[i] < |level'| && level'[order[i]] > 0
      ensures HasLower(c, level', order[i])
    {
      LowerKept(c, order, n, level, m, i);
    }
  }

  lemma EdgeKept(c: Induced, order: seq<nat>, n: nat, level: seq<nat>, m: nat, i: nat, u: nat)
    requires i <= n < |order| && |level| == |c.member| && c.In(order[n]) && c.Edge(u, order[i]) && u != order[n]
    requires i < n ==> order[i] != order[n] && level[u] < level[order[i]]
    requires i == n ==> level[u] < m
    ensures u < |level| && order[i] < |level| && level[order[n] := m][u] < level[order[n] := m][order[i]]
  {
  }

  lemma LowerKept(c: Induced, order: seq<nat>, n: nat, level: seq<nat>, m: nat, i: nat)
    requires i <= n < |order| && |level| == |c.member| && c.In(order[i]) && c.In(order[n])
    requires forall u: nat :: c.Edge(u, order[i]) ==> u != order[n]
    requires i < n ==> order[i] != order[n] && HasLower(c, level, order[i])
    requires i == n ==> exists u: nat :: c.Edge(u, order[n]) && level[u] + 1 == m
    ensures HasLower(c, level[order[n] := m], order[i])
  {
    var next := level[order[n] := m];
    var u: nat :| c.Edge(u, order[i]) && level[u] + 1 == next[order[i]];
    assert next[u] == level[u];
  }

  lemma NewLevel(c: Induced, nodes: seq<nat>, order: seq<nat>, n: nat)
    requires IsTopologicalOrder(c, nodes, order) && n < |order|
    ensures forall i :: 0 <= i <= n ==> c.In(order[i])
    ensures forall i :: 0 <= i < n ==> order[i] != order[n]
    ensures forall i, u: nat :: 0 <= i <= n && c.Edge(u, order[i]) ==> u != order[n]
  {
    forall i | 0 <= i <= n ensures c.In(order[i]) {
      assert order[i] in order;
    }
    forall i, u: nat | 0 <= i <= n && c.Edge(u, order[i]) ensures u != order[n] {
      assert u in order[..i];
    }
  }

  /** The returned order follows the input exactly when the listed members are so ordered. */
  lemma FollowsInputIff(c: Induced, nodes: seq<nat>, order: seq<nat>)
    requires NoDuplicates(nodes) && (forall x: nat :: x in nodes <==> c.In(x)) && IsTopologicalOrder(c, nodes, order)
    ensures FollowsInput(c, nodes, order) <==> InputOrdered(c, nodes)
  {
    var stages :| FirstReadyFirst(c, nodes, order, order, stages);
    var found := LevelsExist(c, nodes, order);
    hide FollowsInput, LevelsOrdered, SeamsOrdered, IsLevels, IsTopologicalOrder, FirstReadyFirst;
    forall level | IsLevels(c, level)
      ensures |level| == |c.member|
      ensures (FollowsInput(c, nodes, order) <==> LevelsOrdered(c, nodes, level) && SeamsOrdered(c, nodes, level))
    {
      FollowsIffOrdered(Sorting(c, nodes, order, stages, level));
    }
  }

  // ----- an input for which it does not hold

  /** Four listed elements, with connections from 2 to 1 and from 3 to 0. */
  function Crossing(): Graph {
    Graph(4, (x: nat) => if x == 2 then [1] else if x == 3 then [0] else [])
  }

  lemma CrossingEdges(c: Induced)
    requires c == InducedBy(Crossing(), [0, 1, 2, 3])
    ensures forall x: nat :: c.In(x) <==> x < 4
    ensures c.graph.succ(2) == [1] && c.graph.succ(3) == [0]
    ensures forall u: nat, v: nat :: c.Edge(u, v) <==> (u == 2 && v == 1) || (u == 3 && v == 0)
  {
    hide InducedBy;
  }

  lemma CrossingOrder(c: Induced, nodes: seq<nat>, order: seq<nat>)
    requires c == InducedBy(Crossing(), nodes) && nodes == [0, 1, 2, 3] && order == [2, 3, 1, 0]
    ensures IsTopologicalOrder(c, nodes, order)
  {
    hide InducedBy, Crossing;
    CrossingEdges(c);
    hide Induced.Edge, Induced.In;
    var stages := [Source(2), Source(3), After(0, 0), After(1, 0)];
    assert order[..1] == [2] && order[..2] == [2, 3] && order[..3] == [2, 3, 1];
    assert ReadyAt(c, nodes, order, 2, Source(2)) && ReadyAt(c, nodes, order, 3, Source(3));
    assert ReadyAt(c, nodes, order, 1, After(0, 0)) && ReadyAt(c, nodes, order, 0, After(1, 0));
    hide ReadyAt;
    assert FirstReadyFirst(c, nodes, order, order, stages);
  }

  /** Whatever the sort returns here is 2, 3, 1, 0, although 1 and 0 are both ready after 2 and 3. */
  lemma InputOrderFails(c: Induced, nodes: seq<nat>, order: seq<nat>)
    requires c == InducedBy(Crossing(), nodes) && nodes == [0, 1, 2, 3] && IsTopologicalOrder(c, nodes, order)
    ensures order == [2, 3, 1, 0] && !FollowsInput(c, nodes, order)
  {
    hide InducedBy, Crossing, IsTopologicalOrder;
    CrossingEdges(c);
    CrossingOrder(c, nodes, [2, 3, 1, 0]);
    OrderIsUnique(c, nodes, order, [2, 3, 1, 0]);
    hide Induced.Edge, Induced.In;
    assert order[..2] == [2, 3];
    assert forall u: nat :: c.Edge(u, order[3]) ==> u in order[..2];
    assert ReadyBefore(c, order, 2, 3);
    assert Pos(nodes, order[3]) == 0;
  }
}
