/** Union-find weakly connected components (`oxgraph-algo/src/components.rs`). */
module Components {
  import opened Topology
  import opened Ordered

  newtype u8 = x: int | 0 <= x < 0x100

  const USIZE_LIMIT: nat := 0x1_0000_0000_0000_0000

  /** Ranks strictly increase along parent links. */
  ghost predicate Forest(parent: seq<nat>, rank: seq<u8>) {
    && |parent| == |rank|
    && (forall i :: 0 <= i < |parent| ==> parent[i] < |parent|)
    && (forall i :: 0 <= i < |parent| && parent[i] != i ==> rank[i] < rank[parent[i]])
  }

  ghost function Height(rank: seq<u8>, i: nat): nat
    requires i < |rank|
  {
    0x100 - rank[i] as nat
  }

  /** The representative that following parent links from `i` ends at. */
  ghost function Root(parent: seq<nat>, rank: seq<u8>, i: nat): (r: nat)
    requires Forest(parent, rank) && i < |parent|
    ensures r < |parent| && parent[r] == r
    ensures rank[i] <= rank[r] && (rank[i] == rank[r] ==> r == i)
    decreases Height(rank, i)
  {
    if parent[i] == i then i else Root(parent, rank, parent[i])
  }

  /** The representative of every index. */
  ghost function Roots(parent: seq<nat>, rank: seq<u8>): (roots: seq<nat>)
    requires Forest(parent, rank)
    ensures |roots| == |parent|
    ensures forall i :: 0 <= i < |parent| ==> roots[i] == Root(parent, rank, i)
  {
    seq(|parent|, i requires 0 <= i < |parent| => Root(parent, rank, i))
  }

  // ----- path halving

  ghost function Halved(parent: seq<nat>, i: nat): seq<nat>
    requires i < |parent| && parent[i] < |parent|
  {
    parent[i := parent[parent[i]]]
  }

  lemma HalvedIsForest(parent: seq<nat>, rank: seq<u8>, i: nat)
    requires Forest(parent, rank) && i < |parent|
    ensures Forest(Halved(parent, i), rank)
  {
  }

  /** Pointing a node at its grandparent keeps the forest and every representative. */
  lemma {:induction false} HalvedKeepsRoot(parent: seq<nat>, rank: seq<u8>, i: nat, j: nat)
    requires Forest(parent, rank) && i < |parent| && j < |parent| && Forest(Halved(parent, i), rank)
    ensures Root(Halved(parent, i), rank, j) == Root(parent, rank, j)
    decreases Height(rank, j)
  {
    var p := parent[j];
    if p != j {
      HalvedKeepsRoot(parent, rank, i, p);
      if parent[p] != p {
        HalvedKeepsRoot(parent, rank, i, parent[p]);
      }
    }
  }

  lemma HalvedKeepsRoots(parent: seq<nat>, rank: seq<u8>, i: nat)
    requires Forest(parent, rank) && i < |parent|
    ensures Forest(Halved(parent, i), rank) && Roots(Halved(parent, i), rank) == Roots(parent, rank)
  {
    HalvedIsForest(parent, rank, i);
    forall j | 0 <= j < |parent| ensures Root(Halved(parent, i), rank, j) == Root(parent, rank, j) {
      HalvedKeepsRoot(parent, rank, i, j);
    }
  }

  method Find(parent: array<nat>, start: nat, ghost rank: seq<u8>) returns (cursor: nat)
    requires Forest(parent[..], rank) && start < parent.Length
    modifies parent
    ensures Forest(parent[..], rank) && Roots(parent[..], rank) == old(Roots(parent[..], rank))
    ensures cursor < parent.Length && parent[cursor] == cursor == old(Root(parent[..], rank, start))
  {
    cursor := start;
    while parent[cursor] != cursor
      invariant cursor < parent.Length
      invariant Forest(parent[..], rank) && Roots(parent[..], rank) == old(Roots(parent[..], rank))
      invariant Root(parent[..], rank, cursor) == old(Root(parent[..], rank, start))
      decreases Height(rank, cursor)
    {
      ghost var before := parent[..];
      HalvedKeepsRoots(before, rank, cursor);
      assert Roots(before, rank)[before[cursor]] == Roots(before, rank)[before[before[cursor]]] == Roots(before, rank)[cursor];
      parent[cursor] := parent[parent[cursor]];
      assert parent[..] == Halved(before, cursor);
      cursor := parent[cursor];
    }
  }

  // ----- classes and ranks

  ghost function ClassOf(roots: seq<nat>, r: nat): set<nat> {
    set i: nat | i < |roots| && roots[i] == r
  }

  ghost function Pow2(n: nat): (p: nat)
    ensures p > n
  {
    if n == 0 then 1 else 2 * Pow2(n - 1)
  }

  /** A root of rank `r` represents at least `2^r` indices. */
  ghost predicate Heavy(parent: seq<nat>, rank: seq<u8>)
    requires Forest(parent, rank)
  {
    forall r :: 0 <= r < |parent| && parent[r] == r ==> Pow2(rank[r] as nat) <= |ClassOf(Roots(parent, rank), r)|
  }

  lemma {:induction false} Pow2Mono(a: nat, b: nat)
    requires a <= b
    ensures Pow2(a) <= Pow2(b)
  {
    if a < b { Pow2Mono(a, b - 1); }
  }

  /** No rank reaches 64, so the increment of an 8-bit rank cannot overflow. */
  lemma RankBelow64(parent: seq<nat>, rank: seq<u8>, i: nat)
    requires Forest(parent, rank) && Heavy(parent, rank) && i < |parent| < USIZE_LIMIT
    ensures rank[i] < 64
  {
    var r := Root(parent, rank, i);
    IndexSetSize(|parent|, ClassOf(Roots(parent, rank), r));
    if rank[i] >= 64 {
      Pow2Mono(64, rank[r] as nat);
      assert Pow2(64) == USIZE_LIMIT by { Pow2At64(); }
    }
  }

  lemma Pow2At64()
    ensures Pow2(64) == USIZE_LIMIT
  {
    assert Pow2(8) == 0x100;
    assert Pow2(16) == 0x1_0000;
    assert Pow2(24) == 0x100_0000;
    assert Pow2(32) == 0x1_0000_0000;
    assert Pow2(40) == 0x100_0000_0000;
    assert Pow2(48) == 0x1_0000_0000_0000;
    assert Pow2(56) == 0x100_0000_0000_0000;
  }

  // ----- linking two roots

  /** `parent'` hangs root `a` below root `b`; only the rank of `b` may have grown. */
  ghost predicate Linked(parent: seq<nat>, rank: seq<u8>, parent': seq<nat>, rank': seq<u8>, a: nat, b: nat) {
    && Forest(parent, rank) && Forest(parent', rank')
    && a < |parent| && b < |parent| && a != b && parent[a] == a && parent[b] == b
    && parent' == parent[a := b]
    && |rank'| == |rank| && (forall i :: 0 <= i < |rank| && i != b ==> rank'[i] == rank[i])
  }

  lemma {:induction false} LinkedRoot(parent: seq<nat>, rank: seq<u8>, parent': seq<nat>, rank': seq<u8>, a: nat,
      b: nat, j: nat)
    requires Linked(parent, rank, parent', rank', a, b) && j < |parent|
    ensures Root(parent', rank', j) == if Root(parent, rank, j) == a then b else Root(parent, rank, j)
    decreases Height(rank, j)
  {
    if parent[j] != j {
      LinkedRoot(parent, rank, parent', rank', a, b, parent[j]);
    }
  }

  /** The class of `a` joins the class of `b`. */
  function Joined(roots: seq<nat>, a: nat, b: nat): seq<nat> {
    seq(|roots|, i requires 0 <= i < |roots| => if roots[i] == a then b else roots[i])
  }

  lemma LinkedRoots(parent: seq<nat>, rank: seq<u8>, parent': seq<nat>, rank': seq<u8>, a: nat, b: nat)
    requires Linked(parent, rank, parent', rank', a, b)
    ensures Roots(parent', rank') == Joined(Roots(parent, rank), a, b)
  {
    forall j | 0 <= j < |parent| ensures Roots(parent', rank')[j] == Joined(Roots(parent, rank), a, b)[j] {
      LinkedRoot(parent, rank, parent', rank', a, b, j);
    }
  }

  lemma JoinedClass(roots: seq<nat>, a: nat, b: nat, r: nat)
    requires a != b && r != a
    ensures r == b ==> |ClassOf(Joined(roots, a, b), r)| == |ClassOf(roots, a)| + |ClassOf(roots, b)|
    ensures r != b ==> ClassOf(Joined(roots, a, b), r) == ClassOf(roots, r)
  {
    if r == b {
      assert ClassOf(Joined(roots, a, b), b) == ClassOf(roots, a) + ClassOf(roots, b);
      assert ClassOf(roots, a) !! ClassOf(roots, b);
    }
  }

  /** The rank of the surviving root `b` after hanging `a` below it, as union by rank sets it. */
  ghost predicate RankStep(rank: seq<u8>, rank': seq<u8>, a: nat, b: nat)
    requires a < |rank| && b < |rank| && |rank'| == |rank|
  {
    rank'[b] == rank[b] || (rank[a] == rank[b] && rank'[b] as int == rank[b] as int + 1)
  }

  lemma LinkedKeepsHeavy(parent: seq<nat>, rank: seq<u8>, parent': seq<nat>, rank': seq<u8>, a: nat, b: nat)
    requires Linked(parent, rank, parent', rank', a, b) && Heavy(parent, rank) && RankStep(rank, rank', a, b)
    ensures Heavy(parent', rank')
  {
    LinkedRoots(parent, rank, parent', rank', a, b);
    forall r | 0 <= r < |parent'| && parent'[r] == r
      ensures Pow2(rank'[r] as nat) <= |ClassOf(Roots(parent', rank'), r)|
    {
      JoinedClass(Roots(parent, rank), a, b, r);
      assert parent[r] == r && parent[a] == a;
      assert Pow2(rank[a] as nat) <= |ClassOf(Roots(parent, rank), a)|;
    }
  }

  lemma SameRootsKeepHeavy(parent: seq<nat>, parent': seq<nat>, rank: seq<u8>)
    requires Forest(parent, rank) && Forest(parent', rank) && Roots(parent', rank) == Roots(parent, rank)
    requires Heavy(parent, rank)
    ensures Heavy(parent', rank)
    ensures forall r :: 0 <= r < |parent| ==> (parent'[r] == r <==> parent[r] == r)
  {
    forall r | 0 <= r < |parent| ensures parent'[r] == r <==> parent[r] == r {
      assert Roots(parent', rank)[r] == Roots(parent, rank)[r];
    }
  }

  /** Exactly the classes of `left` and `right` are merged. */
  ghost predicate Merged(roots: seq<nat>, roots': seq<nat>, left: nat, right: nat)
    requires left < |roots| && right < |roots|
  {
    && |roots'| == |roots|
    && forall i, j :: 0 <= i < |roots| && 0 <= j < |roots| ==>
         (roots'[i] == roots'[j] <==>
           || roots[i] == roots[j]
           || ((roots[i] == roots[left] || roots[i] == roots[right]) && (roots[j] == roots[left] || roots[j] == roots[right])))
  }

  // ----- what a union does to the representatives

  /** The representative of every index, and the ranks. */
  datatype Classes = Classes(roots: seq<nat>, ranks: seq<nat>) {
    function Rank(i: nat): nat {
      if i < |ranks| then ranks[i] else 0
    }

    function RootOf(i: nat): nat {
      if i < |roots| then roots[i] else i
    }

    /** Hangs one of two distinct roots below the other: the lower-ranked one, or the right one. */
    function Link(a: nat, b: nat): Classes {
      if Rank(a) < Rank(b) then Classes(Joined(roots, a, b), ranks)
      else if Rank(a) > Rank(b) then Classes(Joined(roots, b, a), ranks)
      else Classes(Joined(roots, b, a), if a < |ranks| then ranks[a := Rank(a) + 1] else ranks)
    }

    function Unite(left: nat, right: nat): Classes {
      if RootOf(left) == RootOf(right) then this else Link(RootOf(left), RootOf(right))
    }
  }

  ghost function ClassesOf(parent: seq<nat>, rank: seq<u8>): Classes
    requires Forest(parent, rank)
  {
    Classes(Roots(parent, rank), Nats(rank))
  }

  function Nats(rank: seq<u8>): seq<nat> {
    seq(|rank|, i requires 0 <= i < |rank| => rank[i] as nat)
  }

  lemma NatsKept(rank: seq<u8>, rank': seq<u8>, a: nat)
    requires |rank'| == |rank| && a < |rank| && forall i :: 0 <= i < |rank| && i != a ==> rank'[i] == rank[i]
    ensures Nats(rank') == Nats(rank)[a := rank'[a] as nat]
  {
  }

  /** The rank comparison of `union`. */
  method LinkByRank(parent: array<nat>, rank: array<u8>, leftRoot: nat, rightRoot: nat)
    requires parent.Length == rank.Length < USIZE_LIMIT && leftRoot < parent.Length && rightRoot < parent.Length
    requires Forest(parent[..], rank[..]) && Heavy(parent[..], rank[..])
    requires leftRoot != rightRoot && parent[leftRoot] == leftRoot && parent[rightRoot] == rightRoot
    modifies parent, rank
    ensures Forest(parent[..], rank[..]) && Heavy(parent[..], rank[..])
    ensures ClassesOf(parent[..], rank[..]) == old(ClassesOf(parent[..], rank[..])).Link(leftRoot, rightRoot)
  {
    hide Forest, Heavy, ClassesOf, Classes.Link;
    ghost var p, k := parent[..], rank[..];
    if rank[leftRoot] < rank[rightRoot] {
      parent[leftRoot] := rightRoot;
    } else if rank[leftRoot] > rank[rightRoot] {
      parent[rightRoot] := leftRoot;
    } else {
      parent[rightRoot] := leftRoot;
      RankBelow64(p, k, leftRoot);
      rank[leftRoot] := rank[leftRoot] + 1;
    }
    LinkedByRank(p, k, parent[..], rank[..], leftRoot, rightRoot);
  }

  lemma LinkedByRank(p: seq<nat>, k: seq<u8>, p': seq<nat>, k': seq<u8>, l: nat, r: nat)
    requires Forest(p, k) && Heavy(p, k) && l < |p| && r < |p| && l != r && p[l] == l && p[r] == r
    requires k[l] < k[r] ==> p' == p[l := r] && k' == k
    requires k[l] > k[r] ==> p' == p[r := l] && k' == k
    requires k[l] == k[r] ==> p' == p[r := l] && k[l] < 64 && k' == k[l := k[l] + 1]
    ensures Forest(p', k') && Heavy(p', k') && ClassesOf(p', k') == ClassesOf(p, k).Link(l, r)
  {
    hide Heavy, Joined, Roots, Root;
    if k[l] < k[r] {
      Link(p, k, p', k', l, r);
    } else {
      Link(p, k, p', k', r, l);
      NatsKept(k, k', l);
    }
  }

  method Union(parent: array<nat>, rank: array<u8>, left: nat, right: nat)
    requires parent.Length == rank.Length < USIZE_LIMIT && left < parent.Length && right < parent.Length
    requires Forest(parent[..], rank[..]) && Heavy(parent[..], rank[..])
    modifies parent, rank
    ensures Forest(parent[..], rank[..]) && Heavy(parent[..], rank[..])
    ensures ClassesOf(parent[..], rank[..]) == old(ClassesOf(parent[..], rank[..])).Unite(left, right)
  {
    hide Heavy;
    ghost var before, k := parent[..], rank[..];
    var leftRoot := Find(parent, left, k);
    var rightRoot := Find(parent, right, k);
    SameRootsKeepHeavy(before, parent[..], k);
    if leftRoot == rightRoot {
      return;
    }
    LinkByRank(parent, rank, leftRoot, rightRoot);
  }

  lemma Link(parent: seq<nat>, rank: seq<u8>, parent': seq<nat>, rank': seq<u8>, a: nat, b: nat)
    requires Linked(parent, rank, parent', rank', a, b) && Heavy(parent, rank) && RankStep(rank, rank', a, b)
    ensures Heavy(parent', rank') && Roots(parent', rank') == Joined(Roots(parent, rank), a, b)
  {
    LinkedKeepsHeavy(parent, rank, parent', rank', a, b);
    LinkedRoots(parent, rank, parent', rank', a, b);
  }

  /** A union merges exactly the classes of its arguments. */
  lemma UniteMerges(s: Classes, left: nat, right: nat)
    requires left < |s.roots| && right < |s.roots|
    ensures Merged(s.roots, s.Unite(left, right).roots, left, right)
  {
  }

  /** The representative of the joined class is the one of higher rank, the left one among equals, whose rank then
      grows by one; every other element keeps its representative and every other rank stays. */
  lemma UniteElects(s: Classes, left: nat, right: nat, x: nat)
    requires left < |s.roots| && right < |s.roots| && x < |s.roots| && |s.ranks| == |s.roots|
    requires s.roots[left] < |s.roots| && s.roots[right] < |s.roots| && s.roots[left] != s.roots[right]
    ensures var a, b := s.roots[left], s.roots[right];
      var elected := if s.ranks[a] >= s.ranks[b] then a else b;
      var t := s.Unite(left, right);
      && |t.roots| == |t.ranks| == |s.roots|
      && t.roots[x] == (if s.roots[x] == a || s.roots[x] == b then elected else s.roots[x])
      && t.ranks[x] == s.ranks[x] + (if x == elected && s.ranks[a] == s.ranks[b] then 1 else 0)
  {
  }

  // ----- weak connectivity

  ghost predicate IsWeakPath(c: Induced, p: seq<nat>) {
    && |p| > 0
    && (forall i :: 0 <= i < |p| ==> c.In(p[i]))
    && (forall i :: 0 <= i < |p| - 1 ==> c.Edge(p[i], p[i + 1]) || c.Edge(p[i + 1], p[i]))
  }

  ghost predicate WeakPathBetween(c: Induced, p: seq<nat>, a: nat, b: nat) {
    IsWeakPath(c, p) && p[0] == a && p[|p| - 1] == b
  }

  /** `a` and `b` are joined by induced edges, whatever their orientation. */
  ghost predicate WeaklyConnected(c: Induced, a: nat, b: nat) {
    exists p :: WeakPathBetween(c, p, a, b)
  }

  ghost function Connections(c: Induced): iset<(nat, nat)> {
    iset a: nat, b: nat | WeaklyConnected(c, a, b) :: (a, b)
  }

  /** `related` contains every induced edge and is symmetric, transitive and reflexive on members. */
  ghost predicate IsEquivalence(c: Induced, related: iset<(nat, nat)>) {
    && (forall x: nat :: c.In(x) ==> (x, x) in related)
    && (forall x: nat, y: nat :: c.Edge(x, y) ==> (x, y) in related)
    && (forall x: nat, y: nat :: (x, y) in related ==> (y, x) in related && c.In(x))
    && (forall x: nat, y: nat, z: nat {:trigger Via(x, y, z)} ::
          Via(x, y, z) && (x, y) in related && (y, z) in related ==> (x, z) in related)
  }

  lemma ReversedWeakPath(c: Induced, p: seq<nat>, a: nat, b: nat)
    requires WeakPathBetween(c, p, a, b)
    ensures WeaklyConnected(c, b, a)
  {
    var r := seq(|p|, i requires 0 <= i < |p| => p[|p| - 1 - i]);
    forall i | 0 <= i < |r| - 1
      ensures c.Edge(r[i], r[i + 1]) || c.Edge(r[i + 1], r[i])
    {
      var k := |p| - 2 - i;
      assert c.Edge(p[k], p[k + 1]) || c.Edge(p[k + 1], p[k]);
    }
    assert WeakPathBetween(c, r, b, a);
  }

  lemma JoinedWeakPath(c: Induced, p: seq<nat>, q: seq<nat>, x: nat, y: nat, z: nat)
    requires WeakPathBetween(c, p, x, y) && WeakPathBetween(c, q, y, z)
    ensures WeaklyConnected(c, x, z)
  {
    var r := p + q[1..];
    forall i | 0 <= i < |r| - 1
      ensures c.Edge(r[i], r[i + 1]) || c.Edge(r[i + 1], r[i])
    {
      if i >= |p| - 1 {
        var k := i - |p| + 1;
        assert r[i] == q[k] && r[i + 1] == q[k + 1];
        assert c.Edge(q[k], q[k + 1]) || c.Edge(q[k + 1], q[k]);
      } else {
        assert c.Edge(p[i], p[i + 1]) || c.Edge(p[i + 1], p[i]);
      }
    }
    assert WeakPathBetween(c, r, x, z);
  }

  lemma ConnectionsAreEquivalence(c: Induced)
    ensures IsEquivalence(c, Connections(c))
  {
    forall x: nat | c.In(x) ensures (x, x) in Connections(c) {
      assert WeakPathBetween(c, [x], x, x);
    }
    forall x: nat, y: nat | c.Edge(x, y) ensures (x, y) in Connections(c) {
      assert WeakPathBetween(c, [x, y], x, y);
    }
    forall x: nat, y: nat | (x, y) in Connections(c) ensures (y, x) in Connections(c) && c.In(x) {
      var p :| WeakPathBetween(c, p, x, y);
      ReversedWeakPath(c, p, x, y);
    }
    forall x: nat, y: nat, z: nat | (x, y) in Connections(c) && (y, z) in Connections(c) ensures (x, z) in Connections(c) {
      var p :| WeakPathBetween(c, p, x, y);
      var q :| WeakPathBetween(c, q, y, z);
      JoinedWeakPath(c, p, q, x, y, z);
    }
  }

  /** Indices with one representative are related. */
  ghost predicate Sound(related: iset<(nat, nat)>, roots: seq<nat>) {
    forall a, b :: 0 <= a < |roots| && 0 <= b < |roots| && roots[a] == roots[b] ==> a == b || (a, b) in related
  }

  /** The edge's endpoints share a representative. */
  ghost predicate Same(roots: seq<nat>, u: nat, v: nat) {
    u < |roots| && v < |roots| && roots[u] == roots[v]
  }

  lemma UnionKeepsSound(c: Induced, related: iset<(nat, nat)>, roots: seq<nat>, roots': seq<nat>, u: nat, v: nat)
    requires IsEquivalence(c, related) && Sound(related, roots) && c.Edge(u, v)
    requires u < |roots| && v < |roots| && Merged(roots, roots', u, v)
    ensures Sound(related, roots')
  {
    forall a, b | 0 <= a < |roots| && 0 <= b < |roots| && roots'[a] == roots'[b] && a != b
      ensures (a, b) in related
    {
      if roots[a] != roots[b] {
        assert (u, v) in related && (v, u) in related;
        var u', v' := if roots[a] == roots[u] then u else v, if roots[a] == roots[u] then v else u;
        assert a == u' || (a, u') in related;
        assert v' == b || (b, v') in related;
        assert Via(a, u', v') && Via(a, v', b) && Via(u', v', b);
      }
    }
  }

  lemma UnionKeepsSame(roots: seq<nat>, roots': seq<nat>, left: nat, right: nat)
    requires left < |roots| && right < |roots| && Merged(roots, roots', left, right)
    ensures Same(roots', left, right)
    ensures forall u: nat, v: nat :: Same(roots, u, v) ==> Same(roots', u, v)
  {
  }

  /** Once every edge's endpoints share a representative, so do connected members. */
  lemma {:induction false} SameAlongPath(c: Induced, roots: seq<nat>, p: seq<nat>)
    requires IsWeakPath(c, p) && |roots| == |c.member|
    requires forall u, v :: c.Edge(u, v) ==> Same(roots, u, v)
    ensures Same(roots, p[0], p[|p| - 1])
  {
    if |p| > 1 {
      var q := p[..|p| - 1];
      assert c.Edge(p[|p| - 2], p[|p| - 1]) || c.Edge(p[|p| - 1], p[|p| - 2]);
      SameAlongPath(c, roots, q);
    }
  }

  ghost predicate RootsAreComponents(c: Induced, roots: seq<nat>)
    requires |roots| == |c.member|
  {
    forall a: nat, b: nat :: c.In(a) && c.In(b) ==> (roots[a] == roots[b] <==> WeaklyConnected(c, a, b))
  }

  lemma SoundAndComplete(c: Induced, roots: seq<nat>)
    requires |roots| == |c.member| && Sound(Connections(c), roots)
    requires forall u, v :: c.Edge(u, v) ==> Same(roots, u, v)
    ensures RootsAreComponents(c, roots)
  {
    ConnectionsAreEquivalence(c);
    forall a: nat, b: nat | c.In(a) && c.In(b)
      ensures roots[a] == roots[b] <==> WeaklyConnected(c, a, b)
    {
      if roots[a] == roots[b] {
        assert (a, b) in Connections(c);
      }
      if WeaklyConnected(c, a, b) {
        var p :| WeakPathBetween(c, p, a, b);
        SameAlongPath(c, roots, p);
      }
    }
  }

  // ----- grouping

  /** The nodes of one class, in input order. */
  function Select(nodes: seq<nat>, roots: seq<nat>, r: nat): (s: seq<nat>)
    requires forall i :: 0 <= i < |nodes| ==> nodes[i] < |roots|
    ensures forall x :: x in s <==> x in nodes && roots[x] == r
  {
    if nodes == [] then []
    else
      var last := nodes[|nodes| - 1];
      assert nodes == nodes[..|nodes| - 1] + [last];
      Select(nodes[..|nodes| - 1], roots, r) + (if roots[last] == r then [last] else [])
  }

  /** The nodes weakly connected to `r`, in input order. */
  ghost function ConnectedTo(c: Induced, nodes: seq<nat>, r: nat): seq<nat> {
    if nodes == [] then []
    else
      ConnectedTo(c, nodes[..|nodes| - 1], r)
      + (if WeaklyConnected(c, r, nodes[|nodes| - 1]) then [nodes[|nodes| - 1]] else [])
  }

  lemma {:induction false} SelectIsConnectedTo(c: Induced, nodes: seq<nat>, roots: seq<nat>, r: nat)
    requires |roots| == |c.member| && RootsAreComponents(c, roots)
    requires forall i :: 0 <= i < |nodes| ==> c.In(nodes[i])
    requires c.In(r) && roots[r] == r
    ensures Select(nodes, roots, r) == ConnectedTo(c, nodes, r)
  {
    if nodes != [] {
      assert nodes == nodes[..|nodes| - 1] + [nodes[|nodes| - 1]];
      SelectIsConnectedTo(c, nodes[..|nodes| - 1], roots, r);
    }
  }

  // ----- the representatives that uniting every edge ends with

  function Singles(bound: nat): Classes {
    Classes(seq(bound, i requires 0 <= i < bound => i), seq(bound, _ => 0))
  }

  /** The edges from `source` to members, united in the order of its connections. */
  function UniteRow(c: Induced, s: Classes, source: nat, successors: seq<nat>): Classes {
    if successors == [] then s
    else
      var front, target := UniteRow(c, s, source, successors[..|successors| - 1]), successors[|successors| - 1];
      if c.In(target) then front.Unite(source, target) else front
  }

  /** The edges from every listed node, in input order. */
  function UniteAll(c: Induced, nodes: seq<nat>): Classes {
    if nodes == [] then Singles(c.graph.bound)
    else
      var node := nodes[|nodes| - 1];
      UniteRow(c, UniteAll(c, nodes[..|nodes| - 1]), node, c.graph.succ(node))
  }

  lemma RowStep(c: Induced, s: Classes, source: nat, successors: seq<nat>, k: nat)
    ensures UniteRow(c, s, source, successors[..0]) == s
    ensures UniteRow(c, s, source, successors[..|successors|]) == UniteRow(c, s, source, successors)
    ensures k < |successors| ==>
      var front := UniteRow(c, s, source, successors[..k]);
      UniteRow(c, s, source, successors[..k + 1]) == if c.In(successors[k]) then front.Unite(source, successors[k]) else front
  {
    hide Classes.Unite;
    assert successors[..|successors|] == successors;
    if k < |successors| {
      assert successors[..k + 1][..k] == successors[..k];
    }
  }

  // ----- the unions as one scan of the connections

  /** The place of a connection between members: the listed element it starts from, and its number there. */
  type Place = (nat, nat)

  predicate PlaceOk(c: Induced, nodes: seq<nat>, p: Place) {
    p.0 < |nodes| && p.1 < |c.graph.succ(nodes[p.0])| && c.In(c.graph.succ(nodes[p.0])[p.1])
  }

  predicate PlaceBefore(p: Place, q: Place) {
    p.0 < q.0 || (p.0 == q.0 && p.1 < q.1)
  }

  /** All connections between members before a place, in the order of the list and then of the connections. */
  ghost predicate IsScan(c: Induced, nodes: seq<nat>, places: seq<Place>, end: Place) {
    && (forall i, j :: 0 <= i < j < |places| ==> PlaceBefore(places[i], places[j]))
    && (forall p :: p in places <==> PlaceOk(c, nodes, p) && PlaceBefore(p, end))
  }

  /** Every element alone, then each connection's two ends united, its source on the left. */
  ghost function Folded(c: Induced, nodes: seq<nat>, places: seq<Place>): Classes
    requires forall p :: p in places ==> PlaceOk(c, nodes, p)
  {
    if places == [] then Classes(seq(c.graph.bound, i => i), seq(c.graph.bound, _ => 0))
    else
      var p := places[|places| - 1];
      assert PlaceOk(c, nodes, p);
      Folded(c, nodes, places[..|places| - 1]).Unite(nodes[p.0], c.graph.succ(nodes[p.0])[p.1])
  }

  lemma {:induction false} ScanTo(c: Induced, nodes: seq<nat>, i: nat, k: nat) returns (places: seq<Place>)
    requires i < |nodes| && k <= |c.graph.succ(nodes[i])|
    ensures IsScan(c, nodes, places, (i, k))
    ensures Folded(c, nodes, places) == UniteRow(c, UniteAll(c, nodes[..i]), nodes[i], c.graph.succ(nodes[i])[..k])
    decreases i, k
  {
    hide Classes.Unite;
    if k > 0 {
      places := ScanTo(c, nodes, i, k - 1);
      RowStep(c, UniteAll(c, nodes[..i]), nodes[i], c.graph.succ(nodes[i]), k - 1);
      if PlaceOk(c, nodes, (i, k - 1)) {
        OneMorePlace(c, nodes, places, (i, k - 1), (i, k));
        places := places + [(i, k - 1)];
      }
    } else {
      if i > 0 {
        places := ScanTo(c, nodes, i - 1, |c.graph.succ(nodes[i - 1])|);
        RowEnds(c, nodes, i - 1);
      } else {
        places := [];
        assert nodes[..0] == [];
      }
      RowStep(c, UniteAll(c, nodes[..i]), nodes[i], c.graph.succ(nodes[i]), 0);
    }
  }

  lemma RowEnds(c: Induced, nodes: seq<nat>, i: nat)
    requires i < |nodes|
    ensures var row := c.graph.succ(nodes[i]);
      UniteRow(c, UniteAll(c, nodes[..i]), nodes[i], row[..|row|]) == UniteAll(c, nodes[..i + 1])
  {
    assert nodes[..i + 1][..i] == nodes[..i];
    RowStep(c, UniteAll(c, nodes[..i]), nodes[i], c.graph.succ(nodes[i]), 0);
  }

  lemma OneMorePlace(c: Induced, nodes: seq<nat>, places: seq<Place>, p: Place, end: Place)
    requires IsScan(c, nodes, places, p) && PlaceOk(c, nodes, p) && end == (p.0, p.1 + 1)
    ensures IsScan(c, nodes, places + [p], end)
    ensures Folded(c, nodes, places + [p]) ==
      Folded(c, nodes, places).Unite(nodes[p.0], c.graph.succ(nodes[p.0])[p.1])
  {
    hide Classes.Unite, PlaceOk;
    assert (places + [p])[..|places|] == places;
  }

  /** Uniting all rows is uniting the ends of every connection, in scanning order. */
  lemma UniteAllScans(c: Induced, nodes: seq<nat>) returns (places: seq<Place>)
    ensures IsScan(c, nodes, places, (|nodes|, 0)) && Folded(c, nodes, places) == UniteAll(c, nodes)
  {
    hide Classes.Unite;
    if nodes == [] {
      places := [];
    } else {
      var i := |nodes| - 1;
      places := ScanTo(c, nodes, i, |c.graph.succ(nodes[i])|);
      RowEnds(c, nodes, i);
      assert nodes[..i + 1] == nodes;
    }
  }

  lemma AllStep(c: Induced, nodes: seq<nat>, n: nat)
    ensures UniteAll(c, nodes[..0]) == Singles(c.graph.bound) && nodes[..|nodes|] == nodes
    ensures n < |nodes| ==> UniteAll(c, nodes[..n + 1]) == UniteRow(c, UniteAll(c, nodes[..n]), nodes[n], c.graph.succ(nodes[n]))
  {
    hide UniteRow;
    if n < |nodes| {
      assert nodes[..n + 1][..n] == nodes[..n];
    }
  }

  // ----- the groups

  /** Group `i` lists the nodes connected to `reps[i]` in input order; all of them have it as their
      representative. Representatives ascend, and no node is left out. */
  ghost predicate GroupedBy(c: Induced, nodes: seq<nat>, roots: seq<nat>, groups: seq<seq<nat>>, reps: seq<nat>) {
    && |groups| == |reps| && (forall i, j :: 0 <= i < j < |reps| ==> reps[i] < reps[j])
    && (forall i :: 0 <= i < |reps| ==> reps[i] in groups[i] && groups[i] == ConnectedTo(c, nodes, reps[i]))
    && (forall i, x :: 0 <= i < |groups| && x in groups[i] ==> x < |roots| && roots[x] == reps[i])
    && (forall x :: x in nodes ==> exists i :: 0 <= i < |groups| && x in groups[i])
    && (forall i, j, x: nat, y: nat :: 0 <= i < |groups| && 0 <= j < |groups| && x in groups[i] && y in groups[j]
          ==> (i == j <==> WeaklyConnected(c, x, y)))
  }

  ghost predicate IsGrouping(c: Induced, nodes: seq<nat>, roots: seq<nat>, groups: seq<seq<nat>>) {
    exists reps :: GroupedBy(c, nodes, roots, groups, reps)
  }

  ghost function RepSet(nodes: seq<nat>, roots: seq<nat>): set<nat>
    requires forall x :: x in nodes ==> x < |roots|
  {
    set x | x in nodes :: roots[x]
  }

  lemma RepsAreListing(c: Induced, nodes: seq<nat>, roots: seq<nat>, groups: seq<seq<nat>>, reps: seq<nat>)
    requires forall x :: x in nodes ==> x < |roots|
    requires GroupedBy(c, nodes, roots, groups, reps)
    ensures Lists(reps, RepSet(nodes, roots), NatLess)
    ensures |groups| == |reps| && forall i :: 0 <= i < |reps| ==> groups[i] == ConnectedTo(c, nodes, reps[i])
  {
    hide ConnectedTo;
    forall r ensures r in reps <==> exists x :: x in nodes && roots[x] == r {
      if r in reps {
        var i :| 0 <= i < |reps| && reps[i] == r;
        ConnectedAreNodes(c, nodes, r);
        assert r in groups[i];
      }
      if exists x :: x in nodes && roots[x] == r {
        var x :| x in nodes && roots[x] == r;
        var i :| 0 <= i < |groups| && x in groups[i];
        assert reps[i] == r;
      }
    }
  }

  lemma {:induction false} ConnectedAreNodes(c: Induced, nodes: seq<nat>, r: nat)
    ensures forall x :: x in ConnectedTo(c, nodes, r) ==> x in nodes
  {
    if nodes != [] {
      ConnectedAreNodes(c, nodes[..|nodes| - 1], r);
      assert nodes == nodes[..|nodes| - 1] + [nodes[|nodes| - 1]];
    }
  }

  /** The groups and their order are determined by the nodes and their representatives. */
  lemma GroupingIsUnique(c: Induced, nodes: seq<nat>, roots: seq<nat>, groups: seq<seq<nat>>, groups': seq<seq<nat>>)
    requires forall x :: x in nodes ==> x < |roots|
    requires IsGrouping(c, nodes, roots, groups) && IsGrouping(c, nodes, roots, groups')
    ensures groups == groups'
  {
    var reps :| GroupedBy(c, nodes, roots, groups, reps);
    var reps' :| GroupedBy(c, nodes, roots, groups', reps');
    RepsAreListing(c, nodes, roots, groups, reps);
    RepsAreListing(c, nodes, roots, groups', reps');
    hide *;
    NatOrder();
    ListingIsUnique(reps, reps', RepSet(nodes, roots), NatLess);
  }

  method ConnectedComponents(graph: Graph, elements: seq<nat>) returns (components: seq<seq<nat>>)
    requires graph.bound < USIZE_LIMIT
    ensures var ctx, nodes := InducedBy(graph, elements), Distinct(graph.bound, elements);
      IsGrouping(ctx, nodes, UniteAll(ctx, nodes).roots, components)
  {
    var ctx, nodes := CollectMembers(graph, elements);
    var parent := new nat[graph.bound](i => i);
    var rank := new u8[graph.bound](_ => 0);
    assert forall i :: 0 <= i < |nodes| ==> nodes[i] in nodes;
    UniteEdges(ctx, nodes, parent, rank);
    components := CollectGroups(ctx, nodes, parent, rank[..]);
  }

  method UniteEdges(ctx: Induced, nodes: seq<nat>, parent: array<nat>, rank: array<u8>)
    requires ctx.Valid() && parent.Length == rank.Length == ctx.graph.bound < USIZE_LIMIT
    requires forall i :: 0 <= i < |nodes| ==> ctx.In(nodes[i])
    requires forall x: nat :: ctx.In(x) ==> x in nodes
    requires forall i :: 0 <= i < parent.Length ==> parent[i] == i && rank[i] == 0
    modifies parent, rank
    ensures Forest(parent[..], rank[..]) && ClassesOf(parent[..], rank[..]) == UniteAll(ctx, nodes)
    ensures RootsAreComponents(ctx, Roots(parent[..], rank[..])) && Sound(Connections(ctx), Roots(parent[..], rank[..]))
  {
    hide Forest, Heavy, Sound, Merged, Same, IsEquivalence, RootsAreComponents, Classes.Unite, UniteRow, UniteAll, Singles;
    ghost var related := Connections(ctx);
    ConnectionsAreEquivalence(ctx);
    Singletons(parent[..], rank[..]);
    AllStep(ctx, nodes, 0);
    for n := 0 to |nodes|
      invariant Forest(parent[..], rank[..]) && Heavy(parent[..], rank[..])
      invariant ClassesOf(parent[..], rank[..]) == UniteAll(ctx, nodes[..n])
      invariant Sound(related, Roots(parent[..], rank[..]))
      invariant forall i, v: nat :: 0 <= i < n && ctx.Edge(nodes[i], v) ==> Same(Roots(parent[..], rank[..]), nodes[i], v)
    {
      var source := nodes[n];
      var successors := ctx.graph.succ(source);
      ghost var start := UniteAll(ctx, nodes[..n]);
      RowStep(ctx, start, source, successors, 0);
      for k := 0 to |successors|
        invariant Forest(parent[..], rank[..]) && Heavy(parent[..], rank[..])
        invariant ClassesOf(parent[..], rank[..]) == UniteRow(ctx, start, source, successors[..k])
        invariant Sound(related, Roots(parent[..], rank[..]))
        invariant forall i, v: nat :: 0 <= i < n && ctx.Edge(nodes[i], v) ==> Same(Roots(parent[..], rank[..]), nodes[i], v)
        invariant forall i :: 0 <= i < k && ctx.In(successors[i]) ==> Same(Roots(parent[..], rank[..]), source, successors[i])
      {
        var target := successors[k];
        RowStep(ctx, start, source, successors, k);
        if target < ctx.graph.bound && ctx.member[target] {
          ghost var before := ClassesOf(parent[..], rank[..]);
          Union(parent, rank, source, target);
          UniteMerges(before, source, target);
          UnionKeepsSound(ctx, related, before.roots, Roots(parent[..], rank[..]), source, target);
          UnionKeepsSame(before.roots, Roots(parent[..], rank[..]), source, target);
        }
      }
      AllStep(ctx, nodes, n);
    }
    SoundAndComplete(ctx, Roots(parent[..], rank[..]));
  }

  lemma Singletons(parent: seq<nat>, rank: seq<u8>)
    requires |parent| == |rank| && forall i :: 0 <= i < |parent| ==> parent[i] == i && rank[i] == 0
    ensures Forest(parent, rank) && Heavy(parent, rank) && Roots(parent, rank) == parent
    ensures ClassesOf(parent, rank) == Singles(|parent|)
    ensures forall related :: Sound(related, parent)
  {
    forall r | 0 <= r < |parent| ensures |ClassOf(Roots(parent, rank), r)| == 1 {
      assert ClassOf(Roots(parent, rank), r) == {r};
    }
  }

  /** The entries of `groups` are exactly the nonempty classes. */
  ghost predicate Collected(groups: map<nat, seq<nat>>, nodes: seq<nat>, roots: seq<nat>)
    requires forall i :: 0 <= i < |nodes| ==> nodes[i] < |roots|
  {
    forall r: nat {:trigger Select(nodes, roots, r)} ::
      && (r in groups <==> Select(nodes, roots, r) != [])
      && (r in groups ==> groups[r] == Select(nodes, roots, r))
  }

  lemma CollectNode(groups: map<nat, seq<nat>>, nodes: seq<nat>, roots: seq<nat>, x: nat)
    requires forall i :: 0 <= i < |nodes| ==> nodes[i] < |roots|
    requires x < |roots| && Collected(groups, nodes, roots)
    ensures forall i :: 0 <= i < |nodes + [x]| ==> (nodes + [x])[i] < |roots|
    ensures var r := roots[x];
      Collected(groups[r := (if r in groups then groups[r] else []) + [x]], nodes + [x], roots)
  {
    assert (nodes + [x])[..|nodes|] == nodes;
    var r := roots[x];
    var groups' := groups[r := (if r in groups then groups[r] else []) + [x]];
    forall q: nat
      ensures q in groups' <==> Select(nodes + [x], roots, q) != []
      ensures q in groups' ==> groups'[q] == Select(nodes + [x], roots, q)
    {
      assert Select(nodes + [x], roots, q) == Select(nodes, roots, q) + (if roots[x] == q then [x] else []);
    }
  }

  /** The representative of a member's class is a member of that class. */
  lemma RepresentativeIsMember(c: Induced, nodes: seq<nat>, parent: seq<nat>, rank: seq<u8>, r: nat, x: nat)
    requires Forest(parent, rank) && |parent| == |c.member| && Sound(Connections(c), Roots(parent, rank))
    requires c.In(x) && Root(parent, rank, x) == r
    ensures c.In(r) && Root(parent, rank, r) == r
  {
    ConnectionsAreEquivalence(c);
    assert Roots(parent, rank)[x] == Roots(parent, rank)[r];
    assert x == r || (r, x) in Connections(c);
  }

  method CollectGroups(ctx: Induced, nodes: seq<nat>, parent: array<nat>, ghost rank: seq<u8>)
    returns (components: seq<seq<nat>>)
    requires ctx.Valid() && parent.Length == ctx.graph.bound
    requires forall i :: 0 <= i < |nodes| ==> ctx.In(nodes[i])
    requires forall x: nat :: ctx.In(x) ==> x in nodes
    requires Forest(parent[..], rank) && RootsAreComponents(ctx, Roots(parent[..], rank))
    requires Sound(Connections(ctx), Roots(parent[..], rank))
    modifies parent
    ensures IsGrouping(ctx, nodes, old(Roots(parent[..], rank)), components)
  {
    hide Collected, RootsAreComponents, Sound;
    ghost var roots := Roots(parent[..], rank);
    var groups: map<nat, seq<nat>> := map[];
    assert Collected(groups, [], roots) by { EmptyCollected(roots); }
    for n := 0 to |nodes|
      invariant Forest(parent[..], rank) && Roots(parent[..], rank) == roots
      invariant Collected(groups, nodes[..n], roots)
    {
      CollectNode(groups, nodes[..n], roots, nodes[n]);
      assert nodes[..n + 1] == nodes[..n] + [nodes[n]];
      var root := Find(parent, nodes[n], rank);
      groups := groups[root := (if root in groups then groups[root] else []) + [nodes[n]]];
    }
    assert nodes[..|nodes|] == nodes;
    NatOrder();
    var reps := Listing(groups.Keys, NatLess);
    components := seq(|reps|, i requires 0 <= i < |reps| && reps[i] in groups => groups[reps[i]]);
    GroupsAreGrouping(ctx, nodes, parent[..], rank, groups, reps, components);
  }

  lemma EmptyCollected(roots: seq<nat>)
    ensures Collected(map[], [], roots)
  {
  }

  lemma NatOrder()
    ensures StrictTotalOrder(NatLess)
  {
  }

  lemma GroupsAreGrouping(c: Induced, nodes: seq<nat>, parent: seq<nat>, rank: seq<u8>, groups: map<nat, seq<nat>>,
                          reps: seq<nat>, components: seq<seq<nat>>)
    requires c.Valid() && Forest(parent, rank) && |parent| == |c.member|
    requires RootsAreComponents(c, Roots(parent, rank)) && Sound(Connections(c), Roots(parent, rank))
    requires forall i :: 0 <= i < |nodes| ==> c.In(nodes[i])
    requires forall x: nat :: c.In(x) ==> x in nodes
    requires Collected(groups, nodes, Roots(parent, rank)) && Lists(reps, groups.Keys, NatLess)
    requires |components| == |reps| && forall i :: 0 <= i < |reps| ==> reps[i] in groups && components[i] == groups[reps[i]]
    ensures IsGrouping(c, nodes, Roots(parent, rank), components)
  {
    var roots := Roots(parent, rank);
    forall i | 0 <= i < |reps|
      ensures reps[i] in components[i] && components[i] == ConnectedTo(c, nodes, reps[i])
      ensures components[i] == Select(nodes, roots, reps[i])
    {
      var r := reps[i];
      var x := Select(nodes, roots, r)[0];
      assert x in Select(nodes, roots, r);
      RepresentativeIsMember(c, nodes, parent, rank, r, x);
      SelectIsConnectedTo(c, nodes, roots, r);
    }
    forall x | x in nodes
      ensures exists i :: 0 <= i < |components| && x in components[i]
    {
      assert x in Select(nodes, roots, roots[x]);
      assert roots[x] in reps;
      var i :| 0 <= i < |reps| && reps[i] == roots[x];
      assert x in components[i];
    }
    forall i, j, x: nat, y: nat | 0 <= i < |components| && 0 <= j < |components| && x in components[i] && y in components[j]
      ensures i == j <==> WeaklyConnected(c, x, y)
    {
      assert roots[x] == reps[i] && roots[y] == reps[j];
      assert i < j ==> NatLess(reps[i], reps[j]);
      assert j < i ==> NatLess(reps[j], reps[i]);
    }
    assert GroupedBy(c, nodes, roots, components, reps);
  }
}
