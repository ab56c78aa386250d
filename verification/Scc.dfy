/** Iterative Tarjan (`oxgraph-algo/src/scc.rs`). */
module Scc {
  import opened DepthFirst
  import opened Options
  import opened Topology

  /** The sentinel discovery order, the largest 64-bit index. */
  const UNVISITED: nat := 0xFFFF_FFFF_FFFF_FFFF

  /** A node being expanded, with the next of its edges to look at. */
  datatype Frame = Frame(node: nat, successors: seq<nat>, position: nat)

  /** The value of the scratch object's fields. Each helper of the source is a method of
      `TarjanScratch` proved equal to a step function on that value; the step functions keep `Inv`,
      and `Inv` at the end of the walk gives the decomposition. */
  datatype Scratch = Scratch(
    orderIndex: seq<nat>,
    lowlink: seq<nat>,
    onStack: seq<bool>,
    stack: seq<nat>,
    components: seq<seq<nat>>,
    counter: nat)

  predicate Shape(ctx: Induced, s: Scratch) {
    ctx.Valid() && |s.orderIndex| == |s.lowlink| == |s.onStack| == ctx.graph.bound
  }

  function FilterMembers(ctx: Induced, xs: seq<nat>): (r: seq<nat>)
    ensures forall y :: y in r <==> y in xs && ctx.In(y)
  {
    if xs == [] then [] else (if ctx.In(xs[0]) then [xs[0]] else []) + FilterMembers(ctx, xs[1..])
  }

  function MemberSuccessors(ctx: Induced, node: nat): (r: seq<nat>)
    ensures forall y :: ctx.In(node) ==> (y in r <==> ctx.Edge(node, y))
  {
    FilterMembers(ctx, ctx.graph.succ(node))
  }

  // ----- the step functions

  function Discovered(ctx: Induced, s: Scratch, node: nat): Scratch
    requires Shape(ctx, s) && node < ctx.graph.bound
  {
    s.(orderIndex := s.orderIndex[node := s.counter],
       lowlink := s.lowlink[node := s.counter],
       counter := s.counter + 1,
       onStack := s.onStack[node := true],
       stack := s.stack + [node])
  }

  function NewFrame(ctx: Induced, node: nat): Frame {
    Frame(node, MemberSuccessors(ctx, node), 0)
  }

  /** The lowlinks after `node` is relaxed by `value`. */
  function Relaxed(low: seq<nat>, node: nat, value: nat): (r: seq<nat>)
    requires node < |low|
    ensures |r| == |low|
  {
    if value < low[node] then low[node := value] else low
  }

  function Advanced(ctx: Induced, s: Scratch, work: seq<Frame>, node: nat, successor: nat): (Scratch, seq<Frame>)
    requires Shape(ctx, s) && node < ctx.graph.bound && successor < ctx.graph.bound
  {
    if s.orderIndex[successor] == UNVISITED then
      (Discovered(ctx, s, successor), work + [NewFrame(ctx, successor)])
    else if s.onStack[successor] then
      (s.(lowlink := Relaxed(s.lowlink, node, s.orderIndex[successor])), work)
    else
      (s, work)
  }

  /** The scratch left when the popping loop has collected `component` so far. */
  function Popped(ctx: Induced, s: Scratch, root: nat, component: seq<nat>): (r: Scratch)
    requires Shape(ctx, s)
    requires forall i :: 0 <= i < |s.stack| ==> s.stack[i] < ctx.graph.bound
    ensures Shape(ctx, r)
    decreases |s.stack|
  {
    if s.stack == [] then s.(components := s.components + [component])
    else
      var top := s.stack[|s.stack| - 1];
      var s' := s.(stack := s.stack[..|s.stack| - 1], onStack := s.onStack[top := false]);
      if top == root then s'.(components := s.components + [component + [top]])
      else Popped(ctx, s', root, component + [top])
  }

  function Finished(ctx: Induced, s: Scratch, work: seq<Frame>, node: nat): (Scratch, seq<Frame>)
    requires Shape(ctx, s) && node < ctx.graph.bound && work != []
    requires forall i :: 0 <= i < |s.stack| ==> s.stack[i] < ctx.graph.bound
    requires forall k :: 0 <= k < |work| ==> work[k].node < ctx.graph.bound
  {
    var s1 := if s.lowlink[node] == s.orderIndex[node] then Popped(ctx, s, node, []) else s;
    var work1 := work[..|work| - 1];
    if work1 == [] then (s1, work1)
    else (s1.(lowlink := Relaxed(s1.lowlink, work1[|work1| - 1].node, s1.lowlink[node])), work1)
  }

  /** The work stack whose top frame has moved past its next successor. */
  function Bumped(work: seq<Frame>): seq<Frame>
    requires work != []
  {
    var top := work[|work| - 1];
    work[|work| - 1 := top.(position := top.position + 1)]
  }

  // ----- the invariant

  // Ghost parameters of the invariant: `reach` is a relation that contains the induced edges and
  // is reflexive on members and transitive; `owner` gives each stack entry the index of the
  // youngest frame that is no younger than the entry.

  /** Names the middle point where transitivity is wanted. */
  ghost predicate IsPreorder(ctx: Induced, reach: iset<(nat, nat)>) {
    && (forall x: nat :: ctx.In(x) ==> (x, x) in reach)
    && (forall x: nat, y: nat :: ctx.Edge(x, y) ==> (x, y) in reach)
    && (forall x: nat, y: nat, z: nat {:trigger Via(x, y, z)} ::
          Via(x, y, z) && (x, y) in reach && (y, z) in reach ==> (x, z) in reach)
  }

  predicate Visited(s: Scratch, x: nat) {
    x < |s.orderIndex| && s.orderIndex[x] != UNVISITED
  }

  predicate On(s: Scratch, x: nat) {
    x < |s.onStack| && s.onStack[x]
  }

  function Ord(s: Scratch, x: nat): nat {
    if x < |s.orderIndex| then s.orderIndex[x] else UNVISITED
  }

  function Low(s: Scratch, x: nat): nat {
    if x < |s.lowlink| then s.lowlink[x] else 0
  }

  ghost function VisitedSet(s: Scratch): (r: set<nat>)
    ensures forall x :: x in r <==> Visited(s, x)
  {
    set x: nat | x < |s.orderIndex| && Visited(s, x)
  }

  ghost predicate OrderOk(ctx: Induced, s: Scratch) {
    && (forall x: nat :: Visited(s, x) ==> ctx.In(x) && Ord(s, x) < s.counter)
    && s.counter == |VisitedSet(s)|
  }

  ghost predicate Ascending(s: Scratch, stack: seq<nat>) {
    forall i, j :: 0 <= i < j < |stack| ==> Ord(s, stack[i]) < Ord(s, stack[j])
  }

  /** The marker array agrees with the stack, which holds visited nodes by increasing order. */
  ghost predicate StackOk(s: Scratch) {
    && (forall x: nat :: On(s, x) ==> Visited(s, x))
    && (forall x: nat :: On(s, x) <==> x in s.stack)
    && Ascending(s, s.stack)
  }

  ghost predicate FramesOk(ctx: Induced, work: seq<Frame>) {
    forall k :: 0 <= k < |work| ==>
      work[k].successors == MemberSuccessors(ctx, work[k].node) && work[k].position <= |work[k].successors|
  }

  /** Frames are on the stack and deeper frames are younger. */
  ghost predicate WorkOk(s: Scratch, work: seq<Frame>) {
    && (forall k :: 0 <= k < |work| ==> On(s, work[k].node))
    && (forall k, l :: 0 <= k < l < |work| ==> Ord(s, work[k].node) < Ord(s, work[l].node))
  }

  /** Older stack entries reach younger ones. */
  ghost predicate StackReach(reach: iset<(nat, nat)>, s: Scratch) {
    forall x: nat, y: nat :: On(s, x) && On(s, y) && Ord(s, x) <= Ord(s, y) ==> (x, y) in reach
  }

  ghost function OwnerOf(owner: map<nat, nat>, x: nat): nat {
    if x in owner then owner[x] else 0
  }

  /** `x` reaches frame `k`, the youngest frame no younger than it. */
  ghost predicate OwnedBy(reach: iset<(nat, nat)>, s: Scratch, work: seq<Frame>, x: nat, k: nat)
    requires k < |work|
  {
    && Ord(s, work[k].node) <= Ord(s, x)
    && (k + 1 < |work| ==> Ord(s, x) < Ord(s, work[k + 1].node))
    && (x, work[k].node) in reach
  }

  ghost predicate OwnerOk(reach: iset<(nat, nat)>, s: Scratch, work: seq<Frame>, owner: map<nat, nat>) {
    forall x: nat {:trigger OwnerOf(owner, x)} :: On(s, x) ==>
      OwnerOf(owner, x) < |work| && OwnedBy(reach, s, work, x, OwnerOf(owner, x))
  }

  /** The lowlink of `x` is the order of some stack entry that `x` reaches, and at most its own. */
  ghost predicate LowSound(reach: iset<(nat, nat)>, s: Scratch, x: nat) {
    && Low(s, x) <= Ord(s, x)
    && exists z: nat :: On(s, z) && Ord(s, z) == Low(s, x) && (x, z) in reach
  }

  ghost predicate LowOk(reach: iset<(nat, nat)>, s: Scratch, work: seq<Frame>) {
    forall k :: 0 <= k < |work| ==> LowSound(reach, s, work[k].node)
  }

  ghost predicate Seen(f: Frame, y: nat) {
    exists i :: 0 <= i < f.position && i < |f.successors| && f.successors[i] == y
  }

  /** The edge from `x` to `y` has been looked at: every edge of a node without a frame has. */
  ghost predicate Explored(ctx: Induced, work: seq<Frame>, x: nat, y: nat) {
    ctx.Edge(x, y) && forall k :: 0 <= k < |work| && work[k].node == x ==> Seen(work[k], y)
  }

  /** Explored edges of visited nodes lead to visited nodes. */
  ghost predicate ExploredOk(ctx: Induced, s: Scratch, work: seq<Frame>) {
    forall x: nat, y: nat {:trigger Explored(ctx, work, x, y)} :: Visited(s, x) && Explored(ctx, work, x, y) ==> Visited(s, y)
  }

  /** An explored edge into the stack is no lower than the lowlink of its source's owner. */
  ghost predicate LowCovers(ctx: Induced, s: Scratch, work: seq<Frame>, owner: map<nat, nat>) {
    forall x: nat, y: nat {:trigger Explored(ctx, work, x, y)} ::
      On(s, x) && On(s, y) && Explored(ctx, work, x, y) && OwnerOf(owner, x) < |work|
      ==> Low(s, work[OwnerOf(owner, x)].node) <= Ord(s, y)
  }

  ghost predicate InFirst(components: seq<seq<nat>>, n: nat, x: nat) {
    exists i :: 0 <= i < n && i < |components| && x in components[i]
  }

  /** Emitted components are nonempty, without repeats, pairwise disjoint, mutually reaching
      inside, and no edge leaves them except into components emitted earlier. */
  ghost predicate ComponentsOk(ctx: Induced, reach: iset<(nat, nat)>, components: seq<seq<nat>>) {
    && (forall i :: 0 <= i < |components| ==> |components[i]| > 0 && NoDuplicates(components[i]))
    && (forall i, j, x :: 0 <= i < j < |components| && x in components[i] ==> x !in components[j])
    && (forall i, x: nat, y: nat :: 0 <= i < |components| && x in components[i] && y in components[i] ==> (x, y) in reach)
    && (forall i, x: nat, y: nat :: 0 <= i < |components| && x in components[i] && ctx.Edge(x, y)
                          ==> InFirst(components, i + 1, y))
  }

  /** Exactly the visited nodes that left the stack have been emitted. */
  ghost predicate EmittedOk(s: Scratch) {
    forall x: nat :: InFirst(s.components, |s.components|, x) <==> Visited(s, x) && !On(s, x)
  }

  ghost predicate Inv(ctx: Induced, reach: iset<(nat, nat)>, s: Scratch, work: seq<Frame>, owner: map<nat, nat>) {
    && Shape(ctx, s) && OrderOk(ctx, s) && StackOk(s) && FramesOk(ctx, work) && WorkOk(s, work)
    && StackReach(reach, s)
    && OwnerOk(reach, s, work, owner)
    && LowOk(reach, s, work)
    && ExploredOk(ctx, s, work)
    && LowCovers(ctx, s, work, owner)
    && ComponentsOk(ctx, reach, s.components)
    && EmittedOk(s)
  }

  // ----- the counter stays below the sentinel

  lemma CounterBelowSentinel(ctx: Induced, s: Scratch, v: nat)
    requires Shape(ctx, s) && OrderOk(ctx, s) && ctx.In(v) && !Visited(s, v)
    requires ctx.graph.bound <= UNVISITED
    ensures s.counter < |ctx.Members()| <= ctx.graph.bound
    ensures s.counter < UNVISITED
  {
    IndexSetSize(ctx.graph.bound, ctx.Members());
    SubsetSize(VisitedSet(s), ctx.Members() - {v});
  }

  // ----- discovering a node

  ghost predicate MayDiscover(ctx: Induced, s: Scratch, work: seq<Frame>, v: nat) {
    && ctx.In(v) && !Visited(s, v)
    && (work != [] ==>
          var top := work[|work| - 1];
          top.position < |top.successors| && top.successors[top.position] == v)
  }

  function WorkDiscovered(ctx: Induced, work: seq<Frame>, v: nat): seq<Frame> {
    (if work == [] then [] else Bumped(work)) + [NewFrame(ctx, v)]
  }

  /** `work'` is `work` with its top frame moved on and a frame for `v` pushed. */
  ghost predicate WorkGrown(work: seq<Frame>, work': seq<Frame>, v: nat) {
    && |work'| == |work| + 1
    && work'[|work|].node == v && work'[|work|].position == 0
    && (forall k :: 0 <= k < |work| ==> work'[k].node == work[k].node && work'[k].successors == work[k].successors)
    && (forall k :: 0 <= k < |work| ==> work'[k].position == work[k].position + (if k == |work| - 1 then 1 else 0))
  }

  lemma DiscoverKeepsStack(ctx: Induced, s: Scratch, v: nat)
    requires Shape(ctx, s) && OrderOk(ctx, s) && StackOk(s) && ctx.In(v) && !Visited(s, v)
    requires ctx.graph.bound <= UNVISITED
    ensures OrderOk(ctx, Discovered(ctx, s, v)) && StackOk(Discovered(ctx, s, v))
    ensures VisitedSet(Discovered(ctx, s, v)) == VisitedSet(s) + {v}
  {
    CounterBelowSentinel(ctx, s, v);
    var s' := Discovered(ctx, s, v);
    assert VisitedSet(s') == VisitedSet(s) + {v};
    assert forall x: nat :: Visited(s', x) <==> Visited(s, x) || x == v;
    assert forall x: nat :: On(s', x) <==> On(s, x) || x == v;
    forall i, j | 0 <= i < j < |s'.stack|
      ensures Ord(s', s'.stack[i]) < Ord(s', s'.stack[j])
    {
      assert On(s, s.stack[i]);
      if j < |s.stack| { assert On(s, s.stack[j]); }
    }
  }

  /** What discovery does to the lookups the invariant reads. */
  ghost predicate DiscoverStep(ctx: Induced, s: Scratch, s': Scratch, v: nat) {
    && ctx.In(v) && !Visited(s, v) && !On(s, v)
    && (forall x: nat :: Visited(s', x) <==> Visited(s, x) || x == v)
    && (forall x: nat :: On(s', x) <==> On(s, x) || x == v)
    && (forall x: nat :: On(s, x) ==> ctx.In(x) && Ord(s, x) < s.counter)
    && (forall x: nat :: x != v ==> Ord(s', x) == Ord(s, x) && Low(s', x) == Low(s, x))
    && Ord(s', v) == Low(s', v) == s.counter
  }

  ghost function OwnerDiscovered(work: seq<Frame>, owner: map<nat, nat>, v: nat): map<nat, nat> {
    owner[v := |work|]
  }

  lemma DiscoverKeepsReach(ctx: Induced, reach: iset<(nat, nat)>, s: Scratch, s': Scratch, work: seq<Frame>,
      owner: map<nat, nat>, v: nat)
    requires IsPreorder(ctx, reach) && FramesOk(ctx, work) && WorkOk(s, work) && StackReach(reach, s)
    requires OwnerOk(reach, s, work, owner)
    requires MayDiscover(ctx, s, work, v) && DiscoverStep(ctx, s, s', v)
    ensures StackReach(reach, s')
  {
    forall x: nat | On(s, x)
      ensures (x, v) in reach
    {
      var y := work[OwnerOf(owner, x)].node;
      var top := work[|work| - 1];
      assert v in top.successors;
      assert On(s, top.node);
      assert On(s, y);
      assert (y, top.node) in reach;
      assert Via(x, y, top.node);
      assert ctx.Edge(top.node, v);
      assert Via(x, top.node, v);
    }
  }

  lemma DiscoverKeepsFrames(ctx: Induced, s: Scratch, work: seq<Frame>, v: nat)
    requires FramesOk(ctx, work) && MayDiscover(ctx, s, work, v)
    ensures WorkGrown(work, WorkDiscovered(ctx, work, v), v)
    ensures FramesOk(ctx, WorkDiscovered(ctx, work, v))
  {
    hide MemberSuccessors, Visited;
    var work' := WorkDiscovered(ctx, work, v);
    forall k | 0 <= k < |work'|
      ensures work'[k].successors == MemberSuccessors(ctx, work'[k].node) && work'[k].position <= |work'[k].successors|
    {
      assert k < |work| ==> work[k].position <= |work[k].successors|;
    }
  }

  lemma DiscoverKeepsWork(ctx: Induced, s: Scratch, s': Scratch, work: seq<Frame>, work': seq<Frame>, v: nat)
    requires WorkOk(s, work) && DiscoverStep(ctx, s, s', v) && WorkGrown(work, work', v)
    ensures WorkOk(s', work')
  {
    assert forall k :: 0 <= k < |work| ==> On(s, work[k].node) && Ord(s', work'[k].node) == Ord(s, work[k].node) < s.counter;
  }

  lemma DiscoverKeepsOwners(ctx: Induced, reach: iset<(nat, nat)>, s: Scratch, s': Scratch, work: seq<Frame>, work': seq<Frame>,
                            owner: map<nat, nat>, v: nat)
    requires (v, v) in reach && WorkOk(s, work) && OwnerOk(reach, s, work, owner)
    requires DiscoverStep(ctx, s, s', v) && WorkGrown(work, work', v)
    ensures OwnerOk(reach, s', work', OwnerDiscovered(work, owner, v))
  {
    var owner' := OwnerDiscovered(work, owner, v);
    forall x: nat | On(s', x)
      ensures OwnerOf(owner', x) < |work'| && OwnedBy(reach, s', work', x, OwnerOf(owner', x))
    {
      if x != v {
        var k := OwnerOf(owner, x);
        assert OwnerOf(owner', x) == k;
        assert OwnedBy(reach, s, work, x, k) && On(s, work[k].node);
        if k + 1 < |work| { assert On(s, work[k + 1].node); }
      }
    }
  }

  lemma DiscoverKeepsLow(ctx: Induced, reach: iset<(nat, nat)>, s: Scratch, s': Scratch, work: seq<Frame>,
      work': seq<Frame>, v: nat)
    requires IsPreorder(ctx, reach) && WorkOk(s, work) && LowOk(reach, s, work)
    requires DiscoverStep(ctx, s, s', v) && WorkGrown(work, work', v)
    ensures LowOk(reach, s', work')
  {
    forall k | 0 <= k < |work'|
      ensures LowSound(reach, s', work'[k].node)
    {
      if k < |work| {
        var x := work[k].node;
        assert LowSound(reach, s, x) && On(s, x);
        var z: nat :| On(s, z) && Ord(s, z) == Low(s, x) && (x, z) in reach;
        assert On(s', z);
      } else {
        assert On(s', v);
      }
    }
  }

  lemma ExploredBeforeDiscover(ctx: Induced, s: Scratch, work: seq<Frame>, work': seq<Frame>, v: nat, x: nat, y: nat)
    requires MayDiscover(ctx, s, work, v) && WorkGrown(work, work', v)
    requires Explored(ctx, work', x, y)
    ensures x != v
    ensures Explored(ctx, work, x, y) || (work != [] && x == work[|work| - 1].node && y == v)
  {
    assert !Seen(work'[|work|], y);
    forall k | 0 <= k < |work| && work[k].node == x
      ensures Seen(work[k], y) || (k == |work| - 1 && y == v)
    {
      assert work'[k].node == x;
      var i :| 0 <= i < work'[k].position && i < |work[k].successors| && work[k].successors[i] == y;
    }
  }

  lemma DiscoverKeepsEdges(ctx: Induced, reach: iset<(nat, nat)>, s: Scratch, s': Scratch, work: seq<Frame>, work': seq<Frame>,
                           owner: map<nat, nat>, v: nat)
    requires WorkOk(s, work) && OwnerOk(reach, s, work, owner) && LowOk(reach, s, work)
    requires ExploredOk(ctx, s, work) && LowCovers(ctx, s, work, owner)
    requires MayDiscover(ctx, s, work, v) && DiscoverStep(ctx, s, s', v) && WorkGrown(work, work', v)
    ensures ExploredOk(ctx, s', work')
    ensures LowCovers(ctx, s', work', OwnerDiscovered(work, owner, v))
  {
    var owner' := OwnerDiscovered(work, owner, v);
    forall x: nat, y: nat | Visited(s', x) && Explored(ctx, work', x, y)
      ensures Visited(s', y)
    {
      ExploredBeforeDiscover(ctx, s, work, work', v, x, y);
    }
    forall x: nat, y: nat | On(s', x) && On(s', y) && Explored(ctx, work', x, y) && OwnerOf(owner', x) < |work'|
      ensures Low(s', work'[OwnerOf(owner', x)].node) <= Ord(s', y)
    {
      ExploredBeforeDiscover(ctx, s, work, work', v, x, y);
      var k := OwnerOf(owner, x);
      assert OwnerOf(owner', x) == k && k < |work|;
      assert LowSound(reach, s, work[k].node);
      assert On(s, work[k].node);
    }
  }

  lemma DiscoverKeepsInv(ctx: Induced, reach: iset<(nat, nat)>, s: Scratch, work: seq<Frame>, owner: map<nat, nat>,
      v: nat)
    requires IsPreorder(ctx, reach) && Inv(ctx, reach, s, work, owner)
    requires MayDiscover(ctx, s, work, v) && ctx.graph.bound <= UNVISITED
    ensures Inv(ctx, reach, Discovered(ctx, s, v), WorkDiscovered(ctx, work, v), OwnerDiscovered(work, owner, v))
    ensures VisitedSet(Discovered(ctx, s, v)) == VisitedSet(s) + {v}
  {
    var s', work' := Discovered(ctx, s, v), WorkDiscovered(ctx, work, v);
    DiscoverKeepsStack(ctx, s, v);
    DiscoverIsStep(ctx, s, v);
    DiscoverKeepsFrames(ctx, s, work, v);
    DiscoverKeepsReach(ctx, reach, s, s', work, owner, v);
    DiscoverKeepsWork(ctx, s, s', work, work', v);
    DiscoverKeepsOwners(ctx, reach, s, s', work, work', owner, v);
    DiscoverKeepsLow(ctx, reach, s, s', work, work', v);
    DiscoverKeepsEdges(ctx, reach, s, s', work, work', owner, v);
  }

  lemma DiscoverIsStep(ctx: Induced, s: Scratch, v: nat)
    requires Shape(ctx, s) && OrderOk(ctx, s) && StackOk(s) && ctx.In(v) && !Visited(s, v)
    requires VisitedSet(Discovered(ctx, s, v)) == VisitedSet(s) + {v}
    ensures DiscoverStep(ctx, s, Discovered(ctx, s, v), v)
  {
    assert forall x :: x in VisitedSet(Discovered(ctx, s, v)) <==> x in VisitedSet(s) + {v};
  }

  // ----- moving past an edge to a node that was already visited

  lemma AdvanceKeepsInv(ctx: Induced, reach: iset<(nat, nat)>, s: Scratch, work: seq<Frame>, owner: map<nat, nat>)
    requires IsPreorder(ctx, reach) && Inv(ctx, reach, s, work, owner) && work != []
    requires var top := work[|work| - 1];
      top.position < |top.successors| && Visited(s, top.successors[top.position])
    ensures var top := work[|work| - 1];
      var y := top.successors[top.position];
      && top.node < ctx.graph.bound && y < ctx.graph.bound
      && Advanced(ctx, s, Bumped(work), top.node, y).1 == Bumped(work)
      && Inv(ctx, reach, Advanced(ctx, s, Bumped(work), top.node, y).0, Bumped(work), owner)
      && VisitedSet(Advanced(ctx, s, Bumped(work), top.node, y).0) == VisitedSet(s)
  {
    var top := work[|work| - 1];
    var y := top.successors[top.position];
    TopEdge(ctx, s, work);
    BumpKeepsFrames(ctx, work);
    AdvanceIsRelax(ctx, s, Bumped(work), top.node, y);
    RelaxKeepsInv(ctx, reach, s, Advanced(ctx, s, Bumped(work), top.node, y).0, work, Bumped(work), owner, y);
  }

  lemma BumpKeepsFrames(ctx: Induced, work: seq<Frame>)
    requires work != [] && FramesOk(ctx, work) && work[|work| - 1].position < |work[|work| - 1].successors|
    ensures WorkBumped(work, Bumped(work)) && FramesOk(ctx, Bumped(work))
  {
  }

  lemma RelaxKeepsInv(ctx: Induced, reach: iset<(nat, nat)>, s: Scratch, s': Scratch, work: seq<Frame>, work': seq<Frame>,
                      owner: map<nat, nat>, y: nat)
    requires IsPreorder(ctx, reach) && Inv(ctx, reach, s, work, owner) && work != []
    requires WorkBumped(work, work') && FramesOk(ctx, work')
    requires var top := work[|work| - 1]; top.position < |top.successors| && top.successors[top.position] == y && Visited(s, y)
    requires Shape(ctx, s') && OrderOk(ctx, s') && StackOk(s') && s'.components == s.components
    requires RelaxStep(s, s', work[|work| - 1].node, if On(s, y) then Ord(s, y) else UNVISITED)
    requires !On(s, y) ==> Low(s', work[|work| - 1].node) == Low(s, work[|work| - 1].node)
    requires On(s, y) ==> Low(s', work[|work| - 1].node) <= Ord(s, y)
    ensures Inv(ctx, reach, s', work', owner)
  {
    var node := work[|work| - 1].node;
    TopEdge(ctx, s, work);
    RelaxKeepsOwners(reach, s, s', work, work', owner, node, if On(s, y) then Ord(s, y) else UNVISITED);
    RelaxKeepsLow(reach, s, s', work, work', node, y);
    AdvanceKeepsEdges(ctx, reach, s, s', work, work', owner, y);
  }

  lemma TopEdge(ctx: Induced, s: Scratch, work: seq<Frame>)
    requires Shape(ctx, s) && OrderOk(ctx, s) && StackOk(s) && FramesOk(ctx, work) && WorkOk(s, work) && work != []
    requires work[|work| - 1].position < |work[|work| - 1].successors|
    ensures var top := work[|work| - 1]; ctx.Edge(top.node, top.successors[top.position])
  {
    var top := work[|work| - 1];
    assert On(s, top.node);
    assert top.successors[top.position] in top.successors;
  }

  lemma AdvanceIsRelax(ctx: Induced, s: Scratch, work: seq<Frame>, node: nat, y: nat)
    requires Shape(ctx, s) && OrderOk(ctx, s) && StackOk(s)
    requires ctx.In(node) && ctx.In(y) && Visited(s, y)
    ensures var r := Advanced(ctx, s, work, node, y);
      && r.1 == work && Shape(ctx, r.0) && OrderOk(ctx, r.0) && StackOk(r.0)
      && r.0.components == s.components
      && VisitedSet(r.0) == VisitedSet(s)
      && RelaxStep(s, r.0, node, if On(s, y) then Ord(s, y) else UNVISITED)
      && (!On(s, y) ==> Low(r.0, node) == Low(s, node))
      && (On(s, y) ==> Low(r.0, node) <= Ord(s, y))
  {
    var s' := Advanced(ctx, s, work, node, y).0;
    assert VisitedSet(s') == VisitedSet(s);
    assert s'.stack == s.stack;
  }

  lemma RelaxKeepsOwners(reach: iset<(nat, nat)>, s: Scratch, s': Scratch, work: seq<Frame>, work': seq<Frame>,
                         owner: map<nat, nat>, node: nat, value: nat)
    requires WorkOk(s, work) && OwnerOk(reach, s, work, owner) && WorkBumped(work, work')
    requires RelaxStep(s, s', node, value)
    ensures WorkOk(s', work') && OwnerOk(reach, s', work', owner)
  {
    forall x: nat | On(s', x)
      ensures OwnerOf(owner, x) < |work'| && OwnedBy(reach, s', work', x, OwnerOf(owner, x))
    {
      assert OwnedBy(reach, s, work, x, OwnerOf(owner, x));
    }
  }

  ghost predicate WorkBumped(work: seq<Frame>, work': seq<Frame>) {
    && |work'| == |work|
    && (forall k :: 0 <= k < |work| ==> work'[k].node == work[k].node && work'[k].successors == work[k].successors)
    && (forall k :: 0 <= k < |work| ==> work'[k].position == work[k].position + (if k == |work| - 1 then 1 else 0))
  }

  /** Only the lowlink of `node` changed, to the minimum of itself and `value`. */
  ghost predicate RelaxStep(s: Scratch, s': Scratch, node: nat, value: nat) {
    && (forall x: nat :: Visited(s', x) <==> Visited(s, x))
    && (forall x: nat :: On(s', x) <==> On(s, x))
    && (forall x: nat :: Ord(s', x) == Ord(s, x))
    && (forall x: nat :: x != node ==> Low(s', x) == Low(s, x))
    && (Low(s', node) == Low(s, node) || Low(s', node) == value < Low(s, node))
    && (value == UNVISITED || Low(s', node) <= value)
  }

  lemma RelaxKeepsLow(reach: iset<(nat, nat)>, s: Scratch, s': Scratch, work: seq<Frame>, work': seq<Frame>,
      node: nat, y: nat)
    requires LowOk(reach, s, work) && WorkBumped(work, work')
    requires RelaxStep(s, s', node, if On(s, y) then Ord(s, y) else UNVISITED)
    requires !On(s, y) ==> Low(s', node) == Low(s, node)
    requires (node, y) in reach
    ensures LowOk(reach, s', work')
  {
    forall k | 0 <= k < |work'|
      ensures LowSound(reach, s', work'[k].node)
    {
      var x := work[k].node;
      assert LowSound(reach, s, x);
      var z: nat :| On(s, z) && Ord(s, z) == Low(s, x) && (x, z) in reach;
      assert On(s', z) && On(s', y) == On(s, y);
    }
  }

  lemma AdvanceKeepsEdges(ctx: Induced, reach: iset<(nat, nat)>, s: Scratch, s': Scratch, work: seq<Frame>, work': seq<Frame>,
                          owner: map<nat, nat>, y: nat)
    requires work != [] && WorkOk(s, work) && OwnerOk(reach, s, work, owner)
    requires ExploredOk(ctx, s, work) && LowCovers(ctx, s, work, owner)
    requires WorkBumped(work, work') && Visited(s, y)
    requires var top := work[|work| - 1]; top.position < |top.successors| && top.successors[top.position] == y
    requires RelaxStep(s, s', work[|work| - 1].node, if On(s, y) then Ord(s, y) else UNVISITED)
    requires On(s, y) ==> Low(s', work[|work| - 1].node) <= Ord(s, y)
    ensures ExploredOk(ctx, s', work') && LowCovers(ctx, s', work', owner)
  {
    forall x: nat, z: nat | Explored(ctx, work', x, z)
      ensures Explored(ctx, work, x, z) || (x == work[|work| - 1].node && z == y)
    {
      ExploredBeforeBump(ctx, work, work', x, z);
    }
    forall x: nat, z: nat | On(s', x) && On(s', z) && Explored(ctx, work', x, z) && OwnerOf(owner, x) < |work'|
      ensures Low(s', work'[OwnerOf(owner, x)].node) <= Ord(s', z)
    {
      ExploredBeforeBump(ctx, work, work', x, z);
      var k := OwnerOf(owner, x);
      if !Explored(ctx, work, x, z) {
        TopOwnsItself(reach, s, work, owner);
      }
    }
  }

  lemma TopOwnsItself(reach: iset<(nat, nat)>, s: Scratch, work: seq<Frame>, owner: map<nat, nat>)
    requires work != [] && WorkOk(s, work) && OwnerOk(reach, s, work, owner)
    ensures forall x: nat :: On(s, x) && Ord(s, work[|work| - 1].node) <= Ord(s, x) ==> OwnerOf(owner, x) == |work| - 1
  {
    var n := |work| - 1;
    forall x: nat | On(s, x) && Ord(s, work[n].node) <= Ord(s, x)
      ensures OwnerOf(owner, x) == n
    {
      var k := OwnerOf(owner, x);
      assert OwnedBy(reach, s, work, x, k);
    }
  }

  lemma ExploredBeforeBump(ctx: Induced, work: seq<Frame>, work': seq<Frame>, x: nat, z: nat)
    requires work != [] && WorkBumped(work, work') && Explored(ctx, work', x, z)
    requires work[|work| - 1].position < |work[|work| - 1].successors|
    ensures Explored(ctx, work, x, z)
         || (x == work[|work| - 1].node && z == work[|work| - 1].successors[work[|work| - 1].position])
  {
    var top := work[|work| - 1];
    forall k | 0 <= k < |work| && work[k].node == x
      ensures Seen(work[k], z) || (k == |work| - 1 && z == top.successors[top.position])
    {
      assert work'[k].node == x;
      var i :| 0 <= i < work'[k].position && i < |work[k].successors| && work[k].successors[i] == z;
    }
  }

  // ----- finishing a node

  /** The top frame is exhausted, so dropping it hides no unexplored edge. */
  lemma FinishedIsExplored(ctx: Induced, work: seq<Frame>, x: nat, y: nat)
    requires work != [] && FramesOk(ctx, work) && work[|work| - 1].position == |work[|work| - 1].successors|
    requires Explored(ctx, work[..|work| - 1], x, y)
    ensures Explored(ctx, work, x, y)
  {
    var n := |work| - 1;
    forall k | 0 <= k < |work| && work[k].node == x
      ensures Seen(work[k], y)
    {
      if k < n {
        assert work[..n][k] == work[k];
      } else {
        assert y in work[k].successors;
      }
    }
  }

  /** A node whose lowlink is below its order reaches its parent frame, so it has one. */
  lemma NonRootReachesParent(ctx: Induced, reach: iset<(nat, nat)>, s: Scratch, work: seq<Frame>, owner: map<nat, nat>)
    requires IsPreorder(ctx, reach) && StackReach(reach, s)
    requires work != [] && WorkOk(s, work) && OwnerOk(reach, s, work, owner) && LowOk(reach, s, work)
    requires Low(s, work[|work| - 1].node) != Ord(s, work[|work| - 1].node)
    ensures |work| > 1
    ensures (work[|work| - 1].node, work[|work| - 2].node) in reach
  {
    var n := |work| - 1;
    var top := work[n].node;
    assert LowSound(reach, s, top);
    var z: nat :| On(s, z) && Ord(s, z) == Low(s, top) && (top, z) in reach;
    var j := OwnerOf(owner, z);
    assert OwnedBy(reach, s, work, z, j);
    assert j < n;
    var w, p := work[j].node, work[n - 1].node;
    assert On(s, w) && On(s, p);
    assert (w, p) in reach;
    assert Via(top, z, w);
    assert Via(top, w, p);
  }

  ghost function OwnerFinished(owner: map<nat, nat>, n: nat): (r: map<nat, nat>)
    ensures n > 0 ==> forall x: nat :: OwnerOf(r, x) == if OwnerOf(owner, x) == n then n - 1 else OwnerOf(owner, x)
  {
    map x | x in owner :: if owner[x] == n > 0 then n - 1 else owner[x]
  }

  lemma FinishNonRootKeepsOwners(ctx: Induced, reach: iset<(nat, nat)>, s: Scratch, s': Scratch, work: seq<Frame>,
      owner: map<nat, nat>)
    requires IsPreorder(ctx, reach) && |work| > 1 && WorkOk(s, work) && OwnerOk(reach, s, work, owner)
    requires (work[|work| - 1].node, work[|work| - 2].node) in reach
    requires RelaxStep(s, s', work[|work| - 2].node, Low(s, work[|work| - 1].node))
    ensures OwnerOk(reach, s', work[..|work| - 1], OwnerFinished(owner, |work| - 1))
  {
    var n := |work| - 1;
    var work', owner' := work[..n], OwnerFinished(owner, n);
    forall x: nat | On(s', x)
      ensures OwnerOf(owner', x) < |work'| && OwnedBy(reach, s', work', x, OwnerOf(owner', x))
    {
      var k := OwnerOf(owner, x);
      assert OwnedBy(reach, s, work, x, k);
      assert Via(x, work[n].node, work[n - 1].node);
      assert Ord(s, work[n - 1].node) < Ord(s, work[n].node);
    }
  }

  lemma FinishNonRootKeepsLow(ctx: Induced, reach: iset<(nat, nat)>, s: Scratch, s': Scratch, work: seq<Frame>)
    requires IsPreorder(ctx, reach) && |work| > 1 && WorkOk(s, work) && LowOk(reach, s, work) && StackReach(reach, s)
    requires RelaxStep(s, s', work[|work| - 2].node, Low(s, work[|work| - 1].node))
    ensures LowOk(reach, s', work[..|work| - 1])
  {
    var n := |work| - 1;
    var top, p := work[n].node, work[n - 1].node;
    assert On(s, top) && On(s, p) && (p, top) in reach;
    assert LowSound(reach, s, top);
    var z: nat :| On(s, z) && Ord(s, z) == Low(s, top) && (top, z) in reach;
    assert Via(p, top, z) && On(s', z);
    forall k | 0 <= k < n
      ensures LowSound(reach, s', work[..n][k].node)
    {
      var x := work[k].node;
      assert LowSound(reach, s, x);
      var u: nat :| On(s, u) && Ord(s, u) == Low(s, x) && (x, u) in reach;
      assert On(s', u);
    }
  }

  lemma FinishNonRootKeepsEdges(ctx: Induced, reach: iset<(nat, nat)>, s: Scratch, s': Scratch, work: seq<Frame>,
      owner: map<nat, nat>)
    requires |work| > 1 && FramesOk(ctx, work) && WorkOk(s, work) && OwnerOk(reach, s, work, owner)
    requires work[|work| - 1].position == |work[|work| - 1].successors|
    requires ExploredOk(ctx, s, work) && LowCovers(ctx, s, work, owner)
    requires RelaxStep(s, s', work[|work| - 2].node, Low(s, work[|work| - 1].node))
    requires Low(s', work[|work| - 2].node) <= Low(s, work[|work| - 1].node)
    ensures ExploredOk(ctx, s', work[..|work| - 1])
    ensures LowCovers(ctx, s', work[..|work| - 1], OwnerFinished(owner, |work| - 1))
  {
    var n := |work| - 1;
    var work', owner' := work[..n], OwnerFinished(owner, n);
    forall x: nat, y: nat | Explored(ctx, work', x, y)
      ensures Explored(ctx, work, x, y)
    {
      FinishedIsExplored(ctx, work, x, y);
    }
    forall x: nat, y: nat | On(s', x) && On(s', y) && Explored(ctx, work', x, y) && OwnerOf(owner', x) < |work'|
      ensures Low(s', work'[OwnerOf(owner', x)].node) <= Ord(s', y)
    {
      FinishedIsExplored(ctx, work, x, y);
      var k := OwnerOf(owner, x);
      assert Low(s, work[k].node) <= Ord(s, y);
    }
  }

  lemma FinishNonRootKeepsInv(ctx: Induced, reach: iset<(nat, nat)>, s: Scratch, work: seq<Frame>, owner: map<nat, nat>)
    requires IsPreorder(ctx, reach) && Inv(ctx, reach, s, work, owner) && work != []
    requires work[|work| - 1].position == |work[|work| - 1].successors|
    requires Low(s, work[|work| - 1].node) != Ord(s, work[|work| - 1].node)
    ensures FinishReady(ctx, s, work)
    ensures var r := Finished(ctx, s, work, work[|work| - 1].node);
      && r.1 == work[..|work| - 1]
      && Inv(ctx, reach, r.0, r.1, OwnerFinished(owner, |work| - 1))
      && VisitedSet(r.0) == VisitedSet(s)
  {
    NonRootReachesParent(ctx, reach, s, work, owner);
    InvIsFinishReady(ctx, s, work);
    var n := |work| - 1;
    var s', work' := Finished(ctx, s, work, work[n].node).0, work[..n];
    assert work'[n - 1] == work[n - 1];
    assert RelaxStep(s, s', work[n - 1].node, Low(s, work[n].node));
    assert VisitedSet(s') == VisitedSet(s);
    FinishNonRootKeepsOwners(ctx, reach, s, s', work, owner);
    FinishNonRootKeepsLow(ctx, reach, s, s', work);
    FinishNonRootKeepsEdges(ctx, reach, s, s', work, owner);
    RelaxingKeepsRest(ctx, reach, s, s', work);
    hide OrderOk, StackOk, FramesOk, WorkOk, StackReach, OwnerOk, LowOk, ExploredOk, LowCovers, ComponentsOk, EmittedOk;
  }

  /** What does not mention lowlinks survives a change of lowlinks and the loss of the top frame. */
  lemma RelaxingKeepsRest(ctx: Induced, reach: iset<(nat, nat)>, s: Scratch, s': Scratch, work: seq<Frame>)
    requires Shape(ctx, s) && OrderOk(ctx, s) && StackOk(s) && FramesOk(ctx, work) && WorkOk(s, work)
    requires StackReach(reach, s) && EmittedOk(s)
    requires work != [] && |s'.lowlink| == |s.lowlink| && s' == s.(lowlink := s'.lowlink)
    ensures Shape(ctx, s') && OrderOk(ctx, s') && StackOk(s') && StackReach(reach, s') && EmittedOk(s')
    ensures FramesOk(ctx, work[..|work| - 1]) && WorkOk(s', work[..|work| - 1])
    ensures VisitedSet(s') == VisitedSet(s)
  {
    assert forall x: nat :: Visited(s', x) == Visited(s, x) && On(s', x) == On(s, x) && Ord(s', x) == Ord(s, x);
    assert VisitedSet(s') == VisitedSet(s);
  }

  /** The index conditions under which `Finished` is defined. */
  ghost predicate FinishReady(ctx: Induced, s: Scratch, work: seq<Frame>) {
    && Shape(ctx, s) && work != []
    && (forall i :: 0 <= i < |s.stack| ==> s.stack[i] < ctx.graph.bound)
    && (forall k :: 0 <= k < |work| ==> work[k].node < ctx.graph.bound)
  }

  lemma InvIsFinishReady(ctx: Induced, s: Scratch, work: seq<Frame>)
    requires Shape(ctx, s) && StackOk(s) && WorkOk(s, work) && work != []
    ensures FinishReady(ctx, s, work)
  {
    forall i | 0 <= i < |s.stack| ensures s.stack[i] < ctx.graph.bound { assert On(s, s.stack[i]); }
    forall k | 0 <= k < |work| ensures work[k].node < ctx.graph.bound { assert On(s, work[k].node); }
  }

  // ----- emitting a component

  lemma ReverseFacts(xs: seq<nat>)
    ensures forall x :: x in Reversed(xs) <==> x in xs
    ensures NoDuplicates(xs) ==> NoDuplicates(Reversed(xs))
  {
    forall x | x in xs
      ensures x in Reversed(xs)
    {
      var i :| 0 <= i < |xs| && xs[i] == x;
      assert Reversed(xs)[|xs| - 1 - i] == x;
    }
  }

  ghost predicate SuffixPopped(s: Scratch, r: Scratch, p: nat, component: seq<nat>)
    requires p < |s.stack|
  {
    && r.orderIndex == s.orderIndex && r.lowlink == s.lowlink && r.counter == s.counter
    && r.stack == s.stack[..p]
    && r.components == s.components + [component + Reversed(s.stack[p..])]
    && forall x: nat :: On(r, x) <==> On(s, x) && x !in s.stack[p..]
  }

  /** Popping from `root`'s stack position up emits exactly that suffix, in pop order. */
  lemma {:induction false} PoppedSuffix(ctx: Induced, s: Scratch, p: nat, component: seq<nat>)
    requires Shape(ctx, s) && p < |s.stack|
    requires forall i :: 0 <= i < |s.stack| ==> s.stack[i] < ctx.graph.bound
    requires forall i :: p < i < |s.stack| ==> s.stack[i] != s.stack[p]
    ensures SuffixPopped(s, Popped(ctx, s, s.stack[p], component), p, component)
    decreases |s.stack|
  {
    var n := |s.stack| - 1;
    var top := s.stack[n];
    var s' := s.(stack := s.stack[..n], onStack := s.onStack[top := false]);
    ReverseSnoc(s.stack[p..n], top);
    assert s.stack[p..] == s.stack[p..n] + [top];
    if p < n {
      PoppedSuffix(ctx, s', p, component + [top]);
      assert s'.stack[p..] == s.stack[p..n];
      assert s'.stack[..p] == s.stack[..p];
      assert component + [top] + Reversed(s.stack[p..n]) == component + Reversed(s.stack[p..]);
    } else {
      assert s.stack[p..] == [top] && Reversed([top]) == [top];
    }
  }

  lemma ReverseSnoc(xs: seq<nat>, x: nat)
    ensures Reversed(xs + [x]) == [x] + Reversed(xs)
  {
  }

  /** The component that finishing `root` emits: the stack entries no older than it. */
  ghost predicate RootStep(s: Scratch, s': Scratch, root: nat, component: seq<nat>) {
    && s'.orderIndex == s.orderIndex && s'.lowlink == s.lowlink && s'.counter == s.counter
    && s'.components == s.components + [component]
    && root in component && NoDuplicates(component)
    && (forall x: nat :: x in component <==> On(s, x) && Ord(s, root) <= Ord(s, x))
    && (forall x: nat :: On(s', x) <==> On(s, x) && Ord(s, x) < Ord(s, root))
  }

  lemma SuffixHasNoDuplicates(s: Scratch, p: nat)
    requires Ascending(s, s.stack) && p < |s.stack|
    ensures NoDuplicates(s.stack[p..])
    ensures forall i :: p < i < |s.stack| ==> s.stack[i] != s.stack[p]
  {
    forall i, j | p <= i < j < |s.stack| ensures s.stack[i] != s.stack[j] {
      assert Ord(s, s.stack[i]) < Ord(s, s.stack[j]);
    }
  }

  lemma PoppedKeepsStack(s: Scratch, s': Scratch, p: nat)
    requires StackOk(s) && p < |s.stack| && s'.orderIndex == s.orderIndex && s'.stack == s.stack[..p]
    requires forall x: nat :: On(s', x) <==> On(s, x) && x !in s.stack[p..]
    ensures StackOk(s')
    ensures forall x: nat :: On(s', x) <==> On(s, x) && Ord(s, x) < Ord(s, s.stack[p])
  {
    forall x: nat
      ensures On(s', x) <==> x in s'.stack
      ensures On(s', x) <==> On(s, x) && Ord(s, x) < Ord(s, s.stack[p])
    {
      SuffixByOrder(s, p, x);
    }
    assert Ascending(s', s'.stack);
  }

  lemma SuffixPoppedIsRootStep(s: Scratch, s': Scratch, p: nat)
    requires StackOk(s) && p < |s.stack| && NoDuplicates(s.stack[p..]) && SuffixPopped(s, s', p, [])
    ensures StackOk(s') && |s'.components| > 0
    ensures RootStep(s, s', s.stack[p], s'.components[|s'.components| - 1])
  {
    PoppedKeepsStack(s, s', p);
    assert [] + Reversed(s.stack[p..]) == Reversed(s.stack[p..]);
    SuffixIsComponent(s, p);
  }

  lemma PoppedIsRootStep(ctx: Induced, s: Scratch, root: nat)
    requires Shape(ctx, s) && StackOk(s) && On(s, root)
    requires forall i :: 0 <= i < |s.stack| ==> s.stack[i] < ctx.graph.bound
    ensures StackOk(Popped(ctx, s, root, [])) && |Popped(ctx, s, root, []).components| > 0
    ensures var s' := Popped(ctx, s, root, []); RootStep(s, s', root, s'.components[|s'.components| - 1])
  {
    assert root in s.stack;
    var p :| 0 <= p < |s.stack| && s.stack[p] == root;
    SuffixHasNoDuplicates(s, p);
    PoppedSuffix(ctx, s, p, []);
    SuffixPoppedIsRootStep(s, Popped(ctx, s, root, []), p);
  }

  lemma SuffixIsComponent(s: Scratch, p: nat)
    requires StackOk(s) && p < |s.stack| && NoDuplicates(s.stack[p..])
    ensures NoDuplicates(Reversed(s.stack[p..])) && s.stack[p] in Reversed(s.stack[p..])
    ensures forall x: nat :: x in Reversed(s.stack[p..]) <==> On(s, x) && Ord(s, s.stack[p]) <= Ord(s, x)
  {
    ReverseFacts(s.stack[p..]);
    assert s.stack[p..][0] == s.stack[p];
    forall x: nat
      ensures x in s.stack[p..] <==> On(s, x) && Ord(s, s.stack[p]) <= Ord(s, x)
    {
      SuffixByOrder(s, p, x);
    }
  }

  lemma SuffixByOrder(s: Scratch, p: nat, x: nat)
    requires StackOk(s) && p < |s.stack|
    ensures x in s.stack[p..] <==> On(s, x) && Ord(s, s.stack[p]) <= Ord(s, x)
    ensures x in s.stack[..p] <==> On(s, x) && Ord(s, x) < Ord(s, s.stack[p])
  {
    if x in s.stack {
      var i :| 0 <= i < |s.stack| && s.stack[i] == x;
      assert i < p ==> s.stack[..p][i] == x;
      assert i >= p ==> s.stack[p..][i - p] == x;
    }
    if x in s.stack[p..] {
      var i :| 0 <= i < |s.stack[p..]| && s.stack[p..][i] == x;
      assert s.stack[p + i] == x;
    }
    if x in s.stack[..p] {
      var i :| 0 <= i < p && s.stack[..p][i] == x;
      assert s.stack[i] == x;
    }
  }

  /** Dropping the frame of a root. Its lowlink equals its order, so it is above every remaining
      order and the propagation to the parent changes nothing. */
  lemma PropagationIsHarmless(reach: iset<(nat, nat)>, s: Scratch, work: seq<Frame>)
    requires |work| > 1 && WorkOk(s, work) && LowOk(reach, s, work)
    requires Low(s, work[|work| - 1].node) == Ord(s, work[|work| - 1].node)
    ensures Low(s, work[|work| - 2].node) < Low(s, work[|work| - 1].node)
  {
    assert LowSound(reach, s, work[|work| - 2].node);
  }

  lemma RootKeepsLow(reach: iset<(nat, nat)>, s: Scratch, s': Scratch, work: seq<Frame>, component: seq<nat>)
    requires work != [] && WorkOk(s, work) && LowOk(reach, s, work)
    requires RootStep(s, s', work[|work| - 1].node, component)
    ensures WorkOk(s', work[..|work| - 1]) && LowOk(reach, s', work[..|work| - 1])
  {
    var n := |work| - 1;
    forall k | 0 <= k < n
      ensures On(s', work[..n][k].node) && LowSound(reach, s', work[..n][k].node)
    {
      var x := work[k].node;
      assert On(s, x) && LowSound(reach, s, x) && Ord(s, x) < Ord(s, work[n].node);
      var z: nat :| On(s, z) && Ord(s, z) == Low(s, x) && (x, z) in reach;
      assert On(s', z);
    }
  }

  lemma RootKeepsOwners(reach: iset<(nat, nat)>, s: Scratch, s': Scratch, work: seq<Frame>, owner: map<nat, nat>,
      component: seq<nat>)
    requires work != [] && WorkOk(s, work) && OwnerOk(reach, s, work, owner)
    requires RootStep(s, s', work[|work| - 1].node, component)
    ensures OwnerOk(reach, s', work[..|work| - 1], owner)
  {
    var n := |work| - 1;
    forall x: nat | On(s', x)
      ensures OwnerOf(owner, x) < n && OwnedBy(reach, s', work[..n], x, OwnerOf(owner, x))
    {
      var k := OwnerOf(owner, x);
      assert OwnedBy(reach, s, work, x, k) && Ord(s', x) == Ord(s, x);
      assert k < n ==> Ord(s', work[k].node) == Ord(s, work[k].node) && work[..n][k] == work[k];
    }
  }

  lemma RootKeepsEdges(ctx: Induced, s: Scratch, s': Scratch, work: seq<Frame>, owner: map<nat, nat>,
      component: seq<nat>)
    requires work != [] && FramesOk(ctx, work)
    requires work[|work| - 1].position == |work[|work| - 1].successors|
    requires ExploredOk(ctx, s, work) && LowCovers(ctx, s, work, owner)
    requires RootStep(s, s', work[|work| - 1].node, component)
    ensures ExploredOk(ctx, s', work[..|work| - 1]) && LowCovers(ctx, s', work[..|work| - 1], owner)
  {
    var n := |work| - 1;
    forall x: nat, y: nat | Explored(ctx, work[..n], x, y)
      ensures Explored(ctx, work, x, y)
    {
      FinishedIsExplored(ctx, work, x, y);
    }
  }

  /** Every edge of the finished component stays in it or leads to an earlier component. */
  lemma RootIsClosed(ctx: Induced, reach: iset<(nat, nat)>, s: Scratch, work: seq<Frame>, owner: map<nat, nat>,
      x: nat, y: nat)
    requires FramesOk(ctx, work) && work != [] && WorkOk(s, work) && OwnerOk(reach, s, work, owner)
    requires work[|work| - 1].position == |work[|work| - 1].successors|
    requires ExploredOk(ctx, s, work) && LowCovers(ctx, s, work, owner) && EmittedOk(s)
    requires Low(s, work[|work| - 1].node) == Ord(s, work[|work| - 1].node)
    requires On(s, x) && Visited(s, x) && Ord(s, work[|work| - 1].node) <= Ord(s, x) && ctx.Edge(x, y)
    ensures InFirst(s.components, |s.components|, y) || (On(s, y) && Ord(s, work[|work| - 1].node) <= Ord(s, y))
  {
    var n := |work| - 1;
    assert Explored(ctx, work, x, y) by {
      assert Explored(ctx, work[..n], x, y) by {
        assert forall k :: 0 <= k < n ==> work[..n][k].node == work[k].node && Ord(s, work[k].node) < Ord(s, work[n].node);
      }
      FinishedIsExplored(ctx, work, x, y);
    }
    TopOwnsItself(reach, s, work, owner);
  }

  lemma RootKeepsComponents(ctx: Induced, reach: iset<(nat, nat)>, s: Scratch, s': Scratch, work: seq<Frame>,
      owner: map<nat, nat>,
                            component: seq<nat>)
    requires IsPreorder(ctx, reach) && Inv(ctx, reach, s, work, owner) && work != []
    requires work[|work| - 1].position == |work[|work| - 1].successors|
    requires Low(s, work[|work| - 1].node) == Ord(s, work[|work| - 1].node)
    requires RootStep(s, s', work[|work| - 1].node, component)
    ensures ComponentsOk(ctx, reach, s'.components)
  {
    var root, old', new' := work[|work| - 1].node, s.components, s'.components;
    var m := |old'|;
    forall x: nat | x in component ensures !InFirst(old', m, x) {}
    forall x: nat, y: nat | x in component && y in component ensures (x, y) in reach {
      RootReaches(ctx, reach, s, work, owner, x, y);
    }
    forall i, x: nat, y: nat | 0 <= i < m + 1 && x in new'[i] && ctx.Edge(x, y)
      ensures InFirst(new', i + 1, y)
    {
      if i == m {
        RootIsClosed(ctx, reach, s, work, owner, x, y);
        if InFirst(old', m, y) {
          var j :| 0 <= j < m && y in old'[j];
          assert y in new'[j];
        } else {
          assert y in new'[m];
        }
      } else {
        assert x in old'[i];
        var j :| 0 <= j < i + 1 && j < m && y in old'[j];
        assert y in new'[j];
      }
    }
    forall i, j, x | 0 <= i < j < m + 1 && x in new'[i]
      ensures x !in new'[j]
    {
      if j == m { assert InFirst(old', m, x); }
    }
  }

  lemma RootReaches(ctx: Induced, reach: iset<(nat, nat)>, s: Scratch, work: seq<Frame>, owner: map<nat, nat>,
      x: nat, y: nat)
    requires IsPreorder(ctx, reach) && StackReach(reach, s) && work != [] && WorkOk(s, work)
    requires OwnerOk(reach, s, work, owner)
    requires On(s, x) && On(s, y) && Ord(s, work[|work| - 1].node) <= Ord(s, x)
    requires Ord(s, work[|work| - 1].node) <= Ord(s, y)
    ensures (x, y) in reach
  {
    var root := work[|work| - 1].node;
    assert On(s, root);
    TopOwnsItself(reach, s, work, owner);
    assert OwnedBy(reach, s, work, x, OwnerOf(owner, x));
    assert Via(x, root, y);
  }

  lemma RootKeepsEmitted(ctx: Induced, s: Scratch, s': Scratch, root: nat, component: seq<nat>)
    requires StackOk(s) && EmittedOk(s) && RootStep(s, s', root, component)
    ensures EmittedOk(s')
  {
    var m := |s.components|;
    forall x: nat
      ensures InFirst(s'.components, m + 1, x) <==> Visited(s', x) && !On(s', x)
    {
      assert InFirst(s'.components, m + 1, x) <==> InFirst(s.components, m, x) || x in component by {
        if InFirst(s.components, m, x) {
          var i :| 0 <= i < m && x in s.components[i];
          assert x in s'.components[i];
        }
        if x in component { assert x in s'.components[m]; }
      }
      assert Visited(s', x) == Visited(s, x) && (On(s, x) ==> Visited(s, x));
    }
  }

  lemma FinishRootKeepsInv(ctx: Induced, reach: iset<(nat, nat)>, s: Scratch, work: seq<Frame>, owner: map<nat, nat>)
    requires IsPreorder(ctx, reach) && Inv(ctx, reach, s, work, owner) && work != []
    requires work[|work| - 1].position == |work[|work| - 1].successors|
    requires Low(s, work[|work| - 1].node) == Ord(s, work[|work| - 1].node)
    ensures FinishReady(ctx, s, work)
    ensures var r := Finished(ctx, s, work, work[|work| - 1].node);
      && r.1 == work[..|work| - 1]
      && Inv(ctx, reach, r.0, r.1, owner)
      && VisitedSet(r.0) == VisitedSet(s)
  {
    var root := work[|work| - 1].node;
    InvIsFinishReady(ctx, s, work);
    assert On(s, root);
    PoppedIsRootStep(ctx, s, root);
    var s' := Popped(ctx, s, root, []);
    var component := s'.components[|s'.components| - 1];
    RootKeepsLow(reach, s, s', work, component);
    RootKeepsOwners(reach, s, s', work, owner, component);
    RootKeepsEdges(ctx, s, s', work, owner, component);
    RootKeepsComponents(ctx, reach, s, s', work, owner, component);
    RootKeepsEmitted(ctx, s, s', root, component);
    RootKeepsRest(ctx, reach, s, s', work, root, component);
    if |work| > 1 { PropagationIsHarmless(reach, s, work); }
    FinishedRoot(ctx, s, work);
  }

  lemma RootKeepsRest(ctx: Induced, reach: iset<(nat, nat)>, s: Scratch, s': Scratch, work: seq<Frame>, root: nat,
      component: seq<nat>)
    requires OrderOk(ctx, s) && FramesOk(ctx, work) && StackReach(reach, s) && RootStep(s, s', root, component)
    requires work != []
    ensures OrderOk(ctx, s') && FramesOk(ctx, work[..|work| - 1]) && StackReach(reach, s')
    ensures VisitedSet(s') == VisitedSet(s)
  {
    assert VisitedSet(s') == VisitedSet(s);
  }

  lemma FinishedRoot(ctx: Induced, s: Scratch, work: seq<Frame>)
    requires FinishReady(ctx, s, work) && On(s, work[|work| - 1].node)
    requires Low(s, work[|work| - 1].node) == Ord(s, work[|work| - 1].node)
    requires |work| > 1 ==> Low(s, work[|work| - 2].node) < Low(s, work[|work| - 1].node)
    requires Popped(ctx, s, work[|work| - 1].node, []).lowlink == s.lowlink
    ensures var node := work[|work| - 1].node;
      Finished(ctx, s, work, node) == (Popped(ctx, s, node, []), work[..|work| - 1])
  {
    var work' := work[..|work| - 1];
    assert work' != [] ==> work'[|work'| - 1] == work[|work| - 2];
  }

  // ----- the order of discovery and of completion

  ghost predicate Listed(s: Scratch, order: seq<nat>) {
    && |order| == s.counter
    && (forall x: nat :: Visited(s, x) ==> Ord(s, x) < |order| && order[Ord(s, x)] == x)
    && (forall i :: 0 <= i < |order| ==> Visited(s, order[i]) && Ord(s, order[i]) == i)
  }

  /** The member of a component that was discovered first, which is popped last. */
  function Root(component: seq<nat>): nat {
    if component == [] then 0 else component[|component| - 1]
  }

  ghost predicate Descending(s: Scratch, component: seq<nat>) {
    forall a, b :: 0 <= a < b < |component| ==> Ord(s, component[b]) < Ord(s, component[a])
  }

  ghost predicate AllDescend(s: Scratch) {
    forall i :: 0 <= i < |s.components| ==> Descending(s, s.components[i])
  }

  function RootAt(s: Scratch, i: nat): nat {
    if i < |s.components| then Ord(s, Root(s.components[i])) else 0
  }

  /** Component `i` was completed after `times[i]` discoveries: none of its frames is left, and no frame was pushed
      between its root and its completion that is still there. */
  ghost predicate Timed(ctx: Induced, s: Scratch, work: seq<Frame>, order: seq<nat>, times: seq<nat>) {
    && |times| == |s.components|
    && (forall i :: 0 <= i < |times| ==> CompletesAt(ctx, order, RootAt(s, i), times[i]))
    && (forall i, k :: 0 <= i < |times| && 0 <= k < |work| ==>
          times[i] <= Ord(s, work[k].node) || Ord(s, work[k].node) < RootAt(s, i))
    && (forall i, j :: 0 <= i < j < |times| ==> times[i] < times[j] || (times[i] == times[j] && RootAt(s, j) < RootAt(s, i)))
  }

  /** A frame has had connections to follow ever since it was pushed. */
  ghost predicate FramesBusy(ctx: Induced, s: Scratch, work: seq<Frame>, order: seq<nat>) {
    forall k, t: nat :: 0 <= k < |work| && t < |order| ==> !Spent(ctx, order, Ord(s, work[k].node), t)
  }

  /** `order` is how the walk discovered what it has visited, and `times` when it completed what it has emitted. */
  ghost predicate Traced(ctx: Induced, nodes: seq<nat>, s: Scratch, work: seq<Frame>, order: seq<nat>, times: seq<nat>) {
    && Listed(s, order) && FoundInOrder(ctx, nodes, order)
    && AllDescend(s) && Timed(ctx, s, work, order, times) && FramesBusy(ctx, s, work, order)
  }

  lemma {:induction false} FilterKeepsOrder(ctx: Induced, xs: seq<nat>, p: nat) returns (i: nat)
    requires p < |FilterMembers(ctx, xs)|
    ensures i < |xs| && xs[i] == FilterMembers(ctx, xs)[p]
    ensures forall j :: 0 <= j < i && ctx.In(xs[j]) ==> xs[j] in FilterMembers(ctx, xs)[..p]
  {
    var r := FilterMembers(ctx, xs[1..]);
    if ctx.In(xs[0]) && p == 0 {
      return 0;
    }
    var kept := if ctx.In(xs[0]) then [xs[0]] else [];
    var k := FilterKeepsOrder(ctx, xs[1..], p - |kept|);
    i := k + 1;
    assert (kept + r)[..p] == kept + r[..p - |kept|];
    forall j | 0 <= j < i && ctx.In(xs[j]) ensures xs[j] in FilterMembers(ctx, xs)[..p] {
      if j > 0 { assert xs[1..][j - 1] == xs[j]; }
    }
  }

  /** What was discovered after the top frame has no connection left to follow. */
  lemma YoungerIsSpent(ctx: Induced, s: Scratch, work: seq<Frame>, order: seq<nat>, x: nat)
    requires WorkOk(s, work) && ExploredOk(ctx, s, work) && Listed(s, order)
    requires Visited(s, x) && (work != [] ==> Ord(s, work[|work| - 1].node) < Ord(s, x))
    ensures !Open(ctx, order, x)
  {
    forall y: nat | ctx.Edge(x, y) ensures y in order {
      assert forall k :: 0 <= k < |work| ==> Ord(s, work[k].node) < Ord(s, x);
      assert Explored(ctx, work, x, y);
    }
  }

  /** The top frame is about to look at its first connection that was not discovered yet. */
  lemma TopFindsFirst(ctx: Induced, s: Scratch, work: seq<Frame>, order: seq<nat>, v: nat)
    requires FramesOk(ctx, work) && WorkOk(s, work) && ExploredOk(ctx, s, work) && Listed(s, order) && StackOk(s)
    requires Shape(ctx, s) && OrderOk(ctx, s) && work != [] && MayDiscover(ctx, s, work, v)
    ensures FirstNew(ctx, order, ctx.graph.succ(work[|work| - 1].node), v)
    ensures Open(ctx, order, work[|work| - 1].node) && Visited(s, work[|work| - 1].node)
  {
    var top := work[|work| - 1];
    TopEdge(ctx, s, work);
    assert On(s, top.node);
    assert v !in order;
    forall y | y in top.successors[..top.position] ensures y in order {
      TopSeen(ctx, s, work, y);
    }
    var i := FilterKeepsOrder(ctx, ctx.graph.succ(top.node), top.position);
    assert NewAt(ctx, order, ctx.graph.succ(top.node), i);
  }

  lemma TopSeen(ctx: Induced, s: Scratch, work: seq<Frame>, y: nat)
    requires FramesOk(ctx, work) && WorkOk(s, work) && ExploredOk(ctx, s, work) && work != [] && StackOk(s)
    requires ctx.In(work[|work| - 1].node) && y in work[|work| - 1].successors[..work[|work| - 1].position]
    ensures Visited(s, y)
  {
    var top := work[|work| - 1];
    var i :| 0 <= i < top.position && top.successors[i] == y;
    assert y in top.successors && Seen(top, y) && On(s, top.node);
    assert forall k :: 0 <= k < |work| - 1 ==> work[k].node != top.node;
    assert Explored(ctx, work, top.node, y);
  }

  lemma DiscoverFindsNext(ctx: Induced, nodes: seq<nat>, s: Scratch, work: seq<Frame>, order: seq<nat>, v: nat)
    requires FramesOk(ctx, work) && WorkOk(s, work) && ExploredOk(ctx, s, work) && Listed(s, order) && StackOk(s)
    requires Shape(ctx, s) && OrderOk(ctx, s) && MayDiscover(ctx, s, work, v)
    requires work == [] ==> FirstNew(ctx, order, nodes, v)
    ensures FoundNext(ctx, nodes, order, v)
  {
    if work != [] {
      TopFindsFirst(ctx, s, work, order, v);
    }
    hide FramesOk, ExploredOk, Open, FirstNew, MayDiscover, MemberSuccessors;
    forall k: nat | k < |order| && (work != [] ==> Ord(s, work[|work| - 1].node) < k)
      ensures !Open(ctx, order, order[k])
    {
      YoungerIsSpent(ctx, s, work, order, order[k]);
    }
    if work != [] {
      var t := Ord(s, work[|work| - 1].node);
      assert order[t] == work[|work| - 1].node && LatestOpen(ctx, order, t);
      assert forall k: nat :: LatestOpen(ctx, order, k) ==> k == t;
    }
  }

  lemma DiscoverKeepsTrace(ctx: Induced, reach: iset<(nat, nat)>, nodes: seq<nat>, s: Scratch, work: seq<Frame>,
      owner: map<nat, nat>, order: seq<nat>, times: seq<nat>, v: nat)
    requires Inv(ctx, reach, s, work, owner) && Traced(ctx, nodes, s, work, order, times)
    requires MayDiscover(ctx, s, work, v) && ctx.graph.bound <= UNVISITED
    requires work == [] ==> FirstNew(ctx, order, nodes, v)
    ensures Traced(ctx, nodes, Discovered(ctx, s, v), WorkDiscovered(ctx, work, v), order + [v], times)
  {
    var s', work' := Discovered(ctx, s, v), WorkDiscovered(ctx, work, v);
    DiscoverFindsNext(ctx, nodes, s, work, order, v);
    FoundOneMore(ctx, nodes, order, v);
    DiscoverKeepsStack(ctx, s, v);
    DiscoverIsStep(ctx, s, v);
    DiscoverKeepsFrames(ctx, s, work, v);
    if work != [] {
      TopFindsFirst(ctx, s, work, order, v);
    }
    DiscoverKeepsBusy(ctx, s, s', work, work', order, v);
    RootsAreVisited(ctx, reach, s);
    DiscoverKeepsTimes(ctx, s, s', work, work', order, times, v);
    DiscoverKeepsDescent(ctx, reach, s, s', v);
    DiscoverKeepsListed(ctx, s, s', order, v);
  }

  lemma DiscoverKeepsBusy(ctx: Induced, s: Scratch, s': Scratch, work: seq<Frame>, work': seq<Frame>, order: seq<nat>, v: nat)
    requires FramesBusy(ctx, s, work, order) && Listed(s, order) && WorkOk(s, work)
    requires DiscoverStep(ctx, s, s', v) && WorkGrown(work, work', v)
    requires work != [] ==> Open(ctx, order, work[|work| - 1].node) && Visited(s, work[|work| - 1].node)
    ensures FramesBusy(ctx, s', work', order + [v])
  {
    forall k, t: nat | 0 <= k < |work'| && t < |order| + 1
      ensures !Spent(ctx, order + [v], Ord(s', work'[k].node), t)
    {
      if k < |work| && t > 0 {
        var p := Ord(s, work[k].node);
        assert On(s, work[k].node);
        SpentStays(ctx, order, v, p, t);
        if t == |order| {
          assert order[..t] == order && order[Ord(s, work[|work| - 1].node)] == work[|work| - 1].node;
        }
      }
    }
  }

  lemma DiscoverKeepsTimes(ctx: Induced, s: Scratch, s': Scratch, work: seq<Frame>, work': seq<Frame>, order: seq<nat>,
      times: seq<nat>, v: nat)
    requires Timed(ctx, s, work, order, times) && Listed(s, order) && WorkOk(s, work)
    requires forall i :: 0 <= i < |s.components| ==> Root(s.components[i]) != v
    requires DiscoverStep(ctx, s, s', v) && WorkGrown(work, work', v) && s'.components == s.components
    ensures Timed(ctx, s', work', order + [v], times)
  {
    forall i | 0 <= i < |times|
      ensures RootAt(s', i) == RootAt(s, i) && times[i] <= |order| && CompletesAt(ctx, order + [v], RootAt(s', i), times[i])
    {
      CompletionStays(ctx, order, v, RootAt(s, i), times[i]);
    }
    assert forall k :: 0 <= k < |work| ==> On(s, work[k].node) && Ord(s', work'[k].node) == Ord(s, work[k].node);
  }

  lemma RootsAreVisited(ctx: Induced, reach: iset<(nat, nat)>, s: Scratch)
    requires ComponentsOk(ctx, reach, s.components) && EmittedOk(s)
    ensures forall i, a :: 0 <= i < |s.components| && 0 <= a < |s.components[i]| ==> Visited(s, s.components[i][a])
    ensures forall i :: 0 <= i < |s.components| ==> s.components[i] != [] && Visited(s, Root(s.components[i]))
  {
    forall i, a | 0 <= i < |s.components| && 0 <= a < |s.components[i]| ensures Visited(s, s.components[i][a]) {
      assert s.components[i][a] in s.components[i];
      assert InFirst(s.components, |s.components|, s.components[i][a]);
    }
  }

  lemma DiscoverKeepsDescent(ctx: Induced, reach: iset<(nat, nat)>, s: Scratch, s': Scratch, v: nat)
    requires AllDescend(s) && ComponentsOk(ctx, reach, s.components) && EmittedOk(s)
    requires DiscoverStep(ctx, s, s', v) && s'.components == s.components
    ensures AllDescend(s')
  {
    RootsAreVisited(ctx, reach, s);
    hide ComponentsOk, EmittedOk;
    assert forall i :: 0 <= i < |s.components| ==> Descending(s, s.components[i]);
  }

  lemma DiscoverKeepsListed(ctx: Induced, s: Scratch, s': Scratch, order: seq<nat>, v: nat)
    requires Listed(s, order) && DiscoverStep(ctx, s, s', v) && s'.counter == s.counter + 1
    ensures Listed(s', order + [v])
  {
  }

  lemma FoundOneMore(ctx: Induced, nodes: seq<nat>, order: seq<nat>, v: nat)
    requires FoundInOrder(ctx, nodes, order) && FoundNext(ctx, nodes, order, v)
    ensures FoundInOrder(ctx, nodes, order + [v])
  {
    hide FoundNext;
    var order' := order + [v];
    forall i | 0 <= i < |order'| ensures FoundNext(ctx, nodes, order'[..i], order'[i]) {
      assert order'[..i] == order[..i];
      assert order[..|order|] == order;
    }
  }

  /** Turns that discover and emit nothing keep the trace. */
  lemma QuietKeepsTrace(ctx: Induced, nodes: seq<nat>, s: Scratch, work: seq<Frame>, s': Scratch, work': seq<Frame>,
      order: seq<nat>, times: seq<nat>)
    requires Traced(ctx, nodes, s, work, order, times)
    requires s'.orderIndex == s.orderIndex && s'.counter == s.counter && s'.components == s.components
    requires |work'| <= |work| && forall k :: 0 <= k < |work'| ==> work'[k].node == work[k].node
    ensures Traced(ctx, nodes, s', work', order, times)
  {
    hide FoundInOrder, CompletesAt, Spent;
    assert forall x: nat :: Visited(s', x) == Visited(s, x) && Ord(s', x) == Ord(s, x);
    assert forall i: nat :: RootAt(s', i) == RootAt(s, i);
    assert forall i :: 0 <= i < |s'.components| ==> Descending(s, s.components[i]);
  }

  /** Popping lists a component from its youngest member down to its root. */
  lemma PoppedDescends(ctx: Induced, s: Scratch, root: nat)
    requires Shape(ctx, s) && StackOk(s) && On(s, root)
    requires forall i :: 0 <= i < |s.stack| ==> s.stack[i] < ctx.graph.bound
    ensures var components := Popped(ctx, s, root, []).components;
      |components| > 0 && Root(components[|components| - 1]) == root && Descending(s, components[|components| - 1])
  {
    assert root in s.stack;
    var p :| 0 <= p < |s.stack| && s.stack[p] == root;
    SuffixHasNoDuplicates(s, p);
    PoppedSuffix(ctx, s, p, []);
    SuffixDescends(s, Popped(ctx, s, root, []), p);
  }

  lemma SuffixDescends(s: Scratch, s': Scratch, p: nat)
    requires Ascending(s, s.stack) && p < |s.stack| && SuffixPopped(s, s', p, [])
    ensures |s'.components| > 0
    ensures Root(s'.components[|s'.components| - 1]) == s.stack[p] && Descending(s, s'.components[|s'.components| - 1])
  {
    assert [] + Reversed(s.stack[p..]) == Reversed(s.stack[p..]);
  }

  lemma RootIsSpent(ctx: Induced, s: Scratch, work: seq<Frame>, order: seq<nat>)
    requires WorkOk(s, work) && FramesOk(ctx, work) && ExploredOk(ctx, s, work) && Listed(s, order) && StackOk(s)
    requires work != [] && work[|work| - 1].position == |work[|work| - 1].successors|
    ensures Spent(ctx, order, Ord(s, work[|work| - 1].node), |order|)
  {
    var top := work[|work| - 1];
    assert On(s, top.node);
    forall y: nat | ctx.Edge(top.node, y) ensures y in order {
      assert y in top.successors;
      TopSeen(ctx, s, work, y);
    }
    forall k | Ord(s, top.node) <= k < |order| ensures !Open(ctx, order, order[k]) {
      if k > Ord(s, top.node) { YoungerIsSpent(ctx, s, work, order, order[k]); }
    }
    assert order[..|order|] == order;
  }

  lemma RootKeepsTrace(ctx: Induced, reach: iset<(nat, nat)>, nodes: seq<nat>, s: Scratch, s': Scratch, work: seq<Frame>,
      order: seq<nat>, times: seq<nat>, component: seq<nat>)
    requires Traced(ctx, nodes, s, work, order, times) && work != [] && WorkOk(s, work)
    requires Spent(ctx, order, Ord(s, work[|work| - 1].node), |order|)
    requires RootStep(s, s', work[|work| - 1].node, component)
    requires Root(component) == work[|work| - 1].node && Descending(s, component)
    ensures Traced(ctx, nodes, s', work[..|work| - 1], order, times + [|order|])
  {
    hide FoundInOrder;
    var m, times' := |s.components|, times + [|order|];
    assert CompletesAt(ctx, order, Ord(s, work[|work| - 1].node), |order|);
    assert forall i :: 0 <= i < m ==> times[i] <= |order|;
    hide CompletesAt, Spent;
    assert forall x: nat :: Visited(s', x) == Visited(s, x) && Ord(s', x) == Ord(s, x);
    assert forall i :: 0 <= i < m ==> RootAt(s', i) == RootAt(s, i);
    assert RootAt(s', m) == Ord(s, work[|work| - 1].node);
    assert Descending(s', component);
    assert forall i :: 0 <= i < m ==> Descending(s, s.components[i]) && s'.components[i] == s.components[i];
  }

  // ----- what the finished walk means

  /** `components` are the strongly connected components of the induced subgraph, sinks first. */
  ghost predicate IsDecomposition(c: Induced, components: seq<seq<nat>>) {
    && (forall x: nat :: c.In(x) <==> InFirst(components, |components|, x))
    && (forall i :: 0 <= i < |components| ==> components[i] != [] && NoDuplicates(components[i]))
    && (forall i, j, x: nat, y: nat :: 0 <= i < |components| && 0 <= j < |components| && x in components[i] && y in components[j]
          ==> (i == j <==> c.Reach(x, y) && c.Reach(y, x)))
    && (forall i, j, x: nat, y: nat :: 0 <= i < |components| && 0 <= j < |components| && x in components[i] && y in components[j]
          ==> c.Edge(x, y) ==> j <= i)
  }

  ghost predicate Descends(order: seq<nat>, component: seq<nat>) {
    forall a, b :: 0 <= a < b < |component| ==> Pos(order, component[b]) < Pos(order, component[a])
  }

  /** Every component lists its members from the last discovered to the first. */
  ghost predicate InStackPopOrder(order: seq<nat>, components: seq<seq<nat>>) {
    forall i :: 0 <= i < |components| ==> Descends(order, components[i])
  }

  /** A component is completed with its member discovered first. */
  ghost predicate InCompletionOrder(c: Induced, order: seq<nat>, components: seq<seq<nat>>) {
    forall i, j :: 0 <= i < j < |components|
      ==> CompletesBefore(c, order, Pos(order, Root(components[i])), Pos(order, Root(components[j])))
  }

  lemma ListedPlaces(s: Scratch, order: seq<nat>)
    requires Listed(s, order)
    ensures NoDuplicates(order)
    ensures forall x: nat :: Visited(s, x) ==> Pos(order, x) == Ord(s, x)
  {
    forall i, j | 0 <= i < j < |order| ensures order[i] != order[j] {
      assert Ord(s, order[i]) == i && Ord(s, order[j]) == j;
    }
    forall x: nat | Visited(s, x) ensures Pos(order, x) == Ord(s, x) {
      PosIsPlace(order, x, Ord(s, x));
    }
  }

  lemma WalkIsInOrder(c: Induced, nodes: seq<nat>, s: Scratch, order: seq<nat>, times: seq<nat>)
    requires Inv(c, Reaching(c), s, [], map[]) && Traced(c, nodes, s, [], order, times)
    requires forall x: nat :: c.In(x) ==> Visited(s, x)
    ensures IsDiscovery(c, nodes, order)
    ensures InStackPopOrder(order, s.components) && InCompletionOrder(c, order, s.components)
  {
    ListedPlaces(s, order);
    RootsAreVisited(c, Reaching(c), s);
    assert forall x: nat :: x in order <==> c.In(x);
    hide ComponentsOk, FoundInOrder, CompletesAt;
    forall i, j | 0 <= i < j < |s.components|
      ensures CompletesBefore(c, order, Pos(order, Root(s.components[i])), Pos(order, Root(s.components[j])))
    {
      assert CompletesAt(c, order, RootAt(s, i), times[i]) && CompletesAt(c, order, RootAt(s, j), times[j]);
    }
    forall i | 0 <= i < |s.components| ensures Descends(order, s.components[i]) {
      assert Descending(s, s.components[i]);
    }
  }

  ghost function Reaching(c: Induced): iset<(nat, nat)> {
    iset x: nat, y: nat | c.Reach(x, y) :: (x, y)
  }

  lemma ReachingIsPreorder(c: Induced)
    ensures IsPreorder(c, Reaching(c))
  {
    forall x: nat | c.In(x) ensures (x, x) in Reaching(c) { ReachRefl(c, x); }
    forall x: nat, y: nat | c.Edge(x, y) ensures (x, y) in Reaching(c) { ReachEdge(c, x, y); }
    forall x: nat, y: nat, z: nat | (x, y) in Reaching(c) && (y, z) in Reaching(c) ensures (x, z) in Reaching(c) {
      ReachTrans(c, x, y, z);
    }
  }

  /** Reachability never leaves the components emitted so far. */
  lemma ReachStaysInFirst(c: Induced, components: seq<seq<nat>>, i: nat, x: nat, y: nat)
    requires i < |components| && x in components[i] && c.Reach(x, y)
    requires ComponentsOk(c, Reaching(c), components)
    ensures InFirst(components, i + 1, y)
  {
    ReachIsInduced(c, x, y);
    var first := set u | u in c.Members() && InFirst(components, i + 1, u);
    forall u: nat, v: nat | u in first && c.Edge(u, v)
      ensures v in first
    {
      var k :| 0 <= k < i + 1 && k < |components| && u in components[k];
      assert InFirst(components, k + 1, v);
    }
    assert InFirst(components, i + 1, x) && x in first;
    ClosedUnderReach(c, first, x, y);
  }

  lemma SameComponentIffMutual(c: Induced, components: seq<seq<nat>>, i: nat, j: nat, x: nat, y: nat)
    requires ComponentsOk(c, Reaching(c), components)
    requires i < |components| && j < |components| && x in components[i] && y in components[j]
    ensures i == j <==> c.Reach(x, y) && c.Reach(y, x)
  {
    if i == j {
      assert (x, y) in Reaching(c) && (y, x) in Reaching(c);
    } else if c.Reach(x, y) && c.Reach(y, x) {
      ReachStaysInFirst(c, components, i, x, y);
      ReachStaysInFirst(c, components, j, y, x);
    }
  }

  lemma WalkIsDecomposition(c: Induced, s: Scratch)
    requires Inv(c, Reaching(c), s, [], map[])
    requires forall x: nat :: c.In(x) ==> Visited(s, x)
    ensures IsDecomposition(c, s.components)
  {
    var components := s.components;
    forall x: nat ensures !On(s, x) {
      var k := OwnerOf(map[], x);
    }
    hide OwnerOk, LowOk, ExploredOk, LowCovers, StackReach, FramesOk, WorkOk, StackOk, OrderOk, Shape;
    forall i, j, x: nat, y: nat | 0 <= i < |components| && 0 <= j < |components| && x in components[i] && y in components[j]
      ensures i == j <==> c.Reach(x, y) && c.Reach(y, x)
      ensures c.Edge(x, y) ==> j <= i
    {
      SameComponentIffMutual(c, components, i, j, x, y);
      if c.Edge(x, y) {
        var k :| 0 <= k < i + 1 && k < |components| && y in components[k];
        assert k == j;
      }
    }
  }

  // ----- the result is determined

  ghost predicate IsResult(c: Induced, nodes: seq<nat>, order: seq<nat>, components: seq<seq<nat>>) {
    && IsDecomposition(c, components) && IsDiscovery(c, nodes, order)
    && InStackPopOrder(order, components) && InCompletionOrder(c, order, components)
  }

  lemma SharedClass(c: Induced, a: seq<seq<nat>>, b: seq<seq<nat>>, i: nat, j: nat, x: nat, y: nat)
    requires IsDecomposition(c, a) && IsDecomposition(c, b) && i < |a| && j < |b|
    requires x in a[i] && x in b[j] && y in a[i]
    ensures y in b[j]
  {
    assert InFirst(a, |a|, y);
    var k :| 0 <= k < |b| && y in b[k];
    assert c.Reach(x, y) && c.Reach(y, x);
  }

  lemma RootsAgree(order: seq<nat>, p: seq<nat>, q: seq<nat>)
    requires p != [] && q != [] && (forall x :: x in p <==> x in q) && Descends(order, p) && Descends(order, q)
    ensures Root(p) == Root(q)
  {
    assert Root(p) in q && Root(q) in p;
  }

  function Front(component: seq<nat>): seq<nat> {
    if component == [] then [] else component[..|component| - 1]
  }

  lemma FrontMembers(order: seq<nat>, p: seq<nat>, x: nat)
    requires p != [] && Descends(order, p)
    ensures x in Front(p) <==> x in p && x != Root(p)
  {
    var n := |p| - 1;
    hide Pos;
    forall k | 0 <= k < n ensures p[k] != p[n] {
      assert Pos(order, p[n]) < Pos(order, p[k]);
    }
    hide Descends;
    assert p == Front(p) + [p[n]];
  }

  lemma FrontDescends(order: seq<nat>, p: seq<nat>)
    requires Descends(order, p)
    ensures Descends(order, Front(p))
  {
    hide Pos;
  }

  lemma {:induction false} DescentIsUnique(order: seq<nat>, p: seq<nat>, q: seq<nat>)
    requires (forall x :: x in p <==> x in q) && Descends(order, p) && Descends(order, q)
    ensures p == q
  {
    hide Descends, Pos;
    assert p != [] ==> p[0] in p;
    assert q != [] ==> q[0] in q;
    if p != [] {
      RootsAgree(order, p, q);
      FrontDescends(order, p);
      FrontDescends(order, q);
      forall x: nat ensures x in Front(p) <==> x in Front(q) {
        FrontMembers(order, p, x);
        FrontMembers(order, q, x);
      }
      DescentIsUnique(order, Front(p), Front(q));
      assert p == Front(p) + [Root(p)] && q == Front(q) + [Root(q)];
    }
  }

  /** A class of one result is listed in the other, in the same order. */
  lemma SharedComponent(c: Induced, order: seq<nat>, a: seq<seq<nat>>, b: seq<seq<nat>>, i: nat) returns (j: nat)
    requires IsDecomposition(c, a) && IsDecomposition(c, b) && InStackPopOrder(order, a) && InStackPopOrder(order, b)
    requires i < |a|
    ensures j < |b| && b[j] == a[i]
  {
    var x := Root(a[i]);
    assert x in a[i] && InFirst(a, |a|, x);
    j :| 0 <= j < |b| && x in b[j];
    forall y ensures y in a[i] <==> y in b[j] {
      if y in a[i] { SharedClass(c, a, b, i, j, x, y); }
      if y in b[j] { SharedClass(c, b, a, j, i, x, y); }
    }
    hide IsDecomposition;
    DescentIsUnique(order, a[i], b[j]);
  }

  lemma ComponentsDiffer(c: Induced, a: seq<seq<nat>>)
    requires IsDecomposition(c, a)
    ensures NoDuplicates(a)
  {
    forall i, j | 0 <= i < j < |a| ensures a[i] != a[j] {
      var x := Root(a[i]);
      assert x in a[i] && InFirst(a, |a|, x);
      ReachRefl(c, x);
    }
  }

  lemma AgreeOnComponent(c: Induced, order: seq<nat>, a: seq<seq<nat>>, b: seq<seq<nat>>, n: nat)
    requires IsDecomposition(c, a) && InStackPopOrder(order, a) && InCompletionOrder(c, order, a)
    requires IsDecomposition(c, b) && InStackPopOrder(order, b) && InCompletionOrder(c, order, b)
    requires n < |a| && n < |b| && a[..n] == b[..n]
    ensures a[n] == b[n]
  {
    forall m | 0 <= m < n ensures a[m] == b[m] {
      assert a[..n][m] == b[..n][m];
    }
    ComponentsDiffer(c, a);
    ComponentsDiffer(c, b);
    var k := SharedComponent(c, order, a, b, n);
    var l := SharedComponent(c, order, b, a, n);
    hide IsDecomposition, CompletesBefore;
    if n < k && n < l {
      CompletesOneWay(c, order, Pos(order, Root(a[n])), Pos(order, Root(b[n])));
    }
  }

  lemma {:induction false} AgreeUpTo(c: Induced, order: seq<nat>, a: seq<seq<nat>>, b: seq<seq<nat>>, n: nat)
    requires IsDecomposition(c, a) && InStackPopOrder(order, a) && InCompletionOrder(c, order, a)
    requires IsDecomposition(c, b) && InStackPopOrder(order, b) && InCompletionOrder(c, order, b)
    requires n <= |a| && n <= |b|
    ensures a[..n] == b[..n]
  {
    hide *;
    if n > 0 {
      AgreeUpTo(c, order, a, b, n - 1);
      AgreeOnComponent(c, order, a, b, n - 1);
      assert a[..n] == a[..n - 1] + [a[n - 1]] && b[..n] == b[..n - 1] + [b[n - 1]];
    }
  }

  lemma NoMoreComponents(c: Induced, order: seq<nat>, a: seq<seq<nat>>, b: seq<seq<nat>>)
    requires IsDecomposition(c, a) && IsDecomposition(c, b) && InStackPopOrder(order, a) && InStackPopOrder(order, b)
    requires |a| <= |b| && a == b[..|a|]
    ensures |a| == |b|
  {
    if b != [] {
      ComponentsDiffer(c, b);
      var k := SharedComponent(c, order, b, a, |b| - 1);
      assert a[k] == b[k];
    }
  }

  /** The view and the list leave one result: its components, their order and the order inside them. */
  lemma DecompositionIsUnique(c: Induced, nodes: seq<nat>, order: seq<nat>, order': seq<nat>, a: seq<seq<nat>>,
      b: seq<seq<nat>>)
    requires IsResult(c, nodes, order, a) && IsResult(c, nodes, order', b)
    ensures order == order' && a == b
  {
    DiscoveryIsUnique(c, nodes, order, order');
    hide IsDiscovery, IsDecomposition, InStackPopOrder, InCompletionOrder;
    AgreeUpTo(c, order, a, b, if |a| <= |b| then |a| else |b|);
    assert a[..|a|] == a && b[..|b|] == b;
    if |a| <= |b| {
      NoMoreComponents(c, order, a, b);
    } else {
      NoMoreComponents(c, order, b, a);
    }
  }

  // ----- the scratch object and the walk

  function Remaining(work: seq<Frame>): nat {
    if work == [] then 0
    else
      var top := work[|work| - 1];
      Remaining(work[..|work| - 1]) + 1 + (if top.position < |top.successors| then |top.successors| - top.position else 0)
  }

  lemma BumpedRemaining(work: seq<Frame>)
    requires work != [] && work[|work| - 1].position < |work[|work| - 1].successors|
    ensures Remaining(Bumped(work)) == Remaining(work) - 1
  {
    assert Bumped(work)[..|work| - 1] == work[..|work| - 1];
  }

  /** The node and frame stack after one turn of the walk's loop. */
  function Stepped(ctx: Induced, s: Scratch, work: seq<Frame>): (Scratch, seq<Frame>)
    requires FinishReady(ctx, s, work)
    requires var top := work[|work| - 1];
      top.position < |top.successors| ==> top.successors[top.position] < ctx.graph.bound
  {
    var top := work[|work| - 1];
    if top.position < |top.successors| then Advanced(ctx, s, Bumped(work), top.node, top.successors[top.position])
    else Finished(ctx, s, work, top.node)
  }

  ghost predicate Progress(ctx: Induced, s: Scratch, work: seq<Frame>, s': Scratch, work': seq<Frame>) {
    && VisitedSet(s) <= VisitedSet(s') <= ctx.Members()
    && (VisitedSet(s) != VisitedSet(s') || Remaining(work') < Remaining(work))
  }

  /** Every turn of the walk keeps the invariant and makes progress. */
  lemma StepKeepsInv(ctx: Induced, reach: iset<(nat, nat)>, s: Scratch, work: seq<Frame>, owner: map<nat, nat>)
    returns (owner': map<nat, nat>)
    requires ctx.graph.bound <= UNVISITED
    requires IsPreorder(ctx, reach) && Inv(ctx, reach, s, work, owner) && work != []
    ensures FinishReady(ctx, s, work)
    ensures var top := work[|work| - 1];
      top.position < |top.successors| ==> top.successors[top.position] < ctx.graph.bound
    ensures Inv(ctx, reach, Stepped(ctx, s, work).0, Stepped(ctx, s, work).1, owner')
    ensures Progress(ctx, s, work, Stepped(ctx, s, work).0, Stepped(ctx, s, work).1)
  {
    InvIsFinishReady(ctx, s, work);
    var top := work[|work| - 1];
    owner' := owner;
    if top.position < |top.successors| {
      var successor := top.successors[top.position];
      TopEdge(ctx, s, work);
      BumpedRemaining(work);
      if Visited(s, successor) {
        AdvanceKeepsInv(ctx, reach, s, work, owner);
      } else {
        DiscoverKeepsInv(ctx, reach, s, work, owner, successor);
        owner' := OwnerDiscovered(work, owner, successor);
      }
    } else if Low(s, top.node) == Ord(s, top.node) {
      FinishRootKeepsInv(ctx, reach, s, work, owner);
    } else {
      FinishNonRootKeepsInv(ctx, reach, s, work, owner);
      owner' := OwnerFinished(owner, |work| - 1);
    }
  }

  /** Every turn of the walk keeps the trace, with one more discovery or one more completion in it if there was one. */
  lemma StepKeepsTrace(ctx: Induced, reach: iset<(nat, nat)>, nodes: seq<nat>, s: Scratch, work: seq<Frame>,
      owner: map<nat, nat>, order: seq<nat>, times: seq<nat>)
    returns (order': seq<nat>, times': seq<nat>)
    requires ctx.graph.bound <= UNVISITED
    requires IsPreorder(ctx, reach) && Inv(ctx, reach, s, work, owner) && work != []
    requires Traced(ctx, nodes, s, work, order, times) && FinishReady(ctx, s, work)
    requires var top := work[|work| - 1];
      top.position < |top.successors| ==> top.successors[top.position] < ctx.graph.bound
    ensures Traced(ctx, nodes, Stepped(ctx, s, work).0, Stepped(ctx, s, work).1, order', times')
  {
    var top := work[|work| - 1];
    order', times' := order, times;
    if top.position < |top.successors| {
      var successor := top.successors[top.position];
      TopEdge(ctx, s, work);
      if Visited(s, successor) {
        AdvanceKeepsTrace(ctx, nodes, s, work, order, times);
      } else {
        hide Traced, Discovered, MemberSuccessors;
        DiscoverKeepsTrace(ctx, reach, nodes, s, work, owner, order, times, successor);
        order' := order + [successor];
      }
    } else {
      hide Inv, Traced, Popped, Relaxed;
      if Low(s, top.node) == Ord(s, top.node) {
        times' := CompletionKeepsTrace(ctx, reach, nodes, s, work, owner, order, times);
      } else {
        FinishKeepsTrace(ctx, nodes, s, work, order, times);
      }
    }
  }

  lemma AdvanceKeepsTrace(ctx: Induced, nodes: seq<nat>, s: Scratch, work: seq<Frame>, order: seq<nat>, times: seq<nat>)
    requires Traced(ctx, nodes, s, work, order, times) && Shape(ctx, s) && work != []
    requires var top := work[|work| - 1];
      top.node < ctx.graph.bound && top.position < |top.successors| && Visited(s, top.successors[top.position])
    ensures var top := work[|work| - 1];
      var r := Advanced(ctx, s, Bumped(work), top.node, top.successors[top.position]);
      Traced(ctx, nodes, r.0, r.1, order, times)
  {
    hide Traced;
    var top := work[|work| - 1];
    var r := Advanced(ctx, s, Bumped(work), top.node, top.successors[top.position]);
    QuietKeepsTrace(ctx, nodes, s, work, r.0, r.1, order, times);
  }

  lemma FinishKeepsTrace(ctx: Induced, nodes: seq<nat>, s: Scratch, work: seq<Frame>, order: seq<nat>, times: seq<nat>)
    requires Traced(ctx, nodes, s, work, order, times) && FinishReady(ctx, s, work)
    requires Low(s, work[|work| - 1].node) != Ord(s, work[|work| - 1].node)
    ensures var r := Finished(ctx, s, work, work[|work| - 1].node); Traced(ctx, nodes, r.0, r.1, order, times)
  {
    hide Traced;
    var r := Finished(ctx, s, work, work[|work| - 1].node);
    QuietKeepsTrace(ctx, nodes, s, work, r.0, r.1, order, times);
  }

  lemma CompletionKeepsTrace(ctx: Induced, reach: iset<(nat, nat)>, nodes: seq<nat>, s: Scratch, work: seq<Frame>,
      owner: map<nat, nat>, order: seq<nat>, times: seq<nat>)
    returns (times': seq<nat>)
    requires Inv(ctx, reach, s, work, owner) && work != []
    requires Traced(ctx, nodes, s, work, order, times) && FinishReady(ctx, s, work)
    requires work[|work| - 1].position == |work[|work| - 1].successors|
    requires Low(s, work[|work| - 1].node) == Ord(s, work[|work| - 1].node)
    ensures var r := Finished(ctx, s, work, work[|work| - 1].node); Traced(ctx, nodes, r.0, r.1, order, times')
  {
    var root := work[|work| - 1].node;
    assert On(s, root);
    PoppedIsRootStep(ctx, s, root);
    PoppedDescends(ctx, s, root);
    var s' := Popped(ctx, s, root, []);
    RootIsSpent(ctx, s, work, order);
    RootKeepsTrace(ctx, reach, nodes, s, s', work, order, times, s'.components[|s'.components| - 1]);
    times' := times + [|order|];
    if |work| > 1 { PropagationIsHarmless(reach, s, work); }
    FinishedRoot(ctx, s, work);
  }

  class TarjanScratch {
    const orderIndex: array<nat>
    const lowlink: array<nat>
    const onStack: array<bool>
    var stack: seq<nat>
    var components: seq<seq<nat>>
    var counter: nat

    ghost predicate Valid(ctx: Induced) {
      && ctx.Valid()
      && orderIndex.Length == lowlink.Length == onStack.Length == ctx.graph.bound
      && orderIndex != lowlink
    }

    ghost function Value(): Scratch
      reads this, orderIndex, lowlink, onStack
    {
      Scratch(orderIndex[..], lowlink[..], onStack[..], stack, components, counter)
    }

    constructor (bound: nat)
      ensures fresh(orderIndex) && fresh(lowlink) && fresh(onStack) && orderIndex != lowlink
      ensures orderIndex.Length == lowlink.Length == onStack.Length == bound
      ensures Value() == Scratch(seq(bound, _ => UNVISITED), seq(bound, _ => 0), seq(bound, _ => false), [], [], 0)
    {
      orderIndex := new nat[bound](_ => UNVISITED);
      lowlink := new nat[bound](_ => 0);
      onStack := new bool[bound](_ => false);
      stack, components, counter := [], [], 0;
    }

    method Discover(ctx: Induced, node: nat, work: seq<Frame>) returns (work': seq<Frame>)
      requires Valid(ctx) && node < ctx.graph.bound
      modifies this, orderIndex, lowlink, onStack
      ensures Value() == Discovered(ctx, old(Value()), node)
      ensures work' == work + [NewFrame(ctx, node)]
    {
      orderIndex[node] := counter;
      lowlink[node] := counter;
      counter := counter + 1;
      onStack[node] := true;
      stack := stack + [node];
      work' := work + [Frame(node, MemberSuccessors(ctx, node), 0)];
    }

    method Relax(ctx: Induced, node: nat, value: nat)
      requires Valid(ctx) && node < ctx.graph.bound
      modifies lowlink
      ensures Value() == old(Value()).(lowlink := Relaxed(old(lowlink[..]), node, value))
    {
      if value < lowlink[node] {
        lowlink[node] := value;
      }
    }

    method Advance(ctx: Induced, node: nat, successor: nat, work: seq<Frame>) returns (work': seq<Frame>)
      requires Valid(ctx) && node < ctx.graph.bound && successor < ctx.graph.bound
      modifies this, orderIndex, lowlink, onStack
      ensures (Value(), work') == Advanced(ctx, old(Value()), work, node, successor)
    {
      work' := work;
      if orderIndex[successor] == UNVISITED {
        work' := Discover(ctx, successor, work);
      } else if onStack[successor] {
        Relax(ctx, node, orderIndex[successor]);
      }
    }

    method PopComponent(ctx: Induced, root: nat)
      requires Valid(ctx)
      requires forall i :: 0 <= i < |stack| ==> stack[i] < ctx.graph.bound
      modifies this, onStack
      ensures Value() == Popped(ctx, old(Value()), root, [])
    {
      var component := [];
      while stack != []
        invariant forall i :: 0 <= i < |stack| ==> stack[i] < ctx.graph.bound
        invariant Popped(ctx, Value(), root, component) == Popped(ctx, old(Value()), root, [])
        decreases |stack|
      {
        var popped := stack[|stack| - 1];
        stack := stack[..|stack| - 1];
        onStack[popped] := false;
        component := component + [popped];
        if popped == root { break; }
      }
      components := components + [component];
    }

    method Finish(ctx: Induced, node: nat, work: seq<Frame>) returns (work': seq<Frame>)
      requires Valid(ctx) && node < ctx.graph.bound && FinishReady(ctx, Value(), work)
      modifies this, lowlink, onStack
      ensures (Value(), work') == Finished(ctx, old(Value()), work, node)
    {
      if lowlink[node] == orderIndex[node] {
        PopComponent(ctx, node);
      }
      work' := work[..|work| - 1];
      if work' != [] {
        Relax(ctx, work'[|work'| - 1].node, lowlink[node]);
      }
    }

    /** One depth-first walk: afterwards no frame is left and everything visited stays visited. */
    method Visit(ctx: Induced, start: nat, ghost reach: iset<(nat, nat)>, ghost nodes: seq<nat>, ghost order: seq<nat>,
        ghost times: seq<nat>)
      returns (ghost order': seq<nat>, ghost times': seq<nat>)
      requires Valid(ctx) && ctx.graph.bound <= UNVISITED
      requires IsPreorder(ctx, reach) && Inv(ctx, reach, Value(), [], map[])
      requires ctx.In(start) && !Visited(Value(), start)
      requires Traced(ctx, nodes, Value(), [], order, times) && FirstNew(ctx, order, nodes, start)
      modifies this, orderIndex, lowlink, onStack
      ensures Inv(ctx, reach, Value(), [], map[]) && Traced(ctx, nodes, Value(), [], order', times')
      ensures old(VisitedSet(Value())) + {start} <= VisitedSet(Value())
    {
      hide Inv, Traced, FirstNew;
      ghost var owner: map<nat, nat> := map[];
      DiscoverKeepsInv(ctx, reach, Value(), [], owner, start);
      DiscoverKeepsTrace(ctx, reach, nodes, Value(), [], owner, order, times, start);
      var work := Discover(ctx, start, []);
      owner := OwnerDiscovered([], owner, start);
      order', times' := order + [start], times;
      while work != []
        invariant Inv(ctx, reach, Value(), work, owner) && Traced(ctx, nodes, Value(), work, order', times')
        invariant old(VisitedSet(Value())) + {start} <= VisitedSet(Value())
        decreases ctx.Members() - VisitedSet(Value()), Remaining(work)
      {
        ghost var stepped := StepKeepsInv(ctx, reach, Value(), work, owner);
        order', times' := StepKeepsTrace(ctx, reach, nodes, Value(), work, owner, order', times');
        owner := stepped;
        var top := work[|work| - 1];
        if top.position < |top.successors| {
          var successor := top.successors[top.position];
          work := Bumped(work);
          work := Advance(ctx, top.node, successor, work);
        } else {
          work := Finish(ctx, top.node, work);
        }
      }
      IdleOwner(ctx, reach, Value(), owner);
    }
  }

  lemma IdleOwner(ctx: Induced, reach: iset<(nat, nat)>, s: Scratch, owner: map<nat, nat>)
    requires Inv(ctx, reach, s, [], owner)
    ensures Inv(ctx, reach, s, [], map[])
  {
    forall x: nat ensures !On(s, x) {
      var k := OwnerOf(owner, x);
    }
  }

  lemma FreshScratchIsIdle(ctx: Induced, reach: iset<(nat, nat)>, nodes: seq<nat>, s: Scratch)
    requires Shape(ctx, s) && s.stack == [] && s.components == [] && s.counter == 0
    requires forall x :: 0 <= x < ctx.graph.bound ==> s.orderIndex[x] == UNVISITED && !s.onStack[x]
    ensures Inv(ctx, reach, s, [], map[]) && Traced(ctx, nodes, s, [], [], [])
  {
    assert VisitedSet(s) == {};
  }

  lemma StartIsFirstNew(ctx: Induced, nodes: seq<nat>, s: Scratch, order: seq<nat>, times: seq<nat>, n: nat)
    requires Traced(ctx, nodes, s, [], order, times) && n < |nodes| && ctx.In(nodes[n]) && !Visited(s, nodes[n])
    requires forall i :: 0 <= i < n ==> nodes[i] in VisitedSet(s)
    ensures FirstNew(ctx, order, nodes, nodes[n])
  {
    forall i | 0 <= i < n ensures nodes[i] in order {
      assert order[Ord(s, nodes[i])] == nodes[i];
    }
    assert NewAt(ctx, order, nodes, n);
  }

  /** The strongly connected components of the subgraph that `elements` induces, sinks first. Each component lists
      its members from the last discovered down, and the components stand as the walk completes them. */
  method StronglyConnectedComponents(graph: Graph, elements: seq<nat>)
    returns (components: seq<seq<nat>>, ghost order: seq<nat>)
    requires graph.bound <= UNVISITED
    ensures IsResult(InducedBy(graph, elements), Distinct(graph.bound, elements), order, components)
  {
    hide Inv, Traced, FirstNew, IsDecomposition, IsDiscovery, InStackPopOrder, InCompletionOrder, IsPreorder, Reaching;
    var ctx, nodes := CollectMembers(graph, elements);
    ghost var reach := Reaching(ctx);
    ReachingIsPreorder(ctx);
    var scratch := new TarjanScratch(graph.bound);
    FreshScratchIsIdle(ctx, reach, nodes, scratch.Value());
    ghost var times := [];
    order := [];
    for n := 0 to |nodes|
      invariant fresh(scratch) && fresh(scratch.orderIndex) && fresh(scratch.lowlink) && fresh(scratch.onStack)
      invariant scratch.Valid(ctx) && Inv(ctx, reach, scratch.Value(), [], map[])
      invariant Traced(ctx, nodes, scratch.Value(), [], order, times)
      invariant forall i :: 0 <= i < n ==> nodes[i] in VisitedSet(scratch.Value())
    {
      assert nodes[n] in nodes;
      if scratch.orderIndex[nodes[n]] == UNVISITED {
        StartIsFirstNew(ctx, nodes, scratch.Value(), order, times, n);
        order, times := scratch.Visit(ctx, nodes[n], reach, nodes, order, times);
      }
    }
    WalkIsDecomposition(ctx, scratch.Value());
    WalkIsInOrder(ctx, nodes, scratch.Value(), order, times);
    components := scratch.components;
  }
}
