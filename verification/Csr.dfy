/** The graph builder's counting-sort freeze, its transpose, and the CSR view over the frozen
    arrays (`oxgraph-csr/src/build.rs`, `oxgraph-csr/src/lib.rs`). */
module Csr {
  import opened Options

  datatype BuildError = InvalidNode(node: nat) | IdOverflow(value: nat)

  type BuildResult<+T> = Result<T, BuildError>

  datatype FrozenTopology = FrozenTopology(
    nodeCount: nat,
    offsets: seq<nat>,
    edgeIds: seq<nat>,
    targets: seq<nat>,
    sources: seq<nat>,
    edgeTargets: seq<nat>)

  // ----- what a frozen topology holds

  /** The ids of the edges whose key (source, or target in the transpose) is `node`, ascending. */
  function IdsOf(keys: seq<nat>, node: nat): seq<nat> {
    if keys == [] then []
    else
      var last := |keys| - 1;
      IdsOf(keys[..last], node) + (if keys[last] == node then [last] else [])
  }

  /** `IdsOf` holds exactly the matching edges, in strictly ascending order. */
  lemma {:induction false} IdsFacts(keys: seq<nat>, node: nat)
    ensures forall e :: e in IdsOf(keys, node) <==> 0 <= e < |keys| && keys[e] == node
    ensures forall i, j :: 0 <= i < j < |IdsOf(keys, node)| ==> IdsOf(keys, node)[i] < IdsOf(keys, node)[j]
  {
    if keys != [] {
      var front := keys[..|keys| - 1];
      IdsFacts(front, node);
      forall i | 0 <= i < |IdsOf(front, node)| ensures IdsOf(front, node)[i] < |front| {
        assert IdsOf(front, node)[i] in IdsOf(front, node);
      }
    }
  }

  /** The number of edges whose key is below `node`: where its row starts. */
  function Start(keys: seq<nat>, node: nat): nat {
    if node == 0 then 0 else Start(keys, node - 1) + |IdsOf(keys, node - 1)|
  }

  /** The slots of `node` list its edges among the first `upTo`, with their targets alongside. */
  ghost predicate RowFilled(keys: seq<nat>, targets: seq<nat>, upTo: nat, node: nat, edgeIds: seq<nat>,
      grouped: seq<nat>)
    requires upTo <= |keys| == |targets| == |edgeIds| == |grouped|
  {
    var ids := IdsOf(keys[..upTo], node);
    && Start(keys, node) + |ids| <= |edgeIds|
    && forall p :: Start(keys, node) <= p < Start(keys, node) + |ids| ==>
         edgeIds[p] == ids[p - Start(keys, node)] < |targets| && grouped[p] == targets[edgeIds[p]]
  }

  ghost predicate RowsFilled(keys: seq<nat>, targets: seq<nat>, upTo: nat, nodeCount: nat, edgeIds: seq<nat>,
      grouped: seq<nat>)
    requires upTo <= |keys| == |targets| == |edgeIds| == |grouped|
  {
    forall node: nat {:trigger RowFilled(keys, targets, upTo, node, edgeIds, grouped)} ::
      node < nodeCount ==> RowFilled(keys, targets, upTo, node, edgeIds, grouped)
  }

  /** Edge table: every source is a node. */
  ghost predicate KeysBelow(keys: seq<nat>, nodeCount: nat) {
    forall e :: 0 <= e < |keys| ==> keys[e] < nodeCount
  }

  /** `t` is the frozen form of the edge table: row `n` lists the edges with source `n` in
      ascending id, and targets are grouped alongside. */
  ghost predicate IsFrozen(t: FrozenTopology, nodeCount: nat, sources: seq<nat>, targets: seq<nat>) {
    && |sources| == |targets| && KeysBelow(sources, nodeCount)
    && t.nodeCount == nodeCount && t.sources == sources && t.edgeTargets == targets
    && |t.offsets| == nodeCount + 1 && |t.edgeIds| == |t.targets| == |sources|
    && (forall n :: 0 <= n <= nodeCount ==> t.offsets[n] == Start(sources, n))
    && RowsFilled(sources, targets, |sources|, nodeCount, t.edgeIds, t.targets)
  }

  lemma {:induction false} StartMono(keys: seq<nat>, a: nat, b: nat)
    requires a <= b
    ensures Start(keys, a) <= Start(keys, b)
  {
    if a < b { StartMono(keys, a, b - 1); }
  }

  lemma IdsSnoc(keys: seq<nat>, key: nat, node: nat)
    ensures IdsOf(keys + [key], node) == IdsOf(keys, node) + (if key == node then [|keys|] else [])
  {
    assert (keys + [key])[..|keys|] == keys;
  }

  /** Adding one edge moves the start of every later row by one. */
  lemma {:induction false} StartSnoc(keys: seq<nat>, key: nat, node: nat)
    ensures Start(keys + [key], node) == Start(keys, node) + (if key < node then 1 else 0)
  {
    if node > 0 {
      StartSnoc(keys, key, node - 1);
      IdsSnoc(keys, key, node - 1);
    }
  }

  lemma {:induction false} StartEmpty(node: nat)
    ensures Start([], node) == 0
  {
    if node > 0 { StartEmpty(node - 1); }
  }

  /** The rows together hold every edge. */
  lemma {:induction false} StartTotal(keys: seq<nat>, nodeCount: nat)
    requires KeysBelow(keys, nodeCount)
    ensures Start(keys, nodeCount) == |keys|
  {
    if keys == [] {
      StartEmpty(nodeCount);
    } else {
      var front, last := keys[..|keys| - 1], keys[|keys| - 1];
      StartTotal(front, nodeCount);
      StartSnoc(front, last, nodeCount);
      assert keys == front + [last];
    }
  }

  /** Every slot belongs to some row. */
  lemma {:induction false} RowOfSlot(keys: seq<nat>, nodeCount: nat, p: nat) returns (node: nat)
    requires p < Start(keys, nodeCount)
    ensures node < nodeCount && Start(keys, node) <= p < Start(keys, node) + |IdsOf(keys, node)|
  {
    if p < Start(keys, nodeCount - 1) {
      node := RowOfSlot(keys, nodeCount - 1, p);
    } else {
      node := nodeCount - 1;
    }
  }

  /** What slot `p` holds: one of the edges of the node whose row contains `p`. */
  lemma FrozenSlot(t: FrozenTopology, nodeCount: nat, sources: seq<nat>, targets: seq<nat>, p: nat) returns (node: nat)
    requires IsFrozen(t, nodeCount, sources, targets) && p < |sources|
    ensures node < nodeCount && Start(sources, node) <= p < Start(sources, node) + |IdsOf(sources, node)|
    ensures t.edgeIds[p] == IdsOf(sources, node)[p - Start(sources, node)]
    ensures t.edgeIds[p] < |sources| && sources[t.edgeIds[p]] == node && t.targets[p] == targets[t.edgeIds[p]]
  {
    hide Start, IdsOf;
    StartTotal(sources, nodeCount);
    node := RowOfSlot(sources, nodeCount, p);
    assert sources[..|sources|] == sources;
    assert RowFilled(sources, targets, |sources|, node, t.edgeIds, t.targets);
    var j := p - Start(sources, node);
    assert t.edgeIds[Start(sources, node) + j] == IdsOf(sources, node)[j];
    IdsFacts(sources, node);
    assert IdsOf(sources, node)[j] in IdsOf(sources, node);
  }

  /** Row `n` of the frozen arrays, read through its offsets, lists exactly the edges with source
      `n` in ascending id. */
  lemma FrozenRow(t: FrozenTopology, nodeCount: nat, sources: seq<nat>, targets: seq<nat>, n: nat)
    requires IsFrozen(t, nodeCount, sources, targets) && n < nodeCount
    ensures t.offsets[n] <= t.offsets[n + 1] <= |sources|
    ensures t.edgeIds[t.offsets[n]..t.offsets[n + 1]] == IdsOf(sources, n)
    ensures |t.targets[t.offsets[n]..t.offsets[n + 1]]| == |IdsOf(sources, n)|
    ensures forall j :: 0 <= j < |IdsOf(sources, n)| ==>
      IdsOf(sources, n)[j] < |targets| && t.targets[t.offsets[n]..t.offsets[n + 1]][j] == targets[IdsOf(sources, n)[j]]
  {
    assert sources[..|sources|] == sources;
    assert RowFilled(sources, targets, |sources|, n, t.edgeIds, t.targets);
    assert t.offsets[n + 1] == Start(sources, n + 1) == Start(sources, n) + |IdsOf(sources, n)|;
    var row := t.edgeIds[t.offsets[n]..t.offsets[n + 1]];
    forall j | 0 <= j < |row| ensures row[j] == IdsOf(sources, n)[j] {
      assert t.edgeIds[Start(sources, n) + j] == IdsOf(sources, n)[j];
    }
  }

  /** Edge `e` sits in the row of its source, with its target. */
  ghost predicate HasSlot(t: FrozenTopology, nodeCount: nat, sources: seq<nat>, targets: seq<nat>, e: nat)
    requires IsFrozen(t, nodeCount, sources, targets) && e < |sources|
  {
    exists p :: t.offsets[sources[e]] <= p < t.offsets[sources[e] + 1] && p < |sources| && t.edgeIds[p] == e &&
      t.targets[p] == targets[e]
  }

  /** The edge ids are a permutation of the edges: no slot repeats an id, and every edge has a
      slot, in the row of its source, that carries its target. */
  lemma FrozenIsPermutation(t: FrozenTopology, nodeCount: nat, sources: seq<nat>, targets: seq<nat>)
    requires IsFrozen(t, nodeCount, sources, targets)
    ensures forall p, q :: 0 <= p < q < |sources| ==> t.edgeIds[p] != t.edgeIds[q]
    ensures forall e :: 0 <= e < |sources| ==> HasSlot(t, nodeCount, sources, targets, e)
  {
    forall p, q | 0 <= p < q < |sources| ensures t.edgeIds[p] != t.edgeIds[q] {
      var m := FrozenSlot(t, nodeCount, sources, targets, p);
      var n := FrozenSlot(t, nodeCount, sources, targets, q);
      IdsFacts(sources, m);
    }
    forall e | 0 <= e < |sources| ensures HasSlot(t, nodeCount, sources, targets, e) {
      var p := SlotOfEdge(t, nodeCount, sources, targets, e);
    }
  }

  lemma SlotOfEdge(t: FrozenTopology, nodeCount: nat, sources: seq<nat>, targets: seq<nat>, e: nat) returns (p: nat)
    requires IsFrozen(t, nodeCount, sources, targets) && e < |sources|
    ensures sources[e] < nodeCount && t.offsets[sources[e]] <= p < t.offsets[sources[e] + 1] <= |sources|
    ensures t.edgeIds[p] == e && t.targets[p] == targets[e]
  {
    hide Start, IdsOf;
    var node := sources[e];
    assert sources[..|sources|] == sources;
    IdsFacts(sources, node);
    FrozenRow(t, nodeCount, sources, targets, node);
    hide IsFrozen;
    var row := t.edgeIds[t.offsets[node]..t.offsets[node + 1]];
    assert e in row;
    var j :| 0 <= j < |row| && row[j] == e;
    p := t.offsets[node] + j;
    assert t.targets[t.offsets[node]..t.offsets[node + 1]][j] == t.targets[p];
  }

  /** The edge table determines its frozen form. */
  lemma FrozenIsUnique(t: FrozenTopology, t': FrozenTopology, nodeCount: nat, sources: seq<nat>, targets: seq<nat>)
    requires IsFrozen(t, nodeCount, sources, targets) && IsFrozen(t', nodeCount, sources, targets)
    ensures t == t'
  {
    forall p | 0 <= p < |sources| ensures t.edgeIds[p] == t'.edgeIds[p] && t.targets[p] == t'.targets[p] {
      SameSlot(t, t', nodeCount, sources, targets, p);
    }
    assert t.edgeIds == t'.edgeIds && t.targets == t'.targets && t.offsets == t'.offsets;
  }

  lemma SameSlot(t: FrozenTopology, t': FrozenTopology, nodeCount: nat, sources: seq<nat>, targets: seq<nat>, p: nat)
    requires IsFrozen(t, nodeCount, sources, targets) && IsFrozen(t', nodeCount, sources, targets) && p < |sources|
    ensures t.edgeIds[p] == t'.edgeIds[p] && t.targets[p] == t'.targets[p]
  {
    var m := FrozenSlot(t, nodeCount, sources, targets, p);
    var n := FrozenSlot(t', nodeCount, sources, targets, p);
    SlotsDiffer(sources, m, p - Start(sources, m), n, p - Start(sources, n));
  }

  /** Slots of different rows are different. */
  lemma SlotsDiffer(keys: seq<nat>, node: nat, j: nat, other: nat, k: nat)
    requires j < |IdsOf(keys, node)| && k < |IdsOf(keys, other)|
    ensures Start(keys, node) + j == Start(keys, other) + k ==> node == other && j == k
  {
    if node < other {
      StartMono(keys, node + 1, other);
    } else if other < node {
      StartMono(keys, other + 1, node);
    }
  }

  // ----- the counting sort

  /** Row sizes, one slot late: `counts[n + 1]` edges have key `n`. */
  method CountRows(nodeCount: nat, keys: seq<nat>) returns (counts: array<nat>)
    requires KeysBelow(keys, nodeCount)
    ensures fresh(counts) && counts.Length == nodeCount + 1
    ensures counts[0] == 0 && forall n :: 0 <= n < nodeCount ==> counts[n + 1] == |IdsOf(keys, n)|
  {
    counts := new nat[nodeCount + 1](_ => 0);
    for e := 0 to |keys|
      invariant counts[0] == 0 && forall n :: 0 <= n < nodeCount ==> counts[n + 1] == |IdsOf(keys[..e], n)|
    {
      assert keys[..e + 1] == keys[..e] + [keys[e]];
      forall n: nat ensures IdsOf(keys[..e + 1], n) == IdsOf(keys[..e], n) + (if keys[e] == n then [e] else []) {
        IdsSnoc(keys[..e], keys[e], n);
      }
      counts[keys[e] + 1] := counts[keys[e] + 1] + 1;
    }
    assert keys[..|keys|] == keys;
  }

  method PrefixSums(counts: array<nat>, nodeCount: nat, ghost keys: seq<nat>)
    requires counts.Length == nodeCount + 1
    requires counts[0] == 0 && forall n :: 0 <= n < nodeCount ==> counts[n + 1] == |IdsOf(keys, n)|
    modifies counts
    ensures forall n :: 0 <= n <= nodeCount ==> counts[n] == Start(keys, n)
  {
    hide IdsOf;
    for index := 1 to nodeCount + 1
      invariant forall n :: 0 <= n < index ==> counts[n] == Start(keys, n)
      invariant forall n :: index <= n <= nodeCount ==> counts[n] == |IdsOf(keys, n - 1)|
    {
      assert Start(keys, index) == Start(keys, index - 1) + |IdsOf(keys, index - 1)|;
      counts[index] := counts[index] + counts[index - 1];
    }
  }

  /** The edges of a prefix are a prefix of the node's edges. */
  lemma {:induction false} IdsPrefix(keys: seq<nat>, upTo: nat, node: nat)
    requires upTo <= |keys|
    ensures IdsOf(keys[..upTo], node) <= IdsOf(keys, node)
    ensures upTo < |keys| && keys[upTo] == node ==> IdsOf(keys[..upTo], node) + [upTo] <= IdsOf(keys, node)
    decreases |keys| - upTo
  {
    if upTo == |keys| {
      assert keys[..upTo] == keys;
    } else {
      IdsPrefix(keys, upTo + 1, node);
      IdsSnoc(keys[..upTo], keys[upTo], node);
      assert keys[..upTo + 1] == keys[..upTo] + [keys[upTo]];
    }
  }

  /** The next free slot of `node`'s row after the first `upTo` edges are placed. */
  ghost function Cursor(keys: seq<nat>, upTo: nat, node: nat): nat
    requires upTo <= |keys|
  {
    Start(keys, node) + |IdsOf(keys[..upTo], node)|
  }

  lemma CursorInRange(keys: seq<nat>, nodeCount: nat, e: nat)
    requires KeysBelow(keys, nodeCount) && e < |keys|
    ensures Cursor(keys, e, keys[e]) < |keys|
  {
    hide IdsOf;
    StartTotal(keys, nodeCount);
    IdsPrefix(keys, e, keys[e]);
    StartMono(keys, keys[e] + 1, nodeCount);
  }

  lemma CursorMoves(keys: seq<nat>, e: nat, node: nat)
    requires e < |keys|
    ensures IdsOf(keys[..e + 1], node) == IdsOf(keys[..e], node) + (if keys[e] == node then [e] else [])
    ensures Cursor(keys, e + 1, node) == Cursor(keys, e, node) + (if keys[e] == node then 1 else 0)
  {
    assert keys[..e + 1] == keys[..e] + [keys[e]];
    IdsSnoc(keys[..e], keys[e], node);
  }

  /** Placing edge `e` at its row's cursor extends that row and disturbs no other. */
  lemma PlaceEdge(keys: seq<nat>, targets: seq<nat>, nodeCount: nat, e: nat, edgeIds: seq<nat>, grouped: seq<nat>,
      node: nat)
    requires KeysBelow(keys, nodeCount) && e < |keys| == |targets| == |edgeIds| == |grouped|
    requires RowFilled(keys, targets, e, node, edgeIds, grouped)
    requires Cursor(keys, e, keys[e]) < |keys| && node < nodeCount
    ensures RowFilled(keys, targets, e + 1, node,
      edgeIds[Cursor(keys, e, keys[e]) := e], grouped[Cursor(keys, e, keys[e]) := targets[e]])
  {
    hide IdsOf, Start;
    var key := keys[e];
    var p := Cursor(keys, e, key);
    CursorMoves(keys, e, node);
    IdsPrefix(keys, e, key);
    IdsPrefix(keys, e + 1, node);
    RowFits(keys, nodeCount, e + 1, node);
    var ids := IdsOf(keys[..e + 1], node);
    var edgeIds', grouped' := edgeIds[p := e], grouped[p := targets[e]];
    forall q | Start(keys, node) <= q < Start(keys, node) + |ids|
      ensures edgeIds'[q] == ids[q - Start(keys, node)] < |targets|
      ensures grouped'[q] == targets[edgeIds'[q]]
    {
      SlotsDiffer(keys, node, q - Start(keys, node), key, p - Start(keys, key));
    }
  }

  lemma RowFits(keys: seq<nat>, nodeCount: nat, upTo: nat, node: nat)
    requires KeysBelow(keys, nodeCount) && upTo <= |keys| && node < nodeCount
    ensures Cursor(keys, upTo, node) <= |keys|
  {
    hide IdsOf;
    StartTotal(keys, nodeCount);
    IdsPrefix(keys, upTo, node);
    StartMono(keys, node + 1, nodeCount);
  }

  lemma PlaceEdgeInRows(keys: seq<nat>, targets: seq<nat>, nodeCount: nat, e: nat, edgeIds: seq<nat>, grouped: seq<nat>)
    requires KeysBelow(keys, nodeCount) && e < |keys| == |targets| == |edgeIds| == |grouped|
    requires RowsFilled(keys, targets, e, nodeCount, edgeIds, grouped) && Cursor(keys, e, keys[e]) < |keys|
    ensures var p := Cursor(keys, e, keys[e]);
      RowsFilled(keys, targets, e + 1, nodeCount, edgeIds[p := e], grouped[p := targets[e]])
  {
    var p, next := Cursor(keys, e, keys[e]), e + 1;
    var edgeIds', grouped' := edgeIds[p := e], grouped[p := targets[e]];
    forall n: nat | n < nodeCount ensures RowFilled(keys, targets, next, n, edgeIds', grouped') {
      assert RowFilled(keys, targets, e, n, edgeIds, grouped);
      PlaceEdge(keys, targets, nodeCount, e, edgeIds, grouped, n);
    }
  }

  lemma NothingPlaced(keys: seq<nat>, targets: seq<nat>, nodeCount: nat, edgeIds: seq<nat>, grouped: seq<nat>)
    requires |keys| == |targets| == |edgeIds| == |grouped| && KeysBelow(keys, nodeCount)
    ensures RowsFilled(keys, targets, 0, nodeCount, edgeIds, grouped)
    ensures forall n :: 0 <= n < nodeCount ==> Cursor(keys, 0, n) == Start(keys, n)
  {
    assert keys[..0] == [];
    StartTotal(keys, nodeCount);
    forall n: nat | n < nodeCount ensures RowFilled(keys, targets, 0, n, edgeIds, grouped) {
      StartMono(keys, n, nodeCount);
    }
  }

  /** Distributes the edges over their rows in id order, so each row comes out ascending. */
  method PlaceEdges(nodeCount: nat, sources: seq<nat>, targets: seq<nat>, cursor: array<nat>)
    returns (edgeIds: array<nat>, grouped: array<nat>)
    requires |sources| == |targets| && KeysBelow(sources, nodeCount)
    requires cursor.Length == nodeCount + 1 && forall n :: 0 <= n <= nodeCount ==> cursor[n] == Start(sources, n)
    modifies cursor
    ensures edgeIds.Length == grouped.Length == |sources|
    ensures RowsFilled(sources, targets, |sources|, nodeCount, edgeIds[..], grouped[..])
  {
    edgeIds := new nat[|sources|](_ => 0);
    grouped := new nat[|sources|](_ => 0);
    NothingPlaced(sources, targets, nodeCount, edgeIds[..], grouped[..]);
    for e := 0 to |sources|
      invariant RowsFilled(sources, targets, e, nodeCount, edgeIds[..], grouped[..])
      invariant forall n :: 0 <= n < nodeCount ==> cursor[n] == Cursor(sources, e, n)
    {
      CursorInRange(sources, nodeCount, e);
      var position := cursor[sources[e]];
      ghost var ids, row := edgeIds[..], grouped[..];
      PlaceEdgeInRows(sources, targets, nodeCount, e, ids, row);
      forall n: nat | n < nodeCount
        ensures Cursor(sources, e + 1, n) == Cursor(sources, e, n) + (if sources[e] == n then 1 else 0)
      {
        CursorMoves(sources, e, n);
      }
      cursor[sources[e]] := cursor[sources[e]] + 1;
      edgeIds[position] := e;
      grouped[position] := targets[e];
      assert edgeIds[..] == ids[position := e as nat] && grouped[..] == row[position := targets[e]];
    }
  }

  /** Offsets must fit the edge index type, whose largest value is `maxEdge`. */
  method FreezeTopology(nodeCount: nat, sources: seq<nat>, targets: seq<nat>, maxEdge: nat)
    returns (result: BuildResult<FrozenTopology>)
    requires |sources| == |targets| && KeysBelow(sources, nodeCount)
    ensures result.Ok? <==> |sources| <= maxEdge
    ensures result.Ok? ==> IsFrozen(result.value, nodeCount, sources, targets)
  {
    var counts := CountRows(nodeCount, sources);
    PrefixSums(counts, nodeCount, sources);
    StartTotal(sources, nodeCount);
    for n := 0 to nodeCount + 1
      invariant forall k :: 0 <= k < n ==> counts[k] <= maxEdge
    {
      if counts[n] > maxEdge {
        StartMono(sources, n, nodeCount);
        return Err(IdOverflow(counts[n]));
      }
    }
    var offsets := counts[..];
    var edgeIds, grouped := PlaceEdges(nodeCount, sources, targets, counts);
    result := Ok(FrozenTopology(nodeCount, offsets, edgeIds[..], grouped[..], sources, targets));
  }

  // ----- the builder

  class GraphBuilder {
    const maxNode: nat
    const maxEdge: nat
    var nodeCount: nat
    var sources: seq<nat>
    var targets: seq<nat>

    /** Endpoints recorded so far are nodes. */
    ghost predicate Valid()
      reads this
    {
      |sources| == |targets| && KeysBelow(sources, nodeCount) && KeysBelow(targets, nodeCount)
    }

    constructor (maxNode: nat, maxEdge: nat)
      ensures Valid() && nodeCount == 0 && sources == targets == []
      ensures this.maxNode == maxNode && this.maxEdge == maxEdge
    {
      this.maxNode, this.maxEdge := maxNode, maxEdge;
      nodeCount, sources, targets := 0, [], [];
    }

    method AddNode() returns (result: BuildResult<nat>)
      requires Valid()
      modifies this
      ensures Valid() && sources == old(sources) && targets == old(targets)
      ensures result == if old(nodeCount) <= maxNode then Ok(old(nodeCount)) else Err(IdOverflow(old(nodeCount)))
      ensures nodeCount == old(nodeCount) + (if result.Ok? then 1 else 0)
    {
      if nodeCount > maxNode {
        return Err(IdOverflow(nodeCount));
      }
      nodeCount := nodeCount + 1;
      return Ok(nodeCount - 1);
    }

    method AddEdge(source: nat, target: nat) returns (result: BuildResult<nat>)
      requires Valid()
      modifies this
      ensures Valid() && nodeCount == old(nodeCount)
      ensures result ==
        if source >= nodeCount then Err(InvalidNode(source))
        else if target >= nodeCount then Err(InvalidNode(target))
        else if |old(sources)| > maxEdge then Err(IdOverflow(|old(sources)|))
        else Ok(|old(sources)|)
      ensures result.Ok? ==> sources == old(sources) + [source] && targets == old(targets) + [target]
      ensures result.Err? ==> sources == old(sources) && targets == old(targets)
    {
      if source >= nodeCount {
        return Err(InvalidNode(source));
      }
      if target >= nodeCount {
        return Err(InvalidNode(target));
      }
      var edge := |sources|;
      if edge > maxEdge {
        return Err(IdOverflow(edge));
      }
      sources := sources + [source];
      targets := targets + [target];
      return Ok(edge);
    }

    method Freeze() returns (result: BuildResult<FrozenTopology>)
      requires Valid()
      ensures result.Ok? <==> |sources| <= maxEdge
      ensures result.Ok? ==> IsFrozen(result.value, nodeCount, sources, targets)
    {
      result := FreezeTopology(nodeCount, sources, targets, maxEdge);
    }
  }

  // ----- transpose

  /** `t` is frozen from some edge table whose targets are nodes too. */
  ghost predicate IsGraph(t: FrozenTopology) {
    IsFrozen(t, t.nodeCount, t.sources, t.edgeTargets) && KeysBelow(t.edgeTargets, t.nodeCount)
  }

  /** Freezing the swapped edge table: row `n` lists the edges with target `n`, ascending, and the
      original edge ids are kept. */
  method Transpose(t: FrozenTopology, maxEdge: nat) returns (result: BuildResult<FrozenTopology>)
    requires IsGraph(t)
    ensures result.Ok? <==> |t.sources| <= maxEdge
    ensures result.Ok? ==> IsFrozen(result.value, t.nodeCount, t.edgeTargets, t.sources) && IsGraph(result.value)
  {
    result := FreezeTopology(t.nodeCount, t.edgeTargets, t.sources, maxEdge);
  }

  /** Transposing twice gives back the same arrays. */
  lemma TransposeTwice(t: FrozenTopology, r: FrozenTopology, rr: FrozenTopology)
    requires IsGraph(t) && IsFrozen(r, t.nodeCount, t.edgeTargets, t.sources)
    requires IsFrozen(rr, r.nodeCount, r.edgeTargets, r.sources)
    ensures rr == t
  {
    FrozenIsUnique(rr, t, t.nodeCount, t.sources, t.edgeTargets);
  }

  /** The edge `e` is in row `m` of the graph and in row `n` of its transpose exactly when it runs
      from `m` to `n`; each of these rows holds it once. */
  lemma TransposeSwapsRows(t: FrozenTopology, r: FrozenTopology, e: nat, m: nat, n: nat)
    requires IsGraph(t) && IsFrozen(r, t.nodeCount, t.edgeTargets, t.sources)
    requires e < |t.sources| && m < t.nodeCount && n < t.nodeCount
    ensures e in IdsOf(t.sources, m) && e in IdsOf(r.sources, n) <==> t.sources[e] == m && t.edgeTargets[e] == n
    ensures t.offsets[m] <= t.offsets[m + 1] <= |t.edgeIds|
    ensures t.edgeIds[t.offsets[m]..t.offsets[m + 1]] == IdsOf(t.sources, m)
    ensures r.offsets[n] <= r.offsets[n + 1] <= |r.edgeIds|
    ensures r.edgeIds[r.offsets[n]..r.offsets[n + 1]] == IdsOf(t.edgeTargets, n)
  {
    IdsFacts(t.sources, m);
    IdsFacts(t.edgeTargets, n);
    FrozenRow(t, t.nodeCount, t.sources, t.edgeTargets, m);
    FrozenRow(r, t.nodeCount, t.edgeTargets, t.sources, n);
  }

  // ----- the borrowed view

  datatype OffsetIssue =
    | Length(expected: nat, actual: nat)
    | FirstNonZero(actual: nat)
    | NonMonotonic(index: nat)
    | FinalMismatch(finalOffset: nat, valueLen: nat)
    | ValueOutOfRange(index: nat)

  /** The conditions under which a view may slice its arrays. */
  ghost predicate WellFormedView(nodeCount: nat, offsets: seq<nat>, targets: seq<nat>) {
    && |offsets| == nodeCount + 1 && offsets[0] == 0 && offsets[nodeCount] == |targets|
    && (forall i, j :: 0 <= i <= j < |offsets| ==> offsets[i] <= offsets[j])
    && KeysBelow(targets, nodeCount)
  }

  /** The issue is real, and everything checked before it is in order. */
  predicate FirstIssue(issue: OffsetIssue, nodeCount: nat, offsets: seq<nat>, targets: seq<nat>) {
    match issue
    case Length(expected, actual) => expected == nodeCount + 1 != actual == |offsets|
    case FirstNonZero(value) => |offsets| == nodeCount + 1 && value == offsets[0] != 0
    case NonMonotonic(index) =>
      && |offsets| == nodeCount + 1 && offsets[0] == 0 && 0 < index < |offsets| && offsets[index] < offsets[index - 1]
      && forall i, j :: 0 <= i <= j < index ==> offsets[i] <= offsets[j]
    case FinalMismatch(last, targetCount) =>
      && |offsets| == nodeCount + 1 && offsets[0] == 0 && (forall i, j :: 0 <= i <= j < |offsets| ==> offsets[i] <= offsets[j])
      && last == offsets[nodeCount] != targetCount == |targets|
    case ValueOutOfRange(index) =>
      && |offsets| == nodeCount + 1 && offsets[0] == 0 && (forall i, j :: 0 <= i <= j < |offsets| ==> offsets[i] <= offsets[j])
      && offsets[nodeCount] == |targets| && index < |targets| && targets[index] >= nodeCount
      && forall i :: 0 <= i < index ==> targets[i] < nodeCount
  }

  method Validate(nodeCount: nat, offsets: seq<nat>, targets: seq<nat>) returns (issue: Option<OffsetIssue>)
    ensures issue == None <==> WellFormedView(nodeCount, offsets, targets)
    ensures issue != None ==> FirstIssue(issue.value, nodeCount, offsets, targets)
  {
    if |offsets| != nodeCount + 1 {
      return Some(Length(nodeCount + 1, |offsets|));
    }
    var previous := 0;
    for index := 0 to |offsets|
      invariant index > 0 ==> offsets[0] == 0 && previous == offsets[index - 1]
      invariant forall i, j :: 0 <= i <= j < index ==> offsets[i] <= offsets[j]
    {
      if index == 0 {
        if offsets[index] != 0 {
          return Some(FirstNonZero(offsets[index]));
        }
      } else if offsets[index] < previous {
        assert offsets[index - 1] > offsets[index];
        return Some(NonMonotonic(index));
      }
      previous := offsets[index];
    }
    if offsets[nodeCount] != |targets| {
      return Some(FinalMismatch(offsets[nodeCount], |targets|));
    }
    for index := 0 to |targets|
      invariant forall i :: 0 <= i < index ==> targets[i] < nodeCount
    {
      if targets[index] >= nodeCount {
        return Some(ValueOutOfRange(index));
      }
    }
    return None;
  }

  /** The view over a frozen graph skips validation; it would have passed. */
  lemma FrozenPassesValidation(t: FrozenTopology)
    requires IsGraph(t)
    ensures WellFormedView(t.nodeCount, t.offsets, t.targets)
  {
    StartTotal(t.sources, t.nodeCount);
    forall i, j | 0 <= i <= j < |t.offsets| ensures t.offsets[i] <= t.offsets[j] {
      StartMono(t.sources, i, j);
    }
    forall p | 0 <= p < |t.targets| ensures t.targets[p] < t.nodeCount {
      var n := FrozenSlot(t, t.nodeCount, t.sources, t.edgeTargets, p);
    }
  }

  /** The slice that a pair of consecutive offsets selects. */
  predicate RowInBounds(offsets: seq<nat>, flat: seq<nat>, n: nat) {
    n + 1 < |offsets| && offsets[n] <= offsets[n + 1] <= |flat|
  }

  function RowAt(offsets: seq<nat>, flat: seq<nat>, n: nat): seq<nat>
    requires RowInBounds(offsets, flat, n)
  {
    flat[offsets[n]..offsets[n + 1]]
  }

  /** `FrozenGraph::element_successors`: the canonical targets of the row's edge ids. */
  function FrozenSuccessors(t: FrozenTopology, n: nat): seq<nat>
    requires RowInBounds(t.offsets, t.edgeIds, n)
    requires forall p :: 0 <= p < |t.edgeIds| ==> t.edgeIds[p] < |t.edgeTargets|
  {
    var row := RowAt(t.offsets, t.edgeIds, n);
    seq(|row|, j requires 0 <= j < |row| => t.edgeTargets[row[j]])
  }

  /** `CsrGraph::element_successors` slices the grouped targets where `FrozenGraph` maps edge ids:
      both yield the same successors, the targets of the node's edges in
      insertion order, parallel edges included. */
  lemma SuccessorsAgree(t: FrozenTopology, n: nat)
    requires IsGraph(t) && n < t.nodeCount
    ensures RowInBounds(t.offsets, t.edgeIds, n) && RowInBounds(t.offsets, t.targets, n)
    ensures forall p :: 0 <= p < |t.edgeIds| ==> t.edgeIds[p] < |t.edgeTargets|
    ensures FrozenSuccessors(t, n) == RowAt(t.offsets, t.targets, n)
    ensures |FrozenSuccessors(t, n)| == |IdsOf(t.sources, n)|
    ensures forall j :: 0 <= j < |IdsOf(t.sources, n)| ==>
      IdsOf(t.sources, n)[j] < |t.edgeTargets| && FrozenSuccessors(t, n)[j] == t.edgeTargets[IdsOf(t.sources, n)[j]]
  {
    FrozenRow(t, t.nodeCount, t.sources, t.edgeTargets, n);
    forall p | 0 <= p < |t.edgeIds| ensures t.edgeIds[p] < |t.edgeTargets| {
      var m := FrozenSlot(t, t.nodeCount, t.sources, t.edgeTargets, p);
    }
  }
}
