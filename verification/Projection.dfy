/** Graph projections of the property hypergraph (`oxgraph-db/src/projection.rs`). */
module Projection {
  import opened Options
  import opened Csr
  import opened Ordered

  const U32_MAX: nat := 0xFFFF_FFFF

  datatype IncidenceRecord = IncidenceRecord(id: nat, relation: nat, element: nat, role: nat)

  /** One visible relation with its visible incidences. */
  datatype RelationRecord = RelationRecord(id: nat, relationType: Option<nat>, incidences: seq<IncidenceRecord>)

  datatype Definition = Definition(sourceRole: nat, targetRole: nat, relationTypes: set<nat>)

  datatype End = Source | Target

  datatype ProjectionError = DuplicateEndpoint(end: End) | MissingEndpoint | IdsExhausted | OffsetsOutOfBounds

  type Outcome<+T> = Result<T, ProjectionError>

  datatype GraphProjection = GraphProjection(
    elements: seq<nat>,
    elementIndex: map<nat, nat>,
    relations: seq<nat>,
    relationIndex: map<nat, nat>,
    endpoints: seq<(nat, nat)>,
    outEdges: seq<seq<nat>>,
    inEdges: seq<seq<nat>>,
    successors: seq<seq<nat>>,
    predecessors: seq<seq<nat>>)

  // ----- endpoints of one relation

  /** Exactly one incidence has the role, and it attaches `element`. */
  ghost predicate FilledOnce(incidences: seq<IncidenceRecord>, role: nat, element: nat) {
    exists i :: 0 <= i < |incidences| && incidences[i].role == role && incidences[i].element == element
      && forall j :: 0 <= j < |incidences| && incidences[j].role == role ==> j == i
  }

  /** A relation is an edge when each of the two roles is filled once. */
  ghost predicate EndsAre(incidences: seq<IncidenceRecord>, d: Definition, source: nat, target: nat) {
    FilledOnce(incidences, d.sourceRole, source) && FilledOnce(incidences, d.targetRole, target)
  }

  predicate Absent(incidences: seq<IncidenceRecord>, role: nat) {
    forall i :: 0 <= i < |incidences| ==> incidences[i].role != role
  }

  /** Incidence `i` has a role that an earlier one has. */
  ghost predicate Repeats(incidences: seq<IncidenceRecord>, role: nat, i: nat) {
    i < |incidences| && incidences[i].role == role && exists j :: 0 <= j < i && incidences[j].role == role
  }

  /** The first incidence to repeat one of the two roles is reported for it, the source before the target; without
      repetition, a role that no incidence has. */
  ghost predicate IsRefused(incidences: seq<IncidenceRecord>, d: Definition, error: ProjectionError) {
    match error
    case DuplicateEndpoint(Source) =>
      exists i: nat :: Repeats(incidences, d.sourceRole, i) && forall j: nat :: j < i ==> !Repeats(incidences, d.targetRole, j)
    case DuplicateEndpoint(Target) =>
      exists i: nat :: Repeats(incidences, d.targetRole, i) && forall j: nat :: j <= i ==> !Repeats(incidences, d.sourceRole, j)
    case MissingEndpoint =>
      && (forall i: nat :: !Repeats(incidences, d.sourceRole, i) && !Repeats(incidences, d.targetRole, i))
      && (Absent(incidences, d.sourceRole) || Absent(incidences, d.targetRole))
    case _ => false
  }

  /** A relation is an edge or refused, and never both. */
  lemma EdgeOrRefused(incidences: seq<IncidenceRecord>, d: Definition, source: nat, target: nat, error: ProjectionError)
    requires EndsAre(incidences, d, source, target)
    ensures !IsRefused(incidences, d, error)
  {
    assert forall i: nat :: !Repeats(incidences, d.sourceRole, i) && !Repeats(incidences, d.targetRole, i);
  }

  ghost predicate IsEdge(incidences: seq<IncidenceRecord>, d: Definition) {
    exists source, target :: EndsAre(incidences, d, source, target)
  }

  lemma EndsAreUnique(incidences: seq<IncidenceRecord>, d: Definition, a: (nat, nat), b: (nat, nat))
    requires EndsAre(incidences, d, a.0, a.1) && EndsAre(incidences, d, b.0, b.1)
    ensures a == b
  {
  }

  /** Fills `slot` with the incidence's element; a second fill is an error. */
  function UpdateEndpoint(slot: Option<nat>, incidence: IncidenceRecord, role: nat, end: End): Outcome<Option<nat>> {
    if incidence.role != role then Ok(slot)
    else if slot.Some? then Err(DuplicateEndpoint(end))
    else Ok(Some(incidence.element))
  }

  /** What a slot holds after some of the incidences: nothing, or the element of the only one with the role. */
  ghost predicate Slot(slot: Option<nat>, incidences: seq<IncidenceRecord>, role: nat) {
    match slot
    case None => Absent(incidences, role)
    case Some(element) => FilledOnce(incidences, role, element)
  }

  lemma SlotMeans(slot: Option<nat>, incidences: seq<IncidenceRecord>, role: nat)
    requires Slot(slot, incidences, role)
    ensures if slot.Some? then FilledOnce(incidences, role, slot.value) else Absent(incidences, role)
  {
  }

  lemma SlotStep(slot: Option<nat>, incidences: seq<IncidenceRecord>, n: nat, role: nat, end: End)
    requires n < |incidences| && Slot(slot, incidences[..n], role)
    ensures var r := UpdateEndpoint(slot, incidences[n], role, end);
      && (r.Err? ==> r.error == DuplicateEndpoint(end) && Repeats(incidences, role, n))
      && (r.Ok? ==> Slot(r.value, incidences[..n + 1], role) && !Repeats(incidences, role, n))
  {
    assert incidences[..n + 1] == incidences[..n] + [incidences[n]];
    if slot.Some? {
      var i :| 0 <= i < n && incidences[..n][i].role == role && incidences[..n][i].element == slot.value
        && forall j :: 0 <= j < n && incidences[..n][j].role == role ==> j == i;
      assert incidences[i].role == role && incidences[..n + 1][i] == incidences[i];
    } else {
      assert forall j :: 0 <= j < n ==> incidences[..n][j] == incidences[j];
      assert incidences[..n + 1][n] == incidences[n];
    }
  }

  method GraphEndpoints(incidences: seq<IncidenceRecord>, d: Definition) returns (result: Outcome<(nat, nat)>)
    ensures result.Ok? ==> EndsAre(incidences, d, result.value.0, result.value.1)
    ensures result.Err? ==> IsRefused(incidences, d, result.error)
  {
    var source, target := None, None;
    assert Slot(source, incidences[..0], d.sourceRole) && Slot(target, incidences[..0], d.targetRole);
    hide Slot, FilledOnce, Repeats;
    for n := 0 to |incidences|
      invariant Slot(source, incidences[..n], d.sourceRole) && Slot(target, incidences[..n], d.targetRole)
      invariant forall i: nat :: i < n ==> !Repeats(incidences, d.sourceRole, i) && !Repeats(incidences, d.targetRole, i)
    {
      SlotStep(source, incidences, n, d.sourceRole, Source);
      SlotStep(target, incidences, n, d.targetRole, Target);
      var s := UpdateEndpoint(source, incidences[n], d.sourceRole, Source);
      if s.Err? {
        return Err(s.error);
      }
      source := s.value;
      var t := UpdateEndpoint(target, incidences[n], d.targetRole, Target);
      if t.Err? {
        return Err(t.error);
      }
      target := t.value;
    }
    assert incidences[..|incidences|] == incidences;
    NoLaterRepeats(incidences, d);
    SlotMeans(source, incidences, d.sourceRole);
    SlotMeans(target, incidences, d.targetRole);
    if source.Some? && target.Some? {
      return Ok((source.value, target.value));
    }
    return Err(MissingEndpoint);
  }

  lemma NoLaterRepeats(incidences: seq<IncidenceRecord>, d: Definition)
    ensures forall i: nat :: i >= |incidences| ==>
      !Repeats(incidences, d.sourceRole, i) && !Repeats(incidences, d.targetRole, i)
  {
  }

  /** A filter without types selects every relation, any other those that have one of its types. */
  predicate Selected(relation: RelationRecord, types: set<nat>): (selected: bool)
    ensures selected <==> types == {} || exists t :: t in types && relation.relationType == Some(t)
  {
    match relation.relationType
    case None => types == {}
    case Some(t) => types == {} || t in types
  }

  function SelectedRelations(relations: seq<RelationRecord>, types: set<nat>): seq<RelationRecord> {
    if relations == [] then []
    else
      var last := relations[|relations| - 1];
      SelectedRelations(relations[..|relations| - 1], types) + (if Selected(last, types) then [last] else [])
  }

  // ----- local numbering

  /** `ids` and `index` number the canonical ids both ways. */
  ghost predicate Numbering(ids: seq<nat>, index: map<nat, nat>) {
    && (forall i :: 0 <= i < |ids| ==> ids[i] in index && index[ids[i]] == i)
    && (forall x :: x in index ==> index[x] < |ids| && ids[index[x]] == x)
  }

  /** Edge `e` joins the canonical endpoints of relation `e`. */
  ghost predicate EdgesMatch(relations: seq<RelationRecord>, d: Definition, elements: seq<nat>, ids: seq<nat>,
      endpoints: seq<(nat, nat)>) {
    && |ids| == |endpoints| == |relations|
    && forall e :: 0 <= e < |relations| ==>
         && ids[e] == relations[e].id
         && endpoints[e].0 < |elements| && endpoints[e].1 < |elements|
         && EndsAre(relations[e].incidences, d, elements[endpoints[e].0], elements[endpoints[e].1])
  }

  ghost predicate IsEndpoint(endpoints: seq<(nat, nat)>, i: nat) {
    exists e :: 0 <= e < |endpoints| && (endpoints[e].0 == i || endpoints[e].1 == i)
  }

  /** Every projected element is an endpoint of some projected relation. */
  ghost predicate NoStrayElements(elements: seq<nat>, endpoints: seq<(nat, nat)>) {
    forall i: nat {:trigger IsEndpoint(endpoints, i)} :: i < |elements| ==> IsEndpoint(endpoints, i)
  }

  /** Local ids were given out in the order of use: every smaller id was used before, a source before its target. */
  ghost predicate NumberedByUse(endpoints: seq<(nat, nat)>) {
    forall e, i: nat {:trigger IsEndpoint(endpoints[..e], i)} :: 0 <= e < |endpoints| && !IsEndpoint(endpoints[..e], i) ==>
      endpoints[e].0 <= i && (endpoints[e].1 <= i || endpoints[e].0 == i)
  }

  /** A pushed relation's endpoints were interned; nothing else was numbered. */
  lemma PushKeepsEdges(pushed: seq<RelationRecord>, d: Definition, elements: seq<nat>, ids: seq<nat>, endpoints: seq<(nat, nat)>,
                       elements': seq<nat>, relation: RelationRecord, source: nat, target: nat)
    requires EdgesMatch(pushed, d, elements, ids, endpoints) && NoStrayElements(elements, endpoints)
    requires elements <= elements' && source < |elements'| && target < |elements'|
    requires EndsAre(relation.incidences, d, elements'[source], elements'[target])
    requires |elements'| <= |elements| + 2
    requires |elements'| == |elements| + 1 ==> source == |elements| || target == |elements|
    requires |elements'| == |elements| + 2 ==> source == |elements| && target == |elements| + 1
    ensures EdgesMatch(pushed + [relation], d, elements', ids + [relation.id], endpoints + [(source, target)])
    ensures NoStrayElements(elements', endpoints + [(source, target)])
    ensures NumberedByUse(endpoints) ==> NumberedByUse(endpoints + [(source, target)])
  {
    hide EndsAre;
    var endpoints' := endpoints + [(source, target)];
    assert endpoints'[|endpoints|] == (source, target);
    forall i: nat | i < |elements'| ensures IsEndpoint(endpoints', i) {
      assert endpoints'[|endpoints|].0 == source && endpoints'[|endpoints|].1 == target;
      if i < |elements| {
        assert IsEndpoint(endpoints, i);
        var e :| 0 <= e < |endpoints| && (endpoints[e].0 == i || endpoints[e].1 == i);
        assert endpoints'[e] == endpoints[e];
      }
    }
    if NumberedByUse(endpoints) {
      forall e, i: nat | 0 <= e < |endpoints'| && !IsEndpoint(endpoints'[..e], i)
        ensures endpoints'[e].0 <= i && (endpoints'[e].1 <= i || endpoints'[e].0 == i)
      {
        assert endpoints'[..e] == endpoints[..e];
        if e == |endpoints| {
          assert endpoints[..e] == endpoints;
          assert i < |elements| ==> IsEndpoint(endpoints, i);
        }
      }
    }
  }

  lemma NumberingSnoc(ids: seq<nat>, index: map<nat, nat>, id: nat)
    requires Numbering(ids, index) && id !in ids
    ensures Numbering(ids + [id], index[id := |ids|])
  {
  }

  class GraphProjectionBuilder {
    const definition: Definition
    var elements: seq<nat>
    var elementIndex: map<nat, nat>
    var relations: seq<nat>
    var relationIndex: map<nat, nat>
    var endpoints: seq<(nat, nat)>

    /** The builder holds the projection of `pushed`. */
    ghost predicate Holds(pushed: seq<RelationRecord>)
      reads this
    {
      && Numbering(elements, elementIndex) && Numbering(relations, relationIndex)
      && EdgesMatch(pushed, definition, elements, relations, endpoints)
      && NoStrayElements(elements, endpoints) && NumberedByUse(endpoints)
      && |elements| <= U32_MAX + 1 && |relations| <= U32_MAX + 1
      && |relations| == |endpoints| == |pushed| && |elements| <= 2 * |pushed|
    }

    constructor (definition: Definition)
      ensures this.definition == definition && Holds([])
    {
      this.definition := definition;
      elements, elementIndex, relations, relationIndex, endpoints := [], map[], [], map[], [];
    }

    /** The local id of a canonical element, numbering it when it is new. */
    method InternElement(canonical: nat) returns (result: Outcome<nat>)
      requires Numbering(elements, elementIndex) && |elements| <= U32_MAX + 1
      modifies this`elements, this`elementIndex
      ensures Numbering(elements, elementIndex) && |elements| <= U32_MAX + 1
      ensures result.Ok? <==> canonical in old(elementIndex) || |old(elements)| <= U32_MAX
      ensures result.Err? ==> result.error == IdsExhausted
      ensures result.Ok? ==> result.value < |elements| && elements[result.value] == canonical
      ensures result.Ok? && canonical !in old(elementIndex) ==> result.value == |old(elements)|
      ensures elements == if result.Ok? && canonical !in old(elementIndex) then old(elements) + [canonical] else old(elements)
    {
      if canonical in elementIndex {
        return Ok(elementIndex[canonical]);
      }
      if |elements| > U32_MAX {
        return Err(IdsExhausted);
      }
      var local := |elements|;
      elements := elements + [canonical];
      elementIndex := elementIndex[canonical := local];
      return Ok(local);
    }

    /** Adds one relation as an edge, or reports why it is not one. */
    method PushRelation(relation: RelationRecord, ghost pushed: seq<RelationRecord>) returns (result: Outcome<nat>)
      requires Holds(pushed) && relation.id !in relations
      modifies this
      ensures result.Ok? ==> Holds(pushed + [relation]) && result.value == |pushed| && IsEdge(relation.incidences, definition)
      ensures result.Err? && result.error != IdsExhausted ==>
        IsRefused(relation.incidences, definition, result.error) && Holds(pushed)
      ensures result.Err? && result.error == IdsExhausted ==> IsEdge(relation.incidences, definition)
      ensures result.Err? && result.error == IdsExhausted ==>
        |elements| == U32_MAX + 1 <= 2 * |pushed| + 1 || |relations| == U32_MAX + 1 == |pushed|
    {
      hide Numbering, EdgesMatch, NoStrayElements, NumberedByUse, EndsAre;
      ghost var before := elements;
      var ends := GraphEndpoints(relation.incidences, definition);
      if ends.Err? {
        return Err(ends.error);
      }
      var source := InternElement(ends.value.0);
      if source.Err? {
        return Err(source.error);
      }
      var target := InternElement(ends.value.1);
      if target.Err? {
        return Err(target.error);
      }
      if |relations| > U32_MAX {
        return Err(IdsExhausted);
      }
      var edge := |relations|;
      PushKeepsEdges(pushed, definition, before, relations, endpoints, elements, relation, source.value, target.value);
      NumberingSnoc(relations, relationIndex, relation.id);
      relations := relations + [relation.id];
      relationIndex := relationIndex[relation.id := edge];
      endpoints := endpoints + [(source.value, target.value)];
      return Ok(edge);
    }

    method Finish(ghost pushed: seq<RelationRecord>) returns (result: Outcome<GraphProjection>)
      requires Holds(pushed)
      ensures result.Ok? <==> |relations| <= U32_MAX
      ensures result.Err? ==> result.error == IdsExhausted
      ensures result.Ok? ==> IsProjection(result.value, pushed, definition)
    {
      hide Numbering, NoStrayElements, NumberedByUse, EndsAre, RowsList, IsFrozen;
      var forward := FreezeEndpoints(|elements|, endpoints);
      if forward.Err? {
        return Err(IdsExhausted);
      }
      var f := forward.value;
      var reverse := Transpose(f, U32_MAX);
      if reverse.Err? {
        return Err(IdsExhausted);
      }
      var r := reverse.value;
      RowsInBounds(f);
      RowsInBounds(r);
      var successors := Grouped(f.offsets, f.targets, |elements|);
      var outEdges := Grouped(f.offsets, f.edgeIds, |elements|);
      var predecessors := Grouped(r.offsets, r.targets, |elements|);
      var inEdges := Grouped(r.offsets, r.edgeIds, |elements|);
      RowsMatch(f, outEdges.value, successors.value);
      RowsMatch(r, inEdges.value, predecessors.value);
      result := Ok(GraphProjection(elements, elementIndex, relations, relationIndex, endpoints,
                                        outEdges.value, inEdges.value, successors.value, predecessors.value));
    }
  }

  /** Rebuilds the edges on the substrate builder and freezes them. */
  method FreezeEndpoints(nodeCount: nat, endpoints: seq<(nat, nat)>) returns (result: BuildResult<FrozenTopology>)
    requires nodeCount <= U32_MAX + 1 && |endpoints| <= U32_MAX + 1
    requires forall e :: 0 <= e < |endpoints| ==> endpoints[e].0 < nodeCount && endpoints[e].1 < nodeCount
    ensures result.Ok? <==> |endpoints| <= U32_MAX
    ensures result.Ok? ==> var t := result.value;
      IsGraph(t) && IsFrozen(t, nodeCount, Firsts(endpoints), Seconds(endpoints))
  {
    var builder := new GraphBuilder(U32_MAX, U32_MAX);
    for n := 0 to nodeCount
      invariant fresh(builder) && builder.Valid() && builder.nodeCount == n && builder.sources == builder.targets == []
    {
      var node := builder.AddNode();
    }
    for e := 0 to |endpoints|
      invariant fresh(builder) && builder.Valid() && builder.nodeCount == nodeCount
      invariant builder.sources == Firsts(endpoints[..e]) && builder.targets == Seconds(endpoints[..e])
    {
      assert endpoints[..e + 1] == endpoints[..e] + [endpoints[e]];
      var edge := builder.AddEdge(endpoints[e].0, endpoints[e].1);
    }
    assert endpoints[..|endpoints|] == endpoints;
    result := builder.Freeze();
  }

  lemma RowsInBounds(t: FrozenTopology)
    requires IsGraph(t)
    ensures |t.edgeIds| == |t.targets| && |t.offsets| == t.nodeCount + 1 && |t.sources| == |t.edgeTargets|
    ensures forall n: nat :: n < t.nodeCount ==> RowInBounds(t.offsets, t.edgeIds, n) && RowInBounds(t.offsets, t.targets, n)
  {
    forall n: nat | n < t.nodeCount ensures RowInBounds(t.offsets, t.edgeIds, n) && RowInBounds(t.offsets, t.targets, n) {
      FrozenRow(t, t.nodeCount, t.sources, t.edgeTargets, n);
    }
  }

  function Firsts(pairs: seq<(nat, nat)>): (s: seq<nat>)
    ensures |s| == |pairs| && forall i :: 0 <= i < |s| ==> s[i] == pairs[i].0
  {
    seq(|pairs|, i requires 0 <= i < |pairs| => pairs[i].0)
  }

  function Seconds(pairs: seq<(nat, nat)>): (s: seq<nat>)
    ensures |s| == |pairs| && forall i :: 0 <= i < |s| ==> s[i] == pairs[i].1
  {
    seq(|pairs|, i requires 0 <= i < |pairs| => pairs[i].1)
  }

  /** Splits a flat array into its rows. */
  method Grouped(offsets: seq<nat>, flat: seq<nat>, nodeCount: nat) returns (result: Outcome<seq<seq<nat>>>)
    requires |offsets| == nodeCount + 1
    ensures result.Ok? <==> forall n: nat :: n < nodeCount ==> RowInBounds(offsets, flat, n)
    ensures result.Ok? ==> |result.value| == nodeCount
    ensures result.Ok? ==> forall n: nat :: n < nodeCount ==> result.value[n] == RowAt(offsets, flat, n)
  {
    var rows: seq<seq<nat>> := [];
    for n := 0 to nodeCount
      invariant |rows| == n && forall k: nat :: k < n ==> RowInBounds(offsets, flat, k) && rows[k] == RowAt(offsets, flat, k)
    {
      if !(offsets[n] <= offsets[n + 1] <= |flat|) {
        assert !RowInBounds(offsets, flat, n);
        return Err(OffsetsOutOfBounds);
      }
      rows := rows + [flat[offsets[n]..offsets[n + 1]]];
    }
    return Ok(rows);
  }

  /** `edges[n]` lists exactly the edges with key `n`, each once, and `others[n]` their other ends
      position by position. */
  ghost predicate RowsList(keys: seq<nat>, ends: seq<nat>, edges: seq<seq<nat>>, others: seq<seq<nat>>)
    requires |keys| == |ends|
  {
    && |edges| == |others|
    && (forall n :: 0 <= n < |edges| ==> |edges[n]| == |others[n]|)
    && (forall n, e :: 0 <= n < |edges| ==> (e in edges[n] <==> 0 <= e < |keys| && keys[e] == n))
    && (forall n, i, j :: 0 <= n < |edges| && 0 <= i < j < |edges[n]| ==> edges[n][i] < edges[n][j])
    && (forall n, j :: 0 <= n < |edges| && 0 <= j < |edges[n]| ==> edges[n][j] < |ends| && others[n][j] == ends[edges[n][j]])
  }

  lemma RowsMatch(t: FrozenTopology, edges: seq<seq<nat>>, others: seq<seq<nat>>)
    requires IsGraph(t) && |edges| == |others| == t.nodeCount && |t.sources| == |t.edgeTargets|
    requires forall n: nat :: n < t.nodeCount ==> RowInBounds(t.offsets, t.edgeIds, n) && RowInBounds(t.offsets, t.targets, n)
    requires forall n: nat :: n < t.nodeCount ==> edges[n] == RowAt(t.offsets, t.edgeIds, n)
    requires forall n: nat :: n < t.nodeCount ==> others[n] == RowAt(t.offsets, t.targets, n)
    ensures RowsList(t.sources, t.edgeTargets, edges, others)
  {
    forall n: nat | n < t.nodeCount
      ensures |edges[n]| == |others[n]| && edges[n] == IdsOf(t.sources, n)
      ensures forall e :: e in edges[n] <==> 0 <= e < |t.sources| && t.sources[e] == n
      ensures forall i, j :: 0 <= i < j < |edges[n]| ==> edges[n][i] < edges[n][j]
      ensures forall j :: 0 <= j < |edges[n]| ==> edges[n][j] < |t.edgeTargets| && others[n][j] == t.edgeTargets[edges[n][j]]
    {
      FrozenRow(t, t.nodeCount, t.sources, t.edgeTargets, n);
      IdsFacts(t.sources, n);
      hide IdsOf, IsFrozen;
    }
  }

  /** `p` projects the relations `pushed`: both numberings are bijections, edges carry the canonical
      endpoints of their relations, and the four adjacency tables list each edge where it belongs. */
  ghost predicate IsProjection(p: GraphProjection, pushed: seq<RelationRecord>, d: Definition) {
    && Numbering(p.elements, p.elementIndex) && Numbering(p.relations, p.relationIndex)
    && EdgesMatch(pushed, d, p.elements, p.relations, p.endpoints)
    && NoStrayElements(p.elements, p.endpoints) && NumberedByUse(p.endpoints)
    && |p.outEdges| == |p.inEdges| == |p.elements|
    && RowsList(Firsts(p.endpoints), Seconds(p.endpoints), p.outEdges, p.successors)
    && RowsList(Seconds(p.endpoints), Firsts(p.endpoints), p.inEdges, p.predecessors)
  }

  // ----- the projection is determined

  ghost predicate SameName(p: GraphProjection, q: GraphProjection, k: nat) {
    k < |p.elements| && k < |q.elements| && p.elements[k] == q.elements[k]
  }

  /** The local ids used by the first `e` edges name the same elements. */
  ghost predicate SameUsed(p: GraphProjection, q: GraphProjection, e: nat)
    requires e <= |p.endpoints|
  {
    forall k: nat :: IsEndpoint(p.endpoints[..e], k) ==> SameName(p, q, k)
  }

  /** One canonical element, one local id: either it was used before, or it is the next id in both. */
  lemma SameId(p: GraphProjection, q: GraphProjection, i: nat, j: nat)
    requires Numbering(p.elements, p.elementIndex) && Numbering(q.elements, q.elementIndex)
    requires i < |p.elements| && j < |q.elements| && p.elements[i] == q.elements[j]
    requires (i < |q.elements| && p.elements[i] == q.elements[i]) || (j < |p.elements| && p.elements[j] == q.elements[j])
      || (i <= j && j <= i)
    ensures i == j
  {
  }

  lemma EdgeAgrees(p: GraphProjection, q: GraphProjection, pushed: seq<RelationRecord>, d: Definition, e: nat)
    requires IsProjection(p, pushed, d) && IsProjection(q, pushed, d) && e < |p.endpoints| && e < |q.endpoints|
    requires p.endpoints[..e] == q.endpoints[..e] && SameUsed(p, q, e)
    ensures p.endpoints[e] == q.endpoints[e]
    ensures SameName(p, q, p.endpoints[e].0) && SameName(p, q, p.endpoints[e].1)
  {
    var (a, b) := p.endpoints[e];
    var (a', b') := q.endpoints[e];
    EndsAreUnique(pushed[e].incidences, d, (p.elements[a], p.elements[b]), (q.elements[a'], q.elements[b']));
    var used := p.endpoints[..e];
    assert !IsEndpoint(used, a') ==> a <= a';
    assert !IsEndpoint(used, a) ==> a' <= a;
    hide RowsList, EdgesMatch, IsEndpoint;
    SameId(p, q, a, a');
    assert !IsEndpoint(used, b') ==> b <= b' || a == b';
    assert !IsEndpoint(used, b) ==> b' <= b || a == b;
    SameId(p, q, b, b');
  }

  lemma {:induction false} EdgesAgree(p: GraphProjection, q: GraphProjection, pushed: seq<RelationRecord>, d: Definition, e: nat)
    requires IsProjection(p, pushed, d) && IsProjection(q, pushed, d) && e <= |p.endpoints| && e <= |q.endpoints|
    ensures p.endpoints[..e] == q.endpoints[..e] && SameUsed(p, q, e)
  {
    if e > 0 {
      hide IsProjection, SameUsed;
      EdgesAgree(p, q, pushed, d, e - 1);
      EdgeAgrees(p, q, pushed, d, e - 1);
      OneMoreAgrees(p, q, e - 1);
    }
  }

  lemma OneMoreAgrees(p: GraphProjection, q: GraphProjection, e: nat)
    requires e < |p.endpoints| && e < |q.endpoints| && p.endpoints[..e] == q.endpoints[..e] && SameUsed(p, q, e)
    requires p.endpoints[e] == q.endpoints[e]
    requires SameName(p, q, p.endpoints[e].0) && SameName(p, q, p.endpoints[e].1)
    ensures p.endpoints[..e + 1] == q.endpoints[..e + 1] && SameUsed(p, q, e + 1)
  {
    hide IsEndpoint, SameName;
    assert p.endpoints[..e + 1] == p.endpoints[..e] + [p.endpoints[e]];
    assert q.endpoints[..e + 1] == q.endpoints[..e] + [q.endpoints[e]];
    forall k: nat | IsEndpoint(p.endpoints[..e + 1], k) ensures SameName(p, q, k) {
      LastUse(p.endpoints, e, k);
    }
  }

  lemma LastUse(endpoints: seq<(nat, nat)>, e: nat, k: nat)
    requires e < |endpoints| && IsEndpoint(endpoints[..e + 1], k)
    ensures IsEndpoint(endpoints[..e], k) || k == endpoints[e].0 || k == endpoints[e].1
  {
    var i :| 0 <= i < e + 1 && (endpoints[..e + 1][i].0 == k || endpoints[..e + 1][i].1 == k);
    if i < e {
      assert endpoints[..e][i] == endpoints[..e + 1][i];
    }
  }

  lemma ElementsAgree(p: GraphProjection, q: GraphProjection)
    requires p.endpoints == q.endpoints && SameUsed(p, q, |p.endpoints|)
    requires NoStrayElements(p.elements, p.endpoints) && NoStrayElements(q.elements, q.endpoints)
    ensures p.elements == q.elements
  {
    assert p.endpoints[..|p.endpoints|] == p.endpoints;
    if p.elements != [] { assert IsEndpoint(p.endpoints, |p.elements| - 1); }
    if q.elements != [] { assert IsEndpoint(p.endpoints, |q.elements| - 1); }
    forall k: nat | k < |p.elements| ensures k < |q.elements| && p.elements[k] == q.elements[k] {
      assert IsEndpoint(p.endpoints, k);
    }
  }

  lemma NumberingIsUnique(ids: seq<nat>, index: map<nat, nat>, index': map<nat, nat>)
    requires Numbering(ids, index) && Numbering(ids, index')
    ensures index == index'
  {
    assert forall x :: x in index <==> x in ids;
    assert forall x :: x in index' <==> x in ids;
  }

  lemma RowsAreUnique(keys: seq<nat>, ends: seq<nat>, edges: seq<seq<nat>>, others: seq<seq<nat>>,
      edges': seq<seq<nat>>, others': seq<seq<nat>>)
    requires |keys| == |ends| && |edges| == |edges'|
    requires RowsList(keys, ends, edges, others) && RowsList(keys, ends, edges', others')
    ensures edges == edges' && others == others'
  {
    forall n | 0 <= n < |edges| ensures edges[n] == edges'[n] {
      var row := set e | e in edges[n];
      forall e ensures e in edges[n] <==> e in edges'[n] {
        assert e in edges[n] <==> 0 <= e < |keys| && keys[e] == n;
        assert e in edges'[n] <==> 0 <= e < |keys| && keys[e] == n;
      }
      ListingIsUnique(edges[n], edges'[n], row, NatLess);
    }
    forall n | 0 <= n < |others| ensures others[n] == others'[n] {
      assert |others[n]| == |edges[n]| == |others'[n]|;
    }
  }

  /** The selected relations leave one projection: its numbering, its edges and its adjacency. */
  lemma ProjectionIsUnique(p: GraphProjection, q: GraphProjection, pushed: seq<RelationRecord>, d: Definition)
    requires IsProjection(p, pushed, d) && IsProjection(q, pushed, d)
    ensures p == q
  {
    EdgesAgree(p, q, pushed, d, |pushed|);
    assert p.endpoints[..|pushed|] == p.endpoints && q.endpoints[..|pushed|] == q.endpoints;
    assert p.relations == q.relations;
    hide EdgesMatch, RowsList, Numbering, NoStrayElements, SameUsed, NumberedByUse;
    ElementsAgree(p, q);
    NumberingIsUnique(p.elements, p.elementIndex, q.elementIndex);
    NumberingIsUnique(p.relations, p.relationIndex, q.relationIndex);
    RowsAreUnique(Firsts(p.endpoints), Seconds(p.endpoints), p.outEdges, p.successors, q.outEdges, q.successors);
    RowsAreUnique(Seconds(p.endpoints), Firsts(p.endpoints), p.inEdges, p.predecessors, q.inEdges, q.predecessors);
  }

  /** Relation ids of the visible relations are distinct. */
  ghost predicate DistinctIds(relations: seq<RelationRecord>) {
    forall i, j :: 0 <= i < j < |relations| ==> relations[i].id != relations[j].id
  }

  lemma {:induction false} SelectedFromPrefix(relations: seq<RelationRecord>, types: set<nat>, r: RelationRecord)
    requires r in SelectedRelations(relations, types)
    ensures r in relations && Selected(r, types)
  {
    var front := relations[..|relations| - 1];
    if r in SelectedRelations(front, types) {
      SelectedFromPrefix(front, types, r);
    }
  }

  /** Relation `n` is the first selected one that is not an edge, and `error` says why. */
  ghost predicate FirstRefused(relations: seq<RelationRecord>, d: Definition, n: nat, error: ProjectionError) {
    && n < |relations| && Selected(relations[n], d.relationTypes) && IsRefused(relations[n].incidences, d, error)
    && forall m :: 0 <= m < n && Selected(relations[m], d.relationTypes) ==> IsEdge(relations[m].incidences, d)
  }

  /** The projection of a state succeeds exactly when every selected relation is a binary edge and
      the local ids suffice; then it projects exactly the selected relations, in order. */
  method FromState(relations: seq<RelationRecord>, d: Definition) returns (result: Outcome<GraphProjection>)
    requires DistinctIds(relations)
    ensures result.Ok? ==> IsProjection(result.value, SelectedRelations(relations, d.relationTypes), d)
    ensures result.Err? && result.error == IdsExhausted ==> 2 * |relations| >= U32_MAX
    ensures result.Err? && result.error != IdsExhausted ==>
      exists n :: 0 <= n < |relations| && FirstRefused(relations, d, n, result.error)
  {
    var builder := new GraphProjectionBuilder(d);
    ghost var pushed: seq<RelationRecord> := [];
    for n := 0 to |relations|
      invariant fresh(builder) && builder.definition == d && builder.Holds(pushed)
      invariant pushed == SelectedRelations(relations[..n], d.relationTypes)
      invariant |pushed| <= n
      invariant forall m :: 0 <= m < n && Selected(relations[m], d.relationTypes) ==> IsEdge(relations[m].incidences, d)
    {
      assert relations[..n + 1][..n] == relations[..n];
      if Selected(relations[n], d.relationTypes) {
        FreshId(relations, d, n, builder.relations);
        var edge := builder.PushRelation(relations[n], pushed);
        if edge.Err? {
          assert edge.error != IdsExhausted ==> FirstRefused(relations, d, n, edge.error);
          return Err(edge.error);
        }
        pushed := pushed + [relations[n]];
      }
    }
    assert relations[..|relations|] == relations;
    result := builder.Finish(pushed);
  }

  lemma FreshId(relations: seq<RelationRecord>, d: Definition, n: nat, ids: seq<nat>)
    requires DistinctIds(relations) && n < |relations|
    requires var pushed := SelectedRelations(relations[..n], d.relationTypes);
      |ids| == |pushed| && forall e :: 0 <= e < |ids| ==> ids[e] == pushed[e].id
    ensures relations[n].id !in ids
  {
    var pushed := SelectedRelations(relations[..n], d.relationTypes);
    forall e | 0 <= e < |ids| ensures ids[e] != relations[n].id {
      SelectedFromPrefix(relations[..n], d.relationTypes, pushed[e]);
      var i :| 0 <= i < n && relations[..n][i] == pushed[e];
      assert relations[i] == pushed[e];
    }
  }
}
