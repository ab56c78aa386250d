/** The overlay's incrementally maintained postings and the lookups over them (`oxgraph-db/src/index.rs`). */
module OverlayIndexes {
  import opened Options
  import opened Bytes
  import opened Ordered
  import opened Values
  import opened Index

  // ----- a delta over a base family shows a scan of the records

  ghost predicate LabelsShow(d: Delta<u64, u64>, base: map<u64, set<u64>>, elements: map<u64, set<u64>>) {
    DeltaOk(d) && forall k :: d.Merged(base, k) == ElementsWithLabel(elements, k)
  }

  ghost predicate TypesShow(d: Delta<u64, u64>, base: map<u64, set<u64>>, relations: map<u64, RelationKind>) {
    DeltaOk(d) && forall k :: d.Merged(base, k) == RelationsWithType(relations, k)
  }

  ghost predicate EqualityShows(d: Delta<EqualityKey, PropertySubject>,
      base: map<EqualityKey, set<PropertySubject>>, p: Properties) {
    DeltaOk(d) && forall k :: d.Merged(base, k) == SubjectsWith(p, k)
  }

  ghost predicate ElementEndsShow(d: Delta<u64, u64>, base: map<u64, set<u64>>, incidences: map<u64, Ends>) {
    DeltaOk(d) && forall k :: d.Merged(base, k) == IncidencesOfElement(incidences, k)
  }

  ghost predicate RelationEndsShow(d: Delta<u64, u64>, base: map<u64, set<u64>>, incidences: map<u64, Ends>) {
    DeltaOk(d) && forall k :: d.Merged(base, k) == IncidencesOfRelation(incidences, k)
  }

  // ----- what a mutation does to the records

  function PropertiesOf(p: Properties, s: PropertySubject): map<u64, PropertyValue> {
    map x | x in p && x.0 == s :: x.1 := p[x]
  }

  lemma NoPropertiesOf(p: Properties, s: PropertySubject)
    ensures PropertiesOf(p, s) == map[] <==> forall x :: x in p ==> x.0 != s
  {
    forall x | x in p && x.0 == s ensures x.1 in PropertiesOf(p, s) {
    }
    assert PropertiesOf(p, s) == map[] <==> forall k :: k !in PropertiesOf(p, s);
  }

  function Stripped(p: Properties, s: PropertySubject): Properties {
    map x | x in p && x.0 != s :: p[x]
  }

  function LabelsOf(elements: map<u64, set<u64>>, e: u64): set<u64> {
    if e in elements then elements[e] else {}
  }

  function KindOf(relations: map<u64, RelationKind>, x: u64): RelationKind {
    if x in relations then relations[x] else Untyped
  }

  function ValueOf(p: Properties, s: PropertySubject, key: u64): Option<PropertyValue> {
    if (s, key) in p then Some(p[(s, key)]) else None
  }

  // ----- one step of one family

  lemma LabelAdded(d: Delta<u64, u64>, base: map<u64, set<u64>>, elements: map<u64, set<u64>>, e: u64, l: u64)
    requires LabelsShow(d, base, elements) && e in elements
    ensures LabelsShow(d.Add(l, e), base, elements[e := elements[e] + {l}])
  {
    hide Delta.Add, Delta.Remove, Delta.Merged, DeltaOk;
    DeltaKept(d, l, e);
    var after := elements[e := elements[e] + {l}];
    forall k ensures d.Add(l, e).Merged(base, k) == ElementsWithLabel(after, k) {
      DeltaStep(d, base, l, e, k);
      assert ElementsWithLabel(after, k) == ElementsWithLabel(elements, k) + (if k == l then {e} else {});
    }
  }

  lemma LabelRemoved(d: Delta<u64, u64>, base: map<u64, set<u64>>, elements: map<u64, set<u64>>, e: u64, l: u64)
    requires LabelsShow(d, base, elements) && e in elements
    ensures LabelsShow(d.Remove(l, e), base, elements[e := elements[e] - {l}])
  {
    hide Delta.Add, Delta.Remove, Delta.Merged, DeltaOk;
    DeltaKept(d, l, e);
    var after := elements[e := elements[e] - {l}];
    forall k ensures d.Remove(l, e).Merged(base, k) == ElementsWithLabel(after, k) {
      DeltaStep(d, base, l, e, k);
      assert ElementsWithLabel(after, k) == ElementsWithLabel(elements, k) - (if k == l then {e} else {});
    }
  }

  lemma UnlabelledRemoved(d: Delta<u64, u64>, base: map<u64, set<u64>>, elements: map<u64, set<u64>>, e: u64)
    requires LabelsShow(d, base, elements) && LabelsOf(elements, e) == {}
    ensures LabelsShow(d, base, elements - {e})
  {
    forall k ensures d.Merged(base, k) == ElementsWithLabel(elements - {e}, k) {
      assert ElementsWithLabel(elements - {e}, k) == ElementsWithLabel(elements, k);
    }
  }

  lemma TypeAdded(d: Delta<u64, u64>, base: map<u64, set<u64>>, relations: map<u64, RelationKind>, x: u64, t: u64)
    requires TypesShow(d, base, relations) && x in relations && relations[x] in {Untyped, Typed(t)}
    ensures TypesShow(d.Add(t, x), base, relations[x := Typed(t)])
  {
    hide Delta.Add, Delta.Remove, Delta.Merged, DeltaOk;
    DeltaKept(d, t, x);
    var after := relations[x := Typed(t)];
    forall k ensures d.Add(t, x).Merged(base, k) == RelationsWithType(after, k) {
      DeltaStep(d, base, t, x, k);
      assert RelationsWithType(after, k) == RelationsWithType(relations, k) + (if k == t then {x} else {});
    }
  }

  lemma TypeRemoved(d: Delta<u64, u64>, base: map<u64, set<u64>>, relations: map<u64, RelationKind>, x: u64, t: u64)
    requires TypesShow(d, base, relations) && KindOf(relations, x) == Typed(t)
    ensures TypesShow(d.Remove(t, x), base, relations[x := Untyped])
  {
    hide Delta.Add, Delta.Remove, Delta.Merged, DeltaOk;
    DeltaKept(d, t, x);
    var after := relations[x := Untyped];
    forall k ensures d.Remove(t, x).Merged(base, k) == RelationsWithType(after, k) {
      DeltaStep(d, base, t, x, k);
      assert RelationsWithType(after, k) == RelationsWithType(relations, k) - (if k == t then {x} else {});
    }
  }

  lemma UntypedRemoved(d: Delta<u64, u64>, base: map<u64, set<u64>>, relations: map<u64, RelationKind>, x: u64)
    requires TypesShow(d, base, relations) && KindOf(relations, x) == Untyped
    ensures TypesShow(d, base, relations - {x})
  {
    forall k ensures d.Merged(base, k) == RelationsWithType(relations - {x}, k) {
      assert RelationsWithType(relations - {x}, k) == RelationsWithType(relations, k);
    }
  }

  lemma SubjectsAfterSet(p: Properties, s: PropertySubject, key: u64, value: PropertyValue, k: EqualityKey)
    requires ValueOf(p, s, key) in {None, Some(value)}
    ensures SubjectsWith(p[(s, key) := value], k) == SubjectsWith(p, k) + (if k == (key, value) then {s} else {})
  {
    var after := p[(s, key) := value];
    forall x ensures Carries(after, x, k.0, k.1) <==> Carries(p, x, k.0, k.1) || (x == s && k == (key, value)) {
    }
  }

  lemma EqualityAdded(d: Delta<EqualityKey, PropertySubject>, base: map<EqualityKey, set<PropertySubject>>,
      p: Properties, s: PropertySubject, key: u64, value: PropertyValue)
    requires EqualityShows(d, base, p) && ValueOf(p, s, key) in {None, Some(value)}
    ensures EqualityShows(d.Add((key, value), s), base, p[(s, key) := value])
  {
    hide Delta.Add, Delta.Remove, Delta.Merged, DeltaOk;
    DeltaKept(d, (key, value), s);
    var after := p[(s, key) := value];
    forall k ensures d.Add((key, value), s).Merged(base, k) == SubjectsWith(after, k) {
      DeltaStep(d, base, (key, value), s, k);
      SubjectsAfterSet(p, s, key, value, k);
    }
  }

  lemma EqualityRemoved(d: Delta<EqualityKey, PropertySubject>, base: map<EqualityKey, set<PropertySubject>>,
      p: Properties, s: PropertySubject, key: u64, value: PropertyValue)
    requires EqualityShows(d, base, p) && ValueOf(p, s, key) == Some(value)
    ensures EqualityShows(d.Remove((key, value), s), base, p - {(s, key)})
  {
    hide Delta.Add, Delta.Remove, Delta.Merged, DeltaOk;
    DeltaKept(d, (key, value), s);
    var after := p - {(s, key)};
    forall k ensures d.Remove((key, value), s).Merged(base, k) == SubjectsWith(after, k) {
      DeltaStep(d, base, (key, value), s, k);
      assert SubjectsWith(after, k) == SubjectsWith(p, k) - (if k == (key, value) then {s} else {});
    }
  }

  lemma IncidenceGone(incidences: map<u64, Ends>, i: u64, k: u64)
    requires i in incidences
    ensures IncidencesOfElement(incidences - {i}, k) ==
      IncidencesOfElement(incidences, k) - (if k == incidences[i].element then {i} else {})
    ensures IncidencesOfRelation(incidences - {i}, k) ==
      IncidencesOfRelation(incidences, k) - (if k == incidences[i].relation then {i} else {})
  {
  }

  /** An incidence moved to another element would stay in the posting of the first. */
  lemma ElementEndStale(d: Delta<u64, u64>, base: map<u64, set<u64>>, incidences: map<u64, Ends>, i: u64, ends: Ends)
    requires ElementEndsShow(d, base, incidences) && i in incidences && incidences[i].element != ends.element
    ensures !ElementEndsShow(d.Add(ends.element, i), base, incidences[i := ends])
  {
    var first := incidences[i].element;
    DeltaStep(d, base, ends.element, i, first);
    assert i in d.Merged(base, first) && i !in IncidencesOfElement(incidences[i := ends], first);
  }

  lemma ElementEndAdded(d: Delta<u64, u64>, base: map<u64, set<u64>>, incidences: map<u64, Ends>, i: u64, ends: Ends)
    requires ElementEndsShow(d, base, incidences)
    ensures ElementEndsShow(d.Add(ends.element, i), base, incidences[i := ends]) <==>
      i !in incidences || incidences[i].element == ends.element
  {
    hide Delta.Add, Delta.Remove, Delta.Merged, DeltaOk;
    if i in incidences && incidences[i].element != ends.element {
      ElementEndStale(d, base, incidences, i, ends);
      return;
    }
    DeltaKept(d, ends.element, i);
    forall k ensures d.Add(ends.element, i).Merged(base, k) == IncidencesOfElement(incidences[i := ends], k) {
      DeltaStep(d, base, ends.element, i, k);
      assert IncidencesOfElement(incidences[i := ends], k) ==
        IncidencesOfElement(incidences, k) + (if k == ends.element then {i} else {});
    }
  }

  lemma ElementEndRemoved(d: Delta<u64, u64>, base: map<u64, set<u64>>, incidences: map<u64, Ends>, i: u64)
    requires ElementEndsShow(d, base, incidences) && i in incidences
    ensures ElementEndsShow(d.Remove(incidences[i].element, i), base, incidences - {i})
  {
    var element := incidences[i].element;
    hide Delta.Add, Delta.Remove, Delta.Merged, DeltaOk, IncidencesOfElement;
    DeltaKept(d, element, i);
    forall k ensures d.Remove(element, i).Merged(base, k) == IncidencesOfElement(incidences - {i}, k) {
      DeltaStep(d, base, element, i, k);
      IncidenceGone(incidences, i, k);
    }
  }

  /** An incidence moved to another relation would stay in the posting of the first. */
  lemma RelationEndStale(d: Delta<u64, u64>, base: map<u64, set<u64>>, incidences: map<u64, Ends>, i: u64, ends: Ends)
    requires RelationEndsShow(d, base, incidences) && i in incidences && incidences[i].relation != ends.relation
    ensures !RelationEndsShow(d.Add(ends.relation, i), base, incidences[i := ends])
  {
    var first := incidences[i].relation;
    DeltaStep(d, base, ends.relation, i, first);
    assert i in d.Merged(base, first) && i !in IncidencesOfRelation(incidences[i := ends], first);
  }

  lemma RelationEndAdded(d: Delta<u64, u64>, base: map<u64, set<u64>>, incidences: map<u64, Ends>, i: u64, ends: Ends)
    requires RelationEndsShow(d, base, incidences)
    ensures RelationEndsShow(d.Add(ends.relation, i), base, incidences[i := ends]) <==>
      i !in incidences || incidences[i].relation == ends.relation
  {
    hide Delta.Add, Delta.Remove, Delta.Merged, DeltaOk;
    if i in incidences && incidences[i].relation != ends.relation {
      RelationEndStale(d, base, incidences, i, ends);
      return;
    }
    DeltaKept(d, ends.relation, i);
    forall k ensures d.Add(ends.relation, i).Merged(base, k) == IncidencesOfRelation(incidences[i := ends], k) {
      DeltaStep(d, base, ends.relation, i, k);
      assert IncidencesOfRelation(incidences[i := ends], k) ==
        IncidencesOfRelation(incidences, k) + (if k == ends.relation then {i} else {});
    }
  }

  lemma RelationEndRemoved(d: Delta<u64, u64>, base: map<u64, set<u64>>, incidences: map<u64, Ends>, i: u64)
    requires RelationEndsShow(d, base, incidences) && i in incidences
    ensures RelationEndsShow(d.Remove(incidences[i].relation, i), base, incidences - {i})
  {
    var relation := incidences[i].relation;
    hide Delta.Add, Delta.Remove, Delta.Merged, DeltaOk, IncidencesOfRelation;
    DeltaKept(d, relation, i);
    forall k ensures d.Remove(relation, i).Merged(base, k) == IncidencesOfRelation(incidences - {i}, k) {
      DeltaStep(d, base, relation, i, k);
      IncidenceGone(incidences, i, k);
    }
  }

  class OverlayIndex {
    var labels: Delta<u64, u64>
    var types: Delta<u64, u64>
    var equality: Delta<EqualityKey, PropertySubject>
    var ofElement: Delta<u64, u64>
    var ofRelation: Delta<u64, u64>

    /** Every visible posting equals the scan of `r` it stands for. */
    ghost predicate Agrees(base: BaseIndex, r: Records)
      reads this
    {
      && LabelsShow(labels, base.labelMembers, r.elements)
      && TypesShow(types, base.relationTypeMembers, r.relations)
      && EqualityShows(equality, base.propertyEquality, r.properties)
      && ElementEndsShow(ofElement, base.elementIncidences, r.incidences)
      && RelationEndsShow(ofRelation, base.relationIncidences, r.incidences)
    }

    constructor ()
      ensures forall base, r :: IsIndexOf(base, r) ==> Agrees(base, r)
    {
      labels, types, ofElement, ofRelation := Delta(map[], map[]), Delta(map[], map[]), Delta(map[], map[]), Delta(map[], map[]);
      equality := Delta(map[], map[]);
    }

    /** A copy that later mutations of either leave apart. */
    constructor Clone(parent: OverlayIndex)
      ensures labels == parent.labels && types == parent.types && equality == parent.equality
      ensures ofElement == parent.ofElement && ofRelation == parent.ofRelation
    {
      labels, types, equality := parent.labels, parent.types, parent.equality;
      ofElement, ofRelation := parent.ofElement, parent.ofRelation;
    }

    method AddEquality(subject: PropertySubject, key: u64, value: PropertyValue,
        ghost base: map<EqualityKey, set<PropertySubject>>, ghost p: Properties)
      requires EqualityShows(equality, base, p)
      requires ValueOf(p, subject, key) in {None, Some(value)}
      modifies `equality
      ensures EqualityShows(equality, base, p[(subject, key) := value])
    {
      hide EqualityShows;
      EqualityAdded(equality, base, p, subject, key, value);
      equality := equality.Add((key, value), subject);
    }

    method RemoveEquality(subject: PropertySubject, key: u64, value: PropertyValue,
        ghost base: map<EqualityKey, set<PropertySubject>>, ghost p: Properties)
      requires EqualityShows(equality, base, p)
      requires ValueOf(p, subject, key) == Some(value)
      modifies `equality
      ensures EqualityShows(equality, base, p - {(subject, key)})
    {
      hide EqualityShows;
      EqualityRemoved(equality, base, p, subject, key, value);
      equality := equality.Remove((key, value), subject);
    }

    /** `previous` must be the value visible before the set. */
    method OnSetProperty(subject: PropertySubject, key: u64, previous: Option<PropertyValue>, value: PropertyValue,
        ghost base: BaseIndex, ghost r: Records)
      requires Agrees(base, r) && previous == ValueOf(r.properties, subject, key)
      modifies `equality
      ensures Agrees(base, r.(properties := r.properties[(subject, key) := value]))
    {
      hide LabelsShow, TypesShow, EqualityShows, ElementEndsShow, RelationEndsShow;
      ghost var p := r.properties;
      if previous.Some? && previous.value != value {
        RemoveEquality(subject, key, previous.value, base.propertyEquality, p);
        p := p - {(subject, key)};
      }
      AddEquality(subject, key, value, base.propertyEquality, p);
      assert p[(subject, key) := value] == r.properties[(subject, key) := value];
    }

    method OnRemoveProperty(subject: PropertySubject, key: u64, previous: Option<PropertyValue>,
        ghost base: BaseIndex, ghost r: Records)
      requires Agrees(base, r) && previous == ValueOf(r.properties, subject, key)
      modifies `equality
      ensures Agrees(base, r.(properties := r.properties - {(subject, key)}))
    {
      hide LabelsShow, TypesShow, EqualityShows, ElementEndsShow, RelationEndsShow;
      if previous.Some? {
        RemoveEquality(subject, key, previous.value, base.propertyEquality, r.properties);
      } else {
        assert r.properties - {(subject, key)} == r.properties;
      }
    }

    method OnAddElementLabel(element: u64, labelId: u64, ghost base: BaseIndex, ghost r: Records)
      requires Agrees(base, r) && element in r.elements
      modifies `labels
      ensures Agrees(base, r.(elements := r.elements[element := r.elements[element] + {labelId}]))
    {
      hide LabelsShow, TypesShow, EqualityShows, ElementEndsShow, RelationEndsShow;
      LabelAdded(labels, base.labelMembers, r.elements, element, labelId);
      labels := labels.Add(labelId, element);
    }

    method OnCreateIncidence(incidence: u64, relation: u64, element: u64, ghost ends: Ends, ghost base: BaseIndex,
        ghost r: Records)
      requires Agrees(base, r) && ends.relation == relation && ends.element == element
      modifies `ofElement, `ofRelation
      ensures Agrees(base, r.(incidences := r.incidences[incidence := ends]))
        <==> incidence !in r.incidences || SameEnds(r.incidences[incidence], ends)
    {
      hide LabelsShow, TypesShow, EqualityShows, ElementEndsShow, RelationEndsShow;
      ElementEndAdded(ofElement, base.elementIncidences, r.incidences, incidence, ends);
      RelationEndAdded(ofRelation, base.relationIncidences, r.incidences, incidence, ends);
      ofElement := ofElement.Add(element, incidence);
      ofRelation := ofRelation.Add(relation, incidence);
    }

    method RemoveRelationType(relation: u64, relationType: u64, ghost base: map<u64, set<u64>>,
        ghost relations: map<u64, RelationKind>)
      requires TypesShow(types, base, relations) && KindOf(relations, relation) == Typed(relationType)
      modifies `types
      ensures TypesShow(types, base, relations[relation := Untyped])
    {
      hide TypesShow;
      TypeRemoved(types, base, relations, relation, relationType);
      types := types.Remove(relationType, relation);
    }

    /** `previous` must be the type visible before the change. */
    method OnSetRelationType(relation: u64, previous: RelationKind, relationType: u64, ghost base: BaseIndex,
        ghost r: Records)
      requires Agrees(base, r) && relation in r.relations && previous == r.relations[relation]
      modifies `types
      ensures Agrees(base, r.(relations := r.relations[relation := Typed(relationType)]))
    {
      hide LabelsShow, TypesShow, EqualityShows, ElementEndsShow, RelationEndsShow;
      ghost var relations: map<u64, RelationKind> := r.relations;
      if previous.Typed? && previous.relationType != relationType {
        RemoveRelationType(relation, previous.relationType, base.relationTypeMembers, relations);
        relations := relations[relation := Untyped];
      }
      TypeAdded(types, base.relationTypeMembers, relations, relation, relationType);
      types := types.Add(relationType, relation);
      assert relations[relation := Typed(relationType)] == r.relations[relation := Typed(relationType)];
    }

    /** Withdraws every posting `subject` carries. */
    method WithdrawSubjectProperties(subject: PropertySubject, properties: map<u64, PropertyValue>,
        ghost base: map<EqualityKey, set<PropertySubject>>, ghost p: Properties)
      requires EqualityShows(equality, base, p) && properties == PropertiesOf(p, subject)
      modifies `equality
      ensures EqualityShows(equality, base, Stripped(p, subject))
    {
      hide EqualityShows;
      var rest := properties.Keys;
      ghost var left := p;
      while rest != {}
        invariant rest <= properties.Keys
        invariant EqualityShows(equality, base, left)
        invariant left.Keys <= p.Keys && forall x :: x in left ==> left[x] == p[x]
        invariant forall x :: x in p ==> (x in left <==> x.0 != subject || x.1 in rest)
        decreases |rest|
      {
        var key :| key in rest;
        RemoveEquality(subject, key, properties[key], base, left);
        left := left - {(subject, key)};
        rest := rest - {key};
      }
      assert left == Stripped(p, subject);
    }

    method OnTombstoneElement(element: u64, carried: set<u64>, properties: map<u64, PropertyValue>,
        ghost base: BaseIndex, ghost r: Records)
      requires Agrees(base, r) && carried == LabelsOf(r.elements, element)
      requires properties == PropertiesOf(r.properties, Element(element))
      modifies `labels, `equality
      ensures Agrees(base, r.(elements := r.elements - {element}, properties := Stripped(r.properties, Element(element))))
    {
      hide LabelsShow, TypesShow, EqualityShows, ElementEndsShow, RelationEndsShow;
      var rest := carried;
      ghost var left: map<u64, set<u64>> := r.elements;
      while rest != {}
        invariant equality == old(equality)
        invariant rest == LabelsOf(left, element)
        invariant LabelsShow(labels, base.labelMembers, left)
        invariant left - {element} == r.elements - {element}
        decreases |rest|
      {
        var labelId :| labelId in rest;
        LabelRemoved(labels, base.labelMembers, left, element, labelId);
        labels := labels.Remove(labelId, element);
        rest := rest - {labelId};
        left := left[element := rest];
      }
      UnlabelledRemoved(labels, base.labelMembers, left, element);
      WithdrawSubjectProperties(Element(element), properties, base.propertyEquality, r.properties);
    }

    method OnTombstoneRelation(relation: u64, kind: RelationKind, properties: map<u64, PropertyValue>,
        ghost base: BaseIndex, ghost r: Records)
      requires Agrees(base, r) && kind == KindOf(r.relations, relation)
      requires properties == PropertiesOf(r.properties, Relation(relation))
      modifies `types, `equality
      ensures Agrees(base, r.(relations := r.relations - {relation}, properties := Stripped(r.properties, Relation(relation))))
    {
      hide LabelsShow, TypesShow, EqualityShows, ElementEndsShow, RelationEndsShow;
      ghost var left: map<u64, RelationKind> := r.relations;
      if kind.Typed? {
        RemoveRelationType(relation, kind.relationType, base.relationTypeMembers, r.relations);
        left := left[relation := Untyped];
      }
      UntypedRemoved(types, base.relationTypeMembers, left, relation);
      assert left - {relation} == r.relations - {relation};
      WithdrawSubjectProperties(Relation(relation), properties, base.propertyEquality, r.properties);
    }

    method OnTombstoneIncidence(incidence: u64, relation: u64, element: u64, properties: map<u64, PropertyValue>,
        ghost base: BaseIndex, ghost r: Records)
      requires Agrees(base, r) && incidence in r.incidences
      requires r.incidences[incidence].relation == relation && r.incidences[incidence].element == element
      requires properties == PropertiesOf(r.properties, Incidence(incidence))
      modifies `ofElement, `ofRelation, `equality
      ensures Agrees(base,
        r.(incidences := r.incidences - {incidence}, properties := Stripped(r.properties, Incidence(incidence))))
    {
      hide LabelsShow, TypesShow, EqualityShows, ElementEndsShow, RelationEndsShow;
      ElementEndRemoved(ofElement, base.elementIncidences, r.incidences, incidence);
      RelationEndRemoved(ofRelation, base.relationIncidences, r.incidences, incidence);
      ofElement := ofElement.Remove(element, incidence);
      ofRelation := ofRelation.Remove(relation, incidence);
      WithdrawSubjectProperties(Incidence(incidence), properties, base.propertyEquality, r.properties);
    }

    // ----- lookups

    method ElementsWith(base: BaseIndex, labelId: u64, ghost r: Records) returns (out: seq<u64>)
      requires Agrees(base, r)
      ensures Lists(out, ElementsWithLabel(r.elements, labelId), IdLess)
    {
      out := Listing(labels.Merged(base.labelMembers, labelId), IdLess);
    }

    method RelationsWith(base: BaseIndex, relationType: u64, ghost r: Records) returns (out: seq<u64>)
      requires Agrees(base, r)
      ensures Lists(out, RelationsWithType(r.relations, relationType), IdLess)
    {
      out := Listing(types.Merged(base.relationTypeMembers, relationType), IdLess);
    }

    method ElementIncidences(base: BaseIndex, element: u64, ghost r: Records) returns (out: seq<u64>)
      requires Agrees(base, r)
      ensures Lists(out, IncidencesOfElement(r.incidences, element), IdLess)
    {
      out := Listing(ofElement.Merged(base.elementIncidences, element), IdLess);
    }

    method RelationIncidences(base: BaseIndex, relation: u64, ghost r: Records) returns (out: seq<u64>)
      requires Agrees(base, r)
      ensures Lists(out, IncidencesOfRelation(r.incidences, relation), IdLess)
    {
      out := Listing(ofRelation.Merged(base.relationIncidences, relation), IdLess);
    }

    method PropertyEqual(base: BaseIndex, key: u64, value: PropertyValue, ghost r: Records)
      returns (out: seq<PropertySubject>)
      requires Agrees(base, r)
      ensures Lists(out, SubjectsWith(r.properties, (key, value)), SubjectLess)
    {
      SubjectOrder();
      out := Listing(equality.Merged(base.propertyEquality, (key, value)), SubjectLess);
    }

    /** The subjects whose value under `key` lies in `[min, max]`. */
    method PropertyRange(base: BaseIndex, key: u64, min: PropertyValue, max: PropertyValue, ghost r: Records)
      returns (out: seq<PropertySubject>)
      requires Agrees(base, r)
      ensures Lists(out, SubjectsInRange(r.properties, key, min, max), SubjectLess)
      ensures forall s :: s in out <==> Between(r.properties, s, key, min, max)
    {
      RangeIsBetween(r.properties, key, min, max);
      hide LabelsShow, TypesShow, EqualityShows, ElementEndsShow, RelationEndsShow, Lists;
      if ValueLess(max, min) {
        NothingInRange(r.properties, key, min, max);
        return [];
      }
      var postings := RangePostings(base.propertyEquality, key, min, max);
      var kept := KeptSubjects(postings, base.propertyEquality, equality.removed, KeysInRange(base.propertyEquality,
        key, min, max));
      var joined := JoinedSubjects(equality.added, KeysInRange(equality.added, key, min, max));
      RangeIsGathered(equality, base.propertyEquality, r.properties, key, min, max, kept, joined);
      SubjectOrder();
      out := Listing(kept + joined, SubjectLess);
    }

    /** Every subject with a value under `key`, with that value, ascending by subject. */
    method PropertyKeySubjects(base: BaseIndex, key: u64, ghost r: Records)
      returns (out: seq<(PropertySubject, PropertyValue)>)
      requires Agrees(base, r)
      ensures forall i, j :: 0 <= i < j < |out| ==> SubjectLess(out[i].0, out[j].0)
      ensures forall s, v :: (s, v) in out <==> Carries(r.properties, s, key, v)
    {
      hide LabelsShow, TypesShow, EqualityShows, ElementEndsShow, RelationEndsShow, Lists;
      var postings := KeyPostings(base.propertyEquality, key);
      var visible := KeptValues(postings, equality, base.propertyEquality, key, r.properties);
      visible := JoinedValues(visible, equality, base.propertyEquality, key, r.properties);
      KeyIsGathered(equality, base.propertyEquality, r.properties, key, visible);
      out := PairsOf(visible);
    }

    /** The subjects carrying every pair; none when `pairs` is empty. */
    method PropertyCompositeEqual(base: BaseIndex, pairs: seq<EqualityKey>, ghost r: Records)
      returns (out: seq<PropertySubject>)
      requires Agrees(base, r)
      ensures Lists(out, CarryingAll(r.properties, pairs), SubjectLess)
      ensures forall s :: s in out <==> pairs != [] && forall pair :: pair in pairs ==> Carries(r.properties, s, pair.0, pair.1)
    {
      hide LabelsShow, TypesShow, EqualityShows, ElementEndsShow, RelationEndsShow;
      var perKey: seq<set<PropertySubject>> := [];
      for i := 0 to |pairs|
        invariant |perKey| == i
        invariant forall j :: 0 <= j < i ==> perKey[j] == SubjectsWith(r.properties, pairs[j])
      {
        var subjects := PropertyEqual(base, pairs[i].0, pairs[i].1, r);
        var posting := set s | s in subjects;
        assert posting == SubjectsWith(r.properties, pairs[i]);
        perKey := perKey + [posting];
      }
      if perKey == [] {
        return [];
      }
      var common := Intersection(perKey);
      forall s ensures s in common <==> s in CarryingAll(r.properties, pairs) {
        assert forall i :: 0 <= i < |pairs| ==> perKey[i] in perKey;
      }
      SubjectOrder();
      out := Listing(common, SubjectLess);
    }
  }

  function CarryingAll(p: Properties, pairs: seq<EqualityKey>): (subjects: set<PropertySubject>)
    ensures pairs == [] ==> subjects == {}
    ensures pairs != [] ==> forall s :: s in subjects <==> forall i :: 0 <= i < |pairs| ==> s in SubjectsWith(p, pairs[i])
  {
    if pairs == [] then {}
    else set s | s in SubjectsWith(p, pairs[0]) && forall i :: 0 <= i < |pairs| ==> s in SubjectsWith(p, pairs[i])
  }

  predicate BySize<T>(sets: seq<set<T>>) {
    forall i, j :: 0 <= i < j < |sets| ==> |sets[i]| <= |sets[j]|
  }

  /** Places `posting` after every one no larger than it. */
  function InsertBySize<T(!new)>(sets: seq<set<T>>, posting: set<T>): (sorted: seq<set<T>>)
    requires BySize(sets)
    ensures BySize(sorted)
    ensures forall a :: a in sorted <==> a in sets || a == posting
  {
    if sets == [] || |sets[0]| > |posting| then [posting] + sets
    else
      var rest := InsertBySize(sets[1..], posting);
      assert forall i :: 0 <= i < |rest| ==> rest[i] in rest;
      assert sets == [sets[0]] + sets[1..];
      [sets[0]] + rest
  }

  /** Intersects smallest-first, stopping once nothing is left. */
  method Intersection<T(!new, ==)>(sets: seq<set<T>>) returns (common: set<T>)
    requires sets != []
    ensures forall x :: x in common <==> forall a :: a in sets ==> x in a
  {
    var sorted := [];
    for n := 0 to |sets|
      invariant BySize(sorted) && (n > 0 ==> sorted != [])
      invariant forall a :: a in sorted <==> a in sets[..n]
    {
      assert sets[..n + 1] == sets[..n] + [sets[n]];
      sorted := InsertBySize(sorted, sets[n]);
      assert sets[n] in sorted;
    }
    assert sets[..|sets|] == sets;
    common := sorted[0];
    var i := 1;
    while i < |sorted| && common != {}
      invariant 1 <= i <= |sorted|
      invariant forall x :: x in common <==> forall a :: a in sorted[..i] ==> x in a
    {
      assert sorted[..i + 1] == sorted[..i] + [sorted[i]];
      common := set x | x in common && x in sorted[i];
      i := i + 1;
    }
    forall x ensures x in common <==> forall a :: a in sets ==> x in a {
      if common == {} {
        assert x !in common;
        var a :| a in sorted[..i] && x !in a;
        assert a in sorted;
      } else {
        assert sorted[..i] == sorted;
      }
    }
  }

  /** The kept base values of `key`: each base posting masked by the overlay's removals from it. */
  method KeptValues(postings: seq<(EqualityKey, seq<PropertySubject>)>, d: Delta<EqualityKey, PropertySubject>,
      base: map<EqualityKey, set<PropertySubject>>, key: u64, ghost p: Properties)
    returns (visible: map<PropertySubject, PropertyValue>)
    requires ListsPostings(postings, base, KeysOf(base, key)) && EqualityShows(d, base, p)
    ensures forall s :: s in visible ==> Carries(p, s, key, visible[s])
    ensures forall k, s :: k in KeysOf(base, key) && s in Posting(base, k) && s !in Posting(d.removed, k) ==> s in visible
  {
    visible := map[];
    for i := 0 to |postings|
      invariant forall s :: s in visible ==> Carries(p, s, key, visible[s])
      invariant forall j, s :: 0 <= j < i && s in Posting(base, postings[j].0) && s !in Posting(d.removed, postings[j].0) ==>
        s in visible
    {
      var k := postings[i].0;
      var gone := Posting(d.removed, k);
      var kept := map s | s in postings[i].1 && s !in gone :: k.1;
      assert forall s :: s in kept ==> s in d.Merged(base, k);
      visible := visible + kept;
    }
  }

  /** Joins the overlay's additions under `key`. */
  method JoinedValues(kept: map<PropertySubject, PropertyValue>, d: Delta<EqualityKey, PropertySubject>,
      ghost base: map<EqualityKey, set<PropertySubject>>, key: u64, ghost p: Properties)
    returns (visible: map<PropertySubject, PropertyValue>)
    requires EqualityShows(d, base, p)
    requires forall s :: s in kept ==> Carries(p, s, key, kept[s])
    ensures kept.Keys <= visible.Keys
    ensures forall s :: s in visible ==> Carries(p, s, key, visible[s])
    ensures forall k, s :: k in KeysOf(d.added, key) && s in d.added[k] ==> s in visible
  {
    visible := kept;
    var rest := KeysOf(d.added, key);
    while rest != {}
      invariant rest <= KeysOf(d.added, key) && kept.Keys <= visible.Keys
      invariant forall s :: s in visible ==> Carries(p, s, key, visible[s])
      invariant forall k, s :: k in KeysOf(d.added, key) - rest && s in d.added[k] ==> s in visible
      decreases |rest|
    {
      var k :| k in rest;
      var joined := map s | s in d.added[k] :: k.1;
      assert forall s :: s in joined ==> s in d.Merged(base, k);
      visible := visible + joined;
      rest := rest - {k};
    }
  }

  lemma KeyIsGathered(d: Delta<EqualityKey, PropertySubject>, base: map<EqualityKey, set<PropertySubject>>,
      p: Properties, key: u64, visible: map<PropertySubject, PropertyValue>)
    requires EqualityShows(d, base, p)
    requires forall s :: s in visible ==> Carries(p, s, key, visible[s])
    requires forall k, s :: k in KeysOf(base, key) && s in Posting(base, k) && s !in Posting(d.removed, k) ==> s in visible
    requires forall k, s :: k in KeysOf(d.added, key) && s in d.added[k] ==> s in visible
    ensures forall s, v :: s in visible && visible[s] == v <==> Carries(p, s, key, v)
  {
    forall s, v | Carries(p, s, key, v) ensures s in visible && visible[s] == v {
      assert s in d.Merged(base, (key, v));
      assert (key, v) in KeysOf(base, key) || (key, v) in KeysOf(d.added, key);
    }
  }

  /** Iterates an ordered map. */
  method PairsOf(visible: map<PropertySubject, PropertyValue>) returns (out: seq<(PropertySubject, PropertyValue)>)
    ensures forall i, j :: 0 <= i < j < |out| ==> SubjectLess(out[i].0, out[j].0)
    ensures forall s, v :: (s, v) in out <==> s in visible && visible[s] == v
  {
    SubjectOrder();
    var subjects := Listing(visible.Keys, SubjectLess);
    out := seq(|subjects|, i requires 0 <= i < |subjects| => (subjects[i], visible[subjects[i]]));
    forall s | s in visible ensures (s, visible[s]) in out {
      assert s in subjects;
      var i :| 0 <= i < |subjects| && subjects[i] == s;
      assert out[i] == (s, visible[s]);
    }
  }

  function SubjectsInRange(p: Properties, key: u64, min: PropertyValue, max: PropertyValue): (subjects: set<PropertySubject>)
    ensures forall s :: s in subjects <==> (s, key) in p && InRange((key, p[(s, key)]), key, min, max)
  {
    set x | x in p && x.1 == key && InRange((key, p[x]), key, min, max) :: x.0
  }

  /** The subject has a value of the key that is neither below the one bound nor above the other. */
  predicate Between(p: Properties, s: PropertySubject, key: u64, min: PropertyValue, max: PropertyValue) {
    (s, key) in p && !ValueLess(p[(s, key)], min) && !ValueLess(max, p[(s, key)])
  }

  lemma RangeIsBetween(p: Properties, key: u64, min: PropertyValue, max: PropertyValue)
    ensures forall s :: s in SubjectsInRange(p, key, min, max) <==> Between(p, s, key, min, max)
  {
    ValueOrder();
  }

  lemma NothingInRange(p: Properties, key: u64, min: PropertyValue, max: PropertyValue)
    requires ValueLess(max, min)
    ensures Lists([], SubjectsInRange(p, key, min, max), SubjectLess)
  {
    ValueOrder();
    assert forall k :: !InRange(k, key, min, max);
  }

  /** `s` is in the posting of one of `keys` and not removed from it. */
  ghost predicate FoundIn(s: PropertySubject, keys: set<EqualityKey>, m: map<EqualityKey, set<PropertySubject>>,
      removed: map<EqualityKey, set<PropertySubject>>) {
    exists k :: k in keys && s in Posting(m, k) && s !in Posting(removed, k)
  }

  /** Base postings, each masked by the overlay's removals from it. */
  method KeptSubjects(postings: seq<(EqualityKey, seq<PropertySubject>)>, m: map<EqualityKey, set<PropertySubject>>,
      removed: map<EqualityKey, set<PropertySubject>>, ghost keys: set<EqualityKey>)
    returns (visible: set<PropertySubject>)
    requires ListsPostings(postings, m, keys)
    ensures forall s :: s in visible <==> FoundIn(s, keys, m, removed)
  {
    visible := {};
    for i := 0 to |postings|
      invariant forall s :: s in visible ==> FoundIn(s, keys, m, removed)
      invariant forall j, s :: 0 <= j < i && s in Posting(m, postings[j].0) && s !in Posting(removed, postings[j].0) ==>
        s in visible
    {
      var gone := Posting(removed, postings[i].0);
      visible := visible + set s | s in postings[i].1 && s !in gone;
    }
  }

  /** Every posting of `m` at `keys`. */
  method JoinedSubjects(m: map<EqualityKey, set<PropertySubject>>, keys: set<EqualityKey>)
    returns (visible: set<PropertySubject>)
    requires keys <= m.Keys
    ensures forall s :: s in visible <==> FoundIn(s, keys, m, map[])
  {
    visible := {};
    var rest := keys;
    while rest != {}
      invariant rest <= keys
      invariant forall s :: s in visible ==> FoundIn(s, keys, m, map[])
      invariant forall k, s :: k in keys - rest && s in Posting(m, k) ==> s in visible
      decreases |rest|
    {
      var k :| k in rest;
      visible := visible + m[k];
      rest := rest - {k};
    }
  }

  /** Masking the base postings in range and joining the additions in range is the merged range. */
  lemma RangeIsGathered(d: Delta<EqualityKey, PropertySubject>, base: map<EqualityKey, set<PropertySubject>>, p: Properties,
      key: u64, min: PropertyValue, max: PropertyValue, kept: set<PropertySubject>, joined: set<PropertySubject>)
    requires EqualityShows(d, base, p)
    requires forall s :: s in kept <==> FoundIn(s, KeysInRange(base, key, min, max), base, d.removed)
    requires forall s :: s in joined <==> FoundIn(s, KeysInRange(d.added, key, min, max), d.added, map[])
    ensures kept + joined == SubjectsInRange(p, key, min, max)
  {
    hide EqualityShows, FoundIn, SubjectsInRange, KeysInRange;
    forall s ensures s in kept + joined <==> s in SubjectsInRange(p, key, min, max) {
      FoundIsInRange(d, base, p, key, min, max, s);
      if s in SubjectsInRange(p, key, min, max) {
        InRangeIsFound(d, base, p, key, min, max, s);
      }
    }
  }

  lemma FoundIsInRange(d: Delta<EqualityKey, PropertySubject>, base: map<EqualityKey, set<PropertySubject>>, p: Properties,
      key: u64, min: PropertyValue, max: PropertyValue, s: PropertySubject)
    requires EqualityShows(d, base, p)
    ensures FoundIn(s, KeysInRange(base, key, min, max), base, d.removed) ==> s in SubjectsInRange(p, key, min, max)
    ensures FoundIn(s, KeysInRange(d.added, key, min, max), d.added, map[]) ==> s in SubjectsInRange(p, key, min, max)
  {
    hide ValueAtMost;
    if FoundIn(s, KeysInRange(base, key, min, max), base, d.removed) {
      var k :| k in base && InRange(k, key, min, max) && s in Posting(base, k) && s !in Posting(d.removed, k);
      assert s in d.Merged(base, k);
    }
    if FoundIn(s, KeysInRange(d.added, key, min, max), d.added, map[]) {
      var k :| k in d.added && InRange(k, key, min, max) && s in Posting(d.added, k);
      assert s in d.Merged(base, k);
    }
  }

  lemma InRangeIsFound(d: Delta<EqualityKey, PropertySubject>, base: map<EqualityKey, set<PropertySubject>>, p: Properties,
      key: u64, min: PropertyValue, max: PropertyValue, s: PropertySubject)
    requires EqualityShows(d, base, p) && s in SubjectsInRange(p, key, min, max)
    ensures FoundIn(s, KeysInRange(base, key, min, max), base, d.removed) ||
      FoundIn(s, KeysInRange(d.added, key, min, max), d.added, map[])
  {
    hide ValueAtMost;
    var k := (key, p[(s, key)]);
    assert s in SubjectsWith(p, k);
    assert s in d.Merged(base, k);
    if s in Posting(base, k) {
      assert k in KeysInRange(base, key, min, max);
    } else {
      assert k in KeysInRange(d.added, key, min, max) && k in d.added;
    }
  }
}
