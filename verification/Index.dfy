/** Derived postings and the overlay's incremental deltas over them (`oxgraph-db/src/index.rs`). */
module Index {
  import opened Bytes
  import opened Ordered
  import opened Values

  // ----- records and what a scan of them finds

  /** The visible records: element labels, relation types, incidence endpoints, and properties. */
  datatype Records = Records(
    elements: map<u64, set<u64>>,
    relations: map<u64, RelationKind>,
    incidences: map<u64, Ends>,
    properties: Properties)

  type Properties = map<(PropertySubject, u64), PropertyValue>

  datatype RelationKind = Untyped | Typed(relationType: u64)

  datatype Ends = Ends(relation: u64, element: u64, role: u64)

  /** The same relation and element, whatever the role: what adjacency sees of an incidence. */
  predicate SameEnds(a: Ends, b: Ends) {
    a.relation == b.relation && a.element == b.element
  }

  function ElementsWithLabel(elements: map<u64, set<u64>>, labelId: u64): set<u64> {
    set e | e in elements && labelId in elements[e]
  }

  function RelationsWithType(relations: map<u64, RelationKind>, relationType: u64): set<u64> {
    set x | x in relations && relations[x] == Typed(relationType)
  }

  function IncidencesOfElement(incidences: map<u64, Ends>, element: u64): set<u64> {
    set i | i in incidences && incidences[i].element == element
  }

  function IncidencesOfRelation(incidences: map<u64, Ends>, relation: u64): set<u64> {
    set i | i in incidences && incidences[i].relation == relation
  }

  predicate Carries(p: Properties, s: PropertySubject, key: u64, value: PropertyValue) {
    (s, key) in p && p[(s, key)] == value
  }

  function SubjectsWith(p: Properties, pair: EqualityKey): (subjects: set<PropertySubject>)
    ensures forall s :: s in subjects <==> Carries(p, s, pair.0, pair.1)
  {
    set x | x in p && x.1 == pair.0 && Carries(p, x.0, pair.0, pair.1) :: x.0
  }

  // ----- posting maps

  /** The posting at `k`; an absent key has an empty posting. */
  function Posting<K, M>(m: map<K, set<M>>, k: K): set<M> {
    if k in m then m[k] else {}
  }

  /** No key is kept for an empty posting. */
  ghost predicate NoEmpty<K(!new), M>(m: map<K, set<M>>) {
    forall k :: k in m ==> m[k] != {}
  }

  /** Joins `member` to the posting at `k`. */
  function Inserted<K, M>(m: map<K, set<M>>, k: K, member: M): map<K, set<M>> {
    m[k := Posting(m, k) + {member}]
  }

  /** Takes `member` out of the posting at `k`, dropping the posting when it becomes empty. */
  function RemovePosting<K, M>(m: map<K, set<M>>, k: K, member: M): map<K, set<M>> {
    if k !in m || member !in m[k] then m
    else if m[k] == {member} then m - {k}
    else m[k := m[k] - {member}]
  }

  lemma PostingFacts<K(!new), M(!new)>(m: map<K, set<M>>, k: K, member: M)
    ensures forall q :: Posting(Inserted(m, k, member), q) == Posting(m, q) + (if q == k then {member} else {})
    ensures forall q :: Posting(RemovePosting(m, k, member), q) == Posting(m, q) - (if q == k then {member} else {})
    ensures NoEmpty(m) ==> NoEmpty(Inserted(m, k, member)) && NoEmpty(RemovePosting(m, k, member))
  {
  }

  /** The overlay's additions to and removals from one family of base postings. */
  datatype Delta<K, M> = Delta(added: map<K, set<M>>, removed: map<K, set<M>>) {

    function Add(k: K, member: M): Delta<K, M> {
      Delta(Inserted(added, k, member), RemovePosting(removed, k, member))
    }

    function Remove(k: K, member: M): Delta<K, M> {
      Delta(RemovePosting(added, k, member), Inserted(removed, k, member))
    }

    /** The visible posting: `(base + added) - removed`. */
    function Merged(base: map<K, set<M>>, k: K): set<M> {
      Posting(base, k) + Posting(added, k) - Posting(removed, k)
    }
  }

  /** Additions and removals of one posting are disjoint, and no empty posting is stored. */
  ghost predicate DeltaOk<K(!new), M>(d: Delta<K, M>) {
    && (forall k :: Posting(d.added, k) !! Posting(d.removed, k))
    && NoEmpty(d.added) && NoEmpty(d.removed)
  }

  /** A mutator keeps the delta well-formed. */
  lemma DeltaKept<K(!new), M(!new)>(d: Delta<K, M>, k: K, member: M)
    requires DeltaOk(d)
    ensures DeltaOk(d.Add(k, member)) && DeltaOk(d.Remove(k, member))
  {
    PostingFacts(d.added, k, member);
    PostingFacts(d.removed, k, member);
  }

  /** A mutator changes exactly one visible posting, by exactly one member. */
  lemma DeltaStep<K(!new), M(!new)>(d: Delta<K, M>, base: map<K, set<M>>, k: K, member: M, q: K)
    requires DeltaOk(d)
    ensures d.Add(k, member).Merged(base, q) == d.Merged(base, q) + (if q == k then {member} else {})
    ensures d.Remove(k, member).Merged(base, q) == d.Merged(base, q) - (if q == k then {member} else {})
  {
    PostingFacts(d.added, k, member);
    PostingFacts(d.removed, k, member);
    hide Posting, Inserted, RemovePosting;
  }

  // ----- base postings

  /** One base generation's derived postings. */
  datatype BaseIndex = BaseIndex(
    labelMembers: map<u64, set<u64>>,
    relationTypeMembers: map<u64, set<u64>>,
    propertyEquality: map<EqualityKey, set<PropertySubject>>,
    elementIncidences: map<u64, set<u64>>,
    relationIncidences: map<u64, set<u64>>)

  /** Every posting equals the scan it stands for, and no empty posting is kept. */
  ghost predicate IsIndexOf(b: BaseIndex, r: Records) {
    && (forall k :: Posting(b.labelMembers, k) == ElementsWithLabel(r.elements, k))
    && (forall k :: Posting(b.relationTypeMembers, k) == RelationsWithType(r.relations, k))
    && (forall k :: Posting(b.propertyEquality, k) == SubjectsWith(r.properties, k))
    && (forall k :: Posting(b.elementIncidences, k) == IncidencesOfElement(r.incidences, k))
    && (forall k :: Posting(b.relationIncidences, k) == IncidencesOfRelation(r.incidences, k))
    && NoEmpty(b.labelMembers) && NoEmpty(b.relationTypeMembers) && NoEmpty(b.propertyEquality)
    && NoEmpty(b.elementIncidences) && NoEmpty(b.relationIncidences)
  }

  predicate FiledUnder<K(==), M(==)>(entries: map<M, set<K>>, x: M, k: K) {
    x in entries && k in entries[x]
  }

  /** Builds one posting map by inserting every entry under each of its keys. */
  method Collect<K(!new, ==), M(!new, ==)>(entries: map<M, set<K>>) returns (m: map<K, set<M>>)
    ensures NoEmpty(m)
    ensures forall k, x :: x in Posting(m, k) <==> FiledUnder(entries, x, k)
  {
    m := map[];
    var rest := entries.Keys;
    while rest != {}
      invariant rest <= entries.Keys && NoEmpty(m)
      invariant forall k, x :: x in Posting(m, k) <==> x !in rest && FiledUnder(entries, x, k)
      decreases |rest|
    {
      var x :| x in rest;
      var keys := entries[x];
      while keys != {}
        invariant keys <= entries[x] && NoEmpty(m)
        invariant forall k, y :: y in Posting(m, k) <==>
          FiledUnder(entries, y, k) && (y !in rest || (y == x && k !in keys))
        decreases |keys|
      {
        var k :| k in keys;
        PostingFacts(m, k, x);
        m := Inserted(m, k, x);
        keys := keys - {k};
      }
      rest := rest - {x};
    }
  }

  method CollectProperties(properties: Properties) returns (m: map<EqualityKey, set<PropertySubject>>)
    ensures NoEmpty(m)
    ensures forall k, s :: s in Posting(m, k) <==> Carries(properties, s, k.0, k.1)
  {
    m := map[];
    var rest := properties.Keys;
    while rest != {}
      invariant rest <= properties.Keys && NoEmpty(m)
      invariant forall k, s :: s in Posting(m, k) <==> (s, k.0) !in rest && Carries(properties, s, k.0, k.1)
      decreases |rest|
    {
      var p :| p in rest;
      var pair := (p.1, properties[p]);
      PostingFacts(m, pair, p.0);
      m := Inserted(m, pair, p.0);
      rest := rest - {p};
    }
  }

  function TypesOf(kind: RelationKind): (types: set<u64>)
    ensures forall t :: t in types <==> kind == Typed(t)
  {
    match kind
    case Untyped => {}
    case Typed(t) => {t}
  }

  method CollectTypes(relations: map<u64, RelationKind>) returns (m: map<u64, set<u64>>)
    ensures NoEmpty(m) && forall k :: Posting(m, k) == RelationsWithType(relations, k)
  {
    var typesOf: map<u64, set<u64>> := map x | x in relations :: TypesOf(relations[x]);
    m := Collect(typesOf);
    forall k ensures Posting(m, k) == RelationsWithType(relations, k) {
      assert forall x: u64 :: x in Posting(m, k) <==> FiledUnder(typesOf, x, k);
    }
  }

  method CollectByElement(incidences: map<u64, Ends>) returns (m: map<u64, set<u64>>)
    ensures NoEmpty(m) && forall k :: Posting(m, k) == IncidencesOfElement(incidences, k)
  {
    var elementOf: map<u64, set<u64>> := map i | i in incidences :: {incidences[i].element};
    m := Collect(elementOf);
    forall k ensures Posting(m, k) == IncidencesOfElement(incidences, k) {
      assert forall x: u64 :: x in Posting(m, k) <==> FiledUnder(elementOf, x, k);
    }
  }

  method CollectByRelation(incidences: map<u64, Ends>) returns (m: map<u64, set<u64>>)
    ensures NoEmpty(m) && forall k :: Posting(m, k) == IncidencesOfRelation(incidences, k)
  {
    var relationOf: map<u64, set<u64>> := map i | i in incidences :: {incidences[i].relation};
    m := Collect(relationOf);
    forall k ensures Posting(m, k) == IncidencesOfRelation(incidences, k) {
      assert forall x: u64 :: x in Posting(m, k) <==> FiledUnder(relationOf, x, k);
    }
  }

  /** Builds a generation's postings from its records. */
  method FromRecords(r: Records) returns (b: BaseIndex)
    ensures IsIndexOf(b, r)
  {
    var labels := Collect(r.elements);
    var types := CollectTypes(r.relations);
    var equality := CollectProperties(r.properties);
    var ofElement := CollectByElement(r.incidences);
    var ofRelation := CollectByRelation(r.incidences);
    forall k: u64 ensures Posting(labels, k) == ElementsWithLabel(r.elements, k) {
      assert forall x :: x in Posting(labels, k) <==> FiledUnder(r.elements, x, k);
    }
    b := BaseIndex(labels, types, equality, ofElement, ofRelation);
  }

  // ----- ordered slices of the equality postings

  predicate InRange(k: EqualityKey, key: u64, min: PropertyValue, max: PropertyValue) {
    k.0 == key && ValueAtMost(min, k.1) && ValueAtMost(k.1, max)
  }

  function KeysInRange(m: map<EqualityKey, set<PropertySubject>>, key: u64, min: PropertyValue,
      max: PropertyValue): set<EqualityKey> {
    set k | k in m && InRange(k, key, min, max)
  }

  function KeysOf(m: map<EqualityKey, set<PropertySubject>>, key: u64): set<EqualityKey> {
    set k | k in m && k.0 == key
  }

  /** `out` holds exactly the postings of `m` at `keys`, ascending by key, each as an ascending list. */
  ghost predicate ListsPostings(out: seq<(EqualityKey, seq<PropertySubject>)>,
      m: map<EqualityKey, set<PropertySubject>>, keys: set<EqualityKey>) {
    && (forall i, j :: 0 <= i < j < |out| ==> PairLess(out[i].0, out[j].0))
    && (forall i :: 0 <= i < |out| ==> out[i].0 in keys && Lists(out[i].1, Posting(m, out[i].0), SubjectLess))
    && (forall k :: k in keys ==> exists i :: 0 <= i < |out| && out[i].0 == k)
  }

  method PostingsAt(m: map<EqualityKey, set<PropertySubject>>, keys: set<EqualityKey>)
    returns (out: seq<(EqualityKey, seq<PropertySubject>)>)
    ensures ListsPostings(out, m, keys)
  {
    PairOrder();
    SubjectOrder();
    var ascending := Listing(keys, PairLess);
    out := [];
    for i := 0 to |ascending|
      invariant |out| == i
      invariant forall j :: 0 <= j < i ==> out[j].0 == ascending[j] && Lists(out[j].1, Posting(m, ascending[j]), SubjectLess)
    {
      var subjects := Listing(Posting(m, ascending[i]), SubjectLess);
      out := out + [(ascending[i], subjects)];
    }
    forall k | k in keys ensures exists i :: 0 <= i < |out| && out[i].0 == k {
      assert k in ascending;
      var i :| 0 <= i < |ascending| && ascending[i] == k;
      assert out[i].0 == k;
    }
  }

  /** The postings of `key` with a value in `[min, max]`; none when `min > max`. */
  method RangePostings(m: map<EqualityKey, set<PropertySubject>>, key: u64, min: PropertyValue, max: PropertyValue)
    returns (out: seq<(EqualityKey, seq<PropertySubject>)>)
    ensures ListsPostings(out, m, KeysInRange(m, key, min, max))
  {
    if ValueLess(max, min) {
      ValueOrder();
      assert forall k :: !InRange(k, key, min, max);
      return [];
    }
    out := PostingsAt(m, KeysInRange(m, key, min, max));
  }

  /** Every posting of `key`. */
  method KeyPostings(m: map<EqualityKey, set<PropertySubject>>, key: u64)
    returns (out: seq<(EqualityKey, seq<PropertySubject>)>)
    ensures ListsPostings(out, m, KeysOf(m, key))
  {
    out := PostingsAt(m, KeysOf(m, key));
  }
}
