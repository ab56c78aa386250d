/** The write transaction's referential checks and cascades (`oxgraph-db/src/database/writer.rs`).

    `Integrity` says that every incidence has both its ends and that every property has its subject. A
    transaction keeps it through every operation, which is what makes each mutation it hands to the
    overlay a tracked one: creations draw fresh ids, and deletions take what is attached with them. A
    refused operation names what was missing and leaves the overlay as it was. */
module Writer {
  import opened Options
  import opened Bytes
  import opened Ordered
  import opened Values
  import opened Index
  import opened OverlayIndexes
  import opened Overlay

  datatype TxnError =
    | UnknownElement(id: u64) | UnknownRelation(id: u64) | UnknownIncidence(id: u64)
    | UnknownRole(id: u64) | UnknownLabel(id: u64) | UnknownType(id: u64) | UnknownKey(id: u64)
    | WrongFamily(family: Family, actualFamily: Family) | WrongType(valueType: ValueType, actualType: ValueType)
    | IdOverflow

  // ----- the catalog a transaction checks against

  datatype Family = ElementFamily | RelationFamily | IncidenceFamily

  datatype ValueType = BooleanType | IntegerType | TextType

  datatype KeyDefinition = KeyDefinition(family: Family, valueType: ValueType)

  datatype Catalog = Catalog(roles: set<u64>, labels: set<u64>, types: set<u64>, keys: map<u64, KeyDefinition>)

  function FamilyOf(s: PropertySubject): (family: Family)
    ensures (family.ElementFamily? <==> s.Element?) && (family.RelationFamily? <==> s.Relation?)
  {
    match s
    case Element(_) => ElementFamily
    case Relation(_) => RelationFamily
    case Incidence(_) => IncidenceFamily
  }

  function TypeOf(value: PropertyValue): (t: ValueType)
    ensures (t.BooleanType? <==> value.Boolean?) && (t.IntegerType? <==> value.Integer?)
  {
    match value
    case Boolean(_) => BooleanType
    case Integer(_) => IntegerType
    case Text(_) => TextType
  }

  type Outcome<+T> = Result<T, TxnError>

  predicate SubjectVisible(r: Records, s: PropertySubject) {
    match s
    case Element(id) => id in r.elements
    case Relation(id) => id in r.relations
    case Incidence(id) => id in r.incidences
  }

  function UnknownSubject(s: PropertySubject): (error: TxnError)
    ensures (s.Element? ==> error == UnknownElement(s.id)) && (s.Relation? ==> error == UnknownRelation(s.id))
    ensures s.Incidence? ==> error == UnknownIncidence(s.id)
  {
    match s
    case Element(id) => UnknownElement(id)
    case Relation(id) => UnknownRelation(id)
    case Incidence(id) => UnknownIncidence(id)
  }

  predicate EndsVisible(r: Records, ends: Ends) {
    ends.relation in r.relations && ends.element in r.elements
  }

  /** Every property's key is known, for its subject's family and its value's type. */
  ghost predicate WellTyped(c: Catalog, r: Records) {
    forall x :: x in r.properties ==> x.1 in c.keys && c.keys[x.1] == KeyDefinition(FamilyOf(x.0), TypeOf(r.properties[x]))
  }

  /** No incidence dangles and no property outlives its subject. */
  ghost predicate Integrity(r: Records) {
    && (forall i :: i in r.incidences ==> EndsVisible(r, r.incidences[i]))
    && (forall x :: x in r.properties ==> SubjectVisible(r, x.0))
  }

  function StrippedAll(p: Properties, gone: set<PropertySubject>): Properties {
    map x | x in p && x.0 !in gone :: p[x]
  }

  function AsSubjects(incidences: set<u64>): set<PropertySubject> {
    set i | i in incidences :: Incidence(i)
  }

  /** An element leaves together with the incidences on it and every property of either. */
  function WithoutElement(r: Records, id: u64): Records {
    var gone := IncidencesOfElement(r.incidences, id);
    Records(r.elements - {id}, r.relations, r.incidences - gone, StrippedAll(r.properties, AsSubjects(gone) + {Element(id)}))
  }

  function WithoutRelation(r: Records, id: u64): Records {
    var gone := IncidencesOfRelation(r.incidences, id);
    Records(r.elements, r.relations - {id}, r.incidences - gone, StrippedAll(r.properties, AsSubjects(gone) + {Relation(id)}))
  }

  /** Exactly the incidences that attach the element are gone with it, and the properties of these and of it. */
  lemma ElementLeavesWith(r: Records, id: u64)
    ensures var w := WithoutElement(r, id);
      && w.elements == r.elements - {id} && w.relations == r.relations
      && (forall i :: i in w.incidences <==> i in r.incidences && r.incidences[i].element != id)
      && (forall x :: x in w.properties <==>
            x in r.properties && x.0 != Element(id) &&
            !(x.0.Incidence? && x.0.id in r.incidences && r.incidences[x.0.id].element == id))
      && (forall i :: i in w.incidences ==> w.incidences[i] == r.incidences[i])
      && (forall x :: x in w.properties ==> w.properties[x] == r.properties[x])
  {
  }

  lemma RelationLeavesWith(r: Records, id: u64)
    ensures var w := WithoutRelation(r, id);
      && w.elements == r.elements && w.relations == r.relations - {id}
      && (forall i :: i in w.incidences <==> i in r.incidences && r.incidences[i].relation != id)
      && (forall x :: x in w.properties <==>
            x in r.properties && x.0 != Relation(id) &&
            !(x.0.Incidence? && x.0.id in r.incidences && r.incidences[x.0.id].relation == id))
      && (forall i :: i in w.incidences ==> w.incidences[i] == r.incidences[i])
      && (forall x :: x in w.properties ==> w.properties[x] == r.properties[x])
  {
  }

  lemma CascadeKeepsIntegrity(r: Records, id: u64)
    requires Integrity(r)
    ensures Integrity(WithoutElement(r, id)) && Integrity(WithoutRelation(r, id))
  {
    forall i | i in WithoutElement(r, id).incidences ensures EndsVisible(WithoutElement(r, id), r.incidences[i]) {
      assert i !in IncidencesOfElement(r.incidences, id);
    }
    forall i | i in WithoutRelation(r, id).incidences ensures EndsVisible(WithoutRelation(r, id), r.incidences[i]) {
      assert i !in IncidencesOfRelation(r.incidences, id);
    }
  }

  class WriteTransaction {
    const delta: WriteOverlay
    const catalog: Catalog

    ghost function Visible(): Records
      reads delta
    {
      delta.Visible()
    }

    ghost predicate Valid()
      reads delta, delta.index
    {
      delta.Valid() && Integrity(Visible())
    }

    constructor (delta: WriteOverlay, catalog: Catalog)
      requires delta.Valid() && Integrity(delta.Visible())
      ensures Valid() && this.delta == delta && this.catalog == catalog
    {
      this.delta := delta;
      this.catalog := catalog;
    }

    method CreateElement() returns (result: Outcome<u64>)
      requires Valid()
      modifies delta
      ensures Valid()
      ensures result.Err? <==> old(delta.nextElement) == MAX_ID
      ensures result.Err? ==> result.error == IdOverflow && unchanged(delta)
      ensures result.Ok? ==> result.value == old(delta.nextElement) && delta.nextElement == result.value + 1
      ensures result.Ok? ==> result.value !in old(Visible()).elements
      ensures result.Ok? ==>
        Visible() == old(Visible()).(elements := old(Visible()).elements[result.value := {}])
    {
      hide Overlaid, OverlayIndex.Agrees;
      var id := delta.NewElement();
      result := if id.Some? then Ok(id.value) else Err(IdOverflow);
    }

    method CreateRelation() returns (result: Outcome<u64>)
      requires Valid()
      modifies delta
      ensures Valid()
      ensures result.Err? <==> old(delta.nextRelation) == MAX_ID
      ensures result.Err? ==> result.error == IdOverflow && unchanged(delta)
      ensures result.Ok? ==> result.value == old(delta.nextRelation) && delta.nextRelation == result.value + 1
      ensures result.Ok? ==> result.value !in old(Visible()).relations
      ensures result.Ok? ==>
        Visible() == old(Visible()).(relations := old(Visible()).relations[result.value := Untyped])
    {
      hide Overlaid, OverlayIndex.Agrees;
      var id := delta.NewRelation();
      result := if id.Some? then Ok(id.value) else Err(IdOverflow);
    }

    /** The relation is checked before the element, the element before the role, and all before an id is drawn. */
    method CreateIncidence(relation: u64, element: u64, role: u64) returns (result: Outcome<u64>)
      requires Valid()
      modifies delta, delta.index
      ensures Valid()
      ensures result ==
        if relation !in old(Visible()).relations then Err(UnknownRelation(relation))
        else if element !in old(Visible()).elements then Err(UnknownElement(element))
        else if role !in catalog.roles then Err(UnknownRole(role))
        else if old(delta.nextIncidence) == MAX_ID then Err(IdOverflow)
        else Ok(old(delta.nextIncidence))
      ensures result.Err? ==> unchanged(delta) && unchanged(delta.index)
      ensures result.Ok? ==> result.value == old(delta.nextIncidence) && delta.nextIncidence == result.value + 1
      ensures result.Ok? ==> result.value !in old(Visible()).incidences
      ensures result.Ok? ==>
        Visible() == old(Visible()).(incidences := old(Visible()).incidences[result.value := Ends(relation, element, role)])
    {
      hide Overlaid, OverlayIndex.Agrees;
      if Lookup(delta.base.relations, delta.relations, relation).None? {
        return Err(UnknownRelation(relation));
      }
      if Lookup(delta.base.elements, delta.elements, element).None? {
        return Err(UnknownElement(element));
      }
      if role !in catalog.roles {
        return Err(UnknownRole(role));
      }
      var id := delta.NewIncidence(relation, element, role);
      result := if id.Some? then Ok(id.value) else Err(IdOverflow);
    }

    /** The incidences on the element are found through the adjacency index before it is tombstoned. */
    method TombstoneElement(id: u64) returns (result: Outcome<()>)
      requires Valid()
      modifies delta, delta.index
      ensures Valid()
      ensures result == if id in old(Visible()).elements then Ok(()) else Err(UnknownElement(id))
      ensures result.Err? ==> unchanged(delta) && unchanged(delta.index)
      ensures result.Ok? ==> Visible() == WithoutElement(old(Visible()), id)
    {
      hide Overlaid, OverlayIndex.Agrees, WithoutElement;
      ghost var r := Visible();
      if Lookup(delta.base.elements, delta.elements, id).None? {
        return Err(UnknownElement(id));
      }
      var incidences := delta.index.ElementIncidences(delta.baseIndex, id, r);
      delta.Record(Mutation.TombstoneElement(id));
      TombstoneIncidences(incidences);
      ElementCascade(r, id, incidences);
      CascadeKeepsIntegrity(r, id);
      result := Ok(());
    }

    method TombstoneRelation(id: u64) returns (result: Outcome<()>)
      requires Valid()
      modifies delta, delta.index
      ensures Valid()
      ensures result == if id in old(Visible()).relations then Ok(()) else Err(UnknownRelation(id))
      ensures result.Err? ==> unchanged(delta) && unchanged(delta.index)
      ensures result.Ok? ==> Visible() == WithoutRelation(old(Visible()), id)
    {
      hide Overlaid, OverlayIndex.Agrees, WithoutRelation;
      ghost var r := Visible();
      if Lookup(delta.base.relations, delta.relations, id).None? {
        return Err(UnknownRelation(id));
      }
      var incidences := delta.index.RelationIncidences(delta.baseIndex, id, r);
      delta.Record(Mutation.TombstoneRelation(id));
      TombstoneIncidences(incidences);
      RelationCascade(r, id, incidences);
      CascadeKeepsIntegrity(r, id);
      result := Ok(());
    }

    /** The cascade: each incidence is still visible when its turn comes. */
    method TombstoneIncidences(ids: seq<u64>)
      requires delta.Valid() && Ascending(ids, IdLess)
      requires forall i :: i in ids ==> i in Visible().incidences
      modifies delta, delta.index
      ensures delta.Valid() && Visible() == Cleared(old(Visible()), ids)
    {
      ghost var r := Visible();
      ClearedStep(r, [], 0);
      hide Overlaid, OverlayIndex.Agrees, Cleared, Applied, Tracked, WriteOverlay.Visible, WriteOverlay.Valid;
      for n := 0 to |ids|
        invariant delta.Valid() && Visible() == Cleared(r, ids[..n])
      {
        assert ids[..n + 1] == ids[..n] + [ids[n]];
        ClearedStep(r, ids[..n], ids[n]);
        NextIsVisible(r, ids, n);
        delta.Record(Mutation.TombstoneIncidence(ids[n]));
      }
      assert ids[..|ids|] == ids;
    }

    method TombstoneIncidence(id: u64) returns (result: Outcome<()>)
      requires Valid()
      modifies delta, delta.index
      ensures Valid()
      ensures result == if id in old(Visible()).incidences then Ok(()) else Err(UnknownIncidence(id))
      ensures result.Err? ==> unchanged(delta) && unchanged(delta.index)
      ensures result.Ok? ==>
        Visible() == old(Visible()).(incidences := old(Visible()).incidences - {id},
          properties := Stripped(old(Visible()).properties, Incidence(id)))
    {
      hide Overlaid, OverlayIndex.Agrees;
      if Lookup(delta.base.incidences, delta.incidences, id).None? {
        return Err(UnknownIncidence(id));
      }
      delta.Record(Mutation.TombstoneIncidence(id));
      result := Ok(());
    }

    method AddElementLabel(id: u64, labelId: u64) returns (result: Outcome<()>)
      requires Valid()
      modifies delta, delta.index
      ensures Valid()
      ensures result ==
        if id !in old(Visible()).elements then Err(UnknownElement(id))
        else if labelId !in catalog.labels then Err(UnknownLabel(labelId))
        else Ok(())
      ensures result.Err? ==> unchanged(delta) && unchanged(delta.index)
      ensures result.Ok? ==>
        Visible() == old(Visible()).(elements := old(Visible()).elements[id := old(Visible()).elements[id] + {labelId}])
    {
      hide Overlaid, OverlayIndex.Agrees;
      if Lookup(delta.base.elements, delta.elements, id).None? {
        return Err(UnknownElement(id));
      }
      if labelId !in catalog.labels {
        return Err(UnknownLabel(labelId));
      }
      Relabelled(Visible(), id, labelId);
      hide Integrity, Applied, Tracked, WriteOverlay.Visible, WriteOverlay.Valid;
      delta.Record(Mutation.AddElementLabel(id, labelId));
      result := Ok(());
    }

    method SetRelationType(id: u64, relationType: u64) returns (result: Outcome<()>)
      requires Valid()
      modifies delta, delta.index
      ensures Valid()
      ensures result ==
        if id !in old(Visible()).relations then Err(UnknownRelation(id))
        else if relationType !in catalog.types then Err(UnknownType(relationType))
        else Ok(())
      ensures result.Err? ==> unchanged(delta) && unchanged(delta.index)
      ensures result.Ok? ==> Visible() == old(Visible()).(relations := old(Visible()).relations[id := Typed(relationType)])
    {
      hide Overlaid, OverlayIndex.Agrees;
      if Lookup(delta.base.relations, delta.relations, id).None? {
        return Err(UnknownRelation(id));
      }
      if relationType !in catalog.types {
        return Err(UnknownType(relationType));
      }
      Retyped(Visible(), id, relationType);
      hide Integrity, Applied, Tracked, WriteOverlay.Visible, WriteOverlay.Valid;
      delta.Record(Mutation.SetRelationType(id, relationType));
      result := Ok(());
    }

    method SubjectIsVisible(s: PropertySubject) returns (visible: bool)
      ensures visible == SubjectVisible(Visible(), s)
    {
      match s
      case Element(id) => visible := Lookup(delta.base.elements, delta.elements, id).Some?;
      case Relation(id) => visible := Lookup(delta.base.relations, delta.relations, id).Some?;
      case Incidence(id) => visible := Lookup(delta.base.incidences, delta.incidences, id).Some?;
    }

    /** No property is recorded against an absent subject, under an unknown key, or against the key's family or type. */
    method SetProperty(s: PropertySubject, key: u64, value: PropertyValue) returns (result: Outcome<()>)
      requires Valid()
      modifies delta, delta.index
      ensures Valid()
      ensures result ==
        if !SubjectVisible(old(Visible()), s) then Err(UnknownSubject(s))
        else if key !in catalog.keys then Err(UnknownKey(key))
        else if catalog.keys[key].family != FamilyOf(s) then Err(WrongFamily(catalog.keys[key].family, FamilyOf(s)))
        else if catalog.keys[key].valueType != TypeOf(value) then Err(WrongType(catalog.keys[key].valueType, TypeOf(value)))
        else Ok(())
      ensures result.Err? ==> unchanged(delta) && unchanged(delta.index)
      ensures result.Ok? ==> Visible() == old(Visible()).(properties := old(Visible()).properties[(s, key) := value])
      ensures Carries(old(Visible()).properties, s, key, value) ==> delta.log == old(delta.log)
      ensures WellTyped(catalog, old(Visible())) ==> WellTyped(catalog, Visible())
    {
      hide Overlaid, OverlayIndex.Agrees;
      var visible := SubjectIsVisible(s);
      if !visible {
        return Err(UnknownSubject(s));
      }
      if key !in catalog.keys {
        return Err(UnknownKey(key));
      }
      if catalog.keys[key].family != FamilyOf(s) {
        return Err(WrongFamily(catalog.keys[key].family, FamilyOf(s)));
      }
      if catalog.keys[key].valueType != TypeOf(value) {
        return Err(WrongType(catalog.keys[key].valueType, TypeOf(value)));
      }
      PropertySet(catalog, Visible(), s, key, value);
      hide Integrity, WellTyped, Applied, Tracked, WriteOverlay.Visible, WriteOverlay.Valid;
      delta.Record(Mutation.SetProperty(s, key, value));
      result := Ok(());
    }

    method RemoveProperty(s: PropertySubject, key: u64) returns (result: Outcome<()>)
      requires Valid()
      modifies delta, delta.index
      ensures Valid()
      ensures result ==
        if !SubjectVisible(old(Visible()), s) then Err(UnknownSubject(s))
        else if key !in catalog.keys then Err(UnknownKey(key))
        else Ok(())
      ensures result.Err? ==> unchanged(delta) && unchanged(delta.index)
      ensures result.Ok? ==> Visible() == old(Visible()).(properties := old(Visible()).properties - {(s, key)})
    {
      hide Overlaid, OverlayIndex.Agrees;
      var visible := SubjectIsVisible(s);
      if !visible {
        return Err(UnknownSubject(s));
      }
      if key !in catalog.keys {
        return Err(UnknownKey(key));
      }
      PropertyGone(Visible(), s, key);
      hide Integrity, Applied, Tracked, WriteOverlay.Visible, WriteOverlay.Valid;
      delta.Record(Mutation.RemoveProperty(s, key));
      result := Ok(());
    }
  }

  lemma Relabelled(r: Records, id: u64, labelId: u64)
    requires id in r.elements
    ensures var m := Mutation.AddElementLabel(id, labelId);
      && Tracked(r, m) && Applied(r, m) == r.(elements := r.elements[id := r.elements[id] + {labelId}])
      && (Integrity(r) ==> Integrity(Applied(r, m)))
  {
  }

  lemma Retyped(r: Records, id: u64, relationType: u64)
    requires id in r.relations
    ensures var m := Mutation.SetRelationType(id, relationType);
      && Tracked(r, m) && Applied(r, m) == r.(relations := r.relations[id := Typed(relationType)])
      && (Integrity(r) ==> Integrity(Applied(r, m)))
  {
  }

  lemma PropertyGone(r: Records, s: PropertySubject, key: u64)
    ensures var m := Mutation.RemoveProperty(s, key);
      && Tracked(r, m) && Applied(r, m) == r.(properties := r.properties - {(s, key)})
      && (Integrity(r) ==> Integrity(Applied(r, m)))
  {
  }

  /** What setting an admitted property does. */
  lemma PropertySet(c: Catalog, r: Records, s: PropertySubject, key: u64, value: PropertyValue)
    requires SubjectVisible(r, s) && key in c.keys && c.keys[key] == KeyDefinition(FamilyOf(s), TypeOf(value))
    ensures var m := Mutation.SetProperty(s, key, value);
      && Tracked(r, m) && Applied(r, m) == r.(properties := r.properties[(s, key) := value])
      && (Integrity(r) ==> Integrity(Applied(r, m))) && (WellTyped(c, r) ==> WellTyped(c, Applied(r, m)))
      && (Carries(r.properties, s, key, value) ==> Applied(r, m) == r)
  {
    if Carries(r.properties, s, key, value) {
      assert r.properties[(s, key) := value] == r.properties;
    }
  }

  /** The records without the listed incidences and their properties. */
  function Cleared(r: Records, ids: seq<u64>): Records {
    var gone := set i | i in ids;
    r.(incidences := r.incidences - gone, properties := StrippedAll(r.properties, AsSubjects(gone)))
  }

  lemma NextIsVisible(r: Records, ids: seq<u64>, n: nat)
    requires n < |ids| && Ascending(ids, IdLess) && forall i :: i in ids ==> i in r.incidences
    ensures Tracked(Cleared(r, ids[..n]), Mutation.TombstoneIncidence(ids[n]))
  {
    assert ids[n] in ids && ids[n] !in ids[..n];
  }

  lemma ClearedStep(r: Records, done: seq<u64>, id: u64)
    ensures Cleared(r, done + [id]) == Applied(Cleared(r, done), Mutation.TombstoneIncidence(id))
    ensures Cleared(r, []) == r
  {
  }

  lemma ElementCascade(r: Records, id: u64, incidences: seq<u64>)
    requires forall i :: i in incidences <==> i in IncidencesOfElement(r.incidences, id)
    ensures Cleared(Applied(r, Mutation.TombstoneElement(id)), incidences) == WithoutElement(r, id)
  {
  }

  lemma RelationCascade(r: Records, id: u64, incidences: seq<u64>)
    requires forall i :: i in incidences <==> i in IncidencesOfRelation(r.incidences, id)
    ensures Cleared(Applied(r, Mutation.TombstoneRelation(id)), incidences) == WithoutRelation(r, id)
  {
  }
}
