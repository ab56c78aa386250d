/** The write transaction's delta over an immutable base (`oxgraph-db/src/overlay/write.rs`).

    `Applied` says what one mutation means for the visible records, `Run` what a log of them means. The
    overlay keeps deltas of its own, and `WriteOverlay.Visible` lays them over the base. Each mutator is
    proved to make the visible records what `Applied` says, and to keep every index lookup equal to a
    scan of them (`Indexed`), under the exact condition `Tracked` where it depends on the mutation. */
module Overlay {
  import opened Options
  import opened Bytes
  import opened Values
  import opened Index
  import opened OverlayIndexes

  const MAX_ID: u64 := 0xffff_ffff_ffff_ffff

  // ----- records under mutation

  datatype Mutation =
    | CreateElement(id: u64)
    | CreateRelation(id: u64)
    | CreateIncidence(id: u64, ends: Ends)
    | TombstoneElement(id: u64)
    | TombstoneRelation(id: u64)
    | TombstoneIncidence(id: u64)
    | AddElementLabel(id: u64, labelId: u64)
    | SetRelationType(id: u64, relationType: u64)
    | SetProperty(subject: PropertySubject, key: u64, value: PropertyValue)
    | RemoveProperty(subject: PropertySubject, key: u64)

  /** What a mutation means for the visible records, whatever layer they come from. */
  function Applied(r: Records, m: Mutation): Records {
    match m
    case CreateElement(id) => r.(elements := r.elements[id := {}])
    case CreateRelation(id) => r.(relations := r.relations[id := Untyped])
    case CreateIncidence(id, ends) => r.(incidences := r.incidences[id := ends])
    case TombstoneElement(id) => r.(elements := r.elements - {id}, properties := Stripped(r.properties, Element(id)))
    case TombstoneRelation(id) => r.(relations := r.relations - {id}, properties := Stripped(r.properties, Relation(id)))
    case TombstoneIncidence(id) => r.(incidences := r.incidences - {id}, properties := Stripped(r.properties, Incidence(id)))
    case AddElementLabel(id, l) => if id in r.elements then r.(elements := r.elements[id := r.elements[id] + {l}]) else r
    case SetRelationType(id, t) => if id in r.relations then r.(relations := r.relations[id := Typed(t)]) else r
    case SetProperty(s, key, value) => r.(properties := r.properties[(s, key) := value])
    case RemoveProperty(s, key) => r.(properties := r.properties - {(s, key)})
  }

  function Run(r: Records, log: seq<Mutation>): Records
    decreases |log|
  {
    if log == [] then r else Applied(Run(r, log[..|log| - 1]), log[|log| - 1])
  }

  /** When the incremental index survives `m`: a create must not drop what the index still shows, and
      an incidence whose record is gone must carry no property, as its postings are then not withdrawn. */
  predicate Tracked(r: Records, m: Mutation) {
    match m
    case CreateElement(id) => LabelsOf(r.elements, id) == {}
    case CreateRelation(id) => KindOf(r.relations, id) == Untyped
    case CreateIncidence(id, ends) => id !in r.incidences || SameEnds(r.incidences[id], ends)
    case TombstoneIncidence(id) => id in r.incidences || PropertiesOf(r.properties, Incidence(id)) == map[]
    case _ => true
  }

  /** Every mutation of the log was tracked where it was applied. */
  predicate TrackedRun(r: Records, log: seq<Mutation>)
    decreases |log|
  {
    log == [] || (TrackedRun(r, log[..|log| - 1]) && Tracked(Run(r, log[..|log| - 1]), log[|log| - 1]))
  }

  lemma RunExtends(r: Records, log: seq<Mutation>, m: Mutation)
    ensures Run(r, log + [m]) == Applied(Run(r, log), m)
    ensures TrackedRun(r, log + [m]) <==> TrackedRun(r, log) && Tracked(Run(r, log), m)
  {
    assert (log + [m])[..|log|] == log;
  }

  lemma {:induction false} RunsJoin(r: Records, a: seq<Mutation>, b: seq<Mutation>)
    ensures Run(r, a + b) == Run(Run(r, a), b)
    ensures TrackedRun(r, a + b) <==> TrackedRun(r, a) && TrackedRun(Run(r, a), b)
    decreases |b|
  {
    if b == [] {
      assert a + b == a;
    } else {
      var front, m := b[..|b| - 1], b[|b| - 1];
      RunsJoin(r, a, front);
      RunExtends(r, a + front, m);
      assert a + b == a + front + [m];
    }
  }

  ghost predicate IdsBelow(r: Records, element: u64, relation: u64, incidence: u64) {
    && (forall e :: e in r.elements ==> e < element)
    && (forall x :: x in r.relations ==> x < relation)
    && (forall i :: i in r.incidences ==> i < incidence)
  }

  lemma DrawsNoId(r: Records, m: Mutation, element: u64, relation: u64, incidence: u64)
    requires !m.CreateElement? && !m.CreateRelation? && !m.CreateIncidence? && IdsBelow(r, element, relation, incidence)
    ensures IdsBelow(Applied(r, m), element, relation, incidence)
  {
    assert Applied(r, m).elements.Keys <= r.elements.Keys;
    assert Applied(r, m).relations.Keys <= r.relations.Keys;
    assert Applied(r, m).incidences.Keys <= r.incidences.Keys;
  }

  lemma SetOfVisible(r: Records, m: Mutation)
    requires m.SetProperty?
    ensures Applied(r, m) == r <==> (m.subject, m.key) in r.properties && r.properties[(m.subject, m.key)] == m.value
  {
    assert (m.subject, m.key) in Applied(r, m).properties;
  }

  lemma RecordedStep(seed: Records, log: seq<Mutation>, r: Records, m: Mutation, element: u64, relation: u64,
      incidence: u64)
    requires !m.CreateElement? && !m.CreateRelation? && !m.CreateIncidence? && IdsBelow(r, element, relation, incidence)
    requires r == Run(seed, log) && TrackedRun(seed, log) && Tracked(r, m)
    ensures IdsBelow(Applied(r, m), element, relation, incidence)
    ensures Applied(r, m) == Run(seed, log + [m]) && TrackedRun(seed, log + [m])
    ensures m.SetProperty? ==>
      (Applied(r, m) == r <==> (m.subject, m.key) in r.properties && r.properties[(m.subject, m.key)] == m.value)
  {
    DrawsNoId(r, m, element, relation, incidence);
    RunExtends(seed, log, m);
    if m.SetProperty? {
      SetOfVisible(r, m);
    }
  }

  // ----- a delta map over a base map

  /** An overlay entry: a record that overrides the base, or a tombstone that masks it. */
  datatype Entry<R> = Gone | Present(record: R)

  function Overlaid<K, R>(base: map<K, R>, delta: map<K, Entry<R>>): (visible: map<K, R>)
  {
    map k | k in base.Keys + delta.Keys && (k in delta ==> delta[k].Present?) :: if k in delta then delta[k].record else base[k]
  }

  lemma OverlaidPresent<K, R>(base: map<K, R>, delta: map<K, Entry<R>>, k: K, record: R)
    ensures Overlaid(base, delta[k := Present(record)]) == Overlaid(base, delta)[k := record]
  {
  }

  lemma OverlaidGone<K, R>(base: map<K, R>, delta: map<K, Entry<R>>, k: K)
    ensures Overlaid(base, delta[k := Gone]) == Overlaid(base, delta) - {k}
  {
  }

  /** The visible record at `k`: the overlay's entry if it has one, else the base's. */
  function Lookup<K, R>(base: map<K, R>, delta: map<K, Entry<R>>, k: K): (found: Option<R>)
    ensures found == if k in Overlaid(base, delta) then Some(Overlaid(base, delta)[k]) else None
  {
    if k in delta then (if delta[k].Present? then Some(delta[k].record) else None)
    else if k in base then Some(base[k]) else None
  }

  function SubjectCleared(base: Properties, delta: map<(PropertySubject, u64), Entry<PropertyValue>>,
      s: PropertySubject): map<(PropertySubject, u64), Entry<PropertyValue>> {
    (map x | x in delta && x.0 != s :: delta[x]) + (map x | x in base && x.0 == s :: Gone)
  }

  lemma ClearedIsStripped(base: Properties, delta: map<(PropertySubject, u64), Entry<PropertyValue>>,
      s: PropertySubject)
    ensures Overlaid(base, SubjectCleared(base, delta, s)) == Stripped(Overlaid(base, delta), s)
  {
    var left, right := Overlaid(base, SubjectCleared(base, delta, s)), Stripped(Overlaid(base, delta), s);
    hide Overlaid, SubjectCleared, Stripped;
    forall x ensures (x in left <==> x in right) && (x in left ==> left[x] == right[x]) {
      ClearedAt(base, delta, s, x);
    }
  }

  lemma ClearedAt(base: Properties, delta: map<(PropertySubject, u64), Entry<PropertyValue>>, s: PropertySubject,
      x: (PropertySubject, u64))
    ensures var left, right := Overlaid(base, SubjectCleared(base, delta, s)), Stripped(Overlaid(base, delta), s);
      (x in left <==> x in right) && (x in left ==> left[x] == right[x])
  {
  }

  class WriteOverlay {
    const base: Records
    const baseIndex: BaseIndex
    ghost const seed: Records
    const index: OverlayIndex
    var elements: map<u64, Entry<set<u64>>>
    var relations: map<u64, Entry<RelationKind>>
    var incidences: map<u64, Entry<Ends>>
    var properties: map<(PropertySubject, u64), Entry<PropertyValue>>
    var nextElement: u64
    var nextRelation: u64
    var nextIncidence: u64
    var log: seq<Mutation>

    ghost function Visible(): Records
      reads this`elements, this`relations, this`incidences, this`properties
    {
      Records(Overlaid(base.elements, elements), Overlaid(base.relations, relations),
        Overlaid(base.incidences, incidences), Overlaid(base.properties, properties))
    }

    ghost predicate Indexed()
      reads this`elements, this`relations, this`incidences, this`properties, index
    {
      index.Agrees(baseIndex, Visible())
    }

    /** Every id is below its watermark, so a fresh id names nothing. */
    ghost predicate Fresh()
      reads this
    {
      IdsBelow(Visible(), nextElement, nextRelation, nextIncidence)
    }

    /** The log accounts for every change since the seed. */
    ghost predicate Logged()
      reads this
    {
      Visible() == Run(seed, log) && TrackedRun(seed, log)
    }

    ghost predicate Valid()
      reads this, index
    {
      Indexed() && Fresh() && Logged()
    }

    constructor (base: Records, baseIndex: BaseIndex, nextElement: u64, nextRelation: u64, nextIncidence: u64)
      requires IsIndexOf(baseIndex, base)
      requires forall e :: e in base.elements ==> e < nextElement
      requires forall x :: x in base.relations ==> x < nextRelation
      requires forall i :: i in base.incidences ==> i < nextIncidence
      ensures Valid() && fresh(index) && Visible() == seed == base && log == []
      ensures this.base == base && this.baseIndex == baseIndex
    {
      this.base, this.baseIndex, this.seed := base, baseIndex, base;
      elements, relations, incidences, properties := map[], map[], map[], map[];
      this.nextElement, this.nextRelation, this.nextIncidence := nextElement, nextRelation, nextIncidence;
      log := [];
      index := new OverlayIndex();
      new;
      assert Visible() == base;
    }

    /** Seeds a writer from a published overlay: the same visible state, an empty log, and nothing shared that it writes. */
    constructor FromOverlay(parent: WriteOverlay)
      requires parent.Indexed() && parent.Fresh()
      ensures Valid() && fresh(index) && Visible() == seed == parent.Visible() && log == []
      ensures base == parent.base && baseIndex == parent.baseIndex
      ensures nextElement == parent.nextElement && nextRelation == parent.nextRelation
      ensures nextIncidence == parent.nextIncidence
    {
      hide LabelsShow, TypesShow, EqualityShows, ElementEndsShow, RelationEndsShow, Overlaid;
      base, baseIndex, seed := parent.base, parent.baseIndex, parent.Visible();
      elements, relations, incidences, properties := parent.elements, parent.relations, parent.incidences, parent.properties;
      nextElement, nextRelation, nextIncidence := parent.nextElement, parent.nextRelation, parent.nextIncidence;
      log := [];
      index := new OverlayIndex.Clone(parent.index);
      new;
      assert Visible() == parent.Visible();
    }

    /** Recovery sets the watermark it found. */
    method SetNextIds(element: u64, relation: u64, incidence: u64)
      modifies this`nextElement, this`nextRelation, this`nextIncidence
      ensures nextElement == element && nextRelation == relation && nextIncidence == incidence
    {
      nextElement, nextRelation, nextIncidence := element, relation, incidence;
    }

    // ----- one mutation, without logging it

    method TombstoneElementInner(id: u64)
      requires Indexed()
      modifies this`elements, this`properties, index
      ensures Indexed() && Visible() == Applied(old(Visible()), TombstoneElement(id))
    {
      hide OverlayIndex.Agrees, Overlaid, Stripped, PropertiesOf, SubjectCleared;
      ghost var r := Visible();
      var found := Lookup(base.elements, elements, id);
      var carried: set<u64> := if found.Some? then found.value else {};
      var subjectProperties := VisibleSubjectProperties(Element(id));
      index.OnTombstoneElement(id, carried, subjectProperties, baseIndex, r);
      OverlaidGone(base.elements, elements, id);
      ClearedIsStripped(base.properties, properties, Element(id));
      elements := elements[id := Gone];
      properties := SubjectCleared(base.properties, properties, Element(id));
    }

    method TombstoneRelationInner(id: u64)
      requires Indexed()
      modifies this`relations, this`properties, index
      ensures Indexed() && Visible() == Applied(old(Visible()), TombstoneRelation(id))
    {
      hide OverlayIndex.Agrees, Overlaid, Stripped, PropertiesOf, SubjectCleared;
      ghost var r := Visible();
      var found := Lookup(base.relations, relations, id);
      var kind := if found.Some? then found.value else Untyped;
      var subjectProperties := VisibleSubjectProperties(Relation(id));
      index.OnTombstoneRelation(id, kind, subjectProperties, baseIndex, r);
      OverlaidGone(base.relations, relations, id);
      ClearedIsStripped(base.properties, properties, Relation(id));
      relations := relations[id := Gone];
      properties := SubjectCleared(base.properties, properties, Relation(id));
    }

    /** The postings of an incidence are withdrawn only when its record is visible. */
    method TombstoneIncidenceInner(id: u64)
      requires Indexed()
      modifies this`incidences, this`properties, index
      ensures Visible() == Applied(old(Visible()), TombstoneIncidence(id))
      ensures Indexed() <==> Tracked(old(Visible()), TombstoneIncidence(id))
      ensures Indexed() <==>
        id in old(Visible()).incidences || forall x :: x in old(Visible()).properties ==> x.0 != Incidence(id)
    {
      hide OverlayIndex.Agrees, Overlaid, Stripped, PropertiesOf, SubjectCleared;
      ghost var r := Visible();
      var found := Lookup(base.incidences, incidences, id);
      var subjectProperties := VisibleSubjectProperties(Incidence(id));
      if found.Some? {
        index.OnTombstoneIncidence(id, found.value.relation, found.value.element, subjectProperties, baseIndex, r);
      }
      OverlaidGone(base.incidences, incidences, id);
      ClearedIsStripped(base.properties, properties, Incidence(id));
      incidences := incidences[id := Gone];
      properties := SubjectCleared(base.properties, properties, Incidence(id));
      if found.None? {
        StrippedAgreement(index, baseIndex, r, Incidence(id));
        NoPropertiesOf(r.properties, Incidence(id));
        assert r.incidences - {id} == r.incidences;
      }
    }

    method AddElementLabelInner(id: u64, labelId: u64)
      requires Indexed()
      modifies this`elements, index
      ensures Indexed() && Visible() == Applied(old(Visible()), AddElementLabel(id, labelId))
      ensures id !in old(Visible()).elements ==> Visible() == old(Visible())
    {
      hide OverlayIndex.Agrees, Overlaid;
      ghost var r := Visible();
      var found := Lookup(base.elements, elements, id);
      if found.Some? {
        OverlaidPresent(base.elements, elements, id, found.value + {labelId});
        elements := elements[id := Present(found.value + {labelId})];
        index.OnAddElementLabel(id, labelId, baseIndex, r);
      }
    }

    method SetRelationTypeInner(id: u64, relationType: u64)
      requires Indexed()
      modifies this`relations, index
      ensures Indexed() && Visible() == Applied(old(Visible()), SetRelationType(id, relationType))
      ensures id !in old(Visible()).relations ==> Visible() == old(Visible())
    {
      hide OverlayIndex.Agrees, Overlaid;
      ghost var r := Visible();
      var found := Lookup(base.relations, relations, id);
      if found.Some? {
        OverlaidPresent(base.relations, relations, id, Typed(relationType));
        relations := relations[id := Present(Typed(relationType))];
        index.OnSetRelationType(id, found.value, relationType, baseIndex, r);
      }
    }

    method SetPropertyInner(subject: PropertySubject, key: u64, value: PropertyValue)
      requires Indexed()
      modifies this`properties, index
      ensures Indexed() && Visible() == Applied(old(Visible()), SetProperty(subject, key, value))
    {
      hide OverlayIndex.Agrees, Overlaid;
      ghost var r := Visible();
      var previous := Lookup(base.properties, properties, (subject, key));
      index.OnSetProperty(subject, key, previous, value, baseIndex, r);
      OverlaidPresent(base.properties, properties, (subject, key), value);
      properties := properties[(subject, key) := Present(value)];
    }

    method RemovePropertyInner(subject: PropertySubject, key: u64)
      requires Indexed()
      modifies this`properties, index
      ensures Indexed() && Visible() == Applied(old(Visible()), RemoveProperty(subject, key))
    {
      hide OverlayIndex.Agrees, Overlaid;
      ghost var r := Visible();
      var previous := Lookup(base.properties, properties, (subject, key));
      index.OnRemoveProperty(subject, key, previous, baseIndex, r);
      OverlaidGone(base.properties, properties, (subject, key));
      properties := properties[(subject, key) := Gone];
    }

    method InsertElement(id: u64)
      requires Indexed()
      modifies this`elements
      ensures Visible() == Applied(old(Visible()), CreateElement(id))
      ensures Indexed() <==> Tracked(old(Visible()), CreateElement(id))
      ensures Indexed() <==> id !in old(Visible()).elements || old(Visible()).elements[id] == {}
    {
      hide OverlayIndex.Agrees, Overlaid;
      UnlabelledAgreement(index, baseIndex, Visible(), id);
      OverlaidPresent(base.elements, elements, id, {});
      elements := elements[id := Present({})];
    }

    method InsertRelation(id: u64)
      requires Indexed()
      modifies this`relations
      ensures Visible() == Applied(old(Visible()), CreateRelation(id))
      ensures Indexed() <==> Tracked(old(Visible()), CreateRelation(id))
      ensures Indexed() <==> id !in old(Visible()).relations || old(Visible()).relations[id] == Untyped
    {
      hide OverlayIndex.Agrees, Overlaid;
      UntypedAgreement(index, baseIndex, Visible(), id);
      OverlaidPresent(base.relations, relations, id, Untyped);
      relations := relations[id := Present(Untyped)];
    }

    method InsertIncidence(id: u64, ends: Ends)
      requires Indexed()
      modifies this`incidences, index
      ensures Visible() == Applied(old(Visible()), CreateIncidence(id, ends))
      ensures Indexed() <==> Tracked(old(Visible()), CreateIncidence(id, ends))
      ensures Indexed() <==>
        id !in old(Visible()).incidences ||
        (old(Visible()).incidences[id].relation == ends.relation && old(Visible()).incidences[id].element == ends.element)
    {
      hide OverlayIndex.Agrees, Overlaid;
      ghost var r := Visible();
      OverlaidPresent(base.incidences, incidences, id, ends);
      incidences := incidences[id := Present(ends)];
      index.OnCreateIncidence(id, ends.relation, ends.element, ends, baseIndex, r);
    }

    // ----- recovery: one logged mutation, with its explicit id

    /** Replay keeps the index in agreement exactly when the mutation was tracked. */
    method ApplyReplayOp(m: Mutation)
      requires Indexed()
      modifies this`elements, this`relations, this`incidences, this`properties, index
      ensures Visible() == Applied(old(Visible()), m)
      ensures Indexed() <==> Tracked(old(Visible()), m)
    {
      hide OverlayIndex.Agrees, Overlaid;
      match m
      case CreateElement(id) => InsertElement(id);
      case CreateRelation(id) => InsertRelation(id);
      case CreateIncidence(id, ends) => InsertIncidence(id, ends);
      case TombstoneElement(id) => TombstoneElementInner(id);
      case TombstoneRelation(id) => TombstoneRelationInner(id);
      case TombstoneIncidence(id) => TombstoneIncidenceInner(id);
      case AddElementLabel(id, labelId) => AddElementLabelInner(id, labelId);
      case SetRelationType(id, relationType) => SetRelationTypeInner(id, relationType);
      case SetProperty(subject, key, value) => SetPropertyInner(subject, key, value);
      case RemoveProperty(subject, key) => RemovePropertyInner(subject, key);
    }

    /** Replaying a writer's log rebuilds what the writer saw, index included. */
    method Replay(ops: seq<Mutation>)
      requires Indexed() && TrackedRun(Visible(), ops)
      modifies this`elements, this`relations, this`incidences, this`properties, index
      ensures Indexed() && Visible() == Run(old(Visible()), ops)
    {
      hide OverlayIndex.Agrees, Overlaid, Applied, Tracked;
      ghost var r := Visible();
      for i := 0 to |ops|
        invariant Indexed() && Visible() == Run(r, ops[..i])
      {
        TrackedPrefix(r, ops, i + 1);
        assert ops[..i + 1] == ops[..i] + [ops[i]];
        RunExtends(r, ops[..i], ops[i]);
        ApplyReplayOp(ops[i]);
      }
      assert ops[..|ops|] == ops;
    }

    // ----- the live mutators, which log

    /** Draws an id from the watermark; `None` when the id space is exhausted. */
    method NewElement() returns (id: Option<u64>)
      requires Valid()
      modifies this`elements, this`nextElement, this`log
      ensures Valid()
      ensures id.None? <==> old(nextElement) == MAX_ID
      ensures id.None? ==> unchanged(this)
      ensures id.Some? ==> id.value == old(nextElement) && nextElement == id.value + 1 && id.value !in old(Visible()).elements
      ensures id.Some? ==> Visible() == Applied(old(Visible()), CreateElement(id.value))
    {
      hide OverlayIndex.Agrees, Overlaid;
      if nextElement == MAX_ID {
        return None;
      }
      var drawn := nextElement;
      nextElement := drawn + 1;
      RunExtends(seed, log, CreateElement(drawn));
      InsertElement(drawn);
      log := log + [CreateElement(drawn)];
      id := Some(drawn);
    }

    method NewRelation() returns (id: Option<u64>)
      requires Valid()
      modifies this`relations, this`nextRelation, this`log
      ensures Valid()
      ensures id.None? <==> old(nextRelation) == MAX_ID
      ensures id.None? ==> unchanged(this)
      ensures id.Some? ==> id.value == old(nextRelation) && nextRelation == id.value + 1 && id.value !in old(Visible()).relations
      ensures id.Some? ==> Visible() == Applied(old(Visible()), CreateRelation(id.value))
    {
      hide OverlayIndex.Agrees, Overlaid;
      if nextRelation == MAX_ID {
        return None;
      }
      var drawn := nextRelation;
      nextRelation := drawn + 1;
      RunExtends(seed, log, CreateRelation(drawn));
      InsertRelation(drawn);
      log := log + [CreateRelation(drawn)];
      id := Some(drawn);
    }

    method NewIncidence(relation: u64, element: u64, role: u64) returns (id: Option<u64>)
      requires Valid()
      modifies this`incidences, this`nextIncidence, this`log, index
      ensures Valid()
      ensures id.None? <==> old(nextIncidence) == MAX_ID
      ensures id.None? ==> unchanged(this) && unchanged(index)
      ensures id.Some? ==> id.value == old(nextIncidence) && nextIncidence == id.value + 1
      ensures id.Some? ==> id.value !in old(Visible()).incidences
      ensures id.Some? ==> Visible() == Applied(old(Visible()), CreateIncidence(id.value, Ends(relation, element, role)))
    {
      hide OverlayIndex.Agrees, Overlaid;
      if nextIncidence == MAX_ID {
        return None;
      }
      var drawn := nextIncidence;
      nextIncidence := drawn + 1;
      var m := CreateIncidence(drawn, Ends(relation, element, role));
      RunExtends(seed, log, m);
      InsertIncidence(drawn, Ends(relation, element, role));
      log := log + [m];
      id := Some(drawn);
    }

    /** Every other mutator, on a mutation that draws no id: apply it, then log it. A set of the value
        already visible is neither applied nor logged. */
    method Record(m: Mutation)
      requires Valid() && Tracked(Visible(), m)
      requires !m.CreateElement? && !m.CreateRelation? && !m.CreateIncidence?
      modifies this`elements, this`relations, this`incidences, this`properties, this`log, index
      ensures Valid() && Visible() == Applied(old(Visible()), m)
      ensures log == if Applied(old(Visible()), m) == old(Visible()) && m.SetProperty? then old(log) else old(log) + [m]
    {
      hide OverlayIndex.Agrees, Overlaid, Applied, Tracked, Run, TrackedRun, IdsBelow, Indexed;
      ghost var r := Visible();
      var same := m.SetProperty? && Lookup(base.properties, properties, (m.subject, m.key)) == Some(m.value);
      RecordedStep(seed, log, r, m, nextElement, nextRelation, nextIncidence);
      assert same == (m.SetProperty? && Applied(r, m) == r);
      hide Visible;
      if same {
        return;
      }
      ApplyReplayOp(m);
      log := log + [m];
    }

    method VisibleSubjectProperties(s: PropertySubject) returns (visible: map<u64, PropertyValue>)
      ensures visible == PropertiesOf(Visible().properties, s)
    {
      visible := Merge(PropertiesOf(base.properties, s), EntriesOf(properties, s));
      SubjectOverlaid(base.properties, properties, s);
    }
  }

  function EntriesOf(delta: map<(PropertySubject, u64), Entry<PropertyValue>>, s: PropertySubject): map<u64,
      Entry<PropertyValue>> {
    map x | x in delta && x.0 == s :: x.1 := delta[x]
  }

  /** The base properties with the entries of a delta laid over them. */
  method Merge<K(==), R>(own: map<K, R>, delta: map<K, Entry<R>>) returns (visible: map<K, R>)
    ensures visible == Overlaid(own, delta)
  {
    visible := own;
    var rest := delta.Keys;
    assert delta - rest == map[];
    NothingMerged(own);
    hide Overlaid;
    while rest != {}
      invariant rest <= delta.Keys
      invariant visible == Overlaid(own, delta - rest)
      decreases |rest|
    {
      var k :| k in rest;
      OneMoreMerged(own, delta, rest, k);
      match delta[k] {
        case Present(record) => visible := visible[k := record];
        case Gone => visible := visible - {k};
      }
      rest := rest - {k};
    }
    assert delta - {} == delta;
  }

  lemma NothingMerged<K, R>(own: map<K, R>)
    ensures Overlaid(own, map[]) == own
  {
  }

  lemma OneMoreMerged<K, R>(own: map<K, R>, delta: map<K, Entry<R>>, rest: set<K>, k: K)
    requires k in rest && rest <= delta.Keys
    ensures Overlaid(own, delta - (rest - {k}))
      == var before := Overlaid(own, delta - rest); if delta[k].Present? then before[k := delta[k].record] else before - {k}
  {
    assert delta - (rest - {k}) == (delta - rest)[k := delta[k]];
    if delta[k].Present? {
      OverlaidPresent(own, delta - rest, k, delta[k].record);
    } else {
      OverlaidGone(own, delta - rest, k);
    }
  }

  lemma OwnProperty(p: Properties, s: PropertySubject, key: u64)
    ensures key in PropertiesOf(p, s) <==> (s, key) in p
    ensures (s, key) in p ==> PropertiesOf(p, s)[key] == p[(s, key)]
  {
  }

  lemma OwnEntry(delta: map<(PropertySubject, u64), Entry<PropertyValue>>, s: PropertySubject, key: u64)
    ensures key in EntriesOf(delta, s) <==> (s, key) in delta
    ensures (s, key) in delta ==> EntriesOf(delta, s)[key] == delta[(s, key)]
  {
  }

  lemma SubjectOverlaid(base: Properties, delta: map<(PropertySubject, u64), Entry<PropertyValue>>, s: PropertySubject)
    ensures Overlaid(PropertiesOf(base, s), EntriesOf(delta, s)) == PropertiesOf(Overlaid(base, delta), s)
  {
    var left, right := Overlaid(PropertiesOf(base, s), EntriesOf(delta, s)), PropertiesOf(Overlaid(base, delta), s);
    forall key: u64
      ensures key in left <==> key in right
      ensures key in left ==> left[key] == right[key]
    {
      OwnProperty(base, s, key);
      OwnEntry(delta, s, key);
      OwnProperty(Overlaid(base, delta), s, key);
      hide PropertiesOf, EntriesOf;
    }
  }

  lemma TrackedPrefix(r: Records, ops: seq<Mutation>, n: nat)
    requires TrackedRun(r, ops) && n <= |ops|
    ensures TrackedRun(r, ops[..n])
    decreases |ops|
  {
    if n < |ops| {
      assert ops[..|ops| - 1][..n] == ops[..n];
      TrackedPrefix(r, ops[..|ops| - 1], n);
    } else {
      assert ops[..n] == ops;
    }
  }

  /** Recreating an element without touching the index is harmless exactly when it had no label. */
  lemma UnlabelledAgreement(index: OverlayIndex, base: BaseIndex, r: Records, id: u64)
    requires index.Agrees(base, r)
    ensures index.Agrees(base, r.(elements := r.elements[id := {}])) <==> LabelsOf(r.elements, id) == {}
  {
    var after := r.elements[id := {}];
    if LabelsOf(r.elements, id) != {} {
      var l :| l in LabelsOf(r.elements, id);
      assert id in ElementsWithLabel(r.elements, l) && id !in ElementsWithLabel(after, l);
      assert index.labels.Merged(base.labelMembers, l) == ElementsWithLabel(r.elements, l);
    } else {
      forall k ensures ElementsWithLabel(after, k) == ElementsWithLabel(r.elements, k) {
        assert forall e :: e in ElementsWithLabel(after, k) <==> e in ElementsWithLabel(r.elements, k);
      }
    }
  }

  lemma UntypedAgreement(index: OverlayIndex, base: BaseIndex, r: Records, id: u64)
    requires index.Agrees(base, r)
    ensures index.Agrees(base, r.(relations := r.relations[id := Untyped])) <==> KindOf(r.relations, id) == Untyped
  {
    var after := r.relations[id := Untyped];
    if KindOf(r.relations, id).Typed? {
      var t := r.relations[id].relationType;
      assert id in RelationsWithType(r.relations, t) && id !in RelationsWithType(after, t);
      assert index.types.Merged(base.relationTypeMembers, t) == RelationsWithType(r.relations, t);
    } else {
      forall k ensures RelationsWithType(after, k) == RelationsWithType(r.relations, k) {
        assert forall x :: x in RelationsWithType(after, k) <==> x in RelationsWithType(r.relations, k);
      }
    }
  }

  /** Dropping a subject's properties without touching the index is harmless exactly when it had none. */
  lemma StrippedAgreement(index: OverlayIndex, base: BaseIndex, r: Records, s: PropertySubject)
    requires index.Agrees(base, r)
    ensures index.Agrees(base, r.(properties := Stripped(r.properties, s))) <==> PropertiesOf(r.properties, s) == map[]
  {
    var after := Stripped(r.properties, s);
    if key :| key in PropertiesOf(r.properties, s) {
      var pair := (key, r.properties[(s, key)]);
      assert s in SubjectsWith(r.properties, pair) && s !in SubjectsWith(after, pair);
      assert index.equality.Merged(base.propertyEquality, pair) == SubjectsWith(r.properties, pair);
    } else {
      assert forall x :: x in r.properties && x.0 == s ==> x.1 in PropertiesOf(r.properties, s);
      assert after == r.properties;
    }
  }
}
