/** Hypergraph PageRank over reals (`oxgraph-algo/src/pagerank.rs`).

    Elements and relations form one state space, relation `j` being state `elementBound + j`. Elements
    hand their ranks to the relations they point to, and relations to the elements they point to, so
    the two legs of an iteration are one sweep of a single walk, and what is proved of walks applies. */
module HyperPageRank {
  import opened Options
  import opened RankMath
  import opened PageRank

  /** The relations an element points to, with their weights, and the elements a relation points to,
      with the incidence weights. */
  datatype Hypergraph = Hypergraph(elementBound: nat, relationBound: nat, outgoing: nat -> seq<Edge>, targets: nat -> seq<Edge>)

  function StateBound(h: Hypergraph): nat {
    h.elementBound + h.relationBound
  }

  function States(h: Hypergraph, elements: seq<nat>, relations: seq<nat>): (states: seq<nat>)
    ensures |states| == |elements| + |relations|
  {
    elements + Shifted(relations, h.elementBound)
  }

  function ShiftShares(shares: seq<Share>, offset: nat): (shifted: seq<Share>)
    ensures |shifted| == |shares|
  {
    seq(|shares|, i requires 0 <= i < |shares| => Share(offset + shares[i].target, shares[i].fraction))
  }

  /** An element's row goes to relation states, a relation's row to element states. */
  function HyperRows(h: Hypergraph, rule: Rule, visibleElements: seq<bool>, visibleRelations: seq<bool>): nat -> seq<Share> {
    (s: nat) =>
      if s < h.elementBound then ShiftShares(Row(h.outgoing(s), visibleRelations, rule), h.elementBound)
      else Row(h.targets(s - h.elementBound), visibleElements, rule)
  }

  /** The two legs, as graphs over the other family. */
  function ElementLeg(h: Hypergraph): RankGraph {
    RankGraph(h.relationBound, h.outgoing)
  }

  function RelationLeg(h: Hypergraph): RankGraph {
    RankGraph(h.elementBound, h.targets)
  }

  /** The first refused row: elements before relations. */
  function HyperError(h: Hypergraph, rule: Rule, elements: seq<nat>, relations: seq<nat>,
      visibleElements: seq<bool>, visibleRelations: seq<bool>): Option<RankError> {
    var first := GraphError(ElementLeg(h), rule, visibleRelations, elements);
    if first.Some? then first else GraphError(RelationLeg(h), rule, visibleElements, relations)
  }

  // ----- rows over the joint state space

  lemma {:induction false} ShiftedSum(shares: seq<Share>, offset: nat)
    ensures FractionSum(ShiftShares(shares, offset)) == FractionSum(shares)
    decreases |shares|
  {
    if shares != [] {
      var front := shares[..|shares| - 1];
      ShiftedSum(front, offset);
      assert ShiftShares(shares, offset)[..|front|] == ShiftShares(front, offset);
    }
  }

  lemma HyperRowsOk(h: Hypergraph, rule: Rule, elements: seq<nat>, relations: seq<nat>, visibleElements: seq<bool>,
      visibleRelations: seq<bool>)
    requires Marks(visibleElements, elements, h.elementBound) && Marks(visibleRelations, relations, h.relationBound)
    requires HyperError(h, rule, elements, relations, visibleElements, visibleRelations).None?
    ensures RowsOk(HyperRows(h, rule, visibleElements, visibleRelations), States(h, elements, relations))
  {
    hide Row, RowOk, States, GraphError, Marks, ShiftShares;
    MarkedBound(visibleElements, elements, h.elementBound);
    LegRowsOk(ElementLeg(h), rule, visibleRelations, relations, elements);
    LegRowsOk(RelationLeg(h), rule, visibleElements, elements, relations);
    var rows, states := HyperRows(h, rule, visibleElements, visibleRelations), States(h, elements, relations);
    forall s | s in states ensures RowOk(rows(s), states) {
      StateFamily(h, elements, relations, s);
      if s in elements {
        ElementRowOk(h, elements, relations, Row(h.outgoing(s), visibleRelations, rule));
      } else {
        var r := StateRelation(h, elements, relations, s);
        RelationRowOk(h, elements, relations, Row(h.targets(r), visibleElements, rule));
      }
    }
  }

  lemma StateFamily(h: Hypergraph, elements: seq<nat>, relations: seq<nat>, s: nat)
    requires s in States(h, elements, relations) && forall e :: e in elements ==> e < h.elementBound
    ensures s in elements <==> s < h.elementBound
  {
    if s !in elements {
      var r := StateRelation(h, elements, relations, s);
    }
  }

  lemma ElementRowOk(h: Hypergraph, elements: seq<nat>, relations: seq<nat>, row: seq<Share>)
    requires RowOk(row, relations)
    ensures RowOk(ShiftShares(row, h.elementBound), States(h, elements, relations))
  {
    ShiftedSum(row, h.elementBound);
    forall i | 0 <= i < |row| ensures ShiftShares(row, h.elementBound)[i].target in States(h, elements, relations) {
      RelationState(h, elements, relations, row[i].target);
    }
  }

  lemma RelationRowOk(h: Hypergraph, elements: seq<nat>, relations: seq<nat>, row: seq<Share>)
    requires RowOk(row, elements)
    ensures RowOk(row, States(h, elements, relations))
  {
  }

  /** Every listed row of one leg spreads over the other family. */
  lemma {:induction false} LegRowsOk(g: RankGraph, rule: Rule, visible: seq<bool>, targets: seq<nat>, sources: seq<nat>)
    requires GraphError(g, rule, visible, sources).None? && Marks(visible, targets, g.bound)
    ensures forall e :: e in sources ==> RowOk(Row(g.outgoing(e), visible, rule), targets)
  {
    GraphRowsOk(g, rule, visible, targets, sources);
  }

  lemma RelationState(h: Hypergraph, elements: seq<nat>, relations: seq<nat>, r: nat)
    requires r in relations
    ensures h.elementBound + r in States(h, elements, relations)
  {
    var i :| 0 <= i < |relations| && relations[i] == r;
    assert States(h, elements, relations)[|elements| + i] == h.elementBound + r;
  }

  lemma StateRelation(h: Hypergraph, elements: seq<nat>, relations: seq<nat>, s: nat) returns (r: nat)
    requires s in States(h, elements, relations) && s !in elements
    ensures r in relations && s == h.elementBound + r
  {
    var i :| 0 <= i < |elements| + |relations| && States(h, elements, relations)[i] == s;
    r := relations[i - |elements|];
  }

  lemma StatesDistinct(h: Hypergraph, elements: seq<nat>, relations: seq<nat>)
    requires NoDuplicates(elements) && NoDuplicates(relations)
    requires (forall e :: e in elements ==> e < h.elementBound) && forall r :: r in relations ==> r < h.relationBound
    ensures NoDuplicates(States(h, elements, relations))
    ensures forall s :: s in States(h, elements, relations) ==> s < StateBound(h)
  {
    var states := States(h, elements, relations);
    forall i, j | 0 <= i < j < |states| ensures states[i] != states[j] {
      if i < |elements| {
        assert states[i] in elements;
      }
    }
    forall s | s in states ensures s < StateBound(h) {
      if s !in elements {
        var r := StateRelation(h, elements, relations, s);
      }
    }
  }

  /** Spreading to the second family leaves the first alone. */
  lemma {:induction false} SpreadSecond(a: seq<real>, b: seq<real>, shares: seq<Share>, rank: real)
    ensures Spread(a + b, ShiftShares(shares, |a|), rank) == a + Spread(b, shares, rank)
    decreases |shares|
  {
    if shares != [] {
      hide Times;
      var front, last := shares[..|shares| - 1], shares[|shares| - 1];
      SpreadSecond(a, b, front, rank);
      assert ShiftShares(shares, |a|)[..|front|] == ShiftShares(front, |a|);
      AddSecond(a, Spread(b, front, rank), last.target, Times(rank, last.fraction));
    }
  }

  lemma AddSecond(a: seq<real>, b: seq<real>, t: nat, x: real)
    ensures AddAt(a + b, |a| + t, x) == a + AddAt(b, t, x)
  {
  }

  /** Spreading to the first family leaves the second alone. */
  lemma {:induction false} SpreadFirst(a: seq<real>, b: seq<real>, shares: seq<Share>, rank: real)
    requires forall i :: 0 <= i < |shares| ==> shares[i].target < |a|
    ensures Spread(a + b, shares, rank) == Spread(a, shares, rank) + b
    decreases |shares|
  {
    if shares != [] {
      hide Times;
      var front, last := shares[..|shares| - 1], shares[|shares| - 1];
      SpreadFirst(a, b, front, rank);
      AddFirst(Spread(a, front, rank), b, last.target, Times(rank, last.fraction));
    }
  }

  lemma AddFirst(a: seq<real>, b: seq<real>, t: nat, x: real)
    requires t < |a|
    ensures AddAt(a + b, t, x) == AddAt(a, t, x) + b
  {
  }

  // ----- one sweep

  /** Elements hand their ranks to relations. */
  method SweepElements(h: Hypergraph, rule: Rule, elements: seq<nat>, x: seq<real>, ghost rows: nat -> seq<Share>,
      nextRelations: array<real>, visibleRelations: seq<bool>)
    returns (result: Outcome<real>)
    requires h.relationBound <= nextRelations.Length && h.relationBound <= |visibleRelations| && |x| == StateBound(h)
    requires forall e :: e in elements ==>
      e < h.elementBound && rows(e) == ShiftShares(Row(h.outgoing(e), visibleRelations, rule), h.elementBound)
    modifies nextRelations
    ensures GraphError(ElementLeg(h), rule, visibleRelations, elements).Some? ==>
      result == Err(GraphError(ElementLeg(h), rule, visibleRelations, elements).value)
    ensures GraphError(ElementLeg(h), rule, visibleRelations, elements).None? ==>
      && result == Ok(Dangling(rows, x, elements))
      && Zeros(h.elementBound) + nextRelations[..h.relationBound] == Collected(rows, x, elements, StateBound(h))
  {
    hide Dangling, Collected, Row, GraphError, EdgeError, FollowsRule, Refused, FirstRefused;
    ClearReals(nextRelations, h.relationBound);
    var dangling := 0.0;
    ghost var zero := Zeros(h.elementBound);
    assert nextRelations[..h.relationBound] == Zeros(h.relationBound);
    SweepStart(h, rule, visibleRelations, elements, rows, x);
    for i := 0 to |elements|
      invariant GraphError(ElementLeg(h), rule, visibleRelations, elements[..i]).None?
      invariant dangling == Dangling(rows, x, elements[..i])
      invariant zero + nextRelations[..h.relationBound] == Collected(rows, x, elements[..i], StateBound(h))
    {
      assert elements[i] in elements;
      ElementTurn(h, rule, visibleRelations, elements, rows, x, i, nextRelations[..h.relationBound]);
      var left := DistributeOutgoing(rule, h.outgoing(elements[i]), h.relationBound, x[elements[i]], nextRelations,
        visibleRelations);
      if left.Err? {
        GraphErrorStands(ElementLeg(h), rule, visibleRelations, elements, i + 1);
        return Err(left.error);
      }
      dangling := dangling + left.value;
    }
    assert elements[..|elements|] == elements;
    result := Ok(dangling);
  }

  lemma SweepStart(h: Hypergraph, rule: Rule, visible: seq<bool>, es: seq<nat>, rows: nat -> seq<Share>, x: seq<real>)
    ensures GraphError(ElementLeg(h), rule, visible, es[..0]).None? && Dangling(rows, x, es[..0]) == 0.0
    ensures Collected(rows, x, es[..0], StateBound(h)) == Zeros(h.elementBound) + Zeros(h.relationBound)
  {
    assert Zeros(StateBound(h)) == Zeros(h.elementBound) + Zeros(h.relationBound);
  }

  /** What one element's turn adds to the sweep. */
  lemma ElementTurn(h: Hypergraph, rule: Rule, visible: seq<bool>, es: seq<nat>, rows: nat -> seq<Share>,
      x: seq<real>, i: nat, relations: seq<real>)
    requires i < |es| && es[i] < h.elementBound && |x| == StateBound(h)
    requires rows(es[i]) == ShiftShares(Row(h.outgoing(es[i]), visible, rule), h.elementBound)
    requires GraphError(ElementLeg(h), rule, visible, es[..i]).None?
    requires Zeros(h.elementBound) + relations == Collected(rows, x, es[..i], StateBound(h))
    ensures GraphError(ElementLeg(h), rule, visible, es[..i + 1]) == EdgeError(h.outgoing(es[i]), h.relationBound, visible, rule)
    ensures var row := Row(h.outgoing(es[i]), visible, rule);
      && Dangling(rows, x, es[..i + 1]) == Dangling(rows, x, es[..i]) + (if row == [] then x[es[i]] else 0.0)
      && Collected(rows, x, es[..i + 1], StateBound(h)) == Zeros(h.elementBound) + Spread(relations, row, x[es[i]])
  {
    hide Row, EdgeError, Spread;
    assert es[..i + 1][..i] == es[..i];
    SpreadSecond(Zeros(h.elementBound), relations, Row(h.outgoing(es[i]), visible, rule), x[es[i]]);
  }

  /** Relations hand their ranks to elements, after the elements have handed theirs on. */
  method SweepRelations(h: Hypergraph, rule: Rule, relations: seq<nat>, x: seq<real>, ghost rows: nat -> seq<Share>,
      nextElements: array<real>, visibleElements: seq<bool>,
      ghost elements: seq<nat>, ghost received: seq<real>)
    returns (result: Outcome<real>)
    requires h.elementBound <= nextElements.Length && h.elementBound <= |visibleElements| && |x| == StateBound(h)
    requires |received| == h.relationBound
    requires Marks(visibleElements, elements, h.elementBound)
    requires forall r :: r in relations ==>
      r < h.relationBound && rows(h.elementBound + r) == Row(h.targets(r), visibleElements, rule)
    requires Zeros(h.elementBound) + received == Collected(rows, x, elements, StateBound(h))
    modifies nextElements
    ensures GraphError(RelationLeg(h), rule, visibleElements, relations).Some? ==>
      result == Err(GraphError(RelationLeg(h), rule, visibleElements, relations).value)
    ensures GraphError(RelationLeg(h), rule, visibleElements, relations).None? ==>
      && result.Ok? && Dangling(rows, x, elements) + result.value == Dangling(rows, x, States(h, elements, relations))
      && nextElements[..h.elementBound] + received == Collected(rows, x, States(h, elements, relations), StateBound(h))
  {
    hide Dangling, Collected, Row, GraphError, EdgeError, States, Marks, FollowsRule, Refused, FirstRefused;
    ClearReals(nextElements, h.elementBound);
    var dangling := 0.0;
    assert nextElements[..h.elementBound] == Zeros(h.elementBound);
    RelationStart(h, rule, visibleElements, elements, relations, rows, x);
    for i := 0 to |relations|
      invariant GraphError(RelationLeg(h), rule, visibleElements, relations[..i]).None?
      invariant Dangling(rows, x, elements) + dangling == Dangling(rows, x, States(h, elements, relations[..i]))
      invariant nextElements[..h.elementBound] + received ==
        Collected(rows, x, States(h, elements, relations[..i]), StateBound(h))
    {
      assert relations[i] in relations;
      RelationTurn(h, rule, visibleElements, elements, relations, rows, x, i, nextElements[..h.elementBound], received);
      var left := DistributeOutgoing(rule, h.targets(relations[i]), h.elementBound, x[h.elementBound + relations[i]],
        nextElements, visibleElements);
      if left.Err? {
        GraphErrorStands(RelationLeg(h), rule, visibleElements, relations, i + 1);
        return Err(left.error);
      }
      dangling := dangling + left.value;
    }
    assert relations[..|relations|] == relations;
    result := Ok(dangling);
  }

  lemma RelationStart(h: Hypergraph, rule: Rule, visible: seq<bool>, elements: seq<nat>, relations: seq<nat>,
      rows: nat -> seq<Share>, x: seq<real>)
    ensures GraphError(RelationLeg(h), rule, visible, relations[..0]).None?
    ensures States(h, elements, relations[..0]) == elements
  {
  }

  /** What one relation's turn adds to the sweep. */
  lemma RelationTurn(h: Hypergraph, rule: Rule, visible: seq<bool>, elements: seq<nat>, relations: seq<nat>,
      rows: nat -> seq<Share>, x: seq<real>, i: nat,
      next: seq<real>, received: seq<real>)
    requires i < |relations| && relations[i] < h.relationBound && |x| == StateBound(h) && |next| == h.elementBound
    requires rows(h.elementBound + relations[i]) == Row(h.targets(relations[i]), visible, rule)
    requires Marks(visible, elements, h.elementBound)
    requires GraphError(RelationLeg(h), rule, visible, relations[..i]).None?
    requires next + received == Collected(rows, x, States(h, elements, relations[..i]), StateBound(h))
    ensures GraphError(RelationLeg(h), rule, visible, relations[..i + 1]) ==
      EdgeError(h.targets(relations[i]), h.elementBound, visible, rule)
    ensures EdgeError(h.targets(relations[i]), h.elementBound, visible, rule).None? ==>
      var row, rank := Row(h.targets(relations[i]), visible, rule), x[h.elementBound + relations[i]];
      var before, after := States(h, elements, relations[..i]), States(h, elements, relations[..i + 1]);
      && Dangling(rows, x, after) == Dangling(rows, x, before) + (if row == [] then rank else 0.0)
      && Collected(rows, x, after, StateBound(h)) == Spread(next, row, rank) + received
  {
    assert relations[..i + 1][..i] == relations[..i];
    StatesGrow(h, elements, relations, i);
    if EdgeError(h.targets(relations[i]), h.elementBound, visible, rule).None? {
      RowIsOk(h.targets(relations[i]), h.elementBound, visible, rule, elements);
      hide Row, EdgeError, Spread, States;
      var row := Row(h.targets(relations[i]), visible, rule);
      assert SharesOk(row, elements);
      SpreadFirst(next, received, row, x[h.elementBound + relations[i]]);
    }
  }

  lemma StatesGrow(h: Hypergraph, elements: seq<nat>, relations: seq<nat>, i: nat)
    requires i < |relations|
    ensures States(h, elements, relations[..i + 1]) == States(h, elements, relations[..i]) + [h.elementBound + relations[i]]
  {
    assert Shifted(relations[..i + 1], h.elementBound) ==
      Shifted(relations[..i], h.elementBound) + [h.elementBound + relations[i]];
  }

  // ----- teleport

  /** The damped update of one family's states in place; returns its part of the change. */
  method ApplyFamily(members: seq<nat>, offset: nat, damping: real, scale: real, teleport: seq<real>,
      ranks: array<real>, next: seq<real>,
      ghost w: Walk, ghost x: seq<real>, ghost first: nat, ghost before: seq<real>, ghost after: seq<real>)
    returns (change: real)
    requires |next| <= ranks.Length && |before| == offset && offset + |next| + |after| == w.n == |x| && WalkOk(w)
    requires damping == w.damping && teleport == w.teleport && scale == Scale(w.damping, Dangling(w.rows, x, w.es))
    requires next == Collected(w.rows, x, w.es, w.n)[offset..offset + |next|]
    requires first + |members| <= |w.es| && w.es[first..first + |members|] == Shifted(members, offset)
    requires forall e :: e in members ==> e < |next|
    requires Updated(before + ranks[..|next|] + after, x, Step(w, x), w.es[..first])
    modifies ranks
    ensures Updated(before + ranks[..|next|] + after, x, Step(w, x), w.es[..first + |members|])
    ensures change == DistOver(Step(w, x), x, w.es[..first + |members|]) - DistOver(Step(w, x), x, w.es[..first])
  {
    hide Step, Collected, Dangling, Times, Abs, DistOver, Updated, WalkOk, TeleportUpdate, Scale, Shifted;
    change := 0.0;
    ghost var y := Step(w, x);
    for i := 0 to |members|
      invariant Updated(before + ranks[..|next|] + after, x, y, w.es[..first + i])
      invariant change == DistOver(y, x, w.es[..first + i]) - DistOver(y, x, w.es[..first])
    {
      assert members[i] in members;
      var index := members[i];
      ghost var whole := before + ranks[..|next|] + after;
      FamilyState(w, members, offset, first, i);
      WalkFits(w, x);
      TeleportStep(whole, w, x, y, w.es, first + i, scale);
      var (value, part) := TeleportUpdate(damping, scale, next[index], teleport[offset + index], ranks[index]);
      change := change + part;
      ranks[index] := value;
      assert before + ranks[..|next|] + after == whole[offset + index := value];
    }
  }

  lemma FamilyState(w: Walk, members: seq<nat>, offset: nat, first: nat, i: nat)
    requires i < |members| && first + |members| <= |w.es| && w.es[first..first + |members|] == Shifted(members, offset)
    ensures w.es[first + i] == offset + members[i]
  {
    assert w.es[first + i] == w.es[first..first + |members|][i];
  }

  lemma WalkFits(w: Walk, x: seq<real>)
    requires WalkOk(w) && |x| == w.n
    ensures |w.teleport| == w.n && NoDuplicates(w.es)
  {
  }

  // ----- power iteration

  function HyperWalk(h: Hypergraph, rule: Rule, elements: seq<nat>, relations: seq<nat>, visibleElements: seq<bool>,
      visibleRelations: seq<bool>, damping: real, teleport: seq<real>): Walk {
    Walk(HyperRows(h, rule, visibleElements, visibleRelations), damping, teleport, States(h, elements, relations), StateBound(h))
  }

  /** Both legs of one iteration; returns the dangling mass of all states. */
  method SweepBoth(h: Hypergraph, rule: Rule, elements: seq<nat>, relations: seq<nat>, x: seq<real>,
      visibleElements: seq<bool>, visibleRelations: seq<bool>,
      nextElements: array<real>, nextRelations: array<real>, ghost w: Walk)
    returns (result: Outcome<real>)
    requires nextElements != nextRelations && |x| == StateBound(h)
    requires h.elementBound <= nextElements.Length && h.elementBound <= |visibleElements|
    requires h.relationBound <= nextRelations.Length && h.relationBound <= |visibleRelations|
    requires Marks(visibleElements, elements, h.elementBound) && Marks(visibleRelations, relations, h.relationBound)
    requires w.rows == HyperRows(h, rule, visibleElements, visibleRelations)
    requires w.es == States(h, elements, relations) && w.n == StateBound(h)
    modifies nextElements, nextRelations
    ensures var error := HyperError(h, rule, elements, relations, visibleElements, visibleRelations);
      (error.Some? ==> result == Err(error.value)) && (error.None? ==> result == Ok(Dangling(w.rows, x, w.es)))
    ensures result.Ok? ==> nextElements[..h.elementBound] + nextRelations[..h.relationBound] == Collected(w.rows, x, w.es, w.n)
  {
    hide Collected, Dangling, Row, GraphError, States, Marks;
    MarkedBound(visibleElements, elements, h.elementBound);
    MarkedBound(visibleRelations, relations, h.relationBound);
    LegRows(h, rule, elements, relations, visibleElements, visibleRelations);
    var fromElements := SweepElements(h, rule, elements, x, w.rows, nextRelations, visibleRelations);
    if fromElements.Err? {
      return fromElements;
    }
    var fromRelations := SweepRelations(h, rule, relations, x, w.rows, nextElements, visibleElements, elements,
      nextRelations[..h.relationBound]);
    if fromRelations.Err? {
      return fromRelations;
    }
    result := Ok(fromElements.value + fromRelations.value);
  }

  /** The damped update of all states, elements first; returns the L1 change. */
  method ApplyHyperTeleport(h: Hypergraph, elements: seq<nat>, relations: seq<nat>, damping: real,
      teleport: seq<real>, dangling: real,
      elementRanks: array<real>, relationRanks: array<real>, nextElements: seq<real>, nextRelations: seq<real>,
        ghost w: Walk, ghost x: seq<real>)
    returns (change: real)
    requires elementRanks != relationRanks && |nextElements| == h.elementBound <= elementRanks.Length
    requires |nextRelations| == h.relationBound <= relationRanks.Length
    requires (forall e :: e in elements ==> e < h.elementBound) && forall r :: r in relations ==> r < h.relationBound
    requires WalkOk(w) && damping == w.damping && teleport == w.teleport && w.es == States(h, elements, relations)
    requires w.n == StateBound(h)
    requires x == elementRanks[..h.elementBound] + relationRanks[..h.relationBound]
    requires dangling == Dangling(w.rows, x, w.es) && nextElements + nextRelations == Collected(w.rows, x, w.es, w.n)
    modifies elementRanks, relationRanks
    ensures elementRanks[..h.elementBound] + relationRanks[..h.relationBound] == Step(w, x)
    ensures change == DistOver(Step(w, x), x, w.es)
  {
    hide Step, Collected, Dangling, Updated, WalkOk, States, DistOver, Scale;
    var scale := Scale(damping, dangling);
    StatesSplit(h, elements, relations);
    UpdatedNone(w, x);
    assert [] + elementRanks[..h.elementBound] + x[h.elementBound..] == x;
    var first := ApplyFamily(elements, 0, damping, scale, teleport, elementRanks, nextElements, w, x, 0, [], x[h.elementBound..]);
    ghost var settled := elementRanks[..h.elementBound];
    assert [] + settled + x[h.elementBound..] == settled + relationRanks[..h.relationBound] + [];
    var second := ApplyFamily(relations, h.elementBound, damping, scale, teleport, relationRanks, nextRelations, w,
      x, |elements|, settled, []);
    assert settled + relationRanks[..h.relationBound] + [] == elementRanks[..h.elementBound] + relationRanks[..h.relationBound];
    assert w.es[..|elements| + |relations|] == w.es;
    UpdatedAll(elementRanks[..h.elementBound] + relationRanks[..h.relationBound], w, x, Step(w, x));
    change := first + second;
  }

  lemma MarkedBound(visible: seq<bool>, es: seq<nat>, n: nat)
    requires Marks(visible, es, n)
    ensures forall e :: e in es ==> e < n
  {
  }

  lemma LegRows(h: Hypergraph, rule: Rule, elements: seq<nat>, relations: seq<nat>, visibleElements: seq<bool>,
      visibleRelations: seq<bool>)
    requires (forall e :: e in elements ==> e < h.elementBound) && forall r :: r in relations ==> r < h.relationBound
    ensures var rows := HyperRows(h, rule, visibleElements, visibleRelations);
      && (forall e :: e in elements ==>
        e < h.elementBound && rows(e) == ShiftShares(Row(h.outgoing(e), visibleRelations, rule), h.elementBound))
      && (forall r :: r in relations ==>
        r < h.relationBound && rows(h.elementBound + r) == Row(h.targets(r), visibleElements, rule))
  {
    hide Row, ShiftShares;
  }

  lemma StatesSplit(h: Hypergraph, elements: seq<nat>, relations: seq<nat>)
    ensures var states := States(h, elements, relations);
      states[0..|elements|] == Shifted(elements, 0) &&
        states[|elements|..|elements| + |relations|] == Shifted(relations, h.elementBound)
  {
    assert Shifted(elements, 0) == elements;
  }

  lemma UpdatedNone(w: Walk, x: seq<real>)
    ensures Updated(x, x, Step(w, x), w.es[..0]) && DistOver(Step(w, x), x, w.es[..0]) == 0.0
  {
    hide Step;
  }

  /** Iterates until a change is within the tolerance, or the iterations run out. */
  method IterateHypergraph(h: Hypergraph, rule: Rule, elements: seq<nat>, relations: seq<nat>, config: Config,
      teleport: seq<real>, visibleElements: seq<bool>, visibleRelations: seq<bool>,
      elementRanks: array<real>, relationRanks: array<real>, nextElements: array<real>, nextRelations: array<real>)
    returns (result: Outcome<Report>)
    requires elementRanks != relationRanks && elementRanks != nextElements && elementRanks != nextRelations
    requires relationRanks != nextElements && relationRanks != nextRelations && nextElements != nextRelations
    requires h.elementBound <= elementRanks.Length && h.elementBound <= nextElements.Length
    requires h.elementBound <= |visibleElements|
    requires h.relationBound <= relationRanks.Length && h.relationBound <= nextRelations.Length
    requires h.relationBound <= |visibleRelations|
    requires Marks(visibleElements, elements, h.elementBound) && Marks(visibleRelations, relations, h.relationBound)
    requires config.maxIterations > 0
    requires teleport == elementRanks[..h.elementBound] + relationRanks[..h.relationBound]
    requires var w := HyperWalk(h, rule, elements, relations, visibleElements, visibleRelations, config.damping, teleport);
      HyperError(h, rule, elements, relations, visibleElements, visibleRelations).None? ==> WalkOk(w)
    modifies elementRanks, relationRanks, nextElements, nextRelations
    ensures var error := HyperError(h, rule, elements, relations, visibleElements, visibleRelations);
      var w := HyperWalk(h, rule, elements, relations, visibleElements, visibleRelations, config.damping, teleport);
      && (error.Some? ==> result == Err(error.value))
      && (error.None? ==> Settles(w, config, result, elementRanks[..h.elementBound] + relationRanks[..h.relationBound]))
  {
    hide Step, DistOver, HyperError, Marks, WalkOk, HyperRows, States, Collected, Dangling;
    ghost var w := HyperWalk(h, rule, elements, relations, visibleElements, visibleRelations, config.damping, teleport);
    var lastDelta := 0.0;
    MarkedBound(visibleElements, elements, h.elementBound);
    MarkedBound(visibleRelations, relations, h.relationBound);
    for iteration := 1 to config.maxIterations + 1
      invariant elementRanks[..h.elementBound] + relationRanks[..h.relationBound] == Orbit(w, iteration - 1)
      invariant iteration > 1 ==>
        HyperError(h, rule, elements, relations, visibleElements, visibleRelations).None? && lastDelta == Delta(w, iteration - 1)
      invariant Unsettled(w, config.tolerance, iteration)
    {
      var x := elementRanks[..h.elementBound] + relationRanks[..h.relationBound];
      var dangling := SweepBoth(h, rule, elements, relations, x, visibleElements, visibleRelations, nextElements,
        nextRelations, w);
      if dangling.Err? {
        return Err(dangling.error);
      }
      lastDelta := ApplyHyperTeleport(h, elements, relations, config.damping, teleport, dangling.value, elementRanks,
        relationRanks,
        nextElements[..h.elementBound], nextRelations[..h.relationBound], w, x);
      OrbitStep(w, iteration);
      if lastDelta <= config.tolerance {
        return Ok(Report(iteration, lastDelta));
      }
    }
    result := Err(NonConverged(config.maxIterations, lastDelta));
  }

  // ----- personalization

  function HyperPersonalizationError(h: Hypergraph, elements: seq<nat>, relations: seq<nat>,
      input: Option<seq<real>>): Option<RankError> {
    var n := StateBound(h);
    if input.Some? && |input.value| < n then Some(PersonalizationTooShort(n, |input.value|))
    else if MemberError(elements, h.elementBound, 0, input).Some? then MemberError(elements, h.elementBound, 0, input)
    else if MemberError(relations, h.relationBound, h.elementBound, input).Some? then MemberError(relations,
      h.relationBound, h.elementBound, input)
    else if elements == [] && relations == [] then Some(EmptyState)
    else if SumOver(GivenVector(input, n), States(h, elements, relations)) <= 0.0 then Some(ZeroPersonalization)
    else None
  }

  /** Every state's value is what was given for it, in proportion. */
  ghost predicate Proportional(out: seq<real>, states: seq<nat>, n: nat, input: Option<seq<real>>) {
    forall s :: s in states ==> SumOver(GivenVector(input, n), states) * At(out, s) == Given(input, s)
  }

  method BuildHyperPersonalization(h: Hypergraph, elements: seq<nat>, relations: seq<nat>, input: Option<seq<real>>,
      out: array<real>, visibleElements: array<bool>, visibleRelations: array<bool>)
    returns (error: Option<RankError>)
    requires StateBound(h) <= out.Length && h.elementBound <= visibleElements.Length
    requires h.relationBound <= visibleRelations.Length
    requires visibleElements != visibleRelations
    modifies out, visibleElements, visibleRelations
    ensures error == HyperPersonalizationError(h, elements, relations, input)
    ensures error.None? ==> NoDuplicates(elements) && NoDuplicates(relations)
    ensures error.None? ==>
      Marks(visibleElements[..], elements, h.elementBound) && Marks(visibleRelations[..], relations, h.relationBound)
    ensures error.None? ==> Distribution(out[..StateBound(h)], States(h, elements, relations), StateBound(h))
    ensures error.None? ==> Proportional(out[..StateBound(h)], States(h, elements, relations), StateBound(h), input)
  {
    hide MemberError, Shifted, GivenVector, SumOver, States, Distribution, Filled, Given, Proportional;
    var n := StateBound(h);
    ClearReals(out, n);
    ClearFlags(visibleElements, h.elementBound);
    ClearFlags(visibleRelations, h.relationBound);
    if input.Some? && |input.value| < n {
      return Some(PersonalizationTooShort(n, |input.value|));
    }
    ghost var cleared := out[..];
    var refused, elementSum := FillPersonalization(elements, h.elementBound, 0, input, out, visibleElements);
    if refused.Some? {
      return refused;
    }
    ghost var half := out[..];
    var relationSum;
    refused, relationSum := FillPersonalization(relations, h.relationBound, h.elementBound, input, out, visibleRelations);
    if refused.Some? {
      return refused;
    }
    SumsJoin(h, elements, relations, input);
    if |elements| + |relations| == 0 {
      return Some(EmptyState);
    }
    var sum := elementSum + relationSum;
    if sum <= 0.0 {
      return Some(ZeroPersonalization);
    }
    ghost var values := out[..];
    DivideAll(out, sum);
    FilledIsDistribution(h, elements, relations, input, cleared, half, values, out[..], visibleElements[..],
      visibleRelations[..], sum);
    error := None;
  }

  lemma {:induction false} SumAppend(v: seq<real>, a: seq<nat>, b: seq<nat>)
    ensures SumOver(v, a + b) == SumOver(v, a) + SumOver(v, b)
    decreases |b|
  {
    if b == [] {
      assert a + b == a;
    } else {
      assert (a + b)[..|a + b| - 1] == a + b[..|b| - 1];
      SumAppend(v, a, b[..|b| - 1]);
    }
  }

  lemma {:induction false} SumAgrees(u: seq<real>, v: seq<real>, es: seq<nat>)
    requires forall e :: e in es ==> At(u, e) == At(v, e)
    ensures SumOver(u, es) == SumOver(v, es)
    decreases |es|
  {
    if es != [] {
      SumAgrees(u, v, es[..|es| - 1]);
    }
  }

  lemma SumsJoin(h: Hypergraph, elements: seq<nat>, relations: seq<nat>, input: Option<seq<real>>)
    requires MemberError(elements, h.elementBound, 0, input).None?
    ensures SumOver(GivenVector(input, StateBound(h)), States(h, elements, relations)) ==
      SumOver(GivenVector(input, 0 + h.elementBound), Shifted(elements, 0)) +
        SumOver(GivenVector(input, h.elementBound + h.relationBound), Shifted(relations, h.elementBound))
  {
    AcceptedMembers(elements, h.elementBound, 0, input);
    assert Shifted(elements, 0) == elements;
    SumAgrees(GivenVector(input, StateBound(h)), GivenVector(input, h.elementBound), elements);
    SumAppend(GivenVector(input, StateBound(h)), elements, Shifted(relations, h.elementBound));
  }

  /** Both families filled and divided by the sum: a distribution over all states, each family marked. */
  lemma FilledIsDistribution(h: Hypergraph, elements: seq<nat>, relations: seq<nat>, input: Option<seq<real>>,
      cleared: seq<real>, half: seq<real>, values: seq<real>, out: seq<real>, visibleElements: seq<bool>,
        visibleRelations: seq<bool>, sum: real)
    requires StateBound(h) <= |cleared| && forall k: nat :: k < StateBound(h) ==> cleared[k] == 0.0
    requires MemberError(elements, h.elementBound, 0, input).None?
    requires MemberError(relations, h.relationBound, h.elementBound, input).None?
    requires Filled(half, cleared, visibleElements, elements, h.elementBound, 0, input)
    requires Filled(values, half, visibleRelations, relations, h.relationBound, h.elementBound, input)
    requires sum > 0.0 && sum == SumOver(GivenVector(input, StateBound(h)), States(h, elements, relations))
    requires |out| == |values| && forall k: nat :: k < |out| ==> out[k] == values[k] / sum
    ensures NoDuplicates(elements) && NoDuplicates(relations)
    ensures Marks(visibleElements, elements, h.elementBound) && Marks(visibleRelations, relations, h.relationBound)
    ensures Distribution(out[..StateBound(h)], States(h, elements, relations), StateBound(h))
    ensures Proportional(out[..StateBound(h)], States(h, elements, relations), StateBound(h), input)
  {
    hide Distribution, MemberError, Filled, States, SumOver, GivenVector;
    AcceptedMembers(elements, h.elementBound, 0, input);
    AcceptedMembers(relations, h.relationBound, h.elementBound, input);
    FilledMarks(half, cleared, visibleElements, elements, h.elementBound, 0, input);
    FilledMarks(values, half, visibleRelations, relations, h.relationBound, h.elementBound, input);
    StatesDistinct(h, elements, relations);
    var n, states, raw := StateBound(h), States(h, elements, relations), GivenVector(input, StateBound(h));
    forall k: nat | k < n
      ensures values[..n][k] == if k in states then At(raw, k) else 0.0
      ensures k in states ==> At(raw, k) >= 0.0 && sum * out[k] == Given(input, k)
    {
      FilledAt(h, elements, relations, input, cleared, half, values, visibleElements, visibleRelations, k);
      BackToGiven(values[k], sum);
    }
    Normalized(values[..n], out[..n], sum, states, n, raw);
  }

  lemma FilledMarks(out: seq<real>, before: seq<real>, visible: seq<bool>, es: seq<nat>, n: nat, offset: nat,
      input: Option<seq<real>>)
    requires Filled(out, before, visible, es, n, offset, input) && forall e :: e in es ==> e < n
    ensures |out| == |before| && Marks(visible, es, n)
  {
  }

  lemma FilledAt(h: Hypergraph, elements: seq<nat>, relations: seq<nat>, input: Option<seq<real>>,
      cleared: seq<real>, half: seq<real>, values: seq<real>, visibleElements: seq<bool>, visibleRelations: seq<bool>, k: nat)
    requires StateBound(h) <= |cleared| && k < StateBound(h) && cleared[k] == 0.0
    requires (forall e :: e in elements ==> e < h.elementBound && Given(input, 0 + e) >= 0.0) &&
      forall r :: r in relations ==> Given(input, h.elementBound + r) >= 0.0
    requires Filled(half, cleared, visibleElements, elements, h.elementBound, 0, input)
    requires Filled(values, half, visibleRelations, relations, h.relationBound, h.elementBound, input)
    ensures |values| == |cleared| && values[k] == if k in States(h, elements, relations) then Given(input, k) else 0.0
    ensures k in States(h, elements, relations) ==> Given(input, k) >= 0.0
    ensures At(GivenVector(input, StateBound(h)), k) == Given(input, k)
  {
    if k in States(h, elements, relations) {
      StateFamily(h, elements, relations, k);
      if k !in elements {
        var r := StateRelation(h, elements, relations, k);
      }
    } else if k >= h.elementBound && k - h.elementBound in relations {
      RelationState(h, elements, relations, k - h.elementBound);
    }
  }

  // ----- the entry point

  datatype Lengths = Lengths(elementRanks: nat, relationRanks: nat, teleport: nat, nextElements: nat,
      nextRelations: nat, visibleElements: nat, visibleRelations: nat)

  /** Every buffer holds what it is for: a value for each element, each relation, or each state. */
  predicate BuffersFit(h: Hypergraph, lengths: Lengths) {
    && lengths.elementRanks >= h.elementBound && lengths.nextElements >= h.elementBound
    && lengths.visibleElements >= h.elementBound && lengths.relationRanks >= h.relationBound
    && lengths.nextRelations >= h.relationBound && lengths.visibleRelations >= h.relationBound
    && lengths.teleport >= h.elementBound + h.relationBound
  }

  function LengthError(h: Hypergraph, lengths: Lengths): (error: Option<RankError>)
    ensures error.None? <==> BuffersFit(h, lengths)
    ensures error.Some? ==> error.value.OutputTooShort? || error.value.ScratchTooShort?
    ensures error.Some? ==> error.value.required > error.value.actual
  {
    var eb, rb, n := h.elementBound, h.relationBound, StateBound(h);
    if lengths.elementRanks < eb then Some(OutputTooShort(eb, lengths.elementRanks))
    else if lengths.relationRanks < rb then Some(OutputTooShort(rb, lengths.relationRanks))
    else if lengths.teleport < n then Some(ScratchTooShort("teleport", n, lengths.teleport))
    else if lengths.nextElements < eb then Some(ScratchTooShort("next_elements", eb, lengths.nextElements))
    else if lengths.nextRelations < rb then Some(ScratchTooShort("next_relations", rb, lengths.nextRelations))
    else if lengths.visibleElements < eb then Some(ScratchTooShort("visible_elements", eb, lengths.visibleElements))
    else if lengths.visibleRelations < rb then Some(ScratchTooShort("visible_relations", rb, lengths.visibleRelations))
    else None
  }

  /** Every check before the first iteration, in order. */
  function HyperEntryError(config: Config, h: Hypergraph, lengths: Lengths, elements: seq<nat>, relations: seq<nat>,
      input: Option<seq<real>>): Option<RankError> {
    if ConfigError(config).Some? then ConfigError(config)
    else if LengthError(h, lengths).Some? then LengthError(h, lengths)
    else HyperPersonalizationError(h, elements, relations, input)
  }

  /** `shifted` is `row` with its targets taken as relations. */
  ghost predicate GoesToRelations(h: Hypergraph, shifted: seq<Share>, row: seq<Share>) {
    && |shifted| == |row|
    && forall k :: 0 <= k < |row| ==> shifted[k] == Share(h.elementBound + row[k].target, row[k].fraction)
  }

  ghost predicate ElementRowFollows(h: Hypergraph, shifted: seq<Share>, e: nat, visibleRelations: seq<bool>, rule: Rule) {
    exists row :: GoesToRelations(h, shifted, row) && FollowsRule(row, h.outgoing(e), visibleRelations, rule)
  }

  /** A proper walk on the hypergraph: elements follow the rule over the listed relations and relations over the listed
      elements, and it teleports as given. */
  ghost predicate HyperWalksOn(w: Walk, h: Hypergraph, rule: Rule, visibleElements: seq<bool>, visibleRelations: seq<bool>,
      elements: seq<nat>, relations: seq<nat>, input: Option<seq<real>>) {
    && WalkOk(w) && w.es == States(h, elements, relations) && w.n == StateBound(h) && Proportional(w.teleport, w.es, w.n, input)
    && Marks(visibleElements, elements, h.elementBound) && Marks(visibleRelations, relations, h.relationBound)
    && (forall e :: e in elements ==> ElementRowFollows(h, w.rows(e), e, visibleRelations, rule))
    && (forall r :: r in relations ==> FollowsRule(w.rows(h.elementBound + r), h.targets(r), visibleElements, rule))
  }

  lemma HyperRowsFollow(h: Hypergraph, rule: Rule, elements: seq<nat>, relations: seq<nat>, visibleElements: seq<bool>,
      visibleRelations: seq<bool>)
    requires (forall e :: e in elements ==> e < h.elementBound) && forall r :: r in relations ==> r < h.relationBound
    ensures var rows := HyperRows(h, rule, visibleElements, visibleRelations);
      && (forall e :: e in elements ==> ElementRowFollows(h, rows(e), e, visibleRelations, rule))
      && (forall r :: r in relations ==> FollowsRule(rows(h.elementBound + r), h.targets(r), visibleElements, rule))
  {
    hide Row, FollowsRule;
    var rows := HyperRows(h, rule, visibleElements, visibleRelations);
    forall e | e in elements ensures ElementRowFollows(h, rows(e), e, visibleRelations, rule) {
      RowFollowsRule(h.outgoing(e), visibleRelations, rule);
      assert GoesToRelations(h, rows(e), Row(h.outgoing(e), visibleRelations, rule));
    }
    forall r | r in relations ensures FollowsRule(rows(h.elementBound + r), h.targets(r), visibleElements, rule) {
      RowFollowsRule(h.targets(r), visibleElements, rule);
    }
  }

  method PagerankHypergraph(h: Hypergraph, rule: Rule, elements: seq<nat>, relations: seq<nat>, config: Config,
      personalization: Option<seq<real>>,
      elementRanks: array<real>, relationRanks: array<real>, teleport: array<real>, nextElements: array<real>,
        nextRelations: array<real>,
      visibleElements: array<bool>, visibleRelations: array<bool>)
    returns (result: Outcome<Report>)
    requires elementRanks != relationRanks && elementRanks != nextElements && elementRanks != nextRelations
    requires elementRanks != teleport
    requires relationRanks != nextElements && relationRanks != nextRelations && relationRanks != teleport
    requires nextElements != nextRelations && nextElements != teleport && nextRelations != teleport
    requires visibleElements != visibleRelations
    modifies elementRanks, relationRanks, teleport, nextElements, nextRelations, visibleElements, visibleRelations
    ensures config.damping < 0.0 || config.damping > 1.0 ==> result == Err(InvalidDamping(config.damping))
    ensures 0.0 <= config.damping <= 1.0 && config.tolerance < 0.0 ==> result == Err(InvalidTolerance(config.tolerance))
    ensures 0.0 <= config.damping <= 1.0 && config.tolerance >= 0.0 && config.maxIterations == 0 ==>
      result == Err(InvalidMaxIterations)
    ensures var lengths := Lengths(elementRanks.Length, relationRanks.Length, teleport.Length, nextElements.Length,
      nextRelations.Length, visibleElements.Length, visibleRelations.Length);
      var refusal := HyperEntryError(config, h, lengths, elements, relations, personalization);
      if refusal.Some? then result == Err(refusal.value)
      else
        var error := HyperError(h, rule, elements, relations, visibleElements[..], visibleRelations[..]);
        if error.Some? then result == Err(error.value)
        else
          var w := HyperWalk(h, rule, elements, relations, visibleElements[..], visibleRelations[..], config.damping,
            teleport[..StateBound(h)]);
          HyperWalksOn(w, h, rule, visibleElements[..], visibleRelations[..], elements, relations, personalization)
          && Settles(w, config, result, elementRanks[..h.elementBound] + relationRanks[..h.relationBound])
  {
    hide Settles, HyperError, HyperPersonalizationError, Distribution, States, HyperRows, HyperWalksOn, Proportional;
    var refused := ConfigError(config);
    if refused.Some? {
      return Err(refused.value);
    }
    refused := LengthError(h, Lengths(elementRanks.Length, relationRanks.Length, teleport.Length,
      nextElements.Length, nextRelations.Length, visibleElements.Length, visibleRelations.Length));
    if refused.Some? {
      return Err(refused.value);
    }
    refused := BuildHyperPersonalization(h, elements, relations, personalization, teleport, visibleElements, visibleRelations);
    if refused.Some? {
      return Err(refused.value);
    }
    InitializeHyperRanks(h, elements, relations, teleport, elementRanks, relationRanks);
    HyperWalkOk(h, rule, elements, relations, visibleElements[..], visibleRelations[..], config.damping,
      teleport[..StateBound(h)], personalization);
    result := IterateHypergraph(h, rule, elements, relations, config, teleport[..StateBound(h)], visibleElements[..],
      visibleRelations[..],
      elementRanks, relationRanks, nextElements, nextRelations);
  }

  lemma HyperWalkOk(h: Hypergraph, rule: Rule, elements: seq<nat>, relations: seq<nat>, visibleElements: seq<bool>,
      visibleRelations: seq<bool>, damping: real, teleport: seq<real>, input: Option<seq<real>>)
    requires NoDuplicates(elements) && NoDuplicates(relations)
    requires Marks(visibleElements, elements, h.elementBound) && Marks(visibleRelations, relations, h.relationBound)
    requires 0.0 <= damping <= 1.0 && Distribution(teleport, States(h, elements, relations), StateBound(h))
    requires Proportional(teleport, States(h, elements, relations), StateBound(h), input)
    ensures HyperError(h, rule, elements, relations, visibleElements, visibleRelations).None? ==>
      var w := HyperWalk(h, rule, elements, relations, visibleElements, visibleRelations, damping, teleport);
      WalkOk(w) && HyperWalksOn(w, h, rule, visibleElements, visibleRelations, elements, relations, input)
  {
    hide Distribution, HyperError, HyperRows, States, Proportional, FollowsRule, ElementRowFollows;
    MarkedBound(visibleElements, elements, h.elementBound);
    MarkedBound(visibleRelations, relations, h.relationBound);
    StatesDistinct(h, elements, relations);
    HyperRowsFollow(h, rule, elements, relations, visibleElements, visibleRelations);
    if HyperError(h, rule, elements, relations, visibleElements, visibleRelations).None? {
      HyperRowsOk(h, rule, elements, relations, visibleElements, visibleRelations);
    }
  }

  /** Starts both families at their teleport values. */
  method InitializeHyperRanks(h: Hypergraph, elements: seq<nat>, relations: seq<nat>, teleport: array<real>,
      elementRanks: array<real>, relationRanks: array<real>)
    requires elementRanks != relationRanks && teleport != elementRanks && teleport != relationRanks
    requires StateBound(h) <= teleport.Length && h.elementBound <= elementRanks.Length
    requires h.relationBound <= relationRanks.Length
    requires (forall e :: e in elements ==> e < h.elementBound) && forall r :: r in relations ==> r < h.relationBound
    requires Distribution(teleport[..StateBound(h)], States(h, elements, relations), StateBound(h))
    modifies elementRanks, relationRanks
    ensures elementRanks[..h.elementBound] + relationRanks[..h.relationBound] == teleport[..StateBound(h)]
  {
    ghost var t := teleport[..StateBound(h)];
    InitializeFamily(elements, h.elementBound, 0, teleport, elementRanks);
    InitializeFamily(relations, h.relationBound, h.elementBound, teleport, relationRanks);
    var whole := elementRanks[..h.elementBound] + relationRanks[..h.relationBound];
    forall k: nat | k < StateBound(h) ensures whole[k] == t[k] {
      UnlistedIsZero(h, elements, relations, t, k);
    }
  }

  lemma UnlistedIsZero(h: Hypergraph, elements: seq<nat>, relations: seq<nat>, t: seq<real>, k: nat)
    requires Distribution(t, States(h, elements, relations), StateBound(h)) && k < StateBound(h)
    requires forall e :: e in elements ==> e < h.elementBound
    ensures |t| == StateBound(h)
    ensures k < h.elementBound && k !in elements ==> t[k] == 0.0
    ensures k >= h.elementBound && k - h.elementBound !in relations ==> t[k] == 0.0
  {
    assert At(t, k) == t[k];
    if k in States(h, elements, relations) && k !in elements {
      var r := StateRelation(h, elements, relations, k);
    }
  }

  method InitializeFamily(members: seq<nat>, n: nat, offset: nat, teleport: array<real>, ranks: array<real>)
    requires teleport != ranks && offset + n <= teleport.Length && n <= ranks.Length && forall e :: e in members ==> e < n
    modifies ranks
    ensures forall j: nat :: j < n ==> ranks[j] == if j in members then teleport[offset + j] else 0.0
  {
    ClearReals(ranks, n);
    for i := 0 to |members|
      invariant forall j: nat :: j < n ==> ranks[j] == if j in members[..i] then teleport[offset + j] else 0.0
    {
      assert members[..i + 1] == members[..i] + [members[i]] && members[i] in members;
      ranks[members[i]] := teleport[offset + members[i]];
    }
    assert members[..|members|] == members;
  }
}
