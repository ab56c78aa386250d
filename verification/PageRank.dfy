/** Graph PageRank over reals (`oxgraph-algo/src/pagerank.rs`). */
module PageRank {
  import opened Options
  import opened RankMath

  datatype RankError =
    | EmptyState
    | InvalidDamping(damping: real)
    | InvalidTolerance(tolerance: real)
    | InvalidMaxIterations
    | OutputTooShort(required: nat, actual: nat)
    | ScratchTooShort(name: string, required: nat, actual: nat)
    | PersonalizationTooShort(required: nat, actual: nat)
    | InvalidPersonalization(index: nat, value: real)
    | ZeroPersonalization
    | IndexOutOfBounds(index: nat, bound: nat)
    | Duplicate(index: nat)
    | InvalidWeight(value: real)
    | NonConverged(iterations: nat, delta: real)

  type Outcome<+T> = Result<T, RankError>

  datatype Report = Report(iterations: nat, delta: real)

  datatype Config = Config(damping: real, tolerance: real, maxIterations: nat)

  // ----- outgoing rows

  /** An outgoing edge by its target's dense index, with its weight. */
  datatype Edge = Edge(target: nat, weight: real)

  /** Every edge counts one, or its weight. */
  datatype Rule = Uniform | Weighted

  function RuleWeight(rule: Rule, e: Edge): real {
    match rule
    case Uniform => 1.0
    case Weighted => e.weight
  }

  predicate Visible(visible: seq<bool>, i: nat) {
    i < |visible| && visible[i]
  }

  /** The first reason a row is refused: a target out of bounds, or a negative weight of an edge to a visible target. */
  function EdgeError(edges: seq<Edge>, bound: nat, visible: seq<bool>, rule: Rule): Option<RankError> {
    if edges == [] then None
    else
      var front, e := EdgeError(edges[..|edges| - 1], bound, visible, rule), edges[|edges| - 1];
      if front.Some? then front
      else if e.target >= bound then Some(IndexOutOfBounds(e.target, bound))
      else if Visible(visible, e.target) && RuleWeight(rule, e) < 0.0 then Some(InvalidWeight(e.weight))
      else None
  }

  /** The weight of the edges to visible targets. */
  function Total(edges: seq<Edge>, visible: seq<bool>, rule: Rule): real {
    if edges == [] then 0.0
    else
      var front, e := Total(edges[..|edges| - 1], visible, rule), edges[|edges| - 1];
      if Visible(visible, e.target) then front + RuleWeight(rule, e) else front
  }

  function SharesOf(edges: seq<Edge>, visible: seq<bool>, rule: Rule, total: real): seq<Share>
    requires total != 0.0
  {
    if edges == [] then []
    else
      var front, e := SharesOf(edges[..|edges| - 1], visible, rule, total), edges[|edges| - 1];
      if Visible(visible, e.target) then front + [Share(e.target, RuleWeight(rule, e) / total)] else front
  }

  /** A state's transition row: each visible edge's share of the total, or nothing when the state dangles. */
  function Row(edges: seq<Edge>, visible: seq<bool>, rule: Rule): seq<Share> {
    var total := Total(edges, visible, rule);
    if total <= 0.0 then [] else SharesOf(edges, visible, rule, total)
  }

  /** `visible` marks exactly the states of the list. */
  ghost predicate Marks(visible: seq<bool>, es: seq<nat>, n: nat) {
    (forall e :: e in es ==> e < n) && (forall i: nat :: i < n ==> (Visible(visible, i) <==> i in es))
  }

  /** An accepted row spreads the whole rank, by nonnegative fractions, over visible states. */
  lemma RowIsOk(edges: seq<Edge>, bound: nat, visible: seq<bool>, rule: Rule, es: seq<nat>)
    requires EdgeError(edges, bound, visible, rule) == None && Marks(visible, es, bound)
    ensures RowOk(Row(edges, visible, rule), es)
  {
    var total := Total(edges, visible, rule);
    if total > 0.0 {
      SharesAreOk(edges, bound, visible, rule, total, es);
      SharesSum(edges, visible, rule, total);
      SelfQuotient(total);
    }
  }

  lemma SelfQuotient(a: real)
    requires a > 0.0
    ensures a / a == 1.0
  {
  }

  lemma {:induction false} SharesAreOk(edges: seq<Edge>, bound: nat, visible: seq<bool>, rule: Rule, total: real,
      es: seq<nat>)
    requires EdgeError(edges, bound, visible, rule) == None && Marks(visible, es, bound) && total > 0.0
    ensures SharesOk(SharesOf(edges, visible, rule, total), es)
    decreases |edges|
  {
    if edges != [] {
      SharesAreOk(edges[..|edges| - 1], bound, visible, rule, total, es);
      var e := edges[|edges| - 1];
      if Visible(visible, e.target) {
        QuotientSign(RuleWeight(rule, e), total);
      }
    }
  }

  lemma QuotientSign(a: real, b: real)
    requires a >= 0.0 && b > 0.0
    ensures a / b >= 0.0
  {
  }

  lemma {:induction false} SharesSum(edges: seq<Edge>, visible: seq<bool>, rule: Rule, total: real)
    requires total > 0.0
    ensures FractionSum(SharesOf(edges, visible, rule, total)) == Total(edges, visible, rule) / total
    decreases |edges|
  {
    if edges != [] {
      var front, e := edges[..|edges| - 1], edges[|edges| - 1];
      SharesSum(front, visible, rule, total);
      var shares := SharesOf(front, visible, rule, total);
      if Visible(visible, e.target) {
        var share := Share(e.target, RuleWeight(rule, e) / total);
        assert (shares + [share])[..|shares|] == shares;
        SumOfQuotients(Total(front, visible, rule), RuleWeight(rule, e), total);
      }
    }
  }

  lemma SumOfQuotients(a: real, b: real, c: real)
    requires c > 0.0
    ensures a / c + b / c == (a + b) / c
  {
  }

  // ----- what a share is

  /** The edges to visible targets, in order. */
  function Kept(edges: seq<Edge>, visible: seq<bool>): (kept: seq<Edge>) {
    if edges == [] then []
    else
      var front, e := Kept(edges[..|edges| - 1], visible), edges[|edges| - 1];
      if e.target < |visible| && visible[e.target] then front + [e] else front
  }

  function WeightSum(edges: seq<Edge>): real {
    if edges == [] then 0.0 else WeightSum(edges[..|edges| - 1]) + edges[|edges| - 1].weight
  }

  /** Shares of the kept edges in order. Uniformly, they are equal and as many of them as there are edges make one;
      by weight, each is to one as the edge's weight is to all the weight, and without weight there are none. */
  ghost predicate FollowsRule(row: seq<Share>, edges: seq<Edge>, visible: seq<bool>, rule: Rule) {
    var kept := Kept(edges, visible);
    if rule.Weighted? && WeightSum(kept) <= 0.0 then row == []
    else
      && |row| == |kept|
      && (forall k :: 0 <= k < |row| ==> row[k].target == kept[k].target)
      && (rule.Uniform? ==> forall k :: 0 <= k < |row| ==> row[k].fraction * |kept| as real == 1.0)
      && (rule.Weighted? ==> forall k :: 0 <= k < |row| ==> row[k].fraction * WeightSum(kept) == kept[k].weight)
  }

  /** A target out of bounds, or, when weights count, a negative weight of an edge to a visible target. */
  predicate Refused(e: Edge, bound: nat, visible: seq<bool>, rule: Rule) {
    e.target >= bound || (rule.Weighted? && e.target < |visible| && visible[e.target] && e.weight < 0.0)
  }

  ghost predicate FirstRefused(edges: seq<Edge>, i: nat, bound: nat, visible: seq<bool>, rule: Rule) {
    && i < |edges| && Refused(edges[i], bound, visible, rule)
    && forall j :: 0 <= j < i ==> !Refused(edges[j], bound, visible, rule)
  }

  function Refusal(e: Edge, bound: nat): RankError {
    if e.target >= bound then IndexOutOfBounds(e.target, bound) else InvalidWeight(e.weight)
  }

  lemma {:induction false} TotalOfKept(edges: seq<Edge>, visible: seq<bool>, rule: Rule)
    ensures Total(edges, visible, rule) ==
      match rule
      case Uniform => |Kept(edges, visible)| as real
      case Weighted => WeightSum(Kept(edges, visible))
    decreases |edges|
  {
    if edges != [] {
      TotalOfKept(edges[..|edges| - 1], visible, rule);
      var front := Kept(edges[..|edges| - 1], visible);
      assert (front + [edges[|edges| - 1]])[..|front|] == front;
    }
  }

  lemma {:induction false} SharesOfKept(edges: seq<Edge>, visible: seq<bool>, rule: Rule, total: real, k: nat)
    requires total != 0.0
    ensures |SharesOf(edges, visible, rule, total)| == |Kept(edges, visible)|
    ensures k < |Kept(edges, visible)| ==>
      SharesOf(edges, visible, rule, total)[k].target == Kept(edges, visible)[k].target
      && SharesOf(edges, visible, rule, total)[k].fraction * total ==
         if rule.Uniform? then 1.0 else Kept(edges, visible)[k].weight
    decreases |edges|
  {
    if edges != [] {
      SharesOfKept(edges[..|edges| - 1], visible, rule, total, k);
      WholeOfQuotient(RuleWeight(rule, edges[|edges| - 1]), total);
    }
  }

  lemma WholeOfQuotient(a: real, b: real)
    requires b != 0.0
    ensures (a / b) * b == a
  {
  }

  /** The row of an element is what its rule says. */
  lemma RowFollowsRule(edges: seq<Edge>, visible: seq<bool>, rule: Rule)
    ensures FollowsRule(Row(edges, visible, rule), edges, visible, rule)
  {
    hide SharesOf, Total, Kept, WeightSum;
    TotalOfKept(edges, visible, rule);
    if Total(edges, visible, rule) > 0.0 {
      AllShares(edges, visible, rule, Total(edges, visible, rule));
    }
  }

  lemma AllShares(edges: seq<Edge>, visible: seq<bool>, rule: Rule, total: real)
    requires total != 0.0
    ensures var shares, kept := SharesOf(edges, visible, rule, total), Kept(edges, visible);
      && |shares| == |kept|
      && forall k :: 0 <= k < |shares| ==>
           shares[k].target == kept[k].target && shares[k].fraction * total == if rule.Uniform? then 1.0 else kept[k].weight
  {
    var shares, kept := SharesOf(edges, visible, rule, total), Kept(edges, visible);
    SharesOfKept(edges, visible, rule, total, 0);
    forall k | 0 <= k < |shares|
      ensures shares[k].target == kept[k].target && shares[k].fraction * total == if rule.Uniform? then 1.0 else kept[k].weight
    {
      SharesOfKept(edges, visible, rule, total, k);
    }
  }

  /** The error is that of the first refused edge. */
  lemma {:induction false} ErrorIsFirst(edges: seq<Edge>, bound: nat, visible: seq<bool>, rule: Rule)
    ensures EdgeError(edges, bound, visible, rule).None? <==>
      forall i :: 0 <= i < |edges| ==> !Refused(edges[i], bound, visible, rule)
    ensures forall i: nat :: FirstRefused(edges, i, bound, visible, rule) ==>
      EdgeError(edges, bound, visible, rule) == Some(Refusal(edges[i], bound))
    decreases |edges|
  {
    if edges != [] {
      var front, e := edges[..|edges| - 1], edges[|edges| - 1];
      ErrorIsFirst(front, bound, visible, rule);
      assert forall i :: 0 <= i < |front| ==> edges[i] == front[i];
    }
  }

  lemma {:induction false} ErrorStands(edges: seq<Edge>, i: nat, bound: nat, visible: seq<bool>, rule: Rule)
    requires i <= |edges| && EdgeError(edges[..i], bound, visible, rule).Some?
    ensures EdgeError(edges, bound, visible, rule) == EdgeError(edges[..i], bound, visible, rule)
    decreases |edges|
  {
    if i < |edges| {
      assert edges[..|edges| - 1][..i] == edges[..i];
      ErrorStands(edges[..|edges| - 1], i, bound, visible, rule);
    } else {
      assert edges[..i] == edges;
    }
  }

  /** The two passes over the outgoing edges: total the visible ones, then add each its share of `rank`.
      Returns what dangles. (Over the reals, `rank / degree` is `rank * (1 / degree)`.) */
  method DistributeOutgoing(rule: Rule, edges: seq<Edge>, bound: nat, rank: real, next: array<real>,
      visible: seq<bool>) returns (result: Outcome<real>)
    requires bound <= next.Length && bound <= |visible|
    modifies next
    ensures EdgeError(edges, bound, visible, rule).Some? ==> result == Err(EdgeError(edges, bound, visible, rule).value)
    ensures EdgeError(edges, bound, visible, rule).None? ==>
      && result == Ok(if Row(edges, visible, rule) == [] then rank else 0.0)
      && next[..bound] == Spread(old(next[..bound]), Row(edges, visible, rule), rank)
    ensures FollowsRule(Row(edges, visible, rule), edges, visible, rule)
    ensures result.Ok? <==> forall i :: 0 <= i < |edges| ==> !Refused(edges[i], bound, visible, rule)
    ensures forall i: nat :: FirstRefused(edges, i, bound, visible, rule) ==> result == Err(Refusal(edges[i], bound))
  {
    RowFollowsRule(edges, visible, rule);
    ErrorIsFirst(edges, bound, visible, rule);
    hide FollowsRule, Refused, FirstRefused;
    var total := 0.0;
    for i := 0 to |edges|
      invariant EdgeError(edges[..i], bound, visible, rule).None? && total == Total(edges[..i], visible, rule)
    {
      assert edges[..i + 1][..i] == edges[..i];
      var target := edges[i].target;
      if target >= bound {
        ErrorStands(edges, i + 1, bound, visible, rule);
        return Err(IndexOutOfBounds(target, bound));
      }
      if visible[target] {
        var weight := RuleWeight(rule, edges[i]);
        if weight < 0.0 {
          ErrorStands(edges, i + 1, bound, visible, rule);
          return Err(InvalidWeight(edges[i].weight));
        }
        total := total + weight;
      }
    }
    assert edges[..|edges|] == edges;
    if total <= 0.0 {
      return Ok(rank);
    }
    AddShares(rule, edges, bound, total, rank, next, visible);
    SharesPresent(edges, visible, rule, total);
    result := Ok(0.0);
  }

  /** A positive total comes from at least one visible edge. */
  lemma {:induction false} SharesPresent(edges: seq<Edge>, visible: seq<bool>, rule: Rule, total: real)
    requires total != 0.0 && Total(edges, visible, rule) != 0.0
    ensures SharesOf(edges, visible, rule, total) != []
    decreases |edges|
  {
    if edges != [] && !Visible(visible, edges[|edges| - 1].target) {
      SharesPresent(edges[..|edges| - 1], visible, rule, total);
    }
  }

  method AddShares(rule: Rule, edges: seq<Edge>, bound: nat, total: real, rank: real, next: array<real>,
      visible: seq<bool>)
    requires bound <= next.Length && bound <= |visible| && total > 0.0
    requires EdgeError(edges, bound, visible, rule).None?
    modifies next
    ensures next[..bound] == Spread(old(next[..bound]), SharesOf(edges, visible, rule, total), rank)
  {
    ghost var before := next[..bound];
    for i := 0 to |edges|
      invariant next[..bound] == Spread(before, SharesOf(edges[..i], visible, rule, total), rank)
    {
      InBound(edges, i, bound, visible, rule);
      assert edges[..i + 1][..i] == edges[..i];
      ghost var shares := SharesOf(edges[..i], visible, rule, total);
      var target := edges[i].target;
      if visible[target] {
        var fraction := RuleWeight(rule, edges[i]) / total;
        SpreadOne(before, shares, Share(target, fraction), rank);
        ghost var was := next[..bound];
        next[target] := next[target] + Times(rank, fraction);
        assert next[..bound] == AddAt(was, target, Times(rank, fraction));
      }
    }
    assert edges[..|edges|] == edges;
  }

  lemma SpreadOne(v: seq<real>, shares: seq<Share>, share: Share, rank: real)
    ensures Spread(v, shares + [share], rank) == AddAt(Spread(v, shares, rank), share.target, Times(rank, share.fraction))
  {
    assert (shares + [share])[..|shares|] == shares;
  }

  lemma {:induction false} InBound(edges: seq<Edge>, i: nat, bound: nat, visible: seq<bool>, rule: Rule)
    requires i < |edges| && EdgeError(edges, bound, visible, rule).None?
    ensures edges[i].target < bound
    decreases |edges|
  {
    if i < |edges| - 1 {
      InBound(edges[..|edges| - 1], i, bound, visible, rule);
    }
  }

  // ----- personalization

  function Given(input: Option<seq<real>>, i: nat): real {
    match input
    case None => 1.0
    case Some(values) => At(values, i)
  }

  function GivenVector(input: Option<seq<real>>, n: nat): (v: seq<real>)
    ensures |v| == n
  {
    seq(n, i requires 0 <= i < n => Given(input, i))
  }

  /** The states of one family: its dense indices after `offset`. */
  function Shifted(es: seq<nat>, offset: nat): (states: seq<nat>)
    ensures |states| == |es|
  {
    seq(|es|, i requires 0 <= i < |es| => offset + es[i])
  }

  function MemberRefusal(e: nat, repeated: bool, offset: nat, input: Option<seq<real>>): Option<RankError> {
    if repeated then Some(Duplicate(e))
    else if Given(input, offset + e) < 0.0 then Some(InvalidPersonalization(offset + e, Given(input, offset + e)))
    else None
  }

  /** The first listed member that is out of bounds, repeated, or given a negative value. */
  function MemberError(es: seq<nat>, n: nat, offset: nat, input: Option<seq<real>>): Option<RankError> {
    if es == [] then None
    else
      var front, e := MemberError(es[..|es| - 1], n, offset, input), es[|es| - 1];
      if front.Some? then front
      else if e >= n then Some(IndexOutOfBounds(e, n))
      else MemberRefusal(e, e in es[..|es| - 1], offset, input)
  }

  function PersonalizationError(es: seq<nat>, n: nat, input: Option<seq<real>>): Option<RankError> {
    if input.Some? && |input.value| < n then Some(PersonalizationTooShort(n, |input.value|))
    else if MemberError(es, n, 0, input).Some? then MemberError(es, n, 0, input)
    else if es == [] then Some(EmptyState)
    else if SumOver(GivenVector(input, n), es) <= 0.0 then Some(ZeroPersonalization)
    else None
  }

  lemma {:induction false} MemberErrorStands(es: seq<nat>, i: nat, n: nat, offset: nat, input: Option<seq<real>>)
    requires i <= |es| && MemberError(es[..i], n, offset, input).Some?
    ensures MemberError(es, n, offset, input) == MemberError(es[..i], n, offset, input)
    decreases |es|
  {
    if i < |es| {
      assert es[..|es| - 1][..i] == es[..i];
      MemberErrorStands(es[..|es| - 1], i, n, offset, input);
    } else {
      assert es[..i] == es;
    }
  }

  /** Why the `i`-th listed member is refused: out of bounds, listed before, or given a negative value. */
  predicate MemberRefused(es: seq<nat>, i: nat, n: nat, offset: nat, input: Option<seq<real>>, error: RankError)
    requires i < |es|
  {
    if es[i] >= n then error == IndexOutOfBounds(es[i], n)
    else if es[i] in es[..i] then error == Duplicate(es[i])
    else Given(input, offset + es[i]) < 0.0 && error == InvalidPersonalization(offset + es[i], Given(input, offset + es[i]))
  }

  /** The error is that of the first refused member. */
  lemma {:induction false} MemberErrorIsFirst(es: seq<nat>, n: nat, offset: nat, input: Option<seq<real>>) returns (i: nat)
    ensures MemberError(es, n, offset, input).None? ==>
      forall j, e :: 0 <= j < |es| ==> !MemberRefused(es, j, n, offset, input, e)
    ensures MemberError(es, n, offset, input).Some? ==>
      i < |es| && MemberRefused(es, i, n, offset, input, MemberError(es, n, offset, input).value)
    ensures MemberError(es, n, offset, input).Some? ==>
      forall j, e :: 0 <= j < i ==> !MemberRefused(es, j, n, offset, input, e)
    decreases |es|
  {
    i := 0;
    if es != [] {
      var front := es[..|es| - 1];
      i := MemberErrorIsFirst(front, n, offset, input);
      forall j, e | 0 <= j < |front|
        ensures MemberRefused(es, j, n, offset, input, e) == MemberRefused(front, j, n, offset, input, e)
      {
        assert front[..j] == es[..j];
      }
      if MemberError(front, n, offset, input).None? {
        i := |front|;
      }
    }
  }

  /** Accepted lists are distinct, in bounds, and given no negative value. */
  lemma {:induction false} AcceptedMembers(es: seq<nat>, n: nat, offset: nat, input: Option<seq<real>>)
    requires MemberError(es, n, offset, input).None?
    ensures NoDuplicates(es) && forall e :: e in es ==> e < n && Given(input, offset + e) >= 0.0
    decreases |es|
  {
    if es != [] {
      hide NoDuplicates, Given;
      var front, e := es[..|es| - 1], es[|es| - 1];
      AcceptedMembers(front, n, offset, input);
      StillDistinct(front, e);
      assert es == front + [e];
    } else {
      assert NoDuplicates(es);
    }
  }

  lemma StillDistinct(es: seq<nat>, e: nat)
    requires NoDuplicates(es) && e !in es
    ensures NoDuplicates(es + [e])
  {
  }

  lemma MemberStep(es: seq<nat>, i: nat, n: nat, offset: nat, input: Option<seq<real>>)
    requires i < |es| && MemberError(es[..i], n, offset, input).None?
    ensures es[..i + 1] == es[..i] + [es[i]]
    ensures MemberError(es[..i + 1], n, offset, input) ==
      if es[i] >= n then Some(IndexOutOfBounds(es[i], n))
      else MemberRefusal(es[i], es[i] in es[..i], offset, input)
    ensures var raw := GivenVector(input, offset + n);
      es[i] < n ==>
        SumOver(raw, Shifted(es[..i + 1], offset)) == SumOver(raw, Shifted(es[..i], offset)) + Given(input, offset + es[i])
  {
    assert es[..i + 1][..i] == es[..i];
    assert Shifted(es[..i + 1], offset)[..i] == Shifted(es[..i], offset);
  }

  /** The state of a listed member. */
  predicate InFamily(k: nat, es: seq<nat>, n: nat, offset: nat) {
    offset <= k < offset + n && k - offset in es
  }

  function PlacementError(e: nat, n: nat, visible: seq<bool>, offset: nat, input: Option<seq<real>>): Option<RankError>
    requires n <= |visible|
  {
    if e >= n then Some(IndexOutOfBounds(e, n)) else MemberRefusal(e, visible[e], offset, input)
  }

  method PlaceMember(index: nat, n: nat, offset: nat, input: Option<seq<real>>, out: array<real>,
      visible: array<bool>) returns (error: Option<RankError>, value: real)
    requires offset + n <= out.Length && n <= visible.Length && (input.Some? ==> offset + n <= |input.value|)
    modifies out, visible
    ensures error == PlacementError(index, n, old(visible[..]), offset, input)
    ensures error.None? ==> index < n && value == Given(input, offset + index)
    ensures error.None? ==> out[..] == old(out[..])[offset + index := value] && visible[..] == old(visible[..])[index := true]
  {
    value := 0.0;
    if index >= n {
      return Some(IndexOutOfBounds(index, n)), value;
    }
    if visible[index] {
      return Some(Duplicate(index)), value;
    }
    visible[index] := true;
    value := if input.Some? then input.value[offset + index] else 1.0;
    if value < 0.0 {
      return Some(InvalidPersonalization(offset + index, value)), value;
    }
    out[offset + index] := value;
    error := None;
  }

  /** The members seen so far are marked and hold their given values; other states are as before. */
  ghost predicate Filled(out: seq<real>, before: seq<real>, visible: seq<bool>, seen: seq<nat>, n: nat, offset: nat,
      input: Option<seq<real>>) {
    && |out| == |before| && n <= |visible|
    && (forall j :: 0 <= j < n ==> visible[j] == (j in seen))
    && forall k :: 0 <= k < |out| ==> out[k] == if InFamily(k, seen, n, offset) then Given(input, k) else before[k]
  }

  /** One more member marked and given its value. */
  lemma FilledStep(out: seq<real>, before: seq<real>, visible: seq<bool>, seen: seq<nat>, e: nat, n: nat,
      offset: nat, input: Option<seq<real>>)
    requires Filled(out, before, visible, seen, n, offset, input) && e < n && offset + n <= |out|
    ensures Filled(out[offset + e := Given(input, offset + e)], before, visible[e := true], seen + [e], n, offset, input)
  {
  }

  /** Copies the given values to the listed members' states, marking the members visible. */
  method FillPersonalization(es: seq<nat>, n: nat, offset: nat, input: Option<seq<real>>, out: array<real>,
      visible: array<bool>)
    returns (error: Option<RankError>, sum: real)
    requires offset + n <= out.Length && n <= visible.Length && (input.Some? ==> offset + n <= |input.value|)
    requires forall j :: 0 <= j < n ==> !visible[j]
    modifies out, visible
    ensures error == MemberError(es, n, offset, input)
    ensures error.None? ==> sum == SumOver(GivenVector(input, offset + n), Shifted(es, offset))
    ensures error.None? ==> Filled(out[..], old(out[..]), visible[..], es, n, offset, input)
  {
    hide MemberError, SumOver, Shifted, PlacementError, GivenVector, Filled, Given;
    ghost var raw, before := GivenVector(input, offset + n), out[..];
    sum := 0.0;
    FillStart(out[..], visible[..], es, n, offset, input);
    for i := 0 to |es|
      invariant MemberError(es[..i], n, offset, input).None? && sum == SumOver(raw, Shifted(es[..i], offset))
      invariant Filled(out[..], before, visible[..], es[..i], n, offset, input)
    {
      FillStep(out[..], before, visible[..], es, i, n, offset, input);
      var refused, value := PlaceMember(es[i], n, offset, input, out, visible);
      if refused.Some? {
        MemberErrorStands(es, i + 1, n, offset, input);
        return refused, sum;
      }
      sum := sum + value;
    }
    assert es[..|es|] == es;
    error := None;
  }

  lemma FillStart(out: seq<real>, visible: seq<bool>, es: seq<nat>, n: nat, offset: nat, input: Option<seq<real>>)
    requires n <= |visible| && forall j :: 0 <= j < n ==> !visible[j]
    ensures Filled(out, out, visible, es[..0], n, offset, input)
    ensures MemberError(es[..0], n, offset, input).None?
    ensures SumOver(GivenVector(input, offset + n), Shifted(es[..0], offset)) == 0.0
    ensures es[..|es|] == es
  {
  }

  /** What placing the next member does: the error it raises, or the values, marks and sum it leaves. */
  lemma FillStep(out: seq<real>, before: seq<real>, visible: seq<bool>, es: seq<nat>, i: nat, n: nat, offset: nat,
      input: Option<seq<real>>)
    requires i < |es| && offset + n <= |out| && n <= |visible|
    requires Filled(out, before, visible, es[..i], n, offset, input) && MemberError(es[..i], n, offset, input).None?
    ensures MemberError(es[..i + 1], n, offset, input) == PlacementError(es[i], n, visible, offset, input)
    ensures var raw, e := GivenVector(input, offset + n), es[i];
      PlacementError(e, n, visible, offset, input).None? ==>
        && SumOver(raw, Shifted(es[..i + 1], offset)) == SumOver(raw, Shifted(es[..i], offset)) + Given(input, offset + e)
        && Filled(out[offset + e := Given(input, offset + e)], before, visible[e := true], es[..i + 1], n, offset, input)
  {
    MemberStep(es, i, n, offset, input);
    if es[i] < n {
      FilledStep(out, before, visible, es[..i], es[i], n, offset, input);
    }
  }

  /** Builds the normalized teleport vector. */
  method BuildPersonalization(es: seq<nat>, n: nat, input: Option<seq<real>>, out: array<real>, visible: array<bool>)
    returns (error: Option<RankError>)
    requires n <= out.Length && n <= visible.Length
    modifies out, visible
    ensures error == PersonalizationError(es, n, input)
    ensures error.None? ==> NoDuplicates(es) && Marks(visible[..], es, n) && Distribution(out[..n], es, n)
    ensures error.None? ==> forall e :: e in es ==> Times(SumOver(GivenVector(input, n), es), out[e]) == Given(input, e)
  {
    ClearReals(out, n);
    ClearFlags(visible, n);
    if input.Some? && |input.value| < n {
      return Some(PersonalizationTooShort(n, |input.value|));
    }
    var refused, sum := FillPersonalization(es, n, 0, input, out, visible);
    assert Shifted(es, 0) == es;
    if refused.Some? {
      return refused;
    }
    if |es| == 0 {
      return Some(EmptyState);
    }
    if sum <= 0.0 {
      return Some(ZeroPersonalization);
    }
    hide Times, SumOver, Distribution;
    ghost var raw, values := GivenVector(input, n), out[..n];
    DivideAll(out, sum);
    AcceptedMembers(es, n, 0, input);
    Normalized(values, out[..n], sum, es, n, raw);
    forall e | e in es ensures Times(sum, out[e]) == Given(input, e) {
      BackToGiven(values[e], sum);
    }
    error := None;
  }

  lemma BackToGiven(a: real, sum: real)
    requires sum > 0.0
    ensures Times(sum, a / sum) == a && Times(1.0 / sum, a) == a / sum
  {
  }

  /** Dividing by the sum leaves a distribution. */
  lemma Normalized(values: seq<real>, out: seq<real>, sum: real, es: seq<nat>, n: nat, raw: seq<real>)
    requires |values| == |out| == n && |raw| == n && sum > 0.0 && sum == SumOver(raw, es)
    requires forall e :: e in es ==> e < n && At(raw, e) >= 0.0
    requires forall i: nat :: i < n ==> out[i] == values[i] / sum && values[i] == if i in es then At(raw, i) else 0.0
    ensures Distribution(out, es, n)
  {
    forall i: nat | i < n
      ensures out[i] >= 0.0 && (i !in es ==> out[i] == 0.0)
      ensures i in es ==> out[i] == Times(1.0 / sum, At(raw, i)) + Times(0.0, At(raw, i))
    {
      QuotientSign(values[i], sum);
      BackToGiven(values[i], sum);
      Units(At(raw, i));
    }
    SumLinear(out, 1.0 / sum, raw, 0.0, raw, es);
    BackToGiven(sum, sum);
    SelfQuotient(sum);
    Units(SumOver(raw, es));
  }

  method ClearReals(values: array<real>, len: nat)
    requires len <= values.Length
    modifies values
    ensures forall i :: 0 <= i < len ==> values[i] == 0.0
  {
    for i := 0 to len
      invariant forall j :: 0 <= j < i ==> values[j] == 0.0
    {
      values[i] := 0.0;
    }
  }

  method ClearFlags(values: array<bool>, len: nat)
    requires len <= values.Length
    modifies values
    ensures forall i :: 0 <= i < len ==> !values[i]
  {
    for i := 0 to len
      invariant forall j :: 0 <= j < i ==> !values[j]
    {
      values[i] := false;
    }
  }

  method DivideAll(out: array<real>, sum: real)
    requires sum > 0.0
    modifies out
    ensures forall i :: 0 <= i < out.Length ==> out[i] == old(out[i]) / sum
  {
    for i := 0 to out.Length
      invariant forall j :: 0 <= j < i ==> out[j] == old(out[j]) / sum
      invariant forall j :: i <= j < out.Length ==> out[j] == old(out[j])
    {
      out[i] := out[i] / sum;
    }
  }

  // ----- power iteration

  /** A graph by the outgoing edges of each dense index. */
  datatype RankGraph = RankGraph(bound: nat, outgoing: nat -> seq<Edge>)

  function RowsOf(g: RankGraph, rule: Rule, visible: seq<bool>): nat -> seq<Share> {
    (e: nat) => Row(g.outgoing(e), visible, rule)
  }

  /** The first refused row of the listed elements. */
  function GraphError(g: RankGraph, rule: Rule, visible: seq<bool>, es: seq<nat>): Option<RankError> {
    if es == [] then None
    else
      var front := GraphError(g, rule, visible, es[..|es| - 1]);
      if front.Some? then front else EdgeError(g.outgoing(es[|es| - 1]), g.bound, visible, rule)
  }

  lemma {:induction false} GraphErrorStands(g: RankGraph, rule: Rule, visible: seq<bool>, es: seq<nat>, i: nat)
    requires i <= |es| && GraphError(g, rule, visible, es[..i]).Some?
    ensures GraphError(g, rule, visible, es) == GraphError(g, rule, visible, es[..i])
    decreases |es|
  {
    if i < |es| {
      assert es[..|es| - 1][..i] == es[..i];
      GraphErrorStands(g, rule, visible, es[..|es| - 1], i);
    } else {
      assert es[..i] == es;
    }
  }

  lemma {:induction false} GraphRowsOk(g: RankGraph, rule: Rule, visible: seq<bool>, es: seq<nat>, sources: seq<nat>)
    requires GraphError(g, rule, visible, sources).None? && Marks(visible, es, g.bound)
    ensures forall e :: e in sources ==> RowOk(Row(g.outgoing(e), visible, rule), es)
    decreases |sources|
  {
    if sources != [] {
      var front, e := sources[..|sources| - 1], sources[|sources| - 1];
      GraphRowsOk(g, rule, visible, es, front);
      RowIsOk(g.outgoing(e), g.bound, visible, rule, es);
      assert sources == front + [e];
    }
  }

  /** The error is that of the first element with a refused row. */
  lemma {:induction false} GraphErrorIsFirst(g: RankGraph, rule: Rule, visible: seq<bool>, es: seq<nat>, i: nat)
    requires forall j :: 0 <= j < i && j < |es| ==> EdgeError(g.outgoing(es[j]), g.bound, visible, rule).None?
    ensures i >= |es| ==> GraphError(g, rule, visible, es).None?
    ensures i < |es| && EdgeError(g.outgoing(es[i]), g.bound, visible, rule).Some? ==>
      GraphError(g, rule, visible, es) == EdgeError(g.outgoing(es[i]), g.bound, visible, rule)
    decreases |es|
  {
    hide EdgeError;
    if es != [] {
      GraphErrorIsFirst(g, rule, visible, es[..|es| - 1], i);
    }
  }

  /** One pass over the elements, distributing each rank; returns the dangling mass. */
  method Sweep(g: RankGraph, rule: Rule, es: seq<nat>, ranks: array<real>, next: array<real>, visible: seq<bool>)
    returns (result: Outcome<real>)
    requires ranks != next && g.bound <= ranks.Length && g.bound <= next.Length && g.bound <= |visible|
    requires forall e :: e in es ==> e < g.bound
    modifies next
    ensures GraphError(g, rule, visible, es).Some? ==> result == Err(GraphError(g, rule, visible, es).value)
    ensures GraphError(g, rule, visible, es).None? ==>
      && result == Ok(Dangling(RowsOf(g, rule, visible), ranks[..g.bound], es))
      && next[..g.bound] == Collected(RowsOf(g, rule, visible), ranks[..g.bound], es, g.bound)
  {
    hide FollowsRule, Refused, FirstRefused;
    ghost var rows, x := RowsOf(g, rule, visible), ranks[..g.bound];
    ClearReals(next, g.bound);
    var dangling := 0.0;
    assert next[..g.bound] == Zeros(g.bound);
    for i := 0 to |es|
      invariant GraphError(g, rule, visible, es[..i]).None? && ranks[..g.bound] == x
      invariant dangling == Dangling(rows, x, es[..i])
      invariant next[..g.bound] == Collected(rows, x, es[..i], g.bound)
    {
      assert es[..i + 1][..i] == es[..i] && es[i] in es;
      var rank := ranks[es[i]];
      assert rank == At(x, es[i]);
      var left := DistributeOutgoing(rule, g.outgoing(es[i]), g.bound, rank, next, visible);
      if left.Err? {
        GraphErrorStands(g, rule, visible, es, i + 1);
        return Err(left.error);
      }
      dangling := dangling + left.value;
    }
    assert es[..|es|] == es;
    result := Ok(dangling);
  }

  lemma DistStep(u: seq<real>, v: seq<real>, es: seq<nat>, i: nat)
    ensures DistOver(u, v, es[..0]) == 0.0 && es[..|es|] == es
    ensures i < |es| ==> es[..i + 1] == es[..i] + [es[i]]
    ensures i < |es| ==> DistOver(u, v, es[..i + 1]) == DistOver(u, v, es[..i]) + Abs(At(u, es[i]) - At(v, es[i]))
  {
    if i < |es| {
      assert es[..i + 1][..i] == es[..i];
    }
  }

  /** The blended rank of one state, and its absolute change. */
  function TeleportUpdate(damping: real, scale: real, accumulated: real, teleport: real, previous: real): (real, real) {
    var value := Times(damping, accumulated) + Times(scale, teleport);
    (value, Abs(value - previous))
  }

  /** The damped update of every state in place, and the L1 change it makes. */
  method ApplyTeleport(es: seq<nat>, damping: real, teleport: seq<real>, dangling: real, ranks: array<real>,
      next: seq<real>, ghost w: Walk)
    returns (delta: real)
    requires w.n <= ranks.Length && |next| == |teleport| == w.n
    requires w.es == es && w.damping == damping && w.teleport == teleport && NoDuplicates(es) && forall e :: e in es ==> e < w.n
    requires dangling == Dangling(w.rows, ranks[..w.n], es) && next == Collected(w.rows, ranks[..w.n], es, w.n)
    modifies ranks
    ensures ranks[..w.n] == Step(w, old(ranks[..w.n]))
    ensures delta == DistOver(Step(w, old(ranks[..w.n])), old(ranks[..w.n]), es)
  {
    ghost var x := ranks[..w.n];
    ghost var y := Step(w, x);
    assert Updated(x, x, y, es[..0]);
    hide Step, Collected, Dangling, Times, Abs, DistOver, Updated, NoDuplicates, TeleportUpdate;
    delta := 0.0;
    DistStep(y, x, es, 0);
    var scale := Scale(damping, dangling);
    for i := 0 to |es|
      invariant delta == DistOver(y, x, es[..i])
      invariant Updated(ranks[..w.n], x, y, es[..i])
    {
      assert es[i] in es;
      var index := es[i];
      TeleportStep(ranks[..w.n], w, x, y, es, i, scale);
      var (value, change) := TeleportUpdate(damping, scale, next[index], teleport[index], ranks[index]);
      delta := delta + change;
      ghost var was := ranks[..w.n];
      ranks[index] := value;
      assert ranks[..w.n] == was[index := value];
    }
    assert es[..|es|] == es;
    UpdatedAll(ranks[..w.n], w, x, y);
  }

  /** What updating the next state does to the ranks and to the change so far. */
  lemma TeleportStep(r: seq<real>, w: Walk, x: seq<real>, y: seq<real>, es: seq<nat>, i: nat, scale: real)
    requires i < |es| && es == w.es && NoDuplicates(es) && y == Step(w, x) && Updated(r, x, y, es[..i])
    requires es[i] < |x| == w.n == |w.teleport| && scale == Scale(w.damping, Dangling(w.rows, x, es))
    ensures |r| == |x|
    ensures var (value, change) := TeleportUpdate(w.damping, scale, Collected(w.rows, x, es, w.n)[es[i]],
      w.teleport[es[i]], r[es[i]]);
      DistOver(y, x, es[..i + 1]) == DistOver(y, x, es[..i]) + change && Updated(r[es[i] := value], x, y, es[..i + 1])
  {
    hide Step, Collected, Dangling, Times, Abs, DistOver, Scale;
    assert es[i] in es && es[..i + 1] == es[..i] + [es[i]];
    StepAt(w, x, es[i]);
    DistStep(y, x, es, i);
  }

  lemma UpdatedAll(r: seq<real>, w: Walk, x: seq<real>, y: seq<real>)
    requires y == Step(w, x) && Updated(r, x, y, w.es)
    ensures r == y
  {
    forall j: nat | j < |r| ensures r[j] == y[j] {
      StepAt(w, x, j);
    }
  }

  /** The states seen so far hold the new vector, the others the old one. */
  ghost predicate Updated(r: seq<real>, x: seq<real>, y: seq<real>, seen: seq<nat>) {
    |r| == |x| == |y| && forall j :: 0 <= j < |r| ==> r[j] == if j in seen then y[j] else x[j]
  }

  /** No iteration before the `k`-th changed the ranks by as little as the tolerance. */
  ghost predicate Unsettled(w: Walk, tolerance: real, k: nat) {
    forall j :: 0 < j < k ==> Delta(w, j) > tolerance
  }

  function WalkOf(g: RankGraph, rule: Rule, visible: seq<bool>, es: seq<nat>, damping: real, teleport: seq<real>): Walk {
    Walk(RowsOf(g, rule, visible), damping, teleport, es, g.bound)
  }

  /** Iterates until a change is within the tolerance, or the iterations run out. */
  method IterateGraph(g: RankGraph, rule: Rule, es: seq<nat>, config: Config, teleport: array<real>,
      visible: seq<bool>, ranks: array<real>, next: array<real>)
    returns (result: Outcome<Report>)
    requires ranks != next && ranks != teleport && next != teleport && g.bound <= ranks.Length
    requires g.bound <= next.Length && g.bound <= teleport.Length
    requires NoDuplicates(es) && Marks(visible, es, g.bound) && g.bound <= |visible|
    requires ranks[..g.bound] == teleport[..g.bound] && config.maxIterations > 0
    modifies ranks, next
    ensures GraphError(g, rule, visible, es).Some? ==> result == Err(GraphError(g, rule, visible, es).value)
    ensures GraphError(g, rule, visible, es).None? ==>
      Settles(WalkOf(g, rule, visible, es, config.damping, teleport[..g.bound]), config, result, ranks[..g.bound])
  {
    hide Step, Collected, Dangling, DistOver, GraphError, Row, RowsOf;
    ghost var w := WalkOf(g, rule, visible, es, config.damping, teleport[..g.bound]);
    var lastDelta := 0.0;
    for iteration := 1 to config.maxIterations + 1
      invariant teleport[..g.bound] == w.teleport && ranks[..g.bound] == Orbit(w, iteration - 1)
      invariant iteration > 1 ==> GraphError(g, rule, visible, es).None? && lastDelta == Delta(w, iteration - 1)
      invariant Unsettled(w, config.tolerance, iteration)
    {
      var dangling := Sweep(g, rule, es, ranks, next, visible);
      if dangling.Err? {
        return Err(dangling.error);
      }
      var delta := ApplyTeleport(es, config.damping, teleport[..g.bound], dangling.value, ranks, next[..g.bound], w);
      lastDelta := delta;
      assert delta == Delta(w, iteration);
      if delta <= config.tolerance {
        return Ok(Report(iteration, delta));
      }
    }
    result := Err(NonConverged(config.maxIterations, lastDelta));
  }

  /** The iteration stops at the first change within the tolerance, or after the last iteration without one. */
  ghost predicate Settles(w: Walk, config: Config, result: Outcome<Report>, ranks: seq<real>) {
    match result
    case Ok(report) =>
      && 0 < report.iterations <= config.maxIterations
      && ranks == Orbit(w, report.iterations) && report.delta == Delta(w, report.iterations) <= config.tolerance
      && Unsettled(w, config.tolerance, report.iterations)
    case Err(error) =>
      && config.maxIterations > 0 && error == NonConverged(config.maxIterations, Delta(w, config.maxIterations))
      && ranks == Orbit(w, config.maxIterations) && Unsettled(w, config.tolerance, config.maxIterations + 1)
  }

  lemma OrbitStep(w: Walk, k: nat)
    requires k > 0
    ensures Orbit(w, k) == Step(w, Orbit(w, k - 1)) && Delta(w, k) == DistOver(Orbit(w, k), Orbit(w, k - 1), w.es)
  {
    hide Step, DistOver;
  }

  lemma AsProducts(d: real, near: real, tolerance: real)
    requires Times(1.0 - d, near) <= Times(d, tolerance)
    ensures (1.0 - d) * near <= d * tolerance
  {
  }

  /** Whatever the outcome, the ranks are a distribution; enough iterations for the damping always converge;
      and a converged result is within `damping / (1 - damping) * tolerance` of every stationary distribution. */
  lemma SettlesWell(w: Walk, config: Config, result: Outcome<Report>, ranks: seq<real>)
    requires WalkOk(w) && w.damping == config.damping && config.maxIterations > 0 && Settles(w, config, result, ranks)
    ensures Distribution(ranks, w.es, w.n)
    ensures 2.0 * Pow(config.damping, config.maxIterations) <= config.tolerance ==> result.Ok?
    ensures result.Ok? ==> forall p :: Stationary(w, p) ==>
      (1.0 - config.damping) * DistOver(ranks, p, w.es) <= config.damping * config.tolerance
  {
    hide Step, DistOver, Times, Pow, Orbit, WalkOk, Distribution;
    TeleportIsDistribution(w);
    if result.Ok? {
      var k := result.value.iterations;
      OrbitConserves(w, k);
      OrbitConserves(w, k - 1);
      forall p | Stationary(w, p) ensures (1.0 - config.damping) * DistOver(ranks, p, w.es) <= config.damping * config.tolerance {
        NearStationary(w, Orbit(w, k - 1), p);
        OrbitStep(w, k);
        Monotone(config.damping, Delta(w, k), config.tolerance);
        AsProducts(config.damping, DistOver(ranks, p, w.es), config.tolerance);
      }
    } else {
      OrbitConserves(w, config.maxIterations);
      DeltaBound(w, config.maxIterations);
    }
  }

  // ----- the entry point

  function ConfigError(config: Config): Option<RankError> {
    if config.damping < 0.0 || config.damping > 1.0 then Some(InvalidDamping(config.damping))
    else if config.tolerance < 0.0 then Some(InvalidTolerance(config.tolerance))
    else if config.maxIterations == 0 then Some(InvalidMaxIterations)
    else None
  }

  /** Every check before the first iteration, in order. */
  function EntryError(config: Config, n: nat, ranks: nat, teleport: nat, next: nat, visible: nat, es: seq<nat>,
      input: Option<seq<real>>): (error: Option<RankError>)
    ensures error.None? ==> ranks >= n && teleport >= n && next >= n && visible >= n
    ensures !(ranks >= n && teleport >= n && next >= n && visible >= n) && ConfigError(config).None? ==>
      error.Some? && (error.value.OutputTooShort? || error.value.ScratchTooShort?)
      && error.value.required == n > error.value.actual
    ensures ranks >= n && teleport >= n && next >= n && visible >= n && ConfigError(config).None? ==>
      error == PersonalizationError(es, n, input)
  {
    if ConfigError(config).Some? then ConfigError(config)
    else if ranks < n then Some(OutputTooShort(n, ranks))
    else if teleport < n then Some(ScratchTooShort("teleport", n, teleport))
    else if next < n then Some(ScratchTooShort("next", n, next))
    else if visible < n then Some(ScratchTooShort("visible_elements", n, visible))
    else PersonalizationError(es, n, input)
  }

  /** The teleport vector is what was given, or one for every state, in proportion. */
  ghost predicate Personalized(w: Walk, input: Option<seq<real>>) {
    forall e :: e in w.es ==> SumOver(GivenVector(input, w.n), w.es) * At(w.teleport, e) == Given(input, e)
  }

  /** A proper walk on the graph: its rows follow the rule over the listed elements, and it teleports as given. */
  ghost predicate WalksOn(w: Walk, g: RankGraph, rule: Rule, visible: seq<bool>, es: seq<nat>, input: Option<seq<real>>) {
    && WalkOk(w) && w.es == es && w.n == g.bound && Personalized(w, input) && Marks(visible, es, g.bound)
    && forall e :: e in es ==> FollowsRule(w.rows(e), g.outgoing(e), visible, rule)
  }

  lemma AcceptedWalk(g: RankGraph, rule: Rule, visible: seq<bool>, es: seq<nat>, damping: real, teleport: seq<real>,
      input: Option<seq<real>>)
    requires NoDuplicates(es) && Marks(visible, es, g.bound) && Distribution(teleport, es, g.bound)
    requires 0.0 <= damping <= 1.0 && GraphError(g, rule, visible, es).None? && |teleport| == g.bound
    requires forall e :: e in es ==> Times(SumOver(GivenVector(input, g.bound), es), teleport[e]) == Given(input, e)
    ensures WalksOn(WalkOf(g, rule, visible, es, damping, teleport), g, rule, visible, es, input)
  {
    hide Row, EdgeError, Distribution, GraphError, RowOk, SumOver, GivenVector, FollowsRule, Given;
    GraphRowsOk(g, rule, visible, es, es);
    forall e | e in es ensures FollowsRule(Row(g.outgoing(e), visible, rule), g.outgoing(e), visible, rule) {
      RowFollowsRule(g.outgoing(e), visible, rule);
    }
  }

  method PagerankGraph(g: RankGraph, rule: Rule, es: seq<nat>, config: Config, personalization: Option<seq<real>>,
      ranks: array<real>, teleport: array<real>, next: array<real>, visible: array<bool>)
    returns (result: Outcome<Report>)
    requires ranks != teleport && ranks != next && teleport != next
    modifies ranks, teleport, next, visible
    ensures config.damping < 0.0 || config.damping > 1.0 ==> result == Err(InvalidDamping(config.damping))
    ensures 0.0 <= config.damping <= 1.0 && config.tolerance < 0.0 ==> result == Err(InvalidTolerance(config.tolerance))
    ensures 0.0 <= config.damping <= 1.0 && config.tolerance >= 0.0 && config.maxIterations == 0 ==>
      result == Err(InvalidMaxIterations)
    ensures ConfigError(config).None? && ranks.Length < g.bound ==> result == Err(OutputTooShort(g.bound, ranks.Length))
    ensures var refusal := EntryError(config, g.bound, ranks.Length, teleport.Length, next.Length, visible.Length,
      es, personalization);
      if refusal.Some? then result == Err(refusal.value)
      else if GraphError(g, rule, visible[..], es).Some? then result == Err(GraphError(g, rule, visible[..], es).value)
      else
        var w := WalkOf(g, rule, visible[..], es, config.damping, teleport[..g.bound]);
        WalksOn(w, g, rule, visible[..], es, personalization) && Settles(w, config, result, ranks[..g.bound])
  {
    var refused := ConfigError(config);
    if refused.Some? {
      return Err(refused.value);
    }
    if ranks.Length < g.bound {
      return Err(OutputTooShort(g.bound, ranks.Length));
    }
    if teleport.Length < g.bound {
      return Err(ScratchTooShort("teleport", g.bound, teleport.Length));
    }
    if next.Length < g.bound {
      return Err(ScratchTooShort("next", g.bound, next.Length));
    }
    if visible.Length < g.bound {
      return Err(ScratchTooShort("visible_elements", g.bound, visible.Length));
    }
    hide Settles, Row, EdgeError, Distribution, GraphError, RowOk, SumOver, Times, GivenVector, WalksOn, WalkOf;
    refused := BuildPersonalization(es, g.bound, personalization, teleport, visible);
    if refused.Some? {
      return Err(refused.value);
    }
    InitializeRanks(es, g.bound, teleport, ranks);
    if GraphError(g, rule, visible[..], es).None? {
      AcceptedWalk(g, rule, visible[..], es, config.damping, teleport[..g.bound], personalization);
    }
    result := IterateGraph(g, rule, es, config, teleport, visible[..], ranks, next);
  }

  method InitializeRanks(es: seq<nat>, n: nat, teleport: array<real>, ranks: array<real>)
    requires ranks != teleport && n <= teleport.Length && n <= ranks.Length
    requires (forall e :: e in es ==> e < n) && Distribution(teleport[..n], es, n)
    modifies ranks
    ensures ranks[..n] == teleport[..n]
  {
    ClearReals(ranks, n);
    ghost var t := teleport[..n];
    for i := 0 to |es|
      invariant forall j: nat :: j < n ==> ranks[j] == if j in es[..i] then t[j] else 0.0
    {
      assert es[..i + 1] == es[..i] + [es[i]] && es[i] in es;
      ranks[es[i]] := teleport[es[i]];
    }
    assert es[..|es|] == es;
    forall j: nat | j < n ensures ranks[j] == t[j] {
      assert At(t, j) == t[j];
    }
  }
}
