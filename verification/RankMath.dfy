/** Real vectors over a list of states, and the damped power step that PageRank iterates. */
module RankMath {
  import opened Options

  // ----- products, kept symbolic inside the longer proofs

  function Times(a: real, b: real): real {
    a * b
  }

  function Abs(x: real): real {
    if x < 0.0 then -x else x
  }

  lemma Distribute(k: real, x: real, y: real)
    ensures Times(k, x + y) == Times(k, x) + Times(k, y)
    ensures Times(k, x - y) == Times(k, x) - Times(k, y)
    ensures Times(x + y, k) == Times(x, k) + Times(y, k)
    ensures Times(x - y, k) == Times(x, k) - Times(y, k)
    ensures Times(x, y) == Times(y, x)
  {
  }

  lemma Units(x: real)
    ensures Times(x, 0.0) == Times(0.0, x) == 0.0 && Times(x, 1.0) == Times(1.0, x) == x
    ensures Times(x, 2.0) == 2.0 * x
  {
  }

  lemma Regroup(x: real, y: real, z: real)
    ensures Times(x, Times(y, z)) == Times(Times(x, y), z)
  {
  }

  lemma Monotone(k: real, a: real, b: real)
    requires k >= 0.0 && a <= b
    ensures Times(k, a) <= Times(k, b)
  {
  }

  lemma AbsScaled(k: real, x: real)
    requires k >= 0.0
    ensures Abs(Times(k, x)) == Times(k, Abs(x)) && Abs(Times(x, k)) == Times(Abs(x), k)
  {
  }

  lemma ProductSign(a: real, b: real)
    requires a >= 0.0 && b >= 0.0
    ensures Times(a, b) >= 0.0
  {
  }

  // ----- vectors

  function At(v: seq<real>, i: nat): real {
    if i < |v| then v[i] else 0.0
  }

  function SumOver(v: seq<real>, es: seq<nat>): real {
    if es == [] then 0.0 else SumOver(v, es[..|es| - 1]) + At(v, es[|es| - 1])
  }

  /** The L1 distance over the states. */
  function DistOver(u: seq<real>, v: seq<real>, es: seq<nat>): real {
    if es == [] then 0.0 else DistOver(u, v, es[..|es| - 1]) + Abs(At(u, es[|es| - 1]) - At(v, es[|es| - 1]))
  }

  lemma {:induction false} SumLinear(w: seq<real>, a: real, u: seq<real>, b: real, v: seq<real>, es: seq<nat>)
    requires forall e :: e in es ==> At(w, e) == Times(a, At(u, e)) + Times(b, At(v, e))
    ensures SumOver(w, es) == Times(a, SumOver(u, es)) + Times(b, SumOver(v, es))
    decreases |es|
  {
    if es == [] {
      Units(a);
      Units(b);
    } else {
      hide Times, At;
      var front, e := es[..|es| - 1], es[|es| - 1];
      SumLinear(w, a, u, b, v, front);
      Distribute(a, SumOver(u, front), At(u, e));
      Distribute(b, SumOver(v, front), At(v, e));
    }
  }

  lemma AbsCombined(d: real, a: real, c: real, t: real)
    requires d >= 0.0 && t >= 0.0
    ensures Abs(Times(d, a) + Times(c, t)) <= Times(d, Abs(a)) + Times(Abs(c), t)
  {
    AbsScaled(d, a);
    AbsScaled(t, c);
    hide Times;
  }

  /** Scaling by `d`, then shifting along a nonnegative direction, moves a difference by at most that much. */
  lemma {:induction false} DistLinear(w: seq<real>, w': seq<real>, d: real, n: seq<real>, n': seq<real>, c: real,
      t: seq<real>, es: seq<nat>)
    requires d >= 0.0
    requires forall e :: e in es ==>
      At(t, e) >= 0.0 && At(w, e) - At(w', e) == Times(d, At(n, e) - At(n', e)) + Times(c, At(t, e))
    ensures DistOver(w, w', es) <= Times(d, DistOver(n, n', es)) + Times(Abs(c), SumOver(t, es))
    decreases |es|
  {
    if es == [] {
      Units(d);
      Units(Abs(c));
    } else {
      hide Times, At, Abs;
      var front, e := es[..|es| - 1], es[|es| - 1];
      DistLinear(w, w', d, n, n', c, t, front);
      AbsCombined(d, At(n, e) - At(n', e), c, At(t, e));
      Distribute(d, DistOver(n, n', front), Abs(At(n, e) - At(n', e)));
      Distribute(Abs(c), SumOver(t, front), At(t, e));
    }
  }

  lemma {:induction false} DistTriangle(u: seq<real>, v: seq<real>, w: seq<real>, es: seq<nat>)
    ensures DistOver(u, w, es) <= DistOver(u, v, es) + DistOver(v, w, es)
    ensures DistOver(u, v, es) == DistOver(v, u, es) >= 0.0
    decreases |es|
  {
    if es != [] {
      DistTriangle(u, v, w, es[..|es| - 1]);
    }
  }

  lemma {:induction false} ZeroDist(u: seq<real>, v: seq<real>, es: seq<nat>)
    requires DistOver(u, v, es) <= 0.0
    ensures forall e :: e in es ==> At(u, e) == At(v, e)
    decreases |es|
  {
    if es != [] {
      DistTriangle(u, v, v, es[..|es| - 1]);
      ZeroDist(u, v, es[..|es| - 1]);
      assert es == es[..|es| - 1] + [es[|es| - 1]];
    }
  }

  lemma {:induction false} SameDist(v: seq<real>, es: seq<nat>)
    ensures DistOver(v, v, es) == 0.0
    decreases |es|
  {
    if es != [] {
      SameDist(v, es[..|es| - 1]);
    }
  }

  lemma {:induction false} SumSign(v: seq<real>, es: seq<nat>)
    requires forall i :: At(v, i) >= 0.0
    ensures SumOver(v, es) >= 0.0
    decreases |es|
  {
    if es != [] {
      SumSign(v, es[..|es| - 1]);
    }
  }

  function Zeros(n: nat): (v: seq<real>)
    ensures |v| == n && forall i :: At(v, i) == 0.0
  {
    seq(n, _ => 0.0)
  }

  lemma {:induction false} ZeroSums(v: seq<real>, n: nat, es: seq<nat>)
    requires forall i :: At(v, i) >= 0.0
    ensures SumOver(Zeros(n), es) == 0.0 && DistOver(v, Zeros(n), es) == SumOver(v, es)
    decreases |es|
  {
    if es != [] {
      ZeroSums(v, n, es[..|es| - 1]);
    }
  }

  // ----- one addition

  function AddAt(v: seq<real>, t: nat, x: real): seq<real> {
    if t < |v| then v[t := v[t] + x] else v
  }

  lemma {:induction false} AddAtSum(v: seq<real>, t: nat, x: real, es: seq<nat>)
    requires NoDuplicates(es) && t < |v|
    ensures SumOver(AddAt(v, t, x), es) == SumOver(v, es) + if t in es then x else 0.0
    decreases |es|
  {
    if es != [] {
      AddAtSum(v, t, x, es[..|es| - 1]);
      assert es == es[..|es| - 1] + [es[|es| - 1]];
    }
  }

  lemma {:induction false} AddAtDist(u: seq<real>, v: seq<real>, t: nat, x: real, y: real, es: seq<nat>)
    requires NoDuplicates(es) && |u| == |v|
    ensures DistOver(AddAt(u, t, x), AddAt(v, t, y), es) <= DistOver(u, v, es) + if t in es then Abs(x - y) else 0.0
    decreases |es|
  {
    if es != [] {
      AddAtDist(u, v, t, x, y, es[..|es| - 1]);
      assert es == es[..|es| - 1] + [es[|es| - 1]];
    }
  }

  // ----- one row

  /** A fraction of a state's rank that flows to `target`. */
  datatype Share = Share(target: nat, fraction: real)

  function FractionSum(shares: seq<Share>): real {
    if shares == [] then 0.0 else FractionSum(shares[..|shares| - 1]) + shares[|shares| - 1].fraction
  }

  /** Nonnegative fractions to visible states. */
  ghost predicate SharesOk(shares: seq<Share>, es: seq<nat>) {
    forall i :: 0 <= i < |shares| ==> shares[i].target in es && shares[i].fraction >= 0.0
  }

  function Spread(v: seq<real>, shares: seq<Share>, rank: real): (w: seq<real>)
    ensures |w| == |v|
  {
    if shares == [] then v
    else AddAt(Spread(v, shares[..|shares| - 1], rank), shares[|shares| - 1].target, Times(rank, shares[|shares| - 1].fraction))
  }

  lemma {:induction false} SpreadSum(v: seq<real>, shares: seq<Share>, rank: real, es: seq<nat>)
    requires NoDuplicates(es) && SharesOk(shares, es) && forall e :: e in es ==> e < |v|
    ensures SumOver(Spread(v, shares, rank), es) == SumOver(v, es) + Times(rank, FractionSum(shares))
    decreases |shares|
  {
    if shares == [] {
      Units(rank);
    } else {
      hide Times, AddAt;
      var front, last := shares[..|shares| - 1], shares[|shares| - 1];
      SpreadSum(v, front, rank, es);
      AddAtSum(Spread(v, front, rank), last.target, Times(rank, last.fraction), es);
      Distribute(rank, FractionSum(front), last.fraction);
    }
  }

  lemma {:induction false} SpreadDist(u: seq<real>, v: seq<real>, shares: seq<Share>, r: real, q: real, es: seq<nat>)
    requires NoDuplicates(es) && SharesOk(shares, es) && |u| == |v|
    ensures DistOver(Spread(u, shares, r), Spread(v, shares, q), es) <=
      DistOver(u, v, es) + Times(Abs(r - q), FractionSum(shares))
    decreases |shares|
  {
    if shares == [] {
      Units(Abs(r - q));
    } else {
      hide Times, AddAt, Abs;
      var front, last := shares[..|shares| - 1], shares[|shares| - 1];
      SpreadDist(u, v, front, r, q, es);
      AddAtDist(Spread(u, front, r), Spread(v, front, q), last.target, Times(r, last.fraction), Times(q, last.fraction), es);
      Distribute(last.fraction, r, q);
      AbsScaled(last.fraction, r - q);
      Distribute(Abs(r - q), FractionSum(front), last.fraction);
    }
  }

  lemma {:induction false} SpreadSign(v: seq<real>, shares: seq<Share>, rank: real, es: seq<nat>)
    requires SharesOk(shares, es) && rank >= 0.0 && forall i :: At(v, i) >= 0.0
    ensures forall i :: At(Spread(v, shares, rank), i) >= 0.0
    decreases |shares|
  {
    if shares != [] {
      hide Times;
      var front, last := shares[..|shares| - 1], shares[|shares| - 1];
      SpreadSign(v, front, rank, es);
      ProductSign(rank, last.fraction);
      var before := Spread(v, front, rank);
      forall i: nat ensures At(AddAt(before, last.target, Times(rank, last.fraction)), i) >= 0.0 {
        assert At(before, i) >= 0.0;
      }
    }
  }

  // ----- one sweep over the states

  /** A row spreads its whole rank over visible states, or dangles. */
  ghost predicate RowOk(shares: seq<Share>, es: seq<nat>) {
    SharesOk(shares, es) && (shares == [] || FractionSum(shares) == 1.0)
  }

  ghost predicate RowsOk(rows: nat -> seq<Share>, es: seq<nat>) {
    forall e :: e in es ==> RowOk(rows(e), es)
  }

  function Collected(rows: nat -> seq<Share>, x: seq<real>, sources: seq<nat>, n: nat): (v: seq<real>)
    ensures |v| == n
  {
    if sources == [] then Zeros(n)
    else Spread(Collected(rows, x, sources[..|sources| - 1], n), rows(sources[|sources| - 1]), At(x, sources[|sources| - 1]))
  }

  function Dangling(rows: nat -> seq<Share>, x: seq<real>, sources: seq<nat>): real {
    if sources == [] then 0.0
    else
      Dangling(rows, x, sources[..|sources| - 1]) +
        if rows(sources[|sources| - 1]) == [] then At(x, sources[|sources| - 1]) else 0.0
  }

  /** Nothing is lost: what the sweep delivers plus what dangles is what it took. */
  lemma {:induction false} SweepConserves(rows: nat -> seq<Share>, x: seq<real>, sources: seq<nat>, n: nat,
      es: seq<nat>)
    requires NoDuplicates(es) && RowsOk(rows, es) && (forall e :: e in es ==> e < n) && forall e :: e in sources ==> e in es
    ensures SumOver(Collected(rows, x, sources, n), es) + Dangling(rows, x, sources) == SumOver(x, sources)
    decreases |sources|
  {
    if sources == [] {
      ZeroSums(Zeros(n), n, es);
    } else {
      hide Times, Spread, FractionSum;
      var front, e := sources[..|sources| - 1], sources[|sources| - 1];
      SweepConserves(rows, x, front, n, es);
      SpreadSum(Collected(rows, x, front, n), rows(e), At(x, e), es);
      Units(At(x, e));
      DanglingRow(Collected(rows, x, front, n), At(x, e));
    }
  }

  lemma DanglingRow(v: seq<real>, rank: real)
    ensures Spread(v, [], rank) == v && FractionSum([]) == 0.0
  {
  }

  /** Two sweeps drift apart by no more than their inputs. */
  lemma {:induction false} SweepDist(rows: nat -> seq<Share>, x: seq<real>, y: seq<real>, sources: seq<nat>, n: nat,
      es: seq<nat>)
    requires NoDuplicates(es) && RowsOk(rows, es) && forall e :: e in sources ==> e in es
    ensures DistOver(Collected(rows, x, sources, n), Collected(rows, y, sources, n), es) +
      Abs(Dangling(rows, x, sources) - Dangling(rows, y, sources))
      <= DistOver(x, y, sources)
    decreases |sources|
  {
    if sources == [] {
      SameDist(Zeros(n), es);
    } else {
      hide Times, Spread, FractionSum;
      var front, e := sources[..|sources| - 1], sources[|sources| - 1];
      SweepDist(rows, x, y, front, n, es);
      SpreadDist(Collected(rows, x, front, n), Collected(rows, y, front, n), rows(e), At(x, e), At(y, e), es);
      Units(Abs(At(x, e) - At(y, e)));
      DanglingRow(Collected(rows, x, front, n), At(x, e));
      DanglingRow(Collected(rows, y, front, n), At(y, e));
    }
  }

  lemma {:induction false} SweepSign(rows: nat -> seq<Share>, x: seq<real>, sources: seq<nat>, n: nat, es: seq<nat>)
    requires RowsOk(rows, es) && forall e :: e in sources ==> e in es && At(x, e) >= 0.0
    ensures forall i :: At(Collected(rows, x, sources, n), i) >= 0.0
    ensures Dangling(rows, x, sources) >= 0.0
    decreases |sources|
  {
    if sources != [] {
      hide Times, Spread;
      var front, e := sources[..|sources| - 1], sources[|sources| - 1];
      SweepSign(rows, x, front, n, es);
      SpreadSign(Collected(rows, x, front, n), rows(e), At(x, e), es);
    }
  }

  // ----- the damped step

  datatype Walk = Walk(rows: nat -> seq<Share>, damping: real, teleport: seq<real>, es: seq<nat>, n: nat)

  /** Nonnegative and summing to one over the states, zero elsewhere. */
  ghost predicate Distribution(x: seq<real>, es: seq<nat>, n: nat) {
    |x| == n && (forall i :: At(x, i) >= 0.0) && (forall i :: i !in es ==> At(x, i) == 0.0) && SumOver(x, es) == 1.0
  }

  ghost predicate WalkOk(w: Walk) {
    && NoDuplicates(w.es) && RowsOk(w.rows, w.es) && (forall e :: e in w.es ==> e < w.n)
    && 0.0 <= w.damping <= 1.0 && Distribution(w.teleport, w.es, w.n)
  }

  /** The share of the teleport vector: what damping withholds plus what dangled. */
  function Scale(d: real, dangling: real): real {
    (1.0 - d) + Times(d, dangling)
  }

  /** One power iteration. */
  function Step(w: Walk, x: seq<real>): (y: seq<real>)
    ensures |y| == |x|
  {
    var next, scale := Collected(w.rows, x, w.es, w.n), Scale(w.damping, Dangling(w.rows, x, w.es));
    seq(|x|, i requires 0 <= i < |x| =>
      if i in w.es then Times(w.damping, At(next, i)) + Times(scale, At(w.teleport, i)) else x[i])
  }

  lemma StepAt(w: Walk, x: seq<real>, e: nat)
    requires e < |x|
    ensures At(Step(w, x), e) ==
      if e in w.es then Times(w.damping, At(Collected(w.rows, x, w.es, w.n), e)) +
        Times(Scale(w.damping, Dangling(w.rows, x, w.es)), At(w.teleport, e))
      else At(x, e)
  {
    hide Times, Scale, Collected, Dangling;
  }

  /** The fraction of its rank that a state sends to `e`. */
  function Flow(shares: seq<Share>, e: nat): real {
    if shares == [] then 0.0
    else Flow(shares[..|shares| - 1], e) + if shares[|shares| - 1].target == e then shares[|shares| - 1].fraction else 0.0
  }

  /** What `e` receives: from every source its rank times the fraction that it sends there. */
  function Inflow(rows: nat -> seq<Share>, x: seq<real>, sources: seq<nat>, e: nat): real {
    if sources == [] then 0.0
    else
      var s := sources[|sources| - 1];
      Inflow(rows, x, sources[..|sources| - 1], e) + At(x, s) * Flow(rows(s), e)
  }

  lemma {:induction false} SpreadAt(v: seq<real>, shares: seq<Share>, rank: real, e: nat)
    requires e < |v|
    ensures At(Spread(v, shares, rank), e) == At(v, e) + rank * Flow(shares, e)
    decreases |shares|
  {
    if shares != [] {
      hide Times;
      var front, last := shares[..|shares| - 1], shares[|shares| - 1];
      SpreadAt(v, front, rank, e);
      AddedAt(Spread(v, front, rank), last.target, Times(rank, last.fraction), e);
      DistributePlain(rank, Flow(front, e), last.fraction);
    }
  }

  lemma AddedAt(v: seq<real>, t: nat, x: real, e: nat)
    requires e < |v|
    ensures At(AddAt(v, t, x), e) == At(v, e) + if t == e then x else 0.0
  {
  }

  lemma DistributePlain(a: real, b: real, c: real)
    ensures a * (b + c) == a * b + a * c && Times(a, c) == a * c && a * 0.0 == 0.0
  {
  }

  /** Handing ranks on along every row is gathering them at every state. */
  lemma {:induction false} PushIsPull(rows: nat -> seq<Share>, x: seq<real>, sources: seq<nat>, n: nat, e: nat)
    requires e < n
    ensures At(Collected(rows, x, sources, n), e) == Inflow(rows, x, sources, e)
    decreases |sources|
  {
    if sources != [] {
      var front, s := sources[..|sources| - 1], sources[|sources| - 1];
      PushIsPull(rows, x, front, n, e);
      SpreadAt(Collected(rows, x, front, n), rows(s), At(x, s), e);
    }
  }

  /** The PageRank equation: the damped inflow, and of what damping withholds and what dangles the teleport share. */
  function Equation(w: Walk, x: seq<real>, e: nat): real {
    w.damping * Inflow(w.rows, x, w.es, e)
      + (1.0 - w.damping + w.damping * Dangling(w.rows, x, w.es)) * At(w.teleport, e)
  }

  lemma StepEquation(w: Walk, x: seq<real>, e: nat)
    requires e in w.es && e < |x| && e < w.n
    ensures At(Step(w, x), e) == Equation(w, x, e)
  {
    hide Step, Collected, Dangling, Inflow, Times, Scale;
    StepAt(w, x, e);
    PushIsPull(w.rows, x, w.es, w.n, e);
    TeleportTerms(w.damping, Inflow(w.rows, x, w.es, e), Dangling(w.rows, x, w.es), At(w.teleport, e));
  }

  lemma TeleportTerms(d: real, received: real, dangling: real, t: real)
    ensures Times(d, received) + Times(Scale(d, dangling), t) == d * received + (1.0 - d + d * dangling) * t
  {
  }

  /** A step takes distributions to distributions: nonnegative, mass exactly one, zero where invisible. */
  lemma StepConserves(w: Walk, x: seq<real>)
    requires WalkOk(w) && Distribution(x, w.es, w.n)
    ensures Distribution(Step(w, x), w.es, w.n)
  {
    hide Times, Step, Collected, Dangling, SumOver, Scale;
    var next, dangling := Collected(w.rows, x, w.es, w.n), Dangling(w.rows, x, w.es);
    var scale := Scale(w.damping, dangling);
    SweepConserves(w.rows, x, w.es, w.n, w.es);
    SweepSign(w.rows, x, w.es, w.n, w.es);
    ScaleMass(w.damping, dangling);
    var y := Step(w, x);
    forall i: nat | i < |y|
      ensures i in w.es ==> At(y, i) == Times(w.damping, At(next, i)) + Times(scale, At(w.teleport, i))
      ensures At(y, i) >= 0.0 && (i !in w.es ==> At(y, i) == 0.0)
    {
      StepAt(w, x, i);
      ProductSign(w.damping, At(next, i));
      ProductSign(scale, At(w.teleport, i));
    }
    SumLinear(y, w.damping, next, scale, w.teleport, w.es);
    Units(scale);
  }

  /** Damped mass plus the teleported share is one. */
  lemma ScaleMass(d: real, dangling: real)
    requires 0.0 <= d <= 1.0 && dangling >= 0.0
    ensures Scale(d, dangling) >= 0.0
    ensures Times(d, 1.0 - dangling) + Scale(d, dangling) == 1.0
  {
    ProductSign(d, dangling);
    Distribute(d, 1.0, dangling);
    Units(d);
  }

  /** A step brings any two vectors closer by the damping factor. */
  lemma StepContracts(w: Walk, x: seq<real>, y: seq<real>)
    requires WalkOk(w) && |x| == |y| == w.n
    ensures DistOver(Step(w, x), Step(w, y), w.es) <= Times(w.damping, DistOver(x, y, w.es))
  {
    hide Times, Step, Collected, Dangling, DistOver, SumOver, Scale, Abs;
    var next, next' := Collected(w.rows, x, w.es, w.n), Collected(w.rows, y, w.es, w.n);
    var a, b := Dangling(w.rows, x, w.es), Dangling(w.rows, y, w.es);
    var shift := Times(w.damping, a - b);
    SweepDist(w.rows, x, y, w.es, w.n, w.es);
    forall e | e in w.es
      ensures At(Step(w, x), e) - At(Step(w, y), e) ==
        Times(w.damping, At(next, e) - At(next', e)) + Times(shift, At(w.teleport, e))
    {
      StepAt(w, x, e);
      StepAt(w, y, e);
      Distribute(w.damping, At(next, e), At(next', e));
      ScaleGap(w.damping, a, b, At(w.teleport, e));
    }
    DistLinear(Step(w, x), Step(w, y), w.damping, next, next', shift, w.teleport, w.es);
    Units(Abs(shift));
    AbsScaled(w.damping, a - b);
    Distribute(w.damping, DistOver(next, next', w.es), Abs(a - b));
    Monotone(w.damping, DistOver(next, next', w.es) + Abs(a - b), DistOver(x, y, w.es));
  }

  lemma ScaleGap(d: real, a: real, b: real, t: real)
    ensures Times(Scale(d, a), t) - Times(Scale(d, b), t) == Times(Times(d, a - b), t)
  {
    Distribute(t, Scale(d, a), Scale(d, b));
    Distribute(d, a, b);
    hide Times;
  }

  /** The first step from the teleport vector moves at most `2 * damping`. */
  lemma FirstStep(w: Walk)
    requires WalkOk(w)
    ensures DistOver(Step(w, w.teleport), w.teleport, w.es) <= 2.0 * w.damping
  {
    hide Times, Step, Collected, Dangling, DistOver, SumOver, Scale;
    var next, a := Collected(w.rows, w.teleport, w.es, w.n), Dangling(w.rows, w.teleport, w.es);
    var zero, shift := Zeros(w.n), Times(w.damping, a - 1.0);
    SweepConserves(w.rows, w.teleport, w.es, w.n, w.es);
    SweepSign(w.rows, w.teleport, w.es, w.n, w.es);
    SumSign(next, w.es);
    forall e | e in w.es
      ensures At(Step(w, w.teleport), e) - At(w.teleport, e) ==
        Times(w.damping, At(next, e) - At(zero, e)) + Times(shift, At(w.teleport, e))
    {
      StepAt(w, w.teleport, e);
      ScaleGap(w.damping, a, 1.0, At(w.teleport, e));
      ScaleMass(w.damping, 1.0);
      Units(w.damping);
      Units(At(w.teleport, e));
    }
    DistLinear(Step(w, w.teleport), w.teleport, w.damping, next, zero, shift, w.teleport, w.es);
    Units(Abs(shift));
    ZeroSums(next, w.n, w.es);
    AbsScaled(w.damping, a - 1.0);
    Distribute(w.damping, SumOver(next, w.es), Abs(a - 1.0));
    Monotone(w.damping, SumOver(next, w.es) + Abs(a - 1.0), 2.0);
    Units(w.damping);
  }

  // ----- whole runs

  /** The ranks after `k` iterations, starting at the teleport vector. */
  function Orbit(w: Walk, k: nat): (x: seq<real>)
    ensures |x| == |w.teleport|
  {
    if k == 0 then w.teleport else Step(w, Orbit(w, k - 1))
  }

  /** The L1 change of the `k`-th iteration. */
  function Delta(w: Walk, k: nat): real
    requires k > 0
  {
    DistOver(Orbit(w, k), Orbit(w, k - 1), w.es)
  }

  function Pow(d: real, k: nat): real {
    if k == 0 then 1.0 else Times(d, Pow(d, k - 1))
  }

  /** Every iterate is a distribution. */
  lemma {:induction false} OrbitConserves(w: Walk, k: nat)
    requires WalkOk(w)
    ensures Distribution(Orbit(w, k), w.es, w.n)
  {
    hide Step, WalkOk, Distribution;
    if k > 0 {
      OrbitConserves(w, k - 1);
      StepConserves(w, Orbit(w, k - 1));
    } else {
      TeleportIsDistribution(w);
    }
  }

  lemma TeleportIsDistribution(w: Walk)
    requires WalkOk(w)
    ensures Distribution(w.teleport, w.es, w.n) && |w.teleport| == w.n && 0.0 <= w.damping <= 1.0
  {
  }

  /** Each change is at most the damping factor times the one before. */
  lemma DeltaShrinks(w: Walk, k: nat)
    requires WalkOk(w) && k > 0
    ensures Delta(w, k + 1) <= Times(w.damping, Delta(w, k))
  {
    TeleportIsDistribution(w);
    hide Step, WalkOk, DistOver, Times, Distribution;
    StepContracts(w, Orbit(w, k), Orbit(w, k - 1));
  }

  /** The `k`-th change is at most `2 * damping^k`. */
  lemma {:induction false} DeltaBound(w: Walk, k: nat)
    requires WalkOk(w) && k > 0
    ensures Delta(w, k) <= 2.0 * Pow(w.damping, k)
  {
    TeleportIsDistribution(w);
    hide Step, WalkOk, DistOver, Times, Distribution, Delta;
    if k == 1 {
      FirstStep(w);
      Units(w.damping);
      FirstDelta(w);
    } else {
      DeltaBound(w, k - 1);
      DeltaShrinks(w, k - 1);
      var p := Pow(w.damping, k - 1);
      Monotone(w.damping, Delta(w, k - 1), 2.0 * p);
      Distribute(w.damping, p, p);
    }
  }

  lemma FirstDelta(w: Walk)
    ensures Delta(w, 1) == DistOver(Step(w, w.teleport), w.teleport, w.es)
    ensures Pow(w.damping, 1) == w.damping
  {
    hide Step, DistOver;
    Units(w.damping);
    assert Orbit(w, 1) == Step(w, Orbit(w, 0));
    assert Pow(w.damping, 1) == Times(w.damping, Pow(w.damping, 0));
  }

  lemma {:induction false} PowFalls(d: real, j: nat, k: nat)
    requires 0.0 <= d <= 1.0 && j <= k
    ensures 0.0 <= Pow(d, k) <= Pow(d, j)
    decreases k
  {
    hide Times;
    if k == 0 {
    } else if j < k {
      PowFalls(d, j, k - 1);
      OneTimes(d, Pow(d, k - 1));
    } else {
      PowFalls(d, 0, k - 1);
      OneTimes(d, Pow(d, k - 1));
    }
  }

  lemma OneTimes(d: real, p: real)
    requires 0.0 <= d <= 1.0 && p >= 0.0
    ensures 0.0 <= Times(d, p) <= p
  {
    ProductSign(d, p);
    Monotone(p, d, 1.0);
  }

  /** Below damping one, the bound falls under any positive tolerance, and stays there. */
  lemma BoundVanishes(d: real, tolerance: real) returns (k: nat)
    requires 0.0 <= d < 1.0 && tolerance > 0.0
    ensures k > 0 && forall m :: m >= k ==> 2.0 * Pow(d, m) <= tolerance
  {
    k := BoundReached(d, tolerance);
    forall m | m >= k ensures 2.0 * Pow(d, m) <= tolerance {
      PowFalls(d, k, m);
    }
  }

  lemma BoundReached(d: real, tolerance: real) returns (k: nat)
    requires 0.0 <= d < 1.0 && tolerance > 0.0
    ensures k > 0 && 2.0 * Pow(d, k) <= tolerance
  {
    if d == 0.0 {
      k := 1;
      Units(1.0);
      assert Pow(d, 1) == Times(d, Pow(d, 0));
    } else {
      var h := 1.0 / d - 1.0;
      assert h > 0.0 && Times(d, 1.0 + h) == 1.0;
      var s := tolerance * h;
      assert s > 0.0;
      var bound := 2.0 / s;
      assert bound > 0.0 && Times(s, bound) == 2.0;
      k := bound.Floor + 1;
      var steps := k as real;
      PowBernoulli(d, h, k);
      Monotone(s, bound, steps);
      Vanishes(Pow(d, k), steps, h, tolerance);
    }
  }

  lemma Vanishes(p: real, steps: real, h: real, tolerance: real)
    requires p >= 0.0 && h > 0.0 && tolerance > 0.0 && steps > 0.0
    requires 2.0 <= Times(tolerance * h, steps) && Times(p, 1.0 + Times(steps, h)) <= 1.0
    ensures 2.0 * p <= tolerance
  {
    var m := Times(steps, h);
    assert Times(tolerance, m) == Times(tolerance * h, steps);
    Monotone(p, 2.0, Times(tolerance, m));
    Regroup(p, tolerance, m);
    Regroup(tolerance, p, m);
    Distribute(p, tolerance, tolerance);
    Distribute(p, 1.0, m);
    Units(p);
    Monotone(tolerance, Times(p, m), 1.0);
    Units(tolerance);
    hide Times;
  }

  /** `damping^k` is at most `1 / (1 + k h)` when `damping = 1 / (1 + h)`. */
  lemma {:induction false} PowBernoulli(d: real, h: real, k: nat)
    requires 0.0 < d && h > 0.0 && Times(d, 1.0 + h) == 1.0
    ensures 0.0 <= Pow(d, k) && Times(Pow(d, k), 1.0 + Times(k as real, h)) <= 1.0
  {
    if k == 0 {
      Units(h);
      Units(1.0);
    } else {
      hide Times;
      PowBernoulli(d, h, k - 1);
      BernoulliStep(d, h, Pow(d, k - 1), (k - 1) as real);
      assert k as real == (k - 1) as real + 1.0;
    }
  }

  lemma BernoulliStep(d: real, h: real, p: real, j: real)
    requires 0.0 < d && h > 0.0 && Times(d, 1.0 + h) == 1.0 && p >= 0.0 && j >= 0.0
    requires Times(p, 1.0 + Times(j, h)) <= 1.0
    ensures Times(d, p) >= 0.0 && Times(Times(d, p), 1.0 + Times(j + 1.0, h)) <= 1.0
  {
    ProductSign(d, p);
    ProductSign(j, h);
    ProductSign(Times(j, h), h);
    var m := 1.0 + Times(j, h);
    Distribute(h, j, 1.0);
    Distribute(m, 1.0, h);
    Distribute(h, 1.0, Times(j, h));
    Units(h);
    Units(m);
    assert Times(m, 1.0 + h) == m + h + Times(h, Times(j, h));
    Distribute(h, Times(j, h), 0.0);
    Monotone(Times(d, p), 1.0 + Times(j + 1.0, h), Times(m, 1.0 + h));
    assert Times(Times(d, p), Times(m, 1.0 + h)) == Times(p, m) by {
      Distribute(0.0, d, p);
      Distribute(0.0, m, 1.0 + h);
      Regroup(p, d, Times(1.0 + h, m));
      Regroup(d, 1.0 + h, m);
      Units(m);
      hide Times;
    }
  }

  // ----- the stationary distribution

  ghost predicate Stationary(w: Walk, p: seq<real>) {
    |p| == w.n && Step(w, p) == p
  }

  /** Each iterate follows from the one before by the PageRank equation. */
  lemma OrbitEquation(w: Walk, k: nat, e: nat)
    requires WalkOk(w) && k > 0 && e in w.es
    ensures At(Orbit(w, k), e) == Equation(w, Orbit(w, k - 1), e)
  {
    hide Step, Equation;
    StepEquation(w, Orbit(w, k - 1), e);
  }

  /** Stationary vectors are the solutions of the PageRank equation. */
  lemma StationaryIffSolution(w: Walk, p: seq<real>)
    requires WalkOk(w) && |p| == w.n
    ensures Stationary(w, p) <==> forall e :: e in w.es ==> At(p, e) == Equation(w, p, e)
  {
    hide Step, Equation;
    forall e | e in w.es ensures At(Step(w, p), e) == Equation(w, p, e) {
      StepEquation(w, p, e);
    }
    forall e: nat | e < |p| && e !in w.es ensures At(Step(w, p), e) == At(p, e) {
      StepAt(w, p, e);
    }
    assert forall e :: e in w.es ==> e < |p|;
    hide WalkOk;
    SameEverywhere(Step(w, p), p);
  }

  lemma SameEverywhere(u: seq<real>, v: seq<real>)
    requires |u| == |v|
    ensures u == v <==> forall e: nat :: e < |u| ==> At(u, e) == At(v, e)
  {
    assert forall e: nat :: e < |u| ==> At(u, e) == u[e] && At(v, e) == v[e];
  }

  /** An iterate whose last change was `delta` lies within `damping / (1 - damping) * delta` of any stationary vector. */
  lemma NearStationary(w: Walk, x: seq<real>, p: seq<real>)
    requires WalkOk(w) && |x| == w.n && Stationary(w, p)
    ensures Times(1.0 - w.damping, DistOver(Step(w, x), p, w.es)) <= Times(w.damping, DistOver(Step(w, x), x, w.es))
  {
    hide Step, DistOver, Times;
    var y := Step(w, x);
    StepContracts(w, x, p);
    DistTriangle(x, y, p, w.es);
    DistTriangle(y, x, p, w.es);
    var near, far, last := DistOver(y, p, w.es), DistOver(x, p, w.es), DistOver(y, x, w.es);
    Monotone(w.damping, far, last + near);
    Distribute(w.damping, last, near);
    Distribute(near, 1.0, w.damping);
    Units(near);
  }

  /** So, below damping one, there is at most one. */
  lemma StationaryIsUnique(w: Walk, p: seq<real>, q: seq<real>)
    requires WalkOk(w) && w.damping < 1.0 && Stationary(w, p) && Stationary(w, q)
    ensures forall e :: e in w.es ==> At(p, e) == At(q, e)
  {
    hide Step, DistOver;
    StepContracts(w, p, q);
    NoGap(w.damping, DistOver(p, q, w.es));
    ZeroDist(p, q, w.es);
  }

  lemma NoGap(d: real, dist: real)
    requires d < 1.0 && dist <= Times(d, dist)
    ensures dist <= 0.0
  {
    hide Times;
    if dist > 0.0 {
      StrictSign(1.0 - d, dist);
      Distribute(dist, 1.0, d);
      Units(dist);
    }
  }

  lemma StrictSign(a: real, b: real)
    requires a > 0.0 && b > 0.0
    ensures Times(a, b) > 0.0
  {
  }
}
