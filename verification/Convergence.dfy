/** When the power iteration converges: exactly when the bound on its change falls under the tolerance. */
module Convergence {
  import opened Options
  import opened RankMath
  import opened PageRank

  // ----- a walk that attains the bound

  /** Two elements pointing at each other, with all personalization on the first. */
  function Cycle(): RankGraph {
    RankGraph(2, e => if e == 0 then [Edge(1, 1.0)] else [Edge(0, 1.0)])
  }

  function CycleWalk(damping: real): Walk {
    WalkOf(Cycle(), Uniform, [true, true], [0, 1], damping, [1.0, 0.0])
  }

  lemma CycleRow(damping: real, e: nat)
    requires e < 2
    ensures CycleWalk(damping).rows(e) == [Share(1 - e, 1.0)]
  {
    var edges := [Edge(1 - e, 1.0)];
    assert CycleWalk(damping).rows(e) == Row(edges, [true, true], Uniform);
    assert edges[..0] == [];
    SelfQuotient(1.0);
    assert Total(edges, [true, true], Uniform) == 1.0;
    assert SharesOf(edges, [true, true], Uniform, 1.0) == [] + [Share(1 - e, 1.0 / 1.0)];
  }

  lemma CycleIsWalk(damping: real)
    requires 0.0 <= damping <= 1.0
    ensures WalkOk(CycleWalk(damping))
  {
    var w := CycleWalk(damping);
    CycleRow(damping, 0);
    CycleRow(damping, 1);
    hide CycleWalk, Row, RowsOf;
    var shares0, shares1 := [Share(1, 1.0)], [Share(0, 1.0)];
    assert shares0[..0] == [] && shares1[..0] == [];
    assert FractionSum(shares0) == 1.0 && FractionSum(shares1) == 1.0;
    assert w.es == [0, 1] && w.n == 2 && w.damping == damping && w.teleport == [1.0, 0.0] by { CycleParts(damping); }
    assert [0, 1][..1] == [0] && [0][..0] == [];
    assert SumOver(w.teleport, [0]) == 1.0;
    assert SumOver(w.teleport, w.es) == 1.0;
  }

  lemma CycleParts(damping: real)
    ensures var w := CycleWalk(damping); w.es == [0, 1] && w.n == 2 && w.damping == damping && w.teleport == [1.0, 0.0]
  {
  }

  lemma SweepOne(rows: nat -> seq<Share>, x: seq<real>, sources: seq<nat>, e: nat, n: nat, target: nat)
    requires rows(e) == [Share(target, 1.0)]
    ensures Collected(rows, x, sources + [e], n) == AddAt(Collected(rows, x, sources, n), target, At(x, e))
    ensures Dangling(rows, x, sources + [e]) == Dangling(rows, x, sources)
  {
    assert (sources + [e])[..|sources|] == sources;
    SpreadOne(Collected(rows, x, sources, n), [], Share(target, 1.0), At(x, e));
    Units(At(x, e));
    assert [] + [Share(target, 1.0)] == [Share(target, 1.0)];
  }

  lemma CycleSweep(rows: nat -> seq<Share>, x: seq<real>, es: seq<nat>)
    requires |x| == 2 && es == [0, 1] && rows(0) == [Share(1, 1.0)] && rows(1) == [Share(0, 1.0)]
    ensures Collected(rows, x, es, 2) == [x[1], x[0]] && Dangling(rows, x, es) == 0.0
  {
    var none: seq<nat> := [];
    assert Collected(rows, x, none, 2) == Zeros(2) && Dangling(rows, x, none) == 0.0;
    hide Collected, Dangling;
    SweepOne(rows, x, none, 0, 2, 1);
    SweepOne(rows, x, none + [0], 1, 2, 0);
    assert none + [0] + [1] == es;
  }

  /** The ranks swap, damped, and what damping withholds returns to the first element. */
  lemma CycleStep(damping: real, x: seq<real>)
    requires |x| == 2
    ensures Step(CycleWalk(damping), x) == [Times(damping, x[1]) + (1.0 - damping), Times(damping, x[0])]
  {
    hide CycleWalk, Collected, Dangling, Times, Step;
    var w := CycleWalk(damping);
    CycleParts(damping);
    assert Collected(w.rows, x, w.es, 2) == [x[1], x[0]] && Dangling(w.rows, x, w.es) == 0.0 by {
      CycleRow(damping, 0);
      CycleRow(damping, 1);
      CycleSweep(w.rows, x, w.es);
    }
    StepAt(w, x, 0);
    StepAt(w, x, 1);
    Units(damping);
    Units(1.0 - damping);
    var y := Step(w, x);
    assert y[0] == At(y, 0) && y[1] == At(y, 1);
  }

  lemma PairDistance(u: seq<real>, v: seq<real>)
    requires |u| == |v| == 2
    ensures DistOver(u, v, [0, 1]) == Abs(u[0] - v[0]) + Abs(u[1] - v[1])
  {
    hide Abs;
    DistStep(u, v, [0, 1], 0);
    DistStep(u, v, [0, 1], 1);
  }

  lemma CycleShrinks(damping: real, x: seq<real>, y: seq<real>)
    requires damping >= 0.0 && |x| == |y| == 2
    ensures DistOver(Step(CycleWalk(damping), x), Step(CycleWalk(damping), y), [0, 1]) == Times(damping, DistOver(x, y, [0, 1]))
  {
    CycleStep(damping, x);
    CycleStep(damping, y);
    hide Step, CycleWalk, Times, DistOver, Abs;
    DampedSwap(damping, x[0], x[1], y[0], y[1], 1.0 - damping);
    PairDistance(x, y);
  }

  lemma DampedSwap(d: real, a: real, b: real, a': real, b': real, c: real)
    requires d >= 0.0
    ensures DistOver([Times(d, b) + c, Times(d, a)], [Times(d, b') + c, Times(d, a')], [0, 1]) ==
      Times(d, Abs(a - a') + Abs(b - b'))
  {
    hide Times, DistOver, Abs;
    PairDistance([Times(d, b) + c, Times(d, a)], [Times(d, b') + c, Times(d, a')]);
    Distribute(d, a, a');
    Distribute(d, b, b');
    assert Times(d, b) + c - (Times(d, b') + c) == Times(d, b - b');
    AbsScaled(d, a - a');
    AbsScaled(d, b - b');
    Distribute(d, Abs(a - a'), Abs(b - b'));
  }

  /** The bound on the change is attained: on the cycle the `k`-th change is exactly `2 * damping^k`. */
  lemma {:induction false} BoundIsAttained(damping: real, k: nat)
    requires damping >= 0.0 && k > 0
    ensures |Orbit(CycleWalk(damping), k)| == 2 && Delta(CycleWalk(damping), k) == 2.0 * Pow(damping, k)
  {
    var w := CycleWalk(damping);
    CycleParts(damping);
    hide Step, CycleWalk, DistOver, Times, Delta, Pow;
    OrbitStep(w, k);
    if k == 1 {
      FirstDelta(w);
      CycleStep(damping, [1.0, 0.0]);
      PairDistance([Times(damping, 0.0) + (1.0 - damping), Times(damping, 1.0)], [1.0, 0.0]);
      Units(damping);
    } else {
      BoundIsAttained(damping, k - 1);
      OrbitStep(w, k - 1);
      CycleShrinks(damping, Orbit(w, k - 1), Orbit(w, k - 2));
      PowStep(damping, k);
      Distribute(damping, Pow(damping, k - 1), Pow(damping, k - 1));
    }
  }

  lemma PowStep(d: real, k: nat)
    requires k > 0
    ensures Pow(d, k) == Times(d, Pow(d, k - 1))
  {
  }

  // ----- when it converges

  /** Every run with this configuration, on any accepted input, converges. */
  ghost predicate AlwaysConverges(config: Config) {
    forall w, result, ranks ::
      WalkOk(w) && w.damping == config.damping && Settles(w, config, result, ranks) ==> result.Ok?
  }

  /** A configuration always converges exactly when its iterations bring the bound within its tolerance. */
  lemma ConvergesIffBoundWithin(config: Config)
    requires 0.0 <= config.damping <= 1.0 && config.maxIterations > 0
    ensures AlwaysConverges(config) <==> 2.0 * Pow(config.damping, config.maxIterations) <= config.tolerance
  {
    hide WalkOk, Settles, Pow;
    if 2.0 * Pow(config.damping, config.maxIterations) <= config.tolerance {
      forall w, result, ranks | WalkOk(w) && w.damping == config.damping && Settles(w, config, result, ranks) ensures result.Ok? {
        SettlesWell(w, config, result, ranks);
      }
    } else {
      NeverWithin(config);
    }
  }

  /** Otherwise the run on the cycle uses up its iterations. */
  lemma NeverWithin(config: Config)
    requires 0.0 <= config.damping <= 1.0 && config.maxIterations > 0
    requires config.tolerance < 2.0 * Pow(config.damping, config.maxIterations)
    ensures var w := CycleWalk(config.damping);
      && WalkOk(w) && w.damping == config.damping
      && Settles(w, config, Err(NonConverged(config.maxIterations, Delta(w, config.maxIterations))),
        Orbit(w, config.maxIterations))
  {
    var w := CycleWalk(config.damping);
    CycleIsWalk(config.damping);
    CycleParts(config.damping);
    hide CycleWalk, WalkOk, Delta, Pow, Orbit;
    forall j | 0 < j < config.maxIterations + 1 ensures Delta(w, j) > config.tolerance {
      BoundIsAttained(config.damping, j);
      PowFalls(config.damping, j, config.maxIterations);
    }
  }

  /** From some number of iterations on, every accepted input converges. */
  ghost predicate ConvergesEventually(damping: real, tolerance: real) {
    exists k :: ConvergesFrom(damping, tolerance, k)
  }

  ghost predicate ConvergesFrom(damping: real, tolerance: real, k: nat) {
    k > 0 && forall m :: m >= k ==> AlwaysConverges(Config(damping, tolerance, m))
  }

  /** That is so exactly when the damping is below one and the tolerance positive, when the damping is
      zero, or when the tolerance admits the largest change there is. */
  lemma ConvergesIffDamped(damping: real, tolerance: real)
    requires 0.0 <= damping <= 1.0 && tolerance >= 0.0
    ensures ConvergesEventually(damping, tolerance) <==> (damping < 1.0 && tolerance > 0.0) || damping == 0.0 || tolerance >= 2.0
  {
    hide AlwaysConverges;
    if (damping < 1.0 && tolerance > 0.0) || damping == 0.0 || tolerance >= 2.0 {
      var k := EventuallyWithin(damping, tolerance);
      forall m | m >= k ensures AlwaysConverges(Config(damping, tolerance, m)) {
        ConvergesIffBoundWithin(Config(damping, tolerance, m));
      }
      assert ConvergesFrom(damping, tolerance, k);
    } else {
      forall k: nat ensures !ConvergesFrom(damping, tolerance, k) {
        if k > 0 {
          ConvergesIffBoundWithin(Config(damping, tolerance, k));
          NeverEnough(damping, tolerance, k);
        }
      }
    }
  }

  lemma EventuallyWithin(damping: real, tolerance: real) returns (k: nat)
    requires 0.0 <= damping <= 1.0 && tolerance >= 0.0
    requires (damping < 1.0 && tolerance > 0.0) || damping == 0.0 || tolerance >= 2.0
    ensures k > 0 && forall m :: m >= k ==> 2.0 * Pow(damping, m) <= tolerance
  {
    if damping < 1.0 && tolerance > 0.0 {
      k := BoundVanishes(damping, tolerance);
    } else {
      k := 1;
      forall m | m >= k ensures 2.0 * Pow(damping, m) <= tolerance {
        PowFalls(damping, 1, m);
        PowFalls(damping, 0, m);
        PowStep(damping, 1);
        assert Pow(damping, 0) == 1.0;
        Units(damping);
      }
    }
  }

  lemma {:induction false} NeverEnough(damping: real, tolerance: real, k: nat)
    requires (damping == 1.0 && tolerance < 2.0) || (0.0 < damping && tolerance == 0.0)
    ensures tolerance < 2.0 * Pow(damping, k)
  {
    if k > 0 {
      NeverEnough(damping, tolerance, k - 1);
      PowStep(damping, k);
      Units(Pow(damping, k - 1));
      if damping != 1.0 {
        StrictSign(damping, Pow(damping, k - 1));
      }
      hide Times;
    }
  }
}
