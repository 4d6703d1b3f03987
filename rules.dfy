/** The four quadrature rules of the engine, each as the nodes it samples, the weight of each
    node and the factor of the weighted sum, with the facts that follow from that structure. */
module Rules {
  import opened Results
  import opened Quadrature

  /** The width `h = (xFin - xIni) / n` of one of the `n` sub-intervals. */
  function Step(xIni: real, xFin: real, n: int): real
    requires n > 0
  {
    (xFin - xIni) / n as real
  }

  /** The `i`-th sampled point `xIni + i * h`. */
  function Node(xIni: real, h: real, i: int): real {
    xIni + i as real * h
  }

  /** The `n + 1` equally spaced points `xIni + i * h`, `i = 0 .. n`. */
  function GridNodes(xIni: real, xFin: real, n: int): seq<real>
    requires n > 0
  {
    seq(n + 1, i => Node(xIni, Step(xIni, xFin, n), i))
  }

  /** The `i`-th grid node is `xIni + i * h` for the width `h` the loops compute. */
  lemma GridNodeAt(xIni: real, xFin: real, n: int, i: int, h: real)
    requires n > 0 && 0 <= i <= n && h == (xFin - xIni) / n as real
    ensures GridNodes(xIni, xFin, n)[i] == xIni + i as real * h
  {
  }

  /** `n` steps of width `h` span the whole interval (in exact arithmetic). */
  lemma StepTimesCount(xIni: real, xFin: real, n: int)
    requires n > 0
    ensures n as real * Step(xIni, xFin, n) == xFin - xIni
  {
  }

  /** Stepping `n` times from `xIni` reaches `xFin` exactly. */
  lemma LastNodeIsEnd(xIni: real, xFin: real, n: int)
    requires n > 0
    ensures Node(xIni, Step(xIni, xFin, n), n) == xFin
  {
    StepTimesCount(xIni, xFin, n);
  }

  /** For `xIni <= xFin`, the points `xIni + i * h` with `0 <= i <= n` lie in `[xIni, xFin]`,
      and below `xFin` when `i < n` and the interval is not degenerate. */
  lemma NodeInInterval(xIni: real, xFin: real, n: int, i: int)
    requires n > 0 && 0 <= i <= n
    requires xIni <= xFin
    ensures xIni <= Node(xIni, Step(xIni, xFin, n), i) <= xFin
    ensures xIni < xFin && i < n ==> Node(xIni, Step(xIni, xFin, n), i) < xFin
  {
    var h := Step(xIni, xFin, n);
    assert h >= 0.0;
    assert i as real * h >= 0.0;
    assert (n - i) as real * h >= 0.0;
    assert n as real * h == xFin - xIni;
    assert (n - i) as real * h == n as real * h - i as real * h;
    if xIni < xFin && i < n {
      assert h > 0.0;
      assert (n - i) as real * h > 0.0;
    }
  }

  lemma ProductArithmetic(s: real, h: real, d: real, c: real, t: real, n: real, w: real)
    requires d > 0.0 && s == h / d && t == d * n && n * h == w
    ensures s * (c * t) == c * w
  {
  }

  /** A rule with factor `h / d` and weights totalling `d * n` turns the constant `c` into
      `c * (xFin - xIni)`. */
  lemma ScaledConstant(rule: Rule, xIni: real, xFin: real, n: int, d: real, c: real)
    requires n > 0 && d > 0.0
    requires rule.scale == Step(xIni, xFin, n) / d
    requires TotalWeight(rule) == d * n as real
    ensures Scaled(rule, c * TotalWeight(rule)) == c * (xFin - xIni)
  {
    StepTimesCount(xIni, xFin, n);
    ProductArithmetic(rule.scale, Step(xIni, xFin, n), d, c, TotalWeight(rule), n as real, xFin - xIni);
  }

  /** A rule with factor `h / d` whose weights total `d * n` is exact on a constant
      integrand `c`: it returns `c * (xFin - xIni)`. */
  lemma ConstantExact(f: Integrand, rule: Rule, xIni: real, xFin: real, n: int, d: real, c: real)
    requires rule.WellFormed() && n > 0 && d > 0.0
    requires forall i :: 0 <= i < |rule.nodes| ==> f(rule.nodes[i]) == Ok(c)
    requires rule.scale == Step(xIni, xFin, n) / d
    requires TotalWeight(rule) == d * n as real
    ensures Apply(f, rule) == Ok(c * (xFin - xIni))
  {
    ApplyConstant(f, rule, c);
    ScaledConstant(rule, xIni, xFin, n, d, c);
  }

  // ---------------------------------------------------------------- trapezoid

  function TrapezoidWeights(n: int): seq<real>
    requires n > 0
  {
    seq(n + 1, i => if i == 0 || i == n then 0.5 else 1.0)
  }

  /** Trapezoid rule: nodes `xIni + i * h` for `i = 0 .. n`, weight 1/2 at both ends and 1
      inside, factor `h`. */
  function TrapezoidRule(xIni: real, xFin: real, n: int): (r: Rule)
    requires n > 0
    ensures r.WellFormed() && |r.nodes| == n + 1
  {
    Rule(GridNodes(xIni, xFin, n), TrapezoidWeights(n), Step(xIni, xFin, n))
  }

  lemma TrapezoidSamples(xIni: real, xFin: real, n: int)
    requires n > 0
    ensures var r := TrapezoidRule(xIni, xFin, n);
      && r.nodes[0] == xIni && r.nodes[n] == xFin
      && (forall i :: 0 <= i <= n ==> r.nodes[i] == xIni + i as real * Step(xIni, xFin, n))
      && r.weights[0] == 0.5 && r.weights[n] == 0.5
      && (forall i :: 0 < i < n ==> r.weights[i] == 1.0)
      && r.scale == Step(xIni, xFin, n)
  {
    LastNodeIsEnd(xIni, xFin, n);
  }

  lemma {:induction false} TrapezoidPartialTotal(n: int, k: int)
    requires 1 <= k <= n
    ensures Total(TrapezoidWeights(n), k) == 0.5 + (k - 1) as real
  {
    if k > 1 {
      TrapezoidPartialTotal(n, k - 1);
    }
  }

  /** The trapezoid weights total `n`. */
  lemma TrapezoidTotalWeight(n: int)
    requires n > 0
    ensures Total(TrapezoidWeights(n), n + 1) == n as real
  {
    TrapezoidPartialTotal(n, n);
  }

  /** The `i`-th trapezoid node and weight, for the width `h` the loop computes. */
  lemma TrapezoidAt(xIni: real, xFin: real, n: int, i: int, h: real)
    requires n > 0 && 0 <= i <= n && h == (xFin - xIni) / n as real
    ensures TrapezoidRule(xIni, xFin, n).nodes[i] == xIni + i as real * h
    ensures TrapezoidRule(xIni, xFin, n).weights[i] == if i == 0 || i == n then 0.5 else 1.0
  {
    GridNodeAt(xIni, xFin, n, i, h);
  }

  /** On a constant integrand `c` the trapezoid rule is exact: `c * (xFin - xIni)`. */
  lemma TrapezoidConstant(f: Integrand, xIni: real, xFin: real, n: int, c: real)
    requires n > 0
    requires forall x :: f(x) == Ok(c)
    ensures Apply(f, TrapezoidRule(xIni, xFin, n)) == Ok(c * (xFin - xIni))
  {
    TrapezoidTotalWeight(n);
    ConstantExact(f, TrapezoidRule(xIni, xFin, n), xIni, xFin, n, 1.0, c);
  }

  // ---------------------------------------------------------------- left Riemann sum

  function RiemannWeights(n: int): seq<real>
    requires n > 0
  {
    seq(n, i => 1.0)
  }

  /** Left Riemann sum: nodes `xIni + i * h` for `i = 0 .. n - 1`, weight 1 each, factor `h`. */
  function RiemannRule(xIni: real, xFin: real, n: int): (r: Rule)
    requires n > 0
    ensures r.WellFormed() && |r.nodes| == n
  {
    Rule(GridNodes(xIni, xFin, n)[..n], RiemannWeights(n), Step(xIni, xFin, n))
  }

  /** The Riemann sum samples only left edges: for a proper interval every node lies in
      `[xIni, xFin)`, so `xFin` is never sampled. */
  lemma RiemannSamplesLeftEdges(xIni: real, xFin: real, n: int)
    requires n > 0
    ensures var r := RiemannRule(xIni, xFin, n);
      && r.nodes[0] == xIni
      && (forall i :: 0 <= i < n ==> r.nodes[i] == xIni + i as real * Step(xIni, xFin, n))
      && (forall i :: 0 <= i < n ==> r.weights[i] == 1.0)
      && r.scale == Step(xIni, xFin, n)
      && (xIni < xFin ==> forall i :: 0 <= i < n ==> xIni <= r.nodes[i] < xFin)
  {
    var r := RiemannRule(xIni, xFin, n);
    if xIni < xFin {
      forall i | 0 <= i < n
        ensures xIni <= r.nodes[i] < xFin
      {
        NodeInInterval(xIni, xFin, n, i);
      }
    }
  }

  /** Changing the integrand at `xFin` alone does not change a left Riemann sum. */
  lemma RiemannIgnoresRightEnd(f: Integrand, g: Integrand, xIni: real, xFin: real, n: int)
    requires n > 0 && xIni < xFin
    requires forall x :: x != xFin ==> f(x) == g(x)
    ensures Apply(f, RiemannRule(xIni, xFin, n)) == Apply(g, RiemannRule(xIni, xFin, n))
  {
    RiemannSamplesLeftEdges(xIni, xFin, n);
    ApplyLocal(f, g, RiemannRule(xIni, xFin, n));
  }

  lemma {:induction false} RiemannPartialTotal(n: int, k: int)
    requires 0 <= k <= n && n > 0
    ensures Total(RiemannWeights(n), k) == k as real
  {
    if k > 0 {
      RiemannPartialTotal(n, k - 1);
    }
  }

  /** The `i`-th Riemann node and weight, for the width `h` the loop computes. */
  lemma RiemannAt(xIni: real, xFin: real, n: int, i: int, h: real)
    requires n > 0 && 0 <= i < n && h == (xFin - xIni) / n as real
    ensures RiemannRule(xIni, xFin, n).nodes[i] == xIni + i as real * h
    ensures RiemannRule(xIni, xFin, n).weights[i] == 1.0
  {
    GridNodeAt(xIni, xFin, n, i, h);
  }

  /** On a constant integrand `c` the left Riemann sum is exact. */
  lemma RiemannConstant(f: Integrand, xIni: real, xFin: real, n: int, c: real)
    requires n > 0
    requires forall x :: f(x) == Ok(c)
    ensures Apply(f, RiemannRule(xIni, xFin, n)) == Ok(c * (xFin - xIni))
  {
    RiemannPartialTotal(n, n);
    ConstantExact(f, RiemannRule(xIni, xFin, n), xIni, xFin, n, 1.0, c);
  }

  // ---------------------------------------------------------------- composite Simpson

  function SimpsonWeights(n: int): seq<real>
    requires n > 0
  {
    seq(n + 1, i => if i == 0 || i == n then 1.0 else if i % 2 == 0 then 2.0 else 4.0)
  }

  /** Composite Simpson rule: nodes `xIni + i * h` for `i = 0 .. n`, weight 1 at both ends,
      4 at odd and 2 at even interior nodes, factor `h / 3`. */
  function SimpsonRule(xIni: real, xFin: real, n: int): (r: Rule)
    requires n > 0
    ensures r.WellFormed() && |r.nodes| == n + 1
  {
    Rule(GridNodes(xIni, xFin, n), SimpsonWeights(n), Step(xIni, xFin, n) / 3.0)
  }

  /** Simpson's estimate: an odd interval count is rejected before `f` is looked at. */
  function Simpson(f: Integrand, xIni: real, xFin: real, n: int): Result<real>
    requires n > 0
  {
    if n % 2 != 0 then Err(OddIntervalCount) else Apply(f, SimpsonRule(xIni, xFin, n))
  }

  lemma SimpsonSamples(xIni: real, xFin: real, n: int)
    requires n > 0
    ensures var r := SimpsonRule(xIni, xFin, n);
      && r.nodes[0] == xIni && r.nodes[n] == xFin
      && (forall i :: 0 <= i <= n ==> r.nodes[i] == xIni + i as real * Step(xIni, xFin, n))
      && r.weights[0] == 1.0 && r.weights[n] == 1.0
      && (forall i :: 0 < i < n && i % 2 == 1 ==> r.weights[i] == 4.0)
      && (forall i :: 0 < i < n && i % 2 == 0 ==> r.weights[i] == 2.0)
      && r.scale == Step(xIni, xFin, n) / 3.0
  {
    LastNodeIsEnd(xIni, xFin, n);
  }

  /** The `i`-th Simpson node and weight, for the width `h` the loop computes. */
  lemma SimpsonAt(xIni: real, xFin: real, n: int, i: int, h: real)
    requires n > 0 && 0 <= i <= n && h == (xFin - xIni) / n as real
    ensures SimpsonRule(xIni, xFin, n).nodes[i] == xIni + i as real * h
    ensures SimpsonRule(xIni, xFin, n).weights[i]
            == if i == 0 || i == n then 1.0 else if i % 2 == 0 then 2.0 else 4.0
  {
    GridNodeAt(xIni, xFin, n, i, h);
  }

  /** The guard of Simpson's rule: an odd count fails with `OddIntervalCount` whatever the
      integrand (even one singular everywhere); an even count fails only at a singular node. */
  lemma SimpsonGuard(f: Integrand, xIni: real, xFin: real, n: int)
    requires n > 0
    ensures n % 2 != 0 ==> Simpson(f, xIni, xFin, n) == Err(OddIntervalCount)
    ensures n % 2 == 0 ==>
      (Simpson(f, xIni, xFin, n).Err? <==>
         exists i :: 0 <= i <= n && f(SimpsonRule(xIni, xFin, n).nodes[i]).Err?)
    ensures n % 2 == 0 && Simpson(f, xIni, xFin, n).Err? ==> Simpson(f, xIni, xFin, n) == Err(DivisionByZero)
  {
    if n % 2 == 0 {
      ApplyFailsExactlyAtSingularNode(f, SimpsonRule(xIni, xFin, n));
    }
  }

  /** For `1 <= 2j + 1 <= n`, the first `2j + 1` Simpson weights total `6j + 1`. */
  lemma {:induction false} SimpsonPartialTotal(n: int, j: int)
    requires n > 0 && j >= 0 && 2 * j + 1 <= n
    ensures Total(SimpsonWeights(n), 2 * j + 1) == (6 * j + 1) as real
  {
    var w := SimpsonWeights(n);
    if j > 0 {
      SimpsonPartialTotal(n, j - 1);
      assert w[2 * j - 1] == 4.0 && w[2 * j] == 2.0;
    }
  }

  /** For an even count the Simpson weights total `3n`. */
  lemma SimpsonTotalWeight(n: int)
    requires n > 0 && n % 2 == 0
    ensures Total(SimpsonWeights(n), n + 1) == 3.0 * n as real
  {
    var w := SimpsonWeights(n);
    SimpsonPartialTotal(n, n / 2 - 1);
    assert w[n - 1] == 4.0 && w[n] == 1.0;
  }

  /** On a constant integrand `c` and an even count, Simpson's rule is exact. */
  lemma SimpsonConstant(f: Integrand, xIni: real, xFin: real, n: int, c: real)
    requires n > 0 && n % 2 == 0
    requires forall x :: f(x) == Ok(c)
    ensures Simpson(f, xIni, xFin, n) == Ok(c * (xFin - xIni))
  {
    SimpsonTotalWeight(n);
    ConstantExact(f, SimpsonRule(xIni, xFin, n), xIni, xFin, n, 3.0, c);
  }

  // ---------------------------------------------------------------- two-point Gauss-Legendre

  /** Two-point Gauss-Legendre rule: the reference nodes `-g` and `g` on `[-1, 1]` mapped by
      `x -> c1 * x + c2` with `c1 = (xFin - xIni) / 2`, `c2 = (xFin + xIni) / 2`; weights 1 and 1;
      factor `c1`. The engine uses `g = 1 / sqrt 3`. */
  function GaussRule(xIni: real, xFin: real, g: real): (r: Rule)
    ensures r.WellFormed() && |r.nodes| == 2
  {
    var c1 := (xFin - xIni) / 2.0;
    var c2 := (xFin + xIni) / 2.0;
    Rule([Mapped(c1, c2, -g), Mapped(c1, c2, g)], [1.0, 1.0], c1)
  }

  /** The point `t` of `[-1, 1]` mapped by `t -> c1 * t + c2`. */
  function Mapped(c1: real, c2: real, t: real): real {
    c1 * t + c2
  }

  /** The two Gauss nodes are symmetric about the midpoint, `g * (xFin - xIni)` apart, and for
      `0 < g < 1` lie inside the interval (strictly inside a proper one). */
  lemma GaussNodes(xIni: real, xFin: real, g: real)
    ensures var r := GaussRule(xIni, xFin, g);
      && r.nodes[0] + r.nodes[1] == xIni + xFin
      && r.nodes[1] - r.nodes[0] == g * (xFin - xIni)
      && r.weights == [1.0, 1.0]
      && r.scale == (xFin - xIni) / 2.0
    ensures 0.0 < g < 1.0 && xIni <= xFin ==>
      xIni <= GaussRule(xIni, xFin, g).nodes[0] <= GaussRule(xIni, xFin, g).nodes[1] <= xFin
    ensures 0.0 < g < 1.0 && xIni < xFin ==>
      xIni < GaussRule(xIni, xFin, g).nodes[0] < GaussRule(xIni, xFin, g).nodes[1] < xFin
  {
    var c1 := (xFin - xIni) / 2.0;
    var c2 := (xFin + xIni) / 2.0;
    var r := GaussRule(xIni, xFin, g);
    assert r.nodes[0] == Mapped(c1, c2, -g) == c1 * -g + c2;
    assert r.nodes[1] == Mapped(c1, c2, g) == c1 * g + c2;
    GaussNodeArithmetic(xIni, xFin, g, c1, c2);
  }

  lemma GaussNodeArithmetic(xIni: real, xFin: real, g: real, c1: real, c2: real)
    requires c1 == (xFin - xIni) / 2.0 && c2 == (xFin + xIni) / 2.0
    ensures (c1 * -g + c2) + (c1 * g + c2) == xIni + xFin
    ensures (c1 * g + c2) - (c1 * -g + c2) == g * (xFin - xIni)
    ensures 0.0 < g < 1.0 && xIni <= xFin ==> xIni <= c1 * -g + c2 <= c1 * g + c2 <= xFin
    ensures 0.0 < g < 1.0 && xIni < xFin ==> xIni < c1 * -g + c2 < c1 * g + c2 < xFin
  {
    if 0.0 < g < 1.0 && xIni <= xFin {
      assert 0.0 <= c1 * g <= c1;
      if xIni < xFin {
        assert 0.0 < c1 * g < c1;
      }
    }
  }

  /** On a constant integrand `c` the Gauss rule is exact. */
  lemma GaussConstant(f: Integrand, xIni: real, xFin: real, g: real, c: real)
    requires forall x :: f(x) == Ok(c)
    ensures Apply(f, GaussRule(xIni, xFin, g)) == Ok(c * (xFin - xIni))
  {
    var r := GaussRule(xIni, xFin, g);
    assert TotalWeight(r) == 2.0;
    ConstantExact(f, r, xIni, xFin, 1, 2.0, c);
  }

  lemma GaussLinearArithmetic(a: real, b: real, xIni: real, xFin: real, n0: real, n1: real, s: real, c1: real)
    requires n0 + n1 == xIni + xFin && c1 == (xFin - xIni) / 2.0
    requires s == (a + b * n0) + (a + b * n1)
    ensures c1 * s == LinearIntegral(a, b, xIni, xFin)
  {
    assert s == 2.0 * a + b * (xIni + xFin);
  }

  /** Because its nodes are symmetric about the midpoint, the Gauss rule integrates every
      linear integrand `a + b * x` exactly, whatever the node `g`. */
  lemma GaussLinear(f: Integrand, xIni: real, xFin: real, g: real, a: real, b: real)
    requires forall x :: f(x).Ok? && f(x).value == a + b * x
    ensures Apply(f, GaussRule(xIni, xFin, g)) == Ok(LinearIntegral(a, b, xIni, xFin))
  {
    var r := GaussRule(xIni, xFin, g);
    GaussNodes(xIni, xFin, g);
    var v0, v1 := f(r.nodes[0]).value, f(r.nodes[1]).value;
    SumOfTwo(f, r, v0, v1);
    GaussLinearArithmetic(a, b, xIni, xFin, r.nodes[0], r.nodes[1], v0 + v1, r.scale);
    assert Scaled(r, v0 + v1) == LinearIntegral(a, b, xIni, xFin);
  }

  /** Sums of powers at two points symmetric about `m`: the odd powers of `k` cancel. */
  lemma SymmetricPowerSums(m: real, k: real)
    ensures (m - k) + (m + k) == 2.0 * m
    ensures (m - k) * (m - k) + (m + k) * (m + k) == 2.0 * (m * m) + 2.0 * (k * k)
    ensures (m - k) * (m - k) * (m - k) + (m + k) * (m + k) * (m + k)
            == 2.0 * (m * m * m) + 6.0 * m * (k * k)
  {
  }

  /** Differences of powers at the ends `m - h`, `m + h` of an interval. */
  lemma EndPowerDifferences(m: real, h: real)
    ensures (m + h) - (m - h) == 2.0 * h
    ensures (m + h) * (m + h) - (m - h) * (m - h) == 4.0 * m * h
    ensures (m + h) * (m + h) * (m + h) - (m - h) * (m - h) * (m - h)
            == 6.0 * (m * m) * h + 2.0 * (h * h * h)
    ensures (m + h) * (m + h) * (m + h) * (m + h) - (m - h) * (m - h) * (m - h) * (m - h)
            == 8.0 * (m * m * m) * h + 8.0 * m * (h * h * h)
  {
  }

  lemma CubicAtSymmetricPoints(a: real, b: real, c: real, d: real, m: real, k: real)
    ensures Cubic(a, b, c, d, m - k) + Cubic(a, b, c, d, m + k)
         == 2.0 * a + b * (2.0 * m) + c * (2.0 * (m * m) + 2.0 * (k * k))
            + d * (2.0 * (m * m * m) + 6.0 * m * (k * k))
  {
    SymmetricPowerSums(m, k);
  }

  lemma GaussCubicArithmetic(a: real, b: real, c: real, d: real, xIni: real, xFin: real, g: real,
                             c1: real, c2: real, s: real)
    requires 3.0 * (g * g) == 1.0
    requires c1 == (xFin - xIni) / 2.0 && c2 == (xFin + xIni) / 2.0
    requires s == Cubic(a, b, c, d, c1 * -g + c2) + Cubic(a, b, c, d, c1 * g + c2)
    ensures c1 * s == CubicIntegral(a, b, c, d, xIni, xFin)
  {
    var k := c1 * g;
    assert c1 * -g + c2 == c2 - k && c1 * g + c2 == c2 + k;
    assert k * k == c1 * c1 / 3.0;
    CubicAtSymmetricPoints(a, b, c, d, c2, k);
    assert xFin == c2 + c1 && xIni == c2 - c1;
    EndPowerDifferences(c2, c1);
  }

  /** With the Gauss-Legendre node (`3 g^2 = 1`, that is `g = 1 / sqrt 3`) the two-point rule
      integrates every cubic exactly. */
  lemma GaussCubic(f: Integrand, xIni: real, xFin: real, g: real, a: real, b: real, c: real, d: real)
    requires 3.0 * (g * g) == 1.0
    requires forall x :: f(x).Ok? && f(x).value == Cubic(a, b, c, d, x)
    ensures Apply(f, GaussRule(xIni, xFin, g)) == Ok(CubicIntegral(a, b, c, d, xIni, xFin))
  {
    var r := GaussRule(xIni, xFin, g);
    var v0, v1 := f(r.nodes[0]).value, f(r.nodes[1]).value;
    SumOfTwo(f, r, v0, v1);
    GaussCubicArithmetic(a, b, c, d, xIni, xFin, g, r.scale, (xFin + xIni) / 2.0, v0 + v1);
    assert Scaled(r, v0 + v1) == CubicIntegral(a, b, c, d, xIni, xFin);
  }

  // ---------------------------------------------------------------- degenerate interval

  /** Every node of a rule on `[x, x]` is `x`. */
  lemma DegenerateNodes(x: real, n: int, g: real)
    requires n > 0
    ensures forall i :: 0 <= i <= n ==> TrapezoidRule(x, x, n).nodes[i] == x
    ensures forall i :: 0 <= i < n ==> RiemannRule(x, x, n).nodes[i] == x
    ensures forall i :: 0 <= i <= n ==> SimpsonRule(x, x, n).nodes[i] == x
    ensures GaussRule(x, x, g).nodes == [x, x]
  {
    assert Step(x, x, n) == 0.0;
    assert 0.0 * -g == 0.0 && 0.0 * g == 0.0;
  }

  /** On an empty interval `[x, x]` each rule returns 0 when `f` is defined at `x` (Simpson for
      an even count only), and fails with `DivisionByZero` when `x` is singular. */
  lemma DegenerateInterval(f: Integrand, x: real, n: int, g: real)
    requires n > 0
    ensures f(x).Ok? ==> Apply(f, TrapezoidRule(x, x, n)) == Ok(0.0)
    ensures f(x).Ok? ==> Apply(f, RiemannRule(x, x, n)) == Ok(0.0)
    ensures f(x).Ok? && n % 2 == 0 ==> Simpson(f, x, x, n) == Ok(0.0)
    ensures f(x).Ok? ==> Apply(f, GaussRule(x, x, g)) == Ok(0.0)
    ensures f(x).Err? ==> Apply(f, TrapezoidRule(x, x, n)) == Err(DivisionByZero)
    ensures f(x).Err? ==> Apply(f, RiemannRule(x, x, n)) == Err(DivisionByZero)
    ensures f(x).Err? && n % 2 == 0 ==> Simpson(f, x, x, n) == Err(DivisionByZero)
    ensures f(x).Err? ==> Apply(f, GaussRule(x, x, g)) == Err(DivisionByZero)
  {
    DegenerateNodes(x, n, g);
    var t, r, s, q := TrapezoidRule(x, x, n), RiemannRule(x, x, n), SimpsonRule(x, x, n), GaussRule(x, x, g);
    if f(x).Ok? {
      ApplyZeroScale(f, t);
      ApplyZeroScale(f, r);
      ApplyZeroScale(f, s);
      ApplyZeroScale(f, q);
    } else {
      assert t.nodes[0] == x && r.nodes[0] == x && s.nodes[0] == x && q.nodes[0] == x;
    }
  }
}
