/** A quadrature rule seen as data: the points it samples, the weight each point gets and the
    factor the weighted sum is multiplied by. `Apply` is the reference meaning of a rule,
    against which the loops of the four integration methods are proved. */
module Quadrature {
  import opened Results

  /** The function being integrated; a point where it is singular yields an error. */
  type Integrand = real -> Result<real>

  /** Every failure of `f` is the evaluator's division by zero. */
  ghost predicate SingularOnlyByZero(f: Integrand) {
    forall x :: f(x).Err? ==> f(x).error == DivisionByZero
  }

  datatype Rule = Rule(nodes: seq<real>, weights: seq<real>, scale: real) {
    predicate WellFormed() {
      |nodes| == |weights|
    }
  }

  /** `f` is defined at the first `k` points of `xs`. */
  predicate Defined(f: Integrand, xs: seq<real>, k: nat)
    requires k <= |xs|
  {
    forall i :: 0 <= i < k ==> f(xs[i]).Ok?
  }

  /** `ws[0] * f(xs[0]) + ... + ws[k-1] * f(xs[k-1])`. */
  function WeightedSum(f: Integrand, xs: seq<real>, ws: seq<real>, k: nat): real
    requires k <= |xs| && k <= |ws|
    requires Defined(f, xs, k)
  {
    if k == 0 then 0.0 else WeightedSum(f, xs, ws, k - 1) + ws[k - 1] * f(xs[k - 1]).value
  }

  /** Evaluating a rule's next node `x`: either it is singular and the whole rule fails, or the
      weighted sum extends by its weighted value. */
  lemma NodeStep(f: Integrand, rule: Rule, k: nat, x: real)
    requires rule.WellFormed() && k < |rule.nodes| && rule.nodes[k] == x
    requires Defined(f, rule.nodes, k)
    ensures f(x).Err? ==> Apply(f, rule) == Err(DivisionByZero)
    ensures f(x).Ok? ==> Defined(f, rule.nodes, k + 1)
    ensures f(x).Ok? ==> WeightedSum(f, rule.nodes, rule.weights, k + 1)
                         == WeightedSum(f, rule.nodes, rule.weights, k) + rule.weights[k] * f(x).value
  {
  }

  /** `ws[0] + ... + ws[k-1]`. */
  function Total(ws: seq<real>, k: nat): real
    requires k <= |ws|
  {
    if k == 0 then 0.0 else Total(ws, k - 1) + ws[k - 1]
  }

  /** The weighted sum of `f` over all nodes of a rule. */
  function Sum(f: Integrand, rule: Rule): real
    requires rule.WellFormed() && Defined(f, rule.nodes, |rule.nodes|)
  {
    WeightedSum(f, rule.nodes, rule.weights, |rule.nodes|)
  }

  /** The sum of all weights of a rule. */
  function TotalWeight(rule: Rule): real {
    Total(rule.weights, |rule.weights|)
  }

  /** The rule's factor applied to a weighted sum. */
  function Scaled(rule: Rule, sum: real): real {
    rule.scale * sum
  }

  /** The exact integral of the constant `c` over `[xIni, xFin]`. */
  function ConstantIntegral(c: real, xIni: real, xFin: real): real {
    c * (xFin - xIni)
  }

  /** The exact integral of `a + b * x` over `[xIni, xFin]`. */
  function LinearIntegral(a: real, b: real, xIni: real, xFin: real): real {
    a * (xFin - xIni) + b * (xFin * xFin - xIni * xIni) / 2.0
  }

  /** The cubic `a + b * x + c * x^2 + d * x^3`. */
  function Cubic(a: real, b: real, c: real, d: real, x: real): real {
    a + b * x + c * (x * x) + d * (x * x * x)
  }

  /** The exact integral of `Cubic(a, b, c, d, _)` over `[xIni, xFin]`. */
  function CubicIntegral(a: real, b: real, c: real, d: real, xIni: real, xFin: real): real {
    a * (xFin - xIni) + b * (xFin * xFin - xIni * xIni) / 2.0
      + c * (xFin * xFin * xFin - xIni * xIni * xIni) / 3.0
      + d * (xFin * xFin * xFin * xFin - xIni * xIni * xIni * xIni) / 4.0
  }

  /** The estimate a rule gives for `f`: the scaled weighted sum of the sampled values, or
      `DivisionByZero` when `f` is singular at one of the sampled points. */
  function Apply(f: Integrand, rule: Rule): Result<real>
    requires rule.WellFormed()
  {
    if Defined(f, rule.nodes, |rule.nodes|) then Ok(Scaled(rule, Sum(f, rule))) else Err(DivisionByZero)
  }

  /** A rule with two nodes of weight 1 and values `v0`, `v1` there sums to `v0 + v1`. */
  lemma SumOfTwo(f: Integrand, rule: Rule, v0: real, v1: real)
    requires rule.WellFormed() && |rule.nodes| == 2 && rule.weights == [1.0, 1.0]
    requires f(rule.nodes[0]) == Ok(v0) && f(rule.nodes[1]) == Ok(v1)
    ensures Apply(f, rule) == Ok(Scaled(rule, v0 + v1))
  {
    assert WeightedSum(f, rule.nodes, rule.weights, 1) == 0.0 + 1.0 * v0;
    assert Sum(f, rule) == v0 + v1;
  }

  /** A rule fails exactly when a sampled point is singular, and then with no partial result. */
  lemma ApplyFailsExactlyAtSingularNode(f: Integrand, rule: Rule)
    requires rule.WellFormed()
    ensures Apply(f, rule).Err? <==> exists i :: 0 <= i < |rule.nodes| && f(rule.nodes[i]).Err?
    ensures Apply(f, rule).Err? ==> Apply(f, rule) == Err(DivisionByZero)
  {
  }

  /** One singular node is enough for a rule to fail. */
  lemma ApplySingularNode(f: Integrand, rule: Rule, i: int)
    requires rule.WellFormed() && 0 <= i < |rule.nodes| && f(rule.nodes[i]).Err?
    ensures Apply(f, rule) == Err(DivisionByZero)
  {
  }

  lemma {:induction false} WeightedSumOfConstant(f: Integrand, xs: seq<real>, ws: seq<real>, k: nat, c: real)
    requires k <= |xs| && k <= |ws|
    requires forall i :: 0 <= i < k ==> f(xs[i]) == Ok(c)
    ensures Defined(f, xs, k)
    ensures WeightedSum(f, xs, ws, k) == c * Total(ws, k)
  {
    if k > 0 {
      WeightedSumOfConstant(f, xs, ws, k - 1, c);
    }
  }

  /** On an integrand that is the constant `c` at every sampled point, a rule returns
      `scale * c * (sum of the weights)`. */
  lemma ApplyConstant(f: Integrand, rule: Rule, c: real)
    requires rule.WellFormed()
    requires forall i :: 0 <= i < |rule.nodes| ==> f(rule.nodes[i]) == Ok(c)
    ensures Apply(f, rule) == Ok(Scaled(rule, c * TotalWeight(rule)))
  {
    WeightedSumOfConstant(f, rule.nodes, rule.weights, |rule.weights|, c);
    assert Sum(f, rule) == c * TotalWeight(rule);
  }

  lemma {:induction false} WeightedSumLocal(f: Integrand, g: Integrand, xs: seq<real>, ws: seq<real>, k: nat)
    requires k <= |xs| && k <= |ws|
    requires forall i :: 0 <= i < k ==> f(xs[i]) == g(xs[i])
    requires Defined(f, xs, k)
    ensures Defined(g, xs, k)
    ensures WeightedSum(f, xs, ws, k) == WeightedSum(g, xs, ws, k)
  {
    if k > 0 {
      WeightedSumLocal(f, g, xs, ws, k - 1);
    }
  }

  /** A rule looks at `f` only at its nodes: two integrands that agree there get the same result. */
  lemma ApplyLocal(f: Integrand, g: Integrand, rule: Rule)
    requires rule.WellFormed()
    requires forall i :: 0 <= i < |rule.nodes| ==> f(rule.nodes[i]) == g(rule.nodes[i])
    ensures Apply(f, rule) == Apply(g, rule)
  {
    if Defined(f, rule.nodes, |rule.nodes|) {
      WeightedSumLocal(f, g, rule.nodes, rule.weights, |rule.nodes|);
    } else {
      var i :| 0 <= i < |rule.nodes| && f(rule.nodes[i]).Err?;
      assert g(rule.nodes[i]).Err?;
    }
  }

  /** A rule with a zero factor returns 0 wherever it is defined. */
  lemma ApplyZeroScale(f: Integrand, rule: Rule)
    requires rule.WellFormed() && rule.scale == 0.0
    requires Defined(f, rule.nodes, |rule.nodes|)
    ensures Apply(f, rule) == Ok(0.0)
  {
  }
}
