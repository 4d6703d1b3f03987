/** The engine's four integration routines as the loops they are, each proved to compute the
    reference meaning (`Quadrature.Apply`) of its rule from `Rules`, and the mean of the four
    absolute areas the script reports. */
module Calculo {
  import opened Results
  import opened Equation
  import opened Quadrature
  import opened Rules

  /** One Riemann step: adding the term scaled by the width keeps the accumulator equal to the
      width times the weighted sum. */
  lemma RiemannStepArithmetic(h: real, a: real, v: real, acc: real, w: real)
    requires acc == h * a && w == 1.0
    ensures acc + v * h == h * (a + w * v)
  {
  }

  /** One Simpson step: the loop's choice between 2 and 4 is the weight of the node. */
  lemma SimpsonTermArithmetic(i: int, w: real, v: real)
    requires w == if i % 2 == 0 then 2.0 else 4.0
    ensures (if i % 2 == 0 then 2.0 * v else 4.0 * v) == w * v
  {
  }

  /** A loop that has evaluated every node and accumulated the weighted sum `acc` meets the
      rule's meaning once it multiplies by the rule's factor `h`, on either side. */
  lemma ClosingProduct(f: Integrand, rule: Rule, acc: real, h: real)
    requires rule.WellFormed() && Defined(f, rule.nodes, |rule.nodes|)
    requires Sum(f, rule) == acc && rule.scale == h
    ensures Apply(f, rule).Ok? && Apply(f, rule).value == h * acc == acc * h
  {
  }

  /** `reglaTrapecio`: half of the two end values plus every interior value, times the width. */
  method ReglaTrapecio(f: Integrand, xIni: real, xFin: real, n: int) returns (r: Result<real>)
    requires n > 0
    requires SingularOnlyByZero(f)
    ensures r == Apply(f, TrapezoidRule(xIni, xFin, n))
  {
    ghost var rule := TrapezoidRule(xIni, xFin, n);
    var longIntervalo := (xFin - xIni) / n as real;
    TrapezoidAt(xIni, xFin, n, 0, longIntervalo);
    TrapezoidAt(xIni, xFin, n, n, longIntervalo);
    LastNodeIsEnd(xIni, xFin, n);
    var fIni := f(xIni);
    NodeStep(f, rule, 0, xIni);
    if fIni.Err? {
      return Err(fIni.error);
    }
    var fFin := f(xFin);
    if fFin.Err? {
      ApplySingularNode(f, rule, n);
      return Err(fFin.error);
    }
    var acumula := 0.5 * (fIni.value + fFin.value);
    var i := 1;
    while i < n
      invariant 1 <= i <= n
      invariant Defined(f, rule.nodes, i)
      invariant acumula == WeightedSum(f, rule.nodes, rule.weights, i) + 0.5 * fFin.value
    {
      var valX := xIni + i as real * longIntervalo;
      TrapezoidAt(xIni, xFin, n, i, longIntervalo);
      var v := f(valX);
      NodeStep(f, rule, i, valX);
      if v.Err? {
        return Err(v.error);
      }
      acumula := acumula + v.value;
      i := i + 1;
    }
    NodeStep(f, rule, n, xFin);
    ClosingProduct(f, rule, acumula, longIntervalo);
    r := Ok(acumula * longIntervalo);
  }

  /** `sumaRiemann`: every left-edge value times the width, added up. */
  method SumaRiemann(f: Integrand, xIni: real, xFin: real, n: int) returns (r: Result<real>)
    requires n > 0
    requires SingularOnlyByZero(f)
    ensures r == Apply(f, RiemannRule(xIni, xFin, n))
  {
    ghost var rule := RiemannRule(xIni, xFin, n);
    var longIntervalo := (xFin - xIni) / n as real;
    var acumula := 0.0;
    ghost var suma := 0.0;
    var i := 0;
    while i < n
      invariant 0 <= i <= n
      invariant Defined(f, rule.nodes, i)
      invariant suma == WeightedSum(f, rule.nodes, rule.weights, i)
      invariant acumula == longIntervalo * suma
    {
      var valX := xIni + i as real * longIntervalo;
      RiemannAt(xIni, xFin, n, i, longIntervalo);
      var v := f(valX);
      NodeStep(f, rule, i, valX);
      if v.Err? {
        return Err(v.error);
      }
      RiemannStepArithmetic(longIntervalo, suma, v.value, acumula, rule.weights[i]);
      acumula := acumula + v.value * longIntervalo;
      suma := suma + rule.weights[i] * v.value;
      i := i + 1;
    }
    ClosingProduct(f, rule, suma, longIntervalo);
    r := Ok(acumula);
  }

  /** `reglaSimpson`: rejects an odd count first; otherwise the end values plus four times the
      odd and twice the even interior values, times a third of the width. */
  method ReglaSimpson(f: Integrand, xIni: real, xFin: real, n: int) returns (r: Result<real>)
    requires n > 0
    requires SingularOnlyByZero(f)
    ensures r == Simpson(f, xIni, xFin, n)
  {
    if n % 2 != 0 {
      return Err(OddIntervalCount);
    }
    ghost var rule := SimpsonRule(xIni, xFin, n);
    var longIntervalo := (xFin - xIni) / n as real;
    SimpsonAt(xIni, xFin, n, 0, longIntervalo);
    SimpsonAt(xIni, xFin, n, n, longIntervalo);
    LastNodeIsEnd(xIni, xFin, n);
    var fIni := f(xIni);
    NodeStep(f, rule, 0, xIni);
    if fIni.Err? {
      return Err(fIni.error);
    }
    var fFin := f(xFin);
    if fFin.Err? {
      ApplySingularNode(f, rule, n);
      return Err(fFin.error);
    }
    var acumula := fIni.value + fFin.value;
    var i := 1;
    while i < n
      invariant 1 <= i <= n
      invariant Defined(f, rule.nodes, i)
      invariant acumula == WeightedSum(f, rule.nodes, rule.weights, i) + fFin.value
    {
      var valX := xIni + i as real * longIntervalo;
      SimpsonAt(xIni, xFin, n, i, longIntervalo);
      var v := f(valX);
      NodeStep(f, rule, i, valX);
      if v.Err? {
        return Err(v.error);
      }
      SimpsonTermArithmetic(i, rule.weights[i], v.value);
      acumula := acumula + if i % 2 == 0 then 2.0 * v.value else 4.0 * v.value;
      i := i + 1;
    }
    NodeStep(f, rule, n, xFin);
    var tercio := longIntervalo / 3.0;
    ClosingProduct(f, rule, acumula, tercio);
    r := Ok(tercio * acumula);
  }

  /** `cuadraturaGaussLegendre`: the two reference nodes `-g`, `g` mapped onto the interval,
      their weighted values added up and scaled by half the width. */
  method CuadraturaGaussLegendre(f: Integrand, xIni: real, xFin: real, g: real) returns (r: Result<real>)
    requires SingularOnlyByZero(f)
    ensures r == Apply(f, GaussRule(xIni, xFin, g))
  {
    ghost var rule := GaussRule(xIni, xFin, g);
    var x := [-g, g];
    var w := [1.0, 1.0];
    var c1 := (xFin - xIni) / 2.0;
    var c2 := (xFin + xIni) / 2.0;
    assert rule.nodes == [Mapped(c1, c2, x[0]), Mapped(c1, c2, x[1])] && rule.weights == w;
    var integral := 0.0;
    var i := 0;
    while i < |x|
      invariant 0 <= i <= |x|
      invariant forall j :: 0 <= j < |x| ==> rule.nodes[j] == Mapped(c1, c2, x[j])
      invariant Defined(f, rule.nodes, i)
      invariant integral == WeightedSum(f, rule.nodes, rule.weights, i)
    {
      var punto := Mapped(c1, c2, x[i]);
      var v := f(punto);
      NodeStep(f, rule, i, punto);
      if v.Err? {
        return Err(v.error);
      }
      integral := integral + w[i] * v.value;
      i := i + 1;
    }
    ClosingProduct(f, rule, integral, c1);
    r := Ok(c1 * integral);
  }

  // ---------------------------------------------------------------- the script

  /** The engine's integrand: the equation for fixed transcendental functions and coefficients. */
  function Integrando(m: Math, coef: Coefficients): Integrand {
    x => Ecuacion(m, coef, x)
  }

  /** The equation only ever fails by dividing by zero, so an integration routine that passes
      its failure on reports exactly what its rule's meaning does. */
  lemma IntegrandoSingularOnlyByZero(m: Math, coef: Coefficients)
    ensures SingularOnlyByZero(Integrando(m, coef))
  {
    forall x | Integrando(m, coef)(x).Err?
      ensures Integrando(m, coef)(x).error == DivisionByZero
    {
      assert Integrando(m, coef)(x) == Ecuacion(m, coef, x);
    }
  }

  /** The mean of the four (absolute) areas. */
  function AreaPromedio(a: real, b: real, c: real, d: real): (r: real)
    ensures a <= r || b <= r || c <= r || d <= r
    ensures r <= a || r <= b || r <= c || r <= d
    ensures a >= 0.0 && b >= 0.0 && c >= 0.0 && d >= 0.0 ==> r >= 0.0
    ensures a == b == c == d ==> r == a
  {
    (a + b + c + d) / 4.0
  }

  /** The areas the script reports: the absolute value of each estimate and their mean. */
  datatype Areas = Areas(areaGauss: real, areaTrapecio: real, areaRiemann: real, areaSimpson: real,
                         areaPromedio: real)

  /** A report in which all four areas and their mean are `a`. */
  function Uniforme(a: real): Areas {
    Areas(a, a, a, a, a)
  }

  /** What the script computes for an integrand: the four estimates in the order Gauss,
      trapezoid, Riemann, Simpson; the first failure ends the computation and is the result. */
  function Resultados(f: Integrand, xIni: real, xFin: real, n: int, g: real): Result<Areas>
    requires n > 0
  {
    var gauss := Apply(f, GaussRule(xIni, xFin, g));
    if gauss.Err? then Err(gauss.error) else
    var trapecio := Apply(f, TrapezoidRule(xIni, xFin, n));
    if trapecio.Err? then Err(trapecio.error) else
    var riemann := Apply(f, RiemannRule(xIni, xFin, n));
    if riemann.Err? then Err(riemann.error) else
    var simpson := Simpson(f, xIni, xFin, n);
    if simpson.Err? then Err(simpson.error) else
    var aG, aT, aR, aS := Abs(gauss.value), Abs(trapecio.value), Abs(riemann.value), Abs(simpson.value);
    Ok(Areas(aG, aT, aR, aS, AreaPromedio(aG, aT, aR, aS)))
  }

  /** The script body: run the four routines on the equation, take absolute values, average. */
  method CalcularAreas(m: Math, coef: Coefficients, xIni: real, xFin: real, n: int, g: real)
    returns (r: Result<Areas>)
    requires n > 0
    ensures r == Resultados(Integrando(m, coef), xIni, xFin, n, g)
  {
    var f := Integrando(m, coef);
    IntegrandoSingularOnlyByZero(m, coef);
    var gauss := CuadraturaGaussLegendre(f, xIni, xFin, g);
    if gauss.Err? {
      return Err(gauss.error);
    }
    var trapecio := ReglaTrapecio(f, xIni, xFin, n);
    if trapecio.Err? {
      return Err(trapecio.error);
    }
    var riemann := SumaRiemann(f, xIni, xFin, n);
    if riemann.Err? {
      return Err(riemann.error);
    }
    var simpson := ReglaSimpson(f, xIni, xFin, n);
    if simpson.Err? {
      return Err(simpson.error);
    }
    var areaGauss := Abs(gauss.value);
    var areaTrapecio := Abs(trapecio.value);
    var areaRiemann := Abs(riemann.value);
    var areaSimpson := Abs(simpson.value);
    var areaPromedio := AreaPromedio(areaGauss, areaTrapecio, areaRiemann, areaSimpson);
    r := Ok(Areas(areaGauss, areaTrapecio, areaRiemann, areaSimpson, areaPromedio));
  }

  /** A successful report has non-negative areas and a mean between the smallest and the
      largest of them. */
  lemma ResultadosBounds(f: Integrand, xIni: real, xFin: real, n: int, g: real)
    requires n > 0
    requires Resultados(f, xIni, xFin, n, g).Ok?
    ensures var a := Resultados(f, xIni, xFin, n, g).value;
      && a.areaGauss >= 0.0 && a.areaTrapecio >= 0.0 && a.areaRiemann >= 0.0 && a.areaSimpson >= 0.0
      && a.areaPromedio >= 0.0
      && (a.areaGauss <= a.areaPromedio || a.areaTrapecio <= a.areaPromedio
          || a.areaRiemann <= a.areaPromedio || a.areaSimpson <= a.areaPromedio)
      && (a.areaPromedio <= a.areaGauss || a.areaPromedio <= a.areaTrapecio
          || a.areaPromedio <= a.areaRiemann || a.areaPromedio <= a.areaSimpson)
  {
  }

  /** A singular `xIni` is reported as a division by zero whatever the count, since it is a
      trapezoid node checked before Simpson's parity; with every Gauss and trapezoid node
      defined, an odd count is reported as `OddIntervalCount`. */
  lemma ResultadosErrors(f: Integrand, xIni: real, xFin: real, n: int, g: real)
    requires n > 0
    ensures f(xIni).Err? ==> Resultados(f, xIni, xFin, n, g) == Err(DivisionByZero)
    ensures f(xIni).Ok? && n % 2 != 0 && Defined(f, GaussRule(xIni, xFin, g).nodes, 2)
              && Defined(f, TrapezoidRule(xIni, xFin, n).nodes, n + 1)
            ==> Resultados(f, xIni, xFin, n, g) == Err(OddIntervalCount)
  {
    if f(xIni).Err? {
      TrapezoidSamples(xIni, xFin, n);
      if Apply(f, GaussRule(xIni, xFin, g)).Ok? {
        ApplySingularNode(f, TrapezoidRule(xIni, xFin, n), 0);
      }
    } else if n % 2 != 0 && Defined(f, TrapezoidRule(xIni, xFin, n).nodes, n + 1) {
      RiemannNodesAreTrapezoidNodes(xIni, xFin, n);
    }
  }

  /** A report fails exactly when the count is odd or a Gauss or trapezoid node is singular
      (the Riemann and Simpson nodes are trapezoid nodes). */
  lemma ResultadosFailsExactly(f: Integrand, xIni: real, xFin: real, n: int, g: real)
    requires n > 0
    ensures Resultados(f, xIni, xFin, n, g).Err?
            <==> n % 2 != 0 || !Defined(f, GaussRule(xIni, xFin, g).nodes, 2)
                 || !Defined(f, TrapezoidRule(xIni, xFin, n).nodes, n + 1)
  {
    if Defined(f, GaussRule(xIni, xFin, g).nodes, 2) && Defined(f, TrapezoidRule(xIni, xFin, n).nodes, n + 1) {
      RiemannNodesAreTrapezoidNodes(xIni, xFin, n);
      assert SimpsonRule(xIni, xFin, n).nodes == TrapezoidRule(xIni, xFin, n).nodes;
    }
  }

  /** Every Riemann node is a trapezoid node. */
  lemma RiemannNodesAreTrapezoidNodes(xIni: real, xFin: real, n: int)
    requires n > 0
    ensures forall i :: 0 <= i < n ==> RiemannRule(xIni, xFin, n).nodes[i] == TrapezoidRule(xIni, xFin, n).nodes[i]
  {
  }

  /** For a constant integrand `c` and an even count, every area is `|c * (xFin - xIni)|`, and
      so is their mean. */
  lemma ResultadosOfConstant(f: Integrand, xIni: real, xFin: real, n: int, g: real, c: real)
    requires n > 0 && n % 2 == 0
    requires forall x :: f(x) == Ok(c)
    ensures Resultados(f, xIni, xFin, n, g) == Ok(Uniforme(Abs(ConstantIntegral(c, xIni, xFin))))
  {
    GaussConstant(f, xIni, xFin, g, c);
    TrapezoidConstant(f, xIni, xFin, n, c);
    RiemannConstant(f, xIni, xFin, n, c);
    SimpsonConstant(f, xIni, xFin, n, c);
    var area := Abs(ConstantIntegral(c, xIni, xFin));
    assert AreaPromedio(area, area, area, area) == area;
  }

  /** For the constant equation `a6` (only `a3 > 0` and `a6` non-zero) and an even count, every
      area is `|a6 * (xFin - xIni)|`, and so is their mean. */
  lemma ResultadosConstant(m: Math, coef: Coefficients, xIni: real, xFin: real, n: int, g: real)
    requires n > 0 && n % 2 == 0
    requires SqrtNonNegative(m)
    requires coef[3] > 0.0
    requires coef[0] == coef[1] == coef[2] == coef[4] == coef[5] == 0.0
    ensures Resultados(Integrando(m, coef), xIni, xFin, n, g) == Ok(Uniforme(Abs(ConstantIntegral(coef[6], xIni, xFin))))
  {
    IntegrandoConstant(m, coef);
    ResultadosOfConstant(Integrando(m, coef), xIni, xFin, n, g, coef[6]);
  }

  /** The constant equation `a6` as an integrand. */
  lemma IntegrandoConstant(m: Math, coef: Coefficients)
    requires SqrtNonNegative(m)
    requires coef[3] > 0.0
    requires coef[0] == coef[1] == coef[2] == coef[4] == coef[5] == 0.0
    ensures forall x :: Integrando(m, coef)(x) == Ok(coef[6])
  {
    forall x
      ensures Integrando(m, coef)(x) == Ok(coef[6])
    {
      ConstantEquation(m, coef, x);
    }
  }

  /** Without the sine, cosine, rational and quartic terms and with `a3 > 0`, the equation is
      the cubic `a6 + a4 x^3` everywhere. */
  lemma IntegrandoCubic(m: Math, coef: Coefficients)
    requires SqrtNonNegative(m)
    requires coef[3] > 0.0
    requires coef[0] == coef[1] == coef[2] == coef[5] == 0.0
    ensures forall x :: Integrando(m, coef)(x).Ok?
                     && Integrando(m, coef)(x).value == Cubic(coef[6], 0.0, 0.0, coef[4], x)
  {
    forall x
      ensures Integrando(m, coef)(x).Ok? && Integrando(m, coef)(x).value == Cubic(coef[6], 0.0, 0.0, coef[4], x)
    {
      NoSingularityWhenShiftPositive(m, coef, x);
      PolynomialEquation(m, coef, x);
    }
  }

  /** With the engine's node `g = 1 / sqrt 3`, the Gauss-Legendre routine computes the exact
      area under such an equation. */
  lemma GaussExactOnCubicEquation(m: Math, coef: Coefficients, xIni: real, xFin: real, g: real)
    requires 3.0 * (g * g) == 1.0
    requires SqrtNonNegative(m)
    requires coef[3] > 0.0
    requires coef[0] == coef[1] == coef[2] == coef[5] == 0.0
    ensures Apply(Integrando(m, coef), GaussRule(xIni, xFin, g))
            == Ok(CubicIntegral(coef[6], 0.0, 0.0, coef[4], xIni, xFin))
  {
    IntegrandoCubic(m, coef);
    GaussCubic(Integrando(m, coef), xIni, xFin, g, coef[6], 0.0, 0.0, coef[4]);
  }
}
