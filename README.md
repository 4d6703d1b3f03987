# Area under a curve: the numerical-integration engine of `calculo.php`

`calculo.php` estimates the area under a fixed seven-coefficient curve

    f(x) = a0 sin x + a1 cos x + a2 x^2 / (a3 + sqrt|x|) + a4 x^3 + a5 x^4 + a6

over `[xIni, xFin]`. It uses four quadrature routines and then reports the absolute value of each
estimate and the mean of those four values. This project models that engine in Dafny over exact
`real` arithmetic and proves what each routine samples, how it weights the samples, and what it
returns.

- `results.dfy` (module `Results`): the error kinds of the engine.
  - `DivisionByZero` is the exception `Ecuacion` throws.
  - `OddIntervalCount` is the exception `reglaSimpson` throws.
  - `Result<T>` carries either a value or one of these errors.
- `equation.dfy` (module `Equation`): `Ecuacion`.
  - It has the singularity guard and the seven-term value.
  - `sin`, `cos` and `sqrt` are uninterpreted functions, held in a `Math` record.
  - The lemmas state what holds given the usual properties of `sqrt`.
- `quadrature.dfy` (module `Quadrature`): a quadrature rule as data.
  - A `Rule` is its nodes, its weights and a factor.
  - `Apply(f, rule)` is its reference meaning. It is the factor times the weighted sum of the values of `f` at the nodes, or `DivisionByZero` when `f` is singular at a node.
  - The integrand is any `f: real -> Result<real>`.
- `rules.dfy` (module `Rules`): the four rules of the engine as `Rule` values.
  - `TrapezoidRule`, `RiemannRule`, `SimpsonRule` (plus `Simpson`, which adds the parity guard) and `GaussRule`.
  - Lemmas about nodes, weights, weight totals and exactness.
- `calculo.dfy` (module `Calculo`): the four PHP routines as loops.
  - `ReglaTrapecio`, `SumaRiemann`, `ReglaSimpson` and `CuadraturaGaussLegendre` mirror the PHP loops statement by statement.
  - Each is proved to return exactly its rule's `Apply` (or `Simpson`). The loop invariant ties the accumulator to the recursive partial weighted sum `WeightedSum`.
  - The script part is the areas report `Resultados` and the method `CalcularAreas`, covering lines 94-100: four estimates in source order, their absolute values, and the mean `AreaPromedio`.

The specification functions `Apply`, `Simpson` and `Resultados` have no contract of their own. They
are the reference the methods are proved against, and the lemmas below state their properties.

The equation is singular only where `a3 + sqrt|x|` is exactly zero. With `a3 = 1`, as in the
coefficients `[0,0,0,1,0,0,0]`, the denominator is at least 1, so the equation is never singular
and is the constant 0 everywhere (`NoSingularityWhenShiftPositive`, `ConstantEquation`). With
`a3 = 0` it is singular at `x = 0` and nowhere else (`SingularExactlyAtOriginWhenShiftZero`).

## Model

| member | source | states |
|---|---|---|
| `Equation.Abs` | calculo.php:7 | PHP `abs`: the result is non-negative and is `x` or `-x` |
| `Equation.Ecuacion` | calculo.php:5-18 | fails, with `DivisionByZero`, exactly when `a3 + sqrt(abs x)` is zero; otherwise is defined |
| `Equation.NoSingularityWhenShiftPositive` | calculo.php:7-9 | with `a3 > 0` (and `sqrt` non-negative) the guard never fires |
| `Equation.SingularExactlyAtOriginWhenShiftZero` | calculo.php:7-9 | with `a3 = 0` (and `sqrt` zero only at zero) the equation is singular at `x = 0` and at no other point |
| `Equation.ConstantEquation` | calculo.php:12-17 | with `a0 = a1 = a2 = a4 = a5 = 0` and `a3 > 0` (and `sqrt` non-negative) the value is `a6` at every point |
| `Equation.PolynomialEquation` | calculo.php:12-17 | without the sine, cosine and rational terms the value is `a4 x^3 + a5 x^4 + a6` wherever defined |
| `Quadrature.Apply` | calculo.php:21-81 | the meaning of every routine: its factor times the weighted sum of the integrand at its nodes, or `DivisionByZero`; its properties are stated by `ApplyFailsExactlyAtSingularNode`, `ApplySingularNode`, `NodeStep`, `ApplyLocal`, `ApplyConstant` and `ApplyZeroScale` |
| `Quadrature.ApplyFailsExactlyAtSingularNode` | calculo.php:7-9 | a rule fails if and only if some sampled node is singular, and then with `DivisionByZero` and no partial result |
| `Quadrature.ApplySingularNode` | calculo.php:7-9 | one singular node makes the whole rule fail |
| `Quadrature.NodeStep` | calculo.php:26-28 | evaluating the next node extends the weighted sum by its weighted value, or makes the rule fail |
| `Quadrature.ApplyLocal` | calculo.php:21-81 | a rule looks at the integrand only at its nodes: integrands agreeing there give the same result |
| `Quadrature.ApplyConstant` | calculo.php:21-81 | for an integrand equal to `c` at every node, a rule returns `Ok` of its factor times `c` times the sum of its weights |
| `Quadrature.ApplyZeroScale` | calculo.php:21-81 | a rule with factor 0 returns 0 wherever it is defined |
| `Rules.LastNodeIsEnd` | calculo.php:22-23 | `xIni + n h` is exactly `xFin`, so the end value the routines evaluate separately is the last grid node |
| `Rules.GridNodeAt` | calculo.php:27 | the `i`-th grid node is `xIni + i * h` for `h = (xFin - xIni) / n` |
| `Rules.NodeInInterval` | calculo.php:27 | for `xIni <= xFin` every grid node lies in `[xIni, xFin]`, and strictly below `xFin` before the last when `xIni < xFin` |
| `Rules.ConstantExact` | calculo.php:21-81 | a rule with factor `h / d` and weights totalling `d n` returns exactly `c (xFin - xIni)` on the constant `c` |
| `Rules.TrapezoidRule` | calculo.php:22-31 | the trapezoid nodes, weights and factor, with `n + 1` nodes; stated in full by `TrapezoidSamples`, `TrapezoidAt` and `TrapezoidTotalWeight` |
| `Rules.TrapezoidSamples` | calculo.php:22-31 | nodes `xIni + i h` for `i = 0..n` from `xIni` to `xFin`, weight 1/2 at both ends and 1 inside, factor `h` |
| `Rules.TrapezoidAt` | calculo.php:27-28 | the `i`-th trapezoid node and weight as the loop computes them |
| `Rules.TrapezoidTotalWeight` | calculo.php:23-28 | the trapezoid weights total `n` |
| `Rules.TrapezoidConstant` | calculo.php:21-32 | on a constant `c` the trapezoid rule returns exactly `c (xFin - xIni)` |
| `Rules.RiemannRule` | calculo.php:40-42 | the Riemann nodes, weights and factor, with `n` nodes; stated in full by `RiemannSamplesLeftEdges`, `RiemannAt` and `RiemannIgnoresRightEnd` |
| `Rules.RiemannSamplesLeftEdges` | calculo.php:40-42 | nodes `xIni + i h` for `i = 0..n-1`, weight 1, factor `h`; for `xIni < xFin` every node lies in `[xIni, xFin)` |
| `Rules.RiemannIgnoresRightEnd` | calculo.php:40-42 | for `xIni < xFin`, changing the integrand at `xFin` alone never changes the Riemann sum |
| `Rules.RiemannAt` | calculo.php:41-42 | the `i`-th Riemann node and weight as the loop computes them |
| `Rules.RiemannConstant` | calculo.php:35-46 | on a constant `c` the Riemann sum returns exactly `c (xFin - xIni)` |
| `Rules.SimpsonRule` | calculo.php:54-63 | the Simpson nodes, weights and factor, with `n + 1` nodes; stated in full by `SimpsonSamples`, `SimpsonAt` and `SimpsonTotalWeight` |
| `Rules.Simpson` | calculo.php:50-63 | the parity guard, then the Simpson rule; its properties are stated by `SimpsonGuard` and `SimpsonConstant` |
| `Rules.SimpsonSamples` | calculo.php:54-63 | nodes `xIni + i h` from `xIni` to `xFin`, weight 1 at the ends, 4 at odd and 2 at even interior nodes, factor `h / 3` |
| `Rules.SimpsonAt` | calculo.php:59-60 | the `i`-th Simpson node and weight as the loop computes them |
| `Rules.SimpsonGuard` | calculo.php:50-52 | an odd count fails with `OddIntervalCount` for every integrand; an even count fails exactly when a node is singular, with `DivisionByZero` |
| `Rules.SimpsonPartialTotal` | calculo.php:55-61 | the first `2j + 1` Simpson weights total `6j + 1` |
| `Rules.SimpsonTotalWeight` | calculo.php:55-61 | for an even count the Simpson weights total `3n` |
| `Rules.SimpsonConstant` | calculo.php:49-64 | for an even count, on a constant `c` Simpson returns exactly `c (xFin - xIni)` |
| `Rules.GaussRule` | calculo.php:68-80 | the two Gauss nodes, weights and factor; stated in full by `GaussNodes`, with exactness in `GaussLinear` and `GaussCubic` |
| `Rules.GaussNodes` | calculo.php:68-77 | the nodes `c2 -+ c1 g` are symmetric about the midpoint, `g (xFin - xIni)` apart, weights 1 and 1, factor `c1`; for `0 < g < 1` they lie in the interval (strictly inside a proper one) |
| `Rules.GaussConstant` | calculo.php:67-81 | on a constant `c` the Gauss rule returns exactly `c (xFin - xIni)` |
| `Rules.GaussLinear` | calculo.php:67-81 | for every `g` the Gauss rule integrates `a + b x` exactly |
| `Rules.GaussCubic` | calculo.php:68-80 | with `3 g^2 = 1` (the engine's `1 / sqrt 3`) the Gauss rule integrates every cubic exactly |
| `Rules.DegenerateNodes` | calculo.php:21-81 | on `[x, x]` every node of every rule is `x` |
| `Rules.DegenerateInterval` | calculo.php:21-81 | on `[x, x]` each rule returns 0 when `x` is not singular (Simpson for an even count) and fails with `DivisionByZero` when it is |
| `Calculo.ReglaTrapecio` | calculo.php:21-32 | the trapezoid loop returns exactly the trapezoid rule's meaning, failure included |
| `Calculo.SumaRiemann` | calculo.php:35-46 | the Riemann loop, scaling every term by `h`, returns exactly the Riemann rule's meaning |
| `Calculo.ReglaSimpson` | calculo.php:49-64 | the Simpson routine rejects an odd count first and otherwise returns exactly the Simpson rule's meaning |
| `Calculo.CuadraturaGaussLegendre` | calculo.php:67-81 | the Gauss loop over the two reference nodes returns exactly the Gauss rule's meaning |
| `Calculo.Integrando` | calculo.php:23-28 | the calls `ecuacion($coef, x)` of every routine as one integrand; its properties are stated by `IntegrandoSingularOnlyByZero`, `IntegrandoConstant` and `IntegrandoCubic` |
| `Calculo.IntegrandoSingularOnlyByZero` | calculo.php:5-18 | the equation fails only by division by zero |
| `Calculo.IntegrandoConstant` | calculo.php:12-17 | with `a0 = a1 = a2 = a4 = a5 = 0` and `a3 > 0` (and `sqrt` non-negative) the integrand is `Ok(a6)` at every point |
| `Calculo.IntegrandoCubic` | calculo.php:12-17 | with `a0 = a1 = a2 = a5 = 0` and `a3 > 0` (and `sqrt` non-negative) the equation is the cubic `a6 + a4 x^3` everywhere |
| `Calculo.GaussExactOnCubicEquation` | calculo.php:67-81 | on such an equation the Gauss routine returns the exact area |
| `Calculo.AreaPromedio` | calculo.php:100 | the mean lies between the smallest and the largest area, is non-negative for non-negative areas, and equals the common value of equal areas |
| `Calculo.CalcularAreas` | calculo.php:94-100 | the script returns exactly `Resultados`: the four estimates in source order, their absolute values and their mean, or the first failure |
| `Calculo.Resultados` | calculo.php:94-100 | the four estimates in source order, their absolute values and their mean, or the first failure; its properties are stated by `CalcularAreas`, `ResultadosBounds`, `ResultadosErrors`, `ResultadosFailsExactly`, `ResultadosOfConstant` and `ResultadosConstant` |
| `Calculo.ResultadosBounds` | calculo.php:94-100 | every reported area is non-negative and the mean lies between the smallest and the largest |
| `Calculo.ResultadosErrors` | calculo.php:94-97 | a singular `xIni` is reported as `DivisionByZero` whatever the count; an odd count with every Gauss and trapezoid node defined is reported as `OddIntervalCount` |
| `Calculo.ResultadosFailsExactly` | calculo.php:94-97 | the report fails if and only if the count is odd or a Gauss or trapezoid node is singular |
| `Calculo.RiemannNodesAreTrapezoidNodes` | calculo.php:40-42 | every Riemann node is the trapezoid node of the same index |
| `Calculo.ResultadosOfConstant` | calculo.php:94-100 | for a constant integrand and an even count all four areas and the mean are `abs(c (xFin - xIni))` |
| `Calculo.ResultadosConstant` | calculo.php:94-100 | for the constant equation `a6` (`a0 = a1 = a2 = a4 = a5 = 0`, `a3 > 0`, `sqrt` non-negative) and an even count all four areas and the mean are `abs(a6 (xFin - xIni))` |

## Left out

- JSON request decoding, response encoding and the `Content-Type` header (calculo.php:2, 84-88, 107-116) are I/O. The inputs become parameters and the report becomes the `Areas` value.
- The `microtime` timing (calculo.php:91, 103-104) measures wall-clock time and is not modelled.
- Floating point is not modelled. Arithmetic is exact `real`, so the model says nothing about rounding.
  - In exact arithmetic the per-term `* h` of `sumaRiemann` equals one factor `h` on the sum. `SumaRiemann` performs the per-term product, and its proof connects the two.
  - `sin`, `cos` and `sqrt` are uninterpreted functions.
  - `pow(x, k)` is written as repeated multiplication.
  - The node `1 / sqrt(3)` is a parameter `g`. Only `GaussCubic` and `GaussExactOnCubicEquation` assume `3 g^2 = 1`.
- The accuracy of the trapezoid, Riemann and Simpson sums on non-constant integrands is not proved. Only exactness on constants is.
- Coefficients: a coefficient vector has exactly seven entries. PHP would read a missing `$coef[k]` as 0 and ignore extra entries; the page that sends the request always sends seven.
- `intervalos` is an `int` with `n > 0` as a precondition of the three grid routines and the script. PHP behaviour for zero, negative or non-integer counts is not modelled.
- An exception in PHP aborts the script with no report. The model returns the first `Err` instead.
  - Inside one routine every failure at a node is `DivisionByZero`, so the model does not fix which singular node is hit first.
  - Across routines the source order (Gauss, trapezoid, Riemann, Simpson) is kept.
- Calculo.ReglaTrapecio, Calculo.SumaRiemann, Calculo.ReglaSimpson and Calculo.CuadraturaGaussLegendre: they take any integrand whose only failure is `DivisionByZero`, which the engine's equation is (`IntegrandoSingularOnlyByZero`).
- The root finder, the bisection and the partition of the domain at zero crossings are not in `calculo.php`. `Corte 2 Programación Web/script.js` is not part of this model.
