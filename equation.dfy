/** The fixed seven-coefficient equation whose area is estimated, with its singularity guard. */
module Equation {
  import opened Results

  /** The absolute value `abs` of the engine. */
  function Abs(x: real): (r: real)
    ensures r >= 0.0 && (r == x || r == -x)
  {
    if x < 0.0 then -x else x
  }

  /** The transcendental functions the equation uses. They are left uninterpreted:
      any three functions may stand for them. */
  datatype Math = Math(sin: real -> real, cos: real -> real, sqrt: real -> real)

  /** What the real square root guarantees on non-negative arguments. */
  ghost predicate SqrtNonNegative(m: Math) {
    forall y :: y >= 0.0 ==> m.sqrt(y) >= 0.0
  }

  /** The sign of the real square root: zero at zero, positive on positive arguments. */
  ghost predicate SqrtSign(m: Math) {
    m.sqrt(0.0) == 0.0 && forall y :: y > 0.0 ==> m.sqrt(y) > 0.0
  }

  /** The coefficient vector `[a0, ..., a6]`. */
  type Coefficients = c: seq<real> | |c| == 7 witness [0.0, 0.0, 0.0, 0.0, 0.0, 0.0, 0.0]

  /** The denominator `a3 + sqrt(|x|)` of the rational term. */
  function Denominator(m: Math, coef: Coefficients, x: real): real {
    coef[3] + m.sqrt(Abs(x))
  }

  /** `a0 sin x + a1 cos x + a2 x^2 / (a3 + sqrt|x|) + a4 x^3 + a5 x^4 + a6`, failing with
      `DivisionByZero` when the denominator is exactly zero. */
  function Ecuacion(m: Math, coef: Coefficients, x: real): (r: Result<real>)
    ensures r.Err? <==> coef[3] + m.sqrt(Abs(x)) == 0.0
    ensures r.Err? ==> r.error == DivisionByZero
  {
    var d := Denominator(m, coef, x);
    if d == 0.0 then Err(DivisionByZero)
    else Ok(coef[0] * m.sin(x) + coef[1] * m.cos(x) + (coef[2] * (x * x)) / d
            + coef[4] * (x * x * x) + coef[5] * (x * x * x * x) + coef[6])
  }

  /** With a positive shift `a3` the equation is defined everywhere. */
  lemma NoSingularityWhenShiftPositive(m: Math, coef: Coefficients, x: real)
    requires SqrtNonNegative(m)
    requires coef[3] > 0.0
    ensures Ecuacion(m, coef, x).Ok?
  {
    assert m.sqrt(Abs(x)) >= 0.0;
  }

  /** With `a3 == 0` the equation is singular at the origin and nowhere else. */
  lemma SingularExactlyAtOriginWhenShiftZero(m: Math, coef: Coefficients, x: real)
    requires SqrtSign(m)
    requires coef[3] == 0.0
    ensures Ecuacion(m, coef, x).Err? <==> x == 0.0
  {
    if x != 0.0 {
      assert Abs(x) > 0.0;
    }
  }

  /** When every coefficient but the shift `a3 > 0` and the constant `a6` is zero, the equation is
      the constant `a6`. */
  lemma ConstantEquation(m: Math, coef: Coefficients, x: real)
    requires SqrtNonNegative(m)
    requires coef[3] > 0.0
    requires coef[0] == coef[1] == coef[2] == coef[4] == coef[5] == 0.0
    ensures Ecuacion(m, coef, x) == Ok(coef[6])
  {
    NoSingularityWhenShiftPositive(m, coef, x);
  }

  /** When the sine, cosine and rational terms vanish, the equation is the polynomial
      `a4 x^3 + a5 x^4 + a6` wherever it is defined. */
  lemma PolynomialEquation(m: Math, coef: Coefficients, x: real)
    requires coef[0] == coef[1] == coef[2] == 0.0
    requires Ecuacion(m, coef, x).Ok?
    ensures Ecuacion(m, coef, x).value == coef[4] * (x * x * x) + coef[5] * (x * x * x * x) + coef[6]
  {
  }
}
