/** The strategies compute in C++ `double`. This module models a double through
    its value: a finite number (an exact real: rounding and overflow are not
    modelled), one of the two infinities, or NaN. Comparisons follow IEEE 754:
    every comparison with NaN is false. Signed zero is not modelled; a division
    by zero behaves as a division by +0. */
module Float64 {

  datatype Double = Num(x: real) | PosInf | NegInf | NaN

  const Zero: Double := Num(0.0)
  const One: Double := Num(1.0)

  /** std::isnan */
  predicate IsNaN(a: Double) { a.NaN? }

  /** std::isinf */
  predicate IsInf(a: Double) { a.PosInf? || a.NegInf? }

  /** A finite number that is at least / strictly above a real bound. */
  predicate AtLeast(a: Double, bound: real) { a.Num? && a.x >= bound }
  predicate Above(a: Double, bound: real) { a.Num? && a.x > bound }

  /** `a < b` */
  predicate Lt(a: Double, b: Double)
  {
    (a.Num? && b.Num? && a.x < b.x) ||
    (a.NegInf? && (b.Num? || b.PosInf?)) ||
    (a.Num? && b.PosInf?)
  }

  /** `a > b` */
  predicate Gt(a: Double, b: Double) { Lt(b, a) }

  /** `a == b` */
  predicate Eq(a: Double, b: Double) { !a.NaN? && a == b }

  /** `a <= b` */
  predicate Le(a: Double, b: Double) { Lt(a, b) || Eq(a, b) }

  /** `a >= b` */
  predicate Ge(a: Double, b: Double) { Le(b, a) }

  /** An infinity of the given sign. */
  function Inf(positive: bool): Double { if positive then PosInf else NegInf }

  /** Unary `-a`. */
  function Neg(a: Double): Double
  {
    match a
    case Num(x) => Num(-x)
    case PosInf => NegInf
    case NegInf => PosInf
    case NaN => NaN
  }

  /** `a + b`: opposite infinities give NaN. */
  function Add(a: Double, b: Double): Double
  {
    if a.NaN? || b.NaN? then NaN
    else if a.Num? && b.Num? then Num(a.x + b.x)
    else if a.Num? then b
    else if b.Num? then a
    else if a == b then a
    else NaN
  }

  /** `a - b` */
  function Sub(a: Double, b: Double): Double { Add(a, Neg(b)) }

  /** `a * b`: zero times an infinity gives NaN. */
  function Mul(a: Double, b: Double): Double
  {
    if a.NaN? || b.NaN? then NaN
    else if a.Num? && b.Num? then Num(a.x * b.x)
    else if a.Num? then (if a.x == 0.0 then NaN else Inf((a.x > 0.0) == b.PosInf?))
    else if b.Num? then (if b.x == 0.0 then NaN else Inf((b.x > 0.0) == a.PosInf?))
    else Inf(a == b)
  }

  /** `a / b`: 0/0 and inf/inf give NaN, a finite number over an infinity gives 0. */
  function Div(a: Double, b: Double): Double
  {
    if a.NaN? || b.NaN? then NaN
    else if a.Num? && b.Num? then
      (if b.x != 0.0 then Num(a.x / b.x)
       else if a.x > 0.0 then PosInf
       else if a.x < 0.0 then NegInf
       else NaN)
    else if a.Num? then Zero
    else if b.Num? then Inf(a.PosInf? == (b.x >= 0.0))
    else NaN
  }

  /** std::max(a, b), which is `(a < b) ? b : a`: a NaN first argument wins. */
  function Max(a: Double, b: Double): (r: Double)
    ensures r == a || r == b
    ensures !a.NaN? && !b.NaN? ==> Ge(r, a) && Ge(r, b)
  {
    if Lt(a, b) then b else a
  }

  /** std::min(a, b), which is `(b < a) ? b : a`: a NaN first argument wins. */
  function Min(a: Double, b: Double): (r: Double)
    ensures r == a || r == b
    ensures !a.NaN? && !b.NaN? ==> Le(r, a) && Le(r, b)
  {
    if Lt(b, a) then b else a
  }

  /** The C library functions the strategies call. The model knows nothing of
      their values: every fact about them is a hypothesis of the lemma using it. */
  datatype MathLib = MathLib(sin: Double -> Double, pow: (Double, Double) -> Double)

  /** The one fact about std::pow the power-law lemmas assume: a positive finite
      base raised to a finite exponent is a positive finite number. */
  ghost predicate PowPositive(lib: MathLib)
  {
    forall p: Double, e: Double :: Above(p, 0.0) && e.Num? ==> Above(lib.pow(p, e), 0.0)
  }
}
