/** IEEE 754 double-precision values as the geofence engine uses them.
    A finite double is an exact real (rounding is not modelled); the three
    special values are kept apart so that NaN propagation and the
    behaviour of infinities in comparisons are explicit. */
module Double {

  datatype Num = Fin(v: real) | PosInf | NegInf | NaN

  /** C's isnan */
  predicate IsNaN(x: Num) { x.NaN? }

  /** Unary minus */
  function Neg(x: Num): (r: Num)
    ensures r.NaN? <==> x.NaN?
    ensures r.Fin? <==> x.Fin?
    ensures r.Fin? ==> r.v == -x.v
    ensures r.NegInf? <==> x.PosInf?
    ensures r.PosInf? <==> x.NegInf?
  {
    match x
    case Fin(a) => Fin(-a)
    case PosInf => NegInf
    case NegInf => PosInf
    case NaN => NaN
  }

  /** C's fabs: the magnitude, never negative, NaN stays NaN */
  function Abs(x: Num): (r: Num)
    ensures r.NaN? <==> x.NaN?
    ensures r.Fin? <==> x.Fin?
    ensures r.Fin? ==> r.v >= 0.0 && (r.v == x.v || r.v == -x.v)
    ensures !r.NaN? ==> r.Fin? || r.PosInf?
  {
    match x
    case Fin(a) => Fin(if a < 0.0 then -a else a)
    case NaN => NaN
    case _ => PosInf
  }

  /** IEEE addition: NaN if either operand is NaN or if infinities of
      opposite sign meet; otherwise an infinity absorbs a finite value */
  function Add(x: Num, y: Num): (r: Num)
    ensures r.NaN? <==> x.NaN? || y.NaN? || (x.PosInf? && y.NegInf?) || (x.NegInf? && y.PosInf?)
    ensures x.Fin? && y.Fin? ==> r == Fin(x.v + y.v)
    ensures !r.NaN? ==> ((x.PosInf? || y.PosInf?) <==> r.PosInf?)
    ensures !r.NaN? ==> ((x.NegInf? || y.NegInf?) <==> r.NegInf?)
  {
    match (x, y)
    case (NaN, _) => NaN
    case (_, NaN) => NaN
    case (PosInf, NegInf) => NaN
    case (NegInf, PosInf) => NaN
    case (PosInf, _) => PosInf
    case (_, PosInf) => PosInf
    case (NegInf, _) => NegInf
    case (_, NegInf) => NegInf
    case (Fin(a), Fin(b)) => Fin(a + b)
  }

  /** IEEE subtraction */
  function Sub(x: Num, y: Num): (r: Num)
    ensures r.NaN? <==> x.NaN? || y.NaN? || (x.PosInf? && y.PosInf?) || (x.NegInf? && y.NegInf?)
    ensures x.Fin? && y.Fin? ==> r == Fin(x.v - y.v)
    ensures !r.NaN? ==> ((x.PosInf? || y.NegInf?) <==> r.PosInf?)
    ensures !r.NaN? ==> ((x.NegInf? || y.PosInf?) <==> r.NegInf?)
  {
    Add(x, Neg(y))
  }

  /** Multiplication by a positive finite constant (3 * eph, 0.2 * radius) */
  function Scale(c: real, x: Num): (r: Num)
    requires c > 0.0
    ensures r.NaN? <==> x.NaN?
    ensures r.Fin? <==> x.Fin?
    ensures r.PosInf? <==> x.PosInf?
    ensures r.NegInf? <==> x.NegInf?
    ensures x.Fin? ==> r == Fin(c * x.v)
  {
    match x
    case Fin(a) => Fin(c * a)
    case _ => x
  }

  /** IEEE x <= y: false whenever either side is NaN */
  predicate Le(x: Num, y: Num)
    ensures Le(x, y) ==> !x.NaN? && !y.NaN?
    ensures x.Fin? && y.Fin? ==> (Le(x, y) <==> x.v <= y.v)
    ensures !x.NaN? && !y.NaN? ==> (Le(x, y) <==> !Lt(y, x))
  {
    !x.NaN? && !y.NaN? &&
    (x.NegInf? || y.PosInf? || (x.Fin? && y.Fin? && x.v <= y.v))
  }

  /** IEEE x < y: false whenever either side is NaN */
  predicate Lt(x: Num, y: Num)
    ensures Lt(x, y) ==> !x.NaN? && !y.NaN? && x != y
    ensures x.Fin? && y.Fin? ==> (Lt(x, y) <==> x.v < y.v)
    ensures Lt(x, y) ==> !x.PosInf? && !y.NegInf?
    ensures x.NegInf? && (y.Fin? || y.PosInf?) ==> Lt(x, y)
    ensures x.Fin? && y.PosInf? ==> Lt(x, y)
  {
    (x.NegInf? && (y.Fin? || y.PosInf?)) ||
    (x.Fin? && (y.PosInf? || (y.Fin? && x.v < y.v)))
  }

  /** IEEE x >= y */
  predicate Ge(x: Num, y: Num) { Le(y, x) }

  /** IEEE x > y */
  predicate Gt(x: Num, y: Num) { Lt(y, x) }
}
