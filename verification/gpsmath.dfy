/** Geo math: the finiteness test, the RMS combination of the two
    horizontal error components, and the uncertainty-aware NEAR / FAR /
    UNKNOWN classifier.  The great-circle distance itself (degrees to
    radians, sines, cosines, acos) is not computed here: it is the opaque
    function `trig`, whose result may be NaN. */
module GpsMath {
  import opened Double
  import opened SituTypes

  /** Classification of a fix against one watch */
  datatype State = UNKNOWN | FAR | NEAR

  /** Which numeric backend the library was built with */
  datatype Backend = Mpfr | Libm

  /** The spherical-law-of-cosines distance in metres between
      (hereLat, hereLon) and (thereLat, thereLon); signed, possibly NaN */
  type Trig = (Num, Num, Num, Num) -> Num

  /** Math::is_finite */
  predicate IsFinite(x: Num)
    ensures IsFinite(x) <==> x != NaN && x != PosInf && x != NegInf
  {
    x.Fin?
  }

  /** What hypot(x, y) (or mpfr_hypot) returns: +inf if either argument is
      infinite, even when the other is NaN; otherwise NaN if either is NaN;
      otherwise the non-negative square root of x*x + y*y */
  predicate IsHypot(x: Num, y: Num, h: Num)
    ensures IsHypot(x, y, h) ==> h.PosInf? || h.NaN? || (h.Fin? && h.v >= 0.0)
    ensures IsHypot(x, y, h) && x.Fin? && y.Fin? ==> h.Fin? && h.v * h.v == x.v * x.v + y.v * y.v
    ensures IsHypot(x, y, h) ==> (h.NaN? <==> (x.NaN? || y.NaN?) && !x.PosInf? && !x.NegInf? && !y.PosInf? && !y.NegInf?)
  {
    if x.PosInf? || x.NegInf? || y.PosInf? || y.NegInf? then h == PosInf
    else if x.NaN? || y.NaN? then h == NaN
    else h.Fin? && h.v >= 0.0 && h.v * h.v == x.v * x.v + y.v * y.v
  }

  /** The hypotenuse is determined by its arguments, so the value passed
      in for it is the one the library computes */
  lemma HypotUnique(x: Num, y: Num, h: Num, h': Num)
    requires IsHypot(x, y, h) && IsHypot(x, y, h')
    ensures h == h'
  {
    if x.Fin? && y.Fin? {
      var a, b := h.v, h'.v;
      if a < b {
        SquareIncreasing(a, b);
      } else if b < a {
        SquareIncreasing(b, a);
      }
    }
  }

  lemma SquareIncreasing(a: real, b: real)
    requires 0.0 <= a < b
    ensures a * a < b * b
  {
    calc {
      a * a;
    <= a * b;
    <  b * b;
    }
  }

  /** The return value of calculate_rms and the value of its out-parameter
      afterwards */
  datatype Rms = Rms(ok: bool, rms: Num)

  /** Math::calculate_rms(x, y, rms), with `hypot` the value the library's
      hypotenuse routine yields and `rms` the caller's variable before the
      call */
  function CalculateRms(backend: Backend, x: Num, y: Num, hypot: Num, rms: Num): (r: Rms)
    requires IsHypot(x, y, hypot)
    ensures !r.ok ==> backend == Mpfr && r.rms == rms
    ensures r.ok ==> r.rms == hypot
    ensures backend == Mpfr ==>
      (r.ok <==> !((x.NaN? || y.NaN?) && (x.Fin? || x.NaN?) && (y.Fin? || y.NaN?)))
    ensures r.ok && !r.rms.NaN? ==>
      r.rms.PosInf? || (r.rms.Fin? && r.rms.v >= 0.0 && r.rms.v * r.rms.v == x.v * x.v + y.v * y.v)
  {
    match backend
    case Mpfr => if hypot.NaN? then Rms(false, rms) else Rms(true, hypot)
    case Libm => Rms(true, hypot)
  }

  /** The error radius used by the classifier: three standard deviations,
      clamped to a fifth of the watch radius when it would reach the radius */
  function ErrorRadius(eph: Num, radius: Num): (r: Num)
    ensures r.NaN? <==> eph.NaN?
    ensures eph.Fin? && radius.Fin? ==> r.Fin? && (r.v == 3.0 * eph.v || r.v == 0.2 * radius.v)
    ensures eph.Fin? && radius.Fin? && eph.v >= 0.0 && radius.v > 0.0 ==> 0.0 <= r.v < radius.v
  {
    var err := Scale(3.0, eph);
    if Ge(err, radius) then Scale(0.2, radius) else err
  }

  /** The tri-state decision on the absolute distance, the error radius and
      the watch radius */
  function Classify(distanceAbs: Num, err: Num, radius: Num): (r: State)
    ensures distanceAbs.NaN? || err.NaN? ==> r == UNKNOWN
    ensures distanceAbs.Fin? && err.Fin? && radius.Fin? && err.v >= 0.0 ==>
      (r == NEAR ==> distanceAbs.v <= radius.v) && (r == FAR ==> distanceAbs.v > radius.v)
    ensures distanceAbs.Fin? && radius.Fin? && err == Fin(0.0) ==>
      r != UNKNOWN && (r == NEAR <==> distanceAbs.v <= radius.v)
  {
    if IsNaN(distanceAbs) || IsNaN(err) then UNKNOWN
    else if Le(Add(distanceAbs, err), radius) then NEAR
    else if Gt(Sub(distanceAbs, err), radius) then FAR
    else UNKNOWN
  }

  /** What Math::distance returns (the signed distance) and what it stores
      through its `state` out-parameter */
  datatype Measured = Measured(distance: Num, state: State)

  /** Math::distance(fix, thereLat, thereLon, thereRad, state) */
  function Distance(fix: Fix, thereLat: Num, thereLon: Num, thereRad: Num, trig: Trig): (r: Measured)
    ensures r.distance == trig(fix.latitude, fix.longitude, thereLat, thereLon)
    ensures r.distance.NaN? || fix.eph.NaN? ==> r.state == UNKNOWN
    ensures r.distance.Fin? && fix.eph.Fin? && thereRad.Fin? && fix.eph.v >= 0.0 && thereRad.v > 0.0 ==>
      (r.state == NEAR ==> -thereRad.v <= r.distance.v <= thereRad.v) &&
      (r.state == FAR ==> r.distance.v < -thereRad.v || thereRad.v < r.distance.v)
  {
    var d := trig(fix.latitude, fix.longitude, thereLat, thereLon);
    Measured(d, Classify(Abs(d), ErrorRadius(fix.eph, thereRad), thereRad))
  }

  /** The clamp law on finite values */
  lemma ErrorRadiusClamp(eph: real, radius: real)
    ensures 3.0 * eph < radius ==> ErrorRadius(Fin(eph), Fin(radius)) == Fin(3.0 * eph)
    ensures 3.0 * eph >= radius ==> ErrorRadius(Fin(eph), Fin(radius)) == Fin(0.2 * radius)
  {
  }

  /** For a positive finite watch radius and a non-negative error estimate,
      even an infinite one, the error radius is finite and strictly smaller
      than the watch radius */
  lemma ErrorRadiusBelowRadius(eph: Num, radius: real)
    requires radius > 0.0
    requires eph.PosInf? || (eph.Fin? && eph.v >= 0.0)
    ensures var err := ErrorRadius(eph, Fin(radius)); err.Fin? && 0.0 <= err.v < radius
  {
  }

  /** The true distance p is within the error radius e of the measured
      distance d */
  predicate WithinError(p: real, d: real, e: real)
  {
    d - e <= p <= d + e
  }

  /** NEAR means every distance compatible with the error budget lies inside
      the watch */
  lemma NearIffWholeErrorDiscInside(d: real, e: real, radius: real)
    requires e >= 0.0
    ensures Classify(Fin(d), Fin(e), Fin(radius)) == NEAR <==>
      forall p :: WithinError(p, d, e) ==> p <= radius
  {
    if forall p :: WithinError(p, d, e) ==> p <= radius {
      assert WithinError(d + e, d, e);
    }
  }

  /** FAR means every distance compatible with the error budget lies
      strictly outside the watch */
  lemma FarIffWholeErrorDiscOutside(d: real, e: real, radius: real)
    requires e >= 0.0
    ensures Classify(Fin(d), Fin(e), Fin(radius)) == FAR <==>
      forall p :: WithinError(p, d, e) ==> p > radius
  {
    if forall p :: WithinError(p, d, e) ==> p > radius {
      assert WithinError(d - e, d, e);
    }
    if Classify(Fin(d), Fin(e), Fin(radius)) == FAR {
      assert d - e > radius;
    }
  }

  /** UNKNOWN on finite values means the error disc straddles the boundary:
      some compatible distance is inside and another is outside */
  lemma UnknownIffErrorDiscStraddles(d: real, e: real, radius: real)
    requires e >= 0.0
    ensures Classify(Fin(d), Fin(e), Fin(radius)) == UNKNOWN <==>
      (exists p :: WithinError(p, d, e) && p > radius) &&
      (exists q :: WithinError(q, d, e) && q <= radius)
  {
    NearIffWholeErrorDiscInside(d, e, radius);
    FarIffWholeErrorDiscOutside(d, e, radius);
  }

  /** The NEAR test and the FAR test can never both succeed for a
      non-negative distance and error radius, so the order of the two tests
      in the classifier does not matter */
  lemma NearAndFarTestsExclusive(distanceAbs: Num, err: Num, radius: Num)
    requires distanceAbs.PosInf? || (distanceAbs.Fin? && distanceAbs.v >= 0.0)
    requires err.PosInf? || (err.Fin? && err.v >= 0.0)
    ensures !(Le(Add(distanceAbs, err), radius) && Gt(Sub(distanceAbs, err), radius))
  {
  }

  /** A NaN distance, a NaN error estimate or a NaN watch radius all
      degrade to UNKNOWN */
  lemma NaNGivesUnknown(fix: Fix, thereLat: Num, thereLon: Num, thereRad: Num, trig: Trig)
    requires trig(fix.latitude, fix.longitude, thereLat, thereLon).NaN? || fix.eph.NaN? || thereRad.NaN?
    ensures Distance(fix, thereLat, thereLon, thereRad, trig).state == UNKNOWN
  {
  }

  /** The classification depends on the magnitude of the distance only, and
      the returned distance is the signed value the trigonometry produced */
  lemma SignOfDistanceIrrelevant(fix: Fix, thereLat: Num, thereLon: Num, thereRad: Num, trig: Trig, trig': Trig)
    requires trig'(fix.latitude, fix.longitude, thereLat, thereLon) == Neg(trig(fix.latitude, fix.longitude, thereLat, thereLon))
    ensures Distance(fix, thereLat, thereLon, thereRad, trig').state == Distance(fix, thereLat, thereLon, thereRad, trig).state
    ensures Distance(fix, thereLat, thereLon, thereRad, trig').distance == Neg(Distance(fix, thereLat, thereLon, thereRad, trig).distance)
  {
  }

  /** A fix exactly at the centre of a watch with a positive radius is NEAR,
      however large its non-negative error estimate */
  lemma CentreIsNear(fix: Fix, thereLat: Num, thereLon: Num, thereRad: real, trig: Trig)
    requires trig(fix.latitude, fix.longitude, thereLat, thereLon) == Fin(0.0)
    requires thereRad > 0.0
    requires fix.eph.PosInf? || (fix.eph.Fin? && fix.eph.v >= 0.0)
    ensures Distance(fix, thereLat, thereLon, Fin(thereRad), trig).state == NEAR
  {
  }

  /** Only NaN is tested before classifying: with an infinite watch radius
      an infinite error radius does not force UNKNOWN, and the fix is NEAR */
  lemma InfiniteRadiusIsNear(distanceAbs: real, eph: Num)
    requires eph.PosInf? || eph.Fin?
    ensures Classify(Fin(distanceAbs), ErrorRadius(eph, PosInf), PosInf) == NEAR
  {
  }
}
