/** What two samples of a projection's depth row say about the whole depth range, and how an
    inverse projection is recognised and undone. `float` is modelled as `real`; a value counts as
    finite when its magnitude stays below the bound the source tests. */
module DepthContract {
  import opened Arithmetic
  import opened Common

  const FINITE_BOUND: real := 300000000000000000000000000000000000000.0
  const MINIMUM_W: real := 0.000000001
  const MINIMUM_DETERMINANT: real := 0.000000000001
  const MINIMUM_SEPARATION: real := 0.0001
  const INTERVAL_TOLERANCE: real := 0.001
  const MAXIMUM_M44: real := 0.000001
  const INFINITE_ENDPOINT_TOLERANCE: real := 0.0000005

  datatype DepthProjection = DepthProjection(
    m33: real, m43: real, m34: real, m44: real, nearPlane: real, farPlane: real)

  datatype DepthOrientation = Reversed | Standard | IndeterminateOrientation
  datatype DepthRange = Infinite | Bounded | IndeterminateRange
  datatype ProjectionForm = Forward | Inverted | Unrecognised

  predicate Finite(x: real) {
    Abs(x) < FINITE_BOUND
  }

  function W(p: DepthProjection, z: real): real {
    z * p.m34 + p.m44
  }

  function Z(p: DepthProjection, z: real): real {
    z * p.m33 + p.m43
  }

  function Determinant(p: DepthProjection): real {
    p.m33 * p.m44 - p.m34 * p.m43
  }

  /** The exact depth of a view-space distance. */
  function Depth(p: DepthProjection, z: real): real
    requires W(p, z) != 0.0
  {
    Z(p, z) / W(p, z)
  }

  function NdcDepthAt(p: DepthProjection, z: real): (depth: Option<real>)
    ensures depth.Some? ==> W(p, z) != 0.0 && depth.value == Depth(p, z)
  {
    var w := W(p, z);
    if Abs(w) < MINIMUM_W || !Finite(w) then None
    else if !Finite(Z(p, z) / w) then None
    else Some(Z(p, z) / w)
  }

  function FarProbe(p: DepthProjection): real {
    if Finite(p.farPlane) && p.farPlane > p.nearPlane * 2.0 then p.farPlane else p.nearPlane * 10000.0
  }

  function ClassifyOrientation(p: DepthProjection): DepthOrientation {
    if !Finite(p.nearPlane) || p.nearPlane <= 0.0
       || !Finite(p.m33) || !Finite(p.m43) || !Finite(p.m34) || !Finite(p.m44) then IndeterminateOrientation
    else
      var atNear, atFar := NdcDepthAt(p, p.nearPlane), NdcDepthAt(p, FarProbe(p));
      if atNear == None || atFar == None then IndeterminateOrientation
      else
        var separation := atNear.value - atFar.value;
        if Abs(separation) < MINIMUM_SEPARATION then IndeterminateOrientation
        else if separation > 0.0 then Reversed else Standard
  }

  /** The adjugate of the two-by-two block over its determinant. */
  function DividedBlock(p: DepthProjection, determinant: real): DepthProjection
    requires determinant != 0.0
  {
    p.(m33 := p.m44 / determinant, m34 := -p.m34 / determinant,
       m43 := -p.m43 / determinant, m44 := p.m33 / determinant)
  }

  predicate HasFiniteBlock(p: DepthProjection) {
    Finite(p.m33) && Finite(p.m34) && Finite(p.m43) && Finite(p.m44)
  }

  function InvertDepthBlock(p: DepthProjection): Option<DepthProjection> {
    var determinant := Determinant(p);
    if !Finite(determinant) || Abs(determinant) < MINIMUM_DETERMINANT then None
    else
      var q := DividedBlock(p, determinant);
      if HasFiniteBlock(q) then Some(q) else None
  }

  predicate InsideInterval(depth: real) {
    -INTERVAL_TOLERANCE <= depth <= 1.0 + INTERVAL_TOLERANCE
  }

  predicate MapsIntoDepthInterval(p: DepthProjection, farProbe: real) {
    var atNear, atFar := NdcDepthAt(p, p.nearPlane), NdcDepthAt(p, farProbe);
    && atNear.Some? && atFar.Some?
    && InsideInterval(atNear.value) && InsideInterval(atFar.value)
    && Abs(atNear.value - atFar.value) >= MINIMUM_SEPARATION
  }

  function NormalizeProjection(p: DepthProjection): (ProjectionForm, DepthProjection) {
    if !Finite(p.nearPlane) || p.nearPlane <= 0.0 then (Unrecognised, p)
    else if MapsIntoDepthInterval(p, FarProbe(p)) then (Forward, p)
    else
      var inverted := InvertDepthBlock(p);
      if inverted.Some? && MapsIntoDepthInterval(inverted.value, FarProbe(p)) then (Inverted, inverted.value)
      else (Unrecognised, p)
  }

  function ClassifyRange(p: DepthProjection): DepthRange {
    var orientation := ClassifyOrientation(p);
    if orientation == IndeterminateOrientation || !Finite(p.m34) || !Finite(p.m44)
       || Abs(p.m34) < MINIMUM_W || Abs(p.m44) > MAXIMUM_M44 then IndeterminateRange
    else
      var farLimit := p.m33 / p.m34;
      if !Finite(farLimit) then IndeterminateRange
      else
        var farEndpoint := if orientation == Reversed then 0.0 else 1.0;
        if Abs(farLimit - farEndpoint) <= INFINITE_ENDPOINT_TOLERANCE then Infinite else Bounded
  }

  // ---------------------------------------------------------------------------------------
  // Two samples decide the whole range
  // ---------------------------------------------------------------------------------------

  lemma CrossDifference(p: DepthProjection, a: real, b: real)
    ensures Z(p, a) * W(p, b) - Z(p, b) * W(p, a) == (a - b) * Determinant(p)
  {
    var x, y := a * p.m33, b * p.m33;
    assert Z(p, a) * W(p, b) == x * (b * p.m34) + x * p.m44 + p.m43 * (b * p.m34) + p.m43 * p.m44;
    assert Z(p, b) * W(p, a) == y * (a * p.m34) + y * p.m44 + p.m43 * (a * p.m34) + p.m43 * p.m44;
  }

  lemma QuotientDifference(za: real, wa: real, zb: real, wb: real)
    requires wa != 0.0 && wb != 0.0
    ensures (za / wa - zb / wb) * (wa * wb) == za * wb - zb * wa
  {
    var x, y := za / wa, zb / wb;
    assert x * wa == za && y * wb == zb;
    assert (x - y) * (wa * wb) == (x * wa) * wb - (y * wb) * wa;
  }

  /** The difference of two depths, cleared of denominators. */
  lemma DepthDifference(p: DepthProjection, a: real, b: real)
    requires W(p, a) != 0.0 && W(p, b) != 0.0
    ensures (Depth(p, a) - Depth(p, b)) * (W(p, a) * W(p, b)) == (a - b) * Determinant(p)
  {
    QuotientDifference(Z(p, a), W(p, a), Z(p, b), W(p, b));
    CrossDifference(p, a, b);
  }

  lemma SignOfProduct(x: real, y: real)
    ensures x > 0.0 && y > 0.0 ==> x * y > 0.0
    ensures x < 0.0 && y < 0.0 ==> x * y > 0.0
    ensures x > 0.0 && y < 0.0 ==> x * y < 0.0
    ensures x < 0.0 && y > 0.0 ==> x * y < 0.0
  {
  }

  predicate SameSign(x: real, y: real) {
    (x > 0.0 && y > 0.0) || (x < 0.0 && y < 0.0)
  }

  /** With the pole outside, depth moves against the determinant; across the pole, with it. */
  lemma DepthOrder(p: DepthProjection, a: real, b: real)
    requires a < b && W(p, a) != 0.0 && W(p, b) != 0.0
    ensures var d := Depth(p, a) - Depth(p, b);
            && (d == 0.0 <==> Determinant(p) == 0.0)
            && (SameSign(W(p, a), W(p, b)) ==> (d > 0.0 <==> Determinant(p) < 0.0))
            && (!SameSign(W(p, a), W(p, b)) ==> (d > 0.0 <==> Determinant(p) > 0.0))
  {
    DepthDifference(p, a, b);
    SignCases(Depth(p, a) - Depth(p, b), W(p, a), W(p, b), a - b, Determinant(p));
  }

  lemma SignCases(d: real, wa: real, wb: real, step: real, determinant: real)
    requires step < 0.0 && wa != 0.0 && wb != 0.0 && d * (wa * wb) == step * determinant
    ensures d == 0.0 <==> determinant == 0.0
    ensures SameSign(wa, wb) ==> (d > 0.0 <==> determinant < 0.0)
    ensures !SameSign(wa, wb) ==> (d > 0.0 <==> determinant > 0.0)
  {
    SignOfProduct(wa, wb);
    SignOfProduct(d, wa * wb);
    SignOfProduct(step, determinant);
  }

  /** The denominator keeps its sign between two points where it has the same one. */
  lemma SignHoldsBetween(p: DepthProjection, low: real, high: real, z: real)
    requires low <= z <= high && SameSign(W(p, low), W(p, high))
    ensures SameSign(W(p, low), W(p, z))
  {
    if p.m34 >= 0.0 {
      ProductNotNegative(z - low, p.m34);
      ProductNotNegative(high - z, p.m34);
    } else {
      ProductNotNegative(z - low, -p.m34);
      ProductNotNegative(high - z, -p.m34);
    }
  }

  predicate Precedes(orientation: DepthOrientation, nearer: real, farther: real) {
    match orientation
    case Reversed => nearer > farther
    case Standard => nearer < farther
    case IndeterminateOrientation => false
  }

  /** Every pair of view depths in the range is ordered as the orientation says. */
  ghost predicate OrdersEveryPair(p: DepthProjection, orientation: DepthOrientation, low: real, high: real) {
    forall a, b | low <= a < b <= high && W(p, a) != 0.0 && W(p, b) != 0.0 ::
      Precedes(orientation, Depth(p, a), Depth(p, b))
  }

  /** A point short of the pole, when the denominator changes sign between `low` and `high`. */
  lemma ShortOfPole(p: DepthProjection, low: real, high: real) returns (z: real)
    requires low < high && W(p, low) != 0.0 && W(p, high) != 0.0 && !SameSign(W(p, low), W(p, high))
    ensures low < z < high && SameSign(W(p, low), W(p, z))
  {
    var wl, wh := W(p, low), W(p, high);
    var share := 0.5 * wl / (wl - wh);
    assert share * (wl - wh) == 0.5 * wl;
    var span := high - low;
    assert 0.0 < share < 1.0 by {
      ShareIsProper(share, wl, wh);
    }
    z := low + share * span;
    SignOfProduct(share, span);
    SignOfProduct(1.0 - share, span);
    assert span * p.m34 == wh - wl;
    assert W(p, z) == wl + share * (span * p.m34);
  }

  lemma ShareIsProper(share: real, wl: real, wh: real)
    requires share * (wl - wh) == 0.5 * wl && ((wl > 0.0 && wh < 0.0) || (wl < 0.0 && wh > 0.0))
    ensures 0.0 < share < 1.0
  {
    SignOfProduct(share, wl - wh);
    SignOfProduct(1.0 - share, wl - wh);
    assert (1.0 - share) * (wl - wh) == 0.5 * wl - wh;
  }

  /** A determinate answer orders every pair of view depths between the near plane and the far probe
      exactly when the denominator has one sign at those two points. */
  lemma TwoSamplesDecide(p: DepthProjection)
    requires ClassifyOrientation(p) != IndeterminateOrientation
    ensures OrdersEveryPair(p, ClassifyOrientation(p), p.nearPlane, FarProbe(p))
            <==> SameSign(W(p, p.nearPlane), W(p, FarProbe(p)))
  {
    var low, high, orientation := p.nearPlane, FarProbe(p), ClassifyOrientation(p);
    assert low < high && W(p, low) != 0.0 && W(p, high) != 0.0;
    assert Precedes(orientation, Depth(p, low), Depth(p, high));
    DepthOrder(p, low, high);
    hide ClassifyOrientation, FarProbe, Depth, W, Determinant;
    if SameSign(W(p, low), W(p, high)) {
      forall a, b | low <= a < b <= high && W(p, a) != 0.0 && W(p, b) != 0.0
        ensures Precedes(orientation, Depth(p, a), Depth(p, b))
      {
        SignHoldsBetween(p, low, high, a);
        SignHoldsBetween(p, low, high, b);
        DepthOrder(p, a, b);
      }
    } else {
      var z := ShortOfPole(p, low, high);
      DepthOrder(p, low, z);
      assert !Precedes(orientation, Depth(p, low), Depth(p, z));
    }
  }

  /** Such a projection exists: its pole lies between the planes, and the answer is still determinate. */
  lemma PoleBetweenSamples()
    ensures var p := DepthProjection(1.0, 0.0, 1.0, -2.0, 1.0, 3.0);
            ClassifyOrientation(p) == Standard && !OrdersEveryPair(p, Standard, p.nearPlane, FarProbe(p))
  {
    var p := DepthProjection(1.0, 0.0, 1.0, -2.0, 1.0, 3.0);
    assert NdcDepthAt(p, 1.0) == Some(-1.0) && NdcDepthAt(p, 3.0) == Some(3.0);
    TwoSamplesDecide(p);
  }

  // ---------------------------------------------------------------------------------------
  // The orientation, from the entries and the planes
  // ---------------------------------------------------------------------------------------

  lemma QuotientBelow(x: real, w: real, bound: real)
    requires w != 0.0
    ensures Abs(x / w) < bound <==> Abs(x) < bound * Abs(w)
  {
    var q, a := x / w, Abs(w);
    assert q * w == x;
    assert Abs(q) * a == Abs(x);
    if Abs(q) < bound {
      assert (bound - Abs(q)) * a > 0.0;
    } else {
      ProductNotNegative(Abs(q) - bound, a);
    }
  }

  /** A depth can be sampled at `z`: neither the denominator nor the quotient is out of range. */
  predicate CanSample(p: DepthProjection, z: real) {
    var w, numerator := z * p.m34 + p.m44, z * p.m33 + p.m43;
    && 0.000000001 <= Abs(w) < 300000000000000000000000000000000000000.0
    && Abs(numerator) < 300000000000000000000000000000000000000.0 * Abs(w)
  }

  lemma SampledExactly(p: DepthProjection, z: real)
    ensures NdcDepthAt(p, z).Some? <==> CanSample(p, z)
  {
    if W(p, z) != 0.0 {
      QuotientBelow(Z(p, z), W(p, z), FINITE_BOUND);
    }
  }

  predicate CanClassify(p: DepthProjection, far: real) {
    && 0.0 < p.nearPlane < 300000000000000000000000000000000000000.0
    && HasFiniteBlock(p) && CanSample(p, p.nearPlane) && CanSample(p, far)
  }

  /** With all denominators cleared, `x` over `s` is at least `least`. */
  predicate QuotientReaches(x: real, s: real, least: real) {
    if s > 0.0 then x >= least * s else x <= least * s
  }

  /** How far the depth falls or rises from `near` to `far`, in the determinant and the two denominators. */
  predicate FallsBy(p: DepthProjection, near: real, far: real, least: real) {
    QuotientReaches((near - far) * Determinant(p), W(p, near) * W(p, far), least)
  }

  predicate RisesBy(p: DepthProjection, near: real, far: real, least: real) {
    QuotientReaches((far - near) * Determinant(p), W(p, near) * W(p, far), least)
  }

  lemma ComparesCleared(d: real, s: real, x: real, least: real)
    requires s != 0.0 && d * s == x
    ensures d >= least <==> QuotientReaches(x, s, least)
    ensures -d >= least <==> QuotientReaches(-x, s, least)
  {
    if s > 0.0 {
      ComparesScaled(d, s, least);
      ComparesScaled(-d, s, least);
    } else {
      ComparesScaled(d, -s, least);
      ComparesScaled(-d, -s, least);
    }
  }

  lemma ComparesScaled(d: real, s: real, least: real)
    requires s > 0.0
    ensures d >= least <==> d * s >= least * s
  {
    if d >= least {
      ProductNotNegative(d - least, s);
    } else {
      assert (least - d) * s > 0.0;
    }
  }

  /** The farther sample is the far plane, or ten thousand near planes when that is no use. */
  lemma ProbeIsExact(p: DepthProjection)
    ensures FarProbe(p) == if Abs(p.farPlane) < 300000000000000000000000000000000000000.0
                              && p.farPlane > 2.0 * p.nearPlane
                           then p.farPlane else 10000.0 * p.nearPlane
  {
  }

  /** The answer from the entries and the planes: reversed when the depth falls by at least a ten-thousandth
      from the near plane to the far probe, standard when it rises by as much, and neither when either depth
      cannot be sampled or they are too close. */
  lemma OrientationIsExact(p: DepthProjection)
    ensures var near, far := p.nearPlane, FarProbe(p);
            && (ClassifyOrientation(p) == Reversed <==> CanClassify(p, far) && FallsBy(p, near, far, 0.0001))
            && (ClassifyOrientation(p) == Standard <==> CanClassify(p, far) && RisesBy(p, near, far, 0.0001))
  {
    assert MINIMUM_SEPARATION == 0.0001;
    hide *;
    var near, far := p.nearPlane, FarProbe(p);
    OrientationBySamples(p);
    CanClassifyMeans(p, far);
    SampledExactly(p, near);
    SampledExactly(p, far);
    if CanSample(p, near) {
      if CanSample(p, far) {
        SeparationCleared(p, near, far);
      }
    }
  }

  lemma CanClassifyMeans(p: DepthProjection, far: real)
    ensures CanClassify(p, far)
            <==> 0.0 < p.nearPlane && Finite(p.nearPlane) && HasFiniteBlock(p) && CanSample(p, p.nearPlane)
                 && CanSample(p, far)
  {
  }

  lemma OrientationBySamples(p: DepthProjection)
    ensures var atNear, atFar := NdcDepthAt(p, p.nearPlane), NdcDepthAt(p, FarProbe(p));
            var sampled := 0.0 < p.nearPlane && Finite(p.nearPlane) && HasFiniteBlock(p) && atNear.Some? && atFar.Some?;
            && (ClassifyOrientation(p) == Reversed <==> sampled && atNear.value - atFar.value >= MINIMUM_SEPARATION)
            && (ClassifyOrientation(p) == Standard <==> sampled && -(atNear.value - atFar.value) >= MINIMUM_SEPARATION)
  {
    hide NdcDepthAt, FarProbe, Finite;
  }

  lemma SampledDepth(p: DepthProjection, z: real)
    requires NdcDepthAt(p, z).Some?
    ensures W(p, z) != 0.0 && NdcDepthAt(p, z).value == Depth(p, z)
  {
  }

  lemma SeparationCleared(p: DepthProjection, near: real, far: real)
    requires NdcDepthAt(p, near).Some? && NdcDepthAt(p, far).Some?
    ensures var d := NdcDepthAt(p, near).value - NdcDepthAt(p, far).value;
            && (d >= MINIMUM_SEPARATION <==> FallsBy(p, near, far, MINIMUM_SEPARATION))
            && (-d >= MINIMUM_SEPARATION <==> RisesBy(p, near, far, MINIMUM_SEPARATION))
  {
    hide *;
    SampledDepth(p, near);
    SampledDepth(p, far);
    DepthDifference(p, near, far);
    var x, s := (near - far) * Determinant(p), W(p, near) * W(p, far);
    ProductIsNotZero(W(p, near), W(p, far));
    ComparesCleared(Depth(p, near) - Depth(p, far), s, x, MINIMUM_SEPARATION);
    ChangeMeans(p, near, far, MINIMUM_SEPARATION);
  }

  lemma ChangeMeans(p: DepthProjection, near: real, far: real, least: real)
    ensures var x, s := (near - far) * Determinant(p), W(p, near) * W(p, far);
            && FallsBy(p, near, far, least) == QuotientReaches(x, s, least)
            && RisesBy(p, near, far, least) == QuotientReaches(-x, s, least)
  {
    assert (far - near) * Determinant(p) == -((near - far) * Determinant(p));
  }

  lemma ProductIsNotZero(x: real, y: real)
    requires x != 0.0 && y != 0.0
    ensures x * y != 0.0
  {
  }

  // ---------------------------------------------------------------------------------------
  // Inversion
  // ---------------------------------------------------------------------------------------

  /** The entries of an inverted block, cleared of the determinant. */
  lemma InvertedEntries(p: DepthProjection, q: DepthProjection)
    requires InvertDepthBlock(p) == Some(q)
    ensures var d := Determinant(p);
            && d != 0.0 && q.nearPlane == p.nearPlane && q.farPlane == p.farPlane
            && q.m33 * d == p.m44 && q.m34 * d == -p.m34 && q.m43 * d == -p.m43 && q.m44 * d == p.m33
  {
    assert q == DividedBlock(p, Determinant(p));
    hide InvertDepthBlock, Determinant, DividedBlock;
    DividedEntries(p, Determinant(p));
  }

  lemma DividedEntries(p: DepthProjection, d: real)
    requires d != 0.0
    ensures var q := DividedBlock(p, d);
            && q.nearPlane == p.nearPlane && q.farPlane == p.farPlane
            && q.m33 * d == p.m44 && q.m34 * d == -p.m34 && q.m43 * d == -p.m43 && q.m44 * d == p.m33
  {
    DivideThenMultiply(p.m44, d);
    DivideThenMultiply(-p.m34, d);
    DivideThenMultiply(-p.m43, d);
    DivideThenMultiply(p.m33, d);
  }

  lemma CancelFactor(x: real, y: real, d: real)
    requires d != 0.0 && x * d == y * d
    ensures x == y
  {
  }

  /** Seen through the inverted block, the homogeneous pair of `z` is `(z, 1)` scaled by the determinant. */
  lemma AdjugateActs(p: DepthProjection, z: real)
    ensures Z(p, z) * p.m44 + W(p, z) * -p.m43 == z * Determinant(p)
    ensures Z(p, z) * -p.m34 + W(p, z) * p.m33 == 1.0 * Determinant(p)
  {
    var x, y := z * p.m33, z * p.m34;
    assert Z(p, z) * p.m44 == x * p.m44 + p.m43 * p.m44;
    assert W(p, z) * p.m43 == y * p.m43 + p.m44 * p.m43;
    assert W(p, z) * p.m33 == y * p.m33 + p.m44 * p.m33;
    assert Z(p, z) * p.m34 == x * p.m34 + p.m43 * p.m34;
    assert z * Determinant(p) == z * (p.m33 * p.m44) - z * (p.m34 * p.m43);
  }

  lemma DepthTimesDenominator(p: DepthProjection, z: real)
    requires W(p, z) != 0.0
    ensures Depth(p, z) * W(p, z) == Z(p, z)
  {
    DivideThenMultiply(Z(p, z), W(p, z));
  }

  /** Through the inverted block, the denominator is the reciprocal of the original one. */
  lemma InverseDenominator(p: DepthProjection, q: DepthProjection, z: real)
    requires InvertDepthBlock(p) == Some(q) && W(p, z) != 0.0
    ensures W(q, Depth(p, z)) * W(p, z) == 1.0
  {
    hide *;
    InvertedEntries(p, q);
    AdjugateActs(p, z);
    DepthTimesDenominator(p, z);
    InverseEntry(q, Depth(p, z), W(p, z), Z(p, z), -p.m34, p.m33, Determinant(p), 1.0);
  }

  /** Through the inverted block, the numerator is `z` over the original denominator. */
  lemma InverseNumerator(p: DepthProjection, q: DepthProjection, z: real)
    requires InvertDepthBlock(p) == Some(q) && W(p, z) != 0.0
    ensures Z(q, Depth(p, z)) * W(p, z) == z
  {
    hide *;
    InvertedEntries(p, q);
    AdjugateActs(p, z);
    DepthTimesDenominator(p, z);
    InverseOffset(q, Depth(p, z), W(p, z), Z(p, z), p.m44, -p.m43, Determinant(p), z);
  }

  lemma InverseEntry(q: DepthProjection, depth: real, w: real, zw: real, a: real, b: real, d: real, target: real)
    requires depth * w == zw && q.m34 * d == a && q.m44 * d == b && zw * a + w * b == target * d && d != 0.0
    ensures W(q, depth) * w == target
  {
    ScaledProduct(depth, w, q.m34, q.m44, d);
    CancelFactor((depth * q.m34 + q.m44) * w, target, d);
  }

  lemma InverseOffset(q: DepthProjection, depth: real, w: real, zw: real, a: real, b: real, d: real, target: real)
    requires depth * w == zw && q.m33 * d == a && q.m43 * d == b && zw * a + w * b == target * d && d != 0.0
    ensures Z(q, depth) * w == target
  {
    ScaledProduct(depth, w, q.m33, q.m43, d);
    CancelFactor((depth * q.m33 + q.m43) * w, target, d);
  }

  lemma ScaledProduct(depth: real, w: real, slope: real, offset: real, d: real)
    ensures ((depth * slope + offset) * w) * d == (depth * w) * (slope * d) + w * (offset * d)
  {
  }

  /** An inverted block undoes the depth map: it reads the view distance back from the depth, exactly
      when the original denominator and that distance are not too large for the finiteness tests. */
  lemma InverseUndoesDepth(p: DepthProjection, q: DepthProjection, z: real)
    requires InvertDepthBlock(p) == Some(q) && NdcDepthAt(p, z).Some?
    ensures NdcDepthAt(q, NdcDepthAt(p, z).value)
            == if Abs(W(p, z)) <= 1000000000.0 && Finite(z) then Some(z) else None
  {
    hide W, Z, InvertDepthBlock, Determinant;
    InverseDenominator(p, q, z);
    InverseNumerator(p, q, z);
    var w, w', depth := W(p, z), W(q, Depth(p, z)), Depth(p, z);
    ReciprocalBounds(w, w');
    assert Z(q, depth) / w' == z by {
      ReadBack(Z(q, depth), w, w', z);
    }
  }

  lemma ReadBack(x: real, w: real, w': real, z: real)
    requires x * w == z && w' * w == 1.0
    ensures w' != 0.0 && x / w' == z
  {
    assert x == x * (w' * w) == (x * w) * w' == z * w';
    var q := x / w';
    assert q * w' == z * w';
  }

  lemma ReciprocalBounds(w: real, w': real)
    requires w' * w == 1.0 && Abs(w) >= MINIMUM_W
    ensures Finite(w')
    ensures Abs(w') < MINIMUM_W <==> Abs(w) > 1000000000.0
  {
    var a, b := Abs(w), Abs(w');
    assert a * b == 1.0;
    if b >= 2000000000.0 {
      ProductNotNegative(a - MINIMUM_W, b);
    }
    if b < MINIMUM_W && a <= 1000000000.0 {
      ProductNotNegative(1000000000.0 - a, b);
    }
    if b >= MINIMUM_W && a > 1000000000.0 {
      ProductNotNegative(b - MINIMUM_W, a);
    }
  }

  lemma InvertedDeterminant(p: DepthProjection, q: DepthProjection)
    requires InvertDepthBlock(p) == Some(q)
    ensures Determinant(q) * Determinant(p) == 1.0
  {
    hide *;
    InvertedEntries(p, q);
    var d := Determinant(p);
    ScaledDeterminant(p, q, d);
    CancelFactor(Determinant(q) * d, 1.0, d);
  }

  lemma ScaledDeterminant(p: DepthProjection, q: DepthProjection, d: real)
    requires q.m33 * d == p.m44 && q.m34 * d == -p.m34 && q.m43 * d == -p.m43 && q.m44 * d == p.m33
    ensures (Determinant(q) * d) * d == 1.0 * Determinant(p)
  {
    ProductOfScaled(q.m33, q.m44, d, p.m44, p.m33);
    ProductOfScaled(q.m34, q.m43, d, -p.m34, -p.m43);
    ScaledTwice(q.m33 * q.m44, q.m34 * q.m43, d);
  }

  lemma ProductOfScaled(x: real, y: real, d: real, a: real, b: real)
    requires x * d == a && y * d == b
    ensures (x * y) * (d * d) == a * b
  {
    assert (x * y) * (d * d) == (x * d) * (y * d);
  }

  lemma ScaledTwice(x: real, y: real, d: real)
    ensures ((x - y) * d) * d == x * (d * d) - y * (d * d)
  {
  }

  lemma TwiceScaled(x: real, x': real, y: real, d: real, d': real)
    requires d' * d == 1.0 && x * d == y && x' * d' == x
    ensures x' == y
  {
    assert x' == x' * (d' * d) == (x' * d') * d;
  }

  /** Two successful inversions give back the block. */
  lemma InvertingTwiceIsIdentity(p: DepthProjection, q: DepthProjection, r: DepthProjection)
    requires InvertDepthBlock(p) == Some(q) && InvertDepthBlock(q) == Some(r)
    ensures r == p
  {
    hide *;
    InvertedEntries(p, q);
    InvertedEntries(q, r);
    InvertedDeterminant(p, q);
    EntriesReturn(p, q, r, Determinant(p), Determinant(q));
  }

  lemma EntriesReturn(p: DepthProjection, q: DepthProjection, r: DepthProjection, d: real, d': real)
    requires d' * d == 1.0 && r.nearPlane == p.nearPlane && r.farPlane == p.farPlane
    requires q.m33 * d == p.m44 && q.m34 * d == -p.m34 && q.m43 * d == -p.m43 && q.m44 * d == p.m33
    requires r.m33 * d' == q.m44 && r.m34 * d' == -q.m34 && r.m43 * d' == -q.m43 && r.m44 * d' == q.m33
    ensures r == p
  {
    TwiceScaled(q.m44, r.m33, p.m33, d, d');
    TwiceScaled(q.m33, r.m44, p.m44, d, d');
    NegatedTwiceScaled(q.m34, r.m34, p.m34, d, d');
    NegatedTwiceScaled(q.m43, r.m43, p.m43, d, d');
  }

  lemma NegatedTwiceScaled(x: real, x': real, y: real, d: real, d': real)
    requires d' * d == 1.0 && x * d == -y && x' * d' == -x
    ensures x' == y
  {
    TwiceScaled(-x, x', y, d, d');
  }

  lemma DeterminantBounds(d: real, d': real)
    requires d' * d == 1.0 && Abs(d) >= MINIMUM_DETERMINANT
    ensures Finite(d')
    ensures Abs(d') < MINIMUM_DETERMINANT <==> Abs(d) > 1000000000000.0
  {
    var a, b := Abs(d), Abs(d');
    assert a * b == 1.0;
    if b >= 2000000000000.0 {
      ProductNotNegative(a - MINIMUM_DETERMINANT, b);
    }
    if b < MINIMUM_DETERMINANT && a <= 1000000000000.0 {
      ProductNotNegative(1000000000000.0 - a, b);
    }
    if b >= MINIMUM_DETERMINANT && a > 1000000000000.0 {
      ProductNotNegative(b - MINIMUM_DETERMINANT, a);
    }
  }

  /** A block whose inverse can itself be inverted: finite entries and a determinant of at most 10^12. */
  predicate IsRecoverable(p: DepthProjection) {
    HasFiniteBlock(p) && Abs(Determinant(p)) <= 1000000000000.0
  }

  lemma InversionGuard(p: DepthProjection, q: DepthProjection)
    requires InvertDepthBlock(p) == Some(q)
    ensures Abs(Determinant(p)) >= MINIMUM_DETERMINANT
  {
    hide Determinant, DividedBlock, HasFiniteBlock;
  }

  lemma InverseDivides(p: DepthProjection, q: DepthProjection)
    requires InvertDepthBlock(p) == Some(q)
    ensures Determinant(q) != 0.0 && DividedBlock(q, Determinant(q)) == p
    ensures Finite(Determinant(q)) && (Abs(Determinant(q)) < MINIMUM_DETERMINANT <==>
                                       Abs(Determinant(p)) > 1000000000000.0)
  {
    hide *;
    var d, d' := Determinant(p), Determinant(q);
    InversionGuard(p, q);
    InvertedDeterminant(p, q);
    DeterminantBounds(d, d');
    InvertedEntries(p, q);
    DividedEntries(q, d');
    EntriesReturn(p, q, DividedBlock(q, d'), d, d');
  }

  lemma InverseOfInverse(p: DepthProjection, q: DepthProjection)
    requires InvertDepthBlock(p) == Some(q)
    ensures InvertDepthBlock(q) == if IsRecoverable(p) then Some(p) else None
  {
    hide Determinant, DividedBlock, Finite, HasFiniteBlock, Abs;
    InverseDivides(p, q);
  }

  /** A captured inverse of a usable projection is turned back into that projection exactly when it does not
      pass for a forward projection itself and the projection is recoverable. */
  lemma NormalizationRecovers(p: DepthProjection, captured: DepthProjection)
    requires Finite(p.nearPlane) && p.nearPlane > 0.0 && MapsIntoDepthInterval(p, FarProbe(p))
    requires InvertDepthBlock(p) == Some(captured)
    ensures NormalizeProjection(captured)
            == if MapsIntoDepthInterval(captured, FarProbe(captured)) then (Forward, captured)
               else if IsRecoverable(p) then (Inverted, p)
               else (Unrecognised, captured)
  {
    InvertedEntries(p, captured);
    InverseOfInverse(p, captured);
    assert FarProbe(captured) == FarProbe(p);
    hide InvertDepthBlock, MapsIntoDepthInterval, FarProbe;
  }

  /** The depth at `z` lies in the unit interval, up to a thousandth, with the denominator cleared. */
  predicate DepthInInterval(p: DepthProjection, z: real) {
    QuotientReaches(Z(p, z), W(p, z), -0.001) && QuotientReaches(-Z(p, z), W(p, z), -1.001)
  }

  lemma InsideCleared(p: DepthProjection, z: real)
    requires W(p, z) != 0.0
    ensures InsideInterval(Depth(p, z)) <==> DepthInInterval(p, z)
  {
    DepthTimesDenominator(p, z);
    ComparesCleared(Depth(p, z), W(p, z), Z(p, z), -0.001);
    ComparesCleared(Depth(p, z), W(p, z), Z(p, z), -1.001);
    hide QuotientReaches, Depth, W, Z;
  }

  lemma MapsIntoBySamples(p: DepthProjection, far: real)
    ensures var atNear, atFar := NdcDepthAt(p, p.nearPlane), NdcDepthAt(p, far);
            MapsIntoDepthInterval(p, far)
            <==> && atNear.Some? && atFar.Some? && InsideInterval(atNear.value) && InsideInterval(atFar.value)
                 && (|| atNear.value - atFar.value >= MINIMUM_SEPARATION
                     || -(atNear.value - atFar.value) >= MINIMUM_SEPARATION)
  {
    hide NdcDepthAt, InsideInterval;
  }

  /** A projection passes for a forward one exactly when both depths can be sampled, lie in the unit interval up
      to a thousandth, and are at least a ten-thousandth apart. */
  lemma ForwardIsExact(p: DepthProjection)
    ensures var near, far := p.nearPlane, FarProbe(p);
            NormalizeProjection(p).0 == Forward
            <==> && 0.0 < near < 300000000000000000000000000000000000000.0
                 && CanSample(p, near) && CanSample(p, far) && DepthInInterval(p, near) && DepthInInterval(p, far)
                 && (FallsBy(p, near, far, 0.0001) || RisesBy(p, near, far, 0.0001))
    ensures NormalizeProjection(p).0 != Inverted ==> NormalizeProjection(p).1 == p
  {
    var near, far := p.nearPlane, FarProbe(p);
    assert MINIMUM_SEPARATION == 0.0001;
    assert NormalizeProjection(p).0 == Forward
      <==> 0.0 < near < 300000000000000000000000000000000000000.0 && MapsIntoDepthInterval(p, far);
    hide *;
    MapsIntoBySamples(p, far);
    SampledExactly(p, near);
    SampledExactly(p, far);
    if NdcDepthAt(p, near).Some? && NdcDepthAt(p, far).Some? {
      SampledDepth(p, near);
      SampledDepth(p, far);
      InsideCleared(p, near);
      InsideCleared(p, far);
      SeparationCleared(p, near, far);
    }
  }

  /** A projection is taken for an inverse exactly when it does not pass for a forward one, can be inverted, and
      its inverse does pass; the result is that inverse. */
  lemma InvertedIsExact(p: DepthProjection)
    ensures NormalizeProjection(p).0 == Inverted
            <==> && NormalizeProjection(p).0 != Forward && InvertDepthBlock(p).Some?
                 && NormalizeProjection(InvertDepthBlock(p).value).0 == Forward
    ensures NormalizeProjection(p).0 == Inverted ==> InvertDepthBlock(p) == Some(NormalizeProjection(p).1)
  {
    if InvertDepthBlock(p).Some? {
      var q := InvertDepthBlock(p).value;
      InvertedEntries(p, q);
      assert FarProbe(q) == FarProbe(p);
    }
    hide InvertDepthBlock, MapsIntoDepthInterval, FarProbe;
  }

  /** A block can be inverted exactly when its determinant is neither negligible nor out of range, and outweighs
      every entry enough for the quotient to be in range. */
  lemma InversionIsExact(p: DepthProjection)
    ensures var d := Abs(p.m33 * p.m44 - p.m34 * p.m43);
            InvertDepthBlock(p).Some?
            <==> && 0.000000000001 <= d < 300000000000000000000000000000000000000.0
                 && Abs(p.m33) < 300000000000000000000000000000000000000.0 * d
                 && Abs(p.m34) < 300000000000000000000000000000000000000.0 * d
                 && Abs(p.m43) < 300000000000000000000000000000000000000.0 * d
                 && Abs(p.m44) < 300000000000000000000000000000000000000.0 * d
  {
    var determinant := Determinant(p);
    assert determinant == p.m33 * p.m44 - p.m34 * p.m43;
    hide Determinant;
    if determinant != 0.0 {
      DividedIsFinite(p, determinant);
      assert Abs(determinant) >= MINIMUM_DETERMINANT && Finite(determinant) ==>
          (InvertDepthBlock(p).Some? <==> HasFiniteBlock(DividedBlock(p, determinant)));
      hide DividedBlock, HasFiniteBlock;
    }
  }

  lemma DividedIsFinite(p: DepthProjection, determinant: real)
    requires determinant != 0.0
    ensures HasFiniteBlock(DividedBlock(p, determinant))
            <==> && Abs(p.m33) < FINITE_BOUND * Abs(determinant) && Abs(p.m34) < FINITE_BOUND * Abs(determinant)
                 && Abs(p.m43) < FINITE_BOUND * Abs(determinant) && Abs(p.m44) < FINITE_BOUND * Abs(determinant)
  {
    QuotientBelow(p.m33, determinant, FINITE_BOUND);
    QuotientBelow(-p.m34, determinant, FINITE_BOUND);
    QuotientBelow(-p.m43, determinant, FINITE_BOUND);
    QuotientBelow(p.m44, determinant, FINITE_BOUND);
  }

  // ---------------------------------------------------------------------------------------
  // The far limit
  // ---------------------------------------------------------------------------------------

  ghost predicate StaysWithin(p: DepthProjection, limit: real, tolerance: real, start: real) {
    forall z | z > start :: W(p, z) != 0.0 && Abs(Depth(p, z) - limit) < tolerance
  }

  /** Depth tends to `limit` as the view distance grows without bound. */
  ghost predicate TendsTo(p: DepthProjection, limit: real) {
    forall tolerance | tolerance > 0.0 :: Approaches(p, limit, tolerance)
  }

  ghost predicate Approaches(p: DepthProjection, limit: real, tolerance: real) {
    exists start :: StaysWithin(p, limit, tolerance, start)
  }

  lemma LimitDifference(p: DepthProjection, z: real)
    requires p.m34 != 0.0 && W(p, z) != 0.0
    ensures (Depth(p, z) - p.m33 / p.m34) * (W(p, z) * p.m34) == -Determinant(p)
  {
    QuotientDifference(Z(p, z), W(p, z), p.m33, p.m34);
    AdjugateActs(p, z);
  }

  lemma FarEnough(p: DepthProjection, tolerance: real)
    requires p.m34 != 0.0 && tolerance > 0.0
    ensures Approaches(p, p.m33 / p.m34, tolerance)
  {
    hide *;
    var m, d := Abs(p.m34), Abs(Determinant(p));
    var reach := Reach(d, m, tolerance);
    var bound := (reach + Abs(p.m44)) / m;
    DivideThenMultiply(reach + Abs(p.m44), m);
    var start := MaxReal(0.0, bound);
    forall z | z > start
      ensures W(p, z) != 0.0 && Abs(Depth(p, z) - p.m33 / p.m34) < tolerance
    {
      GrowingDenominator(p, z, bound, reach);
      LimitDifference(p, z);
      SmallQuotient(Depth(p, z) - p.m33 / p.m34, W(p, z), p.m34, Determinant(p), reach, tolerance);
    }
    CloseFrom(p, p.m33 / p.m34, tolerance, start);
  }

  lemma CloseFrom(p: DepthProjection, limit: real, tolerance: real, start: real)
    requires forall z | z > start :: W(p, z) != 0.0 && Abs(Depth(p, z) - limit) < tolerance
    ensures Approaches(p, limit, tolerance)
  {
    assert StaysWithin(p, limit, tolerance, start);
  }

  lemma Reach(d: real, m: real, tolerance: real) returns (reach: real)
    requires d >= 0.0 && m > 0.0 && tolerance > 0.0
    ensures reach > 0.0 && reach * (m * tolerance) > d
  {
    var step := m * tolerance;
    SignOfProduct(m, tolerance);
    DivideThenMultiply(d, step);
    reach := d / step + 1.0;
    assert reach * step == d / step * step + step;
    SignOfProduct(reach, step);
  }

  lemma GrowingDenominator(p: DepthProjection, z: real, bound: real, reach: real)
    requires z > bound && z > 0.0 && bound * Abs(p.m34) == reach + Abs(p.m44) && p.m34 != 0.0
    ensures Abs(W(p, z)) > reach
  {
    hide *;
    WMeans(p, z);
    AbsOfProduct(z, p.m34);
    AbsOfProductGrows(z, bound, Abs(p.m34), reach + Abs(p.m44));
    OutweighsOffset(z * p.m34, p.m44, reach, z * Abs(p.m34));
  }

  lemma WMeans(p: DepthProjection, z: real)
    ensures W(p, z) == z * p.m34 + p.m44
  {
  }

  lemma AbsOfProduct(z: real, m: real)
    requires z > 0.0
    ensures Abs(z * m) == z * Abs(m)
  {
    SignOfProduct(z, m);
  }

  lemma AbsOfProductGrows(z: real, bound: real, m: real, reached: real)
    requires z > bound && m > 0.0 && bound * m == reached
    ensures z * m > reached
  {
    SignOfProduct(z - bound, m);
    assert (z - bound) * m == z * m - bound * m;
  }

  lemma OutweighsOffset(x: real, offset: real, reach: real, size: real)
    requires Abs(x) == size > reach + Abs(offset)
    ensures Abs(x + offset) > reach
  {
  }

  lemma SmallQuotient(x: real, w: real, m: real, d: real, reach: real, tolerance: real)
    requires x * (w * m) == -d && Abs(w) > reach > 0.0 && tolerance > 0.0 && m != 0.0
    requires reach * (Abs(m) * tolerance) > Abs(d)
    ensures Abs(x) < tolerance
  {
    var a, b, c := Abs(x), Abs(w), Abs(m);
    assert a * (b * c) == Abs(d);
    SignOfProduct(b - reach, c * tolerance);
    SignOfProduct(c, tolerance);
    if a >= tolerance {
      ProductNotNegative(a - tolerance, b * c);
    }
  }

  /** The range classification reads off the limit of the depth map at infinite distance. */
  lemma RangeReadsTheLimit(p: DepthProjection)
    requires ClassifyRange(p) != IndeterminateRange
    ensures p.m34 != 0.0 && TendsTo(p, p.m33 / p.m34)
    ensures ClassifyRange(p) == Infinite
            <==> Abs(p.m33 / p.m34 - (if ClassifyOrientation(p) == Reversed then 0.0 else 1.0))
                 <= INFINITE_ENDPOINT_TOLERANCE
  {
    var limit := p.m33 / p.m34;
    forall tolerance | tolerance > 0.0
      ensures Approaches(p, limit, tolerance)
    {
      FarEnough(p, tolerance);
    }
  }

  lemma QuotientWithin(x: real, w: real, bound: real)
    requires w != 0.0
    ensures Abs(x / w) <= bound <==> Abs(x) <= bound * Abs(w)
  {
    var q, a := x / w, Abs(w);
    assert q * w == x;
    assert Abs(q) * a == Abs(x);
    ComparesScaled(bound, a, Abs(q));
  }

  /** The limit can be compared: the slope of the denominator is not negligible, its offset is. */
  predicate HasFarLimit(p: DepthProjection) {
    && ClassifyOrientation(p) != IndeterminateOrientation
    && Abs(p.m34) >= 0.000000001 && Abs(p.m44) <= 0.000001
    && Abs(p.m33) < 300000000000000000000000000000000000000.0 * Abs(p.m34)
  }

  lemma OffsetFromEndpoint(p: DepthProjection, endpoint: real)
    requires p.m34 != 0.0
    ensures p.m33 / p.m34 - endpoint == (p.m33 - endpoint * p.m34) / p.m34
  {
    var limit := p.m33 / p.m34;
    assert limit * p.m34 == p.m33;
    DivideThenMultiply(p.m33 - endpoint * p.m34, p.m34);
    CancelFactor(limit - endpoint, (p.m33 - endpoint * p.m34) / p.m34, p.m34);
  }

  /** The answer from the entries: infinite when they put the limit within half a millionth of the far endpoint,
      bounded when they do not. */
  lemma RangeIsExact(p: DepthProjection)
    ensures var endpoint := if ClassifyOrientation(p) == Reversed then 0.0 else 1.0;
            var close := Abs(p.m33 - endpoint * p.m34) <= 0.0000005 * Abs(p.m34);
            && (ClassifyRange(p) == Infinite <==> HasFarLimit(p) && close)
            && (ClassifyRange(p) == Bounded <==> HasFarLimit(p) && !close)
  {
    var endpoint := if ClassifyOrientation(p) == Reversed then 0.0 else 1.0;
    FiniteWhenDeterminate(p);
    RangeUnfolds(p);
    hide ClassifyOrientation, ClassifyRange;
    if p.m34 != 0.0 {
      QuotientBelow(p.m33, p.m34, FINITE_BOUND);
      OffsetFromEndpoint(p, endpoint);
      QuotientWithin(p.m33 - endpoint * p.m34, p.m34, INFINITE_ENDPOINT_TOLERANCE);
    }
  }

  lemma FiniteWhenDeterminate(p: DepthProjection)
    ensures ClassifyOrientation(p) != IndeterminateOrientation ==> Finite(p.m34) && Finite(p.m44)
  {
  }

  lemma RangeUnfolds(p: DepthProjection)
    ensures var compared := && ClassifyOrientation(p) != IndeterminateOrientation && Finite(p.m34) && Finite(p.m44)
                            && Abs(p.m34) >= MINIMUM_W && Abs(p.m44) <= MAXIMUM_M44 && Finite(p.m33 / p.m34);
            var endpoint := if ClassifyOrientation(p) == Reversed then 0.0 else 1.0;
            && (ClassifyRange(p) == Infinite
                <==> compared && Abs(p.m33 / p.m34 - endpoint) <= INFINITE_ENDPOINT_TOLERANCE)
            && (ClassifyRange(p) == Bounded
                <==> compared && !(Abs(p.m33 / p.m34 - endpoint) <= INFINITE_ENDPOINT_TOLERANCE))
  {
    hide ClassifyOrientation, Finite;
  }
}
