/** The Halton generator behind the temporal jitter, and the frame-to-sample schedule
    that feeds it. The source's `float` is modelled as `real`. */
module Halton {
  import opened Arithmetic
  import opened Common

  // ---------------------------------------------------------------------------------------
  // The radical inverse
  // ---------------------------------------------------------------------------------------

  function Pow(b: nat, k: nat): (p: nat)
    requires b >= 2
    ensures p > k
  {
    if k == 0 then 1 else b * Pow(b, k - 1)
  }

  /** The digits of `n` in base `b`, mirrored about the radix point. */
  function RadicalInverse(n: nat, b: nat): (x: real)
    requires b >= 2
    ensures 0.0 <= x < 1.0
    ensures n > 0 <==> x > 0.0
  {
    if n == 0 then 0.0
    else
      var x := RadicalInverse(n / b, b);
      DigitStaysBelowOne(n % b, b, x);
      assert n / b == 0 ==> n % b == n;
      ((n % b) as real + x) / b as real
  }

  lemma DigitStaysBelowOne(d: nat, b: nat, x: real)
    requires d < b && 0.0 <= x < 1.0
    ensures 0.0 <= (d as real + x) / b as real < 1.0
    ensures d > 0 || x > 0.0 ==> (d as real + x) / b as real > 0.0
  {
    assert d as real + x < b as real;
  }

  lemma LeadingDigit(n: nat, b: nat)
    requires b >= 2
    ensures 0 <= n / b
    ensures RadicalInverse(n, b) == ((n % b) as real + RadicalInverse(n / b, b)) / b as real
  {
    QuotientIsNatural(n, b);
    if n == 0 {
      UniqueQuotient(0, b, 0, 0);
    }
  }

  /** Scaling by `f` and moving the leading digit out of the radical inverse. */
  lemma ShiftDigit(f: real, n: nat, b: nat)
    requires b >= 2 && n > 0
    ensures f * RadicalInverse(n, b) == f / b as real * (n % b) as real + f / b as real * RadicalInverse(n / b, b)
  {
    hide *;
    LeadingDigit(n, b);
    Distribute(f, (n % b) as real, RadicalInverse(n / b, b), b as real);
  }

  lemma Distribute(f: real, d: real, x: real, b: real)
    requires b > 0.0
    ensures f * ((d + x) / b) == f / b * d + f / b * x
  {
    var g, q := f / b, (d + x) / b;
    assert f == g * b && d + x == q * b;
    assert f * q == g * (q * b);
  }

  /** One digit is its share of the first place after the radix point. */
  lemma OneDigit(d: nat, b: nat)
    requires b >= 2 && d < b
    ensures RadicalInverse(d, b) == d as real / b as real
  {
    hide *;
    LeadingDigit(d, b);
    UniqueQuotient(d, b, 0, d);
    NothingToMirror(b);
  }

  lemma NothingToMirror(b: nat)
    requires b >= 2
    ensures RadicalInverse(0, b) == 0.0
  {
  }

  /** Adding digits far up leaves the lowest one alone. */
  lemma LowestDigit(n: nat, m: nat, b: nat, p: nat)
    requires b >= 2
    ensures 0 <= m * p && 0 <= n / b
    ensures (n + m * (b * p)) / b == n / b + m * p && (n + m * (b * p)) % b == n % b
  {
    DivisionIdentity(n, b);
    MulMonotone(0, m, p);
    Regroup(n / b, m, p, b);
    UniqueQuotient(n + m * (b * p), b, n / b + m * p, n % b);
  }

  ghost predicate Adds(n: nat, m: nat, b: nat, p: nat)
    requires b >= 2 && p > 0
  {
    0 <= m * p && RadicalInverse(n + m * p, b) == RadicalInverse(n, b) + RadicalInverse(m, b) / p as real
  }

  lemma SharedDigit(d: real, x: real, y: real, z: real, whole: real, n: real, b: real, p: real, bp: real)
    requires b > 0.0 && p > 0.0 && bp == b * p
    requires x == y + z / p && whole == (d + x) / b && n == (d + y) / b
    ensures bp > 0.0 && whole == n + z / bp
  {
    DivideTwice(d, y, z, b, p);
  }

  lemma OnePlaceMore(n: nat, m: nat, b: nat, p: nat)
    requires b >= 2 && p > 0 && 0 <= n / b && Adds(n / b, m, b, p)
    ensures 0 < b * p && Adds(n, m, b, b * p)
  {
    hide *;
    MulMonotone(1, b, p);
    LowestDigit(n, m, b, p);
    var q: nat, rest: nat, d, bp := n / b, n / b + m * p, n % b, b * p;
    AddsMeans(q, m, b, p);
    MulMonotone(0, m, bp);
    var whole: nat := n + m * bp;
    assert whole / b == rest && whole % b == d;
    LeadingDigit(n, b);
    LeadingDigit(whole, b);
    ProductIsReal(b, p);
    SharedDigit(d as real, RadicalInverse(rest, b), RadicalInverse(q, b), RadicalInverse(m, b),
                RadicalInverse(whole, b), RadicalInverse(n, b), b as real, p as real, bp as real);
    AddsMeans(n, m, b, bp);
  }

  lemma AddsMeans(n: nat, m: nat, b: nat, p: nat)
    requires b >= 2 && p > 0 && 0 <= m * p
    ensures Adds(n, m, b, p)
            <==> RadicalInverse(n + m * p, b) == RadicalInverse(n, b) + RadicalInverse(m, b) / p as real
  {
  }

  /** Digits from place `k` on count as much less as there are places below them: with `OneDigit`, this
      leaves no other function. */
  lemma {:induction false} PlacesAdd(n: nat, m: nat, b: nat, k: nat)
    requires b >= 2 && n < Pow(b, k)
    ensures Adds(n, m, b, Pow(b, k))
    decreases k
  {
    if k == 0 {
      assert Pow(b, 0) == 1 && n == 0;
    } else {
      hide *;
      LeadingReversedDigit(n, b, k);
      QuotientIsNatural(n, b);
      ScaleBound(n, b, Pow(b, k - 1));
      PlacesAdd(n / b, m, b, k - 1);
      OnePlaceMore(n, m, b, Pow(b, k - 1));
    }
  }

  lemma Regroup(q: int, m: int, p: int, b: int)
    ensures (q + m * p) * b == q * b + m * (b * p)
  {
  }

  lemma DivideTwice(d: real, x: real, y: real, b: real, p: real)
    requires b > 0.0 && p > 0.0
    ensures (d + (x + y / p)) / b == (d + x) / b + y / (b * p)
  {
    var u, v, w := y / p, (d + x) / b, y / (b * p);
    assert u * p == y && v * b == d + x && w * (b * p) == y;
    CancelCommon(u, w * b, p);
    assert (v + w) * b == d + (x + u);
  }

  lemma CancelCommon(x: real, y: real, p: real)
    requires p > 0.0 && x * p == y * p
    ensures x == y
  {
  }

  /** The accumulating loop of the source computes the radical inverse. */
  method Halton(index: nat, b: nat) returns (result: real)
    requires b >= 2
    ensures result == RadicalInverse(index, b)
  {
    hide *;
    result := 0.0;
    var fraction := 1.0;
    var i: nat := index;
    while i != 0
      invariant result + fraction * RadicalInverse(i, b) == RadicalInverse(index, b)
    {
      QuotientIsSmaller(i, b);
      var rest: nat := i / b;
      ShiftDigit(fraction, i, b);
      fraction := fraction / b as real;
      result := result + fraction * (i % b) as real;
      i := rest;
    }
  }

  // ---------------------------------------------------------------------------------------
  // Stratification
  // ---------------------------------------------------------------------------------------

  /** The `k` low digits of `n` read backwards, as an integer below `Pow(b, k)`. */
  function Reversed(n: nat, b: nat, k: nat): (j: nat)
    requires b >= 2
    ensures j < Pow(b, k)
  {
    if k == 0 then 0
    else
      var p, r := Pow(b, k - 1), Reversed(n / b, b, k - 1);
      assert (n % b) * p <= (b - 1) * p by { MulMonotone(n % b, b - 1, p); }
      assert (b - 1) * p == b * p - p;
      (n % b) * p + r
  }

  /** `n` without its `k` low digits. */
  function HighPart(n: nat, b: nat, k: nat): nat
    requires b >= 2
  {
    if k == 0 then n else HighPart(n / b, b, k - 1)
  }

  lemma LeadingReversedDigit(n: nat, b: nat, k: nat)
    requires b >= 2 && k > 0
    ensures Pow(b, k) == b * Pow(b, k - 1)
    ensures Reversed(n, b, k) == (n % b) * Pow(b, k - 1) + Reversed(n / b, b, k - 1)
    ensures HighPart(n, b, k) == HighPart(n / b, b, k - 1)
  {
  }

  /** The only index whose high part is `m` and whose reversed low digits read `j`. */
  function Representative(b: nat, k: nat, m: nat, j: nat): (n: nat)
    requires b >= 2 && j < Pow(b, k)
  {
    if k == 0 then m
    else
      var p := Pow(b, k - 1);
      DivisionIdentity(j, p);
      Representative(b, k - 1, m, j % p) * b + j / p
  }

  lemma LeadingPlacedDigit(b: nat, k: nat, m: nat, j: nat)
    requires b >= 2 && k > 0 && j < Pow(b, k)
    ensures var p := Pow(b, k - 1);
            0 <= j % p < p && Representative(b, k, m, j) == Representative(b, k - 1, m, j % p) * b + j / p
  {
    DivisionIdentity(j, Pow(b, k - 1));
  }

  lemma {:induction false} RepresentativeFits(b: nat, k: nat, m: nat, j: nat)
    requires b >= 2 && j < Pow(b, k)
    ensures HighPart(Representative(b, k, m, j), b, k) == m
    ensures Reversed(Representative(b, k, m, j), b, k) == j
  {
    if k == 0 {
      assert Pow(b, 0) == 1;
    } else {
      hide *;
      LeadingPlacedDigit(b, k, m, j);
      var p := Pow(b, k - 1);
      var n, d, rest := Representative(b, k, m, j), j / p, Representative(b, k - 1, m, j % p);
      RepresentativeFits(b, k - 1, m, j % p);
      LeadingReversedDigit(n, b, k);
      DivisionIdentity(j, p);
      assert d < b by { ScaleBound(j, p, b); }
      UniqueQuotient(n, b, rest, d);
    }
  }

  lemma {:induction false} RepresentativeIsUnique(n: nat, b: nat, k: nat)
    requires b >= 2
    ensures n == Representative(b, k, HighPart(n, b, k), Reversed(n, b, k))
  {
    if k > 0 {
      hide *;
      QuotientIsNatural(n, b);
      var rest: nat := n / b;
      RepresentativeIsUnique(rest, b, k - 1);
      LeadingReversedDigit(n, b, k);
      LeadingPlacedDigit(b, k, HighPart(n, b, k), Reversed(n, b, k));
      DivisionIdentity(n, b);
      UniqueQuotient(Reversed(n, b, k), Pow(b, k - 1), n % b, Reversed(rest, b, k - 1));
    }
  }

  /** `n` lies in the aligned block of `b^k` consecutive indices numbered `m`. */
  predicate InBlock(n: nat, b: nat, k: nat, m: nat)
    requires b >= 2
  {
    m * Pow(b, k) <= n < (m + 1) * Pow(b, k)
  }

  /** `x` lies in the `j`-th of `p` equal subintervals of the unit interval. */
  predicate InStratum(x: real, j: nat, p: nat)
    requires p > 0
  {
    j as real / p as real <= x < (j + 1) as real / p as real
  }

  lemma {:induction false} BlockIsHighPart(n: nat, b: nat, k: nat, m: nat)
    requires b >= 2
    ensures InBlock(n, b, k, m) <==> HighPart(n, b, k) == m
  {
    if k == 0 {
      assert Pow(b, 0) == 1;
    } else {
      QuotientIsNatural(n, b);
      var rest: nat, p := n / b, Pow(b, k - 1);
      BlockIsHighPart(rest, b, k - 1, m);
      LeadingReversedDigit(n, b, k);
      BlockScales(n, b, p, m);
    }
  }

  lemma BlockScales(n: nat, b: nat, p: nat, m: nat)
    requires b >= 2
    ensures m * (b * p) <= n < (m + 1) * (b * p) <==> m * p <= n / b < (m + 1) * p
  {
    ScaleBound(n, b, m * p);
    ScaleBound(n, b, (m + 1) * p);
    MulSwap(m, b, p);
    MulSwap(m + 1, b, p);
  }

  ghost predicate SplitsAt(x: real, p: nat, r: nat, h: real) {
    x * p as real == r as real + h
  }

  /** The `k` low digits of the index are the `k` high digits of the radical inverse. */
  lemma {:induction false} SplitAt(n: nat, b: nat, k: nat)
    requires b >= 2
    ensures SplitsAt(RadicalInverse(n, b), Pow(b, k), Reversed(n, b, k), RadicalInverse(HighPart(n, b, k), b))
  {
    if k == 0 {
      assert SplitsAt(RadicalInverse(n, b), 1, 0, RadicalInverse(n, b));
    } else {
      QuotientIsNatural(n, b);
      SplitAt(n / b, b, k - 1);
      LeadingDigit(n, b);
      hide *;
      LeadingReversedDigit(n, b, k);
      SplitStep(n % b, b, RadicalInverse(n / b, b), Pow(b, k - 1), Reversed(n / b, b, k - 1),
                RadicalInverse(HighPart(n, b, k), b));
    }
  }

  lemma SplitStep(d: nat, b: nat, x: real, p: nat, r: nat, h: real)
    requires b > 0 && SplitsAt(x, p, r, h)
    ensures SplitsAt((d as real + x) / b as real, b * p, d * p + r, h)
  {
    ProductIsReal(b, p);
    ProductIsReal(d, p);
    CancelBase(d as real, x, b as real, p as real);
  }

  lemma ProductIsReal(x: int, y: int)
    ensures (x * y) as real == x as real * y as real
  {
  }

  lemma CancelBase(d: real, x: real, b: real, p: real)
    requires b > 0.0
    ensures (d + x) / b * (b * p) == d * p + x * p
  {
    var q := (d + x) / b;
    assert q * b == d + x;
    assert q * (b * p) == (q * b) * p;
  }

  /** The stratum of an index at level `k` is the reversal of its `k` low digits. */
  lemma StratumIsReversal(n: nat, b: nat, k: nat, j: nat)
    requires b >= 2
    ensures InStratum(RadicalInverse(n, b), j, Pow(b, k)) <==> Reversed(n, b, k) == j
  {
    hide *;
    SplitAt(n, b, k);
    StratumIsFloor(RadicalInverse(n, b), Pow(b, k), Reversed(n, b, k), RadicalInverse(HighPart(n, b, k), b), j);
  }

  lemma StratumIsFloor(x: real, p: nat, r: nat, h: real, j: nat)
    requires p > 0 && 0.0 <= h < 1.0 && SplitsAt(x, p, r, h)
    ensures InStratum(x, j, p) <==> r == j
  {
    CrossMultiply(x, j as real, p as real);
    CrossMultiply(x, (j + 1) as real, p as real);
  }

  /** Every aligned block of `b^k` indices puts exactly one value in each of the `b^k` strata. */
  lemma Stratification(b: nat, k: nat, m: nat, j: nat)
    requires b >= 2 && j < Pow(b, k)
    ensures exists n ::
              && InBlock(n, b, k, m)
              && InStratum(RadicalInverse(n, b), j, Pow(b, k))
              && forall n' | InBlock(n', b, k, m) && InStratum(RadicalInverse(n', b), j, Pow(b, k)) :: n' == n
  {
    hide *;
    var n := Representative(b, k, m, j);
    RepresentativeFits(b, k, m, j);
    forall n': nat
      ensures InBlock(n', b, k, m) && InStratum(RadicalInverse(n', b), j, Pow(b, k)) <==> n' == n
    {
      BlockIsHighPart(n', b, k, m);
      StratumIsReversal(n', b, k, j);
      RepresentativeIsUnique(n', b, k);
    }
    assert InBlock(n, b, k, m) && InStratum(RadicalInverse(n, b), j, Pow(b, k));
  }

  lemma RadicalInverseIsInjective(x: nat, y: nat, b: nat)
    requires b >= 2
    ensures RadicalInverse(x, b) == RadicalInverse(y, b) <==> x == y
  {
    var k := if x >= y then x else y;
    assert InBlock(x, b, k, 0) && InBlock(y, b, k, 0);
    hide *;
    BlockIsHighPart(x, b, k, 0);
    BlockIsHighPart(y, b, k, 0);
    StratumIsReversal(x, b, k, Reversed(x, b, k));
    StratumIsReversal(y, b, k, Reversed(x, b, k));
    RepresentativeIsUnique(x, b, k);
    RepresentativeIsUnique(y, b, k);
  }

  // ---------------------------------------------------------------------------------------
  // The jitter schedule
  // ---------------------------------------------------------------------------------------

  /** `std::round` on a non-negative value: halves go away from zero. */
  function RoundHalfUp(x: real): nat
    requires x >= 0.0
  {
    (x + 0.5).Floor
  }

  /** The integer nearest to eight times the squared upscaling ratio, halves upwards, but at least one. */
  function PhaseCount(outputWidth: nat, renderWidth: nat): (phases: nat)
    requires renderWidth > 0
    ensures phases > 0
    ensures 16 * (outputWidth * outputWidth) >= renderWidth * renderWidth ==>
              (2 * phases - 1) * (renderWidth * renderWidth) <= 16 * (outputWidth * outputWidth)
              < (2 * phases + 1) * (renderWidth * renderWidth)
    ensures 16 * (outputWidth * outputWidth) < renderWidth * renderWidth ==> phases == 1
  {
    var ratio := outputWidth as real / renderWidth as real;
    RatioSquared(outputWidth, renderWidth, ratio);
    var phases := RoundHalfUp(8.0 * ratio * ratio);
    RoundedScales(8.0 * ratio * ratio, phases, renderWidth * renderWidth, outputWidth * outputWidth);
    Max(1, phases)
  }

  lemma RatioSquared(outputWidth: nat, renderWidth: nat, ratio: real)
    requires renderWidth > 0 && ratio == outputWidth as real / renderWidth as real
    ensures 0 < renderWidth * renderWidth && 0 <= outputWidth * outputWidth
    ensures 8.0 * ratio * ratio >= 0.0
    ensures 8.0 * ratio * ratio * (renderWidth * renderWidth) as real == (8 * (outputWidth * outputWidth)) as real
  {
    var o, r := outputWidth as real, renderWidth as real;
    DivideThenMultiply(o, r);
    ProductIsReal(renderWidth, renderWidth);
    ProductIsReal(outputWidth, outputWidth);
    SquareOfProduct(ratio, r);
    ProductNotNegative(ratio, ratio);
    MulMonotone(1, renderWidth, renderWidth);
    MulMonotone(0, outputWidth, outputWidth);
  }

  lemma SquareOfProduct(x: real, y: real)
    ensures 8.0 * x * x * (y * y) == 8.0 * ((x * y) * (x * y))
  {
  }

  lemma Spread(x: real, n: real, r: real, xr: real, nr: real)
    requires r > 0.0 && n <= x + 0.5 < n + 1.0 && xr == x * r && nr == n * r
    ensures nr - 0.5 * r <= xr < nr + 0.5 * r
  {
    hide *;
    var low, high := x - n + 0.5, n - x + 0.5;
    assert low * r == xr - nr + 0.5 * r && high * r == nr - xr + 0.5 * r by {
      ScaledGap(x, n, r);
    }
    PositiveScale(low, r);
    PositiveScale(high, r);
  }

  lemma ScaledGap(x: real, n: real, r: real)
    ensures (x - n + 0.5) * r == x * r - n * r + 0.5 * r && (n - x + 0.5) * r == n * r - x * r + 0.5 * r
  {
  }

  lemma PositiveScale(x: real, r: real)
    requires r > 0.0
    ensures x >= 0.0 ==> x * r >= 0.0
    ensures x > 0.0 ==> x * r > 0.0
  {
  }

  /** Rounding in terms of a common multiple: `x` is `8 * o` parts of size one `r`-th. */
  lemma RoundedScales(x: real, n: nat, r: nat, o: nat)
    requires r > 0 && x * r as real == (8 * o) as real && x >= 0.0 && n == RoundHalfUp(x)
    ensures (2 * n - 1) * r <= 16 * o < (2 * n + 1) * r
    ensures n >= 1 <==> 16 * o >= r
  {
    assert n as real <= x + 0.5 < n as real + 1.0;
    hide *;
    ProductIsReal(n, r);
    Spread(x, n as real, r as real, (8 * o) as real, (n * r) as real);
    InHalves(n * r, r, o);
    HalvesDecide(n, r, o);
  }

  lemma InHalves(nr: int, r: int, o: int)
    requires nr as real - 0.5 * r as real <= (8 * o) as real < nr as real + 0.5 * r as real
    ensures 2 * nr - r <= 16 * o < 2 * nr + r
  {
  }

  lemma HalvesDecide(n: nat, r: nat, o: nat)
    requires r > 0 && 2 * (n * r) - r <= 16 * o < 2 * (n * r) + r
    ensures (2 * n - 1) * r <= 16 * o < (2 * n + 1) * r
    ensures n >= 1 <==> 16 * o >= r
  {
    if n >= 1 {
      MulMonotone(1, n, r);
    }
  }

  /** The sub-pixel offset that frame number `frame` uses along the axis with base `b`. */
  function JitterOffset(frame: nat, phases: nat, b: nat): (offset: real)
    requires phases > 0 && b >= 2
    ensures -0.5 < offset < 0.5
  {
    RadicalInverse(frame % phases + 1, b) - 0.5
  }

  lemma OffsetOfSample(frame: nat, phases: nat, b: nat)
    requires phases > 0 && b >= 2
    ensures 0 <= frame % phases < phases
    ensures JitterOffset(frame, phases, b) == RadicalInverse(frame % phases + 1, b) - 0.5
  {
  }

  /** The members of the renderer state that `update_jitter` leaves behind. */
  class JitterState {
    var jitterIndex: nat
    var jitterX: real
    var jitterY: real
    var projectionScaleX: real
    var projectionScaleY: real

    /** `evaluationReady` and `jitterDisabled` stand for the contract and configuration tests. */
    method UpdateJitter(frame: nat, outputWidth: nat, renderWidth: nat, renderHeight: nat,
                        evaluationReady: bool, jitterDisabled: bool)
      requires frame < UINT32_SIZE
      requires evaluationReady ==> renderWidth > 0 && renderHeight > 0
      modifies this
      ensures !evaluationReady ==>
                && jitterX == jitterY == 0.0
                && unchanged(`jitterIndex) && unchanged(`projectionScaleX) && unchanged(`projectionScaleY)
      ensures evaluationReady && jitterDisabled ==>
                jitterIndex == 0 && jitterX == jitterY == projectionScaleX == projectionScaleY == 0.0
      ensures evaluationReady && !jitterDisabled ==>
                var phases := PhaseCount(outputWidth, renderWidth);
                && 1 <= jitterIndex <= phases
                && jitterIndex == frame % phases + 1
                && jitterX == RadicalInverse(jitterIndex, 2) - 0.5 == JitterOffset(frame, phases, 2)
                && jitterY == RadicalInverse(jitterIndex, 3) - 0.5 == JitterOffset(frame, phases, 3)
                && projectionScaleX * renderWidth as real == -2.0 * jitterX
                && projectionScaleY * renderHeight as real == 2.0 * jitterY
    {
      hide *;
      if !evaluationReady {
        jitterX, jitterY := 0.0, 0.0;
        return;
      }
      if jitterDisabled {
        jitterIndex := 0;
        jitterX, jitterY := 0.0, 0.0;
        projectionScaleX, projectionScaleY := 0.0, 0.0;
      } else {
        var phases := PhaseCount(outputWidth, renderWidth);
        OffsetOfSample(frame, phases, 2);
        OffsetOfSample(frame, phases, 3);
        var sample := frame % phases + 1;
        jitterIndex := sample;
        var x := Halton(sample, 2);
        var y := Halton(sample, 3);
        jitterX := x - 0.5;
        jitterY := y - 0.5;
        projectionScaleX := -2.0 * jitterX / renderWidth as real;
        projectionScaleY := 2.0 * jitterY / renderHeight as real;
        DivideThenMultiply(-2.0 * jitterX, renderWidth as real);
        DivideThenMultiply(2.0 * jitterY, renderHeight as real);
      }
    }
  }

  /** The value of the 32-bit frame counter `i` frames after it read `start`. */
  function CounterAfter(start: nat, i: nat): nat {
    (start + i) % UINT32_SIZE
  }

  /** The offsets of `phases` consecutive frames along one axis are pairwise different. */
  ghost predicate WindowIsDistinct(start: nat, phases: nat, b: nat)
    requires phases > 0 && b >= 2
  {
    forall i, j | 0 <= i < j < phases ::
      JitterOffset(CounterAfter(start, i), phases, b) != JitterOffset(CounterAfter(start, j), phases, b)
  }

  lemma EqualOffsets(f: nat, g: nat, phases: nat, b: nat)
    requires phases > 0 && b >= 2
    ensures JitterOffset(f, phases, b) == JitterOffset(g, phases, b) <==> f % phases == g % phases
  {
    OffsetOfSample(f, phases, b);
    OffsetOfSample(g, phases, b);
    hide *;
    RadicalInverseIsInjective(f % phases + 1, g % phases + 1, b);
  }

  /** A counter wrap inside the window repeats a sample when the phase count does not divide 2^32. */
  lemma WrapRepeats(start: nat, phases: nat) returns (i: nat, j: nat)
    requires 0 < phases < UINT32_SIZE && start < UINT32_SIZE < start + phases
    requires UINT32_SIZE % phases != 0
    ensures i < j < phases
    ensures CounterAfter(start, i) % phases == CounterAfter(start, j) % phases
  {
    var tail := UINT32_SIZE - start;
    var r := UINT32_SIZE % phases;
    var q := UINT32_SIZE / phases;
    DivisionIdentity(UINT32_SIZE, phases);
    if tail >= r {
      // The last frame number that is a multiple of `phases`, and frame 0 after the wrap.
      i, j := tail - r, tail;
      assert CounterAfter(start, i) == UINT32_SIZE - r && CounterAfter(start, j) == 0;
      UniqueQuotient(UINT32_SIZE - r, phases, q, 0);
      UniqueQuotient(0, phases, 0, 0);
    } else {
      i, j := 0, r;
      assert CounterAfter(start, i) == start && CounterAfter(start, j) == r - tail;
      UniqueQuotient(start, phases, q, r - tail);
      UniqueQuotient(r - tail, phases, 0, r - tail);
    }
  }

  lemma SamplesDiffer(start: nat, phases: nat, i: nat, j: nat)
    requires 0 < phases && i < j < phases && start < UINT32_SIZE
    requires start + phases <= UINT32_SIZE || UINT32_SIZE % phases == 0
    ensures CounterAfter(start, i) % phases != CounterAfter(start, j) % phases
  {
    ResiduesDiffer(start + i, start + j, phases);
    if UINT32_SIZE % phases == 0 {
      ResidueOfMultiple(start + i, UINT32_SIZE, phases);
      ResidueOfMultiple(start + j, UINT32_SIZE, phases);
    }
  }

  /** Any `phases` consecutive frames use distinct offsets on either axis, exactly when the frame
      counter does not wrap inside the window or the phase count divides 2^32. */
  lemma JitterWindow(start: nat, phases: nat, b: nat)
    requires b >= 2 && 0 < phases < UINT32_SIZE && start < UINT32_SIZE
    ensures WindowIsDistinct(start, phases, b)
            <==> start + phases <= UINT32_SIZE || UINT32_SIZE % phases == 0
  {
    hide RadicalInverse, JitterOffset, CounterAfter;
    if start + phases <= UINT32_SIZE || UINT32_SIZE % phases == 0 {
      forall i, j | 0 <= i < j < phases
        ensures JitterOffset(CounterAfter(start, i), phases, b) != JitterOffset(CounterAfter(start, j), phases, b)
      {
        SamplesDiffer(start, phases, i, j);
        EqualOffsets(CounterAfter(start, i), CounterAfter(start, j), phases, b);
      }
    } else {
      var i, j := WrapRepeats(start, phases);
      EqualOffsets(CounterAfter(start, i), CounterAfter(start, j), phases, b);
    }
  }

  /** A window that does repeat a sample: upscaling 1280 columns to 1920 takes 18 phases, and 18 does not
      divide 2^32. */
  lemma WrappedWindowRepeats(b: nat)
    requires b >= 2
    ensures PhaseCount(1920, 1280) == 18
    ensures !WindowIsDistinct(UINT32_SIZE - 1, 18, b)
  {
    JitterWindow(UINT32_SIZE - 1, 18, b);
  }
}
