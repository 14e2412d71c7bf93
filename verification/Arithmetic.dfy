/** The few facts of non-linear arithmetic the other modules need, each on its own. */
module Arithmetic {

  lemma MulMonotone(x: int, y: int, p: nat)
    requires x <= y
    ensures x * p <= y * p
  {
  }

  lemma MulAtLeast(x: int, p: int)
    requires x >= 1
    ensures p >= 0 ==> x * p >= p
  {
  }

  lemma MulSwap(x: int, y: int, z: int)
    ensures x * (y * z) == y * (x * z)
  {
  }

  lemma DivisionIdentity(n: int, b: int)
    requires b > 0
    ensures n == (n / b) * b + n % b && 0 <= n % b < b
    ensures n >= 0 ==> n / b >= 0
  {
  }

  lemma QuotientIsNatural(n: nat, b: nat)
    requires b >= 2
    ensures 0 <= n / b && (n > 0 ==> n / b < n)
  {
    if n > 0 {
      QuotientIsSmaller(n, b);
    }
  }

  lemma QuotientIsSmaller(n: nat, b: nat)
    requires b >= 2 && n > 0
    ensures 0 <= n / b < n
  {
    DivisionIdentity(n, b);
    if n / b >= n {
      MulMonotone(n, n / b, b);
      MulMonotone(2, b, n);
    }
  }

  /** Quotient and remainder are determined by the division identity. */
  lemma UniqueQuotient(n: int, b: int, q: int, d: int)
    requires n == q * b + d && 0 <= d < b
    ensures n / b == q && n % b == d
  {
    var q', d' := n / b, n % b;
    var e := q' - q;
    assert e * b == d - d';
    if e >= 1 {
      MulAtLeast(e, b);
    } else if e <= -1 {
      MulAtLeast(-e, b);
    }
  }

  /** The Galois connection between multiplication and floor division. */
  lemma ScaleBound(n: int, b: nat, q: int)
    requires b > 0
    ensures b * q <= n <==> q <= n / b
  {
    DivisionIdentity(n, b);
    if q <= n / b {
      MulMonotone(q, n / b, b);
    } else {
      MulMonotone(n / b + 1, q, b);
    }
  }

  lemma ResiduesDiffer(f: int, g: int, b: int)
    requires f < g < f + b
    ensures f % b != g % b
  {
    if f % b == g % b {
      var e := g / b - f / b;
      assert e * b == g - f;
      if e >= 1 {
        MulAtLeast(e, b);
      } else {
        MulMonotone(e, 0, b);
      }
    }
  }

  lemma ResidueOfMultiple(x: nat, size: nat, b: nat)
    requires b > 0 && size > 0 && size % b == 0
    ensures (x % size) % b == x % b
  {
    var y := x % size;
    var c := (x / size) * (size / b);
    assert x == c * b + y by {
      DivisionIdentity(size, b);
      DivisionIdentity(x, size);
      assert c * b == (x / size) * ((size / b) * b);
    }
    DivisionIdentity(y, b);
    assert x == (c + y / b) * b + y % b;
    UniqueQuotient(x, b, c + y / b, y % b);
  }

  lemma OneMore(n: int, x: real)
    ensures (n + 1) as real * x == n as real * x + x
  {
  }

  lemma ProductNotNegative(x: real, y: real)
    requires x >= 0.0 && y >= 0.0
    ensures x * y >= 0.0
  {
  }

  lemma DivideThenMultiply(x: real, p: real)
    requires p != 0.0
    ensures x / p * p == x
  {
  }

  lemma DivideMonotone(x: real, y: real, p: real)
    requires p > 0.0 && x <= y
    ensures x / p <= y / p
  {
  }

  lemma CrossMultiply(x: real, j: real, p: real)
    requires p > 0.0
    ensures j / p <= x <==> j <= x * p
  {
    var q := j / p;
    assert q * p == j;
    if q <= x {
      assert (x - q) * p >= 0.0;
    } else {
      assert (q - x) * p > 0.0;
    }
  }
}
