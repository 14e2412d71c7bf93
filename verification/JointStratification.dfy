/** The two axes of the jitter together: bases 2 and 3 fill every grid of 2^k by 3^l boxes evenly. */
module JointStratification {
  import opened Arithmetic
  import opened Halton

  // ---------------------------------------------------------------------------------------
  // Residues
  // ---------------------------------------------------------------------------------------

  /** What an index leaves modulo `b^k` when its radical inverse lies in stratum `j`. */
  function Residue(b: nat, k: nat, j: nat): nat
    requires b >= 2 && j < Pow(b, k)
  {
    Representative(b, k, 0, j)
  }

  lemma {:induction false} RepresentativeShifts(b: nat, k: nat, m: nat, j: nat)
    requires b >= 2 && j < Pow(b, k)
    ensures Representative(b, k, m, j) == m * Pow(b, k) + Representative(b, k, 0, j)
  {
    if k == 0 {
      assert Pow(b, 0) == 1;
    } else {
      hide *;
      LeadingReversedDigit(0, b, k);
      LeadingPlacedDigit(b, k, m, j);
      LeadingPlacedDigit(b, k, 0, j);
      var p := Pow(b, k - 1);
      RepresentativeShifts(b, k - 1, m, j % p);
      ShiftedProduct(m, p, b, Representative(b, k - 1, 0, j % p));
    }
  }

  lemma ShiftedProduct(m: int, p: int, b: int, rest: int)
    ensures (m * p + rest) * b == m * (b * p) + rest * b
  {
  }

  lemma ResidueIsSmall(b: nat, k: nat, j: nat)
    requires b >= 2 && j < Pow(b, k)
    ensures Residue(b, k, j) < Pow(b, k)
  {
    RepresentativeFits(b, k, 0, j);
    BlockIsHighPart(Residue(b, k, j), b, k, 0);
  }

  /** The stratum of a radical inverse is a congruence on the index. */
  lemma StratumIsResidue(n: nat, b: nat, k: nat, j: nat)
    requires b >= 2 && j < Pow(b, k)
    ensures InStratum(RadicalInverse(n, b), j, Pow(b, k)) <==> n % Pow(b, k) == Residue(b, k, j)
  {
    var p, r := Pow(b, k), Residue(b, k, j);
    StratumIsReversal(n, b, k, j);
    ResidueIsSmall(b, k, j);
    hide *;
    if Reversed(n, b, k) == j {
      RepresentativeIsUnique(n, b, k);
      RepresentativeShifts(b, k, HighPart(n, b, k), j);
      ResidueIsRepresentative(b, k, j);
      UniqueQuotient(n, p, HighPart(n, b, k), r);
    }
    if n % p == r {
      DivisionIdentity(n, p);
      RepresentativeShifts(b, k, n / p, j);
      ResidueIsRepresentative(b, k, j);
      RepresentativeFits(b, k, n / p, j);
    }
  }

  lemma ResidueIsRepresentative(b: nat, k: nat, j: nat)
    requires b >= 2 && j < Pow(b, k)
    ensures Residue(b, k, j) == Representative(b, k, 0, j)
  {
  }

  // ---------------------------------------------------------------------------------------
  // Coprime moduli
  // ---------------------------------------------------------------------------------------

  ghost predicate IsBezoutPair(u: int, v: int, p: int, q: int) {
    u * p + v * q == 1
  }

  ghost predicate AreCoprime(p: int, q: int) {
    exists u: int, v: int :: IsBezoutPair(u, v, p, q)
  }

  lemma CoprimeToProduct(p: int, q: int, q': int)
    requires AreCoprime(p, q) && AreCoprime(p, q')
    ensures AreCoprime(p, q * q')
  {
    var u, v :| IsBezoutPair(u, v, p, q);
    var u', v' :| IsBezoutPair(u', v', p, q');
    var w := u + v * q * u';
    assert v * q * u' * p + v * q * (v' * q') == v * q by {
      assert v * q * (u' * p + v' * q') == v * q;
    }
    assert w * p == u * p + v * q * u' * p;
    assert v * q * (v' * q') == (v * v') * (q * q');
    assert IsBezoutPair(w, v * v', p, q * q');
  }

  lemma CoprimeIsSymmetric(p: int, q: int)
    requires AreCoprime(p, q)
    ensures AreCoprime(q, p)
  {
    var u, v :| IsBezoutPair(u, v, p, q);
    assert IsBezoutPair(v, u, q, p);
  }

  lemma {:induction false} CoprimeToPower(p: int, c: nat, l: nat)
    requires c >= 2 && AreCoprime(p, c)
    ensures AreCoprime(p, Pow(c, l))
  {
    if l == 0 {
      assert IsBezoutPair(0, 1, p, Pow(c, 0));
    } else {
      CoprimeToPower(p, c, l - 1);
      CoprimeToProduct(p, c, Pow(c, l - 1));
    }
  }

  lemma PowersAreCoprime(b: nat, k: nat, c: nat, l: nat)
    requires b >= 2 && c >= 2 && AreCoprime(b, c)
    ensures AreCoprime(Pow(b, k), Pow(c, l))
  {
    CoprimeToPower(b, c, l);
    CoprimeIsSymmetric(b, Pow(c, l));
    CoprimeToPower(Pow(c, l), b, k);
    CoprimeIsSymmetric(Pow(c, l), Pow(b, k));
  }

  // ---------------------------------------------------------------------------------------
  // The Chinese remainder theorem on one block of consecutive numbers
  // ---------------------------------------------------------------------------------------

  /** `n` is in the aligned block of `size` consecutive indices numbered `m`. */
  predicate InRun(n: nat, size: nat, m: nat) {
    m * size <= n < (m + 1) * size
  }

  /** One congruence survives moving by a multiple of both moduli. */
  lemma MovedResidue(x: int, p: nat, q: nat, r: nat, s: nat, u: int, t: int, n: int)
    requires 0 <= r < p
    requires x == r + (s - r) * u * p
    requires n == x + t * (p * q)
    ensures n % p == r
  {
    assert t * (p * q) == (t * q) * p;
    assert n == ((s - r) * u + t * q) * p + r;
    UniqueQuotient(n, p, (s - r) * u + t * q, r);
  }

  lemma SolutionExists(p: nat, q: nat, r: nat, s: nat, m: nat) returns (n: nat)
    requires AreCoprime(p, q) && r < p && s < q
    ensures InRun(n, p * q, m) && n % p == r && n % q == s
  {
    var u, v :| IsBezoutPair(u, v, p, q);
    var size := p * q;
    MulAtLeast(p, q);
    var x := r * (v * q) + s * (u * p);
    assert x == r + (s - r) * u * p by { Combine(r, s, u * p, v * q); Regroup(s - r, u, p); }
    assert x == s + (r - s) * v * q by { Combine(s, r, v * q, u * p); Regroup(r - s, v, q); }
    DivisionIdentity(x, size);
    var t := m - x / size;
    assert t * size == m * size - (x / size) * size;
    assert m * size + size == (m + 1) * size;
    MulMonotone(0, m, size);
    n := m * size + x % size;
    assert size == q * p;
    MovedResidue(x, p, q, r, s, u, t, n);
    MovedResidue(x, q, p, s, r, v, t, n);
  }

  lemma Combine(r: int, s: int, up: int, vq: int)
    requires up + vq == 1
    ensures r * vq + s * up == r + (s - r) * up
  {
    assert vq == 1 - up;
  }

  lemma Regroup(d: int, u: int, p: int)
    ensures d * (u * p) == d * u * p
  {
  }

  lemma SolutionIsUnique(p: nat, q: nat, m: nat, n: nat, n': nat)
    requires AreCoprime(p, q) && p > 0 && q > 0
    requires InRun(n, p * q, m) && InRun(n', p * q, m)
    requires n % p == n' % p && n % q == n' % q
    ensures n == n'
  {
    hide IsBezoutPair, InRun;
    var u, v :| IsBezoutPair(u, v, p, q);
    var d, e, f := n - n', n / p - n' / p, n / q - n' / q;
    SameResidue(n, n', p);
    SameResidue(n, n', q);
    CommonMultiple(d, p, q, e, f, u, v);
    MulMonotone(0, p, q);
    RunIsShort(n, n', p * q, m);
    OnlySmallMultiple(d, u * f + v * e, p * q);
  }

  lemma SameResidue(n: int, n': int, p: int)
    requires p > 0 && n % p == n' % p
    ensures n - n' == (n / p - n' / p) * p
  {
  }

  lemma RunIsShort(n: nat, n': nat, size: nat, m: nat)
    requires InRun(n, size, m) && InRun(n', size, m)
    ensures n - n' < size && n' - n < size
  {
    assert (m + 1) * size == m * size + size;
  }

  lemma OnlySmallMultiple(d: int, c: int, size: int)
    requires d == c * size && d < size && -d < size
    ensures d == 0
  {
    if c >= 1 {
      MulAtLeast(c, size);
    } else if c <= -1 {
      MulAtLeast(-c, size);
    }
  }

  lemma CommonMultiple(d: int, p: int, q: int, e: int, f: int, u: int, v: int)
    requires IsBezoutPair(u, v, p, q) && d == e * p == f * q
    ensures d == (u * f + v * e) * (p * q)
  {
    assert d == (u * p + v * q) * d;
    assert (u * p) * (f * q) == (u * f) * (p * q);
    assert (v * q) * (e * p) == (v * e) * (p * q);
  }

  // ---------------------------------------------------------------------------------------
  // Boxes
  // ---------------------------------------------------------------------------------------

  /** The point of index `n` lies in column `i` of `b^k` and row `j` of `c^l`. */
  predicate InBox(n: nat, b: nat, k: nat, i: nat, c: nat, l: nat, j: nat)
    requires b >= 2 && c >= 2
  {
    InStratum(RadicalInverse(n, b), i, Pow(b, k)) && InStratum(RadicalInverse(n, c), j, Pow(c, l))
  }

  lemma BoxIsResidues(n: nat, b: nat, k: nat, i: nat, c: nat, l: nat, j: nat)
    requires b >= 2 && c >= 2 && i < Pow(b, k) && j < Pow(c, l)
    ensures InBox(n, b, k, i, c, l, j) <==> n % Pow(b, k) == Residue(b, k, i) && n % Pow(c, l) == Residue(c, l, j)
  {
    StratumIsResidue(n, b, k, i);
    StratumIsResidue(n, c, l, j);
  }

  /** With coprime bases, every aligned block of `b^k * c^l` indices puts exactly one point in each of the
      `b^k` by `c^l` boxes of the unit square. */
  lemma BoxesAreFilledOnce(b: nat, k: nat, i: nat, c: nat, l: nat, j: nat, m: nat)
    requires b >= 2 && c >= 2 && AreCoprime(b, c) && i < Pow(b, k) && j < Pow(c, l)
    ensures exists n ::
              && InRun(n, Pow(b, k) * Pow(c, l), m)
              && InBox(n, b, k, i, c, l, j)
              && forall n' | InRun(n', Pow(b, k) * Pow(c, l), m) && InBox(n', b, k, i, c, l, j) :: n' == n
  {
    hide *;
    PowersAreCoprime(b, k, c, l);
    ResidueIsSmall(b, k, i);
    ResidueIsSmall(c, l, j);
    var n := SolutionExists(Pow(b, k), Pow(c, l), Residue(b, k, i), Residue(c, l, j), m);
    BoxIsResidues(n, b, k, i, c, l, j);
    forall n' | InRun(n', Pow(b, k) * Pow(c, l), m) && InBox(n', b, k, i, c, l, j)
      ensures n' == n
    {
      BoxIsResidues(n', b, k, i, c, l, j);
      SolutionIsUnique(Pow(b, k), Pow(c, l), m, n, n');
    }
  }

  /** The jitter's own bases. */
  lemma JitterFillsBoxes(k: nat, i: nat, l: nat, j: nat, m: nat)
    requires i < Pow(2, k) && j < Pow(3, l)
    ensures exists n ::
              && InRun(n, Pow(2, k) * Pow(3, l), m)
              && InBox(n, 2, k, i, 3, l, j)
              && forall n' | InRun(n', Pow(2, k) * Pow(3, l), m) && InBox(n', 2, k, i, 3, l, j) :: n' == n
  {
    assert IsBezoutPair(-1, 1, 2, 3);
    BoxesAreFilledOnce(2, k, i, 3, l, j, m);
  }
}
