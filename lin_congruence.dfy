/**
 * Linear congruences `a*k == b (mod m)`, solved as in section 7.4.1 of the "Binary Quadratic
 * Forms" notes the class-group code follows: with `g = gcd(a, m) = d*a + e*m`, the solutions
 * are `k = mu + v*n` for `mu = (floor(b / g) * d) mod m` and `v = floor(m / g)`.
 *
 * GMP's `gcdext` (and rug's `gcd_cofactors`) is modelled by `Arith.ExtGcd`, the classic
 * extended Euclidean algorithm; any Bezout cofactor gives a solution, and this one gives the
 * values the source's own examples expect.
 */
module LinCongruence {
  import opened Wrappers
  import opened Arith

  /** `k` solves `a*k == b (mod m)`. */
  predicate Solves(a: int, b: int, m: int, k: int)
    requires m != 0
  {
    (a * k - b) % m == 0
  }

  /**
   * The solution of `a*k == b (mod m)`: `None` exactly when `gcd(a, m)` does not divide `b`;
   * otherwise `(mu, v)` with `0 <= mu < |m|` and `v = floor(m / gcd(a, m))`, and the solutions
   * are exactly the `k` congruent to `mu` modulo `v`.
   */
  function LinearCongruence(a: int, b: int, m: int): (r: Option<(int, int)>)
    requires m != 0
    ensures r.None? <==> b % Gcd(a, m) != 0
    ensures r.Some? ==> 0 <= r.value.0 < Abs(m) && r.value.1 == m / Gcd(a, m) && r.value.1 != 0
    ensures r.Some? ==> forall k :: Solves(a, b, m, k) <==> (k - r.value.0) % r.value.1 == 0
  {
    var (g, d, e) := ExtGcd(a, m);
    if b % g != 0 then None
    else
      var mu := ((b / g) * d) % m;
      var v := m / g;
      SolutionSet(a, b, m, g, d, e, mu, v);
      Some((mu, v))
  }

  /** With `mu` and `v` as above, the solutions are exactly `mu` plus multiples of `v`. */
  lemma SolutionSet(a: int, b: int, m: int, g: int, d: int, e: int, mu: int, v: int)
    requires m != 0 && g == Gcd(a, m) && a * d + m * e == g && b % g == 0
    requires mu == ((b / g) * d) % m && v == m / g
    ensures v != 0
    ensures forall k :: Solves(a, b, m, k) <==> (k - mu) % v == 0
  {
    GcdDivides(a, m);
    DivModIdentity(m, g);
    forall k
      ensures Solves(a, b, m, k) <==> (k - mu) % v == 0
    {
      SolutionAt(a, b, m, g, d, e, mu, v, k);
    }
  }

  /** The residue of `a*mu - b` modulo `m` is `-rem`, where `rem = b mod g`. */
  lemma MuResidue(a: int, b: int, m: int, g: int, d: int, e: int, q: int, rem: int, j: int, mu: int)
    requires a * d + m * e == g && q * d == m * j + mu && b == g * q + rem
    ensures a * mu - b == m * (-q * e - a * j) - rem
  {
    assert a * mu == a * (q * d) - m * (a * j);
    assert a * (q * d) == q * (a * d) == q * g - m * (q * e);
  }

  /** `mu` itself solves: `a*mu - b` is a multiple of `m`. */
  lemma BaseSolution(a: int, b: int, m: int, g: int, d: int, e: int, mu: int)
    requires m != 0 && g > 0 && a * d + m * e == g && b % g == 0
    requires mu == ((b / g) * d) % m
    ensures a * mu - b == m * (-(b / g) * e - a * (((b / g) * d) / m))
  {
    var q := b / g;
    var x := q * d;
    var j := x / m;
    DivModIdentity(x, m);
    DivModIdentity(b, g);
    MuResidue(a, b, m, g, d, e, q, 0, j, mu);
  }

  lemma SolutionAt(a: int, b: int, m: int, g: int, d: int, e: int, mu: int, v: int, k: int)
    requires m != 0 && g == Gcd(a, m) && a * d + m * e == g && b % g == 0
    requires mu == ((b / g) * d) % m && v == m / g
    requires Divides(g, a) && Divides(g, m)
    ensures Solves(a, b, m, k) <==> (k - mu) % v == 0
  {
    var a' := a / g;
    DivModIdentity(a, g);
    DivModIdentity(m, g);
    var l := -(b / g) * e - a * (((b / g) * d) / m);
    BaseSolution(a, b, m, g, d, e, mu);
    if (k - mu) % v == 0 {
      SolvesIfCongruent(a, b, m, g, a', v, mu, k, l, (k - mu) / v);
    }
    if Solves(a, b, m, k) {
      CongruentIfSolves(a, b, m, g, a', v, mu, k, l, (a * k - b) / m, d, e);
    }
  }

  lemma SolvesIfCongruent(a: int, b: int, m: int, g: int, a': int, v: int, mu: int, k: int, l: int, n: int)
    requires m != 0 && a == g * a' && m == g * v && a * mu - b == m * l && k - mu == v * n
    ensures Solves(a, b, m, k)
  {
    assert a * k - b == (a * mu - b) + a * (v * n);
    assert a * (v * n) == m * (a' * n) by {
      assert a * (v * n) == (g * a') * (v * n) == (g * v) * (a' * n);
    }
    assert a * k - b == m * (l + a' * n);
    MulModAny(m, l + a' * n);
  }

  lemma CongruentIfSolves(a: int, b: int, m: int, g: int, a': int, v: int, mu: int, k: int, l: int,
                          kk: int, d: int, e: int)
    requires g != 0 && m != 0 && a == g * a' && m == g * v && a * mu - b == m * l
    requires a * k - b == m * kk && a * d + m * e == g
    ensures v != 0 && (k - mu) % v == 0
  {
    var t := k - mu;
    assert a * t == m * (kk - l);
    assert g * (a' * t) == g * (v * (kk - l)) by {
      assert g * (a' * t) == a * t;
      assert m * (kk - l) == g * (v * (kk - l));
    }
    MulCancel(g, a' * t, v * (kk - l));
    assert g * (a' * d + v * e) == g * 1 by {
      assert g * (a' * d + v * e) == (g * a') * d + (g * v) * e;
    }
    MulCancel(g, a' * d + v * e, 1);
    assert t == t * (a' * d + v * e);
    assert t * (a' * d + v * e) == (a' * t) * d + v * (t * e);
    assert t == v * ((kk - l) * d + t * e);
    MulModAny(v, (kk - l) * d + t * e);
  }

  /**
   * `solve_linear_congruence`: the gcd and its cofactors, then `b` divided by the gcd with
   * remainder; a non-zero remainder means no solution, otherwise `mu` and `v` are written.
   */
  method SolveLinearCongruence(a: int, b: int, m: int) returns (r: Option<(int, int)>)
    requires m != 0
    ensures r == LinearCongruence(a, b, m)
  {
    var (g, d, e) := ExtGcd(a, m);
    var q, rem := b / g, b % g;
    if rem != 0 {
      return None;
    }
    var mu := q * d;
    mu := mu % m;
    var v := m / g;
    return Some((mu, v));
  }

  /**
   * The unchecked solver of the older class-group code: it never reports failure. When the
   * congruence is solvable it agrees with the checked solver; when it is not, the `mu` it
   * writes is not a solution.
   */
  method SolveUnchecked(a: int, b: int, m: int) returns (mu: int, v: int)
    requires m != 0
    ensures 0 <= mu < Abs(m) && v == m / Gcd(a, m)
    ensures LinearCongruence(a, b, m).Some? ==> (mu, v) == LinearCongruence(a, b, m).value
    ensures LinearCongruence(a, b, m).None? ==> !Solves(a, b, m, mu)
  {
    var (g, d, e) := ExtGcd(a, m);
    var q, rem := b / g, b % g;
    mu := q * d;
    mu := mu % m;
    v := m / g;
    if rem != 0 {
      UncheckedMissesAll(a, b, m, g, d, e, mu);
    }
  }

  lemma UncheckedMissesAll(a: int, b: int, m: int, g: int, d: int, e: int, mu: int)
    requires m != 0 && g == Gcd(a, m) && a * d + m * e == g && b % g != 0
    requires mu == ((b / g) * d) % m
    ensures !Solves(a, b, m, mu)
  {
    var q, rem := b / g, b % g;
    var x := q * d;
    var j := x / m;
    DivModIdentity(x, m);
    DivModIdentity(b, g);
    MuResidue(a, b, m, g, d, e, q, rem, j, mu);
    GcdDivides(a, m);
    DivisorBound(g, m);
    var n := -q * e - a * j;
    QuotientShift(n, m, rem);
    if m > 0 {
      DivModUniqueAny(a * mu - b, m, n - 1, m - rem);
    } else {
      DivModUniqueAny(a * mu - b, m, n + 1, -m - rem);
    }
  }

  /** Moving one `m` between quotient and remainder. */
  lemma QuotientShift(n: int, m: int, rem: int)
    ensures (n - 1) * m + (m - rem) == m * n - rem && (n + 1) * m + (-m - rem) == m * n - rem
  {
  }

  /** The worked cases: four solvable congruences and two without a solution. */
  lemma SolverExamples()
    ensures LinearCongruence(3, 2, 4) == Some((2, 4))
    ensures LinearCongruence(5, 1, 2) == Some((1, 2))
    ensures LinearCongruence(2, 4, 5) == Some((2, 5))
    ensures LinearCongruence(230, 1081, 12167) == Some((2491, 529))
    ensures LinearCongruence(33, 7, 143) == None
    ensures LinearCongruence(13, 14, 39) == None
  {
    assert ExtGcd(3, 4) == (1, -1, 1);
    assert ExtGcd(5, 2) == (1, 1, -2);
    assert ExtGcd(2, 5) == (1, -2, 1);
    assert ExtGcd(230, 12167) == (23, 53, -1);
    assert ExtGcd(33, 143) == (11, -4, 1);
    assert ExtGcd(13, 39) == (13, 1, 0);
  }
}
