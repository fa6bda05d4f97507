/**
 * The Baillie-PSW probable-prime test of src/hash/primality/mod.rs: trial division by a list of
 * small primes, the Miller-Rabin test to base 2, the choice of the Lucas parameter `D` by the
 * Jacobi symbol, and the Lucas test of the `Lucas` module.
 *
 * The list `SMALL_PRIMES` lives in constants.rs, which is not part of this model: the list is a
 * parameter here, required to hold numbers of at least 2. `modpow` is written `Pow(b, e) % n`.
 */
module Primality {
  import opened Wrappers
  import opened Arith
  import Lucas

  /** `MAX_JACOBI_ITERS`. */
  const MaxJacobiIters: nat := 500

  // ---------------------------------------------------------------------------------------------
  // The Jacobi symbol

  /**
   * `jacobi_symbol(a, n)` for odd positive `n`, following its recursion: the base cases, the
   * sign rule for negative `a`, the factor 2, reduction modulo `n` and reciprocity. For `a == 2`
   * an odd `n` leaves 1, 3, 5 or 7 modulo 8, so one of its two base cases always applies.
   */
  function Jacobi(a: int, n: int): (r: int)
    requires n > 0 && n % 2 == 1
    ensures -1 <= r <= 1
    decreases Abs(a) + n, if a < 0 then 2 else if a < n then 1 else 0
  {
    if n == 1 then 1
    else if a == 0 then 0
    else if a == 1 then 1
    else if a == 2 then (if n % 8 == 3 || n % 8 == 5 then -1 else 1)
    else if a < 0 then
      var j := Jacobi(-a, n);
      if (n - 1) / 2 % 2 == 0 then j else -j
    else if a % 2 == 0 then Jacobi(2, n) * Jacobi(a / 2, n)
    else if a % n != a then
      ModBelow(a, n);
      Jacobi(a % n, n)
    else if a % 4 == 3 && n % 4 == 3 then -Jacobi(n, a)
    else Jacobi(n, a)
  }

  lemma ModBelow(a: int, n: int)
    requires a > 0 && n > 0 && a % n != a
    ensures a % n < a
  {
    if a < n {
      DivModUnique(a, n, 0, a);
    }
  }

  /** Two pairs whose gcds divide each other's arguments have the same gcd. */
  lemma GcdSame(a: int, b: int, c: int, e: int)
    requires b != 0 && e != 0
    requires c % Gcd(a, b) == 0 && e % Gcd(a, b) == 0
    requires a % Gcd(c, e) == 0 && b % Gcd(c, e) == 0
    ensures Gcd(a, b) == Gcd(c, e)
  {
    var g1, g2 := Gcd(a, b), Gcd(c, e);
    GcdIsGreatest(c, e, g1);
    GcdIsGreatest(a, b, g2);
    DivisorBound(g1, g2);
    DivisorBound(g2, g1);
  }

  lemma GcdNegate(a: int, n: int)
    requires n != 0
    ensures Gcd(-a, n) == Gcd(a, n)
  {
    GcdDivides(a, n);
    GcdDivides(-a, n);
    DividesLinear(Gcd(a, n), a, n, -1, 0);
    DividesLinear(Gcd(-a, n), -a, n, -1, 0);
    GcdSame(a, n, -a, n);
  }

  lemma GcdMod(a: int, n: int)
    requires n > 0
    ensures Gcd(a % n, n) == Gcd(a, n)
  {
    var r, q := a % n, a / n;
    DivModIdentity(a, n);
    var g1, g2 := Gcd(a, n), Gcd(r, n);
    GcdDivides(a, n);
    GcdDivides(r, n);
    DividesShift(g1, a, n, q, r);
    DividesShift(g2, a, n, q, r);
    GcdSame(a, n, r, n);
  }

  /** When `d` divides `n`, it divides `a = n q + r` exactly when it divides `r`. */
  lemma DividesShift(d: int, a: int, n: int, q: int, r: int)
    requires d > 0 && a == n * q + r && n % d == 0
    ensures a % d == 0 <==> r % d == 0
  {
    if a % d == 0 {
      DividesLinear(d, a, n, 1, -q);
      assert a * 1 + n * -q == r;
    }
    if r % d == 0 {
      DividesLinear(d, r, n, 1, q);
      assert r * 1 + n * q == a;
    }
  }

  lemma GcdSwap(a: int, n: int)
    requires a != 0 && n != 0
    ensures Gcd(n, a) == Gcd(a, n)
  {
    GcdDivides(a, n);
    GcdDivides(n, a);
    GcdSame(a, n, n, a);
  }

  /** A divisor of an odd number is odd. */
  lemma OddDivisor(g: int, n: int)
    requires g > 0 && n % g == 0 && n % 2 == 1
    ensures g % 2 == 1
  {
    if g % 2 == 0 {
      var h, k := g / 2, n / g;
      DivModIdentity(n, g);
      assert n == (2 * h) * k;
      assert n == 2 * (h * k);
      MulMod(2, h * k);
    }
  }

  lemma GcdHalf(a: int, n: int)
    requires a % 2 == 0 && n > 0 && n % 2 == 1
    ensures Gcd(a / 2, n) == Gcd(a, n)
  {
    var h := a / 2;
    assert a % Gcd(h, n) == 0 && n % Gcd(h, n) == 0 by {
      GcdDivides(h, n);
      DividesLinear(Gcd(h, n), h, n, 2, 0);
    }
    assert h % Gcd(a, n) == 0 && n % Gcd(a, n) == 0 by {
      var g := Gcd(a, n);
      GcdDivides(a, n);
      OddDivisor(g, n);
      assert (2 * h) % g == (2 * 0) % g;
      CancelTwo(h, 0, g);
    }
    GcdSame(a, n, h, n);
  }

  lemma GcdTwo(n: int)
    requires n > 1 && n % 2 == 1
    ensures Gcd(2, n) == 1
  {
    GcdDivides(2, n);
    DivisorBound(Gcd(2, n), 2);
  }

  /** The symbol is 0 exactly when `a` and `n` have a common factor. */
  lemma {:induction false} JacobiZero(a: int, n: int)
    requires n > 0 && n % 2 == 1
    ensures Jacobi(a, n) == 0 <==> Gcd(a, n) != 1
    decreases Abs(a) + n, if a < 0 then 2 else if a < n then 1 else 0
  {
    if n == 1 {
      GcdOne(a);
    } else if a == 0 {
      assert Gcd(0, n) == Gcd(n, 0);
    } else if a == 1 {
      GcdOne(n);
    } else if a == 2 {
      GcdTwo(n);
    } else if a < 0 {
      JacobiZero(-a, n);
      GcdNegate(a, n);
    } else if a % 2 == 0 {
      JacobiZero(a / 2, n);
      GcdHalf(a, n);
    } else if a % n != a {
      ModBelow(a, n);
      JacobiZero(a % n, n);
      GcdMod(a, n);
    } else {
      JacobiZero(n, a);
      GcdSwap(a, n);
    }
  }

  /** The values the test module checks. */
  lemma JacobiExamples()
    ensures Jacobi(0, 1) == 1
    ensures Jacobi(15, 17) == 1
    ensures Jacobi(14, 17) == -1
    ensures Jacobi(30, 59) == -1
    ensures Jacobi(27, 57) == 0
  {
    assert Jacobi(15, 17) == Jacobi(17, 15) == Jacobi(2, 15) == 1;
    assert Jacobi(7, 17) == Jacobi(17, 7) == Jacobi(3, 7) == -Jacobi(7, 3) == -Jacobi(1, 3);
    assert Jacobi(14, 17) == Jacobi(2, 17) * Jacobi(7, 17);
    assert Jacobi(7, 15) == -Jacobi(15, 7) == -Jacobi(1, 7);
    assert Jacobi(14, 15) == Jacobi(2, 15) * Jacobi(7, 15) == -1;
    assert Jacobi(15, 59) == -Jacobi(59, 15) == -Jacobi(14, 15);
    assert Jacobi(30, 59) == Jacobi(2, 59) * Jacobi(15, 59);
    assert Jacobi(27, 57) == Jacobi(57, 27) == Jacobi(3, 27) == -Jacobi(27, 3) == -Jacobi(0, 3);
  }

  // ---------------------------------------------------------------------------------------------
  // Choosing D

  /** The `i`-th value `choose_d` tries: 5, -7, 9, -11, ... */
  function Candidate(i: nat): int
  {
    if i % 2 == 0 then 5 + 2 * i else -(5 + 2 * i)
  }

  /** Every candidate makes `Q = (1 - D)/4` an integer. */
  lemma CandidateModFour(i: nat)
    ensures (1 - Candidate(i)) % 4 == 0
  {
    var k := i / 2;
    DivModIdentity(i, 2);
    if i % 2 == 0 {
      assert 1 - Candidate(i) == 4 * (-(k + 1));
      MulMod(4, -(k + 1));
    } else {
      assert 1 - Candidate(i) == 4 * (k + 2);
      MulMod(4, k + 2);
    }
  }

  /** The update of `choose_d`: step away from zero by 2, then flip the sign. */
  lemma CandidateNext(i: nat)
    ensures Candidate(i + 1) == (if Candidate(i) > 0 then Candidate(i) + 2 else Candidate(i) - 2) * -1
  {
  }

  /** Candidate `i` is the first one whose symbol is -1. */
  predicate IsFirstCandidate(n: int, i: nat)
    requires n > 0 && n % 2 == 1
  {
    Jacobi(Candidate(i), n) == -1 && forall j :: 0 <= j < i ==> Jacobi(Candidate(j), n) != -1
  }

  lemma FirstCandidateUnique(n: int, i: nat, j: nat)
    requires n > 0 && n % 2 == 1 && IsFirstCandidate(n, i) && IsFirstCandidate(n, j)
    ensures i == j
  {
  }

  /** The chosen `D` is coprime to `n` and gives an integral `Q`. */
  lemma FirstCandidateUsable(n: int, i: nat)
    requires n > 0 && n % 2 == 1 && IsFirstCandidate(n, i)
    ensures Gcd(Candidate(i), n) == 1 && (1 - Candidate(i)) % 4 == 0
  {
    JacobiZero(Candidate(i), n);
    CandidateModFour(i);
  }

  /**
   * `choose_d`: the first of `max_iter` candidates whose Jacobi symbol modulo `n` is -1, or
   * `None` when there is none among them.
   */
  method ChooseD(n: int, maxIter: nat) returns (r: Option<int>)
    requires n > 0 && n % 2 == 1
    ensures r.None? <==> forall i :: 0 <= i < maxIter ==> Jacobi(Candidate(i), n) != -1
    ensures r.Some? ==> exists i :: 0 <= i < maxIter && IsFirstCandidate(n, i) && r.value == Candidate(i)
  {
    var d := 5;
    var i := 0;
    while i < maxIter
      invariant 0 <= i <= maxIter && d == Candidate(i)
      invariant forall j :: 0 <= j < i ==> Jacobi(Candidate(j), n) != -1
    {
      if Jacobi(d, n) == -1 {
        assert IsFirstCandidate(n, i);
        return Some(d);
      }
      CandidateNext(i);
      if d > 0 {
        d := d + 2;
      } else {
        d := d - 2;
      }
      d := d * -1;
      i := i + 1;
    }
    return None;
  }

  // ---------------------------------------------------------------------------------------------
  // Miller-Rabin to base 2

  /** `m = 2^s * d` with `d` odd. */
  function Decompose(m: nat): (sd: (nat, nat))
    requires m > 0
    ensures Pow(2, sd.0) * sd.1 == m && sd.1 % 2 == 1
  {
    if m % 2 == 0 then
      var (s, d) := Decompose(m / 2);
      assert Pow(2, s + 1) * d == 2 * (Pow(2, s) * d);
      (s + 1, d)
    else (0, m)
  }

  /**
   * The squaring loop after the first power: square `x` modulo `n` up to `steps` times, failing
   * on 1 and succeeding on `n - 1`.
   */
  function Squarings(x: int, n: int, steps: nat): bool
    requires n > 0
    decreases steps
  {
    if steps == 0 then false
    else
      var y := (x * x) % n;
      if y == 1 then false else if y == n - 1 then true else Squarings(y, n, steps - 1)
  }

  /** What `passes_miller_rabin_base_2` computes, for `n >= 2`. */
  predicate MillerRabin(n: int)
    requires n >= 2
  {
    var (s, d) := Decompose(n - 1);
    var x := Pow(2, d) % n;
    x == 1 || x == n - 1 || Squarings(x, n, if s >= 1 then s - 1 else 0)
  }

  /**
   * `passes_miller_rabin_base_2`: write `n - 1 = 2^r * d`, then test `2^d` and its repeated
   * squares modulo `n`.
   */
  method PassesMillerRabinBase2(n: int) returns (b: bool)
    requires n >= 2
    ensures b == MillerRabin(n)
  {
    var d: nat := n - 1;
    var r: nat := 0;
    while d % 2 == 0
      invariant d > 0 && Decompose(n - 1) == (r + Decompose(d).0, Decompose(d).1)
      decreases d
    {
      d := d / 2;
      r := r + 1;
    }
    var x := Pow(2, d) % n;
    if x == 1 || x == n - 1 {
      return true;
    }
    var steps: nat := if r >= 1 then r - 1 else 0;
    var i := 0;
    while i < steps
      invariant 0 <= i <= steps
      invariant MillerRabin(n) == Squarings(x, n, steps - i)
    {
      x := (x * x) % n;
      if x == 1 {
        return false;
      }
      if x == n - 1 {
        return true;
      }
      i := i + 1;
    }
    return false;
  }

  /** `d * 2^i`, the exponent of the `i`-th square. */
  function SquareExponent(d: nat, i: nat): (e: nat)
    ensures e == d * Pow(2, i)
  {
    if i == 0 then d else 2 * SquareExponent(d, i - 1)
  }

  /** `2^(d * 2^i) mod n`. */
  function Witness(n: int, d: nat, i: nat): int
    requires n > 0
  {
    Pow(2, SquareExponent(d, i)) % n
  }

  /**
   * The strong probable-prime condition to base 2 (FIPS 186-4, Appendix C.3.1): with
   * `n - 1 = 2^s * d`, `d` odd, either `2^d == 1` or `2^(d * 2^i) == n - 1` for some `i < s`.
   */
  predicate StrongProbablePrime(n: int)
    requires n >= 2
  {
    var (s, d) := Decompose(n - 1);
    Witness(n, d, 0) == 1 || exists i :: 0 <= i < s && Witness(n, d, i) == n - 1
  }

  lemma WitnessSquare(n: int, d: nat, i: nat)
    requires n > 0
    ensures Witness(n, d, i + 1) == (Witness(n, d, i) * Witness(n, d, i)) % n
  {
    var e := SquareExponent(d, i);
    var p := Pow(2, e);
    PowAdd(2, e, e);
    ModOfMod(p, n);
    ModMul(p % n, p % n, p, p, n);
  }

  lemma {:induction false} OnesStay(n: int, d: nat, i: nat, j: nat)
    requires n >= 2 && i <= j && Witness(n, d, i) == 1
    ensures Witness(n, d, j) == 1
    decreases j - i
  {
    if i < j {
      OnesStay(n, d, i, j - 1);
      WitnessSquare(n, d, j - 1);
      DivModUnique(1, n, 0, 1);
    }
  }

  /** The squaring loop succeeds exactly when one of the next `steps` squares is `n - 1`. */
  lemma {:induction false} SquaringsFind(n: int, d: nat, i: nat, steps: nat)
    requires n >= 3
    ensures Squarings(Witness(n, d, i), n, steps) <==>
      exists j :: i < j <= i + steps && Witness(n, d, j) == n - 1
    decreases steps
  {
    if steps > 0 {
      WitnessSquare(n, d, i);
      var y := Witness(n, d, i + 1);
      if y == 1 {
        forall j | i < j <= i + steps
          ensures Witness(n, d, j) == 1
        {
          OnesStay(n, d, i + 1, j);
        }
      } else if y != n - 1 {
        SquaringsFind(n, d, i + 1, steps - 1);
      }
    }
  }

  /** An even `n` never passes: `2^(n-1) mod n` is even, while 1 and `n - 1` are odd. */
  lemma MillerRabinRejectsEven(n: int)
    requires n >= 2 && n % 2 == 0
    ensures !MillerRabin(n) && !StrongProbablePrime(n)
  {
    var (s, d) := Decompose(n - 1);
    assert s == 0 && d == n - 1;
    var p := Pow(2, d);
    assert p == 2 * Pow(2, d - 1);
    var x := p % n;
    DivModIdentity(p, n);
    var k := Pow(2, d - 1) - (n / 2) * (p / n);
    assert x == 2 * k by {
      assert n * (p / n) == 2 * ((n / 2) * (p / n));
    }
    MulMod(2, k);
    assert Witness(n, d, 0) == x;
  }

  /** Base-2 Miller-Rabin is the strong probable-prime test to base 2. */
  lemma MillerRabinIsStrong(n: int)
    requires n >= 2
    ensures MillerRabin(n) == StrongProbablePrime(n)
  {
    if n % 2 == 0 {
      MillerRabinRejectsEven(n);
    } else {
      var (s, d) := Decompose(n - 1);
      var x := Witness(n, d, 0);
      assert x == Pow(2, d) % n;
      assert s >= 1;
      SquaringsFind(n, d, 0, s - 1);
      if x == n - 1 {
        assert 0 <= 0 < s && Witness(n, d, 0) == n - 1;
      } else if x != 1 {
        if Squarings(x, n, s - 1) {
          var j :| 0 < j <= s - 1 && Witness(n, d, j) == n - 1;
          assert 0 <= j < s;
        }
        if exists i :: 0 <= i < s && Witness(n, d, i) == n - 1 {
          var i :| 0 <= i < s && Witness(n, d, i) == n - 1;
          assert 0 < i <= s - 1;
        }
      }
    }
  }

  /** The values the test module checks: 13 passes, 65 does not. */
  lemma MillerRabinExamples()
    ensures MillerRabin(13)
    ensures !MillerRabin(65)
  {
    assert Decompose(3) == (0, 3);
    assert Decompose(12) == (2, 3);
    assert Pow(2, 3) == 8;
    assert Squarings(8, 13, 1);
    assert Decompose(1) == (0, 1);
    assert Decompose(64) == (6, 1);
    assert Squarings(16, 65, 3) == Squarings(61, 65, 2) == Squarings(16, 65, 1) == Squarings(61, 65, 0);
    assert !Squarings(2, 65, 5);
  }

  // ---------------------------------------------------------------------------------------------
  // The whole test

  /** The small-prime loop: `Some(n == p)` for the first listed `p` dividing `n`, else `None`. */
  function SmallPrimeVerdict(ps: seq<int>, n: nat): Option<bool>
    requires forall i :: 0 <= i < |ps| ==> ps[i] >= 2
  {
    if |ps| == 0 then None
    else if n % ps[0] == 0 then Some(n == ps[0])
    else SmallPrimeVerdict(ps[1..], n)
  }

  /** The verdict names the first listed divisor, and there is none when it is `None`. */
  lemma {:induction false} SmallPrimeVerdictFirst(ps: seq<int>, n: nat)
    requires forall i :: 0 <= i < |ps| ==> ps[i] >= 2
    ensures SmallPrimeVerdict(ps, n).None? <==> forall i :: 0 <= i < |ps| ==> n % ps[i] != 0
    ensures SmallPrimeVerdict(ps, n).Some? ==>
      exists i :: 0 <= i < |ps| && n % ps[i] == 0 && (forall j :: 0 <= j < i ==> n % ps[j] != 0) &&
        SmallPrimeVerdict(ps, n).value == (n == ps[i])
  {
    if |ps| > 0 {
      if n % ps[0] == 0 {
        assert n % ps[0] == 0;
      } else {
        SmallPrimeVerdictFirst(ps[1..], n);
        assert forall i :: 1 <= i < |ps| ==> ps[i] == ps[1..][i - 1];
        if SmallPrimeVerdict(ps[1..], n).Some? {
          var i :| 0 <= i < |ps| - 1 && n % ps[1..][i] == 0 && (forall j :: 0 <= j < i ==> n % ps[1..][j] != 0) &&
            SmallPrimeVerdict(ps[1..], n).value == (n == ps[1..][i]);
          assert n % ps[i + 1] == 0 && forall j :: 0 <= j < i + 1 ==> n % ps[j] != 0;
        }
      }
    }
  }

  /** A prime is rejected by the small-prime loop only if it is not listed, never by a divisor. */
  lemma PrimeSurvivesSmallPrimes(ps: seq<int>, n: nat)
    requires forall i :: 0 <= i < |ps| ==> ps[i] >= 2
    requires IsPrime(n)
    ensures SmallPrimeVerdict(ps, n) != Some(false)
  {
    SmallPrimeVerdictFirst(ps, n);
    if SmallPrimeVerdict(ps, n).Some? {
      var i :| 0 <= i < |ps| && n % ps[i] == 0 && SmallPrimeVerdict(ps, n).value == (n == ps[i]);
      if ps[i] > n {
        DivModUnique(n, ps[i], 0, n);
      }
    }
  }

  /** The Lucas test accepts `n` for `D`: `n` divides `U_{n+1}(1, (1 - D)/4)`. */
  predicate LucasAccepts(n: int, d: int)
    requires n > 0
  {
    Lucas.U(1, (1 - d) / 4, n + 1) % n == 0
  }

  /**
   * What `is_prob_prime` decides, with `n < 2` rejected after the small-prime loop (see
   * `HalvingLoop` for the source's behaviour there).
   */
  predicate ProbPrime(ps: seq<int>, n: nat)
    requires forall i :: 0 <= i < |ps| ==> ps[i] >= 2
  {
    match SmallPrimeVerdict(ps, n)
    case Some(b) => b
    case None =>
      n >= 2 && MillerRabin(n) && n % 2 == 1 &&
      exists i :: 0 <= i < MaxJacobiIters && IsFirstCandidate(n, i) && LucasAccepts(n, Candidate(i))
  }

  /**
   * `is_prob_prime`: trial division, Miller-Rabin to base 2, then the Lucas test with the first
   * `D` of symbol -1, rejecting when none is found among `MAX_JACOBI_ITERS` candidates.
   */
  method IsProbPrime(ps: seq<int>, n: nat) returns (r: bool)
    requires forall i :: 0 <= i < |ps| ==> ps[i] >= 2
    ensures r == ProbPrime(ps, n)
    ensures n < 2 ==> !r
  {
    var i := 0;
    while i < |ps|
      invariant 0 <= i <= |ps|
      invariant SmallPrimeVerdict(ps, n) == SmallPrimeVerdict(ps[i..], n)
    {
      if n % ps[i] == 0 {
        return n == ps[i];
      }
      assert ps[i..][1..] == ps[i + 1..];
      i := i + 1;
    }
    if n < 2 {
      return false;
    }
    var mr := PassesMillerRabinBase2(n);
    if !mr {
      return false;
    }
    if n % 2 == 0 {
      MillerRabinRejectsEven(n);
    }
    var d := ChooseD(n, MaxJacobiIters);
    if d.None? {
      return false;
    }
    ghost var k :| 0 <= k < MaxJacobiIters && IsFirstCandidate(n, k) && d.value == Candidate(k);
    CandidateModFour(k);
    r := Lucas.PassesLucas(n, d.value);
    forall j | 0 <= j < MaxJacobiIters && IsFirstCandidate(n, j)
      ensures j == k
    {
      FirstCandidateUnique(n, j, k);
    }
  }

  /**
   * What acceptance means for a number no listed prime divides: it is odd, a strong probable
   * prime to base 2, and the Lucas test accepts it for a `D` coprime to it.
   */
  lemma ProbPrimeMeans(ps: seq<int>, n: nat)
    requires forall i :: 0 <= i < |ps| ==> ps[i] >= 2
    requires ProbPrime(ps, n) && forall i :: 0 <= i < |ps| ==> n % ps[i] != 0
    ensures n >= 3 && n % 2 == 1 && StrongProbablePrime(n)
    ensures exists d :: Gcd(d, n) == 1 && (1 - d) % 4 == 0 && LucasAccepts(n, d)
  {
    SmallPrimeVerdictFirst(ps, n);
    MillerRabinIsStrong(n);
    var i :| 0 <= i < MaxJacobiIters && IsFirstCandidate(n, i) && LucasAccepts(n, Candidate(i));
    FirstCandidateUsable(n, i);
  }

  // ---------------------------------------------------------------------------------------------
  // The source at n = 1

  /**
   * The halving loop of `passes_miller_rabin_base_2` as written, started at `d = n - 1` and
   * allowed `fuel` rounds: `None` when it has not stopped by then.
   */
  function HalvingLoop(d: nat, fuel: nat): (r: Option<(nat, nat)>)
    ensures r.Some? ==> r.value.1 % 2 == 1
  {
    if d % 2 != 0 then Some((0, d))
    else if fuel == 0 then None
    else match HalvingLoop(d / 2, fuel - 1)
      case None => None
      case Some((s, e)) => Some((s + 1, e))
  }

  /** From a positive start the loop stops within `d` rounds, at `Decompose(d)`. */
  lemma {:induction false} HalvingLoopStops(d: nat, fuel: nat)
    requires d > 0 && fuel >= d
    ensures HalvingLoop(d, fuel) == Some(Decompose(d))
  {
    if d % 2 == 0 {
      HalvingLoopStops(d / 2, fuel - 1);
    }
  }

  /**
   * `is_prob_prime(1)` as written: every listed prime leaves remainder 1, and the halving loop
   * starts at `d = 0`, which stays even and 0 however many rounds it runs.
   */
  lemma {:induction false} OneNeverLeavesLoop(ps: seq<int>, fuel: nat)
    requires forall i :: 0 <= i < |ps| ==> ps[i] >= 2
    ensures SmallPrimeVerdict(ps, 1) == None && HalvingLoop(1 - 1, fuel) == None
  {
    SmallPrimeVerdictFirst(ps, 1);
    forall i | 0 <= i < |ps|
      ensures 1 % ps[i] != 0
    {
      DivModUnique(1, ps[i], 0, 1);
    }
    if fuel > 0 {
      OneNeverLeavesLoop(ps, fuel - 1);
    }
  }
}
