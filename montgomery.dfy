/**
 * The Montgomery reducer of src/u256.rs with `r = 2^256`: a value `x` modulo an odd `m` is
 * represented by `x * r mod m`, and `mul_mod_` multiplies two representatives with REDC, which
 * divides by `r` instead of by `m`. The reducer is built once by `new` and read by the other
 * operations, so it is a value here; `exp_mod_` is a square-and-multiply loop.
 *
 * The reducer's fields and the `Reduced` representatives are the values of the U256 and U512
 * numbers that hold them (module U256 proves the limb operations equal to those values). The
 * arithmetic facts come first, on plain integers; the operations follow. The reducer of
 * src/i256.rs shares `new` and `mul_mod_` with this one; module I256 models its `reduce`,
 * `unreduce` and `exp_mod_`, which differ.
 */
module Montgomery {
  import opened Wrappers
  import opened Arith
  import opened Limbs

  /**
   * `r = 2^256`: one more than the largest U256, `Radix(4)`. The four limbs are counted from a
   * sequence so that the solver keeps `R` as a name rather than expanding its 78 digits, which
   * makes its nonlinear reasoning about `R` unstable; `RadixFacts` gives the value.
   */
  const R: nat := Radix(|[0, 0, 0, 0]|)

  lemma RadixFacts()
    ensures R == Radix(4) == Pow(2, 256) && R % 2 == 0 && R > 4
  {
    assert |[0, 0, 0, 0]| == 4;
    RadixIsPowerOfTwo(4);
  }

  // REDC on integers. With `k * m == r * rInv - 1` (so `k * m == -1` modulo `r`), the number
  // `t = (c mod r) * k mod r` makes `c + t * m` a multiple of `r`, and the quotient is congruent
  // to `c * rInv` modulo `m`.

  /** The `temp` of `mul_mod_`. */
  function RedcTemp(c: nat, k: nat): (t: nat)
    ensures t < R
  {
    ((c % R) * k) % R
  }

  /** `c + t * m` is a multiple of `r`. */
  lemma RedcExact(c: nat, k: nat, m: nat, rInv: nat)
    requires k * m == R * rInv - 1
    ensures c + RedcTemp(c, k) * m == R * ((c + RedcTemp(c, k) * m) / R)
  {
    var cl, ch := c % R, c / R;
    var q, t := (cl * k) / R, (cl * k) % R;
    DivModIdentity(c, R);
    DivModIdentity(cl * k, R);
    RedcAlgebra(R, c, cl, ch, k, q, t, m, rInv);
    RadixFacts();
    DivModUnique(c + t * m, R, ch + cl * rInv - q * m, 0);
  }

  /** The ring identity behind `RedcExact`, for any `r`. */
  lemma RedcAlgebra(r: int, c: int, cl: int, ch: int, k: int, q: int, t: int, m: int, rInv: int)
    requires c == r * ch + cl && cl * k == r * q + t && k * m == r * rInv - 1
    ensures c + t * m == r * (ch + cl * rInv - q * m)
  {
    calc {
      c + t * m;
      r * ch + cl + (cl * k - r * q) * m;
      { assert (cl * k - r * q) * m == cl * (k * m) - r * q * m; }
      r * ch + cl + cl * (r * rInv - 1) - r * q * m;
      { assert cl * (r * rInv - 1) == r * (cl * rInv) - cl; }
      r * (ch + cl * rInv - q * m);
    }
  }

  /** The REDC quotient is congruent to `c * rInv` modulo `m`. */
  lemma RedcCongruent(c: nat, t: nat, m: nat, rInv: nat, u: int)
    requires m > 0 && (R * rInv) % m == 1 && c + t * m == R * u
    ensures u % m == (c * rInv) % m
  {
    assert (R * u) % m == c % m by {
      ModShift(c, t, m);
    }
    ModOfMod(rInv, m);
    ModMul(R * u, rInv, c, rInv, m);
    assert (R * u) * rInv == u * (R * rInv);
    ModOfMod(u, m);
    DivModUnique(1, m, 0, 1);
    ModMul(u, R * rInv, u, 1, m);
  }

  /** For factors below `m < r`, the REDC quotient is below `2 * m`. */
  lemma RedcBound(c: nat, t: nat, m: nat, u: int)
    requires 0 < m < R && c < m * m && t < R && c + t * m == R * u
    ensures 0 <= u < 2 * m
  {
    MulLeq(m, t, R - 1);
    assert m * (R - 1) == R * m - m;
    assert m * m < R * m by {
      MulLeq(m, m, R - 1);
    }
    var s: nat := c + t * m;
    assert s < (2 * m) * R;
    DivBelow(s, R, 2 * m);
    Arith.MulMod(R, u);
  }

  /** For factors below `m`, the sum stays below `2^512` when `m` is at most `r / 2`. */
  lemma RedcSumFits(c: nat, t: nat, m: nat)
    requires 0 < m && 2 * m <= R && c < m * m && t < R
    ensures c + t * m < R * R
  {
    MulLeq(m, t, R - 1);
    MulLeq(m, m, R);
    MulLeq(R, 2 * m, R);
    assert m * R == R * m;
  }

  /** `2^256` has an inverse modulo every odd `m >= 3`: `((m + 1) / 2)^256`. */
  lemma OddModulusInvertible(m: nat)
    requires m >= 3 && m % 2 == 1
    ensures Gcd(R % m, m) == 1
  {
    RadixFacts();
    HalfPowerInverse(m, 256);
    CoprimeFromInverse(R, m, Pow((m + 1) / 2, 256));
  }

  /** `2^e * ((m + 1) / 2)^e == (m + 1)^e`, which is 1 modulo an odd `m`. */
  lemma HalfPowerInverse(m: nat, e: nat)
    requires m >= 3 && m % 2 == 1
    ensures (Pow(2, e) * Pow((m + 1) / 2, e)) % m == 1
  {
    PowProduct(2, (m + 1) / 2, e);
    assert 2 * ((m + 1) / 2) == m + 1;
    PowMod(m + 1, e, m);
    ModShift(1, 1, m);
    DivModUnique(1, m, 0, 1);
    PowOne(e);
  }

  /** A number with an inverse modulo `m` leaves a remainder coprime to `m`. */
  lemma CoprimeFromInverse(a: int, m: int, inv: int)
    requires m > 1 && (a * inv) % m == 1
    ensures Gcd(a % m, m) == 1
  {
    var g := Gcd(a % m, m);
    GcdDivides(a % m, m);
    GcdPositive(a % m, m);
    var q := a / m;
    assert a % g == 0 by {
      DivModIdentity(a, m);
      DividesLinear(g, m, a % m, q, 1);
      assert m * q + (a % m) * 1 == a;
    }
    var ai := a * inv;
    var j := ai / m;
    assert ai + m * (-j) == 1 by {
      DivModIdentity(ai, m);
    }
    DividesLinear(g, a, m, inv, -j);
    DivisorBound(g, 1);
  }

  lemma {:induction false} PowProduct(a: int, b: int, e: nat)
    ensures Pow(a * b, e) == Pow(a, e) * Pow(b, e)
  {
    if e > 0 {
      PowProduct(a, b, e - 1);
      assert Pow(a * b, e) == (a * b) * (Pow(a, e - 1) * Pow(b, e - 1));
    }
  }

  lemma {:induction false} PowOne(e: nat)
    ensures Pow(1, e) == 1
  {
    if e > 0 {
      PowOne(e - 1);
    }
  }

  // The reducer. Its fields are U256 values (`k` is stored in a U512 but is below `r`), and each
  // operation below is the value the U256 and U512 operations of the source compute (module
  // U256 proves those values); the one of them that can panic, the U512 addition, is explicit.

  /**
   * `MontgomeryReducer`: the modulus, `rInv = r^-1 mod m`, `k = (r * rInv - 1) / m`, and the
   * representatives of 1 and of -1. The `Reduced` wrapper of the source is the value it wraps.
   */
  datatype Reducer = Reducer(m: nat, rInv: nat, k: nat, oneReduced: nat, minusOneReduced: nat)

  /**
   * The part of what `new` establishes that REDC relies on: `rInv` is the inverse of `r` modulo
   * `m`, witnessed by `k`.
   */
  predicate Inverts(red: Reducer)
  {
    3 <= red.m < R && red.rInv < red.m && red.k * red.m == R * red.rInv - 1
  }

  /** What `new` establishes about the fields. */
  predicate Valid(red: Reducer)
  {
    Inverts(red)
    && red.oneReduced == R % red.m && red.minusOneReduced == ((red.m - 1) * R) % red.m
  }

  /** `r * rInv` leaves remainder 1 modulo `m`. */
  lemma InverseModulo(red: Reducer)
    requires Inverts(red)
    ensures (R * red.rInv) % red.m == 1
  {
    DivModUnique(R * red.rInv, red.m, red.k, 1);
  }

  /** `k` fits in 256 bits, although it is stored in a U512. */
  lemma KBelowR(red: Reducer)
    requires Inverts(red)
    ensures red.k < R
  {
    var m, rInv := red.m, red.rInv;
    MulLeq(R, rInv, m - 1);
    assert R * (m - 1) == R * m - R;
    if red.k >= R {
      MulLeq(m, R, red.k);
    }
  }

  /**
   * `new`: asserts that `m` is odd and at least 3, then sets `rInv` to `mod_inv(r % m, m)` (GMP's
   * `mpz_invert`, asserted to succeed), `k` to `((rInv << 256) - 1) / m` and the two
   * representatives. `r * rInv - 1` fits in a U512, so none of these operations overflows, and
   * the inverse always exists for such `m`.
   */
  function New(m: nat): (r: Option<Reducer>)
    requires m < R
    ensures r.Some? <==> m % 2 == 1 && m >= 3
    ensures r.Some? ==> r.value.m == m && Valid(r.value)
  {
    if m % 2 != 1 || m < 3 then None
    else
      var rInv := InverseOfR(m);
      MulLeq(R, 1, rInv);
      var k := (R * rInv - 1) / m;
      ExactDivision(R * rInv - 1, m, k);
      Some(Reducer(m, rInv, k, R % m, ((m - 1) * R) % m))
  }

  /** `(r % m).mod_inv(m)`: the inverse exists for every odd `m >= 3`, so the assert holds. */
  function InverseOfR(m: nat): (rInv: nat)
    requires m >= 3 && m % 2 == 1
    ensures 0 < rInv < m && (R * rInv) % m == 1
  {
    var rm := R % m;
    OddModulusInvertible(m);
    var rInv := ModInverse(rm, m);
    ModOfMod(R, m);
    ModMul(rm, rInv, R, rInv, m);
    DivModUnique(0, m, 0, 0);
    rInv
  }

  /** When `x + 1` leaves remainder 1, `d` divides `x` exactly. */
  lemma ExactDivision(x: int, d: int, q: int)
    requires d > 1 && (x + 1) % d == 1 && q == x / d
    ensures q * d == x
  {
    DivModUnique(1, d, 0, 1);
    CongruentIff(x + 1, 1, d);
    DivModIdentity(x, d);
  }

  /** `reduce`: `(u512(a) << 256) % m`, the representative `a * r mod m`. */
  function Reduce(red: Reducer, a: nat): (r: nat)
    requires Inverts(red) && a < R
    ensures r < red.m
  {
    (a * R) % red.m
  }

  /** `unreduce`: `(a * rInv) % m`, the value a representative stands for. */
  function Unreduce(red: Reducer, a: nat): (r: nat)
    requires Inverts(red)
    ensures r < red.m
  {
    (a * red.rInv) % red.m
  }

  /** Multiplying by `r` and by `rInv` cancels modulo `m`. */
  lemma CancelR(red: Reducer, x: int)
    requires Inverts(red)
    ensures (x * (R * red.rInv)) % red.m == x % red.m
  {
    InverseModulo(red);
    ModOfMod(R * red.rInv, red.m);
    DivModUnique(1, red.m, 0, 1);
    ModMul(x, R * red.rInv, x, 1, red.m);
  }

  /** `unreduce(reduce(a)) == a mod m`. */
  lemma ReduceRoundTrip(red: Reducer, a: nat)
    requires Inverts(red) && a < R
    ensures Unreduce(red, Reduce(red, a)) == a % red.m
  {
    var m := red.m;
    ModOfMod(a * R, m);
    ModOfMod(red.rInv, m);
    ModMul(Reduce(red, a), red.rInv, a * R, red.rInv, m);
    MulAssoc(a, R, red.rInv);
    CancelR(red, a);
  }

  /** `reduce(unreduce(x)) == x` for every representative `x < m`. */
  lemma UnreduceRoundTrip(red: Reducer, x: nat)
    requires Inverts(red) && x < red.m
    ensures Reduce(red, Unreduce(red, x)) == x
  {
    var m := red.m;
    ModOfMod(x * red.rInv, m);
    ModOfMod(R, m);
    ModMul(Unreduce(red, x), R, x * red.rInv, R, m);
    MulRotate(x, red.rInv, R);
    CancelR(red, x);
    DivModUnique(x, m, 0, x);
  }

  /** `one_reduced` and `minus_one_reduced` represent 1 and `m - 1`. */
  lemma ReducedConstants(red: Reducer)
    requires Valid(red)
    ensures red.oneReduced == Reduce(red, 1) && Unreduce(red, red.oneReduced) == 1
    ensures red.minusOneReduced == Reduce(red, red.m - 1)
    ensures Unreduce(red, red.minusOneReduced) == red.m - 1
  {
    ReduceRoundTrip(red, 1);
    DivModUnique(1, red.m, 0, 1);
    ReduceRoundTrip(red, red.m - 1);
    DivModUnique(red.m - 1, red.m, 0, red.m - 1);
  }

  /**
   * `mul_mod_` with the sum `c + temp * m` kept whole: REDC of `a * b`, then one conditional
   * subtraction of `m`. For representatives `a, b < m` the quotient is below `2 * m`, so the
   * result is again a representative, and it is `a * b * rInv mod m`.
   */
  function MulReduced(red: Reducer, a: nat, b: nat): (r: nat)
    requires Inverts(red) && a < red.m && b < red.m
    ensures r < red.m && r == (a * b * red.rInv) % red.m
  {
    MulBelow(a, b, red.m, red.m);
    var u := RedcQuotient(red, a * b);
    SubtractOnce(u, red.m);
    if u < red.m then u else u - red.m
  }

  /**
   * The REDC quotient `(c + temp * m) >> 256` of a product `c` of two representatives: it is
   * below `2 * m` and congruent to `c * rInv`.
   */
  function RedcQuotient(red: Reducer, c: nat): (u: nat)
    requires Inverts(red) && c < red.m * red.m
    ensures u < 2 * red.m && u % red.m == (c * red.rInv) % red.m
  {
    RedcQuotientExact(red, c);
    (c + RedcTemp(c, red.k) * red.m) / R
  }

  /** The sum `c + temp * m` is exactly `r` times the REDC quotient, which is below `2 * m`. */
  lemma RedcQuotientExact(red: Reducer, c: nat)
    requires Inverts(red) && c < red.m * red.m
    ensures var u := (c + RedcTemp(c, red.k) * red.m) / R;
      c + RedcTemp(c, red.k) * red.m == R * u && 0 <= u < 2 * red.m
      && u % red.m == (c * red.rInv) % red.m
  {
    var t := RedcTemp(c, red.k);
    InverseModulo(red);
    RedcExact(c, red.k, red.m, red.rInv);
    var u := (c + t * red.m) / R;
    RedcCongruent(c, t, red.m, red.rInv, u);
    RedcBound(c, t, red.m, u);
  }

  /** One conditional subtraction brings `u < 2 * m` below `m`, which is `u mod m`. */
  lemma SubtractOnce(u: nat, m: nat)
    requires 0 < m && u < 2 * m
    ensures (if u < m then u else u - m) == u % m
  {
    if u < m {
      DivModUnique(u, m, 0, u);
    } else {
      DivModUnique(u, m, 1, u - m);
    }
  }

  /**
   * `mul_mod_` as written: `c + temp * m` is a U512 addition, which panics (`None`) when the sum
   * reaches `2^512`; otherwise `(sum >> 256).low_u256()` is the quotient, and `m` is subtracted
   * once if it is not below `m`. It reads only the fields, so it needs nothing of them.
   */
  function MulReducedAsWritten(red: Reducer, a: nat, b: nat): (r: Option<nat>)
    ensures r.None? <==> R * R <= a * b + RedcTemp(a * b, red.k) * red.m
  {
    var c := a * b;
    var s := c + RedcTemp(c, red.k) * red.m;
    if s >= R * R then None
    else
      var u := (s / R) % R;
      Some(if u < red.m then u else u - red.m)
  }

  /** Where `mul_mod_` as written returns, it agrees with `MulReduced`. */
  lemma MulReducedAsWrittenAgrees(red: Reducer, a: nat, b: nat)
    requires Inverts(red) && a < red.m && b < red.m
    ensures MulReducedAsWritten(red, a, b).Some? ==>
      MulReducedAsWritten(red, a, b).value == MulReduced(red, a, b)
  {
    var c := a * b;
    var s := c + RedcTemp(c, red.k) * red.m;
    if s < R * R {
      MulBelow(a, b, red.m, red.m);
      RedcQuotientExact(red, c);
      QuotientBelowR(s, RedcQuotient(red, c));
    }
  }

  /** A multiple `s = r * q` of `r` below `r^2` has `(s / r) mod r == q`. */
  lemma QuotientBelowR(s: nat, q: nat)
    requires s == R * q && s < R * R
    ensures (s / R) % R == q
  {
    RadixFacts();
    DivModUnique(s, R, q, 0);
    if q >= R {
      MulLeq(R, R, q);
    }
    DivModUnique(q, R, 0, q);
  }

  /** The addition cannot overflow when `m` is at most `2^255`. */
  lemma MulReducedAsWrittenSafe(red: Reducer, a: nat, b: nat)
    requires a < red.m && b < red.m && 2 * red.m <= R
    ensures MulReducedAsWritten(red, a, b).Some?
  {
    MulBelow(a, b, red.m, red.m);
    RedcSumFits(a * b, RedcTemp(a * b, red.k), red.m);
  }

  /**
   * For `m = 2^256 - 1` the reducer has `rInv = k = 1`, and `a = b = m - 1` gives `c = (r - 2)^2`,
   * `temp = 4` and `c + temp * m = r^2`: the addition overflows and `mul_mod_` panics, where the
   * intended product is 1.
   */
  lemma MulReducedOverflows(red: Reducer)
    requires Inverts(red) && red.m == R - 1
    ensures MulReducedAsWritten(red, R - 2, R - 2).None?
    ensures MulReduced(red, R - 2, R - 2) == 1
  {
    var m := red.m;
    AllOnesConstants(red);
    var c := (R - 2) * (R - 2);
    SquareBelowR(R);
    DivModUnique(c, R, R - 4, 4);
    assert RedcTemp(c, red.k) == 4 by {
      DivModUnique(4, R, 0, 4);
    }
    assert c + 4 * m == R * R;
    assert c * red.rInv == (m - 2) * m + 1;
    DivModUnique(c * red.rInv, m, m - 2, 1);
  }

  /** For `m = r - 1`: `r` leaves 1, so `rInv == 1`, and `k * m == r - 1` gives `k == 1`. */
  lemma AllOnesConstants(red: Reducer)
    requires Inverts(red) && red.m == R - 1
    ensures red.rInv == 1 && red.k == 1
  {
    var m, ri := red.m, red.rInv;
    RadixFacts();
    InverseModulo(red);
    assert R * ri == ri * m + ri;
    DivModUnique(R * ri, m, ri, ri);
    assert red.k * m == m;
    if red.k == 0 {
    } else if red.k >= 2 {
      MulLeq(m, 2, red.k);
    }
  }

  /** `(r - 2)^2 == (r - 4) * r + 4`. */
  lemma SquareBelowR(r: int)
    ensures (r - 2) * (r - 2) == (r - 4) * r + 4
  {
  }

  /** `new(2^256 - 1)` succeeds, so the reducer of `MulReducedOverflows` exists. */
  lemma AllOnesModulusAccepted()
    ensures New(R - 1).Some? && New(R - 1).value.m == R - 1
  {
    RadixFacts();
    assert (R - 1) % 2 == 1 by {
      DivModUnique(R - 1, 2, R / 2 - 1, 1);
    }
  }

  /** Representatives multiply like the values they stand for. */
  lemma MulReducedHomomorphic(red: Reducer, a: nat, b: nat)
    requires Inverts(red) && a < red.m && b < red.m
    ensures Unreduce(red, MulReduced(red, a, b)) == (Unreduce(red, a) * Unreduce(red, b)) % red.m
  {
    var m, ri := red.m, red.rInv;
    var p, x, y := a * b * ri, a * ri, b * ri;
    MulSwap(a, b, ri);
    var q := MulReduced(red, a, b);
    assert q == p % m;
    DivModUnique(ri, m, 0, ri);
    calc {
      Unreduce(red, q);
      (q * ri) % m;
      ((p % m) * (ri % m)) % m;
      { ModProduct(p, ri, m); }
      (x * y) % m;
      { ModProduct(x, y, m); }
      ((x % m) * (y % m)) % m;
    }
  }

  lemma MulRotate(a: int, b: int, c: int)
    ensures a * b * c == a * (c * b)
  {
  }

  lemma MulAssoc(a: int, b: int, c: int)
    ensures a * (b * c) == a * b * c
  {
  }

  /** `(a * b * c) * c == (a * c) * (b * c)`. */
  lemma MulSwap(a: int, b: int, c: int)
    ensures (a * b * c) * c == (a * c) * (b * c)
  {
  }

  /** One square-and-multiply step: an exponent `2 * q + bit` splits into `bit` and the square. */
  lemma PowHalve(x: int, e: nat)
    ensures Pow(x, e) == Pow(x, e % 2) * Pow(x * x, e / 2)
  {
    PowAdd(x, e % 2, 2 * (e / 2));
    PowMul(x, 2, e / 2);
    assert Pow(x, 2) == x * x;
  }

  /** The loop invariant of `exp_mod_` survives one iteration. */
  lemma ExpStep(red: Reducer, out: nat, base: nat, e: nat, goal: int)
    requires Inverts(red) && out < red.m && base < red.m && e > 0
    requires (Unreduce(red, out) * Pow(Unreduce(red, base), e)) % red.m == goal
    ensures var out' := if e % 2 == 1 then MulReduced(red, out, base) else out;
      (Unreduce(red, out') * Pow(Unreduce(red, MulReduced(red, base, base)), e / 2)) % red.m == goal
  {
    var m := red.m;
    var o, x := Unreduce(red, out), Unreduce(red, base);
    var sq := Unreduce(red, MulReduced(red, base, base));
    MulReducedHomomorphic(red, base, base);
    assert sq == (x * x) % m;
    PowMod(x * x, e / 2, m);
    var h := Pow(x * x, e / 2);
    PowHalve(x, e);
    ModOfMod(h, m);
    if e % 2 == 1 {
      MulReducedHomomorphic(red, out, base);
      ModOfMod(o * x, m);
      ModMul(Unreduce(red, MulReduced(red, out, base)), Pow(sq, e / 2), o * x, h, m);
      assert Pow(x, e % 2) == x by {
        assert Pow(x, 1) == x * Pow(x, 0);
      }
      var px := Pow(x, e);
      assert px == x * h;
      MulAssoc(o, x, h);
    } else {
      ModOfMod(o, m);
      ModMul(o, Pow(sq, e / 2), o, h, m);
      assert Pow(x, e % 2) == 1;
      assert o * Pow(x, e) == o * h;
    }
  }

  /**
   * `exp_mod_`: square-and-multiply over the bits of `n`, from the least significant one, on
   * representatives. The result represents `unreduce(a)^n mod m`.
   */
  method ExpModReduced(red: Reducer, a: nat, n: nat) returns (out: nat)
    requires Valid(red) && a < red.m && n < R
    ensures out < red.m && Unreduce(red, out) == Pow(Unreduce(red, a), n) % red.m
  {
    ReducedConstants(red);
    ghost var goal := Pow(Unreduce(red, a), n) % red.m;
    var base: nat, e: nat := a, n;
    out := red.oneReduced;
    while e != 0
      invariant base < red.m && out < red.m
      invariant (Unreduce(red, out) * Pow(Unreduce(red, base), e)) % red.m == goal
    {
      ExpStep(red, out, base, e, goal);
      if e % 2 == 1 {
        out := MulReduced(red, out, base);
      }
      base := MulReduced(red, base, base);
      e := e / 2;
    }
    assert Pow(Unreduce(red, base), 0) == 1;
    DivModUnique(Unreduce(red, out), red.m, 0, Unreduce(red, out));
  }

  /** `exp_mod`: reduce `a`, raise it to `n`, unreduce; the result is `a^n mod m`. */
  method ExpMod(red: Reducer, a: nat, n: nat) returns (r: nat)
    requires Valid(red) && a < R && n < R
    ensures r == Pow(a, n) % red.m
  {
    var x := ExpModReduced(red, Reduce(red, a), n);
    r := Unreduce(red, x);
    ReduceRoundTrip(red, a);
    PowMod(a, n, red.m);
  }
}
