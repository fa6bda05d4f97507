/**
 * Integer facts shared by the whole model: Euclidean division, divisibility, greatest common
 * divisors with Bezout cofactors (what GMP's `gcdext` and rug's `gcd_cofactors` return), powers,
 * products and the truncating division of arbitrary-precision integers.
 *
 * Dafny's `/` and `%` are Euclidean. For a positive divisor they coincide with GMP's floor
 * division (`fdiv_q`, `fdiv_qr`), which is the only way the modelled code divides by a
 * positive number; truncating division is written out separately.
 */
module Arith {

  function Abs(x: int): (r: nat)
    ensures r == x || r == -x
  {
    if x < 0 then -x else x
  }

  /** Quotient and remainder are determined by the division identity. */
  lemma DivModUnique(x: int, d: int, q: int, r: int)
    requires d > 0 && 0 <= r < d && x == q * d + r
    ensures x / d == q && x % d == r
  {
    var q0, r0 := x / d, x % d;
    var k := q - q0;
    assert k * d == r0 - r by {
      assert q * d - q0 * d == (q - q0) * d;
    }
    if k >= 1 {
      MulAtLeast(k, d);
    } else if k <= -1 {
      MulAtMost(k, d);
    }
  }

  /** `DivModUnique` with the divisor written first: `l + m * h` splits into `h` and `l`. */
  lemma DivModSplit(v: int, l: int, h: int, m: int)
    requires m > 0 && 0 <= l < m && v == l + m * h
    ensures v % m == l && v / m == h
  {
    DivModUnique(v, m, h, l);
  }

  lemma MulAtLeast(k: int, d: int)
    requires k >= 1 && d > 0
    ensures k * d >= d
  {
    assert k * d == (k - 1) * d + d;
  }

  lemma MulNonNegative(a: int, b: int)
    requires a >= 0 && b >= 0
    ensures a * b >= 0
  {
  }

  lemma MulAtMost(k: int, d: int)
    requires k <= -1 && d > 0
    ensures k * d <= -d
  {
    assert k * d == (k + 1) * d - d;
  }

  /** `DivModUnique` for a divisor of either sign: the remainder lies in `[0, |d|)`. */
  lemma DivModUniqueAny(x: int, d: int, q: int, r: int)
    requires d != 0 && 0 <= r < Abs(d) && x == q * d + r
    ensures x / d == q && x % d == r
  {
    if d > 0 {
      DivModUnique(x, d, q, r);
    } else {
      var q0, r0 := x / d, x % d;
      var k := q - q0;
      assert k * d == r0 - r by {
        assert q * d - q0 * d == (q - q0) * d;
      }
      assert k * d == -(k * (-d));
      if k >= 1 {
        MulAtLeast(k, -d);
      } else if k <= -1 {
        MulAtMost(k, -d);
      }
    }
  }

  lemma DivModIdentity(x: int, d: int)
    requires d != 0
    ensures x == d * (x / d) + x % d && 0 <= x % d < Abs(d)
  {
  }

  /** The quotient times the divisor plus the remainder is the dividend. */
  lemma DivModRebuild(x: int, d: int)
    requires d > 0
    ensures (x / d) * d + x % d == x && x % d < d
  {
    DivModIdentity(x, d);
  }

  lemma MulModAny(d: int, k: int)
    requires d != 0
    ensures (d * k) % d == 0 && (d * k) / d == k
  {
    DivModUniqueAny(d * k, d, k, 0);
  }

  lemma MulCancel(g: int, x: int, y: int)
    requires g != 0 && g * x == g * y
    ensures x == y
  {
    assert g * (x - y) == 0;
  }

  /** A positive divisor of a non-zero number is at most its absolute value. */
  lemma DivisorBound(d: int, m: int)
    requires d > 0 && m != 0 && m % d == 0
    ensures d <= Abs(m)
  {
    var k := m / d;
    assert m == d * k;
    if k >= 1 {
      MulAtLeast(k, d);
    } else {
      MulAtMost(k, d);
    }
  }

  lemma MulMod(d: int, k: int)
    requires d > 0
    ensures (d * k) % d == 0 && (d * k) / d == k
  {
    DivModUnique(d * k, d, k, 0);
  }

  /** `x` and `y` leave the same remainder exactly when `n` divides their difference. */
  lemma CongruentIff(x: int, y: int, n: int)
    requires n > 0
    ensures (x - y) % n == 0 <==> x % n == y % n
  {
    var qx, rx, qy, ry := x / n, x % n, y / n, y % n;
    if rx == ry {
      assert x - y == n * (qx - qy);
      MulMod(n, qx - qy);
    }
    if (x - y) % n == 0 {
      var k := (x - y) / n;
      assert rx == (k - qx + qy) * n + ry;
      DivModUnique(rx, n, k - qx + qy, ry);
      DivModUnique(rx, n, 0, rx);
    }
  }

  lemma ModOfMod(x: int, n: int)
    requires n > 0
    ensures (x % n) % n == x % n
  {
    DivModUnique(x % n, n, 0, x % n);
  }

  lemma ModShift(x: int, k: int, n: int)
    requires n > 0
    ensures (x + k * n) % n == x % n
  {
    assert (x + k * n) - x == n * k;
    MulMod(n, k);
    CongruentIff(x + k * n, x, n);
  }

  lemma ModAdd(a: int, b: int, a': int, b': int, n: int)
    requires n > 0 && a % n == a' % n && b % n == b' % n
    ensures (a + b) % n == (a' + b') % n && (a - b) % n == (a' - b') % n
  {
    CongruentIff(a, a', n);
    CongruentIff(b, b', n);
    var ka, kb := (a - a') / n, (b - b') / n;
    assert (a + b) - (a' + b') == n * (ka + kb);
    assert (a - b) - (a' - b') == n * (ka - kb);
    MulMod(n, ka + kb);
    MulMod(n, ka - kb);
    CongruentIff(a + b, a' + b', n);
    CongruentIff(a - b, a' - b', n);
  }

  lemma ModMul(a: int, b: int, a': int, b': int, n: int)
    requires n > 0 && a % n == a' % n && b % n == b' % n
    ensures (a * b) % n == (a' * b') % n
  {
    CongruentIff(a, a', n);
    CongruentIff(b, b', n);
    var ka, kb := (a - a') / n, (b - b') / n;
    assert a == a' + n * ka;
    assert b == b' + n * kb;
    calc {
      a * b - a' * b';
      (a' + n * ka) * (b' + n * kb) - a' * b';
      n * (ka * b' + a' * kb + n * ka * kb);
    }
    MulMod(n, ka * b' + a' * kb + n * ka * kb);
    CongruentIff(a * b, a' * b', n);
  }

  /** An odd modulus lets a factor 2 cancel. */
  lemma CancelTwo(a: int, b: int, n: int)
    requires n > 0 && n % 2 == 1 && (2 * a) % n == (2 * b) % n
    ensures a % n == b % n
  {
    CongruentIff(2 * a, 2 * b, n);
    var m := (2 * a - 2 * b) / n;
    DivModIdentity(2 * a - 2 * b, n);
    assert 2 * (a - b) == n * m;
    var j := m / 2;
    DivModIdentity(m, 2);
    if m % 2 == 1 {
      assert n == 2 * ((a - b) - n * j) by {
        assert n * m == n * (2 * j) + n;
      }
      DivModUnique(n, 2, (a - b) - n * j, 0);
    } else {
      assert 2 * (a - b) == 2 * (n * j) by {
        assert n * m == n * (2 * j);
      }
      MulMod(n, j);
      CongruentIff(a, b, n);
    }
  }

  /** `d` divides `x`; the zero divisor divides only zero. */
  predicate Divides(d: int, x: int)
  {
    if d == 0 then x == 0 else x % d == 0
  }

  lemma DividesLinear(d: int, a: int, b: int, x: int, y: int)
    requires d > 0 && a % d == 0 && b % d == 0
    ensures (a * x + b * y) % d == 0
  {
    var ka, kb := a / d, b / d;
    assert a == d * ka && b == d * kb;
    assert a * x + b * y == d * (ka * x + kb * y);
    MulMod(d, ka * x + kb * y);
  }

  /** The non-negative greatest common divisor, by Euclid's algorithm. */
  function Gcd(a: int, b: int): (g: nat)
    ensures a != 0 || b != 0 ==> g > 0
    decreases Abs(b)
  {
    if b == 0 then Abs(a) else Gcd(b, a % b)
  }

  /**
   * The extended Euclidean algorithm: the gcd together with Bezout cofactors `x`, `y` with
   * `a*x + b*y == gcd`. This is the cofactor choice the model uses for GMP's `gcdext`.
   */
  function ExtGcd(a: int, b: int): (r: (nat, int, int))
    ensures r.0 == Gcd(a, b)
    ensures a * r.1 + b * r.2 == r.0
    decreases Abs(b)
  {
    if b == 0 then
      (Abs(a), if a < 0 then -1 else 1, 0)
    else
      var (g, x, y) := ExtGcd(b, a % b);
      BezoutStep(a, b, a / b, a % b, x, y, g);
      (g, y, x - (a / b) * y)
  }

  lemma BezoutStep(a: int, b: int, q: int, r: int, x: int, y: int, g: int)
    requires a == q * b + r && b * x + r * y == g
    ensures a * y + b * (x - q * y) == g
  {
    calc {
      a * y + b * (x - q * y);
      (q * b + r) * y + b * x - b * (q * y);
      { assert (q * b + r) * y == q * b * y + r * y; assert b * (q * y) == q * b * y; }
      r * y + b * x;
    }
  }

  lemma {:induction false} GcdDivides(a: int, b: int)
    ensures Divides(Gcd(a, b), a) && Divides(Gcd(a, b), b)
    decreases Abs(b)
  {
    if b != 0 {
      GcdDivides(b, a % b);
      var g := Gcd(a, b);
      assert g != 0;
      assert a == b * (a / b) + (a % b) * 1;
      DividesLinear(g, b, a % b, a / b, 1);
    }
  }

  lemma GcdIsGreatest(a: int, b: int, d: int)
    requires d > 0 && a % d == 0 && b % d == 0
    ensures Gcd(a, b) % d == 0
  {
    var (g, x, y) := ExtGcd(a, b);
    DividesLinear(d, a, b, x, y);
  }

  /** 1 is coprime to everything. */
  lemma GcdOne(n: int)
    ensures Gcd(1, n) == 1 && Gcd(n, 1) == 1
  {
    GcdDivides(1, n);
    GcdDivides(n, 1);
    DivisorBound(Gcd(1, n), 1);
    DivisorBound(Gcd(n, 1), 1);
  }

  /** The only multiple of `n` strictly between `-n` and `n` is 0. */
  lemma SmallMultiple(k: int, n: int)
    requires n > 0 && -n < k * n < n
    ensures k == 0
  {
    if k >= 1 {
      MulAtLeast(k, n);
    } else if k <= -1 {
      MulAtMost(k, n);
    }
  }

  /** Reducing both factors first does not change a product modulo `n`. */
  lemma ModProduct(x: int, y: int, n: int)
    requires n > 0
    ensures ((x % n) * (y % n)) % n == (x * y) % n
  {
    ModOfMod(x, n);
    ModOfMod(y, n);
    ModMul(x % n, y % n, x, y, n);
  }

  /** A value strictly between `-n` and `n` that `n` divides is 0. */
  lemma SmallModZero(x: int, n: int)
    requires n > 0 && -n < x < n && x % n == 0
    ensures x == 0
  {
    DivModIdentity(x, n);
    SmallMultiple(x / n, n);
  }

  lemma GcdPositive(a: int, b: int)
    requires a != 0 || b != 0
    ensures Gcd(a, b) > 0
  {
    GcdDivides(a, b);
  }

  function Pow(b: int, e: nat): (r: int)
    ensures b > 0 ==> r > 0
  {
    if e == 0 then 1 else b * Pow(b, e - 1)
  }

  lemma {:induction false} PowAdd(b: int, e1: nat, e2: nat)
    ensures Pow(b, e1 + e2) == Pow(b, e1) * Pow(b, e2)
  {
    if e1 > 0 {
      PowAdd(b, e1 - 1, e2);
      assert Pow(b, e1 + e2) == b * Pow(b, e1 - 1 + e2);
    }
  }

  lemma {:induction false} PowMul(b: int, e1: nat, e2: nat)
    ensures Pow(Pow(b, e1), e2) == Pow(b, e1 * e2)
  {
    if e2 > 0 {
      PowMul(b, e1, e2 - 1);
      PowAdd(b, e1, e1 * (e2 - 1));
      assert e1 * e2 == e1 + e1 * (e2 - 1);
    }
  }

  lemma {:induction false} PowMod(b: int, e: nat, n: int)
    requires n > 0
    ensures Pow(b % n, e) % n == Pow(b, e) % n
  {
    if e > 0 {
      PowMod(b, e - 1, n);
      ModOfMod(b, n);
      ModMul(b % n, Pow(b % n, e - 1), b, Pow(b, e - 1), n);
    }
  }

  /** The product of a list, 1 for the empty list (Rust's `Iterator::product`). */
  function Product(s: seq<int>): (p: int)
    ensures (forall i :: 0 <= i < |s| ==> s[i] > 0) ==> p > 0
    ensures (forall i :: 0 <= i < |s| ==> s[i] >= 0) ==> p >= 0
  {
    if |s| == 0 then 1 else s[0] * Product(s[1..])
  }

  lemma {:induction false} ProductAppend(a: seq<int>, b: seq<int>)
    ensures Product(a + b) == Product(a) * Product(b)
  {
    if |a| > 0 {
      assert (a + b)[1..] == a[1..] + b;
      ProductAppend(a[1..], b);
      var h, pa, pb := a[0], Product(a[1..]), Product(b);
      assert Product(a + b) == h * (pa * pb);
      assert h * (pa * pb) == (h * pa) * pb;
    } else {
      assert a + b == b;
    }
  }

  lemma ProductSplit(s: seq<int>, k: nat)
    requires k <= |s|
    ensures Product(s) == Product(s[..k]) * Product(s[k..])
  {
    assert s == s[..k] + s[k..];
    ProductAppend(s[..k], s[k..]);
  }

  /** Division truncating toward zero, as Rust's `/` on arbitrary-precision integers. */
  function TruncDiv(x: int, d: int): (q: int)
    requires d > 0
    ensures x >= 0 ==> q * d <= x < q * d + d
    ensures x < 0 ==> q * d - d < x <= q * d
    ensures 0 <= x < d ==> q == 0
  {
    if 0 <= x < d then
      DivModUnique(x, d, 0, x);
      x / d
    else if x >= 0 then x / d
    else
      var m := (-x) / d;
      assert -x == m * d + (-x) % d;
      assert (-m) * d == -(m * d);
      -m
  }

  /** The remainder matching `TruncDiv`: it carries the sign of the dividend. */
  function TruncMod(x: int, d: int): (r: int)
    requires d > 0
    ensures x == TruncDiv(x, d) * d + r
    ensures x >= 0 ==> 0 <= r < d
    ensures x < 0 ==> -d < r <= 0
  {
    x - TruncDiv(x, d) * d
  }

  /** Multiplicative inverse modulo `m` (GMP's `invert`), when `x` is coprime to `m`. */
  function ModInverse(x: int, m: int): (r: int)
    requires m > 1 && Gcd(x, m) == 1
    ensures 0 <= r < m && (x * r) % m == 1
  {
    var (g, s, t) := ExtGcd(x, m);
    InverseFromBezout(x, s, t, m);
    s % m
  }

  lemma InverseFromBezout(x: int, s: int, t: int, m: int)
    requires m > 1 && x * s + m * t == 1
    ensures (x * (s % m)) % m == 1
  {
    assert x * s == 1 + (-t) * m;
    ModShift(1, -t, m);
    DivModUnique(1, m, 0, 1);
    ModOfMod(s, m);
    ModMul(x, s % m, x, s, m);
  }

  predicate IsPrime(n: int)
  {
    n >= 2 && forall k :: 2 <= k < n ==> n % k != 0
  }

  /** What `hash_to_prime` returns. */
  type Prime = p: int | IsPrime(p) witness 2
}
