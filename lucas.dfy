/**
 * The Lucas part of the Baillie-PSW test in src/hash/primality/mod.rs: the Lucas sequences
 * `U_k(P, Q)` and `V_k(P, Q)`, the binary ladder `compute_u_and_v_k` that computes them modulo
 * `n` from the bits of `k`, and `passes_lucas`, which accepts when `n` divides `U_{n+1}` for
 * `P = 1` and `Q = (1 - D)/4` (the probabilistic Lucas test of FIPS 186-4, Appendix C.3.3,
 * without its strong variant).
 *
 * `BigInt`'s `/` and `%` truncate toward zero; they are written with `Arith.TruncDiv` and
 * `Arith.TruncMod` where an operand can be negative.
 */
module Lucas {
  import opened Arith

  // ---------------------------------------------------------------------------------------------
  // The sequences and their identities

  /** `U_0 = 0`, `U_1 = 1`, `U_{k+2} = P*U_{k+1} - Q*U_k`. */
  function U(p: int, q: int, k: nat): int
  {
    if k == 0 then 0 else if k == 1 then 1 else p * U(p, q, k - 1) - q * U(p, q, k - 2)
  }

  /** `V_0 = 2`, `V_1 = P`, `V_{k+2} = P*V_{k+1} - Q*V_k`. */
  function V(p: int, q: int, k: nat): int
  {
    if k == 0 then 2 else if k == 1 then p else p * V(p, q, k - 1) - q * V(p, q, k - 2)
  }

  /** One step forward: `2*U_{k+1} = P*U_k + V_k` and `2*V_{k+1} = D*U_k + P*V_k`, `D = P^2 - 4Q`. */
  lemma {:induction false} StepUp(p: int, q: int, k: nat)
    ensures 2 * U(p, q, k + 1) == p * U(p, q, k) + V(p, q, k)
    ensures 2 * V(p, q, k + 1) == (p * p - 4 * q) * U(p, q, k) + p * V(p, q, k)
  {
    if k == 1 {
      assert U(p, q, 2) == p * 1 - q * 0;
      assert V(p, q, 2) == p * p - q * 2;
    } else if k >= 2 {
      StepUp(p, q, k - 1);
      StepUp(p, q, k - 2);
      StepAlgebra(p, q, p * p - 4 * q, U(p, q, k), U(p, q, k - 1), U(p, q, k - 2),
                  V(p, q, k), V(p, q, k - 1), V(p, q, k - 2), U(p, q, k + 1), V(p, q, k + 1));
    }
  }

  lemma StepAlgebra(p: int, q: int, d: int, a: int, b: int, c: int, va: int, vb: int, vc: int,
                    a1: int, va1: int)
    requires a1 == p * a - q * b && va1 == p * va - q * vb
    requires a == p * b - q * c && va == p * vb - q * vc
    requires 2 * a == p * b + vb && 2 * b == p * c + vc
    requires 2 * va == d * b + p * vb && 2 * vb == d * c + p * vc
    ensures 2 * a1 == p * a + va && 2 * va1 == d * a + p * va
  {
    assert 2 * a1 == p * (p * b + vb) - q * (p * c + vc) by {
      Doubled(p, a, q, b, p * b + vb, p * c + vc);
    }
    assert 2 * va1 == p * (d * b + p * vb) - q * (d * c + p * vc) by {
      Doubled(p, va, q, vb, d * b + p * vb, d * c + p * vc);
    }
    StepIdentity(p, q, d, b, c, vb, vc);
  }

  /** `2 (p x - q y) = p (2 x) - q (2 y)`, with `2 x` and `2 y` replaced by what they equal. */
  lemma Doubled(p: int, x: int, q: int, y: int, x2: int, y2: int)
    requires 2 * x == x2 && 2 * y == y2
    ensures 2 * (p * x - q * y) == p * x2 - q * y2
  {
    assert 2 * (p * x) == p * (2 * x);
    assert 2 * (q * y) == q * (2 * y);
  }

  lemma StepIdentity(p: int, q: int, d: int, b: int, c: int, vb: int, vc: int)
    ensures p * (p * b + vb) - q * (p * c + vc) == p * (p * b - q * c) + (p * vb - q * vc)
    ensures p * (d * b + p * vb) - q * (d * c + p * vc) == d * (p * b - q * c) + p * (p * vb - q * vc)
  {
  }

  /** The addition formulas: `2*U_{m+j} = U_m*V_j + U_j*V_m`, `2*V_{m+j} = V_m*V_j + D*U_m*U_j`. */
  lemma {:induction false} Addition(p: int, q: int, m: nat, j: nat)
    ensures 2 * U(p, q, m + j) == U(p, q, m) * V(p, q, j) + U(p, q, j) * V(p, q, m)
    ensures 2 * V(p, q, m + j) == V(p, q, m) * V(p, q, j) + (p * p - 4 * q) * U(p, q, m) * U(p, q, j)
  {
    if j > 0 {
      var d := p * p - 4 * q;
      Addition(p, q, m, j - 1);
      StepUp(p, q, m + j - 1);
      StepUp(p, q, j - 1);
      var um, vm := U(p, q, m), V(p, q, m);
      var uj, vj := U(p, q, j - 1), V(p, q, j - 1);
      var s, t := U(p, q, m + j - 1), V(p, q, m + j - 1);
      AdditionStep(p, d, um, vm, uj, vj, s, t, U(p, q, m + j), V(p, q, m + j), U(p, q, j), V(p, q, j));
    }
  }

  lemma AdditionStep(p: int, d: int, um: int, vm: int, uj: int, vj: int, s: int, t: int,
                     s': int, t': int, uj': int, vj': int)
    requires 2 * s == um * vj + uj * vm && 2 * t == vm * vj + d * um * uj
    requires 2 * s' == p * s + t && 2 * t' == d * s + p * t
    requires 2 * uj' == p * uj + vj && 2 * vj' == d * uj + p * vj
    ensures 2 * s' == um * vj' + uj' * vm
    ensures 2 * t' == vm * vj' + d * um * uj'
  {
    var e1, e2 := um * vj' + uj' * vm, vm * vj' + d * um * uj';
    assert 2 * e1 == p * (2 * s) + 2 * t by {
      Scaled(um, vj', vm, uj', d * uj + p * vj, p * uj + vj);
      AdditionIdentityU(p, d, um, vm, uj, vj);
    }
    assert 2 * e2 == d * (2 * s) + p * (2 * t) by {
      Scaled(vm, vj', d * um, uj', d * uj + p * vj, p * uj + vj);
      AdditionIdentityV(p, d, um, vm, uj, vj);
    }
  }

  /** `2 (a x + b y) = a (2 x) + b (2 y)`, with `2 x` and `2 y` replaced by what they equal. */
  lemma Scaled(a: int, x: int, b: int, y: int, x2: int, y2: int)
    requires 2 * x == x2 && 2 * y == y2
    ensures 2 * (a * x + y * b) == a * x2 + y2 * b
    ensures 2 * (a * x + b * y) == a * x2 + b * y2
  {
    assert 2 * (a * x) == a * (2 * x);
    assert 2 * (y * b) == (2 * y) * b;
    assert 2 * (b * y) == b * (2 * y);
  }

  lemma AdditionIdentityU(p: int, d: int, um: int, vm: int, uj: int, vj: int)
    ensures um * (d * uj + p * vj) + (p * uj + vj) * vm
         == p * (um * vj + uj * vm) + (vm * vj + d * um * uj)
  {
  }

  lemma AdditionIdentityV(p: int, d: int, um: int, vm: int, uj: int, vj: int)
    ensures vm * (d * uj + p * vj) + d * um * (p * uj + vj)
         == d * (um * vj + uj * vm) + p * (vm * vj + d * um * uj)
  {
  }

  /** `V_k^2 - D*U_k^2 = 4*Q^k`. */
  lemma {:induction false} Norm(p: int, q: int, k: nat)
    ensures V(p, q, k) * V(p, q, k) - (p * p - 4 * q) * (U(p, q, k) * U(p, q, k)) == 4 * Pow(q, k)
  {
    if k > 0 {
      var d := p * p - 4 * q;
      Norm(p, q, k - 1);
      StepUp(p, q, k - 1);
      NormStep(p, q, d, U(p, q, k - 1), V(p, q, k - 1), U(p, q, k), V(p, q, k), Pow(q, k - 1));
    }
  }

  lemma NormStep(p: int, q: int, d: int, u: int, v: int, u': int, v': int, w: int)
    requires d == p * p - 4 * q && v * v - d * (u * u) == 4 * w
    requires 2 * u' == p * u + v && 2 * v' == d * u + p * v
    ensures v' * v' - d * (u' * u') == 4 * (q * w)
  {
    var x, y := d * u + p * v, p * u + v;
    Squared(v', x);
    Squared(u', y);
    NormIdentity(p, d, u, v);
    var e := v' * v' - d * (u' * u');
    assert 4 * e == x * x - d * (y * y) by {
      assert d * (4 * (u' * u')) == 4 * (d * (u' * u'));
    }
    assert (p * p - d) * (v * v - d * (u * u)) == (4 * q) * (4 * w);
    assert (4 * q) * (4 * w) == 4 * (4 * (q * w));
  }

  lemma Squared(x: int, y: int)
    requires 2 * x == y
    ensures 4 * (x * x) == y * y
  {
    assert y * y == (2 * x) * (2 * x);
  }

  lemma NormIdentity(p: int, d: int, u: int, v: int)
    ensures (d * u + p * v) * (d * u + p * v) - d * ((p * u + v) * (p * u + v))
         == (p * p - d) * (v * v - d * (u * u))
  {
  }

  /** The doubling formulas the ladder uses: `U_{2k} = U_k*V_k`, `V_{2k} = V_k^2 - 2*Q^k`. */
  lemma Doubling(p: int, q: int, k: nat)
    ensures U(p, q, 2 * k) == U(p, q, k) * V(p, q, k)
    ensures V(p, q, 2 * k) == V(p, q, k) * V(p, q, k) - 2 * Pow(q, k)
  {
    Addition(p, q, k, k);
    Norm(p, q, k);
    assert k + k == 2 * k;
    DoublingAlgebra(p * p - 4 * q, U(p, q, k), V(p, q, k), Pow(q, k), U(p, q, 2 * k), V(p, q, 2 * k));
  }

  lemma DoublingAlgebra(d: int, u: int, v: int, w: int, u2: int, v2: int)
    requires 2 * u2 == u * v + u * v && 2 * v2 == v * v + d * u * u && v * v - d * (u * u) == 4 * w
    ensures u2 == u * v && v2 == v * v - 2 * w
  {
    assert d * u * u == d * (u * u);
  }

  /** The first terms for `P = 1`, `Q = -1`: the Fibonacci and Lucas numbers. */
  lemma FibonacciExample()
    ensures U(1, -1, 10) == 55 && V(1, -1, 10) == 123
  {
    assert U(1, -1, 5) == 5 && V(1, -1, 5) == 11;
    Doubling(1, -1, 5);
  }

  // ---------------------------------------------------------------------------------------------
  // `to_binary`

  function BitChar(b: nat): char
    requires b < 2
  {
    if b == 0 then '0' else '1'
  }

  /** The value of a string of binary digits, most significant first. */
  function FromBinary(s: seq<char>): nat
  {
    if |s| == 0 then 0 else 2 * FromBinary(s[..|s| - 1]) + (if s[|s| - 1] == '1' then 1 else 0)
  }

  /**
   * `to_binary`: Rust's binary formatting of `n`, the binary digits without leading zeros ("0"
   * for zero).
   * It reads back as `n`, and a positive `n` starts with '1'.
   */
  function ToBinary(n: nat): (s: seq<char>)
    ensures |s| >= 1 && FromBinary(s) == n
    ensures forall i :: 0 <= i < |s| ==> s[i] == '0' || s[i] == '1'
    ensures n >= 1 ==> s[0] == '1'
    ensures n >= 2 ==> |s| >= 2
  {
    if n < 2 then [BitChar(n)]
    else
      var s := ToBinary(n / 2) + [BitChar(n % 2)];
      assert s[..|s| - 1] == ToBinary(n / 2);
      s
  }

  /** The cases of `test_to_binary`. */
  lemma ToBinaryExamples()
    ensures ToBinary(1) == "1" && ToBinary(44) == "101100"
  {
    assert ToBinary(2) == "10";
    assert ToBinary(5) == "101";
    assert ToBinary(11) == "1011";
    assert ToBinary(22) == "10110";
  }

  /** A prefix of the digits extended by one digit reads as twice the prefix plus the digit. */
  lemma PrefixStep(s: seq<char>, i: nat)
    requires i < |s|
    ensures FromBinary(s[..i + 1]) == 2 * FromBinary(s[..i]) + (if s[i] == '1' then 1 else 0)
  {
    assert s[..i + 1][..i] == s[..i];
  }

  // ---------------------------------------------------------------------------------------------
  // The ladder

  /** The closure `mod_n`: a negative `x` becomes `n - ((-x) mod n)`, which lies in `(0, n]`. */
  function ModN(x: int, n: int): (r: int)
    requires n > 0
    ensures 0 <= r <= n && r % n == x % n
    ensures x >= 0 ==> r < n
  {
    if x < 0 then
      ModNNegative(x, n);
      n - (-x) % n
    else
      ModOfMod(x, n);
      x % n
  }

  lemma ModNNegative(x: int, n: int)
    requires n > 0 && x < 0
    ensures (n - (-x) % n) % n == x % n
  {
    var y := -x;
    var m, k := y % n, y / n;
    DivModIdentity(y, n);
    assert (n - m) - x == n * (k + 1);
    MulMod(n, k + 1);
    CongruentIff(n - m, x, n);
  }

  /** The closure `half`: `x/2` when `x` is even, `(x + n)/2` when `x % 2 == 1`, then `mod_n`. */
  function Half(x: int, n: int): (r: int)
    requires n > 0
    ensures 0 <= r <= n
    ensures x >= 0 && n % 2 == 1 ==> r < n && (2 * r) % n == x % n
  {
    if TruncMod(x, 2) == 1 then
      var r := ModN(TruncDiv(x + n, 2), n);
      HalfOdd(x, n, r);
      r
    else
      var r := ModN(TruncDiv(x, 2), n);
      HalfEven(x, n, r);
      r
  }

  lemma HalfOdd(x: int, n: int, r: int)
    requires n > 0 && TruncMod(x, 2) == 1 && r == ModN(TruncDiv(x + n, 2), n)
    ensures x >= 0 && n % 2 == 1 ==> (2 * r) % n == x % n
  {
    if x >= 0 && n % 2 == 1 {
      var h := TruncDiv(x + n, 2);
      assert x % 2 == 1;
      assert x + n == 2 * h by { DivModIdentity(x, 2); DivModIdentity(n, 2); }
      ModMul(2, r, 2, h, n);
      ModShift(x, 1, n);
    }
  }

  lemma HalfEven(x: int, n: int, r: int)
    requires n > 0 && TruncMod(x, 2) != 1 && r == ModN(TruncDiv(x, 2), n)
    ensures x >= 0 ==> (2 * r) % n == x % n
  {
    if x >= 0 {
      var h := TruncDiv(x, 2);
      assert x == 2 * h;
      ModMul(2, r, 2, h, n);
    }
  }

  /** What a correct ladder run starts from: `(U_1, V_1) = (1, P)` with `P >= 0` and `D = P^2 - 4Q`, odd `n > 1`. */
  predicate LadderReady(n: int, u1: int, v1: int, p: int, q: int, d: int)
  {
    n > 1 && n % 2 == 1 && u1 == 1 && v1 == p && p >= 0 && d == p * p - 4 * q
  }

  /** The residues of `U_k`, `V_k` and `Q^k` modulo `n`. */
  predicate Tracks(n: int, p: int, q: int, k: nat, u: int, v: int, qk: int)
    requires n > 0
  {
    u % n == U(p, q, k) % n && v % n == V(p, q, k) % n && qk % n == Pow(q, k) % n
  }

  /** The doubling step keeps the residues: `(u, v, q^k)` of `k` become those of `2k`. */
  lemma DoubleStep(n: int, p: int, q: int, k: nat, u: int, v: int, qk: int)
    requires n > 0 && Tracks(n, p, q, k, u, v, qk)
    ensures Tracks(n, p, q, 2 * k, ModN(u * v, n), ModN((v * v) % n - 2 * qk, n), ModN(qk * qk, n))
  {
    var uk, vk, wk := U(p, q, k), V(p, q, k), Pow(q, k);
    Doubling(p, q, k);
    PowAdd(q, k, k);
    assert k + k == 2 * k;
    ModMul(u, v, uk, vk, n);
    ModMul(v, v, vk, vk, n);
    ModMul(qk, qk, wk, wk, n);
    ModOfMod(v * v, n);
    ModMul(2, qk, 2, wk, n);
    ModAdd((v * v) % n, 2 * qk, vk * vk, 2 * wk, n);
  }

  /** The odd step keeps the residues: those of `2k` become those of `2k + 1`. */
  lemma OddStep(n: int, p: int, q: int, d: int, k: nat, u: int, v: int, qk: int)
    requires LadderReady(n, 1, p, p, q, d) && Tracks(n, p, q, k, u, v, qk) && u >= 0 && v >= 0
    ensures Tracks(n, p, q, k + 1, Half(p * u + v, n), Half(ModN(d * u + p * v, n), n), ModN(qk * q, n))
  {
    OddStepU(n, p, q, k, u, v);
    OddStepV(n, p, q, d, k, u, v);
    ModMul(qk, q, Pow(q, k), q, n);
    assert Pow(q, k + 1) == q * Pow(q, k);
  }

  /** `half(p*u + v)` is `U_{k+1}` modulo an odd `n`. */
  lemma OddStepU(n: int, p: int, q: int, k: nat, u: int, v: int)
    requires n > 1 && n % 2 == 1 && p >= 0 && u >= 0 && v >= 0
    requires u % n == U(p, q, k) % n && v % n == V(p, q, k) % n
    ensures Half(p * u + v, n) % n == U(p, q, k + 1) % n
  {
    StepUp(p, q, k);
    var x := p * u + v;
    assert x >= 0;
    ModMul(p, u, p, U(p, q, k), n);
    ModAdd(p * u, v, p * U(p, q, k), V(p, q, k), n);
    CancelTwo(Half(x, n), U(p, q, k + 1), n);
  }

  /** `half(mod_n(d*u + p*v))` is `V_{k+1}` modulo an odd `n`. */
  lemma OddStepV(n: int, p: int, q: int, d: int, k: nat, u: int, v: int)
    requires n > 1 && n % 2 == 1 && d == p * p - 4 * q
    requires u % n == U(p, q, k) % n && v % n == V(p, q, k) % n
    ensures Half(ModN(d * u + p * v, n), n) % n == V(p, q, k + 1) % n
  {
    var uk, vk := U(p, q, k), V(p, q, k);
    var y := ModN(d * u + p * v, n);
    assert y % n == (d * uk + p * vk) % n by {
      ModMul(d, u, d, uk, n);
      ModMul(p, v, p, vk, n);
      ModAdd(d * u, p * v, d * uk, p * vk, n);
    }
    assert 2 * V(p, q, k + 1) == d * uk + p * vk by {
      StepUp(p, q, k);
    }
    CancelTwo(Half(y, n), V(p, q, k + 1), n);
  }

  lemma NonNegativeProduct(a: int, b: int)
    requires a >= 0 && b >= 0
    ensures a * b >= 0
  {
  }

  /** The doubling half of a ladder step: the residues for index `k` become those for `2k`. */
  method LadderDouble(n: int, uk: int, vk: int, qk: int, ghost p: int, ghost q: int, ghost k: nat,
                      ghost ready: bool)
    returns (u2: int, v2: int, q2: int)
    requires n > 0
    requires ready ==> 0 <= uk < n && vk >= 0 && Tracks(n, p, q, k, uk, vk, qk)
    ensures ready ==> 0 <= u2 < n && v2 >= 0 && Tracks(n, p, q, 2 * k, u2, v2, q2)
  {
    if ready {
      DoubleStep(n, p, q, k, uk, vk, qk);
      NonNegativeProduct(uk, vk);
    }
    u2 := ModN(uk * vk, n);
    v2 := ModN((vk * vk) % n - 2 * qk, n);
    q2 := ModN(qk * qk, n);
  }

  /** The odd half of a ladder step, for a '1' digit: the residues for `k` become those for `k + 1`. */
  method LadderIncrement(n: int, p: int, q: int, d: int, uk: int, vk: int, qk: int, ghost k: nat,
                         ghost ready: bool)
    returns (u1: int, v1: int, q1: int)
    requires n > 0
    requires ready ==> LadderReady(n, 1, p, p, q, d) && 0 <= uk < n && vk >= 0 && Tracks(n, p, q, k, uk, vk, qk)
    ensures ready ==> 0 <= u1 < n && v1 >= 0 && Tracks(n, p, q, k + 1, u1, v1, q1)
  {
    if ready {
      OddStep(n, p, q, d, k, uk, vk, qk);
      NonNegativeProduct(p, uk);
    }
    var puPlusV := p * uk + vk;
    var duPlusPv := ModN(d * uk + p * vk, n);
    u1 := Half(puPlusV, n);
    v1 := Half(duPlusPv, n);
    q1 := ModN(qk * q, n);
  }

  /**
   * `compute_u_and_v_k`: walk the binary digits of `k` after the leading one, doubling the
   * index for each digit and adding one for a '1'. The local index is always the value of the
   * digits read so far, and for a correct start the results are `U_k` and `V_k` modulo `n`.
   */
  method ComputeUAndVK(k: nat, n: int, u1: int, v1: int, p: int, q: int, d: int)
    returns (uk: int, vk: int)
    requires k >= 1 && n > 0
    ensures LadderReady(n, u1, v1, p, q, d) ==>
      0 <= uk < n && uk % n == U(p, q, k) % n && vk % n == V(p, q, k) % n
  {
    var bits := ToBinary(k);
    uk, vk := u1, v1;
    var qk := q;
    var index := 1;
    var i := 1;
    ghost var ready := LadderReady(n, u1, v1, p, q, d);
    if ready {
      DivModUnique(1, n, 0, 1);
      ModOfMod(p, n);
    }
    assert bits[..1] == [bits[0]];
    assert FromBinary(bits[..1]) == 1;
    while i < |bits|
      invariant 1 <= i <= |bits|
      invariant index == FromBinary(bits[..i]) && index >= 1
      invariant ready ==> 0 <= uk < n && vk >= 0 && Tracks(n, p, q, index, uk, vk, qk)
    {
      uk, vk, qk := LadderDouble(n, uk, vk, qk, p, q, index, ready);
      PrefixStep(bits, i);
      index := 2 * index;
      if bits[i] == '1' {
        uk, vk, qk := LadderIncrement(n, p, q, d, uk, vk, qk, index, ready);
        index := index + 1;
      }
      i := i + 1;
    }
    assert bits[..i] == bits;
  }

  /**
   * `passes_lucas`: with `P = 1` and `Q = (1 - D)/4`, accept when `U_{n+1}` is 0 modulo `n`.
   * For odd `n > 1` and `D == 1 (mod 4)` (every `D` that `choose_d` can return) this is
   * exactly the Lucas probable-prime condition.
   */
  method PassesLucas(n: int, d: int) returns (r: bool)
    requires n > 0
    ensures n > 1 && n % 2 == 1 && (1 - d) % 4 == 0 ==> (r <==> U(1, (1 - d) / 4, n + 1) % n == 0)
  {
    var p := 1;
    var q := TruncDiv(1 - d, 4);
    var delta := n + 1;
    var uDelta, vDelta := ComputeUAndVK(delta, n, 1, p, p, q, d);
    r := uDelta == 0;
    if n > 1 && n % 2 == 1 && (1 - d) % 4 == 0 {
      ExactQuarter(1 - d, q);
      assert LadderReady(n, 1, p, p, q, d);
      DivModUnique(uDelta, n, 0, uDelta);
    }
  }

  /** An exact division truncates as it floors. */
  lemma ExactQuarter(x: int, q: int)
    requires x % 4 == 0 && q == TruncDiv(x, 4)
    ensures q == x / 4 && x == 4 * q
  {
    DivModIdentity(x, 4);
    if x >= 0 {
      DivModUnique(x, 4, x / 4, 0);
    } else {
      DivModUnique(-x, 4, -(x / 4), 0);
    }
  }
}
