/**
 * The representation shared by the fixed-width integers of src/u256.rs and src/i256.rs: a signed
 * `size` and a fixed number of 64-bit limbs, lowest limb first, as GMP's `mpn` layer reads them.
 * The `mpn` functions the code calls are foreign; each is given here by the result GMP's manual
 * promises for it, on the values the limbs denote, and only for the arguments the manual allows
 * (a shift count from 1 to 63, for instance).
 */
module Limbs {
  import opened Arith

  /** `2^64`, one more than the largest limb. */
  const Base: nat := 0x1_0000_0000_0000_0000

  type Limb = x: int | 0 <= x < 0x1_0000_0000_0000_0000

  /** `Base^n`: the number of values `n` limbs can hold. */
  function Radix(n: nat): (r: nat)
    ensures r >= 1
  {
    if n == 0 then 1 else MulAtLeast(Radix(n - 1), Base); Radix(n - 1) * Base
  }

  /** `low + Base * high` stays below `Base * bound` when `high` stays below `bound`. */
  lemma LimbStep(low: int, high: nat, bound: nat)
    requires 0 <= low < Base && high < bound
    ensures 0 <= low + Base * high < Base * bound
  {
    MulAtLeast(bound - high, Base);
    assert Base * bound - Base * high == (bound - high) * Base;
  }

  /** The value of lower-endian limbs. */
  function Value(limbs: seq<Limb>): (v: nat)
    ensures v < Radix(|limbs|)
  {
    if |limbs| == 0 then 0
    else
      var high := Value(limbs[1..]);
      LimbStep(limbs[0], high, Radix(|limbs| - 1));
      limbs[0] + Base * high
  }

  lemma {:induction false} RadixAdd(a: nat, b: nat)
    ensures Radix(a + b) == Radix(a) * Radix(b)
  {
    if a > 0 {
      RadixAdd(a - 1, b);
      assert Radix(a + b) == Radix(a - 1 + b) * Base;
    }
  }

  lemma RadixMonotone(a: nat, b: nat)
    requires a <= b
    ensures Radix(a) <= Radix(b)
  {
    RadixAdd(a, b - a);
    MulAtLeast(Radix(b - a), Radix(a));
  }

  /** `2^(64 n)`: shifting by whole limbs multiplies by a power of the radix. */
  lemma {:induction false} RadixIsPowerOfTwo(n: nat)
    ensures Radix(n) == Pow(2, 64 * n)
  {
    if n > 0 {
      RadixIsPowerOfTwo(n - 1);
      PowMul(2, 8, 8);
      assert Pow(256, 8) == Base;
      PowAdd(2, 64 * (n - 1), 64);
      assert 64 * n == 64 * (n - 1) + 64;
    }
  }

  lemma Distribute(b: int, x: int, y: int, z: int)
    ensures b * (x + y * z) == b * x + (y * b) * z
  {
  }

  /** Splitting limbs splits the value: the high part is worth `Base^|a|` per unit. */
  lemma {:induction false} ValueAppend(a: seq<Limb>, b: seq<Limb>)
    ensures Value(a + b) == Value(a) + Radix(|a|) * Value(b)
  {
    if |a| == 0 {
      assert a + b == b;
    } else {
      assert (a + b)[1..] == a[1..] + b;
      ValueAppend(a[1..], b);
      var x, y, z := Value(a[1..]), Radix(|a| - 1), Value(b);
      var h := Value((a + b)[1..]);
      assert Value(a + b) == a[0] + Base * h;
      Distribute(Base, x, y, z);
    }
  }

  /** The limbs below `n` hold the value modulo `Base^n`, the limbs above it the quotient. */
  lemma SplitValue(limbs: seq<Limb>, n: nat)
    requires n <= |limbs|
    ensures Value(limbs[..n]) == Value(limbs) % Radix(n)
    ensures Value(limbs[n..]) == Value(limbs) / Radix(n)
  {
    var low, high := limbs[..n], limbs[n..];
    assert limbs == low + high;
    ValueAppend(low, high);
    DivModSplit(Value(limbs), Value(low), Value(high), Radix(n));
  }

  /** Limbs that are all zero denote zero. */
  lemma {:induction false} ZeroValue(z: seq<Limb>)
    requires forall i :: 0 <= i < |z| ==> z[i] == 0
    ensures Value(z) == 0
  {
    if |z| > 0 {
      ZeroValue(z[1..]);
    }
  }

  /** `n` zero limbs. */
  function Zeros(n: nat): (z: seq<Limb>)
    ensures |z| == n && Value(z) == 0
    ensures forall i :: 0 <= i < n ==> z[i] == 0
  {
    var z := seq(n, i => 0);
    ZeroValue(z);
    z
  }

  lemma SmallMod(x: int, d: int)
    requires 0 <= x < d
    ensures x % d == x && x / d == 0
  {
    DivModUnique(x, d, 0, x);
  }

  lemma SmallModIf(x: nat, d: nat)
    requires d >= 1
    ensures x < d ==> x % d == x
  {
    if x < d {
      SmallMod(x, d);
    }
  }

  /** The remainder by `Base * k` is the lowest limb plus `Base` times the rest's remainder by `k`. */
  lemma ModSplit(v: nat, k: nat)
    requires k >= 1
    ensures v % (Base * k) == v % Base + Base * ((v / Base) % k)
    ensures v / (Base * k) == (v / Base) / k
  {
    var q1, r1 := v / Base, v % Base;
    var q2, r2 := q1 / k, q1 % k;
    DivModIdentity(v, Base);
    DivModIdentity(q1, k);
    assert v == q2 * (Base * k) + (Base * r2 + r1) by {
      assert v == Base * q1 + r1;
      assert q1 == k * q2 + r2;
    }
    LimbStep(r1, r2, k);
    DivModUnique(v, Base * k, q2, Base * r2 + r1);
  }

  /** The lowest `n` limbs of `v`: the limbs GMP stores for `v mod Base^n`. */
  function ToLimbs(v: nat, n: nat): (r: seq<Limb>)
    ensures |r| == n && Value(r) == v % Radix(n)
  {
    if n == 0 then []
    else
      var low: Limb := v % Base;
      var rest := ToLimbs(v / Base, n - 1);
      var r := [low] + rest;
      assert r[0] == low && r[1..] == rest;
      assert Radix(n) == Base * Radix(n - 1);
      ModSplit(v, Radix(n - 1));
      r
  }

  /** A value below `Base^n` survives the trip into `n` limbs. */
  lemma ToLimbsExact(v: nat, n: nat)
    requires v < Radix(n)
    ensures Value(ToLimbs(v, n)) == v
  {
    SmallMod(v, Radix(n));
  }

  /** Reading limbs back gives the same limbs. */
  lemma {:induction false} ToLimbsOfValue(limbs: seq<Limb>)
    ensures ToLimbs(Value(limbs), |limbs|) == limbs
  {
    if |limbs| > 0 {
      DivModUnique(Value(limbs), Base, Value(limbs[1..]), limbs[0]);
      ToLimbsOfValue(limbs[1..]);
    }
  }

  /** Limbs of one length are determined by their value. */
  lemma ValueInjective(a: seq<Limb>, b: seq<Limb>)
    requires |a| == |b| && Value(a) == Value(b)
    ensures a == b
  {
    ToLimbsOfValue(a);
    ToLimbsOfValue(b);
  }

  /** One more than the index of the highest non-zero limb, or 0 when every limb is zero. */
  function SizeOf(limbs: seq<Limb>): (s: nat)
    ensures s <= |limbs|
    ensures s == 0 || limbs[s - 1] != 0
    ensures forall j :: s <= j < |limbs| ==> limbs[j] == 0
  {
    if |limbs| == 0 then 0
    else if limbs[|limbs| - 1] != 0 then |limbs|
    else SizeOf(limbs[..|limbs| - 1])
  }

  /** The three conditions of `SizeOf` single out one size. */
  lemma SizeOfUnique(limbs: seq<Limb>, s: nat)
    requires s <= |limbs| && (s == 0 || limbs[s - 1] != 0)
    requires forall j :: s <= j < |limbs| ==> limbs[j] == 0
    ensures s == SizeOf(limbs)
  {
  }

  /** The limbs above the size contribute nothing. */
  lemma ValueOfSized(limbs: seq<Limb>)
    ensures Value(limbs[..SizeOf(limbs)]) == Value(limbs)
  {
    var s := SizeOf(limbs);
    assert limbs == limbs[..s] + limbs[s..];
    ValueAppend(limbs[..s], limbs[s..]);
    ZeroValue(limbs[s..]);
  }

  /** The size brackets the value: `Base^(size-1) <= value < Base^size`. */
  lemma SizeBounds(limbs: seq<Limb>)
    ensures Value(limbs) < Radix(SizeOf(limbs))
    ensures SizeOf(limbs) > 0 ==> Radix(SizeOf(limbs) - 1) <= Value(limbs)
  {
    var s := SizeOf(limbs);
    ValueOfSized(limbs);
    if s > 0 {
      var p := limbs[..s];
      var top := limbs[s - 1];
      assert p == p[..s - 1] + [top];
      ValueAppend(p[..s - 1], [top]);
      ValueSingle(top);
      MulAtLeast(top, Radix(s - 1));
    }
  }

  /** The radix grows strictly with the number of limbs. */
  lemma RadixOrder(a: nat, b: nat)
    ensures a <= b <==> Radix(a) <= Radix(b)
  {
    if a <= b {
      RadixMonotone(a, b);
    } else {
      RadixMonotone(b + 1, a);
      MulAtLeast(Base, Radix(b));
      assert Radix(b + 1) == Radix(b) * Base;
    }
  }

  /** A value of at least `Base^k` has more than `k` significant limbs. */
  lemma SizeAtLeast(limbs: seq<Limb>, k: nat)
    requires Radix(k) <= Value(limbs)
    ensures SizeOf(limbs) > k
  {
    SizeBounds(limbs);
    RadixOrder(SizeOf(limbs), k);
  }

  /** A value below `Base^k` has at most `k` significant limbs. */
  lemma SizeAtMost(limbs: seq<Limb>, k: nat)
    requires Value(limbs) < Radix(k)
    ensures SizeOf(limbs) <= k
  {
    SizeBounds(limbs);
    if SizeOf(limbs) > 0 {
      RadixOrder(k, SizeOf(limbs) - 1);
    }
  }

  /** Fewer significant limbs means a smaller value. */
  lemma SizeOrder(a: seq<Limb>, b: seq<Limb>)
    requires SizeOf(a) < SizeOf(b)
    ensures Value(a) < Value(b)
  {
    SizeBounds(a);
    SizeBounds(b);
    RadixMonotone(SizeOf(a), SizeOf(b) - 1);
  }

  /** Zero-extending keeps the value and the size. */
  lemma ExtendKeeps(limbs: seq<Limb>, n: nat)
    ensures Value(limbs + Zeros(n)) == Value(limbs)
    ensures SizeOf(limbs + Zeros(n)) == SizeOf(limbs)
  {
    ValueAppend(limbs, Zeros(n));
    var e := limbs + Zeros(n);
    SizeOfUnique(e, SizeOf(limbs));
  }

  /** A number as the crate stores it: the `size` field and the limb array. */
  datatype Num = Num(size: int, limbs: seq<Limb>)

  function Val(x: Num): nat
  {
    Value(x.limbs)
  }

  /** The invariant `normalize_size` establishes. */
  predicate Normal(x: Num)
  {
    x.size == SizeOf(x.limbs)
  }

  /** A normal number of `n` limbs: what every constructor of U256 (n = 4) and U512 (n = 8) yields. */
  predicate Wf(x: Num, n: nat)
  {
    Normal(x) && |x.limbs| == n
  }

  /** The limbs with the size `normalize_size` gives them. */
  function Normalized(limbs: seq<Limb>): (x: Num)
    ensures Normal(x) && x.limbs == limbs && x.size >= 0
  {
    Num(SizeOf(limbs), limbs)
  }

  /** Derived equality on normal numbers of one width is equality of values. */
  lemma NormalEqual(x: Num, y: Num)
    requires Normal(x) && Normal(y) && |x.limbs| == |y.limbs|
    ensures x == y <==> Val(x) == Val(y)
  {
    if Val(x) == Val(y) {
      ValueInjective(x.limbs, y.limbs);
    }
  }

  /** The normal `n`-limb number holding `v mod Base^n`. */
  function FromValue(v: nat, n: nat): (x: Num)
    ensures Wf(x, n) && Val(x) == v % Radix(n)
    ensures v < Radix(n) ==> Val(x) == v
  {
    SmallModIf(v, Radix(n));
    Normalized(ToLimbs(v, n))
  }

  /** A normal number is the one `FromValue` builds from its value. */
  lemma FromValueOf(x: Num)
    requires Normal(x)
    ensures x == FromValue(Val(x), |x.limbs|)
  {
    NormalEqual(x, FromValue(Val(x), |x.limbs|));
  }

  /** The number with its limbs zero-extended to `n`, the size kept. */
  function Extend(x: Num, n: nat): (r: Num)
    requires |x.limbs| <= n
    ensures |r.limbs| == n && Val(r) == Val(x) && r.size == x.size
    ensures Normal(x) ==> Normal(r)
  {
    ExtendKeeps(x.limbs, n - |x.limbs|);
    Num(x.size, x.limbs + Zeros(n - |x.limbs|))
  }

  /** `normalize_size`: scan the limbs from the top for the first non-zero one. */
  method NormalizeSize(x: Num) returns (y: Num)
    ensures y.limbs == x.limbs && y.size >= 0
    ensures Normal(y) && y == Normalized(x.limbs)
  {
    var size := 0;
    var i := |x.limbs|;
    while i > 0
      invariant 0 <= i <= |x.limbs|
      invariant forall j :: i <= j < |x.limbs| ==> x.limbs[j] == 0
    {
      i := i - 1;
      if x.limbs[i] != 0 {
        size := i + 1;
        break;
      }
    }
    SizeOfUnique(x.limbs, size);
    y := Num(size, x.limbs);
  }

  // The mpn layer of GMP, by the results its manual documents.

  /** `mpn_add_n`: the `n`-limb sum and the carry out of the top limb. */
  function AddN(a: seq<Limb>, b: seq<Limb>): (r: (seq<Limb>, nat))
    requires |a| == |b|
    ensures |r.0| == |a| && r.1 <= 1
    ensures Value(r.0) + r.1 * Radix(|a|) == Value(a) + Value(b)
  {
    var s, m := Value(a) + Value(b), Radix(|a|);
    if s < m then
      SmallMod(s, m);
      (ToLimbs(s, |a|), 0)
    else
      DivModUnique(s, m, 1, s - m);
      (ToLimbs(s, |a|), 1)
  }

  /** `mpn_sub_n`: the `n`-limb difference and the borrow out of the top limb. */
  function SubN(a: seq<Limb>, b: seq<Limb>): (r: (seq<Limb>, nat))
    requires |a| == |b|
    ensures |r.0| == |a| && r.1 <= 1
    ensures Value(r.0) == Value(a) - Value(b) + r.1 * Radix(|a|)
  {
    var m := Radix(|a|);
    var borrow := if Value(a) < Value(b) then 1 else 0;
    var d := Value(a) - Value(b) + borrow * m;
    SmallMod(d, m);
    (ToLimbs(d, |a|), borrow)
  }

  lemma MulBelow(x: nat, y: nat, a: nat, b: nat)
    requires x < a && y < b
    ensures x * y < a * b
  {
    if y > 0 {
      MulAtLeast(a - x, y);
      assert a * y - x * y == (a - x) * y;
      MulAtLeast(b - y, a);
      assert a * b - a * y == (b - y) * a;
    }
  }

  /** `mpn_mul` and `mpn_mul_n`: the exact product in `|a| + |b|` limbs. */
  function MulLimbs(a: seq<Limb>, b: seq<Limb>): (r: seq<Limb>)
    ensures |r| == |a| + |b| && Value(r) == Value(a) * Value(b)
  {
    var p := Value(a) * Value(b);
    MulBelow(Value(a), Value(b), Radix(|a|), Radix(|b|));
    RadixAdd(|a|, |b|);
    SmallMod(p, Radix(|a| + |b|));
    ToLimbs(p, |a| + |b|)
  }

  /** `mpn_lshift`: the limbs of `a * 2^count`, the bits shifted out at the top dropped; GMP allows counts 1 to 63. */
  function LShift(a: seq<Limb>, count: nat): (r: seq<Limb>)
    requires 1 <= count < 64
    ensures |r| == |a| && Value(r) == (Value(a) * Pow(2, count)) % Radix(|a|)
  {
    ToLimbs(Value(a) * Pow(2, count), |a|)
  }

  lemma DivAtMost(x: nat, d: nat)
    requires d >= 1
    ensures x / d <= x
  {
    DivModIdentity(x, d);
    if x / d > x {
      MulAtLeast(d, x / d);
    }
  }

  /** `mpn_rshift`: the limbs of `a / 2^count`, rounded down; GMP allows counts 1 to 63. */
  function RShift(a: seq<Limb>, count: nat): (r: seq<Limb>)
    requires 1 <= count < 64
    ensures |r| == |a| && Value(r) == Value(a) / Pow(2, count)
  {
    var q := Value(a) / Pow(2, count);
    DivAtMost(Value(a), Pow(2, count));
    SmallMod(q, Radix(|a|));
    ToLimbs(q, |a|)
  }

  /** `x / d < k` when `x < k * d`. */
  lemma DivBelow(x: nat, d: nat, k: nat)
    requires d >= 1 && x < k * d
    ensures x / d < k
  {
    DivModIdentity(x, d);
    if x / d >= k {
      MulAtLeast(x / d - k + 1, d);
    }
  }

  lemma MulLeq(c: nat, a: nat, b: nat)
    requires a <= b
    ensures c * a <= c * b
  {
  }

  /** The quotient of `n` by a divisor whose top limb is non-zero fits in `|n| - |d| + 1` limbs. */
  lemma QuotientFits(n: seq<Limb>, d: seq<Limb>)
    requires 1 <= |d| <= |n| && d[|d| - 1] != 0
    ensures Value(d) > 0 && Value(n) / Value(d) < Radix(|n| - |d| + 1)
  {
    var vn, vd := Value(n), Value(d);
    var k := Radix(|n| - |d| + 1);
    SizeOfUnique(d, |d|);
    SizeBounds(d);
    RadixAdd(|n| - |d| + 1, |d| - 1);
    MulLeq(k, Radix(|d| - 1), vd);
    DivBelow(vn, vd, k);
  }

  lemma RemainderFits(n: seq<Limb>, d: seq<Limb>)
    requires Value(d) > 0
    ensures Value(n) % Value(d) < Radix(|d|)
  {
  }

  /**
   * `mpn_tdiv_qr`: divide `n` by `d`, whose top limb is non-zero and which has no more limbs than
   * `n`; the quotient takes `|n| - |d| + 1` limbs and the remainder `|d|`.
   */
  function TDivQR(n: seq<Limb>, d: seq<Limb>): (r: (seq<Limb>, seq<Limb>))
    requires 1 <= |d| <= |n| && d[|d| - 1] != 0
    ensures |r.0| == |n| - |d| + 1 && |r.1| == |d|
    ensures Value(d) > 0
    ensures Value(r.0) == Value(n) / Value(d) && Value(r.1) == Value(n) % Value(d)
  {
    var vn, vd := Value(n), Value(d);
    assert vd > 0 by {
      QuotientFits(n, d);
    }
    var q := ToLimbs(vn / vd, |n| - |d| + 1);
    var rem := ToLimbs(vn % vd, |d|);
    assert Value(q) == vn / vd by {
      QuotientFits(n, d);
      ToLimbsExact(vn / vd, |n| - |d| + 1);
    }
    assert Value(rem) == vn % vd by {
      RemainderFits(n, d);
      ToLimbsExact(vn % vd, |d|);
    }
    (q, rem)
  }

  /** `mpn_cmp`: compare limb by limb from the top; -1, 0 or 1. */
  function Cmp(a: seq<Limb>, b: seq<Limb>): (r: int)
    requires |a| == |b|
    decreases |a|
  {
    if |a| == 0 then 0
    else if a[|a| - 1] < b[|b| - 1] then -1
    else if a[|a| - 1] > b[|b| - 1] then 1
    else Cmp(a[..|a| - 1], b[..|b| - 1])
  }

  /** The value of limbs split into everything below the top limb and the top limb. */
  lemma ValueTop(a: seq<Limb>)
    requires |a| > 0
    ensures Value(a) == Value(a[..|a| - 1]) + Radix(|a| - 1) * a[|a| - 1]
  {
    var n := |a| - 1;
    assert a[..n] + a[n..] == a;
    ValueAppend(a[..n], a[n..]);
    ValueOne(a[n..]);
  }

  lemma ValueOne(s: seq<Limb>)
    requires |s| == 1
    ensures Value(s) == s[0]
  {
    assert s[1..] == [];
  }

  lemma ValueSingle(x: Limb)
    ensures Value([x]) == x
  {
    assert [x][1..] == [];
  }

  lemma TopStep(la: nat, lb: nat, p: nat, ta: nat, tb: nat)
    requires la < p && ta < tb
    ensures la + p * ta < lb + p * tb
  {
    MulAtLeast(tb - ta, p);
    assert p * tb - p * ta == (tb - ta) * p;
  }

  /** A smaller top limb makes a smaller value, whatever lies below. */
  lemma TopDecides(a: seq<Limb>, b: seq<Limb>)
    requires |a| == |b| > 0 && a[|a| - 1] < b[|b| - 1]
    ensures Value(a) < Value(b)
  {
    var n := |a| - 1;
    ValueTop(a);
    ValueTop(b);
    TopStep(Value(a[..n]), Value(b[..n]), Radix(n), a[n], b[n]);
  }

  /** Comparing from the top limb down is comparing values. */
  lemma {:induction false} CmpIsValueOrder(a: seq<Limb>, b: seq<Limb>)
    requires |a| == |b|
    ensures -1 <= Cmp(a, b) <= 1
    ensures Cmp(a, b) < 0 <==> Value(a) < Value(b)
    ensures Cmp(a, b) == 0 <==> Value(a) == Value(b)
    decreases |a|
  {
    if |a| > 0 {
      var n := |a| - 1;
      if a[n] < b[n] {
        TopDecides(a, b);
      } else if a[n] > b[n] {
        TopDecides(b, a);
      } else {
        CmpIsValueOrder(a[..n], b[..n]);
        ValueTop(a);
        ValueTop(b);
      }
    }
  }
}
