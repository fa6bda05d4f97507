/**
 * The I256 and I512 numbers of src/i256.rs, the older copy of src/u256.rs. Their `size` field is
 * signed, but `normalize_size` only ever stores a limb count (`Limbs.NormalizeSize`), so they
 * are the numbers of module Limbs and share U256's representation and its by-value operations
 * (`From<[u8; 32]>`, `+`, `-`, `*`).
 *
 * What differs is modelled here. `div_rem` and `div_rem_mut` hand `mpn_tdiv_qr` a dividend that
 * may be shorter than the divisor, which GMP's manual does not allow; such a call is `None`
 * here, like a zero divisor. The shifts are written as a loop that breaks once the count is
 * spent. The Montgomery reducer's `reduce`, `unreduce` and `exp_mod_` are built on these
 * operations; its `new` and `mul_mod_` are those of module Montgomery.
 */
module I256 {
  import opened Wrappers
  import opened Arith
  import opened Limbs
  import U256
  import Montgomery

  /**
   * `div_rem` of I256 and I512: `mpn_tdiv_qr` on the significant limbs, with no check of the
   * lengths first. GMP needs a divisor with a non-zero top limb and a dividend at least as long
   * as the divisor; where it gets them the result is that of U256's `div_rem`.
   */
  function DivRem(x: Num, d: Num): (r: Option<(Num, Num)>)
    requires Normal(x) && Normal(d) && |x.limbs| == |d.limbs|
    ensures r.Some? <==> 0 < d.size <= x.size
    ensures r.Some? ==> Val(d) > 0 && r == U256.DivRem(x, d)
  {
    if d.size == 0 || d.size > x.size then None
    else
      var qr := U256.SignificantQR(x, d);
      Some((U256.Padded(qr.0, |x.limbs|), U256.Padded(qr.1, |x.limbs|)))
  }

  /**
   * On values: every divisor from 1 up to the dividend is accepted, and then the quotient and
   * remainder are exact; a dividend of 0 is accepted with no divisor.
   */
  lemma DivRemDefined(x: Num, d: Num)
    requires Normal(x) && Normal(d) && |x.limbs| == |d.limbs|
    ensures 0 < Val(d) <= Val(x) ==> DivRem(x, d).Some?
    ensures Val(x) == 0 ==> DivRem(x, d).None?
    ensures DivRem(x, d).Some? ==>
      Val(DivRem(x, d).value.0) == Val(x) / Val(d) && Val(DivRem(x, d).value.1) == Val(x) % Val(d)
  {
    U256.SignificantLimbs(x);
    U256.SignificantLimbs(d);
    if 0 < Val(d) <= Val(x) && d.size > x.size {
      SizeOrder(x.limbs, d.limbs);
    }
  }

  /**
   * `div_rem_mut`: the quotient is returned and `self` becomes what `mpn_tdiv_qr` left in it.
   * Once the lengths meet what GMP requires, the steps are those of U256's `div_rem_mut`.
   */
  method DivRemMut(x: Num, d: Num) returns (r: Option<(Num, Num)>)
    requires Normal(x) && Normal(d) && |x.limbs| == |d.limbs|
    ensures r.Some? <==> 0 < d.size <= x.size
    ensures r.Some? ==> r == U256.DivRemInPlace(x, d)
  {
    if d.size == 0 || d.size > x.size {
      return None;
    }
    r := U256.DivRemMut(x, d);
  }

  /** `I512 % I256`: `div_rem` by the divisor widened to eight limbs, then `low_i256`. */
  function RemWide(x: U256.U512, d: U256.U256): (r: Option<U256.U256>)
    ensures r.Some? <==> 0 < d.size <= x.size
    ensures r.Some? ==> Val(d) > 0 && Val(r.value) == Val(x) % Val(d) && r == U256.RemWide(x, d)
  {
    var qr := DivRem(x, U256.Widen(d));
    if qr.None? then None
    else
      var low := U256.LowU256(qr.value.1);
      assert Val(low) == Val(x) % Val(d) by {
        SmallMod(Val(x) % Val(d), Radix(4));
      }
      NormalEqual(low, U256.RemWide(x, d).value);
      Some(low)
  }

  /**
   * `<<=` as written: repeat `mpn_lshift` by `min(64, count)` bits, taking them off the count,
   * until that minimum is 0; then normalise. A 64-bit chunk is outside the counts GMP allows, so
   * the result is undefined (`None`) exactly when `count >= 64`.
   */
  method ShlAssignAsWritten(x: Num, count: nat) returns (y: Option<Num>)
    ensures y.None? <==> count >= 64
    ensures y.Some? ==> y.value == U256.ShiftedLeft(x, count)
  {
    var limbs := x.limbs;
    var rest: nat := count;
    ghost var m := Radix(|x.limbs|);
    assert Value(limbs) == (Val(x) * Pow(2, count - rest)) % m by {
      assert Pow(2, 0) == 1;
      SmallMod(Val(x), m);
    }
    while true
      invariant rest <= count && |limbs| == |x.limbs| && (count >= 64 ==> rest == count)
      invariant Value(limbs) == (Val(x) * Pow(2, count - rest)) % m
      decreases rest
    {
      var size: nat := if rest < 64 then rest else 64;
      if size == 0 {
        break;
      }
      if size == 64 {
        return None;
      }
      ghost var done := count - rest;
      rest := rest - size;
      U256.ShlStep(limbs, Val(x), done, size);
      assert done + size == count - rest;
      limbs := LShift(limbs, size);
    }
    var r := NormalizeSize(Num(x.size, limbs));
    NormalEqual(r, U256.ShiftedLeft(x, count));
    return Some(r);
  }

  /** `<<=` with chunks of `min(63, count)` bits, which `mpn_lshift` accepts: `x << count`. */
  method ShlAssign(x: Num, count: nat) returns (y: Num)
    ensures y == U256.ShiftedLeft(x, count)
  {
    var limbs := x.limbs;
    var rest: nat := count;
    ghost var m := Radix(|x.limbs|);
    assert Value(limbs) == (Val(x) * Pow(2, count - rest)) % m by {
      assert Pow(2, 0) == 1;
      SmallMod(Val(x), m);
    }
    while true
      invariant rest <= count && |limbs| == |x.limbs|
      invariant Value(limbs) == (Val(x) * Pow(2, count - rest)) % m
      decreases rest
    {
      var size: nat := if rest < 63 then rest else 63;
      if size == 0 {
        break;
      }
      ghost var done := count - rest;
      rest := rest - size;
      U256.ShlStep(limbs, Val(x), done, size);
      assert done + size == count - rest;
      limbs := LShift(limbs, size);
    }
    y := NormalizeSize(Num(x.size, limbs));
    NormalEqual(y, U256.ShiftedLeft(x, count));
  }

  /**
   * `>>=` as written: repeat `mpn_rshift` by `min(64, count)` bits until the count is spent;
   * normalise. Undefined (`None`) exactly when `count >= 64`, as for `<<=`.
   */
  method ShrAssignAsWritten(x: Num, count: nat) returns (y: Option<Num>)
    ensures y.None? <==> count >= 64
    ensures y.Some? ==> y.value == U256.ShiftedRight(x, count)
  {
    var limbs := x.limbs;
    var rest: nat := count;
    while true
      invariant rest <= count && |limbs| == |x.limbs| && (count >= 64 ==> rest == count)
      invariant Value(limbs) == Val(x) / Pow(2, count - rest)
      decreases rest
    {
      var size: nat := if rest < 64 then rest else 64;
      if size == 0 {
        break;
      }
      if size == 64 {
        return None;
      }
      ghost var done := count - rest;
      rest := rest - size;
      U256.ShrStep(limbs, Val(x), done, size);
      assert done + size == count - rest;
      limbs := RShift(limbs, size);
    }
    var r := NormalizeSize(Num(x.size, limbs));
    NormalEqual(r, U256.ShiftedRight(x, count));
    return Some(r);
  }

  /** `>>=` with chunks of `min(63, count)` bits: `x >> count`. */
  method ShrAssign(x: Num, count: nat) returns (y: Num)
    ensures y == U256.ShiftedRight(x, count)
  {
    var limbs := x.limbs;
    var rest: nat := count;
    while true
      invariant rest <= count && |limbs| == |x.limbs|
      invariant Value(limbs) == Val(x) / Pow(2, count - rest)
      decreases rest
    {
      var size: nat := if rest < 63 then rest else 63;
      if size == 0 {
        break;
      }
      ghost var done := count - rest;
      rest := rest - size;
      U256.ShrStep(limbs, Val(x), done, size);
      assert done + size == count - rest;
      limbs := RShift(limbs, size);
    }
    y := NormalizeSize(Num(x.size, limbs));
    NormalEqual(y, U256.ShiftedRight(x, count));
  }

  // The reducer of src/i256.rs. Its fields and representatives are the values of module
  // Montgomery; an I256 holding a value is `FromValue(v, 4)`.

  /** The modulus as the I256 the reducer stores: it has at least one significant limb. */
  function Modulus(red: Montgomery.Reducer): (m: U256.U256)
    requires Montgomery.Inverts(red)
    ensures Val(m) == red.m && 0 < m.size
  {
    var m := Holding(red.m);
    U256.SignificantLimbs(m);
    m
  }

  /** The I256 holding a value below `r`. */
  function Holding(v: nat): (x: U256.U256)
    requires v < Montgomery.R
    ensures Val(x) == v
  {
    Montgomery.RadixFacts();
    FromValue(v, 4)
  }

  /** A value below `r`, shifted left by 256 bits in eight limbs, is multiplied by `r`. */
  lemma ShiftedByR(v: nat)
    requires v < Montgomery.R
    ensures (v * Pow(2, 256)) % Radix(8) == v * Montgomery.R
  {
    var r := Montgomery.R;
    Montgomery.RadixFacts();
    RadixAdd(4, 4);
    MulLeq(r, v + 1, r);
    assert v * r < r * r;
    SmallMod(v * r, Radix(8));
  }

  /**
   * `reduce`: `(i512(a) << 256) % m`. For `a == 0` the shifted number has no significant limbs,
   * so the division is outside GMP's requirement; otherwise the result is `a * r mod m`.
   */
  function Reduce(red: Montgomery.Reducer, a: nat): (r: Option<nat>)
    requires Montgomery.Inverts(red) && a < Montgomery.R
    ensures r.None? <==> a == 0
    ensures r.Some? ==> r.value == Montgomery.Reduce(red, a)
  {
    var shifted := U256.ShiftedLeft(U256.Widen(Holding(a)), 256);
    ShiftedByR(a);
    ReduceSizes(red, a, shifted);
    var rem := RemWide(shifted, Modulus(red));
    if rem.None? then None else Some(Val(rem.value))
  }

  /** The shifted number is long enough for `div_rem` by `m` exactly when `a` is not 0. */
  lemma ReduceSizes(red: Montgomery.Reducer, a: nat, shifted: Num)
    requires Montgomery.Inverts(red) && Wf(shifted, 8) && Val(shifted) == a * Montgomery.R
    ensures 0 < Modulus(red).size <= shifted.size <==> a != 0
  {
    Montgomery.RadixFacts();
    U256.SignificantLimbs(shifted);
    if a != 0 {
      MulLeq(Montgomery.R, 1, a);
      SizeAtLeast(shifted.limbs, 4);
    }
  }

  /** A normal number with fewer significant limbs than another is smaller. */
  lemma ShorterIsSmaller(x: Num, y: Num)
    requires Normal(x) && Normal(y)
    ensures x.size < y.size ==> Val(x) < Val(y)
  {
    if x.size < y.size {
      SizeOrder(x.limbs, y.limbs);
    }
  }

  /**
   * `unreduce`: `(a * r_inv) % m`, the exact I512 product reduced by `I512 % I256`. When the
   * product has fewer limbs than `m` (always when `a == 0`) the division is outside GMP's
   * requirement; that happens only where the product is below `m`, its own remainder.
   */
  function Unreduce(red: Montgomery.Reducer, a: nat): (r: Option<nat>)
    requires Montgomery.Inverts(red) && a < red.m
    ensures a == 0 ==> r.None?
    ensures r.None? ==> a * red.rInv < red.m
    ensures r.Some? ==> r.value == Montgomery.Unreduce(red, a)
  {
    var p := U256.Product(Holding(a), Holding(red.rInv));
    UnreduceSizes(red, a, p);
    var rem := RemWide(p, Modulus(red));
    if rem.None? then None else Some(Val(rem.value))
  }

  /** The product is too short for `div_rem` by `m` at 0, and only when it is below `m`. */
  lemma UnreduceSizes(red: Montgomery.Reducer, a: nat, p: Num)
    requires Montgomery.Inverts(red) && Normal(p) && Val(p) == a * red.rInv
    ensures a == 0 ==> p.size == 0
    ensures p.size < Modulus(red).size ==> a * red.rInv < red.m
  {
    U256.SignificantLimbs(p);
    ShorterIsSmaller(p, Modulus(red));
  }

  /**
   * `exp_mod_` of src/i256.rs: return `out` as soon as `n` is zero; otherwise multiply when `n`
   * is odd, square `a` and halve `n` with `>>=`. The result represents `unreduce(a)^n mod m`.
   */
  method ExpModReduced(red: Montgomery.Reducer, a: nat, n: U256.U256) returns (out: nat)
    requires Montgomery.Valid(red) && a < red.m
    ensures out < red.m
    ensures Montgomery.Unreduce(red, out) == Pow(Montgomery.Unreduce(red, a), Val(n)) % red.m
  {
    Montgomery.ReducedConstants(red);
    ghost var goal := Pow(Montgomery.Unreduce(red, a), Val(n)) % red.m;
    var base: nat, e: U256.U256 := a, n;
    out := red.oneReduced;
    while true
      invariant base < red.m && out < red.m
      invariant (Montgomery.Unreduce(red, out) * Pow(Montgomery.Unreduce(red, base), Val(e))) % red.m == goal
      decreases Val(e)
    {
      NormalEqual(e, U256.Zero(4));
      if e == U256.Zero(4) {
        assert Pow(Montgomery.Unreduce(red, base), 0) == 1;
        DivModUnique(Montgomery.Unreduce(red, out), red.m, 0, Montgomery.Unreduce(red, out));
        return;
      }
      Montgomery.ExpStep(red, out, base, Val(e), goal);
      if U256.IsOdd(e) {
        out := Montgomery.MulReduced(red, out, base);
      }
      base := Montgomery.MulReduced(red, base, base);
      assert Pow(2, 1) == 2;
      var halved := ShrAssignAsWritten(e, 1);
      e := halved.value;
    }
  }

  /**
   * `exp_mod`: `unreduce(exp_mod_(reduce(a), n))`. It is `None` when `reduce` or `unreduce`
   * divides outside GMP's requirement, which `a == 0` always does; otherwise `a^n mod m`.
   */
  method ExpMod(red: Montgomery.Reducer, a: nat, n: U256.U256) returns (r: Option<nat>)
    requires Montgomery.Valid(red) && a < Montgomery.R
    ensures a == 0 ==> r.None?
    ensures r.Some? ==> r.value == Pow(a, Val(n)) % red.m
  {
    var x := Reduce(red, a);
    if x.None? {
      return None;
    }
    var y := ExpModReduced(red, x.value, n);
    r := Unreduce(red, y);
    Montgomery.ReduceRoundTrip(red, a);
    PowMod(a, Val(n), red.m);
  }

  /**
   * Dividing 0 by 1 is outside GMP's requirement here, where U256's `div_rem` returns `(0, 0)`;
   * `reduce(0)` makes that call, where the value it stands for reduces to 0.
   */
  lemma ShortDividendUndefined(red: Montgomery.Reducer)
    requires Montgomery.Inverts(red)
    ensures DivRem(U256.Zero(4), FromValue(1, 4)).None?
    ensures U256.DivRem(U256.Zero(4), FromValue(1, 4)) == Some((U256.Zero(4), U256.Zero(4)))
    ensures Reduce(red, 0).None? && Montgomery.Reduce(red, 0) == 0
  {
    Montgomery.RadixFacts();
    var z, one := U256.Zero(4), FromValue(1, 4);
    U256.SignificantLimbs(z);
    U256.SignificantLimbs(one);
    var qr := U256.DivRem(z, one).value;
    NormalEqual(qr.0, z);
    NormalEqual(qr.1, z);
    assert Montgomery.Reduce(red, 0) == 0 by {
      DivModUnique(0 * Montgomery.R, red.m, 0, 0);
    }
  }
}
