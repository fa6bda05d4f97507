/**
 * The unsigned fixed-width integers of src/u256.rs. A `U256` holds four limbs and a `U512` eight;
 * every constructor and operation leaves `size` equal to the number of significant limbs (the
 * `Wf` invariant), so the derived equality of the structs is equality of values. The operations
 * that update `self` in place (`normalize_size`, `+=`, `-=`, `<<=`, `>>=`, `div_rem_mut`) are
 * methods returning the updated number (the structs are `Copy`, so no other reference sees the
 * old one); the by-value operations are functions, and each method is proved equal to the
 * function that gives its meaning. A panic is `None`.
 */
module U256 {
  import opened Wrappers
  import opened Arith
  import opened Limbs

  type U256 = x: Num | Wf(x, 4) witness Num(0, [0, 0, 0, 0])
  type U512 = x: Num | Wf(x, 8) witness Num(0, [0, 0, 0, 0, 0, 0, 0, 0])

  type Byte = x: int | 0 <= x < 256

  datatype Ordering = Less | Equal | Greater

  /** `zero()` of width `n`. */
  function Zero(n: nat): (z: Num)
    ensures Wf(z, n) && Val(z) == 0
  {
    Normalized(Zeros(n))
  }

  /** `is_odd`: the low bit of the lowest limb is the parity of the whole value. */
  function IsOdd(x: Num): (r: bool)
    requires |x.limbs| > 0
    ensures r <==> Val(x) % 2 == 1
  {
    var h := Value(x.limbs[1..]);
    ModShift(x.limbs[0], 0x8000_0000_0000_0000 * h, 2);
    assert Base * h == (0x8000_0000_0000_0000 * h) * 2;
    x.limbs[0] % 2 == 1
  }

  /** `From<[u64; N]>`: take the limbs and normalise the size. */
  method FromLimbs(limbs: seq<Limb>) returns (x: Num)
    ensures x == Normalized(limbs)
    ensures Val(x) == Value(limbs) && Wf(x, |limbs|)
  {
    x := NormalizeSize(Num(0, limbs));
  }

  /** `From<u64>`: the value in the lowest limb, zeros above. */
  method FromU64(v: Limb, n: nat) returns (x: Num)
    requires n >= 1
    ensures Wf(x, n) && Val(x) == v
  {
    var limbs := [v] + Zeros(n - 1);
    assert limbs[1..] == Zeros(n - 1);
    x := FromLimbs(limbs);
  }

  /** The number a little-endian byte string denotes. */
  function LittleEndian(bytes: seq<Byte>): (v: nat)
    ensures v < Pow(256, |bytes|)
  {
    if |bytes| == 0 then 0
    else
      var high := LittleEndian(bytes[1..]);
      ByteStep(bytes[0], high, Pow(256, |bytes| - 1));
      bytes[0] + 256 * high
  }

  lemma ByteStep(low: int, high: nat, bound: nat)
    requires 0 <= low < 256 && high < bound
    ensures low + 256 * high < 256 * bound
  {
  }

  /** `u64::from_le_bytes`. */
  function LimbOfBytes(chunk: seq<Byte>): (v: Limb)
    requires |chunk| == 8
    ensures v == LittleEndian(chunk)
  {
    assert Pow(256, 8) == Base;
    LittleEndian(chunk)
  }

  lemma {:induction false} LittleEndianAppend(a: seq<Byte>, b: seq<Byte>)
    ensures LittleEndian(a + b) == LittleEndian(a) + Pow(256, |a|) * LittleEndian(b)
  {
    if |a| == 0 {
      assert a + b == b;
    } else {
      assert (a + b)[1..] == a[1..] + b;
      LittleEndianAppend(a[1..], b);
      var x, y, z := LittleEndian(a[1..]), Pow(256, |a| - 1), LittleEndian(b);
      assert LittleEndian(a + b) == a[0] + 256 * LittleEndian((a + b)[1..]);
      Distribute(256, x, y, z);
    }
  }

  /** The limbs a byte string is cut into, eight bytes each, lowest first. */
  function Chunks(bytes: seq<Byte>): (limbs: seq<Limb>)
    requires |bytes| % 8 == 0
    ensures |limbs| == |bytes| / 8 && Value(limbs) == LittleEndian(bytes)
    decreases |bytes|
  {
    if |bytes| == 0 then []
    else
      var limbs := [LimbOfBytes(bytes[..8])] + Chunks(bytes[8..]);
      assert limbs[1..] == Chunks(bytes[8..]);
      assert bytes == bytes[..8] + bytes[8..];
      LittleEndianAppend(bytes[..8], bytes[8..]);
      assert Pow(256, 8) == Base;
      limbs
  }

  /** The `i`-th limb is read from bytes `8i .. 8i + 8`. */
  lemma {:induction false} ChunkAt(bytes: seq<Byte>, i: nat)
    requires |bytes| % 8 == 0 && i < |bytes| / 8
    ensures Chunks(bytes)[i] == LimbOfBytes(bytes[8 * i .. 8 * i + 8])
    decreases i
  {
    if i > 0 {
      var rest := bytes[8..];
      var m := i - 1;
      ChunkAt(rest, m);
      ChunksCons(bytes);
      DropSlice(bytes, 8 * m);
    }
  }

  lemma ChunksCons(bytes: seq<Byte>)
    requires |bytes| % 8 == 0 && |bytes| > 0
    ensures Chunks(bytes) == [LimbOfBytes(bytes[..8])] + Chunks(bytes[8..])
  {
  }

  lemma DropSlice(bytes: seq<Byte>, j: nat)
    requires j + 16 <= |bytes|
    ensures bytes[8..][j .. j + 8] == bytes[j + 8 .. j + 16]
  {
  }

  /**
   * `From<[u8; 32]>` and `From<&[u8; 32]>`: view the bytes as four eight-byte chunks, read each
   * chunk little-endian into a limb, then normalise. The number is the bytes read little-endian.
   */
  method FromBytes(bytes: seq<Byte>) returns (x: Num)
    requires |bytes| == 32
    ensures Wf(x, 4) && Val(x) == LittleEndian(bytes)
  {
    var limbs: seq<Limb> := [0, 0, 0, 0];
    for i := 0 to 4
      invariant |limbs| == 4
      invariant forall j :: 0 <= j < i ==> limbs[j] == Chunks(bytes)[j]
    {
      ChunkAt(bytes, i);
      limbs := limbs[i := LimbOfBytes(bytes[8 * i .. 8 * i + 8])];
    }
    assert limbs == Chunks(bytes);
    x := FromLimbs(limbs);
  }

  /** `From<U256> for U512`: copy the four limbs and the size into a zeroed eight-limb array. */
  function Widen(x: U256): (r: U512)
    ensures Val(r) == Val(x)
  {
    Extend(x, 8)
  }

  /** `low_u256`: the lower four limbs, renormalised; the value modulo `2^256`. */
  function LowU256(x: Num): (r: U256)
    requires |x.limbs| >= 4
    ensures Val(r) == Val(x) % Radix(4)
  {
    SplitValue(x.limbs, 4);
    Normalized(x.limbs[..4])
  }

  /** `partial_cmp` and `cmp`: `mpn_cmp` over the whole width. */
  function Compare(x: Num, y: Num): (r: Ordering)
    requires |x.limbs| == |y.limbs|
    ensures r == Less <==> Val(x) < Val(y)
    ensures r == Equal <==> Val(x) == Val(y)
    ensures r == Greater <==> Val(x) > Val(y)
  {
    CmpIsValueOrder(x.limbs, y.limbs);
    var c := Cmp(x.limbs, y.limbs);
    if c < 0 then Less else if c == 0 then Equal else Greater
  }

  /** `x << count` in the width of `x`: the bits shifted past the top limb are lost. */
  function ShiftedLeft(x: Num, count: nat): (r: Num)
    ensures Wf(r, |x.limbs|) && Val(r) == (Val(x) * Pow(2, count)) % Radix(|x.limbs|)
  {
    FromValue(Val(x) * Pow(2, count), |x.limbs|)
  }

  /** `x >> count`: the value halved `count` times, rounding down. */
  function ShiftedRight(x: Num, count: nat): (r: Num)
    ensures Wf(r, |x.limbs|) && Val(r) == Val(x) / Pow(2, count)
  {
    DivAtMost(Val(x), Pow(2, count));
    FromValue(Val(x) / Pow(2, count), |x.limbs|)
  }

  /** Two truncated shifts make one. */
  lemma ShiftStep(v: nat, a: nat, b: nat, m: nat)
    requires m >= 1
    ensures (((v * Pow(2, a)) % m) * Pow(2, b)) % m == (v * Pow(2, a + b)) % m
  {
    PowAdd(2, a, b);
    ModOfMod(v * Pow(2, a), m);
    ModMul((v * Pow(2, a)) % m, Pow(2, b), v * Pow(2, a), Pow(2, b), m);
    assert v * Pow(2, a) * Pow(2, b) == v * (Pow(2, a) * Pow(2, b));
  }

  /** One more `mpn_lshift` of `size` bits extends a truncated shift by `done` bits. */
  lemma ShlStep(limbs: seq<Limb>, v: nat, done: nat, size: nat)
    requires 1 <= size < 64
    requires Value(limbs) == (v * Pow(2, done)) % Radix(|limbs|)
    ensures Value(LShift(limbs, size)) == (v * Pow(2, done + size)) % Radix(|limbs|)
  {
    ShiftStep(v, done, size, Radix(|limbs|));
  }

  /** Dividing by `p` and then by `q` divides by `p * q`. */
  lemma DivDiv(x: nat, p: nat, q: nat)
    requires p >= 1 && q >= 1
    ensures (x / p) / q == x / (p * q)
  {
    var q1, r1 := x / p, x % p;
    var q2, r2 := q1 / q, q1 % q;
    DivModIdentity(x, p);
    DivModIdentity(q1, q);
    assert x == q2 * (p * q) + (p * r2 + r1) by {
      assert x == p * q1 + r1;
      assert q1 == q * q2 + r2;
    }
    MulLeq(p, r2, q - 1);
    assert p * (q - 1) == p * q - p;
    DivModUnique(x, p * q, q2, p * r2 + r1);
  }

  /**
   * `<<=` as written: shift in chunks of `min(64, count)` bits with `mpn_lshift`, then normalise.
   * A chunk of 64 bits is outside the counts GMP allows, so from the first such chunk the result
   * is undefined (`None`): exactly when `count >= 64`.
   */
  method ShlAssignAsWritten(x: Num, count: nat) returns (y: Option<Num>)
    ensures y.None? <==> count >= 64
    ensures y.Some? ==> y.value == ShiftedLeft(x, count)
  {
    var limbs := x.limbs;
    var rest: nat := count;
    ghost var m := Radix(|x.limbs|);
    assert Value(limbs) == (Val(x) * Pow(2, count - rest)) % m by {
      assert Pow(2, 0) == 1;
      SmallMod(Val(x), m);
    }
    while rest != 0
      invariant rest <= count && |limbs| == |x.limbs| && (count >= 64 ==> rest == count)
      invariant Value(limbs) == (Val(x) * Pow(2, count - rest)) % m
    {
      var size: nat := if rest < 64 then rest else 64;
      if size == 64 {
        return None;
      }
      ghost var done := count - rest;
      rest := rest - size;
      ShlStep(limbs, Val(x), done, size);
      assert done + size == count - rest;
      limbs := LShift(limbs, size);
    }
    var r := NormalizeSize(Num(x.size, limbs));
    NormalEqual(r, ShiftedLeft(x, count));
    return Some(r);
  }

  /**
   * `<<=` with chunks of at most 63 bits, the most `mpn_lshift` accepts: shift until the count is
   * used up, then normalise. It computes `x << count` for every count.
   */
  method ShlAssign(x: Num, count: nat) returns (y: Num)
    ensures y == ShiftedLeft(x, count)
  {
    var limbs := x.limbs;
    var rest: nat := count;
    ghost var m := Radix(|x.limbs|);
    assert Value(limbs) == (Val(x) * Pow(2, count - rest)) % m by {
      assert Pow(2, 0) == 1;
      SmallMod(Val(x), m);
    }
    while rest != 0
      invariant rest <= count && |limbs| == |x.limbs|
      invariant Value(limbs) == (Val(x) * Pow(2, count - rest)) % m
    {
      var size: nat := if rest < 63 then rest else 63;
      ghost var done := count - rest;
      rest := rest - size;
      ShlStep(limbs, Val(x), done, size);
      assert done + size == count - rest;
      limbs := LShift(limbs, size);
    }
    y := NormalizeSize(Num(x.size, limbs));
    NormalEqual(y, ShiftedLeft(x, count));
  }

  /** One more `mpn_rshift` of `size` bits extends a shift by `done` bits. */
  lemma ShrStep(limbs: seq<Limb>, v: nat, done: nat, size: nat)
    requires 1 <= size < 64
    requires Value(limbs) == v / Pow(2, done)
    ensures Value(RShift(limbs, size)) == v / Pow(2, done + size)
  {
    DivDiv(v, Pow(2, done), Pow(2, size));
    PowAdd(2, done, size);
  }

  /**
   * `>>=` as written: chunks of `min(64, count)` bits with `mpn_rshift`, then normalise; undefined
   * (`None`) from the first chunk of 64 bits, that is exactly when `count >= 64`.
   */
  method ShrAssignAsWritten(x: Num, count: nat) returns (y: Option<Num>)
    ensures y.None? <==> count >= 64
    ensures y.Some? ==> y.value == ShiftedRight(x, count)
  {
    var limbs := x.limbs;
    var rest: nat := count;
    while rest != 0
      invariant rest <= count && |limbs| == |x.limbs| && (count >= 64 ==> rest == count)
      invariant Value(limbs) == Val(x) / Pow(2, count - rest)
    {
      var size: nat := if rest < 64 then rest else 64;
      if size == 64 {
        return None;
      }
      ghost var done := count - rest;
      rest := rest - size;
      ShrStep(limbs, Val(x), done, size);
      assert done + size == count - rest;
      limbs := RShift(limbs, size);
    }
    var r := NormalizeSize(Num(x.size, limbs));
    NormalEqual(r, ShiftedRight(x, count));
    return Some(r);
  }

  /** `>>=` with chunks of at most 63 bits: it computes `x >> count` for every count. */
  method ShrAssign(x: Num, count: nat) returns (y: Num)
    ensures y == ShiftedRight(x, count)
  {
    var limbs := x.limbs;
    var rest: nat := count;
    while rest != 0
      invariant rest <= count && |limbs| == |x.limbs|
      invariant Value(limbs) == Val(x) / Pow(2, count - rest)
    {
      var size: nat := if rest < 63 then rest else 63;
      ghost var done := count - rest;
      rest := rest - size;
      ShrStep(limbs, Val(x), done, size);
      assert done + size == count - rest;
      limbs := RShift(limbs, size);
    }
    y := NormalizeSize(Num(x.size, limbs));
    NormalEqual(y, ShiftedRight(x, count));
  }

  /** A left shift that loses no bits is undone by the right shift. */
  lemma ShiftRoundTrip(x: Num, count: nat)
    requires Normal(x) && Val(x) * Pow(2, count) < Radix(|x.limbs|)
    ensures ShiftedRight(ShiftedLeft(x, count), count) == x
  {
    var l := ShiftedLeft(x, count);
    var v, p := Val(x), Pow(2, count);
    assert Val(l) == v * p by {
      SmallMod(v * p, Radix(|x.limbs|));
    }
    assert Val(ShiftedRight(l, count)) == v by {
      MulMod(p, v);
      assert v * p == p * v;
    }
    NormalEqual(ShiftedRight(l, count), x);
  }

  /** Shifting by whole limbs multiplies by the radix. */
  lemma ShiftByLimbs(x: Num, k: nat)
    ensures Val(ShiftedLeft(x, 64 * k)) == (Val(x) * Radix(k)) % Radix(|x.limbs|)
    ensures Val(ShiftedRight(x, 64 * k)) == Val(x) / Radix(k)
  {
    RadixIsPowerOfTwo(k);
  }

  /** `x + y` (`Add`, `Add<u64>`): the sum, or a panic when it does not fit the width. */
  function Sum(x: Num, y: Num): (r: Option<Num>)
    requires |x.limbs| == |y.limbs|
    ensures r.Some? <==> Val(x) + Val(y) < Radix(|x.limbs|)
    ensures r.Some? ==> Wf(r.value, |x.limbs|) && Val(r.value) == Val(x) + Val(y)
  {
    var s := AddN(x.limbs, y.limbs);
    if s.1 != 0 then None else Some(Normalized(s.0))
  }

  /** `+=`: `mpn_add_n` in place, assert that no carry came out, normalise. */
  method AddAssign(x: Num, y: Num) returns (r: Option<Num>)
    requires |x.limbs| == |y.limbs|
    ensures r == Sum(x, y)
  {
    var (limbs, carry) := AddN(x.limbs, y.limbs);
    if carry != 0 {
      return None;
    }
    var sum := NormalizeSize(Num(x.size, limbs));
    return Some(sum);
  }

  /** `x - y` (`Sub`, `Sub for &U256`, `Sub<u64>`): the difference, or a panic when it is negative. */
  function Difference(x: Num, y: Num): (r: Option<Num>)
    requires |x.limbs| == |y.limbs|
    ensures r.Some? <==> Val(y) <= Val(x)
    ensures r.Some? ==> Wf(r.value, |x.limbs|) && Val(r.value) == Val(x) - Val(y)
  {
    var d := SubN(x.limbs, y.limbs);
    if d.1 != 0 then None else Some(Normalized(d.0))
  }

  /** `-=`: `mpn_sub_n` in place, assert that no borrow came out, normalise. */
  method SubAssign(x: Num, y: Num) returns (r: Option<Num>)
    requires |x.limbs| == |y.limbs|
    ensures r == Difference(x, y)
  {
    var (limbs, borrow) := SubN(x.limbs, y.limbs);
    if borrow != 0 {
      return None;
    }
    var difference := NormalizeSize(Num(x.size, limbs));
    return Some(difference);
  }

  /** Subtraction undoes addition. */
  lemma SumDifference(x: Num, y: Num)
    requires Normal(x) && |x.limbs| == |y.limbs| && Sum(x, y).Some?
    ensures Difference(Sum(x, y).value, y) == Some(x)
  {
    NormalEqual(Difference(Sum(x, y).value, y).value, x);
  }

  /** `U256 * U256` (`mpn_mul_n`): the exact product, in twice the width. */
  function Product(x: Num, y: Num): (r: Num)
    requires |x.limbs| == |y.limbs|
    ensures Wf(r, 2 * |x.limbs|) && Val(r) == Val(x) * Val(y)
  {
    Normalized(MulLimbs(x.limbs, y.limbs))
  }

  /**
   * `U512 * U512` (`mpn_mul` on the significant limbs, the longer operand first). GMP writes
   * `x.size + y.size` limbs into the eight-limb result, so when the sizes add up to more than
   * eight the write runs past the array; that is `None` here.
   */
  function WideProduct(x: Num, y: Num): (r: Option<Num>)
    requires Normal(x) && Normal(y) && |x.limbs| == |y.limbs|
    ensures r.Some? <==> x.size + y.size <= |x.limbs|
    ensures r.Some? ==> Wf(r.value, |x.limbs|) && Val(r.value) == Val(x) * Val(y)
  {
    var n := |x.limbs|;
    if x.size + y.size > n then None
    else
      var xs, ys := x.limbs[..x.size], y.limbs[..y.size];
      ValueOfSized(x.limbs);
      ValueOfSized(y.limbs);
      var p := if x.size >= y.size then MulLimbs(xs, ys) else MulLimbs(ys, xs);
      assert Value(p) == Val(x) * Val(y) by {
        assert Value(xs) * Value(ys) == Value(ys) * Value(xs);
      }
      var r := p + Zeros(n - |p|);
      assert Value(r) == Val(x) * Val(y) by {
        ExtendKeeps(p, n - |p|);
      }
      Some(Normalized(r))
  }

  /** `U512 * U512` as intended: the product whenever it fits in eight limbs. */
  function WideProductChecked(x: Num, y: Num): (r: Option<Num>)
    requires Normal(x) && Normal(y) && |x.limbs| == |y.limbs|
    ensures r.Some? <==> Val(x) * Val(y) < Radix(|x.limbs|)
    ensures r.Some? ==> Wf(r.value, |x.limbs|) && Val(r.value) == Val(x) * Val(y)
  {
    var p := Product(x, y);
    if Val(p) < Radix(|x.limbs|) then
      var r := LowLimbs(p, |x.limbs|);
      assert Val(r) == Val(p) by {
        SmallMod(Val(p), Radix(|x.limbs|));
      }
      Some(r)
    else None
  }

  /** The lowest `n` limbs of `x`, renormalised. */
  function LowLimbs(x: Num, n: nat): (r: Num)
    requires n <= |x.limbs|
    ensures Wf(r, n) && Val(r) == Val(x) % Radix(n)
  {
    var low, high := x.limbs[..n], x.limbs[n..];
    assert Value(low) == Val(x) % Radix(n) by {
      SplitValue(x.limbs, n);
    }
    Normalized(low)
  }

  /** The significant limbs of a normal number, as `mpn` functions receive them. */
  lemma SignificantLimbs(x: Num)
    requires Normal(x)
    ensures Value(x.limbs[..x.size]) == Val(x)
    ensures x.size == 0 <==> Val(x) == 0
    ensures x.size > 0 ==> x.limbs[x.size - 1] != 0
  {
    ValueOfSized(x.limbs);
    SizeBounds(x.limbs);
  }

  /** Limbs written into a zeroed array of `n` limbs, then normalised. */
  function Padded(limbs: seq<Limb>, n: nat): (r: Num)
    requires |limbs| <= n
    ensures Wf(r, n) && Val(r) == Value(limbs)
  {
    ExtendKeeps(limbs, n - |limbs|);
    Normalized(limbs + Zeros(n - |limbs|))
  }

  /** A divisor with more significant limbs than the dividend leaves quotient 0. */
  lemma LongerDivisor(x: Num, d: Num)
    requires Normal(x) && Normal(d) && d.size > x.size
    ensures Val(d) > 0 && Val(x) / Val(d) == 0 && Val(x) % Val(d) == Val(x)
  {
    SizeOrder(x.limbs, d.limbs);
    SmallMod(Val(x), Val(d));
  }

  /** `mpn_tdiv_qr` on the significant limbs: the quotient and the remainder. */
  function SignificantQR(x: Num, d: Num): (r: (seq<Limb>, seq<Limb>))
    requires Normal(x) && Normal(d) && 0 < d.size <= x.size
    ensures |r.0| == x.size - d.size + 1 && |r.1| == d.size && Val(d) > 0
    ensures Value(r.0) == Val(x) / Val(d) && Value(r.1) == Val(x) % Val(d)
  {
    SignificantLimbs(x);
    SignificantLimbs(d);
    TDivQR(x.limbs[..x.size], d.limbs[..d.size])
  }

  /**
   * `div_rem` of U256 and U512: `(0, self)` when the divisor has more limbs, otherwise
   * `mpn_tdiv_qr` into zeroed quotient and remainder arrays. GMP needs a divisor with a non-zero
   * top limb, so a zero divisor is `None`.
   */
  function DivRem(x: Num, d: Num): (r: Option<(Num, Num)>)
    requires Normal(x) && Normal(d) && |x.limbs| == |d.limbs|
    ensures r.Some? <==> Val(d) > 0
    ensures r.Some? ==> Wf(r.value.0, |x.limbs|) && Wf(r.value.1, |x.limbs|)
    ensures r.Some? ==> Val(r.value.0) == Val(x) / Val(d) && Val(r.value.1) == Val(x) % Val(d)
  {
    var n := |x.limbs|;
    if d.size > x.size then
      LongerDivisor(x, d);
      Some((Zero(n), x))
    else if d.size == 0 then
      SignificantLimbs(d);
      None
    else
      var qr := SignificantQR(x, d);
      Some((Padded(qr.0, n), Padded(qr.1, n)))
  }

  /** The quotient and remainder rebuild the dividend, and the remainder is below the divisor. */
  lemma DivRemRebuilds(x: Num, d: Num)
    requires Normal(x) && Normal(d) && |x.limbs| == |d.limbs| && Val(d) > 0
    ensures var qr := DivRem(x, d).value;
      Val(qr.0) * Val(d) + Val(qr.1) == Val(x) && Val(qr.1) < Val(d)
  {
    DivModRebuild(Val(x), Val(d));
  }

  /**
   * `Rem<&U256> for U512`: `low_u256` when the divisor has more limbs, otherwise `mpn_tdiv_qr`
   * with the remainder written into a zeroed U256.
   */
  function RemWide(x: U512, d: U256): (r: Option<U256>)
    ensures r.Some? <==> Val(d) > 0
    ensures r.Some? ==> Val(r.value) == Val(x) % Val(d)
  {
    if d.size > x.size then
      LongerDivisor(x, d);
      SmallMod(Val(x), Radix(4));
      Some(LowU256(x))
    else if d.size == 0 then
      SignificantLimbs(d);
      None
    else
      var rem: U256 := Padded(SignificantQR(x, d).1, 4);
      Some(rem)
  }

  /** What `mpn_tdiv_qr` leaves in `self`: the remainder below the dividend's upper limbs. */
  function InPlaceRemainder(x: Num, d: Num): (r: Num)
    requires Normal(x) && Normal(d) && |x.limbs| == |d.limbs| && 0 < d.size <= x.size
    ensures Normal(r) && |r.limbs| == |x.limbs| && Val(d) > 0
    ensures Val(r) == Val(x) % Val(d) + Radix(d.size) * Value(x.limbs[d.size..])
  {
    SignificantLimbs(d);
    var rem := SignificantQR(x, d).1;
    ValueAppend(rem, x.limbs[d.size..]);
    Normalized(rem + x.limbs[d.size..])
  }

  /**
   * `div_rem_mut` (and `%=`) as written: `mpn_tdiv_qr` writes the remainder over the lowest
   * `d.size` limbs of `self` only, so the limbs of the dividend above them stay.
   */
  function DivRemInPlace(x: Num, d: Num): (r: Option<(Num, Num)>)
    requires Normal(x) && Normal(d) && |x.limbs| == |d.limbs|
    ensures r.Some? <==> Val(d) > 0
    ensures r.Some? ==> Wf(r.value.0, |x.limbs|) && Val(r.value.0) == Val(x) / Val(d)
    ensures r.Some? && d.size > x.size ==> r.value.1 == x && Val(x) < Val(d)
    ensures r.Some? && d.size <= x.size ==>
      (Normal(r.value.1) && |r.value.1.limbs| == |x.limbs|
       && Val(r.value.1) == Val(x) % Val(d) + Radix(d.size) * Value(x.limbs[d.size..]))
  {
    var n := |x.limbs|;
    if d.size > x.size then
      LongerDivisor(x, d);
      Some((Zero(n), x))
    else if d.size == 0 then
      SignificantLimbs(d);
      None
    else
      Some((Padded(SignificantQR(x, d).0, n), InPlaceRemainder(x, d)))
  }

  /** `div_rem_mut`: the quotient is returned and `self` becomes what `mpn_tdiv_qr` left in it. */
  method DivRemMut(x: Num, d: Num) returns (r: Option<(Num, Num)>)
    requires Normal(x) && Normal(d) && |x.limbs| == |d.limbs|
    ensures r == DivRemInPlace(x, d)
  {
    if d.size > x.size {
      return Some((Zero(|x.limbs|), x));
    }
    if d.size == 0 {
      return None;
    }
    var (q, rem) := SignificantQR(x, d);
    assert DivRemInPlace(x, d)
        == Some((Normalized(q + Zeros(|x.limbs| - |q|)), Normalized(rem + x.limbs[d.size..])));
    var y := Num(0, q + Zeros(|x.limbs| - |q|));
    var self' := Num(x.size, rem + x.limbs[d.size..]);
    self' := NormalizeSize(self');
    y := NormalizeSize(y);
    return Some((y, self'));
  }

  /**
   * `2^64 %= 3` leaves `2^64 + 1` instead of 1: the remainder 1 goes into the lowest limb and the
   * dividend's second limb stays.
   */
  lemma RemAssignKeepsHighLimb()
    ensures var x, d := FromValue(Base, 4), FromValue(3, 4);
      DivRemInPlace(x, d).Some? && Val(DivRemInPlace(x, d).value.1) == Base + 1
      && Val(DivRem(x, d).value.1) == 1 && Val(x) % Val(d) == 1
  {
    var x, d := FromValue(Base, 4), FromValue(3, 4);
    assert Radix(4) == Base * Base * Base * Base;
    SmallMod(Base, Radix(4));
    DivModUnique(Base, 3, 6148914691236517205, 1);
    assert ToLimbs(3, 4) == [3, 0, 0, 0];
    assert ToLimbs(Base, 4) == [0, 1, 0, 0];
    SizeOfUnique(d.limbs, 1);
    SizeOfUnique(x.limbs, 2);
    assert x.limbs[1..] == [1, 0, 0];
    assert Value([1, 0, 0]) == 1;
  }

  // The arithmetic tests of src/u256.rs, on any operands holding the values those tests use;
  // the expected limb arrays are written as the numbers they denote.

  lemma AddSmallExample(x: Num, y: Num)
    requires Wf(x, 4) && Wf(y, 4) && Val(x) == 1 && Val(y) == 2
    ensures Sum(x, y) == Some(FromValue(3, 4))
  {
    assert Val(x) + Val(y) < Radix(4) by {
      assert Radix(4) == Base * Base * Base * Base;
    }
    var r, e := Sum(x, y).value, FromValue(3, 4);
    NormalEqual(r, e);
  }

  lemma AddCarryExample(x: Num, y: Num)
    requires Wf(x, 4) && Wf(y, 4) && Val(x) == Base && Val(y) == Base
    ensures Sum(x, y) == Some(FromValue(2 * Base, 4))
  {
    assert Val(x) + Val(y) < Radix(4) by {
      assert Radix(4) == Base * Base * Base * Base;
    }
    var r, e := Sum(x, y).value, FromValue(2 * Base, 4);
    NormalEqual(r, e);
  }

  lemma AddWideExample(x: Num, y: Num)
    requires Wf(x, 4) && Wf(y, 4) && Val(x) == Base && Val(y) == Base + Radix(2) + Radix(3)
    ensures Sum(x, y) == Some(FromValue(2 * Base + Radix(2) + Radix(3), 4))
  {
    assert Val(x) + Val(y) < Radix(4) by {
      assert Radix(4) == Base * Base * Base * Base;
    }
    var r, e := Sum(x, y).value, FromValue(2 * Base + Radix(2) + Radix(3), 4);
    NormalEqual(r, e);
  }

  lemma MulSmallExample(x: Num, y: Num)
    requires Wf(x, 4) && Wf(y, 4) && Val(x) == 2 && Val(y) == 3
    ensures Product(x, y) == FromValue(6, 8)
  {
    var r, e := Product(x, y), FromValue(6, 8);
    assert Val(r) == 6;
    NormalEqual(r, e);
  }

  lemma MulCarryExample(x: Num, y: Num)
    requires Wf(x, 4) && Wf(y, 4) && Val(x) == Base && Val(y) == Base
    ensures Product(x, y) == FromValue(Radix(2), 8)
  {
    var r, e := Product(x, y), FromValue(Radix(2), 8);
    assert Val(r) == Radix(2);
    NormalEqual(r, e);
  }

  lemma MulWideExample(x: Num, y: Num)
    requires Wf(x, 4) && Wf(y, 4) && Val(x) == 0x2_0000_0000_0000_0000
    requires Val(y) == 0x1_0000_0000_0000_0000_0000_0000_0000_0001_0000_0000_0000_0000
    ensures Product(x, y) == FromValue(0x2_0000_0000_0000_0000_0000_0000_0000_0002_0000_0000_0000_0000_0000_0000_0000_0000, 8)
  {
    var r, e := Product(x, y), FromValue(0x2_0000_0000_0000_0000_0000_0000_0000_0002_0000_0000_0000_0000_0000_0000_0000_0000, 8);
    assert Val(x) * Val(y) == 0x2_0000_0000_0000_0000 * 0x1_0000_0000_0000_0000_0000_0000_0000_0001_0000_0000_0000_0000;
    assert Val(r) == 0x2_0000_0000_0000_0000_0000_0000_0000_0002_0000_0000_0000_0000_0000_0000_0000_0000;
    NormalEqual(r, e);
  }

  /**
   * `U512 * U512` writes past its array for `2^256 * 2^192` (five and four significant limbs)
   * although the product `2^448` fits in eight limbs.
   */
  lemma WideProductOverruns(x: Num, y: Num)
    requires Wf(x, 8) && Wf(y, 8) && Val(x) == Radix(4) && Val(y) == Radix(3)
    ensures WideProduct(x, y).None?
    ensures WideProductChecked(x, y).Some? && Val(WideProductChecked(x, y).value) == Radix(7)
  {
    SizeAtLeast(x.limbs, 4);
    SizeAtLeast(y.limbs, 3);
    RadixAdd(4, 3);
    RadixAdd(7, 1);
    assert Radix(1) == Base;
  }
}
