/**
 * The dummy RSA group of src/group/dummy2048.rs: residues modulo the RSA-2048 number with `x`
 * and `-x` identified, each class represented by its member in `[0, n/2]`. The modulus is a
 * parameter `n` of the functions; the group itself uses the constant `Modulus`.
 *
 * `util::bezout` is not part of this model: it is taken to return the cofactors of the extended
 * Euclidean algorithm (`Arith.ExtGcd`), and the inverse it leads to is `Arith.ModInverse`.
 */
module Dummy2048 {
  import opened Wrappers
  import opened Arith
  import opened Group

  /** The RSA-2048 challenge number. */
  const Modulus: nat := 25195908475657893494027183240048398571429282126204032027777137836043662020707595556264018525880784406918290641249515082189298559149176184502808489120072844992687392807287776735971418347270261896375014971824691165077613379859095700097330459748808428401797429100642458691817195118746121515172654632282216869987549182422433637259085141865462043576798423387184774447920739934236584823824281198163815010674810451660377306056201619676256133844143603833904414952634432190114657544454178424020924616515723350778707749817125772467962926386356373289912154831438167899885040445364023527381951378636564391212010397122822120720357

  /** `a` and `b` are equal or opposite modulo `n`: the classes the group identifies. */
  predicate PlusMinus(n: int, a: int, b: int)
    requires n > 0
  {
    (a - b) % n == 0 || (a + b) % n == 0
  }

  /**
   * `elem_from_biguint`: reduce modulo `n`, and replace a residue above `n/2` by its negation
   * modulo `n`. The result is the representative of `a`'s class in `[0, n/2]`.
   */
  function Canonical(n: nat, a: nat): (r: nat)
    requires n > 0
    ensures r <= n / 2 && PlusMinus(n, r, a)
  {
    var v := a % n;
    DivModIdentity(a, n);
    if v > n / 2 then
      var r := (-v) % n;
      DivModUnique(-v, n, -1, n - v);
      MulMod(n, -(a / n) - 1);
      assert r + a == n * (a / n + 1);
      MulMod(n, a / n + 1);
      r
    else
      assert v - a == n * (-(a / n));
      MulMod(n, -(a / n));
      v
  }

  lemma DivisibleSum(n: int, u: int, v: int)
    requires n > 0 && u % n == 0 && v % n == 0
    ensures (u + v) % n == 0 && (u - v) % n == 0 && (-u) % n == 0
  {
    DividesLinear(n, u, v, 1, 1);
    DividesLinear(n, u, v, 1, -1);
    DividesLinear(n, u, v, -1, 0);
  }

  lemma DivisibleScaled(n: int, u: int, z: int)
    requires n > 0 && u % n == 0
    ensures (u * z) % n == 0
  {
    DividesLinear(n, u, 0, z, 0);
  }

  lemma PlusMinusSymmetric(n: int, a: int, b: int)
    requires n > 0 && PlusMinus(n, a, b)
    ensures PlusMinus(n, b, a)
  {
    if (a - b) % n == 0 {
      DivisibleSum(n, a - b, 0);
      assert b - a == -(a - b);
    } else {
      assert b + a == a + b;
    }
  }

  lemma PlusMinusTrans(n: int, a: int, b: int, c: int)
    requires n > 0 && PlusMinus(n, a, b) && PlusMinus(n, b, c)
    ensures PlusMinus(n, a, c)
  {
    if (a - b) % n == 0 && (b - c) % n == 0 {
      DivisibleSum(n, a - b, b - c);
      assert a - c == (a - b) + (b - c);
    } else if (a - b) % n == 0 {
      DivisibleSum(n, a - b, b + c);
      assert a + c == (a - b) + (b + c);
    } else if (b - c) % n == 0 {
      DivisibleSum(n, a + b, b - c);
      assert a + c == (a + b) - (b - c);
    } else {
      DivisibleSum(n, a + b, b + c);
      assert a - c == (a + b) - (b + c);
    }
  }

  lemma PlusMinusScaled(n: int, a: int, b: int, z: int)
    requires n > 0 && PlusMinus(n, a, b)
    ensures PlusMinus(n, a * z, b * z) && PlusMinus(n, z * a, z * b)
  {
    assert a * z == z * a && b * z == z * b;
    if (a - b) % n == 0 {
      DivisibleScaled(n, a - b, z);
      assert (a - b) * z == a * z - b * z;
    } else {
      DivisibleScaled(n, a + b, z);
      assert (a + b) * z == a * z + b * z;
    }
  }

  /** A residue is congruent to its number. */
  lemma PlusMinusMod(n: int, a: int)
    requires n > 0
    ensures PlusMinus(n, a % n, a)
  {
    DivModIdentity(a, n);
    assert a % n - a == n * (-(a / n));
    MulModAny(n, -(a / n));
  }

  /** Two numbers in `[0, n/2]` that are equal or opposite modulo `n` are equal. */
  lemma HalvesPlusMinus(n: int, r: int, c: int)
    requires n > 0 && 0 <= r <= n / 2 && 0 <= c <= n / 2 && PlusMinus(n, r, c)
    ensures r == c
  {
    assert n == 2 * (n / 2) + n % 2;
    if (r - c) % n == 0 {
      SmallModZero(r - c, n);
    } else if r + c < n {
      SmallModZero(r + c, n);
    }
  }

  /** A representative in `[0, n/2]` is unique: it is the canonical one. */
  lemma CanonicalUnique(n: nat, r: nat, a: nat)
    requires n > 0 && r <= n / 2 && PlusMinus(n, r, a)
    ensures r == Canonical(n, a)
  {
    var c := Canonical(n, a);
    PlusMinusSymmetric(n, c, a);
    PlusMinusTrans(n, r, a, c);
    HalvesPlusMinus(n, r, c);
  }

  /** Two numbers give the same element exactly when they are equal or opposite modulo `n`. */
  lemma CanonicalEqual(n: nat, a: nat, b: nat)
    requires n > 0
    ensures Canonical(n, a) == Canonical(n, b) <==> PlusMinus(n, a, b)
  {
    var ca, cb := Canonical(n, a), Canonical(n, b);
    if ca == cb {
      PlusMinusSymmetric(n, ca, a);
      PlusMinusTrans(n, a, ca, b);
    }
    if PlusMinus(n, a, b) {
      PlusMinusTrans(n, ca, a, b);
      CanonicalUnique(n, ca, b);
    }
  }

  /** A number already in `[0, n/2]` is its own representative. */
  lemma CanonicalSmall(n: nat, a: nat)
    requires n > 0 && a <= n / 2
    ensures Canonical(n, a) == a
  {
    assert PlusMinus(n, a, a);
    CanonicalUnique(n, a, a);
  }

  /** The elements: canonical representatives. */
  predicate IsElem(n: nat, x: nat)
  {
    x <= n / 2
  }

  /** `op_`: the canonical representative of `(a * b) mod n`. */
  function Op(n: nat, x: nat, y: nat): (r: nat)
    requires n > 0
    ensures IsElem(n, r) && PlusMinus(n, r, x * y)
  {
    var r := Canonical(n, (x * y) % n);
    PlusMinusMod(n, x * y);
    PlusMinusTrans(n, r, (x * y) % n, x * y);
    r
  }

  /** `id_`: the element of 1. */
  function Id(n: nat): (r: nat)
    requires n > 0
    ensures IsElem(n, r) && PlusMinus(n, r, 1)
    ensures n >= 2 ==> r == 1
  {
    if n >= 2 then CanonicalSmall(n, 1); Canonical(n, 1) else Canonical(n, 1)
  }

  /** `unknown_order_elem_`: the element of 2. */
  function UnknownOrderElem(n: nat): (r: nat)
    requires n > 0
    ensures IsElem(n, r) && PlusMinus(n, r, 2)
    ensures n >= 4 ==> r == 2
  {
    if n >= 4 then CanonicalSmall(n, 2); Canonical(n, 2) else Canonical(n, 2)
  }

  /**
   * `inv_`: with `gcd(x, n) = 1` the Bezout cofactor of `x`, reduced modulo `n` and made
   * canonical. A common factor trips the assertion; that panic is `None`.
   */
  function Inv(n: nat, x: nat): (r: Option<nat>)
    requires n > 1
    ensures r.None? <==> Gcd(x, n) != 1
    ensures r.Some? ==> IsElem(n, r.value) && (x * r.value) % n != 0
  {
    if Gcd(x, n) != 1 then None
    else
      var y := Canonical(n, ModInverse(x, n));
      InvIsInverse(n, x, y);
      CanonicalUnique(n, Id(n), x * y);
      assert (x * y) % n != 0 by {
        if (x * y) % n == 0 {
          assert PlusMinus(n, 0, x * y);
          CanonicalUnique(n, 0, x * y);
        }
      }
      Some(y)
  }

  lemma InvIsInverse(n: nat, x: nat, y: nat)
    requires n > 1 && Gcd(x, n) == 1 && y == Canonical(n, ModInverse(x, n))
    ensures PlusMinus(n, Id(n), x * y)
  {
    var s := ModInverse(x, n);
    var xy, xs := x * y, x * s;
    assert xs % n == 1;
    PlusMinusScaled(n, y, s, x);
    assert PlusMinus(n, xy, xs);
    PlusMinusMod(n, xs);
    assert PlusMinus(n, 1, xs);
    PlusMinusSymmetric(n, 1, xs);
    PlusMinusTrans(n, xy, xs, 1);
    PlusMinusSymmetric(n, xy, 1);
    PlusMinusTrans(n, Id(n), 1, xy);
  }

  // ---------------------------------------------------------------------------------------------
  // The group laws on the canonical representatives

  lemma OpCommutative(n: nat, x: nat, y: nat)
    requires n > 0
    ensures Op(n, x, y) == Op(n, y, x)
  {
    assert x * y == y * x;
  }

  lemma {:induction false} OpAssociative(n: nat, x: nat, y: nat, z: nat)
    requires n > 0
    ensures Op(n, Op(n, x, y), z) == Op(n, x, Op(n, y, z))
  {
    var l, r := Op(n, x, y), Op(n, y, z);
    PlusMinusScaled(n, l, x * y, z);
    PlusMinusScaled(n, r, y * z, x);
    assert (x * y) * z == (y * z) * x == x * (y * z) by {
      assert (x * y) * z == x * (y * z);
    }
    assert r * x == x * r;
    PlusMinusTrans(n, Op(n, l, z), l * z, (x * y) * z);
    PlusMinusSymmetric(n, r * x, (y * z) * x);
    PlusMinusTrans(n, Op(n, l, z), (x * y) * z, x * r);
    PlusMinusSymmetric(n, Op(n, x, r), x * r);
    PlusMinusTrans(n, Op(n, l, z), x * r, Op(n, x, r));
    CanonicalUnique(n, Op(n, l, z), Op(n, x, r));
    CanonicalSmall(n, Op(n, x, r));
  }

  lemma OpIdentity(n: nat, x: nat)
    requires n > 0 && IsElem(n, x)
    ensures Op(n, Id(n), x) == x && Op(n, x, Id(n)) == x
  {
    var e := Id(n);
    PlusMinusScaled(n, e, 1, x);
    PlusMinusTrans(n, Op(n, e, x), e * x, x);
    CanonicalUnique(n, Op(n, e, x), x);
    CanonicalSmall(n, x);
    OpCommutative(n, x, e);
  }

  /** `inv` gives an inverse, and it fails exactly when `x` has none (not even up to sign). */
  lemma InvRight(n: nat, x: nat)
    requires n > 1 && IsElem(n, x)
    ensures Inv(n, x).Some? ==> Op(n, x, Inv(n, x).value) == Id(n)
    ensures (exists y: nat :: Op(n, x, y) == Id(n)) ==> Inv(n, x).Some?
  {
    if Inv(n, x).Some? {
      var y := Inv(n, x).value;
      var xy := x * y;
      InvIsInverse(n, x, y);
      PlusMinusSymmetric(n, Id(n), xy);
      PlusMinusTrans(n, Op(n, x, y), xy, Id(n));
      CanonicalUnique(n, Op(n, x, y), Id(n));
      CanonicalSmall(n, Id(n));
    }
    if y: nat :| Op(n, x, y) == Id(n) {
      PlusMinusSymmetric(n, Op(n, x, y), x * y);
      PlusMinusTrans(n, x * y, Op(n, x, y), 1);
      UnitCoprime(n, x, y);
    }
  }

  /** A unit up to sign is coprime to the modulus. */
  lemma UnitCoprime(n: nat, x: nat, y: nat)
    requires n > 1 && PlusMinus(n, x * y, 1)
    ensures Gcd(x, n) == 1
  {
    var g := Gcd(x, n);
    GcdDivides(x, n);
    if (x * y - 1) % n == 0 {
      var k := (x * y - 1) / n;
      DivModIdentity(x * y - 1, n);
      DividesLinear(g, x, n, y, -k);
      assert x * y + n * (-k) == 1;
    } else {
      var k := (x * y + 1) / n;
      DivModIdentity(x * y + 1, n);
      var ny := -(y as int);
      DividesLinear(g, x, n, ny, k);
      assert x * ny + n * k == 1;
    }
    DivisorBound(g, 1);
  }

  // ---------------------------------------------------------------------------------------------
  // The group with the RSA-2048 modulus

  newtype Elem = x: int | 0 <= x <= Modulus / 2

  /** The group; `inv` is total here (on a common factor it gives back `x`). */
  function Rsa(): Group<Elem>
  {
    Group(Id(Modulus) as Elem, (x: Elem, y: Elem) => Op(Modulus, x as nat, y as nat) as Elem,
          (x: Elem) => match Inv(Modulus, x as nat) case Some(y) => y as Elem case None => x)
  }

  lemma RsaIsMonoid()
    ensures IsCommutativeMonoid(Rsa())
  {
    var G := Rsa();
    forall x: Elem, y: Elem, z: Elem ensures AssocAt(G, x, y, z) {
      OpAssociative(Modulus, x as nat, y as nat, z as nat);
    }
    forall x: Elem, y: Elem ensures CommAt(G, x, y) {
      OpCommutative(Modulus, x as nat, y as nat);
    }
    forall x: Elem ensures IdAt(G, x) {
      OpIdentity(Modulus, x as nat);
    }
  }

  /** The cases of `test_op` and `test_inv`: `(n-2)(n-3) = 6` and `2 * inv(2) = id` for odd `n`. */
  lemma OpExamples(n: nat)
    requires n >= 12
    ensures Op(n, Canonical(n, 2), Canonical(n, 3)) == Canonical(n, 6)
    ensures Op(n, Canonical(n, n - 2), Canonical(n, n - 3)) == Canonical(n, 6)
    ensures n % 2 == 1 ==> Inv(n, 2).Some? && Op(n, 2, Inv(n, 2).value) == Id(n)
  {
    CanonicalSmall(n, 2);
    CanonicalSmall(n, 3);
    CanonicalSmall(n, 6);
    DivModUnique(6, n, 0, 6);
    assert PlusMinus(n, 2, n - 2) by { MulMod(n, 1); }
    assert PlusMinus(n, 3, n - 3) by { MulMod(n, 1); }
    CanonicalUnique(n, 2, n - 2);
    CanonicalUnique(n, 3, n - 3);
    if n % 2 == 1 {
      DivModUnique(n, 2, n / 2, 1);
      DivModUnique(2, n, 0, 2);
      assert Gcd(2, n) == Gcd(n, 2) == Gcd(2, 1) == 1;
      InvRight(n, 2);
    }
  }

  /** With the RSA-2048 modulus: the `test_op` and `test_inv` cases, and `2^3 = 8` of `test_exp`. */
  lemma RsaExamples()
    ensures Op(Modulus, Canonical(Modulus, Modulus - 2), Canonical(Modulus, Modulus - 3)) == 6
    ensures Inv(Modulus, 2).Some? && Op(Modulus, 2, Inv(Modulus, 2).value) == 1
    ensures UnknownOrderElem(Modulus) == 2
    ensures Exp(Rsa(), 2, 3) == 8
  {
    OpExamples(Modulus);
    CanonicalSmall(Modulus, 6);
    var G := Rsa();
    CanonicalSmall(Modulus, 2);
    CanonicalSmall(Modulus, 4);
    CanonicalSmall(Modulus, 8);
    DivModUnique(2, Modulus, 0, 2);
    DivModUnique(4, Modulus, 0, 4);
    DivModUnique(8, Modulus, 0, 8);
    assert NatExp(G, 2, 1) == 2;
    assert NatExp(G, 2, 2) == 4;
  }
}
