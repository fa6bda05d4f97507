/**
 * The crate's `Group` abstraction (src/group/mod.rs): an identity, a binary operation and an
 * inverse. A group is a value here; `rep()`, the hidden per-type context the Rust trait passes
 * around, is folded into that value, so `id`, `op`, `exp` and `inv` are used directly.
 *
 * Exponentiation is specified by the n-fold product `NatExp` (negative exponents go through the
 * inverse), and the square-and-multiply loop of the default `exp_` is proved to compute it.
 */
module Group {
  import opened Arith

  datatype Group<!E> = Group(id: E, op: (E, E) -> E, inv: E -> E)

  // The group laws at given elements. The laws below quantify over these predicates, so they are
  // only instantiated where a proof names the elements (through the lemmas Assoc, Comm, ...).
  ghost predicate AssocAt<E>(G: Group<E>, x: E, y: E, z: E) { G.op(G.op(x, y), z) == G.op(x, G.op(y, z)) }
  ghost predicate CommAt<E>(G: Group<E>, x: E, y: E) { G.op(x, y) == G.op(y, x) }
  ghost predicate IdAt<E>(G: Group<E>, x: E) { G.op(G.id, x) == x }
  ghost predicate InvAt<E>(G: Group<E>, x: E) { G.op(x, G.inv(x)) == G.id }

  /** Associative and commutative, with `id` neutral: enough for non-negative exponents. */
  ghost predicate IsCommutativeMonoid<E(!new)>(G: Group<E>)
  {
    && (forall x, y, z :: AssocAt(G, x, y, z))
    && (forall x, y :: CommAt(G, x, y))
    && (forall x :: IdAt(G, x))
  }

  /** Every element has an inverse: the groups the accumulator is instantiated with. */
  ghost predicate IsAbelianGroup<E(!new)>(G: Group<E>)
  {
    IsCommutativeMonoid(G) && forall x :: InvAt(G, x)
  }

  lemma Assoc<E(!new)>(G: Group<E>, x: E, y: E, z: E)
    requires IsCommutativeMonoid(G)
    ensures G.op(G.op(x, y), z) == G.op(x, G.op(y, z))
  {
    assert AssocAt(G, x, y, z);
  }

  lemma Comm<E(!new)>(G: Group<E>, x: E, y: E)
    requires IsCommutativeMonoid(G)
    ensures G.op(x, y) == G.op(y, x)
  {
    assert CommAt(G, x, y);
  }

  lemma IdLeft<E(!new)>(G: Group<E>, x: E)
    requires IsCommutativeMonoid(G)
    ensures G.op(G.id, x) == x
  {
    assert IdAt(G, x);
  }

  lemma OpIdRight<E(!new)>(G: Group<E>, x: E)
    requires IsCommutativeMonoid(G)
    ensures G.op(x, G.id) == x
  {
    Comm(G, x, G.id);
    IdLeft(G, x);
  }

  lemma InvRight<E(!new)>(G: Group<E>, x: E)
    requires IsAbelianGroup(G)
    ensures G.op(x, G.inv(x)) == G.id && G.op(G.inv(x), x) == G.id
  {
    assert InvAt(G, x);
    Comm(G, x, G.inv(x));
  }

  /** `a` combined with itself `n` times. */
  function NatExp<E>(G: Group<E>, a: E, n: nat): E
  {
    if n == 0 then G.id else G.op(a, NatExp(G, a, n - 1))
  }

  /** `a^n` for any integer `n`; a negative power is a power of the inverse. */
  function Exp<E>(G: Group<E>, a: E, n: int): E
  {
    if n >= 0 then NatExp(G, a, n) else NatExp(G, G.inv(a), -n)
  }

  /** The left fold of `op` from `id`, as `witnesses.iter().fold(id, op)`. */
  function Fold<E>(G: Group<E>, ws: seq<E>): E
  {
    if |ws| == 0 then G.id else G.op(Fold(G, ws[..|ws| - 1]), ws[|ws| - 1])
  }

  // ---------------------------------------------------------------------------------------------
  // Laws of non-negative powers in a commutative monoid

  /** Regroups `(a b)(c d)` as `(a c)(b d)`. */
  lemma Interchange<E(!new)>(G: Group<E>, a: E, b: E, c: E, d: E)
    requires IsCommutativeMonoid(G)
    ensures G.op(G.op(a, b), G.op(c, d)) == G.op(G.op(a, c), G.op(b, d))
  {
    calc {
      G.op(G.op(a, b), G.op(c, d));
      { Assoc(G, a, b, G.op(c, d)); }
      G.op(a, G.op(b, G.op(c, d)));
      { Assoc(G, b, c, d); }
      G.op(a, G.op(G.op(b, c), d));
      { Comm(G, b, c); }
      G.op(a, G.op(G.op(c, b), d));
      { Assoc(G, c, b, d); }
      G.op(a, G.op(c, G.op(b, d)));
      { Assoc(G, a, c, G.op(b, d)); }
      G.op(G.op(a, c), G.op(b, d));
    }
  }

  lemma {:induction false} NatExpAdd<E(!new)>(G: Group<E>, a: E, m: nat, n: nat)
    requires IsCommutativeMonoid(G)
    ensures NatExp(G, a, m + n) == G.op(NatExp(G, a, m), NatExp(G, a, n))
  {
    if m > 0 {
      NatExpAdd(G, a, m - 1, n);
      assert NatExp(G, a, m + n) == G.op(a, NatExp(G, a, m - 1 + n));
      Assoc(G, a, NatExp(G, a, m - 1), NatExp(G, a, n));
    } else {
      IdLeft(G, NatExp(G, a, n));
    }
  }

  lemma {:induction false} NatExpOp<E(!new)>(G: Group<E>, a: E, b: E, n: nat)
    requires IsCommutativeMonoid(G)
    ensures NatExp(G, G.op(a, b), n) == G.op(NatExp(G, a, n), NatExp(G, b, n))
  {
    if n == 0 {
      IdLeft(G, G.id);
    } else {
      NatExpOp(G, a, b, n - 1);
      Interchange(G, a, b, NatExp(G, a, n - 1), NatExp(G, b, n - 1));
    }
  }

  lemma {:induction false} NatExpMul<E(!new)>(G: Group<E>, a: E, m: nat, n: nat)
    requires IsCommutativeMonoid(G)
    ensures NatExp(G, NatExp(G, a, m), n) == NatExp(G, a, m * n)
  {
    if n > 0 {
      NatExpMul(G, a, m, n - 1);
      NatExpAdd(G, a, m, m * (n - 1));
      assert m * n == m + m * (n - 1);
    }
  }

  lemma {:induction false} NatExpId<E(!new)>(G: Group<E>, n: nat)
    requires IsCommutativeMonoid(G)
    ensures NatExp(G, G.id, n) == G.id
  {
    if n > 0 {
      NatExpId(G, n - 1);
      IdLeft(G, G.id);
    }
  }

  /** Squaring the base halves the exponent: the step square-and-multiply relies on. */
  lemma NatExpSquare<E(!new)>(G: Group<E>, a: E, k: nat)
    requires IsCommutativeMonoid(G)
    ensures NatExp(G, G.op(a, a), k) == NatExp(G, a, 2 * k)
  {
    NatExpOp(G, a, a, k);
    NatExpAdd(G, a, k, k);
  }

  lemma {:induction false} FoldAppend<E(!new)>(G: Group<E>, u: seq<E>, v: seq<E>)
    requires IsCommutativeMonoid(G)
    ensures Fold(G, u + v) == G.op(Fold(G, u), Fold(G, v))
    decreases |v|
  {
    if |v| == 0 {
      assert u + v == u;
      OpIdRight(G, Fold(G, u));
    } else {
      var w := u + v;
      assert w[..|w| - 1] == u + v[..|v| - 1];
      FoldAppend(G, u, v[..|v| - 1]);
      Assoc(G, Fold(G, u), Fold(G, v[..|v| - 1]), v[|v| - 1]);
    }
  }

  // ---------------------------------------------------------------------------------------------
  // Laws of integer powers in an abelian group

  lemma ExpOne<E(!new)>(G: Group<E>, a: E)
    requires IsCommutativeMonoid(G)
    ensures Exp(G, a, 1) == a
  {
    assert NatExp(G, a, 1) == G.op(a, NatExp(G, a, 0));
    OpIdRight(G, a);
  }

  lemma InverseUnique<E(!new)>(G: Group<E>, x: E, y: E)
    requires IsAbelianGroup(G) && G.op(x, y) == G.id
    ensures y == G.inv(x)
  {
    calc {
      y;
      { IdLeft(G, y); }
      G.op(G.id, y);
      { InvRight(G, x); }
      G.op(G.op(G.inv(x), x), y);
      { Assoc(G, G.inv(x), x, y); }
      G.op(G.inv(x), G.op(x, y));
      G.op(G.inv(x), G.id);
      { OpIdRight(G, G.inv(x)); }
      G.inv(x);
    }
  }

  lemma ExpSucc<E(!new)>(G: Group<E>, a: E, n: int)
    requires IsAbelianGroup(G)
    ensures Exp(G, a, n + 1) == G.op(a, Exp(G, a, n))
  {
    if n < 0 {
      var ia := G.inv(a);
      assert Exp(G, a, n) == G.op(ia, NatExp(G, ia, -n - 1));
      assert Exp(G, a, n + 1) == NatExp(G, ia, -n - 1) by {
        if n == -1 {
          assert Exp(G, a, n + 1) == G.id == NatExp(G, ia, 0);
        }
      }
      calc {
        G.op(a, Exp(G, a, n));
        G.op(a, G.op(ia, Exp(G, a, n + 1)));
        { Assoc(G, a, ia, Exp(G, a, n + 1)); }
        G.op(G.op(a, ia), Exp(G, a, n + 1));
        { InvRight(G, a); }
        G.op(G.id, Exp(G, a, n + 1));
        { IdLeft(G, Exp(G, a, n + 1)); }
        Exp(G, a, n + 1);
      }
    }
  }

  lemma ExpPred<E(!new)>(G: Group<E>, a: E, n: int)
    requires IsAbelianGroup(G)
    ensures Exp(G, a, n - 1) == G.op(G.inv(a), Exp(G, a, n))
  {
    ExpSucc(G, a, n - 1);
    var ia := G.inv(a);
    calc {
      G.op(ia, Exp(G, a, n));
      G.op(ia, G.op(a, Exp(G, a, n - 1)));
      { Assoc(G, ia, a, Exp(G, a, n - 1)); }
      G.op(G.op(ia, a), Exp(G, a, n - 1));
      { InvRight(G, a); }
      G.op(G.id, Exp(G, a, n - 1));
      { IdLeft(G, Exp(G, a, n - 1)); }
      Exp(G, a, n - 1);
    }
  }

  lemma {:induction false} ExpAdd<E(!new)>(G: Group<E>, a: E, m: int, n: int)
    requires IsAbelianGroup(G)
    ensures Exp(G, a, m + n) == G.op(Exp(G, a, m), Exp(G, a, n))
    decreases Abs(n)
  {
    var am := Exp(G, a, m);
    if n == 0 {
      OpIdRight(G, am);
    } else if n > 0 {
      ExpAdd(G, a, m, n - 1);
      ExpSucc(G, a, m + n - 1);
      ExpSucc(G, a, n - 1);
      calc {
        Exp(G, a, m + n);
        G.op(a, G.op(am, Exp(G, a, n - 1)));
        { Assoc(G, a, am, Exp(G, a, n - 1)); }
        G.op(G.op(a, am), Exp(G, a, n - 1));
        { Comm(G, a, am); }
        G.op(G.op(am, a), Exp(G, a, n - 1));
        { Assoc(G, am, a, Exp(G, a, n - 1)); }
        G.op(am, G.op(a, Exp(G, a, n - 1)));
      }
    } else {
      ExpAdd(G, a, m, n + 1);
      ExpPred(G, a, m + n + 1);
      ExpPred(G, a, n + 1);
      var ia := G.inv(a);
      calc {
        Exp(G, a, m + n);
        G.op(ia, G.op(am, Exp(G, a, n + 1)));
        { Assoc(G, ia, am, Exp(G, a, n + 1)); }
        G.op(G.op(ia, am), Exp(G, a, n + 1));
        { Comm(G, ia, am); }
        G.op(G.op(am, ia), Exp(G, a, n + 1));
        { Assoc(G, am, ia, Exp(G, a, n + 1)); }
        G.op(am, G.op(ia, Exp(G, a, n + 1)));
      }
    }
  }

  lemma ExpNeg<E(!new)>(G: Group<E>, a: E, m: int)
    requires IsAbelianGroup(G)
    ensures Exp(G, a, -m) == G.inv(Exp(G, a, m))
  {
    ExpAdd(G, a, m, -m);
    InverseUnique(G, Exp(G, a, m), Exp(G, a, -m));
  }

  lemma {:induction false} ExpMul<E(!new)>(G: Group<E>, a: E, m: int, n: int)
    requires IsAbelianGroup(G)
    ensures Exp(G, Exp(G, a, m), n) == Exp(G, a, m * n)
    decreases Abs(n)
  {
    var am := Exp(G, a, m);
    if n > 0 {
      ExpMul(G, a, m, n - 1);
      ExpSucc(G, am, n - 1);
      ExpAdd(G, a, m, m * (n - 1));
      assert m * n == m + m * (n - 1);
    } else if n < 0 {
      ExpMul(G, a, m, n + 1);
      ExpPred(G, am, n + 1);
      ExpNeg(G, a, m);
      ExpAdd(G, a, -m, m * (n + 1));
      assert m * n == -m + m * (n + 1);
    }
  }

  lemma InvOp<E(!new)>(G: Group<E>, a: E, b: E)
    requires IsAbelianGroup(G)
    ensures G.inv(G.op(a, b)) == G.op(G.inv(a), G.inv(b))
  {
    Interchange(G, a, b, G.inv(a), G.inv(b));
    InvRight(G, a);
    InvRight(G, b);
    IdLeft(G, G.id);
    InverseUnique(G, G.op(a, b), G.op(G.inv(a), G.inv(b)));
  }

  lemma ExpOp<E(!new)>(G: Group<E>, a: E, b: E, n: int)
    requires IsAbelianGroup(G)
    ensures Exp(G, G.op(a, b), n) == G.op(Exp(G, a, n), Exp(G, b, n))
  {
    if n >= 0 {
      NatExpOp(G, a, b, n);
    } else {
      InvOp(G, a, b);
      NatExpOp(G, G.inv(a), G.inv(b), -n);
    }
  }

  // ---------------------------------------------------------------------------------------------
  // The default `exp_` of the `Group` trait

  /**
   * Square-and-multiply: for a negative `n` it starts from the inverse and `-n`, then doubles the
   * base and halves the exponent until it is zero. It computes exactly `a^n`.
   */
  method ExpBySquaring<E(!new)>(G: Group<E>, a: E, n: int) returns (val: E)
    requires IsCommutativeMonoid(G)
    ensures val == Exp(G, a, n)
  {
    var base: E, k: int;
    if n < 0 {
      val, base, k := G.id, G.inv(a), -n;
    } else {
      val, base, k := G.id, a, n;
    }
    IdLeft(G, NatExp(G, base, k));
    while k > 0
      invariant k >= 0
      invariant G.op(val, NatExp(G, base, k)) == Exp(G, a, n)
      decreases k
    {
      var half := k / 2;
      NatExpSquare(G, base, half);
      if k % 2 == 1 {
        assert NatExp(G, base, k) == G.op(base, NatExp(G, base, 2 * half));
        Assoc(G, val, base, NatExp(G, base, 2 * half));
        val := G.op(val, base);
      }
      base := G.op(base, base);
      k := half;
    }
    OpIdRight(G, val);
  }

  // ---------------------------------------------------------------------------------------------
  // `multi_exp`

  /**
   * Given `alphas[i]` and exponents `x[i]`, splits both lists in half, recurses, and raises each
   * half's result to the product of the other half's exponents. A list of one element is
   * returned as it is.
   */
  function MultiExp<E>(G: Group<E>, alphas: seq<E>, x: seq<int>): E
    requires 1 <= |alphas| == |x|
    decreases |alphas|
  {
    if |alphas| == 1 then alphas[0]
    else
      var h := |alphas| / 2;
      var l := MultiExp(G, alphas[..h], x[..h]);
      var r := MultiExp(G, alphas[h..], x[h..]);
      G.op(Exp(G, l, Product(x[h..])), Exp(G, r, Product(x[..h])))
  }

  /**
   * When each `alphas[i]` is `ws[i]^x[i]`, `multi_exp` is the product of the `ws` raised to the
   * product of all exponents.
   */
  lemma {:induction false} MultiExpOfPowers<E(!new)>(G: Group<E>, ws: seq<E>, alphas: seq<E>, x: seq<int>)
    requires IsCommutativeMonoid(G)
    requires 1 <= |alphas| == |x| == |ws|
    requires forall i :: 0 <= i < |x| ==> x[i] >= 0 && alphas[i] == NatExp(G, ws[i], x[i])
    ensures Product(x) >= 0
    ensures MultiExp(G, alphas, x) == NatExp(G, Fold(G, ws), Product(x))
    decreases |alphas|
  {
    if |alphas| == 1 {
      assert ws[..0] == [];
      IdLeft(G, ws[0]);
      assert Product(x) == x[0] * 1;
    } else {
      var h := |alphas| / 2;
      MultiExpOfPowers(G, ws[..h], alphas[..h], x[..h]);
      MultiExpOfPowers(G, ws[h..], alphas[h..], x[h..]);
      MultiExpJoin(G, ws, alphas, x, h);
    }
  }

  /** The halves' results, each a power of its half's fold, combine into the power of the whole fold. */
  lemma MultiExpJoin<E(!new)>(G: Group<E>, ws: seq<E>, alphas: seq<E>, x: seq<int>, h: nat)
    requires IsCommutativeMonoid(G)
    requires 2 <= |alphas| == |x| == |ws| && h == |alphas| / 2
    requires Product(x[..h]) >= 0 && Product(x[h..]) >= 0
    requires MultiExp(G, alphas[..h], x[..h]) == NatExp(G, Fold(G, ws[..h]), Product(x[..h]))
    requires MultiExp(G, alphas[h..], x[h..]) == NatExp(G, Fold(G, ws[h..]), Product(x[h..]))
    ensures Product(x) >= 0
    ensures MultiExp(G, alphas, x) == NatExp(G, Fold(G, ws), Product(x))
  {
    var l, r := MultiExp(G, alphas[..h], x[..h]), MultiExp(G, alphas[h..], x[h..]);
    var pl, pr := Product(x[..h]), Product(x[h..]);
    var fl, fr := Fold(G, ws[..h]), Fold(G, ws[h..]);
    MulNonNegative(pl, pr);
    ProductSplit(x, h);
    calc {
      MultiExp(G, alphas, x);
      G.op(Exp(G, l, pr), Exp(G, r, pl));
      { PowersCombine(G, fl, fr, pl, pr, l, r); }
      NatExp(G, G.op(fl, fr), pl * pr);
      { FoldSplit(G, ws, h); }
      NatExp(G, Fold(G, ws), Product(x));
    }
  }

  lemma FoldSplit<E(!new)>(G: Group<E>, ws: seq<E>, h: nat)
    requires IsCommutativeMonoid(G) && h <= |ws|
    ensures Fold(G, ws) == G.op(Fold(G, ws[..h]), Fold(G, ws[h..]))
  {
    assert ws == ws[..h] + ws[h..];
    FoldAppend(G, ws[..h], ws[h..]);
  }

  /** With `l == fl^pl` and `r == fr^pr`: `l^pr * r^pl == (fl * fr)^(pl * pr)` in a commutative monoid. */
  lemma PowersCombine<E(!new)>(G: Group<E>, fl: E, fr: E, pl: nat, pr: nat, l: E, r: E)
    requires IsCommutativeMonoid(G) && l == NatExp(G, fl, pl) && r == NatExp(G, fr, pr)
    ensures G.op(Exp(G, l, pr), Exp(G, r, pl)) == NatExp(G, G.op(fl, fr), pl * pr)
  {
    calc {
      G.op(Exp(G, l, pr), Exp(G, r, pl));
      G.op(NatExp(G, NatExp(G, fl, pl), pr), NatExp(G, NatExp(G, fr, pr), pl));
      { NatExpMul(G, fl, pl, pr); NatExpMul(G, fr, pr, pl); assert pr * pl == pl * pr; }
      G.op(NatExp(G, fl, pl * pr), NatExp(G, fr, pl * pr));
      { NatExpOp(G, fl, fr, pl * pr); }
      NatExp(G, G.op(fl, fr), pl * pr);
    }
  }

  /** Integers under multiplication: the commutative monoid that small examples live in. */
  function IntMul(): Group<int>
  {
    Group(1, (a: int, b: int) => a * b, (a: int) => a)
  }

  lemma IntMulIsMonoid()
    ensures IsCommutativeMonoid(IntMul())
  {
    var G := IntMul();
    forall x: int, y: int, z: int ensures AssocAt(G, x, y, z) {
      assert (x * y) * z == x * (y * z);
    }
  }

  /** The two `multi_exp` cases of src/group/mod.rs, in integer arithmetic. */
  lemma MultiExpExamples()
    ensures MultiExp(IntMul(), [2, 3], [3, 2]) == 108
    ensures MultiExp(IntMul(), [2, 3, 5], [3, 2, 1]) == 1687500
  {
    var G := IntMul();
    assert NatExp(G, 2, 2) == 4 && NatExp(G, 3, 3) == 27;
    assert [2, 3][..1] == [2] && [2, 3][1..] == [3];
    assert [3, 2][..1] == [3] && [3, 2][1..] == [2];
    assert Product([2]) == 2 && Product([3]) == 3;
    assert MultiExp(G, [2], [3]) == 2 && MultiExp(G, [3], [2]) == 3;
    assert MultiExp(G, [2, 3], [3, 2]) == G.op(Exp(G, 2, 2), Exp(G, 3, 3));
    assert [2, 3, 5][..1] == [2] && [2, 3, 5][1..] == [3, 5];
    assert [3, 2, 1][..1] == [3] && [3, 2, 1][1..] == [2, 1];
    assert [3, 5][..1] == [3] && [3, 5][1..] == [5];
    assert [2, 1][..1] == [2] && [2, 1][1..] == [1];
    assert Product([1]) == 1 && Product([2, 1]) == 2;
    assert MultiExp(G, [5], [1]) == 5;
    assert NatExp(G, 3, 1) == 3 && NatExp(G, 5, 2) == 25;
    assert MultiExp(G, [3, 5], [2, 1]) == G.op(Exp(G, 3, 1), Exp(G, 5, 2)) == 75;
    assert NatExp(G, 75, 3) == 421875;
    assert MultiExp(G, [2, 3, 5], [3, 2, 1]) == G.op(Exp(G, 2, 2), Exp(G, 75, 3));
  }
}
