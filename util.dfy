/**
 * src/util.rs: the divide-and-conquer fold, the product of hashed primes, and Shamir's trick for
 * combining roots of one group element.
 */
module Util {
  import opened Wrappers
  import opened Arith
  import opened Group

  /** The product of the primes that the elements hash to (`prime_hash_product`). */
  function HashProduct<T>(hashToPrime: T -> int, ts: seq<T>): (p: int)
    ensures (forall i :: 0 <= i < |ts| ==> hashToPrime(ts[i]) > 0) ==> p > 0
  {
    if |ts| == 0 then 1 else hashToPrime(ts[0]) * HashProduct(hashToPrime, ts[1..])
  }

  lemma {:induction false} HashProductAppend<T>(hashToPrime: T -> int, u: seq<T>, v: seq<T>)
    ensures HashProduct(hashToPrime, u + v) == HashProduct(hashToPrime, u) * HashProduct(hashToPrime, v)
  {
    if |u| == 0 {
      assert u + v == v;
    } else {
      assert (u + v)[1..] == u[1..] + v;
      HashProductAppend(hashToPrime, u[1..], v);
      var h, pu, pv := hashToPrime(u[0]), HashProduct(hashToPrime, u[1..]), HashProduct(hashToPrime, v);
      assert h * (pu * pv) == (h * pu) * pv;
    }
  }

  // ---------------------------------------------------------------------------------------------
  // divide_and_conquer

  /**
   * Combines `xs` pairwise as a balanced tree: `f(acc, f(f(a, b), f(c, d)))` rather than
   * `f(f(f(f(acc, a), b), c), d)`. The first error of `f` is returned, so every error is one
   * that `f` produced.
   */
  function DivideAndConquer<T(!new), X>(f: (T, T) -> Result<T, X>, acc: T, xs: seq<T>): (r: Result<T, X>)
    ensures r.Err? ==> exists a, b :: f(a, b) == r
  {
    if |xs| == 0 then Ok(acc)
    else
      match DivideAndConquerTree(f, xs)
      case Err(e) => Err(e)
      case Ok(v) => f(acc, v)
  }

  function DivideAndConquerTree<T(!new), X>(f: (T, T) -> Result<T, X>, xs: seq<T>): (r: Result<T, X>)
    requires |xs| >= 1
    ensures r.Err? ==> exists a, b :: f(a, b) == r
    decreases |xs|
  {
    if |xs| == 1 then Ok(xs[0])
    else
      var mid := |xs| / 2;
      match DivideAndConquerTree(f, xs[..mid])
      case Err(e) => Err(e)
      case Ok(l) =>
        match DivideAndConquerTree(f, xs[mid..])
        case Err(e) => Err(e)
        case Ok(r) => f(l, r)
  }

  /** When `f` always fails, the tree of two or more elements fails with `f`'s error. */
  lemma {:induction false} DivideAndConquerTreeFails<T(!new), X>(f: (T, T) -> Result<T, X>, xs: seq<T>, e: X)
    requires |xs| >= 1 && forall a, b :: f(a, b) == Err(e)
    ensures DivideAndConquerTree(f, xs) == if |xs| == 1 then Ok(xs[0]) else Err(e)
    decreases |xs|
  {
    if |xs| > 1 {
      var mid := |xs| / 2;
      DivideAndConquerTreeFails(f, xs[..mid], e);
      DivideAndConquerTreeFails(f, xs[mid..], e);
    }
  }

  /** An error of `f` is not swallowed: on a non-empty list a failing `f` makes the fold fail. */
  lemma DivideAndConquerFails<T(!new), X>(f: (T, T) -> Result<T, X>, acc: T, xs: seq<T>, e: X)
    requires |xs| >= 1 && forall a, b :: f(a, b) == Err(e)
    ensures DivideAndConquer(f, acc, xs) == Err(e)
  {
    DivideAndConquerTreeFails(f, xs, e);
  }

  ghost predicate NeverFailsAt<T, X>(f: (T, T) -> Result<T, X>, a: T, b: T) { f(a, b).Ok? }
  ghost predicate AssociativeAt<T, X>(f: (T, T) -> Result<T, X>, a: T, b: T, c: T)
    requires NeverFailsAt(f, a, b) && NeverFailsAt(f, b, c)
  {
    f(f(a, b).value, c) == f(a, f(b, c).value)
  }

  /** `f` never fails and, on its values, is associative. */
  ghost predicate IsAssociativeOperation<T(!new), X>(f: (T, T) -> Result<T, X>)
  {
    && (forall a, b :: NeverFailsAt(f, a, b))
    && (forall a, b, c :: NeverFailsAt(f, a, b) && NeverFailsAt(f, b, c) && AssociativeAt(f, a, b, c))
  }

  /** The sequential left fold, the reference the tree fold is compared with. */
  function FoldLeft<T(!new), X>(f: (T, T) -> Result<T, X>, acc: T, xs: seq<T>): T
    requires IsAssociativeOperation(f)
  {
    if |xs| == 0 then acc
    else
      assert NeverFailsAt(f, acc, xs[0]);
      FoldLeft(f, f(acc, xs[0]).value, xs[1..])
  }

  lemma {:induction false} FoldLeftAppend<T(!new), X>(f: (T, T) -> Result<T, X>, acc: T, u: seq<T>, v: seq<T>)
    requires IsAssociativeOperation(f)
    ensures FoldLeft(f, acc, u + v) == FoldLeft(f, FoldLeft(f, acc, u), v)
  {
    if |u| == 0 {
      assert u + v == v;
    } else {
      assert NeverFailsAt(f, acc, u[0]);
      assert (u + v)[1..] == u[1..] + v;
      FoldLeftAppend(f, f(acc, u[0]).value, u[1..], v);
    }
  }

  /** Combining a value with a fold is folding from the combination. */
  lemma {:induction false} FoldLeftShift<T(!new), X>(f: (T, T) -> Result<T, X>, c: T, a: T, w: seq<T>)
    requires IsAssociativeOperation(f)
    ensures NeverFailsAt(f, c, FoldLeft(f, a, w)) && NeverFailsAt(f, c, a)
    ensures f(c, FoldLeft(f, a, w)).value == FoldLeft(f, f(c, a).value, w)
  {
    assert NeverFailsAt(f, c, a);
    assert NeverFailsAt(f, c, FoldLeft(f, a, w));
    if |w| > 0 {
      assert NeverFailsAt(f, a, w[0]);
      var a' := f(a, w[0]).value;
      FoldLeftShift(f, c, a', w[1..]);
      assert NeverFailsAt(f, f(c, a).value, w[0]);
      assert AssociativeAt(f, c, a, w[0]);
    }
  }

  lemma {:induction false} TreeIsFold<T(!new), X>(f: (T, T) -> Result<T, X>, xs: seq<T>)
    requires IsAssociativeOperation(f) && |xs| >= 1
    ensures DivideAndConquerTree(f, xs) == Ok(FoldLeft(f, xs[0], xs[1..]))
    decreases |xs|
  {
    if |xs| > 1 {
      var mid := |xs| / 2;
      var u, v := xs[..mid], xs[mid..];
      TreeIsFold(f, u);
      TreeIsFold(f, v);
      var l, r := FoldLeft(f, u[0], u[1..]), FoldLeft(f, v[0], v[1..]);
      FoldLeftShift(f, l, v[0], v[1..]);
      assert NeverFailsAt(f, l, v[0]);
      assert [v[0]] + v[1..] == v;
      assert xs[1..] == u[1..] + v;
      FoldLeftAppend(f, u[0], u[1..], v);
      assert FoldLeft(f, l, [v[0]] + v[1..]) == FoldLeft(f, f(l, v[0]).value, v[1..]);
    }
  }

  /** For an associative operation that never fails, the tree fold equals the sequential fold. */
  lemma DivideAndConquerIsFold<T(!new), X>(f: (T, T) -> Result<T, X>, acc: T, xs: seq<T>)
    requires IsAssociativeOperation(f)
    ensures DivideAndConquer(f, acc, xs) == Ok(FoldLeft(f, acc, xs))
  {
    if |xs| > 0 {
      TreeIsFold(f, xs);
      FoldLeftShift(f, acc, xs[0], xs[1..]);
      assert NeverFailsAt(f, acc, FoldLeft(f, xs[0], xs[1..]));
    }
  }

  function MulOk(a: int, b: int): Result<int, bool> { Ok(a * b) }

  /** `merge_product` of the tests: the product 3 * 5 * 7 * 9 * 11. */
  lemma MergeProductExample()
    ensures DivideAndConquer(MulOk, 1, [3, 5, 7, 9, 11]) == Ok(10395)
  {
    forall a: int, b: int, c: int
      ensures NeverFailsAt(MulOk, a, b) && NeverFailsAt(MulOk, b, c) && AssociativeAt(MulOk, a, b, c)
    {
      assert (a * b) * c == a * (b * c);
    }
    DivideAndConquerIsFold(MulOk, 1, [3, 5, 7, 9, 11]);
    assert FoldLeft(MulOk, 1, [3, 5, 7, 9, 11]) == 10395 by {
      assert [3, 5, 7, 9, 11][1..] == [5, 7, 9, 11];
      assert [5, 7, 9, 11][1..] == [7, 9, 11];
      assert [7, 9, 11][1..] == [9, 11];
      assert [9, 11][1..] == [11];
      assert [11][1..] == [];
    }
  }

  // ---------------------------------------------------------------------------------------------
  // shamir_trick

  /**
   * Given an `x`-th and a `y`-th root of the same element, with `x` and `y` coprime, returns
   * `xth_root^b * yth_root^a` for Bezout cofactors `a*x + b*y == 1`; otherwise `None`.
   */
  function ShamirTrick<E(==)>(G: Group<E>, xthRoot: E, ythRoot: E, x: int, y: int): Option<E>
  {
    if Exp(G, xthRoot, x) != Exp(G, ythRoot, y) then None
    else
      var (gcd, a, b) := ExtGcd(x, y);
      if gcd != 1 then None
      else Some(G.op(Exp(G, xthRoot, b), Exp(G, ythRoot, a)))
  }

  /** `(r^b)^(x*y) == (r^x)^(b*y)`: the exponent regrouping Shamir's trick relies on. */
  lemma ExpRegroup<E(!new)>(G: Group<E>, r: E, b: int, x: int, y: int)
    requires IsAbelianGroup(G)
    ensures Exp(G, Exp(G, r, b), x * y) == Exp(G, Exp(G, r, x), b * y)
  {
    ExpMul(G, r, b, x * y);
    ExpMul(G, r, x, b * y);
    MulRegroup(b, x, y);
  }

  lemma MulRegroup(b: int, x: int, y: int)
    ensures b * (x * y) == x * (b * y)
  {
  }

  lemma ShamirCombine<E(!new)>(G: Group<E>, xthRoot: E, ythRoot: E, x: int, y: int, a: int, b: int)
    requires IsAbelianGroup(G)
    requires a * x + b * y == 1 && Exp(G, xthRoot, x) == Exp(G, ythRoot, y)
    ensures Exp(G, G.op(Exp(G, xthRoot, b), Exp(G, ythRoot, a)), x * y) == Exp(G, xthRoot, x)
  {
    var w := Exp(G, xthRoot, x);
    var u, v := Exp(G, xthRoot, b), Exp(G, ythRoot, a);
    var xy := x * y;
    assert y * x == xy;
    calc {
      Exp(G, G.op(u, v), xy);
      { ExpOp(G, u, v, xy); }
      G.op(Exp(G, u, xy), Exp(G, v, xy));
      { ExpRegroup(G, xthRoot, b, x, y); ExpRegroup(G, ythRoot, a, y, x); }
      G.op(Exp(G, w, b * y), Exp(G, w, a * x));
      { ExpAdd(G, w, b * y, a * x); }
      Exp(G, w, b * y + a * x);
      Exp(G, w, 1);
      { ExpOne(G, w); }
      w;
    }
  }

  /** What Shamir's trick returns is an `x*y`-th root of the element both inputs are roots of. */
  lemma ShamirTrickIsRoot<E(!new)>(G: Group<E>, xthRoot: E, ythRoot: E, x: int, y: int)
    requires IsAbelianGroup(G)
    ensures ShamirTrick(G, xthRoot, ythRoot, x, y).Some?
        <==> Exp(G, xthRoot, x) == Exp(G, ythRoot, y) && Gcd(x, y) == 1
    ensures ShamirTrick(G, xthRoot, ythRoot, x, y).Some?
        ==> Exp(G, ShamirTrick(G, xthRoot, ythRoot, x, y).value, x * y) == Exp(G, xthRoot, x)
  {
    var (gcd, a, b) := ExtGcd(x, y);
    if Exp(G, xthRoot, x) == Exp(G, ythRoot, y) && gcd == 1 {
      ShamirCombine(G, xthRoot, ythRoot, x, y, a, b);
    }
  }

  /** The case of the tests: roots `g^(y*z)` and `g^(x*z)` combine to `g^z`. */
  lemma ShamirTrickOfPowers<E(!new)>(G: Group<E>, g: E, x: int, y: int, z: int)
    requires IsAbelianGroup(G) && Gcd(x, y) == 1
    ensures ShamirTrick(G, Exp(G, g, y * z), Exp(G, g, x * z), x, y) == Some(Exp(G, g, z))
  {
    var (gcd, a, b) := ExtGcd(x, y);
    var yz, xz := y * z, x * z;
    var e1, e2 := yz * b, xz * a;
    SameProduct(x, y, z);
    BezoutScaled(x, y, z, a, b);
    assert e1 + e2 == z;
    ExpMul(G, g, yz, x);
    ExpMul(G, g, xz, y);
    assert Exp(G, Exp(G, g, yz), x) == Exp(G, Exp(G, g, xz), y);
    ExpMul(G, g, yz, b);
    ExpMul(G, g, xz, a);
    ExpAdd(G, g, e1, e2);
  }

  lemma SameProduct(x: int, y: int, z: int)
    ensures (y * z) * x == (x * z) * y
  {
  }

  lemma BezoutScaled(x: int, y: int, z: int, a: int, b: int)
    requires a * x + b * y == 1
    ensures (y * z) * b + (x * z) * a == z
  {
    assert (y * z) * b + (x * z) * a == z * (a * x + b * y);
  }

  /** The failing case of the tests: 7 and 14 are not coprime. */
  lemma ShamirTrickNotCoprime<E>(G: Group<E>, xthRoot: E, ythRoot: E)
    ensures ShamirTrick(G, xthRoot, ythRoot, 7, 14) == None
  {
    assert Gcd(7, 14) == 7 by {
      assert Gcd(7, 14) == Gcd(14, 7) == Gcd(7, 0);
    }
  }
}
