/**
 * The reusable context of the class group: scratch registers, which only avoid reallocation and
 * are not modelled, and `L_sq_op`, the fourth root of `|D|` that NUDULP squaring precomputes.
 * GMP's `root` truncates, so `L_sq_op` is the integer fourth root.
 */
module ClassContext {
  import opened Arith

  /** `r^4`. */
  function Fourth(r: nat): nat
  {
    (r * r) * (r * r)
  }

  lemma SquareStrict(a: nat, b: nat)
    requires a < b
    ensures a * a < b * b
  {
    MulAtLeast(b - a, b + a);
    assert b * b - a * a == (b - a) * (b + a);
  }

  /** `r^4` is monotone on the naturals. */
  lemma FourthMonotone(r: nat, s: nat)
    requires r <= s
    ensures Fourth(r) <= Fourth(s)
  {
    if r < s {
      SquareStrict(r, s);
      SquareStrict(r * r, s * s);
    }
  }

  lemma FourthAbove(n: nat)
    ensures n < Fourth(n + 1)
  {
    var p := (n + 1) * (n + 1);
    MulAtLeast(n + 1, n + 1);
    MulAtLeast(p, p);
  }

  /** The largest `r <= k` with `r^4 <= n`. */
  function RootBelow(n: nat, k: nat): (r: nat)
    requires n < Fourth(k + 1)
    ensures r <= k && Fourth(r) <= n < Fourth(r + 1)
    decreases k
  {
    if Fourth(k) <= n then k else RootBelow(n, k - 1)
  }

  /** The integer fourth root: `r^4 <= n < (r + 1)^4`. */
  function FourthRoot(n: nat): (r: nat)
    ensures Fourth(r) <= n < Fourth(r + 1)
  {
    FourthAbove(n);
    RootBelow(n, n)
  }

  /** The bounds determine the root: no other `r` satisfies them. */
  lemma FourthRootUnique(n: nat, r: nat)
    requires Fourth(r) <= n < Fourth(r + 1)
    ensures r == FourthRoot(n)
  {
    var q := FourthRoot(n);
    if r < q {
      FourthMonotone(r + 1, q);
    } else if q < r {
      FourthMonotone(q + 1, r);
    }
  }

  /** `ClassCtx` with the one field that carries a value across calls. */
  class ClassCtx {
    var lSqOp: nat

    /** `ClassCtx::default`: `L_sq_op = root(|D|, 4)`. */
    constructor Default(d: int)
      ensures lSqOp == FourthRoot(Abs(d))
      ensures Fourth(lSqOp) <= Abs(d) < Fourth(lSqOp + 1)
    {
      var n := Abs(d);
      lSqOp := FourthRoot(n);
    }
  }

  /** For `|D| = 10^4` the root is 10, and for `10^4 - 1` it is 9. */
  lemma FourthRootExamples()
    ensures FourthRoot(10000) == 10 && FourthRoot(9999) == 9
  {
    FourthRootUnique(10000, 10);
    FourthRootUnique(9999, 9);
  }
}
