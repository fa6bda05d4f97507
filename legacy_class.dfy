/**
 * The older form class group of src/group/class.rs. It shares the data, the normalisation,
 * the identity, the inverse and the generator with src/group/class/mod.rs (those are the
 * members of `ClassGroup`), and differs in four places modelled here:
 *
 * - its congruence solver never reports failure (`LinCongruence.SolveUnchecked`), so squaring
 *   and composing go on with a value that is not a solution when there is none;
 * - its reduction loop tests `!(a > c || (a == c && b < 0))` and never normality;
 * - two elements are equal when their reductions are;
 * - `elem` validates the discriminant before reducing.
 *
 * Reducing a form that is not positive definite is outside this model (the loop need not end):
 * where the unchecked solver produces such a form, the result here is `None`.
 */
module LegacyClass {
  import opened Wrappers
  import opened Arith
  import opened Forms
  import opened LinCongruence
  import ClassGroup

  /** `is_reduced` of class.rs: `!(a > c || (a == c && b < 0))`, which expects a normal form. */
  predicate IsReducedLegacy(x: ClassElem)
  {
    !(x.a > x.c || (x.a == x.c && x.b < 0))
  }

  /** On normal forms the test agrees with `elem_is_reduced` of class/mod.rs. */
  lemma ReducedTestsAgree(x: ClassElem)
    requires IsNormal(x)
    ensures IsReducedLegacy(x) <==> IsReduced(x)
  {
  }

  /**
   * `ClassCtx::reduce`: normalise, apply the rho step while `is_reduced` fails, normalise. The
   * result is the reduction of class/mod.rs.
   */
  method Reduce(x: ClassElem) returns (y: ClassElem)
    requires PositiveDefinite(x)
    ensures y == Forms.Reduce(x)
  {
    y := ClassGroup.Normalize(x);
    while !IsReducedLegacy(y)
      invariant PositiveDefinite(y) && IsNormal(y)
      invariant Forms.Normalize(ReduceLoop(y)) == Forms.Reduce(x)
      decreases y.a, (if y.b < 0 then 1 else 0)
    {
      ReducedTestsAgree(y);
      RhoDecreases(y);
      y := ClassGroup.RhoStep(y);
    }
    ReducedTestsAgree(y);
    y := ClassGroup.Normalize(y);
  }

  /**
   * `PartialEq::eq`: reduce clones of both sides and compare coefficients. Two forms are equal
   * exactly when their reductions are.
   */
  method Equals(x: ClassElem, y: ClassElem) returns (eq: bool)
    requires PositiveDefinite(x) && PositiveDefinite(y)
    ensures eq <==> Forms.Reduce(x) == Forms.Reduce(y)
  {
    var rx := Reduce(x);
    var ry := Reduce(y);
    eq := rx.a == ry.a && rx.b == ry.b && rx.c == ry.c;
  }

  /** Equality of class.rs identifies a form with all its translates: `(a, b, c)` with `x(X + rY, Y)`. */
  lemma EqualTranslates(x: ClassElem, r: int)
    requires PositiveDefinite(x)
    ensures PositiveDefinite(Translate(x, r)) && Forms.Reduce(Translate(x, r)) == Forms.Reduce(x)
  {
    ReduceTranslate(x, r);
  }

  /** The equality example: `(16, 105, c)` equals `(16, 9, c - 171)` because it reduces to it. */
  lemma EqualityExample(c: int)
    requires c >= 187
    ensures PositiveDefinite(ClassElem(16, 105, c)) && PositiveDefinite(ClassElem(16, 9, c - 171))
    ensures Forms.Reduce(ClassElem(16, 105, c)) == Forms.Reduce(ClassElem(16, 9, c - 171))
  {
    ReduceExample(c);
    assert IsReduced(ClassElem(16, 9, c - 171));
  }

  /**
   * `ClassCtx::square`: section 6.3.1 with the unchecked solver. When `b*mu == c (mod a)` is
   * solvable this is the squaring of class/mod.rs; when it is not, the division by `a` is not
   * exact and any result has a different discriminant.
   */
  method Square(x: ClassElem) returns (r: Option<ClassElem>)
    requires PositiveDefinite(x)
    ensures LinearCongruence(x.b, x.c, x.a).Some? ==> r == ClassGroup.SquareForm(x)
    ensures r.Some? ==> IsReduced(r.value) && PositiveDefinite(r.value)
    ensures LinearCongruence(x.b, x.c, x.a).None? && r.Some? ==> Discriminant(r.value) != Discriminant(x)
  {
    var mu, v := SolveUnchecked(x.b, x.c, x.a);
    var m := x.b * mu;
    m := m - x.c;
    m := m / x.a;
    var oldA := x.a;
    var a := x.a * x.a;
    var t := mu * oldA;
    t := t * 2;
    var b := x.b - t;
    var c := mu * mu;
    c := c - m;
    var unreduced := ClassElem(a, b, c);

    var rem := (x.b * mu - x.c) % x.a;
    DivModIdentity(x.b * mu - x.c, x.a);
    ClassGroup.SquareDiscriminant(x, mu, m, rem, unreduced);
    if LinearCongruence(x.b, x.c, x.a).Some? {
      ClassGroup.SquareExact(x, mu, v, m);
    } else {
      MulAtLeast(rem, x.a);
    }
    if !PositiveDefinite(unreduced) {
      return None;
    }
    var squared := Reduce(unreduced);
    return Some(squared);
  }

  /**
   * The values `Op` computes with the unchecked solver are those of `Compose` whenever both
   * congruences are solvable.
   */
  lemma ComposeAgrees(x: ClassElem, y: ClassElem, g: int, h: int, w: int, s: int, t: int, u: int,
                      mu: int, v: int, lambda: int, sigma: int, k: int, l: int, m: int)
    requires PositiveDefinite(x) && PositiveDefinite(y)
    requires g == (x.b + y.b) / 2 && h == (y.b - x.b) / 2 && w == Gcd(Gcd(x.a, y.a), g)
    requires w > 0 && s == x.a / w && t == y.a / w && u == g / w && s > 0 && t > 0
    requires LinearCongruence(t * u, h * u + s * x.c, s * t).Some? ==>
      (mu, v) == LinearCongruence(t * u, h * u + s * x.c, s * t).value
    requires LinearCongruence(t * v, h - t * mu, s).Some? ==>
      (lambda, sigma) == LinearCongruence(t * v, h - t * mu, s).value
    requires k == mu + v * lambda && l == (k * t - h) / s
    requires m == (t * u * k - h * u - x.c * s) / (s * t)
    ensures Discriminant(x) == Discriminant(y) && ClassGroup.NucompSolvable(x, y) ==>
      PositiveDefinite(ClassElem(s * t, w * u - k * t - l * s, k * l - w * m)) &&
      ClassGroup.Compose(x, y) == Some(Forms.Reduce(ClassElem(s * t, w * u - k * t - l * s, k * l - w * m)))
  {
    if Discriminant(x) == Discriminant(y) && ClassGroup.NucompSolvable(x, y) {
      ClassGroup.ComposeValue(x, y, g, h, w, s, t, u, mu, v, lambda, sigma, k, l, m);
    }
  }

  /**
   * `ClassCtx::op`: NUCOMP with the unchecked solver, then `reduce`. On operands with one
   * discriminant whose congruences are solvable it is the composition of class/mod.rs.
   */
  method Op(x: ClassElem, y: ClassElem) returns (r: Option<ClassElem>)
    requires PositiveDefinite(x) && PositiveDefinite(y)
    ensures Discriminant(x) == Discriminant(y) && ClassGroup.NucompSolvable(x, y) ==> r == ClassGroup.Compose(x, y)
    ensures r.Some? ==> IsReduced(r.value) && PositiveDefinite(r.value)
  {
    var g := x.b + y.b;
    g := g / 2;
    var h := y.b - x.b;
    h := h / 2;
    var w := Gcd(x.a, y.a);
    w := Gcd(w, g);
    ClassGroup.NucompFactors(x.a, y.a, g);
    var j := w;
    var rr := 0;
    var s := x.a / w;
    var t := y.a / w;
    var u := g / w;
    var a := t * u;
    var b := h * u;
    var m := s * x.c;
    b := b + m;
    m := s * t;
    var mu, v := SolveUnchecked(a, b, m);
    a := t * v;
    m := t * mu;
    b := h - m;
    m := s;
    var lambda, sigma := SolveUnchecked(a, b, m);
    a := v * lambda;
    var k := mu + a;
    var l := k * t;
    l := l - h;
    l := l / s;
    m := t * u;
    m := m * k;
    a := h * u;
    m := m - a;
    a := x.c * s;
    m := m - a;
    a := s * t;
    m := m / a;
    ComposeAgrees(x, y, g, h, w, s, t, u, mu, v, lambda, sigma, k, l, m);

    var retA := s * t;
    a := rr * u;
    retA := retA - a;
    var retB := j * u;
    a := m * rr;
    retB := retB + a;
    a := k * t;
    retB := retB - a;
    a := l * s;
    retB := retB - a;
    var retC := k * l;
    a := j * m;
    retC := retC - a;

    var unreduced := ClassElem(retA, retB, retC);
    assert unreduced == ClassElem(s * t, w * u - k * t - l * s, k * l - w * m);
    if !PositiveDefinite(unreduced) {
      return None;
    }
    var reduced := Reduce(unreduced);
    return Some(reduced);
  }

  /**
   * `exp_` of class.rs: square-and-multiply over the context's `op` and `square`. Whenever the
   * exponentiation of class/mod.rs succeeds, this one gives the same element.
   */
  method Exp(d: int, x: ClassElem, n: int) returns (r: Option<ClassElem>)
    requires ClassGroup.IsGroupDiscriminant(d) && x.a > 0 && Validate(d, x)
    ensures n == 0 ==> r == Some(ClassGroup.Id(d))
    ensures var p := ClassGroup.PowerLoop(d, ClassGroup.Id(d), if n < 0 then ClassGroup.Inv(x) else x, Abs(n));
      p.Some? ==> r == p
    ensures r.Some? ==> IsReduced(r.value)
  {
    ClassGroup.IdIsElement(d);
    var val, a, k := ClassGroup.Id(d), x, n;
    if n < 0 {
      a, k := ClassGroup.Inv(x), -n;
    }
    ghost var p := ClassGroup.PowerLoop(d, ClassGroup.Id(d), a, k);
    while k != 0
      invariant k >= 0 && IsReduced(val) && PositiveDefinite(val) && PositiveDefinite(a)
      invariant n == 0 ==> val == ClassGroup.Id(d)
      invariant p.Some? ==> ClassGroup.IsElement(d, val) && Validate(d, a)
      invariant p.Some? ==> ClassGroup.PowerLoop(d, val, a, k) == p
      decreases k
    {
      if p.Some? {
        LoopRoundDefined(d, val, a, k);
      }
      if k % 2 == 1 {
        var composed := Op(val, a);
        if composed.None? {
          return None;
        }
        val := composed.value;
      }
      var squared := Square(a);
      if squared.None? {
        return None;
      }
      a := squared.value;
      k := k / 2;
    }
    return Some(val);
  }

  /** A round of a loop that succeeds: its composition (when `k` is odd) and its squaring succeed. */
  lemma LoopRoundDefined(d: int, val: ClassElem, a: ClassElem, k: nat)
    requires d < 0 && ClassGroup.IsElement(d, val) && a.a > 0 && Validate(d, a) && k > 0
    requires ClassGroup.PowerLoop(d, val, a, k).Some?
    ensures k % 2 == 1 ==> ClassGroup.NucompSolvable(val, a) && ClassGroup.Compose(val, a).Some?
    ensures LinearCongruence(a.b, a.c, a.a).Some? && ClassGroup.SquareForm(a).Some?
    ensures var c := if k % 2 == 1 then ClassGroup.Compose(val, a).value else val;
      ClassGroup.PowerLoop(d, val, a, k) == ClassGroup.PowerLoop(d, c, ClassGroup.SquareForm(a).value, k / 2)
  {
    if k % 2 == 1 {
      ClassGroup.ComposeNoneIff(val, a);
    }
  }

  /**
   * `elem` of class.rs: assert the discriminant first, then reduce. It fails exactly when the
   * discriminant is not `d`, and otherwise gives the same element as class/mod.rs.
   */
  method Elem(d: int, abc: ClassElem) returns (r: Option<ClassElem>)
    requires d < 0 && (Validate(d, abc) ==> abc.a > 0)
    ensures r.Some? <==> Validate(d, abc)
    ensures r.Some? ==> PositiveDefinite(abc) && r.value == Forms.Reduce(abc)
  {
    if Discriminant(abc) != d {
      return None;
    }
    var x := Reduce(abc);
    return Some(x);
  }
}
