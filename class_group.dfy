/**
 * The form class group: elements are reduced forms of one fixed negative discriminant `d`,
 * composed by NUCOMP (section 6.1.1 of the "Binary Quadratic Forms" notes), squared by
 * section 6.3.1 and raised to integer powers by square-and-multiply.
 *
 * The discriminant constant of src/group/class/discriminant.rs is not part of this model; it
 * is the parameter `d`, assumed negative and congruent to 1 modulo 8 where the identity and
 * the generator must be valid. The source updates forms in place through `&mut ClassElem`
 * and scratch registers; a form is a value here, so each in-place procedure is a method from
 * the old value to the new one. A panic of `unwrap` on a congruence without solution is the
 * result `None`.
 */
module ClassGroup {
  import opened Wrappers
  import opened Arith
  import opened Forms
  import opened LinCongruence

  /** The discriminants the group is used with: negative and congruent to 1 modulo 8 (so also modulo 4). */
  predicate IsGroupDiscriminant(d: int)
    ensures IsGroupDiscriminant(d) ==> d % 4 == 1
  {
    DivModIdentity(d, 8);
    DivModIdentity(d, 4);
    if d < 0 && d % 8 == 1 then DivModUnique(d, 4, 2 * (d / 8), 1); true else false
  }

  /** A group element: a reduced form of discriminant `d`. */
  predicate IsElement(d: int, x: ClassElem)
  {
    Validate(d, x) && IsReduced(x)
  }

  /** `normalize_`: `r = floor((a - b) / 2a)`, then `b += 2ra` and `c += r^2 a + rb`. */
  method NormalizeInPlace(x: ClassElem) returns (y: ClassElem)
    requires x.a > 0
    ensures y == Shifted(x)
  {
    var a, b, c := x.a, x.b, x.c;
    var r := a - b;
    var denom := 2 * a;
    r := r / denom;
    var oldB := b;
    var ra := r * a;
    b := b + ra;
    b := b + ra;
    ra := ra * r;
    c := c + ra;
    ra := r;
    ra := ra * oldB;
    c := c + ra;
    assert (r * a) * r == r * r * a;
    y := ClassElem(a, b, c);
  }

  /** `normalize` (and its in-place twin `normalize_mut`): only a form that is not normal moves. */
  method Normalize(x: ClassElem) returns (y: ClassElem)
    requires x.a > 0
    ensures y == Forms.Normalize(x)
    ensures IsNormal(y) && Discriminant(y) == Discriminant(x)
  {
    if IsNormal(x) {
      y := x;
    } else {
      y := NormalizeInPlace(x);
    }
  }

  /** One pass of the loop of `reduce_`: `s = floor((c + b) / 2c)` and the rho step, register by register. */
  method RhoStep(y: ClassElem) returns (z: ClassElem)
    requires y.c > 0
    ensures z == Rho(y)
  {
    var a, b, c := y.a, y.b, y.c;
    var s := c + b;
    var t := 2 * c;
    s := s / t;
    var oldA, oldB := a, b;
    a := c;
    b := -b;
    t := s * c;
    t := t * 2;
    b := b + t;
    c := c * s;
    c := c * s;
    t := oldB * s;
    c := c - t;
    c := c + oldA;
    RhoByParts(y, s, b, c);
    z := ClassElem(a, b, c);
  }

  /** `reduce_`: the rho step until the form is reduced. */
  method ReduceInPlace(x: ClassElem) returns (y: ClassElem)
    requires PositiveDefinite(x)
    ensures y == ReduceLoop(x)
  {
    y := x;
    while !IsReduced(y)
      invariant PositiveDefinite(y) && ReduceLoop(y) == ReduceLoop(x)
      decreases (if IsNormal(y) then 0 else 1), y.a, (if y.b < 0 then 1 else 0)
    {
      RhoDecreases(y);
      y := RhoStep(y);
    }
  }

  /** The rho step as `reduce_` computes it, term by term. */
  lemma RhoByParts(y: ClassElem, s: int, b: int, c: int)
    requires y.c > 0 && s == (y.c + y.b) / (2 * y.c)
    requires b == -y.b + s * y.c * 2 && c == y.c * s * s - y.b * s + y.a
    ensures Rho(y) == ClassElem(y.c, b, c)
  {
    assert Swap(y).a - Swap(y).b == y.c + y.b;
    assert Rho(y) == Translate(Swap(y), s);
    assert y.c * s * s == s * s * y.c;
  }

  /** `reduce` (and its in-place twin `reduce_mut`): normalise, `reduce_`, normalise. */
  method Reduce(x: ClassElem) returns (y: ClassElem)
    requires PositiveDefinite(x)
    ensures y == Forms.Reduce(x)
    ensures IsReduced(y) && Discriminant(y) == Discriminant(x)
  {
    y := Normalize(x);
    y := ReduceInPlace(y);
    y := Normalize(y);
  }

  /** `id_`: the principal form `(1, 1, floor((1 - d) / 4))`, a group element of discriminant `d`. */
  function Id(d: int): (x: ClassElem)
    ensures d % 4 == 1 ==> Validate(d, x)
    ensures d < 0 && d % 4 == 1 ==> IsReduced(x)
  {
    ClassElem(1, 1, (1 - d) / 4)
  }

  /** `inv_`: `(a, -b, c)`, the opposite form, with the same discriminant; inverting twice is the identity map. */
  function Inv(x: ClassElem): (y: ClassElem)
    ensures y.a == x.a && Discriminant(y) == Discriminant(x)
    ensures y.b == -x.b && y.c == x.c
  {
    ClassElem(x.a, -x.b, x.c)
  }

  /** The quantities `g, h, w, s, t, u` of NUCOMP, and the facts about them the proofs use. */
  lemma NucompFactors(a1: int, a2: int, g: int)
    requires a1 > 0 && a2 > 0
    ensures Gcd(Gcd(a1, a2), g) > 0
    ensures var w := Gcd(Gcd(a1, a2), g);
      a1 == w * (a1 / w) && a2 == w * (a2 / w) && g == w * (g / w) && a1 / w > 0 && a2 / w > 0
  {
    var w0 := Gcd(a1, a2);
    var w := Gcd(w0, g);
    GcdDivides(a1, a2);
    GcdDivides(w0, g);
    DividesTrans(w, w0, a1);
    DividesTrans(w, w0, a2);
    DivModIdentity(a1, w);
    DivModIdentity(a2, w);
    DivModIdentity(g, w);
    PositiveQuotient(a1, w);
    PositiveQuotient(a2, w);
  }

  lemma DividesTrans(w: int, v: int, x: int)
    requires w > 0 && v > 0 && v % w == 0 && x % v == 0
    ensures x % w == 0
  {
    var p, q := v / w, x / v;
    assert v == w * p && x == v * q;
    assert x == w * (p * q);
    MulMod(w, p * q);
  }

  lemma PositiveQuotient(x: int, w: int)
    requires x > 0 && w > 0 && x == w * (x / w)
    ensures x / w > 0
  {
  }

  /** Both congruences of NUCOMP are solvable; when one is not, `op_` panics on `unwrap`. */
  predicate NucompSolvable(x: ClassElem, y: ClassElem)
    requires x.a > 0 && y.a > 0
  {
    var g, h := (x.b + y.b) / 2, (y.b - x.b) / 2;
    NucompFactors(x.a, y.a, g);
    var w := Gcd(Gcd(x.a, y.a), g);
    var s, t, u := x.a / w, y.a / w, g / w;
    var first := LinearCongruence(t * u, h * u + s * x.c, s * t);
    first.Some? && LinearCongruence(t * first.value.1, h - t * first.value.0, s).Some?
  }

  /** Equal discriminants mean equal parity of `b`, so the halvings in NUCOMP are exact. */
  lemma HalfSumDifference(b1: int, b2: int)
    requires b1 % 2 == b2 % 2
    ensures (b1 + b2) / 2 - (b2 - b1) / 2 == b1
  {
    var p, q, e := b1 / 2, b2 / 2, b1 % 2;
    assert b1 == 2 * p + e && b2 == 2 * q + e;
    DivModUnique(b1 + b2, 2, p + q + e, 0);
    DivModUnique(b2 - b1, 2, q - p, 0);
  }

  /**
   * The algebra behind NUCOMP: once `l` and `m` are exact quotients, the composed form
   * `(st, ju - kt - ls, kl - jm)` has the discriminant `b1^2 - 4 a1 c1` of the first operand.
   */
  lemma NucompDiscriminant(a1: int, b1: int, c1: int, g: int, h: int, j: int, s: int, t: int,
                           u: int, k: int, l: int, m: int)
    requires g - h == b1 && j * u == g && j * s == a1
    requires s * l == k * t - h && (s * t) * m == t * u * k - h * u - c1 * s
    ensures (j * u - k * t - l * s) * (j * u - k * t - l * s) - 4 * (s * t) * (k * l - j * m)
         == b1 * b1 - 4 * a1 * c1
  {
    var p := k * t;
    assert j * u - k * t - l * s == g + h - 2 * p;
    assert (s * t) * (k * l) == p * (p - h) by {
      assert (s * t) * (k * l) == p * (s * l);
    }
    assert (s * t) * (j * m) == g * p - g * h - a1 * c1 by {
      assert (s * t) * (j * m) == j * ((s * t) * m);
      assert j * (t * u * k) == g * p;
      assert j * (h * u) == g * h;
      assert j * (c1 * s) == a1 * c1;
    }
    DiscriminantIdentity(g, h, p, a1 * c1);
  }

  /** The ring identity behind the NUCOMP discriminant: `b3 = g + h - 2p` and `a3 c3 = p(p - h) - (gp - gh - ac)`. */
  lemma DiscriminantIdentity(g: int, h: int, p: int, ac: int)
    ensures (g + h - 2 * p) * (g + h - 2 * p) - 4 * (p * (p - h) - (g * p - g * h - ac))
         == (g - h) * (g - h) - 4 * ac
  {
  }

  /**
   * NUCOMP on values: with `g = (b1 + b2) / 2`, `h = (b2 - b1) / 2`, `w = gcd(a1, a2, g)`,
   * `s, t, u = a1 / w, a2 / w, g / w`, solve `tu*k == hu + s*c1 (mod st)` for `(mu, v)`, then
   * `tv*k == h - t*mu (mod s)` for `lambda`, and with `k = mu + v*lambda`, `l = (kt - h) / s`,
   * `m = (tuk - hu - c1*s) / st` the composed form is `(st, wu - kt - ls, kl - wm)`, reduced.
   * It fails exactly when a congruence has no solution; otherwise it is a reduced form with the
   * operands' discriminant.
   */
  function Compose(x: ClassElem, y: ClassElem): (r: Option<ClassElem>)
    requires PositiveDefinite(x) && PositiveDefinite(y) && Discriminant(x) == Discriminant(y)
    ensures r.Some? ==> IsReduced(r.value) && Discriminant(r.value) == Discriminant(x)
  {
    var g, h := (x.b + y.b) / 2, (y.b - x.b) / 2;
    NucompFactors(x.a, y.a, g);
    var w := Gcd(Gcd(x.a, y.a), g);
    ComposeWith(x, y, g, h, w, x.a / w, y.a / w, g / w)
  }

  /** `Compose` fails (the `unwrap` panic) exactly when one of its two congruences has no solution. */
  lemma ComposeNoneIff(x: ClassElem, y: ClassElem)
    requires PositiveDefinite(x) && PositiveDefinite(y) && Discriminant(x) == Discriminant(y)
    ensures Compose(x, y).None? <==> !NucompSolvable(x, y)
  {
  }

  /** The part of `Compose` after `g, h, w, s, t, u` are known: the first congruence. */
  function ComposeWith(x: ClassElem, y: ClassElem, g: int, h: int, w: int, s: int, t: int, u: int)
    : (r: Option<ClassElem>)
    requires PositiveDefinite(x) && PositiveDefinite(y) && Discriminant(x) == Discriminant(y)
    requires g == (x.b + y.b) / 2 && h == (y.b - x.b) / 2 && w == Gcd(Gcd(x.a, y.a), g)
    requires w > 0 && s == x.a / w && t == y.a / w && u == g / w && s > 0 && t > 0
    ensures r.Some? ==> IsReduced(r.value) && Discriminant(r.value) == Discriminant(x)
  {
    var first := LinearCongruence(t * u, h * u + s * x.c, s * t);
    if first.None? then None
    else ComposeSecond(x, y, g, h, w, s, t, u, first.value.0, first.value.1)
  }

  /** The part of `Compose` after the first congruence's solution `(mu, v)`: the second congruence. */
  function ComposeSecond(x: ClassElem, y: ClassElem, g: int, h: int, w: int, s: int, t: int, u: int,
                         mu: int, v: int): (r: Option<ClassElem>)
    requires PositiveDefinite(x) && PositiveDefinite(y) && Discriminant(x) == Discriminant(y)
    requires g == (x.b + y.b) / 2 && h == (y.b - x.b) / 2 && w == Gcd(Gcd(x.a, y.a), g)
    requires w > 0 && s == x.a / w && t == y.a / w && u == g / w && s > 0 && t > 0
    requires LinearCongruence(t * u, h * u + s * x.c, s * t) == Some((mu, v))
    ensures r.Some? ==> IsReduced(r.value) && Discriminant(r.value) == Discriminant(x)
  {
    var second := LinearCongruence(t * v, h - t * mu, s);
    if second.None? then None
    else
      var lambda, sigma := second.value.0, second.value.1;
      var k := mu + v * lambda;
      ComposedForm(x, y, g, h, w, s, t, u, mu, v, lambda, sigma, k, (k * t - h) / s,
                   (t * u * k - h * u - x.c * s) / (s * t));
      Some(Forms.Reduce(NucompForm(x, h, w, s, t, u, k)))
  }

  /**
   * The unreduced NUCOMP form for `k = mu + v*lambda`: `(st, wu - kt - ls, kl - wm)` with
   * `l = (kt - h) / s` and `m = (tuk - hu - c1*s) / st`.
   */
  function NucompForm(x: ClassElem, h: int, w: int, s: int, t: int, u: int, k: int): ClassElem
    requires s > 0 && t > 0
  {
    var l := (k * t - h) / s;
    var m := (t * u * k - h * u - x.c * s) / (s * t);
    ClassElem(s * t, w * u - k * t - l * s, k * l - w * m)
  }

  /**
   * `op_`: NUCOMP written out over scratch registers (with NUCOMP's `r` fixed at 0), then
   * `reduce_mut`; a congruence without solution makes it panic (`None`).
   */
  method Op(x: ClassElem, y: ClassElem) returns (r: Option<ClassElem>)
    requires PositiveDefinite(x) && PositiveDefinite(y) && Discriminant(x) == Discriminant(y)
    ensures r == Compose(x, y)
  {
    var g := x.b + y.b;
    g := g / 2;
    var h := y.b - x.b;
    h := h / 2;
    var w := Gcd(x.a, y.a);
    w := Gcd(w, g);
    NucompFactors(x.a, y.a, g);
    var j := w;
    var rr := 0;
    var s := x.a / w;
    var t := y.a / w;
    var u := g / w;
    var a := t * u;
    var b := h * u;
    var m := s * x.c;
    b := b + m;
    m := s * t;
    var first := SolveLinearCongruence(a, b, m);
    if first.None? {
      FirstCongruenceNone(x, y, g, h, w, s, t, u);
      return None;
    }
    var (mu, v) := first.value;
    a := t * v;
    m := t * mu;
    b := h - m;
    m := s;
    var second := SolveLinearCongruence(a, b, m);
    if second.None? {
      SecondCongruenceNone(x, y, g, h, w, s, t, u, mu, v);
      return None;
    }
    var (lambda, sigma) := second.value;
    a := v * lambda;
    var k := mu + a;
    var l := k * t;
    l := l - h;
    l := l / s;
    m := t * u;
    m := m * k;
    a := h * u;
    m := m - a;
    a := x.c * s;
    m := m - a;
    a := s * t;
    m := m / a;

    var retA := s * t;
    a := rr * u;
    retA := retA - a;
    var retB := j * u;
    a := m * rr;
    retB := retB + a;
    a := k * t;
    retB := retB - a;
    a := l * s;
    retB := retB - a;
    var retC := k * l;
    a := j * m;
    retC := retC - a;

    var unreduced := ClassElem(retA, retB, retC);
    assert unreduced == ClassElem(s * t, w * u - k * t - l * s, k * l - w * m);
    ComposeValue(x, y, g, h, w, s, t, u, mu, v, lambda, sigma, k, l, m);
    var reduced := Reduce(unreduced);
    return Some(reduced);
  }

  /** `Compose` fails when the first congruence has no solution. */
  lemma FirstCongruenceNone(x: ClassElem, y: ClassElem, g: int, h: int, w: int, s: int, t: int, u: int)
    requires PositiveDefinite(x) && PositiveDefinite(y) && Discriminant(x) == Discriminant(y)
    requires g == (x.b + y.b) / 2 && h == (y.b - x.b) / 2 && w == Gcd(Gcd(x.a, y.a), g)
    requires w > 0 && s == x.a / w && t == y.a / w && u == g / w && s > 0 && t > 0
    requires LinearCongruence(t * u, h * u + s * x.c, s * t).None?
    ensures Compose(x, y) == None
  {
    ComposeIsWith(x, y, g, h, w, s, t, u);
  }

  /** With the first congruence solved by `(mu, v)`, an unsolvable second one makes `op_` fail. */
  lemma SecondCongruenceNone(x: ClassElem, y: ClassElem, g: int, h: int, w: int, s: int, t: int, u: int,
                             mu: int, v: int)
    requires PositiveDefinite(x) && PositiveDefinite(y) && Discriminant(x) == Discriminant(y)
    requires g == (x.b + y.b) / 2 && h == (y.b - x.b) / 2 && w == Gcd(Gcd(x.a, y.a), g)
    requires w > 0 && s == x.a / w && t == y.a / w && u == g / w && s > 0 && t > 0
    requires LinearCongruence(t * u, h * u + s * x.c, s * t) == Some((mu, v))
    requires LinearCongruence(t * v, h - t * mu, s).None?
    ensures Compose(x, y) == None
  {
    ComposeUnfolds(x, y, g, h, w, s, t, u, mu, v);
  }

  /** `Compose` unfolded at given intermediate values, when both congruences are solvable. */
  lemma ComposeValue(x: ClassElem, y: ClassElem, g: int, h: int, w: int, s: int, t: int, u: int,
                     mu: int, v: int, lambda: int, sigma: int, k: int, l: int, m: int)
    requires PositiveDefinite(x) && PositiveDefinite(y) && Discriminant(x) == Discriminant(y)
    requires g == (x.b + y.b) / 2 && h == (y.b - x.b) / 2 && w == Gcd(Gcd(x.a, y.a), g)
    requires w > 0 && s == x.a / w && t == y.a / w && u == g / w && s > 0 && t > 0
    requires LinearCongruence(t * u, h * u + s * x.c, s * t) == Some((mu, v))
    requires LinearCongruence(t * v, h - t * mu, s) == Some((lambda, sigma))
    requires k == mu + v * lambda && l == (k * t - h) / s
    requires m == (t * u * k - h * u - x.c * s) / (s * t)
    ensures PositiveDefinite(ClassElem(s * t, w * u - k * t - l * s, k * l - w * m))
    ensures Discriminant(ClassElem(s * t, w * u - k * t - l * s, k * l - w * m)) == Discriminant(x)
    ensures Compose(x, y) == Some(Forms.Reduce(ClassElem(s * t, w * u - k * t - l * s, k * l - w * m)))
  {
    ComposedForm(x, y, g, h, w, s, t, u, mu, v, lambda, sigma, k, l, m);
    assert NucompForm(x, h, w, s, t, u, k) == ClassElem(s * t, w * u - k * t - l * s, k * l - w * m);
    ComposeUnfolds(x, y, g, h, w, s, t, u, mu, v);
    SecondUnfolds(x, y, g, h, w, s, t, u, mu, v, lambda, sigma, k);
  }

  /** `Compose` reaches its second congruence with the first one's solution. */
  lemma ComposeUnfolds(x: ClassElem, y: ClassElem, g: int, h: int, w: int, s: int, t: int, u: int,
                       mu: int, v: int)
    requires PositiveDefinite(x) && PositiveDefinite(y) && Discriminant(x) == Discriminant(y)
    requires g == (x.b + y.b) / 2 && h == (y.b - x.b) / 2 && w == Gcd(Gcd(x.a, y.a), g)
    requires w > 0 && s == x.a / w && t == y.a / w && u == g / w && s > 0 && t > 0
    requires LinearCongruence(t * u, h * u + s * x.c, s * t) == Some((mu, v))
    ensures Compose(x, y) == ComposeSecond(x, y, g, h, w, s, t, u, mu, v)
  {
    ComposeIsWith(x, y, g, h, w, s, t, u);
  }

  lemma ComposeIsWith(x: ClassElem, y: ClassElem, g: int, h: int, w: int, s: int, t: int, u: int)
    requires PositiveDefinite(x) && PositiveDefinite(y) && Discriminant(x) == Discriminant(y)
    requires g == (x.b + y.b) / 2 && h == (y.b - x.b) / 2 && w == Gcd(Gcd(x.a, y.a), g)
    requires w > 0 && s == x.a / w && t == y.a / w && u == g / w && s > 0 && t > 0
    ensures Compose(x, y) == ComposeWith(x, y, g, h, w, s, t, u)
  {
  }

  /** With the second congruence's solution, the result is the reduced NUCOMP form. */
  lemma SecondUnfolds(x: ClassElem, y: ClassElem, g: int, h: int, w: int, s: int, t: int, u: int,
                      mu: int, v: int, lambda: int, sigma: int, k: int)
    requires PositiveDefinite(x) && PositiveDefinite(y) && Discriminant(x) == Discriminant(y)
    requires g == (x.b + y.b) / 2 && h == (y.b - x.b) / 2 && w == Gcd(Gcd(x.a, y.a), g)
    requires w > 0 && s == x.a / w && t == y.a / w && u == g / w && s > 0 && t > 0
    requires LinearCongruence(t * u, h * u + s * x.c, s * t) == Some((mu, v))
    requires LinearCongruence(t * v, h - t * mu, s) == Some((lambda, sigma))
    requires k == mu + v * lambda && PositiveDefinite(NucompForm(x, h, w, s, t, u, k))
    ensures ComposeSecond(x, y, g, h, w, s, t, u, mu, v) == Some(Forms.Reduce(NucompForm(x, h, w, s, t, u, k)))
  {
  }

  /** The unreduced NUCOMP form is positive definite, with the operands' discriminant. */
  lemma ComposedForm(x: ClassElem, y: ClassElem, g: int, h: int, w: int, s: int, t: int, u: int,
                     mu: int, v: int, lambda: int, sigma: int, k: int, l: int, m: int)
    requires PositiveDefinite(x) && PositiveDefinite(y) && Discriminant(x) == Discriminant(y)
    requires g == (x.b + y.b) / 2 && h == (y.b - x.b) / 2 && w == Gcd(Gcd(x.a, y.a), g)
    requires w > 0 && s == x.a / w && t == y.a / w && u == g / w && s > 0 && t > 0
    requires LinearCongruence(t * u, h * u + s * x.c, s * t) == Some((mu, v))
    requires LinearCongruence(t * v, h - t * mu, s) == Some((lambda, sigma))
    requires k == mu + v * lambda && l == (k * t - h) / s
    requires m == (t * u * k - h * u - x.c * s) / (s * t)
    ensures PositiveDefinite(ClassElem(s * t, w * u - k * t - l * s, k * l - w * m))
    ensures Discriminant(ClassElem(s * t, w * u - k * t - l * s, k * l - w * m)) == Discriminant(x)
  {
    NucompExact(x, y, s, t, u, h, mu, v, lambda, sigma, k, l, m);
    HalfSumDifference(x.b, y.b);
    NucompFactors(x.a, y.a, g);
    NucompDiscriminant(x.a, x.b, x.c, g, h, w, s, t, u, k, l, m);
  }

  /** The two divisions of NUCOMP that must be exact are exact, by the two congruences. */
  lemma NucompExact(x: ClassElem, y: ClassElem, s: int, t: int, u: int, h: int, mu: int, v: int,
                    lambda: int, sigma: int, k: int, l: int, m: int)
    requires s > 0 && t > 0
    requires LinearCongruence(t * u, h * u + s * x.c, s * t) == Some((mu, v))
    requires LinearCongruence(t * v, h - t * mu, s) == Some((lambda, sigma))
    requires k == mu + v * lambda && l == (k * t - h) / s
    requires m == (t * u * k - h * u - x.c * s) / (s * t)
    ensures s * l == k * t - h && (s * t) * m == t * u * k - h * u - x.c * s
  {
    assert s * l == k * t - h by {
      assert (lambda - lambda) % sigma == 0;
      assert Solves(t * v, h - t * mu, s, lambda);
      NucompKShift(mu, v, lambda, t, h);
      DivModIdentity(k * t - h, s);
    }
    assert (s * t) * m == t * u * k - h * u - x.c * s by {
      MulModAny(v, lambda);
      assert (k - mu) % v == 0;
      assert Solves(t * u, h * u + s * x.c, s * t, k);
      assert t * u * k - h * u - x.c * s == (t * u) * k - (h * u + s * x.c);
      DivModIdentity(t * u * k - h * u - x.c * s, s * t);
    }
  }

  lemma NucompKShift(mu: int, v: int, lambda: int, t: int, h: int)
    ensures (mu + v * lambda) * t - h == (t * v) * lambda - (h - t * mu)
  {
  }

  /** The division in `square_regular` is exact, because `mu` solves its congruence. */
  lemma SquareExact(x: ClassElem, mu: int, v: int, m: int)
    requires x.a > 0 && LinearCongruence(x.b, x.c, x.a) == Some((mu, v))
    requires m == (x.b * mu - x.c) / x.a
    ensures x.a * m == x.b * mu - x.c
  {
    assert (mu - mu) % v == 0;
    assert Solves(x.b, x.c, x.a, mu);
    DivModIdentity(x.b * mu - x.c, x.a);
  }

  /**
   * The algebra of section 6.3.1: with `a*m == b*mu - c - rem`, the squared form's discriminant
   * is `b^2 - 4ac - 4a*rem`; it keeps the discriminant exactly when the division is exact.
   */
  lemma SquareDiscriminant(x: ClassElem, mu: int, m: int, rem: int, y: ClassElem)
    requires x.a * m == x.b * mu - x.c - rem
    requires y == ClassElem(x.a * x.a, x.b - mu * x.a * 2, mu * mu - m)
    ensures Discriminant(y) == Discriminant(x) - 4 * x.a * rem
  {
    var a, b, c, p := x.a, x.b, x.c, mu * x.a;
    assert y.b == b - 2 * p;
    assert y.b * y.b == b * b - 4 * (p * b) + 4 * (p * p);
    assert (a * a) * (mu * mu) == p * p;
    assert (a * a) * m == a * (b * mu - c - rem);
    assert a * (b * mu) == p * b;
    assert 4 * y.a * y.c == 4 * ((a * a) * (mu * mu)) - 4 * ((a * a) * m);
  }

  /**
   * Section 6.3.1 on values: solve `b*mu == c (mod a)`, then `(a^2, b - 2 mu a, mu^2 - m)` with
   * `m = (b mu - c) / a`, reduced. It fails exactly when that congruence has no solution;
   * otherwise it is a reduced form with the same discriminant.
   */
  function SquareForm(x: ClassElem): (r: Option<ClassElem>)
    requires PositiveDefinite(x)
    ensures r.None? <==> LinearCongruence(x.b, x.c, x.a).None?
    ensures r.Some? ==> IsReduced(r.value) && Discriminant(r.value) == Discriminant(x)
  {
    var sol := LinearCongruence(x.b, x.c, x.a);
    if sol.None? then None
    else
      var (mu, v) := sol.value;
      var m := (x.b * mu - x.c) / x.a;
      var unreduced := ClassElem(x.a * x.a, x.b - mu * x.a * 2, mu * mu - m);
      SquareExact(x, mu, v, m);
      SquareDiscriminant(x, mu, m, 0, unreduced);
      assert x.a * x.a > 0;
      Some(Forms.Reduce(unreduced))
  }

  /** `square_regular`, what `square` runs without the NUDULP feature, over scratch registers. */
  method Square(x: ClassElem) returns (r: Option<ClassElem>)
    requires PositiveDefinite(x)
    ensures r == SquareForm(x)
    ensures Gcd(x.a, x.b) == 1 ==> r == Compose(x, x)
  {
    if Gcd(x.a, x.b) == 1 {
      SquareIsCompose(x);
    }
    var sol := SolveLinearCongruence(x.b, x.c, x.a);
    if sol.None? {
      return None;
    }
    var (mu, v) := sol.value;
    var m := x.b * mu;
    m := m - x.c;
    m := m / x.a;
    var oldA := x.a;
    var a := x.a * x.a;
    var t := mu * oldA;
    t := t * 2;
    var b := x.b - t;
    var c := mu * mu;
    c := c - m;

    SquareExact(x, mu, v, m);
    var unreduced := ClassElem(a, b, c);
    SquareDiscriminant(x, mu, m, 0, unreduced);
    assert x.a * x.a > 0;
    var squared := Reduce(unreduced);
    return Some(squared);
  }

  lemma IdIsElement(d: int)
    requires IsGroupDiscriminant(d)
    ensures d % 4 == 1 && IsElement(d, Id(d)) && PositiveDefinite(Id(d))
  {
  }

  /**
   * Square-and-multiply on values: `val` times `a` to the power `k`, where each step composes
   * when `k` is odd and then squares `a`, the last step included; `None` when a composition or a
   * squaring fails.
   */
  function PowerLoop(d: int, val: ClassElem, a: ClassElem, k: nat): (r: Option<ClassElem>)
    requires d < 0 && IsElement(d, val) && a.a > 0 && Validate(d, a)
    ensures k == 0 ==> r == Some(val)
    ensures r.Some? ==> IsElement(d, r.value)
    decreases k
  {
    if k == 0 then Some(val)
    else
      var composed := if k % 2 == 1 then Compose(val, a) else Some(val);
      if composed.None? then None
      else
        var squared := SquareForm(a);
        if squared.None? then None
        else PowerLoop(d, composed.value, squared.value, k / 2)
  }

  /**
   * `exp_`: square-and-multiply from the identity, on `inv(x)` and `-n` when `n < 0`. For
   * `n == 0` the identity comes back; otherwise a group element, unless a step fails.
   */
  method Exp(d: int, x: ClassElem, n: int) returns (r: Option<ClassElem>)
    requires IsGroupDiscriminant(d) && x.a > 0 && Validate(d, x)
    ensures r == PowerLoop(d, Id(d), if n < 0 then Inv(x) else x, Abs(n))
    ensures n == 0 ==> r == Some(Id(d))
    ensures r.Some? ==> IsElement(d, r.value)
    ensures IsPrime(-d) && ComposeIsGroupLaw(d) && IsElement(d, if n < 0 then Inv(x) else x) ==>
      r == Power(d, if n < 0 then Inv(x) else x, Abs(n))
  {
    IdIsElement(d);
    ExpBaseIsPower(d, if n < 0 then Inv(x) else x, Abs(n));
    var val, a, k := Id(d), x, n;
    if n < 0 {
      a, k := Inv(x), -n;
    }
    while k != 0
      invariant k >= 0 && IsElement(d, val) && a.a > 0 && Validate(d, a)
      invariant PowerLoop(d, val, a, k) == PowerLoop(d, Id(d), if n < 0 then Inv(x) else x, Abs(n))
      decreases k
    {
      if k % 2 == 1 {
        var composed := Op(val, a);
        if composed.None? {
          return None;
        }
        val := composed.value;
      }
      var squared := Square(a);
      if squared.None? {
        return None;
      }
      a := squared.value;
      k := k / 2;
    }
    return Some(val);
  }

  /** A positive-definite form with leading coefficient 1 and odd `b` reduces to the identity. */
  lemma ReduceLeadingOne(y: ClassElem)
    requires PositiveDefinite(y) && y.a == 1 && y.b % 2 == 1
    ensures Forms.Reduce(y) == Id(Discriminant(y))
  {
    var d := Discriminant(y);
    var n := Forms.Normalize(y);
    assert n.b % 2 == 1;
    assert n.b == 1;
    PositiveDefiniteC(n);
    DivModUnique(1 - d, 4, n.c, 0);
    assert IsReduced(n);
  }

  /**
   * A form composed with its inverse, on either side, is the identity (odd discriminants):
   * NUCOMP gives `(1, -b, ac)` or `(1, b, ac)`, and those reduce to `(1, 1, (1 - d) / 4)`.
   */
  lemma ComposeInverse(x: ClassElem)
    requires PositiveDefinite(x) && x.b % 2 == 1
    ensures Compose(x, Inv(x)) == Some(Id(Discriminant(x)))
    ensures Compose(Inv(x), x) == Some(Id(Discriminant(x)))
  {
    InverseRight(x);
    InverseLeft(x);
  }

  /** With `y = (a, -b, c)`: `g = 0`, `w = a`, both congruences are modulo 1, and the form `(1, -b, ac)` reduces to the identity. */
  lemma InverseRight(x: ClassElem)
    requires PositiveDefinite(x) && x.b % 2 == 1
    ensures Compose(x, Inv(x)) == Some(Id(Discriminant(x)))
  {
    var a, b, c := x.a, x.b, x.c;
    InverseFacts(a, b, c);
    ComposeValue(x, Inv(x), 0, -b, a, 1, 1, 0, 0, 1, 0, 1, 0, b, -c);
    ReduceLeadingOne(ClassElem(1 * 1, a * 0 - 0 * 1 - b * 1, 0 * b - a * -c));
  }

  /** The mirror image of `InverseRight`: the form is `(1, b, ac)`. */
  lemma InverseLeft(x: ClassElem)
    requires PositiveDefinite(x) && x.b % 2 == 1
    ensures Compose(Inv(x), x) == Some(Id(Discriminant(x)))
  {
    var a, b, c := x.a, x.b, x.c;
    InverseFacts(a, b, c);
    ComposeValue(Inv(x), x, 0, b, a, 1, 1, 0, 0, 1, 0, 1, 0, -b, -c);
    ReduceLeadingOne(ClassElem(1 * 1, a * 0 - 0 * 1 - -b * 1, 0 * -b - a * -c));
  }

  /** The intermediate values of composing a form with its inverse. */
  lemma InverseFacts(a: int, b: int, c: int)
    requires a > 0
    ensures Gcd(Gcd(a, a), 0) == a && a / a == 1 && 0 / a == 0
    ensures LinearCongruence(0, c, 1) == Some((0, 1))
    ensures LinearCongruence(1, -b, 1) == Some((0, 1)) && LinearCongruence(1, b, 1) == Some((0, 1))
  {
    assert Gcd(a, a) == a;
    assert Gcd(a, 0) == a;
    MulModAny(a, 1);
    CongruenceModOne(0, c);
    CongruenceModOne(1, -b);
    CongruenceModOne(1, b);
  }

  /** Every congruence modulo 1 is solved by 0, and the solutions step by 1. */
  lemma CongruenceModOne(a: int, b: int)
    ensures LinearCongruence(a, b, 1) == Some((0, 1))
  {
    GcdOne(a);
  }

  /** The identity has discriminant `d` and is positive definite, for `d < 0` congruent to 1 mod 4. */
  lemma IdPositiveDefinite(d: int)
    requires d < 0 && d % 4 == 1
    ensures Discriminant(Id(d)) == d && PositiveDefinite(Id(d)) && IsReduced(Id(d))
  {
  }

  /** `h*g + c0 == a*c` for the quantities of a composition with the identity on the left. */
  lemma LeftIdentityResidue(a: int, b: int, c: int, g: int, h: int, c0: int)
    requires 2 * g == 1 + b && 2 * h == b - 1 && 4 * c0 == 1 - (b * b - 4 * a * c)
    ensures h * g + c0 == a * c
  {
    assert 4 * (h * g) == (2 * h) * (2 * g) == (b - 1) * (b + 1) == b * b - 1;
  }

  /** `h*g + a*c == c0 == a*c + g*(1 - g)` for a composition with the identity on the right. */
  lemma RightIdentityResidue(a: int, b: int, c: int, g: int, h: int, c0: int)
    requires 2 * g == b + 1 && 2 * h == 1 - b && 4 * c0 == 1 - (b * b - 4 * a * c)
    ensures h * g + a * c == c0 && c0 == a * c + g * (1 - g)
  {
    assert 4 * (h * g) == (2 * h) * (2 * g) == (1 - b) * (b + 1) == 1 - b * b;
    assert 4 * (g * (1 - g)) == (2 * g) * (2 - 2 * g) == (b + 1) * (1 - b);
  }

  /**
   * The identity is neutral on the left: `op(id, x) == x` for a reduced form `x`. The
   * composition comes out as a translate `(a, b - 2 mu a, ...)` of `x`, which reduces to `x`.
   */
  lemma ComposeIdentityLeft(x: ClassElem)
    requires PositiveDefinite(x) && IsReduced(x) && x.b % 2 == 1
    ensures PositiveDefinite(Id(Discriminant(x)))
    ensures Compose(Id(Discriminant(x)), x) == Some(x)
  {
    var mu := LeftIdentityTranslate(x);
    ReduceTranslate(x, -mu);
  }

  /** `op(id, x)` is the reduction of the translate of `x` by `-mu`, `mu` the first congruence's root. */
  lemma LeftIdentityTranslate(x: ClassElem) returns (mu: int)
    requires PositiveDefinite(x) && x.b % 2 == 1
    ensures PositiveDefinite(Id(Discriminant(x))) && PositiveDefinite(Translate(x, -mu))
    ensures Compose(Id(Discriminant(x)), x) == Some(Forms.Reduce(Translate(x, -mu)))
  {
    var d := Discriminant(x);
    IdPositiveDefinite(d);
    var e := Id(d);
    var a, b, c, c0 := x.a, x.b, x.c, e.c;
    DivModIdentity(1 - d, 4);
    var g, h := (1 + b) / 2, (b - 1) / 2;
    assert Gcd(Gcd(e.a, x.a), g) == 1 by {
      GcdOne(a);
      GcdOne(g);
    }
    assert 1 * a == a && a > 0;
    var first := LinearCongruence(a * g, h * g + 1 * c0, 1 * a);
    assert first.Some? by {
      LeftIdentityResidue(a, b, c, g, h, c0);
      GcdDivides(a * g, a);
      DividesLinear(Gcd(a * g, a), a, a, c, 0);
    }
    var v;
    mu, v := first.value.0, first.value.1;
    var F := LeftIdentityValue(x, g, h, mu, v);
    FormDetermined(F, Translate(x, -mu));
  }

  /** The form `op(id, x)` reduces, given the solution `(mu, v)` of the first congruence. */
  lemma LeftIdentityValue(x: ClassElem, g: int, h: int, mu: int, v: int) returns (F: ClassElem)
    requires PositiveDefinite(x) && x.b % 2 == 1 && PositiveDefinite(Id(Discriminant(x)))
    requires g == (1 + x.b) / 2 && h == (x.b - 1) / 2
    requires Gcd(Gcd(1, x.a), g) == 1
    requires LinearCongruence(x.a * g, h * g + 1 * Id(Discriminant(x)).c, 1 * x.a) == Some((mu, v))
    ensures PositiveDefinite(F) && Discriminant(F) == Discriminant(x)
    ensures F.a == x.a && F.b == Translate(x, -mu).b
    ensures Compose(Id(Discriminant(x)), x) == Some(Forms.Reduce(F))
  {
    var e, a := Id(Discriminant(x)), x.a;
    var m := (a * g * mu - h * g - e.c * 1) / (1 * a);
    F := ClassElem(1 * a, 1 * g - mu * a - (mu * a - h) * 1, mu * (mu * a - h) - 1 * m);
    assert F.a == x.a;
    assert F.b == Translate(x, -mu).b by {
      LeftIdentityShift(a, x.b, g, h, mu);
    }
    CongruenceModOne(a * v, h - a * mu);
    ComposeValue(e, x, g, h, 1, 1, a, g, mu, v, 0, 1, mu, mu * a - h, m);
  }

  lemma LeftIdentityShift(a: int, b: int, g: int, h: int, mu: int)
    requires g + h == b
    ensures 1 * g - mu * a - (mu * a - h) * 1 == b + 2 * -mu * a
  {
  }

  /**
   * The identity is neutral on the right: `op(x, id) == x` for a reduced form `x`. The second
   * congruence forces `k == h (mod a)`, so the composition is again a translate of `x`.
   */
  lemma ComposeIdentityRight(x: ClassElem)
    requires PositiveDefinite(x) && IsReduced(x) && x.b % 2 == 1
    ensures PositiveDefinite(Id(Discriminant(x)))
    ensures Compose(x, Id(Discriminant(x))) == Some(x)
  {
    var l := RightIdentityTranslate(x);
    ReduceTranslate(x, -l);
  }

  /** `op(x, id)` is the reduction of the translate of `x` by `-l`. */
  lemma RightIdentityTranslate(x: ClassElem) returns (l: int)
    requires PositiveDefinite(x) && x.b % 2 == 1
    ensures PositiveDefinite(Id(Discriminant(x))) && PositiveDefinite(Translate(x, -l))
    ensures Compose(x, Id(Discriminant(x))) == Some(Forms.Reduce(Translate(x, -l)))
  {
    var d := Discriminant(x);
    IdPositiveDefinite(d);
    var e := Id(d);
    var a, b, c, c0 := x.a, x.b, x.c, e.c;
    DivModIdentity(1 - d, 4);
    var g, h := (b + 1) / 2, (1 - b) / 2;
    assert Gcd(Gcd(x.a, e.a), g) == 1 by {
      GcdOne(a);
      GcdOne(g);
    }
    assert a * 1 == a && a > 0;
    var first := LinearCongruence(1 * g, h * g + a * c, a * 1);
    assert first.Some? by {
      RightIdentityResidue(a, b, c, g, h, c0);
      GcdDivides(g, a);
      DividesLinear(Gcd(1 * g, a * 1), a, g, c, 1 - g);
    }
    var (mu, v) := first.value;
    assert LinearCongruence(1 * v, h - 1 * mu, a).Some? by {
      RightIdentityResidue(a, b, c, g, h, c0);
      RightIdentitySecond(a, c, g, h, c0, mu, v);
    }
    var (lambda, sigma) := LinearCongruence(1 * v, h - 1 * mu, a).value;
    var F;
    F, l := RightIdentityValue(x, g, h, mu, v, lambda, sigma);
    FormDetermined(F, Translate(x, -l));
  }

  /** The form `op(x, id)` reduces, given the solutions of both congruences. */
  lemma RightIdentityValue(x: ClassElem, g: int, h: int, mu: int, v: int, lambda: int, sigma: int)
    returns (F: ClassElem, l: int)
    requires PositiveDefinite(x) && x.b % 2 == 1 && PositiveDefinite(Id(Discriminant(x)))
    requires g == (x.b + 1) / 2 && h == (1 - x.b) / 2
    requires Gcd(Gcd(x.a, 1), g) == 1
    requires LinearCongruence(1 * g, h * g + x.a * x.c, x.a * 1) == Some((mu, v))
    requires LinearCongruence(1 * v, h - 1 * mu, x.a) == Some((lambda, sigma))
    ensures PositiveDefinite(F) && Discriminant(F) == Discriminant(x)
    ensures F.a == x.a && F.b == Translate(x, -l).b
    ensures Compose(x, Id(Discriminant(x))) == Some(Forms.Reduce(F))
  {
    var e, a := Id(Discriminant(x)), x.a;
    var k := mu + v * lambda;
    l := (k * 1 - h) / a;
    var m := (1 * g * k - h * g - x.c * a) / (a * 1);
    F := ClassElem(a * 1, 1 * g - k * 1 - l * a, k * l - 1 * m);
    assert F.a == x.a;
    assert F.b == Translate(x, -l).b by {
      RightIdentityShift(a, x.b, g, h, mu, v, lambda, sigma, k, l);
    }
    ComposeValue(x, e, g, h, 1, a, 1, g, mu, v, lambda, sigma, k, l, m);
  }

  /** In a composition with the identity on the right, `h` solves the first congruence, so the second one is solvable. */
  lemma RightIdentitySecond(a: int, c: int, g: int, h: int, c0: int, mu: int, v: int)
    requires a > 0 && h == 1 - g && c0 == a * c + g * (1 - g)
    requires LinearCongruence(g, c0, a) == Some((mu, v))
    ensures v > 0 && LinearCongruence(v, h - mu, a).Some?
  {
    MulModAny(a, -c);
    assert g * h - c0 == a * -c;
    assert Solves(g, c0, a, h);
    assert (h - mu) % v == 0;
    var G := Gcd(g, a);
    GcdDivides(g, a);
    DivModIdentity(a, G);
    PositiveQuotient(a, G);
    var G' := Gcd(v, a);
    GcdDivides(v, a);
    DividesTrans(G', v, h - mu);
  }

  /** In a composition with the identity on the right, `a*l == k - h` and `g - k - la == b - 2la`. */
  lemma RightIdentityShift(a: int, b: int, g: int, h: int, mu: int, v: int, lambda: int, sigma: int,
                           k: int, l: int)
    requires a > 0 && g - h == b && LinearCongruence(v, h - mu, a) == Some((lambda, sigma))
    requires k == mu + v * lambda && l == (k - h) / a
    ensures g - k - l * a == b + 2 * -l * a
  {
    assert (lambda - lambda) % sigma == 0;
    assert Solves(v, h - mu, a, lambda);
    assert k - h == v * lambda - (h - mu);
    DivModIdentity(k - h, a);
  }

  /**
   * Raising an element to the first power gives it back, provided the final squaring (which
   * `exp_` performs even though its result is not used) succeeds.
   */
  lemma PowerOne(d: int, x: ClassElem)
    requires IsGroupDiscriminant(d) && IsElement(d, x) && LinearCongruence(x.b, x.c, x.a).Some?
    ensures PowerLoop(d, Id(d), x, 1) == Some(x)
  {
    IdIsElement(d);
    assert x.b % 2 == 1;
    ComposeIdentityLeft(x);
    assert Compose(Id(d), x) == Some(x);
    var squared := SquareForm(x);
    assert squared.Some?;
    assert PowerLoop(d, x, squared.value, 0) == Some(x);
  }

  /** Inverting twice gives the form back. */
  lemma InvInvolutive(x: ClassElem)
    ensures Inv(Inv(x)) == x
  {
  }

  /**
   * Squaring is composing a form with itself: for `y == x` NUCOMP has `g = b`, `h = 0`,
   * `w = gcd(a, b)`, and when `a` and `b` are coprime its first congruence is the one of
   * section 6.3.1 scaled by `a`, so its form is a translate of the squared form.
   */
  lemma SquareIsCompose(x: ClassElem)
    requires PositiveDefinite(x) && Gcd(x.a, x.b) == 1
    ensures SquareForm(x).Some? && Compose(x, x) == SquareForm(x)
  {
    var k, F := SquareByNucomp(x);
    CoprimeSwap(x.a, x.b);
    var j, S := SquareFormValue(x, k);
    ReduceShifted(F, S, -j);
  }

  /**
   * `SquareForm` with coprime `b` and `a`: the reduction of `(a^2, b - 2 mu a, ...)`. Every
   * root `k` of its congruence is `mu + ja`, which makes `(a^2, b - 2ka, ...)` a translate.
   */
  lemma SquareFormValue(x: ClassElem, k: int) returns (j: int, S: ClassElem)
    requires PositiveDefinite(x) && Gcd(x.b, x.a) == 1 && Solves(x.b, x.c, x.a, k)
    ensures PositiveDefinite(S) && Discriminant(S) == Discriminant(x) && S.a == x.a * x.a
    ensures x.b - k * x.a - k * x.a == S.b + 2 * -j * S.a
    ensures SquareForm(x) == Some(Forms.Reduce(S))
  {
    var mu, vs := LinearCongruence(x.b, x.c, x.a).value.0, LinearCongruence(x.b, x.c, x.a).value.1;
    assert (k - mu) % x.a == 0;
    j := (k - mu) / x.a;
    DivModIdentity(k - mu, x.a);
    SquareShift(x.a, x.b, mu, j, k);
    var ms := (x.b * mu - x.c) / x.a;
    S := ClassElem(x.a * x.a, x.b - mu * x.a * 2, mu * mu - ms);
    SquareExact(x, mu, vs, ms);
    SquareDiscriminant(x, mu, ms, 0, S);
  }

  lemma SquareShift(a: int, b: int, mu: int, j: int, k: int)
    requires k - mu == a * j
    ensures b - k * a - k * a == (b - mu * a * 2) + 2 * -j * (a * a)
  {
    assert k * a == mu * a + j * (a * a);
  }

  /** A form with the leading coefficient, discriminant and `b` of a translate of `S` reduces as `S` does. */
  lemma ReduceShifted(F: ClassElem, S: ClassElem, r: int)
    requires PositiveDefinite(S) && F.a == S.a && F.b == S.b + 2 * r * S.a
    requires Discriminant(F) == Discriminant(S)
    ensures PositiveDefinite(F) && Forms.Reduce(F) == Forms.Reduce(S)
  {
    FormDetermined(F, Translate(S, r));
    ReduceTranslate(S, r);
  }

  /**
   * NUCOMP on `(x, x)` with coprime `a` and `b`: `w = 1`, `s = t = a`, `u = b`, `l = k`, and the
   * unreduced form is `(a^2, b - 2ka, ...)` for a root `k` of `b*k == c (mod a)`.
   */
  lemma SquareByNucomp(x: ClassElem) returns (k: int, F: ClassElem)
    requires PositiveDefinite(x) && Gcd(x.a, x.b) == 1
    ensures Solves(x.b, x.c, x.a, k)
    ensures PositiveDefinite(F) && Discriminant(F) == Discriminant(x)
    ensures F.a == x.a * x.a && F.b == x.b - k * x.a - k * x.a
    ensures Compose(x, x) == Some(Forms.Reduce(F))
  {
    var a, b, c := x.a, x.b, x.c;
    assert Gcd(Gcd(a, a), b) == 1 by {
      assert a % a == 0;
      assert Gcd(a, a) == a;
    }
    DivModUnique(b + b, 2, b, 0);
    var mu1, v1, lambda, sigma := SquareCongruences(a, b, c);
    k := mu1 + v1 * lambda;
    var l := (k * a - 0) / a;
    var m := (a * b * k - 0 * b - c * a) / (a * a);
    assert l == k by {
      MulModAny(a, k);
    }
    ComposeValue(x, x, b, 0, 1, a, a, b, mu1, v1, lambda, sigma, k, l, m);
    F := ClassElem(a * a, 1 * b - k * a - l * a, k * l - 1 * m);
    SquareRootOfFirst(a, b, c, mu1, v1, lambda);
  }

  /** A congruence `a*v*k == -a*mu (mod a)` is solvable: `gcd(av, a)` divides `a`. */
  lemma SecondSquareCongruence(a: int, v: int, mu: int)
    requires a > 0
    ensures LinearCongruence(a * v, 0 - a * mu, a).Some?
  {
    var g := Gcd(a * v, a);
    GcdDivides(a * v, a);
    DividesLinear(g, a, a, -mu, 0);
    assert a * -mu + a * 0 == 0 - a * mu;
  }

  /** Both congruences of NUCOMP on `(x, x)` are solvable when `a` and `b` are coprime. */
  lemma SquareCongruences(a: int, b: int, c: int) returns (mu1: int, v1: int, lambda: int, sigma: int)
    requires a > 0 && Gcd(a, b) == 1
    ensures LinearCongruence(a * b, 0 * b + a * c, a * a) == Some((mu1, v1))
    ensures LinearCongruence(a * v1, 0 - a * mu1, a) == Some((lambda, sigma))
  {
    FirstSquareCongruence(a, b, c);
    mu1, v1 := LinearCongruence(a * b, 0 * b + a * c, a * a).value.0,
               LinearCongruence(a * b, 0 * b + a * c, a * a).value.1;
    SecondSquareCongruence(a, v1, mu1);
    lambda, sigma := LinearCongruence(a * v1, 0 - a * mu1, a).value.0,
                     LinearCongruence(a * v1, 0 - a * mu1, a).value.1;
  }

  /** Coprimality does not depend on the order of the arguments. */
  lemma CoprimeSwap(a: int, b: int)
    requires a > 0 && Gcd(a, b) == 1
    ensures Gcd(b, a) == 1
  {
    var g := Gcd(b, a);
    GcdDivides(b, a);
    GcdIsGreatest(a, b, g);
    DivisorBound(g, 1);
  }

  /** With `a` and `b` coprime, `gcd(ab, a^2) == a` divides `ac`: the first congruence of NUCOMP on `(x, x)` is solvable. */
  lemma FirstSquareCongruence(a: int, b: int, c: int)
    requires a > 0 && Gcd(a, b) == 1
    ensures LinearCongruence(a * b, 0 * b + a * c, a * a).Some?
  {
    var g := Gcd(a * b, a * a);
    GcdDivides(a * b, a * a);
    var e := ExtGcd(a, b);
    BezoutScaled(a, b, e.1, e.2);
    DividesLinear(g, a * a, a * b, e.1, e.2);
    DividesLinear(g, a, a, c, 0);
    assert 0 * b + a * c == a * c + a * 0;
  }

  lemma BezoutScaled(a: int, b: int, p: int, q: int)
    requires a * p + b * q == 1
    ensures (a * a) * p + (a * b) * q == a
  {
    assert a * (a * p + b * q) == a;
  }

  /** NUCOMP's `k = mu1 + v1*lambda` on `(x, x)` solves the square's congruence `b*k == c (mod a)`. */
  lemma SquareRootOfFirst(a: int, b: int, c: int, mu1: int, v1: int, lambda: int)
    requires a > 0
    requires LinearCongruence(a * b, 0 * b + a * c, a * a) == Some((mu1, v1))
    ensures Solves(b, c, a, mu1 + v1 * lambda)
  {
    var k := mu1 + v1 * lambda;
    assert Solves(a * b, 0 * b + a * c, a * a, k) by {
      MulModAny(v1, lambda);
      assert k - mu1 == v1 * lambda;
    }
    SolvesUnscaled(a, b, c, k);
  }

  /** `ab*k == ac (mod a^2)` gives `b*k == c (mod a)`. */
  lemma SolvesUnscaled(a: int, b: int, c: int, k: int)
    requires a > 0 && Solves(a * b, 0 * b + a * c, a * a, k)
    ensures Solves(b, c, a, k)
  {
    var q := (a * b * k - (0 * b + a * c)) / (a * a);
    DivModIdentity(a * b * k - (0 * b + a * c), a * a);
    assert a * (b * k - c) == a * (a * q);
    MulCancel(a, b * k - c, a * q);
    MulMod(a, q);
  }

  /**
   * The coprimality `SquareIsCompose` needs holds for every reduced form when `-d` is prime:
   * a common divisor of `a` and `b` divides `d`, and `a` is below `-d`.
   */
  lemma CoprimeForPrime(d: int, x: ClassElem)
    requires IsPrime(-d) && IsElement(d, x)
    ensures PositiveDefinite(x) && Gcd(x.a, x.b) == 1
  {
    var a, b, c := x.a, x.b, x.c;
    var n := 4 * a * c - b * b;
    assert n == -d;
    var g := Gcd(a, b);
    GcdDivides(a, b);
    CommonDivisorOfForm(g, a, b, c);
    DivisorBound(g, a);
    ReducedBound(a, b, c);
    assert g < 2;
  }

  /** A common divisor of `a` and `b` divides `4ac - b^2`. */
  lemma CommonDivisorOfForm(g: int, a: int, b: int, c: int)
    requires g > 0 && a % g == 0 && b % g == 0
    ensures (4 * a * c - b * b) % g == 0
  {
    DividesLinear(g, b, a, -b, 4 * c);
    assert b * -b + a * (4 * c) == 4 * a * c - b * b;
  }

  /** For a reduced positive form, `4ac - b^2 >= 3a^2 > a`. */
  lemma ReducedBound(a: int, b: int, c: int)
    requires 0 < a && -a < b <= a && a <= c
    ensures 4 * a * c - b * b > a
  {
    assert b * b <= a * a by {
      if b >= 0 {
        MulNonNegativeBound(b, a);
      } else {
        MulNonNegativeBound(-b, a);
      }
    }
    assert a * c >= a * a by {
      assert a * c - a * a == a * (c - a);
      MulNonNegative(a, c - a);
    }
    assert a * a >= a by {
      assert a * a - a == a * (a - 1);
      MulNonNegative(a, a - 1);
    }
  }

  lemma MulNonNegativeBound(p: int, q: int)
    requires 0 <= p <= q
    ensures p * p <= q * q
  {
    assert p * p <= p * q by {
      assert p * q - p * p == p * (q - p);
      MulNonNegative(p, q - p);
    }
    assert p * q <= q * q by {
      assert q * q - p * q == q * (q - p);
      MulNonNegative(q, q - p);
    }
  }

  /**
   * Without coprimality squaring and composing part: each `(3, 3, c)` with `c >= 3` not a
   * multiple of 3 is a reduced form (of discriminant `9 - 12c`, for example `-39` at `c = 4`)
   * where `b*mu == c (mod a)` has no solution, while NUCOMP on it works modulo 1.
   */
  lemma SquareNeedsCoprime(c: int)
    requires c >= 3 && c % 3 != 0
    ensures PositiveDefinite(ClassElem(3, 3, c)) && IsReduced(ClassElem(3, 3, c))
    ensures Gcd(3, 3) == 3
    ensures SquareForm(ClassElem(3, 3, c)) == None && Compose(ClassElem(3, 3, c), ClassElem(3, 3, c)).Some?
  {
    var x := ClassElem(3, 3, c);
    assert Discriminant(x) == 9 - 12 * c;
    assert Gcd(3, 3) == 3 by {
      assert Gcd(3, 3) == Gcd(3, 0);
    }
    CongruenceModOne(1 * 1, 0 * 1 + 1 * c);
    CongruenceModOne(1 * 1, 0 - 1 * 0);
    ComposeValue(x, x, 3, 0, 3, 1, 1, 1, 0, 1, 0, 1, 0, 0, -c);
  }

  /**
   * NUCOMP as a group law on the elements of discriminant `d`: it always succeeds and it is
   * associative. For a prime `-d` this is the group law of form classes, with reduced forms as
   * the classes' representatives; it is taken here as a hypothesis, not proved.
   */
  ghost predicate ComposeIsGroupLaw(d: int)
    requires IsGroupDiscriminant(d)
  {
    (forall p, q {:trigger Compose(p, q)} :: IsElement(d, p) && IsElement(d, q) ==> Compose(p, q).Some?) &&
    (forall p, q, r {:trigger Associates(d, p, q, r)} ::
      IsElement(d, p) && IsElement(d, q) && IsElement(d, r) ==> Associates(d, p, q, r))
  }

  /** `(p * q) * r == p * (q * r)`, both sides defined. */
  ghost predicate Associates(d: int, p: ClassElem, q: ClassElem, r: ClassElem)
    requires IsGroupDiscriminant(d) && IsElement(d, p) && IsElement(d, q) && IsElement(d, r)
  {
    Compose(p, q).Some? && Compose(q, r).Some? &&
    Compose(Compose(p, q).value, r) == Compose(p, Compose(q, r).value)
  }

  /** The `n`-fold composition `((id * x) * x) ... * x`, as `test_exp_basic` builds it; total under the group law. */
  function Power(d: int, x: ClassElem, n: nat): (r: Option<ClassElem>)
    requires IsGroupDiscriminant(d) && IsElement(d, x)
    ensures r.Some? ==> IsElement(d, r.value)
    ensures ComposeIsGroupLaw(d) ==> r.Some?
  {
    if n == 0 then
      IdIsElement(d);
      Some(Id(d))
    else
      var p := Power(d, x, n - 1);
      if p.None? then None else Compose(p.value, x)
  }

  /**
   * NUCOMP made total: the composition on two elements it succeeds on, the first operand
   * otherwise. The power algebra below is done over this operation as a value, so that it
   * needs only the group laws and not NUCOMP's arithmetic.
   */
  function ElementOp(d: int): (ClassElem, ClassElem) -> ClassElem
  {
    (p: ClassElem, q: ClassElem) =>
      if d < 0 && IsElement(d, p) && IsElement(d, q) && Compose(p, q).Some? then Compose(p, q).value else p
  }

  ghost predicate AssocAt(op: (ClassElem, ClassElem) -> ClassElem, p: ClassElem, q: ClassElem, r: ClassElem)
  {
    op(op(p, q), r) == op(p, op(q, r))
  }

  /** `op` is closed and associative on the elements of discriminant `d`, with the identity neutral. */
  ghost predicate IsMonoidOn(d: int, op: (ClassElem, ClassElem) -> ClassElem)
    requires IsGroupDiscriminant(d)
  {
    && (forall p, q {:trigger op(p, q)} :: IsElement(d, p) && IsElement(d, q) ==> IsElement(d, op(p, q)))
    && (forall p {:trigger op(Id(d), p)} {:trigger op(p, Id(d))} ::
          IsElement(d, p) ==> op(Id(d), p) == p && op(p, Id(d)) == p)
    && (forall p, q, r {:trigger AssocAt(op, p, q, r)} ::
          IsElement(d, p) && IsElement(d, q) && IsElement(d, r) ==> AssocAt(op, p, q, r))
  }

  /** `x` combined with itself `n` times by `op`, from `e`. */
  function PowerOf(op: (ClassElem, ClassElem) -> ClassElem, e: ClassElem, x: ClassElem, n: nat): ClassElem
  {
    if n == 0 then e else op(PowerOf(op, e, x, n - 1), x)
  }

  lemma {:induction false} PowerOfElement(d: int, op: (ClassElem, ClassElem) -> ClassElem, x: ClassElem, n: nat)
    requires IsGroupDiscriminant(d) && IsMonoidOn(d, op) && IsElement(d, x)
    ensures IsElement(d, PowerOf(op, Id(d), x, n))
  {
    IdIsElement(d);
    if n > 0 {
      PowerOfElement(d, op, x, n - 1);
    }
  }

  /** Composing on the left also gives the next power: `x * x^n == x^(n+1)`. */
  lemma {:induction false} PowerOfLeft(d: int, op: (ClassElem, ClassElem) -> ClassElem, x: ClassElem, n: nat)
    requires IsGroupDiscriminant(d) && IsMonoidOn(d, op) && IsElement(d, x)
    ensures op(x, PowerOf(op, Id(d), x, n)) == PowerOf(op, Id(d), x, n + 1)
  {
    IdIsElement(d);
    if n > 0 {
      PowerOfLeft(d, op, x, n - 1);
      var p := PowerOf(op, Id(d), x, n - 1);
      PowerOfElement(d, op, x, n - 1);
      assert AssocAt(op, x, p, x);
    }
  }

  /** The powers of `x * x` are the even powers of `x`. */
  lemma {:induction false} PowerOfSquare(d: int, op: (ClassElem, ClassElem) -> ClassElem, x: ClassElem, n: nat)
    requires IsGroupDiscriminant(d) && IsMonoidOn(d, op) && IsElement(d, x)
    ensures PowerOf(op, Id(d), op(x, x), n) == PowerOf(op, Id(d), x, 2 * n)
  {
    if n > 0 {
      PowerOfSquare(d, op, x, n - 1);
      var p := PowerOf(op, Id(d), x, 2 * n - 2);
      PowerOfElement(d, op, x, 2 * n - 2);
      assert AssocAt(op, p, x, x);
    }
  }

  /** Under the group law `ElementOp` is a monoid on the elements. */
  lemma ElementOpIsMonoid(d: int)
    requires IsGroupDiscriminant(d) && ComposeIsGroupLaw(d)
    ensures IsMonoidOn(d, ElementOp(d))
  {
    var op := ElementOp(d);
    IdIsElement(d);
    forall p | IsElement(d, p)
      ensures op(Id(d), p) == p && op(p, Id(d)) == p
    {
      assert p.b % 2 == 1;
      ComposeIdentityLeft(p);
      ComposeIdentityRight(p);
    }
    forall p, q, r | IsElement(d, p) && IsElement(d, q) && IsElement(d, r)
      ensures AssocAt(op, p, q, r)
    {
      assert Associates(d, p, q, r);
    }
  }

  /** Under the group law `ElementOp` is NUCOMP on two elements. */
  lemma ComposeIsElementOp(d: int, p: ClassElem, q: ClassElem)
    requires IsGroupDiscriminant(d) && ComposeIsGroupLaw(d) && IsElement(d, p) && IsElement(d, q)
    ensures Compose(p, q) == Some(ElementOp(d)(p, q))
  {
  }

  lemma PowerStep(d: int, x: ClassElem, n: nat)
    requires IsGroupDiscriminant(d) && ComposeIsGroupLaw(d) && IsElement(d, x) && n > 0
    ensures Power(d, x, n) == Compose(Power(d, x, n - 1).value, x)
  {
  }

  /** The reference power is the `op`-power of `ElementOp`. */
  lemma {:induction false} PowerIsPowerOf(d: int, x: ClassElem, n: nat)
    requires IsGroupDiscriminant(d) && ComposeIsGroupLaw(d) && IsElement(d, x)
    ensures Power(d, x, n) == Some(PowerOf(ElementOp(d), Id(d), x, n))
  {
    if n > 0 {
      var m := n - 1;
      PowerIsPowerOf(d, x, m);
      PowerIsPowerOfStep(d, x, m + 1);
    }
  }

  lemma PowerIsPowerOfStep(d: int, x: ClassElem, n: nat)
    requires IsGroupDiscriminant(d) && ComposeIsGroupLaw(d) && IsElement(d, x) && n > 0
    requires Power(d, x, n - 1) == Some(PowerOf(ElementOp(d), Id(d), x, n - 1))
    ensures Power(d, x, n) == Some(PowerOf(ElementOp(d), Id(d), x, n))
  {
    PowerStep(d, x, n);
    ComposeIsElementOp(d, PowerOf(ElementOp(d), Id(d), x, n - 1), x);
  }

  /** One round of the loop of `exp_` when composing and squaring are `op`. */
  lemma PowerLoopStep(d: int, op: (ClassElem, ClassElem) -> ClassElem, val: ClassElem, a: ClassElem, k: nat)
    requires d < 0 && IsElement(d, val) && IsElement(d, a) && k > 0
    requires Compose(val, a) == Some(op(val, a)) && SquareForm(a) == Some(op(a, a))
    ensures PowerLoop(d, val, a, k) == PowerLoop(d, if k % 2 == 1 then op(val, a) else val, op(a, a), k / 2)
  {
  }

  /** One round of the loop of `exp_` under the group law, with squaring as composing. */
  lemma PowerLoopRound(d: int, val: ClassElem, a: ClassElem, k: nat)
    requires IsGroupDiscriminant(d) && IsPrime(-d) && ComposeIsGroupLaw(d)
    requires IsElement(d, val) && IsElement(d, a) && k > 0
    ensures var op := ElementOp(d);
      && PowerLoop(d, val, a, k) == PowerLoop(d, if k % 2 == 1 then op(val, a) else val, op(a, a), k / 2)
      && IsElement(d, op(val, a)) && IsElement(d, op(a, a))
  {
    var op := ElementOp(d);
    ElementOpIsMonoid(d);
    CoprimeForPrime(d, a);
    SquareIsCompose(a);
    ComposeIsElementOp(d, a, a);
    ComposeIsElementOp(d, val, a);
    PowerLoopStep(d, op, val, a, k);
  }

  /** The exponent arithmetic of one round: `val' * (a * a)^(k / 2) == val * a^k`. */
  lemma PowerLoopAlgebra(d: int, op: (ClassElem, ClassElem) -> ClassElem, val: ClassElem, a: ClassElem, k: nat)
    requires IsGroupDiscriminant(d) && IsMonoidOn(d, op) && IsElement(d, val) && IsElement(d, a)
    ensures op(if k % 2 == 1 then op(val, a) else val, PowerOf(op, Id(d), op(a, a), k / 2))
         == op(val, PowerOf(op, Id(d), a, k))
  {
    var h := k / 2;
    PowerOfSquare(d, op, a, h);
    if k % 2 == 1 {
      var p := PowerOf(op, Id(d), a, 2 * h);
      PowerOfElement(d, op, a, 2 * h);
      PowerOfLeft(d, op, a, 2 * h);
      assert AssocAt(op, val, a, p);
      assert k == 2 * h + 1;
    } else {
      assert k == 2 * h;
    }
  }

  /**
   * The square-and-multiply loop of `exp_` keeps `val * a^k`: under the group law and with a
   * prime `-d` (so that squaring is composing), it ends with `val` times the `k`-th power.
   */
  lemma {:induction false} PowerLoopIsPower(d: int, val: ClassElem, a: ClassElem, k: nat)
    requires IsGroupDiscriminant(d) && IsPrime(-d) && ComposeIsGroupLaw(d)
    requires IsElement(d, val) && IsElement(d, a)
    ensures PowerLoop(d, val, a, k) == Some(ElementOp(d)(val, PowerOf(ElementOp(d), Id(d), a, k)))
    decreases k
  {
    var op := ElementOp(d);
    ElementOpIsMonoid(d);
    if k > 0 {
      PowerLoopRound(d, val, a, k);
      var val' := if k % 2 == 1 then op(val, a) else val;
      var h := k / 2;
      PowerLoopIsPower(d, val', op(a, a), h);
      PowerLoopAlgebra(d, op, val, a, k);
    } else {
      IdIsElement(d);
    }
  }

  /**
   * `exp_` computes the `n`-fold composition: under the group law and with a prime `-d`, the
   * square-and-multiply loop from the identity agrees with `Power`.
   */
  lemma ExpIsPower(d: int, x: ClassElem, n: nat)
    requires IsGroupDiscriminant(d) && IsPrime(-d) && ComposeIsGroupLaw(d) && IsElement(d, x)
    ensures PowerLoop(d, Id(d), x, n) == Power(d, x, n)
  {
    var op := ElementOp(d);
    IdIsElement(d);
    ElementOpIsMonoid(d);
    PowerLoopIsPower(d, Id(d), x, n);
    PowerIsPowerOf(d, x, n);
    PowerOfElement(d, op, x, n);
  }

  lemma ExpBaseIsPower(d: int, x: ClassElem, n: nat)
    requires IsGroupDiscriminant(d) && x.a > 0 && Validate(d, x)
    ensures IsPrime(-d) && ComposeIsGroupLaw(d) && IsElement(d, x) ==>
      PowerLoop(d, Id(d), x, n) == Power(d, x, n)
  {
    IdIsElement(d);
    if IsPrime(-d) && ComposeIsGroupLaw(d) && IsElement(d, x) {
      ExpIsPower(d, x, n);
    }
  }

  lemma GeneratorIsValid(d: int)
    requires IsGroupDiscriminant(d)
    ensures PositiveDefinite(ClassElem(2, 1, (1 - d) / 8))
    ensures Validate(d, ClassElem(2, 1, (1 - d) / 8))
  {
    DivModIdentity(d, 8);
    DivModUnique(1 - d, 8, -(d / 8), 0);
  }

  /** `unknown_order_elem_`: `(2, 1, floor((1 - d) / 8))`, reduced; a group element. */
  method UnknownOrderElem(d: int) returns (x: ClassElem)
    requires IsGroupDiscriminant(d)
    ensures x == Forms.Reduce(ClassElem(2, 1, (1 - d) / 8))
    ensures IsElement(d, x)
  {
    var c := 1;
    c := c - d;
    c := c / 8;
    GeneratorIsValid(d);
    x := Reduce(ClassElem(2, 1, c));
  }

  /**
   * `elem`: reduce the given form, then assert it has the group's discriminant. The assertion
   * fails (`None`) exactly when the input's discriminant is not `d`.
   */
  method Elem(d: int, abc: ClassElem) returns (r: Option<ClassElem>)
    requires PositiveDefinite(abc)
    ensures r.Some? <==> Validate(d, abc)
    ensures r.Some? ==> r.value == Forms.Reduce(abc) && IsElement(d, r.value)
  {
    var x := Reduce(abc);
    if !Validate(d, x) {
      return None;
    }
    return Some(x);
  }

  /** `(1, 2, 3)` is positive definite with discriminant -8, so `elem` rejects it for any group discriminant. */
  lemma BadElemRejected(d: int)
    requires IsGroupDiscriminant(d)
    ensures PositiveDefinite(ClassElem(1, 2, 3)) && !Validate(d, ClassElem(1, 2, 3))
  {
    assert Discriminant(ClassElem(1, 2, 3)) == -8;
  }
}
