/**
 * Binary quadratic forms `a*X^2 + b*X*Y + c*Y^2`, the elements of the form class group
 * (`ClassElem`), and the facts about them that the class-group code relies on: the
 * discriminant, normal and reduced forms, the translation that normalises a form and the
 * reduction step ("rho") of the reduction loop.
 *
 * Coefficients are unbounded integers (GMP's `Mpz`). Every floor division in this part of the
 * source has a positive divisor, where Dafny's Euclidean `/` and `%` coincide with GMP's
 * `fdiv_q` and `fdiv_r`.
 */
module Forms {
  import opened Arith

  datatype ClassElem = ClassElem(a: int, b: int, c: int)

  /** `ClassElem::default`: all coefficients zero, which is not a valid group element. */
  function Default(): (x: ClassElem)
    ensures Discriminant(x) == 0 && !IsNormal(x)
  {
    ClassElem(0, 0, 0)
  }

  /** The values fed to the hasher, in order: `a`, then `b`, then `c`. */
  function HashInput(x: ClassElem): (s: seq<int>)
    ensures |s| == 3
  {
    [x.a, x.b, x.c]
  }

  /** Equal elements hash equally, and the hash input determines the element. */
  lemma HashInputInjective(x: ClassElem, y: ClassElem)
    ensures HashInput(x) == HashInput(y) <==> x == y
  {
    if HashInput(x) == HashInput(y) {
      assert HashInput(x)[0] == HashInput(y)[0];
      assert HashInput(x)[1] == HashInput(y)[1];
      assert HashInput(x)[2] == HashInput(y)[2];
    }
  }

  /** `b^2 - 4ac`; it is congruent to 0 or 1 modulo 4 according to the parity of `b`. */
  function Discriminant(x: ClassElem): (d: int)
    ensures d % 4 == x.b % 2
  {
    DiscriminantMod4(x.a, x.b, x.c);
    x.b * x.b - 4 * x.a * x.c
  }

  lemma DiscriminantMod4(a: int, b: int, c: int)
    ensures (b * b - 4 * a * c) % 4 == b % 2
  {
    var k, e := b / 2, b % 2;
    assert b == 2 * k + e;
    assert b * b == 4 * (k * k + k * e) + e * e;
    assert e * e == e;
    DivModUnique(b * b - 4 * a * c, 4, k * k + k * e - a * c, e);
  }

  /** `validate`: the form has the group's discriminant `d`. */
  predicate Validate(d: int, x: ClassElem)
  {
    Discriminant(x) == d
  }

  /** `elem_is_normal`: `-a < b <= a`. */
  predicate IsNormal(x: ClassElem)
  {
    -x.a < x.b <= x.a
  }

  /** `elem_is_reduced`: normal, `a <= c`, and `b >= 0` when `a == c`. */
  predicate IsReduced(x: ClassElem)
  {
    IsNormal(x) && x.a <= x.c && !(x.a == x.c && x.b < 0)
  }

  /** The forms this model reduces: `a > 0` and a negative discriminant. */
  predicate PositiveDefinite(x: ClassElem)
  {
    x.a > 0 && Discriminant(x) < 0
  }

  lemma PositiveDefiniteC(x: ClassElem)
    requires PositiveDefinite(x)
    ensures x.c > 0
  {
    assert x.b * x.b >= 0;
  }

  /**
   * The form `x(X + rY, Y)`: the substitution every normalisation and reduction step applies.
   * It keeps the leading coefficient and the discriminant.
   */
  function Translate(x: ClassElem, r: int): (y: ClassElem)
    ensures y.a == x.a && Discriminant(y) == Discriminant(x)
  {
    TranslateDiscriminant(x.a, x.b, x.c, r);
    ClassElem(x.a, x.b + 2 * r * x.a, x.c + r * r * x.a + r * x.b)
  }

  lemma TranslateDiscriminant(a: int, b: int, c: int, r: int)
    ensures (b + 2 * r * a) * (b + 2 * r * a) - 4 * a * (c + r * r * a + r * b)
         == b * b - 4 * a * c
  {
    var ra := r * a;
    assert (b + 2 * ra) * (b + 2 * ra) == b * b + 4 * (ra * b) + 4 * (ra * ra);
    assert a * (r * r * a) == ra * ra;
    assert a * (r * b) == ra * b;
    assert 4 * a * (c + r * r * a + r * b) == 4 * a * c + 4 * (a * (r * r * a)) + 4 * (a * (r * b));
  }

  /** Translations compose additively, so translating by `-r` undoes translating by `r`. */
  lemma TranslateCompose(x: ClassElem, r: int, s: int)
    ensures Translate(Translate(x, r), s) == Translate(x, r + s)
    ensures Translate(Translate(x, r), -r) == x
  {
    assert Translate(Translate(x, r), s) == Translate(x, r + s) by {
      TranslateComposeB(x.a, x.b, r, s);
      TranslateComposeC(x.a, x.b, x.c, r, s);
    }
    assert Translate(Translate(x, r), -r) == Translate(x, 0) by {
      TranslateComposeB(x.a, x.b, r, -r);
      TranslateComposeC(x.a, x.b, x.c, r, -r);
    }
    assert Translate(x, 0) == x;
  }

  lemma TranslateComposeB(a: int, b: int, r: int, s: int)
    ensures (b + 2 * r * a) + 2 * s * a == b + 2 * (r + s) * a
  {
  }

  lemma TranslateComposeC(a: int, b: int, c: int, r: int, s: int)
    ensures (c + r * r * a + r * b) + s * s * a + s * (b + 2 * r * a)
         == c + (r + s) * (r + s) * a + (r + s) * b
  {
    assert (r + s) * (r + s) * a == r * r * a + 2 * (r * s * a) + s * s * a;
    assert s * (b + 2 * r * a) == s * b + 2 * (r * s * a);
    assert (r + s) * b == r * b + s * b;
  }

  /**
   * `normalize_`: translation by `r = floor((a - b) / 2a)`. The result is normal, and on a
   * form that is already normal `r` is 0, so nothing changes.
   */
  function Shifted(x: ClassElem): (y: ClassElem)
    requires x.a > 0
    ensures IsNormal(y) && y.a == x.a && Discriminant(y) == Discriminant(x)
    ensures IsNormal(x) ==> y == x
  {
    var r := (x.a - x.b) / (2 * x.a);
    var y := Translate(x, r);
    assert x.a - x.b == (2 * x.a) * r + (x.a - x.b) % (2 * x.a);
    assert y.b == x.a - (x.a - x.b) % (2 * x.a);
    if IsNormal(x) then
      DivModUnique(x.a - x.b, 2 * x.a, 0, x.a - x.b);
      y
    else
      y
  }

  /** A form is determined by its leading coefficient (when non-zero), `b` and its discriminant. */
  lemma FormDetermined(x: ClassElem, y: ClassElem)
    requires x.a == y.a && x.a != 0 && x.b == y.b && Discriminant(x) == Discriminant(y)
    ensures x == y
  {
    assert (4 * x.a) * x.c == (4 * x.a) * y.c;
    MulCancel(4 * x.a, x.c, y.c);
  }

  /** At most one translate of a form with `a > 0` is normal: `b + 2ra` lies in `(-a, a]` for one `r` only. */
  lemma NormalTranslateUnique(a: int, b: int, p: int, q: int)
    requires a > 0 && -a < b + 2 * p * a <= a && -a < b + 2 * q * a <= a
    ensures p == q
  {
    var n := 2 * a;
    assert (b + 2 * p * a) - (b + 2 * q * a) == (p - q) * n;
    SmallMultiple(p - q, n);
  }

  /** `normalize_` picks the one normal translate, so all translates of a form normalise alike. */
  lemma ShiftedTranslate(x: ClassElem, r: int)
    requires x.a > 0
    ensures Shifted(Translate(x, r)) == Shifted(x)
  {
    var y := Translate(x, r);
    var r1 := (y.a - y.b) / (2 * y.a);
    var r0 := (x.a - x.b) / (2 * x.a);
    assert Shifted(y) == Translate(y, r1);
    TranslateCompose(x, r, r1);
    assert Shifted(x) == Translate(x, r0);
    NormalTranslateUnique(x.a, x.b, r + r1, r0);
  }

  /** `normalize`: the form itself when it is normal, otherwise `normalize_` of it. */
  function Normalize(x: ClassElem): (y: ClassElem)
    requires x.a > 0
    ensures y == Shifted(x)
    ensures IsNormal(y) && y.a == x.a && Discriminant(y) == Discriminant(x)
  {
    if IsNormal(x) then x else Shifted(x)
  }

  /** `(a, b, c)` to `(c, -b, a)`: the form `x(-Y, X)`, with the same discriminant. */
  function Swap(x: ClassElem): (y: ClassElem)
    ensures Discriminant(y) == Discriminant(x)
  {
    ClassElem(x.c, -x.b, x.a)
  }

  /**
   * One step of the reduction loop: with `s = floor((c + b) / 2c)` the form becomes
   * `(c, -b + 2sc, cs^2 - bs + a)`, which is `normalize_` applied to the swapped form.
   */
  function Rho(x: ClassElem): (y: ClassElem)
    requires x.c > 0
    ensures y.a == x.c && IsNormal(y) && Discriminant(y) == Discriminant(x)
  {
    Shifted(Swap(x))
  }

  /**
   * A positive-definite form that is not reduced steps to a normal positive-definite form,
   * and from a normal form the step either lowers `a`, or keeps `a` and makes a negative `b`
   * non-negative. This is the measure under which the reduction loop ends.
   */
  lemma RhoDecreases(x: ClassElem)
    requires PositiveDefinite(x) && !IsReduced(x)
    ensures x.c > 0 && PositiveDefinite(Rho(x)) && IsNormal(Rho(x))
    ensures IsNormal(x) ==> Rho(x).a < x.a || (Rho(x).a == x.a && x.b < 0 && Rho(x).b >= 0)
  {
    PositiveDefiniteC(x);
    if IsNormal(x) && x.a <= x.c {
      assert x.a == x.c && x.b < 0;
      var s := (x.c + x.b) / (2 * x.c);
      DivModUnique(x.c + x.b, 2 * x.c, 0, x.c + x.b);
      assert s == 0;
      assert Rho(x) == Translate(Swap(x), s);
    }
  }

  /** The loop of `reduce_`: apply `Rho` until the form is reduced. */
  function ReduceLoop(x: ClassElem): (y: ClassElem)
    requires PositiveDefinite(x)
    ensures IsReduced(y) && Discriminant(y) == Discriminant(x)
    ensures IsReduced(x) ==> y == x
    decreases (if IsNormal(x) then 0 else 1), x.a, (if x.b < 0 then 1 else 0)
  {
    if IsReduced(x) then x
    else
      RhoDecreases(x);
      ReduceLoop(Rho(x))
  }

  /**
   * `reduce`: normalise, run the reduction loop, normalise again. The result is the reduced
   * form with the same discriminant; a reduced form is its own reduction, so reducing twice
   * is reducing once.
   */
  function Reduce(x: ClassElem): (y: ClassElem)
    requires PositiveDefinite(x)
    ensures IsReduced(y) && Discriminant(y) == Discriminant(x)
    ensures IsReduced(x) ==> y == x
  {
    var n := Normalize(x);
    var l := ReduceLoop(n);
    Normalize(l)
  }

  /** All translates of a form reduce alike; in particular a translate of a reduced form reduces to it. */
  lemma ReduceTranslate(x: ClassElem, r: int)
    requires PositiveDefinite(x)
    ensures PositiveDefinite(Translate(x, r)) && Reduce(Translate(x, r)) == Reduce(x)
  {
    ShiftedTranslate(x, r);
  }

  /** The normalisation of the `(16, 105, c)` form: `r = -3`, giving `(16, 9, c - 171)`. */
  lemma NormalizeExample(c: int)
    ensures Normalize(ClassElem(16, 105, c)) == ClassElem(16, 9, c - 171)
  {
    assert (16 - 105) / (2 * 16) == -3;
  }

  /** With a large `c`, `(16, 9, c - 171)` is already reduced, so it is also the reduction. */
  lemma ReduceExample(c: int)
    requires c >= 187
    ensures PositiveDefinite(ClassElem(16, 105, c))
    ensures Reduce(ClassElem(16, 105, c)) == ClassElem(16, 9, c - 171)
  {
    NormalizeExample(c);
    assert Discriminant(ClassElem(16, 105, c)) == 11025 - 64 * c;
  }
}
