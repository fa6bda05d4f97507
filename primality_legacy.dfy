/**
 * The older probable-prime code of src/hash/primality.rs: its own list of the first fifty
 * primes, trial division that stops at the first prime above `n`, the partial square filter
 * `is_square`, a Lucas test that always rejects, and the conjunction `is_prob_prime`. Its
 * Miller-Rabin test is the one of `Primality`, on the unsigned integers.
 *
 * `is_square` works on the bits of `n`: `n & (2^k - 1)` is `n % 2^k` and `n >> k` is `n / 2^k`.
 * Its local rebindings (`copy`, and the shifts of `x`) are written as `var` bindings.
 */
module PrimalityLegacy {
  import opened Wrappers
  import opened Arith
  import Primality

  type Small = p: int | p >= 2 witness 2

  /** `SMALL_PRIMES`: the primes up to 229, in increasing order. */
  const SmallPrimes: seq<Small> := 
    [2, 3, 5, 7, 11, 13, 17, 19, 23, 29] +
    [31, 37, 41, 43, 47, 53, 59, 61, 67, 71] +
    [73, 79, 83, 89, 97, 101, 103, 107, 109, 113] +
    [127, 131, 137, 139, 149, 151, 157, 163, 167, 173] +
    [179, 181, 191, 193, 197, 199, 211, 223, 227, 229]

  lemma SmallPrimesAdjacent()
    ensures forall i :: 0 <= i < |SmallPrimes| - 1 ==> SmallPrimes[i] < SmallPrimes[i + 1]
  {
    forall i | 0 <= i < |SmallPrimes| - 1
      ensures SmallPrimes[i] < SmallPrimes[i + 1]
    {
      if i == 0 {
      } else if i == 1 {
      } else if i == 2 {
      } else if i == 3 {
      } else if i == 4 {
      } else if i == 5 {
      } else if i == 6 {
      } else if i == 7 {
      } else if i == 8 {
      } else if i == 9 {
      } else if i == 10 {
      } else if i == 11 {
      } else if i == 12 {
      } else if i == 13 {
      } else if i == 14 {
      } else if i == 15 {
      } else if i == 16 {
      } else if i == 17 {
      } else if i == 18 {
      } else if i == 19 {
      } else if i == 20 {
      } else if i == 21 {
      } else if i == 22 {
      } else if i == 23 {
      } else if i == 24 {
      } else if i == 25 {
      } else if i == 26 {
      } else if i == 27 {
      } else if i == 28 {
      } else if i == 29 {
      } else if i == 30 {
      } else if i == 31 {
      } else if i == 32 {
      } else if i == 33 {
      } else if i == 34 {
      } else if i == 35 {
      } else if i == 36 {
      } else if i == 37 {
      } else if i == 38 {
      } else if i == 39 {
      } else if i == 40 {
      } else if i == 41 {
      } else if i == 42 {
      } else if i == 43 {
      } else if i == 44 {
      } else if i == 45 {
      } else if i == 46 {
      } else if i == 47 {
      } else if i == 48 {
      }
    }
  }

  lemma {:induction false} IncreasingFromAdjacent(s: seq<int>, i: int, j: int)
    requires forall k :: 0 <= k < |s| - 1 ==> s[k] < s[k + 1]
    requires 0 <= i <= j < |s|
    ensures s[i] <= s[j]
    decreases j - i
  {
    if i < j {
      IncreasingFromAdjacent(s, i, j - 1);
    }
  }

  // ---------------------------------------------------------------------------------------------
  // Trial division

  /** Some listed prime no larger than `n` divides it. */
  predicate HasSmallFactor(n: nat)
  {
    exists i :: 0 <= i < |SmallPrimes| && SmallPrimes[i] <= n && n % SmallPrimes[i] == 0
  }

  /**
   * `has_small_prime_factor`: try the listed primes in order, stopping at the first one above
   * `n`; true when one divides `n`.
   */
  method HasSmallPrimeFactor(n: nat) returns (r: bool)
    ensures r <==> HasSmallFactor(n)
  {
    SmallPrimesAdjacent();
    var i := 0;
    while i < |SmallPrimes|
      invariant 0 <= i <= |SmallPrimes|
      invariant forall j :: 0 <= j < i ==> !(SmallPrimes[j] <= n && n % SmallPrimes[j] == 0)
    {
      var divisor := SmallPrimes[i];
      if divisor > n {
        forall j | i <= j < |SmallPrimes|
          ensures SmallPrimes[j] > n
        {
          IncreasingFromAdjacent(SmallPrimes, i, j);
        }
        break;
      }
      if n % divisor == 0 {
        return true;
      }
      i := i + 1;
    }
    return false;
  }

  /** For positive `n` the bound is implied: a factor is found exactly when a listed prime divides `n`. */
  lemma SmallFactorDivides(n: nat)
    requires n > 0
    ensures HasSmallFactor(n) <==> exists i :: 0 <= i < |SmallPrimes| && n % SmallPrimes[i] == 0
  {
    forall i | 0 <= i < |SmallPrimes| && n % SmallPrimes[i] == 0
      ensures SmallPrimes[i] <= n
    {
      DivisorBound(SmallPrimes[i], n);
    }
  }

  /** The values the test module checks. */
  lemma SmallFactorExamples()
    ensures 50621 == 223 * 227 && 104927 == 317 * 331
    ensures !HasSmallFactor(233) && HasSmallFactor(50621) && !HasSmallFactor(104927)
  {
    assert SmallPrimes[47] == 223 && 50621 % 223 == 0;
    forall i | 0 <= i < |SmallPrimes|
      ensures 233 % (SmallPrimes[i] as int) != 0 && 104927 % (SmallPrimes[i] as int) != 0
    {
      if i == 0 {
      } else if i == 1 {
      } else if i == 2 {
      } else if i == 3 {
      } else if i == 4 {
      } else if i == 5 {
      } else if i == 6 {
      } else if i == 7 {
      } else if i == 8 {
      } else if i == 9 {
      } else if i == 10 {
      } else if i == 11 {
      } else if i == 12 {
      } else if i == 13 {
      } else if i == 14 {
      } else if i == 15 {
      } else if i == 16 {
      } else if i == 17 {
      } else if i == 18 {
      } else if i == 19 {
      } else if i == 20 {
      } else if i == 21 {
      } else if i == 22 {
      } else if i == 23 {
      } else if i == 24 {
      } else if i == 25 {
      } else if i == 26 {
      } else if i == 27 {
      } else if i == 28 {
      } else if i == 29 {
      } else if i == 30 {
      } else if i == 31 {
      } else if i == 32 {
      } else if i == 33 {
      } else if i == 34 {
      } else if i == 35 {
      } else if i == 36 {
      } else if i == 37 {
      } else if i == 38 {
      } else if i == 39 {
      } else if i == 40 {
      } else if i == 41 {
      } else if i == 42 {
      } else if i == 43 {
      } else if i == 44 {
      } else if i == 45 {
      } else if i == 46 {
      } else if i == 47 {
      } else if i == 48 {
      } else if i == 49 {
      }
    }
  }

  // ---------------------------------------------------------------------------------------------
  // The square filter

  /** `bad255[c]`: `c` is not a square modulo 255. */
  const Bad255: seq<bool> :=
    (
      (
        (
          (
            (
              [false, false, true, true, false, true, true, true, true, false, true, true, true, true, true, false] +
              [false, true, true, false, true, false, true, true, true, false, true, true, true, true, false, true]) +
            (
              [true, true, false, true, false, true, true, true, true, true, true, true, true, true, true, true] +
              [true, false, true, false, true, true, true, false, true, true, true, true, false, true, true, true])) +
          (
            (
              [false, true, false, true, true, false, false, true, true, true, true, true, false, true, true, true] +
              [true, false, true, true, false, false, true, true, true, true, true, true, true, true, false, true]) +
            (
              [true, true, true, true, false, true, true, true, true, true, false, true, true, true, true, false] +
              [true, true, true, false, true, true, true, true, false, false, true, true, true, true, true, true]))) +
        (
          (
            (
              [true, true, true, true, true, true, true, false, false, true, true, true, true, true, true, true] +
              [false, false, true, true, true, true, true, false, true, true, false, true, true, true, true, true]) +
            (
              [true, true, true, true, true, true, false, true, true, false, true, false, true, true, false, true] +
              [true, true, true, true, true, true, true, true, true, true, false, true, true, false, true, true])) +
          (
            (
              [true, true, true, false, false, true, true, true, true, true, true, true, false, false, true, true] +
              [true, true, true, true, true, true, true, true, true, true, true, false, false, true, true, true]) +
            (
              [true, false, true, true, true, false, true, true, true, true, false, true, true, true, true, true] +
              [false, true, true, true, true, true, false, true, true, true, true, true, true, true, true, false])))) +
      (
        (
          (
            (
              [false, true, true, false, true, true, true, true, false, true, true, true, true, true, false, false] +
              [true, true, false, true, false, true, true, true, false, true, true, true, true, false, true, true]) +
            (
              [true, false, true, false, true, true, true, true, true, true, true, true, true, true, true, true] +
              [false, true, false, true, true, true, false, true, true, true, true, false, true, true, true, false])) +
          (
            (
              [true, false, true, true, false, false, true, true, true, true, true, false, true, true, true, true] +
              [false, true, true, false, false, true, true, true, true, true, true, true, true, false, true, true]) +
            (
              [true, true, true, false, true, true, true, true, true, false, true, true, true, true, false, true] +
              [true, true, false, true, true, true, true, false, false, true, true, true, true, true, true, true]))) +
        (
          (
            (
              [true, true, true, true, true, true, false, false, true, true, true, true, true, true, true, false] +
              [false, true, true, true, true, true, false, true, true, false, true, true, true, true, true, true]) +
            (
              [true, true, true, true, true, false, true, true, false, true, false, true, true, false, true, true] +
              [true, true, true, true, true, true, true, true, true, false, true, true, false, true, true, true])) +
          (
            (
              [true, true, false, false, true, true, true, true, true, true, true, false, false, true, true, true] +
              [true, true, true, true, true, true, true, true, true, true, false, false, true, true, true, true]) +
            (
              [false, true, true, true, false, true, true, true, true, false, true, true, true, true, true, false] +
              [true, true, true, true, true, false, true, true, true, true, true, true, true, true, false, false])))))

  /** Step 1 of `is_square`: bit 1 set, `n & 7 == 5`, or `n & 11 == 8` (11 masks bits 0, 1 and 3). */
  predicate FailsStepOne(n: nat)
  {
    (n / 2) % 2 == 1 || n % 8 == 5 || n % 4 + 8 * ((n / 8) % 2) == 8
  }

  /** Step 2: fold the 32-bit halves, the 16-bit halves, then the three low bytes. */
  function Fold255(n: nat): nat
  {
    var c1 := n % 0x1_0000_0000 + n / 0x1_0000_0000;
    var c2 := c1 % 0x1_0000 + c1 / 0x1_0000;
    c2 % 0x100 + (c2 / 0x100) % 0x100 + c2 / 0x1_0000
  }

  /** Step 3: drop 32, 16, 8, 4 and 2 trailing zero bits, each shift at most once. */
  function StripZeros(n: nat): nat
  {
    var x1 := if n % 0x1_0000_0000 == 0 then n / 0x1_0000_0000 else n;
    var x2 := if x1 % 0x1_0000 == 0 then x1 / 0x1_0000 else x1;
    var x3 := if x2 % 0x100 == 0 then x2 / 0x100 else x2;
    var x4 := if x3 % 0x10 == 0 then x3 / 0x10 else x3;
    if x4 % 4 == 0 then x4 / 4 else x4
  }

  /**
   * `is_square` as written: `None` where the table index is out of bounds (a panic). It rejects
   * by step 1, accepts 0, and otherwise rejects when the table or step 3 says so.
   */
  function IsSquare(n: nat): (r: Option<bool>)
    ensures FailsStepOne(n) ==> r == Some(false)
    ensures !FailsStepOne(n) && n == 0 ==> r == Some(true)
    ensures r.None? <==> !FailsStepOne(n) && n != 0 && Fold255(n) >= |Bad255|
  {
    if FailsStepOne(n) then Some(false)
    else if n == 0 then Some(true)
    else
      var c := Fold255(n);
      if c >= |Bad255| then None
      else if Bad255[c] then Some(false)
      else Some(StripZeros(n) % 8 == 1)
  }

  /** `k^2`. */
  function Square(k: nat): nat
  {
    k * k
  }

  lemma StepOneModSixteen(n: nat)
    ensures FailsStepOne(n) == FailsStepOne(n % 16)
  {
    var q, m := n / 16, n % 16;
    DivModIdentity(n, 16);
    DivModUnique(n, 2, 8 * q + m / 2, m % 2);
    ModShift(m / 2, 4 * q, 2);
    ModShift(m, 2 * q, 8);
    ModShift(m, 4 * q, 4);
    DivModUnique(n, 8, 2 * q + m / 8, m % 8);
    ModShift(m / 8, q, 2);
  }

  /** The squares modulo 16 are 0, 1, 4 and 9. */
  lemma SquareResidues(t: int)
    requires 0 <= t < 16
    ensures var m := (t * t) % 16; m == 0 || m == 1 || m == 4 || m == 9
  {
    if t == 0 {
      DivModUnique(0, 16, 0, 0);
    } else if t == 1 {
      DivModUnique(1, 16, 0, 1);
    } else if t == 2 {
      DivModUnique(4, 16, 0, 4);
    } else if t == 3 {
      DivModUnique(9, 16, 0, 9);
    } else if t == 4 {
      DivModUnique(16, 16, 1, 0);
    } else if t == 5 {
      DivModUnique(25, 16, 1, 9);
    } else if t == 6 {
      DivModUnique(36, 16, 2, 4);
    } else if t == 7 {
      DivModUnique(49, 16, 3, 1);
    } else if t == 8 {
      DivModUnique(64, 16, 4, 0);
    } else if t == 9 {
      DivModUnique(81, 16, 5, 1);
    } else if t == 10 {
      DivModUnique(100, 16, 6, 4);
    } else if t == 11 {
      DivModUnique(121, 16, 7, 9);
    } else if t == 12 {
      DivModUnique(144, 16, 9, 0);
    } else if t == 13 {
      DivModUnique(169, 16, 10, 9);
    } else if t == 14 {
      DivModUnique(196, 16, 12, 4);
    } else if t == 15 {
      DivModUnique(225, 16, 14, 1);
    }
  }

  /** Step 1 passes the residues of squares. */
  lemma SmallSquaresPassStepOne(t: int)
    requires 0 <= t < 16
    ensures !FailsStepOne((t * t) % 16)
  {
    SquareResidues(t);
    DivModUnique(9, 2, 4, 1);
    DivModUnique(9, 8, 1, 1);
    DivModUnique(9, 4, 2, 1);
    DivModUnique(4, 2, 2, 0);
    DivModUnique(4, 8, 0, 4);
    DivModUnique(4, 4, 1, 0);
  }

  /** Step 1 never rejects a square: squares are 0, 1, 4 or 9 modulo 16. */
  lemma SquaresPassStepOne(k: nat)
    ensures !FailsStepOne(Square(k))
  {
    var t := k % 16;
    ModOfMod(k, 16);
    ModMul(k, k, t, t, 16);
    StepOneModSixteen(k * k);
    SmallSquaresPassStepOne(t);
  }

  lemma FoldModulus(x: nat, b: nat)
    requires b > 0 && b % 255 == 1
    ensures (x % b + x / b) % 255 == x % 255
  {
    var q, r, m := x / b, x % b, b / 255;
    DivModIdentity(x, b);
    DivModIdentity(b, 255);
    FoldDifference(x, b, q, r, m);
    MulMod(255, m * q);
    CongruentIff(x, r + q, 255);
  }

  /** With `b = 255 m + 1`, replacing `b q` by `q` changes `b q + r` by a multiple of 255. */
  lemma FoldDifference(x: int, b: int, q: int, r: int, m: int)
    requires x == b * q + r && b == 255 * m + 1
    ensures x - (r + q) == 255 * (m * q)
  {
    assert b * q == 255 * (m * q) + q;
  }

  /** The fold keeps the remainder modulo 255, since `2^8`, `2^16` and `2^32` are 1 modulo 255. */
  lemma FoldKeepsResidue(n: nat)
    ensures Fold255(n) % 255 == n % 255
  {
    var c1 := n % 0x1_0000_0000 + n / 0x1_0000_0000;
    var c2 := c1 % 0x1_0000 + c1 / 0x1_0000;
    FoldModulus(n, 0x1_0000_0000);
    FoldModulus(c1, 0x1_0000);
    var h := c2 / 0x100;
    FoldModulus(c2, 0x100);
    FoldModulus(h, 0x100);
    assert h / 0x100 == c2 / 0x1_0000;
    ModAdd(c2 % 0x100, h, c2 % 0x100, h % 0x100 + h / 0x100, 255);
  }

  /** Below `2^64` the table index stays below 512, so there is no panic there. */
  lemma FoldInRange(n: nat)
    requires n < 0x1_0000_0000_0000_0000
    ensures Fold255(n) < |Bad255|
  {
    var c1 := n % 0x1_0000_0000 + n / 0x1_0000_0000;
    assert c1 <= 0x1_FFFF_FFFE;
    var c2 := c1 % 0x1_0000 + c1 / 0x1_0000;
    assert c2 <= 0x2_FFFE;
  }

  // ---------------------------------------------------------------------------------------------
  // The exact square test

  lemma SquareMonotone(a: nat, b: nat)
    requires a < b
    ensures Square(a) < Square(b)
  {
    MulAtLeast(b - a, b + a);
    assert Square(b) - Square(a) == (b - a) * (b + a);
  }

  lemma SqrtStep(n: nat, t: nat)
    requires Square(t) <= n / 4 < Square(t + 1)
    ensures Square(2 * t) <= n < Square(2 * t + 2)
  {
    assert Square(2 * t) == 4 * Square(t);
    assert Square(2 * t + 2) == 4 * Square(t + 1);
  }

  /** The integer square root: `r^2 <= n < (r + 1)^2`. */
  function IntSqrt(n: nat): (r: nat)
    ensures Square(r) <= n < Square(r + 1)
  {
    if n < 4 then (if n == 0 then 0 else 1)
    else
      var t := IntSqrt(n / 4);
      SqrtStep(n, t);
      var s := 2 * t;
      if Square(s + 1) <= n then s + 1 else s
  }

  /** An exact perfect-square test, what `is_square` is evidently meant to compute. */
  predicate IsPerfectSquare(n: nat)
  {
    Square(IntSqrt(n)) == n
  }

  lemma PerfectSquareIff(n: nat)
    ensures IsPerfectSquare(n) <==> exists k: nat :: Square(k) == n
  {
    var r := IntSqrt(n);
    forall k: nat | Square(k) == n
      ensures k == r
    {
      if k < r {
        SquareMonotone(k, r);
      } else if r + 1 < k {
        SquareMonotone(r + 1, k);
      }
    }
  }

  lemma NotSquare145()
    ensures !IsPerfectSquare(145)
  {
    assert Square(12) < 145 < Square(13);
  }

  lemma TableAt145()
    ensures !Bad255[145]
  {
  }

  lemma StepsAt145()
    ensures !FailsStepOne(145) && Fold255(145) == 145 && StripZeros(145) == 145
  {
    DivModUnique(145, 0x1_0000_0000, 0, 145);
    DivModUnique(145, 0x1_0000, 0, 145);
    DivModUnique(145, 0x100, 0, 145);
    DivModUnique(145, 0x10, 9, 1);
    DivModUnique(145, 4, 36, 1);
  }

  /** Past steps 1 and 2, the answer is step 3's. */
  lemma ReachesStepThree(n: nat)
    requires !FailsStepOne(n) && n != 0 && Fold255(n) < |Bad255| && !Bad255[Fold255(n)]
    ensures IsSquare(n) == Some(StripZeros(n) % 8 == 1)
  {
  }

  /** `is_square` accepts 145, which is not a square: 145 is a square modulo 255 and 1 modulo 8. */
  lemma IsSquareAcceptsNonSquare()
    ensures IsSquare(145) == Some(true) && !IsPerfectSquare(145)
  {
    StepsAt145();
    TableAt145();
    ReachesStepThree(145);
    DivModUnique(145, 8, 18, 1);
    NotSquare145();
  }

  lemma StepsAtTwoToSixtyFour()
    ensures var n := 0x1_0000_0000_0000_0000;
      !FailsStepOne(n) && Fold255(n) == 1 && StripZeros(n) == 4
  {
    DivModUnique(0x1_0000_0000_0000_0000, 2, 0x8000_0000_0000_0000, 0);
    DivModUnique(0x8000_0000_0000_0000, 2, 0x4000_0000_0000_0000, 0);
    DivModUnique(0x1_0000_0000_0000_0000, 8, 0x2000_0000_0000_0000, 0);
    DivModUnique(0x2000_0000_0000_0000, 2, 0x1000_0000_0000_0000, 0);
    DivModUnique(0x1_0000_0000_0000_0000, 4, 0x4000_0000_0000_0000, 0);
    DivModUnique(0x1_0000_0000_0000_0000, 0x1_0000_0000, 0x1_0000_0000, 0);
    DivModUnique(0x1_0000_0000, 0x1_0000, 0x1_0000, 0);
    DivModUnique(0x1_0000, 0x100, 0x100, 0);
    DivModUnique(0x100, 0x100, 1, 0);
    DivModUnique(0x1_0000, 0x1_0000, 1, 0);
    DivModUnique(0x1_0000, 0x100, 0x100, 0);
    DivModUnique(0x100, 16, 16, 0);
    DivModUnique(0x10, 4, 4, 0);
  }

  /** `is_square` rejects `2^64 = (2^32)^2`: one pass of shifts leaves 4, not an odd number. */
  lemma IsSquareRejectsSquare()
    ensures IsSquare(0x1_0000_0000_0000_0000) == Some(false) && IsPerfectSquare(0x1_0000_0000_0000_0000)
  {
    var n := 0x1_0000_0000_0000_0000;
    StepsAtTwoToSixtyFour();
    assert !Bad255[1];
    ReachesStepThree(n);
    DivModUnique(4, 8, 0, 4);
    assert Square(0x1_0000_0000) == n;
    PerfectSquareIff(n);
  }

  lemma StepsAtTwoToEighty()
    ensures var n := 0x1_0000_0000_0000_0000_0000;
      !FailsStepOne(n) && Fold255(n) == 0x1_0000
  {
    DivModUnique(0x1_0000_0000_0000_0000_0000, 2, 0x8000_0000_0000_0000_0000, 0);
    DivModUnique(0x8000_0000_0000_0000_0000, 2, 0x4000_0000_0000_0000_0000, 0);
    DivModUnique(0x1_0000_0000_0000_0000_0000, 8, 0x2000_0000_0000_0000_0000, 0);
    DivModUnique(0x2000_0000_0000_0000_0000, 2, 0x1000_0000_0000_0000_0000, 0);
    DivModUnique(0x1_0000_0000_0000_0000_0000, 4, 0x4000_0000_0000_0000_0000, 0);
    DivModUnique(0x1_0000_0000_0000_0000_0000, 0x1_0000_0000, 0x1_0000_0000_0000, 0);
    DivModUnique(0x1_0000_0000_0000, 0x1_0000, 0x1_0000_0000, 0);
    DivModUnique(0x1_0000_0000, 0x100, 0x100_0000, 0);
    DivModUnique(0x100_0000, 0x100, 0x1_0000, 0);
    DivModUnique(0x1_0000_0000, 0x1_0000, 0x1_0000, 0);
  }

  /** For `2^80 = (2^40)^2` the table index is 65536, out of bounds. */
  lemma IsSquarePanicsOnSquare()
    ensures IsSquare(0x1_0000_0000_0000_0000_0000).None? && IsPerfectSquare(0x1_0000_0000_0000_0000_0000)
  {
    var n := 0x1_0000_0000_0000_0000_0000;
    StepsAtTwoToEighty();
    assert Square(0x100_0000_0000) == n;
    PerfectSquareIff(n);
  }

  // ---------------------------------------------------------------------------------------------
  // The whole test

  /** `passes_lucas`: not implemented, it rejects every `n`. */
  function PassesLucas(n: nat): (r: bool)
    ensures !r
  {
    false
  }

  /**
   * `is_prob_prime`: no small factor, Miller-Rabin to base 2, not a square, and the Lucas test,
   * each tried only when the ones before it pass. With `n < 2` the source does not return
   * (`n - 1` underflows at 0, and at 1 the halving loop of Miller-Rabin never ends), and
   * `is_square` panics where its table index leaves `bad255`; both are `None` here.
   */
  method IsProbPrime(n: nat) returns (r: Option<bool>)
    ensures r.None? <==> n < 2 || (!HasSmallFactor(n) && Primality.MillerRabin(n) && IsSquare(n).None?)
    ensures r.Some? ==> r == Some(false)
    ensures 2 <= n < 0x1_0000_0000_0000_0000 ==> r.Some?
  {
    var small := HasSmallPrimeFactor(n);
    if small {
      return Some(false);
    }
    if n < 2 {
      return None;
    }
    var mr := Primality.PassesMillerRabinBase2(n);
    if !mr {
      return Some(false);
    }
    var square := IsSquare(n);
    if square.None? {
      if n < 0x1_0000_0000_0000_0000 {
        FoldInRange(n);
      }
      return None;
    }
    if square.value {
      return Some(false);
    }
    return Some(PassesLucas(n));
  }
}
