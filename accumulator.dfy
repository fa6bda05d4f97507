/**
 * The RSA-style accumulator of src/primitive/accumulator.rs over any abelian group of unknown
 * order: the accumulator is `g^(product of the members)`, adding raises it to the product of the
 * new elements, deleting recovers a root with Shamir's trick, and membership and non-membership
 * are proved with a PoE (and a PoKE2, which is a parameter here).
 */
module Accumulator {
  import opened Wrappers
  import opened Arith
  import opened Group
  import opened Util
  import Poe

  datatype AccError = BadWitness | InputsNotCoPrime

  /** `setup`: the accumulator of the empty set is the group's base element. */
  function Setup<E>(base: E): (acc: E)
    ensures acc == base
  {
    base
  }

  /** `add`: raises the accumulator to the product of the new elements, with a PoE of that. */
  function Add<E>(G: Group<E>, hash: Poe.StatementHash<E>, acc: E, elems: seq<nat>): (r: (E, Poe.Poe<E>))
  {
    var x := Product(elems);
    var newAcc := Exp(G, acc, x);
    (newAcc, Poe.Prove(G, hash, acc, x, newAcc))
  }

  /** The new accumulator is `acc^(product of elems)` and the PoE returned with it is accepted. */
  lemma AddVerifies<E(!new)>(G: Group<E>, hash: Poe.StatementHash<E>, acc: E, elems: seq<nat>)
    requires IsAbelianGroup(G)
    ensures Add(G, hash, acc, elems).0 == Exp(G, acc, Product(elems))
    ensures Poe.Verify(G, hash, acc, Product(elems), Add(G, hash, acc, elems).0, Add(G, hash, acc, elems).1)
  {
    var x := Product(elems);
    Poe.ProveVerifies(G, hash, acc, x, Exp(G, acc, x));
  }

  /** Adding in two batches accumulates the same value as adding everything at once. */
  lemma AddTwice<E(!new)>(G: Group<E>, hash: Poe.StatementHash<E>, acc: E, xs: seq<nat>, ys: seq<nat>)
    requires IsAbelianGroup(G)
    ensures Add(G, hash, Add(G, hash, acc, xs).0, ys).0 == Add(G, hash, acc, xs + ys).0
  {
    ExpMul(G, acc, Product(xs), Product(ys));
    ProductAppend(xs, ys);
  }

  /** Starting from `setup`, the accumulator holds `g` raised to the product of what was added. */
  lemma SetupThenAdd<E(!new)>(G: Group<E>, hash: Poe.StatementHash<E>, g: E, elems: seq<nat>)
    requires IsAbelianGroup(G)
    ensures Add(G, hash, Setup(g), elems).0 == Exp(G, g, Product(elems))
  {
  }

  /** `test_add`: adding 5, 7 and 11 to `g^(41*67*89)` gives `g^94125955`, with a PoE for 385. */
  lemma AddExample<E(!new)>(G: Group<E>, hash: Poe.StatementHash<E>, g: E)
    requires IsAbelianGroup(G)
    ensures Add(G, hash, Exp(G, g, 41 * 67 * 89), [5, 7, 11]).0 == Exp(G, g, 94125955)
    ensures Poe.Verify(G, hash, Exp(G, g, 41 * 67 * 89), 385, Add(G, hash, Exp(G, g, 41 * 67 * 89), [5, 7, 11]).0,
                       Add(G, hash, Exp(G, g, 41 * 67 * 89), [5, 7, 11]).1)
  {
    assert Product([5, 7, 11]) == 385;
    AddVerifies(G, hash, Exp(G, g, 41 * 67 * 89), [5, 7, 11]);
    ExpMul(G, g, 41 * 67 * 89, 385);
  }

  // ---------------------------------------------------------------------------------------------
  // delete

  /** The elements of a list of (element, witness) pairs. */
  function Elems<E>(ews: seq<(nat, E)>): (es: seq<int>)
    ensures |es| == |ews| && forall i :: 0 <= i < |ews| ==> es[i] == ews[i].0
  {
    seq(|ews|, i requires 0 <= i < |ews| => ews[i].0)
  }

  /**
   * The state of `delete`'s loop once the pairs `ews` have been processed: the running root
   * `acc_next` and the product of the elements removed so far, or the first error.
   */
  function DeleteLoop<E(==)>(G: Group<E>, acc: E, ews: seq<(nat, E)>): Result<(E, int), AccError>
    decreases |ews|
  {
    if |ews| == 0 then Ok((acc, 1))
    else
      match DeleteLoop(G, acc, ews[..|ews| - 1])
      case Err(e) => Err(e)
      case Ok((accNext, aggregate)) =>
        var (elem, wit) := ews[|ews| - 1];
        if Exp(G, wit, elem) != acc then Err(BadWitness)
        else
          match ShamirTrick(G, accNext, wit, aggregate, elem)
          case None => Err(InputsNotCoPrime)
          case Some(v) => Ok((v, aggregate * elem))
  }

  /** What `delete` returns: the new accumulator with a PoE that it is a root of the old one. */
  function DeleteResult<E(==)>(G: Group<E>, hash: Poe.StatementHash<E>, acc: E, ews: seq<(nat, E)>)
    : Result<(E, Poe.Poe<E>), AccError>
  {
    match DeleteLoop(G, acc, ews)
    case Err(e) => Err(e)
    case Ok((accNext, aggregate)) => Ok((accNext, Poe.Prove(G, hash, accNext, aggregate, acc)))
  }

  /** Once a prefix has failed, the loop has returned: longer lists fail with the same error. */
  lemma {:induction false} DeleteLoopErrPersists<E>(G: Group<E>, acc: E, ews: seq<(nat, E)>, k: nat)
    requires k <= |ews| && DeleteLoop(G, acc, ews[..k]).Err?
    ensures DeleteLoop(G, acc, ews) == DeleteLoop(G, acc, ews[..k])
    decreases |ews|
  {
    if k < |ews| {
      var init := ews[..|ews| - 1];
      assert init[..k] == ews[..k];
      DeleteLoopErrPersists(G, acc, init, k);
    } else {
      assert ews[..k] == ews;
    }
  }

  /**
   * `delete`: for each (element, witness) pair, checks that the witness is a root of `acc` for
   * that element and combines it into the running root with Shamir's trick; the first failure
   * is returned. Deleting nothing returns `acc` itself with a PoE for exponent 1.
   */
  method Delete<E(==)>(G: Group<E>, hash: Poe.StatementHash<E>, acc: E, ews: seq<(nat, E)>)
    returns (r: Result<(E, Poe.Poe<E>), AccError>)
    ensures r == DeleteResult(G, hash, acc, ews)
    ensures |ews| == 0 ==> r == Ok((acc, Poe.Prove(G, hash, acc, 1, acc)))
  {
    var aggregate: int := 1;
    var accNext := acc;
    var i := 0;
    while i < |ews|
      invariant 0 <= i <= |ews|
      invariant DeleteLoop(G, acc, ews[..i]) == Ok((accNext, aggregate))
      decreases |ews| - i
    {
      var (elem, wit) := ews[i];
      assert ews[..i + 1][..i] == ews[..i];
      if Exp(G, wit, elem) != acc {
        DeleteLoopErrPersists(G, acc, ews, i + 1);
        return Err(BadWitness);
      }
      var accNextOption := ShamirTrick(G, accNext, wit, aggregate, elem);
      match accNextOption {
        case Some(v) => accNext := v;
        case None =>
          DeleteLoopErrPersists(G, acc, ews, i + 1);
          return Err(InputsNotCoPrime);
      }
      aggregate := aggregate * elem;
      i := i + 1;
    }
    assert ews[..i] == ews;
    r := Ok((accNext, Poe.Prove(G, hash, accNext, aggregate, acc)));
  }

  /**
   * After a successful loop the aggregate is the product of all deleted elements and the running
   * root raised to it is the old accumulator.
   */
  lemma {:induction false} DeleteLoopSound<E(!new)>(G: Group<E>, acc: E, ews: seq<(nat, E)>)
    requires IsAbelianGroup(G)
    ensures DeleteLoop(G, acc, ews).Ok? ==>
      && DeleteLoop(G, acc, ews).value.1 == Product(Elems(ews))
      && Exp(G, DeleteLoop(G, acc, ews).value.0, DeleteLoop(G, acc, ews).value.1) == acc
    decreases |ews|
  {
    if |ews| == 0 {
      ExpOne(G, acc);
    } else if DeleteLoop(G, acc, ews).Ok? {
      var init := ews[..|ews| - 1];
      DeleteLoopSound(G, acc, init);
      var (accNext, aggregate) := DeleteLoop(G, acc, init).value;
      var (elem, wit) := ews[|ews| - 1];
      ShamirTrickIsRoot(G, accNext, wit, aggregate, elem);
      assert Elems(ews) == Elems(init) + [elem];
      ProductAppend(Elems(init), [elem]);
      assert Product([elem as int]) == elem;
    }
  }

  /** A failure on the `i`-th pair, once the pairs before it went through. */
  ghost predicate BadWitnessAt<E>(G: Group<E>, acc: E, ews: seq<(nat, E)>, i: int)
    requires 0 <= i < |ews|
  {
    Exp(G, ews[i].1, ews[i].0) != acc
  }

  ghost predicate NotCoPrimeAt<E>(G: Group<E>, ews: seq<(nat, E)>, i: int)
    requires 0 <= i < |ews|
  {
    Gcd(Product(Elems(ews)[..i]), ews[i].0) != 1
  }

  /**
   * The error conditions: `delete` succeeds exactly when every wit is a root of `acc` for its
   * element and every element is coprime to the product of those before it. `BadWitness` is only
   * returned for a bad wit, and `InputsNotCoPrime` only for a common factor.
   */
  lemma {:induction false} DeleteLoopErrors<E(!new)>(G: Group<E>, acc: E, ews: seq<(nat, E)>)
    requires IsAbelianGroup(G)
    ensures DeleteLoop(G, acc, ews).Ok?
        <==> forall i :: 0 <= i < |ews| ==> !BadWitnessAt(G, acc, ews, i) && !NotCoPrimeAt(G, ews, i)
    ensures DeleteLoop(G, acc, ews) == Err(BadWitness) ==> exists i :: 0 <= i < |ews| && BadWitnessAt(G, acc, ews, i)
    ensures DeleteLoop(G, acc, ews) == Err(InputsNotCoPrime) ==> exists i :: 0 <= i < |ews| && NotCoPrimeAt(G, ews, i)
    decreases |ews|
  {
    if |ews| > 0 {
      var n := |ews| - 1;
      var init := ews[..n];
      DeleteLoopErrors(G, acc, init);
      assert Elems(ews)[..n] == Elems(init);
      forall i | 0 <= i < n
        ensures BadWitnessAt(G, acc, ews, i) == BadWitnessAt(G, acc, init, i)
        ensures NotCoPrimeAt(G, ews, i) == NotCoPrimeAt(G, init, i)
      {
        assert Elems(ews)[..i] == Elems(init)[..i];
      }
      var okAll := forall i :: 0 <= i < |ews| ==> !BadWitnessAt(G, acc, ews, i) && !NotCoPrimeAt(G, ews, i);
      var okInit := forall i :: 0 <= i < n ==> !BadWitnessAt(G, acc, init, i) && !NotCoPrimeAt(G, init, i);
      assert okAll <==> okInit && !BadWitnessAt(G, acc, ews, n) && !NotCoPrimeAt(G, ews, n);
      if DeleteLoop(G, acc, init).Ok? {
        DeleteLoopSound(G, acc, init);
        var (accNext, aggregate) := DeleteLoop(G, acc, init).value;
        var (elem, wit) := ews[n];
        ShamirTrickIsRoot(G, accNext, wit, aggregate, elem);
      }
    }
  }

  /** A successful `delete` returns a root of `acc` and a PoE that `verify_membership` accepts. */
  lemma DeleteVerifies<E(!new)>(G: Group<E>, hash: Poe.StatementHash<E>, acc: E, ews: seq<(nat, E)>)
    requires IsAbelianGroup(G)
    ensures DeleteResult(G, hash, acc, ews).Ok? ==>
      && Exp(G, DeleteResult(G, hash, acc, ews).value.0, Product(Elems(ews))) == acc
      && VerifyMembershipOf(G, hash, DeleteResult(G, hash, acc, ews).value.0, Elems(ews), acc,
                            DeleteResult(G, hash, acc, ews).value.1)
  {
    DeleteLoopSound(G, acc, ews);
    if DeleteLoop(G, acc, ews).Ok? {
      var (accNext, aggregate) := DeleteLoop(G, acc, ews).value;
      Poe.ProveVerifies(G, hash, accNext, aggregate, acc);
    }
  }

  /** Each witness is `g` raised to `s` and all the other elements. */
  ghost predicate PowerWitnesses<E>(G: Group<E>, g: E, s: int, ews: seq<(nat, E)>)
  {
    forall i :: 0 <= i < |ews| ==> ews[i].1 == Exp(G, g, s * Product(Elems(ews)[..i]) * Product(Elems(ews)[i + 1..]))
  }

  /** Every element is coprime to the product of those before it. */
  ghost predicate CoPrimePrefixes<E>(G: Group<E>, ews: seq<(nat, E)>)
  {
    forall i :: 0 <= i < |ews| ==> !NotCoPrimeAt(G, ews, i)
  }

  /**
   * Deleting really removes the elements: when `acc` is `g^(s * e_1 * ... * e_n)` and each
   * witness is `g` raised to `s` and all the other elements, the new accumulator is `g^s`.
   */
  lemma {:induction false} DeleteOfPowers<E(!new)>(G: Group<E>, g: E, s: int, ews: seq<(nat, E)>)
    requires IsAbelianGroup(G)
    requires PowerWitnesses(G, g, s, ews) && CoPrimePrefixes(G, ews)
    ensures DeleteLoop(G, Exp(G, g, s * Product(Elems(ews))), ews) == Ok((Exp(G, g, s), Product(Elems(ews))))
    decreases |ews|
  {
    var es := Elems(ews);
    if |ews| == 0 {
      assert s * Product(es) == s;
    } else {
      var n := |ews| - 1;
      var init := ews[..n];
      var elem := ews[n].0;
      PowerWitnessesPrefix(G, g, s, ews);
      CoPrimePrefixesPrefix(G, ews);
      DeleteOfPowers(G, g, s * elem, init);
      DeleteOfPowersLast(G, g, s, ews);
    }
  }

  lemma PowerWitnessesPrefix<E>(G: Group<E>, g: E, s: int, ews: seq<(nat, E)>)
    requires |ews| > 0 && PowerWitnesses(G, g, s, ews)
    ensures PowerWitnesses(G, g, s * ews[|ews| - 1].0, ews[..|ews| - 1])
  {
    var n := |ews| - 1;
    var init := ews[..n];
    var elem := ews[n].0;
    var es, es' := Elems(ews), Elems(init);
    assert es == es' + [elem as int];
    forall i | 0 <= i < n
      ensures init[i].1 == Exp(G, g, s * elem * Product(es'[..i]) * Product(es'[i + 1..]))
    {
      WitnessExponentPrefix(es', elem, s, i);
    }
  }

  /** The exponent of the `i`-th witness, before and after the last element moves into `s`. */
  lemma WitnessExponentPrefix(es: seq<int>, elem: int, s: int, i: nat)
    requires i < |es|
    ensures s * Product((es + [elem])[..i]) * Product((es + [elem])[i + 1..])
         == s * elem * Product(es[..i]) * Product(es[i + 1..])
  {
    var all := es + [elem];
    assert all[..i] == es[..i];
    assert all[i + 1..] == es[i + 1..] + [elem];
    ProductAppend(es[i + 1..], [elem]);
    assert Product([elem]) == elem;
    Regroup4(s, Product(es[..i]), Product(es[i + 1..]), elem);
  }

  lemma CoPrimePrefixesPrefix<E>(G: Group<E>, ews: seq<(nat, E)>)
    requires |ews| > 0 && CoPrimePrefixes(G, ews)
    ensures CoPrimePrefixes(G, ews[..|ews| - 1])
  {
    var init := ews[..|ews| - 1];
    forall i | 0 <= i < |init|
      ensures !NotCoPrimeAt(G, init, i)
    {
      assert Elems(ews)[..i] == Elems(init)[..i];
      assert !NotCoPrimeAt(G, ews, i);
    }
  }

  /**
   * The last step of `DeleteOfPowers`: from the loop state `(g^(s * e), p)` before the last pair
   * `(e, g^(s * p))`, Shamir's trick yields `g^s`.
   */
  lemma DeleteOfPowersLast<E(!new)>(G: Group<E>, g: E, s: int, ews: seq<(nat, E)>)
    requires IsAbelianGroup(G) && |ews| > 0
    requires PowerWitnesses(G, g, s, ews) && CoPrimePrefixes(G, ews)
    requires var init := ews[..|ews| - 1];
      DeleteLoop(G, Exp(G, g, s * ews[|ews| - 1].0 * Product(Elems(init))), init)
        == Ok((Exp(G, g, s * ews[|ews| - 1].0), Product(Elems(init))))
    ensures DeleteLoop(G, Exp(G, g, s * Product(Elems(ews))), ews) == Ok((Exp(G, g, s), Product(Elems(ews))))
  {
    var n := |ews| - 1;
    var (elem, wit) := ews[n];
    var p' := Product(Elems(ews[..n]));
    LastPairFacts(G, g, s, ews);
    ShamirStep(G, g, s, p', elem, wit);
  }

  /** The last pair of `DeleteOfPowers`: its witness is `g^(s * p)` for the product `p` before it. */
  lemma LastPairFacts<E>(G: Group<E>, g: E, s: int, ews: seq<(nat, E)>)
    requires |ews| > 0 && PowerWitnesses(G, g, s, ews) && CoPrimePrefixes(G, ews)
    ensures var n := |ews| - 1; var p' := Product(Elems(ews[..n]));
      && Product(Elems(ews)) == p' * ews[n].0
      && s * Product(Elems(ews)) == s * ews[n].0 * p'
      && ews[n].1 == Exp(G, g, s * p')
      && Gcd(p', ews[n].0) == 1
  {
    var n := |ews| - 1;
    var elem := ews[n].0;
    var es, es' := Elems(ews), Elems(ews[..n]);
    var p' := Product(es');
    assert es == es' + [elem as int];
    assert es[..n] == es' && es[n + 1..] == [];
    ProductAppend(es', [elem as int]);
    assert Product([elem as int]) == elem;
    Regroup5(s, p', elem);
    assert !NotCoPrimeAt(G, ews, n);
    assert ews[n].1 == Exp(G, g, s * p' * 1);
  }

  /** Shamir's trick on the roots `g^(s * e)` (for `p`) and `g^(s * p)` (for `e`) gives `g^s`. */
  lemma ShamirStep<E(!new)>(G: Group<E>, g: E, s: int, p: int, e: int, wit: E)
    requires IsAbelianGroup(G) && wit == Exp(G, g, s * p) && Gcd(p, e) == 1
    ensures Exp(G, wit, e) == Exp(G, g, s * e * p)
    ensures ShamirTrick(G, Exp(G, g, s * e), wit, p, e) == Some(Exp(G, g, s))
  {
    ExpMul(G, g, s * p, e);
    Regroup5(s, p, e);
    ShamirTrickOfPowers(G, g, p, e, s);
    assert e * s == s * e && p * s == s * p;
  }

  lemma Regroup4(s: int, x: int, y: int, e: int)
    ensures s * x * (y * e) == s * e * x * y
  {
  }

  lemma Regroup5(s: int, p': int, e: int)
    ensures (s * p') * e == s * (p' * e) && s * e * p' == s * (p' * e)
  {
  }

  /**
   * `test_delete`: removing 67 and 89 from `g^(41*67*89)` with the witnesses `g^3649` and
   * `g^2747` leaves `g^41`.
   */
  lemma DeleteExample<E(!new)>(G: Group<E>, hash: Poe.StatementHash<E>, g: E)
    requires IsAbelianGroup(G)
    ensures DeleteResult(G, hash, Exp(G, g, 41 * 67 * 89), [(67, Exp(G, g, 3649)), (89, Exp(G, g, 2747))]).Ok?
    ensures DeleteResult(G, hash, Exp(G, g, 41 * 67 * 89), [(67, Exp(G, g, 3649)), (89, Exp(G, g, 2747))]).value.0
        == Exp(G, g, 41)
  {
    var ews: seq<(nat, E)> := [(67, Exp(G, g, 3649)), (89, Exp(G, g, 2747))];
    var es := Elems(ews);
    assert es == [67, 89];
    assert es[..0] == [] && es[1..] == [89] && es[..1] == [67] && es[2..] == [];
    assert Product([67]) == 67 && Product([89]) == 89 && Product(es) == 67 * 89;
    assert Gcd(67, 89) == 1 by {
      assert Gcd(67, 89) == Gcd(89, 67) == Gcd(67, 22) == Gcd(22, 1) == Gcd(1, 0);
    }
    assert Gcd(1, 67) == 1 by {
      assert Gcd(1, 67) == Gcd(67, 1) == Gcd(1, 0);
    }
    assert !NotCoPrimeAt(G, ews, 0) && !NotCoPrimeAt(G, ews, 1);
    DeleteOfPowers(G, g, 41, ews);
  }

  // ---------------------------------------------------------------------------------------------
  // membership

  /** `prove_membership` is `delete`. */
  method ProveMembership<E(==)>(G: Group<E>, hash: Poe.StatementHash<E>, acc: E, ews: seq<(nat, E)>)
    returns (r: Result<(E, Poe.Poe<E>), AccError>)
    ensures r == DeleteResult(G, hash, acc, ews)
  {
    r := Delete(G, hash, acc, ews);
  }

  /** `verify_membership`: the PoE that `wit^(product of elems) == result`. */
  predicate VerifyMembershipOf<E(==)>(G: Group<E>, hash: Poe.StatementHash<E>, wit: E, elems: seq<int>, result: E, proof: Poe.Poe<E>)
  {
    Poe.Verify(G, hash, wit, Product(elems), result, proof)
  }

  /**
   * A membership proof as the vector commitment and the simulation pass it around: the witness
   * (the accumulator without the elements) and the PoE that it raised to their product is the
   * accumulator.
   */
  datatype MembershipProof<E> = MembershipProof(root: E, proof: Poe.Poe<E>)

  /** `verify_membership` of an accumulator, given such a proof. */
  predicate VerifyMembership<E(==)>(G: Group<E>, hash: Poe.StatementHash<E>, acc: E, elems: seq<int>, proof: MembershipProof<E>)
  {
    VerifyMembershipOf(G, hash, proof.root, elems, acc, proof.proof)
  }

  // ---------------------------------------------------------------------------------------------
  // non-membership

  datatype NonMembershipProof<E, P> = NonMembershipProof(d: E, v: E, gvInv: E, poke2Proof: P, poeProof: Poe.Poe<E>)

  /**
   * `prove_nonmembership`: with Bezout cofactors `a*x + b*s == 1` of the product `x` of `elems`
   * and the product `s` of the accumulated set, `d = g^a` and `v = acc^b`; the PoKE2 (a parameter
   * here) proves knowledge of `b` and the PoE proves `d^x == g * v^-1`. Fails exactly when the
   * two products have a common factor.
   */
  function ProveNonmembership<E, P>(G: Group<E>, hash: Poe.StatementHash<E>, poke2Prove: (E, int, E) -> P,
                                    base: E, acc: E, accSet: seq<nat>, elems: seq<nat>)
    : (r: Result<NonMembershipProof<E, P>, AccError>)
    ensures r.Err? <==> Gcd(Product(elems), Product(accSet)) != 1
    ensures r.Err? ==> r.error == InputsNotCoPrime
  {
    var x := Product(elems);
    var s := Product(accSet);
    var (gcd, a, b) := ExtGcd(x, s);
    if gcd != 1 then Err(InputsNotCoPrime)
    else
      var d := Exp(G, base, a);
      var v := Exp(G, acc, b);
      var gvInv := G.op(base, G.inv(v));
      Ok(NonMembershipProof(d, v, gvInv, poke2Prove(acc, b, v), Poe.Prove(G, hash, d, x, gvInv)))
  }

  /** `verify_nonmembership`: both the PoKE2 and the PoE are accepted. */
  predicate VerifyNonmembership<E(==), P>(G: Group<E>, hash: Poe.StatementHash<E>, poke2Verify: (E, E, P) -> bool,
                                          acc: E, elems: seq<nat>, proof: NonMembershipProof<E, P>)
  {
    poke2Verify(acc, proof.v, proof.poke2Proof) && Poe.Verify(G, hash, proof.d, Product(elems), proof.gvInv, proof.poeProof)
  }

  /**
   * Completeness of non-membership: when `acc` accumulates `accSet` from `base` and the PoKE2 is
   * complete, a proof that `prove_nonmembership` returns is accepted.
   */
  lemma NonmembershipVerifies<E(!new), P>(G: Group<E>, hash: Poe.StatementHash<E>,
                                          poke2Prove: (E, int, E) -> P, poke2Verify: (E, E, P) -> bool,
                                          base: E, acc: E, accSet: seq<nat>, elems: seq<nat>)
    requires IsAbelianGroup(G)
    requires acc == Exp(G, base, Product(accSet))
    requires forall u, e :: poke2Verify(u, Exp(G, u, e), poke2Prove(u, e, Exp(G, u, e)))
    ensures ProveNonmembership(G, hash, poke2Prove, base, acc, accSet, elems).Ok? ==>
      VerifyNonmembership(G, hash, poke2Verify, acc, elems, ProveNonmembership(G, hash, poke2Prove, base, acc, accSet, elems).value)
  {
    var x := Product(elems);
    var s := Product(accSet);
    var (gcd, a, b) := ExtGcd(x, s);
    if gcd == 1 {
      var d := Exp(G, base, a);
      var v := Exp(G, acc, b);
      var gvInv := G.op(base, G.inv(v));
      ExpMul(G, base, s, b);
      ExpNeg(G, base, s * b);
      ExpOne(G, base);
      ExpAdd(G, base, 1, -(s * b));
      assert gvInv == Exp(G, base, 1 - s * b);
      assert 1 - s * b == a * x;
      ExpMul(G, base, a, x);
      Poe.ProveVerifies(G, hash, d, x, gvInv);
    }
  }

  /**
   * The tests of `prove_nonmembership`: 5, 7, 11 are not in {41, 67, 89}; 41, 7, 11 share 41
   * with it, so the proof fails with `InputsNotCoPrime`.
   */
  lemma NonmembershipExamples<E, P>(G: Group<E>, hash: Poe.StatementHash<E>, poke2Prove: (E, int, E) -> P, base: E, acc: E)
    ensures ProveNonmembership(G, hash, poke2Prove, base, acc, [41, 67, 89], [5, 7, 11]).Ok?
    ensures ProveNonmembership(G, hash, poke2Prove, base, acc, [41, 67, 89], [41, 7, 11]) == Err(InputsNotCoPrime)
  {
    assert Product([41, 67, 89]) == 244483;
    assert Product([5, 7, 11]) == 385;
    assert Product([41, 7, 11]) == 3157;
    assert Gcd(385, 244483) == 1 by {
      assert Gcd(385, 244483) == Gcd(244483, 385) == Gcd(385, 8) == Gcd(8, 1) == Gcd(1, 0);
    }
    assert Gcd(3157, 244483) != 1 by {
      assert 3157 % 41 == 0 && 244483 % 41 == 0;
      GcdIsGreatest(3157, 244483, 41);
      GcdPositive(3157, 244483);
    }
  }
}
