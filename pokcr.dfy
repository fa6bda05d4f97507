/**
 * The proof of knowledge of co-prime roots of src/internal/proof/pokcr.rs: the product `w` of
 * the witnesses, checked against `multi_exp` of the aggregated elements.
 */
module Pokcr {
  import opened Arith
  import opened Group

  datatype Pokcr<E> = Pokcr(w: E)

  /** `w` is the fold of `op` over the witnesses from the identity. */
  function Prove<E>(G: Group<E>, witnesses: seq<E>): (proof: Pokcr<E>)
    ensures |witnesses| == 0 ==> proof.w == G.id
  {
    Pokcr(Fold(G, witnesses))
  }

  /** Accepts when `multi_exp(alphas, x) == w^(x_1 * ... * x_n)`. */
  predicate Verify<E(==)>(G: Group<E>, alphas: seq<E>, x: seq<int>, proof: Pokcr<E>)
    requires 1 <= |alphas| == |x|
  {
    MultiExp(G, alphas, x) == Exp(G, proof.w, Product(x))
  }

  /** Completeness: when each `alphas[i]` is `witnesses[i]^x[i]`, the honest proof is accepted. */
  lemma ProveVerifies<E(!new)>(G: Group<E>, witnesses: seq<E>, alphas: seq<E>, x: seq<int>)
    requires IsCommutativeMonoid(G)
    requires 1 <= |alphas| == |x| == |witnesses|
    requires forall i :: 0 <= i < |x| ==> x[i] >= 0 && alphas[i] == Exp(G, witnesses[i], x[i])
    ensures Verify(G, alphas, x, Prove(G, witnesses))
  {
    MultiExpOfPowers(G, witnesses, alphas, x);
  }

  /** The test of src/internal/proof/pokcr.rs, in integer arithmetic. */
  lemma ProveExample()
    ensures Prove(IntMul(), [2, 3]).w == 6
    ensures Verify(IntMul(), [4, 9], [2, 2], Prove(IntMul(), [2, 3]))
  {
    var G := IntMul();
    IntMulIsMonoid();
    assert [2, 3][..1] == [2] && [2][..0] == [];
    assert Exp(G, 2, 2) == 4 && Exp(G, 3, 2) == 9;
    ProveVerifies(G, [2, 3], [4, 9], [2, 2]);
  }
}
