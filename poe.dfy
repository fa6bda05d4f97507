/**
 * The non-interactive proof of exponentiation of src/internal/proof/poe.rs (Wesolowski's PoE,
 * page 16 of Boneh, Bunz and Fisch, "Batching Techniques for Accumulators"): a proof that
 * `base^exp == result` that is checked with a single exponentiation by a small prime.
 *
 * `hash_to_prime` of the statement is a parameter: any function returning a prime.
 */
module Poe {
  import opened Arith
  import opened Group

  /** `hash_to_prime((base, exp, result))`. */
  type StatementHash<!E> = (E, int, E) -> Prime

  datatype Poe<E> = Poe(Q: E)

  /**
   * `Q = base^q` for the quotient `q` of `exp` by the challenge prime `l`, truncated toward zero
   * as rug's `/` does. An exponent below the prime gives the identity, as in the tests.
   */
  function Prove<E>(G: Group<E>, hash: StatementHash<E>, base: E, exp: int, result: E): (proof: Poe<E>)
    ensures 0 <= exp < hash(base, exp, result) ==> proof.Q == G.id
  {
    var l := hash(base, exp, result);
    Poe(Exp(G, base, TruncDiv(exp, l)))
  }

  /** Accepts when `Q^l * base^r == result` for the remainder `r` of `exp` by `l`. */
  predicate Verify<E(==)>(G: Group<E>, hash: StatementHash<E>, base: E, exp: int, result: E, proof: Poe<E>)
  {
    var l := hash(base, exp, result);
    var r := TruncMod(exp, l);
    G.op(Exp(G, proof.Q, l), Exp(G, base, r)) == result
  }

  /**
   * Completeness and its converse: the honest proof is accepted exactly when the claimed
   * result really is `base^exp`.
   */
  lemma ProveVerifies<E(!new)>(G: Group<E>, hash: StatementHash<E>, base: E, exp: int, result: E)
    requires IsAbelianGroup(G)
    ensures Verify(G, hash, base, exp, result, Prove(G, hash, base, exp, result)) <==> result == Exp(G, base, exp)
  {
    var l := hash(base, exp, result);
    var q, r := TruncDiv(exp, l), TruncMod(exp, l);
    ExpMul(G, base, q, l);
    ExpAdd(G, base, q * l, r);
  }
}
