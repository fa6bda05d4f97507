/**
 * The vector commitment of src/vector_commitment.rs: a bit vector is committed to by
 * accumulating the primes of the indices whose bit is one; an opening proves membership of the
 * one-bits and non-membership of the zero-bits.
 *
 * The commitment is written against the accumulator of `Accumulator`, whose membership proofs
 * are (witness, PoE) pairs. The prime hash of an index is a
 * parameter, and a panic of `unwrap` is the outcome `None`.
 */
module VectorCommitment {
  import opened Wrappers
  import opened Arith
  import opened Group
  import Poe
  import opened Accumulator

  datatype VCError = ConflictingIndicesError | InvalidOpenError

  datatype VectorProof<E, P> = VectorProof(membershipProof: MembershipProof<E>, nonmembershipProof: NonMembershipProof<E, P>)

  /** No index occurs twice. */
  predicate DistinctIndices(bits: seq<(bool, int)>)
  {
    forall a, b :: 0 <= a < b < |bits| ==> bits[a].1 != bits[b].1
  }

  /** The primes of the indices whose bit is zero, in input order. */
  function Zeros(indexHash: int -> Prime, bits: seq<(bool, int)>): seq<nat>
  {
    if |bits| == 0 then []
    else Zeros(indexHash, bits[..|bits| - 1]) + (if bits[|bits| - 1].0 then [] else [indexHash(bits[|bits| - 1].1) as nat])
  }

  /** The primes of the indices whose bit is one, in input order. */
  function Ones(indexHash: int -> Prime, bits: seq<(bool, int)>): seq<nat>
  {
    if |bits| == 0 then []
    else Ones(indexHash, bits[..|bits| - 1]) + (if bits[|bits| - 1].0 then [indexHash(bits[|bits| - 1].1) as nat] else [])
  }

  /** Every bit lands in exactly one of the two lists. */
  lemma {:induction false} ZerosOnesPartition(indexHash: int -> Prime, bits: seq<(bool, int)>)
    ensures |Zeros(indexHash, bits)| + |Ones(indexHash, bits)| == |bits|
  {
    if |bits| > 0 {
      ZerosOnesPartition(indexHash, bits[..|bits| - 1]);
    }
  }

  /** What `group_elems_by_bit` returns: `(zeros, ones)`, or an error for a repeated index. */
  function GroupByBit(indexHash: int -> Prime, bits: seq<(bool, int)>): Result<(seq<nat>, seq<nat>), VCError>
  {
    if DistinctIndices(bits) then Ok((Zeros(indexHash, bits), Ones(indexHash, bits)))
    else Err(ConflictingIndicesError)
  }

  /**
   * `group_elems_by_bit`: walks the bits once, remembering the indices seen so far, and stops
   * with `ConflictingIndicesError` at the first index seen before.
   */
  method GroupElemsByBit(indexHash: int -> Prime, bits: seq<(bool, int)>)
    returns (r: Result<(seq<nat>, seq<nat>), VCError>)
    ensures r == GroupByBit(indexHash, bits)
  {
    var elemsWithOne: seq<nat> := [];
    var elemsWithZero: seq<nat> := [];
    var seenIndices: set<int> := {};
    var k := 0;
    while k < |bits|
      invariant 0 <= k <= |bits|
      invariant DistinctIndices(bits[..k])
      invariant seenIndices == set j | 0 <= j < k :: bits[j].1
      invariant elemsWithZero == Zeros(indexHash, bits[..k])
      invariant elemsWithOne == Ones(indexHash, bits[..k])
      decreases |bits| - k
    {
      var (bit, i) := bits[k];
      assert bits[..k + 1][..k] == bits[..k];
      if i in seenIndices {
        ghost var j :| 0 <= j < k && bits[j].1 == i;
        assert !DistinctIndices(bits) by {
          assert bits[j].1 == bits[k].1;
        }
        return Err(ConflictingIndicesError);
      }
      seenIndices := seenIndices + {i};
      if bit {
        elemsWithOne := elemsWithOne + [indexHash(i) as nat];
      } else {
        elemsWithZero := elemsWithZero + [indexHash(i) as nat];
      }
      k := k + 1;
    }
    assert bits[..k] == bits;
    return Ok((elemsWithZero, elemsWithOne));
  }

  /**
   * `update`: adds the one-bits to the accumulator, with a membership proof, and proves
   * non-membership of the zero-bits in the new accumulator. A grouping error is returned as
   * it is; a failed non-membership proof panics (`None`).
   */
  function Update<E, P>(G: Group<E>, hash: Poe.StatementHash<E>, indexHash: int -> Prime, poke2Prove: (E, int, E) -> P,
                        base: E, acc: E, accSet: seq<nat>, bits: seq<(bool, int)>)
    : (r: Option<Result<(E, VectorProof<E, P>), VCError>>)
    ensures r == Some(Err(ConflictingIndicesError)) <==> !DistinctIndices(bits)
    ensures r.Some? && r.value.Err? ==> r.value.error == ConflictingIndicesError
  {
    match GroupByBit(indexHash, bits)
    case Err(e) => Some(Err(e))
    case Ok((elemsWithZero, elemsWithOne)) =>
      var (newAcc, poe) := Add(G, hash, acc, elemsWithOne);
      match ProveNonmembership(G, hash, poke2Prove, base, newAcc, accSet, elemsWithZero)
      case Err(_) => None
      case Ok(nonmembershipProof) => Some(Ok((newAcc, VectorProof(MembershipProof(acc, poe), nonmembershipProof))))
  }

  /** `verify`: false on a repeated index, otherwise both proofs must be accepted. */
  predicate Verify<E(==), P>(G: Group<E>, hash: Poe.StatementHash<E>, indexHash: int -> Prime, poke2Verify: (E, E, P) -> bool,
                             acc: E, bits: seq<(bool, int)>, proof: VectorProof<E, P>)
  {
    match GroupByBit(indexHash, bits)
    case Err(_) => false
    case Ok((elemsWithZero, elemsWithOne)) =>
      VerifyMembership(G, hash, acc, elemsWithOne, proof.membershipProof)
      && VerifyNonmembership(G, hash, poke2Verify, acc, elemsWithZero, proof.nonmembershipProof)
  }

  /** A bit vector with a repeated index is never accepted. */
  lemma VerifyConflicting<E, P>(G: Group<E>, hash: Poe.StatementHash<E>, indexHash: int -> Prime, poke2Verify: (E, E, P) -> bool,
                                     acc: E, bits: seq<(bool, int)>, proof: VectorProof<E, P>)
    requires !DistinctIndices(bits)
    ensures !Verify(G, hash, indexHash, poke2Verify, acc, bits, proof)
  {
  }

  /**
   * Completeness of `update`: when `acc` accumulates `oldSet` from `base` and the new set is
   * `oldSet` followed by the one-bits, the commitment `update` returns is accepted for the bits.
   */
  lemma UpdateVerifies<E(!new), P>(G: Group<E>, hash: Poe.StatementHash<E>, indexHash: int -> Prime,
                                   poke2Prove: (E, int, E) -> P, poke2Verify: (E, E, P) -> bool,
                                   base: E, acc: E, oldSet: seq<nat>, bits: seq<(bool, int)>)
    requires IsAbelianGroup(G)
    requires acc == Exp(G, base, Product(oldSet))
    requires forall u, e :: poke2Verify(u, Exp(G, u, e), poke2Prove(u, e, Exp(G, u, e)))
    ensures var r := Update(G, hash, indexHash, poke2Prove, base, acc, oldSet + Ones(indexHash, bits), bits);
      r.Some? && r.value.Ok? ==> Verify(G, hash, indexHash, poke2Verify, r.value.value.0, bits, r.value.value.1)
  {
    if DistinctIndices(bits) {
      var ones, zeros := Ones(indexHash, bits), Zeros(indexHash, bits);
      var accSet := oldSet + ones;
      var (newAcc, poe) := Add(G, hash, acc, ones);
      AddVerifies(G, hash, acc, ones);
      ExpMul(G, base, Product(oldSet), Product(ones));
      ProductAppend(oldSet, ones);
      assert newAcc == Exp(G, base, Product(accSet));
      NonmembershipVerifies(G, hash, poke2Prove, poke2Verify, base, newAcc, accSet, zeros);
    }
  }

  /** The primes of a list of indices. */
  function HashAll(indexHash: int -> Prime, indices: seq<int>): (ps: seq<nat>)
    ensures |ps| == |indices| && forall k :: 0 <= k < |indices| ==> ps[k] == indexHash(indices[k])
  {
    seq(|indices|, k requires 0 <= k < |indices| => indexHash(indices[k]) as nat)
  }

  /** The indices of the one-bits, paired with their primes in place of the indices. */
  function HashWitnesses<E>(indexHash: int -> Prime, ws: seq<(int, E)>): (ews: seq<(nat, E)>)
    ensures |ews| == |ws| && forall k :: 0 <= k < |ws| ==> ews[k] == (indexHash(ws[k].0) as nat, ws[k].1)
  {
    seq(|ws|, k requires 0 <= k < |ws| => (indexHash(ws[k].0) as nat, ws[k].1))
  }

  /**
   * `open`: a membership proof (by `prove_membership`) for the one-bits with their witnesses and
   * a non-membership proof for the zero-bits; either failure becomes `InvalidOpenError`.
   */
  function Open<E(==), P>(G: Group<E>, hash: Poe.StatementHash<E>, indexHash: int -> Prime, poke2Prove: (E, int, E) -> P,
                          base: E, acc: E, accSet: seq<nat>, zeroBits: seq<int>, oneBitWitnesses: seq<(int, E)>)
    : (r: Result<VectorProof<E, P>, VCError>)
    ensures r.Err? <==> DeleteResult(G, hash, acc, HashWitnesses(indexHash, oneBitWitnesses)).Err?
                        || Gcd(Product(HashAll(indexHash, zeroBits)), Product(accSet)) != 1
    ensures r.Err? ==> r.error == InvalidOpenError
  {
    var elemsWithZero := HashAll(indexHash, zeroBits);
    var elemWitnessesWithOne := HashWitnesses(indexHash, oneBitWitnesses);
    match DeleteResult(G, hash, acc, elemWitnessesWithOne)
    case Err(_) => Err(InvalidOpenError)
    case Ok((root, poe)) =>
      match ProveNonmembership(G, hash, poke2Prove, base, acc, accSet, elemsWithZero)
      case Err(_) => Err(InvalidOpenError)
      case Ok(nonmembershipProof) => Ok(VectorProof(MembershipProof(root, poe), nonmembershipProof))
  }

  /**
   * Completeness of `open`: when `acc` accumulates `accSet` from `base` and the bit vector lists
   * exactly the opened zero-bits and one-bits, in order, an opening `open` returns is accepted.
   */
  lemma OpenVerifies<E(!new), P>(G: Group<E>, hash: Poe.StatementHash<E>, indexHash: int -> Prime,
                                 poke2Prove: (E, int, E) -> P, poke2Verify: (E, E, P) -> bool,
                                 base: E, acc: E, accSet: seq<nat>, zeroBits: seq<int>, oneBitWitnesses: seq<(int, E)>,
                                 bits: seq<(bool, int)>)
    requires IsAbelianGroup(G)
    requires acc == Exp(G, base, Product(accSet))
    requires forall u, e :: poke2Verify(u, Exp(G, u, e), poke2Prove(u, e, Exp(G, u, e)))
    requires DistinctIndices(bits)
    requires Zeros(indexHash, bits) == HashAll(indexHash, zeroBits)
    requires Ones(indexHash, bits) == Elems(HashWitnesses(indexHash, oneBitWitnesses))
    ensures var r := Open(G, hash, indexHash, poke2Prove, base, acc, accSet, zeroBits, oneBitWitnesses);
      r.Ok? ==> Verify(G, hash, indexHash, poke2Verify, acc, bits, r.value)
  {
    var ews := HashWitnesses(indexHash, oneBitWitnesses);
    DeleteVerifies(G, hash, acc, ews);
    NonmembershipVerifies(G, hash, poke2Prove, poke2Verify, base, acc, accSet, HashAll(indexHash, zeroBits));
  }
}
