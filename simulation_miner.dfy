/**
 * A simulated miner (src/simulation/miner.rs): it collects pending transactions, forges a block
 * that deletes the spent UTXOs from the accumulator and adds the new ones, and validates blocks
 * by checking their two membership proofs. A failed `assert!` or `unwrap`, and the overflow of
 * the `u64` height, are panics: `None` from `forge_block`, `false` from `validate_block`.
 */
module SimulationMiner {
  import opened Wrappers
  import opened Arith
  import opened Group
  import Poe
  import opened Accumulator
  import opened SimulationState
  import opened SimulationUtil

  /** The block `forge_block` builds from a miner's state: delete first, then add. */
  function ForgedBlock<E(==)>(G: Group<E>, hash: Poe.StatementHash<E>, utxoHash: Utxo -> Prime,
                              acc: E, blockHeight: U64, pending: seq<Transaction<E>>): Option<Block<E>>
  {
    var elemsAdded := ElemsAdded(utxoHash, pending);
    var elemsDeleted := ElemsDeleted(utxoHash, pending);
    match DeleteResult(G, hash, acc, elemsDeleted)
    case Err(_) => None
    case Ok((witnessDeleted, proofDeleted)) =>
      var (newAcc, proofAdded) := Add(G, hash, witnessDeleted, elemsAdded);
      if blockHeight + 1 > U64_MAX then None
      else
        Some(Block(blockHeight + 1, pending, newAcc,
                   MembershipProof(witnessDeleted, proofAdded), MembershipProof(witnessDeleted, proofDeleted)))
  }

  /** The three assertions of `validate_block`. */
  predicate BlockValid<E(==)>(G: Group<E>, hash: Poe.StatementHash<E>, utxoHash: Utxo -> Prime,
                              acc: E, pending: seq<Transaction<E>>, block: Block<E>)
  {
    && VerifyMembership(G, hash, acc, Elems(ElemsDeleted(utxoHash, pending)), block.proofDeleted)
    && VerifyMembership(G, hash, block.newAcc, ElemsAdded(utxoHash, pending), block.proofAdded)
    && block.proofDeleted.root == block.proofAdded.root
  }

  /**
   * A block forged from a state passes validation against that state, carries the next height,
   * and its accumulator is the root left by the deletions raised to the added primes.
   */
  lemma ForgedBlockValid<E(!new)>(G: Group<E>, hash: Poe.StatementHash<E>, utxoHash: Utxo -> Prime,
                                  acc: E, blockHeight: U64, pending: seq<Transaction<E>>)
    requires IsAbelianGroup(G)
    ensures var b := ForgedBlock(G, hash, utxoHash, acc, blockHeight, pending);
      b.Some? ==>
        && BlockValid(G, hash, utxoHash, acc, pending, b.value)
        && b.value.height == blockHeight + 1
        && b.value.newAcc == Exp(G, b.value.proofAdded.root, Product(ElemsAdded(utxoHash, pending)))
        && Exp(G, b.value.proofDeleted.root, Product(Elems(ElemsDeleted(utxoHash, pending)))) == acc
  {
    var elemsDeleted := ElemsDeleted(utxoHash, pending);
    DeleteVerifies(G, hash, acc, elemsDeleted);
    if DeleteResult(G, hash, acc, elemsDeleted).Ok? {
      var (witnessDeleted, _) := DeleteResult(G, hash, acc, elemsDeleted).value;
      AddVerifies(G, hash, witnessDeleted, ElemsAdded(utxoHash, pending));
    }
  }

  class Miner<E(==)> {
    const G: Group<E>
    const hash: Poe.StatementHash<E>
    const utxoHash: Utxo -> Prime
    var acc: E
    var blockHeight: U64
    var pendingTransactions: seq<Transaction<E>>

    /** `setup`: the given accumulator and height, nothing pending. */
    constructor Setup(G: Group<E>, hash: Poe.StatementHash<E>, utxoHash: Utxo -> Prime, acc: E, blockHeight: U64)
      ensures this.G == G && this.hash == hash && this.utxoHash == utxoHash
      ensures this.acc == acc && this.blockHeight == blockHeight && pendingTransactions == []
    {
      this.G, this.hash, this.utxoHash := G, hash, utxoHash;
      this.acc, this.blockHeight := acc, blockHeight;
      pendingTransactions := [];
    }

    /** Queues a transaction at the end of the pending list. */
    method AddTransaction(transaction: Transaction<E>)
      modifies this
      ensures pendingTransactions == old(pendingTransactions) + [transaction]
      ensures acc == old(acc) && blockHeight == old(blockHeight)
    {
      pendingTransactions := pendingTransactions + [transaction];
    }

    /** The elements the pending transactions add and delete, as `util::elems_from_transactions`. */
    method ElemsFromTransactions() returns (elemsAdded: seq<nat>, elemsDeleted: seq<(nat, E)>)
      ensures elemsAdded == ElemsAdded(utxoHash, pendingTransactions)
      ensures elemsDeleted == ElemsDeleted(utxoHash, pendingTransactions)
    {
      elemsAdded, elemsDeleted := SimulationUtil.ElemsFromTransactions(utxoHash, pendingTransactions);
    }

    /** `forge_block`: the state is only read. */
    method ForgeBlock() returns (block: Option<Block<E>>)
      ensures block == ForgedBlock(G, hash, utxoHash, acc, blockHeight, pendingTransactions)
    {
      var elemsAdded, elemsDeleted := ElemsFromTransactions();
      var deleted := Delete(G, hash, acc, elemsDeleted);
      if deleted.Err? {
        return None;
      }
      var (witnessDeleted, proofDeleted) := deleted.value;
      var (newAcc, proofAdded) := Add(G, hash, witnessDeleted, elemsAdded);
      if blockHeight + 1 > U64_MAX {
        return None;
      }
      block := Some(Block(blockHeight + 1, pendingTransactions, newAcc,
                          MembershipProof(witnessDeleted, proofAdded), MembershipProof(witnessDeleted, proofDeleted)));
    }

    /**
     * `validate_block`: when both membership proofs hold against the pending transactions and
     * share their witness, the block's accumulator and height replace the miner's and the pending
     * list is emptied; otherwise an assertion panics and nothing changes.
     */
    method ValidateBlock(block: Block<E>) returns (ok: bool)
      modifies this
      ensures ok <==> BlockValid(G, hash, utxoHash, old(acc), old(pendingTransactions), block)
      ensures ok ==> acc == block.newAcc && blockHeight == block.height && pendingTransactions == []
      ensures !ok ==> acc == old(acc) && blockHeight == old(blockHeight) && pendingTransactions == old(pendingTransactions)
    {
      var elemsAdded, elemWitnessesDeleted := ElemsFromTransactions();
      var elemsDeleted := Elems(elemWitnessesDeleted);
      if !VerifyMembership(G, hash, acc, elemsDeleted, block.proofDeleted) {
        return false;
      }
      if !VerifyMembership(G, hash, block.newAcc, elemsAdded, block.proofAdded) {
        return false;
      }
      if block.proofDeleted.root != block.proofAdded.root {
        return false;
      }
      acc := block.newAcc;
      blockHeight := block.height;
      pendingTransactions := [];
      return true;
    }
  }
}
