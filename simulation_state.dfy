/**
 * The data of the UTXO simulation (src/simulation/state.rs): unspent outputs, transactions that
 * add outputs and spend others (each spent output with its accumulator witness), and blocks.
 */
module SimulationState {
  import Accumulator

  /** An unspent transaction output, identified by its UUID (a number here). */
  datatype Utxo = Utxo(id: nat)

  datatype Transaction<E> = Transaction(utxosAdded: seq<Utxo>, utxosDeleted: seq<(Utxo, E)>)

  datatype Block<E> = Block(height: U64, transactions: seq<Transaction<E>>, newAcc: E,
                            proofAdded: Accumulator.MembershipProof<E>, proofDeleted: Accumulator.MembershipProof<E>)

  /** The largest value of Rust's `u64`, the type of block heights. */
  const U64_MAX: nat := 0xFFFF_FFFF_FFFF_FFFF

  type U64 = n: nat | n <= U64_MAX
}
