/**
 * `elems_from_transactions` (src/simulation/util.rs): the accumulator elements a list of
 * transactions adds, and the elements it deletes with their witnesses. The hash of a UTXO to a
 * prime is a parameter.
 */
module SimulationUtil {
  import opened Arith
  import opened SimulationState

  /** The primes of one transaction's added UTXOs. */
  function TxAdded<E>(utxoHash: Utxo -> Prime, tx: Transaction<E>): seq<nat>
  {
    seq(|tx.utxosAdded|, k requires 0 <= k < |tx.utxosAdded| => utxoHash(tx.utxosAdded[k]) as nat)
  }

  /** The primes of one transaction's deleted UTXOs, each with its witness. */
  function TxDeleted<E>(utxoHash: Utxo -> Prime, tx: Transaction<E>): seq<(nat, E)>
  {
    seq(|tx.utxosDeleted|, k requires 0 <= k < |tx.utxosDeleted| => (utxoHash(tx.utxosDeleted[k].0) as nat, tx.utxosDeleted[k].1))
  }

  /** The primes of the added UTXOs, transaction by transaction, in order. */
  function ElemsAdded<E>(utxoHash: Utxo -> Prime, txs: seq<Transaction<E>>): seq<nat>
  {
    if |txs| == 0 then [] else ElemsAdded(utxoHash, txs[..|txs| - 1]) + TxAdded(utxoHash, txs[|txs| - 1])
  }

  /** The primes of the deleted UTXOs, each with its witness, transaction by transaction. */
  function ElemsDeleted<E>(utxoHash: Utxo -> Prime, txs: seq<Transaction<E>>): seq<(nat, E)>
  {
    if |txs| == 0 then [] else ElemsDeleted(utxoHash, txs[..|txs| - 1]) + TxDeleted(utxoHash, txs[|txs| - 1])
  }

  /** The number of UTXOs the transactions add. */
  function AddedCount<E>(txs: seq<Transaction<E>>): nat
  {
    if |txs| == 0 then 0 else AddedCount(txs[..|txs| - 1]) + |txs[|txs| - 1].utxosAdded|
  }

  /** The number of UTXOs the transactions spend. */
  function DeletedCount<E>(txs: seq<Transaction<E>>): nat
  {
    if |txs| == 0 then 0 else DeletedCount(txs[..|txs| - 1]) + |txs[|txs| - 1].utxosDeleted|
  }

  /**
   * The loop of `elems_from_transactions`: extends both lists with each transaction's hashed
   * UTXOs. Empty input gives two empty lists.
   */
  method ElemsFromTransactions<E>(utxoHash: Utxo -> Prime, transactions: seq<Transaction<E>>)
    returns (elemsAdded: seq<nat>, elemsDeleted: seq<(nat, E)>)
    ensures elemsAdded == ElemsAdded(utxoHash, transactions)
    ensures elemsDeleted == ElemsDeleted(utxoHash, transactions)
    ensures |transactions| == 0 ==> elemsAdded == [] && elemsDeleted == []
  {
    elemsAdded, elemsDeleted := [], [];
    var i := 0;
    while i < |transactions|
      invariant 0 <= i <= |transactions|
      invariant elemsAdded == ElemsAdded(utxoHash, transactions[..i])
      invariant elemsDeleted == ElemsDeleted(utxoHash, transactions[..i])
      decreases |transactions| - i
    {
      var tx := transactions[i];
      assert transactions[..i + 1][..i] == transactions[..i];
      elemsAdded := elemsAdded + TxAdded(utxoHash, tx);
      elemsDeleted := elemsDeleted + TxDeleted(utxoHash, tx);
      i := i + 1;
    }
    assert transactions[..i] == transactions;
  }

  /** The output lengths are the total numbers of added and of spent UTXOs. */
  lemma {:induction false} ElemsLengths<E>(utxoHash: Utxo -> Prime, txs: seq<Transaction<E>>)
    ensures |ElemsAdded(utxoHash, txs)| == AddedCount(txs)
    ensures |ElemsDeleted(utxoHash, txs)| == DeletedCount(txs)
  {
    if |txs| > 0 {
      ElemsLengths(utxoHash, txs[..|txs| - 1]);
    }
  }

  /**
   * The lists of a concatenation of transaction lists are the concatenations of their lists, so
   * each transaction contributes its own UTXOs, in order and next to each other.
   */
  lemma ElemsAppend<E>(utxoHash: Utxo -> Prime, txs: seq<Transaction<E>>, more: seq<Transaction<E>>)
    ensures ElemsAdded(utxoHash, txs + more) == ElemsAdded(utxoHash, txs) + ElemsAdded(utxoHash, more)
    ensures ElemsDeleted(utxoHash, txs + more) == ElemsDeleted(utxoHash, txs) + ElemsDeleted(utxoHash, more)
  {
    AddedAppend(utxoHash, txs, more);
    DeletedAppend(utxoHash, txs, more);
  }

  lemma {:induction false} AddedAppend<E>(utxoHash: Utxo -> Prime, txs: seq<Transaction<E>>, more: seq<Transaction<E>>)
    ensures ElemsAdded(utxoHash, txs + more) == ElemsAdded(utxoHash, txs) + ElemsAdded(utxoHash, more)
    decreases |more|
  {
    if |more| == 0 {
      assert txs + more == txs;
    } else {
      var all, front, last := txs + more, more[..|more| - 1], more[|more| - 1];
      assert all[..|all| - 1] == txs + front && all[|all| - 1] == last;
      var a, b, c := ElemsAdded(utxoHash, txs), ElemsAdded(utxoHash, front), TxAdded(utxoHash, last);
      calc {
        ElemsAdded(utxoHash, all);
        ElemsAdded(utxoHash, txs + front) + c;
        { AddedAppend(utxoHash, txs, front); }
        (a + b) + c;
        a + (b + c);
        a + ElemsAdded(utxoHash, more);
      }
    }
  }

  lemma {:induction false} DeletedAppend<E>(utxoHash: Utxo -> Prime, txs: seq<Transaction<E>>, more: seq<Transaction<E>>)
    ensures ElemsDeleted(utxoHash, txs + more) == ElemsDeleted(utxoHash, txs) + ElemsDeleted(utxoHash, more)
    decreases |more|
  {
    if |more| == 0 {
      assert txs + more == txs;
    } else {
      var all, front, last := txs + more, more[..|more| - 1], more[|more| - 1];
      assert all[..|all| - 1] == txs + front && all[|all| - 1] == last;
      var a, b, c := ElemsDeleted(utxoHash, txs), ElemsDeleted(utxoHash, front), TxDeleted(utxoHash, last);
      calc {
        ElemsDeleted(utxoHash, all);
        ElemsDeleted(utxoHash, txs + front) + c;
        { DeletedAppend(utxoHash, txs, front); }
        (a + b) + c;
        a + (b + c);
        a + ElemsDeleted(utxoHash, more);
      }
    }
  }

  /** A single transaction's added list holds the primes of its added UTXOs. */
  lemma ElemsOfOne<E>(utxoHash: Utxo -> Prime, tx: Transaction<E>)
    ensures |ElemsAdded(utxoHash, [tx])| == |tx.utxosAdded|
    ensures forall k :: 0 <= k < |tx.utxosAdded| ==> ElemsAdded(utxoHash, [tx])[k] == utxoHash(tx.utxosAdded[k])
    ensures |ElemsDeleted(utxoHash, [tx])| == |tx.utxosDeleted|
    ensures forall k :: 0 <= k < |tx.utxosDeleted| ==>
      ElemsDeleted(utxoHash, [tx])[k] == (utxoHash(tx.utxosDeleted[k].0) as nat, tx.utxosDeleted[k].1)
  {
    assert [tx][..0] == [];
  }
}
