/** A simulated user (src/simulation/user.rs): the set of UTXOs it owns. */
module SimulationUser {
  import opened Wrappers
  import opened SimulationState

  class User {
    var utxoSet: set<Utxo>

    /** `setup` keeps the given set as it is. */
    constructor Setup(utxoSet: set<Utxo>)
      ensures this.utxoSet == utxoSet
    {
      this.utxoSet := utxoSet;
    }

    /**
     * Some owned UTXO, which stays owned until `update` removes it; with no UTXO the source's
     * `unwrap` panics (`None`).
     */
    method GetInputForTransaction() returns (r: Option<Utxo>)
      ensures r.Some? <==> utxoSet != {}
      ensures r.Some? ==> r.value in utxoSet
    {
      if utxoSet == {} {
        return None;
      }
      var u :| u in utxoSet;
      return Some(u);
    }

    /**
     * Removes the spent inputs, then inserts the new outputs: every output is owned afterwards,
     * even one that was also spent, and everything else keeps its status.
     */
    method Update(deletedInputs: seq<Utxo>, addedOutputs: seq<Utxo>)
      modifies this
      ensures forall u :: u in addedOutputs ==> u in utxoSet
      ensures forall u :: u in deletedInputs && u !in addedOutputs ==> u !in utxoSet
      ensures forall u :: u !in deletedInputs && u !in addedOutputs ==> (u in utxoSet <==> u in old(utxoSet))
    {
      for i := 0 to |deletedInputs|
        invariant forall u :: u in deletedInputs[..i] ==> u !in utxoSet
        invariant forall u :: u !in deletedInputs[..i] ==> (u in utxoSet <==> u in old(utxoSet))
      {
        utxoSet := utxoSet - {deletedInputs[i]};
      }
      assert deletedInputs[..|deletedInputs|] == deletedInputs;
      ghost var afterDelete := utxoSet;
      for i := 0 to |addedOutputs|
        invariant forall u :: u in addedOutputs[..i] ==> u in utxoSet
        invariant forall u :: u !in addedOutputs[..i] ==> (u in utxoSet <==> u in afterDelete)
      {
        utxoSet := utxoSet + {addedOutputs[i]};
      }
      assert addedOutputs[..|addedOutputs|] == addedOutputs;
    }
  }
}
