/**
 A transaction as the pool holds it: a decoded body that does not change and the marks the pool,
 the sealer and the gossip worker set on it.
 */
module TransactionObject {
  import opened TxPoolTypes

  class Transaction {
    const hash: Hash
    const nonce: Nonce
    const blockLimit: int
    const groupId: string
    const chainId: string
    const to: string
    /** Whether `verify` finds the signature genuine. */
    const genuine: bool

    var sealed: bool
    var batchId: int
    var batchHash: Hash
    var synced: bool
    var systemTx: bool
    var invalid: bool
    var callback: Option<nat>
    /** The nodes known to hold the transaction. */
    var known: set<NodeId>

    /** Everything but the nodes that know it. */
    function View(): (view: Tx)
      reads this`sealed, this`batchId, this`batchHash, this`synced, this`systemTx, this`invalid, this`callback
      ensures view.hash == hash && view.nonce == nonce && view.to == to
      ensures view.sealed == sealed && view.systemTx == systemTx && view.genuine == genuine
    {
      Tx(hash, nonce, blockLimit, groupId, chainId, to, genuine,
         sealed, batchId, batchHash, synced, systemTx, invalid, callback)
    }

    /** Decoding delivers an object of its own, with no marks. */
    constructor (body: Tx)
      ensures View() == body.(sealed := false, batchId := -1, batchHash := ZERO_HASH, synced := false,
                              systemTx := false, invalid := false, callback := None)
      ensures FreshlyDecoded(View()) && known == {}
    {
      hash, nonce, blockLimit := body.hash, body.nonce, body.blockLimit;
      groupId, chainId, to, genuine := body.groupId, body.chainId, body.to, body.genuine;
      sealed, batchId, batchHash := false, -1, ZERO_HASH;
      synced, systemTx, invalid, callback, known := false, false, false, None, {};
    }

    /** `setSealed`, `setBatchId` and `setBatchHash`. */
    method SetMarks(sealed: bool, batchId: int, batchHash: Hash)
      modifies this`sealed, this`batchId, this`batchHash
      ensures View() == old(View()).(sealed := sealed, batchId := batchId, batchHash := batchHash)
    {
      this.sealed, this.batchId, this.batchHash := sealed, batchId, batchHash;
    }

    method SetSynced()
      modifies this`synced
      ensures View() == old(View()).(synced := true)
    {
      synced := true;
    }

    method TakeSubmitCallback()
      modifies this`callback
      ensures View() == old(View()).(callback := None)
    {
      callback := None;
    }

    method AppendKnownNode(node: NodeId)
      modifies this`known
      ensures known == old(known) + {node}
    {
      known := known + {node};
    }

    method SetSealed(sealed: bool)
      modifies this`sealed
      ensures View() == old(View()).(sealed := sealed)
    {
      this.sealed := sealed;
    }

    method SetInvalid()
      modifies this`invalid
      ensures View() == old(View()).(invalid := true)
    {
      invalid := true;
    }
  }
}
