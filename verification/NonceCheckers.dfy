/**
 The two nonce checkers, updated in place, and the validator that asks both.
 */
module NonceCheckers {
  import opened TxPoolTypes
  import opened TransactionObject
  import opened NonceWindow
  import PoolState

  /** `TxPoolNonceChecker`: a flat set of nonces. */
  class TxPoolNonceChecker {
    var nonceCache: set<Nonce>

    constructor ()
      ensures nonceCache == {}
    {
      nonceCache := {};
    }

    method Exists(nonce: Nonce) returns (found: bool)
      ensures found <==> nonce in nonceCache
    {
      found := nonce in nonceCache;
    }

    /** Reject a known nonce; remember a new one if asked to. */
    method CheckNonce(tx: Transaction, shouldUpdate: bool) returns (status: Status)
      modifies this
      ensures status == if tx.nonce in old(nonceCache) then NonceCheckFail else Ok
      ensures nonceCache == if shouldUpdate then old(nonceCache) + {tx.nonce} else old(nonceCache)
    {
      if tx.nonce in nonceCache {
        assert nonceCache == nonceCache + {tx.nonce};
        return NonceCheckFail;
      }
      if shouldUpdate {
        nonceCache := nonceCache + {tx.nonce};
      }
      return Ok;
    }

    method Insert(nonce: Nonce)
      modifies this
      ensures nonceCache == old(nonceCache) + {nonce}
    {
      nonceCache := nonceCache + {nonce};
    }

    method Remove(nonce: Nonce)
      modifies this
      ensures nonceCache == old(nonceCache) - {nonce}
    {
      if nonce in nonceCache {
        nonceCache := nonceCache - {nonce};
      }
    }

    method BatchInsert(nonces: seq<Nonce>)
      modifies this
      ensures nonceCache == old(nonceCache) + Elems(nonces)
    {
      for i := 0 to |nonces|
        invariant nonceCache == old(nonceCache) + Elems(nonces[..i])
      {
        assert nonces[..i + 1] == nonces[..i] + [nonces[i]];
        Insert(nonces[i]);
      }
      assert nonces[..|nonces|] == nonces;
    }

    method BatchRemove(nonces: seq<Nonce>)
      modifies this
      ensures nonceCache == old(nonceCache) - Elems(nonces)
    {
      for i := 0 to |nonces|
        invariant nonceCache == old(nonceCache) - Elems(nonces[..i])
      {
        assert nonces[..i + 1] == nonces[..i] + [nonces[i]];
        Remove(nonces[i]);
      }
      assert nonces[..|nonces|] == nonces;
    }

    /** The same for a set, visited in any order. */
    method BatchRemoveSet(nonces: set<Nonce>)
      modifies this
      ensures nonceCache == old(nonceCache) - nonces
    {
      var rest := nonces;
      while rest != {}
        invariant rest <= nonces
        invariant nonceCache == old(nonceCache) - (nonces - rest)
        decreases rest
      {
        var nonce :| nonce in rest;
        Remove(nonce);
        rest := rest - {nonce};
      }
    }
  }

  /** `LedgerNonceChecker`: the sliding window over the nonces of the last `blockLimit` blocks. */
  class LedgerNonceChecker {
    /** The inherited flat set. */
    const base: TxPoolNonceChecker
    const blockLimit: int
    var blockNumber: int
    var blockNonceCache: map<int, seq<Nonce>>

    function View(): Window
      reads this, base
    {
      Window(blockLimit, blockNumber, blockNonceCache, base.nonceCache)
    }

    /** `heights` are the keys of the initial nonces in the order in which the map lists them. */
    constructor (initialNonces: map<int, seq<Nonce>>, heights: seq<int>, blockNumber: int, blockLimit: int)
      requires Enumerates(heights, initialNonces.Keys)
      ensures fresh(base)
      ensures View() == Window(blockLimit, blockNumber, initialNonces,
                               set k, n | k in initialNonces && n in initialNonces[k] :: n)
    {
      this.base := new TxPoolNonceChecker();
      this.blockNumber := blockNumber;
      this.blockLimit := blockLimit;
      this.blockNonceCache := map[];
      new;
      InitNonceCache(initialNonces, heights);
    }

    method InitNonceCache(initialNonces: map<int, seq<Nonce>>, heights: seq<int>)
      requires Enumerates(heights, initialNonces.Keys)
      requires blockNonceCache == map[] && base.nonceCache == {}
      modifies this, base
      ensures View() == Window(blockLimit, old(blockNumber), initialNonces,
                               set k, n | k in initialNonces && n in initialNonces[k] :: n)
    {
      assert forall i :: 0 <= i < |heights| ==> heights[i] in Elems(heights);
      for i := 0 to |heights|
        invariant blockNumber == old(blockNumber)
        invariant blockNonceCache == map k | k in initialNonces && k in heights[..i] :: initialNonces[k]
        invariant base.nonceCache == set k, n | k in initialNonces && k in heights[..i] && n in initialNonces[k] :: n
      {
        assert heights[..i + 1] == heights[..i] + [heights[i]];
        blockNonceCache := blockNonceCache[heights[i] := initialNonces[heights[i]]];
        base.BatchInsert(initialNonces[heights[i]]);
      }
      assert heights[..|heights|] == heights;
      assert forall k :: k in initialNonces ==> k in Elems(heights);
    }

    /** The nonce first, then the block limit. */
    method CheckNonce(tx: Transaction) returns (status: Status)
      modifies base
      ensures status == Check(View(), tx.nonce, tx.blockLimit)
      ensures View() == old(View())
    {
      status := base.CheckNonce(tx, false);
      if status != Ok {
        return;
      }
      status := CheckBlockLimitOf(tx);
    }

    method CheckBlockLimitOf(tx: Transaction) returns (status: Status)
      ensures status == Ok <==> blockNumber < tx.blockLimit <= blockNumber + blockLimit
      ensures status == CheckBlockLimit(View(), tx.blockLimit)
    {
      var number := blockNumber;
      if number >= tx.blockLimit || number + blockLimit < tx.blockLimit {
        return BlockLimitCheckFail;
      }
      return Ok;
    }

    /** A block has been committed. */
    method BatchInsert(batchId: int, nonces: seq<Nonce>)
      modifies this, base
      ensures View() == Arrive(old(View()), Block(batchId, nonces))
    {
      if blockNumber < batchId {
        blockNumber := batchId;
      }
      var batchToBeRemoved := if batchId > blockLimit then batchId - blockLimit else -1;
      base.BatchInsert(nonces);
      if batchId !in blockNonceCache {
        blockNonceCache := blockNonceCache[batchId := nonces];
      }
      if batchToBeRemoved == -1 {
        return;
      }
      if batchToBeRemoved !in blockNonceCache {
        return;
      }
      var expired := blockNonceCache[batchToBeRemoved];
      blockNonceCache := blockNonceCache - {batchToBeRemoved};
      base.BatchRemove(expired);
    }
  }

  /** `TxValidator`: the checks of an ordinary submission. */
  class TxValidator {
    const groupId: string
    const chainId: string
    const systemAddresses: set<string>
    const pool: TxPoolNonceChecker
    const ledger: LedgerNonceChecker

    constructor (groupId: string, chainId: string, systemAddresses: set<string>,
                 pool: TxPoolNonceChecker, ledger: LedgerNonceChecker)
      ensures this.groupId == groupId && this.chainId == chainId && this.systemAddresses == systemAddresses
      ensures this.pool == pool && this.ledger == ledger
    {
      this.groupId, this.chainId, this.systemAddresses := groupId, chainId, systemAddresses;
      this.pool, this.ledger := pool, ledger;
    }

    method SubmittedToChain(tx: Transaction) returns (status: Status)
      modifies ledger.base
      ensures status == PoolState.SubmittedToChain(ledger.View(), tx.View())
      ensures ledger.View() == old(ledger.View())
    {
      status := ledger.CheckNonce(tx);
    }

    /** A verified transaction has its nonce in the pool's set and its system mark set; others leave no trace. */
    method Verify(tx: Transaction) returns (status: Status)
      requires pool != ledger.base
      modifies pool, ledger.base, tx`systemTx
      ensures status == PoolState.VerifyIn(groupId, chainId, old(ledger.View()), old(pool.nonceCache), old(tx.View()))
      ensures ledger.View() == old(ledger.View())
      ensures pool.nonceCache == if status == Ok then old(pool.nonceCache) + {tx.nonce} else old(pool.nonceCache)
      ensures tx.View() == if status == Ok && tx.to in systemAddresses then old(tx.View()).(systemTx := true)
                           else old(tx.View())
    {
      if tx.invalid {
        return InvalidSignature;
      }
      if tx.groupId != groupId {
        return InvalidGroupId;
      }
      if tx.chainId != chainId {
        return InvalidChainId;
      }
      status := SubmittedToChain(tx);
      if status != Ok {
        return;
      }
      if !tx.genuine {
        return InvalidSignature;
      }
      status := pool.CheckNonce(tx, true);
      if status != Ok {
        assert pool.nonceCache == old(pool.nonceCache) + {tx.nonce} == old(pool.nonceCache);
        return;
      }
      if tx.to in systemAddresses {
        tx.systemTx := true;
      }
    }
  }
}
