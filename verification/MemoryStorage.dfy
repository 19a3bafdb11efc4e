/**
 `MemoryStorage`: the pool, updated in place. Each method is proved to do to `State()` what the function
 of the same operation in `PoolState` does; the properties of those functions are in the other modules.
 */
module MemoryStorageObject {
  import opened TxPoolTypes
  import opened TransactionObject
  import opened NonceCheckers
  import opened NonceWindow
  import opened PoolState

  /** `m_newTransactions`, raised by the `onReady` handler that the gossip worker registers. */
  class NewTxsSignal {
    var raised: bool

    constructor ()
      ensures !raised
    {
      raised := false;
    }

    method NoteNewTransactions()
      modifies this
      ensures raised
    {
      raised := true;
    }

    method Clear()
      modifies this
      ensures !raised
    {
      raised := false;
    }
  }

  /** The runs of submit callbacks. */
  class ReceiptLog {
    var entries: seq<Receipt>

    constructor ()
      ensures entries == []
    {
      entries := [];
    }

    method Append(receipt: Receipt)
      modifies this
      ensures entries == old(entries) + [receipt]
    {
      entries := entries + [receipt];
    }
  }

  /** A submission that is not rejected at once, as the class performs it. */
  lemma Submission(s: Pool, tx: Tx, callback: Option<nat>, t: Pool, status: Status)
    requires |s.table| < s.config.poolLimit && tx.hash !in s.table
    requires status == VerifyStatus(s, WithCallback(tx, callback))
    requires t == if status != Ok then s else Notify(Admit(s, MarkSystem(s, WithCallback(tx, callback))))
    ensures Submit(s, tx, callback) == Outcome(t, status)
  {
  }

  function ViewsOf(txs: seq<Transaction>): (views: seq<Tx>)
    reads txs
    ensures |views| == |txs| && forall i :: 0 <= i < |txs| ==> views[i] == txs[i].View()
  {
    seq(|txs|, i requires 0 <= i < |txs| reads txs => txs[i].View())
  }

  /** Admission happens in three places: the validator's nonce set, the table and the outstanding requests. */
  lemma AdmissionInSteps(s: Pool, tx: Tx)
    requires tx.hash !in s.table
    ensures var r := Insert(s.(poolNonces := s.poolNonces + {tx.nonce}), tx);
            r.status == Ok && Imported(r.pool, tx.hash) == Notify(Admit(s, tx))
  {
  }

  /** The two output blocks after one turn. */
  function Taking(s: Pool, txs: seq<Hash>, sysTxs: seq<Hash>, hash: Hash, taken: bool, systemTx: bool,
                  limit: nat): Sealing
  {
    if !taken then Sealing(s, txs, sysTxs, false)
    else if systemTx then Sealing(s, txs, sysTxs + [hash], |txs| + |sysTxs| + 1 >= limit)
    else Sealing(s, txs + [hash], sysTxs, |txs| + |sysTxs| + 1 >= limit)
  }

  function FlagStep(table: map<Hash, Tx>, hash: Hash, flag: bool): map<Hash, Tx> {
    if hash in table then table[hash := Flagged(table[hash], flag)] else table
  }

  /** The table once the first i keys have been flagged. */
  function FlagTo(table: map<Hash, Tx>, order: seq<Hash>, flag: bool, i: nat): (flagged: map<Hash, Tx>)
    requires i <= |order|
    ensures flagged.Keys == table.Keys
  {
    if i == 0 then table else FlagStep(FlagTo(table, order, flag, i - 1), order[i - 1], flag)
  }

  lemma {:induction false} FlagLoop(table: map<Hash, Tx>, order: seq<Hash>, flag: bool, i: nat, h: Hash)
    requires i <= |order| && h in table
    ensures FlagTo(table, order, flag, i)[h] == if h in order[..i] then Flagged(table[h], flag) else table[h]
  {
    if i > 0 {
      assert order[..i] == order[..i - 1] + [order[i - 1]];
      FlagLoop(table, order, flag, i - 1, h);
    }
  }

  lemma FlagLoopFlagsAll(table: map<Hash, Tx>, order: seq<Hash>, flag: bool)
    requires Elems(order) == table.Keys
    ensures FlagTo(table, order, flag, |order|) == PoolState.FlagAll(table, flag)
  {
    forall h | h in table ensures FlagTo(table, order, flag, |order|)[h] == Flagged(table[h], flag) {
      FlagLoop(table, order, flag, |order|, h);
      assert order[..|order|] == order && h in Elems(order);
    }
  }

  lemma FlaggingAll(s: Pool, order: seq<Hash>, flag: bool)
    requires Elems(order) == s.table.Keys
    ensures var table := FlagTo(s.table, order, flag, |order|);
            MarkAll(s, flag) == Notify(s.(table := table, sealedCount := if flag then |table| else 0))
  {
    FlagLoopFlagsAll(s.table, order, flag);
    assert |s.table.Keys| == |FlagAll(s.table, flag).Keys|;
  }

  class MemoryStorage {
    const poolLimit: nat
    /** Whether a notifier for the number of unsealed transactions is registered. */
    const notifies: bool
    const validator: TxValidator
    const signal: NewTxsSignal
    const receipts: ReceiptLog

    var txsTable: map<Hash, Transaction>
    var sealedTxsSize: nat
    var invalidTxs: set<Hash>
    var invalidNonces: set<Nonce>
    var missedTxs: set<Hash>
    /** The values of the stored transactions. */
    ghost var table: map<Hash, Tx>

    function Configuration(): Config {
      Config(poolLimit, validator.groupId, validator.chainId, validator.systemAddresses, notifies)
    }

    /** The value of the pool. */
    ghost function State(): Pool
      reads this, validator.pool, validator.ledger, validator.ledger.base, signal, receipts
    {
      Pool(Configuration(), table, sealedTxsSize, invalidTxs, invalidNonces, missedTxs,
           validator.pool.nonceCache, validator.ledger.View(), signal.raised, receipts.entries)
    }

    /** The table holds each transaction under its own hash, so no object is stored twice. */
    ghost predicate Stores()
      reads this`txsTable, this`table, txsTable.Values
    {
      && table.Keys == txsTable.Keys
      && forall h :: h in txsTable ==> Holds(txsTable[h], h)
    }

    ghost predicate Holds(tx: Transaction, h: Hash)
      requires h in table
      reads this`txsTable, this`table, txsTable.Values
    {
      tx in txsTable.Values && tx.hash == h && tx.View() == table[h]
    }

    ghost predicate Valid()
      reads this`txsTable, this`table, txsTable.Values
    {
      Stores() && validator.pool != validator.ledger.base
    }

    /** An object of the caller's own, as decoding delivers it. */
    ghost predicate Unstored(tx: Transaction)
      reads this`txsTable
    {
      tx.hash in txsTable ==> tx != txsTable[tx.hash]
    }

    /** What a removal returns, the stored object as it was or null, and that the others stay where they are. */
    ghost predicate Took(tx: Transaction?, s: Pool, objects: map<Hash, Transaction>, hash: Hash)
      reads this`txsTable, if tx == null then {} else {tx}
    {
      && txsTable == objects - {hash}
      && (if hash in objects && hash in s.table then tx == objects[hash] && tx.View() == s.table[hash] else tx == null)
    }

    constructor (poolLimit: nat, notifies: bool, validator: TxValidator)
      requires validator.pool != validator.ledger.base
      ensures Valid() && fresh(signal) && fresh(receipts)
      ensures this.validator == validator && this.poolLimit == poolLimit && this.notifies == notifies
      ensures State() == Pool(Configuration(), map[], 0, {}, {}, {},
                              validator.pool.nonceCache, validator.ledger.View(), false, [])
    {
      this.poolLimit, this.notifies, this.validator := poolLimit, notifies, validator;
      signal := new NewTxsSignal();
      receipts := new ReceiptLog();
      txsTable, table, sealedTxsSize := map[], map[], 0;
      invalidTxs, invalidNonces, missedTxs := {}, {}, {};
    }

    // ----- sizes -----

    method Size() returns (size: nat)
      requires Valid()
      ensures size == |State().table|
    {
      size := |txsTable|;
      assert |table.Keys| == |txsTable.Keys|;
    }

    method UnSealedTxsSize() returns (size: nat)
      requires Valid()
      modifies this`sealedTxsSize
      ensures Valid()
      ensures State() == Clamp(old(State())) && size == UnsealedSize(old(State()))
    {
      hide Transaction.View;
      var total := Size();
      if total < sealedTxsSize {
        sealedTxsSize := total;
        return 0;
      }
      return total - sealedTxsSize;
    }

    method NotifyUnsealedTxsSize()
      requires Valid()
      modifies this`sealedTxsSize
      ensures Valid()
      ensures State() == Notify(old(State()))
    {
      if !notifies {
        return;
      }
      var size := UnSealedTxsSize();
    }

    method Exist(hash: Hash) returns (found: bool)
      requires Valid()
      ensures found <==> hash in State().table
    {
      found := hash in txsTable;
    }

    /** Set the marks of a stored transaction. */
    method Remark(hash: Hash, sealed: bool, batchId: int, batchHash: Hash)
      requires Valid() && hash in txsTable
      modifies this`table, txsTable.Values`sealed, txsTable.Values`batchId, txsTable.Values`batchHash
      ensures Valid()
      ensures State() == old(State()).(table := old(table)[hash :=
                           old(table)[hash].(sealed := sealed, batchId := batchId, batchHash := batchHash)])
    {
      hide Transaction.View;
      txsTable[hash].SetMarks(sealed, batchId, batchHash);
      table := table[hash := table[hash].(sealed := sealed, batchId := batchId, batchHash := batchHash)];
    }

    // ----- submitting -----

    method InsertTx(tx: Transaction) returns (status: Status)
      requires Valid()
      modifies this`txsTable, this`table, this`sealedTxsSize, signal
      ensures Valid()
      ensures var r := Insert(old(State()), tx.View()); State() == r.pool && status == r.status
      ensures txsTable == if status == Ok then old(txsTable)[tx.hash := tx] else old(txsTable)
    {
      if tx.hash in txsTable {
        return AlreadyInTxPool;
      }
      txsTable := txsTable[tx.hash := tx];
      table := table[tx.hash := tx.View()];
      signal.NoteNewTransactions();
      NotifyUnsealedTxsSize();
      return Ok;
    }

    /** Insert, and no longer wait for the transaction. */
    method InsertRequested(tx: Transaction) returns (status: Status)
      requires Valid()
      modifies this`txsTable, this`table, this`sealedTxsSize, this`missedTxs, signal
      ensures Valid()
      ensures var r := Insert(old(State()), tx.View()); State() == Imported(r.pool, tx.hash) && status == r.status
      ensures txsTable == if status == Ok then old(txsTable)[tx.hash := tx] else old(txsTable)
    {
      hide Transaction.View;
      status := InsertTx(tx);
      missedTxs := missedTxs - {tx.hash};
    }

    /** The callback is attached before anything is checked; the stored transactions are not touched. */
    method AttachCallback(tx: Transaction, callback: Option<nat>)
      requires Valid() && Unstored(tx)
      modifies tx`callback
      ensures Valid()
      ensures tx.View() == WithCallback(old(tx.View()), callback)
    {
      if callback.Some? {
        tx.callback := callback;
      }
    }

    /** The part of `verifyAndSubmitTransaction` after the duplicate check. */
    method VerifyAndInsert(tx: Transaction) returns (status: Status)
      requires Valid() && tx.hash !in txsTable
      modifies this`txsTable, this`table, this`sealedTxsSize, this`missedTxs, signal
      modifies validator.pool, validator.ledger.base, tx`systemTx
      ensures Valid()
      ensures status == VerifyStatus(old(State()), old(tx.View()))
      ensures State() == if status != Ok then old(State())
                         else Notify(Admit(old(State()), MarkSystem(old(State()), old(tx.View()))))
      ensures txsTable == if status == Ok then old(txsTable)[tx.hash := tx] else old(txsTable)
    {
      hide Transaction.View;
      ghost var s, view := State(), tx.View();
      status := validator.Verify(tx);
      if status == Ok {
        assert State() == s.(poolNonces := s.poolNonces + {tx.nonce}) && tx.View() == MarkSystem(s, view);
        status := InsertRequested(tx);
        AdmissionInSteps(s, MarkSystem(s, view));
      } else {
        assert State() == s;
      }
    }

    method VerifyAndSubmitTransaction(tx: Transaction, callback: Option<nat>) returns (status: Status)
      requires Valid() && Unstored(tx)
      modifies this`txsTable, this`table, this`sealedTxsSize, this`missedTxs, signal
      modifies validator.pool, validator.ledger.base, tx`callback, tx`systemTx
      ensures Valid()
      ensures var r := Submit(old(State()), old(tx.View()), callback); State() == r.pool && status == r.status
      ensures txsTable == if status == Ok then old(txsTable)[tx.hash := tx] else old(txsTable)
    {
      hide Transaction.View;
      ghost var s, view := State(), tx.View();
      var size := Size();
      if size >= poolLimit {
        return TxPoolIsFull;
      }
      AttachCallback(tx, callback);
      if tx.hash in txsTable {
        return AlreadyInTxPool;
      }
      assert State() == s;
      status := VerifyAndInsert(tx);
      Submission(s, view, callback, State(), status);
    }

    method NotifyInvalidReceipt(hash: Hash, status: Status, callback: Option<nat>)
      requires Valid()
      modifies receipts
      ensures Valid()
      ensures State() == NotifyInvalid(old(State()), hash, status, callback)
    {
      if callback.None? {
        return;
      }
      receipts.Append(Rejected(callback.value, hash, status));
    }

    /** `submitTransaction` on encoded data; `decoded` is null when decoding throws. */
    method SubmitTransaction(decoded: Transaction?, callback: Option<nat>) returns (status: Status)
      requires Valid()
      requires decoded != null ==> Unstored(decoded)
      modifies this`txsTable, this`table, this`sealedTxsSize, this`missedTxs, signal, receipts
      modifies validator.pool, validator.ledger.base, if decoded == null then {} else {decoded}
      ensures Valid()
      ensures var view := if decoded == null then None else Some(old(decoded.View()));
              var r := SubmitData(old(State()), view, callback);
              State() == r.pool && status == r.status
    {
      if decoded == null {
        NotifyInvalidReceipt(ZERO_HASH, Malform, callback);
        return Malform;
      }
      ghost var r := Submit(State(), decoded.View(), callback);
      status := VerifyAndSubmitTransaction(decoded, callback);
      assert State() == r.pool;
      if status != Ok {
        NotifyInvalidReceipt(decoded.hash, status, callback);
      }
    }

    /** Claim a stored transaction for the proposal that `tx` carries. */
    method ClaimStored(tx: Transaction)
      requires Valid() && tx.hash in txsTable
      modifies this`table, this`sealedTxsSize
      modifies txsTable.Values`sealed, txsTable.Values`batchId, txsTable.Values`batchHash
      ensures Valid()
      ensures var s, v := old(State()), old(tx.View());
              var held := s.table[v.hash];
              State() == s.(table := s.table[v.hash := Claim(held, v)], sealedCount := CountSealing(s, held))
    {
      if !txsTable[tx.hash].sealed {
        sealedTxsSize := sealedTxsSize + 1;
      }
      Remark(tx.hash, true, tx.batchId, tx.batchHash);
    }

    method SealBeforeImport(tx: Transaction)
      requires Valid() && tx.hash !in txsTable
      modifies this`sealedTxsSize, tx`sealed
      ensures Valid()
      ensures State() == old(State()).(sealedCount := CountSealing(old(State()), old(tx.View())))
      ensures tx.View() == old(tx.View()).(sealed := true)
    {
      if !tx.sealed {
        sealedTxsSize := sealedTxsSize + 1;
        tx.sealed := true;
      }
    }

    /** Import a transaction that is not stored, sealed. */
    method ForceInsert(tx: Transaction)
      requires Valid() && tx.hash !in txsTable
      modifies this`txsTable, this`table, this`sealedTxsSize, this`missedTxs, signal, tx`sealed
      ensures Valid()
      ensures var s, v := old(State()), old(tx.View());
              State() == Imported(Insert(s.(sealedCount := CountSealing(s, v)), v.(sealed := true)).pool, v.hash)
      ensures txsTable == old(txsTable)[tx.hash := tx]
    {
      SealBeforeImport(tx);
      var status := InsertRequested(tx);
    }

    method EnforceSubmitTransaction(tx: Transaction) returns (status: Status)
      requires Valid() && Unstored(tx)
      modifies this`txsTable, this`table, this`sealedTxsSize, this`missedTxs, signal, validator.ledger.base
      modifies tx`sealed, txsTable.Values`sealed, txsTable.Values`batchId, txsTable.Values`batchHash
      ensures Valid()
      ensures var r := Enforce(old(State()), old(tx.View())); State() == r.pool && status == r.status
      ensures txsTable == if tx.hash in old(txsTable) || status != Ok then old(txsTable)
                          else old(txsTable)[tx.hash := tx]
    {
      status := validator.SubmittedToChain(tx);
      assert State() == old(State());
      if status == NonceCheckFail {
        return;
      }
      if tx.hash in txsTable {
        status := EnforceStored(tx);
        return;
      }
      ForceInsert(tx);
      return Ok;
    }

    /** A stored transaction is claimed, kept, or left to the proposal that has claimed it. */
    method EnforceStored(tx: Transaction) returns (status: Status)
      requires Valid() && tx.hash in txsTable
      requires PoolState.SubmittedToChain(State().window, tx.View()) != NonceCheckFail
      modifies this`table, this`sealedTxsSize
      modifies txsTable.Values`sealed, txsTable.Values`batchId, txsTable.Values`batchHash
      ensures Valid()
      ensures var r := Enforce(old(State()), old(tx.View())); State() == r.pool && status == r.status
    {
      var held := txsTable[tx.hash];
      assert Holds(held, tx.hash);
      if !held.sealed || held.batchHash == ZERO_HASH {
        ClaimStored(tx);
        return Ok;
      }
      if held.batchId == tx.batchId && held.batchHash == tx.batchHash {
        return Ok;
      }
      return AlreadyInTxPool;
    }

    method InsertShown(tx: Transaction, ghost view: Tx)
      requires Valid() && tx.View() == view
      modifies this`txsTable, this`table, this`sealedTxsSize, signal
      ensures Valid()
      ensures State() == Insert(old(State()), view).pool
    {
      var status := InsertTx(tx);
    }

    method InsertAll(txs: seq<Transaction>)
      requires Valid()
      modifies this`txsTable, this`table, this`sealedTxsSize, signal
      ensures Valid()
      ensures State() == InsertTo(old(State()), old(ViewsOf(txs)), |txs|)
    {
      hide Insert;
      ghost var s, views := State(), ViewsOf(txs);
      for i := 0 to |txs|
        invariant Valid()
        invariant State() == InsertTo(s, views, i)
      {
        InsertShown(txs[i], views[i]);
      }
    }

    method ForgetRequests(txs: seq<Transaction>)
      requires Valid()
      modifies this`missedTxs
      ensures Valid()
      ensures missedTxs == old(missedTxs) - Elems(Hashes(ViewsOf(txs)))
    {
      ghost var hashes := Hashes(ViewsOf(txs));
      for i := 0 to |txs|
        invariant missedTxs == old(missedTxs) - Elems(hashes[..i])
      {
        assert hashes[..i + 1] == hashes[..i] + [txs[i].hash];
        missedTxs := missedTxs - {txs[i].hash};
      }
      assert hashes[..|txs|] == hashes;
    }

    method BatchInsert(txs: seq<Transaction>)
      requires Valid()
      modifies this`txsTable, this`table, this`sealedTxsSize, this`missedTxs, signal
      ensures Valid()
      ensures State() == PoolState.BatchInsert(old(State()), old(ViewsOf(txs)))
    {
      ghost var hashes := Hashes(ViewsOf(txs));
      InsertAll(txs);
      assert hashes == Hashes(ViewsOf(txs));
      ForgetRequests(txs);
    }

    // ----- removing -----

    /** The removed transaction, null if there was none. */
    method RemoveWithoutLock(hash: Hash) returns (tx: Transaction?)
      requires Valid()
      modifies this`txsTable, this`table, this`sealedTxsSize
      ensures Valid()
      ensures Took(tx, old(State()), old(txsTable), hash)
      ensures State() == PoolState.Remove(old(State()), hash).pool
    {
      hide Transaction.View;
      if hash !in txsTable {
        return null;
      }
      tx := txsTable[hash];
      txsTable := txsTable - {hash};
      table := table - {hash};
      if tx.sealed {
        sealedTxsSize := Decrement(sealedTxsSize);
      }
    }

    method Remove(hash: Hash) returns (tx: Transaction?)
      requires Valid()
      modifies this`txsTable, this`table, this`sealedTxsSize
      ensures Valid()
      ensures Took(tx, old(State()), old(txsTable), hash)
      ensures State() == RemoveTx(old(State()), hash).pool
    {
      tx := RemoveWithoutLock(hash);
      NotifyUnsealedTxsSize();
    }

    method NotifyTxResult(tx: Transaction, result: TxResult)
      requires Valid()
      modifies receipts
      ensures Valid()
      ensures State() == NotifyResult(old(State()), tx.View(), result)
    {
      if tx.callback.None? {
        return;
      }
      receipts.Append(Finished(tx.callback.value, result));
    }

    method RemoveSubmittedTxWithoutLock(result: TxResult) returns (tx: Transaction?)
      requires Valid()
      modifies this`txsTable, this`table, this`sealedTxsSize, receipts
      ensures Valid()
      ensures Took(tx, old(State()), old(txsTable), result.hash)
      ensures State() == RemoveSubmitted(old(State()), result).pool
    {
      tx := RemoveWithoutLock(result.hash);
      if tx == null {
        return null;
      }
      NotifyTxResult(tx, result);
    }

    method RemoveSubmittedTx(result: TxResult) returns (tx: Transaction?)
      requires Valid()
      modifies this`txsTable, this`table, this`sealedTxsSize, receipts
      ensures Valid()
      ensures Took(tx, old(State()), old(txsTable), result.hash)
      ensures State() == PoolState.RemoveSubmittedTx(old(State()), result).pool
    {
      tx := Remove(result.hash);
      if tx == null {
        return null;
      }
      NotifyTxResult(tx, result);
    }

    /** The transactions of a committed block leave the pool; their nonces are collected. */
    method RemoveCommitted(results: seq<TxResult>) returns (nonces: seq<Nonce>)
      requires Valid()
      modifies this`txsTable, this`table, this`sealedTxsSize, receipts
      ensures Valid()
      ensures CommitTo(old(State()), results, |results|) == Committing(State(), nonces)
    {
      ghost var s := State();
      nonces := [];
      for i := 0 to |results|
        invariant Valid()
        invariant CommitTo(s, results, i) == Committing(State(), nonces)
      {
        nonces := RemoveOne(results[i], nonces);
      }
    }

    method RemoveOne(result: TxResult, nonces: seq<Nonce>) returns (more: seq<Nonce>)
      requires Valid()
      modifies this`txsTable, this`table, this`sealedTxsSize, receipts
      ensures Valid()
      ensures CommitStep(Committing(old(State()), nonces), result) == Committing(State(), more)
    {
      var tx := RemoveSubmittedTxWithoutLock(result);
      if tx == null && result.nonce != NO_NONCE {
        return nonces + [result.nonce];
      } else if tx != null {
        return nonces + [tx.nonce];
      }
      return nonces;
    }

    /** The ledger learns the nonces before the pool forgets them. */
    method HandOver(batchId: int, nonces: seq<Nonce>)
      requires Valid()
      modifies validator.ledger, validator.ledger.base, validator.pool
      ensures Valid()
      ensures State() == old(State()).(window := Arrive(old(State()).window, Block(batchId, nonces)),
                                       poolNonces := old(State()).poolNonces - Elems(nonces))
    {
      validator.ledger.BatchInsert(batchId, nonces);
      validator.pool.BatchRemove(nonces);
    }

    method BatchRemove(batchId: int, results: seq<TxResult>)
      requires Valid()
      modifies this`txsTable, this`table, this`sealedTxsSize, receipts
      modifies validator.ledger, validator.ledger.base, validator.pool
      ensures Valid()
      ensures State() == Commit(old(State()), batchId, results)
    {
      var nonces := RemoveCommitted(results);
      NotifyUnsealedTxsSize();
      HandOver(batchId, nonces);
    }

    method RemoveInvalidTxs(order: seq<Hash>)
      requires Valid() && Enumerates(order, invalidTxs)
      modifies this`txsTable, this`table, this`sealedTxsSize, this`invalidTxs, this`invalidNonces
      modifies receipts, validator.pool
      ensures Valid()
      ensures State() == Clean(old(State()), order)
    {
      if invalidTxs == {} {
        return;
      }
      ghost var s := State();
      for i := 0 to |order|
        invariant Valid()
        invariant State() == CleanTo(s, order, i)
      {
        var tx := RemoveSubmittedTxWithoutLock(Expiry(order[i]));
      }
      NotifyUnsealedTxsSize();
      ForgetInvalid();
    }

    method ForgetInvalid()
      requires Valid()
      modifies this`invalidTxs, this`invalidNonces, validator.pool
      ensures Valid()
      ensures var s := old(State());
              State() == s.(poolNonces := s.poolNonces - s.invalidNonces, invalidTxs := {}, invalidNonces := {})
    {
      validator.pool.BatchRemoveSet(invalidNonces);
      invalidTxs, invalidNonces := {}, {};
    }

    // ----- fetching -----

    method FetchTxs(request: seq<Hash>) returns (txs: seq<Transaction>, missed: seq<Hash>)
      requires Valid()
      ensures Fetch(State().table, request) == Fetched(ViewsOf(txs), missed)
      ensures forall i :: 0 <= i < |txs| ==> txs[i] in txsTable.Values
    {
      txs, missed := [], [];
      for i := 0 to |request|
        invariant FetchTo(table, request, i) == Fetched(ViewsOf(txs), missed)
        invariant forall j :: 0 <= j < |txs| ==> txs[j] in txsTable.Values
      {
        if request[i] !in txsTable {
          missed := missed + [request[i]];
        } else {
          ghost var views := ViewsOf(txs);
          var tx := txsTable[request[i]];
          assert Holds(tx, request[i]);
          txs := txs + [tx];
          assert ViewsOf(txs) == views + [tx.View()];
        }
      }
    }

    method MarkSynced(hash: Hash)
      requires Valid() && hash in txsTable
      modifies this`table, txsTable.Values`synced
      ensures Valid()
      ensures State() == HandOne(old(State()), hash)
    {
      hide Transaction.View;
      txsTable[hash].SetSynced();
      table := table[hash := table[hash].(synced := true)];
    }

    /** One turn of the loop of `fetchNewTxs`: whether the transaction is handed out. */
    method HandTx(hash: Hash, limit: nat, ghost picked: seq<Hash>) returns (isNew: bool)
      requires Valid()
      modifies this`table, txsTable.Values`synced
      ensures Valid() && (isNew ==> hash in txsTable)
      ensures HandStep(Handing(old(State()), picked, false), hash, limit) ==
              if isNew then Handing(State(), picked + [hash], |picked| + 1 >= limit)
              else Handing(State(), picked, false)
    {
      if hash !in txsTable {
        return false;
      }
      assert Holds(txsTable[hash], hash);
      if txsTable[hash].synced {
        return false;
      }
      MarkSynced(hash);
      return true;
    }

    /** The objects that the table holds under these hashes. */
    ghost predicate Stored(txs: seq<Transaction>, hashes: seq<Hash>)
      reads this`txsTable
    {
      |txs| == |hashes| && forall i :: 0 <= i < |txs| ==> hashes[i] in txsTable && txsTable[hashes[i]] == txs[i]
    }

    lemma StoredGrows(txs: seq<Transaction>, hashes: seq<Hash>, hash: Hash)
      requires Stored(txs, hashes) && hash in txsTable
      ensures Stored(txs + [txsTable[hash]], hashes + [hash])
    {
    }

    /** `order` is the order in which the table lists its keys; `picked` the hashes of the result. */
    method FetchNewTxs(order: seq<Hash>, limit: nat) returns (txs: seq<Transaction>, ghost picked: seq<Hash>)
      requires Valid()
      modifies this`table, txsTable.Values`synced
      ensures Valid()
      ensures Stored(txs, picked)
      ensures var r := FetchNew(old(State()), order, limit); State() == r.pool && picked == r.txs
    {
      ghost var s := State();
      txs, picked := [], [];
      for i := 0 to |order|
        invariant Valid() && Stored(txs, picked)
        invariant HandTo(s, order, limit, i) == Handing(State(), picked, false)
      {
        var isNew := HandTx(order[i], limit, picked);
        if !isNew {
          continue;
        }
        StoredGrows(txs, picked, order[i]);
        txs, picked := txs + [txsTable[order[i]]], picked + [order[i]];
        if |txs| >= limit {
          FullHandStays(s, order, limit, i + 1, |order|);
          break;
        }
      }
      assert FetchNew(s, order, limit).(full := false) == Handing(State(), picked, false);
    }

    method TakeCallbackOf(hash: Hash)
      requires Valid() && hash in txsTable
      modifies this`table, txsTable.Values`callback
      ensures Valid()
      ensures State() == old(State()).(table := old(table)[hash := old(table)[hash].(callback := None)])
    {
      hide Transaction.View;
      txsTable[hash].TakeSubmitCallback();
      table := table[hash := table[hash].(callback := None)];
    }

    /** Drop a committed transaction that is still here, without its callback. */
    method DropCommittedTx(hash: Hash)
      requires Valid() && hash in txsTable
      modifies this`table, this`invalidTxs, txsTable.Values`callback
      ensures Valid()
      ensures State() == DropCommitted(old(State()), hash)
    {
      hide Transaction.View;
      TakeCallbackOf(hash);
      assert Holds(txsTable[hash], hash);
      RecordInvalid(hash, txsTable[hash].nonce);
    }

    method RecordInvalid(hash: Hash, nonce: Nonce)
      requires Valid()
      modifies this`invalidTxs
      ensures Valid()
      ensures State() == old(State()).(invalidTxs := old(invalidTxs) + {hash, AsHash(nonce)})
    {
      hide Transaction.View;
      invalidTxs := invalidTxs + {hash};
      invalidTxs := invalidTxs + {AsHash(nonce)};
    }

    method DropExpiredTx(hash: Hash)
      requires Valid() && hash in txsTable
      modifies this`invalidTxs, this`invalidNonces
      ensures Valid()
      ensures State() == DropExpired(old(State()), hash)
    {
      hide Transaction.View;
      invalidTxs := invalidTxs + {hash};
      invalidNonces := invalidNonces + {txsTable[hash].nonce};
    }

    method SealTx(hash: Hash)
      requires Valid() && hash in txsTable
      modifies this`table, this`sealedTxsSize
      modifies txsTable.Values`sealed, txsTable.Values`batchId, txsTable.Values`batchHash
      ensures Valid()
      ensures State() == SealOne(old(State()), hash)
    {
      hide Transaction.View;
      if !txsTable[hash].sealed {
        sealedTxsSize := sealedTxsSize + 1;
      }
      Remark(hash, true, -1, ZERO_HASH);
    }

    /** Ask the ledger checker again: committed and expired transactions are dropped, unless sealed when expired. */
    method DropIfStale(hash: Hash) returns (dropped: bool)
      requires Valid() && hash in txsTable
      modifies this`table, this`invalidTxs, this`invalidNonces, validator.ledger.base, txsTable.Values`callback
      ensures Valid()
      ensures var s := old(State());
              var status := PoolState.SubmittedToChain(s.window, s.table[hash]);
              if status == NonceCheckFail then dropped && State() == DropCommitted(s, hash)
              else if status == BlockLimitCheckFail && !s.table[hash].sealed then
                dropped && State() == DropExpired(s, hash)
              else !dropped && State() == s
    {
      ghost var s := State();
      var tx := txsTable[hash];
      assert Holds(tx, hash);
      var status := validator.SubmittedToChain(tx);
      assert State() == s;
      if status == NonceCheckFail {
        DropCommittedTx(hash);
        return true;
      }
      if status == BlockLimitCheckFail && !tx.sealed {
        DropExpiredTx(hash);
        return true;
      }
      return false;
    }

    /** One turn of the loop of `batchFetchTxs`: whether the transaction is handed to the sealer. */
    method ConsiderTx(hash: Hash, q: Request, ghost txs: seq<Hash>, ghost sysTxs: seq<Hash>) returns (taken: bool)
      requires Valid()
      modifies this`table, this`sealedTxsSize, this`invalidTxs, this`invalidNonces, validator.ledger.base
      modifies txsTable.Values`sealed, txsTable.Values`batchId, txsTable.Values`batchHash, txsTable.Values`callback
      ensures Valid() && (taken ==> hash in txsTable)
      ensures SealStep(Sealing(old(State()), txs, sysTxs, false), hash, q) ==
              Taking(State(), txs, sysTxs, hash, taken, taken && txsTable[hash].systemTx, q.limit)
    {
      hide Transaction.View;
      hide PoolState.SubmittedToChain;
      if hash !in txsTable || hash in invalidTxs {
        return false;
      }
      ghost var s := State();
      var dropped := DropIfStale(hash);
      if dropped {
        return false;
      }
      assert State() == s && Holds(txsTable[hash], hash);
      taken := OfferTx(hash, q);
    }

    method OfferTx(hash: Hash, q: Request) returns (taken: bool)
      requires Valid() && hash in txsTable
      modifies this`table, this`sealedTxsSize
      modifies txsTable.Values`sealed, txsTable.Values`batchId, txsTable.Values`batchHash
      ensures Valid()
      ensures taken <==> !(hash in q.avoid || (q.avoidDuplicate && old(table)[hash].sealed))
      ensures State() == if taken then SealOne(old(State()), hash) else old(State())
    {
      var tx := txsTable[hash];
      assert Holds(tx, hash);
      if hash in q.avoid {
        return false;
      }
      if q.avoidDuplicate && tx.sealed {
        return false;
      }
      SealTx(hash);
      return true;
    }

    /**
     `order` is the order in which the table lists its keys; the results are the hashes of the metadata
     appended to the two blocks.
     */
    method BatchFetchTxs(order: seq<Hash>, q: Request) returns (txs: seq<Hash>, sysTxs: seq<Hash>)
      requires Valid()
      modifies this`table, this`sealedTxsSize, this`invalidTxs, this`invalidNonces, validator.ledger.base
      modifies txsTable.Values`sealed, txsTable.Values`batchId, txsTable.Values`batchHash, txsTable.Values`callback
      ensures Valid()
      ensures var r := Seal(old(State()), order, q); State() == r.pool && txs == r.txs && sysTxs == r.sysTxs
    {
      hide Transaction.View;
      ghost var s := State();
      txs, sysTxs := [], [];
      for i := 0 to |order|
        invariant Valid()
        invariant SealTo(s, order, q, i) == Sealing(State(), txs, sysTxs, false)
      {
        var taken := ConsiderTx(order[i], q, txs, sysTxs);
        if !taken {
          continue;
        }
        if txsTable[order[i]].systemTx {
          sysTxs := sysTxs + [order[i]];
        } else {
          txs := txs + [order[i]];
        }
        if |txs| + |sysTxs| >= q.limit {
          FullSealStays(s, order, q, i + 1, |order|);
          break;
        }
      }
      assert SealTo(s, order, q, |order|).(full := false) == Sealing(State(), txs, sysTxs, false);
      NotifyUnsealedTxsSize();
    }

    /** The peer is noted on the stored transactions; the others are asked for, once. */
    method FilterUnknownTxs(hashes: seq<Hash>, peer: NodeId) returns (unknown: seq<Hash>)
      requires Valid()
      modifies this`missedTxs, txsTable.Values`known
      ensures Valid()
      ensures Filter(old(State()), hashes) == Filtered(State(), unknown)
      ensures forall h :: h in txsTable ==>
                txsTable[h].known == if h in hashes then old(txsTable[h].known) + {peer} else old(txsTable[h].known)
    {
      hide Transaction.View;
      NoteKnown(hashes, peer);
      unknown := RequestUnknown(hashes);
    }

    method RequestUnknown(hashes: seq<Hash>) returns (unknown: seq<Hash>)
      requires Valid()
      modifies this`missedTxs
      ensures Valid()
      ensures Filter(old(State()), hashes) == Filtered(State(), unknown)
    {
      hide Transaction.View;
      ghost var s := State();
      unknown := [];
      for i := 0 to |hashes|
        invariant FilterTo(s, hashes, i) == Filtering(missedTxs, unknown)
      {
        if hashes[i] in txsTable || hashes[i] in missedTxs {
          continue;
        }
        unknown := unknown + [hashes[i]];
        missedTxs := missedTxs + {hashes[i]};
      }
      if |missedTxs| >= poolLimit {
        missedTxs := {};
      }
    }

    method NoteKnown(hashes: seq<Hash>, peer: NodeId)
      requires Valid()
      modifies txsTable.Values`known
      ensures Valid()
      ensures forall h :: h in txsTable ==>
                txsTable[h].known == if h in hashes then old(txsTable[h].known) + {peer} else old(txsTable[h].known)
    {
      for i := 0 to |hashes|
        invariant forall h :: h in txsTable ==>
          txsTable[h].known == if h in hashes[..i] then old(txsTable[h].known) + {peer} else old(txsTable[h].known)
      {
        assert hashes[..i + 1] == hashes[..i] + [hashes[i]];
        if hashes[i] in txsTable {
          assert Holds(txsTable[hashes[i]], hashes[i]);
          txsTable[hashes[i]].AppendKnownNode(peer);
        }
      }
      assert hashes[..|hashes|] == hashes;
    }

    // ----- marking -----

    method Unseal(hash: Hash)
      requires Valid() && hash in txsTable
      modifies this`table, txsTable.Values`sealed
      ensures Valid()
      ensures State() == old(State()).(table := old(table)[hash := old(table)[hash].(sealed := false)])
    {
      hide Transaction.View;
      txsTable[hash].SetSealed(false);
      table := table[hash := table[hash].(sealed := false)];
    }

    method MarkTx(hash: Hash, b: Batch, flag: bool)
      requires Valid()
      modifies this`table, this`sealedTxsSize
      modifies txsTable.Values`sealed, txsTable.Values`batchId, txsTable.Values`batchHash
      ensures Valid()
      ensures State() == MarkStep(old(State()), hash, b, flag)
    {
      if hash !in txsTable {
        return;
      }
      var tx := txsTable[hash];
      assert Holds(tx, hash);
      if tx.batchHash != ZERO_HASH && tx.batchHash != b.hash && !flag {
        return;
      }
      if flag && !tx.sealed {
        sealedTxsSize := sealedTxsSize + 1;
      }
      if !flag && tx.sealed {
        sealedTxsSize := Decrement(sealedTxsSize);
      }
      if flag {
        Remark(hash, true, b.id, b.hash);
      } else {
        Unseal(hash);
      }
    }

    method BatchMarkTxs(hashes: seq<Hash>, b: Batch, flag: bool)
      requires Valid()
      modifies this`table, this`sealedTxsSize
      modifies txsTable.Values`sealed, txsTable.Values`batchId, txsTable.Values`batchHash
      ensures Valid()
      ensures State() == Mark(old(State()), hashes, b, flag)
    {
      ghost var s := State();
      for i := 0 to |hashes|
        invariant Valid()
        invariant State() == MarkTo(s, hashes, b, flag, i)
      {
        MarkTx(hashes[i], b, flag);
      }
    }

    method FlagTx(hash: Hash, flag: bool)
      requires Valid()
      modifies this`table, txsTable.Values`sealed, txsTable.Values`batchId, txsTable.Values`batchHash
      ensures Valid()
      ensures State() == old(State()).(table := FlagStep(old(table), hash, flag))
    {
      if hash !in txsTable {
        return;
      }
      var tx := txsTable[hash];
      assert Holds(tx, hash);
      if flag {
        Remark(hash, true, tx.batchId, tx.batchHash);
      } else {
        Remark(hash, false, -1, ZERO_HASH);
      }
    }

    method FlagEach(order: seq<Hash>, flag: bool)
      requires Valid()
      modifies this`table, txsTable.Values`sealed, txsTable.Values`batchId, txsTable.Values`batchHash
      ensures Valid()
      ensures State() == old(State()).(table := FlagTo(old(table), order, flag, |order|))
    {
      hide Transaction.View;
      ghost var s := State();
      for i := 0 to |order|
        invariant Valid()
        invariant State() == s.(table := FlagTo(s.table, order, flag, i))
      {
        FlagTx(order[i], flag);
      }
    }

    method Recount(flag: bool)
      requires Valid()
      modifies this`sealedTxsSize
      ensures Valid()
      ensures State() == Notify(old(State()).(sealedCount := if flag then |table| else 0))
    {
      hide Notify, Transaction.View;
      var size := Size();
      sealedTxsSize := if flag then size else 0;
      NotifyUnsealedTxsSize();
    }

    method FlagAndCount(order: seq<Hash>, flag: bool)
      requires Valid()
      modifies this`table, this`sealedTxsSize
      modifies txsTable.Values`sealed, txsTable.Values`batchId, txsTable.Values`batchHash
      ensures Valid()
      ensures var flagged := FlagTo(old(table), order, flag, |order|);
              State() == Notify(old(State()).(table := flagged, sealedCount := if flag then |flagged| else 0))
    {
      hide Transaction.View;
      FlagEach(order, flag);
      Recount(flag);
    }

    /** `order` is the order in which the table lists its keys. */
    method BatchMarkAllTxs(order: seq<Hash>, flag: bool)
      requires Valid() && Elems(order) == txsTable.Keys
      modifies this`table, this`sealedTxsSize
      modifies txsTable.Values`sealed, txsTable.Values`batchId, txsTable.Values`batchHash
      ensures Valid()
      ensures State() == MarkAll(old(State()), flag)
    {
      FlaggingAll(State(), order, flag);
      FlagAndCount(order, flag);
    }

    // ----- verifying proposals -----

    /** `batchVerifyProposal` on a block. */
    method MissingOf(hashes: seq<Hash>) returns (missed: seq<Hash>)
      requires Valid()
      ensures missed == Missing(State().table, hashes)
    {
      missed := [];
      for i := 0 to |hashes|
        invariant missed == MissingTo(table, hashes, i)
      {
        if hashes[i] !in txsTable {
          missed := missed + [hashes[i]];
        }
      }
    }

    /** `batchVerifyProposal` on a list. */
    method BatchVerifyProposal(hashes: seq<Hash>) returns (ok: bool)
      requires Valid()
      ensures ok <==> HasAll(State().table, hashes)
    {
      for i := 0 to |hashes|
        invariant forall j :: 0 <= j < i ==> hashes[j] in table
      {
        if hashes[i] !in txsTable {
          return false;
        }
      }
      return true;
    }
  }
}
