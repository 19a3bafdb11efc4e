/**
 How transactions leave the pool: what a removal, a commit and a clean-up take away, what they leave, and
 which nonces a commit records.
 */
module Removal {
  import opened TxPoolTypes
  import opened NonceWindow
  import opened PoolState

  /** t is s without the transactions of `gone`; marks, nonces and records are as they were. */
  ghost predicate Without(s: Pool, t: Pool, gone: set<Hash>) {
    && t.table == s.table - gone
    && SameChain(s, t) && t.poolNonces == s.poolNonces && t.missed == s.missed && t.newTxs == s.newTxs
    && t.invalidTxs == s.invalidTxs && t.invalidNonces == s.invalidNonces
  }

  /** The callbacks run so far have run, in their order. */
  ghost predicate ReceiptsKept(s: Pool, t: Pool) {
    |s.receipts| <= |t.receipts| && t.receipts[..|s.receipts|] == s.receipts
  }

  lemma RemoveTakesOne(s: Pool, result: TxResult)
    ensures var r := RemoveSubmitted(s, result);
            && Without(s, r.pool, {result.hash}) && ReceiptsKept(s, r.pool)
            && r.tx == (if result.hash in s.table then Some(s.table[result.hash]) else None)
            && r.pool.receipts == s.receipts +
                 (if r.tx.Some? && r.tx.value.callback.Some? then [Finished(r.tx.value.callback.value, result)] else [])
  {
    assert result.hash !in s.table ==> s.table - {result.hash} == s.table;
  }

  /** `remove` takes the one transaction away and runs no callback. */
  lemma RemovalContract(s: Pool, hash: Hash)
    ensures var r := RemoveTx(s, hash); Without(s, r.pool, {hash}) && r.pool.receipts == s.receipts
  {
    assert hash !in s.table ==> s.table - {hash} == s.table;
  }

  /** `removeSubmittedTx` does the same, and runs the callback where `removeSubmittedTxWithoutLock` does. */
  lemma SubmittedRemovalContract(s: Pool, result: TxResult)
    ensures var r := RemoveSubmittedTx(s, result);
            && Without(s, r.pool, {result.hash})
            && r.pool.receipts == RemoveSubmitted(s, result).pool.receipts
  {
    hide RemoveTx;
    RemovalContract(s, result.hash);
    SameRemoval(s, result.hash);
  }

  lemma SameRemoval(s: Pool, hash: Hash)
    ensures RemoveTx(s, hash).tx == Remove(s, hash).tx && Remove(s, hash).pool.receipts == s.receipts
  {
  }

  // ----- commit -----

  function HashesTo(results: seq<TxResult>, i: nat): set<Hash>
    requires i <= |results|
  {
    if i == 0 then {} else HashesTo(results, i - 1) + {results[i - 1].hash}
  }

  lemma {:induction false} HashesToLists(results: seq<TxResult>, i: nat, h: Hash)
    requires i <= |results|
    ensures h in HashesTo(results, i) <==> exists j :: 0 <= j < i && results[j].hash == h
  {
    if i > 0 { HashesToLists(results, i - 1, h); }
  }

  /** Result j is the first that names a transaction of the pool. */
  ghost predicate Takes(s: Pool, results: seq<TxResult>, j: nat)
    requires j < |results|
  {
    results[j].hash in s.table && results[j].hash !in HashesTo(results, j)
  }

  /** Result j has nonce n recorded: that of the transaction it takes, else the one it carries. */
  ghost predicate Records(s: Pool, results: seq<TxResult>, j: nat, n: Nonce)
    requires j < |results|
  {
    if Takes(s, results, j) then n == s.table[results[j].hash].nonce
    else results[j].nonce != NO_NONCE && n == results[j].nonce
  }

  lemma CommitStepTakes(s: Pool, acc: Committing, gone: set<Hash>, result: TxResult)
    requires Without(s, acc.pool, gone) && ReceiptsKept(s, acc.pool)
    ensures var r := CommitStep(acc, result);
            && Without(s, r.pool, gone + {result.hash}) && ReceiptsKept(s, r.pool)
            && r.nonces == acc.nonces +
                 (if result.hash in s.table && result.hash !in gone then [s.table[result.hash].nonce]
                  else if result.nonce != NO_NONCE then [result.nonce]
                  else [])
  {
    hide RemoveSubmitted;
    RemoveTakesOne(acc.pool, result);
    assert s.table - gone - {result.hash} == s.table - (gone + {result.hash});
    assert result.hash in acc.pool.table <==> result.hash in s.table && result.hash !in gone;
    assert acc.nonces + [] == acc.nonces;
  }

  lemma {:induction false} CommitLoop(s: Pool, results: seq<TxResult>, i: nat, n: Nonce)
    requires i <= |results|
    ensures var acc := CommitTo(s, results, i);
            && Without(s, acc.pool, HashesTo(results, i)) && ReceiptsKept(s, acc.pool)
            && (n in acc.nonces <==> exists j :: 0 <= j < i && Records(s, results, j, n))
  {
    hide CommitStep, Without, ReceiptsKept;
    CommitStarts(s, results);
    if i > 0 {
      CommitLoop(s, results, i - 1, n);
      var acc := CommitTo(s, results, i - 1);
      CommitStepTakes(s, acc, HashesTo(results, i - 1), results[i - 1]);
      assert n in CommitStep(acc, results[i - 1]).nonces <==> n in acc.nonces || Records(s, results, i - 1, n);
    }
  }

  lemma CommitStarts(s: Pool, results: seq<TxResult>)
    ensures CommitTo(s, results, 0) == Committing(s, []) && Without(s, s, {}) && ReceiptsKept(s, s)
  {
    assert s.table - {} == s.table;
  }

  /**
   The nonces a commit records, exactly: of the transactions it takes from the pool, and of the results for
   transactions that the pool does not hold, where they carry one.
   */
  lemma CommitRecordsExactly(s: Pool, results: seq<TxResult>, n: Nonce)
    ensures n in CommitNonces(s, results) <==> exists j :: 0 <= j < |results| && Records(s, results, j, n)
  {
    CommitLoop(s, results, |results|, n);
  }

  /** A transaction of the pool has its own nonce recorded, whatever the result says. */
  lemma TakenIsRecorded(s: Pool, results: seq<TxResult>, j: nat)
    requires j < |results| && results[j].hash in s.table
    requires forall k :: 0 <= k < j ==> results[k].hash != results[j].hash
    ensures s.table[results[j].hash].nonce in CommitNonces(s, results)
  {
    HashesToLists(results, j, results[j].hash);
    CommitRecordsExactly(s, results, s.table[results[j].hash].nonce);
    assert Records(s, results, j, s.table[results[j].hash].nonce);
  }

  /** A node that never held the transaction learns its nonce from the result. */
  lemma UnknownIsRecorded(s: Pool, results: seq<TxResult>, j: nat)
    requires j < |results| && results[j].hash !in s.table && results[j].nonce != NO_NONCE
    ensures results[j].nonce in CommitNonces(s, results)
  {
    CommitRecordsExactly(s, results, results[j].nonce);
    assert Records(s, results, j, results[j].nonce);
  }

  /** What a commit does to everything but callbacks and counter. */
  lemma CommitContract(s: Pool, id: int, results: seq<TxResult>)
    ensures var t, nonces := Commit(s, id, results), CommitNonces(s, results);
            && t.table == s.table - HashesTo(results, |results|)
            && t.window == Arrive(s.window, Block(id, nonces)) && t.poolNonces == s.poolNonces - Elems(nonces)
            && t.config == s.config && t.missed == s.missed && t.newTxs == s.newTxs
            && t.invalidTxs == s.invalidTxs && t.invalidNonces == s.invalidNonces && ReceiptsKept(s, t)
  {
    hide CommitTo, Arrive;
    CommitLoop(s, results, |results|, NO_NONCE);
  }

  lemma {:induction false} ReceiptStays(s: Pool, results: seq<TxResult>, i: nat, j: nat, r: Receipt)
    requires j <= i <= |results| && r in CommitTo(s, results, j).pool.receipts
    ensures r in CommitTo(s, results, i).pool.receipts
  {
    hide RemoveSubmitted;
    if j < i {
      ReceiptStays(s, results, i - 1, j, r);
      RemoveTakesOne(CommitTo(s, results, i - 1).pool, results[i - 1]);
    }
  }

  /** The callback of a committed transaction runs with the result that takes it. */
  lemma CommitReportsResult(s: Pool, id: int, results: seq<TxResult>, j: nat, c: nat)
    requires j < |results| && Takes(s, results, j) && s.table[results[j].hash].callback == Some(c)
    ensures Finished(c, results[j]) in Commit(s, id, results).receipts
  {
    hide CommitTo, RemoveSubmitted;
    CommitLoop(s, results, j, NO_NONCE);
    RemoveTakesOne(CommitTo(s, results, j).pool, results[j]);
    CommitNext(s, results, j);
    ReceiptStays(s, results, |results|, j + 1, Finished(c, results[j]));
  }

  lemma CommitNext(s: Pool, results: seq<TxResult>, j: nat)
    requires j < |results|
    ensures CommitTo(s, results, j + 1).pool == RemoveSubmitted(CommitTo(s, results, j).pool, results[j]).pool
  {
  }

  // ----- clean-up -----

  lemma {:induction false} CleanLoop(s: Pool, order: seq<Hash>, i: nat)
    requires i <= |order|
    ensures var t := CleanTo(s, order, i); Without(s, t, Elems(order[..i])) && ReceiptsKept(s, t)
  {
    hide RemoveSubmitted;
    if i > 0 {
      CleanLoop(s, order, i - 1);
      RemoveTakesOne(CleanTo(s, order, i - 1), Expiry(order[i - 1]));
      assert order[..i] == order[..i - 1] + [order[i - 1]];
      assert Elems(order[..i]) == Elems(order[..i - 1]) + {order[i - 1]};
    } else {
      assert Elems(order[..0]) == {} && s.table - {} == s.table;
    }
  }

  /**
   A clean-up takes exactly the recorded transactions and nonces, and forgets the records; with no transaction
   recorded it changes nothing.
   */
  lemma CleanContract(s: Pool, order: seq<Hash>)
    requires Enumerates(order, s.invalidTxs)
    ensures s.invalidTxs == {} ==> Clean(s, order) == s
    ensures var t := Clean(s, order);
            s.invalidTxs != {} ==>
              && t.table == s.table - s.invalidTxs && t.poolNonces == s.poolNonces - s.invalidNonces
              && t.invalidTxs == {} && t.invalidNonces == {}
              && SameChain(s, t) && t.missed == s.missed && t.newTxs == s.newTxs && ReceiptsKept(s, t)
  {
    hide CleanTo;
    CleanLoop(s, order, |order|);
    assert order[..|order|] == order;
  }

  lemma {:induction false} ExpiryStays(s: Pool, order: seq<Hash>, i: nat, j: nat, r: Receipt)
    requires j <= i <= |order| && r in CleanTo(s, order, j).receipts
    ensures r in CleanTo(s, order, i).receipts
  {
    hide RemoveSubmitted;
    if j < i {
      ExpiryStays(s, order, i - 1, j, r);
      RemoveTakesOne(CleanTo(s, order, i - 1), Expiry(order[i - 1]));
    }
  }

  lemma CleanNext(s: Pool, order: seq<Hash>, j: nat)
    requires j < |order|
    ensures CleanTo(s, order, j + 1) == RemoveSubmitted(CleanTo(s, order, j), Expiry(order[j])).pool
  {
  }

  /** The callback of a recorded transaction runs with the expiry status, and with no nonce. */
  lemma CleanReportsExpiry(s: Pool, order: seq<Hash>, h: Hash, c: nat)
    requires Enumerates(order, s.invalidTxs) && h in s.invalidTxs && h in s.table && s.table[h].callback == Some(c)
    ensures Finished(c, TxResult(h, NO_NONCE, BlockLimitCheckFail)) in Clean(s, order).receipts
  {
    hide CleanTo, RemoveSubmitted;
    assert h in Elems(order);
    var j :| 0 <= j < |order| && order[j] == h;
    CleanLoop(s, order, j);
    RemoveTakesOne(CleanTo(s, order, j), Expiry(h));
    CleanNext(s, order, j);
    ExpiryStays(s, order, |order|, j + 1, Finished(c, TxResult(h, NO_NONCE, BlockLimitCheckFail)));
  }
}
