/**
 Handing new transactions to the gossip worker: every transaction is handed out at most once
 while it is in the pool, and none is left behind once the worker has nothing to do.
 */
module NewTxs {
  import opened TxPoolTypes
  import opened PoolState
  import opened PoolRuns

  function Unsynced(table: map<Hash, Tx>): set<Hash> {
    set h | h in table && !table[h].synced
  }

  /** While a transaction has not been handed out, the worker is told that there are new ones. */
  ghost predicate Announced(s: Pool) {
    forall h :: h in s.table && !s.table[h].synced ==> s.newTxs
  }

  function Handed(s: Pool, op: Op): seq<Hash> {
    match op
    case HandOutOp(order, limit) => FetchNew(s, order, limit).txs
    case MaintainOp(order) => Maintain(s, order).txs
    case _ => []
  }

  // ----- one hand-out -----

  /** What the loop has changed: the transactions it has picked are marked. */
  ghost predicate MarksPicked(s: Pool, acc: Handing) {
    && acc.pool == s.(table := acc.pool.table)
    && acc.pool.table.Keys == s.table.Keys
    && (forall h :: h in s.table ==>
        acc.pool.table[h] == s.table[h].(synced := s.table[h].synced || h in acc.txs))
  }

  /** What the loop has picked: distinct new transactions, within the limit. */
  ghost predicate PicksNew(s: Pool, limit: nat, acc: Handing) {
    && (forall a, b :: 0 <= a < b < |acc.txs| ==> acc.txs[a] != acc.txs[b])
    && (forall h :: h in acc.txs ==> h in s.table && !s.table[h].synced)
    && (acc.full <==> |acc.txs| > 0 && |acc.txs| >= limit)
    && |acc.txs| <= (if limit == 0 then 1 else limit)
  }

  /** What the loop has left: nothing new among the keys visited, unless it is full. */
  ghost predicate LeavesNothing(s: Pool, order: seq<Hash>, i: nat, acc: Handing) {
    !acc.full ==> forall j :: 0 <= j < i && j < |order| && order[j] in s.table && !s.table[order[j]].synced ==>
        order[j] in acc.txs
  }

  lemma HandStepMarks(s: Pool, limit: nat, acc: Handing, hash: Hash)
    requires MarksPicked(s, acc)
    ensures MarksPicked(s, HandStep(acc, hash, limit))
  {
    var r := HandStep(acc, hash, limit);
    if r != acc {
      forall h | h in s.table
        ensures r.pool.table[h] == s.table[h].(synced := s.table[h].synced || h in r.txs)
      {
        assert h in r.txs <==> h in acc.txs || h == hash;
      }
    }
  }

  lemma HandStepPicks(s: Pool, limit: nat, acc: Handing, hash: Hash)
    requires MarksPicked(s, acc) && PicksNew(s, limit, acc)
    ensures PicksNew(s, limit, HandStep(acc, hash, limit))
  {
  }

  lemma HandStepLeaves(s: Pool, order: seq<Hash>, limit: nat, i: nat, acc: Handing)
    requires 0 < i <= |order| && MarksPicked(s, acc) && LeavesNothing(s, order, i - 1, acc)
    ensures LeavesNothing(s, order, i, HandStep(acc, order[i - 1], limit))
  {
  }

  lemma {:induction false} HandLoop(s: Pool, order: seq<Hash>, limit: nat, i: nat)
    requires i <= |order|
    ensures var acc := HandTo(s, order, limit, i);
            MarksPicked(s, acc) && PicksNew(s, limit, acc) && LeavesNothing(s, order, i, acc)
  {
    if i > 0 {
      HandLoop(s, order, limit, i - 1);
      HandStepMarks(s, limit, HandTo(s, order, limit, i - 1), order[i - 1]);
      HandStepPicks(s, limit, HandTo(s, order, limit, i - 1), order[i - 1]);
      HandStepLeaves(s, order, limit, i, HandTo(s, order, limit, i - 1));
    }
  }

  /** `fetchNewTxs`: distinct new transactions, marked, and all of them when fewer than the limit. */
  lemma HandOutContract(s: Pool, order: seq<Hash>, limit: nat)
    requires Enumerates(order, s.table.Keys)
    ensures var r := FetchNew(s, order, limit);
            && MarksPicked(s, r) && PicksNew(s, limit, r)
            && Unsynced(r.pool.table) == Unsynced(s.table) - Elems(r.txs)
            && Elems(r.txs) <= Unsynced(s.table)
            && (!r.full ==> Unsynced(r.pool.table) == {})
  {
    HandLoop(s, order, limit, |order|);
    var r := FetchNew(s, order, limit);
    if !r.full {
      forall h | h in s.table && !s.table[h].synced ensures h in r.txs {
        assert h in Elems(order);
      }
    }
  }

  /** One round of the worker takes a thousand new transactions, or all there are. */
  lemma MaintainBatchSize(s: Pool, order: seq<Hash>)
    requires Enumerates(order, s.table.Keys)
    ensures var all := |Unsynced(s.table)|;
            |Maintain(s, order).txs| == if all < 1000 then all else 1000
  {
    hide FetchNew;
    HandOutContract(s, order, MAX_SEND_TRANSACTIONS);
    var r := FetchNew(s, order, MAX_SEND_TRANSACTIONS);
    DistinctCount(r.txs);
    assert Unsynced(s.table) == Elems(r.txs) + (Unsynced(s.table) - Elems(r.txs));
  }

  // ----- the flag -----

  ghost function Announcing(): Pool -> bool {
    (s: Pool) => Announced(s)
  }

  lemma UpdatesKeepAnnounced()
    ensures var inv := Announcing();
            KeptByRemoval(inv) && KeptByInsertion(inv) && KeptByHandOut(inv) && KeptByDropping(inv) &&
            KeptBySealing(inv) && KeptByMarking(inv)
  {
  }

  lemma FoldKeepsAnnounced(s: Pool, op: Op)
    requires Announced(s) && Enabled(s, op) && IsFold(op)
    ensures Announced(Exec(s, op))
  {
    var inv := Announcing();
    UpdatesKeepAnnounced();
    match op
    case BatchInsertOp(txs) => InsertToKeeps(s, txs, |txs|, inv);
    case CommitOp(id, results) => CommitToKeeps(s, results, |results|, inv);
    case CleanOp(order) => CleanToKeeps(s, order, |order|, inv);
    case MaintainOp(order) => MaintainClearsWhenDone(s, order);
    case HandOutOp(order, limit) => HandToKeeps(s, order, limit, |order|, inv);
    case SealOp(order, q) => SealToKeeps(s, order, q, |order|, inv);
    case MarkOp(hashes, b, flag) => MarkToKeeps(s, hashes, b, flag, |hashes|, inv);
  }

  lemma MaintainClearsWhenDone(s: Pool, order: seq<Hash>)
    requires Announced(s) && Enumerates(order, s.table.Keys)
    ensures var r := Maintain(s, order);
            && Announced(r.pool)
            && (r.txs == [] ==> Unsynced(r.pool.table) == {} && !r.pool.newTxs)
  {
    HandOutContract(s, order, MAX_SEND_TRANSACTIONS);
    var t := Maintain(s, order).pool;
    assert forall h :: h in t.table && !t.table[h].synced ==> h in Unsynced(t.table);
  }

  lemma SubmissionKeepsAnnounced(s: Pool, tx: Tx, callback: Option<nat>)
    requires Announced(s)
    ensures Announced(Submit(s, tx, callback).pool) && Announced(Enforce(s, tx).pool)
  {
  }

  lemma RemovalKeepsAnnounced(s: Pool, result: TxResult)
    requires Announced(s)
    ensures Announced(RemoveTx(s, result.hash).pool) && Announced(RemoveSubmittedTx(s, result).pool)
  {
    assert RemoveTx(s, result.hash).pool.newTxs == s.newTxs;
  }

  lemma MarkAllKeepsAnnounced(s: Pool, flag: bool)
    requires Announced(s)
    ensures Announced(MarkAll(s, flag))
  {
  }

  lemma StepKeepsAnnounced(s: Pool, op: Op)
    requires Announced(s) && Enabled(s, op)
    ensures Announced(Exec(s, op))
  {
    if IsFold(op) {
      FoldKeepsAnnounced(s, op);
    } else {
      match op
      case SubmitOp(decoded, callback) => if decoded.Some? { SubmissionKeepsAnnounced(s, decoded.value, callback); }
      case SubmitTxOp(tx, callback) => SubmissionKeepsAnnounced(s, tx, callback);
      case EnforceOp(tx) => SubmissionKeepsAnnounced(s, tx, None);
      case MarkAllOp(flag) => MarkAllKeepsAnnounced(s, flag);
      case RemoveOp(hash) => RemovalKeepsAnnounced(s, Expiry(hash));
      case RemoveSubmittedOp(result) => RemovalKeepsAnnounced(s, result);
      case FilterOp(_) =>
      case UnsealedSizeOp =>
    }
  }

  lemma AlwaysAnnounced(tr: seq<Pool>, ops: seq<Op>, k: nat)
    requires IsRun(tr, ops, Enabled) && Announced(tr[0]) && k <= |ops|
    ensures Announced(tr[k])
  {
    forall t, op | Announced(t) && Enabled(t, op) ensures Announced(Exec(t, op)) {
      StepKeepsAnnounced(t, op);
    }
    RunKeeps(tr, ops, Enabled, Announcing(), k);
  }

  // ----- at most once -----

  /** If the transaction is there, it has been handed out. */
  ghost function SyncedIfPresent(h: Hash): Pool -> bool {
    (t: Pool) => h in t.table ==> t.table[h].synced
  }

  ghost function PresentAndSynced(h: Hash): Pool -> bool {
    (t: Pool) => h in t.table && t.table[h].synced
  }

  lemma UpdatesKeepSynced(h: Hash)
    ensures var inv := SyncedIfPresent(h);
            KeptByRemoval(inv) && KeptByHandOut(inv) && KeptByDropping(inv) && KeptBySealing(inv) && KeptByMarking(inv)
    ensures KeptByInsertion(PresentAndSynced(h))
  {
  }

  lemma FoldKeepsSynced(s: Pool, op: Op, h: Hash)
    requires Enabled(s, op) && IsFold(op) && h in s.table && s.table[h].synced && h in Exec(s, op).table
    ensures Exec(s, op).table[h].synced
  {
    var inv := SyncedIfPresent(h);
    UpdatesKeepSynced(h);
    match op
    case BatchInsertOp(txs) => InsertToKeeps(s, txs, |txs|, PresentAndSynced(h));
    case CommitOp(id, results) => CommitToKeeps(s, results, |results|, inv);
    case CleanOp(order) => CleanToKeeps(s, order, |order|, inv);
    case MaintainOp(order) => HandToKeeps(s, order, MAX_SEND_TRANSACTIONS, |order|, inv);
    case HandOutOp(order, limit) => HandToKeeps(s, order, limit, |order|, inv);
    case SealOp(order, q) => SealToKeeps(s, order, q, |order|, inv);
    case MarkOp(hashes, b, flag) => MarkToKeeps(s, hashes, b, flag, |hashes|, inv);
  }

  lemma SubmitKeepsSynced(s: Pool, tx: Tx, callback: Option<nat>, h: Hash)
    requires h in s.table && s.table[h].synced
    ensures PresentAndSynced(h)(Submit(s, tx, callback).pool)
  {
  }

  lemma EnforceKeepsSynced(s: Pool, tx: Tx, h: Hash)
    requires h in s.table && s.table[h].synced
    ensures PresentAndSynced(h)(Enforce(s, tx).pool)
  {
  }

  predicate IsSubmission(op: Op) {
    op.SubmitOp? || op.SubmitTxOp? || op.EnforceOp?
  }

  lemma SubmissionKeepsSynced(s: Pool, op: Op, h: Hash)
    requires IsSubmission(op) && h in s.table && s.table[h].synced
    ensures h in Exec(s, op).table && Exec(s, op).table[h].synced
  {
    hide Submit, Enforce;
    match op
    case SubmitOp(decoded, callback) => if decoded.Some? { SubmitKeepsSynced(s, decoded.value, callback, h); }
    case SubmitTxOp(tx, callback) => SubmitKeepsSynced(s, tx, callback, h);
    case EnforceOp(tx) => EnforceKeepsSynced(s, tx, h);
  }

  lemma RemovalKeepsSynced(s: Pool, result: TxResult, h: Hash)
    requires h in s.table && s.table[h].synced
    ensures SyncedIfPresent(h)(RemoveTx(s, result.hash).pool) && SyncedIfPresent(h)(RemoveSubmittedTx(s, result).pool)
  {
  }

  lemma RewritingKeepsSynced(s: Pool, flag: bool, hashes: seq<Hash>, h: Hash)
    requires h in s.table && s.table[h].synced
    ensures PresentAndSynced(h)(MarkAll(s, flag)) && Filter(s, hashes).pool.table == s.table
  {
  }

  lemma OthersKeepSynced(s: Pool, op: Op, h: Hash)
    requires !IsSubmission(op) && !IsFold(op) && h in s.table && s.table[h].synced && h in Exec(s, op).table
    ensures Exec(s, op).table[h].synced
  {
    hide RemoveTx, RemoveSubmittedTx, MarkAll, Filter;
    match op
    case RemoveOp(hash) => RemovalKeepsSynced(s, Expiry(hash), h);
    case RemoveSubmittedOp(result) => RemovalKeepsSynced(s, result, h);
    case MarkAllOp(flag) => RewritingKeepsSynced(s, flag, [], h);
    case FilterOp(hashes) => RewritingKeepsSynced(s, false, hashes, h);
    case UnsealedSizeOp =>
  }

  lemma StepKeepsSynced(s: Pool, op: Op, h: Hash)
    requires Enabled(s, op) && h in s.table && s.table[h].synced && h in Exec(s, op).table
    ensures Exec(s, op).table[h].synced
  {
    hide Exec;
    if IsFold(op) {
      FoldKeepsSynced(s, op, h);
    } else if IsSubmission(op) {
      SubmissionKeepsSynced(s, op, h);
    } else {
      OthersKeepSynced(s, op, h);
    }
  }

  lemma HandedIsMarked(s: Pool, op: Op, h: Hash)
    requires Enabled(s, op) && h in Handed(s, op)
    ensures h in s.table && !s.table[h].synced
    ensures h in Exec(s, op).table && Exec(s, op).table[h].synced
  {
    match op
    case HandOutOp(order, limit) => HandOutContract(s, order, limit);
    case MaintainOp(order) => HandOutContract(s, order, MAX_SEND_TRANSACTIONS);
    case _ =>
  }

  lemma {:induction false} SyncedWhileItStays(tr: seq<Pool>, ops: seq<Op>, i: nat, m: nat, h: Hash)
    requires IsRun(tr, ops, Enabled) && i < m <= |ops|
    requires h in Handed(tr[i], ops[i]) && forall k :: i < k <= m ==> h in tr[k].table
    ensures tr[m].table[h].synced
  {
    assert StepAt(tr, ops, Enabled, m - 1);
    if m == i + 1 {
      HandedIsMarked(tr[i], ops[i], h);
    } else {
      SyncedWhileItStays(tr, ops, i, m - 1, h);
      StepKeepsSynced(tr[m - 1], ops[m - 1], h);
    }
  }

  /** A transaction that is handed out twice has left the pool in between. */
  lemma HandedOutAtMostOnce(tr: seq<Pool>, ops: seq<Op>, i: nat, j: nat, h: Hash)
    requires IsRun(tr, ops, Enabled) && i < j < |ops|
    requires h in Handed(tr[i], ops[i]) && h in Handed(tr[j], ops[j])
    ensures exists k :: i < k < j && h !in tr[k].table
  {
    assert StepAt(tr, ops, Enabled, j);
    HandedIsMarked(tr[j], ops[j], h);
    if forall k :: i < k < j ==> h in tr[k].table {
      SyncedWhileItStays(tr, ops, i, j, h);
      assert false;
    }
  }

  // ----- draining -----

  lemma MaintainProgresses(s: Pool, order: seq<Hash>)
    requires Announced(s) && Enumerates(order, s.table.Keys)
    ensures var t := Maintain(s, order).pool;
            Unsynced(t.table) == {} || |Unsynced(t.table)| < |Unsynced(s.table)|
    ensures Maintain(s, order).txs == [] <==> Unsynced(s.table) == {}
  {
    HandOutContract(s, order, MAX_SEND_TRANSACTIONS);
    MaintainClearsWhenDone(s, order);
    var txs := Maintain(s, order).txs;
    if txs != [] {
      assert txs[0] in Elems(txs);
      var u := Unsynced(s.table);
      assert u == Elems(txs) + (u - Elems(txs));
    }
  }

  /** At most n - k transactions are new. */
  ghost predicate Drained(t: Pool, k: nat, n: nat) {
    Announced(t) && (Unsynced(t.table) == {} || |Unsynced(t.table)| + k <= n)
  }

  lemma DrainStep(t: Pool, order: seq<Hash>, k: nat, n: nat)
    requires Drained(t, k, n) && Enumerates(order, t.table.Keys)
    ensures var u := Maintain(t, order).pool;
            Drained(u, k + 1, n) && (k >= n ==> Unsynced(u.table) == {} && !u.newTxs)
  {
    MaintainProgresses(t, order);
    MaintainClearsWhenDone(t, order);
  }

  /**
   With nothing new arriving, as many rounds as there are new transactions hand all of them out,
   and one more clears the flag.
   */
  lemma {:induction false} MaintainDrains(tr: seq<Pool>, ops: seq<Op>, k: nat)
    requires IsRun(tr, ops, Enabled) && Announced(tr[0]) && k <= |ops|
    requires forall i :: 0 <= i < |ops| ==> ops[i].MaintainOp?
    ensures Drained(tr[k], k, |Unsynced(tr[0].table)|)
    ensures k > |Unsynced(tr[0].table)| ==> Unsynced(tr[k].table) == {} && !tr[k].newTxs
  {
    if k > 0 {
      MaintainDrains(tr, ops, k - 1);
      assert StepAt(tr, ops, Enabled, k - 1);
      DrainStep(tr[k - 1], ops[k - 1].order, k - 1, |Unsynced(tr[0].table)|);
    }
  }
}
