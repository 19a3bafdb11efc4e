/**
 The set of transactions that have been requested from peers but not received: bounded, disjoint
 from the pool, and no hash in it is requested again.
 */
module OutstandingRequests {
  import opened TxPoolTypes
  import opened PoolState
  import opened PoolRuns

  ghost predicate Outstanding(s: Pool) {
    && |s.missed| < s.config.poolLimit
    && forall h :: h in s.missed ==> h !in s.table
  }

  function Requested(s: Pool, op: Op): seq<Hash> {
    match op
    case FilterOp(hashes) => Filter(s, hashes).unknown
    case _ => []
  }

  // ----- filtering -----

  ghost predicate Filters(s: Pool, acc: Filtering) {
    && acc.missed == s.missed + Elems(acc.unknown)
    && (forall h :: h in acc.unknown ==> h !in s.missed && h !in s.table)
    && (forall a, b :: 0 <= a < b < |acc.unknown| ==> acc.unknown[a] != acc.unknown[b])
  }

  lemma {:induction false} FilterLoop(s: Pool, hashes: seq<Hash>, i: nat)
    requires i <= |hashes|
    ensures var acc := FilterTo(s, hashes, i);
            && Filters(s, acc)
            && (forall h :: h in acc.unknown ==> h in hashes)
            && (forall j :: 0 <= j < i ==> hashes[j] in s.table || hashes[j] in acc.missed)
  {
    if i > 0 {
      FilterLoop(s, hashes, i - 1);
      var p, acc := FilterTo(s, hashes, i - 1), FilterTo(s, hashes, i);
      assert Elems(acc.unknown) == if acc == p then Elems(p.unknown) else Elems(p.unknown) + {hashes[i - 1]};
    }
  }

  /**
   `filterUnknownTxs` returns, once each, exactly the hashes that are neither in the pool nor requested, and records
   them as requested; the record is cleared exactly when it has reached the pool limit.
   */
  lemma FilterContract(s: Pool, hashes: seq<Hash>, h: Hash)
    ensures var r := Filter(s, hashes);
            && (h in r.unknown <==> h in hashes && h !in s.table && h !in s.missed)
            && (forall a, b :: 0 <= a < b < |r.unknown| ==> r.unknown[a] != r.unknown[b])
            && var requested := s.missed + Elems(r.unknown);
            r.pool == s.(missed := if |requested| >= s.config.poolLimit then {} else requested)
  {
    FilterLoop(s, hashes, |hashes|);
  }

  lemma {:induction false} FilterGrows(s: Pool, hashes: seq<Hash>, i: nat, j: nat)
    requires i <= j <= |hashes|
    ensures FilterTo(s, hashes, i).unknown <= FilterTo(s, hashes, j).unknown
  {
    if i < j { FilterGrows(s, hashes, i, j - 1); }
  }

  lemma {:induction false} FilterOfPart(s: Pool, hashes: seq<Hash>, n: nat, i: nat)
    requires i <= n <= |hashes|
    ensures FilterTo(s, hashes[..n], i) == FilterTo(s, hashes, i)
  {
    if i > 0 { FilterOfPart(s, hashes, n, i - 1); }
  }

  /** They come in the order of the list: what a part of it gives is where the whole starts. */
  lemma FilterInOrder(s: Pool, hashes: seq<Hash>, i: nat)
    requires i <= |hashes|
    ensures Filter(s, hashes[..i]).unknown <= Filter(s, hashes).unknown
  {
    FilterGrows(s, hashes, i, |hashes|);
    FilterOfPart(s, hashes, i, i);
  }

  lemma FilterKeepsOutstanding(s: Pool, hashes: seq<Hash>)
    requires Outstanding(s)
    ensures Outstanding(Filter(s, hashes).pool)
  {
    FilterLoop(s, hashes, |hashes|);
  }

  // ----- batch insertion -----

  ghost predicate AmongFirst(txs: seq<Tx>, i: nat, h: Hash) {
    exists j :: 0 <= j < i && j < |txs| && txs[j].hash == h
  }

  lemma {:induction false} InsertLoop(s: Pool, txs: seq<Tx>, i: nat, h: Hash)
    requires i <= |txs|
    ensures InsertTo(s, txs, i).missed == s.missed
    ensures h in InsertTo(s, txs, i).table <==> h in s.table || AmongFirst(txs, i, h)
  {
    if i > 0 {
      InsertLoop(s, txs, i - 1, h);
      assert AmongFirst(txs, i, h) <==> AmongFirst(txs, i - 1, h) || txs[i - 1].hash == h;
    }
  }

  /** `batchInsert` moves its transactions from the outstanding set into the pool. */
  lemma BatchInsertImports(s: Pool, txs: seq<Tx>, h: Hash)
    ensures var r := BatchInsert(s, txs);
            && (h in r.missed <==> h in s.missed && h !in Hashes(txs))
            && (h in r.table <==> h in s.table || h in Hashes(txs))
    ensures BatchInsert(s, txs).missed <= s.missed
  {
    InsertLoop(s, txs, |txs|, h);
    assert h in Hashes(txs) <==> AmongFirst(txs, |txs|, h) by {
      assert |Hashes(txs)| == |txs| && forall j :: 0 <= j < |txs| ==> Hashes(txs)[j] == txs[j].hash;
    }
  }

  lemma BatchInsertKeepsOutstanding(s: Pool, txs: seq<Tx>)
    requires Outstanding(s)
    ensures Outstanding(BatchInsert(s, txs))
  {
    forall h ensures h in BatchInsert(s, txs).missed ==> h !in BatchInsert(s, txs).table {
      BatchInsertImports(s, txs, h);
    }
    BatchInsertImports(s, txs, ZERO_HASH);
    SmallerSet(BatchInsert(s, txs).missed, s.missed);
  }

  lemma SmallerSet(a: set<Hash>, b: set<Hash>)
    requires a <= b
    ensures |a| <= |b|
  {
    assert b == a + (b - a);
  }

  // ----- every operation -----

  ghost function NothingKnownIsOutstanding(): Pool -> bool {
    (s: Pool) => Outstanding(s)
  }

  lemma UpdatesKeepOutstanding()
    ensures var inv := NothingKnownIsOutstanding();
            KeptByRemoval(inv) && KeptByHandOut(inv) && KeptByDropping(inv) && KeptBySealing(inv) && KeptByMarking(inv)
  {
  }

  lemma FoldKeepsOutstanding(s: Pool, op: Op)
    requires Outstanding(s) && IsFold(op)
    ensures Outstanding(Exec(s, op))
  {
    hide BatchInsert, RemoveSubmitted, HandStep, SealStep, MarkStep;
    var inv := NothingKnownIsOutstanding();
    UpdatesKeepOutstanding();
    match op
    case BatchInsertOp(txs) => BatchInsertKeepsOutstanding(s, txs);
    case CommitOp(id, results) => CommitToKeeps(s, results, |results|, inv);
    case CleanOp(order) => CleanToKeeps(s, order, |order|, inv);
    case MaintainOp(order) => HandToKeeps(s, order, MAX_SEND_TRANSACTIONS, |order|, inv);
    case HandOutOp(order, limit) => HandToKeeps(s, order, limit, |order|, inv);
    case SealOp(order, q) => SealToKeeps(s, order, q, |order|, inv);
    case MarkOp(hashes, b, flag) => MarkToKeeps(s, hashes, b, flag, |hashes|, inv);
  }

  lemma SubmitKeepsOutstanding(s: Pool, tx: Tx, callback: Option<nat>)
    requires Outstanding(s)
    ensures Outstanding(Submit(s, tx, callback).pool)
  {
    SubmitEffect(s, tx, callback);
    SmallerSet(s.missed - {tx.hash}, s.missed);
  }

  lemma EnforceKeepsOutstanding(s: Pool, tx: Tx)
    requires Outstanding(s)
    ensures Outstanding(Enforce(s, tx).pool)
  {
    hide SubmittedToChain, Claim, CountSealing;
    SmallerSet(s.missed - {tx.hash}, s.missed);
  }

  lemma RemovalKeepsOutstanding(s: Pool, result: TxResult)
    requires Outstanding(s)
    ensures Outstanding(RemoveTx(s, result.hash).pool) && Outstanding(RemoveSubmittedTx(s, result).pool)
  {
  }

  lemma MarkAllKeepsOutstanding(s: Pool, flag: bool)
    requires Outstanding(s)
    ensures Outstanding(MarkAll(s, flag)) && Outstanding(Clamp(s))
  {
  }

  lemma StepKeepsOutstanding(s: Pool, op: Op)
    requires Outstanding(s)
    ensures Outstanding(Exec(s, op))
  {
    if IsFold(op) {
      FoldKeepsOutstanding(s, op);
    } else {
      match op
      case SubmitOp(decoded, callback) => if decoded.Some? { SubmitKeepsOutstanding(s, decoded.value, callback); }
      case SubmitTxOp(tx, callback) => SubmitKeepsOutstanding(s, tx, callback);
      case EnforceOp(tx) => EnforceKeepsOutstanding(s, tx);
      case RemoveOp(hash) => RemovalKeepsOutstanding(s, Expiry(hash));
      case RemoveSubmittedOp(result) => RemovalKeepsOutstanding(s, result);
      case FilterOp(hashes) => FilterKeepsOutstanding(s, hashes);
      case MarkAllOp(flag) => MarkAllKeepsOutstanding(s, flag);
      case UnsealedSizeOp => MarkAllKeepsOutstanding(s, true);
    }
  }

  lemma AlwaysOutstanding(tr: seq<Pool>, ops: seq<Op>, k: nat)
    requires IsRun(tr, ops, Enabled) && Outstanding(tr[0]) && k <= |ops|
    ensures Outstanding(tr[k])
  {
    forall t, op | Outstanding(t) && Enabled(t, op) ensures Outstanding(Exec(t, op)) {
      StepKeepsOutstanding(t, op);
    }
    RunKeeps(tr, ops, Enabled, NothingKnownIsOutstanding(), k);
  }

  // ----- no second request -----

  ghost function Requesting(h: Hash): Pool -> bool {
    (t: Pool) => h in t.missed
  }

  lemma UpdatesKeepRequesting(h: Hash)
    ensures var inv := Requesting(h);
            KeptByRemoval(inv) && KeptByHandOut(inv) && KeptByDropping(inv) && KeptBySealing(inv) && KeptByMarking(inv)
  {
  }

  lemma FoldKeepsRequesting(s: Pool, op: Op, h: Hash)
    requires h in s.missed && IsFold(op)
    ensures h in Exec(s, op).missed || h in Exec(s, op).table
  {
    hide BatchInsert, RemoveSubmitted, HandStep, SealStep, MarkStep;
    var inv := Requesting(h);
    UpdatesKeepRequesting(h);
    match op
    case BatchInsertOp(txs) => BatchInsertImports(s, txs, h);
    case CommitOp(id, results) => CommitToKeeps(s, results, |results|, inv);
    case CleanOp(order) => CleanToKeeps(s, order, |order|, inv);
    case MaintainOp(order) => HandToKeeps(s, order, MAX_SEND_TRANSACTIONS, |order|, inv);
    case HandOutOp(order, limit) => HandToKeeps(s, order, limit, |order|, inv);
    case SealOp(order, q) => SealToKeeps(s, order, q, |order|, inv);
    case MarkOp(hashes, b, flag) => MarkToKeeps(s, hashes, b, flag, |hashes|, inv);
  }

  lemma SubmitKeepsRequesting(s: Pool, tx: Tx, callback: Option<nat>, h: Hash)
    requires h in s.missed
    ensures var t := Submit(s, tx, callback).pool; h in t.missed || h in t.table
  {
    SubmitEffect(s, tx, callback);
  }

  lemma EnforceKeepsRequesting(s: Pool, tx: Tx, h: Hash)
    requires h in s.missed
    ensures var t := Enforce(s, tx).pool; h in t.missed || h in t.table
  {
  }

  lemma OthersKeepRequesting(s: Pool, result: TxResult, flag: bool)
    ensures RemoveTx(s, result.hash).pool.missed == s.missed
    ensures RemoveSubmittedTx(s, result).pool.missed == s.missed
    ensures MarkAll(s, flag).missed == s.missed && Clamp(s).missed == s.missed
  {
  }

  /** An outstanding hash leaves the set only by being imported or when the set is cleared. */
  lemma StepKeepsRequesting(s: Pool, op: Op, h: Hash)
    requires h in s.missed
    ensures h in Exec(s, op).missed || h in Exec(s, op).table || (op.FilterOp? && Exec(s, op).missed == {})
  {
    if IsFold(op) {
      FoldKeepsRequesting(s, op, h);
    } else {
      match op
      case SubmitOp(decoded, callback) => if decoded.Some? { SubmitKeepsRequesting(s, decoded.value, callback, h); }
      case SubmitTxOp(tx, callback) => SubmitKeepsRequesting(s, tx, callback, h);
      case EnforceOp(tx) => EnforceKeepsRequesting(s, tx, h);
      case RemoveOp(hash) => OthersKeepRequesting(s, Expiry(hash), true);
      case RemoveSubmittedOp(result) => OthersKeepRequesting(s, result, true);
      case FilterOp(hashes) => FilterContract(s, hashes, h);
      case MarkAllOp(flag) => OthersKeepRequesting(s, Expiry(h), flag);
      case UnsealedSizeOp => OthersKeepRequesting(s, Expiry(h), true);
    }
  }

  lemma RequestIsRecorded(s: Pool, op: Op, h: Hash)
    requires h in Requested(s, op)
    ensures h in Exec(s, op).missed || Exec(s, op).missed == {}
  {
    FilterContract(s, op.hashes, h);
  }

  lemma {:induction false} RequestedUntilReleased(tr: seq<Pool>, ops: seq<Op>, i: nat, m: nat, h: Hash)
    requires IsRun(tr, ops, Enabled) && i < m <= |ops| && h in Requested(tr[i], ops[i])
    requires forall k :: i < k <= m ==> h !in tr[k].table && tr[k].missed != {}
    ensures h in tr[m].missed
  {
    hide Exec, Requested, Enabled;
    assert StepAt(tr, ops, Enabled, m - 1);
    if m == i + 1 {
      RequestIsRecorded(tr[i], ops[i], h);
    } else {
      RequestedUntilReleased(tr, ops, i, m - 1, h);
      StepKeepsRequesting(tr[m - 1], ops[m - 1], h);
    }
  }

  /** A hash that is requested twice was imported, or the set was cleared, in between. */
  lemma RequestedAtMostOnce(tr: seq<Pool>, ops: seq<Op>, i: nat, j: nat, h: Hash)
    requires IsRun(tr, ops, Enabled) && i < j < |ops|
    requires h in Requested(tr[i], ops[i]) && h in Requested(tr[j], ops[j])
    ensures exists k :: i < k <= j && (h in tr[k].table || tr[k].missed == {})
  {
    if forall k :: i < k <= j ==> h !in tr[k].table && tr[k].missed != {} {
      RequestedUntilReleased(tr, ops, i, j, h);
      FilterContract(tr[j], ops[j].hashes, h);
      assert false;
    }
  }
}
