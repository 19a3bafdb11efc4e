/**
 A submit callback runs at most once: on rejection, on commit or on expiry. The stored callback of
 a transaction is never replaced by a later submission of the same transaction.
 */
module SubmitCallbacks {
  import opened TxPoolTypes
  import opened PoolState
  import opened PoolRuns

  ghost predicate Attached(s: Pool, h: Hash, c: nat) {
    h in s.table && s.table[h].callback == Some(c)
  }

  ghost predicate HasRun(s: Pool, c: nat) {
    exists i :: 0 <= i < |s.receipts| && s.receipts[i].callback == c
  }

  ghost predicate Unused(s: Pool, c: nat) {
    !HasRun(s, c) && forall h :: !Attached(s, h, c)
  }

  /** No callback has run twice, none that has run can run again, none hangs on two transactions. */
  ghost predicate AtMostOnce(s: Pool) {
    && (forall i, j :: 0 <= i < j < |s.receipts| ==> s.receipts[i].callback != s.receipts[j].callback)
    && (forall h, c :: Attached(s, h, c) ==> !HasRun(s, c))
    && (forall g, h, c :: Attached(s, g, c) && Attached(s, h, c) ==> g == h)
  }

  ghost function OncePerCallback(): Pool -> bool {
    (s: Pool) => AtMostOnce(s)
  }

  /** The table has lost transactions or callbacks, and nothing else that matters here has changed. */
  ghost predicate FewerAttached(s: Pool, t: Pool) {
    t.receipts == s.receipts && forall h, c :: Attached(t, h, c) ==> Attached(s, h, c)
  }

  lemma FewerAttachedKeeps(s: Pool, t: Pool)
    requires AtMostOnce(s) && FewerAttached(s, t)
    ensures AtMostOnce(t)
  {
    forall h, c | Attached(t, h, c) ensures !HasRun(t, c) {
      assert !HasRun(s, c);
    }
  }

  lemma RunOne(s: Pool, t: Pool, r: Receipt)
    requires AtMostOnce(s) && t.receipts == s.receipts + [r]
    requires !HasRun(s, r.callback)
    requires forall h, c :: Attached(t, h, c) ==> Attached(s, h, c) && c != r.callback
    ensures AtMostOnce(t)
  {
    forall h, c | Attached(t, h, c) ensures !HasRun(t, c) {
      assert !HasRun(s, c);
    }
  }

  // ----- removal runs the callback -----

  lemma RemovalRuns(s: Pool, result: TxResult)
    requires AtMostOnce(s)
    ensures AtMostOnce(RemoveSubmitted(s, result).pool)
  {
    var t := RemoveSubmitted(s, result).pool;
    var h := result.hash;
    if h in s.table && s.table[h].callback.Some? {
      assert Attached(s, h, s.table[h].callback.value);
      RunOne(s, t, Finished(s.table[h].callback.value, result));
    } else {
      FewerAttachedKeeps(s, t);
    }
  }

  lemma RemovalKeepsOnce()
    ensures KeptByRemoval(OncePerCallback())
  {
    forall s, result | AtMostOnce(s) ensures AtMostOnce(RemoveSubmitted(s, result).pool) {
      RemovalRuns(s, result);
    }
  }

  lemma InsertionKeepsOnce()
    ensures KeptByInsertion(OncePerCallback())
  {
    forall s, tx | AtMostOnce(s) && FreshlyDecoded(tx) ensures AtMostOnce(Insert(s, tx).pool) {
      FewerAttachedKeeps(s, Insert(s, tx).pool);
    }
  }

  lemma HandOutKeepsOnce()
    ensures KeptByHandOut(OncePerCallback())
  {
    forall s: Pool, h | AtMostOnce(s) && h in s.table ensures AtMostOnce(HandOne(s, h)) {
      FewerAttachedKeeps(s, HandOne(s, h));
    }
  }

  lemma DroppingKeepsOnce()
    ensures KeptByDropping(OncePerCallback())
  {
    forall s: Pool, h | AtMostOnce(s) && h in s.table
      ensures AtMostOnce(DropCommitted(s, h)) && AtMostOnce(DropExpired(s, h))
    {
      FewerAttachedKeeps(s, DropCommitted(s, h));
      FewerAttachedKeeps(s, DropExpired(s, h));
    }
  }

  lemma SealingKeepsOnce()
    ensures KeptBySealing(OncePerCallback())
  {
    forall s: Pool, h | AtMostOnce(s) && h in s.table ensures AtMostOnce(SealOne(s, h)) {
      FewerAttachedKeeps(s, SealOne(s, h));
    }
  }

  lemma MarkingKeepsOnce()
    ensures KeptByMarking(OncePerCallback())
  {
    forall s, h, b, flag | AtMostOnce(s) ensures AtMostOnce(MarkStep(s, h, b, flag)) {
      FewerAttachedKeeps(s, MarkStep(s, h, b, flag));
    }
  }

  lemma FoldRunsOnce(s: Pool, op: Op)
    requires AtMostOnce(s) && Enabled(s, op) && IsFold(op)
    ensures AtMostOnce(Exec(s, op))
  {
    var inv := OncePerCallback();
    RemovalKeepsOnce();
    InsertionKeepsOnce();
    HandOutKeepsOnce();
    DroppingKeepsOnce();
    SealingKeepsOnce();
    MarkingKeepsOnce();
    match op
    case BatchInsertOp(txs) =>
      InsertToKeeps(s, txs, |txs|, inv);
      FewerAttachedKeeps(InsertTo(s, txs, |txs|), Exec(s, op));
    case CommitOp(id, results) =>
      CommitToKeeps(s, results, |results|, inv);
      FewerAttachedKeeps(CommitTo(s, results, |results|).pool, Exec(s, op));
    case CleanOp(order) =>
      CleanToKeeps(s, order, |order|, inv);
      if s.invalidTxs != {} { FewerAttachedKeeps(CleanTo(s, order, |order|), Exec(s, op)); }
    case MaintainOp(order) =>
      HandToKeeps(s, order, MAX_SEND_TRANSACTIONS, |order|, inv);
      FewerAttachedKeeps(FetchNew(s, order, MAX_SEND_TRANSACTIONS).pool, Exec(s, op));
    case HandOutOp(order, limit) =>
      HandToKeeps(s, order, limit, |order|, inv);
    case SealOp(order, q) =>
      SealToKeeps(s, order, q, |order|, inv);
      FewerAttachedKeeps(SealTo(s, order, q, |order|).pool, Exec(s, op));
    case MarkOp(hashes, b, flag) =>
      MarkToKeeps(s, hashes, b, flag, |hashes|, inv);
  }

  // ----- submission -----

  lemma SubmitAttachesOnce(s: Pool, tx: Tx, callback: Option<nat>)
    requires AtMostOnce(s) && FreshlyDecoded(tx) && (callback.Some? ==> Unused(s, callback.value))
    ensures AtMostOnce(Submit(s, tx, callback).pool)
    ensures Submit(s, tx, callback).status != Ok ==> Submit(s, tx, callback).pool == s
  {
    SubmitEffect(s, tx, callback);
    var r := Submit(s, tx, callback);
    if r.status == Ok {
      assert r.pool.receipts == s.receipts;
      forall h, c: nat | Attached(r.pool, h, c) ensures !HasRun(r.pool, c) && (h == tx.hash ==> callback == Some(c)) {
        if h != tx.hash { assert Attached(s, h, c); }
      }
      assert forall h, c :: Attached(r.pool, h, c) && h != tx.hash ==> Attached(s, h, c);
    }
  }

  /** A submission that is refused runs its callback once, with the reason; an admitted one does not run it yet. */
  lemma SubmitDataRunsOnce(s: Pool, decoded: Option<Tx>, callback: Option<nat>)
    requires AtMostOnce(s) && (decoded.Some? ==> FreshlyDecoded(decoded.value))
    requires callback.Some? ==> Unused(s, callback.value)
    ensures AtMostOnce(SubmitData(s, decoded, callback).pool)
    ensures SubmitData(s, decoded, callback).status ==
              (if decoded.Some? then Submit(s, decoded.value, callback).status else Malform)
    ensures var r := SubmitData(s, decoded, callback);
            callback.Some? ==>
              if r.status == Ok then
                r.pool.receipts == s.receipts && Attached(r.pool, decoded.value.hash, callback.value)
              else
                && (forall h :: !Attached(r.pool, h, callback.value))
                && r.pool.receipts == s.receipts +
                     [Rejected(callback.value, if decoded.Some? then decoded.value.hash else ZERO_HASH, r.status)]
  {
    var r := SubmitData(s, decoded, callback);
    if decoded.Some? {
      SubmitAttachesOnce(s, decoded.value, callback);
      SubmitEffect(s, decoded.value, callback);
    }
    if r.status != Ok && callback.Some? {
      assert forall h, c :: Attached(r.pool, h, c) ==> Attached(s, h, c);
      RunOne(s, r.pool, r.pool.receipts[|s.receipts|]);
    }
  }

  // ----- every operation -----

  /** What a run relies on: fresh objects, and callbacks no earlier submission has used. */
  ghost predicate FreshCallback(s: Pool, op: Op) {
    Enabled(s, op) &&
    match op
    case SubmitOp(_, callback) => callback.Some? ==> Unused(s, callback.value)
    case SubmitTxOp(_, callback) => callback.Some? ==> Unused(s, callback.value)
    case _ => true
  }

  lemma EnforceAttachesNothing(s: Pool, tx: Tx)
    requires AtMostOnce(s) && FreshlyDecoded(tx)
    ensures AtMostOnce(Enforce(s, tx).pool)
  {
    FewerAttachedKeeps(s, Enforce(s, tx).pool);
  }

  lemma RemoveTxKeepsOnce(s: Pool, result: TxResult)
    requires AtMostOnce(s)
    ensures AtMostOnce(RemoveTx(s, result.hash).pool) && AtMostOnce(RemoveSubmittedTx(s, result).pool)
  {
    FewerAttachedKeeps(s, RemoveTx(s, result.hash).pool);
    RemovalRuns(s, result);
    FewerAttachedKeeps(RemoveSubmitted(s, result).pool, RemoveSubmittedTx(s, result).pool);
  }

  lemma MarkAllKeepsOnce(s: Pool, flag: bool)
    requires AtMostOnce(s)
    ensures AtMostOnce(MarkAll(s, flag))
  {
    FewerAttachedKeeps(s, MarkAll(s, flag));
  }

  lemma StepRunsOnce(s: Pool, op: Op)
    requires AtMostOnce(s) && FreshCallback(s, op)
    ensures AtMostOnce(Exec(s, op))
  {
    if IsFold(op) {
      FoldRunsOnce(s, op);
    } else {
      match op
      case SubmitOp(decoded, callback) => SubmitDataRunsOnce(s, decoded, callback);
      case SubmitTxOp(tx, callback) => SubmitAttachesOnce(s, tx, callback);
      case EnforceOp(tx) => EnforceAttachesNothing(s, tx);
      case RemoveOp(hash) => RemoveTxKeepsOnce(s, Expiry(hash));
      case RemoveSubmittedOp(result) => RemoveTxKeepsOnce(s, result);
      case FilterOp(hashes) => FewerAttachedKeeps(s, Filter(s, hashes).pool);
      case MarkAllOp(flag) => MarkAllKeepsOnce(s, flag);
      case UnsealedSizeOp => FewerAttachedKeeps(s, Clamp(s));
    }
  }

  /** Over every run, each callback has run at most once. */
  lemma CallbacksRunAtMostOnce(tr: seq<Pool>, ops: seq<Op>, k: nat)
    requires IsRun(tr, ops, FreshCallback) && AtMostOnce(tr[0]) && k <= |ops|
    ensures AtMostOnce(tr[k])
  {
    forall t, op | AtMostOnce(t) && FreshCallback(t, op) ensures AtMostOnce(Exec(t, op)) {
      StepRunsOnce(t, op);
    }
    RunKeeps(tr, ops, FreshCallback, OncePerCallback(), k);
  }

  // ----- exactly once at removal -----

  /** The callback has run, with a result for this transaction. */
  ghost predicate RanFor(s: Pool, h: Hash, c: nat, status: Option<Status>) {
    exists i :: 0 <= i < |s.receipts| && s.receipts[i].callback == c && s.receipts[i].Finished? &&
                s.receipts[i].result.hash == h && (status.Some? ==> s.receipts[i].result.status == status.value)
  }

  ghost predicate ReceiptsGrow(s: Pool, t: Pool) {
    |s.receipts| <= |t.receipts| && t.receipts[..|s.receipts|] == s.receipts
  }

  lemma RanForGrows(s: Pool, t: Pool, h: Hash, c: nat, status: Option<Status>)
    requires RanFor(s, h, c, status) && ReceiptsGrow(s, t)
    ensures RanFor(t, h, c, status)
  {
    var i :| 0 <= i < |s.receipts| && s.receipts[i].callback == c && s.receipts[i].Finished? &&
      s.receipts[i].result.hash == h && (status.Some? ==> s.receipts[i].result.status == status.value);
    assert t.receipts[..|s.receipts|][i] == t.receipts[i];
  }

  lemma RemovalFinishes(s: Pool, result: TxResult, h: Hash, c: nat)
    requires Attached(s, h, c)
    ensures var t := RemoveSubmitted(s, result).pool;
            && ReceiptsGrow(s, t)
            && (result.hash == h ==> h !in t.table && RanFor(t, h, c, Some(result.status)))
            && (result.hash != h ==> Attached(t, h, c))
  {
    var t := RemoveSubmitted(s, result).pool;
    if result.hash == h { assert t.receipts[|s.receipts|] == Finished(c, result); }
  }

  /** The outcome of one removal for a transaction that was there at the start. */
  ghost predicate DoneOrAttached(t: Pool, h: Hash, c: nat, done: bool, status: Option<Status>) {
    if done then h !in t.table && RanFor(t, h, c, status) else Attached(t, h, c)
  }

  lemma RemovalStep(p: Pool, result: TxResult, h: Hash, c: nat, done: bool, status: Option<Status>)
    requires DoneOrAttached(p, h, c, done, status) && (status.Some? ==> result.status == status.value)
    ensures DoneOrAttached(RemoveSubmitted(p, result).pool, h, c, done || result.hash == h, status)
  {
    var t := RemoveSubmitted(p, result).pool;
    if done {
      assert ReceiptsGrow(p, t);
      RanForGrows(p, t, h, c, status);
    } else {
      RemovalFinishes(p, result, h, c);
    }
  }

  lemma {:induction false} CommitFinishes(s: Pool, results: seq<TxResult>, i: nat, h: Hash, c: nat)
    requires i <= |results| && Attached(s, h, c)
    ensures DoneOrAttached(CommitTo(s, results, i).pool, h, c, exists j :: 0 <= j < i && results[j].hash == h, None)
  {
    if i > 0 {
      CommitFinishes(s, results, i - 1, h, c);
      RemovalStep(CommitTo(s, results, i - 1).pool, results[i - 1], h, c,
                  exists j :: 0 <= j < i - 1 && results[j].hash == h, None);
    }
  }

  /** A committed transaction whose callback is still attached has it run, once, with its result. */
  lemma CommitRunsCallback(s: Pool, id: int, results: seq<TxResult>, j: nat, c: nat)
    requires AtMostOnce(s) && j < |results| && Attached(s, results[j].hash, c)
    ensures var t := Commit(s, id, results);
            RanFor(t, results[j].hash, c, None) && AtMostOnce(t) && results[j].hash !in t.table
  {
    CommitFinishes(s, results, |results|, results[j].hash, c);
    FoldRunsOnce(s, CommitOp(id, results));
    RanForGrows(CommitTo(s, results, |results|).pool, Commit(s, id, results), results[j].hash, c, None);
  }

  lemma {:induction false} CleanFinishes(s: Pool, order: seq<Hash>, i: nat, h: Hash, c: nat)
    requires i <= |order| && Attached(s, h, c)
    ensures DoneOrAttached(CleanTo(s, order, i), h, c, h in order[..i], Some(BlockLimitCheckFail))
  {
    if i > 0 {
      CleanFinishes(s, order, i - 1, h, c);
      assert order[..i] == order[..i - 1] + [order[i - 1]];
      RemovalStep(CleanTo(s, order, i - 1), Expiry(order[i - 1]), h, c, h in order[..i - 1], Some(BlockLimitCheckFail));
    }
  }

  /** An expired transaction whose callback is still attached has it run, once, with the expiry status. */
  lemma CleanRunsCallback(s: Pool, order: seq<Hash>, h: Hash, c: nat)
    requires AtMostOnce(s) && Enumerates(order, s.invalidTxs) && h in s.invalidTxs && Attached(s, h, c)
    ensures var t := Clean(s, order);
            RanFor(t, h, c, Some(BlockLimitCheckFail)) && AtMostOnce(t) && h !in t.table
  {
    CleanFinishes(s, order, |order|, h, c);
    assert order[..|order|] == order && h in Elems(order);
    FoldRunsOnce(s, CleanOp(order));
    RanForGrows(CleanTo(s, order, |order|), Clean(s, order), h, c, Some(BlockLimitCheckFail));
  }

  /** Submitting a transaction that is already in the pool leaves the stored one as it was, callback and all. */
  lemma DuplicateSubmissionIsHarmless(s: Pool, tx: Tx, callback: Option<nat>)
    requires tx.hash in s.table
    ensures Submit(s, tx, callback).pool == s && Submit(s, tx, callback).status != Ok
    ensures SubmitData(s, Some(tx), callback).pool.table == s.table
    ensures forall h :: h in s.table ==>
              h in Enforce(s, tx).pool.table && Enforce(s, tx).pool.table[h].callback == s.table[h].callback
  {
  }
}
