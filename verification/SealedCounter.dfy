/**
 `m_sealedTxsSize` is a second account of the sealed flags of the table. Every operation except
 `clear` keeps the two in agreement.
 */
module SealedCounter {
  import opened TxPoolTypes
  import opened PoolState
  import opened PoolRuns

  function SealedTxs(table: map<Hash, Tx>): set<Hash> {
    set h | h in table && table[h].sealed
  }

  ghost predicate CounterAgrees(s: Pool) {
    s.sealedCount == |SealedTxs(s.table)|
  }

  function One(b: bool): nat {
    if b then 1 else 0
  }

  lemma PutCounts(table: map<Hash, Tx>, h: Hash, tx: Tx)
    ensures |SealedTxs(table[h := tx])| + One(h in table && table[h].sealed) == |SealedTxs(table)| + One(tx.sealed)
  {
    var rest := SealedTxs(table) - {h};
    assert SealedTxs(table) == if h in table && table[h].sealed then rest + {h} else rest;
    assert SealedTxs(table[h := tx]) == if tx.sealed then rest + {h} else rest;
  }

  lemma DropCounts(table: map<Hash, Tx>, h: Hash)
    ensures |SealedTxs(table - {h})| + One(h in table && table[h].sealed) == |SealedTxs(table)|
  {
    var rest := SealedTxs(table) - {h};
    assert SealedTxs(table) == if h in table && table[h].sealed then rest + {h} else rest;
    assert SealedTxs(table - {h}) == rest;
  }

  lemma SealedAtMostAll(s: Pool)
    requires CounterAgrees(s)
    ensures s.sealedCount <= |s.table| && Clamp(s) == s
  {
    var keys := s.table.Keys;
    assert keys == SealedTxs(s.table) + (keys - SealedTxs(s.table));
  }

  /** While the counter agrees, the notifier is told the true number of unsealed transactions. */
  lemma UnsealedSizeIsTrue(s: Pool)
    requires CounterAgrees(s)
    ensures UnsealedSize(s) == |set h | h in s.table && !s.table[h].sealed|
    ensures Clamp(s) == s
  {
    SealedAtMostAll(s);
    var keys := s.table.Keys;
    assert keys == SealedTxs(s.table) + (set h | h in s.table && !s.table[h].sealed);
  }

  /** Where the counter exceeds the table, the clamp cuts it down to the table's size; otherwise nothing happens. */
  lemma ClampRepairs(s: Pool)
    ensures Clamp(s) == s.(sealedCount := Clamp(s).sealedCount) && Clamp(s).sealedCount <= |s.table|
    ensures s.sealedCount <= |s.table| ==> Clamp(s) == s
    ensures s.sealedCount > |s.table| ==> Clamp(s).sealedCount == |s.table| && UnsealedSize(s) == 0
    ensures UnsealedSize(Clamp(s)) == UnsealedSize(s)
  {
  }

  /** The operations that tell the sealer how much there is left to seal. */
  predicate Notifies(s: Pool, op: Op) {
    match op
    case SubmitOp(decoded, callback) => decoded.Some? && Submit(s, decoded.value, callback).status == Ok
    case SubmitTxOp(tx, callback) => Submit(s, tx, callback).status == Ok
    case EnforceOp(tx) => tx.hash !in s.table && Enforce(s, tx).status == Ok
    case RemoveOp(_) => true
    case RemoveSubmittedOp(_) => true
    case CommitOp(_, _) => true
    case CleanOp(_) => s.invalidTxs != {}
    case SealOp(_, _) => true
    case MarkAllOp(_) => true
    case UnsealedSizeOp => true
    case _ => false
  }

  lemma NotifyFits(s: Pool)
    ensures SameChain(s, Notify(s)) && (s.config.notifies ==> Notify(s).sealedCount <= |Notify(s).table|)
  {
  }

  lemma SubmissionNotifies(s: Pool, tx: Tx, callback: Option<nat>)
    requires Submit(s, tx, callback).status == Ok && s.config.notifies
    ensures var t := Submit(s, tx, callback).pool; t.sealedCount <= |t.table|
  {
    hide Submit, Notify;
    SubmitEffect(s, tx, callback);
    NotifyFits(Admit(s, MarkSystem(s, WithCallback(tx, callback))));
  }

  lemma ImportNotifies(s: Pool, tx: Tx)
    requires tx.hash !in s.table && Enforce(s, tx).status == Ok && s.config.notifies
    ensures var t := Enforce(s, tx).pool; t.sealedCount <= |t.table|
  {
    hide SubmittedToChain, CountSealing;
  }

  lemma RemovalNotifies(s: Pool, result: TxResult)
    requires s.config.notifies
    ensures var t := RemoveTx(s, result.hash).pool; t.sealedCount <= |t.table|
    ensures var t := RemoveSubmittedTx(s, result).pool; t.sealedCount <= |t.table|
  {
    hide Notify, Remove;
    NotifyFits(Remove(s, result.hash).pool);
  }

  /** Agreement is what the decrement rests on: from a counter of zero it wraps, and then nothing seems left to seal. */
  lemma MiscountWraps(s: Pool, h: Hash)
    requires h in s.table && s.table[h].sealed && s.sealedCount == 0 && |s.table| <= SIZE_MAX
    ensures var t := Remove(s, h).pool; t.sealedCount == SIZE_MAX && UnsealedSize(t) == 0
  {
    assert Remove(s, h).pool.table.Keys == s.table.Keys - {h};
    assert |Remove(s, h).pool.table.Keys| <= |s.table.Keys|;
  }

  /** Whatever the counter was, once the sealer has been told the counter is within the size of the pool again. */
  lemma NotificationRepairs(s: Pool, op: Op)
    requires Notifies(s, op) && (s.config.notifies || op.UnsealedSizeOp?)
    ensures Exec(s, op).sealedCount <= |Exec(s, op).table|
  {
    hide CommitTo, CleanTo, SealTo, Notify, Clamp, Submit, Enforce, FlagAll, Remove, Admit, NotifyResult;
    match op
    case SubmitOp(decoded, callback) => SubmissionNotifies(s, decoded.value, callback);
    case SubmitTxOp(tx, callback) => SubmissionNotifies(s, tx, callback);
    case EnforceOp(tx) => ImportNotifies(s, tx);
    case RemoveOp(hash) => RemovalNotifies(s, Expiry(hash));
    case RemoveSubmittedOp(result) => RemovalNotifies(s, result);
    case CommitOp(id, results) => NotifyFits(CommitTo(s, results, |results|).pool);
    case CleanOp(order) => NotifyFits(CleanTo(s, order, |order|));
    case SealOp(order, q) => NotifyFits(SealTo(s, order, q, |order|).pool);
    case MarkAllOp(flag) =>
      NotifyFits(s.(table := FlagAll(s.table, flag), sealedCount := if flag then |s.table| else 0));
    case UnsealedSizeOp => ClampRepairs(s);
  }

  /** While the counter agrees, taking a sealed transaction out never wraps it around. */
  lemma DecrementNeverWraps(s: Pool, h: Hash)
    requires CounterAgrees(s) && h in s.table && s.table[h].sealed
    ensures Decrement(s.sealedCount) == s.sealedCount - 1
  {
    assert h in SealedTxs(s.table);
  }

  lemma FlaggedCounts(table: map<Hash, Tx>, flag: bool)
    ensures |SealedTxs(FlagAll(table, flag))| == if flag then |table| else 0
  {
    assert SealedTxs(FlagAll(table, flag)) == if flag then table.Keys else {};
  }

  lemma MarkAllCounts(s: Pool, flag: bool)
    ensures CounterAgrees(MarkAll(s, flag))
  {
    FlaggedCounts(s.table, flag);
    assert |FlagAll(s.table, flag).Keys| == |s.table.Keys|;
  }

  lemma UpdateCounts(s: Pool, h: Hash)
    requires CounterAgrees(s) && h in s.table
    ensures CounterAgrees(HandOne(s, h)) && CounterAgrees(DropCommitted(s, h)) && CounterAgrees(SealOne(s, h))
  {
    PutCounts(s.table, h, HandOne(s, h).table[h]);
    PutCounts(s.table, h, DropCommitted(s, h).table[h]);
    PutCounts(s.table, h, SealOne(s, h).table[h]);
  }

  lemma MarkCounts(s: Pool, h: Hash, b: Batch, flag: bool)
    requires CounterAgrees(s)
    ensures CounterAgrees(MarkStep(s, h, b, flag))
  {
    var r := MarkStep(s, h, b, flag);
    if h in s.table {
      PutCounts(s.table, h, r.table[h]);
      assert h in SealedTxs(s.table) <==> s.table[h].sealed;
    }
    if r.table == s.table { assert r == s; }
  }

  lemma RemoveCounts(s: Pool, hash: Hash)
    requires CounterAgrees(s)
    ensures CounterAgrees(Remove(s, hash).pool)
  {
    DropCounts(s.table, hash);
    assert hash in s.table && s.table[hash].sealed ==> hash in SealedTxs(s.table);
  }

  lemma RemovalCounts(s: Pool, result: TxResult)
    requires CounterAgrees(s)
    ensures CounterAgrees(RemoveTx(s, result.hash).pool) && CounterAgrees(RemoveSubmittedTx(s, result).pool)
  {
    RemoveCounts(s, result.hash);
    SealedAtMostAll(Remove(s, result.hash).pool);
  }

  lemma SubmitDataCounts(s: Pool, decoded: Option<Tx>, callback: Option<nat>)
    requires CounterAgrees(s) && (decoded.Some? ==> !decoded.value.sealed)
    ensures CounterAgrees(SubmitData(s, decoded, callback).pool)
  {
    if decoded.Some? { SubmitCounts(s, decoded.value, callback); }
  }

  lemma InsertCounts(s: Pool, tx: Tx)
    requires tx.hash !in s.table && s.sealedCount == |SealedTxs(s.table)| + One(tx.sealed)
    ensures CounterAgrees(Insert(s, tx).pool)
  {
    PutCounts(s.table, tx.hash, tx);
    SealedAtMostAll(s.(table := s.table[tx.hash := tx]));
  }

  lemma SubmitCounts(s: Pool, tx: Tx, callback: Option<nat>)
    requires CounterAgrees(s) && !tx.sealed
    ensures CounterAgrees(Submit(s, tx, callback).pool)
  {
    if tx.hash !in s.table {
      InsertCounts(s.(poolNonces := s.poolNonces + {tx.nonce}), MarkSystem(s, WithCallback(tx, callback)));
    }
  }

  lemma EnforceCounts(s: Pool, tx: Tx)
    requires CounterAgrees(s) && !tx.sealed
    ensures CounterAgrees(Enforce(s, tx).pool)
  {
    if tx.hash in s.table {
      PutCounts(s.table, tx.hash, Claim(s.table[tx.hash], tx));
    } else {
      InsertCounts(s.(sealedCount := CountSealing(s, tx)), tx.(sealed := true));
    }
  }

  ghost function Agreeing(): Pool -> bool {
    (s: Pool) => CounterAgrees(s)
  }

  lemma RemovalKeepsCounter()
    ensures KeptByRemoval(Agreeing())
  {
    forall s, result | CounterAgrees(s) ensures CounterAgrees(RemoveSubmitted(s, result).pool) {
      RemoveCounts(s, result.hash);
    }
  }

  lemma InsertionKeepsCounter()
    ensures KeptByInsertion(Agreeing())
  {
    forall s, tx | CounterAgrees(s) && FreshlyDecoded(tx) ensures CounterAgrees(Insert(s, tx).pool) {
      if tx.hash !in s.table { InsertCounts(s, tx); }
    }
  }

  lemma HandingOutKeepsCounter()
    ensures KeptByHandOut(Agreeing())
  {
    forall s: Pool, h | CounterAgrees(s) && h in s.table ensures CounterAgrees(HandOne(s, h)) { UpdateCounts(s, h); }
  }

  lemma DroppingKeepsCounter()
    ensures KeptByDropping(Agreeing())
  {
    forall s: Pool, h | CounterAgrees(s) && h in s.table
      ensures CounterAgrees(DropCommitted(s, h)) && CounterAgrees(DropExpired(s, h))
    {
      UpdateCounts(s, h);
      assert DropExpired(s, h).table == s.table;
    }
  }

  lemma SealingKeepsCounter()
    ensures KeptBySealing(Agreeing())
  {
    forall s: Pool, h | CounterAgrees(s) && h in s.table ensures CounterAgrees(SealOne(s, h)) { UpdateCounts(s, h); }
  }

  lemma MarkingKeepsCounter()
    ensures KeptByMarking(Agreeing())
  {
    forall s, h, b, flag | CounterAgrees(s) ensures CounterAgrees(MarkStep(s, h, b, flag)) {
      MarkCounts(s, h, b, flag);
    }
  }

  lemma FoldCounts(s: Pool, op: Op)
    requires CounterAgrees(s) && Enabled(s, op) && IsFold(op)
    ensures CounterAgrees(Exec(s, op))
  {
    var inv := Agreeing();
    RemovalKeepsCounter();
    InsertionKeepsCounter();
    HandingOutKeepsCounter();
    DroppingKeepsCounter();
    SealingKeepsCounter();
    MarkingKeepsCounter();
    match op
    case BatchInsertOp(txs) =>
      InsertToKeeps(s, txs, |txs|, inv);
    case CommitOp(id, results) =>
      CommitToKeeps(s, results, |results|, inv);
      SealedAtMostAll(CommitTo(s, results, |results|).pool);
    case CleanOp(order) =>
      CleanToKeeps(s, order, |order|, inv);
      SealedAtMostAll(CleanTo(s, order, |order|));
    case MaintainOp(order) =>
      HandToKeeps(s, order, MAX_SEND_TRANSACTIONS, |order|, inv);
    case HandOutOp(order, limit) =>
      HandToKeeps(s, order, limit, |order|, inv);
    case SealOp(order, q) =>
      SealToKeeps(s, order, q, |order|, inv);
      SealedAtMostAll(SealTo(s, order, q, |order|).pool);
    case MarkOp(hashes, b, flag) =>
      MarkToKeeps(s, hashes, b, flag, |hashes|, inv);
  }

  lemma StepCounts(s: Pool, op: Op)
    requires CounterAgrees(s) && Enabled(s, op)
    ensures CounterAgrees(Exec(s, op))
  {
    if IsFold(op) {
      FoldCounts(s, op);
    } else {
      match op
      case SubmitOp(decoded, callback) => SubmitDataCounts(s, decoded, callback);
      case SubmitTxOp(tx, callback) => SubmitCounts(s, tx, callback);
      case EnforceOp(tx) => EnforceCounts(s, tx);
      case RemoveOp(hash) => RemovalCounts(s, Expiry(hash));
      case RemoveSubmittedOp(result) => RemovalCounts(s, result);
      case FilterOp(_) =>
      case MarkAllOp(flag) => MarkAllCounts(s, flag);
      case UnsealedSizeOp => SealedAtMostAll(s);
    }
  }

  /** Sealed-counter agreement in every state of every run. */
  lemma CounterAlwaysAgrees(tr: seq<Pool>, ops: seq<Op>, k: nat)
    requires IsRun(tr, ops, Enabled) && CounterAgrees(tr[0]) && k <= |ops|
    ensures CounterAgrees(tr[k]) && tr[k].sealedCount <= |tr[k].table|
    ensures UnsealedSize(tr[k]) == |set h | h in tr[k].table && !tr[k].table[h].sealed|
  {
    forall t, op | CounterAgrees(t) && Enabled(t, op) ensures CounterAgrees(Exec(t, op)) {
      StepCounts(t, op);
    }
    RunKeeps(tr, ops, Enabled, Agreeing(), k);
    SealedAtMostAll(tr[k]);
    UnsealedSizeIsTrue(tr[k]);
  }

  /** Freshness is what agreement rests on: a submitted object that is already sealed breaks it. */
  lemma SealedSubmissionMiscounts(s: Pool, tx: Tx, callback: Option<nat>)
    requires CounterAgrees(s) && Submit(s, tx, callback).status == Ok
    ensures CounterAgrees(Submit(s, tx, callback).pool) <==> !tx.sealed
  {
    var tx1 := MarkSystem(s, WithCallback(tx, callback));
    PutCounts(s.table, tx.hash, tx1);
    SealedAtMostAll(s);
    SubsetOfKeys(s.table[tx.hash := tx1]);
  }

  /** The same for forced import, which counts a new object only if it is not sealed yet. */
  lemma SealedImportMiscounts(s: Pool, tx: Tx)
    requires CounterAgrees(s)
    ensures CounterAgrees(Enforce(s, tx).pool) <==>
              !(tx.sealed && tx.hash !in s.table && Enforce(s, tx).status == Ok)
  {
    if tx.hash in s.table {
      PutCounts(s.table, tx.hash, Claim(s.table[tx.hash], tx));
    } else if tx.sealed {
      PutCounts(s.table, tx.hash, tx);
      SealedAtMostAll(s);
      SubsetOfKeys(s.table[tx.hash := tx]);
    } else {
      EnforceCounts(s, tx);
    }
  }

  lemma SubsetOfKeys(table: map<Hash, Tx>)
    ensures |SealedTxs(table)| <= |table|
  {
    assert table.Keys == SealedTxs(table) + (table.Keys - SealedTxs(table));
  }
}
