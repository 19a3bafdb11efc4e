/**
 The nonces of pending transactions are kept a second time, as a set in the pool's nonce checker; the
 nonces of recent blocks are in the ledger's. The two sets never overlap, and on ordinary runs the
 first is exactly the set of nonces of the pool.
 */
module NonceIndex {
  import opened TxPoolTypes
  import opened NonceWindow
  import opened PoolState
  import opened PoolRuns
  import opened Removal

  // ----- disjoint nonce sets, on every run -----

  ghost predicate Disjoint(s: Pool) {
    forall n :: n in s.poolNonces ==> n !in s.window.nonces
  }

  ghost function Disjointness(): Pool -> bool {
    (s: Pool) => Disjoint(s)
  }

  lemma UpdatesKeepDisjoint()
    ensures var inv := Disjointness();
            KeptByRemoval(inv) && KeptByInsertion(inv) && KeptByHandOut(inv) && KeptByDropping(inv) &&
            KeptBySealing(inv) && KeptByMarking(inv)
  {
  }

  lemma CommitKeepsDisjoint(s: Pool, id: int, results: seq<TxResult>)
    requires Disjoint(s)
    ensures Disjoint(Commit(s, id, results))
  {
    UpdatesKeepDisjoint();
    CommitToKeeps(s, results, |results|, Disjointness());
    CommitMovesWindow(s, id, results);
  }

  lemma FoldKeepsDisjoint(s: Pool, op: Op)
    requires Disjoint(s) && Enabled(s, op) && IsFold(op)
    ensures Disjoint(Exec(s, op))
  {
    var inv := Disjointness();
    UpdatesKeepDisjoint();
    match op
    case BatchInsertOp(txs) => InsertToKeeps(s, txs, |txs|, inv);
    case CommitOp(id, results) => CommitKeepsDisjoint(s, id, results);
    case CleanOp(order) => CleanToKeeps(s, order, |order|, inv);
    case MaintainOp(order) => HandToKeeps(s, order, MAX_SEND_TRANSACTIONS, |order|, inv);
    case HandOutOp(order, limit) => HandToKeeps(s, order, limit, |order|, inv);
    case SealOp(order, q) => SealToKeeps(s, order, q, |order|, inv);
    case MarkOp(hashes, b, flag) => MarkToKeeps(s, hashes, b, flag, |hashes|, inv);
  }

  lemma EnforceKeepsDisjoint(s: Pool, tx: Tx)
    requires Disjoint(s)
    ensures Disjoint(Enforce(s, tx).pool)
  {
  }

  lemma RemovalKeepsDisjoint(s: Pool, result: TxResult, flag: bool)
    requires Disjoint(s)
    ensures Disjoint(RemoveTx(s, result.hash).pool) && Disjoint(RemoveSubmittedTx(s, result).pool)
    ensures Disjoint(MarkAll(s, flag))
  {
  }

  lemma StepKeepsDisjoint(s: Pool, op: Op)
    requires Disjoint(s) && Enabled(s, op)
    ensures Disjoint(Exec(s, op))
  {
    if IsFold(op) {
      FoldKeepsDisjoint(s, op);
    } else {
      match op
      case SubmitOp(decoded, callback) => if decoded.Some? { SubmitEffect(s, decoded.value, callback); }
      case SubmitTxOp(tx, callback) => SubmitEffect(s, tx, callback);
      case EnforceOp(tx) => EnforceKeepsDisjoint(s, tx);
      case RemoveOp(hash) => RemovalKeepsDisjoint(s, Expiry(hash), true);
      case RemoveSubmittedOp(result) => RemovalKeepsDisjoint(s, result, true);
      case FilterOp(_) =>
      case MarkAllOp(flag) => RemovalKeepsDisjoint(s, Expiry(ZERO_HASH), flag);
      case UnsealedSizeOp =>
    }
  }

  /**
   In every state of every run no nonce is in both sets; so a pool transaction that is dropped because its
   nonce is on chain holds no nonce of the pool's set that would have to be released with it.
   */
  lemma AlwaysDisjoint(tr: seq<Pool>, ops: seq<Op>, k: nat)
    requires IsRun(tr, ops, Enabled) && Disjoint(tr[0]) && k <= |ops|
    ensures Disjoint(tr[k])
    ensures forall h :: h in tr[k].table && SubmittedToChain(tr[k].window, tr[k].table[h]) == NonceCheckFail ==>
              tr[k].table[h].nonce !in tr[k].poolNonces
  {
    forall t, op | Disjoint(t) && Enabled(t, op) ensures Disjoint(Exec(t, op)) {
      StepKeepsDisjoint(t, op);
    }
    RunKeeps(tr, ops, Enabled, Disjointness(), k);
  }

  // ----- index agreement, on ordinary runs -----

  ghost predicate NonceOf(s: Pool, n: Nonce) {
    exists h :: h in s.table && s.table[h].nonce == n
  }

  ghost predicate NonceOfInvalid(s: Pool, n: Nonce) {
    exists h :: h in s.table && h in s.invalidTxs && s.table[h].nonce == n
  }

  /** The pool's nonce set is the set of nonces of the pool, and no two transactions share one. */
  ghost predicate IndexAgrees(s: Pool) {
    && (forall n :: n in s.poolNonces <==> NonceOf(s, n))
    && (forall g, h :: g in s.table && h in s.table && s.table[g].nonce == s.table[h].nonce ==> g == h)
  }

  /** With what keeps it so: the transactions queued for removal are in the pool, with their nonces. */
  ghost predicate Indexed(s: Pool) {
    && IndexAgrees(s)
    && Disjoint(s)
    && (forall h :: h in s.table ==> s.table[h].hash == h)
    && (forall h :: h in s.invalidTxs ==> h in s.table)
    && (forall n :: n in s.invalidNonces <==> NonceOfInvalid(s, n))
  }

  ghost function Indexing(): Pool -> bool {
    (s: Pool) => Indexed(s)
  }

  /** Ordinary use: no forced import and no removal but by commit, of transactions of the pool, and by clean-up. */
  ghost predicate Ordinary(s: Pool, op: Op) {
    Enabled(s, op) &&
    match op
    case EnforceOp(_) => false
    case BatchInsertOp(_) => false
    case RemoveOp(_) => false
    case RemoveSubmittedOp(_) => false
    case CommitOp(_, results) =>
      && s.invalidTxs == {}
      && (forall i :: 0 <= i < |results| ==> results[i].hash in s.table)
      && (forall i, j :: 0 <= i < j < |results| ==> results[i].hash != results[j].hash)
    case _ => true
  }

  /** Nothing the index depends on differs. */
  ghost predicate SameIndex(s: Pool, t: Pool) {
    && t.table.Keys == s.table.Keys
    && (forall h :: h in s.table ==> t.table[h].nonce == s.table[h].nonce && t.table[h].hash == s.table[h].hash)
    && t.poolNonces == s.poolNonces && t.window == s.window
    && t.invalidTxs == s.invalidTxs && t.invalidNonces == s.invalidNonces
  }

  lemma SameIndexKeeps(s: Pool, t: Pool)
    requires Indexed(s) && SameIndex(s, t)
    ensures Indexed(t)
  {
    forall n ensures (NonceOf(t, n) <==> NonceOf(s, n)) && (NonceOfInvalid(t, n) <==> NonceOfInvalid(s, n)) {
      if h :| h in t.table && t.table[h].nonce == n { assert s.table[h].nonce == n; }
      if h :| h in s.table && s.table[h].nonce == n { assert t.table[h].nonce == n; }
      if h :| h in t.table && h in t.invalidTxs && t.table[h].nonce == n { assert s.table[h].nonce == n; }
      if h :| h in s.table && h in s.invalidTxs && s.table[h].nonce == n { assert t.table[h].nonce == n; }
    }
  }

  lemma DropExpiredKeepsIndexed(s: Pool, h: Hash)
    requires Indexed(s) && h in s.table
    ensures Indexed(DropExpired(s, h))
  {
    var t := DropExpired(s, h);
    forall n
      ensures NonceOf(t, n) <==> NonceOf(s, n)
      ensures NonceOfInvalid(t, n) <==> NonceOfInvalid(s, n) || n == s.table[h].nonce
    {
      if n == s.table[h].nonce { assert h in t.table && h in t.invalidTxs; }
    }
  }

  lemma HandOutKeepsIndexed()
    ensures KeptByHandOut(Indexing())
  {
    forall s: Pool, h | Indexed(s) && h in s.table ensures Indexed(HandOne(s, h)) { SameIndexKeeps(s, HandOne(s, h)); }
  }

  lemma SealingKeepsIndexed()
    ensures KeptBySealing(Indexing())
  {
    forall s: Pool, h | Indexed(s) && h in s.table ensures Indexed(SealOne(s, h)) { SameIndexKeeps(s, SealOne(s, h)); }
  }

  /** The nonce of an indexed transaction is never on chain. */
  lemma IndexedIsNotOnChain(s: Pool, h: Hash)
    requires Indexed(s) && h in s.table
    ensures SubmittedToChain(s.window, s.table[h]) != NonceCheckFail
  {
    assert NonceOf(s, s.table[h].nonce);
  }

  lemma NothingCommittedIsDropped()
    ensures KeptByDroppingCommitted(Indexing())
  {
    forall s: Pool, h | Indexed(s) && h in s.table ensures SubmittedToChain(s.window, s.table[h]) != NonceCheckFail {
      IndexedIsNotOnChain(s, h);
    }
  }

  lemma DroppingKeepsIndexed()
    ensures KeptByDroppingExpired(Indexing())
  {
    forall s: Pool, h | Indexed(s) && h in s.table ensures Indexed(DropExpired(s, h)) { DropExpiredKeepsIndexed(s, h); }
  }

  lemma MarkingKeepsIndexed()
    ensures KeptByMarking(Indexing())
  {
    forall s, h, b, flag | Indexed(s) ensures Indexed(MarkStep(s, h, b, flag)) {
      SameIndexKeeps(s, MarkStep(s, h, b, flag));
    }
  }

  lemma AdmitKeepsIndexed(s: Pool, tx: Tx)
    requires Indexed(s) && tx.hash !in s.table && tx.nonce !in s.poolNonces && tx.nonce !in s.window.nonces
    ensures Indexed(Admit(s, tx))
  {
    var t := Admit(s, tx);
    assert forall h :: h in s.table ==> t.table[h] == s.table[h] && h != tx.hash;
    assert t.table[tx.hash].nonce == tx.nonce;
    forall n ensures NonceOf(t, n) <==> NonceOf(s, n) || n == tx.nonce {
      if h :| h in s.table && s.table[h].nonce == n { assert h in t.table; }
    }
    forall n ensures NonceOfInvalid(t, n) <==> NonceOfInvalid(s, n) {
      if h :| h in s.table && h in s.invalidTxs && s.table[h].nonce == n { assert h in t.table; }
    }
    forall h | h in s.table ensures s.table[h].nonce != tx.nonce {
      assert NonceOf(s, s.table[h].nonce);
    }
  }

  lemma SubmitKeepsIndexed(s: Pool, tx: Tx, callback: Option<nat>)
    requires Indexed(s)
    ensures Indexed(Submit(s, tx, callback).pool)
  {
    SubmitEffect(s, tx, callback);
    if Submit(s, tx, callback).status == Ok {
      var admitted := MarkSystem(s, WithCallback(tx, callback));
      AdmitKeepsIndexed(s, admitted);
      SameIndexKeeps(Admit(s, admitted), Submit(s, tx, callback).pool);
    }
  }

  lemma SubmitDataKeepsIndexed(s: Pool, decoded: Option<Tx>, callback: Option<nat>)
    requires Indexed(s)
    ensures Indexed(SubmitData(s, decoded, callback).pool)
  {
    var t := SubmitData(s, decoded, callback).pool;
    if decoded.Some? {
      SubmitKeepsIndexed(s, decoded.value, callback);
      SameIndexKeeps(Submit(s, decoded.value, callback).pool, t);
    } else {
      SameIndexKeeps(s, t);
    }
  }

  lemma FilterKeepsIndexed(s: Pool, hashes: seq<Hash>)
    requires Indexed(s)
    ensures Indexed(Filter(s, hashes).pool) && Indexed(Clamp(s))
  {
    SameIndexKeeps(s, Filter(s, hashes).pool);
    SameIndexKeeps(s, Clamp(s));
  }

  lemma MarkAllKeepsIndexed(s: Pool, flag: bool)
    requires Indexed(s)
    ensures Indexed(MarkAll(s, flag))
  {
    SameIndexKeeps(s, MarkAll(s, flag));
  }

  // ----- removal of a list -----

  /** Removing transactions together with their nonces keeps the index. */
  lemma RemovalKeepsAgreement(s: Pool, t: Pool, gone: set<Hash>, nonces: set<Nonce>)
    requires Indexed(s) && (forall h :: h in t.table <==> h in s.table && h !in gone)
    requires forall h :: h in t.table ==> t.table[h] == s.table[h]
    requires forall n :: n in nonces <==> exists h :: h in gone && h in s.table && s.table[h].nonce == n
    requires t.poolNonces == s.poolNonces - nonces
    ensures IndexAgrees(t)
  {
    forall n ensures n in t.poolNonces <==> NonceOf(t, n) {
      if n in t.poolNonces {
        assert NonceOf(s, n);
        var h :| h in s.table && s.table[h].nonce == n;
        assert h in t.table;
      }
      if h :| h in t.table && t.table[h].nonce == n {
        assert s.table[h].nonce == n && NonceOf(s, n);
      }
    }
  }

  lemma CommitTakesTheirNonces(s: Pool, id: int, results: seq<TxResult>, n: Nonce)
    requires Ordinary(s, CommitOp(id, results))
    ensures n in CommitNonces(s, results) <==>
            exists h :: h in HashesTo(results, |results|) && h in s.table && s.table[h].nonce == n
  {
    hide CommitNonces;
    CommitRecordsExactly(s, results, n);
    forall j | 0 <= j < |results| ensures Takes(s, results, j) && results[j].hash in HashesTo(results, |results|) {
      HashesToLists(results, j, results[j].hash);
      HashesToLists(results, |results|, results[j].hash);
    }
    if h :| h in HashesTo(results, |results|) && h in s.table && s.table[h].nonce == n {
      HashesToLists(results, |results|, h);
      var j :| 0 <= j < |results| && results[j].hash == h;
      assert Records(s, results, j, n);
    }
  }

  lemma CommitKeepsAgreement(s: Pool, id: int, results: seq<TxResult>)
    requires Indexed(s) && Ordinary(s, CommitOp(id, results))
    ensures IndexAgrees(Commit(s, id, results))
  {
    hide Commit, CommitNonces, Arrive;
    CommitContract(s, id, results);
    forall n ensures n in Elems(CommitNonces(s, results)) <==>
        exists h :: h in HashesTo(results, |results|) && h in s.table && s.table[h].nonce == n
    {
      CommitTakesTheirNonces(s, id, results, n);
    }
    RemovalKeepsAgreement(s, Commit(s, id, results), HashesTo(results, |results|), Elems(CommitNonces(s, results)));
  }

  lemma CommitKeepsIndexed(s: Pool, id: int, results: seq<TxResult>)
    requires Indexed(s) && Ordinary(s, CommitOp(id, results))
    ensures Indexed(Commit(s, id, results))
  {
    hide Commit, CommitNonces, Arrive;
    CommitKeepsAgreement(s, id, results);
    CommitKeepsDisjoint(s, id, results);
    CommitContract(s, id, results);
    assert forall n :: !NonceOfInvalid(s, n);
  }

  lemma CleanKeepsIndexed(s: Pool, order: seq<Hash>)
    requires Indexed(s) && Enumerates(order, s.invalidTxs)
    ensures Indexed(Clean(s, order))
  {
    if s.invalidTxs != {} {
      hide Clean;
      CleanContract(s, order);
      forall n
        ensures n in s.invalidNonces <==> exists h :: h in s.invalidTxs && h in s.table && s.table[h].nonce == n
      {
        assert NonceOfInvalid(s, n) <==> n in s.invalidNonces;
      }
      RemovalKeepsAgreement(s, Clean(s, order), s.invalidTxs, s.invalidNonces);
    }
  }

  lemma FoldKeepsIndexed(s: Pool, op: Op)
    requires Indexed(s) && Ordinary(s, op) && IsFold(op)
    ensures Indexed(Exec(s, op))
  {
    var inv := Indexing();
    match op
    case CommitOp(id, results) =>
      CommitKeepsIndexed(s, id, results);
    case CleanOp(order) =>
      CleanKeepsIndexed(s, order);
    case MaintainOp(order) =>
      HandOutKeepsIndexed();
      HandToKeeps(s, order, MAX_SEND_TRANSACTIONS, |order|, inv);
      SameIndexKeeps(FetchNew(s, order, MAX_SEND_TRANSACTIONS).pool, Exec(s, op));
    case HandOutOp(order, limit) =>
      HandOutKeepsIndexed();
      HandToKeeps(s, order, limit, |order|, inv);
    case SealOp(order, q) =>
      NothingCommittedIsDropped();
      DroppingKeepsIndexed();
      SealingKeepsIndexed();
      SealToKeeps(s, order, q, |order|, inv);
      SameIndexKeeps(SealTo(s, order, q, |order|).pool, Exec(s, op));
    case MarkOp(hashes, b, flag) =>
      MarkingKeepsIndexed();
      MarkToKeeps(s, hashes, b, flag, |hashes|, inv);
  }

  lemma StepKeepsIndexed(s: Pool, op: Op)
    requires Indexed(s) && Ordinary(s, op)
    ensures Indexed(Exec(s, op))
  {
    if IsFold(op) {
      FoldKeepsIndexed(s, op);
    } else {
      match op
      case SubmitOp(decoded, callback) => SubmitDataKeepsIndexed(s, decoded, callback);
      case SubmitTxOp(tx, callback) => SubmitKeepsIndexed(s, tx, callback);
      case FilterOp(hashes) => FilterKeepsIndexed(s, hashes);
      case MarkAllOp(flag) => MarkAllKeepsIndexed(s, flag);
      case UnsealedSizeOp => FilterKeepsIndexed(s, []);
    }
  }

  /** Nonce index agreement in every state of every ordinary run. */
  lemma IndexAlwaysAgrees(tr: seq<Pool>, ops: seq<Op>, k: nat)
    requires IsRun(tr, ops, Ordinary) && Indexed(tr[0]) && k <= |ops|
    ensures IndexAgrees(tr[k]) && Disjoint(tr[k])
  {
    forall t, op | Indexed(t) && Ordinary(t, op) ensures Indexed(Exec(t, op)) {
      StepKeepsIndexed(t, op);
    }
    RunKeeps(tr, ops, Ordinary, Indexing(), k);
  }
}
