/**
 Who gets into the pool: exactly when a submission is admitted, why it is refused otherwise, and what
 admission stores.
 */
module Admission {
  import opened TxPoolTypes
  import opened NonceWindow
  import opened PoolState
  import opened PoolRuns
  import opened ProposalClaims
  import opened ProposalVerification

  // ----- the two nonce sets and the block limit -----

  predicate WithinReach(w: Window, blockLimit: int) {
    w.number < blockLimit <= w.number + w.limit
  }

  /** The ledger's checker, in fields: a known nonce is reported as such whatever the block limit. */
  lemma CheckExactly(w: Window, nonce: Nonce, blockLimit: int)
    ensures Check(w, nonce, blockLimit) == NonceCheckFail <==> nonce in w.nonces
    ensures Check(w, nonce, blockLimit) == BlockLimitCheckFail <==> nonce !in w.nonces && !WithinReach(w, blockLimit)
    ensures Check(w, nonce, blockLimit) == Ok <==> nonce !in w.nonces && WithinReach(w, blockLimit)
  {
  }

  // ----- ordinary submission -----

  /** What `verify` asks of a transaction. */
  ghost predicate Passes(s: Pool, tx: Tx) {
    && !tx.invalid && tx.genuine
    && tx.groupId == s.config.groupId && tx.chainId == s.config.chainId
    && tx.nonce !in s.window.nonces && tx.nonce !in s.poolNonces
    && WithinReach(s.window, tx.blockLimit)
  }

  lemma VerifyExactly(s: Pool, tx: Tx)
    ensures VerifyStatus(s, tx) == Ok <==> Passes(s, tx)
  {
  }

  /** A submission is admitted if and only if there is room, the transaction is new, and it passes every check. */
  lemma SubmitAdmitsExactly(s: Pool, tx: Tx, callback: Option<nat>)
    ensures Submit(s, tx, callback).status == Ok <==>
              |s.table| < s.config.poolLimit && tx.hash !in s.table && Passes(s, tx)
  {
    VerifyExactly(s, tx);
  }

  /** The checks before the signature, in their order; the first that fails gives the status. */
  ghost predicate PassesUpTo(s: Pool, tx: Tx, check: nat) {
    && (check > 0 ==> |s.table| < s.config.poolLimit)
    && (check > 1 ==> tx.hash !in s.table)
    && (check > 2 ==> !tx.invalid)
    && (check > 3 ==> tx.groupId == s.config.groupId)
    && (check > 4 ==> tx.chainId == s.config.chainId)
    && (check > 5 ==> tx.nonce !in s.window.nonces)
    && (check > 6 ==> WithinReach(s.window, tx.blockLimit))
    && (check > 7 ==> tx.genuine)
  }

  /** Why a submission is refused. */
  lemma RefusalExactly(s: Pool, tx: Tx, callback: Option<nat>)
    ensures var status := Submit(s, tx, callback).status;
            && (status == TxPoolIsFull <==> |s.table| >= s.config.poolLimit)
            && (status == AlreadyInTxPool <==> PassesUpTo(s, tx, 1) && tx.hash in s.table)
            && (status == InvalidGroupId <==> PassesUpTo(s, tx, 3) && tx.groupId != s.config.groupId)
            && (status == InvalidChainId <==> PassesUpTo(s, tx, 4) && tx.chainId != s.config.chainId)
            && (status == BlockLimitCheckFail <==> PassesUpTo(s, tx, 6) && !WithinReach(s.window, tx.blockLimit))
            && (status == InvalidSignature <==>
                (PassesUpTo(s, tx, 2) && tx.invalid) || (PassesUpTo(s, tx, 7) && !tx.genuine))
            && (status == NonceCheckFail <==>
                (PassesUpTo(s, tx, 5) && tx.nonce in s.window.nonces) ||
                (PassesUpTo(s, tx, 8) && tx.nonce in s.poolNonces))
  {
  }

  /** What an admitted transaction looks like in the pool: its mark and its callback are all that is added. */
  ghost predicate StoresAdmitted(s: Pool, t: Pool, tx: Tx, callback: Option<nat>) {
    && t.table.Keys == s.table.Keys + {tx.hash}
    && (forall h :: h in s.table ==> t.table[h] == s.table[h])
    && t.table[tx.hash] == tx.(
         systemTx := tx.systemTx || tx.to in s.config.systemAddresses,
         callback := if callback.Some? then callback else tx.callback)
    && t.poolNonces == s.poolNonces + {tx.nonce} && t.missed == s.missed - {tx.hash} && t.newTxs && SameChain(s, t)
    && t.invalidTxs == s.invalidTxs && t.invalidNonces == s.invalidNonces && t.receipts == s.receipts
  }

  lemma AdmitStores(s: Pool, tx: Tx, tx': Tx)
    requires tx'.hash == tx.hash && tx'.nonce == tx.nonce && tx.hash !in s.table
    ensures var t := Notify(Admit(s, tx'));
            && t.table == s.table[tx.hash := tx'] && t.poolNonces == s.poolNonces + {tx.nonce}
            && t.missed == s.missed - {tx.hash} && t.newTxs
            && t.invalidTxs == s.invalidTxs && t.invalidNonces == s.invalidNonces && t.receipts == s.receipts
  {
  }

  lemma AdmissionStores(s: Pool, tx: Tx, callback: Option<nat>)
    requires Submit(s, tx, callback).status == Ok
    ensures StoresAdmitted(s, Submit(s, tx, callback).pool, tx, callback)
  {
    hide Submit, VerifyStatus, Admit, Notify;
    SubmitEffect(s, tx, callback);
    assert SameChain(s, Submit(s, tx, callback).pool);
    AdmitStores(s, tx, MarkSystem(s, WithCallback(tx, callback)));
  }

  /** Once a transaction is in, neither it nor any other with its nonce gets in by submission. */
  lemma AdmittedOnce(s: Pool, tx: Tx, callback: Option<nat>, again: Tx, callback': Option<nat>)
    requires Submit(s, tx, callback).status == Ok && (again.hash == tx.hash || again.nonce == tx.nonce)
    ensures var t := Submit(s, tx, callback).pool; Submit(t, again, callback').status != Ok
  {
    hide Submit;
    AdmissionStores(s, tx, callback);
    SubmitAdmitsExactly(Submit(s, tx, callback).pool, again, callback');
  }

  // ----- forced import -----

  /** The transaction is claimed by a proposal other than b. */
  ghost predicate ClaimedByOther(s: Pool, h: Hash, b: Batch) {
    h in s.table && s.table[h].sealed && s.table[h].batchHash != ZERO_HASH &&
    !(s.table[h].batchId == b.id && s.table[h].batchHash == b.hash)
  }

  /**
   Forced import succeeds if and only if the nonce is not on chain and no other proposal claims the transaction,
   whatever the pool's nonces, the pool limit, the block limit, the group and the signature.
   */
  lemma EnforceSucceedsExactly(s: Pool, tx: Tx)
    ensures var status := Enforce(s, tx).status;
            && (status == Ok <==> tx.nonce !in s.window.nonces && !ClaimedByOther(s, tx.hash, BatchOf(tx)))
            && (status == NonceCheckFail <==> tx.nonce in s.window.nonces)
            && (status == AlreadyInTxPool <==>
                tx.nonce !in s.window.nonces && ClaimedByOther(s, tx.hash, BatchOf(tx)))
  {
    CheckExactly(s.window, tx.nonce, tx.blockLimit);
  }

  /** What forced import stores: a new object as it is, or the stored one with new marks; both sealed. */
  ghost predicate StoresClaimed(s: Pool, t: Pool, tx: Tx) {
    && t.table.Keys == s.table.Keys + {tx.hash}
    && (forall h :: h in s.table && h != tx.hash ==> t.table[h] == s.table[h])
    && t.table[tx.hash] == (if tx.hash in s.table then s.table[tx.hash] else tx).(
         sealed := true, batchId := tx.batchId, batchHash := tx.batchHash)
    && t.poolNonces == s.poolNonces && SameChain(s, t)
    && t.invalidTxs == s.invalidTxs && t.invalidNonces == s.invalidNonces && t.receipts == s.receipts
    && t.missed == (if tx.hash in s.table then s.missed else s.missed - {tx.hash})
    && t.newTxs == (tx.hash !in s.table || s.newTxs)
  }

  lemma EnforceClaimsStored(s: Pool, tx: Tx)
    requires tx.hash in s.table && Enforce(s, tx).status == Ok
    ensures StoresClaimed(s, Enforce(s, tx).pool, tx)
  {
    hide SubmittedToChain, CountSealing;
    assert s.table.Keys + {tx.hash} == s.table.Keys;
  }

  lemma EnforceInsertsNew(s: Pool, tx: Tx)
    requires tx.hash !in s.table && Enforce(s, tx).status == Ok
    ensures StoresClaimed(s, Enforce(s, tx).pool, tx)
  {
    hide SubmittedToChain, CountSealing;
    assert Enforce(s, tx).pool.table == s.table[tx.hash := tx.(sealed := true)];
  }

  lemma EnforceStores(s: Pool, tx: Tx)
    requires Enforce(s, tx).status == Ok
    ensures StoresClaimed(s, Enforce(s, tx).pool, tx)
  {
    hide Enforce;
    if tx.hash in s.table { EnforceClaimsStored(s, tx); } else { EnforceInsertsNew(s, tx); }
  }

  lemma RefusedImportChangesNothing(s: Pool, tx: Tx)
    requires Enforce(s, tx).status != Ok
    ensures Enforce(s, tx).pool == s
  {
  }

  // ----- every pool transaction is signed -----

  ghost predicate AllGenuine(s: Pool) {
    forall h :: h in s.table ==> s.table[h].genuine
  }

  ghost function Genuineness(): Pool -> bool {
    (s: Pool) => AllGenuine(s)
  }

  /** No insertion without verification: forced submits bring genuine transactions, or claim stored ones. */
  ghost predicate Signed(s: Pool, op: Op) {
    Enabled(s, op) && !op.BatchInsertOp? && (op.EnforceOp? ==> op.tx.genuine || op.tx.hash in s.table)
  }

  lemma UpdatesKeepGenuine()
    ensures var inv := Genuineness();
            KeptByRemoval(inv) && KeptByHandOut(inv) && KeptByDropping(inv) && KeptBySealing(inv) && KeptByMarking(inv)
  {
    hide SubmittedToChain;
  }

  lemma FoldKeepsGenuine(s: Pool, op: Op)
    requires AllGenuine(s) && Signed(s, op) && IsFold(op)
    ensures AllGenuine(Exec(s, op))
  {
    var inv := Genuineness();
    UpdatesKeepGenuine();
    match op
    case CommitOp(id, results) => CommitToKeeps(s, results, |results|, inv);
    case CleanOp(order) => CleanToKeeps(s, order, |order|, inv);
    case MaintainOp(order) => HandToKeeps(s, order, MAX_SEND_TRANSACTIONS, |order|, inv);
    case HandOutOp(order, limit) => HandToKeeps(s, order, limit, |order|, inv);
    case SealOp(order, q) => SealToKeeps(s, order, q, |order|, inv);
    case MarkOp(hashes, b, flag) => MarkToKeeps(s, hashes, b, flag, |hashes|, inv);
  }

  lemma SubmitKeepsGenuine(s: Pool, tx: Tx, callback: Option<nat>)
    requires AllGenuine(s)
    ensures AllGenuine(Submit(s, tx, callback).pool)
  {
    hide Submit;
    SubmitEffect(s, tx, callback);
    SubmitAdmitsExactly(s, tx, callback);
    if Submit(s, tx, callback).status == Ok { AdmissionStores(s, tx, callback); }
  }

  lemma EnforceKeepsGenuine(s: Pool, tx: Tx)
    requires AllGenuine(s) && (tx.genuine || tx.hash in s.table)
    ensures AllGenuine(Enforce(s, tx).pool)
  {
    hide Enforce;
    if Enforce(s, tx).status == Ok { EnforceStores(s, tx); } else { RefusedImportChangesNothing(s, tx); }
  }

  lemma OthersKeepGenuine(s: Pool, result: TxResult, flag: bool)
    requires AllGenuine(s)
    ensures AllGenuine(RemoveTx(s, result.hash).pool) && AllGenuine(RemoveSubmittedTx(s, result).pool)
    ensures AllGenuine(MarkAll(s, flag))
  {
  }

  lemma StepKeepsGenuine(s: Pool, op: Op)
    requires AllGenuine(s) && Signed(s, op)
    ensures AllGenuine(Exec(s, op))
  {
    hide Submit, Enforce, RemoveTx, RemoveSubmittedTx, MarkAll;
    if IsFold(op) {
      FoldKeepsGenuine(s, op);
    } else {
      match op
      case SubmitOp(decoded, callback) => if decoded.Some? { SubmitKeepsGenuine(s, decoded.value, callback); }
      case SubmitTxOp(tx, callback) => SubmitKeepsGenuine(s, tx, callback);
      case EnforceOp(tx) => EnforceKeepsGenuine(s, tx);
      case MarkAllOp(flag) => OthersKeepGenuine(s, Expiry(ZERO_HASH), flag);
      case RemoveOp(hash) => OthersKeepGenuine(s, Expiry(hash), true);
      case RemoveSubmittedOp(result) => OthersKeepGenuine(s, result, true);
      case FilterOp(_) =>
      case UnsealedSizeOp =>
    }
  }

  /** In every state of every run the pool holds genuine transactions only. */
  lemma AlwaysGenuine(tr: seq<Pool>, ops: seq<Op>, k: nat)
    requires IsRun(tr, ops, Signed) && AllGenuine(tr[0]) && k <= |ops|
    ensures AllGenuine(tr[k])
  {
    forall t, op | AllGenuine(t) && Signed(t, op) ensures AllGenuine(Exec(t, op)) {
      StepKeepsGenuine(t, op);
    }
    RunKeeps(tr, ops, Signed, Genuineness(), k);
  }

  // ----- importing a list for a proposal -----

  /** A forged download is marked, and refused for its signature wherever it is submitted, whatever else is wrong. */
  lemma ForgedIsBarred(s: Pool, t: Pool, tx: Tx, header: Option<Header>)
    requires FreshlyDecoded(tx)
    ensures Prepare(s, tx, header).invalid <==> !Genuinely(s, tx)
    ensures !Genuinely(s, tx) && |t.table| < t.config.poolLimit && tx.hash !in t.table ==>
              Submit(t, Prepare(s, tx, header), None).status == InvalidSignature
  {
    RefusalExactly(t, Prepare(s, tx, header), None);
  }

  /** Signed or stored, not on chain, and not claimed by another proposal. */
  ghost predicate Acceptable(s: Pool, tx: Tx, b: Batch) {
    (tx.genuine || tx.hash in s.table) && tx.nonce !in s.window.nonces && !ClaimedByOther(s, tx.hash, b)
  }

  lemma EnforceKeepsOtherClaims(s: Pool, tx: Tx, h: Hash)
    ensures ClaimedByOther(Enforce(s, tx).pool, h, BatchOf(tx)) <==> ClaimedByOther(s, h, BatchOf(tx))
  {
    hide Enforce;
    if Enforce(s, tx).status == Ok {
      EnforceStores(s, tx);
      EnforceSucceedsExactly(s, tx);
    } else {
      RefusedImportChangesNothing(s, tx);
    }
  }

  lemma {:induction false} ImportLoopExactly(s: Pool, txs: seq<Tx>, header: Header, i: nat, h: Hash)
    requires AllFresh(txs) && SignaturesOk(s, txs) && i <= |txs|
    ensures var acc, b := ImportTo(s, txs, Some(header), i), Batch(header.number, header.hash);
            && (acc.ok <==> forall j :: 0 <= j < i ==> Acceptable(s, txs[j], b))
            && (ClaimedByOther(acc.pool, h, b) <==> ClaimedByOther(s, h, b))
  {
    hide Enforce, SignaturesOk;
    if i > 0 {
      var acc, b := ImportTo(s, txs, Some(header), i - 1), Batch(header.number, header.hash);
      var tx := Prepare(s, txs[i - 1], Some(header));
      assert Genuinely(s, txs[i - 1]) by { SignedAt(s, txs, i - 1); }
      ImportLoopExactly(s, txs, header, i - 1, h);
      ImportLoopExactly(s, txs, header, i - 1, tx.hash);
      EnforceKeepsOtherClaims(acc.pool, tx, h);
      EnforceSucceedsExactly(acc.pool, tx);
    }
  }

  ghost predicate Genuinely(s: Pool, tx: Tx) {
    tx.genuine || tx.hash in s.table
  }

  lemma SignedAt(s: Pool, txs: seq<Tx>, i: nat)
    requires SignaturesOk(s, txs) && i < |txs|
    ensures Genuinely(s, txs[i])
  {
  }

  /**
   Importing a list for a proposal succeeds if and only if every transaction is signed or stored, none is on chain,
   and none is claimed by another proposal.
   */
  lemma ImportSucceedsExactly(s: Pool, txs: seq<Tx>, header: Header)
    requires AllFresh(txs)
    ensures Import(s, txs, Some(header)).ok <==>
            forall i :: 0 <= i < |txs| ==> Acceptable(s, txs[i], Batch(header.number, header.hash))
  {
    hide ImportTo;
    if SignaturesOk(s, txs) {
      ImportLoopExactly(s, txs, header, |txs|, ZERO_HASH);
    }
  }

  // ----- importing a list without a proposal -----

  /** The transaction is admitted when its turn comes. */
  ghost predicate AdmittedInTurn(s: Pool, txs: seq<Tx>, j: nat)
    requires j < |txs|
  {
    var p := ImportTo(s, txs, None, j).pool;
    |p.table| < s.config.poolLimit && txs[j].hash !in p.table && Passes(p, txs[j])
  }

  lemma ImportStarts(s: Pool, txs: seq<Tx>, header: Option<Header>)
    ensures ImportTo(s, txs, header, 0) == Importing(s, true)
  {
  }

  lemma OrdinaryStep(s: Pool, txs: seq<Tx>, j: nat)
    requires AllFresh(txs) && j < |txs| && ImportTo(s, txs, None, j).ok
    ensures var p, r := ImportTo(s, txs, None, j).pool, ImportTo(s, txs, None, j + 1);
            && r.ok
            && SameChain(p, r.pool)
            && (if AdmittedInTurn(s, txs, j) then
                  && r.pool.table.Keys == p.table.Keys + {txs[j].hash}
                  && r.pool.poolNonces == p.poolNonces + {txs[j].nonce}
                else r.pool == p)
  {
    hide Submit;
    var p := ImportTo(s, txs, None, j).pool;
    var tx := Prepare(s, txs[j], None);
    SubmitEffect(p, tx, None);
    SubmitAdmitsExactly(p, tx, None);
    if Submit(p, tx, None).status == Ok { AdmissionStores(p, tx, None); }
  }

  /** An ordinary import always succeeds, and adds exactly the transactions that are admitted in their turn. */
  lemma {:induction false} OrdinaryImportExactly(s: Pool, txs: seq<Tx>, i: nat, h: Hash)
    requires AllFresh(txs) && i <= |txs|
    ensures var r := ImportTo(s, txs, None, i);
            r.ok && (h in r.pool.table <==>
              h in s.table || exists j :: 0 <= j < i && txs[j].hash == h && AdmittedInTurn(s, txs, j))
  {
    hide AdmittedInTurn, ImportTo;
    ImportStarts(s, txs, None);
    if i > 0 {
      OrdinaryImportExactly(s, txs, i - 1, h);
      OrdinaryStep(s, txs, i - 1);
    }
  }

  /** Transactions that each pass now, with hashes and nonces of their own. */
  ghost predicate Separable(s: Pool, txs: seq<Tx>) {
    && |s.table| + |txs| <= s.config.poolLimit
    && (forall j :: 0 <= j < |txs| ==> txs[j].hash !in s.table && Passes(s, txs[j]))
    && (forall j, k :: 0 <= j < k < |txs| ==> txs[j].hash != txs[k].hash && txs[j].nonce != txs[k].nonce)
  }

  function FirstHashes(txs: seq<Tx>, i: nat): set<Hash>
    requires i <= |txs|
  {
    if i == 0 then {} else FirstHashes(txs, i - 1) + {txs[i - 1].hash}
  }

  function FirstNonces(txs: seq<Tx>, i: nat): set<Nonce>
    requires i <= |txs|
  {
    if i == 0 then {} else FirstNonces(txs, i - 1) + {txs[i - 1].nonce}
  }

  lemma {:induction false} FirstAreListed(txs: seq<Tx>, i: nat, h: Hash, n: Nonce)
    requires i <= |txs|
    ensures h in FirstHashes(txs, i) <==> exists j :: 0 <= j < i && txs[j].hash == h
    ensures n in FirstNonces(txs, i) <==> exists j :: 0 <= j < i && txs[j].nonce == n
  {
    if i > 0 { FirstAreListed(txs, i - 1, h, n); }
  }

  /** The pool once the first i of them are in. */
  ghost predicate HasFirst(s: Pool, txs: seq<Tx>, p: Pool, i: nat)
    requires i <= |txs|
  {
    && |p.table.Keys| <= |s.table.Keys| + i && SameChain(s, p)
    && p.table.Keys == s.table.Keys + FirstHashes(txs, i)
    && p.poolNonces == s.poolNonces + FirstNonces(txs, i)
  }

  lemma NextPasses(s: Pool, txs: seq<Tx>, p: Pool, i: nat)
    requires Separable(s, txs) && i < |txs| && HasFirst(s, txs, p, i)
    ensures |p.table| < s.config.poolLimit && txs[i].hash !in p.table && Passes(p, txs[i])
  {
    hide FirstHashes, FirstNonces;
    assert |p.table| == |p.table.Keys| && |s.table| == |s.table.Keys|;
    FirstAreListed(txs, i, txs[i].hash, txs[i].nonce);
    assert txs[i].hash in p.table.Keys <==> txs[i].hash in p.table;
  }

  lemma OneMoreElement<T>(keys: set<T>, key: T)
    ensures |keys + {key}| <= |keys| + 1
  {
    if key in keys { assert keys + {key} == keys; }
  }

  lemma NextIsIn(s: Pool, txs: seq<Tx>, p: Pool, r: Pool, i: nat)
    requires i < |txs| && HasFirst(s, txs, p, i) && SameChain(p, r)
    requires r.table.Keys == p.table.Keys + {txs[i].hash} && r.poolNonces == p.poolNonces + {txs[i].nonce}
    ensures HasFirst(s, txs, r, i + 1)
  {
    OneMoreElement(p.table.Keys, txs[i].hash);
    SetsGrow(s.table.Keys, FirstHashes(txs, i), txs[i].hash);
    SetsGrow(s.poolNonces, FirstNonces(txs, i), txs[i].nonce);
  }

  lemma SetsGrow<T>(a: set<T>, b: set<T>, x: T)
    ensures a + b + {x} == a + (b + {x})
  {
  }

  lemma NoneIsIn(s: Pool, txs: seq<Tx>)
    ensures HasFirst(s, txs, s, 0)
  {
    assert s.table.Keys == s.table.Keys + {} && s.poolNonces == s.poolNonces + {};
  }

  lemma SeparableStep(s: Pool, txs: seq<Tx>, i: nat)
    requires AllFresh(txs) && Separable(s, txs) && i < |txs|
    requires var p := ImportTo(s, txs, None, i); p.ok && HasFirst(s, txs, p.pool, i)
    ensures var r := ImportTo(s, txs, None, i + 1); r.ok && HasFirst(s, txs, r.pool, i + 1)
  {
    hide ImportTo, Separable, Passes, HasFirst, AllFresh;
    NextPasses(s, txs, ImportTo(s, txs, None, i).pool, i);
    OrdinaryStep(s, txs, i);
    NextIsIn(s, txs, ImportTo(s, txs, None, i).pool, ImportTo(s, txs, None, i + 1).pool, i);
  }

  lemma {:induction false} SeparableLoop(s: Pool, txs: seq<Tx>, i: nat)
    requires AllFresh(txs) && Separable(s, txs) && i <= |txs|
    ensures var r := ImportTo(s, txs, None, i); r.ok && HasFirst(s, txs, r.pool, i)
  {
    hide ImportTo, Separable, HasFirst, AllFresh;
    ImportStarts(s, txs, None);
    NoneIsIn(s, txs);
    if i > 0 {
      SeparableLoop(s, txs, i - 1);
      SeparableStep(s, txs, i - 1);
    }
  }

  /** All of them get in. */
  lemma ImportAdmitsAll(s: Pool, txs: seq<Tx>)
    requires AllFresh(txs) && Separable(s, txs)
    ensures var r := Import(s, txs, None); r.ok && forall j :: 0 <= j < |txs| ==> txs[j].hash in r.pool.table
  {
    if txs != [] {
      SeparableLoop(s, txs, |txs|);
      forall j | 0 <= j < |txs| ensures txs[j].hash in Import(s, txs, None).pool.table.Keys {
        FirstAreListed(txs, |txs|, txs[j].hash, txs[j].nonce);
      }
    }
  }

  lemma {:induction false} ImportLoopKeepsGenuine(s: Pool, txs: seq<Tx>, header: Option<Header>, i: nat)
    requires AllGenuine(s) && AllFresh(txs) && i <= |txs| && (header.Some? ==> SignaturesOk(s, txs))
    ensures AllGenuine(ImportTo(s, txs, header, i).pool)
  {
    hide Submit, Enforce;
    if i > 0 {
      ImportLoopKeepsGenuine(s, txs, header, i - 1);
      ImportLoopGrows(s, txs, header, i - 1);
      var p, tx := ImportTo(s, txs, header, i - 1).pool, Prepare(s, txs[i - 1], header);
      SubmitKeepsGenuine(p, tx, None);
      if header.Some? {
        SignedAt(s, txs, i - 1);
        EnforceKeepsGenuine(p, tx);
      }
    }
  }

  /** Whatever is downloaded, with or without a proposal, the pool holds genuine transactions only. */
  lemma ImportKeepsGenuine(s: Pool, txs: seq<Tx>, header: Option<Header>)
    requires AllGenuine(s) && AllFresh(txs)
    ensures AllGenuine(Import(s, txs, header).pool)
  {
    if header.None? || SignaturesOk(s, txs) {
      ImportLoopKeepsGenuine(s, txs, header, |txs|);
    }
  }

  // ----- insertion without verification -----

  /** The transaction that a list brings for h: the first with that hash. */
  ghost predicate FirstWith(txs: seq<Tx>, i: nat, h: Hash, tx: Tx) {
    exists j :: 0 <= j < i && j < |txs| && txs[j] == tx && tx.hash == h && forall k :: 0 <= k < j ==> txs[k].hash != h
  }

  lemma InsertOne(s: Pool, tx: Tx)
    ensures var t := Insert(s, tx).pool;
            && t.table == (if tx.hash in s.table then s.table else s.table[tx.hash := tx])
            && t == s.(table := t.table, newTxs := t.newTxs, sealedCount := t.sealedCount)
            && (t.newTxs <==> s.newTxs || tx.hash !in s.table)
  {
  }

  lemma {:induction false} InsertLoop(s: Pool, txs: seq<Tx>, i: nat, h: Hash)
    requires i <= |txs|
    ensures var t := InsertTo(s, txs, i);
            && t == s.(table := t.table, newTxs := t.newTxs, sealedCount := t.sealedCount)
            && (h in t.table <==> h in s.table || exists j :: 0 <= j < i && txs[j].hash == h)
            && (h in s.table ==> t.table[h] == s.table[h])
            && (h in t.table && h !in s.table ==> FirstWith(txs, i, h, t.table[h]) && t.newTxs)
  {
    hide Insert;
    if i > 0 {
      InsertLoop(s, txs, i - 1, h);
      InsertOne(InsertTo(s, txs, i - 1), txs[i - 1]);
    }
  }

  /** `batchInsert` adds the first transaction of each new hash, replaces none, and waits for none of them any more. */
  lemma BatchInsertContract(s: Pool, txs: seq<Tx>, h: Hash)
    ensures var t := BatchInsert(s, txs);
            && (h in t.table <==> h in s.table || h in Hashes(txs))
            && (h in s.table ==> t.table[h] == s.table[h])
            && (h in t.table && h !in s.table ==> FirstWith(txs, |txs|, h, t.table[h]) && t.newTxs)
            && t.missed == s.missed - Elems(Hashes(txs)) && t.poolNonces == s.poolNonces
  {
    hide InsertTo;
    InsertLoop(s, txs, |txs|, h);
    if j :| 0 <= j < |txs| && txs[j].hash == h { assert Hashes(txs)[j] == h; }
  }
}
