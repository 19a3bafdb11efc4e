/**
 A transaction imported for a proposal belongs to that proposal until it is released.
 */
module ProposalClaims {
  import opened TxPoolTypes
  import opened PoolState
  import opened PoolRuns

  ghost predicate Claimed(s: Pool, h: Hash, b: Batch) {
    h in s.table && s.table[h].sealed && s.table[h].batchId == b.id && s.table[h].batchHash == b.hash
  }

  ghost function Claims(h: Hash, b: Batch): Pool -> bool {
    (s: Pool) => Claimed(s, h, b)
  }

  function BatchOf(tx: Tx): Batch {
    Batch(tx.batchId, tx.batchHash)
  }

  /** A successful forced submit leaves the transaction claimed for the proposal it was submitted for. */
  lemma EnforceClaims(s: Pool, tx: Tx)
    ensures Enforce(s, tx).status == Ok ==> Claimed(Enforce(s, tx).pool, tx.hash, BatchOf(tx))
  {
  }

  /**
   Exclusivity: a claimed transaction is refused to every other proposal, and the refusal changes
   nothing. For its own proposal, forced submit succeeds again unless the nonce is already on chain.
   */
  lemma ClaimExcludes(s: Pool, tx: Tx, b: Batch)
    requires Claimed(s, tx.hash, b) && b.hash != ZERO_HASH
    ensures Enforce(s, tx).pool == s
    ensures Enforce(s, tx).status == Ok <==>
              BatchOf(tx) == b && SubmittedToChain(s.window, tx) != NonceCheckFail
  {
  }

  /** The operations that end the claim of proposal b on h. */
  ghost predicate Releases(s: Pool, op: Op, h: Hash, b: Batch) {
    match op
    case RemoveOp(hash) => hash == h
    case RemoveSubmittedOp(result) => result.hash == h
    case CommitOp(_, results) => exists i :: 0 <= i < |results| && results[i].hash == h
    case CleanOp(_) => h in s.invalidTxs
    case SealOp(order, q) => !q.avoidDuplicate && h in Seal(s, order, q).txs + Seal(s, order, q).sysTxs
    case MarkOp(hashes, batch, flag) => h in hashes && (if flag then batch != b else batch.hash == b.hash)
    case MarkAllOp(flag) => !flag
    case _ => false
  }

  // ----- removal -----

  lemma {:induction false} CommitReleases(s: Pool, results: seq<TxResult>, i: nat, h: Hash, b: Batch)
    requires i <= |results| && Claimed(s, h, b)
    ensures Claimed(CommitTo(s, results, i).pool, h, b) <==> forall j :: 0 <= j < i ==> results[j].hash != h
    ensures !Claimed(CommitTo(s, results, i).pool, h, b) ==> h !in CommitTo(s, results, i).pool.table
  {
    if i > 0 { CommitReleases(s, results, i - 1, h, b); }
  }

  lemma {:induction false} CleanReleases(s: Pool, order: seq<Hash>, i: nat, h: Hash, b: Batch)
    requires i <= |order| && Claimed(s, h, b)
    ensures Claimed(CleanTo(s, order, i), h, b) <==> h !in order[..i]
    ensures !Claimed(CleanTo(s, order, i), h, b) ==> h !in CleanTo(s, order, i).table
  {
    if i > 0 {
      CleanReleases(s, order, i - 1, h, b);
      assert order[..i] == order[..i - 1] + [order[i - 1]];
    }
  }

  // ----- sealing and marking -----

  lemma SealStepReleases(acc: Sealing, hash: Hash, q: Request, h: Hash, b: Batch)
    requires h in acc.pool.table && acc.pool.table[h].sealed && b.hash != ZERO_HASH
    requires Claimed(acc.pool, h, b) <==> h !in acc.txs && h !in acc.sysTxs
    requires q.avoidDuplicate ==> Claimed(acc.pool, h, b)
    ensures var r := SealStep(acc, hash, q);
            && h in r.pool.table && r.pool.table[h].sealed
            && (Claimed(r.pool, h, b) <==> h !in r.txs && h !in r.sysTxs)
            && (q.avoidDuplicate ==> Claimed(r.pool, h, b))
  {
    hide SubmittedToChain, AsHash;
  }

  lemma {:induction false} SealReleases(s: Pool, order: seq<Hash>, q: Request, i: nat, h: Hash, b: Batch)
    requires i <= |order| && Claimed(s, h, b) && b.hash != ZERO_HASH
    ensures var acc := SealTo(s, order, q, i);
            && h in acc.pool.table && acc.pool.table[h].sealed
            && (Claimed(acc.pool, h, b) <==> h !in acc.txs && h !in acc.sysTxs)
            && (q.avoidDuplicate ==> Claimed(acc.pool, h, b))
  {
    hide SealStep;
    if i > 0 {
      SealReleases(s, order, q, i - 1, h, b);
      SealStepReleases(SealTo(s, order, q, i - 1), order[i - 1], q, h, b);
    }
  }

  /** Once a mark has taken the transaction away from b, later entries of the list cannot give it back. */
  lemma {:induction false} MarkReleases(s: Pool, hashes: seq<Hash>, batch: Batch, flag: bool, i: nat, h: Hash, b: Batch)
    requires i <= |hashes| && Claimed(s, h, b) && b.hash != ZERO_HASH
    ensures var r := MarkTo(s, hashes, batch, flag, i);
            && h in r.table
            && (h !in hashes[..i] ==> Claimed(r, h, b))
            && (h in hashes[..i] && flag ==> Claimed(r, h, batch))
            && (h in hashes[..i] && !flag && batch.hash != b.hash ==> Claimed(r, h, b))
            && (h in hashes[..i] && !flag && batch.hash == b.hash ==> !r.table[h].sealed)
            && (!flag ==> r.table[h].batchHash == b.hash)
  {
    if i > 0 {
      MarkReleases(s, hashes, batch, flag, i - 1, h, b);
      assert hashes[..i] == hashes[..i - 1] + [hashes[i - 1]];
    }
  }

  // ----- folds that leave claims alone -----

  lemma UpdatesKeepClaims(h: Hash, b: Batch)
    ensures KeptByInsertion(Claims(h, b)) && KeptByHandOut(Claims(h, b))
  {
  }

  lemma FoldKeepsClaim(s: Pool, op: Op, h: Hash, b: Batch)
    requires Enabled(s, op) && IsFold(op) && Claimed(s, h, b) && b.hash != ZERO_HASH
    ensures Claimed(Exec(s, op), h, b) <==> !Releases(s, op, h, b)
  {
    UpdatesKeepClaims(h, b);
    match op
    case BatchInsertOp(txs) => InsertToKeeps(s, txs, |txs|, Claims(h, b));
    case CommitOp(id, results) => CommitReleases(s, results, |results|, h, b);
    case CleanOp(order) =>
      CleanReleases(s, order, |order|, h, b);
      assert order[..|order|] == order;
      assert h in order <==> h in Elems(order);
    case MaintainOp(order) => HandToKeeps(s, order, MAX_SEND_TRANSACTIONS, |order|, Claims(h, b));
    case HandOutOp(order, limit) => HandToKeeps(s, order, limit, |order|, Claims(h, b));
    case SealOp(order, q) => SealReleases(s, order, q, |order|, h, b);
    case MarkOp(hashes, batch, flag) =>
      MarkReleases(s, hashes, batch, flag, |hashes|, h, b);
      assert hashes[..|hashes|] == hashes;
  }

  lemma RemovalReleases(s: Pool, result: TxResult, h: Hash, b: Batch)
    requires Claimed(s, h, b)
    ensures Claimed(RemoveTx(s, result.hash).pool, h, b) <==> result.hash != h
    ensures Claimed(RemoveSubmittedTx(s, result).pool, h, b) <==> result.hash != h
  {
  }

  lemma MarkAllReleases(s: Pool, flag: bool, h: Hash, b: Batch)
    requires Claimed(s, h, b)
    ensures Claimed(MarkAll(s, flag), h, b) <==> flag
  {
  }

  /** An operation ends a claim if and only if it is one of the releases. */
  lemma StepKeepsClaim(s: Pool, op: Op, h: Hash, b: Batch)
    requires Enabled(s, op) && Claimed(s, h, b) && b.hash != ZERO_HASH
    ensures Claimed(Exec(s, op), h, b) <==> !Releases(s, op, h, b)
  {
    if IsFold(op) {
      FoldKeepsClaim(s, op, h, b);
    } else {
      match op
      case SubmitOp(decoded, callback) => if decoded.Some? { SubmitEffect(s, decoded.value, callback); }
      case SubmitTxOp(tx, callback) => SubmitEffect(s, tx, callback);
      case EnforceOp(tx) => if tx.hash == h { ClaimExcludes(s, tx, b); }
      case RemoveOp(hash) => RemovalReleases(s, Expiry(hash), h, b);
      case RemoveSubmittedOp(result) => RemovalReleases(s, result, h, b);
      case FilterOp(_) =>
      case MarkAllOp(flag) => MarkAllReleases(s, flag, h, b);
      case UnsealedSizeOp =>
    }
  }

  /** A claim lasts as long as no operation releases it. */
  lemma {:induction false} ClaimLasts(tr: seq<Pool>, ops: seq<Op>, i: nat, m: nat)
    requires IsRun(tr, ops, Enabled) && i < m <= |ops|
    requires ops[i].EnforceOp? && Enforce(tr[i], ops[i].tx).status == Ok && ops[i].tx.batchHash != ZERO_HASH
    requires forall k :: i < k < m ==> !Releases(tr[k], ops[k], ops[i].tx.hash, BatchOf(ops[i].tx))
    ensures Claimed(tr[m], ops[i].tx.hash, BatchOf(ops[i].tx))
  {
    assert StepAt(tr, ops, Enabled, m - 1);
    if m == i + 1 {
      EnforceClaims(tr[i], ops[i].tx);
    } else {
      ClaimLasts(tr, ops, i, m - 1);
      StepKeepsClaim(tr[m - 1], ops[m - 1], ops[i].tx.hash, BatchOf(ops[i].tx));
    }
  }

  /**
   Claim exclusivity over runs: from a successful forced submit for (id, h) with h not zero, every forced
   submit of the same transaction for another proposal fails and changes nothing, as long as no
   operation has released the claim.
   */
  lemma ClaimExclusivity(tr: seq<Pool>, ops: seq<Op>, i: nat, m: nat, other: Tx)
    requires IsRun(tr, ops, Enabled) && i < m <= |ops|
    requires ops[i].EnforceOp? && Enforce(tr[i], ops[i].tx).status == Ok && ops[i].tx.batchHash != ZERO_HASH
    requires forall k :: i < k < m ==> !Releases(tr[k], ops[k], ops[i].tx.hash, BatchOf(ops[i].tx))
    requires other.hash == ops[i].tx.hash && BatchOf(other) != BatchOf(ops[i].tx)
    ensures Enforce(tr[m], other).status != Ok && Enforce(tr[m], other).pool == tr[m]
  {
    ClaimLasts(tr, ops, i, m);
    ClaimExcludes(tr[m], other, BatchOf(ops[i].tx));
  }
}
