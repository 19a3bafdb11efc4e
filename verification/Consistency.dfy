/**
 All invariants of the pool together: a new pool has them, every run keeps them, and importing a list of
 downloaded transactions is such a run.
 */
module Consistency {
  import opened TxPoolTypes
  import opened NonceWindow
  import opened PoolState
  import opened PoolRuns
  import opened SealedCounter
  import opened NewTxs
  import opened OutstandingRequests
  import opened SubmitCallbacks
  import opened NonceIndex
  import opened ProposalClaims
  import opened ProposalVerification
  import Sealing

  ghost predicate Consistent(s: Pool) {
    CounterAgrees(s) && Announced(s) && Outstanding(s) && AtMostOnce(s) && Disjoint(s)
  }

  /** A new pool satisfies every invariant that the theorems over runs start from. */
  lemma NewPoolIsConsistent(config: Config, w: Window)
    requires Coherent(w) && config.poolLimit > 0
    ensures var s := NewPool(config, w);
            Consistent(s) && Indexed(s) && Sealing.LimitsWithinReach(s) && Coherent(s.window)
  {
    assert SealedTxs(map[]) == {};
  }

  /** From a new pool on, every state of every run is consistent. */
  lemma AlwaysConsistent(tr: seq<Pool>, ops: seq<Op>, k: nat)
    requires IsRun(tr, ops, FreshCallback) && Consistent(tr[0]) && k <= |ops|
    ensures Consistent(tr[k])
  {
    forall i | 0 <= i < |ops| ensures StepAt(tr, ops, Enabled, i) {
      assert StepAt(tr, ops, FreshCallback, i);
    }
    CounterAlwaysAgrees(tr, ops, k);
    AlwaysAnnounced(tr, ops, k);
    AlwaysOutstanding(tr, ops, k);
    CallbacksRunAtMostOnce(tr, ops, k);
    AlwaysDisjoint(tr, ops, k);
  }

  // ----- importing is a run -----

  /** For a proposal forced submits of objects that carry its number and hash, otherwise ordinary submits. */
  ghost predicate ImportsFor(op: Op, header: Option<Header>) {
    if header.Some? then op.EnforceOp? && BatchOf(op.tx) == Batch(header.value.number, header.value.hash)
    else op.SubmitTxOp? && op.callback.None?
  }

  ghost predicate IsImport(tr: seq<Pool>, ops: seq<Op>, s: Pool, header: Option<Header>) {
    && IsRun(tr, ops, FreshCallback) && tr[0] == s
    && forall k :: 0 <= k < |ops| ==> ImportsFor(ops[k], header)
  }

  lemma ImportStepIsRun(tr: seq<Pool>, ops: seq<Op>, s: Pool, header: Option<Header>, acc: Importing, tx: Tx)
    returns (longer: seq<Pool>, more: seq<Op>)
    requires IsImport(tr, ops, s, header) && tr[|ops|] == acc.pool && FreshlyDecoded(tx)
    ensures IsImport(longer, more, s, header)
    ensures longer[|more|] == ImportStep(acc, Prepare(s, tx, header), header.Some?).pool
  {
    hide Submit, Enforce;
    var tx' := Prepare(s, tx, header);
    longer, more := tr, ops;
    if acc.ok && !tx'.invalid {
      var op := if header.Some? then EnforceOp(tx') else SubmitTxOp(tx', None);
      RunThen(tr, ops, FreshCallback, op);
      longer, more := tr + [Exec(acc.pool, op)], ops + [op];
    }
  }

  lemma {:induction false} ImportLoopIsRun(s: Pool, txs: seq<Tx>, header: Option<Header>, i: nat)
    returns (tr: seq<Pool>, ops: seq<Op>)
    requires AllFresh(txs) && i <= |txs|
    ensures IsImport(tr, ops, s, header) && tr[|ops|] == ImportTo(s, txs, header, i).pool
  {
    tr, ops := [s], [];
    if i > 0 {
      tr, ops := ImportLoopIsRun(s, txs, header, i - 1);
      tr, ops := ImportStepIsRun(tr, ops, s, header, ImportTo(s, txs, header, i - 1), txs[i - 1]);
    }
  }

  /** `importDownloadedTxs`, whether it succeeds or not, is a run of submissions of the kind its header asks for. */
  lemma ImportIsRun(s: Pool, txs: seq<Tx>, header: Option<Header>) returns (tr: seq<Pool>, ops: seq<Op>)
    requires AllFresh(txs)
    ensures IsImport(tr, ops, s, header) && tr[|ops|] == Import(s, txs, header).pool
  {
    hide ImportTo;
    tr, ops := [s], [];
    if txs != [] && !(header.Some? && !SignaturesOk(s, txs)) {
      tr, ops := ImportLoopIsRun(s, txs, header, |txs|);
    }
  }

  /** So it keeps all invariants, however many of the transactions it refuses. */
  lemma ImportKeepsConsistent(s: Pool, txs: seq<Tx>, header: Option<Header>)
    requires Consistent(s) && AllFresh(txs)
    ensures Consistent(Import(s, txs, header).pool)
  {
    hide Consistent, Import;
    var tr, ops := ImportIsRun(s, txs, header);
    AlwaysConsistent(tr, ops, |ops|);
  }
}
