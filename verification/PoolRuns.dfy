/**
 Runs of the transaction pool: any sequence of its operations, and the induction principles the
 invariants of the other modules are proved with.
 */
module PoolRuns {
  import opened TxPoolTypes
  import opened NonceWindow
  import opened PoolState

  datatype Op =
    | SubmitOp(decoded: Option<Tx>, callback: Option<nat>)
    | SubmitTxOp(tx: Tx, callback: Option<nat>)
    | EnforceOp(tx: Tx)
    | BatchInsertOp(txs: seq<Tx>)
    | RemoveOp(hash: Hash)
    | RemoveSubmittedOp(result: TxResult)
    | CommitOp(id: int, results: seq<TxResult>)
    | CleanOp(order: seq<Hash>)
    | HandOutOp(order: seq<Hash>, limit: nat)
    | MaintainOp(order: seq<Hash>)
    | SealOp(order: seq<Hash>, q: Request)
    | FilterOp(hashes: seq<Hash>)
    | MarkOp(hashes: seq<Hash>, batch: Batch, flag: bool)
    | MarkAllOp(flag: bool)
    | UnsealedSizeOp

  function Exec(s: Pool, op: Op): Pool {
    match op
    case SubmitOp(decoded, callback) => SubmitData(s, decoded, callback).pool
    case SubmitTxOp(tx, callback) => Submit(s, tx, callback).pool
    case EnforceOp(tx) => Enforce(s, tx).pool
    case BatchInsertOp(txs) => BatchInsert(s, txs)
    case RemoveOp(hash) => RemoveTx(s, hash).pool
    case RemoveSubmittedOp(result) => RemoveSubmittedTx(s, result).pool
    case CommitOp(id, results) => Commit(s, id, results)
    case CleanOp(order) => Clean(s, order)
    case HandOutOp(order, limit) => FetchNew(s, order, limit).pool
    case MaintainOp(order) => Maintain(s, order).pool
    case SealOp(order, q) => Seal(s, order, q).pool
    case FilterOp(hashes) => Filter(s, hashes).pool
    case MarkOp(hashes, batch, flag) => Mark(s, hashes, batch, flag)
    case MarkAllOp(flag) => MarkAll(s, flag)
    case UnsealedSizeOp => Clamp(s)
  }

  /** What the operation may rely on: decoded objects are fresh, iterations visit every key once. */
  ghost predicate Enabled(s: Pool, op: Op) {
    match op
    case SubmitOp(decoded, _) => decoded.Some? ==> FreshlyDecoded(decoded.value)
    case SubmitTxOp(tx, _) => FreshlyDecoded(tx)
    case EnforceOp(tx) => FreshlyDecoded(tx)
    case BatchInsertOp(txs) => forall i :: 0 <= i < |txs| ==> FreshlyDecoded(txs[i])
    case CleanOp(order) => Enumerates(order, s.invalidTxs)
    case HandOutOp(order, _) => Enumerates(order, s.table.Keys)
    case MaintainOp(order) => Enumerates(order, s.table.Keys)
    case SealOp(order, _) => Enumerates(order, s.table.Keys)
    case _ => true
  }

  /** The operations that fold elementary updates over a list or over the table. */
  predicate IsFold(op: Op) {
    || op.BatchInsertOp? || op.CommitOp? || op.CleanOp? || op.MaintainOp?
    || op.HandOutOp? || op.SealOp? || op.MarkOp?
  }

  ghost predicate StepAt(tr: seq<Pool>, ops: seq<Op>, ok: (Pool, Op) -> bool, k: nat)
    requires |tr| == |ops| + 1 && k < |ops|
  {
    ok(tr[k], ops[k]) && tr[k + 1] == Exec(tr[k], ops[k])
  }

  /** A run: `tr` holds the states between the operations, each of which satisfies `ok` in its state. */
  ghost predicate IsRun(tr: seq<Pool>, ops: seq<Op>, ok: (Pool, Op) -> bool) {
    |tr| == |ops| + 1 && forall k {:trigger StepAt(tr, ops, ok, k)} :: 0 <= k < |ops| ==> StepAt(tr, ops, ok, k)
  }

  lemma RunThen(tr: seq<Pool>, ops: seq<Op>, ok: (Pool, Op) -> bool, op: Op)
    requires IsRun(tr, ops, ok) && ok(tr[|ops|], op)
    ensures IsRun(tr + [Exec(tr[|ops|], op)], ops + [op], ok)
  {
    hide Exec;
    var longer, more := tr + [Exec(tr[|ops|], op)], ops + [op];
    forall k | 0 <= k < |more| ensures StepAt(longer, more, ok, k) {
      assert k < |ops| ==> StepAt(tr, ops, ok, k);
    }
  }

  lemma RunAfter(s: Pool, op: Op, tr: seq<Pool>, ops: seq<Op>, ok: (Pool, Op) -> bool)
    requires IsRun(tr, ops, ok) && ok(s, op) && tr[0] == Exec(s, op)
    ensures IsRun([s] + tr, [op] + ops, ok)
  {
    hide Exec;
    forall k | 0 <= k < |ops| + 1 ensures StepAt([s] + tr, [op] + ops, ok, k) {
      assert k > 0 ==> StepAt(tr, ops, ok, k - 1);
    }
  }

  /** Run invariants: what every admitted operation keeps holds in every state of the run. */
  lemma {:induction false} RunKeeps(tr: seq<Pool>, ops: seq<Op>, ok: (Pool, Op) -> bool, inv: Pool -> bool, k: nat)
    requires IsRun(tr, ops, ok) && inv(tr[0]) && k <= |ops|
    requires forall t, op :: inv(t) && ok(t, op) ==> inv(Exec(t, op))
    ensures inv(tr[k])
  {
    if k > 0 {
      RunKeeps(tr, ops, ok, inv, k - 1);
      assert StepAt(tr, ops, ok, k - 1);
    }
  }

  // ----- what the elementary updates keep, the folds keep -----

  ghost predicate KeptByRemoval(inv: Pool -> bool) {
    forall s, result {:trigger RemoveSubmitted(s, result)} :: inv(s) ==> inv(RemoveSubmitted(s, result).pool)
  }

  ghost predicate KeptByInsertion(inv: Pool -> bool) {
    forall s, tx {:trigger Insert(s, tx)} :: inv(s) && FreshlyDecoded(tx) ==> inv(Insert(s, tx).pool)
  }

  ghost predicate KeptByHandOut(inv: Pool -> bool) {
    forall s: Pool, h {:trigger HandOne(s, h)} :: inv(s) && h in s.table ==> inv(HandOne(s, h))
  }

  ghost predicate KeptByDroppingCommitted(inv: Pool -> bool) {
    forall s: Pool, h {:trigger DropCommitted(s, h)} ::
      inv(s) && h in s.table && SubmittedToChain(s.window, s.table[h]) == NonceCheckFail ==> inv(DropCommitted(s, h))
  }

  ghost predicate KeptByDroppingExpired(inv: Pool -> bool) {
    forall s: Pool, h {:trigger DropExpired(s, h)} ::
      inv(s) && h in s.table && !s.table[h].sealed ==> inv(DropExpired(s, h))
  }

  ghost predicate KeptByDropping(inv: Pool -> bool) {
    KeptByDroppingCommitted(inv) && KeptByDroppingExpired(inv)
  }

  ghost predicate KeptBySealing(inv: Pool -> bool) {
    forall s: Pool, h {:trigger SealOne(s, h)} :: inv(s) && h in s.table ==> inv(SealOne(s, h))
  }

  ghost predicate KeptByMarking(inv: Pool -> bool) {
    forall s, h, b, flag {:trigger MarkStep(s, h, b, flag)} :: inv(s) ==> inv(MarkStep(s, h, b, flag))
  }

  lemma {:induction false} InsertToKeeps(s: Pool, txs: seq<Tx>, i: nat, inv: Pool -> bool)
    requires i <= |txs| && inv(s) && KeptByInsertion(inv)
    requires forall j :: 0 <= j < |txs| ==> FreshlyDecoded(txs[j])
    ensures inv(InsertTo(s, txs, i))
  {
    if i > 0 { InsertToKeeps(s, txs, i - 1, inv); }
  }

  lemma {:induction false} CommitToKeeps(s: Pool, results: seq<TxResult>, i: nat, inv: Pool -> bool)
    requires i <= |results| && inv(s) && KeptByRemoval(inv)
    ensures inv(CommitTo(s, results, i).pool)
  {
    if i > 0 { CommitToKeeps(s, results, i - 1, inv); }
  }

  lemma {:induction false} CleanToKeeps(s: Pool, order: seq<Hash>, i: nat, inv: Pool -> bool)
    requires i <= |order| && inv(s) && KeptByRemoval(inv)
    ensures inv(CleanTo(s, order, i))
  {
    if i > 0 { CleanToKeeps(s, order, i - 1, inv); }
  }

  lemma {:induction false} HandToKeeps(s: Pool, order: seq<Hash>, limit: nat, i: nat, inv: Pool -> bool)
    requires i <= |order| && inv(s) && KeptByHandOut(inv)
    ensures inv(HandTo(s, order, limit, i).pool)
  {
    if i > 0 { HandToKeeps(s, order, limit, i - 1, inv); }
  }

  lemma {:induction false} SealToKeeps(s: Pool, order: seq<Hash>, q: Request, i: nat, inv: Pool -> bool)
    requires i <= |order| && inv(s) && KeptByDropping(inv) && KeptBySealing(inv)
    ensures inv(SealTo(s, order, q, i).pool)
  {
    if i > 0 { SealToKeeps(s, order, q, i - 1, inv); }
  }

  lemma {:induction false} MarkToKeeps(s: Pool, hashes: seq<Hash>, b: Batch, flag: bool, i: nat, inv: Pool -> bool)
    requires i <= |hashes| && inv(s) && KeptByMarking(inv)
    ensures inv(MarkTo(s, hashes, b, flag, i))
  {
    if i > 0 { MarkToKeeps(s, hashes, b, flag, i - 1, inv); }
  }

  // ----- only a commit moves the window -----

  lemma CommitMovesWindow(s: Pool, id: int, results: seq<TxResult>)
    ensures Commit(s, id, results).window == Arrive(s.window, Block(id, CommitNonces(s, results)))
    ensures Commit(s, id, results).config == s.config
  {
  }

  lemma OnlyCommitMovesWindow(s: Pool, op: Op)
    requires !op.CommitOp?
    ensures Exec(s, op).window == s.window && Exec(s, op).config == s.config
  {
  }
}
