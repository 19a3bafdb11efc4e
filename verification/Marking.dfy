/**
 What marking and resetting do to every transaction of the pool.
 */
module Marking {
  import opened TxPoolTypes
  import opened PoolState

  /** A transaction may be unmarked for a batch unless it belongs to another proposal. */
  predicate Unmarkable(tx: Tx, b: Batch) {
    tx.batchHash == ZERO_HASH || tx.batchHash == b.hash
  }

  /** What marking for batch b makes of a transaction: unmarking leaves the batch alone. */
  function Marked(tx: Tx, b: Batch, flag: bool): Tx {
    if flag then tx.(sealed := true, batchId := b.id, batchHash := b.hash)
    else if Unmarkable(tx, b) then tx.(sealed := false)
    else tx
  }

  /** t differs from s in the flags and the counter only. */
  ghost predicate SameButMarks(s: Pool, t: Pool) {
    t.table.Keys == s.table.Keys && t == s.(table := t.table, sealedCount := t.sealedCount)
  }

  lemma MarkOne(s: Pool, hash: Hash, b: Batch, flag: bool)
    ensures var t := MarkStep(s, hash, b, flag);
            && SameButMarks(s, t)
            && (forall h :: h in s.table && h != hash ==> t.table[h] == s.table[h])
            && (hash in s.table ==> t.table[hash] == Marked(s.table[hash], b, flag))
  {
    hide CountSealing, Decrement;
  }

  lemma {:induction false} MarkLoop(s: Pool, hashes: seq<Hash>, b: Batch, flag: bool, i: nat, h: Hash)
    requires i <= |hashes|
    ensures var t := MarkTo(s, hashes, b, flag, i);
            && SameButMarks(s, t)
            && (h in s.table ==>
                t.table[h] == if h in hashes[..i] then Marked(s.table[h], b, flag) else s.table[h])
  {
    hide MarkStep;
    if i > 0 {
      MarkLoop(s, hashes, b, flag, i - 1, h);
      MarkOne(MarkTo(s, hashes, b, flag, i - 1), hashes[i - 1], b, flag);
      assert hashes[..i] == hashes[..i - 1] + [hashes[i - 1]];
    }
  }

  /**
   `batchMarkTxs` marks exactly the listed transactions, however often they are listed: sealing claims each for the
   batch; unsealing spares those of another proposal and leaves the batch of the others alone.
   */
  lemma MarkContract(s: Pool, hashes: seq<Hash>, b: Batch, flag: bool, h: Hash)
    ensures var t := Mark(s, hashes, b, flag);
            && SameButMarks(s, t)
            && (h in s.table ==> t.table[h] == if h in hashes then Marked(s.table[h], b, flag) else s.table[h])
  {
    MarkLoop(s, hashes, b, flag, |hashes|, h);
    assert hashes[..|hashes|] == hashes;
  }

  /** Marking and then unmarking for the same batch leaves unsealed what was unsealed, with the batch of the mark. */
  lemma UnmarkUndoesMark(s: Pool, hashes: seq<Hash>, b: Batch, h: Hash)
    requires h in hashes && h in s.table
    ensures var t := Mark(Mark(s, hashes, b, true), hashes, b, false);
            h in t.table && t.table[h] == s.table[h].(sealed := false, batchId := b.id, batchHash := b.hash)
  {
    hide Mark;
    MarkContract(s, hashes, b, true, h);
    MarkContract(Mark(s, hashes, b, true), hashes, b, false, h);
  }

  /** A reset unseals every transaction and clears its batch; sealing all leaves the batches alone. */
  lemma MarkAllContract(s: Pool, flag: bool, h: Hash)
    ensures var t := MarkAll(s, flag);
            && SameButMarks(s, t)
            && t.sealedCount == (if flag then |s.table| else 0)
            && (h in s.table ==>
                t.table[h] == if flag then s.table[h].(sealed := true)
                              else s.table[h].(sealed := false, batchId := -1, batchHash := ZERO_HASH))
  {
    assert |FlagAll(s.table, flag).Keys| == |s.table.Keys|;
  }

  /** After a reset no proposal claims anything, so any of them may import any transaction that is not on chain. */
  lemma ResetReleasesAll(s: Pool, tx: Tx)
    requires SubmittedToChain(s.window, tx) != NonceCheckFail
    ensures Enforce(MarkAll(s, false), tx).status == Ok
  {
    MarkAllContract(s, false, tx.hash);
  }
}
