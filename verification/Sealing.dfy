/**
 `batchFetchTxs`: what is handed to the sealer, and that a committed transaction never is again.
 */
module Sealing {
  import opened TxPoolTypes
  import opened NonceWindow
  import opened PoolState
  import opened PoolRuns
  import opened Removal

  /** The transactions a request hands to the sealer. */
  function HandedOver(s: Pool, order: seq<Hash>, q: Request): seq<Hash> {
    Seal(s, order, q).txs + Seal(s, order, q).sysTxs
  }

  ghost predicate Picked(acc: Sealing, h: Hash) {
    h in acc.txs || h in acc.sysTxs
  }

  function Count(acc: Sealing): nat {
    |acc.txs| + |acc.sysTxs|
  }

  ghost predicate OnChain(s: Pool, h: Hash) {
    h in s.table && SubmittedToChain(s.window, s.table[h]) == NonceCheckFail
  }

  ghost predicate Expired(s: Pool, h: Hash) {
    h in s.table && SubmittedToChain(s.window, s.table[h]) == BlockLimitCheckFail && !s.table[h].sealed
  }

  /** A transaction the request may hand over: new to the sealer, not avoided, and passing both checks. */
  ghost predicate Eligible(s: Pool, q: Request, h: Hash) {
    && h in s.table && h !in s.invalidTxs && h !in q.avoid && !s.table[h].sealed
    && SubmittedToChain(s.window, s.table[h]) == Ok
  }

  // ----- the state of the loop -----

  /** Exactly the picked transactions are sealed; one found on chain may have lost its callback. */
  ghost predicate SealsPicked(s: Pool, acc: Sealing) {
    && acc.pool.table.Keys == s.table.Keys
    && acc.pool.sealedCount == s.sealedCount + Count(acc)
    && (forall h :: h in s.table && Picked(acc, h) ==>
        acc.pool.table[h] == s.table[h].(sealed := true, batchId := -1, batchHash := ZERO_HASH))
    && (forall h :: h in s.table && !Picked(acc, h) ==>
        acc.pool.table[h] == s.table[h] ||
        (OnChain(s, h) && acc.pool.table[h] == s.table[h].(callback := None)))
  }

  /** The transactions recorded for removal. */
  ghost predicate RecordsInvalid(s: Pool, acc: Sealing) {
    && s.invalidTxs <= acc.pool.invalidTxs
    && s.invalidNonces <= acc.pool.invalidNonces
    && (forall h :: h in acc.pool.invalidTxs && h !in s.invalidTxs ==>
        OnChain(s, h) || Expired(s, h) || exists g :: OnChain(s, g) && h == AsHash(s.table[g].nonce))
    && (forall n :: n in acc.pool.invalidNonces && n !in s.invalidNonces ==>
        exists h :: Expired(s, h) && s.table[h].nonce == n)
    && acc.pool == s.(table := acc.pool.table, sealedCount := acc.pool.sealedCount,
                      invalidTxs := acc.pool.invalidTxs, invalidNonces := acc.pool.invalidNonces)
  }

  ghost predicate Unvisited(s: Pool, order: seq<Hash>, i: nat, acc: Sealing) {
    forall j :: i <= j < |order| && order[j] in s.table && order[j] in acc.pool.table ==>
      acc.pool.table[order[j]] == s.table[order[j]] && !Picked(acc, order[j])
  }

  ghost predicate PicksEligible(s: Pool, q: Request, acc: Sealing) {
    && (forall h :: h in acc.txs ==> Eligible(s, q, h) && !s.table[h].systemTx)
    && (forall h :: h in acc.sysTxs ==> Eligible(s, q, h) && s.table[h].systemTx)
    && (forall a, b :: 0 <= a < b < |acc.txs| ==> acc.txs[a] != acc.txs[b])
    && (forall a, b :: 0 <= a < b < |acc.sysTxs| ==> acc.sysTxs[a] != acc.sysTxs[b])
  }

  ghost predicate WithinLimit(q: Request, acc: Sealing) {
    && Count(acc) <= (if q.limit == 0 then 1 else q.limit)
    && (acc.full <==> Count(acc) > 0 && Count(acc) >= q.limit)
  }

  /** Sealed, avoided or recorded for removal: nothing the request could still hand over. */
  ghost predicate Settled(q: Request, t: Pool, h: Hash) {
    h in t.table && (t.table[h].sealed || h in q.avoid || h in t.invalidTxs)
  }

  ghost predicate SettlesVisited(q: Request, order: seq<Hash>, i: nat, acc: Sealing) {
    !acc.full ==> forall j :: 0 <= j < i && j < |order| && order[j] in acc.pool.table ==> Settled(q, acc.pool, order[j])
  }

  ghost predicate LoopState(s: Pool, order: seq<Hash>, q: Request, i: nat, acc: Sealing) {
    && SealsPicked(s, acc) && RecordsInvalid(s, acc) && Unvisited(s, order, i, acc)
    && PicksEligible(s, q, acc) && WithinLimit(q, acc) && SettlesVisited(q, order, i, acc)
  }

  // ----- one iteration -----

  lemma StepTouchesOne(acc: Sealing, hash: Hash, q: Request)
    ensures var r := SealStep(acc, hash, q);
            && r.pool.table.Keys == acc.pool.table.Keys
            && (forall h :: h in acc.pool.table && h != hash ==> r.pool.table[h] == acc.pool.table[h])
            && (forall h :: h != hash ==> (Picked(r, h) <==> Picked(acc, h)))
  {
  }

  /** What one turn does to the transaction it visits, if that is not sealed when it may be picked. */
  lemma StepAtVisited(acc: Sealing, hash: Hash, q: Request)
    requires q.avoidDuplicate && hash in acc.pool.table && !Picked(acc, hash)
    ensures var s, r := acc.pool, SealStep(acc, hash, q);
            hash in r.pool.table &&
            if Picked(r, hash) then
              && r.pool.table[hash] == s.table[hash].(sealed := true, batchId := -1, batchHash := ZERO_HASH)
              && r.pool.sealedCount == s.sealedCount + 1 && Count(r) == Count(acc) + 1
            else
              && (r.pool.table[hash] == s.table[hash] ||
                  (OnChain(s, hash) && r.pool.table[hash] == s.table[hash].(callback := None)))
              && r.pool.sealedCount == s.sealedCount && Count(r) == Count(acc)
  {
    hide CheckBlockLimit, AsHash;
  }

  /** Where a transaction stands depends on it and on the window only. */
  lemma SameStanding(s: Pool, t: Pool, h: Hash)
    requires h in s.table && h in t.table && s.table[h] == t.table[h] && s.window == t.window
    ensures OnChain(s, h) == OnChain(t, h) && Expired(s, h) == Expired(t, h)
  {
  }

  lemma StepSeals(s: Pool, order: seq<Hash>, q: Request, i: nat, acc: Sealing)
    requires i < |order| && q.avoidDuplicate && order[i] in s.table
    requires SealsPicked(s, acc) && RecordsInvalid(s, acc) && Unvisited(s, order, i, acc)
    ensures SealsPicked(s, SealStep(acc, order[i], q))
  {
    hide SealStep, Picked, Count, OnChain;
    assert acc.pool.table[order[i]] == s.table[order[i]] && !Picked(acc, order[i]);
    SameStanding(s, acc.pool, order[i]);
    StepTouchesOne(acc, order[i], q);
    StepAtVisited(acc, order[i], q);
  }

  lemma StepRecords(s: Pool, order: seq<Hash>, q: Request, i: nat, acc: Sealing)
    requires i < |order| && q.avoidDuplicate && order[i] in s.table
    requires SealsPicked(s, acc) && RecordsInvalid(s, acc) && Unvisited(s, order, i, acc)
    ensures RecordsInvalid(s, SealStep(acc, order[i], q))
  {
    assert acc.pool.table[order[i]] == s.table[order[i]];
  }

  lemma StepVisits(s: Pool, order: seq<Hash>, q: Request, i: nat, acc: Sealing)
    requires i < |order| && Unvisited(s, order, i, acc)
    requires forall a, b :: 0 <= a < b < |order| ==> order[a] != order[b]
    ensures Unvisited(s, order, i + 1, SealStep(acc, order[i], q))
  {
    var r := SealStep(acc, order[i], q);
    assert forall h :: Picked(r, h) ==> Picked(acc, h) || h == order[i];
  }

  lemma OnlyEligibleIsPicked(s: Pool, q: Request, acc: Sealing, h: Hash)
    requires q.avoidDuplicate && h in s.table && h in acc.pool.table && acc.pool.table[h] == s.table[h]
    requires s.invalidTxs <= acc.pool.invalidTxs && acc.pool.window == s.window
    ensures var r := SealStep(acc, h, q);
            || (r.txs == acc.txs && r.sysTxs == acc.sysTxs)
            || (Eligible(s, q, h) && !s.table[h].systemTx && r.txs == acc.txs + [h] && r.sysTxs == acc.sysTxs)
            || (Eligible(s, q, h) && s.table[h].systemTx && r.txs == acc.txs && r.sysTxs == acc.sysTxs + [h])
  {
  }

  lemma StepPicks(s: Pool, order: seq<Hash>, q: Request, i: nat, acc: Sealing)
    requires i < |order| && q.avoidDuplicate && order[i] in s.table
    requires SealsPicked(s, acc) && RecordsInvalid(s, acc) && Unvisited(s, order, i, acc)
    requires PicksEligible(s, q, acc)
    ensures PicksEligible(s, q, SealStep(acc, order[i], q))
  {
    hide SealStep, Eligible;
    assert acc.pool.table[order[i]] == s.table[order[i]] && !Picked(acc, order[i]);
    OnlyEligibleIsPicked(s, q, acc, order[i]);
  }

  lemma StepCounts(acc: Sealing, hash: Hash, q: Request)
    requires WithinLimit(q, acc)
    ensures WithinLimit(q, SealStep(acc, hash, q))
  {
  }

  lemma StepSettles(s: Pool, order: seq<Hash>, q: Request, i: nat, acc: Sealing)
    requires i < |order| && q.avoidDuplicate
    requires SettlesVisited(q, order, i, acc)
    ensures SettlesVisited(q, order, i + 1, SealStep(acc, order[i], q))
  {
    var r := SealStep(acc, order[i], q);
    assert r.pool.table.Keys == acc.pool.table.Keys;
    assert forall h :: Settled(q, acc.pool, h) ==> Settled(q, r.pool, h);
  }

  lemma {:induction false} SealLoop(s: Pool, order: seq<Hash>, q: Request, i: nat)
    requires i <= |order| && q.avoidDuplicate && Enumerates(order, s.table.Keys)
    ensures LoopState(s, order, q, i, SealTo(s, order, q, i))
  {
    if i > 0 {
      var acc := SealTo(s, order, q, i - 1);
      SealLoop(s, order, q, i - 1);
      assert order[i - 1] in Elems(order);
      StepSeals(s, order, q, i - 1, acc);
      StepRecords(s, order, q, i - 1, acc);
      StepVisits(s, order, q, i - 1, acc);
      StepPicks(s, order, q, i - 1, acc);
      StepCounts(acc, order[i - 1], q);
      StepSettles(s, order, q, i - 1, acc);
    }
  }

  /**
   The sealing contract, for a request that avoids duplicates: at most the limit, distinct, each new to
   the sealer and passing both checks, split by kind; sealing just these; and when fewer than the
   limit come back, nothing that could be handed over is left.
   */
  lemma SealContract(s: Pool, order: seq<Hash>, q: Request)
    requires q.avoidDuplicate && Enumerates(order, s.table.Keys)
    ensures var acc := SealTo(s, order, q, |order|);
            && SealsPicked(s, acc) && RecordsInvalid(s, acc) && PicksEligible(s, q, acc) && WithinLimit(q, acc)
            && (Count(acc) < q.limit ==> forall h :: h in s.table ==> Settled(q, acc.pool, h))
    ensures var r := Seal(s, order, q);
            r.pool == Notify(SealTo(s, order, q, |order|).pool) && HandedOver(s, order, q) == r.txs + r.sysTxs
  {
    SealLoop(s, order, q, |order|);
    var acc := SealTo(s, order, q, |order|);
    if Count(acc) < q.limit {
      forall h | h in s.table ensures Settled(q, acc.pool, h) {
        assert h in Elems(order);
      }
    }
  }

  // ----- what a request drops -----

  /** What a turn may hand over: not recorded, fresh, not avoided, and not sealed if duplicates are avoided. */
  ghost predicate Offered(s: Pool, q: Request, h: Hash) {
    && h in s.table && h !in s.invalidTxs && !OnChain(s, h) && !Expired(s, h)
    && h !in q.avoid && !(q.avoidDuplicate && s.table[h].sealed)
  }

  /** A turn of a loop that is not full hands a transaction over if and only if it is offered, for any request. */
  lemma TurnPicksExactly(acc: Sealing, hash: Hash, q: Request)
    requires !acc.full && hash in acc.pool.table && !Picked(acc, hash)
    ensures Picked(SealStep(acc, hash, q), hash) <==> Offered(acc.pool, q, hash)
  {
  }

  /** It records a stale transaction first, whatever its flag and the avoid list. */
  lemma TurnDropsStale(acc: Sealing, hash: Hash, q: Request)
    requires !acc.full && hash in acc.pool.table
    ensures var s, t := acc.pool, SealStep(acc, hash, q).pool;
            && (OnChain(s, hash) || Expired(s, hash) ==> hash in t.invalidTxs)
            && (hash !in s.invalidTxs && OnChain(s, hash) ==>
                AsHash(s.table[hash].nonce) in t.invalidTxs && t.table[hash] == s.table[hash].(callback := None))
            && (hash !in s.invalidTxs && Expired(s, hash) ==>
                s.table[hash].nonce in t.invalidNonces && t.table[hash] == s.table[hash])
  {
  }

  lemma RecordsGrow(acc: Sealing, hash: Hash, q: Request)
    ensures var s, t := acc.pool, SealStep(acc, hash, q).pool;
            && s.invalidTxs <= t.invalidTxs && s.invalidNonces <= t.invalidNonces && t.window == s.window
            && (forall h :: h in t.invalidTxs && h !in s.invalidTxs ==>
                h == hash || (OnChain(s, hash) && h == AsHash(s.table[hash].nonce)))
  {
  }

  lemma {:induction false} VisitedOnce(s: Pool, order: seq<Hash>, q: Request, i: nat)
    requires i <= |order| && Enumerates(order, s.table.Keys)
    ensures var acc := SealTo(s, order, q, i);
            Unvisited(s, order, i, acc) && acc.pool.table.Keys == s.table.Keys && acc.pool.window == s.window
  {
    hide SealStep;
    if i > 0 {
      VisitedOnce(s, order, q, i - 1);
      StepVisits(s, order, q, i - 1, SealTo(s, order, q, i - 1));
      StepTouchesOne(SealTo(s, order, q, i - 1), order[i - 1], q);
      RecordsGrow(SealTo(s, order, q, i - 1), order[i - 1], q);
    }
  }

  /** The hash equals a nonce that the clean-up of a committed transaction queues among the hashes. */
  ghost predicate Converted(s: Pool, h: Hash) {
    exists g :: OnChain(s, g) && h == AsHash(s.table[g].nonce)
  }

  lemma {:induction false} NotRecordedEarly(s: Pool, order: seq<Hash>, q: Request, i: nat, j: nat)
    requires i <= j < |order| && Enumerates(order, s.table.Keys)
    requires order[j] !in s.invalidTxs && !Converted(s, order[j])
    ensures order[j] !in SealTo(s, order, q, i).pool.invalidTxs
  {
    hide SealStep, SubmittedToChain;
    if i > 0 {
      var acc := SealTo(s, order, q, i - 1);
      NotRecordedEarly(s, order, q, i - 1, j);
      VisitedOnce(s, order, q, i - 1);
      RecordsGrow(acc, order[i - 1], q);
      assert OnChain(acc.pool, order[i - 1]) ==>
          OnChain(s, order[i - 1]) && acc.pool.table[order[i - 1]] == s.table[order[i - 1]];
    }
  }

  /** A stale transaction has been dropped, with all that goes with it unless its hash had been recorded before. */
  ghost predicate Dropped(s: Pool, t: Pool, h: Hash) {
    && h in t.table
    && (OnChain(s, h) || Expired(s, h) ==> h in t.invalidTxs)
    && (h !in s.invalidTxs && !Converted(s, h) ==>
        && (OnChain(s, h) ==> AsHash(s.table[h].nonce) in t.invalidTxs && t.table[h].callback == None)
        && (Expired(s, h) ==> s.table[h].nonce in t.invalidNonces && t.table[h] == s.table[h]))
  }

  lemma TurnDrops(s: Pool, order: seq<Hash>, q: Request, j: nat)
    requires j < |order| && Enumerates(order, s.table.Keys) && !SealTo(s, order, q, j).full
    ensures Dropped(s, SealTo(s, order, q, j + 1).pool, order[j])
  {
    hide SealStep, SubmittedToChain;
    var acc := SealTo(s, order, q, j);
    assert order[j] in Elems(order);
    VisitedOnce(s, order, q, j);
    TurnDropsStale(acc, order[j], q);
    StepTouchesOne(acc, order[j], q);
    SameStanding(s, acc.pool, order[j]);
    if order[j] !in s.invalidTxs && !Converted(s, order[j]) { NotRecordedEarly(s, order, q, j, j); }
  }

  /** Every turn before the request is filled drops what is stale, and no later turn changes that. */
  lemma {:induction false} StaysDropped(s: Pool, order: seq<Hash>, q: Request, i: nat, j: nat)
    requires j < i <= |order| && Enumerates(order, s.table.Keys) && !SealTo(s, order, q, j).full
    ensures Dropped(s, SealTo(s, order, q, i).pool, order[j])
  {
    hide SealStep, SubmittedToChain;
    if i == j + 1 {
      TurnDrops(s, order, q, j);
    } else {
      StaysDropped(s, order, q, i - 1, j);
      StepTouchesOne(SealTo(s, order, q, i - 1), order[i - 1], q);
      RecordsGrow(SealTo(s, order, q, i - 1), order[i - 1], q);
    }
  }

  lemma {:induction false} NotFullBefore(s: Pool, order: seq<Hash>, q: Request, i: nat, j: nat)
    requires j <= i <= |order| && !SealTo(s, order, q, i).full
    ensures !SealTo(s, order, q, j).full
  {
    if SealTo(s, order, q, j).full { FullSealStays(s, order, q, j, i); }
  }

  /**
   Unless the request was filled, every transaction of the pool that is on chain, or expired and unsealed, is
   recorded for removal, for any request: the expired one with its nonce, the committed one without its callback.
   */
  lemma StaleContract(s: Pool, order: seq<Hash>, q: Request, h: Hash)
    requires Enumerates(order, s.table.Keys) && h in s.table && !SealTo(s, order, q, |order|).full
    ensures Dropped(s, Seal(s, order, q).pool, h)
  {
    hide SealTo;
    assert h in Elems(order);
    var j :| 0 <= j < |order| && order[j] == h;
    NotFullBefore(s, order, q, |order|, j);
    StaysDropped(s, order, q, |order|, j);
  }

  // ----- a committed transaction is not sealed again -----

  /** The hypotheses on commits: a new block, with nonces that are in no live block. */
  ghost predicate CommitsAdmissible(s: Pool, op: Op) {
    Enabled(s, op) &&
    (op.CommitOp? ==> Admissible(s.window, Block(op.id, CommitNonces(s, op.results))))
  }

  ghost predicate WindowGuards(s: Pool, nonce: Nonce, c: int) {
    Coherent(s.window) && Guarded(s.window, nonce, c)
  }

  lemma StepKeepsWindow(s: Pool, op: Op, limit: int)
    requires Coherent(s.window) && CommitsAdmissible(s, op) && s.window.limit == limit
    ensures Coherent(Exec(s, op).window) && Exec(s, op).window.limit == limit
    ensures forall n, c :: Guarded(s.window, n, c) ==> Guarded(Exec(s, op).window, n, c)
    ensures op.CommitOp? ==> forall n :: n in CommitNonces(s, op.results) ==> Guarded(Exec(s, op).window, n, op.id)
  {
    if op.CommitOp? {
      var b := Block(op.id, CommitNonces(s, op.results));
      CommitMovesWindow(s, op.id, op.results);
      ArriveKeepsCoherent(s.window, b);
      forall n ensures (n in b.nonces ==> Guarded(Arrive(s.window, b), n, b.id)) &&
          forall c :: Guarded(s.window, n, c) ==> Guarded(Arrive(s.window, b), n, c)
      {
        ArrivalGuards(s.window, b, n);
      }
    } else {
      OnlyCommitMovesWindow(s, op);
    }
  }

  lemma {:induction false} WindowStaysCoherent(tr: seq<Pool>, ops: seq<Op>, k: nat)
    requires IsRun(tr, ops, CommitsAdmissible) && Coherent(tr[0].window) && k <= |ops|
    ensures Coherent(tr[k].window) && tr[k].window.limit == tr[0].window.limit
  {
    if k > 0 {
      WindowStaysCoherent(tr, ops, k - 1);
      assert StepAt(tr, ops, CommitsAdmissible, k - 1);
      StepKeepsWindow(tr[k - 1], ops[k - 1], tr[0].window.limit);
    }
  }

  lemma {:induction false} CommitGuardsForever(tr: seq<Pool>, ops: seq<Op>, i: nat, k: nat, nonce: Nonce)
    requires IsRun(tr, ops, CommitsAdmissible) && Coherent(tr[0].window) && i < k <= |ops|
    requires ops[i].CommitOp? && nonce in CommitNonces(tr[i], ops[i].results)
    ensures WindowGuards(tr[k], nonce, ops[i].id)
  {
    WindowStaysCoherent(tr, ops, k);
    WindowStaysCoherent(tr, ops, k - 1);
    assert StepAt(tr, ops, CommitsAdmissible, k - 1);
    if k > i + 1 { CommitGuardsForever(tr, ops, i, k - 1, nonce); }
    StepKeepsWindow(tr[k - 1], ops[k - 1], tr[0].window.limit);
  }

  /**
   No re-seal, on every run of the pool's operations: after block c with a nonce has been committed, no
   later request hands over a transaction with that nonce whose block limit is at most c + limit,
   whatever was submitted, forced, marked, reset or committed in between.
   */
  lemma NeverSealedAgain(tr: seq<Pool>, ops: seq<Op>, i: nat, j: nat, h: Hash, nonce: Nonce)
    requires IsRun(tr, ops, CommitsAdmissible) && Coherent(tr[0].window) && i < j < |ops|
    requires ops[i].CommitOp? && nonce in CommitNonces(tr[i], ops[i].results)
    requires ops[j].SealOp? && ops[j].q.avoidDuplicate && h in HandedOver(tr[j], ops[j].order, ops[j].q)
    ensures h in tr[j].table && SubmittedToChain(tr[j].window, tr[j].table[h]) == Ok
    ensures tr[j].table[h].nonce == nonce ==> tr[j].table[h].blockLimit > ops[i].id + tr[0].window.limit
  {
    assert StepAt(tr, ops, CommitsAdmissible, j);
    SealContract(tr[j], ops[j].order, ops[j].q);
    assert Eligible(tr[j], ops[j].q, h);
    CommitGuardsForever(tr, ops, i, j, nonce);
    WindowStaysCoherent(tr, ops, j);
    if tr[j].table[h].nonce == nonce && tr[j].table[h].blockLimit <= ops[i].id + tr[0].window.limit {
      GuardRejects(tr[j].window, nonce, ops[i].id, tr[j].table[h].blockLimit);
      assert false;
    }
  }

  /**
   The same for a transaction the pool never held: its nonce comes with the result of the commit, and no later
   request hands it over with a block limit of at most c + limit.
   */
  lemma CommittedElsewhereNeverSealed(tr: seq<Pool>, ops: seq<Op>, i: nat, r: nat, j: nat, h: Hash)
    requires IsRun(tr, ops, CommitsAdmissible) && Coherent(tr[0].window) && i < j < |ops|
    requires ops[i].CommitOp? && r < |ops[i].results|
    requires ops[i].results[r].hash !in tr[i].table && ops[i].results[r].nonce != NO_NONCE
    requires ops[j].SealOp? && ops[j].q.avoidDuplicate && h in HandedOver(tr[j], ops[j].order, ops[j].q)
    ensures h in tr[j].table
    ensures tr[j].table[h].nonce == ops[i].results[r].nonce ==>
              tr[j].table[h].blockLimit > ops[i].id + tr[0].window.limit
  {
    UnknownIsRecorded(tr[i], ops[i].results, r);
    NeverSealedAgain(tr, ops, i, j, h, ops[i].results[r].nonce);
  }

  // ----- ordinary runs meet the block-limit hypothesis -----

  /** Every pool transaction has a block limit that was within reach when it came in. */
  ghost predicate LimitsWithinReach(s: Pool) {
    forall h :: h in s.table ==> s.table[h].blockLimit <= s.window.number + s.window.limit
  }

  ghost function WithinReach(): Pool -> bool {
    (s: Pool) => LimitsWithinReach(s)
  }

  /** No forced import, and blocks are committed in ascending order. */
  ghost predicate Unforced(s: Pool, op: Op) {
    && CommitsAdmissible(s, op)
    && !op.EnforceOp? && !op.BatchInsertOp?
    && (op.CommitOp? ==> op.id > s.window.number)
  }

  lemma UpdatesKeepLimits()
    ensures var inv := WithinReach();
            KeptByRemoval(inv) && KeptByHandOut(inv) && KeptByDropping(inv) && KeptBySealing(inv) && KeptByMarking(inv)
  {
  }

  lemma FoldKeepsLimits(s: Pool, op: Op)
    requires LimitsWithinReach(s) && Unforced(s, op) && IsFold(op)
    ensures LimitsWithinReach(Exec(s, op))
  {
    var inv := WithinReach();
    UpdatesKeepLimits();
    match op
    case CommitOp(id, results) => CommitToKeeps(s, results, |results|, inv); CommitMovesWindow(s, id, results);
    case CleanOp(order) => CleanToKeeps(s, order, |order|, inv);
    case MaintainOp(order) => HandToKeeps(s, order, MAX_SEND_TRANSACTIONS, |order|, inv);
    case HandOutOp(order, limit) => HandToKeeps(s, order, limit, |order|, inv);
    case SealOp(order, q) => SealToKeeps(s, order, q, |order|, inv);
    case MarkOp(hashes, b, flag) => MarkToKeeps(s, hashes, b, flag, |hashes|, inv);
  }

  lemma SubmitKeepsLimits(s: Pool, tx: Tx, callback: Option<nat>)
    requires LimitsWithinReach(s)
    ensures LimitsWithinReach(Submit(s, tx, callback).pool)
  {
    SubmitEffect(s, tx, callback);
    assert VerifyStatus(s, tx) == Ok ==> tx.blockLimit <= s.window.number + s.window.limit;
  }

  lemma RemovalKeepsLimits(s: Pool, result: TxResult)
    requires LimitsWithinReach(s)
    ensures LimitsWithinReach(RemoveTx(s, result.hash).pool) && LimitsWithinReach(RemoveSubmittedTx(s, result).pool)
  {
  }

  lemma MarkAllKeepsLimits(s: Pool, flag: bool)
    requires LimitsWithinReach(s)
    ensures LimitsWithinReach(MarkAll(s, flag))
  {
  }

  lemma StepKeepsLimits(s: Pool, op: Op)
    requires LimitsWithinReach(s) && Unforced(s, op)
    ensures LimitsWithinReach(Exec(s, op))
  {
    if IsFold(op) {
      FoldKeepsLimits(s, op);
    } else {
      match op
      case SubmitOp(decoded, callback) => if decoded.Some? { SubmitKeepsLimits(s, decoded.value, callback); }
      case SubmitTxOp(tx, callback) => SubmitKeepsLimits(s, tx, callback);
      case RemoveOp(hash) => RemovalKeepsLimits(s, Expiry(hash));
      case RemoveSubmittedOp(result) => RemovalKeepsLimits(s, result);
      case FilterOp(_) =>
      case MarkAllOp(flag) => MarkAllKeepsLimits(s, flag);
      case UnsealedSizeOp =>
    }
  }

  lemma LimitsStayWithinReach(tr: seq<Pool>, ops: seq<Op>, k: nat)
    requires IsRun(tr, ops, Unforced) && LimitsWithinReach(tr[0]) && k <= |ops|
    ensures LimitsWithinReach(tr[k])
  {
    forall t, op | LimitsWithinReach(t) && Unforced(t, op) ensures LimitsWithinReach(Exec(t, op)) {
      StepKeepsLimits(t, op);
    }
    RunKeeps(tr, ops, Unforced, WithinReach(), k);
  }

  lemma UnforcedIsAdmissible(tr: seq<Pool>, ops: seq<Op>)
    requires IsRun(tr, ops, Unforced)
    ensures IsRun(tr, ops, CommitsAdmissible)
  {
    forall k | 0 <= k < |ops| ensures StepAt(tr, ops, CommitsAdmissible, k) {
      assert StepAt(tr, ops, Unforced, k);
    }
  }

  /**
   Without forced imports no hypothesis on block limits is left: a pool transaction that has been
   committed is never handed to the sealer again, even if it is submitted again later.
   */
  lemma CommittedNeverSealedAgain(tr: seq<Pool>, ops: seq<Op>, i: nat, r: nat, j: nat, h: Hash)
    requires IsRun(tr, ops, Unforced) && Coherent(tr[0].window) && LimitsWithinReach(tr[0]) && i < j < |ops|
    requires ops[i].CommitOp? && r < |ops[i].results| && ops[i].results[r].hash in tr[i].table
    requires forall k :: 0 <= k < r ==> ops[i].results[k].hash != ops[i].results[r].hash
    requires ops[j].SealOp? && ops[j].q.avoidDuplicate && h in HandedOver(tr[j], ops[j].order, ops[j].q)
    ensures var committed := tr[i].table[ops[i].results[r].hash];
            h in tr[j].table &&
            !(tr[j].table[h].nonce == committed.nonce && tr[j].table[h].blockLimit == committed.blockLimit)
  {
    UnforcedIsAdmissible(tr, ops);
    TakenIsRecorded(tr[i], ops[i].results, r);
    LimitsStayWithinReach(tr, ops, i);
    WindowStaysCoherent(tr, ops, i);
    assert StepAt(tr, ops, Unforced, i);
    NeverSealedAgain(tr, ops, i, j, h, tr[i].table[ops[i].results[r].hash].nonce);
  }

  // ----- exactly which committed transactions can be sealed again -----

  /** The run from s ends in a request that hands over a transaction with the nonce and block limit of tx. */
  ghost predicate SealsAgain(tr: seq<Pool>, ops: seq<Op>, s: Pool, tx: Tx) {
    && IsRun(tr, ops, CommitsAdmissible) && tr[0] == s && ops != []
    && EndsInSealing(tr[|ops| - 1], ops[|ops| - 1], tx)
  }

  ghost predicate EndsInSealing(t: Pool, op: Op, tx: Tx) {
    && op.SealOp? && op.q.avoidDuplicate
    && exists h :: h in HandedOver(t, op.order, op.q) && h in t.table &&
                   t.table[h].nonce == tx.nonce && t.table[h].blockLimit == tx.blockLimit
  }

  /** A fresh object that passes every check but those of its nonce and its block limit. */
  ghost predicate Submittable(s: Pool, tx: Tx) {
    && FreshlyDecoded(tx) && tx.genuine && tx.groupId == s.config.groupId && tx.chainId == s.config.chainId
    && tx.hash !in s.table && tx.hash !in s.invalidTxs && tx.nonce !in s.poolNonces
    && |s.table| < s.config.poolLimit
  }

  /** The nonce has been committed in the last block, c. */
  ghost predicate JustCommitted(s: Pool, nonce: Nonce, c: int) {
    Coherent(s.window) && s.window.number == c && c >= 1 && c in s.window.cache && nonce in s.window.cache[c]
  }

  lemma {:induction false} GuardStays(tr: seq<Pool>, ops: seq<Op>, k: nat, nonce: Nonce, c: int)
    requires IsRun(tr, ops, CommitsAdmissible) && WindowGuards(tr[0], nonce, c) && k <= |ops|
    ensures WindowGuards(tr[k], nonce, c) && tr[k].window.limit == tr[0].window.limit
  {
    if k > 0 {
      GuardStays(tr, ops, k - 1, nonce, c);
      assert StepAt(tr, ops, CommitsAdmissible, k - 1);
      StepKeepsWindow(tr[k - 1], ops[k - 1], tr[0].window.limit);
    }
  }

  lemma GuardedIsNotSealed(tr: seq<Pool>, ops: seq<Op>, s: Pool, tx: Tx, c: int)
    requires SealsAgain(tr, ops, s, tx) && WindowGuards(s, tx.nonce, c)
    ensures tx.blockLimit > c + s.window.limit
  {
    var j := |ops| - 1;
    assert StepAt(tr, ops, CommitsAdmissible, j);
    GuardStays(tr, ops, j, tx.nonce, c);
    SealContract(tr[j], ops[j].order, ops[j].q);
    var h :| h in HandedOver(tr[j], ops[j].order, ops[j].q) && h in tr[j].table &&
      tr[j].table[h].nonce == tx.nonce && tr[j].table[h].blockLimit == tx.blockLimit;
    assert Eligible(tr[j], ops[j].q, h);
    if tx.blockLimit <= c + s.window.limit {
      GuardRejects(tr[j].window, tx.nonce, c, tx.blockLimit);
      assert false;
    }
  }

  // ----- the run that seals it again -----

  /** The chain has grown from block c to block m by empty blocks, and the pool has stayed as it was. */
  ghost predicate Aged(s: Pool, t: Pool, c: int, m: int) {
    && Outlasted(s.window, t.window, c, m)
    && t.config == s.config && t.table == s.table && t.poolNonces == s.poolNonces && t.invalidTxs == s.invalidTxs
  }

  lemma EmptyCommit(s: Pool, t: Pool, c: int, m: int)
    requires Aged(s, t, c, m) && m >= c >= 1
    ensures CommitsAdmissible(t, CommitOp(m + 1, [])) && Aged(s, Exec(t, CommitOp(m + 1, [])), c, m + 1)
  {
    hide Outlasted, Arrive;
    assert CommitTo(t, [], 0) == Committing(t, []);
    assert Elems<Nonce>([]) == {};
    assert Exec(t, CommitOp(m + 1, [])).window == Arrive(t.window, Block(m + 1, []));
    EmptyArrival(s.window, t.window, c, m);
  }

  lemma {:induction false} EmptyCommits(s: Pool, nonce: Nonce, c: int, m: int) returns (tr: seq<Pool>, ops: seq<Op>)
    requires JustCommitted(s, nonce, c) && m >= c
    ensures IsRun(tr, ops, CommitsAdmissible) && tr[0] == s && Aged(s, tr[|ops|], c, m)
    decreases m - c
  {
    tr, ops := [s], [];
    if m > c {
      tr, ops := EmptyCommits(s, nonce, c, m - 1);
      EmptyCommit(s, tr[|ops|], c, m - 1);
      RunThen(tr, ops, CommitsAdmissible, CommitOp(m, []));
      tr, ops := tr + [Exec(tr[|ops|], CommitOp(m, []))], ops + [CommitOp(m, [])];
    }
  }

  lemma ForgottenIsAccepted(s: Pool, t: Pool, tx: Tx, c: int)
    requires JustCommitted(s, tx.nonce, c) && Submittable(s, tx) && tx.blockLimit > c + s.window.limit
    requires Aged(s, t, c, tx.blockLimit - 1)
    ensures var u := Exec(t, SubmitTxOp(tx, None));
            && CommitsAdmissible(t, SubmitTxOp(tx, None))
            && tx.hash in u.table && u.table[tx.hash] == MarkSystem(t, tx)
            && u.window == t.window && u.invalidTxs == t.invalidTxs
            && SubmittedToChain(u.window, u.table[tx.hash]) == Ok
  {
    OutlastedForgets(s.window, t.window, c, tx.blockLimit - 1, tx.nonce);
    assert VerifyStatus(t, tx) == Ok;
    SubmitEffect(t, tx, None);
  }

  /** A request for one transaction hands over the first eligible one it visits. */
  lemma FirstIsSealed(t: Pool, rest: seq<Hash>, h: Hash)
    requires Eligible(t, Request(1, {}, true), h)
    ensures h in HandedOver(t, [h] + rest, Request(1, {}, true))
  {
    var order, q := [h] + rest, Request(1, {}, true);
    assert SealTo(t, order, q, 0) == Sealing(t, [], [], false);
    var first := SealTo(t, order, q, 1);
    assert first.full && Picked(first, h);
    FullSealStays(t, order, q, 1, |order|);
  }

  lemma EndsSealing(tr: seq<Pool>, ops: seq<Op>, s: Pool, tx: Tx)
    requires IsRun(tr, ops, CommitsAdmissible) && tr[0] == s && tx.hash in tr[|ops|].table
    requires Eligible(tr[|ops|], Request(1, {}, true), tx.hash)
    requires tr[|ops|].table[tx.hash].nonce == tx.nonce && tr[|ops|].table[tx.hash].blockLimit == tx.blockLimit
    ensures exists tr', ops' :: SealsAgain(tr', ops', s, tx)
  {
    hide Exec;
    var t := tr[|ops|];
    var order, rest := SomeOrderFrom(tx.hash, t.table.Keys);
    var op := SealOp(order, Request(1, {}, true));
    FirstIsSealed(t, rest, tx.hash);
    RunThen(tr, ops, CommitsAdmissible, op);
    assert SealsAgain(tr + [Exec(t, op)], ops + [op], s, tx);
  }

  lemma OutOfReachIsSealedAgain(s: Pool, tx: Tx, c: int)
    requires JustCommitted(s, tx.nonce, c) && Submittable(s, tx) && tx.blockLimit > c + s.window.limit
    ensures exists tr, ops :: SealsAgain(tr, ops, s, tx)
  {
    var tr, ops := EmptyCommits(s, tx.nonce, c, tx.blockLimit - 1);
    ForgottenIsAccepted(s, tr[|ops|], tx, c);
    RunThen(tr, ops, CommitsAdmissible, SubmitTxOp(tx, None));
    EndsSealing(tr + [Exec(tr[|ops|], SubmitTxOp(tx, None))], ops + [SubmitTxOp(tx, None)], s, tx);
  }

  /**
   No re-seal, exactly: after block c with a nonce has been committed, some run hands over a transaction with
   that nonce and block limit again, if and only if the block limit is beyond c + limit.
   */
  lemma SealedAgainExactly(s: Pool, tx: Tx, c: int)
    requires JustCommitted(s, tx.nonce, c) && Submittable(s, tx)
    ensures (exists tr, ops :: SealsAgain(tr, ops, s, tx)) <==> tx.blockLimit > c + s.window.limit
  {
    if tr, ops :| SealsAgain(tr, ops, s, tx) {
      GuardedIsNotSealed(tr, ops, s, tx, c);
    }
    if tx.blockLimit > c + s.window.limit {
      OutOfReachIsSealedAgain(s, tx, c);
    }
  }

  // ----- forced import -----

  /** The pool once tx has been forced in and committed in block id. */
  function ForcedAndCommitted(s: Pool, tx: Tx, id: int, r: TxResult): Pool {
    Exec(Exec(s, EnforceOp(tx)), CommitOp(id, [r]))
  }

  lemma ForcedIsStored(s: Pool, tx: Tx)
    requires tx.hash !in s.table && Enforce(s, tx).status == Ok
    ensures var e := Enforce(s, tx).pool;
            && e.table == s.table[tx.hash := tx.(sealed := true)]
            && e.window == s.window && e.config == s.config
            && e.poolNonces == s.poolNonces && e.invalidTxs == s.invalidTxs
    ensures SubmittedToChain(s.window, tx) != NonceCheckFail
  {
  }

  /** What the commit of one stored transaction leaves. */
  lemma CommitOne(e: Pool, id: int, r: TxResult)
    requires r.hash in e.table
    ensures var nonce := e.table[r.hash].nonce;
            var t := Commit(e, id, [r]);
            && CommitNonces(e, [r]) == [nonce]
            && t.table == e.table - {r.hash} && t.config == e.config && t.invalidTxs == e.invalidTxs
            && t.window == Arrive(e.window, Block(id, [nonce])) && t.poolNonces == e.poolNonces - {nonce}
  {
    hide Arrive, Commit;
    CommitContract(e, id, [r]);
    assert HashesTo([r], 0) == {} && HashesTo([r], 1) == {r.hash};
    var acc := CommitTo(e, [r], 1);
    assert CommitTo(e, [r], 0) == Committing(e, []);
    assert acc == CommitStep(Committing(e, []), r);
    assert Elems(acc.nonces) == {e.table[r.hash].nonce};
  }

  lemma ForcedCommit(s: Pool, tx: Tx, id: int, r: TxResult)
    requires Coherent(s.window) && id >= 1 && id > s.window.number && r.hash == tx.hash
    requires Submittable(s, tx) && Enforce(s, tx).status == Ok
    ensures var e := Exec(s, EnforceOp(tx));
            && CommitNonces(e, [r]) == [tx.nonce]
            && CommitsAdmissible(s, EnforceOp(tx)) && CommitsAdmissible(e, CommitOp(id, [r]))
    ensures var t := ForcedAndCommitted(s, tx, id, r);
            JustCommitted(t, tx.nonce, id) && Submittable(t, tx) && t.window.limit == s.window.limit
  {
    hide Enforce, Commit, CommitNonces;
    ForcedIsStored(s, tx);
    CommitOne(Enforce(s, tx).pool, id, r);
    ArriveKeepsCoherent(s.window, Block(id, [tx.nonce]));
    assert s.table == s.table[tx.hash := tx.(sealed := true)] - {tx.hash};
  }

  /** A run that forces tx in, commits it in block id and ends in sealing it again. */
  ghost predicate ForcedAndSealedAgain(tr: seq<Pool>, ops: seq<Op>, s: Pool, tx: Tx, id: int, r: TxResult) {
    SealsAgain(tr, ops, s, tx) && |ops| > 2 && ops[0] == EnforceOp(tx) && ops[1] == CommitOp(id, [r])
  }

  lemma ForcedPrefix(tr: seq<Pool>, ops: seq<Op>, s: Pool, tx: Tx, id: int, r: TxResult)
    requires SealsAgain(tr, ops, ForcedAndCommitted(s, tx, id, r), tx)
    requires CommitsAdmissible(s, EnforceOp(tx)) && CommitsAdmissible(Exec(s, EnforceOp(tx)), CommitOp(id, [r]))
    ensures exists tr', ops' :: ForcedAndSealedAgain(tr', ops', s, tx, id, r)
  {
    hide Exec, EndsInSealing, CommitsAdmissible;
    var e := Exec(s, EnforceOp(tx));
    RunAfter(e, CommitOp(id, [r]), tr, ops, CommitsAdmissible);
    RunAfter(s, EnforceOp(tx), [e] + tr, [CommitOp(id, [r])] + ops, CommitsAdmissible);
    assert ForcedAndSealedAgain([s] + ([e] + tr), [EnforceOp(tx)] + ([CommitOp(id, [r])] + ops), s, tx, id, r);
  }

  lemma ForcedSuffix(tr: seq<Pool>, ops: seq<Op>, s: Pool, tx: Tx, id: int, r: TxResult)
    requires ForcedAndSealedAgain(tr, ops, s, tx, id, r)
    ensures SealsAgain(tr[2..], ops[2..], ForcedAndCommitted(s, tx, id, r), tx)
  {
    hide Exec, EndsInSealing, CommitsAdmissible;
    assert StepAt(tr, ops, CommitsAdmissible, 0) && StepAt(tr, ops, CommitsAdmissible, 1);
    forall k | 0 <= k < |ops| - 2 ensures StepAt(tr[2..], ops[2..], CommitsAdmissible, k) {
      assert StepAt(tr, ops, CommitsAdmissible, k + 2);
    }
  }

  /**
   Forced import looks at the nonce only, and this is what it costs: a transaction that is forced in and
   committed in block id can be submitted and sealed again, if and only if its block limit was out of reach.
   */
  lemma ForcedBlockLimitIsSealedAgain(s: Pool, tx: Tx, id: int, r: TxResult)
    requires Coherent(s.window) && id >= 1 && id > s.window.number && r.hash == tx.hash
    requires Submittable(s, tx) && Enforce(s, tx).status == Ok
    ensures (exists tr, ops :: ForcedAndSealedAgain(tr, ops, s, tx, id, r)) <==> tx.blockLimit > id + s.window.limit
  {
    ForcedCommit(s, tx, id, r);
    if tr, ops :| ForcedAndSealedAgain(tr, ops, s, tx, id, r) {
      ForcedSuffix(tr, ops, s, tx, id, r);
      GuardedIsNotSealed(tr[2..], ops[2..], ForcedAndCommitted(s, tx, id, r), tx, id);
    }
    if tx.blockLimit > id + s.window.limit {
      OutOfReachIsSealedAgain(ForcedAndCommitted(s, tx, id, r), tx, id);
      var tr, ops :| SealsAgain(tr, ops, ForcedAndCommitted(s, tx, id, r), tx);
      ForcedPrefix(tr, ops, s, tx, id, r);
    }
  }
}
