/**
 Asking for transactions by hash: `fetchTxs`, the answer a peer builds from it, and `fillBlock`.
 */
module RequestResponse {
  import opened TxPoolTypes
  import opened NonceWindow
  import opened PoolState
  import opened ProposalVerification
  import opened Admission

  ghost predicate WellKeyed(table: map<Hash, Tx>) {
    forall h :: h in table ==> table[h].hash == h
  }

  /** Which entries of the request are found. */
  function Found(table: map<Hash, Tx>, request: seq<Hash>): seq<bool> {
    seq(|request|, i requires 0 <= i < |request| => request[i] in table)
  }

  /** Put two lists back together: where the flag is set from the first, elsewhere from the second. */
  ghost predicate Merges(flags: seq<bool>, a: seq<Hash>, b: seq<Hash>, request: seq<Hash>)
    decreases |flags|
  {
    if flags == [] then a == [] && b == [] && request == []
    else
      var last := |flags| - 1;
      |request| == |flags| &&
      if flags[last] then
        a != [] && a[|a| - 1] == request[last] && Merges(flags[..last], a[..|a| - 1], b, request[..last])
      else
        b != [] && b[|b| - 1] == request[last] && Merges(flags[..last], a, b[..|b| - 1], request[..last])
  }

  lemma MergeNothing()
    ensures Merges([], [], [], [])
  {
  }

  lemma MergeNext(flags: seq<bool>, a: seq<Hash>, b: seq<Hash>, request: seq<Hash>, h: Hash)
    requires Merges(flags, a, b, request)
    ensures Merges(flags + [true], a + [h], b, request + [h]) && Merges(flags + [false], a, b + [h], request + [h])
  {
    assert (flags + [true])[..|flags|] == flags && (flags + [false])[..|flags|] == flags;
    assert (request + [h])[..|request|] == request && (a + [h])[..|a|] == a && (b + [h])[..|b|] == b;
    assert |request| == |flags|;
  }

  lemma {:induction false} FetchLoop(table: map<Hash, Tx>, request: seq<Hash>, i: nat)
    requires WellKeyed(table) && i <= |request|
    ensures var r := FetchTo(table, request, i);
            Merges(Found(table, request[..i]), Hashes(r.txs), r.missed, request[..i])
  {
    hide Merges;
    if i > 0 {
      FetchLoop(table, request, i - 1);
      var p, r := FetchTo(table, request, i - 1), FetchTo(table, request, i);
      var h := request[i - 1];
      assert request[..i] == request[..i - 1] + [h];
      assert Found(table, request[..i]) == Found(table, request[..i - 1]) + [h in table];
      MergeNext(Found(table, request[..i - 1]), Hashes(p.txs), p.missed, request[..i - 1], h);
      if h in table { assert Hashes(r.txs) == Hashes(p.txs) + [h]; }
    } else {
      MergeNothing();
      assert request[..i] == [] && Found(table, []) == [] && Hashes([]) == [];
    }
  }

  lemma {:induction false} FetchReturnsPoolTxs(table: map<Hash, Tx>, request: seq<Hash>, i: nat)
    requires WellKeyed(table) && i <= |request|
    ensures FetchTo(table, request, i).missed == MissingTo(table, request, i)
    ensures forall j :: 0 <= j < |FetchTo(table, request, i).txs| ==>
              var tx := FetchTo(table, request, i).txs[j]; tx.hash in table && tx == table[tx.hash]
  {
    if i > 0 { FetchReturnsPoolTxs(table, request, i - 1); }
  }

  /**
   `fetchTxs` splits a request: the transactions found, which are those of the pool, and the hashes missed
   merge back to the request in its order.
   */
  lemma FetchSplits(table: map<Hash, Tx>, request: seq<Hash>)
    requires WellKeyed(table)
    ensures var r := Fetch(table, request);
            && Merges(Found(table, request), Hashes(r.txs), r.missed, request)
            && r.missed == Missing(table, request)
            && (forall j :: 0 <= j < |r.txs| ==> r.txs[j].hash in table && r.txs[j] == table[r.txs[j].hash])
  {
    FetchLoop(table, request, |request|);
    FetchReturnsPoolTxs(table, request, |request|);
    assert request[..|request|] == request;
  }

  lemma {:induction false} MergeOfAll(flags: seq<bool>, a: seq<Hash>, b: seq<Hash>, request: seq<Hash>)
    requires Merges(flags, a, b, request)
    ensures |a| + |b| == |request|
    ensures b == [] ==> a == request
    decreases |flags|
  {
    if flags != [] {
      var last := |flags| - 1;
      if flags[last] {
        MergeOfAll(flags[..last], a[..|a| - 1], b, request[..last]);
        assert a == a[..|a| - 1] + [a[|a| - 1]] && request == request[..last] + [request[last]];
      } else {
        MergeOfAll(flags[..last], a, b[..|b| - 1], request[..last]);
      }
    }
  }

  /** Nothing is missed exactly when all are in the pool, and then the hashes are the request. */
  lemma FetchOfAll(table: map<Hash, Tx>, request: seq<Hash>)
    requires WellKeyed(table)
    ensures Fetch(table, request).missed == [] <==> HasAll(table, request)
    ensures HasAll(table, request) ==> Hashes(Fetch(table, request).txs) == request
  {
    var r := Fetch(table, request);
    FetchSplits(table, request);
    if r.missed == [] {
      forall i | 0 <= i < |request| ensures request[i] in table {
        MissingContract(table, request, request[i]);
      }
      MergeOfAll(Found(table, request), Hashes(r.txs), r.missed, request);
    } else {
      MissingContract(table, request, r.missed[0]);
    }
  }

  // ----- a peer's answer -----

  /** What the other side decodes from a response: fresh objects with the hashes that were sent. */
  ghost predicate Decodes(sent: seq<Tx>, received: seq<Tx>) {
    Hashes(received) == Hashes(sent) && AllFresh(received)
  }

  /**
   Request and response agree: the answer of a peer that holds everything it was asked for passes the size
   check and the index-by-index hash check, so only the import can still refuse it.
   */
  lemma PeerAnswerIsAccepted(peer: map<Hash, Tx>, s: Pool, asked: seq<Hash>, header: Option<Header>, received: seq<Tx>)
    requires WellKeyed(peer) && HasAll(peer, asked) && Decodes(Fetch(peer, asked).txs, received)
    ensures var j := OnPeer(s, asked, header, PeerTxs(received));
            j.verdict == if Import(s, received, header).ok then Verdict(None, true)
                         else Verdict(Some(TxsSignatureVerifyFailed), false)
  {
    FetchOfAll(peer, asked);
    assert |received| == |Hashes(received)|;
  }

  // ----- filling a block -----

  datatype Filling = Filling(pool: Pool, error: Option<Fault>, txs: seq<Tx>)

  function FillFailure(s: Pool): Filling {
    Filling(s, Some(TransactionsMissing), [])
  }

  /** `fillBlock`; `ledger` is what the ledger answers if it is asked. */
  function FillBlock(s: Pool, hashes: seq<Hash>, fetchFromLedger: bool, ledger: LedgerAnswer): Filling
    decreases fetchFromLedger
  {
    var r := Fetch(s.table, hashes);
    if r.missed == [] then Filling(s, None, r.txs)
    else if !fetchFromLedger then FillFailure(s)
    else
      var reply := OnLedger(s, r.missed, None, false, ledger);
      if reply.call == Some(Verdict(None, true)) then FillBlock(reply.pool, hashes, false, ledger)
      else FillFailure(reply.pool)
  }

  lemma {:induction false} ImportKeepsKeys(s: Pool, txs: seq<Tx>, i: nat)
    requires i <= |txs| && WellKeyed(s.table)
    ensures WellKeyed(ImportTo(s, txs, None, i).pool.table)
  {
    if i > 0 {
      ImportKeepsKeys(s, txs, i - 1);
      SubmitEffect(ImportTo(s, txs, None, i - 1).pool, Prepare(s, txs[i - 1], None), None);
    }
  }

  /** A block is filled with exactly its transactions, in order, or not at all, after at most one ledger round. */
  lemma FilledBlockMatches(s: Pool, hashes: seq<Hash>, fetchFromLedger: bool, ledger: LedgerAnswer)
    requires WellKeyed(s.table)
    ensures var f := FillBlock(s, hashes, fetchFromLedger, ledger);
            if f.error.None? then Hashes(f.txs) == hashes && HasAll(f.pool.table, hashes)
            else f == FillFailure(f.pool) && !HasAll(s.table, hashes)
    ensures HasAll(s.table, hashes) ==> FillBlock(s, hashes, fetchFromLedger, ledger).pool == s
    decreases fetchFromLedger
  {
    FetchOfAll(s.table, hashes);
    if Fetch(s.table, hashes).missed != [] && fetchFromLedger {
      var reply := OnLedger(s, Fetch(s.table, hashes).missed, None, false, ledger);
      if ledger.LedgerTxs? { ImportKeepsKeys(s, ledger.txs, |ledger.txs|); }
      FilledBlockMatches(reply.pool, hashes, false, ledger);
    }
  }
  // ----- when a block is filled -----

  lemma LedgerCoversWhatItFills(s: Pool, hashes: seq<Hash>, txs: seq<Tx>)
    requires WellKeyed(s.table) && AllFresh(txs) && HasAll(Import(s, txs, None).pool.table, hashes)
    ensures var missed := Fetch(s.table, hashes).missed;
            missed != [] ==> OnLedger(s, missed, None, false, LedgerTxs(txs)).call == Some(Verdict(None, true))
  {
    var missed := Fetch(s.table, hashes).missed;
    OrdinaryImportExactly(s, txs, |txs|, ZERO_HASH);
    forall h | h in missed ensures h in Hashes(txs) {
      FetchMisses(s.table, hashes, h);
      OrdinaryImportExactly(s, txs, |txs|, h);
      var j :| 0 <= j < |txs| && txs[j].hash == h;
      assert Hashes(txs)[j] == h;
    }
    assert Elems(missed) - Elems(Hashes(txs)) == {};
  }

  lemma FetchMisses(table: map<Hash, Tx>, request: seq<Hash>, h: Hash)
    requires WellKeyed(table)
    ensures h in Fetch(table, request).missed <==> h in request && h !in table
  {
    FetchReturnsPoolTxs(table, request, |request|);
    MissingContract(table, request, h);
  }

  /**
   A block is filled if and only if the pool has every transaction, or the ledger is asked and the pool has every one
   after the ordinary import of the answer; what is imported stays, also when the block cannot be filled.
   */
  lemma FillSucceedsExactly(s: Pool, hashes: seq<Hash>, fetchFromLedger: bool, ledger: LedgerAnswer)
    requires WellKeyed(s.table) && (ledger.LedgerTxs? ==> AllFresh(ledger.txs))
    ensures FillBlock(s, hashes, fetchFromLedger, ledger).error.None? <==>
            HasAll(s.table, hashes) ||
            (fetchFromLedger && ledger.LedgerTxs? && HasAll(Import(s, ledger.txs, None).pool.table, hashes))
    ensures FillBlock(s, hashes, fetchFromLedger, ledger).pool ==
            if fetchFromLedger && ledger.LedgerTxs? && !HasAll(s.table, hashes) then Import(s, ledger.txs, None).pool
            else s
  {
    hide Import;
    FetchOfAll(s.table, hashes);
    if Fetch(s.table, hashes).missed != [] && fetchFromLedger && ledger.LedgerTxs? {
      var after := Import(s, ledger.txs, None).pool;
      ImportKeepsWellKeyed(s, ledger.txs);
      FetchOfAll(after.table, hashes);
      if HasAll(after.table, hashes) { LedgerCoversWhatItFills(s, hashes, ledger.txs); }
    }
  }

  lemma ImportKeepsWellKeyed(s: Pool, txs: seq<Tx>)
    requires WellKeyed(s.table)
    ensures WellKeyed(Import(s, txs, None).pool.table)
  {
    ImportKeepsKeys(s, txs, |txs|);
  }

  /** In particular when the ledger delivers all the pool lacks and each of it passes the checks of a submission. */
  lemma LedgerFills(s: Pool, hashes: seq<Hash>, txs: seq<Tx>)
    requires WellKeyed(s.table) && AllFresh(txs) && Separable(s, txs)
    requires forall h :: h in hashes ==> h in s.table || h in Hashes(txs)
    ensures FillBlock(s, hashes, true, LedgerTxs(txs)).error.None?
  {
    hide FillBlock, Import, Separable;
    FillSucceedsExactly(s, hashes, true, LedgerTxs(txs));
    ImportAdmitsAll(s, txs);
    ImportGrows(s, txs, None);
    forall i | 0 <= i < |hashes| ensures hashes[i] in Import(s, txs, None).pool.table {
      if hashes[i] !in s.table {
        var j :| 0 <= j < |txs| && Hashes(txs)[j] == hashes[i];
      }
    }
  }

  // ----- what the ledger round cannot bring back -----

  /** Every transaction of the list with this hash carries a nonce of the live window. */
  ghost predicate OnlyCommitted(w: Window, txs: seq<Tx>, h: Hash) {
    forall i :: 0 <= i < |txs| && txs[i].hash == h ==> txs[i].nonce in w.nonces
  }

  lemma {:induction false} CommittedStaysOut(s: Pool, txs: seq<Tx>, h: Hash, i: nat)
    requires i <= |txs| && h !in s.table && OnlyCommitted(s.window, txs, h)
    ensures h !in ImportTo(s, txs, None, i).pool.table
  {
    if i > 0 {
      CommittedStaysOut(s, txs, h, i - 1);
      SubmitEffect(ImportTo(s, txs, None, i - 1).pool, Prepare(s, txs[i - 1], None), None);
    }
  }

  /**
   The ledger round refuses what is already committed: a transaction that has left the pool is not filled
   again while its nonce is in the window, although the ledger has it.
   */
  lemma CommittedIsNotFilledAgain(s: Pool, hashes: seq<Hash>, fetchFromLedger: bool, ledger: LedgerAnswer, h: Hash)
    requires WellKeyed(s.table) && h in hashes && h !in s.table
    requires ledger.LedgerTxs? ==> OnlyCommitted(s.window, ledger.txs, h)
    ensures FillBlock(s, hashes, fetchFromLedger, ledger).error == Some(TransactionsMissing)
  {
    MissingContract(s.table, hashes, h);
    FetchReturnsPoolTxs(s.table, hashes, |hashes|);
    if fetchFromLedger {
      if ledger.LedgerTxs? {
        CommittedStaysOut(s, ledger.txs, h, |ledger.txs|);
      }
      var reply := OnLedger(s, Fetch(s.table, hashes).missed, None, false, ledger);
      MissingContract(reply.pool.table, hashes, h);
      if ledger.LedgerTxs? { ImportKeepsKeys(s, ledger.txs, |ledger.txs|); }
      FetchReturnsPoolTxs(reply.pool.table, hashes, |hashes|);
    }
  }
}
