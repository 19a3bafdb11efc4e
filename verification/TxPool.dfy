/**
 `TxPool`: one verification of a proposal as it proceeds, filling a block, and the checker a restart builds.
 */
module TxPoolObject {
  import opened TxPoolTypes
  import opened TransactionObject
  import opened NonceCheckers
  import opened NonceWindow
  import opened MemoryStorageObject
  import opened PoolState
  import opened ProposalVerification
  import opened RequestResponse
  import opened TransactionSyncObject

  ghost predicate CountsUp(heights: seq<int>, lo: int, hi: int) {
    |heights| == hi - lo && forall i :: 0 <= i < |heights| ==> heights[i] == lo + i
  }

  lemma OneMoreHeight(chain: seq<seq<Nonce>>, heights: seq<int>, lo: int, k: int)
    requires 1 <= lo <= k <= |chain| && CountsUp(heights, lo, k)
    ensures CountsUp(heights + [k], lo, k + 1)
    ensures FetchNonceList(chain, Interval(lo, k + 1)) == FetchNonceList(chain, Interval(lo, k))[k := chain[k - 1]]
  {
  }

  lemma Consecutive(heights: seq<int>, lo: int, hi: int)
    requires CountsUp(heights, lo, hi)
    ensures Enumerates(heights, Interval(lo, hi))
  {
    forall h ensures h in heights <==> h in Interval(lo, hi) {
      if h in Interval(lo, hi) { assert heights[h - lo] == h; }
    }
  }

  /** What the callbacks of one `asyncVerifyBlock` share. */
  class Verification {
    const sync: TransactionSync
    const proposal: Proposal
    const hasPeer: bool
    const finish: FinishCallback
    var phase: Phase

    ghost function Progress(): Session
      reads this, finish, sync.storage, sync.storage.validator.pool, sync.storage.validator.ledger
      reads sync.storage.validator.ledger.base, sync.storage.signal, sync.storage.receipts
    {
      Session(sync.storage.State(), proposal, hasPeer, finish.missed, phase, finish.verdicts)
    }

    constructor (sync: TransactionSync, proposal: Proposal, hasPeer: bool, finish: FinishCallback, phase: Phase)
      ensures this.sync == sync && this.proposal == proposal && this.hasPeer == hasPeer
      ensures this.finish == finish && this.phase == phase
    {
      this.sync, this.proposal, this.hasPeer, this.finish, this.phase := sync, proposal, hasPeer, finish, phase;
    }

    method Advance(next: Phase)
      requires sync.storage.Valid()
      modifies this
      ensures sync.storage.Valid()
      ensures Progress() == old(Progress()).(phase := next)
    {
      phase := next;
    }

    method Conclude(v: Verdict)
      requires sync.storage.Valid() && finish.storage == sync.storage
      modifies this, finish
      ensures sync.storage.Valid()
      ensures Progress() == Close(old(Progress()), sync.storage.State(), sync.storage.State(), v)
    {
      hide Wrap;
      finish.Call(v.error, v.ok);
      Advance(Closed);
    }

    /** The ledger answers; `asked` lists what is still missing in the order in which the set does. */
    method LedgerResponds(fault: Option<Fault>, txs: seq<Transaction>, asked: seq<Hash>)
      requires sync.storage.Valid() && Decoded(sync.storage, txs) && finish.storage == sync.storage
      requires CanHappen(Progress(), LedgerAnswers(LedgerAnswerOf(fault, txs), asked))
      modifies this, finish, sync.storage, sync.storage.signal, sync.storage.validator.pool
      modifies sync.storage.validator.ledger.base, txs, sync.storage.txsTable.Values
      ensures sync.storage.Valid()
      ensures Progress() == Happen(old(Progress()), LedgerAnswers(old(LedgerAnswerOf(fault, txs)), asked))
    {
      hide OnLedger, FromLedger, Wrap;
      var call, left := sync.OnLedgerResponse(finish.missed, proposal.header, hasPeer, fault, txs);
      if call.None? {
        Advance(AwaitPeer(asked));
        return;
      }
      Conclude(call.value);
    }

    /** The peer answers. */
    method PeerResponds(from: NodeId, fault: Option<Fault>, isResponse: bool, txs: seq<Transaction>)
      requires sync.storage.Valid() && Decoded(sync.storage, txs) && finish.storage == sync.storage
      requires CanHappen(Progress(), PeerAnswers(PeerAnswerOf(fault, isResponse, txs)))
      modifies this, finish, sync.storage, sync.storage.signal, sync.storage.validator.pool
      modifies sync.storage.validator.ledger.base, txs, sync.storage.txsTable.Values
      ensures sync.storage.Valid()
      ensures Progress() == Happen(old(Progress()), PeerAnswers(old(PeerAnswerOf(fault, isResponse, txs))))
    {
      ghost var j := sync.VerifyFetchedTxs(from, phase.asked, proposal.header, fault, isResponse, txs, finish);
      Advance(Closed);
    }
  }

  class TxPool {
    const storage: MemoryStorage
    const sync: TransactionSync

    constructor (storage: MemoryStorage, sync: TransactionSync)
      ensures this.storage == storage && this.sync == sync
    {
      this.storage, this.sync := storage, sync;
    }

    /** Up to the request to the ledger; with nothing missing the verdict is given at once. */
    method AsyncVerifyBlock(proposal: Proposal, hasPeer: bool) returns (v: Verification)
      requires storage.Valid() && sync.storage == storage
      ensures fresh(v) && fresh(v.finish)
      ensures v.sync == sync && v.finish.storage == storage
      ensures v.Progress() == Open(storage.State(), proposal, hasPeer)
    {
      var missed := storage.MissingOf(proposal.hashes);
      var finish := new FinishCallback(storage, missed);
      if |missed| == 0 {
        finish.Call(None, true);
        v := new Verification(sync, proposal, hasPeer, finish, Closed);
        return;
      }
      v := new Verification(sync, proposal, hasPeer, finish, AwaitLedger);
    }

    // ----- filling a block -----

    method FillFromPool(hashes: seq<Hash>, ghost ledger: LedgerAnswer)
      returns (error: Option<Fault>, filled: seq<Transaction>, missed: seq<Hash>)
      requires storage.Valid()
      ensures missed == Fetch(storage.State().table, hashes).missed
      ensures RequestResponse.FillBlock(storage.State(), hashes, false, ledger) ==
              Filling(storage.State(), error, ViewsOf(filled))
    {
      filled, missed := storage.FetchTxs(hashes);
      if |missed| > 0 {
        return Some(TransactionsMissing), [], missed;
      }
      error := None;
    }

    /** `fault` and `txs` are what the ledger answers if it is asked. */
    method FillBlock(hashes: seq<Hash>, fetchFromLedger: bool, fault: Option<Fault>, txs: seq<Transaction>)
      returns (error: Option<Fault>, filled: seq<Transaction>)
      requires storage.Valid() && sync.storage == storage && Decoded(storage, txs)
      modifies storage, storage.signal, storage.validator.pool
      modifies storage.validator.ledger.base, txs, storage.txsTable.Values
      ensures storage.Valid()
      ensures var ledger := old(LedgerAnswerOf(fault, txs));
              RequestResponse.FillBlock(old(storage.State()), hashes, fetchFromLedger, ledger) ==
              Filling(storage.State(), error, ViewsOf(filled))
    {
      ghost var ledger := LedgerAnswerOf(fault, txs);
      var missed;
      error, filled, missed := FillFromPool(hashes, ledger);
      if |missed| == 0 || !fetchFromLedger {
        return;
      }
      var call, left := sync.OnLedgerResponse(missed, None, false, fault, txs);
      if call.None? || call.value.error.Some? || !call.value.ok {
        return Some(TransactionsMissing), [];
      }
      error, filled, missed := FillFromPool(hashes, ledger);
    }

    // ----- starting -----

    /** The nonce checker `init` installs, from the nonces the ledger holds for the last blocks. */
    method InitNonceChecker(chain: seq<seq<Nonce>>, blockLimit: int) returns (checker: LedgerNonceChecker)
      requires blockLimit >= 1
      ensures fresh(checker) && fresh(checker.base)
      ensures checker.View() == Restarted(blockLimit, chain)
    {
      var startNumber := if |chain| > blockLimit then |chain| - blockLimit + 1 else 0;
      var nonces, heights := map[], [];
      if startNumber > 0 {
        var fetchedSize := if blockLimit < |chain| - startNumber + 1 then blockLimit else |chain| - startNumber + 1;
        nonces, heights := FetchNonces(chain, startNumber, fetchedSize);
      }
      checker := new LedgerNonceChecker(nonces, heights, |chain|, blockLimit);
    }

    /** The nonce lists of consecutive blocks; the first block is number 1. */
    method FetchNonces(chain: seq<seq<Nonce>>, start: int, count: nat)
      returns (nonces: map<int, seq<Nonce>>, heights: seq<int>)
      requires 1 <= start && start + count <= |chain| + 1
      ensures nonces == FetchNonceList(chain, Interval(start, start + count))
      ensures Enumerates(heights, nonces.Keys)
    {
      nonces, heights := map[], [];
      for k := start to start + count
        invariant nonces == FetchNonceList(chain, Interval(start, k)) && CountsUp(heights, start, k)
      {
        OneMoreHeight(chain, heights, start, k);
        nonces, heights := nonces[k := chain[k - 1]], heights + [k];
      }
      Consecutive(heights, start, start + count);
    }
  }
}
