/**
 How the verification of a proposal ends: exactly when each step asks further, succeeds or fails and with
 which error, and that a proposal whose transactions can be had is accepted.
 */
module VerificationOutcome {
  import opened TxPoolTypes
  import opened NonceWindow
  import opened PoolState
  import opened ProposalVerification
  import opened Admission

  // ----- opening -----

  /** A verification succeeds at once if and only if the pool has every transaction of the block. */
  lemma OpensExactly(s: Pool, p: Proposal, hasPeer: bool)
    ensures var e := Open(s, p, hasPeer);
            && e.pool == s && e.proposal == p && e.hasPeer == hasPeer
            && (forall h :: h in e.missed <==> h in p.hashes && h !in s.table)
            && (if InPool(s, p.hashes) then e.phase == Closed && e.verdicts == [Verdict(None, true)]
                else e.phase == AwaitLedger && e.verdicts == [])
  {
    forall h ensures h in Missing(s.table, p.hashes) <==> h in p.hashes && h !in s.table {
      MissingContract(s.table, p.hashes, h);
    }
    var missed := Missing(s.table, p.hashes);
    if missed != [] {
      assert missed[0] in missed;
      var i :| 0 <= i < |p.hashes| && p.hashes[i] == missed[0];
      assert !InPool(s, p.hashes);
    } else {
      forall i | 0 <= i < |p.hashes| ensures p.hashes[i] in s.table {
        assert p.hashes[i] in missed <==> p.hashes[i] !in s.table;
      }
    }
  }

  // ----- the second look at the pool -----

  /**
   What the wrapper passes on when something was missed: a report of missing transactions becomes success exactly
   when the pool has them all by now, any other verdict stays, and success never carries an error.
   */
  lemma SecondLookExactly(s: Pool, missed: seq<Hash>, v: Verdict)
    requires missed != [] && (v.ok <==> v.error.None?)
    ensures var w := Wrap(s, missed, v);
            && (w.ok <==> v.ok || (v.error == Some(TransactionsMissing) && InPool(s, missed)))
            && w.error == (if w.ok then None else v.error)
  {
  }

  // ----- the ledger's answer -----

  /** The ledger delivered h in a list that could be imported. */
  ghost predicate Delivered(s: Pool, header: Option<Header>, answer: LedgerAnswer, h: Hash) {
    answer.LedgerTxs? && Import(s, answer.txs, header).ok && h in Hashes(answer.txs)
  }

  /** What is still missing after the ledger's answer; the callback is called just when an import leaves nothing. */
  lemma LedgerLeavesExactly(s: Pool, missed: set<Hash>, header: Option<Header>, answer: LedgerAnswer, h: Hash)
    ensures h in FromLedger(s, missed, header, answer).missed <==> h in missed && !Delivered(s, header, answer, h)
    ensures FromLedger(s, missed, header, answer).pool ==
            (if answer.LedgerTxs? then Import(s, answer.txs, header).pool else s)
    ensures var r := FromLedger(s, missed, header, answer);
            r.call == if answer.LedgerTxs? && Import(s, answer.txs, header).ok && r.missed == {}
                      then Some(Verdict(None, true)) else None
  {
  }

  /**
   After the ledger's answer the peer is asked, without a verdict, if and only if something is still missing and
   there is a peer; with nothing missing the verification succeeds, and without a peer the pool decides.
   */
  lemma LedgerStepExactly(e: Session, answer: LedgerAnswer, asked: seq<Hash>)
    requires OneVerdict(e) && CanHappen(e, LedgerAnswers(answer, asked))
    ensures var t := Happen(e, LedgerAnswers(answer, asked));
            && (forall h :: h in asked <==> h in e.missed && !Delivered(e.pool, e.proposal.header, answer, h))
            && t.pool == FromLedger(e.pool, Elems(e.missed), e.proposal.header, answer).pool
            && (if asked != [] && e.hasPeer then t.phase == AwaitPeer(asked) && t.verdicts == []
                else
                  && t.phase == Closed
                  && t.verdicts == [if asked == [] || InPool(t.pool, e.missed) then Verdict(None, true)
                                    else Verdict(Some(TransactionsMissing), false)])
  {
    var r := FromLedger(e.pool, Elems(e.missed), e.proposal.header, answer);
    forall h ensures h in asked <==> h in e.missed && !Delivered(e.pool, e.proposal.header, answer, h) {
      assert h in asked <==> h in Elems(asked);
      LedgerLeavesExactly(e.pool, Elems(e.missed), e.proposal.header, answer, h);
    }
    assert asked == [] <==> r.missed == {} by {
      if asked != [] { assert asked[0] in Elems(asked); }
    }
    assert e.missed[0] in Elems(e.missed);
    assert r.missed == {} ==> r.call == Some(Verdict(None, true));
    SecondLookExactly(r.pool, e.missed, Verdict(None, true));
    SecondLookExactly(r.pool, e.missed, Verdict(Some(TransactionsMissing), false));
  }

  // ----- the peer's answer -----

  /** The peer sent exactly what it was asked for, in order, and it could be imported. */
  ghost predicate Satisfies(s: Pool, asked: seq<Hash>, header: Option<Header>, answer: PeerAnswer) {
    answer.PeerTxs? && Hashes(answer.txs) == asked && Import(s, answer.txs, header).ok
  }

  /** The error of an answer that does not satisfy. */
  function FaultOf(s: Pool, asked: seq<Hash>, header: Option<Header>, answer: PeerAnswer): Fault {
    match answer
    case PeerFault(fault) => fault
    case OtherPacket => FetchTransactionsFailed
    case PeerTxs(txs) =>
      if |txs| != |asked| then TransactionsMissing
      else if !Import(s, txs, header).ok then TxsSignatureVerifyFailed
      else InconsistentTransactions
  }

  /**
   How a peer's answer is judged, and what becomes of its transactions: a list of the wrong size is imported after
   the verdict, without regard to the proposal; any other list before it.
   */
  lemma PeerJudgedExactly(s: Pool, asked: seq<Hash>, header: Option<Header>, answer: PeerAnswer)
    ensures var j := OnPeer(s, asked, header, answer);
            && j.verdict == (if Satisfies(s, asked, header, answer) then Verdict(None, true)
                             else Verdict(Some(FaultOf(s, asked, header, answer)), false))
            && (!answer.PeerTxs? ==> j.pool == s && j.after == s)
            && (answer.PeerTxs? && |answer.txs| == |asked| ==>
                j.pool == Import(s, answer.txs, header).pool && j.after == j.pool)
            && (answer.PeerTxs? && |answer.txs| != |asked| ==>
                j.pool == s && j.after == Import(s, answer.txs, None).pool)
  {
    if answer.PeerTxs? { assert |Hashes(answer.txs)| == |answer.txs|; }
  }

  /**
   The verification ends with the peer's answer: in success if and only if the answer satisfies, or transactions are
   reported missing and the pool has got them meanwhile; otherwise with the error of the answer.
   */
  lemma PeerStepExactly(e: Session, answer: PeerAnswer)
    requires OneVerdict(e) && CanHappen(e, PeerAnswers(answer))
    ensures var asked, header := e.phase.asked, e.proposal.header;
            var t := Happen(e, PeerAnswers(answer));
            var pool := OnPeer(e.pool, asked, header, answer).pool;
            var fault := FaultOf(e.pool, asked, header, answer);
            t.phase == Closed && t.verdicts == [
              if Satisfies(e.pool, asked, header, answer) || (fault == TransactionsMissing && InPool(pool, e.missed))
              then Verdict(None, true) else Verdict(Some(fault), false)]
  {
    hide OnPeer, Satisfies, FaultOf, Wrap;
    PeerJudgedExactly(e.pool, e.phase.asked, e.proposal.header, answer);
    var j := OnPeer(e.pool, e.phase.asked, e.proposal.header, answer);
    SecondLookExactly(j.pool, e.missed, j.verdict);
  }

  // ----- completeness -----

  /** A peer's answer that holds what it was asked for, of transactions the proposal may import. */
  ghost predicate GoodAnswer(s: Pool, asked: seq<Hash>, header: Header, txs: seq<Tx>) {
    && AllFresh(txs) && Hashes(txs) == asked
    && forall i :: 0 <= i < |txs| ==> Acceptable(s, txs[i], Batch(header.number, header.hash))
  }

  lemma GoodAnswerSatisfies(s: Pool, asked: seq<Hash>, header: Header, txs: seq<Tx>)
    requires GoodAnswer(s, asked, header, txs)
    ensures Satisfies(s, asked, Some(header), PeerTxs(txs))
  {
    ImportSucceedsExactly(s, txs, header);
  }

  /**
   Completeness: on every run for a proposal with a header that ends with a good answer of the peer, however the
   ledger answered and the pool changed before, the one verdict is success.
   */
  lemma GoodPeerSucceeds(tr: seq<Session>, events: seq<Event>, p: Proposal, txs: seq<Tx>)
    requires IsVerification(tr, events, p) && p.header.Some? && events != []
    requires events[|events| - 1] == PeerAnswers(PeerTxs(txs))
    requires var e := tr[|events| - 1];
             e.phase.AwaitPeer? && GoodAnswer(e.pool, e.phase.asked, p.header.value, txs)
    ensures tr[|events|].verdicts == [Verdict(None, true)]
  {
    var n := |events| - 1;
    assert HappensAt(tr, events, n);
    RunHasOneVerdict(tr, events, p, n);
    GoodAnswerSatisfies(tr[n].pool, tr[n].phase.asked, p.header.value, txs);
    PeerStepExactly(tr[n], PeerTxs(txs));
  }

  /** And there is such a run: a proposal whose missing transactions the peer can send is always accepted. */
  lemma ProposalIsAccepted(s: Pool, p: Proposal, answer: LedgerAnswer, asked: seq<Hash>, txs: seq<Tx>)
    returns (tr: seq<Session>, events: seq<Event>)
    requires p.header.Some? && CanHappen(Open(s, p, true), LedgerAnswers(answer, asked)) && asked != []
    requires var t := FromLedger(s, Elems(Open(s, p, true).missed), p.header, answer).pool;
             GoodAnswer(t, asked, p.header.value, txs)
    ensures IsVerification(tr, events, p) && tr[0] == Open(s, p, true)
    ensures events == [LedgerAnswers(answer, asked), PeerAnswers(PeerTxs(txs))]
    ensures tr[2].verdicts == [Verdict(None, true)] && InPool(tr[2].pool, p.hashes)
  {
    hide Happen, Open, CanHappen, IsVerification;
    AcceptedRun(s, p, answer, asked, txs);
    tr, events := AcceptedTrace(s, p, answer, asked, txs);
    GoodPeerSucceeds(tr, events, p, txs);
    AcceptedIsSound(tr, events, p);
  }

  function SecondState(s: Pool, p: Proposal, answer: LedgerAnswer, asked: seq<Hash>): Session {
    Happen(Open(s, p, true), LedgerAnswers(answer, asked))
  }

  lemma AcceptedRun(s: Pool, p: Proposal, answer: LedgerAnswer, asked: seq<Hash>, txs: seq<Tx>)
    requires p.header.Some? && CanHappen(Open(s, p, true), LedgerAnswers(answer, asked)) && asked != []
    requires AllFresh(txs)
    ensures var e := SecondState(s, p, answer, asked);
            && e.phase == AwaitPeer(asked) && CanHappen(e, PeerAnswers(PeerTxs(txs)))
            && e.pool == FromLedger(s, Elems(Open(s, p, true).missed), p.header, answer).pool
  {
    OpenIsSound(s, p, true);
    LedgerStepExactly(Open(s, p, true), answer, asked);
    LedgerLeavesExactly(s, Elems(Open(s, p, true).missed), p.header, answer, ZERO_HASH);
  }

  lemma AcceptedTrace(s: Pool, p: Proposal, answer: LedgerAnswer, asked: seq<Hash>, txs: seq<Tx>)
    returns (tr: seq<Session>, events: seq<Event>)
    requires CanHappen(Open(s, p, true), LedgerAnswers(answer, asked))
    requires CanHappen(SecondState(s, p, answer, asked), PeerAnswers(PeerTxs(txs)))
    ensures events == [LedgerAnswers(answer, asked), PeerAnswers(PeerTxs(txs))]
    ensures IsVerification(tr, events, p) && tr[0] == Open(s, p, true) && tr[1] == SecondState(s, p, answer, asked)
  {
    hide Happen, CanHappen;
    var e := SecondState(s, p, answer, asked);
    events := [LedgerAnswers(answer, asked), PeerAnswers(PeerTxs(txs))];
    tr := [Open(s, p, true), e, Happen(e, PeerAnswers(PeerTxs(txs)))];
    forall i | 0 <= i < |events| ensures HappensAt(tr, events, i) {
      assert i == 0 || i == 1;
    }
  }

  lemma AcceptedIsSound(tr: seq<Session>, events: seq<Event>, p: Proposal)
    requires IsVerification(tr, events, p) && p.header.Some?
    requires tr[|events|].verdicts == [Verdict(None, true)]
    ensures InPool(tr[|events|].pool, p.hashes)
  {
    RunHasOneVerdict(tr, events, p, |events|);
    RunIsSound(tr, events, p, |events|);
    assert tr[|events|].verdicts[0].ok;
  }
}
