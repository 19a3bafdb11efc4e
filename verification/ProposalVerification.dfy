/**
 Verifying a proposal: `TxPool::asyncVerifyBlock` with the part of `TransactionSync` it drives.

 The transactions the pool misses are asked of the ledger, what is still missing of the peer that
 made the proposal, and when the verdict is "transactions missing" the pool is looked at once
 more. The answers are arbitrary; between the steps the pool changes in any way that removes nothing.
 */
module ProposalVerification {
  import opened TxPoolTypes
  import opened NonceWindow
  import opened PoolState
  import opened ProposalClaims

  datatype Proposal = Proposal(header: Option<Header>, hashes: seq<Hash>)

  /** `CommonError` codes; an error that comes from outside may carry any of them. */
  datatype Fault =
    | TransactionsMissing
    | FetchTransactionsFailed
    | TxsSignatureVerifyFailed
    | InconsistentTransactions
    | OtherFault(code: int)

  /** One call of a finish callback. */
  datatype Verdict = Verdict(error: Option<Fault>, ok: bool)

  datatype LedgerAnswer = LedgerFault(fault: Fault) | LedgerTxs(txs: seq<Tx>)

  datatype PeerAnswer = PeerFault(fault: Fault) | OtherPacket | PeerTxs(txs: seq<Tx>)

  // ----- the handlers, as functions -----

  /** The pool after a handler, and the call of the callback it made, if it made one. */
  datatype Reply = Reply(pool: Pool, call: Option<Verdict>)

  datatype LedgerResult = LedgerResult(pool: Pool, missed: set<Hash>, call: Option<Verdict>)

  /** `onGetMissedTxsFromLedger`: what is still missing; the callback is called when an import leaves nothing. */
  function FromLedger(s: Pool, missed: set<Hash>, header: Option<Header>, answer: LedgerAnswer): LedgerResult {
    match answer
    case LedgerFault(_) => LedgerResult(s, missed, None)
    case LedgerTxs(txs) =>
      var r := Import(s, txs, header);
      if !r.ok then LedgerResult(r.pool, missed, None)
      else
        var left := missed - Elems(Hashes(txs));
        LedgerResult(r.pool, left, if left == {} then Some(Verdict(None, true)) else None)
  }

  /** `requestMissedTxs` once the ledger has answered; if something is still missing, None means: ask the peer. */
  function OnLedger(s: Pool, missed: seq<Hash>, header: Option<Header>, hasPeer: bool, answer: LedgerAnswer): Reply {
    var r := FromLedger(s, Elems(missed), header, answer);
    if r.missed == {} then Reply(r.pool, r.call)
    else if !hasPeer then Reply(r.pool, Some(Verdict(Some(TransactionsMissing), false)))
    else Reply(r.pool, None)
  }

  /** A peer's answer as `verifyFetchedTxs` judges it; `pool` is the pool the callback meets. */
  datatype Judged = Judged(pool: Pool, verdict: Verdict, after: Pool)

  function OnPeer(s: Pool, asked: seq<Hash>, header: Option<Header>, answer: PeerAnswer): Judged {
    match answer
    case PeerFault(fault) => Judged(s, Verdict(Some(fault), false), s)
    case OtherPacket => Judged(s, Verdict(Some(FetchTransactionsFailed), false), s)
    case PeerTxs(txs) =>
      if |asked| != |txs| then
        Judged(s, Verdict(Some(TransactionsMissing), false), Import(s, txs, None).pool)
      else
        var r := Import(s, txs, header);
        if !r.ok then Judged(r.pool, Verdict(Some(TxsSignatureVerifyFailed), false), r.pool)
        else if asked != Hashes(txs) then Judged(r.pool, Verdict(Some(InconsistentTransactions), false), r.pool)
        else Judged(r.pool, Verdict(None, true), r.pool)
  }

  /** `onVerifyFinishedWrapper`: look at the pool again when transactions are reported missing. */
  function Wrap(s: Pool, missed: seq<Hash>, v: Verdict): Verdict {
    if missed == [] then v
    else
      var ok := if v.error == Some(TransactionsMissing) then HasAll(s.table, missed) else v.ok;
      Verdict(if ok then None else v.error, ok)
  }

  // ----- sessions -----

  datatype Phase = AwaitLedger | AwaitPeer(asked: seq<Hash>) | Closed

  /** One verification, together with the pool; `verdicts` are the calls of the caller's callback. */
  datatype Session = Session(
    pool: Pool,
    proposal: Proposal,
    hasPeer: bool,
    missed: seq<Hash>,
    phase: Phase,
    verdicts: seq<Verdict>)

  datatype Event =
    | LedgerAnswers(ledger: LedgerAnswer, asked: seq<Hash>)
    | PeerAnswers(peer: PeerAnswer)
    | PoolChanges(pool: Pool)

  /** `asyncVerifyBlock` up to the first request. */
  function Open(s: Pool, p: Proposal, hasPeer: bool): Session {
    var missed := Missing(s.table, p.hashes);
    if missed == [] then Session(s, p, hasPeer, missed, Closed, [Wrap(s, missed, Verdict(None, true))])
    else Session(s, p, hasPeer, missed, AwaitLedger, [])
  }

  function Close(e: Session, atCall: Pool, after: Pool, v: Verdict): Session {
    Session(after, e.proposal, e.hasPeer, e.missed, Closed, e.verdicts + [Wrap(atCall, e.missed, v)])
  }

  ghost predicate AllFresh(txs: seq<Tx>) {
    forall i :: 0 <= i < |txs| ==> FreshlyDecoded(txs[i])
  }

  ghost predicate CanHappen(e: Session, event: Event) {
    match event
    case LedgerAnswers(answer, asked) =>
      && e.phase.AwaitLedger?
      && (answer.LedgerTxs? ==> AllFresh(answer.txs))
      && Enumerates(asked, FromLedger(e.pool, Elems(e.missed), e.proposal.header, answer).missed)
    case PeerAnswers(answer) => e.phase.AwaitPeer? && (answer.PeerTxs? ==> AllFresh(answer.txs))
    case PoolChanges(t) => e.pool.table.Keys <= t.table.Keys
  }

  function Happen(e: Session, event: Event): Session {
    match event
    case LedgerAnswers(answer, asked) =>
      var r := OnLedger(e.pool, e.missed, e.proposal.header, e.hasPeer, answer);
      if r.call.Some? then Close(e, r.pool, r.pool, r.call.value)
      else e.(pool := r.pool, phase := AwaitPeer(asked))
    case PeerAnswers(answer) =>
      if !e.phase.AwaitPeer? then e
      else
        var j := OnPeer(e.pool, e.phase.asked, e.proposal.header, answer);
        Close(e, j.pool, j.after, j.verdict)
    case PoolChanges(t) => e.(pool := t)
  }

  // ----- forced import of a list -----

  lemma EnforceKeepsOthers(s: Pool, tx: Tx, h: Hash, b: Batch)
    requires Claimed(s, h, b) && (tx.hash == h ==> BatchOf(tx) == b)
    ensures Claimed(Enforce(s, tx).pool, h, b)
  {
  }

  lemma {:induction false} ImportLoopClaims(s: Pool, txs: seq<Tx>, header: Header, i: nat)
    requires i <= |txs| && SignaturesOk(s, txs) && forall j :: 0 <= j < |txs| ==> !txs[j].invalid
    ensures var acc := ImportTo(s, txs, Some(header), i);
            acc.ok ==> forall j :: 0 <= j < i ==> Claimed(acc.pool, txs[j].hash, Batch(header.number, header.hash))
  {
    if i > 0 {
      ImportLoopClaims(s, txs, header, i - 1);
      var p := ImportTo(s, txs, Some(header), i - 1);
      var tx := Prepare(s, txs[i - 1], Some(header));
      var b := Batch(header.number, header.hash);
      if ImportTo(s, txs, Some(header), i).ok {
        EnforceClaims(p.pool, tx);
        forall j | 0 <= j < i - 1 ensures Claimed(Enforce(p.pool, tx).pool, txs[j].hash, b) {
          EnforceKeepsOthers(p.pool, tx, txs[j].hash, b);
        }
      }
    }
  }

  /**
   Forced import of a list: when `importDownloadedTxs` succeeds for a proposal with a header, every listed
   transaction is in the pool, sealed for exactly that proposal.
   */
  lemma ImportClaimsAll(s: Pool, txs: seq<Tx>, header: Header)
    requires AllFresh(txs) && Import(s, txs, Some(header)).ok
    ensures forall j :: 0 <= j < |txs| ==>
              Claimed(Import(s, txs, Some(header)).pool, txs[j].hash, Batch(header.number, header.hash))
  {
    if txs != [] { ImportLoopClaims(s, txs, header, |txs|); }
  }

  lemma ImportStepGrows(acc: Importing, tx: Tx, enforce: bool)
    ensures acc.pool.table.Keys <= ImportStep(acc, tx, enforce).pool.table.Keys
  {
    SubmitEffect(acc.pool, tx, None);
  }

  lemma {:induction false} ImportLoopGrows(s: Pool, txs: seq<Tx>, header: Option<Header>, i: nat)
    requires i <= |txs|
    ensures s.table.Keys <= ImportTo(s, txs, header, i).pool.table.Keys
  {
    hide ImportStep;
    if i > 0 {
      ImportLoopGrows(s, txs, header, i - 1);
      ImportStepGrows(ImportTo(s, txs, header, i - 1), Prepare(s, txs[i - 1], header), header.Some?);
    }
  }

  lemma ImportGrows(s: Pool, txs: seq<Tx>, header: Option<Header>)
    ensures s.table.Keys <= Import(s, txs, header).pool.table.Keys
  {
    ImportLoopGrows(s, txs, header, |txs|);
  }

  // ----- one consistent verdict -----

  ghost predicate OneVerdict(e: Session) {
    && (e.phase.Closed? <==> |e.verdicts| == 1)
    && (!e.phase.Closed? ==> e.verdicts == [] && e.missed != [])
    && (forall i :: 0 <= i < |e.verdicts| ==> (e.verdicts[i].error.None? <==> e.verdicts[i].ok))
  }

  lemma EventKeepsOneVerdict(e: Session, event: Event)
    requires OneVerdict(e) && CanHappen(e, event)
    ensures OneVerdict(Happen(e, event))
  {
  }

  /** How many answers a session still waits for, at most. */
  function Waiting(e: Session): nat {
    match e.phase
    case AwaitLedger => 2
    case AwaitPeer(_) => 1
    case Closed => 0
  }

  lemma AnswersAdvance(e: Session, event: Event)
    requires CanHappen(e, event)
    ensures !event.PoolChanges? ==> Waiting(Happen(e, event)) < Waiting(e)
    ensures event.PoolChanges? ==> Waiting(Happen(e, event)) == Waiting(e)
  {
  }

  // ----- soundness -----

  ghost predicate InPool(s: Pool, hashes: seq<Hash>) {
    forall i :: 0 <= i < |hashes| ==> hashes[i] in s.table
  }

  /** Every hash of the proposal is in the pool or among the pending. */
  ghost predicate Covered(e: Session, pending: seq<Hash>) {
    forall i :: 0 <= i < |e.proposal.hashes| ==> e.proposal.hashes[i] in e.pool.table || e.proposal.hashes[i] in pending
  }

  ghost predicate Sound(e: Session) {
    && Covered(e, e.missed)
    && (e.phase.AwaitPeer? ==> Covered(e, e.phase.asked))
    && (forall i :: 0 <= i < |e.verdicts| && e.verdicts[i].ok ==> InPool(e.pool, e.proposal.hashes))
  }

  lemma {:induction false} MissingLoop(table: map<Hash, Tx>, hashes: seq<Hash>, i: nat, h: Hash)
    requires i <= |hashes|
    ensures h in MissingTo(table, hashes, i) <==> h in hashes[..i] && h !in table
  {
    if i > 0 {
      MissingLoop(table, hashes, i - 1, h);
      assert hashes[..i] == hashes[..i - 1] + [hashes[i - 1]];
    }
  }

  /** `batchVerifyProposal` lists exactly the hashes of the block that are not in the pool. */
  lemma MissingContract(table: map<Hash, Tx>, hashes: seq<Hash>, h: Hash)
    ensures h in Missing(table, hashes) <==> h in hashes && h !in table
  {
    MissingLoop(table, hashes, |hashes|, h);
    assert hashes[..|hashes|] == hashes;
  }

  lemma OpenIsSound(s: Pool, p: Proposal, hasPeer: bool)
    ensures Sound(Open(s, p, hasPeer)) && OneVerdict(Open(s, p, hasPeer))
  {
    forall i | 0 <= i < |p.hashes| ensures p.hashes[i] in s.table || p.hashes[i] in Missing(s.table, p.hashes) {
      MissingContract(s.table, p.hashes, p.hashes[i]);
    }
  }

  /** What the ledger no longer misses is in the pool. */
  lemma LedgerResultIsSound(s: Pool, missed: set<Hash>, header: Header, answer: LedgerAnswer, h: Hash)
    requires h in missed && (answer.LedgerTxs? ==> AllFresh(answer.txs))
    ensures var r := FromLedger(s, missed, Some(header), answer);
            s.table.Keys <= r.pool.table.Keys && (h in r.missed || h in r.pool.table)
  {
    if answer.LedgerTxs? {
      ImportGrows(s, answer.txs, Some(header));
      if Import(s, answer.txs, Some(header)).ok {
        ImportClaimsAll(s, answer.txs, header);
        if h in Hashes(answer.txs) {
          var i :| 0 <= i < |answer.txs| && answer.txs[i].hash == h;
        }
      }
    }
  }

  lemma WrapIsSound(e: Session, s: Pool, v: Verdict)
    requires Covered(e, e.missed) && e.pool.table.Keys <= s.table.Keys
    requires v.ok ==> InPool(s, e.proposal.hashes)
    requires v.error.Some? ==> !v.ok
    ensures Wrap(s, e.missed, v).ok ==> InPool(s, e.proposal.hashes)
  {
    if Wrap(s, e.missed, v).ok && !v.ok {
      forall i | 0 <= i < |e.proposal.hashes| ensures e.proposal.hashes[i] in s.table {
        if e.proposal.hashes[i] in e.missed {
          var j :| 0 <= j < |e.missed| && e.missed[j] == e.proposal.hashes[i];
        }
      }
    }
  }

  lemma LedgerKeepsSound(e: Session, answer: LedgerAnswer, asked: seq<Hash>)
    requires Sound(e) && OneVerdict(e) && e.proposal.header.Some? && CanHappen(e, LedgerAnswers(answer, asked))
    ensures Sound(Happen(e, LedgerAnswers(answer, asked)))
  {
    var header := e.proposal.header.value;
    var r := FromLedger(e.pool, Elems(e.missed), Some(header), answer);
    LedgerResultIsSound(e.pool, Elems(e.missed), header, answer, e.missed[0]);
    forall i | 0 <= i < |e.proposal.hashes|
      ensures e.proposal.hashes[i] in r.pool.table || e.proposal.hashes[i] in r.missed
    {
      if e.proposal.hashes[i] in Elems(e.missed) {
        LedgerResultIsSound(e.pool, Elems(e.missed), header, answer, e.proposal.hashes[i]);
      }
    }
    var call := OnLedger(e.pool, e.missed, Some(header), e.hasPeer, answer).call;
    if call.Some? {
      WrapIsSound(e, r.pool, call.value);
    } else {
      assert forall h :: h in r.missed ==> h in Elems(asked);
    }
  }

  lemma PeerAnswerIsSound(s: Pool, asked: seq<Hash>, header: Header, answer: PeerAnswer)
    requires answer.PeerTxs? ==> AllFresh(answer.txs)
    ensures var j := OnPeer(s, asked, Some(header), answer);
            && s.table.Keys <= j.pool.table.Keys <= j.after.table.Keys
            && (j.verdict.ok ==> InPool(j.pool, asked))
  {
    if answer.PeerTxs? {
      ImportGrows(s, answer.txs, Some(header));
      ImportGrows(s, answer.txs, None);
      if OnPeer(s, asked, Some(header), answer).verdict.ok {
        ImportClaimsAll(s, answer.txs, header);
        assert forall i :: 0 <= i < |asked| ==> asked[i] == answer.txs[i].hash;
      }
    }
  }

  lemma PeerKeepsSound(e: Session, answer: PeerAnswer)
    requires Sound(e) && OneVerdict(e) && e.proposal.header.Some? && CanHappen(e, PeerAnswers(answer))
    ensures Sound(Happen(e, PeerAnswers(answer)))
  {
    var j := OnPeer(e.pool, e.phase.asked, e.proposal.header, answer);
    PeerAnswerIsSound(e.pool, e.phase.asked, e.proposal.header.value, answer);
    if j.verdict.ok {
      forall i | 0 <= i < |e.proposal.hashes| ensures e.proposal.hashes[i] in j.pool.table {
        if e.proposal.hashes[i] in e.phase.asked {
          var k :| 0 <= k < |e.phase.asked| && e.phase.asked[k] == e.proposal.hashes[i];
        }
      }
    }
    WrapIsSound(e, j.pool, j.verdict);
  }

  lemma EventKeepsSound(e: Session, event: Event)
    requires Sound(e) && OneVerdict(e) && e.proposal.header.Some? && CanHappen(e, event)
    ensures Sound(Happen(e, event))
  {
    match event
    case LedgerAnswers(answer, asked) => LedgerKeepsSound(e, answer, asked);
    case PeerAnswers(answer) => PeerKeepsSound(e, answer);
    case PoolChanges(t) =>
  }

  // ----- runs -----

  ghost predicate HappensAt(tr: seq<Session>, events: seq<Event>, i: nat)
    requires |tr| == |events| + 1 && i < |events|
  {
    CanHappen(tr[i], events[i]) && tr[i + 1] == Happen(tr[i], events[i])
  }

  /** A verification of the proposal, from any pool, with any answers and any pool changes in between. */
  ghost predicate IsVerification(tr: seq<Session>, events: seq<Event>, p: Proposal) {
    && |tr| == |events| + 1
    && tr[0] == Open(tr[0].pool, p, tr[0].hasPeer)
    && forall i {:trigger HappensAt(tr, events, i)} :: 0 <= i < |events| ==> HappensAt(tr, events, i)
  }

  function Answers(events: seq<Event>): nat {
    if events == [] then 0
    else Answers(events[..|events| - 1]) + if events[|events| - 1].PoolChanges? then 0 else 1
  }

  lemma {:induction false} RunHasOneVerdict(tr: seq<Session>, events: seq<Event>, p: Proposal, i: nat)
    requires IsVerification(tr, events, p) && i <= |events|
    ensures OneVerdict(tr[i]) && tr[i].proposal == p
    ensures Waiting(tr[i]) + Answers(events[..i]) <= 2
  {
    if i > 0 {
      RunHasOneVerdict(tr, events, p, i - 1);
      assert HappensAt(tr, events, i - 1);
      EventKeepsOneVerdict(tr[i - 1], events[i - 1]);
      AnswersAdvance(tr[i - 1], events[i - 1]);
      assert events[..i][..i - 1] == events[..i - 1];
    } else {
      OpenIsSound(tr[0].pool, p, tr[0].hasPeer);
    }
  }

  /**
   Exactly one consistent verdict: the callback has been called at most once, with a null error if and only if
   the result is true, and exactly once when the session is closed, which two answers always do.
   */
  lemma ExactlyOneVerdict(tr: seq<Session>, events: seq<Event>, p: Proposal)
    requires IsVerification(tr, events, p)
    ensures var e := tr[|events|];
            && |e.verdicts| <= 1
            && (|e.verdicts| == 1 <==> e.phase.Closed?)
            && (|e.verdicts| == 1 ==> (e.verdicts[0].error.None? <==> e.verdicts[0].ok))
            && (Answers(events) >= 2 ==> |e.verdicts| == 1)
  {
    RunHasOneVerdict(tr, events, p, |events|);
    assert events[..|events|] == events;
  }

  lemma {:induction false} RunIsSound(tr: seq<Session>, events: seq<Event>, p: Proposal, i: nat)
    requires IsVerification(tr, events, p) && p.header.Some? && i <= |events|
    ensures Sound(tr[i])
  {
    if i > 0 {
      RunIsSound(tr, events, p, i - 1);
      RunHasOneVerdict(tr, events, p, i - 1);
      assert HappensAt(tr, events, i - 1);
      EventKeepsSound(tr[i - 1], events[i - 1]);
    } else {
      OpenIsSound(tr[0].pool, p, tr[0].hasPeer);
    }
  }

  /** Success was reported although a transaction of the proposal is not in the pool. */
  ghost predicate FalseSuccess(e: Session) {
    |e.verdicts| == 1 && e.verdicts[0].ok && !InPool(e.pool, e.proposal.hashes)
  }

  // ----- without a header -----

  /** A genuine transaction with a nonce that has been committed: the ledger has it, the pool refuses it. */
  function OnChainTx(s: Pool, h: Hash, nonce: Nonce): Tx {
    Tx(h, nonce, s.window.number + 1, s.config.groupId, s.config.chainId, "", true,
       false, -1, ZERO_HASH, false, false, false, None)
  }

  function OnChainTxs(s: Pool, hashes: seq<Hash>, nonce: Nonce): seq<Tx> {
    seq(|hashes|, i requires 0 <= i < |hashes| => OnChainTx(s, hashes[i], nonce))
  }

  lemma {:induction false} CommittedAreRefused(s: Pool, hashes: seq<Hash>, nonce: Nonce, i: nat)
    requires i <= |hashes| && nonce in s.window.nonces
    ensures ImportTo(s, OnChainTxs(s, hashes, nonce), None, i) == Importing(s, true)
  {
    if i > 0 {
      CommittedAreRefused(s, hashes, nonce, i - 1);
      var tx := Prepare(s, OnChainTx(s, hashes[i - 1], nonce), None);
      assert OnChainTxs(s, hashes, nonce)[i - 1] == OnChainTx(s, hashes[i - 1], nonce);
      assert VerifyStatus(s, tx) == NonceCheckFail;
      SubmitEffect(s, tx, None);
    }
  }

  /**
   Any pool that lacks a transaction of a proposal without a header, and a ledger that answers with committed
   transactions: their nonces are in the window, so none is imported, and success is reported.
   */
  lemma HeaderlessFalseSuccess(s: Pool, p: Proposal, nonce: Nonce) returns (tr: seq<Session>, events: seq<Event>)
    requires p.header.None? && !InPool(s, p.hashes) && nonce in s.window.nonces
    ensures IsVerification(tr, events, p) && FalseSuccess(tr[|events|]) && tr[0].pool == s
  {
    var e := Open(s, p, false);
    var i :| 0 <= i < |p.hashes| && p.hashes[i] !in s.table;
    MissingContract(s.table, p.hashes, p.hashes[i]);
    var txs := OnChainTxs(s, e.missed, nonce);
    CommittedAreRefused(s, e.missed, nonce, |e.missed|);
    assert Import(s, txs, None) == Importing(s, true);
    assert Hashes(txs) == e.missed;
    var event := LedgerAnswers(LedgerTxs(txs), []);
    assert FromLedger(s, Elems(e.missed), None, LedgerTxs(txs)).missed == {};
    tr, events := [e, Happen(e, event)], [event];
    assert HappensAt(tr, events, 0);
  }

  /** A new pool on a chain of one block. */
  const NEW_POOL := NewPool(Config(1, "", "", {}, false), Window(1, 1, map[1 := [Nonce(7)]], {Nonce(7)}))

  /**
   Soundness of verification, exactly: no run reports success while a transaction of the proposal is
   missing from the pool, if and only if the proposal has a header or no transactions.
   */
  lemma VerificationIsSoundExactly(p: Proposal)
    ensures (forall tr, events :: IsVerification(tr, events, p) ==> !FalseSuccess(tr[|events|]))
            <==> p.header.Some? || p.hashes == []
  {
    if p.header.Some? || p.hashes == [] {
      forall tr, events | IsVerification(tr, events, p) ensures !FalseSuccess(tr[|events|]) {
        RunHasOneVerdict(tr, events, p, |events|);
        if p.header.Some? { RunIsSound(tr, events, p, |events|); }
      }
    } else {
      assert p.hashes[0] !in NEW_POOL.table;
      var tr, events := HeaderlessFalseSuccess(NEW_POOL, p, Nonce(7));
      assert FalseSuccess(tr[|events|]);
    }
  }
}
