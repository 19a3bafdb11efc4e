/**
 `batchRemove` moves the nonces of a block from the pool's set to the ledger's, in several steps. A
 nonce is in at least one of the two sets at every point in between.
 */
module CommitHandover {
  import opened TxPoolTypes
  import opened NonceWindow
  import opened PoolState
  import opened ReplayInterleaving

  /** How far a commit has come. */
  datatype Stage =
    | Started
    | TxsRemoved
    | NumberRaised
    | NoncesAdded(count: nat)
    | ListStored
    | ListDropped
    | Completed

  ghost predicate IsStage(nonces: seq<Nonce>, stage: Stage) {
    stage.NoncesAdded? ==> stage.count <= |nonces|
  }

  function WithWindow(s: Pool, w: Window): Pool {
    s.(window := w)
  }

  /** The pool at one stage of the commit of block `id`. */
  function At(s: Pool, id: int, results: seq<TxResult>, stage: Stage): Pool
    requires IsStage(CommitNonces(s, results), stage)
  {
    var nonces := CommitNonces(s, results);
    var b := Block(id, nonces);
    var removed := Notify(CommitTo(s, results, |results|).pool);
    var raised := Raise(removed.window, b);
    var added := AddFirst(raised, b, |nonces|);
    match stage
    case Started => s
    case TxsRemoved => removed
    case NumberRaised => WithWindow(removed, raised)
    case NoncesAdded(i) => WithWindow(removed, AddFirst(raised, b, i))
    case ListStored => WithWindow(removed, StoreBlock(added, b))
    case ListDropped => WithWindow(removed, DropExpiring(StoreBlock(added, b), b))
    case Completed =>
      WithWindow(removed, DropExpiring(StoreBlock(added, b), b)).(poolNonces := removed.poolNonces - Elems(nonces))
  }

  /** The last stage is the commit as one operation. */
  lemma StagesEndInCommit(s: Pool, id: int, results: seq<TxResult>)
    ensures At(s, id, results, Completed) == Commit(s, id, results)
  {
    StepsRefineArrival(Notify(CommitTo(s, results, |results|).pool).window, Block(id, CommitNonces(s, results)));
  }

  lemma {:induction false} CommitKeepsPoolNonces(s: Pool, results: seq<TxResult>, i: nat)
    requires i <= |results|
    ensures CommitTo(s, results, i).pool.poolNonces == s.poolNonces
  {
    if i > 0 { CommitKeepsPoolNonces(s, results, i - 1); }
  }

  /** The nonce belongs to the block that the commit expires. */
  ghost predicate ExpiredWith(w: Window, id: int, nonce: Nonce) {
    var gone := Expiring(w.limit, id);
    gone != -1 && gone in w.cache && nonce in w.cache[gone]
  }

  lemma CompletionHolds(s: Pool, id: int, results: seq<TxResult>, nonce: Nonce)
    requires s.window.limit >= 1 && nonce in CommitNonces(s, results)
    ensures nonce in Commit(s, id, results).window.nonces <==> !ExpiredWith(s.window, id, nonce)
    ensures nonce !in Commit(s, id, results).poolNonces
  {
  }

  /**
   Gapless hand-over: a committed nonce that was pending is in one of the two sets at every stage, exactly
   when it is not also a nonce of the block that expires.
   */
  lemma NonceIsHandedOver(s: Pool, id: int, results: seq<TxResult>, nonce: Nonce)
    requires s.window.limit >= 1 && nonce in CommitNonces(s, results) && nonce in s.poolNonces
    ensures (forall stage :: IsStage(CommitNonces(s, results), stage) ==>
               var t := At(s, id, results, stage); nonce in t.poolNonces || nonce in t.window.nonces)
            <==> !ExpiredWith(s.window, id, nonce)
  {
    CommitKeepsPoolNonces(s, results, |results|);
    StagesEndInCommit(s, id, results);
    CompletionHolds(s, id, results, nonce);
    assert IsStage(CommitNonces(s, results), Completed);
    forall stage | IsStage(CommitNonces(s, results), stage) && stage != Completed
      ensures nonce in At(s, id, results, stage).poolNonces
    {
    }
  }

  /** So no stage lets an atomic verification of a transaction with that nonce succeed. */
  lemma AtomicVerifyRejects(s: Pool, id: int, results: seq<TxResult>, stage: Stage, tx: Tx)
    requires s.window.limit >= 1 && IsStage(CommitNonces(s, results), stage)
    requires tx.nonce in CommitNonces(s, results) && tx.nonce in s.poolNonces
    requires Admissible(s.window, Block(id, CommitNonces(s, results)))
    ensures VerifyStatus(At(s, id, results, stage), tx) != Ok
  {
    assert !Cached(s.window, tx.nonce);
    NonceIsHandedOver(s, id, results, tx.nonce);
  }

  /** A verification that reads the ledger's checker in state a and the pool's nonce set in state b. */
  function SplitVerify(a: Pool, b: Pool, tx: Tx): Status {
    if VerifyStatus(a.(poolNonces := {}), tx) != Ok then VerifyStatus(a.(poolNonces := {}), tx)
    else if tx.nonce in b.poolNonces then NonceCheckFail
    else Ok
  }

  /**
   A verification that reads the ledger's checker at stage a and the pool's set at stage b accepts a pending
   nonce of the block exactly when the second read comes last and the first finds nothing.
   */
  lemma SplitVerifyAccepts(s: Pool, id: int, results: seq<TxResult>, a: Stage, b: Stage, tx: Tx)
    requires s.window.limit >= 1 && IsStage(CommitNonces(s, results), a) && IsStage(CommitNonces(s, results), b)
    requires tx.nonce in CommitNonces(s, results) && tx.nonce in s.poolNonces
    ensures var first, second := At(s, id, results, a), At(s, id, results, b);
            SplitVerify(first, second, tx) == Ok <==>
            b == Completed && VerifyStatus(first.(poolNonces := {}), tx) == Ok
  {
    CommitKeepsPoolNonces(s, results, |results|);
    StagesEndInCommit(s, id, results);
    CompletionHolds(s, id, results, tx.nonce);
  }

  /** At this stage the nonce has not been added to the ledger's set. */
  ghost predicate NotYetAdded(nonces: seq<Nonce>, stage: Stage, nonce: Nonce) {
    stage.Started? || stage.TxsRemoved? || stage.NumberRaised? ||
    (stage.NoncesAdded? && stage.count <= |nonces| && nonce !in nonces[..stage.count])
  }

  /** A verification asked of both sets with nothing in them: everything but the nonce. */
  ghost predicate PassesOtherwise(t: Pool, tx: Tx) {
    VerifyStatus(t.(poolNonces := {}, window := WithNonces(t.window, {})), tx) == Ok
  }

  lemma LedgerHoldsOnceAdded(s: Pool, id: int, results: seq<TxResult>, stage: Stage, nonce: Nonce)
    requires Coherent(s.window) && IsStage(CommitNonces(s, results), stage)
    requires Admissible(s.window, Block(id, CommitNonces(s, results))) && nonce in CommitNonces(s, results)
    ensures nonce in At(s, id, results, stage).window.nonces <==> !NotYetAdded(CommitNonces(s, results), stage, nonce)
  {
    var nonces := CommitNonces(s, results);
    var raised := Raise(Notify(CommitTo(s, results, |results|).pool).window, Block(id, nonces));
    assert !Cached(s.window, nonce) && raised.nonces == s.window.nonces;
    AddFirstAdds(raised, Block(id, nonces), if stage.NoncesAdded? then stage.count else |nonces|);
    assert nonces[..|nonces|] == nonces;
    StagesEndInCommit(s, id, results);
    CompletionHolds(s, id, results, nonce);
  }

  /**
   Atomicity is needed, exactly: of all the ways in which the two reads of a verification can fall between the
   steps of a commit, those accept a nonce of the block that look into the ledger's set before it is
   added and into the pool's set after it is removed.
   */
  lemma StraddlingVerifyAccepts(s: Pool, id: int, results: seq<TxResult>, a: Stage, b: Stage, tx: Tx)
    requires Coherent(s.window) && IsStage(CommitNonces(s, results), a) && IsStage(CommitNonces(s, results), b)
    requires Admissible(s.window, Block(id, CommitNonces(s, results)))
    requires tx.nonce in CommitNonces(s, results) && tx.nonce in s.poolNonces
    ensures SplitVerify(At(s, id, results, a), At(s, id, results, b), tx) == Ok <==>
            && b == Completed
            && NotYetAdded(CommitNonces(s, results), a, tx.nonce)
            && PassesOtherwise(At(s, id, results, a), tx)
  {
    hide At;
    SplitVerifyAccepts(s, id, results, a, b, tx);
    LedgerHoldsOnceAdded(s, id, results, a, tx.nonce);
  }
}
