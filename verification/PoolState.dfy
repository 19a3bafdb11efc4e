/**
 What the operations of `MemoryStorage` do, on values: the specification the class
 `MemoryStorageObject.MemoryStorage` is proved against.

 Loops over a list are folds over its first i elements. A loop over the hash table is a fold over
 `order`, an arbitrary enumeration of its keys; a key without an entry is skipped.
 */
module PoolState {
  import opened TxPoolTypes
  import opened NonceWindow

  datatype Config = Config(
    poolLimit: nat,
    groupId: string,
    chainId: string,
    systemAddresses: set<string>,
    notifies: bool)

  datatype Pool = Pool(
    config: Config,
    table: map<Hash, Tx>,
    sealedCount: nat,
    invalidTxs: set<Hash>,
    invalidNonces: set<Nonce>,
    missed: set<Hash>,
    poolNonces: set<Nonce>,
    window: Window,
    newTxs: bool,
    receipts: seq<Receipt>)

  /** A pool that has just been built: nothing stored, nothing recorded. */
  function NewPool(config: Config, window: Window): Pool {
    Pool(config, map[], 0, {}, {}, {}, {}, window, false, [])
  }

  datatype Outcome = Outcome(pool: Pool, status: Status)

  /** The ledger window and the configuration are as before: true of everything but a commit. */
  predicate SameChain(s: Pool, r: Pool) {
    r.window == s.window && r.config == s.config
  }

  // ----- sizes -----

  /** `m_sealedTxsSize--` on an unsigned counter. */
  function Decrement(count: nat): nat {
    if count == 0 then SIZE_MAX else count - 1
  }

  function UnsealedSize(s: Pool): nat {
    if |s.table| < s.sealedCount then 0 else |s.table| - s.sealedCount
  }

  /** The clamping branch of `unSealedTxsSizeWithoutLock`. */
  function Clamp(s: Pool): (out: Pool)
    ensures SameChain(s, out)
  {
    if |s.table| < s.sealedCount then s.(sealedCount := |s.table|) else s
  }

  function Notify(s: Pool): (out: Pool)
    ensures SameChain(s, out)
  {
    if s.config.notifies then Clamp(s) else s
  }

  // ----- submitting -----

  function SubmittedToChain(w: Window, tx: Tx): Status {
    Check(w, tx.nonce, tx.blockLimit)
  }

  /** `TxValidator::verify`, on the state of its two nonce checkers: the pool's nonces are asked last. */
  function VerifyIn(groupId: string, chainId: string, w: Window, poolNonces: set<Nonce>, tx: Tx): Status {
    if tx.invalid then InvalidSignature
    else if tx.groupId != groupId then InvalidGroupId
    else if tx.chainId != chainId then InvalidChainId
    else if SubmittedToChain(w, tx) != Ok then SubmittedToChain(w, tx)
    else if !tx.genuine then InvalidSignature
    else if tx.nonce in poolNonces then NonceCheckFail
    else Ok
  }

  function VerifyStatus(s: Pool, tx: Tx): Status {
    VerifyIn(s.config.groupId, s.config.chainId, s.window, s.poolNonces, tx)
  }

  function MarkSystem(s: Pool, tx: Tx): Tx {
    if tx.to in s.config.systemAddresses then tx.(systemTx := true) else tx
  }

  function Insert(s: Pool, tx: Tx): (out: Outcome)
    ensures SameChain(s, out.pool)
  {
    if tx.hash in s.table then Outcome(s, AlreadyInTxPool)
    else Outcome(Notify(s.(table := s.table[tx.hash := tx], newTxs := true)), Ok)
  }

  function Imported(s: Pool, hash: Hash): (out: Pool)
    ensures SameChain(s, out)
  {
    s.(missed := s.missed - {hash})
  }

  function WithCallback(tx: Tx, callback: Option<nat>): Tx {
    if callback.Some? then tx.(callback := callback) else tx
  }

  /** The pool with one more transaction that passed verification. */
  function Admit(s: Pool, tx: Tx): (out: Pool)
    ensures SameChain(s, out)
  {
    s.(table := s.table[tx.hash := tx],
       poolNonces := s.poolNonces + {tx.nonce},
       missed := s.missed - {tx.hash},
       newTxs := true)
  }

  /** `verifyAndSubmitTransaction`. */
  function Submit(s: Pool, tx: Tx, callback: Option<nat>): (out: Outcome)
    ensures SameChain(s, out.pool)
  {
    if |s.table| >= s.config.poolLimit then Outcome(s, TxPoolIsFull)
    else if tx.hash in s.table then Outcome(s, AlreadyInTxPool)
    else if VerifyStatus(s, tx) != Ok then Outcome(s, VerifyStatus(s, tx))
    else Outcome(Notify(Admit(s, MarkSystem(s, WithCallback(tx, callback)))), Ok)
  }

  /** A submission changes nothing, or admits one new transaction. */
  lemma SubmitEffect(s: Pool, tx: Tx, callback: Option<nat>)
    ensures var r := Submit(s, tx, callback);
            && (r.status != Ok ==> r.pool == s)
            && (r.status == Ok ==>
                && |s.table| < s.config.poolLimit
                && tx.hash !in s.table
                && VerifyStatus(s, tx) == Ok
                && r.pool == Notify(Admit(s, MarkSystem(s, WithCallback(tx, callback)))))
  {
  }

  function NotifyInvalid(s: Pool, hash: Hash, status: Status, callback: Option<nat>): (out: Pool)
    ensures SameChain(s, out)
  {
    if callback.Some? then s.(receipts := s.receipts + [Rejected(callback.value, hash, status)]) else s
  }

  /** `submitTransaction` on encoded data: None when it does not decode. */
  function SubmitData(s: Pool, decoded: Option<Tx>, callback: Option<nat>): (out: Outcome)
    ensures SameChain(s, out.pool)
  {
    match decoded
    case None => Outcome(NotifyInvalid(s, ZERO_HASH, Malform, callback), Malform)
    case Some(tx) =>
      var r := Submit(s, tx, callback);
      if r.status != Ok then Outcome(NotifyInvalid(r.pool, tx.hash, r.status, callback), r.status) else r
  }

  function Claim(held: Tx, tx: Tx): Tx {
    held.(sealed := true, batchId := tx.batchId, batchHash := tx.batchHash)
  }

  function CountSealing(s: Pool, tx: Tx): nat {
    if tx.sealed then s.sealedCount else s.sealedCount + 1
  }

  /** `enforceSubmitTransaction`: import for a proposal. */
  function Enforce(s: Pool, tx: Tx): (out: Outcome)
    ensures SameChain(s, out.pool)
  {
    if SubmittedToChain(s.window, tx) == NonceCheckFail then Outcome(s, NonceCheckFail)
    else if tx.hash in s.table then
      var held := s.table[tx.hash];
      if !held.sealed || held.batchHash == ZERO_HASH then
        Outcome(s.(table := s.table[tx.hash := Claim(held, tx)], sealedCount := CountSealing(s, held)), Ok)
      else if held.batchId == tx.batchId && held.batchHash == tx.batchHash then Outcome(s, Ok)
      else Outcome(s, AlreadyInTxPool)
    else
      var r := Insert(s.(sealedCount := CountSealing(s, tx)), tx.(sealed := true));
      Outcome(Imported(r.pool, tx.hash), Ok)
  }

  function InsertTo(s: Pool, txs: seq<Tx>, i: nat): (out: Pool)
    requires i <= |txs|
    ensures SameChain(s, out)
  {
    if i == 0 then s else Insert(InsertTo(s, txs, i - 1), txs[i - 1]).pool
  }

  function Hashes(txs: seq<Tx>): seq<Hash> {
    seq(|txs|, i requires 0 <= i < |txs| => txs[i].hash)
  }

  function BatchInsert(s: Pool, txs: seq<Tx>): (out: Pool)
    ensures SameChain(s, out)
  {
    var r := InsertTo(s, txs, |txs|);
    r.(missed := r.missed - Elems(Hashes(txs)))
  }

  // ----- removing -----

  datatype Removed = Removed(pool: Pool, tx: Option<Tx>)

  /** `removeWithoutLock`. */
  function Remove(s: Pool, hash: Hash): (out: Removed)
    ensures SameChain(s, out.pool)
  {
    if hash !in s.table then Removed(s, None)
    else
      var tx := s.table[hash];
      Removed(
        s.(table := s.table - {hash}, sealedCount := if tx.sealed then Decrement(s.sealedCount) else s.sealedCount),
        Some(tx))
  }

  function NotifyResult(s: Pool, tx: Tx, result: TxResult): (out: Pool)
    ensures SameChain(s, out)
  {
    if tx.callback.Some? then s.(receipts := s.receipts + [Finished(tx.callback.value, result)]) else s
  }

  /** `remove`. */
  function RemoveTx(s: Pool, hash: Hash): (out: Removed)
    ensures SameChain(s, out.pool)
  {
    var r := Remove(s, hash);
    r.(pool := Notify(r.pool))
  }

  /** `removeSubmittedTx`. */
  function RemoveSubmittedTx(s: Pool, result: TxResult): (out: Removed)
    ensures SameChain(s, out.pool)
  {
    var r := RemoveTx(s, result.hash);
    if r.tx.None? then r else r.(pool := NotifyResult(r.pool, r.tx.value, result))
  }

  /** `removeSubmittedTxWithoutLock`. */
  function RemoveSubmitted(s: Pool, result: TxResult): (out: Removed)
    ensures SameChain(s, out.pool)
  {
    var r := Remove(s, result.hash);
    if r.tx.None? then r else r.(pool := NotifyResult(r.pool, r.tx.value, result))
  }

  datatype Committing = Committing(pool: Pool, nonces: seq<Nonce>)

  function CommitStep(acc: Committing, result: TxResult): (out: Committing)
    ensures SameChain(acc.pool, out.pool)
  {
    var r := RemoveSubmitted(acc.pool, result);
    if r.tx.None? && result.nonce != NO_NONCE then Committing(r.pool, acc.nonces + [result.nonce])
    else if r.tx.Some? then Committing(r.pool, acc.nonces + [r.tx.value.nonce])
    else Committing(r.pool, acc.nonces)
  }

  function CommitTo(s: Pool, results: seq<TxResult>, i: nat): (out: Committing)
    requires i <= |results|
    ensures SameChain(s, out.pool)
  {
    if i == 0 then Committing(s, []) else CommitStep(CommitTo(s, results, i - 1), results[i - 1])
  }

  function CommitNonces(s: Pool, results: seq<TxResult>): seq<Nonce> {
    CommitTo(s, results, |results|).nonces
  }

  /** `batchRemove`: the block `id` has been committed. */
  function Commit(s: Pool, id: int, results: seq<TxResult>): Pool {
    var acc := CommitTo(s, results, |results|);
    var r := Notify(acc.pool);
    r.(window := Arrive(r.window, Block(id, acc.nonces)), poolNonces := r.poolNonces - Elems(acc.nonces))
  }

  function Expiry(hash: Hash): TxResult {
    TxResult(hash, NO_NONCE, BlockLimitCheckFail)
  }

  function CleanTo(s: Pool, order: seq<Hash>, i: nat): (out: Pool)
    requires i <= |order|
    ensures SameChain(s, out)
  {
    if i == 0 then s else RemoveSubmitted(CleanTo(s, order, i - 1), Expiry(order[i - 1])).pool
  }

  /** `removeInvalidTxs`; `order` enumerates `m_invalidTxs`. */
  function Clean(s: Pool, order: seq<Hash>): (out: Pool)
    ensures SameChain(s, out)
  {
    if s.invalidTxs == {} then s
    else
      var r := Notify(CleanTo(s, order, |order|));
      r.(poolNonces := r.poolNonces - r.invalidNonces, invalidTxs := {}, invalidNonces := {})
  }

  // ----- fetching -----

  datatype Fetched = Fetched(txs: seq<Tx>, missed: seq<Hash>)

  function FetchStep(table: map<Hash, Tx>, acc: Fetched, hash: Hash): Fetched {
    if hash in table then acc.(txs := acc.txs + [table[hash]]) else acc.(missed := acc.missed + [hash])
  }

  function FetchTo(table: map<Hash, Tx>, request: seq<Hash>, i: nat): Fetched
    requires i <= |request|
  {
    if i == 0 then Fetched([], []) else FetchStep(table, FetchTo(table, request, i - 1), request[i - 1])
  }

  /** `fetchTxs`. */
  function Fetch(table: map<Hash, Tx>, request: seq<Hash>): Fetched {
    FetchTo(table, request, |request|)
  }

  datatype Handing = Handing(pool: Pool, txs: seq<Hash>, full: bool)

  function HandOne(s: Pool, hash: Hash): (out: Pool)
    requires hash in s.table
    ensures SameChain(s, out)
  {
    s.(table := s.table[hash := s.table[hash].(synced := true)])
  }

  function HandStep(acc: Handing, hash: Hash, limit: nat): (out: Handing)
    ensures SameChain(acc.pool, out.pool)
  {
    var s := acc.pool;
    if acc.full || hash !in s.table || s.table[hash].synced then acc
    else
      var txs := acc.txs + [hash];
      Handing(HandOne(s, hash), txs, |txs| >= limit)
  }

  function HandTo(s: Pool, order: seq<Hash>, limit: nat, i: nat): (out: Handing)
    requires i <= |order|
    ensures SameChain(s, out.pool)
  {
    if i == 0 then Handing(s, [], false) else HandStep(HandTo(s, order, limit, i - 1), order[i - 1], limit)
  }

  lemma {:induction false} FullHandStays(s: Pool, order: seq<Hash>, limit: nat, i: nat, j: nat)
    requires i <= j <= |order| && HandTo(s, order, limit, i).full
    ensures HandTo(s, order, limit, j) == HandTo(s, order, limit, i)
  {
    if i < j { FullHandStays(s, order, limit, i, j - 1); }
  }

  /** `fetchNewTxs`. */
  function FetchNew(s: Pool, order: seq<Hash>, limit: nat): (out: Handing)
    ensures SameChain(s, out.pool)
  {
    HandTo(s, order, limit, |order|)
  }

  /** `c_maxSendTransactions`. */
  const MAX_SEND_TRANSACTIONS: nat := 1000

  /** The part of `maintainTransactions` that concerns the pool. */
  function Maintain(s: Pool, order: seq<Hash>): (out: Handing)
    ensures SameChain(s, out.pool)
  {
    var r := FetchNew(s, order, MAX_SEND_TRANSACTIONS);
    if r.txs == [] then r.(pool := r.pool.(newTxs := false)) else r
  }

  datatype Request = Request(limit: nat, avoid: set<Hash>, avoidDuplicate: bool)

  datatype Sealing = Sealing(pool: Pool, txs: seq<Hash>, sysTxs: seq<Hash>, full: bool)

  function DropCommitted(s: Pool, hash: Hash): (out: Pool)
    requires hash in s.table
    ensures SameChain(s, out)
  {
    var tx := s.table[hash];
    s.(table := s.table[hash := tx.(callback := None)], invalidTxs := s.invalidTxs + {hash, AsHash(tx.nonce)})
  }

  function DropExpired(s: Pool, hash: Hash): (out: Pool)
    requires hash in s.table
    ensures SameChain(s, out)
  {
    s.(invalidTxs := s.invalidTxs + {hash}, invalidNonces := s.invalidNonces + {s.table[hash].nonce})
  }

  function SealOne(s: Pool, hash: Hash): (out: Pool)
    requires hash in s.table
    ensures SameChain(s, out)
  {
    var tx := s.table[hash];
    s.(table := s.table[hash := tx.(sealed := true, batchId := -1, batchHash := ZERO_HASH)],
       sealedCount := CountSealing(s, tx))
  }

  function SealStep(acc: Sealing, hash: Hash, q: Request): (out: Sealing)
    ensures SameChain(acc.pool, out.pool)
  {
    var s := acc.pool;
    if acc.full || hash !in s.table || hash in s.invalidTxs then acc
    else
      var tx := s.table[hash];
      var status := SubmittedToChain(s.window, tx);
      if status == NonceCheckFail then acc.(pool := DropCommitted(s, hash))
      else if status == BlockLimitCheckFail && !tx.sealed then acc.(pool := DropExpired(s, hash))
      else if hash in q.avoid || (q.avoidDuplicate && tx.sealed) then acc
      else
        var txs := if tx.systemTx then acc.txs else acc.txs + [hash];
        var sysTxs := if tx.systemTx then acc.sysTxs + [hash] else acc.sysTxs;
        Sealing(SealOne(s, hash), txs, sysTxs, |txs| + |sysTxs| >= q.limit)
  }

  function SealTo(s: Pool, order: seq<Hash>, q: Request, i: nat): (out: Sealing)
    requires i <= |order|
    ensures SameChain(s, out.pool)
  {
    if i == 0 then Sealing(s, [], [], false) else SealStep(SealTo(s, order, q, i - 1), order[i - 1], q)
  }

  lemma {:induction false} FullSealStays(s: Pool, order: seq<Hash>, q: Request, i: nat, j: nat)
    requires i <= j <= |order| && SealTo(s, order, q, i).full
    ensures SealTo(s, order, q, j) == SealTo(s, order, q, i)
  {
    if i < j { FullSealStays(s, order, q, i, j - 1); }
  }

  /** `batchFetchTxs` into two empty blocks. */
  function Seal(s: Pool, order: seq<Hash>, q: Request): (out: Sealing)
    ensures SameChain(s, out.pool)
  {
    var r := SealTo(s, order, q, |order|);
    r.(pool := Notify(r.pool))
  }

  datatype Filtering = Filtering(missed: set<Hash>, unknown: seq<Hash>)

  function FilterStep(s: Pool, acc: Filtering, hash: Hash): Filtering {
    if hash in s.table || hash in acc.missed then acc
    else Filtering(acc.missed + {hash}, acc.unknown + [hash])
  }

  function FilterTo(s: Pool, hashes: seq<Hash>, i: nat): Filtering
    requires i <= |hashes|
  {
    if i == 0 then Filtering(s.missed, []) else FilterStep(s, FilterTo(s, hashes, i - 1), hashes[i - 1])
  }

  datatype Filtered = Filtered(pool: Pool, unknown: seq<Hash>)

  /** `filterUnknownTxs`. */
  function Filter(s: Pool, hashes: seq<Hash>): (out: Filtered)
    ensures SameChain(s, out.pool)
  {
    var r := FilterTo(s, hashes, |hashes|);
    Filtered(s.(missed := if |r.missed| >= s.config.poolLimit then {} else r.missed), r.unknown)
  }

  // ----- marking -----

  datatype Batch = Batch(id: int, hash: Hash)

  function MarkStep(s: Pool, hash: Hash, b: Batch, flag: bool): (out: Pool)
    ensures SameChain(s, out)
  {
    if hash !in s.table then s
    else
      var tx := s.table[hash];
      if tx.batchHash != ZERO_HASH && tx.batchHash != b.hash && !flag then s
      else if flag then
        s.(table := s.table[hash := tx.(sealed := true, batchId := b.id, batchHash := b.hash)],
           sealedCount := CountSealing(s, tx))
      else
        s.(table := s.table[hash := tx.(sealed := false)],
           sealedCount := if tx.sealed then Decrement(s.sealedCount) else s.sealedCount)
  }

  function MarkTo(s: Pool, hashes: seq<Hash>, b: Batch, flag: bool, i: nat): (out: Pool)
    requires i <= |hashes|
    ensures SameChain(s, out)
  {
    if i == 0 then s else MarkStep(MarkTo(s, hashes, b, flag, i - 1), hashes[i - 1], b, flag)
  }

  /** `batchMarkTxs`. */
  function Mark(s: Pool, hashes: seq<Hash>, b: Batch, flag: bool): (out: Pool)
    ensures SameChain(s, out)
  {
    MarkTo(s, hashes, b, flag, |hashes|)
  }

  function Flagged(tx: Tx, flag: bool): Tx {
    if flag then tx.(sealed := true) else tx.(sealed := false, batchId := -1, batchHash := ZERO_HASH)
  }

  function FlagAll(table: map<Hash, Tx>, flag: bool): (flagged: map<Hash, Tx>)
    ensures flagged.Keys == table.Keys
  {
    map h | h in table :: Flagged(table[h], flag)
  }

  /** `batchMarkAllTxs`. */
  function MarkAll(s: Pool, flag: bool): (out: Pool)
    ensures SameChain(s, out)
  {
    Notify(s.(table := FlagAll(s.table, flag),
              sealedCount := if flag then |s.table| else 0))
  }

  // ----- verifying proposals -----

  function MissingTo(table: map<Hash, Tx>, hashes: seq<Hash>, i: nat): seq<Hash>
    requires i <= |hashes|
  {
    if i == 0 then []
    else
      var r := MissingTo(table, hashes, i - 1);
      if hashes[i - 1] in table then r else r + [hashes[i - 1]]
  }

  /** `batchVerifyProposal` on a block. */
  function Missing(table: map<Hash, Tx>, hashes: seq<Hash>): seq<Hash> {
    MissingTo(table, hashes, |hashes|)
  }

  /** `batchVerifyProposal` on a list. */
  predicate HasAll(table: map<Hash, Tx>, hashes: seq<Hash>) {
    forall i :: 0 <= i < |hashes| ==> hashes[i] in table
  }

  // ----- importing downloaded transactions -----

  datatype Header = Header(number: int, hash: Hash)

  function MarkedFor(tx: Tx, header: Option<Header>): Tx {
    if header.Some? then tx.(batchId := header.value.number, batchHash := header.value.hash) else tx
  }

  function Prepare(s: Pool, tx: Tx, header: Option<Header>): Tx {
    var tx1 := MarkedFor(tx, header);
    if tx.hash !in s.table && !tx.genuine then tx1.(invalid := true) else tx1
  }

  predicate SignaturesOk(s: Pool, txs: seq<Tx>) {
    forall i :: 0 <= i < |txs| ==> txs[i].hash in s.table || txs[i].genuine
  }

  datatype Importing = Importing(pool: Pool, ok: bool)

  function ImportStep(acc: Importing, tx: Tx, enforce: bool): (out: Importing)
    ensures SameChain(acc.pool, out.pool)
  {
    if !acc.ok || tx.invalid then acc
    else if enforce then
      var r := Enforce(acc.pool, tx);
      Importing(r.pool, r.status == Ok)
    else
      Importing(Submit(acc.pool, tx, None).pool, true)
  }

  function ImportTo(s: Pool, txs: seq<Tx>, header: Option<Header>, i: nat): (out: Importing)
    requires i <= |txs|
    ensures SameChain(s, out.pool)
  {
    if i == 0 then Importing(s, true)
    else ImportStep(ImportTo(s, txs, header, i - 1), Prepare(s, txs[i - 1], header), header.Some?)
  }

  /** `importDownloadedTxs`. */
  function Import(s: Pool, txs: seq<Tx>, header: Option<Header>): (out: Importing)
    ensures SameChain(s, out.pool)
  {
    if txs == [] then Importing(s, true)
    else if header.Some? && !SignaturesOk(s, txs) then Importing(s, false)
    else ImportTo(s, txs, header, |txs|)
  }
}
