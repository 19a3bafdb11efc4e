# The FISCO BCOS transaction pool, modelled and verified

This project models the transaction pool of a FISCO BCOS node (`bcos-txpool`) in Dafny and proves what its
parts are there for: no committed transaction is replayed, no transaction is sealed for two proposals, a
proposal that is reported verified is in the pool, and the counters, flags, indexes and callbacks that many
operations update stay consistent over every run.

`dafny verify dfyconfig.toml` checks everything.

## How it is built

The pool is modelled twice, and the two are tied together.

* **As the program is written.** The classes `Transaction`, `TxPoolNonceChecker`, `LedgerNonceChecker`,
  `TxValidator`, `MemoryStorage`, `TransactionSync` and `TxPool` have the fields of the original and update
  them in place, with its loops and branches. Transactions are heap objects shared between the table, the
  sealer and the gossip worker. `MemoryStorage.State()` is the value of a pool; each method is proved to turn
  it into what the function of the same operation in `PoolState` gives. Iteration over the hash table is
  iteration over an arbitrary list `order`.
* **As values.** `NonceWindow`, `PoolState`, `ProposalVerification`, `RequestResponse` and `Gossip` define the
  operations as functions on values. A run (`PoolRuns.IsRun`) is any sequence of all the operations, in any
  order and with any arguments, and the properties over runs are proved about these.
* **In small steps.** `ReplayInterleaving` interleaves one committer with any number of checkers, read by read
  and write by write; `CommitHandover` looks at the pool between the steps of one commit; `ProposalVerification`
  lets the pool change between any two answers.

| File | What it is about |
|---|---|
| Types, Transaction | values, and the transaction object |
| NonceWindow, NonceCheckers | the sliding window of the ledger's nonces; the two checkers and the validator |
| PoolState, MemoryStorage | the storage, on values and as a class |
| PoolRuns, Consistency | runs of its operations, and induction over them; all invariants together, from a new pool on |
| Admission, Removal, Marking | who gets in and why not, how transactions leave, what marking does: exactly, in fields |
| SealedCounter, NonceIndex, NewTxs, OutstandingRequests, SubmitCallbacks, ProposalClaims | what every operation keeps |
| Sealing, ReplayInterleaving, CommitHandover | replay protection, end to end and under interleaving |
| ProposalVerification, VerificationOutcome | verifying a proposal: soundness over runs; how each step ends, and that it succeeds |
| RequestResponse | requesting transactions, filling a block |
| Gossip, TransactionSync, TxPool | choosing peers; the classes that drive the storage |

## What was found

Each of these is a lemma; where the code does less than one might expect, the exact condition is proved.

* **The replay bound is exact, and one wider than the obvious one.** A nonce committed in block c is rejected
  for ever for every block limit up to and including c + L, and for no larger one (`ReplayBlockedExactly`).
  It is safe to forget the nonce when block c + L arrives because the block number is raised before the list
  is dropped, and checks look the nonce up before they load the number; with the reads the other way round
  the property fails (`ReadOrderMatters`).
* **A node that restarts on a short chain forgets its nonces.** `TxPool::init` loads the window only when the
  height exceeds L. The window after a restart equals that of an uninterrupted node if and only if the chain is
  empty or longer than L (`RestartRestoresWindow`); in between, every nonce of the chain passes (`RestartForgets`).
* **Forced import looks at the nonce only.** A transaction that is forced in and committed in block c can be
  submitted and sealed again, if and only if its block limit is beyond c + L (`ForcedBlockLimitIsSealedAgain`);
  for any committed nonce the same bound decides (`SealedAgainExactly`, `NeverSealedAgain`), also on a node that never
  held the transaction and learnt its nonce from the result (`CommittedElsewhereNeverSealed`). Without forced imports
  no such transaction gets in, and none is sealed again (`CommittedNeverSealedAgain`).
* **Verification is sound exactly for proposals with a header.** Without one the import is not forced, refused
  transactions are skipped, and success is reported all the same (`VerificationIsSoundExactly`);
  a ledger that returns transactions already committed is enough.
* **A verification that straddles a commit accepts.** Of all the ways in which its two reads can fall between the
  steps of a commit, exactly those accept a pending nonce of the block that look into the ledger's set before the
  nonce is added and into the pool's set after it is removed (`StraddlingVerifyAccepts`). The sealer asks again, so
  such a transaction is not handed over (`SealContract`). At any one moment one of the two sets holds it.
* **A nonce that returns inside the window is lost early**, because the flat set does not count occurrences. A
  block keeps the promise of c + L for one of its nonces if and only if no live block had it before
  (`RepeatedNonceReplays`); in general the bound counts from the oldest live block with the nonce
  (`ReplayBlockedFromOldest`). Hence the freshness hypothesis below.
* **Filling a block cannot bring back what is committed.** The ledger round of `fillBlock` goes through ordinary
  submission, which refuses nonces of the window (`CommittedIsNotFilledAgain`).
* `batchFetchTxs` records the nonce of a committed transaction among the invalid *hashes*, not the invalid
  nonces (MemoryStorage.cpp:502). No nonce is stranded by it: it cannot be in the pool's set (`AlwaysDisjoint`).
* The comment on the forwarding of statuses (TransactionSync.cpp:577) speaks of a random choice; the code takes the
  first eligible nodes of the consensus list, and the model does too. With a percentage of 0 one peer is still chosen.

## Hypotheses

* Objects passed to a submission are freshly decoded: no marks, no callback, not stored anywhere
  (`FreshlyDecoded`, `Decoded`). The counter depends on it, exactly (`SealedSubmissionMiscounts`,
  `SealedImportMiscounts`).
* Storage operations are atomic, forced submit included. Only the ledger checker is modelled below that.
* L is at least 1; blocks have ids from 1 and are notified once, by one committer; a new block's nonces are not
  in the live window (`Admissible`). Runs start from any state with the invariant in question;
  a new pool on a coherent window has all of them (`NewPoolIsConsistent`), given a positive pool limit.
* The pool's nonce set is an index of its transactions on ordinary runs (`NonceIndex.Ordinary`): no forced imports,
  committed transactions are in the pool and listed once, clean-up comes before the next commit. That a converted
  nonce might equal a pool hash need not be excluded: on such runs no committed transaction is ever dropped.
* Without forced imports (`Sealing.Unforced`) commits come in increasing order, and the initial pool holds no
  transaction with a block limit out of reach.
* Every pool transaction is genuine on runs without `BatchInsertOp` whose forced submits bring genuine transactions or
  name stored ones (`Admission.Signed`); an import of a list meets this by itself (`ImportKeepsGenuine`).
* Callbacks do not throw.

## Model

| member | source | states |
|---|---|---|
| `NonceWindow.ArriveKeepsCoherent` | bcos-txpool/txpool/validator/LedgerNonceChecker.cpp:64-99 | inserting a block keeps the flat nonce set equal to the union of the cached lists, and the lists disjoint |
| `NonceWindow.WindowRefinement` | bcos-txpool/txpool/validator/LedgerNonceChecker.cpp:64-99 | after any arrivals with distinct ids the cache is a function of the arrivals alone (a block is cached while the one L later has not come since) and the flat set is its union |
| `NonceWindow.FirstListIsKept` | bcos-txpool/txpool/validator/LedgerNonceChecker.cpp:64-99 | a block that is notified again keeps the list it came with first |
| `NonceWindow.ArriveTwice` | bcos-txpool/txpool/validator/LedgerNonceChecker.cpp:64-99 | notifying a block twice is the same as notifying it once |
| `NonceWindow.BlockZeroStays` | bcos-txpool/txpool/validator/LedgerNonceChecker.cpp:82-91 | no arrival forgets the nonces of block 0 |
| `NonceWindow.TimelyCache` | bcos-txpool/txpool/validator/LedgerNonceChecker.cpp:64-99 | if k comes before k + L whenever both come, exactly the arrived blocks k without k + L are cached |
| `NonceWindow.FlatSetHoldsLiveNonces` | bcos-txpool/txpool/validator/LedgerNonceChecker.h:57-61 | a nonce is in the flat set if and only if a live block has it |
| `NonceWindow.ContiguousCache` | bcos-txpool/txpool/validator/LedgerNonceChecker.h:57-61 | on contiguous heights 1..N exactly blocks max(1, N-L+1)..N are cached, with their own lists |
| `NonceWindow.ContiguousWindow` | bcos-txpool/txpool/validator/LedgerNonceChecker.h:57-61 | the cache then has at most L entries and the block number is N |
| `NonceWindow.RestartRestoresWindow` | bcos-txpool/TxPool.cpp:349-369 | the window `init` builds equals that of an uninterrupted node if and only if the height is 0 or exceeds L |
| `NonceWindow.RestartForgets` | bcos-txpool/TxPool.cpp:349-369 | for heights 1..L every nonce passes after a restart, whatever the chain holds |
| `NonceWindow.ArrivalGuards` | bcos-txpool/txpool/validator/LedgerNonceChecker.cpp:64-99 | from its commit on, a nonce is in the window or the block number has passed every limit its block allows; each later arrival keeps this |
| `NonceWindow.ReplayBlockedExactly` | bcos-txpool/txpool/validator/LedgerNonceChecker.cpp:36-99 | no continuation of the chain lets a committed nonce pass, if and only if the block limit is at most c + L |
| `NonceWindow.ReplayBlockedFromOldest` | bcos-txpool/txpool/validator/LedgerNonceChecker.cpp:36-99 | for any nonces of the new block, a nonce is rejected on every continuation if and only if the block limit is at most c + L, where c is the oldest live block with the nonce and c + L has not been skipped |
| `NonceWindow.RepeatedNonceReplays` | bcos-txpool/txpool/validator/LedgerNonceChecker.cpp:84-99 | the new block keeps the bound b + L for a nonce if and only if no live block had the nonce before |
| `NonceWindow.RepeatedNonceExample` | bcos-txpool/txpool/validator/LedgerNonceChecker.cpp:84-99 | the smallest case: a nonce of blocks 1 and 3 passes again after block 4, with L = 3 |
| `ReplayInterleaving.NoReplayUnderInterleaving` | bcos-txpool/txpool/validator/LedgerNonceChecker.cpp:36-99 | in any interleaving of the steps of one committer and any number of checkers, a check started after the nonces of block c were added never answers "ok" for one of them with a limit of at most c + L |
| `ReplayInterleaving.StepsRefineArrival` | bcos-txpool/txpool/validator/LedgerNonceChecker.cpp:64-99 | the four steps in order are the atomic insertion |
| `ReplayInterleaving.StepsRefineCheck` | bcos-txpool/txpool/validator/LedgerNonceChecker.cpp:36-62 | the two reads without interference are the atomic check |
| `ReplayInterleaving.ReadOrderMatters` | bcos-txpool/txpool/validator/LedgerNonceChecker.cpp:36-62 | an interleaving in which loading the number first would let a committed nonce pass |
| `NonceCheckers.TxPoolNonceChecker.CheckNonce` | bcos-txpool/txpool/validator/TxPoolNonceChecker.cpp:37-50 | a known nonce is refused, a new one remembered only if asked |
| `NonceCheckers.TxPoolNonceChecker.BatchInsert` | bcos-txpool/txpool/validator/TxPoolNonceChecker.cpp:57-64 | exactly the listed nonces are added |
| `NonceCheckers.TxPoolNonceChecker.BatchRemove` | bcos-txpool/txpool/validator/TxPoolNonceChecker.cpp:74-81 | exactly the listed nonces are removed |
| `NonceCheckers.TxPoolNonceChecker.BatchRemoveSet` | bcos-txpool/txpool/validator/TxPoolNonceChecker.cpp:83-91 | the same for a set, in any order of iteration |
| `NonceCheckers.LedgerNonceChecker.InitNonceCache` | bcos-txpool/txpool/validator/LedgerNonceChecker.cpp:26-34 | the cache becomes the given lists and the flat set their union, in any order of iteration |
| `NonceCheckers.LedgerNonceChecker.CheckNonce` | bcos-txpool/txpool/validator/LedgerNonceChecker.cpp:36-46 | the answer of the window; nothing changes |
| `NonceCheckers.LedgerNonceChecker.CheckBlockLimitOf` | bcos-txpool/txpool/validator/LedgerNonceChecker.cpp:48-61 | passes exactly the limits in (number, number + L], the answer of the window |
| `NonceCheckers.LedgerNonceChecker.BatchInsert` | bcos-txpool/txpool/validator/LedgerNonceChecker.cpp:64-99 | number, cache and flat set become those of the window after the arrival |
| `NonceCheckers.TxValidator.SubmittedToChain` | bcos-txpool/txpool/validator/TxValidator.cpp:70-79 | the ledger checker's answer; nothing changes |
| `NonceCheckers.TxValidator.Verify` | bcos-txpool/txpool/validator/TxValidator.cpp:27-68 | the status of the first failing check in the order of the code; the nonce is taken and the system mark set exactly on success |
| `MemoryStorageObject.MemoryStorage.SubmitTransaction` | bcos-txpool/txpool/storage/MemoryStorage.cpp:50-70 | the pool becomes that of `SubmitData`: a refusal of any kind is reported to the callback, an undecodable one as malformed with the hash zero |
| `MemoryStorageObject.MemoryStorage.VerifyAndSubmitTransaction` | bcos-txpool/txpool/storage/MemoryStorage.cpp:150-179 | pool and status are those of `Submit`, and the object itself is stored if and only if the status is "ok" |
| `MemoryStorageObject.MemoryStorage.EnforceSubmitTransaction` | bcos-txpool/txpool/storage/MemoryStorage.cpp:83-138 | pool and status are those of `Enforce` in all five branches |
| `MemoryStorageObject.MemoryStorage.InsertTx` | bcos-txpool/txpool/storage/MemoryStorage.cpp:199-217 | a new hash is stored, announced and counted; a known one changes nothing |
| `MemoryStorageObject.MemoryStorage.BatchInsert` | bcos-txpool/txpool/storage/MemoryStorage.cpp:263-274 | all are inserted in order and none is outstanding afterwards |
| `MemoryStorageObject.MemoryStorage.RemoveWithoutLock` | bcos-txpool/txpool/storage/MemoryStorage.cpp:276-295 | returns the stored object itself or null; the other objects stay where they are, and the counter follows |
| `MemoryStorageObject.MemoryStorage.Remove` | bcos-txpool/txpool/storage/MemoryStorage.cpp:297-303 | the same, with the size notified |
| `MemoryStorageObject.MemoryStorage.RemoveSubmittedTxWithoutLock` | bcos-txpool/txpool/storage/MemoryStorage.cpp:305-315 | removes, and runs the callback of what was removed |
| `MemoryStorageObject.MemoryStorage.RemoveSubmittedTx` | bcos-txpool/txpool/storage/MemoryStorage.cpp:317-326 | the same, with the size notified |
| `MemoryStorageObject.MemoryStorage.BatchRemove` | bcos-txpool/txpool/storage/MemoryStorage.cpp:388-424 | a commit: transactions out, callbacks run, nonces first given to the ledger's checker and then taken from the pool's |
| `MemoryStorageObject.MemoryStorage.FetchTxs` | bcos-txpool/txpool/storage/MemoryStorage.cpp:426-442 | the objects found and the hashes missed are those of `Fetch`, and the objects are the stored ones |
| `MemoryStorageObject.MemoryStorage.FetchNewTxs` | bcos-txpool/txpool/storage/MemoryStorage.cpp:444-469 | hands out the stored objects that `FetchNew` picks, and marks just these |
| `MemoryStorageObject.MemoryStorage.BatchFetchTxs` | bcos-txpool/txpool/storage/MemoryStorage.cpp:471-555 | pool and both output blocks are those of `Seal`, for any iteration order |
| `MemoryStorageObject.MemoryStorage.DropIfStale` | bcos-txpool/txpool/storage/MemoryStorage.cpp:489-511 | a committed transaction is dropped without callback, an expired one unless it is sealed, any other kept as it is |
| `MemoryStorageObject.MemoryStorage.RemoveInvalidTxs` | bcos-txpool/txpool/storage/MemoryStorage.cpp:558-604 | the recorded transactions leave with an expiry result, the recorded nonces are released, the records are empty |
| `MemoryStorageObject.MemoryStorage.FilterUnknownTxs` | bcos-txpool/txpool/storage/MemoryStorage.cpp:612-649 | result and outstanding set are those of `Filter`; the peer is added to the known nodes of exactly the listed stored transactions |
| `MemoryStorageObject.MemoryStorage.BatchMarkTxs` | bcos-txpool/txpool/storage/MemoryStorage.cpp:651-700 | marks and counter are those of `Mark` |
| `MemoryStorageObject.MemoryStorage.BatchMarkAllTxs` | bcos-txpool/txpool/storage/MemoryStorage.cpp:702-728 | every stored transaction is flagged and the counter follows |
| `MemoryStorageObject.MemoryStorage.UnSealedTxsSize` | bcos-txpool/txpool/storage/MemoryStorage.cpp:742-750 | the size, with the counter clamped if it exceeds the table |
| `MemoryStorageObject.MemoryStorage.MissingOf` | bcos-txpool/txpool/storage/MemoryStorage.cpp:780-798 | the hashes of a block that are not in the pool |
| `MemoryStorageObject.MemoryStorage.BatchVerifyProposal` | bcos-txpool/txpool/storage/MemoryStorage.cpp:799-810 | true if and only if all listed hashes are in the pool |
| `Admission.SubmitAdmitsExactly` | bcos-txpool/txpool/storage/MemoryStorage.cpp:150-179 | a submission is admitted if and only if there is room, the hash is not stored, the transaction is not marked invalid, its signature is genuine, group and chain are the pool's, its nonce is in neither set, and its block limit is in (number, number + L] |
| `Admission.RefusalExactly` | bcos-txpool/txpool/validator/TxValidator.cpp:27-68 | each status of a refusal, if and only if its check is the first that fails |
| `Admission.AdmissionStores` | bcos-txpool/txpool/storage/MemoryStorage.cpp:150-179 | an admitted transaction is stored with its callback and system mark and nothing else added, its nonce is taken, it is no longer outstanding, and every other field and transaction is as before |
| `Admission.AdmittedOnce` | bcos-txpool/txpool/storage/MemoryStorage.cpp:150-179 | once a transaction is in, neither it nor any other with its nonce is admitted by submission |
| `Admission.EnforceSucceedsExactly` | bcos-txpool/txpool/storage/MemoryStorage.cpp:83-138 | forced import succeeds if and only if the nonce is not on chain and no other proposal claims the transaction, whatever the pool's nonces, pool limit and block limit; the two refusals likewise |
| `Admission.EnforceStores` | bcos-txpool/txpool/storage/MemoryStorage.cpp:83-138 | a successful forced import leaves the transaction sealed for its batch, a new one as it came, a stored one otherwise unchanged, and takes no nonce |
| `Admission.AlwaysGenuine` | bcos-txpool/txpool/storage/MemoryStorage.cpp:50-217 | in every state of every run whose unverified insertions bring genuine transactions, all transactions of the pool are genuine |
| `Admission.ForgedIsBarred` | bcos-txpool/sync/TransactionSync.cpp:479-524 | a downloaded transaction is marked invalid if and only if it is forged and not stored, and is then refused for its signature whatever else is wrong with it |
| `Admission.ImportSucceedsExactly` | bcos-txpool/sync/TransactionSync.cpp:465-561 | importing a list for a proposal succeeds if and only if each transaction is genuine or stored, has no nonce on chain, and is claimed by no other proposal |
| `Admission.OrdinaryImportExactly` | bcos-txpool/sync/TransactionSync.cpp:465-561 | without a proposal the import always succeeds, and adds exactly the transactions that are admitted when their turn comes |
| `Admission.ImportAdmitsAll` | bcos-txpool/sync/TransactionSync.cpp:465-561 | transactions that pass now, with hashes and nonces of their own and room for all, are all in the pool afterwards |
| `Admission.ImportKeepsGenuine` | bcos-txpool/sync/TransactionSync.cpp:465-561 | any download, with or without a proposal, leaves only genuine transactions in a pool of genuine ones |
| `Admission.BatchInsertContract` | bcos-txpool/txpool/storage/MemoryStorage.cpp:263-274 | the first object of each new hash is stored, the stored ones stay, none of the listed is outstanding |
| `Removal.RemovalContract` | bcos-txpool/txpool/storage/MemoryStorage.cpp:276-303 | a removal takes the one transaction, leaves every other field, and runs no callback |
| `Removal.SubmittedRemovalContract` | bcos-txpool/txpool/storage/MemoryStorage.cpp:305-326 | both forms that report to the submitter run the same callback, and the second takes the one transaction and leaves every other field |
| `Removal.CommitRecordsExactly` | bcos-txpool/txpool/storage/MemoryStorage.cpp:388-424 | a commit records a nonce if and only if it is that of a transaction it takes from the pool, or is carried by a result whose transaction the pool does not hold (any more) |
| `Removal.UnknownIsRecorded` | bcos-txpool/txpool/storage/MemoryStorage.cpp:395-406 | the nonce of a committed transaction the pool never held is recorded, when the result carries one |
| `Removal.CommitContract` | bcos-txpool/txpool/storage/MemoryStorage.cpp:388-424 | a commit takes exactly the listed transactions, gives the recorded nonces to the ledger's window, takes them from the pool's set, and leaves everything else |
| `Removal.CommitReportsResult` | bcos-txpool/txpool/storage/MemoryStorage.cpp:327-359 | the callback of a committed transaction runs with the result that takes it |
| `Removal.CleanContract` | bcos-txpool/txpool/storage/MemoryStorage.cpp:558-604 | a clean-up takes exactly the recorded transactions and nonces and forgets the records; with none recorded it changes nothing |
| `Removal.CleanReportsExpiry` | bcos-txpool/txpool/storage/MemoryStorage.cpp:558-604 | the callback of a recorded transaction runs with the expiry status and without a nonce |
| `Marking.MarkContract` | bcos-txpool/txpool/storage/MemoryStorage.cpp:651-700 | exactly the listed transactions are marked, however often they are listed: sealing claims each for the batch, unsealing spares those of another proposal and leaves the batch of the others |
| `Marking.UnmarkUndoesMark` | bcos-txpool/txpool/storage/MemoryStorage.cpp:651-700 | marking and then unmarking for one batch leaves each transaction unsealed, with the batch of the mark |
| `Marking.MarkAllContract` | bcos-txpool/txpool/storage/MemoryStorage.cpp:702-728 | a reset unseals all, clears their batches and zeroes the counter; sealing all leaves the batches and counts all |
| `Marking.ResetReleasesAll` | bcos-txpool/txpool/storage/MemoryStorage.cpp:702-728 | after a reset any proposal may import any transaction that is not on chain |
| `SealedCounter.CounterAlwaysAgrees` | bcos-txpool/txpool/storage/MemoryStorage.cpp:97-132 | in every state of every run the counter is the number of sealed transactions, at most the table's size, and the unsealed size is the true number |
| `SealedCounter.UnsealedSizeIsTrue` | bcos-txpool/txpool/storage/MemoryStorage.cpp:742-750 | while it agrees, the clamping branch changes nothing |
| `SealedCounter.DecrementNeverWraps` | bcos-txpool/txpool/storage/MemoryStorage.cpp:276-295 | while it agrees, the unsigned decrement never wraps |
| `SealedCounter.MarkCounts` | bcos-txpool/txpool/storage/MemoryStorage.cpp:670-692 | marking and unmarking one transaction keeps the agreement |
| `SealedCounter.NotificationRepairs` | bcos-txpool/txpool/storage/MemoryStorage.cpp:742-778 | from any state, wrong counter included, every operation that notifies the sealer ends with a counter of at most the size of the pool |
| `SealedCounter.ClampRepairs` | bcos-txpool/txpool/storage/MemoryStorage.cpp:742-750 | the clamp cuts a counter above the size down to it, and otherwise changes nothing |
| `SealedCounter.MiscountWraps` | bcos-txpool/txpool/storage/MemoryStorage.cpp:276-295 | removing a sealed transaction at a counter of zero wraps it to the largest size, and nothing seems left to seal |
| `SealedCounter.SealedSubmissionMiscounts` | bcos-txpool/txpool/storage/MemoryStorage.cpp:150-179 | an ordinary submission that succeeds keeps the agreement if and only if the object was not sealed |
| `SealedCounter.SealedImportMiscounts` | bcos-txpool/txpool/storage/MemoryStorage.cpp:83-138 | forced import breaks the agreement if and only if it stores a new object that was sealed already |
| `NewTxs.HandOutContract` | bcos-txpool/txpool/storage/MemoryStorage.cpp:444-469 | distinct new transactions within the limit, marked; none left when fewer than the limit come back |
| `NewTxs.MaintainBatchSize` | bcos-txpool/sync/TransactionSync.cpp:563-575 | one round of the worker hands out a thousand new transactions, or all there are |
| `NewTxs.AlwaysAnnounced` | bcos-txpool/sync/TransactionSync.h:126-130 | in every state of every run a transaction not yet handed out implies that the flag is raised |
| `NewTxs.HandedOutAtMostOnce` | bcos-txpool/txpool/storage/MemoryStorage.cpp:444-469 | a transaction handed out twice has left the pool in between |
| `NewTxs.MaintainDrains` | bcos-txpool/sync/TransactionSync.cpp:563-575 | with nothing new arriving, n rounds hand all n new transactions out and one more clears the flag |
| `OutstandingRequests.FilterContract` | bcos-txpool/txpool/storage/MemoryStorage.cpp:612-649 | returns once each exactly the hashes neither in the pool nor outstanding, and records them as outstanding; the record is cleared exactly when it reaches the pool limit |
| `OutstandingRequests.FilterInOrder` | bcos-txpool/txpool/storage/MemoryStorage.cpp:612-649 | they come in the order of the request |
| `OutstandingRequests.AlwaysOutstanding` | bcos-txpool/txpool/storage/MemoryStorage.cpp:612-649 | in every state of every run the outstanding set is disjoint from the pool and below the pool limit |
| `OutstandingRequests.RequestedAtMostOnce` | bcos-txpool/txpool/storage/MemoryStorage.cpp:612-649 | a hash requested twice was imported, or the set was cleared, in between |
| `ProposalClaims.EnforceClaims` | bcos-txpool/txpool/storage/MemoryStorage.cpp:83-138 | success leaves the transaction sealed for just the proposal it was submitted for |
| `ProposalClaims.ClaimExcludes` | bcos-txpool/txpool/storage/MemoryStorage.cpp:113-119 | a claimed transaction is refused to every other proposal without a trace; its own succeeds again unless it is on chain |
| `ProposalClaims.StepKeepsClaim` | bcos-txpool/txpool/storage/MemoryStorage.cpp:651-728 | an operation ends a claim if and only if it removes, resets or re-marks the transaction, unmarks it for the same hash, or seals it again without avoiding duplicates |
| `ProposalClaims.ClaimExclusivity` | bcos-txpool/txpool/storage/MemoryStorage.cpp:83-138 | over every run, forced submit for another proposal fails until the claim is released |
| `SubmitCallbacks.SubmitDataRunsOnce` | bcos-txpool/txpool/storage/MemoryStorage.cpp:50-70 | the status is that of the submission, "malformed" for undecodable data; a refusal runs the callback once with the reason and attaches it nowhere; an admission attaches it and does not run it |
| `SubmitCallbacks.CallbacksRunAtMostOnce` | bcos-txpool/txpool/storage/MemoryStorage.cpp:327-359 | in every state of every run no callback has run twice |
| `SubmitCallbacks.CommitRunsCallback` | bcos-txpool/txpool/storage/MemoryStorage.cpp:388-424 | the commit of a transaction with its callback attached runs it, once |
| `SubmitCallbacks.CleanRunsCallback` | bcos-txpool/txpool/storage/MemoryStorage.cpp:558-604 | so does its clean-up, with the expiry status |
| `SubmitCallbacks.DuplicateSubmissionIsHarmless` | bcos-txpool/txpool/storage/MemoryStorage.cpp:72-81 | submitting a stored transaction again, also by force, leaves its callback alone |
| `NonceIndex.AlwaysDisjoint` | bcos-txpool/txpool/storage/MemoryStorage.cpp:494-504 | in every state of every run the two nonce sets are disjoint, so a pool transaction found on chain holds no nonce of the pool's set |
| `NonceIndex.IndexAlwaysAgrees` | bcos-txpool/txpool/validator/TxPoolNonceChecker.cpp:37-91 | on ordinary runs the pool's nonce set is exactly the nonces of its transactions and no two share one |
| `Consistency.NewPoolIsConsistent` | bcos-txpool/txpool/storage/MemoryStorage.cpp:31-36 | a new pool on a coherent window satisfies every invariant that the theorems over runs start from |
| `Consistency.AlwaysConsistent` | bcos-txpool/txpool/storage/MemoryStorage.cpp:83-750 | every run keeps counter, flag, outstanding set, callbacks and nonce sets consistent together |
| `Consistency.ImportIsRun` | bcos-txpool/sync/TransactionSync.cpp:465-561 | importing a list, successful or not, is a run of submissions: forced ones that carry the proposal's number and hash, or ordinary ones |
| `Consistency.ImportKeepsConsistent` | bcos-txpool/sync/TransactionSync.cpp:465-561 | so it keeps all these invariants |
| `CommitHandover.StagesEndInCommit` | bcos-txpool/txpool/storage/MemoryStorage.cpp:388-424 | the steps of a commit end in the atomic one |
| `CommitHandover.NonceIsHandedOver` | bcos-txpool/txpool/storage/MemoryStorage.cpp:420-423 | at every step of a commit a committed pending nonce is in one of the two sets, if and only if it is not also a nonce of the expiring block |
| `CommitHandover.AtomicVerifyRejects` | bcos-txpool/txpool/validator/TxValidator.cpp:42-61 | so an atomic verification rejects it at every step |
| `CommitHandover.SplitVerifyAccepts` | bcos-txpool/txpool/validator/TxValidator.cpp:42-61 | for reads at any two steps of a commit, a pending nonce of the block is accepted if and only if the second comes last and the first finds nothing wrong |
| `CommitHandover.StraddlingVerifyAccepts` | bcos-txpool/txpool/validator/TxValidator.cpp:42-61 | for reads at any two steps, it is accepted if and only if the ledger is asked before the nonce is added, the pool after it is removed, and everything else passes |
| `Sealing.SealContract` | bcos-txpool/txpool/storage/MemoryStorage.cpp:471-556 | at most the limit, distinct, unsealed, not avoided, passing both checks, split by kind, and just these sealed; with fewer than the limit every transaction is sealed, avoided or recorded invalid |
| `Sealing.TurnPicksExactly` | bcos-txpool/txpool/storage/MemoryStorage.cpp:482-545 | in a turn of a loop that is not full, a transaction is handed over if and only if it is not recorded, not stale, not avoided, and not sealed where duplicates are to be avoided |
| `Sealing.StaleContract` | bcos-txpool/txpool/storage/MemoryStorage.cpp:482-520 | unless the request was filled, every transaction on chain, or expired and unsealed, is recorded for removal, whatever its flag and the avoid list: the expired one with its nonce, the committed one without its callback |
| `Sealing.StaysDropped` | bcos-txpool/txpool/storage/MemoryStorage.cpp:482-520 | the same for every turn before the request is filled |
| `Sealing.NeverSealedAgain` | bcos-txpool/txpool/storage/MemoryStorage.cpp:388-556 | on every run of all operations, what is handed over passes both checks then, and with a nonce committed in block c its block limit is beyond c + L |
| `Sealing.CommittedNeverSealedAgain` | bcos-txpool/txpool/storage/MemoryStorage.cpp:388-556 | without forced imports no committed transaction is handed over again, even when resubmitted after its nonce was forgotten |
| `Sealing.CommittedElsewhereNeverSealed` | bcos-txpool/txpool/storage/MemoryStorage.cpp:388-556 | a nonce that came with a result for a transaction the pool did not hold is handed over again only with a block limit beyond c + L |
| `Sealing.SealedAgainExactly` | bcos-txpool/txpool/storage/MemoryStorage.cpp:388-556 | for any pool whose last block c holds the nonce, and any transaction it would otherwise accept, some run hands over that nonce and block limit again if and only if the limit is beyond c + L |
| `Sealing.ForcedBlockLimitIsSealedAgain` | bcos-txpool/txpool/storage/MemoryStorage.cpp:85-90 | for any such transaction, some run that forces it in and commits it in block c seals it again if and only if its block limit is beyond c + L |
| `ProposalVerification.ImportClaimsAll` | bcos-txpool/sync/TransactionSync.cpp:465-561 | a successful import for a proposal leaves every listed transaction, duplicates included, in the pool and sealed for exactly that proposal |
| `ProposalVerification.MissingContract` | bcos-txpool/txpool/storage/MemoryStorage.cpp:780-798 | lists exactly the hashes of the block that are not in the pool |
| `ProposalVerification.ExactlyOneVerdict` | bcos-txpool/TxPool.cpp:136-181 | for any answers the callback is called at most once, with a null error if and only if the result is true, and exactly once after two answers |
| `ProposalVerification.RunIsSound` | bcos-txpool/sync/TransactionSync.cpp:198-427 | for a proposal with a header, whatever is still asked for or reported covers all of its hashes |
| `ProposalVerification.HeaderlessFalseSuccess` | bcos-txpool/sync/TransactionSync.cpp:479-545 | any pool that lacks a transaction of a headerless proposal: a ledger that answers with committed transactions makes verification report success |
| `ProposalVerification.VerificationIsSoundExactly` | bcos-txpool/TxPool.cpp:108-189 | success with a hash missing from the pool is impossible if and only if the proposal has a header or no transactions |
| `VerificationOutcome.OpensExactly` | bcos-txpool/TxPool.cpp:108-181 | verification succeeds at once if and only if the pool has every transaction; otherwise the missing ones are asked for |
| `VerificationOutcome.SecondLookExactly` | bcos-txpool/TxPool.cpp:136-168 | a report of missing transactions becomes success if and only if the pool has them all by now; any other verdict stays |
| `VerificationOutcome.LedgerLeavesExactly` | bcos-txpool/sync/TransactionSync.cpp:241-279 | a hash is still missing after the ledger's answer if and only if no list that could be imported delivered it; the callback is called just when an import leaves nothing |
| `VerificationOutcome.LedgerStepExactly` | bcos-txpool/sync/TransactionSync.cpp:198-279 | the peer is asked, without a verdict, if and only if something is still missing and there is a peer; otherwise the one verdict follows, a failure only if the pool lacks something |
| `VerificationOutcome.PeerJudgedExactly` | bcos-txpool/sync/TransactionSync.cpp:347-427 | a peer's answer succeeds if and only if it is what was asked, in order, and can be imported; else the error of the first thing wrong; a list of the wrong size is imported after the verdict |
| `VerificationOutcome.PeerStepExactly` | bcos-txpool/sync/TransactionSync.cpp:281-427 | with the peer's answer the verification ends, in success if and only if the answer satisfies or the pool has got what was reported missing |
| `VerificationOutcome.GoodPeerSucceeds` | bcos-txpool/sync/TransactionSync.cpp:198-427 | on any run for a proposal with a header, an answer with all that was asked and that the proposal may import ends it in the one verdict (no error, true) |
| `VerificationOutcome.ProposalIsAccepted` | bcos-txpool/sync/TransactionSync.cpp:198-427 | and there is such a run: a proposal whose missing transactions the peer can send is accepted, and the pool has all of it |
| `RequestResponse.FetchSplits` | bcos-txpool/txpool/storage/MemoryStorage.cpp:426-442 | found and missed merge back to the request in order, and what is found is the pool's |
| `RequestResponse.FetchOfAll` | bcos-txpool/txpool/storage/MemoryStorage.cpp:426-442 | nothing is missed if and only if all are in the pool, and then the result has the hashes of the request |
| `RequestResponse.PeerAnswerIsAccepted` | bcos-txpool/sync/TransactionSync.cpp:385-420 | the answer of a peer that holds everything asked passes the size and hash checks; only the import can refuse it |
| `RequestResponse.FilledBlockMatches` | bcos-txpool/TxPool.cpp:286-311 | a filled block has exactly the requested hashes in order; otherwise the fault is "missing" and something was missing; a complete pool is not touched |
| `RequestResponse.FillSucceedsExactly` | bcos-txpool/TxPool.cpp:243-311 | a block is filled if and only if the pool has every transaction, or the ledger is asked and the pool has every one after the ordinary import of its answer; what was imported stays either way |
| `RequestResponse.LedgerFills` | bcos-txpool/TxPool.cpp:243-311 | so it is when the ledger delivers what the pool lacks and all of that would be admitted |
| `RequestResponse.CommittedIsNotFilledAgain` | bcos-txpool/TxPool.cpp:243-277 | a transaction that left the pool is not filled from the ledger while its nonce is in the window |
| `Gossip.ExpectedPeers` | bcos-txpool/sync/TransactionSync.cpp:581-581 | the percentage of the connected nodes, rounded up |
| `Gossip.SelectionContract` | bcos-txpool/sync/TransactionSync.cpp:622-653 | distinct connected consensus nodes, not this one, that did not know the transaction; at most as many as expected and at least one if any; with fewer no eligible node is left |
| `Gossip.StatusListsAreChoices` | bcos-txpool/sync/TransactionSync.cpp:578-620 | each peer is sent exactly the transactions that chose it, in order, and no empty message |
| `Gossip.StatusReachesFew` | bcos-txpool/sync/TransactionSync.cpp:578-620 | a status reaches exactly the chosen peers, at most max(1, expected) of them, and every eligible node if there are fewer |
| `Gossip.RoundContract` | bcos-txpool/sync/TransactionSync.cpp:563-699 | per transaction: submitted here, in full to every other consensus node and its status to none; otherwise in full to none and its status to as many eligible nodes as expected, or to all if there are fewer |
| `Gossip.PacketContract` | bcos-txpool/sync/TransactionSync.cpp:655-699 | the packet is the transactions submitted here, each once and in order, and goes to the other consensus nodes in the order of their list, or nowhere if it is empty |
| `Gossip.RoundKnows` | bcos-txpool/sync/TransactionSync.cpp:578-699 | after a round a node is taken to know a transaction if and only if it was before, was told of it, or is a connected consensus node and the transaction went out in full |
| `Gossip.NeverBothInOneRound` | bcos-txpool/sync/TransactionSync.cpp:563-699 | no peer is sent both a transaction and its status in one round |
| `TransactionSyncObject.TransactionSync.SelectPeers` | bcos-txpool/sync/TransactionSync.cpp:622-653 | peers and known nodes are those of the selection |
| `TransactionSyncObject.TransactionSync.ForwardTxsFromP2P` | bcos-txpool/sync/TransactionSync.cpp:578-620 | the status messages, and every transaction's known nodes afterwards |
| `TransactionSyncObject.TransactionSync.BroadcastTxsFromRpc` | bcos-txpool/sync/TransactionSync.cpp:655-699 | the packet, its targets, and the known nodes afterwards |
| `TransactionSyncObject.TransactionSync.MaintainTransactions` | bcos-txpool/sync/TransactionSync.cpp:563-575 | the pool becomes that of `Maintain`, the round is that of the objects handed out, and so are their known nodes afterwards |
| `TransactionSyncObject.TransactionSync.ImportDownloadedTxs` | bcos-txpool/sync/TransactionSync.cpp:465-561 | pool and result are those of `Import`: signatures first, for a proposal nothing is imported if one fails, then one submission after the other; just the sender is noted on every transaction |
| `TransactionSyncObject.TransactionSync.OnGetMissedTxsFromLedger` | bcos-txpool/sync/TransactionSync.cpp:241-279 | pool, what is still missing and the call of the callback are those of `FromLedger`: called with success exactly when an import leaves nothing |
| `TransactionSyncObject.TransactionSync.OnLedgerResponse` | bcos-txpool/sync/TransactionSync.cpp:198-239 | the one call of the callback, or none when the peer is asked next |
| `TransactionSyncObject.TransactionSync.VerifyFetchedTxs` | bcos-txpool/sync/TransactionSync.cpp:347-427 | exactly one call of the callback, on the pool it meets, and the pool afterwards, for every kind of answer |
| `TransactionSyncObject.TransactionSync.OnReceiveTxsRequest` | bcos-txpool/sync/TransactionSync.cpp:159-196 | the response holds the requested transactions that the pool has, in order |
| `TransactionSyncObject.FinishCallback.Call` | bcos-txpool/TxPool.cpp:136-168 | passes on one verdict, after looking at the pool again when transactions are reported missing |
| `TxPoolObject.TxPool.AsyncVerifyBlock` | bcos-txpool/TxPool.cpp:108-189 | a new session opens with what the pool misses, or closes at once |
| `TxPoolObject.Verification.LedgerResponds` | bcos-txpool/sync/TransactionSync.cpp:198-279 | the session takes the step of `Happen` for the ledger's answer |
| `TxPoolObject.Verification.PeerResponds` | bcos-txpool/sync/TransactionSync.cpp:281-427 | the session takes the step of `Happen` for the peer's answer |
| `TxPoolObject.TxPool.FillBlock` | bcos-txpool/TxPool.cpp:243-311 | error and transactions are those of the specification, after at most one ledger round |
| `TxPoolObject.TxPool.InitNonceChecker` | bcos-txpool/TxPool.cpp:349-369 | a new checker holds the window of a restart |

## Left out

- Thread pools, locks, condition variables, worker loops, timestamps and logging: operations are atomic, except in the small-step modules. In particular the forced submit whose lock is released before the insertion, and the flags changed under read guards, are modelled as atomic.
- Encoding and decoding, signatures and hashes: decoding yields a fresh object or fails; a transaction is genuine or not; hashes are compared only.
- The front service, the gateway and the ledger: their answers are arbitrary parameters; messages are results. A peer or ledger that never answers is a run that stops.
- The answer that arrives when the pool or the synchroniser is already destroyed, and exceptions thrown while an answer is decoded: no callback is called then, and no claim is made.
- `maintainDownloadingTransactions`, `onPeerTxsStatus`, `executeWorker`, `onRecvSyncMessage`: they buffer, dispatch and call `importDownloadedTxs`, `filterUnknownTxs` and `requestMissedTxs`, which are modelled.
- `preCommitTransaction` and the retries of `notifyUnsealedTxsSize`: bounded plumbing without effect on the pool; a notification is modelled by its effect on the counter.
- `clear`: no file of the repository's pool calls it, and it leaves the counter as it was, so it is not among the operations of a run.
- `checkExistsInGroup`, `asyncSealTxs`, `asyncMarkTxs`, `asyncResetTxPool` and other delegations; `printPendingTxs`; configuration and wiring; the unused `TransactionCompare`.
- `m_blockNumber` of `MemoryStorage`, import times and transaction attributes: written or copied, but read by nothing that is modelled.
- Integer widths of block numbers and sizes: unbounded, except the unsigned wrap of the sealed counter, which is modelled and proved not to happen.
- The two halves of the clean-up run in parallel in the original; they touch different state, and the model runs one after the other.
- MemoryStorageObject.MemoryStorage.FetchNewTxs: stated for any list `order`; that the list is the table's keys, once each, is a hypothesis of the lemmas about `FetchNew`. The same holds for the other iterations over the table. Null entries seen while the table is being changed are skipped, as absent keys are.
- A call of a finish callback is a result of the handler that makes it; `Verification` passes it to `FinishCallback`, in the order of the original.
