/**
 The gossip of `TransactionSync`: the transactions are objects whose known nodes are updated as peers are
 chosen. The messages of a round are its result.
 */
module TransactionSyncObject {
  import opened TxPoolTypes
  import opened TransactionObject
  import opened MemoryStorageObject
  import opened Gossip
  import opened PoolState
  import opened ProposalVerification
  import NewTxs

  function ItemOf(tx: Transaction): Item
    reads tx`callback, tx`known
  {
    Item(tx.hash, tx.callback.Some?, tx.known)
  }

  function ItemsOf(txs: seq<Transaction>): (items: seq<Item>)
    reads txs
    ensures |items| == |txs| && forall i :: 0 <= i < |txs| ==> items[i] == ItemOf(txs[i])
  {
    seq(|txs|, i requires 0 <= i < |txs| reads txs => ItemOf(txs[i]))
  }

  ghost predicate DistinctObjects(txs: seq<Transaction>) {
    forall i, j :: 0 <= i < j < |txs| ==> txs[i] != txs[j]
  }

  /** Fresh objects: decoded for the occasion, no two the same, none of them in the pool. */
  ghost predicate Decoded(storage: MemoryStorage, txs: seq<Transaction>)
    reads storage
  {
    DistinctObjects(txs) && forall i :: 0 <= i < |txs| ==> storage.Unstored(txs[i])
  }

  /** The first i of these transactions have been prepared, the others are as they were. */
  ghost predicate PreparedTo(s: Pool, txs: seq<Transaction>, views: seq<Tx>, header: Option<Header>, i: int)
    reads txs
  {
    |views| == |txs| && forall j :: 0 <= j < |txs| ==>
      txs[j].View() == if j < i then Prepare(s, views[j], header) else views[j]
  }

  /** The transactions from the i-th on are prepared and not in the pool. */
  ghost predicate PendingFrom(storage: MemoryStorage, s: Pool, txs: seq<Transaction>, views: seq<Tx>,
                              header: Option<Header>, i: nat)
    reads storage, txs
  {
    |views| == |txs| && forall j :: i <= j < |txs| ==>
      storage.Unstored(txs[j]) && txs[j].View() == Prepare(s, views[j], header)
  }

  lemma AllPending(storage: MemoryStorage, s: Pool, txs: seq<Transaction>, views: seq<Tx>, header: Option<Header>)
    requires Decoded(storage, txs) && PreparedTo(s, txs, views, header, |txs|)
    ensures PendingFrom(storage, s, txs, views, header, 0)
  {
  }

  predicate GenuineIn(s: Pool, tx: Tx) {
    tx.hash in s.table || tx.genuine
  }

  /** One hand-out gives each object once. */
  lemma HandedOnce(storage: MemoryStorage, s: Pool, order: seq<Hash>, txs: seq<Transaction>, picked: seq<Hash>)
    requires storage.Valid() && storage.Stored(txs, picked)
    requires picked == FetchNew(s, order, MAX_SEND_TRANSACTIONS).txs
    ensures DistinctObjects(txs)
    ensures forall i :: 0 <= i < |txs| ==> txs[i] in storage.txsTable.Values
  {
    NewTxs.HandLoop(s, order, MAX_SEND_TRANSACTIONS, |order|);
    forall i, j | 0 <= i < j < |txs| ensures txs[i] != txs[j] {
      assert storage.Holds(txs[i], picked[i]) && storage.Holds(txs[j], picked[j]);
    }
    forall i | 0 <= i < |txs| ensures txs[i] in storage.txsTable.Values {
      assert storage.Holds(txs[i], picked[i]);
    }
  }

  lemma NoSignatures(s: Pool, txs: seq<Tx>)
    ensures SignaturesOk(s, txs[..0])
  {
  }

  lemma OneMoreSignature(s: Pool, txs: seq<Tx>, i: nat)
    requires i < |txs|
    ensures SignaturesOk(s, txs[..i + 1]) <==> SignaturesOk(s, txs[..i]) && GenuineIn(s, txs[i])
  {
    assert forall j :: 0 <= j < i ==> txs[..i][j] == txs[..i + 1][j];
    assert txs[..i + 1][i] == txs[i];
  }

  lemma {:induction false} FailedImportStays(s: Pool, txs: seq<Tx>, header: Option<Header>, i: nat, j: nat)
    requires i <= j <= |txs| && !ImportTo(s, txs, header, i).ok
    ensures ImportTo(s, txs, header, j) == ImportTo(s, txs, header, i)
  {
    if i < j { FailedImportStays(s, txs, header, i, j - 1); }
  }

  function LedgerAnswerOf(fault: Option<Fault>, txs: seq<Transaction>): LedgerAnswer
    reads txs
  {
    if fault.Some? then LedgerFault(fault.value) else LedgerTxs(ViewsOf(txs))
  }

  function PeerAnswerOf(fault: Option<Fault>, isResponse: bool, txs: seq<Transaction>): PeerAnswer
    reads txs
  {
    if fault.Some? then PeerFault(fault.value) else if !isResponse then OtherPacket else PeerTxs(ViewsOf(txs))
  }

  /** The wrapper around the caller's callback, with what it captures and the calls it has passed on. */
  class FinishCallback {
    const storage: MemoryStorage
    const missed: seq<Hash>
    var verdicts: seq<Verdict>

    constructor (storage: MemoryStorage, missed: seq<Hash>)
      ensures this.storage == storage && this.missed == missed && verdicts == []
    {
      this.storage, this.missed, verdicts := storage, missed, [];
    }

    method Call(error: Option<Fault>, ok: bool)
      requires storage.Valid()
      modifies this
      ensures verdicts == old(verdicts) + [Wrap(storage.State(), missed, Verdict(error, ok))]
    {
      var verifyRet, verifyError := ok, error;
      if |missed| > 0 {
        if error == Some(TransactionsMissing) {
          verifyRet := storage.BatchVerifyProposal(missed);
        }
        if verifyRet {
          verifyError := None;
        }
      }
      verdicts := verdicts + [Verdict(verifyError, verifyRet)];
    }
  }

  class TransactionSync {
    const storage: MemoryStorage
    const nodeId: NodeId
    const forwardPercent: nat
    var connectedNodeList: set<NodeId>
    var consensusNodeList: seq<NodeId>

    constructor (storage: MemoryStorage, nodeId: NodeId, forwardPercent: nat)
      ensures this.storage == storage && this.forwardPercent == forwardPercent
      ensures Net() == Network(nodeId, {}, [])
    {
      this.storage := storage;
      this.nodeId, this.forwardPercent := nodeId, forwardPercent;
      connectedNodeList, consensusNodeList := {}, [];
    }

    function Net(): Network
      reads this
    {
      Network(nodeId, connectedNodeList, consensusNodeList)
    }

    method SelectPeers(tx: Transaction, expected: nat) returns (picked: seq<NodeId>)
      modifies tx`known
      ensures var sel := Gossip.SelectPeers(Net(), expected, old(tx.known));
              picked == sel.picked && tx.known == sel.known
    {
      ghost var net, known := Net(), tx.known;
      picked := [];
      for i := 0 to |consensusNodeList|
        invariant PickTo(net, expected, known, i) == Selection(picked, tx.known, false)
      {
        var node := consensusNodeList[i];
        if node !in connectedNodeList {
          continue;
        }
        if node == nodeId {
          continue;
        }
        if node in tx.known {
          continue;
        }
        picked := picked + [node];
        tx.AppendKnownNode(node);
        if |picked| >= expected {
          FullPickStays(net, expected, known, i + 1, |consensusNodeList|);
          break;
        }
      }
    }

    method EnlistPeers(statuses: map<NodeId, seq<Hash>>, picked: seq<NodeId>, hash: Hash)
      returns (lists: map<NodeId, seq<Hash>>)
      ensures lists == Enlist(statuses, picked, hash, |picked|)
    {
      lists := statuses;
      for i := 0 to |picked|
        invariant lists == Enlist(statuses, picked, hash, i)
      {
        var peer := picked[i];
        if peer !in lists {
          lists := lists[peer := []];
        }
        lists := lists[peer := lists[peer] + [hash]];
        assert Enlist(statuses, picked, hash, i + 1) == lists;
      }
    }

    /** The status message of each peer. */
    method ForwardTxsFromP2P(txs: seq<Transaction>) returns (statuses: map<NodeId, seq<Hash>>)
      requires DistinctObjects(txs)
      modifies txs`known
      ensures statuses == Forward(Net(), forwardPercent, old(ItemsOf(txs)))
      ensures forall i :: 0 <= i < |txs| ==>
                txs[i].known == Choice(Net(), forwardPercent, old(ItemOf(txs[i]))).known
    {
      ghost var net, items := Net(), ItemsOf(txs);
      var expected := (|connectedNodeList| * forwardPercent + 99) / 100;
      statuses := map[];
      for i := 0 to |txs|
        invariant statuses == ForwardTo(net, forwardPercent, items, i)
        invariant forall j :: i <= j < |txs| ==> ItemOf(txs[j]) == items[j]
        invariant forall j :: 0 <= j < i ==> txs[j].known == Choice(net, forwardPercent, items[j]).known
      {
        var picked := SelectPeers(txs[i], expected);
        assert picked == Choice(net, forwardPercent, items[i]).picked;
        statuses := EnlistPeers(statuses, picked, txs[i].hash);
      }
    }

    method NoteBroadcast(tx: Transaction)
      modifies tx`known
      ensures tx.known == old(tx.known) + (set node | node in consensusNodeList && node in connectedNodeList)
    {
      for i := 0 to |consensusNodeList|
        invariant tx.known == old(tx.known) + (set node | node in consensusNodeList[..i] && node in connectedNodeList)
      {
        assert consensusNodeList[..i + 1] == consensusNodeList[..i] + [consensusNodeList[i]];
        if consensusNodeList[i] !in connectedNodeList {
          continue;
        }
        tx.AppendKnownNode(consensusNodeList[i]);
      }
      assert consensusNodeList[..|consensusNodeList|] == consensusNodeList;
    }

    method Targets() returns (targets: seq<NodeId>)
      ensures targets == TargetsTo(Net(), |consensusNodeList|)
    {
      targets := [];
      for i := 0 to |consensusNodeList|
        invariant targets == TargetsTo(Net(), i)
      {
        if consensusNodeList[i] == nodeId {
          continue;
        }
        targets := targets + [consensusNodeList[i]];
      }
    }

    /** The packet with full transactions and the nodes it is sent to. */
    method BroadcastTxsFromRpc(txs: seq<Transaction>) returns (packet: seq<Hash>, targets: seq<NodeId>)
      requires DistinctObjects(txs)
      modifies txs`known
      ensures packet == PacketTo(old(ItemsOf(txs)), |txs|)
      ensures targets == if packet == [] then [] else TargetsTo(Net(), |consensusNodeList|)
      ensures ItemsOf(txs) == BroadcastAll(Net(), old(ItemsOf(txs)))
    {
      ghost var net, items := Net(), ItemsOf(txs);
      packet := [];
      for i := 0 to |txs|
        invariant packet == PacketTo(items, i)
        invariant forall j :: 0 <= j < i ==> ItemOf(txs[j]) == Broadcast(net, items[j])
        invariant forall j :: i <= j < |txs| ==> ItemOf(txs[j]) == items[j]
      {
        if txs[i].callback.None? {
          continue;
        }
        NoteBroadcast(txs[i]);
        packet := packet + [txs[i].hash];
      }
      if packet == [] {
        return packet, [];
      }
      targets := Targets();
    }

    /** After a round, a transaction is known to those it was broadcast to and those that were told of it. */
    ghost predicate KnownAfter(txs: seq<Transaction>, items: seq<Item>)
      reads this, txs
    {
      |items| == |txs| && forall i :: 0 <= i < |txs| ==>
        txs[i].known == Choice(Net(), forwardPercent, Broadcast(Net(), items[i])).known
    }

    /** One round over the transactions handed out. */
    method GossipRound(txs: seq<Transaction>) returns (round: Round)
      requires DistinctObjects(txs)
      modifies txs`known
      ensures round == RoundOf(Net(), forwardPercent, old(ItemsOf(txs)))
      ensures KnownAfter(txs, old(ItemsOf(txs)))
    {
      ghost var items := ItemsOf(txs);
      var packet, targets := BroadcastTxsFromRpc(txs);
      assert forall i :: 0 <= i < |txs| ==> ItemOf(txs[i]) == Broadcast(Net(), items[i]);
      var statuses := ForwardTxsFromP2P(txs);
      round := Round(packet, targets, statuses);
    }

    /**
     `order` is the order in which the pool lists its transactions; `txs` are those handed out.
     With none left the worker goes to sleep; otherwise a round of gossip goes out.
     */
    method MaintainTransactions(order: seq<Hash>) returns (round: Round, ghost txs: seq<Transaction>)
      requires storage.Valid()
      modifies storage`table, storage.signal, storage.txsTable.Values`synced, storage.txsTable.Values`known
      ensures storage.Valid()
      ensures storage.State() == Maintain(old(storage.State()), order).pool
      ensures storage.Stored(txs, Maintain(old(storage.State()), order).txs)
      ensures forall i :: 0 <= i < |txs| ==> txs[i] in old(storage.txsTable.Values)
      ensures round == if txs == [] then Round([], [], map[]) else RoundOf(Net(), forwardPercent, old(ItemsOf(txs)))
      ensures KnownAfter(txs, old(ItemsOf(txs)))
    {
      hide Transaction.View, Maintain, RoundOf, Choice, Broadcast;
      var fetched := FetchOrRest(order);
      txs := fetched;
      if fetched == [] {
        return Round([], [], map[]), txs;
      }
      round := GossipStored(fetched);
    }

    /** Gossip touches nothing the pool records. */
    method GossipStored(txs: seq<Transaction>) returns (round: Round)
      requires storage.Valid() && DistinctObjects(txs)
      modifies txs`known
      ensures storage.Valid()
      ensures round == RoundOf(Net(), forwardPercent, old(ItemsOf(txs)))
      ensures KnownAfter(txs, old(ItemsOf(txs)))
    {
      hide Transaction.View;
      round := GossipRound(txs);
    }

    /** The fetched objects, with their callbacks and known nodes as they were. */
    method FetchDistinct(order: seq<Hash>) returns (txs: seq<Transaction>)
      requires storage.Valid()
      modifies storage`table, storage.txsTable.Values`synced
      ensures storage.Valid() && DistinctObjects(txs)
      ensures var r := FetchNew(old(storage.State()), order, MAX_SEND_TRANSACTIONS);
              storage.State() == r.pool && storage.Stored(txs, r.txs)
      ensures forall i :: 0 <= i < |txs| ==> txs[i] in old(storage.txsTable.Values)
      ensures ItemsOf(txs) == old(ItemsOf(txs))
    {
      ghost var s, picked := storage.State(), [];
      txs, picked := storage.FetchNewTxs(order, MAX_SEND_TRANSACTIONS);
      HandedOnce(storage, s, order, txs, picked);
      assert forall i :: 0 <= i < |txs| ==> ItemOf(txs[i]) == old(ItemOf(txs[i]));
    }

    /** Fetch the new transactions; with none left, lower the flag. */
    method FetchOrRest(order: seq<Hash>) returns (txs: seq<Transaction>)
      requires storage.Valid()
      modifies storage`table, storage.signal, storage.txsTable.Values`synced
      ensures storage.Valid() && DistinctObjects(txs)
      ensures storage.State() == Maintain(old(storage.State()), order).pool
      ensures storage.Stored(txs, Maintain(old(storage.State()), order).txs)
      ensures forall i :: 0 <= i < |txs| ==> txs[i] in old(storage.txsTable.Values)
      ensures ItemsOf(txs) == old(ItemsOf(txs))
    {
      hide FetchNew;
      txs := FetchDistinct(order);
      if txs == [] {
        storage.signal.Clear();
      }
    }

    // ----- answering a request -----

    /** The transactions of the response, in the order of the request; the missing ones are left out. */
    method OnReceiveTxsRequest(request: seq<Hash>) returns (response: seq<Transaction>)
      requires storage.Valid()
      ensures ViewsOf(response) == Fetch(storage.State().table, request).txs
    {
      var txs, missed := storage.FetchTxs(request);
      response := [];
      for i := 0 to |txs|
        invariant response == txs[..i]
      {
        response := response + [txs[i]];
      }
      assert txs[..|txs|] == txs;
    }

    // ----- importing downloaded transactions -----

    /** Note the sender, and the proposal if there is one. */
    method MarkFor(tx: Transaction, from: NodeId, header: Option<Header>)
      requires storage.Valid() && storage.Unstored(tx)
      modifies tx`known, tx`sealed, tx`batchId, tx`batchHash
      ensures storage.Valid()
      ensures tx.View() == MarkedFor(old(tx.View()), header)
      ensures tx.known == old(tx.known) + {from}
    {
      tx.AppendKnownNode(from);
      if header.Some? {
        tx.SetMarks(tx.sealed, header.value.number, header.value.hash);
      }
    }

    /** The signature is verified only if the transaction is not in the pool already. */
    method PrepareTx(tx: Transaction, from: NodeId, header: Option<Header>) returns (ok: bool)
      requires storage.Valid() && storage.Unstored(tx)
      modifies tx`known, tx`sealed, tx`batchId, tx`batchHash, tx`invalid
      ensures storage.Valid()
      ensures tx.View() == Prepare(storage.State(), old(tx.View()), header)
      ensures ok <==> GenuineIn(storage.State(), old(tx.View()))
      ensures tx.known == old(tx.known) + {from}
    {
      hide Transaction.View;
      MarkFor(tx, from, header);
      var found := storage.Exist(tx.hash);
      if found {
        return true;
      }
      if !tx.genuine {
        tx.SetInvalid();
        return false;
      }
      return true;
    }

    method PrepareAt(txs: seq<Transaction>, i: nat, from: NodeId, header: Option<Header>, ghost views: seq<Tx>)
      returns (ok: bool)
      requires storage.Valid() && Decoded(storage, txs) && i < |txs|
      requires PreparedTo(storage.State(), txs, views, header, i)
      modifies {txs[i]}`known, {txs[i]}`sealed, {txs[i]}`batchId, {txs[i]}`batchHash, {txs[i]}`invalid
      ensures storage.Valid() && storage.State() == old(storage.State())
      ensures PreparedTo(storage.State(), txs, views, header, i + 1)
      ensures ok <==> GenuineIn(storage.State(), views[i])
      ensures txs[i].known == old(txs[i].known) + {from}
    {
      hide Transaction.View;
      ghost var others := ViewsOf(txs);
      ok := PrepareTx(txs[i], from, header);
      forall j | 0 <= j < |txs| && j != i ensures txs[j].View() == others[j] {
        assert txs[j] != txs[i];
      }
    }

    /** Mark and verify every transaction; whether all signatures are genuine. */
    method PrepareAll(txs: seq<Transaction>, from: NodeId, header: Option<Header>) returns (ok: bool)
      requires storage.Valid() && Decoded(storage, txs)
      modifies txs`known, txs`sealed, txs`batchId, txs`batchHash, txs`invalid
      ensures storage.Valid()
      ensures ok <==> SignaturesOk(storage.State(), old(ViewsOf(txs)))
      ensures PreparedTo(storage.State(), txs, old(ViewsOf(txs)), header, |txs|)
      ensures forall i :: 0 <= i < |txs| ==> txs[i].known == old(txs[i].known) + {from}
    {
      hide Prepare, GenuineIn, SignaturesOk, Transaction.View;
      ghost var s, views := storage.State(), ViewsOf(txs);
      NoSignatures(s, views);
      ok := true;
      for i := 0 to |txs|
        invariant storage.Valid() && storage.State() == s
        invariant ok <==> SignaturesOk(s, views[..i])
        invariant PreparedTo(s, txs, views, header, i)
        invariant forall j :: 0 <= j < i ==> txs[j].known == old(txs[j].known) + {from}
        invariant forall j :: i <= j < |txs| ==> txs[j].known == old(txs[j].known)
      {
        var genuine := PrepareAt(txs, i, from, header, views);
        ok := ok && genuine;
        OneMoreSignature(s, views, i);
      }
      assert views[..|views|] == views;
    }

    /** Submit one prepared transaction, by force for a proposal. */
    method ImportTx(tx: Transaction, enforce: bool) returns (ok: bool)
      requires storage.Valid() && storage.Unstored(tx)
      modifies storage`txsTable, storage`table, storage`sealedTxsSize, storage`missedTxs, storage.signal
      modifies storage.validator.pool, storage.validator.ledger.base, tx`sealed, tx`callback, tx`systemTx
      modifies storage.txsTable.Values`sealed, storage.txsTable.Values`batchId, storage.txsTable.Values`batchHash
      ensures storage.Valid()
      ensures ImportStep(Importing(old(storage.State()), true), old(tx.View()), enforce) ==
              Importing(storage.State(), ok)
      ensures storage.txsTable == old(storage.txsTable) || storage.txsTable == old(storage.txsTable)[tx.hash := tx]
    {
      if tx.invalid {
        return true;
      }
      if enforce {
        var status := storage.EnforceSubmitTransaction(tx);
        return status == Ok;
      }
      var status := storage.VerifyAndSubmitTransaction(tx, None);
      return true;
    }

    /** Import the i-th of the prepared transactions; the later ones are not touched. */
    method ImportAt(txs: seq<Transaction>, i: nat, header: Option<Header>, ghost s: Pool, ghost views: seq<Tx>)
      returns (ok: bool)
      requires storage.Valid() && DistinctObjects(txs) && i < |txs|
      requires PendingFrom(storage, s, txs, views, header, i)
      requires ImportTo(s, views, header, i) == Importing(storage.State(), true)
      modifies storage`txsTable, storage`table, storage`sealedTxsSize, storage`missedTxs, storage.signal
      modifies storage.validator.pool, storage.validator.ledger.base
      modifies {txs[i]}`sealed, {txs[i]}`callback, {txs[i]}`systemTx
      modifies storage.txsTable.Values`sealed, storage.txsTable.Values`batchId, storage.txsTable.Values`batchHash
      ensures storage.Valid()
      ensures PendingFrom(storage, s, txs, views, header, i + 1)
      ensures ImportTo(s, views, header, i + 1) == Importing(storage.State(), ok)
      ensures storage.txsTable.Values <= old(storage.txsTable.Values) + {txs[i]}
    {
      hide ImportStep, Transaction.View;
      ghost var later := ViewsOf(txs);
      assert txs[i].View() == Prepare(s, views[i], header) && storage.Unstored(txs[i]);
      ok := ImportTx(txs[i], header.Some?);
      forall j | i + 1 <= j < |txs| ensures storage.Unstored(txs[j]) && txs[j].View() == later[j] {
        assert txs[j] != txs[i];
      }
    }

    method ImportPrepared(txs: seq<Transaction>, header: Option<Header>, ghost views: seq<Tx>) returns (ok: bool)
      requires storage.Valid() && Decoded(storage, txs) && PreparedTo(storage.State(), txs, views, header, |txs|)
      modifies storage`txsTable, storage`table, storage`sealedTxsSize, storage`missedTxs, storage.signal
      modifies storage.validator.pool, storage.validator.ledger.base
      modifies txs`sealed, txs`batchId, txs`batchHash, txs`callback, txs`systemTx
      modifies storage.txsTable.Values`sealed, storage.txsTable.Values`batchId, storage.txsTable.Values`batchHash
      ensures storage.Valid()
      ensures ImportTo(old(storage.State()), views, header, |txs|) == Importing(storage.State(), ok)
    {
      hide ImportStep, Prepare, PreparedTo, PendingFrom;
      ghost var s := storage.State();
      AllPending(storage, s, txs, views, header);
      ghost var reach := storage.txsTable.Values + set tx | tx in txs;
      for i := 0 to |txs|
        invariant storage.Valid()
        invariant ImportTo(s, views, header, i) == Importing(storage.State(), true)
        invariant PendingFrom(storage, s, txs, views, header, i)
        invariant storage.txsTable.Values <= reach
      {
        ok := ImportAt(txs, i, header, s, views);
        if !ok {
          FailedImportStays(s, views, header, i + 1, |txs|);
          return false;
        }
      }
      return true;
    }

    method ImportDownloadedTxs(from: NodeId, txs: seq<Transaction>, header: Option<Header>) returns (ok: bool)
      requires storage.Valid() && Decoded(storage, txs)
      modifies storage, storage.signal, storage.validator.pool, storage.validator.ledger.base
      modifies txs, storage.txsTable.Values
      ensures storage.Valid()
      ensures Import(old(storage.State()), old(ViewsOf(txs)), header) == Importing(storage.State(), ok)
      ensures forall i :: 0 <= i < |txs| ==> txs[i].known == old(txs[i].known) + {from}
    {
      hide SignaturesOk, PreparedTo, ImportTo;
      if txs == [] {
        return true;
      }
      ghost var views := ViewsOf(txs);
      var verified := PrepareAll(txs, from, header);
      if header.Some? && !verified {
        return false;
      }
      ok := ImportPrepared(txs, header, views);
    }

    // ----- the answers to a request for missed transactions -----

    method EraseFetched(missed: set<Hash>, txs: seq<Transaction>) returns (left: set<Hash>)
      ensures left == missed - Elems(Hashes(ViewsOf(txs)))
    {
      ghost var hashes := Hashes(ViewsOf(txs));
      left := missed;
      for i := 0 to |txs|
        invariant left == missed - Elems(hashes[..i])
      {
        assert hashes[..i + 1] == hashes[..i] + [txs[i].hash];
        if txs[i].hash !in left {
          continue;
        }
        left := left - {txs[i].hash};
      }
      assert hashes[..|txs|] == hashes;
    }

    /** What the ledger did not have, and the call of the finish callback, made when an import leaves nothing. */
    method OnGetMissedTxsFromLedger(missed: set<Hash>, fault: Option<Fault>, txs: seq<Transaction>,
                                    header: Option<Header>)
      returns (left: set<Hash>, call: Option<Verdict>)
      requires storage.Valid() && Decoded(storage, txs)
      modifies storage, storage.signal, storage.validator.pool, storage.validator.ledger.base
      modifies txs, storage.txsTable.Values
      ensures storage.Valid()
      ensures FromLedger(old(storage.State()), missed, header, old(LedgerAnswerOf(fault, txs))) ==
              LedgerResult(storage.State(), left, call)
    {
      hide Transaction.View, Import;
      if fault.Some? {
        return missed, None;
      }
      ghost var views := ViewsOf(txs);
      var imported := ImportDownloadedTxs(nodeId, txs, header);
      if !imported {
        return missed, None;
      }
      left := EraseFetched(missed, txs);
      assert Hashes(ViewsOf(txs)) == Hashes(views);
      call := if left == {} then Some(Verdict(None, true)) else None;
    }

    /** The ledger's answer to `requestMissedTxs`: the call of the finish callback, or None to go on to the peer. */
    method OnLedgerResponse(missed: seq<Hash>, header: Option<Header>, hasPeer: bool, fault: Option<Fault>,
                            txs: seq<Transaction>)
      returns (call: Option<Verdict>, left: set<Hash>)
      requires storage.Valid() && Decoded(storage, txs)
      modifies storage, storage.signal, storage.validator.pool, storage.validator.ledger.base
      modifies txs, storage.txsTable.Values
      ensures storage.Valid()
      ensures OnLedger(old(storage.State()), missed, header, hasPeer, old(LedgerAnswerOf(fault, txs))) ==
              Reply(storage.State(), call)
      ensures left == FromLedger(old(storage.State()), Elems(missed), header, old(LedgerAnswerOf(fault, txs))).missed
    {
      left, call := OnGetMissedTxsFromLedger(Elems(missed), fault, txs, header);
      if left == {} {
        return;
      }
      if !hasPeer {
        return Some(Verdict(Some(TransactionsMissing), false)), left;
      }
      call := None;
    }

    /** The peer's answer: the callback is called, and even an answer of the wrong size is imported. */
    method VerifyFetchedTxs(from: NodeId, asked: seq<Hash>, header: Option<Header>, fault: Option<Fault>,
                            isResponse: bool, txs: seq<Transaction>, finish: FinishCallback)
      returns (ghost j: Judged)
      requires storage.Valid() && Decoded(storage, txs) && finish.storage == storage
      modifies finish, storage, storage.signal, storage.validator.pool, storage.validator.ledger.base
      modifies txs, storage.txsTable.Values
      ensures storage.Valid()
      ensures j == OnPeer(old(storage.State()), asked, header, old(PeerAnswerOf(fault, isResponse, txs)))
      ensures storage.State() == j.after
      ensures finish.verdicts == old(finish.verdicts) + [Wrap(j.pool, finish.missed, j.verdict)]
    {
      j := OnPeer(storage.State(), asked, header, PeerAnswerOf(fault, isResponse, txs));
      if fault.Some? {
        finish.Call(fault, false);
        return;
      }
      if !isResponse {
        finish.Call(Some(FetchTransactionsFailed), false);
        return;
      }
      if |asked| != |txs| {
        RejectSize(from, txs, finish);
        return;
      }
      FinishAsked(from, asked, header, txs, finish);
    }

    /** Try to import the transactions even when the answer is refused. */
    method RejectSize(from: NodeId, txs: seq<Transaction>, finish: FinishCallback)
      requires storage.Valid() && Decoded(storage, txs) && finish.storage == storage
      modifies finish, storage, storage.signal, storage.validator.pool, storage.validator.ledger.base
      modifies txs, storage.txsTable.Values
      ensures storage.Valid()
      ensures storage.State() == Import(old(storage.State()), old(ViewsOf(txs)), None).pool
      ensures finish.verdicts == old(finish.verdicts) +
                [Wrap(old(storage.State()), finish.missed, Verdict(Some(TransactionsMissing), false))]
    {
      finish.Call(Some(TransactionsMissing), false);
      var imported := ImportDownloadedTxs(from, txs, None);
    }

    method FinishAsked(from: NodeId, asked: seq<Hash>, header: Option<Header>, txs: seq<Transaction>,
                       finish: FinishCallback)
      requires storage.Valid() && Decoded(storage, txs) && |asked| == |txs| && finish.storage == storage
      modifies finish, storage, storage.signal, storage.validator.pool, storage.validator.ledger.base
      modifies txs, storage.txsTable.Values
      ensures storage.Valid()
      ensures var j := OnPeer(old(storage.State()), asked, header, PeerTxs(old(ViewsOf(txs))));
              storage.State() == j.pool == j.after &&
              finish.verdicts == old(finish.verdicts) + [Wrap(j.pool, finish.missed, j.verdict)]
    {
      hide Import, Wrap, Transaction.View;
      ghost var j := OnPeer(storage.State(), asked, header, PeerTxs(ViewsOf(txs)));
      var error := ImportAsked(from, asked, header, txs);
      assert j == Judged(storage.State(), Verdict(error, error.None?), storage.State());
      finish.Call(error, error.None?);
    }

    method CompareHashes(asked: seq<Hash>, txs: seq<Transaction>) returns (same: bool)
      requires |asked| == |txs|
      ensures same <==> asked == Hashes(ViewsOf(txs))
    {
      ghost var hashes := Hashes(ViewsOf(txs));
      for i := 0 to |asked|
        invariant asked[..i] == hashes[..i]
      {
        assert hashes[i] == txs[i].hash;
        if asked[i] != txs[i].hash {
          return false;
        }
        assert asked[..i + 1] == asked[..i] + [asked[i]] && hashes[..i + 1] == hashes[..i] + [hashes[i]];
      }
      assert asked[..|asked|] == asked && hashes[..|asked|] == hashes;
      return true;
    }

    /** An answer of the right size: the error the callback is called with, None for success. */
    method ImportAsked(from: NodeId, asked: seq<Hash>, header: Option<Header>, txs: seq<Transaction>)
      returns (error: Option<Fault>)
      requires storage.Valid() && Decoded(storage, txs) && |asked| == |txs|
      modifies storage, storage.signal, storage.validator.pool, storage.validator.ledger.base
      modifies txs, storage.txsTable.Values
      ensures storage.Valid()
      ensures OnPeer(old(storage.State()), asked, header, PeerTxs(old(ViewsOf(txs)))) ==
              Judged(storage.State(), Verdict(error, error.None?), storage.State())
    {
      ghost var s, views := storage.State(), ViewsOf(txs);
      var imported := ImportDownloadedTxs(from, txs, header);
      assert Import(s, views, header) == Importing(storage.State(), imported);
      if !imported {
        return Some(TxsSignatureVerifyFailed);
      }
      var same := CompareHashes(asked, txs);
      assert Hashes(ViewsOf(txs)) == Hashes(views);
      if !same {
        return Some(InconsistentTransactions);
      }
      return None;
    }
  }
}
