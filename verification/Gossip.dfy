/**
 The gossip of one `maintainTransactions` round: full transactions to every consensus node for those
 submitted here, statuses to a few peers that do not know them yet.
 */
module Gossip {
  import opened TxPoolTypes

  /** What gossip looks at: the hash, whether a submit callback is attached, and the nodes known to hold it. */
  datatype Item = Item(hash: Hash, submittedHere: bool, known: set<NodeId>)

  datatype Network = Network(self: NodeId, connected: set<NodeId>, consensus: seq<NodeId>)

  /** How many peers a status should go to: the percentage of the connected ones, rounded up. */
  function ExpectedPeers(connected: nat, percent: nat): (n: nat)
    ensures 100 * n >= connected * percent
    ensures n > 0 ==> 100 * (n - 1) < connected * percent
  {
    (connected * percent + 99) / 100
  }

  function AtLeastOne(n: nat): nat {
    if n == 0 then 1 else n
  }

  // ----- selecting peers for one transaction -----

  datatype Selection = Selection(picked: seq<NodeId>, known: set<NodeId>, full: bool)

  function PickStep(net: Network, expected: nat, acc: Selection, node: NodeId): Selection {
    if acc.full || node !in net.connected || node == net.self || node in acc.known then acc
    else Selection(acc.picked + [node], acc.known + {node}, |acc.picked| + 1 >= expected)
  }

  function PickTo(net: Network, expected: nat, known: set<NodeId>, i: nat): Selection
    requires i <= |net.consensus|
  {
    if i == 0 then Selection([], known, false)
    else PickStep(net, expected, PickTo(net, expected, known, i - 1), net.consensus[i - 1])
  }

  /** `selectPeers`. */
  function SelectPeers(net: Network, expected: nat, known: set<NodeId>): Selection {
    PickTo(net, expected, known, |net.consensus|)
  }

  /** A peer that may be told about a transaction known by `known`. */
  predicate Eligible(net: Network, known: set<NodeId>, node: NodeId) {
    node in net.consensus && node in net.connected && node != net.self && node !in known
  }

  ghost predicate PicksEligible(net: Network, expected: nat, known: set<NodeId>, sel: Selection) {
    && (forall a, b :: 0 <= a < b < |sel.picked| ==> sel.picked[a] != sel.picked[b])
    && (forall node :: node in sel.picked ==> Eligible(net, known, node))
    && sel.known == known + Elems(sel.picked)
    && |sel.picked| <= AtLeastOne(expected)
    && (sel.full <==> sel.picked != [] && |sel.picked| >= expected)
  }

  lemma {:induction false} PickLoop(net: Network, expected: nat, known: set<NodeId>, i: nat)
    requires i <= |net.consensus|
    ensures var sel := PickTo(net, expected, known, i);
            && PicksEligible(net, expected, known, sel)
            && (!sel.full ==> forall j :: 0 <= j < i ==> !Eligible(net, sel.known, net.consensus[j]))
  {
    if i > 0 {
      PickLoop(net, expected, known, i - 1);
      var p, sel := PickTo(net, expected, known, i - 1), PickTo(net, expected, known, i);
      if sel != p {
        assert sel.picked == p.picked + [net.consensus[i - 1]];
        assert Elems(sel.picked) == Elems(p.picked) + {net.consensus[i - 1]};
      }
    }
  }

  /**
   Peers are chosen once each, among the connected consensus nodes other than this one that did not know the
   transaction, at most as many as expected (but one even if none is expected), and they are recorded as
   knowing it; when fewer are chosen, no eligible peer is left.
   */
  lemma SelectionContract(net: Network, expected: nat, known: set<NodeId>)
    ensures var sel := SelectPeers(net, expected, known);
            && PicksEligible(net, expected, known, sel)
            && (|sel.picked| < AtLeastOne(expected) ==> forall node :: !Eligible(net, sel.known, node))
  {
    PickLoop(net, expected, known, |net.consensus|);
  }

  lemma {:induction false} FullPickStays(net: Network, expected: nat, known: set<NodeId>, i: nat, j: nat)
    requires i <= j <= |net.consensus| && PickTo(net, expected, known, i).full
    ensures PickTo(net, expected, known, j) == PickTo(net, expected, known, i)
  {
    if i < j { FullPickStays(net, expected, known, i, j - 1); }
  }

  // ----- forwarding statuses -----

  /** The hashes that will go to a peer. */
  function ListFor(lists: map<NodeId, seq<Hash>>, peer: NodeId): seq<Hash> {
    if peer in lists then lists[peer] else []
  }

  function Enlist(lists: map<NodeId, seq<Hash>>, picked: seq<NodeId>, hash: Hash, i: nat): map<NodeId, seq<Hash>>
    requires i <= |picked|
  {
    if i == 0 then lists
    else
      var r := Enlist(lists, picked, hash, i - 1);
      r[picked[i - 1] := ListFor(r, picked[i - 1]) + [hash]]
  }

  function Choice(net: Network, percent: nat, item: Item): Selection {
    SelectPeers(net, ExpectedPeers(|net.connected|, percent), item.known)
  }

  /** `forwardTxsFromP2P`: the status message of every peer, after the first i transactions. */
  function ForwardTo(net: Network, percent: nat, items: seq<Item>, i: nat): map<NodeId, seq<Hash>>
    requires i <= |items|
  {
    if i == 0 then map[]
    else
      var picked := Choice(net, percent, items[i - 1]).picked;
      Enlist(ForwardTo(net, percent, items, i - 1), picked, items[i - 1].hash, |picked|)
  }

  function Forward(net: Network, percent: nat, items: seq<Item>): map<NodeId, seq<Hash>> {
    ForwardTo(net, percent, items, |items|)
  }

  /** The transactions among the first i that chose the peer, in their order. */
  function ChosenBy(net: Network, percent: nat, items: seq<Item>, peer: NodeId, i: nat): seq<Hash>
    requires i <= |items|
  {
    if i == 0 then []
    else
      var r := ChosenBy(net, percent, items, peer, i - 1);
      if peer in Choice(net, percent, items[i - 1]).picked then r + [items[i - 1].hash] else r
  }

  lemma {:induction false} EnlistOnce(lists: map<NodeId, seq<Hash>>, picked: seq<NodeId>, hash: Hash, i: nat,
                                      peer: NodeId)
    requires i <= |picked| && forall a, b :: 0 <= a < b < |picked| ==> picked[a] != picked[b]
    ensures ListFor(Enlist(lists, picked, hash, i), peer) ==
            if peer in picked[..i] then ListFor(lists, peer) + [hash] else ListFor(lists, peer)
    ensures peer in Enlist(lists, picked, hash, i) <==> peer in lists || peer in picked[..i]
  {
    if i > 0 {
      EnlistOnce(lists, picked, hash, i - 1, peer);
      assert picked[..i] == picked[..i - 1] + [picked[i - 1]];
    }
  }

  lemma {:induction false} ForwardLoop(net: Network, percent: nat, items: seq<Item>, i: nat, peer: NodeId)
    requires i <= |items|
    ensures var lists := ForwardTo(net, percent, items, i);
            && ListFor(lists, peer) == ChosenBy(net, percent, items, peer, i)
            && (peer in lists <==> ListFor(lists, peer) != [])
  {
    if i > 0 {
      ForwardLoop(net, percent, items, i - 1, peer);
      var picked := Choice(net, percent, items[i - 1]).picked;
      SelectionContract(net, ExpectedPeers(|net.connected|, percent), items[i - 1].known);
      EnlistOnce(ForwardTo(net, percent, items, i - 1), picked, items[i - 1].hash, |picked|, peer);
      assert picked[..|picked|] == picked;
    }
  }

  /** Each peer is sent exactly the transactions that chose it, in order, and no empty message. */
  lemma StatusListsAreChoices(net: Network, percent: nat, items: seq<Item>, peer: NodeId)
    ensures var lists := Forward(net, percent, items);
            && ListFor(lists, peer) == ChosenBy(net, percent, items, peer, |items|)
            && (peer in lists <==> ListFor(lists, peer) != [])
  {
    ForwardLoop(net, percent, items, |items|, peer);
  }

  ghost predicate DistinctHashes(items: seq<Item>) {
    forall i, j :: 0 <= i < j < |items| ==> items[i].hash != items[j].hash
  }

  lemma {:induction false} ChosenExactly(net: Network, percent: nat, items: seq<Item>, peer: NodeId, i: nat, k: nat)
    requires i <= |items| && k < |items| && DistinctHashes(items)
    ensures items[k].hash in ChosenBy(net, percent, items, peer, i) <==>
            k < i && peer in Choice(net, percent, items[k]).picked
  {
    if i > 0 { ChosenExactly(net, percent, items, peer, i - 1, k); }
  }

  /** The peers that are sent the status of a transaction. */
  function ToldOf(lists: map<NodeId, seq<Hash>>, hash: Hash): set<NodeId> {
    set peer | peer in lists && hash in lists[peer]
  }

  /** The status of a transaction reaches the expected number of eligible peers, or all if there are fewer. */
  lemma StatusReachesFew(net: Network, percent: nat, items: seq<Item>, k: nat)
    requires k < |items| && DistinctHashes(items)
    ensures var told := ToldOf(Forward(net, percent, items), items[k].hash);
            && told == Elems(Choice(net, percent, items[k]).picked)
            && |told| <= AtLeastOne(ExpectedPeers(|net.connected|, percent))
            && (forall node :: node in told ==> Eligible(net, items[k].known, node))
            && (|told| < AtLeastOne(ExpectedPeers(|net.connected|, percent)) ==>
                forall node :: Eligible(net, items[k].known, node) ==> node in told)
  {
    var sel := Choice(net, percent, items[k]);
    SelectionContract(net, ExpectedPeers(|net.connected|, percent), items[k].known);
    forall peer ensures peer in ToldOf(Forward(net, percent, items), items[k].hash) <==> peer in Elems(sel.picked) {
      StatusListsAreChoices(net, percent, items, peer);
      ChosenExactly(net, percent, items, peer, |items|, k);
    }
    DistinctCount(sel.picked);
    var expected := ExpectedPeers(|net.connected|, percent);
    forall node | Eligible(net, items[k].known, node) && |sel.picked| < AtLeastOne(expected)
      ensures node in Elems(sel.picked)
    {
      assert !Eligible(net, sel.known, node);
    }
  }

  // ----- broadcasting transactions -----

  /** `broadcastTxsFromRpc` on one transaction: every connected consensus node is taken to know it. */
  function Broadcast(net: Network, item: Item): Item {
    if item.submittedHere then item.(known := item.known + (set node | node in net.consensus && node in net.connected))
    else item
  }

  function BroadcastAll(net: Network, items: seq<Item>): seq<Item> {
    seq(|items|, i requires 0 <= i < |items| => Broadcast(net, items[i]))
  }

  /** The transactions of the packet. */
  function PacketTo(items: seq<Item>, i: nat): seq<Hash>
    requires i <= |items|
  {
    if i == 0 then []
    else
      var r := PacketTo(items, i - 1);
      if items[i - 1].submittedHere then r + [items[i - 1].hash] else r
  }

  /** The consensus nodes the packet goes to, in the order of the list. */
  function TargetsTo(net: Network, i: nat): seq<NodeId>
    requires i <= |net.consensus|
  {
    if i == 0 then []
    else
      var r := TargetsTo(net, i - 1);
      if net.consensus[i - 1] != net.self then r + [net.consensus[i - 1]] else r
  }

  datatype Round = Round(packet: seq<Hash>, targets: seq<NodeId>, statuses: map<NodeId, seq<Hash>>)

  /** What one round sends: the full transactions first, the statuses after. */
  function RoundOf(net: Network, percent: nat, items: seq<Item>): Round {
    var packet := PacketTo(items, |items|);
    Round(packet, if packet == [] then [] else TargetsTo(net, |net.consensus|),
          Forward(net, percent, BroadcastAll(net, items)))
  }

  /** `part` is the elements of `whole` that are kept, each once and in their order: `at` says where each comes from. */
  ghost predicate Picks<T>(whole: seq<T>, keep: seq<bool>, part: seq<T>, at: seq<nat>)
    requires |keep| == |whole|
  {
    && |at| == |part|
    && (forall a, b :: 0 <= a < b < |at| ==> at[a] < at[b])
    && (forall a :: 0 <= a < |at| ==> at[a] < |whole| && keep[at[a]] && part[a] == whole[at[a]])
    && (forall k :: 0 <= k < |whole| && keep[k] ==> k in at)
  }

  ghost predicate Filters<T>(whole: seq<T>, keep: seq<bool>, part: seq<T>)
    requires |keep| == |whole|
  {
    exists at: seq<nat> :: Picks(whole, keep, part, at)
  }

  lemma PicksNext<T>(whole: seq<T>, keep: seq<bool>, part: seq<T>, at: seq<nat>, x: T)
    requires |keep| == |whole| && Picks(whole, keep, part, at)
    ensures Picks(whole + [x], keep + [true], part + [x], at + [|whole|])
    ensures Picks(whole + [x], keep + [false], part, at)
  {
    assert (at + [|whole|])[|at|] == |whole|;
    assert forall k :: k in at ==> k in at + [|whole|];
  }

  function HashesOf(items: seq<Item>): seq<Hash> {
    seq(|items|, k requires 0 <= k < |items| => items[k].hash)
  }

  function Origins(items: seq<Item>): seq<bool> {
    seq(|items|, k requires 0 <= k < |items| => items[k].submittedHere)
  }

  lemma {:induction false} PacketPicks(items: seq<Item>, i: nat) returns (at: seq<nat>)
    requires i <= |items|
    ensures Picks(HashesOf(items[..i]), Origins(items[..i]), PacketTo(items, i), at)
  {
    hide Picks;
    if i == 0 {
      at := [];
      PicksNothing<Hash>();
      assert HashesOf(items[..0]) == [] && Origins(items[..0]) == [];
    } else {
      at := PacketPicks(items, i - 1);
      var item := items[i - 1];
      PicksNext(HashesOf(items[..i - 1]), Origins(items[..i - 1]), PacketTo(items, i - 1), at, item.hash);
      assert HashesOf(items[..i]) == HashesOf(items[..i - 1]) + [item.hash];
      assert Origins(items[..i]) == Origins(items[..i - 1]) + [item.submittedHere];
      if item.submittedHere { at := at + [i - 1]; }
    }
  }

  lemma PicksNothing<T>()
    ensures Picks<T>([], [], [], [])
  {
  }

  function Others(net: Network, nodes: seq<NodeId>): seq<bool> {
    seq(|nodes|, k requires 0 <= k < |nodes| => nodes[k] != net.self)
  }

  lemma {:induction false} TargetsPick(net: Network, i: nat) returns (at: seq<nat>)
    requires i <= |net.consensus|
    ensures Picks(net.consensus[..i], Others(net, net.consensus[..i]), TargetsTo(net, i), at)
  {
    hide Picks;
    if i == 0 {
      at := [];
      PicksNothing<NodeId>();
    } else {
      at := TargetsPick(net, i - 1);
      var node := net.consensus[i - 1];
      PicksNext(net.consensus[..i - 1], Others(net, net.consensus[..i - 1]), TargetsTo(net, i - 1), at, node);
      assert net.consensus[..i] == net.consensus[..i - 1] + [node];
      assert Others(net, net.consensus[..i]) == Others(net, net.consensus[..i - 1]) + [node != net.self];
      if node != net.self { at := at + [i - 1]; }
    }
  }

  /**
   The packet is the transactions submitted here, each once and in order; if there are any it goes to the consensus
   nodes other than this one, in the order of their list.
   */
  lemma PacketContract(net: Network, percent: nat, items: seq<Item>)
    ensures var r := RoundOf(net, percent, items);
            && Filters(HashesOf(items), Origins(items), r.packet)
            && (if r.packet == [] then r.targets == []
                else Filters(net.consensus, Others(net, net.consensus), r.targets))
  {
    var at := PacketPicks(items, |items|);
    assert items[..|items|] == items;
    var to := TargetsPick(net, |net.consensus|);
    assert net.consensus[..|net.consensus|] == net.consensus;
  }

  lemma {:induction false} PacketExactly(items: seq<Item>, i: nat, k: nat)
    requires i <= |items| && k < |items| && DistinctHashes(items)
    ensures items[k].hash in PacketTo(items, i) <==> k < i && items[k].submittedHere
  {
    if i > 0 { PacketExactly(items, i - 1, k); }
  }

  lemma {:induction false} TargetsExactly(net: Network, i: nat, node: NodeId)
    requires i <= |net.consensus|
    ensures node in TargetsTo(net, i) <==> node in net.consensus[..i] && node != net.self
  {
    if i > 0 {
      TargetsExactly(net, i - 1, node);
      assert net.consensus[..i] == net.consensus[..i - 1] + [net.consensus[i - 1]];
    }
  }

  /**
   One round: a transaction submitted here goes in full to every other consensus node and its status to none;
   any other goes in full to none, and its status to a few peers that did not know it.
   */
  lemma RoundContract(net: Network, percent: nat, items: seq<Item>, k: nat)
    requires k < |items| && DistinctHashes(items)
    ensures var r := RoundOf(net, percent, items);
            var h := items[k].hash;
            && (h in r.packet <==> items[k].submittedHere)
            && (h in r.packet ==> forall node :: node in r.targets <==> node in net.consensus && node != net.self)
            && (h in r.packet ==> ToldOf(r.statuses, h) == {})
            && (h !in r.packet ==> |ToldOf(r.statuses, h)| <= AtLeastOne(ExpectedPeers(|net.connected|, percent)))
            && (h !in r.packet && |ToldOf(r.statuses, h)| < AtLeastOne(ExpectedPeers(|net.connected|, percent)) ==>
                forall node :: Eligible(net, items[k].known, node) ==> node in ToldOf(r.statuses, h))
            && (forall node :: node in ToldOf(r.statuses, h) ==> Eligible(net, items[k].known, node))
  {
    var after := BroadcastAll(net, items);
    PacketExactly(items, |items|, k);
    StatusReachesFew(net, percent, after, k);
    forall node ensures node in TargetsTo(net, |net.consensus|) <==> node in net.consensus && node != net.self {
      TargetsExactly(net, |net.consensus|, node);
      assert net.consensus[..|net.consensus|] == net.consensus;
    }
    if items[k].submittedHere {
      assert forall node :: !Eligible(net, after[k].known, node);
    }
  }

  /**
   After a round a node is taken to know a transaction if and only if it was before, or it has been told of it, or the
   transaction went out in full and the node is a connected consensus node.
   */
  lemma RoundKnows(net: Network, percent: nat, items: seq<Item>, k: nat, node: NodeId)
    requires k < |items| && DistinctHashes(items)
    ensures var r := RoundOf(net, percent, items);
            node in Choice(net, percent, Broadcast(net, items[k])).known <==>
            || node in items[k].known
            || node in ToldOf(r.statuses, items[k].hash)
            || (items[k].hash in r.packet && node in net.consensus && node in net.connected)
  {
    var after := BroadcastAll(net, items);
    StatusReachesFew(net, percent, after, k);
    SelectionContract(net, ExpectedPeers(|net.connected|, percent), after[k].known);
    PacketExactly(items, |items|, k);
  }

  /** No peer is sent both a transaction and its status in one round. */
  lemma NeverBothInOneRound(net: Network, percent: nat, items: seq<Item>, k: nat, peer: NodeId)
    requires k < |items| && DistinctHashes(items)
    ensures var r := RoundOf(net, percent, items);
            !(items[k].hash in r.packet && peer in r.targets && items[k].hash in ListFor(r.statuses, peer))
  {
    RoundContract(net, percent, items, k);
    var r := RoundOf(net, percent, items);
    if items[k].hash in ListFor(r.statuses, peer) { assert peer in ToldOf(r.statuses, items[k].hash); }
  }
}
