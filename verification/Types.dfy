/**
 The values the transaction pool works on.

 Hashes and nonces are both 256-bit words; the pool converts a nonce to a hash
 in one place, and `AsHash` is that conversion.
 */
module TxPoolTypes {

  datatype Option<+T> = None | Some(value: T)

  datatype Hash = Hash(word: nat)

  datatype Nonce = Nonce(word: nat)

  datatype NodeId = NodeId(key: nat)

  /** The hash a default-constructed `HashType` holds: "no proposal". */
  const ZERO_HASH := Hash(0)

  /** `NonceType(-1)`: a commit result that does not carry a nonce. */
  const NO_NONCE := Nonce(0xFFFF_FFFF_FFFF_FFFF_FFFF_FFFF_FFFF_FFFF_FFFF_FFFF_FFFF_FFFF_FFFF_FFFF_FFFF_FFFF)

  /** The largest `size_t`, which the sealed counter wraps to when it is decremented at zero. */
  const SIZE_MAX: nat := 0xFFFF_FFFF_FFFF_FFFF

  function AsHash(nonce: Nonce): Hash {
    Hash(nonce.word)
  }

  /** `TransactionStatus`; `Ok` is its `None`, `Executed` any status the executor reports. */
  datatype Status =
    | Ok
    | NonceCheckFail
    | BlockLimitCheckFail
    | TxPoolIsFull
    | Malform
    | AlreadyInTxPool
    | InvalidChainId
    | InvalidGroupId
    | InvalidSignature
    | Executed(code: int)

  /** What the pool knows of one transaction; the nodes known to hold it are kept apart. */
  datatype Tx = Tx(
    hash: Hash,
    nonce: Nonce,
    blockLimit: int,
    groupId: string,
    chainId: string,
    to: string,
    genuine: bool,
    sealed: bool,
    batchId: int,
    batchHash: Hash,
    synced: bool,
    systemTx: bool,
    invalid: bool,
    callback: Option<nat>)

  /** A transaction as decoding delivers it. */
  predicate FreshlyDecoded(tx: Tx) {
    !tx.sealed && !tx.synced && !tx.invalid && !tx.systemTx && tx.callback.None?
  }

  datatype TxResult = TxResult(hash: Hash, nonce: Nonce, status: Status)

  /** One run of a submit callback: with an error (a rejection) or with a result. */
  datatype Receipt =
    | Rejected(callback: nat, hash: Hash, reason: Status)
    | Finished(callback: nat, result: TxResult)

  /** `order` lists every element of `keys` once: an arbitrary iteration order. */
  ghost predicate Enumerates<T>(order: seq<T>, keys: set<T>) {
    && (forall i, j :: 0 <= i < j < |order| ==> order[i] != order[j])
    && Elems(order) == keys
  }

  function Elems<T>(list: seq<T>): set<T> {
    set x | x in list
  }

  lemma {:induction false} DistinctCount<T>(list: seq<T>)
    requires forall i, j :: 0 <= i < j < |list| ==> list[i] != list[j]
    ensures |Elems(list)| == |list|
  {
    if list == [] {
      assert Elems(list) == {};
    } else {
      var last := |list| - 1;
      DistinctCount(list[..last]);
      assert Elems(list) == Elems(list[..last]) + {list[last]} by {
        assert list == list[..last] + [list[last]];
      }
    }
  }

  /** Every finite set can be enumerated. */
  lemma {:induction false} SomeOrder<T>(keys: set<T>) returns (order: seq<T>)
    ensures Enumerates(order, keys)
  {
    order := [];
    if keys != {} {
      var key :| key in keys;
      var rest := SomeOrder(keys - {key});
      order := [key] + rest;
      forall i | 0 <= i < |rest| ensures rest[i] != key {
        assert rest[i] in Elems(rest);
      }
      assert Elems([key] + rest) == {key} + Elems(rest);
    }
  }

  /** One that starts with a given element. */
  lemma SomeOrderFrom<T>(first: T, keys: set<T>) returns (order: seq<T>, rest: seq<T>)
    requires first in keys
    ensures order == [first] + rest && Enumerates(order, keys)
  {
    rest := SomeOrder(keys - {first});
    order := [first] + rest;
    assert forall i :: 0 <= i < |rest| ==> rest[i] in Elems(rest);
    assert Elems(order) == {first} + Elems(rest);
  }
}
