/**
 What `LedgerNonceChecker` promises, on values: the sliding window of the nonces of the
 last `limit` blocks, kept once per block and once as a flat set.
 */
module NonceWindow {
  import opened TxPoolTypes

  datatype Window = Window(limit: int, number: int, cache: map<int, seq<Nonce>>, nonces: set<Nonce>)

  datatype Block = Block(id: int, nonces: seq<Nonce>)

  function Empty(limit: int): Window {
    Window(limit, 0, map[], {})
  }

  /** The block whose nonces expire when `id` arrives, -1 when there is none. */
  function Expiring(limit: int, id: int): int {
    if id > limit then id - limit else -1
  }

  function Max(a: int, b: int): int {
    if a < b then b else a
  }

  /** `batchInsert` of one block. */
  function Arrive(w: Window, b: Block): Window {
    var number := Max(w.number, b.id);
    var nonces := w.nonces + Elems(b.nonces);
    var cache := if b.id in w.cache then w.cache else w.cache[b.id := b.nonces];
    var gone := Expiring(w.limit, b.id);
    if gone == -1 || gone !in cache then
      Window(w.limit, number, cache, nonces)
    else
      Window(w.limit, number, cache - {gone}, nonces - Elems(cache[gone]))
  }

  function ArriveAll(w: Window, blocks: seq<Block>): Window {
    if blocks == [] then w
    else Arrive(ArriveAll(w, blocks[..|blocks| - 1]), blocks[|blocks| - 1])
  }

  function CheckBlockLimit(w: Window, blockLimit: int): (status: Status)
    ensures status == Ok || status == BlockLimitCheckFail
  {
    if w.number >= blockLimit || w.number + w.limit < blockLimit then BlockLimitCheckFail else Ok
  }

  /** `checkNonce`: first the nonce, then the block limit. */
  function Check(w: Window, nonce: Nonce, blockLimit: int): Status {
    if nonce in w.nonces then NonceCheckFail else CheckBlockLimit(w, blockLimit)
  }

  // ----- what every arrival keeps -----

  /** Some cached block holds the nonce. */
  ghost predicate Cached(w: Window, nonce: Nonce) {
    exists k :: k in w.cache && nonce in w.cache[k]
  }

  /** No two cached blocks share a nonce. */
  ghost predicate Separate(w: Window) {
    forall j, k, n :: j in w.cache && k in w.cache && n in w.cache[j] && n in w.cache[k] ==> j == k
  }

  /** The flat set is the union of the cached lists. */
  ghost predicate Flat(w: Window) {
    forall n :: n in w.nonces <==> Cached(w, n)
  }

  ghost predicate Coherent(w: Window) {
    w.limit >= 1 && Flat(w) && Separate(w) && forall k :: k in w.cache ==> k <= w.number
  }

  /** What the caller of `batchInsert` owes: a new block id, and nonces no live block holds. */
  ghost predicate Admissible(w: Window, b: Block) {
    b.id >= 1 && b.id !in w.cache && forall n :: n in b.nonces ==> !Cached(w, n)
  }

  lemma ArriveKeepsCoherent(w: Window, b: Block)
    requires Coherent(w) && Admissible(w, b)
    ensures Coherent(Arrive(w, b))
  {
    var r := Arrive(w, b);
    var full := w.cache[b.id := b.nonces];
    forall n ensures n in r.nonces <==> Cached(r, n) {
      if n in r.nonces {
        if n in b.nonces {
          assert b.id in r.cache && n in r.cache[b.id];
        } else {
          var k :| k in w.cache && n in w.cache[k];
          assert k in r.cache && n in r.cache[k];
        }
      }
      if Cached(r, n) {
        var k :| k in r.cache && n in r.cache[k];
        assert r.cache[k] == full[k];
        if k != b.id { assert Cached(w, n); }
      }
    }
    forall k, n | k in w.cache && n in b.nonces ensures n !in w.cache[k] {
      assert !Cached(w, n);
    }
  }

  /** A block that is notified again adds its nonces to the flat set only: the list kept is the first one. */
  lemma FirstListIsKept(w: Window, b: Block)
    requires w.limit >= 1 && b.id in w.cache
    ensures var r := Arrive(w, b); b.id in r.cache && r.cache[b.id] == w.cache[b.id]
  {
  }

  /** So notifying the same block twice is the same as notifying it once. */
  lemma ArriveTwice(w: Window, b: Block)
    requires Coherent(w) && Admissible(w, b)
    ensures Arrive(Arrive(w, b), b) == Arrive(w, b)
  {
    var r := Arrive(w, b);
    forall n | n in b.nonces ensures n in r.nonces {
      assert !Cached(w, n);
    }
    assert r.nonces + Elems(b.nonces) == r.nonces;
  }

  /** The nonces of block 0, if a node has them, are never forgotten: no arrival expires it. */
  lemma BlockZeroStays(w: Window, b: Block)
    requires Coherent(w) && Admissible(w, b) && 0 in w.cache
    ensures var r := Arrive(w, b);
            0 in r.cache && r.cache[0] == w.cache[0] && forall n :: n in w.cache[0] ==> n in r.nonces
  {
    forall n | n in w.cache[0] ensures Cached(w, n) {
    }
  }

  // ----- window refinement -----

  /** Every block of the list has its own id, counted from 1. */
  ghost predicate DistinctIds(blocks: seq<Block>) {
    && (forall i :: 0 <= i < |blocks| ==> blocks[i].id >= 1)
    && (forall i, j :: 0 <= i < j < |blocks| ==> blocks[i].id != blocks[j].id)
  }

  /** Block i of the list has arrived, and the block that evicts it has not arrived since. */
  ghost predicate Live(limit: int, blocks: seq<Block>, i: int)
    requires 0 <= i < |blocks|
  {
    forall j :: i < j < |blocks| ==> blocks[j].id != blocks[i].id + limit
  }

  /** Every arrival finds its nonces in no live block. */
  ghost predicate FreshNonces(limit: int, blocks: seq<Block>) {
    forall i, j, n :: 0 <= i < j < |blocks| && n in blocks[i].nonces && n in blocks[j].nonces ==>
      !Live(limit, blocks[..j], i)
  }

  ghost predicate LiveId(limit: int, blocks: seq<Block>, k: int) {
    exists i :: 0 <= i < |blocks| && blocks[i].id == k && Live(limit, blocks, i)
  }

  /** The per-block cache as a function of the arrivals alone. */
  ghost predicate HoldsLive(w: Window, blocks: seq<Block>) {
    && (forall k :: k in w.cache <==> LiveId(w.limit, blocks, k))
    && (forall i :: 0 <= i < |blocks| && blocks[i].id in w.cache ==> w.cache[blocks[i].id] == blocks[i].nonces)
  }

  lemma LiveIdStep(limit: int, pre: seq<Block>, b: Block, k: int)
    requires limit >= 1 && DistinctIds(pre + [b])
    ensures LiveId(limit, pre + [b], k) <==> k == b.id || (LiveId(limit, pre, k) && b.id != k + limit)
  {
    var blocks := pre + [b];
    if k == b.id {
      assert blocks[|pre|].id == k && Live(limit, blocks, |pre|);
    } else {
      if LiveId(limit, blocks, k) {
        var i :| 0 <= i < |blocks| && blocks[i].id == k && Live(limit, blocks, i);
        assert forall j :: i < j < |pre| ==> pre[j] == blocks[j];
        assert pre[i].id == k && Live(limit, pre, i);
        assert blocks[|pre|] == b;
      }
      if LiveId(limit, pre, k) && b.id != k + limit {
        var i :| 0 <= i < |pre| && pre[i].id == k && Live(limit, pre, i);
        assert blocks[i].id == k && Live(limit, blocks, i);
      }
    }
  }

  lemma HoldsLiveStep(w: Window, pre: seq<Block>, b: Block)
    requires w.limit >= 1 && HoldsLive(w, pre) && DistinctIds(pre + [b])
    ensures HoldsLive(Arrive(w, b), pre + [b])
  {
    var blocks := pre + [b];
    var r := Arrive(w, b);
    assert blocks[|pre|] == b;
    forall k ensures LiveId(w.limit, blocks, k) <==> k == b.id || (LiveId(w.limit, pre, k) && b.id != k + w.limit) {
      LiveIdStep(w.limit, pre, b, k);
    }
    assert !LiveId(w.limit, pre, b.id) by {
      assert forall i :: 0 <= i < |pre| ==> blocks[i] == pre[i];
    }
    forall k ensures k in r.cache <==> LiveId(w.limit, blocks, k) {
      if LiveId(w.limit, pre, k) {
        var i :| 0 <= i < |pre| && pre[i].id == k;
        assert blocks[i].id >= 1;
      }
    }
    forall i | 0 <= i < |blocks| && blocks[i].id in r.cache ensures r.cache[blocks[i].id] == blocks[i].nonces {
      if i < |pre| { assert pre[i] == blocks[i]; }
    }
  }

  lemma ArriveAllStep(w: Window, pre: seq<Block>, b: Block)
    ensures ArriveAll(w, pre + [b]) == Arrive(ArriveAll(w, pre), b)
    ensures ArriveAll(w, pre + [b]).limit == ArriveAll(w, pre).limit
  {
    assert (pre + [b])[..|pre|] == pre;
  }

  lemma {:induction false} CacheHoldsLiveBlocks(limit: int, blocks: seq<Block>)
    requires limit >= 1 && DistinctIds(blocks)
    ensures ArriveAll(Empty(limit), blocks).limit == limit && HoldsLive(ArriveAll(Empty(limit), blocks), blocks)
  {
    if blocks != [] {
      var pre, b := blocks[..|blocks| - 1], blocks[|blocks| - 1];
      assert blocks == pre + [b];
      CacheHoldsLiveBlocks(limit, pre);
      ArriveAllStep(Empty(limit), pre, b);
      HoldsLiveStep(ArriveAll(Empty(limit), pre), pre, b);
    }
  }

  lemma FreshIsAdmissible(w: Window, pre: seq<Block>, b: Block)
    requires w.limit >= 1 && HoldsLive(w, pre) && DistinctIds(pre + [b]) && FreshNonces(w.limit, pre + [b])
    ensures Admissible(w, b)
  {
    var blocks := pre + [b];
    assert blocks[|pre|] == b && blocks[..|pre|] == pre;
    assert forall i :: 0 <= i < |pre| ==> blocks[i] == pre[i];
    assert !LiveId(w.limit, pre, b.id);
    forall n, k | n in b.nonces && k in w.cache ensures n !in w.cache[k] {
      assert LiveId(w.limit, pre, k);
      var i :| 0 <= i < |pre| && pre[i].id == k && Live(w.limit, pre, i);
      assert blocks[i].nonces == w.cache[k];
      assert n in blocks[|pre|].nonces;
    }
  }

  lemma FreshPrefix(limit: int, pre: seq<Block>, b: Block)
    requires FreshNonces(limit, pre + [b])
    ensures FreshNonces(limit, pre)
  {
    var blocks := pre + [b];
    forall i, j, n | 0 <= i < j < |pre| && n in pre[i].nonces && n in pre[j].nonces ensures !Live(limit, pre[..j], i) {
      assert n in blocks[i].nonces && n in blocks[j].nonces;
      assert pre[..j] == blocks[..j];
    }
  }

  /** The window refinement: per-block cache and flat set, over any arrival order. */
  lemma {:induction false} WindowRefinement(limit: int, blocks: seq<Block>)
    requires limit >= 1 && DistinctIds(blocks) && FreshNonces(limit, blocks)
    ensures var w := ArriveAll(Empty(limit), blocks); w.limit == limit && HoldsLive(w, blocks) && Coherent(w)
  {
    CacheHoldsLiveBlocks(limit, blocks);
    if blocks != [] {
      var pre, b := blocks[..|blocks| - 1], blocks[|blocks| - 1];
      assert blocks == pre + [b];
      FreshPrefix(limit, pre, b);
      WindowRefinement(limit, pre);
      ArriveAllStep(Empty(limit), pre, b);
      FreshIsAdmissible(ArriveAll(Empty(limit), pre), pre, b);
      ArriveKeepsCoherent(ArriveAll(Empty(limit), pre), b);
    }
  }

  /** The flat set is exactly the nonces of the live arrivals. */
  lemma FlatSetHoldsLiveNonces(limit: int, blocks: seq<Block>, nonce: Nonce)
    requires limit >= 1 && DistinctIds(blocks) && FreshNonces(limit, blocks)
    ensures nonce in ArriveAll(Empty(limit), blocks).nonces <==>
            exists i :: 0 <= i < |blocks| && Live(limit, blocks, i) && nonce in blocks[i].nonces
  {
    WindowRefinement(limit, blocks);
    var w := ArriveAll(Empty(limit), blocks);
    if nonce in w.nonces {
      assert Cached(w, nonce);
      var k :| k in w.cache && nonce in w.cache[k];
      assert LiveId(limit, blocks, k);
    }
    if i :| 0 <= i < |blocks| && Live(limit, blocks, i) && nonce in blocks[i].nonces {
      assert LiveId(limit, blocks, blocks[i].id);
      assert Cached(w, nonce);
    }
  }

  /** Block k arrives before block k + limit, whenever both arrive. */
  ghost predicate Timely(limit: int, blocks: seq<Block>) {
    forall i, j :: 0 <= i < |blocks| && 0 <= j < |blocks| && blocks[j].id == blocks[i].id + limit ==> i < j
  }

  lemma TimelyCache(limit: int, blocks: seq<Block>, k: int)
    requires limit >= 1 && DistinctIds(blocks) && Timely(limit, blocks)
    ensures k in ArriveAll(Empty(limit), blocks).cache <==>
            && (exists i :: 0 <= i < |blocks| && blocks[i].id == k)
            && (forall j :: 0 <= j < |blocks| ==> blocks[j].id != k + limit)
  {
    CacheHoldsLiveBlocks(limit, blocks);
    assert k in ArriveAll(Empty(limit), blocks).cache <==> LiveId(limit, blocks, k);
  }

  /** The blocks of a chain, numbered from 1. */
  function Numbered(chain: seq<seq<Nonce>>): seq<Block> {
    seq(|chain|, i requires 0 <= i < |chain| => Block(i + 1, chain[i]))
  }

  /** No two blocks at most `limit` apart share a nonce. */
  ghost predicate SpacedNonces(limit: int, chain: seq<seq<Nonce>>) {
    forall i, j, n :: 0 <= i < j < |chain| && j <= i + limit && n in chain[i] && n in chain[j] ==> false
  }

  lemma SpacedIsFresh(limit: int, chain: seq<seq<Nonce>>)
    requires limit >= 1 && SpacedNonces(limit, chain)
    ensures DistinctIds(Numbered(chain)) && FreshNonces(limit, Numbered(chain)) && Timely(limit, Numbered(chain))
  {
    var blocks := Numbered(chain);
    forall i, j, n | 0 <= i < j < |blocks| && n in blocks[i].nonces && n in blocks[j].nonces
      ensures !Live(limit, blocks[..j], i)
    {
      assert blocks[..j][i + limit].id == blocks[..j][i].id + limit;
    }
  }

  lemma NumberedIds(limit: int, chain: seq<seq<Nonce>>, k: int)
    requires limit >= 1
    ensures var blocks := Numbered(chain);
            && ((exists i :: 0 <= i < |blocks| && blocks[i].id == k) <==> 1 <= k <= |chain|)
            && ((forall j :: 0 <= j < |blocks| ==> blocks[j].id != k + limit) <==> !(1 <= k + limit <= |chain|))
  {
    var blocks := Numbered(chain);
    if 1 <= k <= |chain| { assert blocks[k - 1].id == k; }
    if 1 <= k + limit <= |chain| { assert blocks[k + limit - 1].id == k + limit; }
  }

  /** On a chain of heights 1, 2, .. the window is the last `limit` blocks. */
  lemma ContiguousCache(limit: int, chain: seq<seq<Nonce>>, k: int)
    requires limit >= 1 && SpacedNonces(limit, chain)
    ensures var cache := ArriveAll(Empty(limit), Numbered(chain)).cache;
            && (k in cache <==> Max(1, |chain| - limit + 1) <= k <= |chain|)
            && (k in cache && 1 <= k <= |chain| ==> cache[k] == chain[k - 1])
  {
    SpacedIsFresh(limit, chain);
    TimelyCache(limit, Numbered(chain), k);
    NumberedIds(limit, chain, k);
    if 1 <= k <= |chain| && k in ArriveAll(Empty(limit), Numbered(chain)).cache {
      CacheHoldsLiveBlocks(limit, Numbered(chain));
      assert Numbered(chain)[k - 1] == Block(k, chain[k - 1]);
    }
  }

  lemma {:induction false} ContiguousNumber(limit: int, chain: seq<seq<Nonce>>)
    requires limit >= 1
    ensures ArriveAll(Empty(limit), Numbered(chain)).number == |chain|
  {
    if chain != [] {
      var last := |chain| - 1;
      assert Numbered(chain) == Numbered(chain[..last]) + [Block(last + 1, chain[last])];
      ContiguousNumber(limit, chain[..last]);
      ArriveAllStep(Empty(limit), Numbered(chain[..last]), Block(last + 1, chain[last]));
    }
  }

  lemma ContiguousWindow(limit: int, chain: seq<seq<Nonce>>)
    requires limit >= 1 && SpacedNonces(limit, chain)
    ensures var w := ArriveAll(Empty(limit), Numbered(chain));
            && Coherent(w) && w.limit == limit && w.number == |chain| && |w.cache| <= limit
  {
    var w := ArriveAll(Empty(limit), Numbered(chain));
    SpacedIsFresh(limit, chain);
    WindowRefinement(limit, Numbered(chain));
    ContiguousNumber(limit, chain);
    forall k ensures k in w.cache.Keys ==> |chain| - limit + 1 <= k < |chain| + 1 {
      ContiguousCache(limit, chain, k);
    }
    KeysInInterval(w.cache.Keys, |chain| - limit + 1, |chain| + 1);
  }

  lemma KeysInInterval(keys: set<int>, lo: int, hi: int)
    requires lo <= hi && forall k :: k in keys ==> lo <= k < hi
    ensures |keys| <= hi - lo
  {
    var all := Interval(lo, hi);
    assert all == keys + (all - keys);
  }

  function Interval(lo: int, hi: int): (r: set<int>)
    ensures forall k :: k in r <==> lo <= k < hi
    ensures |r| == Max(0, hi - lo)
    decreases hi - lo
  {
    if hi <= lo then {} else Interval(lo, hi - 1) + {hi - 1}
  }

  // ----- the window a restart loads -----

  /** First block whose nonces `TxPool::init` fetches, 0 when it fetches none. */
  function StartNumber(height: int, limit: int): int {
    if height > limit then height - limit + 1 else 0
  }

  function FetchedSize(height: int, limit: int): int {
    var span := height - StartNumber(height, limit) + 1;
    if limit < span then limit else span
  }

  /** What the ledger answers for a set of heights of the chain. */
  function FetchNonceList(chain: seq<seq<Nonce>>, heights: set<int>): map<int, seq<Nonce>>
    requires forall k :: k in heights ==> 1 <= k <= |chain|
  {
    map k | k in heights :: chain[k - 1]
  }

  /** The window of a node that starts on a chain of `|chain|` blocks. */
  function Restarted(limit: int, chain: seq<seq<Nonce>>): Window
    requires limit >= 1
  {
    var start := StartNumber(|chain|, limit);
    var cache :=
      if start > 0 then
        FetchNonceList(chain, Interval(start, start + FetchedSize(|chain|, limit)))
      else map[];
    Window(limit, |chain|, cache, set k, n | k in cache && n in cache[k] :: n)
  }

  lemma SameWindow(r: Window, w: Window)
    requires r.limit == w.limit && r.number == w.number && r.cache == w.cache && Flat(r) && Flat(w)
    ensures r == w
  {
    forall n ensures n in r.nonces <==> n in w.nonces {
      assert Cached(r, n) <==> Cached(w, n);
    }
    assert r.nonces == w.nonces;
  }

  lemma RestartedCache(limit: int, chain: seq<seq<Nonce>>, k: int)
    requires limit >= 1 && |chain| > limit
    ensures var r := Restarted(limit, chain);
            && (k in r.cache <==> |chain| - limit + 1 <= k <= |chain|)
            && (k in r.cache ==> 1 <= k <= |chain| && r.cache[k] == chain[k - 1])
  {
  }

  lemma RestartedFlat(limit: int, chain: seq<seq<Nonce>>)
    requires limit >= 1
    ensures Flat(Restarted(limit, chain))
  {
  }

  lemma SameCacheAt(limit: int, chain: seq<seq<Nonce>>, k: int)
    requires limit >= 1 && |chain| > limit && SpacedNonces(limit, chain)
    ensures var r, w := Restarted(limit, chain), ArriveAll(Empty(limit), Numbered(chain));
            (k in r.cache <==> k in w.cache) && (k in r.cache ==> r.cache[k] == w.cache[k])
  {
    RestartedCache(limit, chain, k);
    ContiguousCache(limit, chain, k);
  }

  lemma RestartLoadsContiguous(limit: int, chain: seq<seq<Nonce>>)
    requires limit >= 1 && |chain| > limit && SpacedNonces(limit, chain)
    ensures Restarted(limit, chain) == ArriveAll(Empty(limit), Numbered(chain))
  {
    var r, w := Restarted(limit, chain), ArriveAll(Empty(limit), Numbered(chain));
    ContiguousWindow(limit, chain);
    RestartedFlat(limit, chain);
    assert r.cache == w.cache by {
      forall k ensures (k in r.cache <==> k in w.cache) && (k in r.cache ==> r.cache[k] == w.cache[k]) {
        SameCacheAt(limit, chain, k);
      }
    }
    SameWindow(r, w);
  }

  /**
   A restart gives the window of the uninterrupted node exactly when the chain is empty or longer
   than the window.
   */
  lemma RestartRestoresWindow(limit: int, chain: seq<seq<Nonce>>)
    requires limit >= 1 && SpacedNonces(limit, chain)
    ensures Restarted(limit, chain) == ArriveAll(Empty(limit), Numbered(chain)) <==> |chain| == 0 || |chain| > limit
  {
    if |chain| > limit {
      RestartLoadsContiguous(limit, chain);
    } else if |chain| == 0 {
      assert Numbered(chain) == [];
      assert Restarted(limit, chain).cache == map[];
    } else {
      assert Restarted(limit, chain).cache == map[];
      ContiguousCache(limit, chain, |chain|);
    }
  }

  /** A restart on a short chain forgets every nonce on it. */
  lemma RestartForgets(limit: int, chain: seq<seq<Nonce>>, nonce: Nonce, blockLimit: int)
    requires 1 <= |chain| <= limit
    ensures Check(Restarted(limit, chain), nonce, blockLimit) == Ok <==> |chain| < blockLimit <= |chain| + limit
  {
    assert Restarted(limit, chain).cache == map[];
  }

  // ----- replay -----

  /** The nonce of block c is still in the window, or the chain has moved past every block limit c allows. */
  ghost predicate Guarded(w: Window, nonce: Nonce, c: int) {
    w.number >= c + w.limit || (c in w.cache && nonce in w.cache[c])
  }

  lemma ArrivalGuards(w: Window, b: Block, nonce: Nonce)
    requires Coherent(w) && Admissible(w, b)
    ensures nonce in b.nonces ==> Guarded(Arrive(w, b), nonce, b.id)
    ensures forall c :: Guarded(w, nonce, c) ==> Guarded(Arrive(w, b), nonce, c)
  {
  }

  lemma GuardRejects(w: Window, nonce: Nonce, c: int, blockLimit: int)
    requires Coherent(w) && Guarded(w, nonce, c) && blockLimit <= c + w.limit
    ensures Check(w, nonce, blockLimit) != Ok
  {
    if c in w.cache && nonce in w.cache[c] { assert Cached(w, nonce); }
  }

  ghost predicate AllAdmissible(w: Window, blocks: seq<Block>) {
    forall i :: 0 <= i < |blocks| ==> Admissible(ArriveAll(w, blocks[..i]), blocks[i])
  }

  lemma GuardStep(w: Window, pre: seq<Block>, b: Block, nonce: Nonce, c: int)
    requires var v := ArriveAll(w, pre); Coherent(v) && v.limit == w.limit && Guarded(v, nonce, c) && Admissible(v, b)
    ensures var v := ArriveAll(w, pre + [b]); Coherent(v) && v.limit == w.limit && Guarded(v, nonce, c)
  {
    ArriveAllStep(w, pre, b);
    ArrivalGuards(ArriveAll(w, pre), b, nonce);
    ArriveKeepsCoherent(ArriveAll(w, pre), b);
  }

  lemma {:induction false} GuardLasts(w: Window, blocks: seq<Block>, nonce: Nonce, c: int)
    requires Coherent(w) && AllAdmissible(w, blocks) && Guarded(w, nonce, c)
    ensures var v := ArriveAll(w, blocks); Coherent(v) && v.limit == w.limit && Guarded(v, nonce, c)
  {
    if blocks != [] {
      var pre, b := blocks[..|blocks| - 1], blocks[|blocks| - 1];
      assert blocks == pre + [b];
      AllAdmissibleStep(w, pre, b);
      GuardLasts(w, pre, nonce, c);
      GuardStep(w, pre, b, nonce, c);
    }
  }

  /** What a run of empty blocks after block c makes of the window w. */
  ghost predicate Outlasted(w: Window, v: Window, c: int, m: int) {
    && Coherent(v) && v.limit == w.limit && v.number == m
    && (forall k :: k in v.cache ==> v.cache[k] == [] || (k in w.cache && v.cache[k] == w.cache[k]))
    && (c in v.cache <==> m < c + w.limit)
  }

  lemma EmptyArrival(w: Window, v: Window, c: int, m: int)
    requires Outlasted(w, v, c, m) && c >= 1 && m >= c
    ensures Admissible(v, Block(m + 1, [])) && Outlasted(w, Arrive(v, Block(m + 1, [])), c, m + 1)
  {
    ArriveKeepsCoherent(v, Block(m + 1, []));
  }

  lemma AllAdmissibleStep(w: Window, pre: seq<Block>, b: Block)
    ensures AllAdmissible(w, pre + [b]) <==> AllAdmissible(w, pre) && Admissible(ArriveAll(w, pre), b)
  {
    var blocks := pre + [b];
    assert blocks[..|pre|] == pre && blocks[|pre|] == b;
    forall i | 0 <= i < |pre| ensures blocks[..i] == pre[..i] && blocks[i] == pre[i] {}
  }

  /** A continuation that can follow w, and what it makes of w. */
  ghost predicate Continues(w: Window, blocks: seq<Block>, v: Window) {
    AllAdmissible(w, blocks) && v == ArriveAll(w, blocks)
  }

  lemma ContinuesNone(w: Window)
    ensures Continues(w, [], w)
  {
  }

  lemma ContinuesStep(w: Window, blocks: seq<Block>, v: Window, b: Block)
    requires Continues(w, blocks, v) && Admissible(v, b)
    ensures Continues(w, blocks + [b], Arrive(v, b))
  {
    ArriveAllStep(w, blocks, b);
    AllAdmissibleStep(w, blocks, b);
  }

  /** Blocks c + 1 .. m without nonces can always follow block c. */
  lemma {:induction false} EmptyBlocks(w: Window, c: int, m: int) returns (blocks: seq<Block>, v: Window)
    requires Coherent(w) && w.number == c && c >= 1 && c in w.cache && m >= c
    ensures Continues(w, blocks, v) && Outlasted(w, v, c, m)
    decreases m - c
  {
    hide Continues, Arrive, Admissible;
    blocks, v := [], w;
    ContinuesNone(w);
    if m > c {
      blocks, v := EmptyBlocks(w, c, m - 1);
      EmptyArrival(w, v, c, m - 1);
      ContinuesStep(w, blocks, v, Block(m, []));
      blocks, v := blocks + [Block(m, [])], Arrive(v, Block(m, []));
    }
  }

  lemma OutlastedForgets(w: Window, v: Window, c: int, m: int, nonce: Nonce)
    requires Coherent(w) && Outlasted(w, v, c, m) && c in w.cache && nonce in w.cache[c] && m >= c + w.limit
    ensures nonce !in v.nonces
  {
    forall k | k in v.cache ensures nonce !in v.cache[k] {
      assert k != c;
    }
  }

  /**
   Replay safety of the window, with its exact bound: once block b with the nonce has arrived, no
   continuation lets a transaction with that nonce and block limit pass, if and only if its
   block limit is at most b.id + limit.
   */
  lemma ReplayBlockedExactly(w: Window, b: Block, nonce: Nonce, blockLimit: int)
    requires Coherent(w) && Admissible(w, b) && b.id > w.number && nonce in b.nonces
    ensures (forall later :: AllAdmissible(Arrive(w, b), later) ==>
               Check(ArriveAll(Arrive(w, b), later), nonce, blockLimit) != Ok)
            <==> blockLimit <= b.id + w.limit
  {
    var v := Arrive(w, b);
    ArriveKeepsCoherent(w, b);
    ArrivalGuards(w, b, nonce);
    if blockLimit <= b.id + w.limit {
      forall later | AllAdmissible(v, later) ensures Check(ArriveAll(v, later), nonce, blockLimit) != Ok {
        GuardLasts(v, later, nonce, b.id);
        GuardRejects(ArriveAll(v, later), nonce, b.id, blockLimit);
      }
    } else {
      var later, u := EmptyBlocks(v, b.id, blockLimit - 1);
      OutlastedForgets(v, u, b.id, blockLimit - 1, nonce);
      assert Check(ArriveAll(v, later), nonce, blockLimit) == Ok;
    }
  }

  // ----- a nonce that returns inside the window -----

  /** The oldest live block with the nonce, once b has arrived: one cached before b, else b itself. */
  ghost predicate Oldest(w: Window, b: Block, nonce: Nonce, c: int) {
    if Cached(w, nonce) then c in w.cache && nonce in w.cache[c] else c == b.id
  }

  /** The nonce is remembered on account of block c, and at most d holds it besides; or the chain is past c. */
  ghost predicate HeldFrom(v: Window, nonce: Nonce, c: int, d: int) {
    v.number >= c + v.limit ||
    (c in v.cache && nonce in v.cache[c] && nonce in v.nonces &&
     forall j :: j in v.cache && nonce in v.cache[j] ==> j == c || j == d)
  }

  lemma ReturnIsHeld(w: Window, b: Block, nonce: Nonce, c: int)
    requires Coherent(w) && b.id > w.number && nonce in b.nonces && Oldest(w, b, nonce, c)
    ensures HeldFrom(Arrive(w, b), nonce, c, b.id) && c <= b.id
  {
    if Cached(w, nonce) {
      assert forall j :: j in w.cache && nonce in w.cache[j] ==> j == c;
    }
  }

  lemma ArrivalHolds(v: Window, b: Block, nonce: Nonce, c: int, d: int)
    requires v.limit >= 1 && c <= d && HeldFrom(v, nonce, c, d) && Admissible(v, b)
    ensures HeldFrom(Arrive(v, b), nonce, c, d)
  {
    if v.number < c + v.limit { assert Cached(v, nonce); }
  }

  lemma {:induction false} HeldLasts(w: Window, blocks: seq<Block>, nonce: Nonce, c: int, d: int)
    requires w.limit >= 1 && c <= d && HeldFrom(w, nonce, c, d) && AllAdmissible(w, blocks)
    ensures var v := ArriveAll(w, blocks); v.limit == w.limit && HeldFrom(v, nonce, c, d)
  {
    if blocks != [] {
      var pre, b := blocks[..|blocks| - 1], blocks[|blocks| - 1];
      assert blocks == pre + [b];
      AllAdmissibleStep(w, pre, b);
      HeldLasts(w, pre, nonce, c, d);
      ArrivalHolds(ArriveAll(w, pre), b, nonce, c, d);
    }
  }

  /** At height m, on empty blocks: the nonce is dropped with block c, when block c + limit arrives. */
  ghost predicate DropsWith(v: Window, nonce: Nonce, c: int, m: int) {
    && v.number == m && (forall k :: k in v.cache ==> k <= m)
    && (if m < c + v.limit then c in v.cache && nonce in v.cache[c] else nonce !in v.nonces)
  }

  lemma EmptyArrivalDrops(v: Window, nonce: Nonce, c: int, m: int)
    requires v.limit >= 1 && c >= 1 && m >= 0 && DropsWith(v, nonce, c, m)
    ensures var u := Arrive(v, Block(m + 1, []));
            Admissible(v, Block(m + 1, [])) && DropsWith(u, nonce, c, m + 1) && u.limit == v.limit
  {
  }

  lemma {:induction false} EmptyBlocksDrop(w: Window, nonce: Nonce, c: int, m: int)
    returns (blocks: seq<Block>, v: Window)
    requires w.limit >= 1 && c >= 1 && m >= w.number >= 0 && DropsWith(w, nonce, c, w.number)
    ensures Continues(w, blocks, v) && v.limit == w.limit && DropsWith(v, nonce, c, m)
    decreases m - w.number
  {
    hide Continues, Arrive, Admissible, DropsWith;
    blocks, v := [], w;
    ContinuesNone(w);
    if m > w.number {
      blocks, v := EmptyBlocksDrop(w, nonce, c, m - 1);
      EmptyArrivalDrops(v, nonce, c, m - 1);
      ContinuesStep(w, blocks, v, Block(m, []));
      blocks, v := blocks + [Block(m, [])], Arrive(v, Block(m, []));
    }
  }

  /**
   Replay safety with the bound that holds for any nonces: once b with the nonce has arrived, no continuation
   lets it pass, if and only if the block limit is at most c + limit, for the oldest live block c that has it.
   The oldest block must not be overdue: block c + limit has not been skipped.
   */
  lemma ReplayBlockedFromOldest(w: Window, b: Block, nonce: Nonce, c: int, blockLimit: int)
    requires Coherent(w) && b.id > w.number && b.id >= 1 && nonce in b.nonces
    requires Oldest(w, b, nonce, c) && c >= 1 && b.id <= c + w.limit
    ensures (forall later :: AllAdmissible(Arrive(w, b), later) ==>
               Check(ArriveAll(Arrive(w, b), later), nonce, blockLimit) != Ok)
            <==> blockLimit <= c + w.limit
  {
    var v := Arrive(w, b);
    ReturnIsHeld(w, b, nonce, c);
    if blockLimit <= c + w.limit {
      forall later | AllAdmissible(v, later) ensures Check(ArriveAll(v, later), nonce, blockLimit) != Ok {
        HeldLasts(v, later, nonce, c, b.id);
      }
    } else {
      var later, u := EmptyBlocksDrop(v, nonce, c, blockLimit - 1);
      assert Check(ArriveAll(v, later), nonce, blockLimit) == Ok;
    }
  }

  /**
   The freshness of nonces is needed, exactly: block b keeps the promise of the window, up to b.id + limit,
   for one of its nonces if and only if no live block had the nonce before. A nonce that returns inside the
   window is forgotten with its first occurrence, although b is still cached.
   */
  lemma RepeatedNonceReplays(w: Window, b: Block, nonce: Nonce)
    requires Coherent(w) && b.id > w.number && b.id >= 1 && nonce in b.nonces
    requires forall k :: k in w.cache && nonce in w.cache[k] ==> 1 <= k && b.id <= k + w.limit
    ensures (forall later :: AllAdmissible(Arrive(w, b), later) ==>
               Check(ArriveAll(Arrive(w, b), later), nonce, b.id + w.limit) != Ok)
            <==> !Cached(w, nonce)
  {
    var c := b.id;
    if Cached(w, nonce) {
      c :| c in w.cache && nonce in w.cache[c];
    }
    ReplayBlockedFromOldest(w, b, nonce, c, b.id + w.limit);
  }

  /** The smallest case: with a window of three blocks, a nonce of blocks 1 and 3 passes again after block 4. */
  lemma RepeatedNonceExample(nonce: Nonce)
    ensures var w := ArriveAll(Empty(3), [Block(1, [nonce]), Block(2, []), Block(3, [nonce]), Block(4, [])]);
            3 in w.cache && w.cache[3] == [nonce] && Check(w, nonce, 5) == Ok
  {
    var b1, b2, b3, b4 := Block(1, [nonce]), Block(2, []), Block(3, [nonce]), Block(4, []);
    var w := Empty(3);
    ArriveAllStep(w, [], b1);
    ArriveAllStep(w, [b1], b2);
    ArriveAllStep(w, [b1, b2], b3);
    ArriveAllStep(w, [b1, b2, b3], b4);
    assert [] + [b1] == [b1] && [b1] + [b2] == [b1, b2] && [b1, b2] + [b3] == [b1, b2, b3];
    assert [b1, b2, b3] + [b4] == [b1, b2, b3, b4];
    assert nonce in Elems([nonce]);
  }
}
