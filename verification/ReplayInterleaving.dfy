/**
 `LedgerNonceChecker` under concurrency, in small steps: one committer in `batchInsert`, any number of
 threads in `checkNonce`, interleaved in any way.

 `batchInsert` raises the block number, adds the nonces one by one, stores the list and then drops
 the expired one; `checkNonce` looks the nonce up and only then loads the block number. With these
 two orders a check that starts after the nonces of a block were added never lets them pass again.
 */
module ReplayInterleaving {
  import opened TxPoolTypes
  import opened NonceWindow

  datatype Committer =
    | Idle
    | Adding(block: Block, added: nat)
    | Dropping(block: Block)

  /** A thread in `checkNonce`; `seen` are the blocks whose nonces had all been added when it started. */
  datatype Checker =
    | Looking(nonce: Nonce, blockLimit: int, seen: set<int>)
    | Loading(nonce: Nonce, blockLimit: int, seen: set<int>)
    | Answered(nonce: Nonce, blockLimit: int, seen: set<int>, status: Status)

  datatype State = State(
    w: Window,
    committer: Committer,
    history: map<int, seq<Nonce>>,
    checkers: map<nat, Checker>)

  datatype Step =
    | Begin(block: Block)
    | Add
    | Store
    | Drop
    | Start(k: nat, nonce: Nonce, blockLimit: int)
    | Lookup(k: nat)
    | Load(k: nat)

  /** The blocks whose nonces have all been added. */
  function Added(s: State): set<int> {
    if s.committer.Adding? && s.committer.added < |s.committer.block.nonces| then
      s.history.Keys - {s.committer.block.id}
    else s.history.Keys
  }

  ghost predicate CanStep(s: State, step: Step) {
    match step
    case Begin(b) => s.committer.Idle? && b.id !in s.history && Admissible(s.w, b)
    case Add => s.committer.Adding? && s.committer.added < |s.committer.block.nonces|
    case Store => s.committer.Adding? && s.committer.added == |s.committer.block.nonces|
    case Drop => s.committer.Dropping?
    case Start(k, _, _) => k in s.checkers ==> s.checkers[k].Answered?
    case Lookup(k) => k in s.checkers && s.checkers[k].Looking?
    case Load(k) => k in s.checkers && s.checkers[k].Loading?
  }

  function WithNonces(w: Window, nonces: set<Nonce>): Window {
    Window(w.limit, w.number, w.cache, nonces)
  }

  function StoreBlock(w: Window, b: Block): Window {
    if b.id in w.cache then w else Window(w.limit, w.number, w.cache[b.id := b.nonces], w.nonces)
  }

  function DropExpiring(w: Window, b: Block): Window {
    var gone := Expiring(w.limit, b.id);
    if gone == -1 || gone !in w.cache then w
    else Window(w.limit, w.number, w.cache - {gone}, w.nonces - Elems(w.cache[gone]))
  }

  function Raise(w: Window, b: Block): Window {
    Window(w.limit, Max(w.number, b.id), w.cache, w.nonces)
  }

  function LookedUp(s: State, c: Checker): Checker {
    if c.nonce in s.w.nonces then Answered(c.nonce, c.blockLimit, c.seen, NonceCheckFail)
    else Loading(c.nonce, c.blockLimit, c.seen)
  }

  function Loaded(s: State, c: Checker): Checker {
    Answered(c.nonce, c.blockLimit, c.seen, CheckBlockLimit(s.w, c.blockLimit))
  }

  function Next(s: State, step: Step): State
    requires CanStep(s, step)
  {
    match step
    case Begin(b) =>
      State(Raise(s.w, b), Adding(b, 0), s.history[b.id := b.nonces], s.checkers)
    case Add =>
      var Adding(b, i) := s.committer;
      State(WithNonces(s.w, s.w.nonces + {b.nonces[i]}), Adding(b, i + 1), s.history, s.checkers)
    case Store =>
      State(StoreBlock(s.w, s.committer.block), Dropping(s.committer.block), s.history, s.checkers)
    case Drop =>
      State(DropExpiring(s.w, s.committer.block), Idle, s.history, s.checkers)
    case Start(k, nonce, blockLimit) =>
      s.(checkers := s.checkers[k := Looking(nonce, blockLimit, Added(s))])
    case Lookup(k) =>
      s.(checkers := s.checkers[k := LookedUp(s, s.checkers[k])])
    case Load(k) =>
      s.(checkers := s.checkers[k := Loaded(s, s.checkers[k])])
  }

  // ----- the invariant -----

  /** The chain has moved past every block limit that block c allows. */
  predicate Past(s: State, c: int) {
    s.w.number >= c + s.w.limit
  }

  ghost predicate CacheOk(s: State) {
    && s.w.limit >= 1
    && Separate(s.w)
    && (forall k :: k in s.w.cache ==> k in s.history && s.w.cache[k] == s.history[k])
    && (forall k, n :: k in s.w.cache && n in s.w.cache[k] ==> n in s.w.nonces)
    && (forall c :: c in s.history ==>
        c in s.w.cache || Past(s, c) || (s.committer.Adding? && s.committer.block.id == c))
  }

  ghost predicate CommitterOk(s: State) {
    && (!s.committer.Idle? ==>
        var b := s.committer.block; b.id in s.history && s.history[b.id] == b.nonces && s.w.number >= b.id)
    && (s.committer.Adding? ==>
        var b := s.committer.block;
        && b.id !in s.w.cache
        && s.committer.added <= |b.nonces|
        && (forall n :: n in b.nonces ==> !Cached(s.w, n))
        && (forall i :: 0 <= i < s.committer.added ==> b.nonces[i] in s.w.nonces))
    && (s.committer.Dropping? ==> s.committer.block.id in s.w.cache)
  }

  /** The verdict owed to a check that has seen block c. */
  ghost predicate CheckerOk(s: State, r: Checker) {
    && r.seen <= Added(s)
    && (r.Loading? ==> forall c :: c in r.seen && r.nonce in s.history[c] ==> Past(s, c))
    && (r.Answered? && r.status == Ok ==>
        forall c :: c in r.seen && r.nonce in s.history[c] ==> r.blockLimit > c + s.w.limit)
  }

  ghost predicate CheckersOk(s: State) {
    forall k :: k in s.checkers ==> CheckerOk(s, s.checkers[k])
  }

  ghost predicate Safe(s: State) {
    CacheOk(s) && CommitterOk(s) && CheckersOk(s)
  }

  /** Every nonce of a fully added block is still in the set, or its block is past. */
  lemma AddedIsRetained(s: State, c: int, n: Nonce)
    requires CacheOk(s) && CommitterOk(s) && c in Added(s) && n in s.history[c]
    ensures n in s.w.nonces || Past(s, c)
  {
    if c !in s.w.cache && !Past(s, c) {
      var i :| 0 <= i < |s.committer.block.nonces| && s.committer.block.nonces[i] == n;
    }
  }

  lemma BeginIsSafe(s: State, b: Block)
    requires Safe(s) && CanStep(s, Begin(b))
    ensures Safe(Next(s, Begin(b)))
  {
    var t := Next(s, Begin(b));
    assert forall n :: Cached(t.w, n) <==> Cached(s.w, n);
    CheckersSurvive(s, t);
  }

  /** Blocks stay added, and past blocks stay past: what checkers know is not lost. */
  lemma CheckersSurvive(s: State, t: State)
    requires CheckersOk(s) && t.checkers == s.checkers && Added(s) <= Added(t)
    requires t.w.limit == s.w.limit && t.w.number >= s.w.number
    requires forall c :: c in Added(s) ==> c in s.history && c in t.history && t.history[c] == s.history[c]
    ensures CheckersOk(t)
  {
    forall k | k in t.checkers ensures CheckerOk(t, t.checkers[k]) {
      assert CheckerOk(s, s.checkers[k]);
    }
  }

  lemma AddIsSafe(s: State)
    requires Safe(s) && CanStep(s, Add)
    ensures Safe(Next(s, Add))
  {
    var t := Next(s, Add);
    assert forall n :: Cached(t.w, n) <==> Cached(s.w, n);
    CheckersSurvive(s, t);
  }

  lemma StoreIsSafe(s: State)
    requires Safe(s) && CanStep(s, Store)
    ensures Safe(Next(s, Store))
  {
    var t, b := Next(s, Store), s.committer.block;
    forall k, n | k in s.w.cache && n in b.nonces ensures n !in s.w.cache[k] {
      assert !Cached(s.w, n);
    }
    CheckersSurvive(s, t);
  }

  lemma DropIsSafe(s: State)
    requires Safe(s) && CanStep(s, Drop)
    ensures Safe(Next(s, Drop))
  {
    CheckersSurvive(s, Next(s, Drop));
  }

  lemma CheckStepIsSafe(s: State, step: Step)
    requires Safe(s) && CanStep(s, step) && (step.Start? || step.Lookup? || step.Load?)
    ensures Safe(Next(s, step))
  {
    var t := Next(s, step);
    assert Added(t) == Added(s);
    if step.Lookup? {
      forall c | c in s.checkers[step.k].seen && s.checkers[step.k].nonce in s.history[c]
        ensures s.checkers[step.k].nonce in s.w.nonces || Past(s, c)
      {
        assert CheckerOk(s, s.checkers[step.k]);
        AddedIsRetained(s, c, s.checkers[step.k].nonce);
      }
    }
    forall k | k in t.checkers ensures CheckerOk(t, t.checkers[k]) {
      if k in s.checkers { assert CheckerOk(s, s.checkers[k]); }
    }
  }

  lemma StepIsSafe(s: State, step: Step)
    requires Safe(s) && CanStep(s, step)
    ensures Safe(Next(s, step))
  {
    match step
    case Begin(b) => BeginIsSafe(s, b);
    case Add => AddIsSafe(s);
    case Store => StoreIsSafe(s);
    case Drop => DropIsSafe(s);
    case _ => CheckStepIsSafe(s, step);
  }

  // ----- runs -----

  ghost predicate StepAt(tr: seq<State>, steps: seq<Step>, i: nat)
    requires |tr| == |steps| + 1 && i < |steps|
  {
    CanStep(tr[i], steps[i]) && tr[i + 1] == Next(tr[i], steps[i])
  }

  ghost predicate IsInterleaving(tr: seq<State>, steps: seq<Step>) {
    |tr| == |steps| + 1 && forall i {:trigger StepAt(tr, steps, i)} :: 0 <= i < |steps| ==> StepAt(tr, steps, i)
  }

  /** A node that has just started, or is at rest: the blocks it knows are those of the window. */
  function AtRest(w: Window): State {
    State(w, Idle, w.cache, map[])
  }

  lemma {:induction false} AlwaysSafe(tr: seq<State>, steps: seq<Step>, i: nat)
    requires IsInterleaving(tr, steps) && Coherent(tr[0].w) && tr[0] == AtRest(tr[0].w) && i <= |steps|
    ensures Safe(tr[i])
  {
    if i > 0 {
      AlwaysSafe(tr, steps, i - 1);
      assert StepAt(tr, steps, i - 1);
      StepIsSafe(tr[i - 1], steps[i - 1]);
    } else {
      forall k, n | k in tr[0].w.cache && n in tr[0].w.cache[k] ensures n in tr[0].w.nonces {
        assert Cached(tr[0].w, n);
      }
    }
  }

  /** The check of thread k that starts at step i is the one still in its slot at j. */
  lemma {:induction false} CheckKeepsItsStart(tr: seq<State>, steps: seq<Step>, i: nat, j: nat)
    requires IsInterleaving(tr, steps) && i < j <= |steps| && steps[i].Start?
    requires forall m :: i < m < j ==> !(steps[m].Start? && steps[m].k == steps[i].k)
    ensures steps[i].k in tr[j].checkers
    ensures var r := tr[j].checkers[steps[i].k];
            r.nonce == steps[i].nonce && r.blockLimit == steps[i].blockLimit && r.seen == Added(tr[i])
    ensures tr[j].w.limit == tr[i].w.limit
    ensures forall c :: c in tr[i].history ==> c in tr[j].history && tr[j].history[c] == tr[i].history[c]
  {
    assert StepAt(tr, steps, j - 1);
    if j > i + 1 { CheckKeepsItsStart(tr, steps, i, j - 1); }
  }

  /**
   Replay safety under interleaving: a check that starts when all nonces of block c have been added
   never answers `Ok` for one of them with a block limit of at most c + limit.
   */
  lemma NoReplayUnderInterleaving(tr: seq<State>, steps: seq<Step>, i: nat, j: nat, c: int)
    requires IsInterleaving(tr, steps) && Coherent(tr[0].w) && tr[0] == AtRest(tr[0].w) && i < j <= |steps|
    requires steps[i].Start? && forall m :: i < m < j ==> !(steps[m].Start? && steps[m].k == steps[i].k)
    requires c in Added(tr[i]) && steps[i].nonce in tr[i].history[c]
    requires steps[i].blockLimit <= c + tr[i].w.limit
    ensures steps[i].k in tr[j].checkers
    ensures tr[j].checkers[steps[i].k].Answered? ==> tr[j].checkers[steps[i].k].status != Ok
  {
    AlwaysSafe(tr, steps, j);
    CheckKeepsItsStart(tr, steps, i, j);
    assert CheckerOk(tr[j], tr[j].checkers[steps[i].k]);
  }

  // ----- without interleaving the steps are the atomic operations -----

  /** The window after the first i nonces of b were added. */
  function AddFirst(w: Window, b: Block, i: nat): Window
    requires i <= |b.nonces|
  {
    if i == 0 then w
    else
      var v := AddFirst(w, b, i - 1);
      WithNonces(v, v.nonces + {b.nonces[i - 1]})
  }

  lemma {:induction false} AddFirstAdds(w: Window, b: Block, i: nat)
    requires i <= |b.nonces|
    ensures AddFirst(w, b, i) == WithNonces(w, w.nonces + Elems(b.nonces[..i]))
  {
    if i > 0 {
      AddFirstAdds(w, b, i - 1);
      assert b.nonces[..i] == b.nonces[..i - 1] + [b.nonces[i - 1]];
      assert Elems(b.nonces[..i]) == Elems(b.nonces[..i - 1]) + {b.nonces[i - 1]};
    } else {
      assert Elems(b.nonces[..0]) == {};
      assert w.nonces + {} == w.nonces;
    }
  }

  lemma StepsRefineArrival(w: Window, b: Block)
    ensures DropExpiring(StoreBlock(AddFirst(Raise(w, b), b, |b.nonces|), b), b) == Arrive(w, b)
  {
    AddFirstAdds(Raise(w, b), b, |b.nonces|);
    assert b.nonces[..|b.nonces|] == b.nonces;
  }

  /** A check whose two reads see the same state is the atomic check. */
  lemma StepsRefineCheck(s: State, r: Checker)
    requires r.Looking?
    ensures var l := LookedUp(s, r);
            (if l.Loading? then Loaded(s, l).status else l.status) == Check(s.w, r.nonce, r.blockLimit)
  {
    assert LookedUp(s, r).Answered? <==> r.nonce in s.w.nonces;
  }

  /**
   The order of the two reads is needed. A check that loaded the block number first and looked the nonce
   up after the next block was inserted would pass both tests, for a nonce of a fully added block.
   */
  lemma ReadOrderMatters(nonce: Nonce)
    ensures var s := AtRest(Arrive(Empty(1), Block(1, [nonce])));
            var b := Block(2, []);
            && 1 in Added(s) && nonce in s.history[1]
            && CheckBlockLimit(s.w, 2) == Ok
            && CanStep(s, Begin(b)) && CanStep(Next(s, Begin(b)), Store)
            && CanStep(Next(Next(s, Begin(b)), Store), Drop)
            && nonce !in Next(Next(Next(s, Begin(b)), Store), Drop).w.nonces
  {
    assert nonce in Elems([nonce]);
  }
}
