/**
 Threads sharing one cache of virtines through its spin lock (`Cache.cpp`).

 Every shared access is one step, so a run is any interleaving of any number of threads
 that call `get`, `put` and `ensure`.  The reference is a deque with atomic operations:
 `Replay` says what a history of completed calls does to it.
 */
module Pool {
  import opened Common

  type Tid = nat
  type Vid = nat

  datatype Call = Get | Put(v: Vid) | Ensure(count: nat)

  /** Where a thread stands; the states from `GetEntered` on hold the lock. */
  datatype Pc =
    | Idle
    | Resetting(v: Vid)                       // put: v->reset(), before the lock is taken
    | Trying(call: Call)                      // about to test and set
    | Spinning(call: Call)                    // inner loop, reading only
    | GetEntered
    | MissCounted
    | MissAllocated(v: Vid)
    | HitCounted
    | HitFront(v: Vid)
    | HitPopped(v: Vid)
    | PutEntered(v: Vid)
    | PutPushed(v: Vid)
    | EnsureHead(count: nat, added: nat)      // at the loop test, `added` virtines pushed so far
    | EnsureAllocated(count: nat, added: nat, v: Vid)
    | EnsureDone(count: nat, added: nat)

  /** A thread and the virtines its caller holds. */
  datatype Thread = Thread(pc: Pc, held: set<Vid>)

  /** A completed call with what it returned; `Ensured` lists what it put in front. */
  datatype Entry =
    | Got(t: Tid, v: Vid, hit: bool)
    | Gave(t: Tid, v: Vid)
    | Ensured(t: Tid, count: nat, front: seq<Vid>)

  datatype State = State(
    threads: map<Tid, Thread>,
    locked: bool,
    pool: seq<Vid>,
    hits: nat,
    misses: nat,
    made: set<Vid>,
    log: seq<Entry>)

  // ---------------------------------------------------------------- the atomic deque

  datatype Deque = Deque(pool: seq<Vid>, held: map<Tid, set<Vid>>, hits: int, misses: int, made: set<Vid>)

  /** The effect of one atomic call, or none when the deque does not allow it. */
  ghost function Apply(d: Deque, e: Entry): Option<Deque> {
    if e.t !in d.held then None
    else match e
    case Got(t, v, true) =>
      if d.pool != [] && d.pool[0] == v
      then Some(d.(pool := d.pool[1..], held := d.held[t := d.held[t] + {v}], hits := d.hits + 1))
      else None
    case Got(t, v, false) =>
      if d.pool == [] && v !in d.made
      then Some(d.(held := d.held[t := d.held[t] + {v}], misses := d.misses + 1, made := d.made + {v}))
      else None
    case Gave(t, v) =>
      if v in d.held[t]
      then Some(d.(pool := d.pool + [v], held := d.held[t := d.held[t] - {v}]))
      else None
    case Ensured(t, count, front) =>
      if |front| == (if |d.pool| < count then count - |d.pool| else 0) && Distinct(front) && Elements(front) !! d.made
      then Some(d.(pool := front + d.pool, made := d.made + Elements(front)))
      else None
  }

  ghost function Replay(d: Deque, log: seq<Entry>): Option<Deque> {
    if log == [] then Some(d)
    else match Replay(d, log[..|log| - 1])
         case None => None
         case Some(d1) => Apply(d1, log[|log| - 1])
  }

  ghost function Elements(s: seq<Vid>): set<Vid> { set v | v in s }

  ghost function Gets(log: seq<Entry>): nat {
    if log == [] then 0 else Gets(log[..|log| - 1]) + (if log[|log| - 1].Got? then 1 else 0)
  }

  /** First in, first out: two virtines given to an empty pool are got in that order. */
  lemma FirstInFirstOut(d: Deque, t: Tid, u: Tid, v: Vid, w: Vid)
    requires d.pool == [] && t in d.held && u in d.held && v in d.held[t] && w in d.held[t] && v != w
    ensures var r := Replay(d, [Gave(t, v), Gave(t, w), Got(u, v, true), Got(u, w, true)]);
            r.Some? && r.value.pool == [] && r.value.hits == d.hits + 2
    ensures Replay(d, [Gave(t, v), Gave(t, w), Got(u, w, true)]) == None
  {
    var g1, g2 := Gave(t, v), Gave(t, w);
    var d1 := Apply(d, g1).value;
    var d2 := Apply(d1, g2).value;
    assert d2.pool == [v, w];
    ReplayTwo(d, g1, g2, d1, d2);
    var h1, h2 := Got(u, v, true), Got(u, w, true);
    var d3 := Apply(d2, h1).value;
    assert d3.pool == [w];
    assert [g1, g2, h1][..2] == [g1, g2] && [g1, g2, h1, h2][..3] == [g1, g2, h1];
    assert [g1, g2, h2][..2] == [g1, g2];
  }

  lemma ReplayTwo(d: Deque, e1: Entry, e2: Entry, d1: Deque, d2: Deque)
    requires Apply(d, e1) == Some(d1) && Apply(d1, e2) == Some(d2)
    ensures Replay(d, [e1, e2]) == Some(d2)
  {
    assert [e1][..0] == [] && [e1, e2][..1] == [e1];
    assert Replay(d, [e1]) == Some(d1);
  }

  /** What `ensure` made is got before what was there. */
  lemma EnsuredFirst(d: Deque, t: Tid, count: nat, front: seq<Vid>, v: Vid)
    requires t in d.held && Apply(d, Ensured(t, count, front)).Some? && front != []
    ensures Apply(Apply(d, Ensured(t, count, front)).value, Got(t, v, true)).Some? <==> v == front[0]
    ensures |Apply(d, Ensured(t, count, front)).value.pool| == count
  {
  }

  // ---------------------------------------------------------------- the threads

  ghost predicate Init(s: State) {
    && !s.locked && s.pool == [] && s.hits == 0 && s.misses == 0 && s.made == {} && s.log == []
    && forall t :: t in s.threads ==> s.threads[t] == Thread(Idle, {})
  }

  predicate InCritical(pc: Pc) {
    !(pc.Idle? || pc.Resetting? || pc.Trying? || pc.Spinning?)
  }

  function At(s: State, t: Tid, pc: Pc): State
    requires t in s.threads
  {
    s.(threads := s.threads[t := s.threads[t].(pc := pc)])
  }

  function Enter(call: Call): Pc {
    match call
    case Get => GetEntered
    case Put(v) => PutEntered(v)
    case Ensure(count) => EnsureHead(count, 0)
  }

  /** Unlocking ends the call: the thread is idle, holds `held`, and the call is in the history. */
  function Unlock(s: State, t: Tid, held: set<Vid>, e: Entry): State {
    s.(threads := s.threads[t := Thread(Idle, held)], locked := false, log := s.log + [e])
  }

  /** One step of thread `t`. */
  ghost predicate Step(s: State, t: Tid, s': State) {
    t in s.threads &&
    var th := s.threads[t];
    match th.pc
    case Idle =>
      || s' == At(s, t, Trying(Get))
      || (exists n :: s' == At(s, t, Trying(Ensure(n))))
      || (exists v :: v in th.held && s' == At(s, t, Resetting(v)))
    case Resetting(v) => s' == At(s, t, Trying(Put(v)))
    case Trying(call) =>
      s' == if s.locked then At(s, t, Spinning(call)) else At(s, t, Enter(call)).(locked := true)
    case Spinning(call) => s' == if s.locked then s else At(s, t, Trying(call))
    case GetEntered =>
      s' == if s.pool == [] then At(s, t, MissCounted).(misses := s.misses + 1)
            else At(s, t, HitCounted).(hits := s.hits + 1)
    case MissCounted =>
      exists v :: v !in s.made && s' == At(s, t, MissAllocated(v)).(made := s.made + {v})
    case MissAllocated(v) => s' == Unlock(s, t, th.held + {v}, Got(t, v, false))
    case HitCounted => s.pool != [] && s' == At(s, t, HitFront(s.pool[0]))
    case HitFront(v) => s.pool != [] && s' == At(s, t, HitPopped(v)).(pool := s.pool[1..])
    case HitPopped(v) => s' == Unlock(s, t, th.held + {v}, Got(t, v, true))
    case PutEntered(v) => s' == s.(threads := s.threads[t := Thread(PutPushed(v), th.held - {v})], pool := s.pool + [v])
    case PutPushed(v) => s' == Unlock(s, t, th.held, Gave(t, v))
    case EnsureHead(n, k) =>
      if |s.pool| < n then
        exists v :: v !in s.made && s' == At(s, t, EnsureAllocated(n, k, v)).(made := s.made + {v})
      else s' == At(s, t, EnsureDone(n, k))
    case EnsureAllocated(n, k, v) => s' == At(s, t, EnsureHead(n, k + 1)).(pool := [v] + s.pool)
    case EnsureDone(n, k) => k <= |s.pool| && s' == Unlock(s, t, th.held, Ensured(t, n, s.pool[..k]))
  }

  // ---------------------------------------------------------------- the invariant

  ghost function Holdings(s: State): map<Tid, set<Vid>> { map t | t in s.threads :: s.threads[t].held }

  ghost function Shared(s: State): Deque { Deque(s.pool, Holdings(s), s.hits, s.misses, s.made) }

  /** The deque as it was before the call that thread `t` has under way. */
  ghost function Undo(s: State, t: Tid): Deque
    requires t in s.threads
  {
    var d := Shared(s);
    match s.threads[t].pc
    case MissCounted => d.(misses := d.misses - 1)
    case MissAllocated(v) => d.(misses := d.misses - 1, made := d.made - {v})
    case HitCounted => d.(hits := d.hits - 1)
    case HitFront(v) => d.(hits := d.hits - 1)
    case HitPopped(v) => d.(hits := d.hits - 1, pool := [v] + d.pool)
    case PutPushed(v) =>
      d.(pool := if d.pool == [] then [] else d.pool[..|d.pool| - 1], held := d.held[t := s.threads[t].held + {v}])
    case EnsureHead(n, k) => UndoEnsure(d, k)
    case EnsureAllocated(n, k, v) => UndoEnsure(d.(made := d.made - {v}), k)
    case EnsureDone(n, k) => UndoEnsure(d, k)
    case _ => d
  }

  ghost function UndoEnsure(d: Deque, k: nat): Deque {
    if k <= |d.pool| then d.(pool := d.pool[k..], made := d.made - Elements(d.pool[..k])) else d
  }

  /** The virtine that is neither pooled nor held while a thread is inside the lock. */
  ghost function InTransit(pc: Pc): set<Vid> {
    match pc
    case MissAllocated(v) => {v}
    case HitPopped(v) => {v}
    case EnsureAllocated(_, _, v) => {v}
    case _ => {}
  }

  /** What thread `t` knows at its program point. */
  ghost predicate Local(s: State, t: Tid)
    requires t in s.threads
  {
    var th := s.threads[t];
    match th.pc
    case Resetting(v) => v in th.held
    case Trying(Put(v)) => v in th.held
    case Spinning(Put(v)) => v in th.held
    case PutEntered(v) => v in th.held
    case MissCounted => s.pool == []
    case MissAllocated(v) => s.pool == [] && Loose(s, v)
    case HitCounted => s.pool != []
    case HitFront(v) => s.pool != [] && s.pool[0] == v
    case HitPopped(v) => Loose(s, v)
    case PutPushed(v) => s.pool != [] && s.pool[|s.pool| - 1] == v
    case EnsureHead(n, k) => k <= |s.pool| && (k > 0 ==> |s.pool| <= n)
    case EnsureAllocated(n, k, v) => k <= |s.pool| < n && Loose(s, v)
    case EnsureDone(n, k) => k <= |s.pool| && n <= |s.pool| && (k > 0 ==> |s.pool| == n)
    case _ => true
  }

  /** Allocated, but neither pooled nor held by any thread. */
  ghost predicate Loose(s: State, v: Vid) {
    v in s.made && v !in s.pool && forall u :: u in s.threads ==> v !in s.threads[u].held
  }

  /** No virtine is pooled twice, held twice, or both pooled and held. */
  ghost predicate Ownership(s: State) {
    && Distinct(s.pool) && Elements(s.pool) <= s.made
    && (forall t :: t in s.threads ==> s.threads[t].held <= s.made && s.threads[t].held !! Elements(s.pool))
    && (forall t, u :: t in s.threads && u in s.threads && t != u ==> s.threads[t].held !! s.threads[u].held)
  }

  /** At most one thread is between lock and unlock, and the flag says whether one is. */
  ghost predicate MutualExclusion(s: State) {
    && (forall t, u ::
          t in s.threads && u in s.threads && InCritical(s.threads[t].pc) && InCritical(s.threads[u].pc) ==> t == u)
    && (s.locked <==> exists t :: t in s.threads && InCritical(s.threads[t].pc))
  }

  /** Every allocated virtine is pooled, held, or in transit inside the lock. */
  ghost predicate Conservation(s: State) {
    forall v :: v in s.made ==> v in s.pool || Held(s, v) || Moving(s, v)
  }

  ghost predicate Held(s: State, v: Vid) { exists t :: t in s.threads && v in s.threads[t].held }

  ghost predicate Moving(s: State, v: Vid) { exists t :: t in s.threads && v in InTransit(s.threads[t].pc) }

  /** A deque with nothing in it, and threads that hold nothing. */
  ghost function Empty(threads: set<Tid>): Deque {
    Deque([], map t | t in threads :: {}, 0, 0, {})
  }

  /** The completed calls are a history of the atomic deque, and they explain the shared state. */
  ghost predicate Refines(s: State) {
    var r := Replay(Empty(s.threads.Keys), s.log);
    && (!s.locked ==> r == Some(Shared(s)))
    && (forall t :: t in s.threads && InCritical(s.threads[t].pc) ==> r == Some(Undo(s, t)))
  }

  ghost predicate Counted(s: State) {
    && (!s.locked ==> s.hits + s.misses == Gets(s.log))
    && (forall t :: t in s.threads && InCritical(s.threads[t].pc) ==>
          s.hits + s.misses == Gets(s.log) + (if CountedGet(s.threads[t].pc) then 1 else 0))
  }

  predicate CountedGet(pc: Pc) {
    pc.MissCounted? || pc.MissAllocated? || pc.HitCounted? || pc.HitFront? || pc.HitPopped?
  }

  ghost predicate Inv(s: State) {
    && MutualExclusion(s) && Ownership(s) && Conservation(s) && Refines(s) && Counted(s)
    && forall t :: t in s.threads ==> Local(s, t)
  }

  // ---------------------------------------------------------------- every step keeps it

  /** A step changes one thread, and the lock only when that thread enters or leaves. */
  lemma StepShape(s: State, t: Tid, s': State)
    requires Step(s, t, s')
    ensures t in s.threads && t in s'.threads && s'.threads == s.threads[t := s'.threads[t]]
    ensures var before, after := InCritical(s.threads[t].pc), InCritical(s'.threads[t].pc);
            if before == after then s'.locked == s.locked
            else if after then !s.locked && s'.locked
            else !s'.locked
  {
    assert s.threads == s.threads[t := s.threads[t]];
  }

  lemma StepMutualExclusion(s: State, t: Tid, s': State)
    requires MutualExclusion(s) && Step(s, t, s')
    ensures MutualExclusion(s')
  {
    StepShape(s, t, s');
    MutexUpdate(s, t, s');
  }

  lemma MutexUpdate(s: State, t: Tid, s': State)
    requires MutualExclusion(s) && t in s.threads && t in s'.threads && s'.threads == s.threads[t := s'.threads[t]]
    requires var before, after := InCritical(s.threads[t].pc), InCritical(s'.threads[t].pc);
             if before == after then s'.locked == s.locked
             else if after then !s.locked && s'.locked
             else !s'.locked
    ensures MutualExclusion(s')
  {
    assert forall u :: u in s.threads && u != t ==> s'.threads[u] == s.threads[u];
    if s'.locked && !InCritical(s'.threads[t].pc) {
      var u :| u in s.threads && InCritical(s.threads[u].pc);
      assert u in s'.threads && InCritical(s'.threads[u].pc);
    }
  }

  // Ownership: what a step can do to the pool, to the holdings of its thread and to the made virtines.

  ghost predicate SameHoldings(s: State, s': State) {
    s'.threads.Keys == s.threads.Keys && forall u :: u in s.threads ==> s'.threads[u].held == s.threads[u].held
  }

  lemma OwnershipSame(s: State, s': State)
    requires Ownership(s) && SameHoldings(s, s') && s'.pool == s.pool && s.made <= s'.made
    ensures Ownership(s')
  {
  }

  lemma OwnershipPop(s: State, s': State)
    requires Ownership(s) && SameHoldings(s, s') && s.pool != [] && s'.pool == s.pool[1..] && s'.made == s.made
    ensures Ownership(s')
    ensures forall v :: v in s.pool <==> v in s'.pool || v == s.pool[0]
    ensures Loose(s', s.pool[0])
  {
    assert s.pool == [s.pool[0]] + s'.pool;
    assert s.pool[0] in Elements(s.pool);
  }

  lemma OwnershipPush(s: State, s': State, v: Vid)
    requires Ownership(s) && SameHoldings(s, s') && Loose(s, v) && s'.pool == [v] + s.pool && s'.made == s.made
    ensures Ownership(s')
    ensures forall w :: w in s'.pool <==> w in s.pool || w == v
  {
    forall i, j | 0 <= i < j < |s'.pool|
      ensures s'.pool[i] != s'.pool[j]
    {
      assert s'.pool[j] == s.pool[j - 1];
      if i > 0 { assert s'.pool[i] == s.pool[i - 1]; }
    }
    assert Elements(s'.pool) == Elements(s.pool) + {v};
  }

  lemma OwnershipGive(s: State, t: Tid, s': State, v: Vid)
    requires Ownership(s) && t in s.threads && v in s.threads[t].held
    requires t in s'.threads && s'.threads == s.threads[t := s'.threads[t]]
             && s'.threads[t].held == s.threads[t].held - {v}
    requires s'.pool == s.pool + [v] && s'.made == s.made
    ensures Ownership(s')
    ensures forall w :: w in s'.pool <==> w in s.pool || w == v
  {
    assert v !in s.pool by { assert v !in Elements(s.pool); }
    assert Elements(s'.pool) == Elements(s.pool) + {v};
    forall u | u in s.threads && u != t
      ensures v !in s.threads[u].held
    {
      assert s.threads[t].held !! s.threads[u].held;
    }
  }

  lemma OwnershipTake(s: State, t: Tid, s': State, v: Vid)
    requires Ownership(s) && t in s.threads && Loose(s, v)
    requires t in s'.threads && s'.threads == s.threads[t := s'.threads[t]]
             && s'.threads[t].held == s.threads[t].held + {v}
    requires s'.pool == s.pool && s'.made == s.made
    ensures Ownership(s')
  {
    assert v !in Elements(s.pool);
  }

  /** The program points whose next step moves a virtine. */
  predicate Moves(pc: Pc) {
    pc.MissAllocated? || pc.HitPopped? || pc.HitFront? || pc.PutEntered? || pc.EnsureAllocated?
  }

  lemma QuietStep(s: State, t: Tid, s': State)
    requires Step(s, t, s') && !Moves(s.threads[t].pc)
    ensures SameHoldings(s, s') && s'.pool == s.pool && s.made <= s'.made
    ensures !s.threads[t].pc.MissCounted? && !s.threads[t].pc.EnsureHead? ==> s'.made == s.made
  {
    if InCritical(s.threads[t].pc) { QuietInside(s, t, s'); } else { OutsideSame(s, t, s'); }
  }

  lemma QuietInside(s: State, t: Tid, s': State)
    requires Step(s, t, s') && !Moves(s.threads[t].pc) && InCritical(s.threads[t].pc)
    ensures SameHoldings(s, s') && s'.pool == s.pool && s.made <= s'.made
    ensures !s.threads[t].pc.MissCounted? && !s.threads[t].pc.EnsureHead? ==> s'.made == s.made
  {
  }

  lemma StepOwnership(s: State, t: Tid, s': State)
    requires Ownership(s) && Step(s, t, s') && Local(s, t)
    ensures Ownership(s')
  {
    StepShape(s, t, s');
    match s.threads[t].pc {
      case MissAllocated(v) => OwnershipTake(s, t, s', v);
      case HitPopped(v) => OwnershipTake(s, t, s', v);
      case HitFront(v) => OwnershipPop(s, s');
      case PutEntered(v) => OwnershipGive(s, t, s', v);
      case EnsureAllocated(n, k, v) => OwnershipPush(s, s', v);
      case _ =>
        QuietStep(s, t, s');
        OwnershipSame(s, s');
    }
  }

  // What other threads know does not depend on this step.

  lemma LooseKept(s: State, s': State, v: Vid)
    requires Loose(s, v) && SameHoldings(s, s') && s'.pool == s.pool && s.made <= s'.made
    ensures Loose(s', v)
  {
  }

  lemma StepLocalOther(s: State, t: Tid, s': State, u: Tid)
    requires MutualExclusion(s) && Step(s, t, s') && u in s.threads && u != t && Local(s, u)
    ensures u in s'.threads && Local(s', u)
  {
    StepShape(s, t, s');
    assert s'.threads[u] == s.threads[u];
    if InCritical(s.threads[u].pc) {
      assert !InCritical(s.threads[t].pc);
      assert s.locked;
      assert SameHoldings(s, s') && s'.pool == s.pool && s'.made == s.made;
      match s.threads[u].pc {
        case MissAllocated(v) => LooseKept(s, s', v);
        case HitPopped(v) => LooseKept(s, s', v);
        case EnsureAllocated(_, _, v) => LooseKept(s, s', v);
        case _ =>
      }
    }
  }

  lemma FreshIsLoose(s: State, s': State, v: Vid)
    requires Ownership(s) && v !in s.made && SameHoldings(s, s') && s'.pool == s.pool && s'.made == s.made + {v}
    ensures Loose(s', v)
  {
    assert v !in Elements(s.pool);
    forall u | u in s.threads
      ensures v !in s.threads[u].held
    {
      assert s.threads[u].held <= s.made;
    }
  }

  lemma StepLocalSelf(s: State, t: Tid, s': State)
    requires Ownership(s) && Step(s, t, s') && Local(s, t)
    ensures t in s'.threads && Local(s', t)
  {
    if !s.threads[t].pc.MissCounted? && !s.threads[t].pc.EnsureHead? && !s.threads[t].pc.HitFront? {
      StepLocalPlain(s, t, s');
    } else if s.threads[t].pc.HitFront? {
      OwnershipPop(s, s');
    } else {
      QuietStep(s, t, s');
      StepLocalFresh(s, t, s');
    }
  }

  lemma StepLocalPlain(s: State, t: Tid, s': State)
    requires Step(s, t, s') && Local(s, t)
    requires !s.threads[t].pc.MissCounted? && !s.threads[t].pc.EnsureHead? && !s.threads[t].pc.HitFront?
    ensures t in s'.threads && Local(s', t)
  {
    if InCritical(s.threads[t].pc) { StepLocalInside(s, t, s'); } else { StepLocalOutside(s, t, s'); }
  }

  lemma StepLocalOutside(s: State, t: Tid, s': State)
    requires Step(s, t, s') && Local(s, t) && !InCritical(s.threads[t].pc)
    ensures t in s'.threads && Local(s', t)
  {
  }

  lemma StepLocalInside(s: State, t: Tid, s': State)
    requires Step(s, t, s') && Local(s, t) && InCritical(s.threads[t].pc)
    requires !s.threads[t].pc.MissCounted? && !s.threads[t].pc.EnsureHead? && !s.threads[t].pc.HitFront?
    ensures t in s'.threads && Local(s', t)
  {
  }

  lemma StepLocalFresh(s: State, t: Tid, s': State)
    requires Ownership(s) && Step(s, t, s') && Local(s, t) && SameHoldings(s, s') && s'.pool == s.pool
    requires s.threads[t].pc.MissCounted? || s.threads[t].pc.EnsureHead?
    ensures t in s'.threads && Local(s', t)
  {
    if s'.made != s.made {
      var v :| v !in s.made && s'.made == s.made + {v} && InTransit(s'.threads[t].pc) == {v};
      FreshIsLoose(s, s', v);
    }
  }

  lemma StepCounted(s: State, t: Tid, s': State)
    requires MutualExclusion(s) && Counted(s) && Step(s, t, s')
    ensures Counted(s')
  {
    StepShape(s, t, s');
    StepMutualExclusion(s, t, s');
    if s'.log != s.log {
      assert s'.log[..|s'.log| - 1] == s.log;
    }
    forall u | u in s'.threads && InCritical(s'.threads[u].pc)
      ensures s'.hits + s'.misses == Gets(s'.log) + (if CountedGet(s'.threads[u].pc) then 1 else 0)
    {
    }
  }

  lemma StepConservation(s: State, t: Tid, s': State)
    requires Ownership(s) && Conservation(s) && Step(s, t, s') && Local(s, t)
    ensures Conservation(s')
  {
    StepShape(s, t, s');
    forall v | v in s'.made
      ensures v in s'.pool || Held(s', v) || Moving(s', v)
    {
      if v !in s.made {
        NewIsMoving(s, t, s', v);
      } else if v in s.pool {
        PooledKept(s, t, s', v);
      } else if Held(s, v) {
        var u :| u in s.threads && v in s.threads[u].held;
        HeldKept(s, t, s', u, v);
      } else {
        var u :| u in s.threads && v in InTransit(s.threads[u].pc);
        MovingKept(s, t, s', u, v);
      }
    }
  }

  lemma NewIsMoving(s: State, t: Tid, s': State, v: Vid)
    requires Step(s, t, s') && v in s'.made && v !in s.made
    ensures Moving(s', v)
  {
    assert t in s'.threads && v in InTransit(s'.threads[t].pc);
  }

  lemma PooledKept(s: State, t: Tid, s': State, v: Vid)
    requires Step(s, t, s') && Local(s, t) && v in s.pool
    ensures v in s'.pool || Moving(s', v)
  {
    if s.threads[t].pc.HitFront? {
      assert s.pool == [s.pool[0]] + s'.pool;
      assert t in s'.threads && InTransit(s'.threads[t].pc) == {s.pool[0]};
    } else if !Moves(s.threads[t].pc) {
      QuietStep(s, t, s');
    }
  }

  lemma HeldKept(s: State, t: Tid, s': State, u: Tid, v: Vid)
    requires Step(s, t, s') && u in s.threads && v in s.threads[u].held
    ensures v in s'.pool || Held(s', v)
  {
    StepShape(s, t, s');
    if u == t && s.threads[t].pc.PutEntered? && v == s.threads[t].pc.v {
      assert s'.pool[|s.pool|] == v;
    } else {
      assert u in s'.threads && v in s'.threads[u].held;
    }
  }

  lemma MovingKept(s: State, t: Tid, s': State, u: Tid, v: Vid)
    requires Step(s, t, s') && u in s.threads && v in InTransit(s.threads[u].pc)
    ensures v in s'.pool || Held(s', v) || Moving(s', v)
  {
    StepShape(s, t, s');
    if u != t {
      assert v in InTransit(s'.threads[u].pc);
    } else if s.threads[t].pc.EnsureAllocated? {
      assert s'.pool[0] == v;
    } else {
      assert v in s'.threads[t].held;
    }
  }

  // ---------------------------------------------------------------- refinement

  lemma SameView(s: State, s': State, u: Tid)
    requires SameHoldings(s, s') && s'.pool == s.pool && s'.made == s.made && s'.hits == s.hits && s'.misses == s.misses
    requires u in s.threads && s'.threads[u] == s.threads[u]
    ensures Shared(s') == Shared(s) && Undo(s', u) == Undo(s, u)
  {
    assert Holdings(s') == Holdings(s);
  }

  lemma UndoNothing(s: State, t: Tid, call: Call)
    requires t in s.threads && s.threads[t].pc == Enter(call)
    ensures Undo(s, t) == Shared(s)
  {
    assert s.pool[0..] == s.pool && Elements(s.pool[..0]) == {} && s.made - {} == s.made;
  }

  /** While a thread is inside the lock, the deque seen from outside stays put. */
  lemma UndoInside(s: State, t: Tid, s': State)
    requires Ownership(s) && Step(s, t, s') && Local(s, t)
    requires InCritical(s.threads[t].pc) && t in s'.threads && InCritical(s'.threads[t].pc)
    ensures Undo(s', t) == Undo(s, t)
  {
    match s.threads[t].pc {
      case PutEntered(v) => InsidePut(s, t, s', v);
      case EnsureAllocated(n, k, v) => InsidePush(s, t, s', n, k, v);
      case HitFront(v) => InsidePop(s, t, s', v);
      case _ =>
        QuietStep(s, t, s');
        UndoQuiet(s, t, s');
    }
  }

  lemma InsidePut(s: State, t: Tid, s': State, v: Vid)
    requires t in s.threads && s.threads[t].pc == PutEntered(v) && v in s.threads[t].held
    requires s' == s.(threads := s.threads[t := Thread(PutPushed(v), s.threads[t].held - {v})], pool := s.pool + [v])
    ensures Undo(s', t) == Undo(s, t)
  {
    assert s'.threads[t].held + {v} == s.threads[t].held;
    assert Holdings(s')[t := s'.threads[t].held + {v}] == Holdings(s);
    assert s'.pool[..|s'.pool| - 1] == s.pool;
  }

  lemma InsidePush(s: State, t: Tid, s': State, n: nat, k: nat, v: Vid)
    requires t in s.threads && s.threads[t].pc == EnsureAllocated(n, k, v) && k <= |s.pool|
    requires s' == At(s, t, EnsureHead(n, k + 1)).(pool := [v] + s.pool)
    ensures Undo(s', t) == Undo(s, t)
  {
    assert Holdings(s') == Holdings(s);
    UndoPush(s.pool, k, v, s.made);
  }

  lemma InsidePop(s: State, t: Tid, s': State, v: Vid)
    requires t in s.threads && s.threads[t].pc == HitFront(v) && s.pool != [] && s.pool[0] == v
    requires s' == At(s, t, HitPopped(v)).(pool := s.pool[1..])
    ensures Undo(s', t) == Undo(s, t)
  {
    assert Holdings(s') == Holdings(s);
    assert [v] + s.pool[1..] == s.pool;
  }

  lemma UndoPush(pool: seq<Vid>, k: nat, v: Vid, made: set<Vid>)
    requires k <= |pool|
    ensures ([v] + pool)[k + 1..] == pool[k..]
    ensures made - Elements(([v] + pool)[..k + 1]) == (made - {v}) - Elements(pool[..k])
  {
    assert ([v] + pool)[..k + 1] == [v] + pool[..k];
  }

  lemma UndoQuiet(s: State, t: Tid, s': State)
    requires Step(s, t, s') && Local(s, t) && SameHoldings(s, s') && s'.pool == s.pool
    requires !Moves(s.threads[t].pc) && InCritical(s.threads[t].pc) && t in s'.threads && InCritical(s'.threads[t].pc)
    ensures Undo(s', t) == Undo(s, t)
  {
    assert Holdings(s') == Holdings(s);
    if s'.made != s.made {
      var v :| v !in s.made && s'.made == s.made + {v} && InTransit(s'.threads[t].pc) == {v};
      assert s'.made - {v} == s.made;
    }
  }

  /** At the unlock the whole call takes effect at once. */
  lemma UndoRelease(s: State, t: Tid, s': State)
    requires Ownership(s) && Step(s, t, s') && Local(s, t)
    requires InCritical(s.threads[t].pc) && t in s'.threads && !InCritical(s'.threads[t].pc)
    ensures |s'.log| == |s.log| + 1 && s'.log[..|s.log|] == s.log
    ensures Apply(Undo(s, t), s'.log[|s.log|]) == Some(Shared(s'))
  {
    assert Holdings(s') == Holdings(s)[t := s'.threads[t].held];
    match s.threads[t].pc {
      case MissAllocated(v) => assert s.made - {v} + {v} == s.made;
      case HitPopped(v) => assert ([v] + s.pool)[1..] == s.pool;
      case PutPushed(v) => ReleasePut(s, t, s', v);
      case EnsureDone(n, k) => ReleaseEnsure(s, t, s', n, k);
    }
  }

  lemma ReleasePut(s: State, t: Tid, s': State, v: Vid)
    requires Ownership(s) && t in s.threads && s.threads[t].pc == PutPushed(v) && Local(s, t)
    requires s' == Unlock(s, t, s.threads[t].held, Gave(t, v))
    ensures Apply(Undo(s, t), Gave(t, v)) == Some(Shared(s'))
  {
    assert s.pool[..|s.pool| - 1] + [v] == s.pool;
    assert v !in s.threads[t].held by { assert v in Elements(s.pool); }
    assert s.threads[t].held + {v} - {v} == s.threads[t].held;
    assert Holdings(s)[t := s.threads[t].held + {v}][t := s.threads[t].held] == Holdings(s');
  }

  lemma ReleaseEnsure(s: State, t: Tid, s': State, n: nat, k: nat)
    requires Ownership(s) && t in s.threads && s.threads[t].pc == EnsureDone(n, k) && Local(s, t)
    requires s' == Unlock(s, t, s.threads[t].held, Ensured(t, n, s.pool[..k]))
    ensures Apply(Undo(s, t), Ensured(t, n, s.pool[..k])) == Some(Shared(s'))
  {
    var front := s.pool[..k];
    assert front + s.pool[k..] == s.pool;
    assert Elements(front) <= Elements(s.pool);
    assert s.made - Elements(front) + Elements(front) == s.made;
    assert Holdings(s') == Holdings(s);
  }

  lemma StepRefines(s: State, t: Tid, s': State)
    requires MutualExclusion(s) && Ownership(s) && Refines(s) && Step(s, t, s') && Local(s, t)
    ensures Refines(s')
  {
    StepShape(s, t, s');
    StepMutualExclusion(s, t, s');
    assert s'.threads.Keys == s.threads.Keys;
    var before, after := InCritical(s.threads[t].pc), InCritical(s'.threads[t].pc);
    if before && !after {
      UndoRelease(s, t, s');
    } else if before {
      UndoInside(s, t, s');
      InsideSameLog(s, t, s');
    } else {
      OutsideSame(s, t, s');
      forall u | u in s'.threads && InCritical(s'.threads[u].pc)
        ensures Replay(Empty(s'.threads.Keys), s'.log) == Some(Undo(s', u))
      {
        if u == t {
          Entered(s, t, s');
        } else {
          assert s.locked;
          SameView(s, s', u);
        }
      }
      SameView0(s, s');
    }
  }

  lemma SameView0(s: State, s': State)
    requires SameHoldings(s, s') && s'.pool == s.pool && s'.made == s.made && s'.hits == s.hits && s'.misses == s.misses
    ensures Shared(s') == Shared(s)
  {
    assert Holdings(s') == Holdings(s);
  }

  lemma InsideSameLog(s: State, t: Tid, s': State)
    requires Step(s, t, s') && InCritical(s.threads[t].pc) && t in s'.threads && InCritical(s'.threads[t].pc)
    ensures s'.log == s.log
  {
  }

  lemma OutsideSame(s: State, t: Tid, s': State)
    requires Step(s, t, s') && !InCritical(s.threads[t].pc)
    ensures SameHoldings(s, s') && s'.pool == s.pool && s'.made == s.made && s'.hits == s.hits
            && s'.misses == s.misses && s'.log == s.log
  {
  }

  lemma Entered(s: State, t: Tid, s': State)
    requires Refines(s) && Step(s, t, s') && !InCritical(s.threads[t].pc) && t in s'.threads
             && InCritical(s'.threads[t].pc)
    ensures Replay(Empty(s.threads.Keys), s.log) == Some(Undo(s', t))
  {
    OutsideSame(s, t, s');
    SameView0(s, s');
    UndoNothing(s', t, s.threads[t].pc.call);
  }

  // ---------------------------------------------------------------- whole runs

  /** A finite run: any threads, in any order. */
  ghost predicate Run(states: seq<State>) {
    && |states| > 0 && Init(states[0])
    && forall i, j :: 0 <= i && j == i + 1 && j < |states| ==> SomeStep(states[i], states[j])
  }

  ghost predicate SomeStep(s: State, s': State) { exists t :: Step(s, t, s') }

  lemma InitInv(s: State)
    requires Init(s)
    ensures Inv(s)
  {
    assert Holdings(s) == Empty(s.threads.Keys).held;
  }

  lemma StepInv(s: State, t: Tid, s': State)
    requires Inv(s) && Step(s, t, s')
    ensures Inv(s')
  {
    StepShape(s, t, s');
    assert Local(s, t);
    StepMutualExclusion(s, t, s');
    StepOwnership(s, t, s');
    StepConservation(s, t, s');
    StepRefines(s, t, s');
    StepCounted(s, t, s');
    forall u | u in s'.threads
      ensures Local(s', u)
    {
      if u == t { StepLocalSelf(s, t, s'); } else { StepLocalOther(s, t, s', u); }
    }
  }

  /** Every state of every run satisfies the invariant. */
  lemma {:induction false} RunInv(states: seq<State>)
    requires Run(states)
    ensures Inv(states[|states| - 1])
  {
    if |states| == 1 {
      InitInv(states[0]);
    } else {
      var before := states[..|states| - 1];
      RunInv(before);
      assert SomeStep(states[|states| - 2], states[|states| - 1]);
      var t :| Step(states[|states| - 2], t, states[|states| - 1]);
      StepInv(before[|before| - 1], t, states[|states| - 1]);
    }
  }

  /**
   In every run the completed calls are a history of the atomic deque; whenever the lock is
   free, the shared fields are exactly what that history leaves, hits and misses add up to
   the completed gets, and each allocated virtine is in exactly one place.
   */
  lemma Linearizable(states: seq<State>)
    requires Run(states)
    ensures var s := states[|states| - 1];
            && Replay(Empty(s.threads.Keys), s.log).Some?
            && (!s.locked ==>
                  && Replay(Empty(s.threads.Keys), s.log) == Some(Shared(s))
                  && s.hits + s.misses == Gets(s.log)
                  && Ownership(s)
                  && forall v :: v in s.made ==> v in s.pool || Held(s, v))
  {
    RunInv(states);
    var s := states[|states| - 1];
    if s.locked {
      var t :| t in s.threads && InCritical(s.threads[t].pc);
    } else {
      forall v | v in s.made
        ensures v in s.pool || Held(s, v)
      {
        assert !Moving(s, v);
      }
    }
  }

  // ---------------------------------------------------------------- progress

  lemma {:induction false} SomeFresh(made: set<Vid>) returns (v: Vid)
    ensures v !in made && forall w :: w in made ==> w < v
    decreases made
  {
    if made == {} {
      v := 0;
    } else {
      var x :| x in made;
      v := SomeFresh(made - {x});
      assert forall w :: w in made ==> w == x || w in made - {x};
      if x >= v { v := x + 1; }
    }
  }

  /** No thread is ever stuck: each can make a step of the code, and an idle one can begin any call it may make. */
  lemma CanStep(s: State, t: Tid) returns (s': State)
    requires Inv(s) && t in s.threads
    ensures Step(s, t, s')
    ensures s.threads[t].pc.Idle? ==> Step(s, t, At(s, t, Trying(Get)))
    ensures s.threads[t].pc.Idle? ==> forall n :: Step(s, t, At(s, t, Trying(Ensure(n))))
    ensures s.threads[t].pc.Idle? ==> forall v :: v in s.threads[t].held ==> Step(s, t, At(s, t, Resetting(v)))
  {
    assert Local(s, t);
    var th := s.threads[t];
    match th.pc {
      case Idle => s' := At(s, t, Trying(Get));
      case Resetting(v) => s' := At(s, t, Trying(Put(v)));
      case Trying(call) =>
        s' := if s.locked then At(s, t, Spinning(call)) else At(s, t, Enter(call)).(locked := true);
      case Spinning(call) => s' := if s.locked then s else At(s, t, Trying(call));
      case _ => s' := CanStepInside(s, t);
    }
  }

  lemma CanStepInside(s: State, t: Tid) returns (s': State)
    requires t in s.threads && Local(s, t) && InCritical(s.threads[t].pc)
    ensures Step(s, t, s')
  {
    var v0 := SomeFresh(s.made);
    var th := s.threads[t];
    match th.pc {
      case GetEntered =>
        s' := if s.pool == [] then At(s, t, MissCounted).(misses := s.misses + 1)
              else At(s, t, HitCounted).(hits := s.hits + 1);
      case MissCounted => s' := At(s, t, MissAllocated(v0)).(made := s.made + {v0});
      case MissAllocated(v) => s' := Unlock(s, t, th.held + {v}, Got(t, v, false));
      case HitCounted => s' := At(s, t, HitFront(s.pool[0]));
      case HitFront(v) => s' := At(s, t, HitPopped(v)).(pool := s.pool[1..]);
      case HitPopped(v) => s' := Unlock(s, t, th.held + {v}, Got(t, v, true));
      case PutEntered(v) =>
        s' := s.(threads := s.threads[t := Thread(PutPushed(v), th.held - {v})], pool := s.pool + [v]);
      case PutPushed(v) => s' := Unlock(s, t, th.held, Gave(t, v));
      case EnsureHead(n, k) =>
        s' := if |s.pool| < n then At(s, t, EnsureAllocated(n, k, v0)).(made := s.made + {v0})
              else At(s, t, EnsureDone(n, k));
      case EnsureAllocated(n, k, v) => s' := At(s, t, EnsureHead(n, k + 1)).(pool := [v] + s.pool);
      case EnsureDone(n, k) => s' := Unlock(s, t, th.held, Ensured(t, n, s.pool[..k]));
    }
  }

  /** How many steps the thread inside the lock takes to the unlock. */
  function ToGo(pc: Pc, size: nat): nat {
    match pc
    case GetEntered => if size == 0 then 3 else 4
    case MissCounted => 2
    case MissAllocated(_) => 1
    case HitCounted => 3
    case HitFront(_) => 2
    case HitPopped(_) => 1
    case PutEntered(_) => 2
    case PutPushed(_) => 1
    case EnsureHead(n, _) => if size < n then 2 * (n - size) + 2 else 2
    case EnsureAllocated(n, _, _) => if size < n then 2 * (n - size) + 1 else 3
    case EnsureDone(_, _) => 1
    case _ => 0
  }

  /**
   The lock is always given up: the thread inside can step, each of its steps brings the
   unlock one closer, and no step of another thread takes it away again.
   */
  lemma HolderProgress(s: State, t: Tid, u: Tid, s': State)
    requires Inv(s) && t in s.threads && InCritical(s.threads[t].pc) && Step(s, u, s')
    ensures t in s'.threads
    ensures ToGo(s'.threads[t].pc, |s'.pool|) == ToGo(s.threads[t].pc, |s.pool|) - if u == t then 1 else 0
    ensures ToGo(s.threads[t].pc, |s.pool|) > 0
    ensures u == t && ToGo(s.threads[t].pc, |s.pool|) == 1 ==> !s'.locked && s'.threads[t].pc == Idle
  {
    StepShape(s, u, s');
    if u == t {
      assert Local(s, t);
      OwnProgress(s, t, s');
    } else {
      assert !InCritical(s.threads[u].pc) && s'.threads[t] == s.threads[t];
      QuietStep(s, u, s');
    }
  }

  lemma OwnProgress(s: State, t: Tid, s': State)
    requires t in s.threads && Local(s, t) && InCritical(s.threads[t].pc) && Step(s, t, s')
    ensures t in s'.threads
    ensures ToGo(s'.threads[t].pc, |s'.pool|) == ToGo(s.threads[t].pc, |s.pool|) - 1
    ensures ToGo(s.threads[t].pc, |s.pool|) == 1 ==> !s'.locked && s'.threads[t].pc == Idle
  {
  }
}
