/**
 The pthread mutex, for any number of threads, as an interleaving of single memory accesses.

 `rec++` and `rec--` are a load and a store; the compare-and-swap is one access. A thread id
 is positive, so owner 0 means that nobody owns the mutex.
 */
module Mutex {
  const EBUSY := 16

  /** The next memory access of a thread inside the library; Idle is in client code. */
  datatype Pc =
    | Idle
    | ReadOwner(try: bool) | LoadRec | StoreRec(value: int)
    | Swap(try: bool) | SetOwner | SetRec
    | UnlockLoad | UnlockStore(value: int) | UnlockCheck | ClearOwner | ClearTaken

  /** A thread: where it is, the locks it was granted, the unlocks it started, its last result. */
  datatype Thread = Thread(pc: Pc, locks: nat, unlocks: nat, ret: nat)

  datatype State = State(recursive: bool, taken: int, owner: nat, rec: int, threads: map<nat, Thread>)

  datatype Action = CallLock | CallTryLock | CallUnlock | Access

  function Init(recursive: bool, tids: set<nat>): State {
    State(recursive, 0, 0, 0, map t | t in tids :: Thread(Idle, 0, 0, 0))
  }

  /** Locks granted and not yet given back. */
  function Depth(th: Thread): int { th.locks - th.unlocks }

  /** A step of thread t; only a thread that was granted the mutex unlocks it. */
  predicate Enabled(s: State, t: nat, a: Action) {
    t in s.threads &&
    match a
    case CallLock => s.threads[t].pc == Idle
    case CallTryLock => s.threads[t].pc == Idle
    case CallUnlock => s.threads[t].pc == Idle && Depth(s.threads[t]) > 0
    case Access => s.threads[t].pc != Idle
  }

  function Goto(s: State, t: nat, pc: Pc): State
    requires t in s.threads
  {
    s.(threads := s.threads[t := s.threads[t].(pc := pc)])
  }

  function Granted(s: State, t: nat): State
    requires t in s.threads
  {
    var th := s.threads[t];
    s.(threads := s.threads[t := th.(pc := Idle, locks := th.locks + 1, ret := 0)])
  }

  function Returned(s: State, t: nat, ret: nat): State
    requires t in s.threads
  {
    s.(threads := s.threads[t := s.threads[t].(pc := Idle, ret := ret)])
  }

  function StartUnlock(s: State, t: nat): State
    requires t in s.threads
  {
    var th := s.threads[t];
    s.(threads := s.threads[t := th.(pc := if s.recursive then UnlockLoad else ClearTaken, unlocks := th.unlocks + 1)])
  }

  /** One memory access of thread t. */
  function DoAccess(s: State, t: nat): State
    requires Enabled(s, t, Access)
  {
    match s.threads[t].pc
    case Idle => s
    case ReadOwner(try) => if s.owner == t then Goto(s, t, LoadRec) else Goto(s, t, Swap(try))
    case LoadRec => Goto(s, t, StoreRec(s.rec + 1))
    case StoreRec(v) => Granted(s.(rec := v), t)
    case Swap(try) =>
      if s.taken == 0 then
        (if s.recursive then Goto(s.(taken := 1), t, SetOwner) else Granted(s.(taken := 1), t))
      else if try then Returned(s, t, EBUSY)
      else s
    case SetOwner => Goto(s.(owner := t), t, SetRec)
    case SetRec => Granted(s.(rec := 1), t)
    case UnlockLoad => Goto(s, t, UnlockStore(s.rec - 1))
    case UnlockStore(v) => Goto(s.(rec := v), t, UnlockCheck)
    case UnlockCheck => if s.rec == 0 then Goto(s, t, ClearOwner) else Returned(s, t, 0)
    case ClearOwner => Goto(s.(owner := 0), t, ClearTaken)
    case ClearTaken => Returned(s.(taken := 0), t, 0)
  }

  function Apply(s: State, t: nat, a: Action): State
    requires Enabled(s, t, a)
  {
    match a
    case CallLock => Goto(s, t, if s.recursive then ReadOwner(false) else Swap(false))
    case CallTryLock => Goto(s, t, if s.recursive then ReadOwner(true) else Swap(true))
    case CallUnlock => StartUnlock(s, t)
    case Access => DoAccess(s, t)
  }

  // ---- the invariant ----------------------------------------------------------------------

  predicate Unlocking(pc: Pc) {
    pc.UnlockLoad? || pc.UnlockStore? || pc.UnlockCheck? || pc.ClearOwner? || pc.ClearTaken?
  }

  /** Between winning the compare-and-swap and clearing `taken`. */
  predicate Holds(th: Thread) {
    Depth(th) > 0 || th.pc.SetOwner? || th.pc.SetRec? || Unlocking(th.pc)
  }

  ghost predicate AtMostOne(s: State) {
    forall a, b :: a in s.threads && b in s.threads && Holds(s.threads[a]) && Holds(s.threads[b]) ==> a == b
  }

  ghost predicate TakenIffHeld(s: State) {
    && (s.taken == 0 || s.taken == 1)
    && (s.taken == 0 ==> s.owner == 0 && s.rec == 0 && forall t :: t in s.threads ==> !Holds(s.threads[t]))
    && (s.taken == 1 ==> exists t :: t in s.threads && Holds(s.threads[t]))
    && (s.owner != 0 ==> s.owner in s.threads && Holds(s.threads[s.owner]))
  }

  /** What a holder of a recursive mutex sees in `owner` and `rec`. */
  ghost predicate HolderView(s: State, t: nat, th: Thread) {
    match th.pc
    case SetOwner => s.owner == 0 && s.rec == 0 && Depth(th) == 0
    case SetRec => s.owner == t && s.rec == 0 && Depth(th) == 0
    case Swap(_) => false
    case LoadRec => s.owner == t && s.rec == Depth(th)
    case StoreRec(v) => s.owner == t && s.rec == Depth(th) && v == Depth(th) + 1
    case UnlockLoad => s.owner == t && s.rec == Depth(th) + 1
    case UnlockStore(v) => s.owner == t && s.rec == Depth(th) + 1 && v == Depth(th)
    case UnlockCheck => s.owner == t && s.rec == Depth(th)
    case ClearOwner => s.owner == t && s.rec == 0 && Depth(th) == 0
    case ClearTaken => s.owner == 0 && s.rec == 0 && Depth(th) == 0
    case _ => s.owner == t && s.rec == Depth(th)
  }

  /** What every thread may be doing. */
  ghost predicate Sane(s: State, t: nat, th: Thread) {
    && t > 0 && Depth(th) >= 0
    && (s.recursive && Holds(th) ==> HolderView(s, t, th))
    && (s.recursive && !Holds(th) ==> !th.pc.LoadRec? && !th.pc.StoreRec?)
    && (!s.recursive ==> s.owner == 0 && s.rec == 0 && (th.pc.Idle? || th.pc.Swap? || th.pc.ClearTaken?))
    && (!s.recursive ==> Depth(th) <= 1 && (th.pc.ClearTaken? ==> Depth(th) == 0))
  }

  ghost predicate Inv(s: State) {
    && AtMostOne(s) && TakenIffHeld(s)
    && forall t :: t in s.threads ==> Sane(s, t, s.threads[t])
  }

  lemma InitInv(recursive: bool, tids: set<nat>)
    requires 0 !in tids
    ensures Inv(Init(recursive, tids))
  {}

  /** A step that leaves the shared fields alone and grants or gives back nothing. */
  lemma PrivateStep(s: State, s': State, t: nat)
    requires Inv(s) && t in s.threads && t in s'.threads && s' == s.(threads := s.threads[t := s'.threads[t]])
    requires Sane(s', t, s'.threads[t]) && (Holds(s'.threads[t]) <==> Holds(s.threads[t]))
    ensures Inv(s')
  {
    forall u | u in s'.threads ensures Sane(s', u, s'.threads[u]) {
      assert Sane(s, u, s.threads[u]);
    }
    if s'.taken == 1 {
      var h :| h in s.threads && Holds(s.threads[h]);
      assert h in s'.threads && Holds(s'.threads[h]);
    }
  }

  /** A step of the holder, or of the thread that takes the free mutex. */
  lemma HolderStep(s: State, s': State, t: nat)
    requires Inv(s) && t in s.threads && t in s'.threads && s'.recursive == s.recursive
    requires s'.threads == s.threads[t := s'.threads[t]]
    requires s.taken == 0 || Holds(s.threads[t])
    requires Sane(s', t, s'.threads[t]) && s'.taken == (if Holds(s'.threads[t]) then 1 else 0)
    requires s'.taken == 0 ==> s'.owner == 0 && s'.rec == 0
    requires s'.owner == 0 || (s'.owner == t && Holds(s'.threads[t]))
    ensures Inv(s')
  {
    forall u | u in s'.threads && u != t ensures Sane(s', u, s'.threads[u]) && !Holds(s'.threads[u]) {
      assert Sane(s, u, s.threads[u]);
    }
  }

  lemma CallInv(s: State, t: nat, a: Action)
    requires Inv(s) && Enabled(s, t, a) && !a.Access?
    ensures Inv(Apply(s, t, a))
  {
    assert Sane(s, t, s.threads[t]);
    InvFacts(s, t);
    hide Inv;
    if a.CallUnlock? {
      HolderStep(s, Apply(s, t, a), t);
    } else {
      PrivateStep(s, Apply(s, t, a), t);
    }
  }

  lemma LockInv(s: State, t: nat)
    requires Inv(s) && Enabled(s, t, Access) && !Unlocking(s.threads[t].pc)
    ensures Inv(DoAccess(s, t))
  {
    var s', pc := DoAccess(s, t), s.threads[t].pc;
    assert Sane(s, t, s.threads[t]);
    InvFacts(s, t);
    hide Inv;
    if pc.ReadOwner? || pc.LoadRec? || (pc.Swap? && s.taken != 0) {
      PrivateStep(s, s', t);
    } else {
      HolderStep(s, s', t);
    }
  }

  lemma UnlockInv(s: State, t: nat)
    requires Inv(s) && Enabled(s, t, Access) && Unlocking(s.threads[t].pc)
    ensures Inv(DoAccess(s, t))
  {
    assert Sane(s, t, s.threads[t]);
    InvFacts(s, t);
    hide Inv;
    HolderStep(s, DoAccess(s, t), t);
  }

  /** Every memory access of every thread keeps the invariant. */
  lemma StepInv(s: State, t: nat, a: Action)
    requires Inv(s) && Enabled(s, t, a)
    ensures Inv(Apply(s, t, a))
  {
    hide Inv, DoAccess;
    if !a.Access? {
      CallInv(s, t, a);
    } else if Unlocking(s.threads[t].pc) {
      UnlockInv(s, t);
    } else {
      LockInv(s, t);
    }
  }

  lemma InvFacts(s: State, t: nat)
    requires Inv(s) && t in s.threads
    ensures s.taken == 0 ==> !Holds(s.threads[t]) && s.owner == 0 && s.rec == 0
    ensures s.taken == 0 || s.taken == 1
    ensures s.owner == t ==> t == 0 || Holds(s.threads[t])
  {}

  // ---- whole runs -------------------------------------------------------------------------

  ghost predicate Run(s: State, steps: seq<(nat, Action)>, t: State)
    decreases |steps|
  {
    if steps == [] then t == s
    else Enabled(s, steps[0].0, steps[0].1) && Run(Apply(s, steps[0].0, steps[0].1), steps[1..], t)
  }

  lemma {:induction false} RunInv(s: State, steps: seq<(nat, Action)>, t: State)
    requires Inv(s) && Run(s, steps, t)
    ensures Inv(t)
    decreases |steps|
  {
    hide Inv, Apply, Enabled;
    if steps != [] {
      StepInv(s, steps[0].0, steps[0].1);
      RunInv(Apply(s, steps[0].0, steps[0].1), steps[1..], t);
    }
  }

  /** Mutual exclusion, and what `owner` and `rec` mean, after any interleaving. */
  lemma MutualExclusion(recursive: bool, tids: set<nat>, steps: seq<(nat, Action)>, s: State)
    requires 0 !in tids && Run(Init(recursive, tids), steps, s)
    ensures forall a, b :: a in s.threads && b in s.threads && Depth(s.threads[a]) > 0 && Depth(s.threads[b]) > 0 ==> a == b
    ensures s.owner != 0 ==> s.owner in s.threads && Holds(s.threads[s.owner])
    ensures forall a :: a in s.threads && s.recursive && Depth(s.threads[a]) > 0 && s.threads[a].pc == Idle ==>
      s.owner == a && s.rec == Depth(s.threads[a])
  {
    InitInv(recursive, tids);
    RunInv(Init(recursive, tids), steps, s);
    forall a | a in s.threads && s.recursive && Depth(s.threads[a]) > 0 && s.threads[a].pc == Idle
      ensures s.owner == a && s.rec == Depth(s.threads[a])
    {
      assert Sane(s, a, s.threads[a]);
    }
  }

  /** The access that ends an unlock releases the mutex exactly when unlocks match locks. */
  lemma ReleasedIffMatched(s: State, t: nat)
    requires Inv(s) && Enabled(s, t, Access) && Unlocking(s.threads[t].pc) && DoAccess(s, t).threads[t].pc == Idle
    ensures DoAccess(s, t).taken == 0 <==> s.threads[t].locks == s.threads[t].unlocks
    ensures DoAccess(s, t).taken == 1 <==> s.threads[t].locks > s.threads[t].unlocks
  {
    assert Sane(s, t, s.threads[t]);
    InvFacts(s, t);
  }

  /** And nothing else ever releases it. */
  lemma OnlyUnlockReleases(s: State, t: nat, a: Action)
    requires Inv(s) && Enabled(s, t, a) && s.taken == 1 && Apply(s, t, a).taken == 0
    ensures a == Access && Unlocking(s.threads[t].pc) && Depth(s.threads[t]) == 0
    ensures forall u :: u in s.threads ==> !Holds(Apply(s, t, a).threads[u])
  {
    assert Sane(s, t, s.threads[t]);
    StepInv(s, t, a);
  }

  ghost predicate Held(s: State) { exists u :: u in s.threads && Holds(s.threads[u]) }

  /** trylock fails, with EBUSY and no lock, exactly when some thread holds the mutex at its
      compare-and-swap; otherwise the thread holds it afterwards and does not return EBUSY. */
  lemma TryLockBusyIff(s: State, t: nat)
    requires Inv(s) && Enabled(s, t, Access) && s.threads[t].pc == Swap(true)
    ensures
      var th := DoAccess(s, t).threads[t];
      && (th.pc == Idle && th.ret == EBUSY <==> Held(s))
      && (Held(s) ==> th.locks == s.threads[t].locks)
      && (!Held(s) ==> Holds(th) && DoAccess(s, t).taken == 1)
  {
    assert Sane(s, t, s.threads[t]);
  }

  /** lock makes no progress at its compare-and-swap while some thread holds the mutex. */
  lemma LockWaitsIff(s: State, t: nat)
    requires Inv(s) && Enabled(s, t, Access) && s.threads[t].pc == Swap(false)
    ensures DoAccess(s, t) == s <==> Held(s)
    ensures !Held(s) ==> Holds(DoAccess(s, t).threads[t]) && DoAccess(s, t).taken == 1
  {
    assert Sane(s, t, s.threads[t]);
  }

  // ---- whole calls ------------------------------------------------------------------------

  /** Thread t makes no further call. */
  predicate NoCall(steps: seq<(nat, Action)>, t: nat) {
    forall i :: 0 <= i < |steps| && steps[i].0 == t ==> steps[i].1 == Access
  }

  /** A thread inside, or just back from, the call it made when it was `was`. */
  ghost predicate InCall(call: Action, was: Thread, now: Thread) {
    match call
    case CallLock =>
      && now.unlocks == was.unlocks
      && if now.pc == Idle then now.ret == 0 && now.locks == was.locks + 1 else Locking(now.pc, false) && now.locks == was.locks
    case CallTryLock =>
      && now.unlocks == was.unlocks
      && if now.pc == Idle then (now.ret == 0 && now.locks == was.locks + 1) || (now.ret == EBUSY && now.locks == was.locks)
         else Locking(now.pc, true) && now.locks == was.locks
    case CallUnlock =>
      && now.unlocks == was.unlocks + 1 && now.locks == was.locks
      && if now.pc == Idle then now.ret == 0 else Unlocking(now.pc)
    case Access => false
  }

  predicate Locking(pc: Pc, try: bool) {
    pc == ReadOwner(try) || pc == Swap(try) || pc.LoadRec? || pc.StoreRec? || pc.SetOwner? || pc.SetRec?
  }

  lemma {:induction false} CallGoesOn(call: Action, was: Thread, s: State, t: nat, steps: seq<(nat, Action)>, u: State)
    requires t in s.threads && InCall(call, was, s.threads[t]) && Run(s, steps, u) && NoCall(steps, t)
    ensures t in u.threads && InCall(call, was, u.threads[t])
    decreases |steps|
  {
    if steps != [] {
      CallStep(call, was, s, t, steps[0].0, steps[0].1);
      hide InCall, Apply, Enabled;
      CallGoesOn(call, was, Apply(s, steps[0].0, steps[0].1), t, steps[1..], u);
    }
  }

  lemma CallStep(call: Action, was: Thread, s: State, t: nat, x: nat, a: Action)
    requires t in s.threads && InCall(call, was, s.threads[t]) && Enabled(s, x, a) && (x == t ==> a == Access)
    ensures t in Apply(s, x, a).threads && InCall(call, was, Apply(s, x, a).threads[t])
  {
    if x != t {
      assert Apply(s, x, a).threads[t] == s.threads[t];
    }
  }

  /**
   What a call answers, over every interleaving between its start and its return. lock returns 0
   and then the thread has one lock more; trylock returns 0 iff it was granted, and else EBUSY;
   unlock returns 0. Until the return no lock is counted.
   */
  lemma CallResult(s: State, t: nat, call: Action, steps: seq<(nat, Action)>, u: State)
    requires Enabled(s, t, call) && call != Access && Run(Apply(s, t, call), steps, u) && NoCall(steps, t)
    ensures t in u.threads
    ensures
      var was, now := s.threads[t], u.threads[t];
      && (now.pc == Idle ==>
           && now.ret == (if call == CallTryLock && now.locks == was.locks then EBUSY else 0)
           && now.locks == was.locks + (if call == CallLock || (call == CallTryLock && now.ret == 0) then 1 else 0))
      && (now.pc != Idle ==> now.locks == was.locks)
      && now.unlocks == was.unlocks + (if call == CallUnlock then 1 else 0)
  {
    CallGoesOn(call, s.threads[t], Apply(s, t, call), t, steps, u);
  }

  /** The accesses a call still has to make. */
  function Left(pc: Pc): nat {
    match pc
    case Idle => 0
    case SetRec => 1 case SetOwner => 2 case Swap(_) => 3 case ReadOwner(_) => 4
    case StoreRec(_) => 1 case LoadRec => 2
    case ClearTaken => 1 case ClearOwner => 2 case UnlockCheck => 3 case UnlockStore(_) => 4 case UnlockLoad => 5
  }

  /** Every access brings the call nearer to its return, except a lock's at a mutex that is held. */
  lemma OnlyLockWaits(s: State, t: nat)
    requires Inv(s) && Enabled(s, t, Access)
    ensures Left(DoAccess(s, t).threads[t].pc) < Left(s.threads[t].pc) <==> !(s.threads[t].pc == Swap(false) && Held(s))
  {
    assert Sane(s, t, s.threads[t]);
  }

  /** A recursive mutex never makes its owner wait: a nested call goes straight to the count. */
  lemma NestedLockGranted(s: State, t: nat)
    requires Inv(s) && s.recursive && t in s.threads && Depth(s.threads[t]) > 0 && s.threads[t].pc.ReadOwner?
    ensures DoAccess(s, t).threads[t].pc == LoadRec
    ensures
      var s1 := DoAccess(s, t);
      var s3 := DoAccess(DoAccess(s1, t), t);
      && s3 == s.(rec := s.rec + 1, threads := s.threads[t := s3.threads[t]])
      && s3.threads[t] == s.threads[t].(pc := Idle, locks := s.threads[t].locks + 1, ret := 0)
  {
    assert Sane(s, t, s.threads[t]);
    var s1 := DoAccess(s, t);
    var s2 := DoAccess(s1, t);
    assert s2.threads[t] == s.threads[t].(pc := StoreRec(s.rec + 1));
    assert DoAccess(s2, t).threads == Granted(s, t).threads;
  }
}
