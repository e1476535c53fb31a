/**
 The scheduler as a state machine.

 It runs on one CPU with interrupts off inside each function, so every function body is one
 atomic step. Between sched_save and the end of schedule() no thread is on the CPU.
 */
module SchedState {
  import opened ReadyQueue

  datatype Status = Ready | Running | Blocked

  datatype Thread = Thread(state: Status, shouldExit: bool, shouldBlock: bool, uninterruptible: bool)

  const KERNEL_PID := 0
  const KERNEL := Td(KERNEL_PID, 1)
  const MAX_TID := 0xffff

  /** A thread that may be removed instead of being run. */
  predicate Doomed(th: Thread) { th.shouldExit && !th.uninterruptible }

  const NEW := Thread(Blocked, false, false, false)

  /** What a process's end means to others: its parent, and whether SIGCHLD is in its own ignore mask. */
  datatype Family = Family(parent: nat, ignoresChild: bool)

  /** The thread table, the live processes, the ready queue, the CPU, and the killed list. */
  datatype Sys = Sys(table: map<Td, Thread>, live: set<nat>, queue: seq<Td>, onCpu: bool, current: Td, retired: seq<nat>,
                     families: map<nat, Family>)

  datatype Step =
    | Save | Reap | Dispatch
    | Unblock(td: Td)
    | NewThread(td: Td) | NewProcess(pid: nat, family: Family)
    | Kill(pid: nat) | Exit | EnterSyscall | LeaveSyscall | RequestBlock

  /** After sched_init: the kernel thread is ready and nothing runs yet. */
  function Boot(): Sys {
    Sys(map[KERNEL := NEW.(state := Ready)], {KERNEL_PID}, [KERNEL], false, KERNEL, [],
        map[KERNEL_PID := Family(KERNEL_PID, true)])
  }

  ghost predicate Enabled(s: Sys, step: Step) {
    match step
    case Save => s.onCpu
    case Reap => !s.onCpu && s.queue != [] && s.queue[0] in s.table && Doomed(s.table[s.queue[0]])
    case Dispatch => !s.onCpu && s.queue != [] && s.queue[0] in s.table && !Doomed(s.table[s.queue[0]])
    case Unblock(_) => true
    case NewThread(td) => td.pid in s.live && 0 < td.tid <= MAX_TID && td !in s.table
    case NewProcess(pid, _) => pid !in s.live
    case Kill(pid) => pid != KERNEL_PID
    case Exit => s.onCpu && s.current.pid != KERNEL_PID
    case EnterSyscall => s.onCpu
    case LeaveSyscall => s.onCpu
    case RequestBlock => s.onCpu && s.current.pid != KERNEL_PID
  }

  function SetThread(s: Sys, td: Td, th: Thread): Sys {
    s.(table := s.table[td := th])
  }

  /** sched_save: the interrupted thread blocks if it asked to, else it goes to the back. */
  function DoSave(s: Sys): Sys
    requires s.current in s.table
  {
    var th := s.table[s.current];
    var off := s.(onCpu := false);
    if th.shouldBlock then SetThread(off, s.current, th.(shouldBlock := false, state := Blocked))
    else SetThread(off.(queue := s.queue + [s.current]), s.current, th.(state := Ready))
  }

  /** The lazy kill: the popped thread is removed, and its process when it was the last one. */
  function DoReap(s: Sys): Sys
    requires s.queue != []
  {
    var td := s.queue[0];
    var table := s.table - {td};
    var gone := s.(table := table, queue := s.queue[1..]);
    if td.pid in Pids(table) then gone
    else gone.(live := s.live - {td.pid}, retired := s.retired + [td.pid], families := s.families - {td.pid})
  }

  function DoDispatch(s: Sys): Sys
    requires s.queue != [] && s.queue[0] in s.table
  {
    var td := s.queue[0];
    SetThread(s, td, s.table[td].(state := Running)).(queue := s.queue[1..], onCpu := true, current := td)
  }

  function DoUnblock(s: Sys, td: Td): Sys {
    if td in s.table && s.table[td].state == Blocked then
      SetThread(s.(queue := s.queue + [td]), td, s.table[td].(state := Ready))
    else s
  }

  function DoKill(s: Sys, pid: nat): Sys {
    s.(table := map td | td in s.table :: if td.pid == pid then s.table[td].(shouldExit := true) else s.table[td])
  }

  function Apply(s: Sys, step: Step): Sys
    requires Enabled(s, step) && (s.onCpu ==> s.current in s.table)
  {
    match step
    case Save => DoSave(s)
    case Reap => DoReap(s)
    case Dispatch => DoDispatch(s)
    case Unblock(td) => DoUnblock(s, td)
    case NewThread(td) => DoUnblock(SetThread(s, td, NEW), td)
    case NewProcess(pid, family) =>
      SetThread(s.(live := s.live + {pid}, families := s.families[pid := family]), Td(pid, 1), NEW)
    case Kill(pid) => DoKill(s, pid)
    case Exit => SetThread(s, s.current, s.table[s.current].(shouldExit := true))
    case EnterSyscall => SetThread(s, s.current, s.table[s.current].(uninterruptible := true))
    case LeaveSyscall => SetThread(s, s.current, s.table[s.current].(uninterruptible := false))
    case RequestBlock => SetThread(s, s.current, s.table[s.current].(shouldBlock := true))
  }

  // ---- the invariant ----------------------------------------------------------------------

  function Pids(table: map<Td, Thread>): set<nat> { set td | td in table :: td.pid }

  predicate IsReady(s: Sys, td: Td) { td in s.table && s.table[td].state == Ready }

  /** A thread is READY exactly when it is queued, and then it is queued once. */
  ghost predicate QueuedIffReady(s: Sys) {
    forall td :: multiset(s.queue)[td] == if IsReady(s, td) then 1 else 0
  }

  /** At most one thread is RUNNING, and it is the current one. */
  ghost predicate OneRunning(s: Sys) {
    && (s.onCpu ==> s.current in s.table && s.table[s.current].state == Running)
    && (forall td :: td in s.table && s.table[td].state == Running ==> s.onCpu && td == s.current)
  }

  /** The kernel thread can always be scheduled. */
  ghost predicate KernelAlive(s: Sys) {
    KERNEL in s.table && !s.table[KERNEL].state.Blocked? && !s.table[KERNEL].shouldBlock && !s.table[KERNEL].shouldExit
  }

  /** The live processes are those that have a thread. */
  ghost predicate LiveHasThreads(s: Sys) {
    && s.live == Pids(s.table) && s.families.Keys == s.live
    && forall td :: td in s.table ==> 0 < td.tid <= MAX_TID
  }

  /** Only the thread on the CPU can have asked to block. */
  ghost predicate NoStaleRequest(s: Sys) {
    forall td :: td in s.table && s.table[td].shouldBlock ==> s.onCpu && td == s.current
  }

  ghost predicate Inv(s: Sys) {
    QueuedIffReady(s) && OneRunning(s) && KernelAlive(s) && LiveHasThreads(s) && NoStaleRequest(s)
  }

  lemma BootInv()
    ensures Inv(Boot())
  {}

  lemma PushCount(queue: seq<Td>, x: Td, td: Td)
    ensures multiset(queue + [x])[td] == multiset(queue)[td] + if td == x then 1 else 0
  {}

  lemma PopCount(queue: seq<Td>, td: Td)
    requires queue != []
    ensures multiset(queue)[td] == multiset(queue[1..])[td] + if td == queue[0] then 1 else 0
  {
    assert queue == [queue[0]] + queue[1..];
  }

  /** A thread that becomes ready and is pushed. */
  lemma PushQueued(s: Sys, s': Sys, td: Td, th: Thread)
    requires QueuedIffReady(s) && !IsReady(s, td) && th.state == Ready
    requires s'.table == s.table[td := th] && s'.queue == s.queue + [td]
    ensures QueuedIffReady(s')
  {
    forall x ensures multiset(s'.queue)[x] == if IsReady(s', x) then 1 else 0 {
      PushCount(s.queue, td, x);
      assert x != td ==> IsReady(s', x) == IsReady(s, x);
    }
  }

  /** The popped thread stops being ready. */
  lemma PopQueued(s: Sys, s': Sys)
    requires QueuedIffReady(s) && s.queue != [] && s'.queue == s.queue[1..] && !IsReady(s', s.queue[0])
    requires forall x :: x != s.queue[0] ==> IsReady(s', x) == IsReady(s, x)
    ensures QueuedIffReady(s')
  {
    forall x ensures multiset(s'.queue)[x] == if IsReady(s', x) then 1 else 0 {
      PopCount(s.queue, x);
      assert multiset(s.queue)[x] == if IsReady(s, x) then 1 else 0;
    }
  }

  lemma PidsSet(table: map<Td, Thread>, td: Td, th: Thread)
    ensures Pids(table[td := th]) == Pids(table) + {td.pid}
  {
    assert forall x :: x in table ==> x in table[td := th];
    assert td in table[td := th];
  }

  lemma SaveInv(s: Sys)
    requires Inv(s) && s.onCpu
    ensures Inv(DoSave(s))
  {
    var s' := DoSave(s);
    PidsSet(s.table, s.current, s'.table[s.current]);
    if !s.table[s.current].shouldBlock {
      PushQueued(s, s', s.current, s'.table[s.current]);
    } else {
      SameQueued(s, s');
    }
  }

  lemma SameQueued(s: Sys, s': Sys)
    requires QueuedIffReady(s) && s'.queue == s.queue && forall x :: IsReady(s', x) == IsReady(s, x)
    ensures QueuedIffReady(s')
  {}

  /** The head of the queue exists and is READY; there is one whenever nothing runs. */
  lemma QueueHead(s: Sys)
    requires Inv(s)
    ensures !s.onCpu ==> s.queue != []
    ensures s.queue != [] ==> IsReady(s, s.queue[0]) && s.queue[0] !in s.queue[1..]
  {
    if !s.onCpu {
      assert IsReady(s, KERNEL);
      assert multiset(s.queue)[KERNEL] == 1;
    }
    if s.queue != [] {
      assert multiset(s.queue)[s.queue[0]] > 0;
      PopCount(s.queue, s.queue[0]);
    }
  }

  lemma ReapInv(s: Sys)
    requires Inv(s) && Enabled(s, Reap)
    ensures Inv(DoReap(s))
  {
    var s', td := DoReap(s), s.queue[0];
    PopQueued(s, s');
    assert s.table == s'.table[td := s.table[td]];
    PidsSet(s'.table, td, s.table[td]);
  }

  lemma DispatchInv(s: Sys)
    requires Inv(s) && Enabled(s, Dispatch)
    ensures Inv(DoDispatch(s))
  {
    var s', td := DoDispatch(s), s.queue[0];
    QueueHead(s);
    PopQueued(s, s');
    PidsSet(s.table, td, s'.table[td]);
  }

  lemma UnblockInv(s: Sys, td: Td)
    requires Inv(s)
    ensures Inv(DoUnblock(s, td))
    ensures td in s.table && s.table[td].state == Blocked ==>
      IsReady(DoUnblock(s, td), td) && DoUnblock(s, td).queue == s.queue + [td]
  {
    if td in s.table && s.table[td].state == Blocked {
      var s' := DoUnblock(s, td);
      PushQueued(s, s', td, s'.table[td]);
      PidsSet(s.table, td, s'.table[td]);
    }
  }

  /** Flags of the current thread, and blocked newcomers, do not touch the queue. */
  lemma QuietInv(s: Sys, td: Td, th: Thread, live: set<nat>, families: map<nat, Family>)
    requires Inv(s) && 0 < td.tid <= MAX_TID && live == s.live + {td.pid} && families.Keys == live
    requires if td in s.table then th.state == s.table[td].state else th == NEW
    requires td == KERNEL ==> !th.shouldBlock && !th.shouldExit
    requires th.shouldBlock ==> s.onCpu && td == s.current
    ensures Inv(SetThread(s.(live := live, families := families), td, th))
  {
    var s' := SetThread(s.(live := live, families := families), td, th);
    SameQueued(s, s');
    PidsSet(s.table, td, th);
  }

  lemma KillInv(s: Sys, pid: nat)
    requires Inv(s) && pid != KERNEL_PID
    ensures Inv(DoKill(s, pid))
  {
    var s' := DoKill(s, pid);
    SameQueued(s, s');
    assert s'.table.Keys == s.table.Keys;
    assert Pids(s'.table) == Pids(s.table);
  }

  lemma StepInv(s: Sys, step: Step)
    requires Inv(s) && Enabled(s, step)
    ensures Inv(Apply(s, step))
  {
    hide QueuedIffReady, KernelAlive;
    assert s.onCpu ==> s.live + {s.current.pid} == s.live;
    KernelFlags(s);
    match step
    case Save => SaveInv(s);
    case Reap => ReapInv(s);
    case Dispatch => DispatchInv(s);
    case Unblock(td) => UnblockInv(s, td);
    case NewThread(td) =>
      assert s.live + {td.pid} == s.live;
      QuietInv(s, td, NEW, s.live, s.families);
      UnblockInv(SetThread(s, td, NEW), td);
    case NewProcess(pid, family) => QuietInv(s, Td(pid, 1), NEW, s.live + {pid}, s.families[pid := family]);
    case Kill(pid) => KillInv(s, pid);
    case Exit => QuietInv(s, s.current, s.table[s.current].(shouldExit := true), s.live, s.families);
    case EnterSyscall => QuietInv(s, s.current, s.table[s.current].(uninterruptible := true), s.live, s.families);
    case LeaveSyscall => QuietInv(s, s.current, s.table[s.current].(uninterruptible := false), s.live, s.families);
    case RequestBlock => QuietInv(s, s.current, s.table[s.current].(shouldBlock := true), s.live, s.families);
  }

  lemma KernelFlags(s: Sys)
    requires Inv(s)
    ensures KERNEL in s.table && !s.table[KERNEL].shouldBlock && !s.table[KERNEL].shouldExit
  {}

  // ---- whole runs -------------------------------------------------------------------------

  ghost predicate Run(s: Sys, steps: seq<Step>, t: Sys)
    decreases |steps|
  {
    if steps == [] then t == s
    else Enabled(s, steps[0]) && (s.onCpu ==> s.current in s.table) && Run(Apply(s, steps[0]), steps[1..], t)
  }

  lemma {:induction false} RunInv(s: Sys, steps: seq<Step>, t: Sys)
    requires Inv(s) && Run(s, steps, t)
    ensures Inv(t)
    decreases |steps|
  {
    hide Inv, Apply, Enabled;
    if steps != [] {
      StepInv(s, steps[0]);
      RunInv(Apply(s, steps[0]), steps[1..], t);
    }
  }

  lemma {:induction false} RunSnoc(s: Sys, steps: seq<Step>, t: Sys, step: Step)
    requires Inv(s) && Run(s, steps, t) && Enabled(t, step)
    ensures Inv(t) && Inv(Apply(t, step)) && Run(s, steps + [step], Apply(t, step))
    decreases |steps|
  {
    hide Inv, Apply, Enabled;
    RunInv(s, steps, t);
    StepInv(t, step);
    InvCpu(t);
    if steps == [] {
      assert [step][1..] == [] && steps + [step] == [step];
    } else {
      StepInv(s, steps[0]);
      RunSnoc(Apply(s, steps[0]), steps[1..], t, step);
      assert (steps + [step])[1..] == steps[1..] + [step];
    }
  }

  lemma InvCpu(s: Sys)
    requires Inv(s)
    ensures s.onCpu ==> s.current in s.table
  {}

  /** In every reachable state of the scheduler. */
  lemma ReachableStates(steps: seq<Step>, s: Sys)
    requires Run(Boot(), steps, s)
    ensures forall td :: multiset(s.queue)[td] == if IsReady(s, td) then 1 else 0
    ensures forall td :: td in s.table && s.table[td].state == Running ==> s.onCpu && td == s.current
    ensures s.onCpu ==> s.current in s.table && s.table[s.current].state == Running
    ensures forall td :: td in s.queue ==> td in s.table
    ensures forall pid :: pid in s.live <==> exists td :: td in s.table && td.pid == pid
    ensures !s.onCpu ==> s.queue != []
    ensures forall td :: td in s.table && s.table[td].shouldBlock ==> s.onCpu && td == s.current
  {
    BootInv();
    RunInv(Boot(), steps, s);
    QueueHead(s);
    forall td | td in s.queue ensures td in s.table {
      assert multiset(s.queue)[td] > 0;
    }
  }

  /** A thread disappears only by being popped with should_exit set outside a system call. */
  lemma RemovedOnlyWhenDoomed(s: Sys, step: Step, td: Td)
    requires Inv(s) && Enabled(s, step) && td in s.table && td !in Apply(s, step).table
    ensures step == Reap && td == s.queue[0] && Doomed(s.table[td]) && s.table[td].state == Ready
  {
    QueueHead(s);
  }

  /** Exactly what changes a thread's state, among all steps. */
  lemma StateFate(s: Sys, step: Step, td: Td)
    requires Inv(s) && Enabled(s, step) && td in s.table && td in Apply(s, step).table
    ensures
      var was, now := s.table[td], Apply(s, step).table[td];
      && (now.state == Blocked <==> (was.state == Blocked && step != Unblock(td)) || (step == Save && td == s.current && was.shouldBlock))
      && (now.state == Running <==> (was.state == Running && step != Save) || (step == Dispatch && td == s.queue[0]))
  {
    hide Inv, Pids;
    QueueHead(s);
    FateFacts(s, td);
  }

  lemma FateFacts(s: Sys, td: Td)
    requires Inv(s) && td in s.table
    ensures td.pid in s.live && (s.onCpu ==> s.current in s.table && s.table[s.current].state == Running)
    ensures s.table[td].state == Running || s.table[td].shouldBlock ==> s.onCpu && td == s.current
  {}

  /** Exactly what changes a thread's flags. */
  lemma FlagFate(s: Sys, step: Step, td: Td)
    requires Inv(s) && Enabled(s, step) && td in s.table && td in Apply(s, step).table
    ensures
      var was, now := s.table[td], Apply(s, step).table[td];
      && (now.shouldBlock <==> (was.shouldBlock && step != Save) || (step == RequestBlock && td == s.current))
      && (now.shouldExit <==> was.shouldExit || step == Kill(td.pid) || (step == Exit && td == s.current))
      && (now.uninterruptible <==> if td == s.current && step == EnterSyscall then true
                                   else if td == s.current && step == LeaveSyscall then false else was.uninterruptible)
  {
    hide Inv, Pids;
    FateFacts(s, td);
  }

  /** Exactly what moves the CPU and the queue: threads leave at the front and join at the back. */
  lemma QueueFate(s: Sys, step: Step)
    requires Inv(s) && Enabled(s, step)
    ensures
      var t := Apply(s, step);
      && (t.onCpu <==> step == Dispatch || (s.onCpu && step != Save))
      && t.current == (if step == Dispatch then s.queue[0] else s.current)
      && if step == Dispatch || step == Reap then t.queue == s.queue[1..] else s.queue <= t.queue && |t.queue| <= |s.queue| + 1
  {
    hide QueuedIffReady, KernelAlive, LiveHasThreads, NoStaleRequest;
  }

  /** A process is retired exactly when its last thread goes, and only then. */
  lemma RetiredExactlyWithLastThread(s: Sys, step: Step, pid: nat)
    requires Inv(s) && Enabled(s, step) && pid in s.live
    ensures pid !in Apply(s, step).live <==>
      (step == Reap && s.queue[0].pid == pid && forall td :: td in s.table && td.pid == pid ==> td == s.queue[0])
    ensures pid !in Apply(s, step).live ==> Apply(s, step).retired == s.retired + [pid]
  {
    StepInv(s, step);
    var t := Apply(s, step);
    assert t.live == Pids(t.table);
  }

  /** schedule() never finds the queue empty, and its loop ends: each removal shortens it. */
  lemma ScheduleEnds(s: Sys)
    requires Inv(s) && !s.onCpu
    ensures Enabled(s, Reap) || Enabled(s, Dispatch)
    ensures Enabled(s, Reap) ==> |DoReap(s).queue| < |s.queue| && Inv(DoReap(s)) && !DoReap(s).onCpu
  {
    QueueHead(s);
    if Enabled(s, Reap) {
      ReapInv(s);
    }
  }

  // ---- blocking on request ----------------------------------------------------------------

  /** While a thread is on the CPU it stays there until sched_save, and its request is its own. */
  lemma {:induction false} OnCpuRun(s: Sys, steps: seq<Step>, t: Sys)
    requires Inv(s) && s.onCpu && Run(s, steps, t) && Save !in steps
    ensures Inv(t) && t.onCpu && t.current == s.current && s.current in s.table && t.current in t.table
    ensures t.table[t.current].shouldBlock <==> s.table[s.current].shouldBlock || RequestBlock in steps
    decreases |steps|
  {
    if steps != [] {
      var s1 := Apply(s, steps[0]);
      StepInv(s, steps[0]);
      OneOnCpu(s, steps[0]);
      hide Inv, Apply, Enabled;
      OnCpuRun(s1, steps[1..], t);
      assert steps == [steps[0]] + steps[1..];
    }
  }

  lemma OneOnCpu(s: Sys, step: Step)
    requires Inv(s) && s.onCpu && Enabled(s, step) && step != Save
    ensures
      var t := Apply(s, step);
      && s.current in s.table && t.onCpu && t.current == s.current && t.current in t.table
      && (t.table[t.current].shouldBlock <==> s.table[s.current].shouldBlock || step == RequestBlock)
  {
    hide QueuedIffReady, KernelAlive;
    assert s.current.pid in s.live;
  }

  /**
   What becomes of a dispatched thread at the next sched_save, whatever happened meanwhile: it
   blocks iff it asked to since its dispatch, and is otherwise READY at the back of the queue.
   Requests of earlier turns play no part.
   */
  lemma SaveDecides(s: Sys, steps: seq<Step>, t: Sys)
    requires Inv(s) && Enabled(s, Dispatch) && Run(DoDispatch(s), steps, t) && Save !in steps
    ensures Enabled(t, Save) && t.current == s.queue[0] && t.current in t.table && t.current in DoSave(t).table
    ensures DoSave(t).table[s.queue[0]].state == (if RequestBlock in steps then Blocked else Ready)
    ensures DoSave(t).queue == t.queue + (if RequestBlock in steps then [] else [s.queue[0]])
    ensures forall td :: td in DoSave(t).table ==> !DoSave(t).table[td].shouldBlock
  {
    DispatchInv(s);
    assert !s.table[s.queue[0]].shouldBlock;
    hide QueuedIffReady, KernelAlive, LiveHasThreads;
    OnCpuRun(DoDispatch(s), steps, t);
    SaveInv(t);
  }

  // ---- the end of a process ---------------------------------------------------------------

  /** A process that is there and does not ignore SIGCHLD. */
  ghost predicate Hears(families: map<nat, Family>, pid: nat) { pid in families && !families[pid].ignoresChild }

  /** The popped thread is the last of its process, and the parent hears of it. */
  ghost predicate Signals(s: Sys)
    requires s.queue != []
  {
    var t, pid := DoReap(s), s.queue[0].pid;
    pid !in t.live && pid in s.families && Hears(t.families, s.families[pid].parent)
  }

  /** One turn of the loop in schedule(): a lazy kill, and the parent's wake-up. */
  ghost function Turn(s: Sys): (steps: seq<Step>)
    requires s.queue != []
    ensures steps != []
  {
    if Signals(s) then [Reap, Unblock(Td(s.families[s.queue[0].pid].parent, 1))] else [Reap]
  }

  ghost function AfterTurn(s: Sys): Sys
    requires s.queue != []
  {
    if Signals(s) then DoUnblock(DoReap(s), Td(s.families[s.queue[0].pid].parent, 1)) else DoReap(s)
  }

  ghost predicate Turns(s: Sys, steps: seq<Step>, t: Sys)
    decreases |steps|
  {
    if steps == [] then t == s
    else Enabled(s, Reap) && Turn(s) <= steps && Turns(AfterTurn(s), steps[|Turn(s)|..], t)
  }

  lemma TurnInv(s: Sys)
    requires Inv(s) && Enabled(s, Reap)
    ensures Inv(AfterTurn(s)) && !AfterTurn(s).onCpu && Run(s, Turn(s), AfterTurn(s))
  {
    hide Inv, DoReap;
    ReapInv(s);
    var t := DoReap(s);
    ReapLeaves(s);
    assert [Reap][1..] == [];
    if Signals(s) {
      var wake := Unblock(Td(s.families[s.queue[0].pid].parent, 1));
      UnblockInv(t, wake.td);
      assert [Reap, wake][1..] == [wake] && [wake][1..] == [];
      assert Run(DoUnblock(t, wake.td), [], DoUnblock(t, wake.td)) && Run(t, [wake], DoUnblock(t, wake.td));
    } else {
      assert Run(t, [], t);
    }
  }

  lemma ReapLeaves(s: Sys)
    requires Enabled(s, Reap)
    ensures
      var t, td := DoReap(s), s.queue[0];
      && !t.onCpu && t.current == s.current && t.table == s.table - {td} && t.live <= s.live
      && (forall pid :: pid in s.live && pid != td.pid ==> pid in t.live)
      && (forall pid :: pid in t.families <==> pid in s.families && (pid != td.pid || td.pid in Pids(t.table)))
      && (forall pid :: pid in t.families ==> t.families[pid] == s.families[pid])
  {}

  lemma {:induction false} TurnsSnoc(s: Sys, steps: seq<Step>, t: Sys)
    requires Turns(s, steps, t) && Enabled(t, Reap)
    ensures Turns(s, steps + Turn(t), AfterTurn(t))
    decreases |steps|
  {
    hide Turn, AfterTurn;
    if steps == [] {
      assert steps + Turn(t) == Turn(t) && Turn(t)[|Turn(t)|..] == [];
    } else {
      TurnsSnoc(AfterTurn(s), steps[|Turn(s)|..], t);
      assert (steps + Turn(t))[|Turn(s)|..] == steps[|Turn(s)|..] + Turn(t);
    }
  }

  lemma {:induction false} RunJoin(s: Sys, xs: seq<Step>, t: Sys, ys: seq<Step>, u: Sys)
    requires Run(s, xs, t) && Run(t, ys, u)
    ensures Run(s, xs + ys, u)
    decreases |xs|
  {
    hide Enabled, Apply;
    if xs == [] {
      assert xs + ys == ys;
    } else {
      RunJoin(Apply(s, xs[0]), xs[1..], t, ys, u);
      assert (xs + ys)[1..] == xs[1..] + ys;
    }
  }

  lemma {:induction false} TurnsRun(s: Sys, steps: seq<Step>, t: Sys)
    requires Inv(s) && Turns(s, steps, t)
    ensures Run(s, steps, t) && Inv(t) && (!s.onCpu ==> !t.onCpu)
    decreases |steps|
  {
    hide Inv, Turn, AfterTurn;
    if steps != [] {
      var n := |Turn(s)|;
      TurnInv(s);
      TurnsRun(AfterTurn(s), steps[n..], t);
      RunJoin(s, Turn(s), AfterTurn(s), steps[n..], t);
      assert steps == Turn(s) + steps[n..];
    }
  }

  /** The threads that schedule() wakes: thread 1 of every parent that hears of a child's end. */
  ghost predicate WakesParents(s: Sys, t: Sys) {
    forall td :: td in s.table && s.table[td].state == Blocked && td in t.table ==>
      (t.table[td].state != Blocked <==> td.tid == 1 && Hears(s.families, td.pid) && LostChild(s, t, td.pid))
  }

  /** A process whose parent is pid was retired. */
  ghost predicate LostChild(s: Sys, t: Sys, pid: nat) {
    exists child :: child in s.families && s.families[child].parent == pid && child in s.live && child !in t.live
  }

  /** One turn, seen from a thread that was blocked before it. */
  lemma TurnBlocked(s: Sys, td: Td)
    requires Inv(s) && Enabled(s, Reap) && td in s.table && s.table[td].state == Blocked
    ensures
      var t := AfterTurn(s);
      && td in t.table && (Hears(t.families, td.pid) <==> Hears(s.families, td.pid))
      && (t.table[td].state != Blocked <==> td.tid == 1 && Hears(s.families, td.pid) && LostChild(s, t, td.pid))
  {
    QueueHead(s);
    ReapInv(s);
    var t, head := DoReap(s), s.queue[0];
    ReapLeaves(s);
    assert td != head && td in t.table && td.pid in t.live;
    hide DoReap, QueuedIffReady, KernelAlive, OneRunning, NoStaleRequest;
    assert t.live == AfterTurn(s).live && t.families == AfterTurn(s).families;
    if LostChild(s, t, td.pid) {
      var child :| child in s.families && s.families[child].parent == td.pid && child in s.live && child !in t.live;
      assert child == head.pid;
    }
    if Signals(s) && s.families[head.pid].parent == td.pid {
      assert LostChild(s, t, td.pid);
    }
  }

  /** What turns keep: processes only go, families stay, and a READY thread stays READY or goes. */
  lemma TurnKeeps(s: Sys)
    requires Inv(s) && Enabled(s, Reap)
    ensures
      var t := AfterTurn(s);
      && t.live <= s.live && (forall pid :: pid in t.families ==> pid in s.families && t.families[pid] == s.families[pid])
      && forall td :: td in s.table && s.table[td].state != Blocked && td in t.table ==> t.table[td].state != Blocked
  {
    ReapLeaves(s);
    hide DoReap;
  }

  lemma {:induction false} TurnsKeep(s: Sys, steps: seq<Step>, t: Sys)
    requires Inv(s) && Turns(s, steps, t)
    ensures t.live <= s.live
    ensures forall td :: td in s.table && s.table[td].state != Blocked && td in t.table ==> t.table[td].state != Blocked
    ensures forall td :: td in t.table ==> td in s.table
    decreases |steps|
  {
    if steps != [] {
      TurnInv(s);
      TurnKeeps(s);
      TurnTable(s);
      hide Inv, Turn, AfterTurn;
      TurnsKeep(AfterTurn(s), steps[|Turn(s)|..], t);
    }
  }

  lemma TurnTable(s: Sys)
    requires Enabled(s, Reap)
    ensures forall td :: td in AfterTurn(s).table ==> td in s.table
  {
    ReapLeaves(s);
    hide DoReap;
  }

  /**
   Over every run of turns: of the threads that were blocked and are still there, exactly thread
   1 of each parent that hears SIGCHLD and lost a child is no longer blocked.
   */
  lemma {:induction false} TurnsWakeParents(s: Sys, steps: seq<Step>, t: Sys)
    requires Inv(s) && Turns(s, steps, t)
    ensures WakesParents(s, t)
    decreases |steps|
  {
    if steps != [] {
      var s1 := AfterTurn(s);
      TurnInv(s);
      TurnsWakeParents(s1, steps[|Turn(s)|..], t);
      TurnsKeep(s1, steps[|Turn(s)|..], t);
      forall td | td in s.table && s.table[td].state == Blocked && td in t.table
        ensures t.table[td].state != Blocked <==> td.tid == 1 && Hears(s.families, td.pid) && LostChild(s, t, td.pid)
      {
        TurnBlocked(s, td);
        LostSooner(s, t, td.pid);
      }
    }
  }

  /** A child is lost in the first turn or later. */
  lemma LostSooner(s: Sys, t: Sys, pid: nat)
    requires Inv(s) && Enabled(s, Reap) && t.live <= AfterTurn(s).live
    ensures LostChild(s, t, pid) <==> LostChild(s, AfterTurn(s), pid) || LostChild(AfterTurn(s), t, pid)
  {
    TurnInv(s);
    TurnKeeps(s);
    hide AfterTurn, QueuedIffReady, KernelAlive, OneRunning, NoStaleRequest;
    var s1 := AfterTurn(s);
    if child :| child in s.families && s.families[child].parent == pid && child in s.live && child !in t.live {
      if child in s1.live {
        assert child in s1.families;
      }
    }
  }
}
