/**
 The scheduler's code over its process table and ready ring.

 Processes and threads live in arrays searched linearly, and are removed by moving the last
 element into the hole. Each operation is proved to be a step of the state machine.
 */
module Scheduler {
  import opened Common
  import opened ReadyQueue
  import opened SchedState
  import ThreadIds

  datatype Slot = Slot(tid: nat, th: Thread)
  datatype Process = Process(pid: nat, family: Family, slots: seq<Slot>)

  // ---- the table the arrays represent -----------------------------------------------------

  predicate At(procs: seq<Process>, i: int, j: int) { 0 <= i < |procs| && 0 <= j < |procs[i].slots| }

  function Name(procs: seq<Process>, i: int, j: int): Td
    requires At(procs, i, j)
  {
    Td(procs[i].pid, procs[i].slots[j].tid)
  }

  ghost predicate DistinctNames(procs: seq<Process>) {
    && (forall i, k :: 0 <= i < k < |procs| ==> procs[i].pid != procs[k].pid)
    && (forall i, j, k :: At(procs, i, j) && At(procs, i, k) && j != k ==> procs[i].slots[j].tid != procs[i].slots[k].tid)
  }

  ghost predicate Stored(procs: seq<Process>, table: map<Td, Thread>) {
    forall i, j :: At(procs, i, j) ==> Name(procs, i, j) in table && table[Name(procs, i, j)] == procs[i].slots[j].th
  }

  ghost predicate Found(procs: seq<Process>, td: Td) { exists i, j :: At(procs, i, j) && Name(procs, i, j) == td }

  /** The arrays hold exactly the threads of the table, each once. */
  ghost predicate Rep(procs: seq<Process>, table: map<Td, Thread>) {
    && DistinctNames(procs) && Stored(procs, table)
    && forall td :: td in table ==> Found(procs, td)
  }

  ghost predicate Kin(procs: seq<Process>, families: map<nat, Family>) {
    forall i :: 0 <= i < |procs| ==> procs[i].pid in families && families[procs[i].pid] == procs[i].family
  }

  ghost predicate NoEmpty(procs: seq<Process>) { forall i :: 0 <= i < |procs| ==> procs[i].slots != [] }

  function SetSlot(procs: seq<Process>, i: nat, j: nat, th: Thread): seq<Process>
    requires At(procs, i, j)
  {
    procs[i := procs[i].(slots := procs[i].slots[j := procs[i].slots[j].(th := th)])]
  }

  /** *t = threads[n_threads - 1]; n_threads-- */
  function DropSlot(procs: seq<Process>, i: nat, j: nat): seq<Process>
    requires At(procs, i, j)
  {
    var slots := procs[i].slots;
    var last := |slots| - 1;
    procs[i := procs[i].(slots := slots[j := slots[last]][..last])]
  }

  /** processes[i] = processes[--n_processes] */
  function DropProcess(procs: seq<Process>, i: nat): seq<Process>
    requires i < |procs|
  {
    procs[i := procs[|procs| - 1]][..|procs| - 1]
  }

  lemma NamesDiffer(procs: seq<Process>, i: int, j: int, k: int, l: int)
    requires DistinctNames(procs) && At(procs, i, j) && At(procs, k, l) && (i != k || j != l)
    ensures Name(procs, i, j) != Name(procs, k, l)
  {}

  lemma SetSlotRep(procs: seq<Process>, table: map<Td, Thread>, i: nat, j: nat, th: Thread)
    requires Rep(procs, table) && At(procs, i, j)
    ensures Rep(SetSlot(procs, i, j, th), table[Name(procs, i, j) := th])
    ensures NoEmpty(procs) ==> NoEmpty(SetSlot(procs, i, j, th))
  {
    var procs', td := SetSlot(procs, i, j, th), Name(procs, i, j);
    forall k, l | At(procs', k, l)
      ensures At(procs, k, l) && Name(procs', k, l) == Name(procs, k, l)
      ensures (k != i || l != j) ==> Name(procs, k, l) != td
    {
      if k != i || l != j {
        NamesDiffer(procs, i, j, k, l);
      }
    }
    forall x | x in table[td := th] ensures Found(procs', x) {
      var k, l :| At(procs, k, l) && Name(procs, k, l) == x;
      assert At(procs', k, l) && Name(procs', k, l) == x;
    }
  }

  lemma DropSlotDistinct(procs: seq<Process>, i: nat, j: nat)
    requires DistinctNames(procs) && At(procs, i, j)
    ensures DistinctNames(DropSlot(procs, i, j))
  {}

  lemma DropSlotRep(procs: seq<Process>, table: map<Td, Thread>, i: nat, j: nat)
    requires Rep(procs, table) && At(procs, i, j)
    ensures Rep(DropSlot(procs, i, j), table - {Name(procs, i, j)})
  {
    DropSlotDistinct(procs, i, j);
    var procs', td, last := DropSlot(procs, i, j), Name(procs, i, j), |procs[i].slots| - 1;
    forall k, l | At(procs', k, l)
      ensures Name(procs', k, l) in table && table[Name(procs', k, l)] == procs'[k].slots[l].th && Name(procs', k, l) != td
    {
      var m := if k == i && l == j then last else l;
      assert At(procs, k, m) && Name(procs', k, l) == Name(procs, k, m);
      NamesDiffer(procs, i, j, k, m);
    }
    forall x | x in table - {td} ensures Found(procs', x) {
      var k, l :| At(procs, k, l) && Name(procs, k, l) == x;
      var m := if k == i && l == last then j else l;
      assert At(procs', k, m) && Name(procs', k, m) == x;
    }
  }

  lemma DropProcessAt(procs: seq<Process>, i: nat, k: nat)
    requires i < |procs| && k < |procs| - 1
    ensures |DropProcess(procs, i)| == |procs| - 1
    ensures DropProcess(procs, i)[k] == procs[if k == i then |procs| - 1 else k]
  {}

  lemma DropProcessDistinct(procs: seq<Process>, i: nat)
    requires DistinctNames(procs) && i < |procs|
    ensures DistinctNames(DropProcess(procs, i))
  {
    var procs' := DropProcess(procs, i);
    forall k: nat | k < |procs'| ensures procs'[k] == procs[if k == i then |procs| - 1 else k] {
      DropProcessAt(procs, i, k);
    }
    hide DropProcess;
    forall k, j, l | At(procs', k, j) && At(procs', k, l) && j != l
      ensures procs'[k].slots[j].tid != procs'[k].slots[l].tid
    {
      var m := if k == i then |procs| - 1 else k;
      assert At(procs, m, j) && At(procs, m, l);
    }
  }

  lemma DropProcessRep(procs: seq<Process>, table: map<Td, Thread>, i: nat)
    requires Rep(procs, table) && i < |procs| && procs[i].slots == []
    ensures Rep(DropProcess(procs, i), table)
  {
    DropProcessDistinct(procs, i);
    var procs', last := DropProcess(procs, i), |procs| - 1;
    forall k: nat | k < last ensures |procs'| == last && procs'[k] == procs[if k == i then last else k] {
      DropProcessAt(procs, i, k);
    }
    hide DropProcess, DistinctNames;
    forall k, l | At(procs', k, l)
      ensures Name(procs', k, l) in table && table[Name(procs', k, l)] == procs'[k].slots[l].th
    {
      var m := if k == i then last else k;
      assert At(procs, m, l) && Name(procs, m, l) == Name(procs', k, l);
    }
    forall x | x in table ensures Found(procs', x) {
      var k, l :| At(procs, k, l) && Name(procs, k, l) == x;
      var m := if k == last then i else k;
      assert At(procs', m, l) && Name(procs', m, l) == x;
    }
  }

  lemma RepHas(procs: seq<Process>, table: map<Td, Thread>, td: Td)
    requires Rep(procs, table)
    ensures td in table <==> Found(procs, td)
    ensures forall i, j :: At(procs, i, j) && Name(procs, i, j) == td ==> td in table && table[td] == procs[i].slots[j].th
  {}

  lemma SetSlotKin(procs: seq<Process>, families: map<nat, Family>, i: nat, j: nat, th: Thread)
    requires Kin(procs, families) && At(procs, i, j)
    ensures Kin(SetSlot(procs, i, j, th), families)
  {}

  lemma AddSlotKin(procs: seq<Process>, families: map<nat, Family>, i: nat, slot: Slot)
    requires Kin(procs, families) && i < |procs|
    ensures Kin(AddSlot(procs, i, slot), families)
  {}

  lemma KinAt(procs: seq<Process>, families: map<nat, Family>, i: nat)
    requires Kin(procs, families) && i < |procs|
    ensures procs[i].pid in families && families[procs[i].pid] == procs[i].family
  {}

  lemma MarkedKin(procs: seq<Process>, families: map<nat, Family>, i: nat)
    requires Kin(procs, families) && i < |procs|
    ensures Kin(procs[i := procs[i].(slots := Marked(procs[i].slots))], families)
  {}

  lemma DropSlotKin(procs: seq<Process>, families: map<nat, Family>, i: nat, j: nat)
    requires Kin(procs, families) && At(procs, i, j)
    ensures Kin(DropSlot(procs, i, j), families)
  {}

  lemma DropProcessKin(procs: seq<Process>, families: map<nat, Family>, i: nat)
    requires Kin(procs, families) && i < |procs| && forall k :: 0 <= k < |procs| && k != i ==> procs[k].pid != procs[i].pid
    ensures Kin(DropProcess(procs, i), families - {procs[i].pid})
  {
    var procs' := DropProcess(procs, i);
    forall k: nat | k < |procs'| ensures procs'[k] == procs[if k == i then |procs| - 1 else k] {
      DropProcessAt(procs, i, k);
    }
  }

  lemma InvLive(s: Sys)
    requires Inv(s)
    ensures s.families.Keys == s.live && forall td :: td in s.table ==> td.pid in s.live
  {}

  /** A process that is in no slot has no family entry either. */
  lemma Unrelated(procs: seq<Process>, s: Sys, pid: nat)
    requires Rep(procs, s.table) && Inv(s) && forall k :: 0 <= k < |procs| ==> procs[k].pid != pid
    ensures pid !in s.families
  {
    UnknownPid(procs, s, pid);
  }

  lemma NoTurns(s: Sys)
    ensures Turns(s, [], s)
  {}

  /** Dispatching blocks nobody and wakes nobody. */
  lemma DispatchWakes(s: Sys, t: Sys)
    requires WakesParents(s, t) && Inv(t) && Enabled(t, Step.Dispatch)
    ensures WakesParents(s, DoDispatch(t))
  {
    QueueHead(t);
    var u := DoDispatch(t);
    forall td | td in s.table && s.table[td].state == Blocked && td in u.table
      ensures u.table[td].state != Blocked <==> td.tid == 1 && Hears(s.families, td.pid) && LostChild(s, u, td.pid)
    {
      assert LostChild(s, u, td.pid) <==> LostChild(s, t, td.pid);
    }
  }

  class Kernel {
    var procs: seq<Process>
    const ring: Ring
    var onCpu: bool
    var current: Td
    var retired: seq<nat>
    ghost var spec: Sys

    ghost predicate Valid()
      reads this, ring, ring.buffer
    {
      && ring.Valid() && Inv(spec) && Rep(procs, spec.table) && NoEmpty(procs) && Kin(procs, spec.families)
      && ring.Contents() == spec.queue && onCpu == spec.onCpu && current == spec.current && retired == spec.retired
    }

    constructor ()
      ensures Valid() && spec == Boot() && fresh(ring) && fresh(ring.buffer)
    {
      var r := new Ring();
      ring := r;
      procs := [Process(KERNEL_PID, Family(KERNEL_PID, true), [Slot(1, NEW.(state := Ready))])];
      onCpu, current, retired := false, KERNEL, [];
      spec := Boot();
      new;
      ring.PushReady(KERNEL);
      BootInv();
      assert At(procs, 0, 0) && Name(procs, 0, 0) == KERNEL;
    }

    /** The whole table is searched; the last match counts. */
    method GetProcess(pid: nat) returns (i: int)
      ensures -1 <= i < |procs|
      ensures i >= 0 ==> procs[i].pid == pid
      ensures i < 0 ==> forall k :: 0 <= k < |procs| ==> procs[k].pid != pid
    {
      i := -1;
      for k := 0 to |procs|
        invariant -1 <= i < k
        invariant i >= 0 ==> procs[i].pid == pid
        invariant i < 0 ==> forall m :: 0 <= m < k ==> procs[m].pid != pid
      {
        if procs[k].pid == pid {
          i := k;
        }
      }
    }

    method GetThread(i: nat, tid: nat) returns (j: int)
      requires i < |procs|
      ensures -1 <= j < |procs[i].slots|
      ensures j >= 0 ==> procs[i].slots[j].tid == tid
      ensures j < 0 ==> forall k :: 0 <= k < |procs[i].slots| ==> procs[i].slots[k].tid != tid
    {
      j := 0;
      while j < |procs[i].slots|
        invariant 0 <= j <= |procs[i].slots|
        invariant forall k :: 0 <= k < j ==> procs[i].slots[k].tid != tid
      {
        if procs[i].slots[j].tid == tid {
          return;
        }
        j := j + 1;
      }
      j := -1;
    }

    /** sched_get_process, then sched_get_thread_by_tid. */
    method Lookup(td: Td) returns (i: int, j: int)
      requires Valid()
      ensures i >= 0 && j >= 0 ==> At(procs, i, j) && Name(procs, i, j) == td && td in spec.table && spec.table[td] == procs[i].slots[j].th
      ensures td in spec.table <==> i >= 0 && j >= 0
    {
      hide Inv, Rep, Kin, NoEmpty;
      RepHas(procs, spec.table, td);
      PidsUnique(procs, spec.table);
      i := GetProcess(td.pid);
      j := -1;
      if i >= 0 {
        j := GetThread(i, td.tid);
      }
    }

    method SetThreadAt(i: nat, j: nat, th: Thread)
      requires Rep(procs, spec.table) && NoEmpty(procs) && Kin(procs, spec.families) && At(procs, i, j)
      modifies this`procs, this`spec
      ensures Rep(procs, spec.table) && NoEmpty(procs) && Kin(procs, spec.families) && procs == SetSlot(old(procs), i, j, th)
      ensures spec == SetThread(old(spec), Name(old(procs), i, j), th)
    {
      SetSlotRep(procs, spec.table, i, j, th);
      SetSlotKin(procs, spec.families, i, j, th);
      spec := SetThread(spec, Name(procs, i, j), th);
      procs := SetSlot(procs, i, j, th);
    }

    /** The interrupted thread blocks if it asked to, else goes to the back of the queue. */
    method Save()
      requires Valid() && onCpu
      modifies this, ring, ring.buffer
      ensures Valid() && spec == DoSave(old(spec)) && (ring.buffer == old(ring.buffer) || fresh(ring.buffer))
    {
      hide Rep, Kin, NoEmpty;
      SaveInv(spec);
      assert OneRunning(spec);
      hide Inv;
      var i, j := Lookup(current);
      var th := procs[i].slots[j].th;
      onCpu := false;
      spec := spec.(onCpu := false);
      if th.shouldBlock {
        SetThreadAt(i, j, th.(shouldBlock := false, state := Blocked));
      } else {
        spec := spec.(queue := spec.queue + [current]);
        SetThreadAt(i, j, th.(state := Ready));
        ring.PushReady(current);
      }
    }

    /** sched_block up to the interrupt; the kernel process must not block. */
    method RequestBlock()
      requires Valid() && onCpu && current.pid != KERNEL_PID
      modifies this`procs, this`spec
      ensures old(current) in old(spec).table
      ensures spec == SetThread(old(spec), old(current), old(spec).table[old(current)].(shouldBlock := true))
      ensures Valid()
    {
      hide Rep, Kin, NoEmpty;
      StepInv(spec, Step.RequestBlock);
      assert OneRunning(spec);
      hide Inv;
      var i, j := Lookup(current);
      SetThreadAt(i, j, procs[i].slots[j].th.(shouldBlock := true));
    }

    method UnblockThread(i: nat, j: nat)
      requires Valid() && At(procs, i, j)
      modifies this`procs, this`spec, ring, ring.buffer
      ensures Valid() && spec == DoUnblock(old(spec), old(Name(procs, i, j)))
      ensures ring.buffer == old(ring.buffer) || fresh(ring.buffer)
    {
      hide Rep, Kin, NoEmpty, Inv, Items;
      RepHas(procs, spec.table, Name(procs, i, j));
      UnblockInv(spec, Name(procs, i, j));
      var th := procs[i].slots[j].th;
      if th.state != Blocked {
        return;
      }
      var td := Td(procs[i].pid, procs[i].slots[j].tid);
      spec := spec.(queue := spec.queue + [td]);
      SetThreadAt(i, j, th.(state := Ready));
      ring.PushReady(td);
    }

    method Unblock(td: Td)
      requires Valid()
      modifies this`procs, this`spec, ring, ring.buffer
      ensures Valid() && spec == DoUnblock(old(spec), td)
      ensures ring.buffer == old(ring.buffer) || fresh(ring.buffer)
    {
      var i, j := Lookup(td);
      if i >= 0 && j >= 0 {
        UnblockThread(i, j);
      }
    }

    /** Between pop_ready_thread and the fate of the popped thread. */
    ghost predicate Popped(i: nat, j: nat)
      reads this, ring, ring.buffer
    {
      && ring.Valid() && Inv(spec) && Rep(procs, spec.table) && NoEmpty(procs) && Kin(procs, spec.families)
      && !onCpu && !spec.onCpu
      && spec.queue != [] && ring.Contents() == spec.queue[1..] && current == spec.current && retired == spec.retired
      && At(procs, i, j) && Name(procs, i, j) == spec.queue[0] && IsReady(spec, spec.queue[0])
      && spec.table[spec.queue[0]] == procs[i].slots[j].th
    }

    /** The thread at the head of the ready queue; there always is one. */
    method ChooseNext() returns (i: nat, j: nat)
      requires Valid() && !onCpu
      modifies ring`head, ring`readyThreads
      ensures Popped(i, j)
    {
      QueueHead(spec);
      hide Inv, Rep, Kin, NoEmpty;
      var td := ring.PopReady();
      i, j := Find(td);
    }

    method Dispatch(i: nat, j: nat)
      requires Popped(i, j) && !Doomed(procs[i].slots[j].th)
      modifies this
      ensures Valid() && spec == DoDispatch(old(spec))
    {
      hide Inv, Rep, Kin, NoEmpty, Items;
      DispatchInv(spec);
      var td := Td(procs[i].pid, procs[i].slots[j].tid);
      SetThreadAt(i, j, procs[i].slots[j].th.(state := Running));
      current, onCpu := td, true;
      spec := spec.(queue := spec.queue[1..], onCpu := true, current := td);
    }

    /** Removes the popped thread, and its process when it was the last one. */
    method Terminate(i: nat, j: nat) returns (ppid: nat, signal: bool)
      requires Popped(i, j) && Doomed(procs[i].slots[j].th)
      modifies this
      ensures Valid() && spec == DoReap(old(spec)) && !onCpu
      ensures old(spec).queue[0].pid in old(spec).families
      ensures signal <==> old(spec).queue[0].pid !in spec.live
      ensures ppid == old(spec).families[old(spec).queue[0].pid].parent
    {
      hide Inv, Rep, Kin, DoReap, DropSlot, NoEmpty, Items, Pids;
      InvLive(spec);
      KinAt(procs, spec.families, i);
      ReapInv(spec);
      ReapFields(spec);
      DropSlotRep(procs, spec.table, i, j);
      DropSlotEmpty(procs, i, j);
      EmptyIffLast(DropSlot(procs, i, j), spec.table - {spec.queue[0]}, i);
      var pid := procs[i].pid;
      ppid, signal := procs[i].family.parent, false;
      DropSlotKin(procs, spec.families, i, j);
      procs := DropSlot(procs, i, j);
      spec := DoReap(spec);
      if procs[i].slots == [] {
        RemoveProcess(pid, i, old(spec).families);
        signal := true;
      } else {
        AllFull(procs, i);
      }
    }

    /** remove_process: the last process moves into the hole. */
    method RemoveProcess(pid: nat, ghost at: nat, ghost families: map<nat, Family>)
      requires at < |procs| && procs[at].pid == pid && procs[at].slots == [] && Rep(procs, spec.table)
      requires forall k :: 0 <= k < |procs| && k != at ==> procs[k].slots != []
      requires Kin(procs, families)
      modifies this`procs, this`retired
      ensures Rep(procs, spec.table) && NoEmpty(procs) && retired == old(retired) + [pid] && Kin(procs, families - {pid})
    {
      PidsUnique(procs, spec.table);
      hide Rep, Kin;
      var i := 0;
      while procs[i].pid != pid
        invariant i <= at
        decreases |procs| - i
      {
        i := i + 1;
      }
      DropProcessRep(procs, spec.table, i);
      DropProcessKin(procs, families, i);
      retired := retired + [pid];
      procs := DropProcess(procs, i);
    }

    /** process_trigger_signal, as far as it wakes a thread: exactly a parent that is there and does
        not ignore the signal has its thread 1 woken. */
    method SignalParent(ppid: nat)
      requires Valid() && !onCpu
      modifies this, ring, ring.buffer
      ensures Valid() && !onCpu && (ring.buffer == old(ring.buffer) || fresh(ring.buffer))
      ensures spec == if Hears(old(spec).families, ppid) then DoUnblock(old(spec), Td(ppid, 1)) else old(spec)
      ensures Hears(old(spec).families, ppid) && Td(ppid, 1) in old(spec).table && old(spec).table[Td(ppid, 1)].state == Blocked ==>
        IsReady(spec, Td(ppid, 1)) && spec.queue == old(spec).queue + [Td(ppid, 1)]
    {
      var i := GetProcess(ppid);
      if i < 0 {
        Unrelated(procs, spec, ppid);
        return;
      }
      if procs[i].family.ignoresChild {
        return;
      }
      UnblockInv(spec, Td(ppid, 1));
      Unblock(Td(ppid, 1));
    }

    /** One turn of the loop that removes the popped thread and tells the parent of a process's end. */
    method Reap(i: nat, j: nat)
      requires Popped(i, j) && Doomed(procs[i].slots[j].th)
      modifies this, ring, ring.buffer
      ensures Valid() && !onCpu && (ring.buffer == old(ring.buffer) || fresh(ring.buffer))
      ensures old(Enabled(spec, Step.Reap)) && spec == AfterTurn(old(spec)) && |spec.table| < old(|spec.table|)
    {
      hide Inv, Rep, Kin, NoEmpty, DoReap, DoUnblock, Items;
      ReapSize(spec);
      var ppid, signal := Terminate(i, j);
      if signal {
        UnblockSize(spec, Td(ppid, 1));
        SignalParent(ppid);
      }
    }

    /** The scheduler's loop: turns that remove a thread, each with its wake-up, then a dispatch.
        It ends because every turn but the last removes a thread. */
    method Schedule() returns (ghost steps: seq<Step>, ghost last: Sys)
      requires Valid() && !onCpu
      modifies this, ring, ring.buffer
      ensures Valid() && Turns(old(spec), steps, last) && Enabled(last, Step.Dispatch) && spec == DoDispatch(last)
      ensures Run(old(spec), steps + [Step.Dispatch], spec)
      ensures WakesParents(old(spec), spec)
    {
      hide Inv, Rep, Kin, NoEmpty, DoReap, DoDispatch, Run, Turns, AfterTurn, WakesParents;
      ghost var start := spec;
      steps := [];
      NoTurns(start);
      while true
        invariant Valid() && !onCpu && Turns(start, steps, spec)
        invariant ring.buffer == old(ring.buffer) || fresh(ring.buffer)
        decreases |spec.table|
      {
        var i, j := ChooseNext();
        if procs[i].slots[j].th.shouldExit && !procs[i].slots[j].th.uninterruptible {
          TurnsSnoc(start, steps, spec);
          steps := steps + Turn(spec);
          Reap(i, j);
        } else {
          last := spec;
          TurnsRun(start, steps, spec);
          RunSnoc(start, steps, spec, Step.Dispatch);
          TurnsWakeParents(start, steps, spec);
          DispatchWakes(start, spec);
          Dispatch(i, j);
          return;
        }
      }
    }

    /** Marks every thread of a process; the marked threads leave when they are next scheduled. */
    method MarkAll(i: nat) returns (tids: seq<nat>)
      requires Valid() && i < |procs| && procs[i].pid != KERNEL_PID
      modifies this`procs, this`spec
      ensures Valid() && spec == DoKill(old(spec), old(procs)[i].pid)
      ensures |tids| == |old(procs)[i].slots| && forall j :: 0 <= j < |tids| ==> tids[j] == old(procs)[i].slots[j].tid
    {
      hide Rep, Kin, NoEmpty, Inv, DoKill, Marked, Items;
      MarkedRep(procs, spec, i);
      KillInv(spec, procs[i].pid);
      KillFields(spec, procs[i].pid);
      MarkedKin(procs, spec.families, i);
      var marked;
      marked, tids := MarkSlots(procs[i].slots);
      spec := DoKill(spec, procs[i].pid);
      procs := procs[i := procs[i].(slots := marked)];
    }

    static method MarkSlots(slots: seq<Slot>) returns (marked: seq<Slot>, tids: seq<nat>)
      ensures marked == Marked(slots)
      ensures |tids| == |slots| && forall j :: 0 <= j < |tids| ==> tids[j] == slots[j].tid
    {
      marked, tids := slots, [];
      for j := 0 to |slots|
        invariant |marked| == |slots| && |tids| == j
        invariant forall l :: 0 <= l < |slots| ==> marked[l] == if l < j then Marked(slots)[l] else slots[l]
        invariant forall l :: 0 <= l < j ==> tids[l] == slots[l].tid
      {
        var slot := marked[j];
        marked := marked[j := slot.(th := slot.th.(shouldExit := true))];
        tids := tids + [slot.tid];
      }
    }

    /** The lazy kill of a whole process, which must not be the kernel. */
    method KillProcess(pid: nat) returns (found: bool)
      requires Valid() && pid != KERNEL_PID
      modifies this, ring, ring.buffer
      ensures Valid() && found == (pid in old(spec).live)
      ensures !found ==> spec == old(spec)
      ensures found ==> spec.table.Keys == old(spec).table.Keys
      ensures found ==> forall td :: td in spec.table && td.pid == pid ==> spec.table[td].shouldExit && spec.table[td].state != Blocked
      ensures found ==> forall td :: td in spec.table && td.pid != pid ==> spec.table[td] == old(spec).table[td]
    {
      hide Rep, Kin, NoEmpty, UnblockAll;
      var i := GetProcess(pid);
      if i < 0 {
        UnknownPid(procs, spec, pid);
        return false;
      }
      KnownPid(procs, spec, i);
      hide Inv, DoKill, Pids;
      ghost var start, was := spec, procs;
      var tids := MarkAll(i);
      ghost var killed := spec;
      UnblockNone(killed, pid);
      for m := 0 to |tids|
        invariant Valid() && spec == UnblockAll(killed, pid, tids[..m])
        invariant ring.buffer == old(ring.buffer) || fresh(ring.buffer)
      {
        UnblockOne(killed, pid, tids, m);
        Unblock(Td(pid, tids[m]));
      }
      assert tids[..|tids|] == tids;
      KillWakes(was, start, i, tids);
      UnblockAllTable(killed, pid, tids);
      KillOthers(start, pid);
      return true;
    }

    /**
     A new thread of the running process, unless its caller is being killed, the numbers are
     used up, or its stack fails. The process must be one for which alloc_tid can be trusted.
     */
    method CreateThread(stackOk: bool) returns (tid: int)
      requires Valid() && onCpu
      requires forall i :: 0 <= i < |procs| && procs[i].pid == current.pid ==> ThreadIds.Trustworthy(Numbers(procs[i].slots))
      modifies this`procs, this`spec, ring, ring.buffer
      ensures tid <= 0 ==> spec == old(spec)
      ensures tid > 0 ==> Enabled(old(spec), Step.NewThread(Td(current.pid, tid)))
      ensures tid > 0 ==> spec == SchedState.Apply(old(spec), Step.NewThread(Td(current.pid, tid)))
      ensures tid > 0 ==> stackOk && !old(spec).table[current].shouldExit
      ensures tid == -1 <==> old(spec).table[current].shouldExit
      ensures tid == 0 && stackOk ==>
        exists i :: 0 <= i < |old(procs)| && old(procs)[i].pid == current.pid && ThreadIds.Chosen(Numbers(old(procs)[i].slots)) == 0
      ensures Valid()
    {
      hide Rep, Kin, NoEmpty, Inv, Items, Pids, DoUnblock, ThreadIds.Chosen, ThreadIds.Trustworthy, Distinct;
      CurrentLive(spec);
      var i, j := Find(current);
      if procs[i].slots[j].th.shouldExit {
        return -1;
      }
      var number := ThreadIds.AllocTid(Numbers(procs[i].slots));
      TidUnused(procs, spec, i);
      if number == 0 || !stackOk {
        return 0;
      }
      Birth(i, number);
      return number;
    }

    /** The end of process_create_thread: the thread is stored blocked, then launched. */
    method Birth(i: nat, number: nat)
      requires Valid() && i < |procs| && Enabled(spec, Step.NewThread(Td(procs[i].pid, number)))
      modifies this`procs, this`spec, ring, ring.buffer
      ensures Valid() && spec == SchedState.Apply(old(spec), Step.NewThread(Td(old(procs[i].pid), number)))
    {
      hide Rep, Kin, NoEmpty, Inv, Items, Pids;
      ghost var td := Td(procs[i].pid, number);
      StepInv(spec, Step.NewThread(td));
      AddSlotRep(procs, spec.table, i, Slot(number, NEW));
      AddSlotKin(procs, spec.families, i, Slot(number, NEW));
      procs := AddSlot(procs, i, Slot(number, NEW));
      spec := SetThread(spec, td, NEW);
      Launch(i, |procs[i].slots| - 1);
    }

    /** sched_launch_thread on a newborn, blocked thread. */
    method Launch(i: nat, j: nat)
      requires ring.Valid() && Rep(procs, spec.table) && NoEmpty(procs) && Kin(procs, spec.families) && At(procs, i, j)
      requires ring.Contents() == spec.queue && onCpu == spec.onCpu && current == spec.current && retired == spec.retired
      requires Inv(DoUnblock(spec, Name(procs, i, j))) && procs[i].slots[j].th.state == Blocked
      requires Name(procs, i, j) in spec.table && spec.table[Name(procs, i, j)] == procs[i].slots[j].th
      modifies this`procs, this`spec, ring, ring.buffer
      ensures Valid() && spec == DoUnblock(old(spec), old(Name(procs, i, j)))
    {
      hide Rep, Kin, NoEmpty, Inv, Items;
      var td := Td(procs[i].pid, procs[i].slots[j].tid);
      spec := spec.(queue := spec.queue + [td]);
      SetThreadAt(i, j, procs[i].slots[j].th.(state := Ready));
      ring.PushReady(td);
    }

    /** Lookup of a thread that exists. */
    method Find(td: Td) returns (i: nat, j: nat)
      requires Rep(procs, spec.table) && td in spec.table
      ensures At(procs, i, j) && Name(procs, i, j) == td && spec.table[td] == procs[i].slots[j].th
    {
      hide Rep, Kin;
      RepHas(procs, spec.table, td);
      PidsUnique(procs, spec.table);
      var x := GetProcess(td.pid);
      var y := GetThread(x, td.tid);
      i, j := x, y;
    }
  }

  // ---- births and kills -------------------------------------------------------------------

  function AddSlot(procs: seq<Process>, i: nat, slot: Slot): seq<Process>
    requires i < |procs|
  {
    procs[i := procs[i].(slots := procs[i].slots + [slot])]
  }

  lemma AddSlotRep(procs: seq<Process>, table: map<Td, Thread>, i: nat, slot: Slot)
    requires Rep(procs, table) && NoEmpty(procs) && i < |procs| && Td(procs[i].pid, slot.tid) !in table
    ensures Rep(AddSlot(procs, i, slot), table[Td(procs[i].pid, slot.tid) := slot.th]) && NoEmpty(AddSlot(procs, i, slot))
  {
    var procs', td, n := AddSlot(procs, i, slot), Td(procs[i].pid, slot.tid), |procs[i].slots|;
    forall k, l | At(procs', k, l) && !(k == i && l == n)
      ensures At(procs, k, l) && Name(procs', k, l) == Name(procs, k, l) && procs'[k].slots[l] == procs[k].slots[l]
      ensures Name(procs, k, l) in table && Name(procs, k, l) != td
    {
      assert Name(procs, k, l) in table;
    }
    forall x | x in table[td := slot.th] ensures Found(procs', x) {
      if x == td {
        assert At(procs', i, n) && Name(procs', i, n) == td;
      } else {
        var k, l :| At(procs, k, l) && Name(procs, k, l) == x;
        assert At(procs', k, l) && Name(procs', k, l) == x;
      }
    }
  }

  function Marked(slots: seq<Slot>): (r: seq<Slot>)
    ensures |r| == |slots| && forall j :: 0 <= j < |r| ==> r[j] == slots[j].(th := slots[j].th.(shouldExit := true))
  {
    seq(|slots|, j requires 0 <= j < |slots| => slots[j].(th := slots[j].th.(shouldExit := true)))
  }

  lemma MarkedRep(procs: seq<Process>, s: Sys, i: nat)
    requires Rep(procs, s.table) && NoEmpty(procs) && i < |procs|
    ensures
      var procs' := procs[i := procs[i].(slots := Marked(procs[i].slots))];
      Rep(procs', DoKill(s, procs[i].pid).table) && NoEmpty(procs')
  {
    var procs', table' := procs[i := procs[i].(slots := Marked(procs[i].slots))], DoKill(s, procs[i].pid).table;
    forall k, l | At(procs', k, l)
      ensures At(procs, k, l) && Name(procs', k, l) == Name(procs, k, l)
      ensures Name(procs', k, l) in table' && table'[Name(procs', k, l)] == procs'[k].slots[l].th
    {
      assert Name(procs, k, l) in s.table;
    }
    forall x | x in table' ensures Found(procs', x) {
      var k, l :| At(procs, k, l) && Name(procs, k, l) == x;
      assert At(procs', k, l) && Name(procs', k, l) == x;
    }
  }

  lemma UnknownPid(procs: seq<Process>, s: Sys, pid: nat)
    requires Rep(procs, s.table) && forall k :: 0 <= k < |procs| ==> procs[k].pid != pid
    ensures pid !in Pids(s.table)
  {
    forall td | td in s.table ensures td.pid != pid {
      var k, l :| At(procs, k, l) && Name(procs, k, l) == td;
    }
  }

  ghost function UnblockAll(s: Sys, pid: nat, tids: seq<nat>): Sys {
    if tids == [] then s
    else DoUnblock(UnblockAll(s, pid, tids[..|tids| - 1]), Td(pid, tids[|tids| - 1]))
  }

  function Woken(td: Td, th: Thread, pid: nat, tids: seq<nat>): Thread {
    if th.state == Blocked && td.pid == pid && td.tid in tids then th.(state := Ready) else th
  }

  lemma {:induction false} UnblockAllTable(s: Sys, pid: nat, tids: seq<nat>)
    ensures UnblockAll(s, pid, tids).table.Keys == s.table.Keys
    ensures forall td :: td in s.table ==> UnblockAll(s, pid, tids).table[td] == Woken(td, s.table[td], pid, tids)
  {
    if tids != [] {
      var init, last := tids[..|tids| - 1], tids[|tids| - 1];
      UnblockAllTable(s, pid, init);
      assert forall t :: t in tids <==> t in init || t == last;
    }
  }

  /** After a kill every thread of the process is marked and none stays blocked. */
  lemma KillWakes(procs: seq<Process>, s: Sys, i: nat, tids: seq<nat>)
    requires Rep(procs, s.table) && i < |procs| && |tids| == |procs[i].slots|
    requires forall j :: 0 <= j < |tids| ==> tids[j] == procs[i].slots[j].tid
    ensures
      var t := UnblockAll(DoKill(s, procs[i].pid), procs[i].pid, tids);
      forall td :: td in t.table && td.pid == procs[i].pid ==> t.table[td].shouldExit && t.table[td].state != Blocked
  {
    var killed := DoKill(s, procs[i].pid);
    UnblockAllTable(killed, procs[i].pid, tids);
    forall td | td in killed.table && td.pid == procs[i].pid ensures td.tid in tids {
      var k, l :| At(procs, k, l) && Name(procs, k, l) == td;
      assert k == i && tids[l] == td.tid;
    }
  }

  lemma EmptyIffLast(procs: seq<Process>, table: map<Td, Thread>, i: nat)
    requires Rep(procs, table) && i < |procs|
    ensures procs[i].slots == [] <==> procs[i].pid !in Pids(table)
  {
    if procs[i].slots != [] {
      assert At(procs, i, 0) && Name(procs, i, 0) in table;
    }
    if procs[i].pid in Pids(table) {
      var td :| td in table && td.pid == procs[i].pid;
      var k, l :| At(procs, k, l) && Name(procs, k, l) == td;
    }
  }

  lemma ReapSize(s: Sys)
    requires s.queue != [] && s.queue[0] in s.table
    ensures |DoReap(s).table| < |s.table|
  {
    assert DoReap(s).table.Keys == s.table.Keys - {s.queue[0]};
  }

  lemma UnblockSize(s: Sys, td: Td)
    ensures |DoUnblock(s, td).table| == |s.table|
  {
    assert DoUnblock(s, td).table.Keys == s.table.Keys;
  }

  lemma ReapFields(s: Sys)
    requires s.queue != []
    ensures
      var t, td := DoReap(s), s.queue[0];
      && t.table == s.table - {td} && t.queue == s.queue[1..] && t.onCpu == s.onCpu && t.current == s.current
      && t.retired == (if td.pid in Pids(t.table) then s.retired else s.retired + [td.pid])
      && t.live == (if td.pid in Pids(t.table) then s.live else s.live - {td.pid})
      && t.families == if td.pid in Pids(t.table) then s.families else s.families - {td.pid}
  {}

  /** Only the process that loses a thread can become empty. */
  lemma DropSlotEmpty(procs: seq<Process>, i: nat, j: nat)
    requires At(procs, i, j) && NoEmpty(procs)
    ensures |DropSlot(procs, i, j)| == |procs| && DropSlot(procs, i, j)[i].pid == procs[i].pid
    ensures forall k :: 0 <= k < |procs| && k != i ==> DropSlot(procs, i, j)[k].slots != []
  {}

  lemma AllFull(procs: seq<Process>, i: nat)
    requires i < |procs| && procs[i].slots != [] && forall k :: 0 <= k < |procs| && k != i ==> procs[k].slots != []
    ensures NoEmpty(procs)
  {}

  lemma KnownPid(procs: seq<Process>, s: Sys, i: nat)
    requires Rep(procs, s.table) && NoEmpty(procs) && i < |procs|
    ensures procs[i].pid in Pids(s.table)
  {
    assert At(procs, i, 0) && Name(procs, i, 0) in s.table;
  }

  lemma KillFields(s: Sys, pid: nat)
    ensures
      var t := DoKill(s, pid);
      t.queue == s.queue && t.onCpu == s.onCpu && t.current == s.current && t.retired == s.retired && t.live == s.live && t.families == s.families
  {}

  lemma KillOthers(s: Sys, pid: nat)
    ensures DoKill(s, pid).table.Keys == s.table.Keys
    ensures forall td :: td in s.table && td.pid != pid ==> DoKill(s, pid).table[td] == s.table[td]
  {}

  lemma UnblockNone(s: Sys, pid: nat)
    ensures UnblockAll(s, pid, []) == s
  {}

  lemma UnblockOne(s: Sys, pid: nat, tids: seq<nat>, m: nat)
    requires m < |tids|
    ensures UnblockAll(s, pid, tids[..m + 1]) == DoUnblock(UnblockAll(s, pid, tids[..m]), Td(pid, tids[m]))
  {
    assert tids[..m + 1][..m] == tids[..m];
  }

  lemma TidsOf(procs: seq<Process>, table: map<Td, Thread>, i: nat, tids: seq<nat>)
    requires Rep(procs, table) && i < |procs| && |tids| == |procs[i].slots|
    requires forall k :: 0 <= k < |tids| ==> tids[k] == procs[i].slots[k].tid
    ensures forall t :: t in tids <==> Td(procs[i].pid, t) in table
  {
    forall t | t in tids ensures Td(procs[i].pid, t) in table {
      var k :| 0 <= k < |tids| && tids[k] == t;
      assert At(procs, i, k) && Name(procs, i, k) in table;
    }
    forall t | Td(procs[i].pid, t) in table ensures t in tids {
      var k, l :| At(procs, k, l) && Name(procs, k, l) == Td(procs[i].pid, t);
      assert k == i && tids[l] == t;
    }
  }

  /** The thread numbers of a process in table order. */
  function Numbers(slots: seq<Slot>): (tids: seq<nat>)
    ensures |tids| == |slots| && forall k :: 0 <= k < |slots| ==> tids[k] == slots[k].tid
  {
    seq(|slots|, k requires 0 <= k < |slots| => slots[k].tid)
  }

  /** A trusted alloc_tid gives a number that no thread of the process has. */
  lemma TidUnused(procs: seq<Process>, s: Sys, i: nat)
    requires Rep(procs, s.table) && Inv(s) && i < |procs| && ThreadIds.Trustworthy(Numbers(procs[i].slots))
    ensures
      var tid := ThreadIds.Chosen(Numbers(procs[i].slots));
      tid <= MAX_TID && Td(procs[i].pid, tid) !in s.table
  {
    var tids := Numbers(procs[i].slots);
    TidsOf(procs, s.table, i, tids);
    TidsDistinct(procs, i);
    TidsInRange(s, procs[i].pid, tids);
    hide Rep, Inv;
    ThreadIds.TrustworthyFresh(tids);
  }

  lemma TidsDistinct(procs: seq<Process>, i: nat)
    requires DistinctNames(procs) && i < |procs|
    ensures Distinct(Numbers(procs[i].slots))
  {
    var tids := Numbers(procs[i].slots);
    forall j, k | 0 <= j < k < |tids| ensures tids[j] != tids[k] {
      assert At(procs, i, j) && At(procs, i, k);
    }
  }

  lemma TidsInRange(s: Sys, pid: nat, tids: seq<nat>)
    requires Inv(s) && forall t :: t in tids <==> Td(pid, t) in s.table
    ensures 0 !in tids && forall t :: t in tids ==> t <= MAX_TID
  {
    assert Td(pid, 0) !in s.table;
    forall t | t in tids ensures t <= MAX_TID {
      assert Td(pid, t) in s.table;
    }
  }

  lemma CurrentLive(s: Sys)
    requires Inv(s) && s.onCpu
    ensures s.current in s.table && s.current.pid in s.live
  {}

  lemma PidsUnique(procs: seq<Process>, table: map<Td, Thread>)
    requires Rep(procs, table)
    ensures forall i, k :: 0 <= i < |procs| && 0 <= k < |procs| && procs[i].pid == procs[k].pid ==> i == k
  {}
}
