/**
 How one command can stay unfinished while the queue goes once round.

 One command is left unfinished while others are submitted, completed and processed one at
 a time; the submission queue never looks full, every slot used is free, and the next
 command will take the slot of the unfinished one.
 */
module NvmeReorder {
  import opened Division
  import opened NvmeQueue
  import opened NvmeProtocol
  import opened NvmeDelivery

  lemma {:induction false} RunJoin(s: State, n: nat, xs: seq<Step>, t: State, ys: seq<Step>, u: State)
    requires Run(FreeSlots, s, n, xs, t) && Run(FreeSlots, t, n, ys, u)
    ensures Run(FreeSlots, s, n, xs + ys, u)
    decreases |xs|
  {
    hide Apply, Enabled, Allowed;
    if xs == [] {
      assert xs + ys == ys;
    } else {
      RunJoin(Apply(s, n, xs[0]), n, xs[1..], t, ys, u);
      assert (xs + ys)[1..] == xs[1..] + ys;
    }
  }

  lemma RunOne(s: State, n: nat, xs: seq<Step>, t: State, step: Step)
    requires Run(FreeSlots, s, n, xs, t) && Inv(t, n) && Enabled(t, n, step) && Allowed(FreeSlots, t, n, step)
    ensures Run(FreeSlots, s, n, xs + [step], Apply(t, n, step)) && Inv(Apply(t, n, step), n)
  {
    StepInv(t, n, step);
    hide Apply, Enabled, Free;
    var u := Apply(t, n, step);
    assert [step][1..] == [];
    assert Run(FreeSlots, u, n, [], u);
    assert Run(FreeSlots, t, n, [step], u);
    RunJoin(s, n, xs, t, [step], u);
  }

  /** Command 0 is fetched but unfinished; the m - 1 later ones are done and processed. */
  ghost predicate Stuck(s: State, n: nat, m: nat, a: Req) {
    && Inv(s, n) && s.mode == Idle && 1 <= m == |s.reqs| && |s.posted| == |s.acks| == s.rung == m - 1
    && Waits(s, a)
  }

  ghost predicate Waits(s: State, a: Req) {
    && |s.inflight| == 1 && s.inflight[0].index == 0 && s.reqs != [] && s.reqs[0] == a
    && s.readQueue != [] && s.readQueue[0] == (if a.Read? then a.buffer else 0)
  }

  lemma Begin(n: nat, disk0: map<nat, Data>, a: Req) returns (steps: seq<Step>, t: State)
    requires SizeOk(n)
    ensures Run(FreeSlots, Init(n, disk0), n, steps, t) && Stuck(t, n, 1, a) && t.disk == disk0
  {
    var s := Init(n, disk0);
    InitInv(n, disk0);
    RingCounts(n, 0, 0);
    assert Enabled(s, n, Submit(a)) && Free(s, n, 0);
    RunOne(s, n, [], s, Submit(a));
    var s1 := DoSubmit(s, n, a);
    RingCounts(n, 0, 1);
    assert Enabled(s1, n, Fetch);
    RunOne(s, n, [] + [Submit(a)], s1, Fetch);
    steps, t := [] + [Submit(a)] + [Fetch], DoFetch(s1, n);
  }

  /** The controller finished a later command; the driver has not looked yet. */
  ghost predicate Behind(s: State, n: nat, m: nat, a: Req) {
    && Inv(s, n) && s.mode == Idle && 1 <= m && |s.reqs| == m + 1 && |s.posted| == m && |s.acks| == s.rung == m - 1
    && s.posted[m - 1] == m && s.reqs[m].Read? && Waits(s, a)
  }

  lemma SubmitEnabled(s: State, n: nat, req: Req)
    requires Inv(s, n) && s.mode == Idle && |s.reqs| + 1 < |s.acks| + n
    ensures Enabled(s, n, Submit(req))
  {
    RingCounts(n, s.seen, |s.reqs|);
  }

  lemma CompleteEnabled(s: State, n: nat, j: nat)
    requires Inv(s, n) && s.mode == Idle && j < |s.inflight|
    ensures Enabled(s, n, Complete(j))
  {
    NextIndexCount(n, |s.posted|);
    if Ix(n, s.rung) == Ix(n, |s.posted| + 1) {
      IndexInjective(n, s.rung, |s.posted| + 1);
    }
  }

  lemma FetchEnabled(s: State, n: nat)
    requires Inv(s, n) && Fetched(s) < |s.reqs|
    ensures Enabled(s, n, Fetch)
  {
    if Ix(n, Fetched(s)) == Ix(n, |s.reqs|) {
      IndexInjective(n, Fetched(s), |s.reqs|);
    }
  }

  /** Only the unfinished command holds a slot, its own. */
  lemma StuckPend(s: State, n: nat, m: nat, a: Req)
    requires Stuck(s, n, m, a)
    ensures Ordered(s) && Pend(s) == [0] && Holds(s, 0)
  {
    assert Indices(s.inflight) == [0];
  }

  lemma StuckFree(s: State, n: nat, m: nat, a: Req)
    requires Stuck(s, n, m, a) && m < n
    ensures Free(s, n, m)
  {
    StuckPend(s, n, m, a);
    SmallIndex(n, 0);
    SmallIndex(n, m);
  }

  /** A later command is submitted and fetched beside the unfinished one. */
  lemma Enqueue(s: State, n: nat, m: nat, a: Req, x: Req) returns (steps: seq<Step>, t: State)
    requires Stuck(s, n, m, a) && m < n && 4 <= n && x.Read?
    ensures Run(FreeSlots, s, n, steps, t) && Inv(t, n) && t.mode == Idle && t.disk == s.disk
    ensures t.reqs == s.reqs + [x] && t.readQueue == s.readQueue[m := x.buffer]
    ensures t.posted == s.posted && t.acks == s.acks && t.rung == s.rung
    ensures |t.inflight| == 2 && t.inflight[0] == s.inflight[0] && t.inflight[1].index == m
  {
    SubmitEnabled(s, n, x);
    StuckFree(s, n, m, a);
    RunOne(s, n, [], s, Submit(x));
    InvRings(s, n);
    SlotIs(n, s.cmdCounter);
    SmallIndex(n, m);
    hide Ix, NextIndex, QueueFull, Inv, Run;
    var s1 := Apply(s, n, Submit(x));
    FetchEnabled(s1, n);
    RunOne(s, n, [] + [Submit(x)], s1, Fetch);
    steps, t := [] + [Submit(x)] + [Fetch], Apply(s1, n, Fetch);
  }

  lemma Advance(s: State, n: nat, m: nat, a: Req, x: Req) returns (steps: seq<Step>, t: State)
    requires Stuck(s, n, m, a) && m < n && 4 <= n && x.Read?
    ensures Run(FreeSlots, s, n, steps, t) && Behind(t, n, m, a) && t.disk == s.disk
  {
    hide Ix, NextIndex, QueueFull, Inv, Run;
    InvRings(s, n);
    var xs, s1 := Enqueue(s, n, m, a, x);
    InvJobs(s1, n);
    InvRings(s1, n);
    CompleteEnabled(s1, n, 1);
    RunOne(s, n, xs, s1, Complete(1));
    steps, t := xs + [Complete(1)], Apply(s1, n, Complete(1));
  }

  lemma InvJobs(s: State, n: nat)
    requires Inv(s, n)
    ensures Jobs(s, n)
  {}

  lemma SmallIndex(n: nat, m: nat)
    requires m < n
    ensures Ix(n, m) == m
  {
    Unique(m, n, 0, m);
  }

  /** The driver side after update_queues: all fields but its own queue indices are as before. */
  ghost predicate Polled(s: State, t: State) {
    && t.posted == s.posted && t.results == s.results && t.reqs == s.reqs && t.inflight == s.inflight && t.disk == s.disk
    && t.rung == s.rung && t.acks == s.acks && t.readQueue == s.readQueue && t.pages == s.pages && t.delivered == s.delivered
  }

  /** update_queues finds every completion posted so far. */
  lemma Update(s: State, n: nat) returns (steps: seq<Step>, t: State)
    requires Inv(s, n) && s.mode == Idle
    ensures Run(FreeSlots, s, n, steps, t) && Inv(t, n) && t.mode == Handling && t.seen == |s.posted| && Polled(s, t)
  {
    RunOne(s, n, [], s, StartIrq);
    hide Run, Inv;
    var s1 := Apply(s, n, StartIrq);
    var ys;
    ys, t := PollAll(s1, n);
    RunJoin(s, n, [] + [StartIrq], s1, ys, t);
    steps := [] + [StartIrq] + ys;
  }

  lemma {:induction false} PollAll(s: State, n: nat) returns (steps: seq<Step>, t: State)
    requires Inv(s, n) && s.mode == Updating
    ensures Run(FreeSlots, s, n, steps, t) && Inv(t, n) && t.mode == Handling && t.seen == |s.posted| && Polled(s, t)
    decreases |s.posted| - s.seen
  {
    InvRings(s, n);
    PollInv(s, n);
    RunOne(s, n, [], s, Poll);
    hide Run, Inv, Ix, CqTailPhase, NextIndex;
    steps, t := [] + [Poll], Apply(s, n, Poll);
    if t.mode == Updating {
      var ys, u := PollAll(t, n);
      RunJoin(s, n, steps, t, ys, u);
      steps, t := steps + ys, u;
    }
  }

  /** An interrupt that finds exactly one new completion, of an asynchronous read. */
  lemma Serve(s: State, n: nat) returns (steps: seq<Step>, t: State)
    requires Inv(s, n) && s.mode == Idle && |s.posted| == |s.acks| + 1
    requires s.posted[|s.acks|] < |s.reqs| && s.reqs[s.posted[|s.acks|]].Read?
    ensures Run(FreeSlots, s, n, steps, t) && Inv(t, n) && t.mode == Handling && t.seen == |t.acks| == |s.posted|
    ensures t.posted == s.posted && t.reqs == s.reqs && t.inflight == s.inflight && t.disk == s.disk && t.rung == s.rung
    ensures
      var slot := Ix(n, s.posted[|s.acks|]);
      t.delivered == s.delivered + [(s.readQueue[slot], s.pages[slot])] && t.readQueue == s.readQueue[slot := 0]
  {
    var xs, s1 := Update(s, n);
    InvEntry(s1, n);
    InvRings(s1, n);
    RingCounts(n, |s1.acks|, s1.seen);
    hide NextIndex, Run, Inv, QueueEmpty, Ix;
    RunOne(s, n, xs, s1, Handle);
    steps, t := xs + [Handle], Apply(s1, n, Handle);
  }

  lemma InvRings(s: State, n: nat)
    requires Inv(s, n)
    ensures Shape(s, n) && Counts(s, n) && Rings(s, n)
  {}

  lemma InvEntry(s: State, n: nat)
    requires Inv(s, n) && |s.acks| < |s.posted|
    ensures EntryFor(s, n, |s.acks|)
  {}

  lemma Cycle(s: State, n: nat, m: nat, a: Req, x: Req) returns (steps: seq<Step>, t: State)
    requires Stuck(s, n, m, a) && m < n && 4 <= n && x.Read?
    ensures Run(FreeSlots, s, n, steps, t) && Stuck(t, n, m + 1, a) && t.disk == s.disk
  {
    var xs, s1 := Advance(s, n, m, a, x);
    var ys, s2 := Serve(s1, n);
    InvRings(s2, n);
    RingCounts(n, |s2.acks|, s2.seen);
    SmallIndex(n, m);
    hide Run, Inv, Ix, QueueEmpty;
    RunJoin(s, n, xs, s1, ys, s2);
    RunOne(s, n, xs + ys, s2, Finish);
    steps, t := xs + ys + [Finish], Apply(s2, n, Finish);
  }

  lemma {:induction false} Cycles(s: State, n: nat, m: nat, a: Req, x: Req) returns (steps: seq<Step>, t: State)
    requires Stuck(s, n, m, a) && m <= n && 4 <= n && x.Read?
    ensures Run(FreeSlots, s, n, steps, t) && Stuck(t, n, n, a) && t.disk == s.disk
    decreases n - m
  {
    if m == n {
      steps, t := [], s;
    } else {
      var xs, s1 := Cycle(s, n, m, a, x);
      var ys, t1 := Cycles(s1, n, m + 1, a, x);
      RunJoin(s, n, xs, s1, ys, t1);
      steps, t := xs + ys, t1;
    }
  }

  /** So the slot of command a, whatever it asks for, can come to be the next one. */
  lemma ComesRound(n: nat, disk0: map<nat, Data>, a: Req, b: Req) returns (steps: seq<Step>, s: State)
    requires SizeOk(n) && 4 <= n
    ensures Run(FreeSlots, Init(n, disk0), n, steps, s) && Own(s, n, disk0) && s.mode == Idle && s.disk == disk0
    ensures Enabled(s, n, Submit(b)) && |s.reqs| == n && s.reqs[0] == a
    ensures Pend(s) == [0] && Holds(s, 0) && |s.posted| == |s.acks| && Ix(n, 0) == Ix(n, |s.reqs|)
    ensures Inv(s, n) && s.readQueue[Ix(n, 0)] == if a.Read? then a.buffer else 0
  {
    hide Run, Inv, Ix, Init, Own;
    var w0, s0 := Begin(n, disk0, a);
    var w1, s1 := Cycles(s0, n, 1, a, Read(0, 0));
    RunJoin(Init(n, disk0), n, w0, s0, w1, s1);
    steps, s := w0 + w1, s1;
    InitOwn(n, disk0);
    FreeSlotsDeliver(Init(n, disk0), n, steps, s, disk0);
    InvRings(s, n);
    SubmitEnabled(s, n, b);
    StuckPend(s, n, n, a);
    SameSlot(n, 0);
    SmallIndex(n, 0);
  }
}
