/**
 What the driver's clients see: which bytes reach which buffer, and what the disk holds.

 Commands own a data page and a read slot, both chosen by position modulo the queue size.
 The submission queue's fullness test bounds the number of unfinished commands, not which
 slots they occupy, so ownership depends on the order in which the controller completes.
 */
module NvmeDelivery {
  import opened NvmeQueue
  import opened NvmeProtocol

  // ---- runs -------------------------------------------------------------------------------

  /** Every interleaving; those that only submit into free slots; those completing in order. */
  datatype Policy = AnyOrder | FreeSlots | InOrder

  ghost predicate Allowed(p: Policy, s: State, n: nat, step: Step)
    requires Shape(s, n)
  {
    match p
    case AnyOrder => true
    case FreeSlots => step.Submit? ==> Free(s, n, |s.reqs|)
    case InOrder => step.Complete? ==> step.j == 0
  }

  ghost predicate Run(p: Policy, s: State, n: nat, steps: seq<Step>, t: State)
    decreases |steps|
  {
    Shape(s, n) &&
    if steps == [] then t == s
    else Enabled(s, n, steps[0]) && Allowed(p, s, n, steps[0]) && Run(p, Apply(s, n, steps[0]), n, steps[1..], t)
  }

  /** In every interleaving each posted completion is processed exactly once and in order. */
  lemma {:induction false} RunInv(p: Policy, s: State, n: nat, steps: seq<Step>, t: State)
    requires Inv(s, n) && Run(p, s, n, steps, t)
    ensures Inv(t, n)
    decreases |steps|
  {
    hide Inv, Apply, Enabled;
    if steps != [] {
      StepInv(s, n, steps[0]);
      RunInv(p, Apply(s, n, steps[0]), n, steps[1..], t);
    }
  }

  /** The queue size of the driver meets the size condition. */
  lemma DriverQueueSize()
    ensures SizeOk(64)
  {}

  /**
   After any interleaving: completions are found exactly while there are new ones, the index
   helpers' assertions hold, each completion is processed once and in the order posted, and
   the submission tail is the command counter modulo the queue size.
   */
  lemma EveryInterleaving(n: nat, disk0: map<nat, Data>, steps: seq<Step>, t: State)
    requires SizeOk(n) && Run(AnyOrder, Init(n, disk0), n, steps, t)
    ensures Shape(t, n) && t.sqTail == t.cmdCounter % n
    ensures |t.acks| <= t.seen <= |t.posted| <= |t.reqs|
    ensures forall k :: 0 <= k < |t.acks| ==> t.acks[k] == t.posted[k] % n
    ensures t.mode == Updating ==> (t.cq[t.cqTail].phase != CqTailPhase(n, t.counter) <==> t.seen < |t.posted|)
    ensures t.mode == Updating && t.seen < |t.posted| ==> !QueueFull(n, t.cqHead, t.cqTail) && !QueueEmpty(t.sqHead, t.sqTail)
  {
    InitInv(n, disk0);
    RunInv(AnyOrder, Init(n, disk0), n, steps, t);
    SlotIs(n, t.cmdCounter);
    if t.mode == Updating {
      PollInv(t, n);
    }
    forall k: nat | k < |t.acks| ensures t.acks[k] == t.posted[k] % n {
      SlotIs(n, t.posted[k]);
    }
  }

  // ---- unfinished commands ----------------------------------------------------------------

  ghost function Indices(jobs: seq<Job>): (r: seq<nat>)
    ensures |r| == |jobs| && forall j :: 0 <= j < |jobs| ==> r[j] == jobs[j].index
  {
    seq(|jobs|, j requires 0 <= j < |jobs| => jobs[j].index)
  }

  ghost function Between(lo: nat, hi: nat): (r: seq<nat>)
    requires lo <= hi
    ensures |r| == hi - lo && forall i :: 0 <= i < |r| ==> r[i] == lo + i
  {
    seq(hi - lo, i requires 0 <= i => lo + i)
  }

  /** Commands the driver has not processed: posted, then fetched, then only submitted. */
  ghost function Pend(s: State): (r: seq<nat>)
    requires |s.acks| <= |s.posted| && Fetched(s) <= |s.reqs|
    ensures |r| == |s.reqs| - |s.acks|
  {
    s.posted[|s.acks|..] + Indices(s.inflight) + Between(Fetched(s), |s.reqs|)
  }

  ghost predicate Ordered(s: State) { |s.acks| <= |s.posted| && Fetched(s) <= |s.reqs| }

  /** An unfinished command holds its slot, except a write that the controller has executed. */
  ghost predicate Holds(s: State, i: nat)
    requires Ordered(s) && i < |Pend(s)|
  {
    |s.posted| - |s.acks| <= i || (Pend(s)[i] < |s.reqs| && !s.reqs[Pend(s)[i]].Write?)
  }

  /** No command holds the slot of command m. */
  ghost predicate Free(s: State, n: nat, m: nat)
    requires n > 0
  {
    Ordered(s) && forall i: nat :: i < |Pend(s)| && Holds(s, i) ==> Ix(n, Pend(s)[i]) != Ix(n, m)
  }

  ghost predicate SlotsApart(s: State, n: nat)
    requires n > 0 && Ordered(s)
  {
    forall i: nat, j: nat :: i < j < |Pend(s)| && Holds(s, i) && Holds(s, j) ==> Ix(n, Pend(s)[i]) != Ix(n, Pend(s)[j])
  }

  /** A completed command: a read's buffer is in its read slot, and what was read in its page. */
  ghost predicate Owned(s: State, n: nat, m: nat, value: Data)
    requires Shape(s, n) && m < |s.reqs|
  {
    var r := s.reqs[m];
    && (r.Read? ==> s.readQueue[Ix(n, m)] == r.buffer)
    && (!r.Write? ==> s.pages[Ix(n, m)] == value)
  }

  /** The buffer part alone: what holds before the controller has filled the page. */
  ghost predicate Waiting(s: State, n: nat, m: nat)
    requires Shape(s, n)
  {
    m < |s.reqs| &&
    var r := s.reqs[m];
    && (r.Read? ==> s.readQueue[Ix(n, m)] == r.buffer)
    && (r.Write? ==> s.pages[Ix(n, m)] == r.data)
  }

  ghost predicate PostedOwn(s: State, n: nat)
    requires Shape(s, n)
  {
    && |s.posted| == |s.results|
    && (forall k :: 0 <= k < |s.posted| ==> s.posted[k] < |s.reqs|)
    && (forall k :: |s.acks| <= k < |s.posted| ==> Owned(s, n, s.posted[k], s.results[k]))
  }

  ghost predicate InflightOwn(s: State, n: nat)
    requires Shape(s, n)
  {
    forall j :: 0 <= j < |s.inflight| ==> Waiting(s, n, s.inflight[j].index)
  }

  ghost predicate SubmittedOwn(s: State, n: nat)
    requires Shape(s, n)
  {
    forall m: nat :: Fetched(s) <= m < |s.reqs| ==> Waiting(s, n, m)
  }

  // ---- the sequential meaning -------------------------------------------------------------

  /** A disk that executes requests one after another, and the value each one carries. */
  function Execute(disk: map<nat, Data>, reqs: seq<Req>): (r: (map<nat, Data>, seq<Data>))
    ensures |r.1| == |reqs|
  {
    if reqs == [] then (disk, [])
    else
      var before := Execute(disk, reqs[..|reqs| - 1]);
      var r := reqs[|reqs| - 1];
      if r.Write? then (before.0[r.lba := r.data], before.1 + [r.data])
      else (before.0, before.1 + [DiskAt(before.0, r.lba)])
  }

  /** What asynchronous reads with those values put into which buffers, in order. */
  function Deliveries(reqs: seq<Req>, values: seq<Data>): seq<(nat, Data)>
    requires |values| == |reqs|
  {
    if reqs == [] then []
    else
      var last := |reqs| - 1;
      var before := Deliveries(reqs[..last], values[..last]);
      if reqs[last].Read? then before + [(reqs[last].buffer, values[last])] else before
  }

  /** The requests in the order in which the controller completed them. */
  ghost function Done(s: State): (r: seq<Req>)
    requires forall k :: 0 <= k < |s.posted| ==> s.posted[k] < |s.reqs|
    ensures |r| == |s.posted| && forall k :: 0 <= k < |r| ==> r[k] == s.reqs[s.posted[k]]
  {
    seq(|s.posted|, k requires 0 <= k < |s.posted| => s.reqs[s.posted[k]])
  }

  /** The state is what sequential execution in completion order gives. */
  ghost predicate Linear(s: State, disk0: map<nat, Data>) {
    && |s.acks| <= |s.posted|
    && (forall k :: 0 <= k < |s.posted| ==> s.posted[k] < |s.reqs|)
    && Execute(disk0, Done(s)) == (s.disk, s.results)
    && s.delivered == Deliveries(Done(s)[..|s.acks|], s.results[..|s.acks|])
  }

  ghost predicate Own(s: State, n: nat, disk0: map<nat, Data>) {
    && Inv(s, n) && SlotsApart(s, n)
    && PostedOwn(s, n) && InflightOwn(s, n) && SubmittedOwn(s, n) && Linear(s, disk0)
  }

  /** The page of a completed synchronous read holds what its caller will copy. */
  ghost predicate SyncPages(s: State, n: nat)
    requires Shape(s, n)
  {
    && |s.posted| == |s.results|
    && forall k :: |s.acks| <= k < |s.posted| && s.posted[k] < |s.reqs| && s.reqs[s.posted[k]].SyncRead? ==>
      s.pages[Ix(n, s.posted[k])] == s.results[k]
  }

  /** What clients can see: the disk, the deliveries, and the pages of synchronous reads. */
  ghost predicate Right(s: State, n: nat, disk0: map<nat, Data>) {
    Shape(s, n) && Linear(s, disk0) && SyncPages(s, n)
  }

  lemma OwnRight(s: State, n: nat, disk0: map<nat, Data>)
    requires Own(s, n, disk0)
    ensures Right(s, n, disk0)
  {
    hide Ix;
    forall k | |s.acks| <= k < |s.posted| && s.reqs[s.posted[k]].SyncRead?
      ensures s.pages[Ix(n, s.posted[k])] == s.results[k]
    {
      assert Owned(s, n, s.posted[k], s.results[k]);
    }
  }

  lemma InitOwn(n: nat, disk0: map<nat, Data>)
    requires SizeOk(n)
    ensures Own(Init(n, disk0), n, disk0)
  {
    InitInv(n, disk0);
  }

  // ---- every step keeps ownership when slots are free -------------------------------------

  lemma FreePosted(s: State, n: nat, x: nat, k: nat)
    requires n > 0 && Free(s, n, x) && |s.acks| <= k < |s.posted| && s.posted[k] < |s.reqs| && !s.reqs[s.posted[k]].Write?
    ensures Ix(n, s.posted[k]) != Ix(n, x)
  {
    assert Pend(s)[k - |s.acks|] == s.posted[k] && Holds(s, k - |s.acks|);
  }

  lemma FreeInflight(s: State, n: nat, x: nat, j: nat)
    requires n > 0 && Free(s, n, x) && j < |s.inflight|
    ensures Ix(n, s.inflight[j].index) != Ix(n, x)
  {
    var i := |s.posted| - |s.acks| + j;
    assert Pend(s)[i] == s.inflight[j].index && Holds(s, i);
  }

  lemma FreeSubmitted(s: State, n: nat, x: nat, m: nat)
    requires n > 0 && Free(s, n, x) && Fetched(s) <= m < |s.reqs|
    ensures Ix(n, m) != Ix(n, x)
  {
    assert Pend(s)[m - |s.acks|] == m && Holds(s, m - |s.acks|);
  }

  /** Nothing a command holds changes when only a free slot changes. */
  lemma OthersKept(s: State, s': State, n: nat, x: nat)
    requires Shape(s, n) && Shape(s', n) && Free(s, n, x) && s.reqs <= s'.reqs
    requires forall i :: 0 <= i < n && i != Ix(n, x) ==> s'.readQueue[i] == s.readQueue[i] && s'.pages[i] == s.pages[i]
    requires s'.posted == s.posted && s'.results == s.results && s'.acks == s.acks && s'.inflight == s.inflight
    requires PostedOwn(s, n) && InflightOwn(s, n) && SubmittedOwn(s, n)
    ensures PostedOwn(s', n) && InflightOwn(s', n)
    ensures forall m: nat :: Fetched(s) <= m < |s.reqs| ==> Waiting(s', n, m)
  {
    hide Ix, Pend, Free;
    forall k: nat | |s'.acks| <= k < |s'.posted| ensures Owned(s', n, s'.posted[k], s'.results[k]) {
      assert Owned(s, n, s.posted[k], s.results[k]);
      if !s.reqs[s.posted[k]].Write? {
        FreePosted(s, n, x, k);
      }
    }
    forall j: nat | j < |s'.inflight| ensures Waiting(s', n, s'.inflight[j].index) {
      assert Waiting(s, n, s.inflight[j].index);
      FreeInflight(s, n, x, j);
    }
    forall m: nat | Fetched(s) <= m < |s.reqs| ensures Waiting(s', n, m) {
      assert Waiting(s, n, m);
      FreeSubmitted(s, n, x, m);
    }
  }

  lemma SubmitPend(s: State, n: nat, req: Req)
    requires Shape(s, n) && Ordered(s)
    ensures Pend(DoSubmit(s, n, req)) == Pend(s) + [|s.reqs|] && Holds(DoSubmit(s, n, req), |Pend(s)|)
    ensures PendBelow(s) ==> forall i: nat :: i < |Pend(s)| ==> (Holds(DoSubmit(s, n, req), i) <==> Holds(s, i))
  {
    hide Ix, NextIndex;
  }

  /** Unfinished commands were submitted. */
  ghost predicate PendBelow(s: State)
    requires Ordered(s)
  {
    forall i: nat :: i < |Pend(s)| ==> Pend(s)[i] < |s.reqs|
  }

  lemma OwnBelow(s: State, n: nat)
    requires Shape(s, n) && Ordered(s) && PostedOwn(s, n) && InflightOwn(s, n)
    ensures PendBelow(s)
  {
    hide Ix, Owned;
    forall i: nat | i < |Pend(s)| ensures Pend(s)[i] < |s.reqs| {
      var a := |s.posted| - |s.acks|;
      if a <= i < a + |s.inflight| {
        assert Waiting(s, n, s.inflight[i - a].index);
      }
    }
  }

  lemma SubmitApart(s: State, n: nat, req: Req)
    requires Shape(s, n) && Ordered(s) && PendBelow(s) && SlotsApart(s, n) && Free(s, n, |s.reqs|)
    ensures SlotsApart(DoSubmit(s, n, req), n)
  {
    SubmitPend(s, n, req);
    hide Ix, NextIndex, Pend, Holds, DoSubmit;
  }

  lemma SubmitOwn(s: State, n: nat, req: Req, disk0: map<nat, Data>)
    requires Own(s, n, disk0) && Enabled(s, n, Submit(req)) && Free(s, n, |s.reqs|)
    ensures Own(DoSubmit(s, n, req), n, disk0)
  {
    hide Ix, NextIndex, QueueFull, Phases, PostedPhase, CqEntries, SqEntries, Jobs, Acked, Execute, Deliveries, Pend;
    var s' := DoSubmit(s, n, req);
    SubmitInv(s, n, req);
    SlotIs(n, s.cmdCounter);
    OwnBelow(s, n);
    SubmitApart(s, n, req);
    OthersKept(s, s', n, |s.reqs|);
    assert Waiting(s', n, |s.reqs|);
    assert Done(s') == Done(s);
  }

  lemma HandlePend(s: State, n: nat)
    requires Shape(s, n) && Ordered(s) && SlotsApart(s, n) && |s.acks| < |s.posted|
    ensures Pend(DoHandle(s, n)) == Pend(s)[1..] && SlotsApart(DoHandle(s, n), n)
    ensures Pend(s)[0] == s.posted[|s.acks|]
  {
    hide Ix, NextIndex;
    var s' := DoHandle(s, n);
    assert s'.posted[|s'.acks|..] == s.posted[|s.acks|..][1..];
    assert Pend(s') == Pend(s)[1..];
    forall i: nat, j: nat | i < j < |Pend(s')| && Holds(s', i) && Holds(s', j)
      ensures Ix(n, Pend(s')[i]) != Ix(n, Pend(s')[j])
    {
      assert Holds(s, i + 1) && Holds(s, j + 1);
    }
  }

  /** The handled completion delivers its own command's bytes to its own buffer. */
  lemma HandleOwn(s: State, n: nat, disk0: map<nat, Data>)
    requires Own(s, n, disk0) && Enabled(s, n, Handle)
    ensures Own(DoHandle(s, n), n, disk0)
  {
    var s' := DoHandle(s, n);
    var k := |s.acks|;
    HandleInv(s, n);
    RingCounts(n, k, s.seen);
    assert EntryFor(s, n, k) && Owned(s, n, s.posted[k], s.results[k]);
    hide Ix, NextIndex, QueueEmpty, Phases, PostedPhase, CqEntries, SqEntries, Jobs, Acked, Execute, Deliveries, Pend, SlotsApart, PostedOwn, InflightOwn, SubmittedOwn;
    HandlePend(s, n);
    HandleRest(s, n);
    HandleLinear(s, n, disk0);
  }

  lemma HandleLinear(s: State, n: nat, disk0: map<nat, Data>)
    requires Shape(s, n) && Linear(s, disk0) && |s.acks| < |s.posted|
    requires EntryFor(s, n, |s.acks|) && s.cqHead == Ix(n, |s.acks|)
    requires |s.results| == |s.posted| && Owned(s, n, s.posted[|s.acks|], s.results[|s.acks|])
    ensures Linear(DoHandle(s, n), disk0)
  {
    hide Ix, NextIndex, Execute, Deliveries;
    assert Done(DoHandle(s, n)) == Done(s);
    DeliverOne(Done(s), s.results, |s.acks|);
  }

  lemma DeliverOne(done: seq<Req>, values: seq<Data>, k: nat)
    requires k < |done| == |values|
    ensures Deliveries(done[..k + 1], values[..k + 1]) ==
      Deliveries(done[..k], values[..k]) + if done[k].Read? then [(done[k].buffer, values[k])] else []
  {
    assert done[..k + 1][..k] == done[..k] && values[..k + 1][..k] == values[..k];
  }

  /** Clearing the handled slot touches no other unfinished command. */
  lemma HandleRest(s: State, n: nat)
    requires Shape(s, n) && Counts(s, n) && SlotsApart(s, n) && |s.acks| < |s.posted|
    requires EntryFor(s, n, |s.acks|) && s.cqHead == Ix(n, |s.acks|)
    requires PostedOwn(s, n) && InflightOwn(s, n) && SubmittedOwn(s, n)
    ensures PostedOwn(DoHandle(s, n), n) && InflightOwn(DoHandle(s, n), n) && SubmittedOwn(DoHandle(s, n), n)
  {
    hide Ix, NextIndex;
    var s' := DoHandle(s, n);
    var t := s'.(readQueue := s.readQueue);
    assert PostedOwn(t, n) by {
      forall k | |t.acks| <= k < |t.posted| ensures Owned(t, n, t.posted[k], t.results[k]) {
        assert Owned(s, n, s.posted[k], s.results[k]);
      }
    }
    assert InflightOwn(t, n) by {
      forall j | 0 <= j < |t.inflight| ensures Waiting(t, n, t.inflight[j].index) {
        assert Waiting(s, n, s.inflight[j].index);
      }
    }
    assert SubmittedOwn(t, n) by {
      forall m: nat | Fetched(t) <= m < |t.reqs| ensures Waiting(t, n, m) {
        assert Waiting(s, n, m);
      }
    }
    if s.reqs[s.posted[|s.acks|]].Read? {
      HandlePend(s, n);
      assert Pend(t) == Pend(s)[1..] && Holds(s, 0);
      assert Free(t, n, s.posted[|s.acks|]) by {
        forall i: nat | i < |Pend(t)| && Holds(t, i) ensures Ix(n, Pend(t)[i]) != Ix(n, s.posted[|s.acks|]) {
          assert Pend(t)[i] == Pend(s)[i + 1] && Holds(s, i + 1);
        }
      }
      OthersKept(t, s', n, s.posted[|s.acks|]);
    } else {
      assert s' == t;
    }
  }

  lemma FetchPend(s: State, n: nat)
    requires Shape(s, n) && Ordered(s) && Fetched(s) < |s.reqs|
    ensures Ordered(DoFetch(s, n)) && Pend(DoFetch(s, n)) == Pend(s)
  {
    hide NextIndex;
    var s' := DoFetch(s, n);
    assert Indices(s'.inflight) == Indices(s.inflight) + [Fetched(s)];
    assert Between(Fetched(s), |s.reqs|) == [Fetched(s)] + Between(Fetched(s'), |s'.reqs|);
  }

  lemma FetchOwn(s: State, n: nat, disk0: map<nat, Data>)
    requires Own(s, n, disk0) && Enabled(s, n, Fetch)
    ensures Own(DoFetch(s, n), n, disk0)
  {
    FetchInv(s, n);
    hide Ix, NextIndex, Phases, PostedPhase, CqEntries, SqEntries, Jobs, Acked, Execute, Deliveries, Pend, PostedOwn, InflightOwn, SubmittedOwn;
    var s' := DoFetch(s, n);
    FetchPend(s, n);
    assert Done(s') == Done(s);
    SameOwn(s, s', n);
  }

  /** Ownership only reads the slots, the pages and the histories. */
  lemma SameOwn(s: State, s': State, n: nat)
    requires Shape(s, n) && Shape(s', n) && PostedOwn(s, n) && InflightOwn(s, n) && SubmittedOwn(s, n)
    requires s'.readQueue == s.readQueue && s'.pages == s.pages && s'.reqs == s.reqs && s'.posted == s.posted
    requires s'.results == s.results && s'.acks == s.acks && Fetched(s) <= Fetched(s')
    requires forall j :: 0 <= j < |s'.inflight| ==>
      s'.inflight[j] in s.inflight || (Fetched(s) <= s'.inflight[j].index < |s.reqs|)
    ensures PostedOwn(s', n) && InflightOwn(s', n) && SubmittedOwn(s', n)
  {
    hide Ix;
    forall k | |s'.acks| <= k < |s'.posted| ensures Owned(s', n, s'.posted[k], s'.results[k]) {
      assert Owned(s, n, s.posted[k], s.results[k]);
    }
    forall j | 0 <= j < |s'.inflight| ensures Waiting(s', n, s'.inflight[j].index) {
      assert Waiting(s, n, s'.inflight[j].index);
    }
    forall m: nat | Fetched(s') <= m < |s'.reqs| ensures Waiting(s', n, m) {
      assert Waiting(s, n, m);
    }
  }

  /** Polling, starting and finishing an interrupt leave the data alone. */
  lemma QuietOwn(s: State, s': State, n: nat, disk0: map<nat, Data>)
    requires Own(s, n, disk0) && Inv(s', n)
    requires s'.readQueue == s.readQueue && s'.pages == s.pages && s'.reqs == s.reqs && s'.posted == s.posted
    requires s'.results == s.results && s'.acks == s.acks && s'.inflight == s.inflight
    requires s'.disk == s.disk && s'.delivered == s.delivered
    ensures Own(s', n, disk0)
  {
    hide Ix, Phases, PostedPhase, CqEntries, SqEntries, Jobs, Acked, Rings, Execute, Deliveries;
    assert Pend(s') == Pend(s) && Done(s') == Done(s);
    SameOwn(s, s', n);
  }

  // ---- completion in any order ------------------------------------------------------------

  /** Where a command stands in Pend before the controller completes the j-th fetched one. */
  ghost function Before(a: nat, j: nat, i: nat): nat {
    if i == a then a + j else if a < i <= a + j then i - 1 else i
  }

  lemma CompletePend(s: State, n: nat, j: nat)
    requires Shape(s, n) && Ordered(s) && SlotsApart(s, n) && j < |s.inflight|
    ensures Ordered(DoComplete(s, n, j)) && SlotsApart(DoComplete(s, n, j), n)
  {
    hide Ix, NextIndex;
    var s' := DoComplete(s, n, j);
    var a := |s.posted| - |s.acks|;
    forall i: nat | i < |Pend(s')| ensures Pend(s')[i] == Pend(s)[Before(a, j, i)] {
      CompleteAt(s, n, j, i);
    }
    forall i: nat, k: nat | i < k < |Pend(s')| && Holds(s', i) && Holds(s', k)
      ensures Ix(n, Pend(s')[i]) != Ix(n, Pend(s')[k])
    {
      var x, y := Before(a, j, i), Before(a, j, k);
      assert x != y && Holds(s, x) && Holds(s, y);
      if x < y {
        assert Ix(n, Pend(s)[x]) != Ix(n, Pend(s)[y]);
      } else {
        assert Ix(n, Pend(s)[y]) != Ix(n, Pend(s)[x]);
      }
    }
  }

  lemma CompleteAt(s: State, n: nat, j: nat, i: nat)
    requires Shape(s, n) && Ordered(s) && j < |s.inflight| && i < |Pend(s)|
    ensures Ordered(DoComplete(s, n, j)) && |Pend(DoComplete(s, n, j))| == |Pend(s)|
    ensures Pend(DoComplete(s, n, j))[i] == Pend(s)[Before(|s.posted| - |s.acks|, j, i)]
  {
    hide Ix, NextIndex;
    var s' := DoComplete(s, n, j);
    var a := |s.posted| - |s.acks|;
    assert s'.posted[|s'.acks|..] == s.posted[|s.acks|..] + [s.inflight[j].index];
    if a < i <= a + j {
      assert s'.inflight[i - a - 1] == s.inflight[i - a - 1];
    } else if a + j < i < a + |s.inflight| {
      assert s'.inflight[i - a - 1] == s.inflight[i - a];
    }
  }

  /** The value a completed command carries. */
  ghost function ValueOf(s: State, r: Req): Data {
    if r.Write? then r.data else DiskAt(s.disk, r.lba)
  }

  /** The controller used the command's own page and wrote nothing else. */
  lemma CompleteEffect(s: State, n: nat, j: nat)
    requires Shape(s, n) && Jobs(s, n) && InflightOwn(s, n) && j < |s.inflight|
    ensures
      var m := s.inflight[j].index;
      var s' := DoComplete(s, n, j);
      && m < |s.reqs|
      && Owned(s', n, m, ValueOf(s, s.reqs[m])) && s'.pages[Ix(n, m)] == ValueOf(s, s.reqs[m])
      && s'.results == s.results + [ValueOf(s, s.reqs[m])]
      && s'.disk == (if s.reqs[m].Write? then s.disk[s.reqs[m].lba := s.reqs[m].data] else s.disk)
      && forall i :: 0 <= i < n && i != Ix(n, m) ==> s'.pages[i] == s.pages[i]
  {
    hide Ix, NextIndex;
    assert Waiting(s, n, s.inflight[j].index);
  }

  lemma CompleteRest(s: State, n: nat, j: nat)
    requires Shape(s, n) && Counts(s, n) && SlotsApart(s, n) && Jobs(s, n) && j < |s.inflight|
    requires PostedOwn(s, n) && InflightOwn(s, n) && SubmittedOwn(s, n)
    ensures
      var s' := DoComplete(s, n, j);
      PostedOwn(s', n) && InflightOwn(s', n) && SubmittedOwn(s', n)
  {
    CompleteEffect(s, n, j);
    hide Ix, NextIndex, Jobs;
    var s' := DoComplete(s, n, j);
    var a := |s.posted| - |s.acks|;
    var m := s.inflight[j].index;
    assert Pend(s)[a + j] == m && Holds(s, a + j);
    forall k | |s'.acks| <= k < |s'.posted| ensures Owned(s', n, s'.posted[k], s'.results[k]) {
      if k < |s.posted| {
        assert Owned(s, n, s.posted[k], s.results[k]);
        assert Pend(s)[k - |s.acks|] == s.posted[k];
        assert s.reqs[s.posted[k]].Write? || Holds(s, k - |s.acks|);
      }
    }
    forall i | 0 <= i < |s'.inflight| ensures Waiting(s', n, s'.inflight[i].index) {
      var b := if i < j then i else i + 1;
      assert s'.inflight[i] == s.inflight[b] && Waiting(s, n, s.inflight[b].index);
      assert Pend(s)[a + b] == s.inflight[b].index && Holds(s, a + b);
    }
    forall x: nat | Fetched(s') <= x < |s'.reqs| ensures Waiting(s', n, x) {
      assert Waiting(s, n, x);
      assert Pend(s)[x - |s.acks|] == x && Holds(s, x - |s.acks|);
    }
  }

  lemma CompleteLinear(s: State, n: nat, j: nat, disk0: map<nat, Data>)
    requires Shape(s, n) && Jobs(s, n) && InflightOwn(s, n) && j < |s.inflight| && Linear(s, disk0)
    ensures Linear(DoComplete(s, n, j), disk0)
  {
    CompleteEffect(s, n, j);
    hide Ix, NextIndex, Jobs, Deliveries;
    var s' := DoComplete(s, n, j);
    var h := |s.acks|;
    var r := s.reqs[s.inflight[j].index];
    assert Done(s') == Done(s) + [r];
    assert Done(s')[..|s.posted|] == Done(s);
    assert Done(s')[..h] == Done(s)[..h] && s'.results[..h] == s.results[..h];
  }

  lemma CompleteOwn(s: State, n: nat, j: nat, disk0: map<nat, Data>)
    requires Own(s, n, disk0) && Enabled(s, n, Complete(j))
    ensures Own(DoComplete(s, n, j), n, disk0)
  {
    CompleteInv(s, n, j);
    hide Shape, Counts, Rings, PostedOwn, InflightOwn, SubmittedOwn, Linear, SlotsApart, Jobs, DoComplete;
    CompletePend(s, n, j);
    CompleteRest(s, n, j);
    CompleteLinear(s, n, j, disk0);
  }

  lemma StepOwn(s: State, n: nat, step: Step, disk0: map<nat, Data>)
    requires Own(s, n, disk0) && Enabled(s, n, step) && Allowed(FreeSlots, s, n, step)
    ensures Own(Apply(s, n, step), n, disk0)
  {
    hide Own, Counts, Rings, Phases, CqEntries, SqEntries, Jobs, Acked, DoSubmit, DoHandle, DoFetch, DoComplete;
    hide Ix, NextIndex, CqTailPhase, QueueFull, QueueEmpty, Free;
    OwnInv(s, n, disk0);
    StepInv(s, n, step);
    match step
    case Submit(req) => SubmitOwn(s, n, req, disk0);
    case StartIrq => QuietOwn(s, Apply(s, n, step), n, disk0);
    case Poll => QuietOwn(s, Apply(s, n, step), n, disk0);
    case Handle => HandleOwn(s, n, disk0);
    case Finish => QuietOwn(s, Apply(s, n, step), n, disk0);
    case Fetch => FetchOwn(s, n, disk0);
    case Complete(j) => CompleteOwn(s, n, j, disk0);
  }

  /**
   As long as commands are submitted into free slots, whatever the completion order, every
   asynchronous read delivers its own sectors to its own buffer, and the disk is the one
   obtained by executing the requests one by one in completion order.
   */
  lemma {:induction false} FreeSlotsDeliver(s: State, n: nat, steps: seq<Step>, t: State, disk0: map<nat, Data>)
    requires Own(s, n, disk0) && Run(FreeSlots, s, n, steps, t)
    ensures Own(t, n, disk0)
    decreases |steps|
  {
    hide Own, Apply, Enabled, Allowed;
    if steps != [] {
      OwnInv(s, n, disk0);
      StepOwn(s, n, steps[0], disk0);
      FreeSlotsDeliver(Apply(s, n, steps[0]), n, steps[1..], t, disk0);
    }
  }

  lemma OwnInv(s: State, n: nat, disk0: map<nat, Data>)
    requires Own(s, n, disk0)
    ensures Inv(s, n) && InflightOwn(s, n)
  {}

  // ---- completion in submission order -----------------------------------------------------

  /** What in-order completion adds, and the page a waiting synchronous read will copy. */
  ghost predicate InSequence(s: State, n: nat)
    requires Shape(s, n)
  {
    && (forall k :: 0 <= k < |s.posted| ==> s.posted[k] == k)
    && (forall j :: 0 <= j < |s.inflight| ==> s.inflight[j].index == |s.posted| + j)
    && |s.posted| == |s.results|
    && (0 < |s.posted| == |s.reqs| ==> s.pages[Ix(n, |s.reqs| - 1)] == s.results[|s.reqs| - 1])
  }

  /** In-order completion keeps the unfinished commands a window shorter than the queue. */
  lemma InOrderFree(s: State, n: nat)
    requires Shape(s, n) && Counts(s, n) && InSequence(s, n) && |s.reqs| < |s.acks| + n
    ensures Free(s, n, |s.reqs|)
  {
    hide Ix;
    forall i: nat | i < |Pend(s)| ensures Ix(n, Pend(s)[i]) != Ix(n, |s.reqs|) {
      assert Pend(s)[i] == |s.acks| + i;
      if Ix(n, Pend(s)[i]) == Ix(n, |s.reqs|) {
        IndexInjective(n, Pend(s)[i], |s.reqs|);
      }
    }
  }

  lemma CompleteInSequence(s: State, n: nat)
    requires Shape(s, n) && Counts(s, n) && Jobs(s, n) && InflightOwn(s, n) && InSequence(s, n) && 0 < |s.inflight|
    ensures InSequence(DoComplete(s, n, 0), n)
  {
    CompleteEffect(s, n, 0);
    hide Ix, NextIndex, Jobs, InflightOwn;
  }

  lemma StepInSequence(s: State, n: nat, step: Step)
    requires Inv(s, n) && InflightOwn(s, n) && InSequence(s, n) && Enabled(s, n, step) && Allowed(InOrder, s, n, step)
    ensures Allowed(FreeSlots, s, n, step)
    ensures InSequence(Apply(s, n, step), n)
  {
    hide Ix, NextIndex, QueueFull, QueueEmpty, Phases, PostedPhase, CqTailPhase, CqEntries, SqEntries, Jobs, Acked, Rings, Free, InflightOwn;
    InOrderFree(s, n);
    match step
    case Submit(req) =>
    case Complete(j) => CompleteInSequence(s, n);
    case StartIrq =>
    case Poll =>
    case Handle =>
    case Finish =>
    case Fetch =>
  }

  lemma {:induction false} InOrderOwn(s: State, n: nat, steps: seq<Step>, t: State, disk0: map<nat, Data>)
    requires Own(s, n, disk0) && InSequence(s, n) && Run(InOrder, s, n, steps, t)
    ensures Own(t, n, disk0) && InSequence(t, n)
    decreases |steps|
  {
    hide Own, Apply, Enabled, Allowed, InSequence;
    if steps != [] {
      OwnInv(s, n, disk0);
      StepInSequence(s, n, steps[0]);
      StepOwn(s, n, steps[0], disk0);
      InOrderOwn(Apply(s, n, steps[0]), n, steps[1..], t, disk0);
    }
  }

  lemma {:induction false} ExecutePrefix(disk0: map<nat, Data>, reqs: seq<Req>, k: nat)
    requires k <= |reqs|
    ensures Execute(disk0, reqs).1[..k] == Execute(disk0, reqs[..k]).1
    decreases |reqs|
  {
    if k == |reqs| {
      assert reqs[..k] == reqs;
    } else {
      var last := |reqs| - 1;
      ExecutePrefix(disk0, reqs[..last], k);
      assert reqs[..last][..k] == reqs[..k];
      assert Execute(disk0, reqs).1[..k] == Execute(disk0, reqs[..last]).1[..k];
    }
  }

  /**
   With in-order completion the driver is a sequential disk: the disk holds the effect of
   the completed requests, and the buffers got the values of the processed asynchronous
   reads, in submission order.
   */
  lemma InOrderRefinesDisk(n: nat, disk0: map<nat, Data>, steps: seq<Step>, t: State)
    requires SizeOk(n) && Run(InOrder, Init(n, disk0), n, steps, t)
    ensures Inv(t, n) && |t.acks| <= |t.posted| <= |t.reqs|
    ensures t.disk == Execute(disk0, t.reqs[..|t.posted|]).0
    ensures t.delivered == Deliveries(t.reqs[..|t.acks|], Execute(disk0, t.reqs[..|t.acks|]).1)
  {
    InitOwn(n, disk0);
    InOrderOwn(Init(n, disk0), n, steps, t, disk0);
    assert Done(t) == t.reqs[..|t.posted|];
    assert Done(t)[..|t.acks|] == t.reqs[..|t.acks|];
    ExecutePrefix(disk0, Done(t), |t.acks|);
  }

  /** nvme_sync returns only when every request has taken effect and every read is delivered. */
  lemma SyncCompletes(n: nat, disk0: map<nat, Data>, steps: seq<Step>, t: State)
    requires SizeOk(n) && Run(InOrder, Init(n, disk0), n, steps, t)
    requires QueueEmpty(t.sqHead, t.sqTail) && QueueEmpty(t.cqHead, t.cqTail)
    ensures t.disk == Execute(disk0, t.reqs).0
    ensures t.delivered == Deliveries(t.reqs, Execute(disk0, t.reqs).1)
  {
    InOrderRefinesDisk(n, disk0, steps, t);
    RingCounts(n, t.seen, |t.reqs|);
    RingCounts(n, |t.acks|, t.seen);
    assert t.reqs[..|t.reqs|] == t.reqs;
  }

  /** When a synchronous read sees its submission queue empty, its page holds its sectors. */
  lemma SyncReadCopies(n: nat, disk0: map<nat, Data>, steps: seq<Step>, t: State)
    requires SizeOk(n) && Run(InOrder, Init(n, disk0), n, steps, t)
    requires t.reqs != [] && t.reqs[|t.reqs| - 1].SyncRead? && QueueEmpty(t.sqHead, t.sqTail)
    ensures Inv(t, n)
    ensures t.pages[Ix(n, |t.reqs| - 1)] == DiskAt(Execute(disk0, t.reqs[..|t.reqs| - 1]).0, t.reqs[|t.reqs| - 1].lba)
  {
    InitOwn(n, disk0);
    InOrderOwn(Init(n, disk0), n, steps, t, disk0);
    RingCounts(n, t.seen, |t.reqs|);
    LastValue(t, n, disk0);
  }

  lemma LastValue(t: State, n: nat, disk0: map<nat, Data>)
    requires Shape(t, n) && InSequence(t, n) && Linear(t, disk0) && 0 < |t.posted| == |t.reqs|
    requires t.reqs[|t.reqs| - 1].SyncRead?
    ensures t.pages[Ix(n, |t.reqs| - 1)] == DiskAt(Execute(disk0, t.reqs[..|t.reqs| - 1]).0, t.reqs[|t.reqs| - 1].lba)
  {
    hide Ix, Deliveries;
    assert Done(t) == t.reqs;
  }

  // ---- when is a submission safe? ---------------------------------------------------------

  ghost predicate Holder(s: State, n: nat, i: nat, m: nat)
    requires n > 0
  {
    m < |s.reqs| && s.reqs[m].Read? && Ix(n, m) == i
  }

  /** A read slot that is not null belongs to an unfinished asynchronous read. */
  ghost predicate Nulls(s: State, n: nat)
    requires Shape(s, n) && Ordered(s)
  {
    forall i: nat :: i < n && s.readQueue[i] != 0 ==>
      exists q: nat :: q < |Pend(s)| && Holder(s, n, i, Pend(s)[q])
  }

  /** The slot of command m is held by an unexecuted write or an unfinished synchronous read. */
  ghost predicate HeldByOther(s: State, n: nat, m: nat)
    requires n > 0 && Ordered(s)
  {
    exists q: nat :: q < |Pend(s)| && Holds(s, q) && Pend(s)[q] < |s.reqs| && !s.reqs[Pend(s)[q]].Read? && Ix(n, Pend(s)[q]) == Ix(n, m)
  }

  /** Asynchronous reads come with a buffer, as nvme_async_read asserts. */
  ghost predicate Buffers(s: State)
    requires Ordered(s)
  {
    forall q: nat :: q < |Pend(s)| && Pend(s)[q] < |s.reqs| && s.reqs[Pend(s)[q]].Read? ==> s.reqs[Pend(s)[q]].buffer != 0
  }

  /** The next slot is free iff its read slot is null and no write or synchronous read holds it. */
  lemma FreeIff(s: State, n: nat)
    requires Shape(s, n) && Ordered(s) && Nulls(s, n) && Buffers(s)
    requires PostedOwn(s, n) && InflightOwn(s, n) && SubmittedOwn(s, n)
    ensures Free(s, n, |s.reqs|) <==> s.readQueue[Ix(n, |s.reqs|)] == 0 && !HeldByOther(s, n, |s.reqs|)
  {
    hide Ix, PostedOwn, InflightOwn, SubmittedOwn, Pend;
    if s.readQueue[Ix(n, |s.reqs|)] == 0 && !HeldByOther(s, n, |s.reqs|) {
      forall i: nat | i < |Pend(s)| && Holds(s, i) ensures Ix(n, Pend(s)[i]) != Ix(n, |s.reqs|) {
        PendReads(s, n, i);
      }
    }
  }

  /** Submitting keeps the slots distinct only into a free slot. */
  lemma ApartIffFree(s: State, n: nat, req: Req)
    requires Shape(s, n) && Ordered(s) && PendBelow(s) && SlotsApart(s, n)
    ensures SlotsApart(DoSubmit(s, n, req), n) <==> Free(s, n, |s.reqs|)
  {
    SubmitPend(s, n, req);
    hide Ix, NextIndex, Pend, Holds;
    var s' := DoSubmit(s, n, req);
    if Free(s, n, |s.reqs|) {
      SubmitApart(s, n, req);
    } else {
      var i: nat :| i < |Pend(s)| && Holds(s, i) && Ix(n, Pend(s)[i]) == Ix(n, |s.reqs|);
      assert Pend(s')[i] == Pend(s)[i] && Pend(s')[|Pend(s)|] == |s.reqs|;
    }
  }

  /**
   Whatever is in flight, a submission takes a slot of its own exactly when the read slot it
   will use is null and no unexecuted write or unfinished synchronous read holds that slot.
   */
  lemma SubmitSafeIff(s: State, n: nat, disk0: map<nat, Data>, req: Req)
    requires Own(s, n, disk0) && Nulls(s, n) && Buffers(s)
    ensures SlotsApart(DoSubmit(s, n, req), n) <==> s.readQueue[s.cmdCounter % n] == 0 && !HeldByOther(s, n, |s.reqs|)
  {
    SlotIs(n, s.cmdCounter);
    FreeIff(s, n);
    OwnBelow(s, n);
    ApartIffFree(s, n, req);
  }

  /** So a read slot that is not null always means a shared slot, whatever is in flight. */
  lemma NotNullShares(s: State, n: nat, disk0: map<nat, Data>, req: Req)
    requires Own(s, n, disk0) && Nulls(s, n) && s.readQueue[s.cmdCounter % n] != 0
    ensures !SlotsApart(DoSubmit(s, n, req), n)
  {
    SlotIs(n, s.cmdCounter);
    OwnBelow(s, n);
    ApartIffFree(s, n, req);
    hide Pend, PostedOwn, InflightOwn, SubmittedOwn, Linear;
    var q: nat :| q < |Pend(s)| && Holder(s, n, Ix(n, |s.reqs|), Pend(s)[q]);
  }

  /**
   While only asynchronous reads are in flight, the null test alone is exact: a test the
   driver could make, and does not.
   */
  lemma SubmitSafeIffNull(s: State, n: nat, disk0: map<nat, Data>, req: Req)
    requires Own(s, n, disk0) && Nulls(s, n) && Buffers(s)
    requires forall q: nat :: q < |Pend(s)| && Pend(s)[q] < |s.reqs| ==> s.reqs[Pend(s)[q]].Read?
    ensures SlotsApart(DoSubmit(s, n, req), n) <==> s.readQueue[s.cmdCounter % n] == 0
  {
    SubmitSafeIff(s, n, disk0, req);
  }

  /** An unfinished asynchronous read has its buffer in its slot. */
  lemma PendReads(s: State, n: nat, i: nat)
    requires Shape(s, n) && Ordered(s) && i < |Pend(s)|
    requires PostedOwn(s, n) && InflightOwn(s, n) && SubmittedOwn(s, n)
    ensures Pend(s)[i] < |s.reqs|
    ensures s.reqs[Pend(s)[i]].Read? ==> s.readQueue[Ix(n, Pend(s)[i])] == s.reqs[Pend(s)[i]].buffer
  {
    hide Ix;
    var a := |s.posted| - |s.acks|;
    if i < a {
      assert Owned(s, n, s.posted[|s.acks| + i], s.results[|s.acks| + i]);
    } else if i < a + |s.inflight| {
      assert Waiting(s, n, s.inflight[i - a].index);
    } else {
      assert Waiting(s, n, |s.acks| + i);
    }
  }

  lemma SubmitNulls(s: State, n: nat, req: Req)
    requires Shape(s, n) && Ordered(s) && Nulls(s, n) && s.cmdCounter == |s.reqs|
    ensures Nulls(DoSubmit(s, n, req), n)
  {
    SlotIs(n, s.cmdCounter);
    hide Ix, NextIndex;
    var s' := DoSubmit(s, n, req);
    assert Pend(s') == Pend(s) + [|s.reqs|];
    forall i: nat | i < n && s'.readQueue[i] != 0
      ensures exists q: nat :: q < |Pend(s')| && Holder(s', n, i, Pend(s')[q])
    {
      if req.Read? && i == Ix(n, |s.reqs|) {
        assert Holder(s', n, i, Pend(s')[|Pend(s)|]);
      } else {
        var q: nat :| q < |Pend(s)| && Holder(s, n, i, Pend(s)[q]);
        assert Holder(s', n, i, Pend(s')[q]);
      }
    }
  }

  lemma HandleNulls(s: State, n: nat)
    requires Shape(s, n) && Ordered(s) && SlotsApart(s, n) && Nulls(s, n) && |s.acks| < |s.posted|
    requires EntryFor(s, n, |s.acks|) && s.cqHead == Ix(n, |s.acks|)
    ensures Nulls(DoHandle(s, n), n)
  {
    HandlePend(s, n);
    hide Ix, NextIndex, Pend;
    var s' := DoHandle(s, n);
    forall i: nat | i < n && s'.readQueue[i] != 0
      ensures exists q: nat :: q < |Pend(s')| && Holder(s', n, i, Pend(s')[q])
    {
      var q: nat :| q < |Pend(s)| && Holder(s, n, i, Pend(s)[q]);
      assert q != 0;
      assert Pend(s')[q - 1] == Pend(s)[q];
      assert Holder(s', n, i, Pend(s')[q - 1]);
    }
  }

  lemma CompleteNulls(s: State, n: nat, j: nat)
    requires Shape(s, n) && Ordered(s) && Nulls(s, n) && j < |s.inflight|
    ensures Ordered(DoComplete(s, n, j)) && Nulls(DoComplete(s, n, j), n)
  {
    hide Ix, NextIndex;
    var s' := DoComplete(s, n, j);
    var a := |s.posted| - |s.acks|;
    forall i: nat | i < n && s'.readQueue[i] != 0
      ensures exists q: nat :: q < |Pend(s')| && Holder(s', n, i, Pend(s')[q])
    {
      var q: nat :| q < |Pend(s)| && Holder(s, n, i, Pend(s)[q]);
      var now: nat := if q == a + j then a else if a <= q < a + j then q + 1 else q;
      CompleteAt(s, n, j, now);
      assert Holder(s', n, i, Pend(s')[now]);
    }
  }

  lemma StepNulls(s: State, n: nat, step: Step, disk0: map<nat, Data>)
    requires Own(s, n, disk0) && Nulls(s, n) && Enabled(s, n, step)
    ensures Inv(Apply(s, n, step), n) && Nulls(Apply(s, n, step), n)
  {
    StepInv(s, n, step);
    RingCounts(n, |s.acks|, s.seen);
    assert |s.acks| < |s.posted| ==> EntryFor(s, n, |s.acks|);
    hide Ix, NextIndex, QueueFull, QueueEmpty, Phases, PostedPhase, CqTailPhase, CqEntries, SqEntries, Jobs, Acked;
    hide Linear, SlotsApart, PostedOwn, InflightOwn, SubmittedOwn, Nulls, Pend;
    match step
    case Submit(req) => SubmitNulls(s, n, req);
    case Handle => HandleNulls(s, n);
    case Complete(j) => CompleteNulls(s, n, j);
    case Fetch => FetchPend(s, n); SameNulls(s, DoFetch(s, n), n);
    case StartIrq => SamePend(s, Apply(s, n, step)); SameNulls(s, Apply(s, n, step), n);
    case Poll => SamePend(s, Apply(s, n, step)); SameNulls(s, Apply(s, n, step), n);
    case Finish => SamePend(s, Apply(s, n, step)); SameNulls(s, Apply(s, n, step), n);
  }

  lemma SamePend(s: State, s': State)
    requires Ordered(s) && s'.posted == s.posted && s'.acks == s.acks && s'.inflight == s.inflight && s'.reqs == s.reqs
    ensures Pend(s') == Pend(s)
  {}

  lemma SameNulls(s: State, s': State, n: nat)
    requires Shape(s, n) && Shape(s', n) && Ordered(s) && Ordered(s') && Nulls(s, n)
    requires Pend(s') == Pend(s) && s'.reqs == s.reqs && s'.readQueue == s.readQueue
    ensures Nulls(s', n)
  {
    hide Ix, Pend;
    forall i: nat | i < n && s'.readQueue[i] != 0
      ensures exists q: nat :: q < |Pend(s')| && Holder(s', n, i, Pend(s')[q])
    {
      var q: nat :| q < |Pend(s)| && Holder(s, n, i, Pend(s)[q]);
      assert Holder(s', n, i, Pend(s')[q]);
    }
  }

  /** So the null test is exact after every run that respected it so far. */
  lemma {:induction false} RunNulls(s: State, n: nat, steps: seq<Step>, t: State, disk0: map<nat, Data>)
    requires Own(s, n, disk0) && Nulls(s, n) && Run(FreeSlots, s, n, steps, t)
    ensures Own(t, n, disk0) && Nulls(t, n)
    decreases |steps|
  {
    hide Own, Apply, Enabled, Allowed, Nulls;
    if steps != [] {
      OwnInv(s, n, disk0);
      StepNulls(s, n, steps[0], disk0);
      StepOwn(s, n, steps[0], disk0);
      RunNulls(Apply(s, n, steps[0]), n, steps[1..], t, disk0);
    }
  }
}
