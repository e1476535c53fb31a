/**
 When a submission is harmless, from any state in which commands own the slots they hold:
 exactly when no command holds the slot that it takes. Otherwise, once it is submitted, the
 controller alone decides whether wrong bytes reach a buffer, the disk or a caller.
 */
module NvmeTakeover {
  import opened NvmeQueue
  import opened NvmeProtocol
  import opened NvmeDelivery
  import opened NvmeReorder

  /** Fetching changes the controller's list of fetched commands only. */
  ghost predicate OnlyFetched(s: State, t: State) {
    && t.mode == s.mode && t.posted == s.posted && t.results == s.results && t.reqs == s.reqs && t.acks == s.acks
    && t.disk == s.disk && t.pages == s.pages && t.readQueue == s.readQueue && t.delivered == s.delivered
    && t.rung == s.rung && t.seen == s.seen
  }

  /** The controller fetches submissions up to command c. */
  lemma {:induction false} FetchTo(s: State, n: nat, c: nat) returns (steps: seq<Step>, t: State)
    requires Inv(s, n) && Fetched(s) <= c < |s.reqs|
    ensures Run(FreeSlots, s, n, steps, t) && Inv(t, n) && OnlyFetched(s, t)
    ensures t.inflight != [] && t.inflight[|t.inflight| - 1].index == c
    ensures forall x :: Unposted(s, x) ==> Unposted(t, x)
    decreases c - Fetched(s)
  {
    InvRings(s, n);
    FetchEnabled(s, n);
    RunOne(s, n, [], s, Fetch);
    hide Run, Inv, Ix, NextIndex;
    steps, t := [] + [Fetch], Apply(s, n, Fetch);
    FetchUnposted(s, n);
    if Fetched(s) < c {
      var ys, u := FetchTo(t, n, c);
      RunJoin(s, n, steps, t, ys, u);
      steps, t := steps + ys, u;
    }
  }

  /** Command c is fetched by the controller or waits to be. */
  ghost predicate Unposted(s: State, c: nat) {
    Fetched(s) <= c < |s.reqs| || exists j :: 0 <= j < |s.inflight| && s.inflight[j].index == c
  }

  lemma FetchUnposted(s: State, n: nat)
    requires Shape(s, n)
    ensures forall x :: Unposted(s, x) ==> Unposted(DoFetch(s, n), x)
  {
    hide NextIndex;
    var t := DoFetch(s, n);
    forall x | Unposted(s, x) ensures Unposted(t, x) {
      if x == Fetched(s) {
        assert t.inflight[|s.inflight|].index == x;
      } else if j :| 0 <= j < |s.inflight| && s.inflight[j].index == x {
        assert t.inflight[j].index == x;
      }
    }
  }

  lemma CompleteUnposted(s: State, n: nat, j: nat)
    requires Shape(s, n) && j < |s.inflight|
    ensures forall x :: x != s.inflight[j].index && Unposted(s, x) ==> Unposted(DoComplete(s, n, j), x)
  {
    hide NextIndex;
    var t := DoComplete(s, n, j);
    forall x | x != s.inflight[j].index && Unposted(s, x) ensures Unposted(t, x) {
      if i :| 0 <= i < |s.inflight| && s.inflight[i].index == x {
        assert t.inflight[if i < j then i else i - 1].index == x;
      }
    }
  }

  /** The controller completes command c next. */
  lemma CompleteNext(s: State, n: nat, c: nat) returns (steps: seq<Step>, t: State)
    requires Inv(s, n) && s.mode == Idle && Unposted(s, c)
    ensures Run(FreeSlots, s, n, steps, t) && Inv(t, n) && t.mode == Idle && c < |s.reqs|
    ensures t.posted == s.posted + [c] && t.acks == s.acks && t.reqs == s.reqs && t.readQueue == s.readQueue
    ensures
      var value := if s.reqs[c].Write? then s.pages[Ix(n, c)] else DiskAt(s.disk, s.reqs[c].lba);
      && t.results == s.results + [value] && t.pages == s.pages[Ix(n, c) := value]
      && t.disk == (if s.reqs[c].Write? then s.disk[s.reqs[c].lba := value] else s.disk)
    ensures t.delivered == s.delivered && forall x :: x != c && Unposted(s, x) ==> Unposted(t, x)
  {
    hide Run, Inv, Ix, NextIndex;
    var s1 := s;
    steps := [];
    if Fetched(s) <= c < |s.reqs| {
      steps, s1 := FetchTo(s, n, c);
    } else {
      EmptyRun(s, n);
    }
    var j: nat :| j < |s1.inflight| && s1.inflight[j].index == c;
    InvRings(s1, n);
    InvJobs(s1, n);
    CompleteEnabled(s1, n, j);
    CompleteUnposted(s1, n, j);
    RunOne(s, n, steps, s1, Complete(j));
    steps, t := steps + [Complete(j)], Apply(s1, n, Complete(j));
  }

  lemma EmptyRun(s: State, n: nat)
    requires Inv(s, n)
    ensures Run(FreeSlots, s, n, [], s)
  {}

  /** No completion before the k-th clears this read slot. */
  ghost predicate QuietBefore(s: State, n: nat, k: nat, slot: nat)
    requires n > 0 && k <= |s.posted|
  {
    forall i :: |s.acks| <= i < k ==>
      s.posted[i] < |s.reqs| && (Ix(n, s.posted[i]) != slot || !s.reqs[s.posted[i]].Read?)
  }

  /** Handling such completions leaves this slot's buffer and page alone. */
  lemma {:induction false} HandleTo(s: State, n: nat, k: nat, slot: nat) returns (steps: seq<Step>, t: State)
    requires Inv(s, n) && s.mode == Handling && |s.acks| <= k <= s.seen && slot < n
    requires k <= |s.posted| && QuietBefore(s, n, k, slot)
    ensures Run(FreeSlots, s, n, steps, t) && Inv(t, n) && t.mode == Handling && |t.acks| == k && t.seen == s.seen
    ensures t.posted == s.posted && t.results == s.results && t.reqs == s.reqs && t.pages == s.pages
    ensures t.readQueue[slot] == s.readQueue[slot]
    decreases k - |s.acks|
  {
    hide Run, Inv, Ix, NextIndex, QueueEmpty;
    InvRings(s, n);
    if |s.acks| == k {
      EmptyRun(s, n);
      steps, t := [], s;
    } else {
      RingCounts(n, |s.acks|, s.seen);
      InvEntry(s, n);
      EmptyRun(s, n);
      RunOne(s, n, [], s, Handle);
      steps, t := [] + [Handle], Apply(s, n, Handle);
      var ys, u := HandleTo(t, n, k, slot);
      RunJoin(s, n, steps, t, ys, u);
      steps, t := steps + ys, u;
    }
  }

  /** The interrupt that processes completion k, of an asynchronous read. */
  lemma ServeAt(s: State, n: nat, k: nat) returns (steps: seq<Step>, t: State)
    requires Inv(s, n) && s.mode == Idle && |s.acks| <= k < |s.posted|
    requires s.posted[k] < |s.reqs| && s.reqs[s.posted[k]].Read?
    requires QuietBefore(s, n, k, Ix(n, s.posted[k]))
    ensures Run(FreeSlots, s, n, steps, t) && |t.acks| == k + 1
    ensures t.posted == s.posted && t.results == s.results && t.reqs == s.reqs && t.delivered != []
    ensures
      var slot := Ix(n, s.posted[k]);
      t.delivered[|t.delivered| - 1] == (s.readQueue[slot], s.pages[slot])
  {
    hide Run, Inv, Ix, NextIndex, QueueEmpty;
    InvRings(s, n);
    var slot := Ix(n, s.posted[k]);
    var xs, s1 := Update(s, n);
    var ys, s2 := HandleTo(s1, n, k, slot);
    RunJoin(s, n, xs, s1, ys, s2);
    InvRings(s2, n);
    RingCounts(n, k, s2.seen);
    InvEntry(s2, n);
    RunOne(s, n, xs + ys, s2, Handle);
    steps, t := xs + ys + [Handle], Apply(s2, n, Handle);
  }

  /** A completed read whose buffer or page is no longer its own spoils what clients see. */
  lemma Stale(s: State, n: nat, k: nat) returns (steps: seq<Step>, t: State)
    requires Inv(s, n) && s.mode == Idle && Shape(s, n) && |s.acks| <= k < |s.posted| == |s.results|
    requires s.posted[k] < |s.reqs| && !s.reqs[s.posted[k]].Write?
    requires QuietBefore(s, n, k, Ix(n, s.posted[k]))
    requires !Owned(s, n, s.posted[k], s.results[k])
    ensures Run(FreeSlots, s, n, steps, t) && forall disk0 :: !Right(t, n, disk0)
  {
    hide Run, Inv, Ix, Linear;
    if s.reqs[s.posted[k]].Read? {
      steps, t := ServeAt(s, n, k);
      forall disk0 | Linear(t, disk0) ensures false {
        LinearLast(t, disk0, k);
      }
    } else {
      EmptyRun(s, n);
      steps, t := [], s;
    }
  }

  /** Sequential execution delivers a read's value to its own buffer. */
  lemma LinearLast(t: State, disk0: map<nat, Data>, k: nat)
    requires Linear(t, disk0) && |t.acks| == k + 1 && |t.results| == |t.posted| && t.reqs[t.posted[k]].Read?
    ensures t.delivered != []
    ensures t.delivered[|t.delivered| - 1] == (t.reqs[t.posted[k]].buffer, t.results[k])
  {
    hide Execute;
    DeliverOne(Done(t), t.results, k);
  }

  /** Sequential execution writes a write's own data. */
  lemma LinearWrite(t: State, disk0: map<nat, Data>)
    requires Linear(t, disk0) && t.posted != [] && t.reqs[t.posted[|t.posted| - 1]].Write?
    ensures |t.results| == |t.posted| && t.results[|t.results| - 1] == t.reqs[t.posted[|t.posted| - 1]].data
  {
    hide Deliveries;
  }

  // ---- taking over a slot -----------------------------------------------------------------

  /** The value of the i-th unfinished command: what it did or would read or write. */
  ghost function Carried(s: State, i: nat): Data
    requires Ordered(s) && i < |Pend(s)| && Pend(s)[i] < |s.reqs| && |s.posted| == |s.results|
  {
    if |s.acks| + i < |s.posted| then s.results[|s.acks| + i] else ValueOf(s, s.reqs[Pend(s)[i]])
  }

  /** The two commands can be told apart: by what they carry, or where it is to go. */
  ghost predicate Differ(s: State, i: nat, b: Req)
    requires Ordered(s) && i < |Pend(s)| && Pend(s)[i] < |s.reqs| && |s.posted| == |s.results|
  {
    var c := s.reqs[Pend(s)[i]];
    Carried(s, i) != ValueOf(s, b) || (c.Read? && b.Read? && c.buffer != b.buffer)
  }

  /** Request b, submitted last, shares the slot of command c. */
  ghost predicate Shared(s: State, n: nat, c: nat, b: Req) {
    && Inv(s, n) && Shape(s, n) && s.mode == Idle && |s.posted| == |s.results| && |s.acks| <= |s.posted|
    && s.reqs != [] && s.reqs[|s.reqs| - 1] == b && Unposted(s, |s.reqs| - 1)
    && c < |s.reqs| - 1 && Ix(n, c) == Ix(n, |s.reqs| - 1) < n
  }

  /** Over a completed read: the newer command's buffer or data replace what the read left. */
  lemma OverPosted(s: State, n: nat, c: nat, k: nat, b: Req) returns (steps: seq<Step>, t: State)
    requires Shared(s, n, c, b) && !s.reqs[c].Write? && |s.acks| <= k < |s.posted| && s.posted[k] == c
    requires QuietBefore(s, n, k, Ix(n, c))
    requires b.Read? ==> s.readQueue[Ix(n, c)] == b.buffer
    requires b.Write? ==> s.pages[Ix(n, c)] == b.data
    requires s.results[k] != ValueOf(s, b) || (s.reqs[c].Read? && b.Read? && s.reqs[c].buffer != b.buffer)
    ensures Run(FreeSlots, s, n, steps, t) && forall disk0 :: !Right(t, n, disk0)
  {
    hide Run, Inv, Ix, Right;
    if !Owned(s, n, c, s.results[k]) {
      steps, t := Stale(s, n, k);
    } else {
      var xs, s1 := CompleteNext(s, n, |s.reqs| - 1);
      var ys;
      InvRings(s1, n);
      ys, t := Stale(s1, n, k);
      RunJoin(s, n, xs, s1, ys, t);
      steps := xs + ys;
    }
  }

  /** The last completion is of a write that did not write its own data. */
  lemma WrongWrite(t: State, n: nat)
    requires t.posted != [] && |t.posted| == |t.results|
    requires t.posted[|t.posted| - 1] < |t.reqs| && t.reqs[t.posted[|t.posted| - 1]].Write?
    requires t.results[|t.results| - 1] != t.reqs[t.posted[|t.posted| - 1]].data
    ensures forall disk0 :: !Right(t, n, disk0)
  {
    hide Linear, Ix;
    forall disk0 ensures !Right(t, n, disk0) {
      if Linear(t, disk0) {
        LinearWrite(t, disk0);
      }
    }
  }

  /** Over a write that the controller has yet to execute. */
  lemma OverWrite(s: State, n: nat, c: nat, b: Req) returns (steps: seq<Step>, t: State)
    requires Shared(s, n, c, b) && s.reqs[c].Write? && Unposted(s, c)
    requires b.Write? ==> s.pages[Ix(n, c)] == b.data
    requires s.reqs[c].data != ValueOf(s, b)
    ensures Run(FreeSlots, s, n, steps, t) && forall disk0 :: !Right(t, n, disk0)
  {
    hide Run, Inv, Ix, Right;
    if b.Write? {
      steps, t := CompleteNext(s, n, c);
    } else {
      var xs, s1 := CompleteNext(s, n, |s.reqs| - 1);
      var ys;
      ys, t := CompleteNext(s1, n, c);
      RunJoin(s, n, xs, s1, ys, t);
      steps := xs + ys;
    }
    WrongWrite(t, n);
  }

  /** Over a read that the controller has yet to execute. */
  lemma OverRead(s: State, n: nat, c: nat, b: Req) returns (steps: seq<Step>, t: State)
    requires Shared(s, n, c, b) && !s.reqs[c].Write? && Unposted(s, c)
    requires QuietBefore(s, n, |s.posted|, Ix(n, c))
    requires b.Read? ==> s.readQueue[Ix(n, c)] == b.buffer
    requires ValueOf(s, s.reqs[c]) != ValueOf(s, b) || (s.reqs[c].Read? && b.Read? && s.reqs[c].buffer != b.buffer)
    ensures Run(FreeSlots, s, n, steps, t) && forall disk0 :: !Right(t, n, disk0)
  {
    hide Run, Inv, Ix, Right;
    var xs, s1 := CompleteNext(s, n, c);
    InvRings(s1, n);
    var ys;
    if b.Write? {
      ys, t := CompleteNext(s1, n, |s.reqs| - 1);
      WrongWrite(t, n);
    } else {
      ys, t := OverPosted(s1, n, c, |s.posted|, b);
    }
    RunJoin(s, n, xs, s1, ys, t);
    steps := xs + ys;
  }

  /** What submitting changes. */
  lemma SubmitEffect(s: State, n: nat, b: Req)
    requires Shape(s, n) && s.cmdCounter == |s.reqs| && s.sqTail == Ix(n, |s.reqs|)
    ensures
      var s1, slot := DoSubmit(s, n, b), Ix(n, |s.reqs|);
      && Shape(s1, n) && s1.mode == s.mode && s1.posted == s.posted && s1.acks == s.acks && s1.results == s.results
      && s1.inflight == s.inflight && s1.reqs == s.reqs + [b] && s1.disk == s.disk && s1.delivered == s.delivered
      && s1.readQueue == (if b.Read? then s.readQueue[slot := b.buffer] else s.readQueue)
      && s1.pages == (if b.Write? then s.pages[slot := b.data] else s.pages)
  {
    SlotIs(n, s.cmdCounter);
    hide Ix;
  }

  /** The state after submitting b into the slot of command c. */
  lemma SubmitShares(s: State, n: nat, disk0: map<nat, Data>, c: nat, b: Req)
    requires Own(s, n, disk0) && s.mode == Idle && Enabled(s, n, Submit(b))
    requires c < |s.reqs| && Ix(n, c) == Ix(n, |s.reqs|)
    ensures
      var s1 := DoSubmit(s, n, b);
      && Shared(s1, n, c, b) && s1.posted == s.posted && s1.acks == s.acks && s1.results == s.results
      && s1.reqs == s.reqs + [b] && s1.disk == s.disk && s1.pages == (if b.Write? then s.pages[Ix(n, c) := b.data] else s.pages)
      && (b.Read? ==> s1.readQueue[Ix(n, c)] == b.buffer)
      && (Unposted(s, c) ==> Unposted(s1, c))
  {
    hide Ix, Own, Inv, DoSubmit, Enabled;
    OwnInv(s, n, disk0);
    SubmitInv(s, n, b);
    InvRings(s, n);
    OwnResults(s, n, disk0);
    SubmitEffect(s, n, b);
  }

  lemma OwnResults(s: State, n: nat, disk0: map<nat, Data>)
    requires Own(s, n, disk0)
    ensures Shape(s, n) && Ordered(s) && |s.posted| == |s.results| && PendBelow(s) && SlotsApart(s, n)
    ensures forall k :: 0 <= k < |s.posted| ==> s.posted[k] < |s.reqs|
  {
    OwnBelow(s, n);
  }

  /** Where the i-th unfinished command stands. */
  lemma Stands(s: State, i: nat)
    requires Ordered(s) && i < |Pend(s)| && PendBelow(s)
    ensures |s.posted| <= |s.acks| + i ==> Unposted(s, Pend(s)[i])
    ensures |s.acks| + i < |s.posted| ==> s.posted[|s.acks| + i] == Pend(s)[i]
  {
    var a := |s.posted| - |s.acks|;
    if a <= i < a + |s.inflight| {
      assert s.inflight[i - a].index == Pend(s)[i];
    }
  }

  /** Earlier completions are of writes or of other slots. */
  lemma OthersBefore(s: State, n: nat, i: nat)
    requires n > 0 && Ordered(s) && SlotsApart(s, n) && i < |Pend(s)| && Holds(s, i)
    requires forall k :: 0 <= k < |s.posted| ==> s.posted[k] < |s.reqs|
    ensures |s.acks| + i <= |s.posted| ==> QuietBefore(s, n, |s.acks| + i, Ix(n, Pend(s)[i]))
    ensures |s.posted| <= |s.acks| + i ==> QuietBefore(s, n, |s.posted|, Ix(n, Pend(s)[i]))
  {
    hide Ix;
    forall k | |s.acks| <= k < |s.posted| && k < |s.acks| + i && !s.reqs[s.posted[k]].Write?
      ensures Ix(n, s.posted[k]) != Ix(n, Pend(s)[i])
    {
      assert Pend(s)[k - |s.acks|] == s.posted[k] && Holds(s, k - |s.acks|);
    }
  }

  /**
   Once b is submitted into a slot that a command holds, and the two can be told apart, there
   is a continuation without further submissions after which clients see something that no
   sequential execution shows.
   */
  lemma TakenOver(s: State, n: nat, disk0: map<nat, Data>, i: nat, b: Req) returns (steps: seq<Step>, t: State)
    requires Own(s, n, disk0) && s.mode == Idle && Enabled(s, n, Submit(b))
    requires i < |Pend(s)| && Holds(s, i) && Pend(s)[i] < |s.reqs| && |s.posted| == |s.results| && Differ(s, i, b)
    requires Ix(n, Pend(s)[i]) == Ix(n, |s.reqs|)
    ensures Run(FreeSlots, DoSubmit(s, n, b), n, steps, t) && forall disk1 :: !Right(t, n, disk1)
  {
    hide Own, Inv, Ix, Run, Right, Enabled;
    OwnResults(s, n, disk0);
    var s1, c := DoSubmit(s, n, b), Pend(s)[i];
    SubmitShares(s, n, disk0, c, b);
    Stands(s, i);
    OthersBefore(s, n, i);
    hide Pend, DoSubmit, SlotsApart;
    if |s.acks| + i < |s.posted| {
      steps, t := OverPosted(s1, n, c, |s.acks| + i, b);
    } else if s.reqs[c].Write? {
      steps, t := OverWrite(s1, n, c, b);
    } else {
      steps, t := OverRead(s1, n, c, b);
    }
  }

  /** Over a read, a read: the older one's sectors go into the newer one's buffer. */
  lemma ReadTakenOver(s: State, n: nat, disk0: map<nat, Data>, i: nat, b: Req) returns (steps: seq<Step>, t: State)
    requires Own(s, n, disk0) && s.mode == Idle && Enabled(s, n, Submit(b)) && b.Read?
    requires i < |Pend(s)| && Pend(s)[i] < |s.reqs| && s.reqs[Pend(s)[i]].Read? && |s.posted| == |s.results|
    requires Ix(n, Pend(s)[i]) == Ix(n, |s.reqs|)
    ensures Run(FreeSlots, DoSubmit(s, n, b), n, steps, t) && t.reqs == s.reqs + [b]
    ensures 0 < |t.acks| <= |t.posted| && t.posted[|t.acks| - 1] == Pend(s)[i]
    ensures t.delivered != [] && t.delivered[|t.delivered| - 1] == (b.buffer, Carried(s, i))
  {
    hide Own, Inv, Ix, Run, Enabled;
    OwnResults(s, n, disk0);
    var s1, c := DoSubmit(s, n, b), Pend(s)[i];
    SubmitShares(s, n, disk0, c, b);
    Stands(s, i);
    OthersBefore(s, n, i);
    if |s.acks| + i < |s.posted| {
      OwnPage(s, n, disk0, |s.acks| + i);
      hide Pend, SlotsApart;
      steps, t := ServeAt(s1, n, |s.acks| + i);
    } else {
      hide Pend, SlotsApart, DoSubmit;
      var xs, s2 := CompleteNext(s1, n, c);
      steps, t := ServeAt(s2, n, |s.posted|);
      RunJoin(s1, n, xs, s2, steps, t);
      steps := xs + steps;
    }
  }

  lemma OwnPage(s: State, n: nat, disk0: map<nat, Data>, k: nat)
    requires Own(s, n, disk0) && |s.acks| <= k < |s.posted| && !s.reqs[s.posted[k]].Write?
    ensures Shape(s, n) && k < |s.results| && s.pages[Ix(n, s.posted[k])] == s.results[k]
  {
    assert Owned(s, n, s.posted[k], s.results[k]);
  }

  /** Over an unexecuted write, a write: the newer one's data go to the older one's address. */
  lemma WriteTakenOver(s: State, n: nat, disk0: map<nat, Data>, c: nat, b: Req) returns (steps: seq<Step>, t: State)
    requires Own(s, n, disk0) && s.mode == Idle && Enabled(s, n, Submit(b)) && b.Write?
    requires Unposted(s, c) && c < |s.reqs| && s.reqs[c].Write? && Ix(n, c) == Ix(n, |s.reqs|)
    ensures Run(FreeSlots, DoSubmit(s, n, b), n, steps, t) && t.reqs == s.reqs + [b] && t.posted == s.posted + [c]
    ensures t.disk == s.disk[s.reqs[c].lba := b.data]
  {
    hide Own, Inv, Ix, Run, Enabled;
    OwnResults(s, n, disk0);
    SubmitShares(s, n, disk0, c, b);
    steps, t := CompleteNext(DoSubmit(s, n, b), n, c);
  }

  /** What follows a submission is right, however it goes on as long as slots are free. */
  ghost predicate Harmless(s: State, n: nat, disk0: map<nat, Data>, b: Req)
    requires Shape(s, n)
  {
    forall steps, t :: Run(FreeSlots, DoSubmit(s, n, b), n, steps, t) ==> Right(t, n, disk0)
  }

  /**
   The exact condition. A submission is harmless iff no command holds the slot it takes, and
   so iff its read slot is null and no unexecuted write or unfinished synchronous read has
   the slot.
   */
  lemma HarmlessIff(s: State, n: nat, disk0: map<nat, Data>, b: Req)
    requires Own(s, n, disk0) && s.mode == Idle && Enabled(s, n, Submit(b))
    requires forall i: nat :: i < |Pend(s)| && Holds(s, i) && Ix(n, Pend(s)[i]) == Ix(n, |s.reqs|) ==>
      Pend(s)[i] < |s.reqs| && |s.posted| == |s.results| && Differ(s, i, b)
    ensures Harmless(s, n, disk0, b) <==> Free(s, n, |s.reqs|)
    ensures Nulls(s, n) && Buffers(s) ==>
      (Harmless(s, n, disk0, b) <==> s.readQueue[s.cmdCounter % n] == 0 && !HeldByOther(s, n, |s.reqs|))
  {
    var s1 := DoSubmit(s, n, b);
    if Nulls(s, n) && Buffers(s) {
      SlotIs(n, s.cmdCounter);
      FreeIff(s, n);
    }
    if Free(s, n, |s.reqs|) {
      SubmitOwn(s, n, b, disk0);
      forall steps, t | Run(FreeSlots, s1, n, steps, t) ensures Right(t, n, disk0) {
        FreeSlotsDeliver(s1, n, steps, t, disk0);
        OwnRight(t, n, disk0);
      }
    } else {
      OwnResults(s, n, disk0);
      var i: nat :| i < |Pend(s)| && Holds(s, i) && Ix(n, Pend(s)[i]) == Ix(n, |s.reqs|);
      var steps, t := TakenOver(s, n, disk0, i, b);
    }
  }

  // ---- from start-up ----------------------------------------------------------------------

  lemma {:induction false} FreeIsAny(s: State, n: nat, steps: seq<Step>, t: State)
    requires Run(FreeSlots, s, n, steps, t)
    ensures Run(AnyOrder, s, n, steps, t)
    decreases |steps|
  {
    hide Apply, Enabled, Free;
    if steps != [] {
      FreeIsAny(Apply(s, n, steps[0]), n, steps[1..], t);
    }
  }

  /** A run, a submission into whatever slot is next, and a run. */
  lemma {:induction false} SubmitBetween(s: State, n: nat, xs: seq<Step>, u: State, b: Req, ys: seq<Step>, t: State)
    requires Run(FreeSlots, s, n, xs, u) && Shape(u, n) && Enabled(u, n, Submit(b)) && Run(FreeSlots, DoSubmit(u, n, b), n, ys, t)
    ensures Run(AnyOrder, s, n, xs + [Submit(b)] + ys, t)
    decreases |xs|
  {
    hide Enabled, Free, DoSubmit;
    if xs == [] {
      FreeIsAny(DoSubmit(u, n, b), n, ys, t);
      assert xs + [Submit(b)] + ys == [Submit(b)] + ys;
      assert ([Submit(b)] + ys)[1..] == ys;
    } else {
      hide Apply;
      SubmitBetween(Apply(s, n, xs[0]), n, xs[1..], u, b, ys, t);
      assert (xs + [Submit(b)] + ys)[1..] == xs[1..] + [Submit(b)] + ys;
    }
  }

  /**
   For every queue size of at least four, 64 among them, some interleaving ends by copying
   the sectors asked for by read `a` into the buffer of read `b`.
   */
  lemma ReadLost(n: nat, disk0: map<nat, Data>, a: Req, b: Req) returns (steps: seq<Step>, t: State)
    requires SizeOk(n) && 4 <= n && a.Read? && b.Read?
    ensures Run(AnyOrder, Init(n, disk0), n, steps, t)
    ensures t.delivered != [] && t.delivered[|t.delivered| - 1] == (b.buffer, DiskAt(disk0, a.lba))
    ensures |t.reqs| == n + 1 && t.reqs[0] == a && t.reqs[n] == b && 0 < |t.acks| <= |t.posted| && t.posted[|t.acks| - 1] == 0
  {
    hide Run, Inv, Own, Ix, Init, Enabled;
    var w, s := ComesRound(n, disk0, a, b);
    OwnResults(s, n, disk0);
    steps, t := ReadTakenOver(s, n, disk0, 0, b);
    SubmitBetween(Init(n, disk0), n, w, s, b, steps, t);
    steps := w + [Submit(b)] + steps;
  }

  /**
   Likewise for writes, although the read slot is null: some interleaving ends with the data
   of write `b` at the address of write `a`.
   */
  lemma WriteLost(n: nat, disk0: map<nat, Data>, a: Req, b: Req) returns (steps: seq<Step>, s: State, rest: seq<Step>, t: State)
    requires SizeOk(n) && 4 <= n && a.Write? && b.Write?
    ensures Run(FreeSlots, Init(n, disk0), n, steps, s) && Shape(s, n) && s.readQueue[s.cmdCounter % n] == 0
    ensures Run(AnyOrder, Init(n, disk0), n, steps + [Submit(b)] + rest, t)
    ensures t.disk == disk0[a.lba := b.data] && |t.reqs| == n + 1 && t.reqs[0] == a && t.reqs[n] == b
  {
    hide Run, Inv, Own, Ix, Init, Enabled;
    steps, s := ComesRound(n, disk0, a, b);
    OwnResults(s, n, disk0);
    Stands(s, 0);
    rest, t := WriteTakenOver(s, n, disk0, 0, b);
    SubmitBetween(Init(n, disk0), n, steps, s, b, rest, t);
    InvRings(s, n);
    SlotIs(n, s.cmdCounter);
  }
}
