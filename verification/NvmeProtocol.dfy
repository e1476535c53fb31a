/**
 Driver and controller sharing one I/O queue pair, as interleaved atomic steps.

 The driver never reads the submission head that the controller reports: it learns
 everything from phase bits and counts. Steps of the driver are the bodies between two
 accesses that the other side can observe; the controller may act between any two of them.
 */
module NvmeProtocol {
  import opened Common
  import opened Division
  import opened NvmeQueue

  type Data = nat

  /** One transfer of at most a page; Read is the asynchronous one, with its target buffer. */
  datatype Req = Read(lba: nat, buffer: nat) | SyncRead(lba: nat) | Write(lba: nat, data: Data)

  /** A submission entry: the slot part of its command id, its PRP page, what it asks for. */
  datatype Cmd = Cmd(slot: nat, page: nat, req: Req)

  /** A completion entry: phase bit, and the two halves of the command id. */
  datatype Entry = Entry(phase: nat, slot: nat, async: bool)

  /** A command the controller fetched: its position in submission order, for the record. */
  datatype Job = Job(index: nat, cmd: Cmd)

  datatype Mode = Idle | Updating | Handling

  datatype State = State(
    // driver
    sqHead: nat, sqTail: nat, cqHead: nat, cqTail: nat, counter: nat, cmdCounter: nat,
    readQueue: seq<nat>, mode: Mode, delivered: seq<(nat, Data)>,
    // shared memory and doorbells
    sq: seq<Cmd>, cq: seq<Entry>, pages: seq<Data>, sqDoorbell: nat, cqDoorbell: nat,
    // controller
    devSqHead: nat, devCqTail: nat, devPhase: nat, inflight: seq<Job>, disk: map<nat, Data>,
    // history
    reqs: seq<Req>, posted: seq<nat>, results: seq<Data>, acks: seq<nat>, seen: nat, rung: nat)

  datatype Step = Submit(req: Req) | StartIrq | Poll | Handle | Finish | Fetch | Complete(j: nat)

  function DiskAt(disk: map<nat, Data>, lba: nat): Data {
    if lba in disk then disk[lba] else 0
  }

  function Init(n: nat, disk: map<nat, Data>): State {
    State(0, 0, 0, 0, 0, 0, seq(n, _ => 0), Idle, [],
          seq(n, _ => Cmd(0, 0, Read(0, 0))), seq(n, _ => Entry(0, 0, false)), seq(n, _ => 0), 0, 0,
          0, 0, 1, [], disk,
          [], [], [], [], 0, 0)
  }

  ghost predicate Shape(s: State, n: nat) {
    n > 1 && |s.readQueue| == n && |s.sq| == n && |s.cq| == n && |s.pages| == n
    && s.sqHead < n && s.sqTail < n && s.cqHead < n && s.cqTail < n && s.devSqHead < n && s.devCqTail < n
  }

  ghost predicate Enabled(s: State, n: nat, step: Step)
    requires n > 0
  {
    match step
    case Submit(_) => s.mode == Idle && !QueueFull(n, s.sqHead, s.sqTail)
    case StartIrq => s.mode == Idle
    case Poll => s.mode == Updating
    case Handle => s.mode == Handling && !QueueEmpty(s.cqHead, s.cqTail)
    case Finish => s.mode == Handling && QueueEmpty(s.cqHead, s.cqTail)
    case Fetch => s.devSqHead != s.sqDoorbell
    case Complete(j) => j < |s.inflight| && NextIndex(n, s.devCqTail) != s.cqDoorbell
  }

  /** make_cmdid, the PRP and read_queue slots, and async_command. */
  ghost function DoSubmit(s: State, n: nat, req: Req): State
    requires Shape(s, n)
  {
    var slot := s.cmdCounter % n;
    var page := if req.Read? then slot else s.sqTail;
    var tail := NextIndex(n, s.sqTail);
    s.(cmdCounter := s.cmdCounter + 1,
       readQueue := if req.Read? then s.readQueue[slot := req.buffer] else s.readQueue,
       pages := if req.Write? then s.pages[page := req.data] else s.pages,
       sq := s.sq[s.sqTail := Cmd(slot, page, req)],
       sqTail := tail, sqDoorbell := tail, reqs := s.reqs + [req])
  }

  /** One iteration of update_queues. */
  ghost function DoPoll(s: State, n: nat): State
    requires Shape(s, n)
  {
    if s.cq[s.cqTail].phase == CqTailPhase(n, s.counter) then s.(mode := Handling)
    else s.(cqTail := NextIndex(n, s.cqTail), sqHead := NextIndex(n, s.sqHead),
            counter := NextIndex(WORD32, s.counter), seen := s.seen + 1)
  }

  /** One iteration of handle_queue's loop. */
  ghost function DoHandle(s: State, n: nat): State
    requires Shape(s, n)
  {
    var e := s.cq[s.cqHead];
    var s' := s.(cqHead := NextIndex(n, s.cqHead), acks := s.acks + [e.slot]);
    if e.async && e.slot < n then
      s'.(delivered := s.delivered + [(s.readQueue[e.slot], s.pages[e.slot])], readQueue := s.readQueue[e.slot := 0])
    else s'
  }

  ghost function DoFetch(s: State, n: nat): State
    requires Shape(s, n)
  {
    s.(inflight := s.inflight + [Job(|s.posted| + |s.inflight|, s.sq[s.devSqHead])],
       devSqHead := NextIndex(n, s.devSqHead))
  }

  /** The controller executes one fetched command and posts its completion. */
  ghost function DoComplete(s: State, n: nat, j: nat): State
    requires Shape(s, n) && j < |s.inflight|
  {
    var job := s.inflight[j];
    var cmd := job.cmd;
    var tail := NextIndex(n, s.devCqTail);
    var page := if cmd.page < n then s.pages[cmd.page] else 0;
    var value := if cmd.req.Write? then page else DiskAt(s.disk, cmd.req.lba);
    s.(pages := if !cmd.req.Write? && cmd.page < n then s.pages[cmd.page := value] else s.pages,
       disk := if cmd.req.Write? then s.disk[cmd.req.lba := value] else s.disk,
       cq := s.cq[s.devCqTail := Entry(s.devPhase, cmd.slot, cmd.req.Read?)],
       devCqTail := tail, devPhase := if tail == 0 then 1 - (s.devPhase % 2) else s.devPhase,
       inflight := s.inflight[..j] + s.inflight[j + 1..],
       posted := s.posted + [job.index], results := s.results + [value])
  }

  ghost function Apply(s: State, n: nat, step: Step): State
    requires Shape(s, n) && Enabled(s, n, step)
  {
    match step
    case Submit(req) => DoSubmit(s, n, req)
    case StartIrq => s.(mode := Updating)
    case Poll => DoPoll(s, n)
    case Handle => DoHandle(s, n)
    case Finish => s.(cqDoorbell := s.cqHead, mode := Idle, rung := |s.acks|)
    case Fetch => DoFetch(s, n)
    case Complete(j) => DoComplete(s, n, j)
  }

  // ---- the invariant of every interleaving ------------------------------------------------

  ghost function CmdFor(n: nat, reqs: seq<Req>, m: nat): Cmd
    requires m < |reqs| && n > 0
  {
    Cmd(Ix(n, m), Ix(n, m), reqs[m])
  }

  ghost function Fetched(s: State): nat { |s.posted| + |s.inflight| }

  /** The five counts of the protocol and their order. */
  ghost predicate Counts(s: State, n: nat) {
    && s.rung <= |s.acks| <= s.seen <= |s.posted| == |s.results| && Fetched(s) <= |s.reqs|
    && |s.reqs| < |s.acks| + n && |s.posted| < s.rung + n
    && (s.mode == Idle ==> s.rung == |s.acks| == s.seen)
    && (s.mode == Updating ==> s.rung == |s.acks|)
  }

  /** Every ring index is its count modulo the queue size. */
  ghost predicate Rings(s: State, n: nat)
    requires n > 0
  {
    && s.sqTail == Ix(n, |s.reqs|) && s.sqDoorbell == Ix(n, |s.reqs|) && s.cmdCounter == |s.reqs|
    && s.sqHead == Ix(n, s.seen) && s.cqTail == Ix(n, s.seen) && s.counter == Ix(WORD32, s.seen)
    && s.cqHead == Ix(n, |s.acks|) && s.cqDoorbell == Ix(n, s.rung)
    && s.devSqHead == Ix(n, Fetched(s)) && s.devCqTail == Ix(n, |s.posted|) && s.devPhase == PostedPhase(n, |s.posted|)
  }

  ghost function PhaseBits(cq: seq<Entry>): (p: seq<nat>)
    ensures |p| == |cq| && forall i :: 0 <= i < |cq| ==> p[i] == cq[i].phase
  {
    seq(|cq|, i requires 0 <= i < |cq| => cq[i].phase)
  }

  /** Completion entry of the k-th posted completion. */
  ghost predicate EntryFor(s: State, n: nat, k: nat)
    requires Shape(s, n) && k < |s.posted|
  {
    && s.posted[k] < |s.reqs|
    && s.cq[Ix(n, k)].slot == Ix(n, s.posted[k]) && s.cq[Ix(n, k)].async == s.reqs[s.posted[k]].Read?
  }

  /** Every completion not yet processed is still in its slot. */
  ghost predicate CqEntries(s: State, n: nat)
    requires Shape(s, n)
  {
    forall k: nat :: |s.acks| <= k < |s.posted| ==> EntryFor(s, n, k)
  }

  /** Every command not yet fetched is still in its slot. */
  ghost predicate SqEntries(s: State, n: nat)
    requires Shape(s, n)
  {
    forall m: nat :: Fetched(s) <= m < |s.reqs| ==> s.sq[Ix(n, m)] == CmdFor(n, s.reqs, m)
  }

  ghost predicate Jobs(s: State, n: nat)
    requires n > 0
  {
    forall j :: 0 <= j < |s.inflight| ==>
      s.inflight[j].index < |s.reqs| && s.inflight[j].cmd == CmdFor(n, s.reqs, s.inflight[j].index)
  }

  /** The driver processed the posted completions in order, each once. */
  ghost predicate Acked(s: State, n: nat)
    requires n > 0
  {
    |s.acks| <= |s.posted| &&
    forall k: nat :: k < |s.acks| ==> s.acks[k] == Ix(n, s.posted[k])
  }

  ghost predicate SizeOk(n: nat) { 2 <= n <= 0xffff && WORD32 % (2 * n) == 0 }

  ghost predicate Inv(s: State, n: nat) {
    && SizeOk(n) && Shape(s, n) && Counts(s, n) && Rings(s, n)
    && Phases(n, PhaseBits(s.cq), |s.posted|)
    && CqEntries(s, n) && SqEntries(s, n) && Jobs(s, n) && Acked(s, n)
  }

  lemma InitInv(n: nat, disk: map<nat, Data>)
    requires SizeOk(n)
    ensures Inv(Init(n, disk), n)
  {}

  /** What only depends on the completion side survives new requests. */
  lemma CompletionsKept(s: State, s': State, n: nat)
    requires Shape(s, n) && Shape(s', n) && Counts(s, n) && CqEntries(s, n) && Jobs(s, n) && Acked(s, n)
    requires s'.cq == s.cq && s'.posted == s.posted && s'.acks == s.acks && s'.inflight == s.inflight
    requires s.reqs <= s'.reqs
    ensures CqEntries(s', n) && Jobs(s', n) && Acked(s', n)
  {
    hide Ix;
    forall k: nat | |s'.acks| <= k < |s'.posted| ensures EntryFor(s', n, k) {
      assert EntryFor(s, n, k);
    }
  }

  /** A submitted command lands in a slot no unfetched command uses. */
  lemma SubmitEntries(s: State, n: nat, req: Req)
    requires Shape(s, n) && Counts(s, n) && Rings(s, n) && SqEntries(s, n) && |s.reqs| + 1 < |s.acks| + n
    ensures SqEntries(DoSubmit(s, n, req), n)
  {
    var s' := DoSubmit(s, n, req);
    SlotIs(n, s.cmdCounter);
    hide Ix, NextIndex, PostedPhase;
    forall m: nat | Fetched(s') <= m < |s'.reqs| ensures s'.sq[Ix(n, m)] == CmdFor(n, s'.reqs, m) {
      if m < |s.reqs| && Ix(n, m) == Ix(n, |s.reqs|) {
        IndexInjective(n, m, |s.reqs|);
      }
    }
  }

  lemma SubmitInv(s: State, n: nat, req: Req)
    requires Inv(s, n) && Enabled(s, n, Submit(req))
    ensures Inv(DoSubmit(s, n, req), n)
  {
    hide Ix, NextIndex, QueueFull, Phases, PostedPhase, CqEntries, SqEntries, Jobs, Acked;
    var s' := DoSubmit(s, n, req);
    RingCounts(n, s.seen, |s.reqs|);
    NextIndexCount(n, |s.reqs|);
    SubmitEntries(s, n, req);
    CompletionsKept(s, s', n);
  }

  lemma SlotIs(n: nat, k: nat)
    requires n > 0
    ensures k % n == Ix(n, k)
  {}

  lemma PollInv(s: State, n: nat)
    requires Inv(s, n) && s.mode == Updating
    ensures Inv(DoPoll(s, n), n)
    ensures DoPoll(s, n).mode == Updating <==> s.seen < |s.posted|
    ensures s.seen < |s.posted| ==> !QueueFull(n, s.cqHead, s.cqTail) && !QueueEmpty(s.sqHead, s.sqTail)
  {
    hide Ix, NextIndex, QueueFull, QueueEmpty, Phases, PostedPhase, CqTailPhase;
    Prediction(n, s.seen);
    PhaseDetects(n, PhaseBits(s.cq), |s.posted|, s.seen);
    RingCounts(n, |s.acks|, s.seen);
    RingCounts(n, s.seen, |s.reqs|);
    NextIndexCount(n, s.seen);
    NextIndexCount(WORD32, s.seen);
    var s' := DoPoll(s, n);
    forall k: nat | |s'.acks| <= k < |s'.posted| ensures EntryFor(s', n, k) {
      assert EntryFor(s, n, k);
    }
  }

  lemma HandleInv(s: State, n: nat)
    requires Inv(s, n) && Enabled(s, n, Handle)
    ensures Inv(DoHandle(s, n), n)
  {
    hide Ix, NextIndex, QueueEmpty, Phases, PostedPhase;
    var k := |s.acks|;
    RingCounts(n, k, s.seen);
    NextIndexCount(n, k);
    assert EntryFor(s, n, k);
    var s' := DoHandle(s, n);
    forall i: nat | |s'.acks| <= i < |s'.posted| ensures EntryFor(s', n, i) {
      assert EntryFor(s, n, i);
    }
  }

  lemma FinishInv(s: State, n: nat)
    requires Inv(s, n) && Enabled(s, n, Finish)
    ensures Inv(Apply(s, n, Finish), n)
  {
    hide Ix, NextIndex, QueueEmpty, Phases, PostedPhase;
    RingCounts(n, |s.acks|, s.seen);
    var s' := Apply(s, n, Finish);
    forall i: nat | |s'.acks| <= i < |s'.posted| ensures EntryFor(s', n, i) {
      assert EntryFor(s, n, i);
    }
  }

  lemma FetchInv(s: State, n: nat)
    requires Inv(s, n) && Enabled(s, n, Fetch)
    ensures Inv(DoFetch(s, n), n)
  {
    hide Ix, NextIndex, Phases, PostedPhase;
    var f := Fetched(s);
    NextIndexCount(n, f);
    assert f < |s.reqs|;
    assert s.sq[Ix(n, f)] == CmdFor(n, s.reqs, f);
    var s' := DoFetch(s, n);
    forall i: nat | |s'.acks| <= i < |s'.posted| ensures EntryFor(s', n, i) {
      assert EntryFor(s, n, i);
    }
  }

  lemma CompleteInv(s: State, n: nat, j: nat)
    requires Inv(s, n) && Enabled(s, n, Complete(j))
    ensures Inv(DoComplete(s, n, j), n)
  {
    hide Ix, NextIndex, Phases, PostedPhase;
    var p := |s.posted|;
    var s' := DoComplete(s, n, j);
    NextIndexCount(n, p);
    assert p + 1 < s.rung + n by {
      if p + 1 == s.rung + n {
        SameSlot(n, s.rung);
      }
    }
    PhasesPost(n, PhaseBits(s.cq), p);
    assert PhaseBits(s'.cq) == PhaseBits(s.cq)[Ix(n, p) := s.devPhase];
    PhaseTurn(n, p);
    forall i: nat | |s'.acks| <= i < |s'.posted| ensures EntryFor(s', n, i) {
      if i < p {
        assert EntryFor(s, n, i);
        if Ix(n, i) == Ix(n, p) {
          IndexInjective(n, i, p);
        }
      }
    }
  }

  lemma SameSlot(n: nat, m: nat)
    requires n > 0
    ensures Ix(n, m + n) == Ix(n, m)
  {
    PhaseFlips(n, m);
  }

  /** Posting the p-th completion with its phase keeps the phase picture. */
  lemma PhasesPost(n: nat, mem: seq<nat>, p: nat)
    requires n > 0 && Phases(n, mem, p)
    ensures Phases(n, mem[Ix(n, p) := PostedPhase(n, p)], p + 1)
  {
    var mem' := mem[Ix(n, p) := PostedPhase(n, p)];
    forall m: nat | m < p + 1 < m + n + 1 ensures mem'[Ix(n, m)] == PostedPhase(n, m) {
      if m < p && Ix(n, m) == Ix(n, p) {
        IndexInjective(n, m, p);
      }
    }
    forall i: nat | p + 1 <= i < n ensures mem'[i] == 0 {
      Unique(p, n, 0, p);
    }
  }

  /** The controller's phase flips exactly when its tail wraps to 0. */
  lemma PhaseTurn(n: nat, p: nat)
    requires n > 0
    ensures PostedPhase(n, p + 1) == if Ix(n, p + 1) == 0 then 1 - (PostedPhase(n, p) % 2) else PostedPhase(n, p)
  {
    var q, r := p / n, p % n;
    if r + 1 < n {
      Unique(p + 1, n, q, r + 1);
    } else {
      assert p + 1 == n * (q + 1) + 0;
      Unique(p + 1, n, q + 1, 0);
    }
  }

  /** Every step of either side keeps the invariant. */
  lemma StepInv(s: State, n: nat, step: Step)
    requires Inv(s, n) && Enabled(s, n, step)
    ensures Inv(Apply(s, n, step), n)
  {
    match step
    case Submit(req) => SubmitInv(s, n, req);
    case StartIrq =>
      var s' := s.(mode := Updating);
      assert forall k: nat :: k < |s.posted| ==> (EntryFor(s, n, k) <==> EntryFor(s', n, k));
    case Poll => PollInv(s, n);
    case Handle => HandleInv(s, n);
    case Finish => FinishInv(s, n);
    case Fetch => FetchInv(s, n);
    case Complete(j) => CompleteInv(s, n, j);
  }
}
