/** Sleeping threads, kept sorted by deadline, and the timer tick that wakes them. */
module SleepQueue {
  import opened ReadyQueue
  import opened SchedState
  import Scheduler

  datatype Sleeper = Sleeper(td: Td, deadline: nat)

  ghost predicate Sorted(s: seq<Sleeper>) {
    forall i, j :: 0 <= i < j < |s| ==> s[i].deadline <= s[j].deadline
  }

  /** The first entry with a later deadline. */
  ghost predicate IsInsertPosition(s: seq<Sleeper>, deadline: nat, i: nat) {
    && i <= |s|
    && (forall k :: 0 <= k < i ==> s[k].deadline <= deadline)
    && (i < |s| ==> deadline < s[i].deadline)
  }

  function Insert(s: seq<Sleeper>, e: Sleeper, i: nat): seq<Sleeper>
    requires i <= |s|
  {
    s[..i] + [e] + s[i..]
  }

  /** How many entries at the front are due at `now`. */
  ghost predicate IsDue(s: seq<Sleeper>, now: nat, j: nat) {
    && j <= |s|
    && (forall k :: 0 <= k < j ==> s[k].deadline < now)
    && (j < |s| ==> now <= s[j].deadline)
  }

  /** Inserting keeps the order, every entry, and the order among equal deadlines. */
  lemma InsertSorted(s: seq<Sleeper>, e: Sleeper, i: nat)
    requires Sorted(s) && IsInsertPosition(s, e.deadline, i)
    ensures Sorted(Insert(s, e, i)) && multiset(Insert(s, e, i)) == multiset(s) + multiset{e}
    ensures forall k :: i <= k < |s| ==> e.deadline < s[k].deadline
  {
    assert s == s[..i] + s[i..];
  }

  /** On a sorted array the due prefix is exactly the set of entries past their deadline. */
  lemma DueExactly(s: seq<Sleeper>, now: nat, j: nat)
    requires Sorted(s) && IsDue(s, now, j)
    ensures forall k :: 0 <= k < |s| ==> (s[k].deadline < now <==> k < j)
    ensures Sorted(s[j..])
  {}

  function Remove(s: seq<Sleeper>, i: nat): seq<Sleeper>
    requires i < |s|
  {
    s[..i] + s[i + 1..]
  }

  lemma RemoveSorted(s: seq<Sleeper>, i: nat)
    requires Sorted(s) && i < |s|
    ensures Sorted(Remove(s, i)) && multiset(s) == multiset(Remove(s, i)) + multiset{s[i]}
  {
    assert s == s[..i] + [s[i]] + s[i + 1..];
  }

  /** The last entry of a thread, or -1. */
  ghost predicate IsLastOf(s: seq<Sleeper>, td: Td, i: int) {
    && -1 <= i < |s|
    && (i >= 0 ==> s[i].td == td)
    && (forall k :: i < k < |s| ==> s[k].td != td)
  }

  ghost function UnblockEach(sys: Sys, s: seq<Sleeper>): Sys {
    if s == [] then sys else DoUnblock(UnblockEach(sys, s[..|s| - 1]), s[|s| - 1].td)
  }

  class Sleepers {
    var entries: seq<Sleeper>

    constructor ()
      ensures entries == []
    {
      entries := [];
    }

    method InsertPosition(deadline: nat) returns (i: nat)
      ensures IsInsertPosition(entries, deadline, i)
    {
      if |entries| == 0 {
        return 0;
      }
      i := 0;
      while i < |entries|
        invariant i <= |entries|
        invariant forall k :: 0 <= k < i ==> entries[k].deadline <= deadline
      {
        if deadline < entries[i].deadline {
          return;
        }
        i := i + 1;
      }
    }

    method Register(td: Td, deadline: nat) returns (ghost i: nat)
      requires Sorted(entries)
      modifies this
      ensures IsInsertPosition(old(entries), deadline, i) && Sorted(entries)
      ensures entries == Insert(old(entries), Sleeper(td, deadline), i)
    {
      var at := InsertPosition(deadline);
      InsertSorted(entries, Sleeper(td, deadline), at);
      entries := Insert(entries, Sleeper(td, deadline), at);
      i := at;
    }

    /** The timer tick: exactly the entries past their deadline leave, and their threads wake. */
    method WakeupThreads(kernel: Scheduler.Kernel, now: nat, running: bool) returns (ghost j: nat)
      requires Sorted(entries) && kernel.Valid()
      modifies this, kernel, kernel.ring, kernel.ring.buffer
      ensures IsDue(old(entries), now, j) && entries == old(entries)[j..] && Sorted(entries) && kernel.Valid()
      ensures kernel.spec == if running then UnblockEach(old(kernel.spec), old(entries)[..j]) else old(kernel.spec)
    {
      hide Scheduler.Rep, Scheduler.Kin, Scheduler.NoEmpty, Inv, UnblockEach, Items;
      var n := 0;
      while n < |entries| && entries[n].deadline < now
        invariant n <= |entries|
        invariant forall k :: 0 <= k < n ==> entries[k].deadline < now
      {
        n := n + 1;
      }
      if running {
        UnblockAll(kernel, n);
      }
      entries := entries[n..];
      j := n;
    }

    method UnblockAll(kernel: Scheduler.Kernel, n: nat)
      requires n <= |entries| && kernel.Valid()
      modifies kernel, kernel.ring, kernel.ring.buffer
      ensures kernel.Valid() && kernel.spec == UnblockEach(old(kernel.spec), entries[..n])
    {
      hide Scheduler.Rep, Scheduler.Kin, Scheduler.NoEmpty, Inv, DoUnblock, Items;
      for i := 0 to n
        invariant kernel.Valid() && kernel.spec == UnblockEach(old(kernel.spec), entries[..i])
        invariant kernel.ring.buffer == old(kernel.ring.buffer) || fresh(kernel.ring.buffer)
      {
        assert entries[..i + 1][..i] == entries[..i];
        kernel.Unblock(entries[i].td);
      }
    }

    /** Removes one entry of the thread and wakes it; fails when it is not asleep. */
    method SleepCancel(kernel: Scheduler.Kernel, td: Td) returns (found: bool, ghost i: int)
      requires Sorted(entries) && kernel.Valid()
      modifies this, kernel, kernel.ring, kernel.ring.buffer
      ensures IsLastOf(old(entries), td, i) && found == (i >= 0) && Sorted(entries) && kernel.Valid()
      ensures found <==> exists k :: 0 <= k < |old(entries)| && old(entries)[k].td == td
      ensures !found ==> entries == old(entries) && kernel.spec == old(kernel.spec)
      ensures found ==> entries == Remove(old(entries), i) && kernel.spec == DoUnblock(old(kernel.spec), td)
    {
      hide Scheduler.Rep, Scheduler.Kin, Scheduler.NoEmpty, Inv, DoUnblock, Items;
      var idx := -1;
      for k := 0 to |entries|
        invariant -1 <= idx < k && (idx >= 0 ==> entries[idx].td == td)
        invariant forall m :: idx < m < k ==> entries[m].td != td
      {
        if entries[k].td == td {
          idx := k;
        }
      }
      i := idx;
      if idx == -1 {
        return false, i;
      }
      RemoveSorted(entries, idx);
      entries := Remove(entries, idx);
      kernel.Unblock(td);
      found := true;
    }
  }

  // ---- sleeping and waking over whole runs ------------------------------------------------

  datatype World = World(sys: Sys, sleepers: seq<Sleeper>)

  /** A scheduler step, a thread going to sleep, a timer tick, or a cancelled sleep. */
  datatype Event = Sched(step: Step) | Register(e: Sleeper, at: nat) | Tick(now: nat, due: nat) | Cancel(td: Td, last: int)

  ghost predicate Possible(w: World, ev: Event) {
    match ev
    case Sched(step) => Enabled(w.sys, step) && (w.sys.onCpu ==> w.sys.current in w.sys.table)
    case Register(e, at) => IsInsertPosition(w.sleepers, e.deadline, at)
    case Tick(now, due) => IsDue(w.sleepers, now, due)
    case Cancel(td, last) => IsLastOf(w.sleepers, td, last)
  }

  ghost function Next(w: World, ev: Event): World
    requires Possible(w, ev)
  {
    match ev
    case Sched(step) => w.(sys := SchedState.Apply(w.sys, step))
    case Register(e, at) => w.(sleepers := Insert(w.sleepers, e, at))
    case Tick(now, due) => World(UnblockEach(w.sys, w.sleepers[..due]), w.sleepers[due..])
    case Cancel(td, last) => if last < 0 then w else World(DoUnblock(w.sys, td), Remove(w.sleepers, last))
  }

  ghost predicate WorldInv(w: World) { Inv(w.sys) && Sorted(w.sleepers) }

  lemma {:induction false} UnblockEachTable(sys: Sys, s: seq<Sleeper>)
    requires Inv(sys)
    ensures Inv(UnblockEach(sys, s)) && UnblockEach(sys, s).table.Keys == sys.table.Keys
    ensures forall td :: td in sys.table ==>
      UnblockEach(sys, s).table[td] == (if Named(s, td) && sys.table[td].state == Blocked then sys.table[td].(state := Ready) else sys.table[td])
  {
    if s != [] {
      var init, last := s[..|s| - 1], s[|s| - 1].td;
      UnblockEachTable(sys, init);
      UnblockInv(UnblockEach(sys, init), last);
      hide Inv;
      forall td ensures Named(s, td) <==> Named(init, td) || td == last {
        NamedLast(s, td);
      }
    }
  }

  ghost predicate Named(s: seq<Sleeper>, td: Td) { exists k :: 0 <= k < |s| && s[k].td == td }

  lemma NamedLast(s: seq<Sleeper>, td: Td)
    requires s != []
    ensures Named(s, td) <==> Named(s[..|s| - 1], td) || td == s[|s| - 1].td
  {
    var init := s[..|s| - 1];
    if Named(s, td) && td != s[|s| - 1].td {
      var k :| 0 <= k < |s| && s[k].td == td;
      assert init[k].td == td;
    }
  }

  lemma NextInv(w: World, ev: Event)
    requires WorldInv(w) && Possible(w, ev)
    ensures WorldInv(Next(w, ev))
  {
    hide Inv;
    match ev
    case Sched(step) => StepInv(w.sys, step);
    case Register(e, at) => InsertSorted(w.sleepers, e, at);
    case Tick(now, due) => UnblockEachTable(w.sys, w.sleepers[..due]);
    case Cancel(td, last) =>
      if last >= 0 {
        RemoveSorted(w.sleepers, last);
        UnblockAny(w.sys, td);
      }
  }

  lemma UnblockAny(s: Sys, td: Td)
    requires Inv(s)
    ensures Inv(DoUnblock(s, td))
  {
    UnblockInv(s, td);
  }

  /** td is blocked with deadline d registered, and none of its entries is earlier. */
  ghost predicate Asleep(w: World, td: Td, d: nat) {
    td in w.sys.table && w.sys.table[td].state == Blocked && Listed(w.sleepers, td, d)
  }

  ghost predicate Listed(s: seq<Sleeper>, td: Td, d: nat) {
    Sleeper(td, d) in s && forall e :: e in s && e.td == td ==> d <= e.deadline
  }

  lemma InsertListed(s: seq<Sleeper>, td: Td, d: nat, e: Sleeper, i: nat)
    requires Listed(s, td, d) && i <= |s| && (e.td == td ==> d <= e.deadline)
    ensures Listed(Insert(s, e, i), td, d)
  {
    assert s == s[..i] + s[i..];
    assert forall x :: x in Insert(s, e, i) <==> x in s || x == e;
  }

  lemma RemoveListed(s: seq<Sleeper>, td: Td, d: nat, i: nat)
    requires Listed(s, td, d) && i < |s| && s[i].td != td
    ensures Listed(Remove(s, i), td, d)
  {
    assert s == s[..i] + [s[i]] + s[i + 1..];
    assert forall x :: x in Remove(s, i) ==> x in s;
  }

  lemma TickListed(s: seq<Sleeper>, td: Td, d: nat, now: nat, due: nat)
    requires Sorted(s) && Listed(s, td, d) && now <= d && IsDue(s, now, due)
    ensures Listed(s[due..], td, d) && !Named(s[..due], td)
  {
    DueExactly(s, now, due);
    assert s == s[..due] + s[due..];
    forall k | 0 <= k < due ensures s[..due][k].td != td {
      assert s[k] in s;
    }
  }

  /** Nothing but its own deadline wakes td: no unblock, no cancel, no earlier entry, no late tick. */
  ghost predicate Undisturbed(ev: Event, td: Td, d: nat) {
    match ev
    case Sched(step) => step != Step.Unblock(td)
    case Register(e, _) => e.td == td ==> d <= e.deadline
    case Tick(now, _) => now <= d
    case Cancel(x, _) => x != td
  }

  lemma StaysBlocked(s: Sys, step: Step, td: Td)
    requires Inv(s) && Enabled(s, step) && td in s.table && s.table[td].state == Blocked && step != Step.Unblock(td)
    ensures
      var t := SchedState.Apply(s, step);
      td in t.table && t.table[td].state == Blocked
  {
    QueueHead(s);
  }

  /** No tick up to the deadline, and no unrelated event, wakes a sleeping thread. */
  lemma StaysAsleep(w: World, ev: Event, td: Td, d: nat)
    requires WorldInv(w) && Possible(w, ev) && Asleep(w, td, d) && Undisturbed(ev, td, d)
    ensures Asleep(Next(w, ev), td, d)
  {
    hide Inv, SchedState.Apply, Listed, Named, IsDue, Sorted;
    match ev
    case Sched(step) => StaysBlocked(w.sys, step, td);
    case Register(e, i) => InsertListed(w.sleepers, td, d, e, i);
    case Tick(now, due) =>
      TickListed(w.sleepers, td, d, now, due);
      UnblockEachTable(w.sys, w.sleepers[..due]);
    case Cancel(x, last) =>
      if last >= 0 {
        RemoveListed(w.sleepers, td, d, last);
      }
  }

  /** The first tick past the deadline makes the thread ready. */
  lemma TickWakes(w: World, td: Td, d: nat, now: nat, due: nat)
    requires WorldInv(w) && Asleep(w, td, d) && d < now && Possible(w, Tick(now, due))
    ensures IsReady(Next(w, Tick(now, due)).sys, td)
    ensures Sleeper(td, d) !in Next(w, Tick(now, due)).sleepers
  {
    hide Inv;
    DueExactly(w.sleepers, now, due);
    UnblockEachTable(w.sys, w.sleepers[..due]);
    var at :| 0 <= at < |w.sleepers| && w.sleepers[at] == Sleeper(td, d);
    assert w.sleepers[..due][at].td == td;
  }

  ghost predicate Quiet(w: World, evs: seq<Event>, w': World, td: Td, d: nat)
    decreases |evs|
  {
    if evs == [] then w' == w
    else Possible(w, evs[0]) && Undisturbed(evs[0], td, d) && Quiet(Next(w, evs[0]), evs[1..], w', td, d)
  }

  // ---- from the call of sleep -------------------------------------------------------------

  /** Blocking the current thread while its deadline is registered; also each later turn of sleep's loop. */
  lemma BlockSleeps(w: World, d: nat) returns (w': World)
    requires WorldInv(w) && w.sys.onCpu && w.sys.current.pid != KERNEL_PID && Listed(w.sleepers, w.sys.current, d)
    ensures Possible(w, Sched(RequestBlock)) && Possible(Next(w, Sched(RequestBlock)), Sched(Save))
    ensures w' == Next(Next(w, Sched(RequestBlock)), Sched(Save))
    ensures WorldInv(w') && Asleep(w', w.sys.current, d)
  {
    InvCpu(w.sys);
    NextInv(w, Sched(RequestBlock));
    var blocking := Next(w, Sched(RequestBlock));
    NextInv(blocking, Sched(Save));
    w' := Next(blocking, Sched(Save));
  }

  /** sleep: the deadline is registered and the thread blocks in one section without interrupts. */
  lemma SleepSleeps(w: World, d: nat, at: nat) returns (w': World)
    requires WorldInv(w) && w.sys.onCpu && w.sys.current.pid != KERNEL_PID
    requires IsInsertPosition(w.sleepers, d, at) && forall e :: e in w.sleepers && e.td == w.sys.current ==> d <= e.deadline
    ensures SleepCall(w, d, at, w')
    ensures WorldInv(w') && Asleep(w', w.sys.current, d)
  {
    var entry := Sleeper(w.sys.current, d);
    InsertSorted(w.sleepers, entry, at);
    assert forall x :: x in Insert(w.sleepers, entry, at) <==> x in w.sleepers || x == entry by {
      assert w.sleepers == w.sleepers[..at] + w.sleepers[at..];
    }
    w' := BlockSleeps(Next(w, Register(entry, at)), d);
  }

  ghost predicate SleepCall(w: World, d: nat, at: nat, w': World) {
    var register := Register(Sleeper(w.sys.current, d), at);
    && Possible(w, register)
    && var registered := Next(w, register);
    && Possible(registered, Sched(RequestBlock))
    && var blocking := Next(registered, Sched(RequestBlock));
    && Possible(blocking, Sched(Save)) && w' == Next(blocking, Sched(Save))
  }

  /** A sleeping thread that is not otherwise woken is woken by the first tick past its deadline. */
  lemma WokenByFirstTick(w: World, evs: seq<Event>, w': World, td: Td, d: nat, now: nat, due: nat)
    requires WorldInv(w) && Asleep(w, td, d) && Quiet(w, evs, w', td, d)
    requires d < now && Possible(w', Tick(now, due))
    ensures WorldInv(w') && Asleep(w', td, d) && IsReady(Next(w', Tick(now, due)).sys, td)
  {
    StaysThrough(w, evs, w', td, d);
    TickWakes(w', td, d, now, due);
  }

  /**
   The thread that calls sleep with deadline d is blocked at once, stays blocked through every
   event that is not meant for it, and the first tick past d makes it ready.
   */
  lemma SleepWakes(w: World, d: nat, at: nat, evs: seq<Event>, w'': World, now: nat, due: nat) returns (w': World)
    requires WorldInv(w) && w.sys.onCpu && w.sys.current.pid != KERNEL_PID
    requires IsInsertPosition(w.sleepers, d, at) && forall e :: e in w.sleepers && e.td == w.sys.current ==> d <= e.deadline
    ensures SleepCall(w, d, at, w') && Asleep(w', w.sys.current, d)
    ensures Quiet(w', evs, w'', w.sys.current, d) ==> Asleep(w'', w.sys.current, d)
    ensures Quiet(w', evs, w'', w.sys.current, d) && d < now && Possible(w'', Tick(now, due)) ==>
      IsReady(Next(w'', Tick(now, due)).sys, w.sys.current)
  {
    w' := SleepSleeps(w, d, at);
    if Quiet(w', evs, w'', w.sys.current, d) {
      StaysThrough(w', evs, w'', w.sys.current, d);
      if d < now && Possible(w'', Tick(now, due)) {
        WokenByFirstTick(w', evs, w'', w.sys.current, d, now, due);
      }
    }
  }

  lemma {:induction false} StaysThrough(w: World, evs: seq<Event>, w': World, td: Td, d: nat)
    requires WorldInv(w) && Asleep(w, td, d) && Quiet(w, evs, w', td, d)
    ensures WorldInv(w') && Asleep(w', td, d)
    decreases |evs|
  {
    hide WorldInv, Possible, Next, Asleep, Undisturbed;
    if evs != [] {
      StaysAsleep(w, evs[0], td, d);
      NextInv(w, evs[0]);
      StaysThrough(Next(w, evs[0]), evs[1..], w', td, d);
    }
  }
}
