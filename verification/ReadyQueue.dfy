/** The scheduler's ring of ready threads, which doubles when full, against an unbounded queue. */
module ReadyQueue {
  /** A thread as the queue names it. */
  datatype Td = Td(pid: nat, tid: nat)

  const INITIAL_CAPACITY := 3
  const FILLER := Td(0xefefefef, 0xefefefef)

  /** (i + 1) % cap for an index inside the ring. */
  function Next(cap: nat, i: nat): (j: nat)
    requires i < cap
    ensures j == if i + 1 == cap then 0 else i + 1
  {
    (i + 1) % cap
  }

  /** The entries of a ring, oldest first. */
  ghost function Items(buf: seq<Td>, head: nat, tail: nat): (s: seq<Td>)
    requires head < |buf| && tail < |buf|
    ensures |s| == (if head <= tail then tail - head else |buf| - head + tail)
  {
    if head <= tail then buf[head..tail] else buf[head..] + buf[..tail]
  }

  lemma ItemsPush(buf: seq<Td>, head: nat, tail: nat, x: Td)
    requires 2 <= |buf| && head < |buf| && tail < |buf| && Next(|buf|, tail) != head
    ensures Items(buf[tail := x], head, Next(|buf|, tail)) == Items(buf, head, tail) + [x]
  {
    hide Next;
    var after := buf[tail := x];
    if head <= tail {
      assert after[head..tail + 1] == buf[head..tail] + [x];
    } else {
      assert after[head..] == buf[head..] && after[..tail + 1] == buf[..tail] + [x];
    }
  }

  lemma ItemsPop(buf: seq<Td>, head: nat, tail: nat)
    requires head < |buf| && tail < |buf| && head != tail
    ensures Items(buf, head, tail) == [buf[head]] + Items(buf, Next(|buf|, head), tail)
  {
    hide Next;
    if head < tail {
      assert buf[head..tail] == [buf[head]] + buf[head + 1..tail];
    } else if head + 1 < |buf| {
      assert buf[head..] + buf[..tail] == [buf[head]] + (buf[head + 1..] + buf[..tail]);
    } else {
      assert buf[head..] == [buf[head]] && Next(|buf|, head) == 0;
      assert buf[0..tail] == buf[..tail];
    }
  }

  /** Moving the part from head on to the end of a larger buffer keeps the entries. */
  lemma ItemsGrow(buf: seq<Td>, grown: seq<Td>, head: nat, tail: nat)
    requires head < |buf| && tail < |buf| <= |grown| && tail < head
    requires grown[..tail] == buf[..tail] && grown[|grown| - |buf| + head..] == buf[head..]
    ensures Items(grown, |grown| - |buf| + head, tail) == Items(buf, head, tail)
  {}

  class Ring {
    var buffer: array<Td>
    var head: nat
    var tail: nat
    var readyThreads: nat

    ghost predicate Indexed()
      reads this
    {
      2 <= buffer.Length && head < buffer.Length && tail < buffer.Length
    }

    ghost function Contents(): (s: seq<Td>)
      requires Indexed()
      reads this, buffer
    {
      Items(buffer[..], head, tail)
    }

    ghost predicate Valid()
      reads this, buffer
    {
      Indexed() && readyThreads == |Contents()|
    }

    constructor ()
      ensures Valid() && Contents() == [] && fresh(buffer) && buffer.Length == INITIAL_CAPACITY
    {
      buffer := new Td[INITIAL_CAPACITY](_ => FILLER);
      head, tail, readyThreads := 0, 0, 0;
    }

    /** Doubles the full buffer; the part from head on moves to the new end. */
    method Expand()
      requires Indexed() && Next(buffer.Length, tail) == head
      modifies this`buffer, this`head
      ensures Indexed() && fresh(buffer) && buffer.Length == 2 * old(buffer.Length)
      ensures Contents() == old(Contents()) && Next(buffer.Length, tail) != head
    {
      hide Next;
      var oldCap := buffer.Length;
      ghost var was := buffer[..];
      var grown := Reallocate(2 * oldCap);
      buffer := grown;
      if head > 0 {
        var exp := buffer.Length - oldCap;
        MoveUp(oldCap, exp);
        ItemsGrow(was, buffer[..], head, tail);
        head := head + exp;
      } else {
        assert buffer[..][head..tail] == was[head..tail];
      }
    }

    /** realloc: a larger block with the old contents, the rest filled with 0xef. */
    method Reallocate(cap: nat) returns (grown: array<Td>)
      requires buffer.Length <= cap
      ensures fresh(grown) && grown.Length == cap && grown[..buffer.Length] == buffer[..]
    {
      grown := new Td[cap](_ => FILLER);
      for i := 0 to buffer.Length
        invariant grown[..i] == buffer[..i]
      {
        grown[i] := buffer[i];
      }
    }

    method MoveUp(oldCap: nat, exp: nat)
      requires 0 < head < oldCap && tail < head && buffer.Length == oldCap + exp && exp == oldCap
      modifies buffer
      ensures buffer[..tail] == old(buffer[..tail])
      ensures buffer[head + exp..] == old(buffer[head..oldCap])
    {
      var i := oldCap - 1;
      while i >= head
        invariant head - 1 <= i < oldCap
        invariant buffer[..oldCap] == old(buffer[..oldCap])
        invariant buffer[i + 1 + exp..] == old(buffer[i + 1..oldCap])
      {
        buffer[i + exp] := buffer[i];
        i := i - 1;
      }
      assert buffer[..tail] == buffer[..oldCap][..tail];
    }

    method Push(thread: Td)
      requires Indexed()
      modifies this`buffer, this`head, this`tail, buffer
      ensures Indexed() && (buffer == old(buffer) || fresh(buffer)) && Contents() == old(Contents()) + [thread]
    {
      hide Next;
      if Next(buffer.Length, tail) == head {
        Expand();
      }
      ItemsPush(buffer[..], head, tail, thread);
      ghost var was := buffer[..];
      buffer[tail] := thread;
      assert buffer[..] == was[tail := thread];
      tail := Next(buffer.Length, tail);
    }

    method PushReady(thread: Td)
      requires Valid()
      modifies this, buffer
      ensures Valid() && (buffer == old(buffer) || fresh(buffer)) && Contents() == old(Contents()) + [thread]
    {
      Push(thread);
      readyThreads := readyThreads + 1;
    }

    /** The source asserts that the queue is not empty. */
    method PopReady() returns (thread: Td)
      requires Valid() && tail != head
      modifies this`head, this`readyThreads
      ensures Valid() && old(Contents()) == [thread] + Contents()
    {
      hide Next;
      ItemsPop(buffer[..], head, tail);
      thread := buffer[head];
      head := Next(buffer.Length, head);
      readyThreads := readyThreads - 1;
    }
  }

  // ---- the queue over whole runs ----------------------------------------------------------

  datatype Op = Push(thread: Td) | Pop

  function Apply(queue: seq<Td>, op: Op): seq<Td>
    requires op.Pop? ==> queue != []
  {
    match op
    case Push(x) => queue + [x]
    case Pop => queue[1..]
  }

  ghost predicate Legal(queue: seq<Td>, ops: seq<Op>)
    decreases |ops|
  {
    ops == [] || ((ops[0].Pop? ==> queue != []) && Legal(Apply(queue, ops[0]), ops[1..]))
  }

  function Pops(ops: seq<Op>): nat {
    if ops == [] then 0 else (if ops[0].Pop? then 1 else 0) + Pops(ops[1..])
  }

  function Pushed(ops: seq<Op>): seq<Td> {
    if ops == [] then [] else (if ops[0].Push? then [ops[0].thread] else []) + Pushed(ops[1..])
  }

  ghost function Popped(queue: seq<Td>, ops: seq<Op>): seq<Td>
    requires Legal(queue, ops)
    decreases |ops|
  {
    if ops == [] then []
    else (if ops[0].Pop? then [queue[0]] else []) + Popped(Apply(queue, ops[0]), ops[1..])
  }

  ghost function After(queue: seq<Td>, ops: seq<Op>): seq<Td>
    requires Legal(queue, ops)
    decreases |ops|
  {
    if ops == [] then queue else After(Apply(queue, ops[0]), ops[1..])
  }

  /** No entry is lost, duplicated or reordered: old and pushed entries are popped or still there. */
  lemma {:induction false} FirstInFirstOut(queue: seq<Td>, ops: seq<Op>)
    requires Legal(queue, ops)
    ensures Popped(queue, ops) + After(queue, ops) == queue + Pushed(ops)
    ensures |Popped(queue, ops)| == Pops(ops)
    decreases |ops|
  {
    if ops != [] {
      var rest := Apply(queue, ops[0]);
      FirstInFirstOut(rest, ops[1..]);
      var popped, after, pushed := Popped(rest, ops[1..]), After(rest, ops[1..]), Pushed(ops[1..]);
      hide Popped, After, Pushed, Pops, Legal;
      match ops[0]
      case Pop =>
        assert ([queue[0]] + popped) + after == [queue[0]] + (popped + after);
        assert [queue[0]] + (rest + pushed) == queue + pushed;
        Unfold(queue, ops);
      case Push(x) =>
        assert (queue + [x]) + pushed == queue + ([x] + pushed);
        Unfold(queue, ops);
    } else {
      assert queue + [] == [] + queue;
    }
  }

  lemma Unfold(queue: seq<Td>, ops: seq<Op>)
    requires ops != [] && Legal(queue, ops)
    ensures (ops[0].Pop? ==> queue != []) && Legal(Apply(queue, ops[0]), ops[1..])
    ensures
      var rest := Apply(queue, ops[0]);
      && After(queue, ops) == After(rest, ops[1..])
      && (ops[0].Pop? ==> Popped(queue, ops) == [queue[0]] + Popped(rest, ops[1..]))
      && (ops[0].Push? ==> Popped(queue, ops) == Popped(rest, ops[1..]))
    ensures Pushed(ops) == if ops[0].Push? then [ops[0].thread] + Pushed(ops[1..]) else Pushed(ops[1..])
    ensures Pops(ops) == Pops(ops[1..]) + if ops[0].Pop? then 1 else 0
  {
    var rest := Apply(queue, ops[0]);
    assert [] + Popped(rest, ops[1..]) == Popped(rest, ops[1..]);
    assert [] + Pushed(ops[1..]) == Pushed(ops[1..]);
  }

  /** The entry at position k leaves with exactly the (k+1)-th pop, whatever is pushed between. */
  lemma PoppedInTurn(queue: seq<Td>, ops: seq<Op>, k: nat)
    requires Legal(queue, ops) && k < |queue|
    ensures |Popped(queue, ops)| == Pops(ops)
    ensures k < Pops(ops) ==> Popped(queue, ops)[k] == queue[k]
    ensures k >= Pops(ops) ==> k - Pops(ops) < |After(queue, ops)| && After(queue, ops)[k - Pops(ops)] == queue[k]
  {
    FirstInFirstOut(queue, ops);
    assert (queue + Pushed(ops))[k] == queue[k];
  }
}
