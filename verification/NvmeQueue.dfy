/**
 The ring indices and the phase prediction of an NVMe queue pair: pure index arithmetic,
 and update_queues as the loop that finds new completions from phase bits alone.
 */
module NvmeQueue {
  import opened Common
  import opened Division

  /** The ring index of the k-th element ever queued. */
  function Ix(n: nat, k: nat): (i: nat)
    requires n > 0
    ensures i < n
  {
    k % n
  }

  function NextIndex(n: nat, index: nat): (i: nat)
    requires n > 0
    ensures i < n
  {
    (index + 1) % n
  }

  predicate QueueFull(n: nat, head: nat, tail: nat)
    requires n > 0
  {
    NextIndex(n, tail) == head
  }

  predicate QueueEmpty(head: nat, tail: nat) { tail == head }

  /** cq_tail_phase: the phase bit the tail slot still carries when nothing new was posted there. */
  function CqTailPhase(n: nat, counter: nat): nat
    requires n > 0
  {
    (counter / n) % 2
  }

  /** Phase bit the controller writes with its m-th completion: 1 on the first pass, then flipping. */
  function PostedPhase(n: nat, m: nat): nat
    requires n > 0
  {
    1 - (m / n) % 2
  }

  // ---- arithmetic ---------------------------------------------------------------------

  lemma NextIndexCount(n: nat, k: nat)
    requires n > 0
    ensures NextIndex(n, Ix(n, k)) == Ix(n, k + 1)
  {
    var q, r := k / n, k % n;
    if r + 1 < n {
      Unique(k + 1, n, q, r + 1);
      Unique(r + 1, n, 0, r + 1);
    } else {
      assert k + 1 == n * (q + 1) + 0;
      Unique(k + 1, n, q + 1, 0);
      Unique(r + 1, n, 1, 0);
    }
  }

  /** Two counts less than n apart have the same index only when they are equal. */
  lemma IndexInjective(n: nat, a: nat, b: nat)
    requires n > 0 && a <= b < a + n && Ix(n, a) == Ix(n, b)
    ensures a == b
  {
    var d := b / n - a / n;
    assert b - a == n * d by { assert n * d == n * (b / n) - n * (a / n); }
    Grow(n, d);
  }

  /** With head and tail as counts, the ring is empty when they are equal and full at n - 1. */
  lemma RingCounts(n: nat, head: nat, tail: nat)
    requires n > 0 && head <= tail < head + n
    ensures QueueEmpty(Ix(n, head), Ix(n, tail)) <==> head == tail
    ensures QueueFull(n, Ix(n, head), Ix(n, tail)) <==> tail - head == n - 1
  {
    NextIndexCount(n, tail);
    if head % n == tail % n {
      IndexInjective(n, head, tail);
    }
    if (tail + 1) % n == head % n {
      if tail + 1 < head + n {
        IndexInjective(n, head, tail + 1);
      }
    }
    if tail + 1 == head + n {
      assert tail + 1 == n * (head / n + 1) + head % n;
      Unique(tail + 1, n, head / n + 1, head % n);
    }
  }

  /** The phases of one slot on consecutive passes differ. */
  lemma PhaseFlips(n: nat, m: nat)
    requires n > 0
    ensures Ix(n, m + n) == Ix(n, m)
    ensures PostedPhase(n, m + n) == CqTailPhase(n, m)
    ensures PostedPhase(n, m) != CqTailPhase(n, m) && PostedPhase(n, m) == CqTailPhase(n, m + n)
  {
    assert m + n == n * (m / n + 1) + m % n;
    Unique(m + n, n, m / n + 1, m % n);
  }

  // ---- the 32-bit counter ---------------------------------------------------------------

  /** The prediction from the wrapped counter agrees with the true count at every point. */
  ghost predicate PredictionHolds(n: nat)
    requires n > 0
  {
    forall d: nat :: CqTailPhase(n, Ix(WORD32, d)) == CqTailPhase(n, d)
  }

  lemma Divides(n: nat, k: nat, d: nat)
    requires n > 0 && 2 * n * k == WORD32
    ensures CqTailPhase(n, Ix(WORD32, d)) == CqTailPhase(n, d)
  {
    var w, r := d / WORD32, d % WORD32;
    var q, s := r / n, r % n;
    var kw := k * w;
    Product(n, k, w, q);
    Unique(d, n, 2 * kw + q, s);
    assert (2 * kw + q) % 2 == q % 2;
  }

  lemma Product(n: nat, k: nat, w: nat, q: nat)
    ensures n * (2 * (k * w) + q) == 2 * n * k * w + n * q
  {}

  lemma DividesAll(n: nat)
    requires n > 0 && WORD32 % (2 * n) == 0
    ensures PredictionHolds(n)
  {
    var k := Quot(WORD32, 2 * n);
    QuotRem(WORD32, 2 * n);
    Scale(n, k);
    hide Quot, Rem, Base, CqTailPhase, Ix;
    forall d: nat ensures CqTailPhase(n, Ix(WORD32, d)) == CqTailPhase(n, d) {
      Divides(n, k, d);
    }
  }

  lemma Scale(n: nat, k: nat)
    ensures Base(k, 2 * n) == 2 * n * k
  {}

  lemma FirstRound(n: nat, x: nat)
    requires x < n
    ensures CqTailPhase(n, x) == 0
  {
    Unique(x, n, 0, x);
  }

  lemma Wrapped(x: nat)
    requires x < WORD32
    ensures Ix(WORD32, WORD32 + x) == x
  {}

  /** A count just past the wrap whose prediction is wrong. */
  lemma WrongAfterWrap(n: nat, q: nat, r: nat)
    requires 0 < n <= 0xffff && WORD32 == 2 * n * q + r && 0 < r < 2 * n
    ensures !PredictionHolds(n)
  {
    var x := if r < n then n - r else 0;
    Wrapped(x);
    FirstRound(n, x);
    PhaseOf(n, q, r + x, WORD32 + x);
    hide CqTailPhase, Ix;
    assert CqTailPhase(n, Ix(WORD32, WORD32 + x)) != CqTailPhase(n, WORD32 + x);
  }

  /** The phase prediction survives the wrap of completion_counter exactly for the sizes whose
      double divides 2^32: the powers of two that the queue_pair comment asks for. */
  lemma PredictionIffDivides(n: nat)
    requires 0 < n <= 0xffff
    ensures PredictionHolds(n) <==> WORD32 % (2 * n) == 0
  {
    var q, r := Quot(WORD32, 2 * n), Rem(WORD32, 2 * n);
    QuotRem(WORD32, 2 * n);
    Scale(n, q);
    assert r == WORD32 % (2 * n);
    hide Quot, Base, PredictionHolds;
    if r == 0 {
      DividesAll(n);
    } else {
      WrongAfterWrap(n, q, r);
    }
  }

  lemma Prediction(n: nat, d: nat)
    requires 0 < n <= 0xffff && WORD32 % (2 * n) == 0
    ensures CqTailPhase(n, Ix(WORD32, d)) == CqTailPhase(n, d)
  {
    PredictionIffDivides(n);
  }

  lemma PhaseOf(n: nat, q: nat, y: nat, d: nat)
    requires n > 0 && n <= y < 2 * n && d == 2 * n * q + y
    ensures CqTailPhase(n, d) == 1
  {
    assert d == n * (2 * q + 1) + (y - n) by { assert n * (2 * q + 1) == 2 * n * q + n; }
    Unique(d, n, 2 * q + 1, y - n);
    assert (2 * q + 1) % 2 == 1;
  }

  // ---- update_queues ---------------------------------------------------------------------

  /** Completion queue memory after `posted` completions: each slot carries the phase of the
      last completion written there, or 0. */
  ghost predicate Phases(n: nat, mem: seq<nat>, posted: nat)
    requires n > 0
  {
    && |mem| == n
    && (forall m: nat :: m < posted < m + n + 1 ==> mem[Ix(n, m)] == PostedPhase(n, m))
    && forall i: nat :: posted <= i < n ==> mem[i] == 0
  }

  /** The entry at the slot after the last seen completion is new exactly when its phase differs
      from the prediction. */
  lemma PhaseDetects(n: nat, mem: seq<nat>, posted: nat, seen: nat)
    requires n > 0 && Phases(n, mem, posted) && seen <= posted < seen + n
    ensures mem[Ix(n, seen)] != CqTailPhase(n, seen) <==> seen < posted
  {
    if seen < posted {
      PhaseFlips(n, seen);
    } else if seen >= n {
      PhaseFlips(n, seen - n);
      assert seen - n < posted < (seen - n) + n + 1;
    } else {
      Unique(seen, n, 0, seen);
    }
  }

  class QueuePair {
    const n: nat
    var sqHead: nat
    var sqTail: nat
    var cqHead: nat
    var cqTail: nat
    var completionCounter: nat
    var phases: array<nat>          // phase bits of the completion queue in shared memory
    ghost var submitted: nat        // commands handed to the controller
    ghost var posted: nat           // completions the controller wrote
    ghost var seen: nat             // completions the driver found
    ghost var handled: nat          // completions the driver processed

    ghost predicate Valid()
      reads this, phases
    {
      && 2 <= n <= 0xffff && WORD32 % (2 * n) == 0
      && handled <= seen <= posted <= submitted < seen + n && posted < handled + n
      && sqTail == Ix(n, submitted) && sqHead == Ix(n, seen) && cqTail == Ix(n, seen) && cqHead == Ix(n, handled)
      && completionCounter == Ix(WORD32, seen)
      && phases.Length == n && Phases(n, phases[..], posted)
    }

    /** update_queues while the controller is quiet: every posted completion is found, once, and
        as many submission slots are released; neither assertion in the index helpers fails. */
    method UpdateQueues()
      requires Valid()
      modifies this`sqHead, this`cqTail, this`completionCounter, this`seen
      ensures Valid() && seen == posted
    {
      hide Phases, CqTailPhase, NextIndex, QueueFull, QueueEmpty, Ix;
      while true
        invariant Valid() && phases[..] == old(phases[..])
        decreases posted - seen
      {
        Prediction(n, seen);
        PhaseDetects(n, phases[..], posted, seen);
        var oldPhase := CqTailPhase(n, completionCounter);
        if phases[..][cqTail] == oldPhase {
          break;
        }
        RingCounts(n, handled, seen);
        RingCounts(n, seen, submitted);
        assert !QueueFull(n, cqHead, cqTail) && !QueueEmpty(sqHead, sqTail);
        NextIndexCount(n, seen);
        NextIndexCount(WORD32, seen);
        cqTail := NextIndex(n, cqTail);
        sqHead := NextIndex(n, sqHead);
        completionCounter := NextIndex(WORD32, completionCounter);
        seen := seen + 1;
      }
    }
  }
}
