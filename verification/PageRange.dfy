/**
 free_page_range at the level of the 512 entries of the top table, each standing for 512 GB.

 The loop counts the entries it frees, not the entries it passes: over an absent entry it moves
 on without counting, and it goes round the table.
 */
module PageRange {
  const ENTRIES := 512

  /** How far entry x lies behind `first`, going round the table. */
  function Behind(first: nat, x: nat): (d: nat)
    requires first < ENTRIES && x < ENTRIES
    ensures d < ENTRIES && (first + d) % ENTRIES == x
  {
    (x + ENTRIES - first) % ENTRIES
  }

  /** The present entries among the n from `first` on. */
  ghost function Within(present: set<nat>, first: nat, n: nat): set<nat>
    requires first < ENTRIES && forall x :: x in present ==> x < ENTRIES
  {
    set x | x in present && Behind(first, x) < n
  }

  lemma WithinSubset(present: set<nat>, first: nat, n: nat)
    requires first < ENTRIES && forall x :: x in present ==> x < ENTRIES
    ensures Within(present, first, n) <= present
  {}

  function Entries(first: nat, count: nat): (s: set<nat>)
    ensures |s| == count && forall x :: x in s <==> first <= x < first + count
  {
    if count == 0 then {} else Entries(first, count - 1) + {first + count - 1}
  }

  /** done is false where the kernel would go round the emptied table forever. */
  method FreePageRange(present: set<nat>, first: nat, count: nat) returns (done: bool, freed: set<nat>)
    requires first < ENTRIES && forall x :: x in present ==> x < ENTRIES
    ensures freed <= present && (done <==> |present| >= count)
    ensures done ==> |freed| == count && exists n: nat :: freed == Within(present, first, n)
    ensures !done ==> freed == present
  {
    var left, passed: nat := count, 0;
    freed := {};
    assert Within(present, first, 0) == {};
    while left != 0
      invariant passed <= ENTRIES && freed == Within(present, first, passed) && |freed| == count - left
      decreases ENTRIES - passed
    {
      if passed == ENTRIES {
        assert freed == present;
        return false, freed;
      }
      var entry := (first + passed) % ENTRIES;
      assert Behind(first, entry) == passed;
      NextEntry(present, first, passed);
      if entry in present {
        freed := freed + {entry};
        left := left - 1;
      }
      passed := passed + 1;
    }
    SubsetSize(freed, present);
    done := true;
  }

  lemma NextEntry(present: set<nat>, first: nat, n: nat)
    requires first < ENTRIES && n < ENTRIES && forall x :: x in present ==> x < ENTRIES
    ensures
      var entry := (first + n) % ENTRIES;
      && entry !in Within(present, first, n)
      && Within(present, first, n + 1) == Within(present, first, n) + if entry in present then {entry} else {}
  {
    var entry := (first + n) % ENTRIES;
    assert Behind(first, entry) == n;
    forall x | x in present && Behind(first, x) == n ensures x == entry {}
  }

  lemma SubsetSize<T>(a: set<T>, b: set<T>)
    requires a <= b
    ensures |a| <= |b| && (|a| == |b| ==> a == b)
  {
    assert |b| == |a| + |b - a|;
    if |a| == |b| {
      assert b - a == {};
      assert b == a + (b - a);
    }
  }

  lemma {:induction false} WithinSize(present: set<nat>, first: nat, n: nat)
    requires first < ENTRIES && n <= ENTRIES && forall x :: x in present ==> x < ENTRIES
    ensures |Within(present, first, n)| <= n
  {
    if n == 0 {
      assert Within(present, first, 0) == {};
    } else {
      WithinSize(present, first, n - 1);
      NextEntry(present, first, n - 1);
    }
  }

  /**
   What freeing a region of `count` entries frees: all of its own present entries, and other
   entries exactly when one of its own is absent.
   */
  lemma OwnAndForeign(present: set<nat>, first: nat, count: nat, freed: set<nat>, n: nat)
    requires first < ENTRIES && first + count <= ENTRIES && forall x :: x in present ==> x < ENTRIES
    requires freed == Within(present, first, n) && |freed| == count
    ensures present * Entries(first, count) <= freed
    ensures freed <= Entries(first, count) <==> Entries(first, count) <= present
    ensures |freed - Entries(first, count)| == |Entries(first, count) - present|
  {
    var own := Entries(first, count);
    if n < count {
      WithinSize(present, first, n);
    }
    forall x | x in present * own ensures x in freed {
      assert Behind(first, x) == x - first;
    }
    assert freed * own == present * own;
    assert |freed| == |freed * own| + |freed - own| by { assert freed == freed * own + (freed - own); }
    assert |own| == |own * present| + |own - present| by { assert own == own * present + (own - present); }
    assert own * present == present * own;
    if |freed - own| == 0 {
      assert freed - own == {};
      assert forall x :: x in freed ==> x in own by { assert forall x :: x in freed && x !in own ==> x in freed - own; }
    }
    if |own - present| == 0 {
      assert own - present == {};
      assert forall x :: x in own ==> x in present by { assert forall x :: x in own && x !in present ==> x in own - present; }
    }
    if freed <= own {
      assert freed - own == {};
    }
    if own <= present {
      assert own - present == {};
    }
  }
}
