/** Thread numbers of a process: one past the largest, or a fallback once that is exhausted. */
module ThreadIds {
  import opened Common
  import opened SchedState

  /** The fallback after scanning the threads in table order. */
  function Alternative(tids: seq<nat>): (a: nat)
    ensures a >= 1
  {
    if tids == [] then 1
    else
      var a := Alternative(tids[..|tids| - 1]);
      if tids[|tids| - 1] == a then a + 1 else a
  }

  function Preferred(tids: seq<nat>): (p: nat)
    ensures p >= 1 && forall t :: t in tids ==> t < p
    ensures p > 1 ==> p - 1 in tids
  {
    if tids == [] then 1
    else
      var p, last := Preferred(tids[..|tids| - 1]), tids[|tids| - 1];
      assert forall t :: t in tids ==> t in tids[..|tids| - 1] || t == last;
      if last >= p then last + 1 else p
  }

  method AllocTid(tids: seq<nat>) returns (tid: nat)
    ensures tid == Chosen(tids)
  {
    var pref, alt := 1, 1;
    for i := 0 to |tids|
      invariant pref == Preferred(tids[..i]) && alt == Alternative(tids[..i])
    {
      assert tids[..i + 1][..i] == tids[..i];
      if tids[i] == alt {
        alt := alt + 1;
      }
      if tids[i] >= pref {
        pref := tids[i] + 1;
      }
    }
    assert tids[..|tids|] == tids;
    if pref <= MAX_TID {
      tid := pref;
    } else if alt <= MAX_TID {
      tid := alt;
    } else {
      tid := 0;
    }
  }

  // ---- when is the fallback unused? -------------------------------------------------------

  /** m is the smallest positive number not in use. */
  ghost predicate SmallestUnused(tids: seq<nat>, m: nat) {
    m >= 1 && m !in tids && forall v :: 1 <= v < m ==> v in tids
  }

  /** The numbers below m stand in increasing order. */
  ghost predicate AscendingBelow(tids: seq<nat>, m: nat) {
    forall i, j :: 0 <= i < j < |tids| && tids[i] < m && tids[j] < m ==> tids[i] < tids[j]
  }

  lemma {:induction false} BelowAlternativeUsed(tids: seq<nat>, v: nat)
    requires 1 <= v < Alternative(tids)
    ensures v in tids
  {
    if tids != [] {
      var init := tids[..|tids| - 1];
      if v < Alternative(init) {
        BelowAlternativeUsed(init, v);
      }
    }
  }

  lemma AlternativeStep(tids: seq<nat>, k: nat)
    requires k < |tids|
    ensures Alternative(tids[..k + 1]) == Alternative(tids[..k]) + if tids[k] == Alternative(tids[..k]) then 1 else 0
  {
    assert tids[..k + 1][..k] == tids[..k];
  }

  /** In increasing order, the scan steps over every number below m that it meets. */
  lemma {:induction false} AscendingPassed(tids: seq<nat>, m: nat, k: nat)
    requires SmallestUnused(tids, m) && AscendingBelow(tids, m) && Distinct(tids) && 0 !in tids && k <= |tids|
    ensures forall i :: 0 <= i < k && tids[i] < m ==> tids[i] < Alternative(tids[..k])
    decreases k
  {
    if k > 0 {
      var x, before := tids[k - 1], Alternative(tids[..k - 1]);
      AscendingPassed(tids, m, k - 1);
      AlternativeStep(tids, k - 1);
      if 1 < x < m {
        assert x - 1 in tids;
        var j :| 0 <= j < |tids| && tids[j] == x - 1;
        assert tids[j] < before;
      }
    }
  }

  /** A number the scan has not reached when it meets it is never passed. */
  lemma {:induction false} NotPassedLater(tids: seq<nat>, i: nat, k: nat)
    requires Distinct(tids) && i < k <= |tids| && Alternative(tids[..i]) < tids[i]
    ensures Alternative(tids[..k]) <= tids[i]
    decreases k
  {
    AlternativeStep(tids, k - 1);
    if k > i + 1 {
      NotPassedLater(tids, i, k - 1);
    }
  }

  lemma {:induction false} AlternativeGrows(tids: seq<nat>, i: nat, k: nat)
    requires i <= k <= |tids|
    ensures Alternative(tids[..i]) <= Alternative(tids[..k])
    decreases k
  {
    if i < k {
      AlternativeGrows(tids, i, k - 1);
      AlternativeStep(tids, k - 1);
    }
  }

  lemma MetInTurn(tids: seq<nat>, i: nat)
    requires Distinct(tids) && 0 !in tids && i < |tids| && tids[i] < Alternative(tids)
    ensures Alternative(tids[..i]) == tids[i]
  {
    assert tids[..|tids|] == tids;
    if Alternative(tids[..i]) < tids[i] {
      NotPassedLater(tids, i, |tids|);
    } else if Alternative(tids[..i]) > tids[i] {
      BelowAlternativeUsed(tids[..i], tids[i]);
    }
  }

  /** The fallback is unused exactly when the numbers below the smallest hole are in order. */
  lemma AlternativeUnusedIff(tids: seq<nat>, m: nat)
    requires Distinct(tids) && 0 !in tids && SmallestUnused(tids, m)
    ensures Alternative(tids) !in tids <==> AscendingBelow(tids, m)
    ensures AscendingBelow(tids, m) ==> Alternative(tids) == m
  {
    assert tids[..|tids|] == tids;
    var a := Alternative(tids);
    if AscendingBelow(tids, m) {
      AscendingPassed(tids, m, |tids|);
      if m < a {
        BelowAlternativeUsed(tids, m);
      }
      assert a >= m by {
        if m > 1 {
          assert m - 1 in tids;
          var i :| 0 <= i < |tids| && tids[i] == m - 1;
        }
      }
    } else if a !in tids {
      assert m <= a;
      forall i, j | 0 <= i < j < |tids| && tids[i] < m && tids[j] < m ensures tids[i] < tids[j] {
        MetInTurn(tids, i);
        MetInTurn(tids, j);
        AlternativeGrows(tids, i + 1, j);
        AlternativeStep(tids, i);
      }
    }
  }

  /** What alloc_tid returns; 0 is never a thread number. */
  function Chosen(tids: seq<nat>): nat {
    if Preferred(tids) <= MAX_TID then Preferred(tids) else if Alternative(tids) <= MAX_TID then Alternative(tids) else 0
  }

  /** alloc_tid returns no used number iff MAX_TID is not in use or the order is right. */
  lemma FreshTidIff(tids: seq<nat>, m: nat)
    requires Distinct(tids) && 0 !in tids && SmallestUnused(tids, m) && forall t :: t in tids ==> t <= MAX_TID
    ensures Chosen(tids) !in tids <==> MAX_TID !in tids || AscendingBelow(tids, m)
    ensures Chosen(tids) == 0 <==> m > MAX_TID && AscendingBelow(tids, m)
  {
    AlternativeUnusedIff(tids, m);
    if m <= MAX_TID && Alternative(tids) > MAX_TID {
      BelowAlternativeUsed(tids, m);
    }
    if m > MAX_TID {
      assert MAX_TID in tids;
    }
  }

  /** The condition under which alloc_tid can be trusted, on the numbers in table order. */
  ghost predicate Trustworthy(tids: seq<nat>) {
    MAX_TID !in tids || forall m :: SmallestUnused(tids, m) ==> AscendingBelow(tids, m)
  }

  lemma {:induction false} LeastUnused(tids: seq<nat>, k: nat) returns (m: nat)
    requires 1 <= k <= Preferred(tids) && forall v :: 1 <= v < k ==> v in tids
    ensures SmallestUnused(tids, m)
    decreases Preferred(tids) - k
  {
    if k in tids {
      m := LeastUnused(tids, k + 1);
    } else {
      m := k;
    }
  }

  lemma TrustworthyFresh(tids: seq<nat>)
    requires Distinct(tids) && 0 !in tids && Trustworthy(tids) && forall t :: t in tids ==> t <= MAX_TID
    ensures Chosen(tids) !in tids && Chosen(tids) <= MAX_TID
  {
    var m := LeastUnused(tids, 1);
    FreshTidIff(tids, m);
  }

  /** Two threads in the wrong order before the last number, and the fallback repeats one. */
  lemma TidReused()
    ensures var tids := [2, 1, MAX_TID]; Distinct(tids) && Preferred(tids) > MAX_TID && Alternative(tids) == 2 && 2 in tids
  {
    var tids := [2, 1, MAX_TID];
    assert tids[..2] == [2, 1] && [2, 1][..1] == [2] && [2][..0] == [];
    assert Alternative([2]) == 1;
    assert Alternative([2, 1]) == 2;
  }
}
