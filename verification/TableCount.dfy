/**
 How many tables a run of pages costs: exactly, as a function of the walks that already end
 at a table, and its bounds.
 */
module TableCount {
  import opened Common
  import opened Division
  import opened PageEntry
  import opened PageTree

  /** Page x + k, wrapping at the end of the 48-bit address space. */
  function PageOf(x: nat, k: nat): (v: nat)
    ensures v < PAGES
  {
    (x + k) % PAGES
  }

  lemma PageNext(x: nat, k: nat)
    ensures PageOf(x, k + 1) == Next(PageOf(x, k))
  {
    var v, q := PageOf(x, k), (x + k) / PAGES;
    if v + 1 < PAGES {
      Unique(x + k + 1, PAGES, q, v + 1);
    } else {
      Unique(x + k + 1, PAGES, q + 1, 0);
    }
  }

  /** The walks that end at a table. */
  ghost function Reached(mem: Memory, root: nat): iset<seq<nat>> {
    iset q | Indices(q) && TableAt(mem, root, q).Some?
  }

  /** Tables that page v still lacks when the walks in `open` end at one. */
  ghost function NewFor(open: iset<seq<nat>>, v: nat): nat {
    if Path(v)[..1] !in open then 3 else if Path(v)[..2] !in open then 2 else if Path(v) !in open then 1 else 0
  }

  ghost function WithPage(open: iset<seq<nat>>, v: nat): iset<seq<nat>> {
    open + iset{Path(v)[..1], Path(v)[..2], Path(v)}
  }

  /** The walks that end at a table once the n pages from x have theirs. */
  ghost function WithRun(open: iset<seq<nat>>, x: nat, n: nat): iset<seq<nat>> {
    if n == 0 then open else WithPage(WithRun(open, x, n - 1), PageOf(x, n - 1))
  }

  /** The tables that the n pages from x need. */
  ghost function Needed(open: iset<seq<nat>>, x: nat, n: nat): nat {
    if n == 0 then 0 else Needed(open, x, n - 1) + NewFor(WithRun(open, x, n - 1), PageOf(x, n - 1))
  }

  /** Every prefix of a walk that ends at a table ends at one too. */
  ghost predicate Covers(open: iset<seq<nat>>, v: nat) {
    Path(v)[..1] in open && Path(v)[..2] in open && Path(v) in open
  }

  lemma MissingIsNew(mem: Memory, root: nat, v: nat)
    ensures Missing(mem, root, v) == NewFor(Reached(mem, root), v)
  {
    PathIndices(v);
  }

  lemma ReachedCovers(mem: Memory, root: nat, v: nat)
    requires TableAt(mem, root, Path(v)).Some?
    ensures Covers(Reached(mem, root), v)
  {
    PathIndices(v);
    PrefixWalk(mem, root, Path(v), 1);
    PrefixWalk(mem, root, Path(v), 2);
  }

  /** A page whose tables exist costs nothing and changes nothing. */
  lemma CoveredPage(open: iset<seq<nat>>, v: nat)
    requires Covers(open, v)
    ensures NewFor(open, v) == 0 && WithPage(open, v) == open
  {}

  /** Pages whose tables exist already, at the end of a run. */
  lemma {:induction false} CoveredTail(open: iset<seq<nat>>, x: nat, k: nat, n: nat)
    requires k <= n && forall j: nat :: k <= j < n ==> Covers(WithRun(open, x, k), PageOf(x, j))
    ensures WithRun(open, x, n) == WithRun(open, x, k) && Needed(open, x, n) == Needed(open, x, k)
    decreases n
  {
    hide Path, PageOf;
    if k < n {
      CoveredTail(open, x, k, n - 1);
      assert Covers(WithRun(open, x, k), PageOf(x, n - 1));
      CoveredPage(WithRun(open, x, k), PageOf(x, n - 1));
    }
  }

  lemma {:induction false} NeededMonotone(open: iset<seq<nat>>, x: nat, k: nat, n: nat)
    requires k <= n
    ensures Needed(open, x, k) <= Needed(open, x, n)
    decreases n
  {
    if k < n {
      NeededMonotone(open, x, k, n - 1);
    }
  }

  lemma PageShift(x: nat, k: nat, j: nat)
    ensures PageOf(x, k + j) == PageOf(x + k, j)
  {}

  /** A run is a run followed by a run. */
  lemma {:induction false} NeededSplit(open: iset<seq<nat>>, x: nat, k: nat, n: nat)
    ensures WithRun(open, x, k + n) == WithRun(WithRun(open, x, k), x + k, n)
    ensures Needed(open, x, k + n) == Needed(open, x, k) + Needed(WithRun(open, x, k), x + k, n)
    decreases n
  {
    hide WithPage, NewFor, PageOf;
    if n == 0 {
      assert WithRun(WithRun(open, x, k), x + k, 0) == WithRun(open, x, k);
    } else {
      NeededSplit(open, x, k, n - 1);
      PageShift(x, k, n - 1);
      var mid := WithRun(open, x, k);
      assert WithRun(open, x, k + n) == WithPage(WithRun(open, x, k + n - 1), PageOf(x, k + n - 1));
      assert WithRun(mid, x + k, n) == WithPage(WithRun(mid, x + k, n - 1), PageOf(x + k, n - 1));
    }
  }

  // ---- bounds -----------------------------------------------------------------------------

  lemma NextNew(open: iset<seq<nat>>, u: nat)
    requires u < PAGES && Covers(open, u)
    ensures NewFor(open, Next(u)) <= Boundaries(Next(u))
  {
    hide Path, Next;
    SamePath(u);
    DivMod(Next(u), 512, 512, 0x4_0000);
    DivMod(Next(u), 0x4_0000, 512, 0x800_0000);
  }

  lemma {:induction false} NeededBound(open: iset<seq<nat>>, x: nat, n: nat)
    requires n >= 1
    ensures Needed(open, x, n) <= NewFor(open, PageOf(x, 0)) + Crossings(x, n)
    decreases n
  {
    hide Path, PageOf, Boundaries;
    if n == 1 {
      assert Needed(open, x, 0) == 0 && WithRun(open, x, 0) == open;
    } else {
      NeededBound(open, x, n - 1);
      NextNew(WithRun(open, x, n - 1), PageOf(x, n - 2));
      PageNext(x, n - 2);
      BoundariesWrap(x + n - 1);
      PageIs(x, n - 1);
    }
  }

  lemma PageIs(x: nat, k: nat)
    ensures PageOf(x, k) == (x + k) % PAGES
  {}

  /** No run of 4096 pages needs more than 13 tables, and no run of 64 more than 6. */
  lemma RunBound(open: iset<seq<nat>>, x: nat, n: nat)
    ensures n <= 4096 ==> Needed(open, x, n) <= 13
    ensures n <= 64 ==> Needed(open, x, n) <= 6
  {
    hide Path, PageOf, Crossings;
    if n >= 1 {
      NeededBound(open, x, n);
      BulkBound(x, n);
    }
  }

  // ---- the bound is reached ---------------------------------------------------------------

  /** Only the root is a table. */
  ghost const EMPTY: iset<seq<nat>> := iset{[]}

  lemma SamePrefix(v: nat, w: nat)
    requires v < PAGES && w < PAGES
    ensures Path(v)[..1] == Path(w)[..1] ==> v / 0x800_0000 == w / 0x800_0000
    ensures Path(v)[..2] == Path(w)[..2] ==> v / 0x4_0000 == w / 0x4_0000
    ensures Path(v) == Path(w) ==> v / 512 == w / 512
  {
    var p, q := Path(v), Path(w);
    DivMod(v, 512, 512, 0x4_0000);
    DivMod(v, 0x4_0000, 512, 0x800_0000);
    DivMod(w, 512, 512, 0x4_0000);
    DivMod(w, 0x4_0000, 512, 0x800_0000);
    assert p[..1] == q[..1] ==> p[..1][0] == q[..1][0];
    assert p[..2] == q[..2] ==> p[..2][0] == q[..2][0] && p[..2][1] == q[..2][1];
    assert p == q ==> p[..2] == q[..2] && p[2] == q[2];
  }

  lemma Sooner(a: nat, y: nat)
    requires a < y
    ensures y % 0x800_0000 == 0 ==> a / 0x800_0000 < y / 0x800_0000
    ensures y % 0x4_0000 == 0 ==> a / 0x4_0000 < y / 0x4_0000
    ensures y % 512 == 0 ==> a / 512 < y / 512
  {}

  /** A page that begins a table, region or half has no walk in common with an earlier page. */
  lemma Starts(a: nat, y: nat)
    requires a < y < PAGES
    ensures y % 0x800_0000 == 0 ==> Path(y)[..1] != Path(a)[..1]
    ensures y % 0x4_0000 == 0 ==> Path(y)[..2] != Path(a)[..2]
    ensures y % 512 == 0 ==> Path(y) != Path(a)
  {
    hide Path;
    SamePrefix(a, y);
    Sooner(a, y);
  }

  lemma InWithPage(open: iset<seq<nat>>, v: nat, y: nat)
    ensures Path(y)[..1] in WithPage(open, v) <==> Path(y)[..1] in open || Path(y)[..1] == Path(v)[..1]
    ensures Path(y)[..2] in WithPage(open, v) <==> Path(y)[..2] in open || Path(y)[..2] == Path(v)[..2]
    ensures Path(y) in WithPage(open, v) <==> Path(y) in open || Path(y) == Path(v)
  {
    hide Path;
  }

  /** So it meets no earlier page of the run there. */
  lemma {:induction false} NotBefore(x: nat, k: nat, y: nat)
    requires x + k <= y < PAGES
    ensures y % 0x800_0000 == 0 ==> Path(y)[..1] !in WithRun(EMPTY, x, k)
    ensures y % 0x4_0000 == 0 ==> Path(y)[..2] !in WithRun(EMPTY, x, k)
    ensures y % 512 == 0 ==> Path(y) !in WithRun(EMPTY, x, k)
    decreases k
  {
    hide Path, WithPage, PageOf;
    if k == 0 {
      assert WithRun(EMPTY, x, 0) == EMPTY;
    } else {
      var a := x + k - 1;
      NotBefore(x, k - 1, y);
      PageIs(x, k - 1);
      Starts(a, y);
      InWithPage(WithRun(EMPTY, x, k - 1), a, y);
    }
  }

  /** Each further page costs one table per boundary it enters. */
  lemma EmptyStep(x: nat, k: nat)
    requires k >= 1 && x + k < PAGES
    ensures PageOf(x, k) == x + k && NewFor(WithRun(EMPTY, x, k), x + k) == Boundaries(x + k)
  {
    hide Path, WithRun, PageOf, Next;
    var y, open := x + k, WithRun(EMPTY, x, k);
    PageSmall(x, k);
    RunCovers(EMPTY, x, k);
    NotBefore(x, k, y);
    SamePath(y - 1);
    Nested(y);
  }

  lemma PageSmall(x: nat, k: nat)
    requires k >= 1 && x + k < PAGES
    ensures PageOf(x, k) == x + k && PageOf(x, k - 1) == x + k - 1 && Next(x + k - 1) == x + k
  {}

  lemma RunCovers(open: iset<seq<nat>>, x: nat, k: nat)
    requires k >= 1
    ensures Covers(WithRun(open, x, k), PageOf(x, k - 1))
  {
    hide Path, PageOf;
  }

  lemma Nested(y: nat)
    ensures y % 0x800_0000 == 0 ==> y % 0x4_0000 == 0
    ensures y % 0x4_0000 == 0 ==> y % 512 == 0
  {
    DivMod(y, 512, 512, 0x4_0000);
    DivMod(y, 0x4_0000, 512, 0x800_0000);
  }

  /** Over an empty tree, a run that does not wrap needs three tables and one per boundary. */
  lemma {:induction false} EmptyNeeds(x: nat, n: nat)
    requires n >= 1 && x + n <= PAGES
    ensures Needed(EMPTY, x, n) == 3 + Crossings(x, n)
    decreases n
  {
    hide Path, PageOf, Boundaries;
    if n == 1 {
      assert Needed(EMPTY, x, 0) == 0 && WithRun(EMPTY, x, 0) == EMPTY;
    } else {
      EmptyNeeds(x, n - 1);
      EmptyStep(x, n - 1);
    }
  }

  /** The bound of 13 is reached, on an empty tree, from the last page of a 512 GB region. */
  lemma ThirteenNeeded()
    ensures Needed(EMPTY, 0x7ff_ffff, 4096) == 13
  {
    EmptyNeeds(0x7ff_ffff, 4096);
    BulkBoundTight();
  }
}
