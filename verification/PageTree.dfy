/**
 Four-level page tables as a store from table address to 512 entries, the tree invariant
 that makes the store behave like a flat map, and the effect on that flat map of the only
 two writes the kernel performs: linking an empty table and setting a leaf entry.
 */
module PageTree {
  import opened Common
  import opened Division
  import opened PageEntry

  datatype Option<+T> = None | Some(value: T)

  type Memory = map<nat, seq<nat>>

  const BUFFER_SIZE: nat := 64   // PTAAB_SIZE

  /** The store after one entry was written. */
  function Put(mem: Memory, t: nat, i: nat, e: nat): Memory
    requires t in mem && i < |mem[t]|
  {
    var table: seq<nat> := mem[t][i := e];
    mem[t := table]
  }

  /** Where the walk along `path` ends: the address of the table found there, if any. */
  ghost function TableAt(mem: Memory, root: nat, path: seq<nat>): Option<nat> {
    if path == [] then Some(root)
    else
      match TableAt(mem, root, path[..|path| - 1])
      case None => None
      case Some(t) =>
        var i := path[|path| - 1];
        if t in mem && i < |mem[t]| && Present(mem[t][i]) then Some(ExtractPointer(mem[t][i])) else None
  }

  /** The flat view: the leaf entry of virtual page v, 0 where no table covers it. */
  ghost function Lookup(mem: Memory, root: nat, v: nat): nat {
    match TableAt(mem, root, Path(v))
    case None => 0
    case Some(t) => if t in mem && v % 512 < |mem[t]| then mem[t][v % 512] else 0
  }

  function Blank(): (table: seq<nat>)
    ensures |table| == 512 && forall i :: 0 <= i < 512 ==> table[i] == 0
  {
    seq(512, _ => 0)
  }

  /** Every table of the tree has one role, the path that leads to it. In particular no table
      is reached along two paths. */
  ghost predicate Tree(mem: Memory, root: nat, role: map<nat, seq<nat>>) {
    && root in role && role[root] == []
    && (forall t :: t in role ==> t in mem && |mem[t]| == 512 && |role[t]| <= 3 && (role[t] == [] ==> t == root))
    && forall t, i :: t in role && |role[t]| < 3 && 0 <= i < 512 && Present(mem[t][i]) ==>
         ExtractPointer(mem[t][i]) in role && role[ExtractPointer(mem[t][i])] == role[t] + [i]
  }

  ghost predicate Indices(path: seq<nat>) {
    |path| <= 3 && forall k :: 0 <= k < |path| ==> path[k] < 512
  }

  lemma PathIndices(v: nat)
    ensures Indices(Path(v))
  {}

  /** A walk ends at the table whose role is that walk. */
  lemma {:induction false} WalkRole(mem: Memory, root: nat, role: map<nat, seq<nat>>, path: seq<nat>)
    requires Tree(mem, root, role) && Indices(path) && TableAt(mem, root, path).Some?
    ensures TableAt(mem, root, path).value in role && role[TableAt(mem, root, path).value] == path
  {
    if path != [] {
      var pre := path[..|path| - 1];
      WalkRole(mem, root, role, pre);
      assert path == pre + [path[|path| - 1]];
    }
  }

  /** One step of a walk. */
  lemma TableStep(mem: Memory, root: nat, pre: seq<nat>, j: nat)
    ensures TableAt(mem, root, pre + [j]) ==
            match TableAt(mem, root, pre)
            case None => None
            case Some(u) => if u in mem && j < |mem[u]| && Present(mem[u][j]) then Some(ExtractPointer(mem[u][j])) else None
  {
    assert (pre + [j])[..|pre|] == pre;
  }

  lemma TreeTable(mem: Memory, root: nat, role: map<nat, seq<nat>>, t: nat)
    requires Tree(mem, root, role) && t in role
    ensures t in mem && |mem[t]| == 512
  {}

  /** What every walk finds after a blank table c is linked at entry i of table t. */
  ghost function Linked(mem: Memory, root: nat, role: map<nat, seq<nat>>, t: nat, i: nat, c: nat, path: seq<nat>): Option<nat>
    requires t in role
  {
    if TableAt(mem, root, path).Some? then TableAt(mem, root, path)
    else if TableAt(mem, root, role[t]) == Some(t) && path == role[t] + [i] then Some(c)
    else None
  }

  lemma {:induction false} LinkWalk(mem: Memory, root: nat, role: map<nat, seq<nat>>, t: nat, i: nat, c: nat, e: nat,
                                    path: seq<nat>)
    requires Tree(mem, root, role) && Indices(path)
    requires t in role && |role[t]| < 3 && i < 512 && !Present(mem[t][i])
    requires c !in role && c in mem && mem[c] == Blank() && Present(e) && ExtractPointer(e) == c
    ensures TableAt(Put(mem, t, i, e), root, path) == Linked(mem, root, role, t, i, c, path)
  {
    if path == [] {
      assert TableAt(mem, root, path) == Some(root);
    } else {
      var pre, j := path[..|path| - 1], path[|path| - 1];
      LinkWalk(mem, root, role, t, i, c, e, pre);
      LinkStep(mem, root, role, t, i, c, e, pre, j);
      assert path == pre + [j];
    }
  }

  lemma LinkStep(mem: Memory, root: nat, role: map<nat, seq<nat>>, t: nat, i: nat, c: nat, e: nat, pre: seq<nat>, j: nat)
    requires Tree(mem, root, role) && Indices(pre) && j < 512
    requires t in role && |role[t]| < 3 && i < 512 && !Present(mem[t][i])
    requires c !in role && c in mem && mem[c] == Blank() && Present(e) && ExtractPointer(e) == c
    requires TableAt(Put(mem, t, i, e), root, pre) == Linked(mem, root, role, t, i, c, pre)
    ensures TableAt(Put(mem, t, i, e), root, pre + [j]) == Linked(mem, root, role, t, i, c, pre + [j])
  {
    hide Tree, TableAt, Present, ExtractPointer, Blank, Linked, Put;
    if TableAt(mem, root, pre).Some? {
      LinkStepOn(mem, root, role, t, i, c, e, pre, j);
    } else {
      LinkStepOff(mem, root, role, t, i, c, e, pre, j);
    }
  }

  /** From a table that was there before. */
  lemma LinkStepOn(mem: Memory, root: nat, role: map<nat, seq<nat>>, t: nat, i: nat, c: nat, e: nat, pre: seq<nat>, j: nat)
    requires Tree(mem, root, role) && Indices(pre) && j < 512
    requires t in role && |role[t]| < 3 && i < 512 && !Present(mem[t][i])
    requires c !in role && c in mem && mem[c] == Blank() && Present(e) && ExtractPointer(e) == c
    requires TableAt(Put(mem, t, i, e), root, pre) == Linked(mem, root, role, t, i, c, pre)
    requires TableAt(mem, root, pre).Some?
    ensures TableAt(Put(mem, t, i, e), root, pre + [j]) == Linked(mem, root, role, t, i, c, pre + [j])
  {
    hide Tree, TableAt, Present, ExtractPointer, Blank;
    TreeTable(mem, root, role, t);
    TableStep(mem, root, pre, j);
    TableStep(Put(mem, t, i, e), root, pre, j);
    SameEnd(pre, j, role[t], i);
    WalkRole(mem, root, role, pre);
    TreeTable(mem, root, role, TableAt(mem, root, pre).value);
  }

  /** From the new table, which is blank, or from nowhere. */
  lemma LinkStepOff(mem: Memory, root: nat, role: map<nat, seq<nat>>, t: nat, i: nat, c: nat, e: nat, pre: seq<nat>, j: nat)
    requires Tree(mem, root, role) && Indices(pre) && j < 512
    requires t in role && |role[t]| < 3 && i < 512 && !Present(mem[t][i])
    requires c !in role && c in mem && mem[c] == Blank() && Present(e) && ExtractPointer(e) == c
    requires TableAt(Put(mem, t, i, e), root, pre) == Linked(mem, root, role, t, i, c, pre)
    requires TableAt(mem, root, pre).None?
    ensures TableAt(Put(mem, t, i, e), root, pre + [j]) == Linked(mem, root, role, t, i, c, pre + [j])
  {
    assert !Present(0);
    hide Tree, TableAt, Present, ExtractPointer, Blank;
    TreeTable(mem, root, role, t);
    TableStep(mem, root, pre, j);
    TableStep(Put(mem, t, i, e), root, pre, j);
    SameEnd(pre, j, role[t], i);
  }

  lemma SameEnd(p: seq<nat>, j: nat, q: seq<nat>, i: nat)
    ensures p + [j] == q + [i] <==> p == q && j == i
    ensures p == q + [i] ==> p + [j] != q + [i]
  {
    if p + [j] == q + [i] {
      assert (p + [j])[|p|] == j && (p + [j])[..|p|] == p;
      assert (q + [i])[|q|] == i && (q + [i])[..|q|] == q;
    }
    if p == q + [i] {
      assert |p + [j]| == |q + [i]| + 1;
    }
  }

  lemma LinkTree(mem: Memory, root: nat, role: map<nat, seq<nat>>, t: nat, i: nat, c: nat, e: nat)
    requires Tree(mem, root, role)
    requires t in role && |role[t]| < 3 && i < 512 && !Present(mem[t][i])
    requires c !in role && c in mem && mem[c] == Blank() && Present(e) && ExtractPointer(e) == c
    ensures Tree(Put(mem, t, i, e), root, role[c := role[t] + [i]])
  {
    assert !Present(0);
  }

  /** Linking a blank table changes nothing in the flat view. */
  lemma LinkLookup(mem: Memory, root: nat, role: map<nat, seq<nat>>, t: nat, i: nat, c: nat, e: nat, v: nat)
    requires Tree(mem, root, role)
    requires t in role && |role[t]| < 3 && i < 512 && !Present(mem[t][i])
    requires c !in role && c in mem && mem[c] == Blank() && Present(e) && ExtractPointer(e) == c
    ensures Lookup(Put(mem, t, i, e), root, v) == Lookup(mem, root, v)
  {
    LinkWalk(mem, root, role, t, i, c, e, Path(v));
    if TableAt(mem, root, Path(v)).Some? {
      WalkRole(mem, root, role, Path(v));
    }
  }

  /** Writing into a last-level table moves no walk. */
  lemma {:induction false} LeafWalk(mem: Memory, root: nat, role: map<nat, seq<nat>>, t: nat, i: nat, e: nat, path: seq<nat>)
    requires Tree(mem, root, role) && Indices(path)
    requires t in role && |role[t]| == 3 && i < 512
    ensures TableAt(Put(mem, t, i, e), root, path) == TableAt(mem, root, path)
  {
    if path != [] {
      var pre := path[..|path| - 1];
      LeafWalk(mem, root, role, t, i, e, pre);
      if TableAt(mem, root, pre).Some? {
        WalkRole(mem, root, role, pre);
      }
    }
  }

  /** Setting the leaf entry of page v is a point update of the flat view. */
  lemma LeafLookup(mem: Memory, root: nat, role: map<nat, seq<nat>>, v: nat, t: nat, e: nat, w: nat)
    requires Tree(mem, root, role) && v < PAGES && w < PAGES
    requires TableAt(mem, root, Path(v)) == Some(t)
    ensures t in role && |mem[t]| == 512
    ensures var mem' := Put(mem, t, v % 512, e);
            && Tree(mem', root, role)
            && Lookup(mem', root, w) == if w == v then e else Lookup(mem, root, w)
  {
    WalkRole(mem, root, role, Path(v));
    LeafWalk(mem, root, role, t, v % 512, e, Path(w));
    if TableAt(mem, root, Path(w)) == Some(t) && w % 512 == v % 512 {
      WalkRole(mem, root, role, Path(w));
      PathInjective(v, w);
    }
  }

  /** A table found along a path was reached through a table at every prefix. */
  lemma {:induction false} PrefixWalk(mem: Memory, root: nat, path: seq<nat>, n: nat)
    requires TableAt(mem, root, path).Some? && n <= |path|
    ensures TableAt(mem, root, path[..n]).Some?
  {
    if n < |path| {
      PrefixWalk(mem, root, path[..|path| - 1], n);
      assert path[..|path| - 1][..n] == path[..n];
    } else {
      assert path[..n] == path;
    }
  }

  // ---- counting missing tables -------------------------------------------------------

  /** Tables that must be allocated before page v has a leaf entry. */
  ghost function Missing(mem: Memory, root: nat, v: nat): nat {
    if TableAt(mem, root, Path(v)[..1]).None? then 3
    else if TableAt(mem, root, Path(v)[..2]).None? then 2
    else if TableAt(mem, root, Path(v)).None? then 1
    else 0
  }

  /** Table boundaries entered when stepping onto page x from its predecessor. */
  function Boundaries(x: nat): nat {
    (if x % 512 == 0 then 1 else 0) + (if x % 0x4_0000 == 0 then 1 else 0) + (if x % 0x800_0000 == 0 then 1 else 0)
  }

  /** Boundaries crossed inside the n pages from x. */
  function Crossings(x: nat, n: nat): nat {
    if n <= 1 then 0 else Crossings(x, n - 1) + Boundaries(x + n - 1)
  }

  function Next(v: nat): nat { (v + 1) % PAGES }

  lemma SamePath(u: nat)
    requires u < PAGES
    ensures Next(u) % 512 != 0 ==> Path(Next(u)) == Path(u)
    ensures Next(u) % 0x4_0000 != 0 ==> Path(Next(u))[..2] == Path(u)[..2]
    ensures Next(u) % 0x800_0000 != 0 ==> Path(Next(u))[..1] == Path(u)[..1]
  {
    var v := Next(u);
    if v != 0 {
      assert v == u + 1;
      DivMod(u, 512, 512, 0x4_0000);
      DivMod(v, 512, 512, 0x4_0000);
      DivMod(u, 0x4_0000, 512, 0x800_0000);
      DivMod(v, 0x4_0000, 512, 0x800_0000);
      assert v % 512 != 0 ==> v / 512 == u / 512;
      assert v % 0x4_0000 != 0 ==> v / 0x4_0000 == u / 0x4_0000;
      assert v % 0x800_0000 != 0 ==> v / 0x800_0000 == u / 0x800_0000;
    }
  }

  lemma BoundariesWrap(x: nat)
    ensures Boundaries(x % PAGES) == Boundaries(x)
  {
    DivMod(x, 512, 0x800_0000, PAGES);
    DivMod(x, 0x4_0000, 0x4_0000, PAGES);
    DivMod(x, 0x800_0000, 512, PAGES);
  }

  /** Boundaries of one table size, in closed form. */
  lemma {:induction false} CrossingsClosed(x: nat, n: nat)
    requires n >= 1
    ensures Crossings(x, n) ==
            ((x + n - 1) / 512 - x / 512) + ((x + n - 1) / 0x4_0000 - x / 0x4_0000) + ((x + n - 1) / 0x800_0000 - x / 0x800_0000)
  {
    if n > 1 {
      CrossingsClosed(x, n - 1);
      var y := x + n - 1;
      DivStep(y, 512);
      DivStep(y, 0x4_0000);
      DivStep(y, 0x800_0000);
    }
  }

  lemma DivStep(y: nat, m: nat)
    requires y > 0 && m > 0
    ensures y / m == (y - 1) / m + if y % m == 0 then 1 else 0
  {
    var q, r := y / m, y % m;
    if r == 0 {
      assert q >= 1 by { Grow(m, q); }
      assert y - 1 == m * (q - 1) + (m - 1);
      Unique(y - 1, m, q - 1, m - 1);
    } else {
      Unique(y - 1, m, q, r - 1);
    }
  }

  /** At most k boundaries of size m lie inside k * m pages. */
  lemma Span(x: nat, n: nat, m: nat, k: nat)
    requires m > 0 && 1 <= n <= k * m
    ensures (x + n - 1) / m <= x / m + k
  {
    var q, r, y := x / m, x % m, x + n - 1;
    var d := y / m - (q + k + 1);
    assert m * (q + k + 1) == m * q + k * m + m;
    assert y < m * (q + k + 1);
    assert m * d == m * (y / m) - m * (q + k + 1);
    Grow(m, d);
  }

  /** A bulk of at most 4096 pages needs at most 9 + 2 + 2 tables whatever exists already;
      64 pages need at most 6. */
  lemma BulkBound(x: nat, n: nat)
    ensures n <= 4096 ==> 3 + Crossings(x, n) <= 13
    ensures n <= 64 ==> 3 + Crossings(x, n) <= 6
  {
    if 1 <= n <= 4096 {
      CrossingsClosed(x, n);
      Span(x, n, 512, 8);
      Span(x, n, 0x4_0000, 1);
      Span(x, n, 0x800_0000, 1);
      if n <= 64 {
        Span(x, n, 512, 1);
      }
    }
  }

  /** The bound of 13 is reached, by a bulk that starts on the last page of a 512 GB region. */
  lemma BulkBoundTight()
    ensures 3 + Crossings(0x7ff_ffff, 4096) == 13
  {
    CrossingsClosed(0x7ff_ffff, 4096);
  }
}
