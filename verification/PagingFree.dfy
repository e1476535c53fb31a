/**
 deep_free_map: the recursive release of a page-table subtree.
 */
module PagingFree {
  import opened Common
  import opened PageEntry
  import opened PageTree

  /** The shape of a subtree: a table and the children its present entries point to, in entry
      order. At level 0 a node is a mapped frame. */
  datatype Node = Node(addr: nat, kids: seq<Node>)

  /** The store holds subtree t, t.addr being a structure of the given level (4: pml4 .. 1: pt). */
  ghost predicate Holds(mem: Memory, t: Node, level: nat)
    decreases level, 0, 0
  {
    if level == 0 then t.kids == []
    else t.addr in mem && |mem[t.addr]| == 512 && HoldsFrom(mem, mem[t.addr], 0, t.kids, level - 1)
  }

  /** The present entries from index i on point to `kids`, in order. */
  ghost predicate HoldsFrom(mem: Memory, entries: seq<nat>, i: nat, kids: seq<Node>, level: nat)
    requires i <= |entries|
    decreases level, 1, |entries| - i
  {
    if i == |entries| then kids == []
    else if Present(entries[i]) then
      && kids != [] && kids[0].addr == ExtractPointer(entries[i]) && Holds(mem, kids[0], level)
      && HoldsFrom(mem, entries, i + 1, kids[1..], level)
    else HoldsFrom(mem, entries, i + 1, kids, level)
  }

  /** Every table of the subtree, children before parents. */
  ghost function Tables(t: Node, level: nat): seq<nat>
    decreases level, 0, 0
  {
    if level == 0 then [] else TablesOf(t.kids, level - 1) + [t.addr]
  }

  ghost function TablesOf(kids: seq<Node>, level: nat): seq<nat>
    decreases level, 1, |kids|
  {
    if kids == [] then [] else Tables(kids[0], level) + TablesOf(kids[1..], level)
  }

  /** Every frame the subtree maps, in entry order. */
  ghost function Frames(t: Node, level: nat): seq<nat>
    decreases level, 0, 0
  {
    if level == 0 then [t.addr] else FramesOf(t.kids, level - 1)
  }

  ghost function FramesOf(kids: seq<Node>, level: nat): seq<nat>
    decreases level, 1, |kids|
  {
    if kids == [] then [] else Frames(kids[0], level) + FramesOf(kids[1..], level)
  }

  /** The two stores agree on the given pages. */
  ghost predicate AgreeOn(mem: Memory, mem': Memory, pages: seq<nat>) {
    forall a :: a in pages && a in mem ==> a in mem' && mem'[a] == mem[a]
  }

  /** The two stores agree everywhere else. */
  ghost predicate AgreeOff(mem: Memory, mem': Memory, pages: seq<nat>) {
    forall a :: a !in pages ==> (a in mem <==> a in mem') && (a in mem ==> mem'[a] == mem[a])
  }

  lemma {:induction false} HoldsAgree(mem: Memory, mem': Memory, t: Node, level: nat)
    requires Holds(mem, t, level) && AgreeOn(mem, mem', Tables(t, level))
    ensures Holds(mem', t, level)
    decreases level, 0, 0
  {
    if level > 0 {
      assert Tables(t, level)[|Tables(t, level)| - 1] == t.addr;
      HoldsFromAgree(mem, mem', mem[t.addr], mem[t.addr], 0, t.kids, level - 1);
    }
  }

  lemma {:induction false} HoldsFromAgree(mem: Memory, mem': Memory, entries: seq<nat>, entries': seq<nat>, i: nat,
                                          kids: seq<Node>, level: nat)
    requires i <= |entries| == |entries'| && entries[i..] == entries'[i..]
    requires HoldsFrom(mem, entries, i, kids, level) && AgreeOn(mem, mem', TablesOf(kids, level))
    ensures HoldsFrom(mem', entries', i, kids, level)
    decreases level, 1, |entries| - i
  {
    if i < |entries| {
      assert entries[i] == entries[i..][0] == entries'[i..][0] == entries'[i];
      assert entries[i + 1..] == entries[i..][1..] == entries'[i + 1..];
      if Present(entries[i]) {
        assert TablesOf(kids, level) == Tables(kids[0], level) + TablesOf(kids[1..], level);
        HoldsAgree(mem, mem', kids[0], level);
        HoldsFromAgree(mem, mem', entries, entries', i + 1, kids[1..], level);
      } else {
        HoldsFromAgree(mem, mem', entries, entries', i + 1, kids, level);
      }
    }
  }

  /** Each of these pages is there with 512 zero entries. */
  ghost predicate Blanked(mem: Memory, pages: seq<nat>) {
    forall a :: a in pages ==> a in mem && |mem[a]| == 512 && forall i :: 0 <= i < 512 ==> mem[a][i] == 0
  }

  class Reclaimer {
    var mem: Memory
    var buffer: seq<nat>
    var freedTables: seq<nat>
    var freedFrames: seq<nat>

    /** free_page_table: blank the page into the buffer, or hand it back when the buffer is full. */
    method FreePageTable(pt: nat)
      requires |buffer| <= BUFFER_SIZE
      modifies this`mem, this`buffer, this`freedTables
      ensures |buffer| <= BUFFER_SIZE && AgreeOff(old(mem), mem, [pt])
      ensures Returned(old(buffer), old(freedTables), [pt], buffer, freedTables)
      ensures old(buffer) <= buffer && Blanked(mem, buffer[|old(buffer)|..])
    {
      if |buffer| == BUFFER_SIZE {
        freedTables := freedTables + [pt];
      } else {
        mem := mem[pt := Blank()];
        buffer := buffer + [pt];
      }
    }

    /** deep_free_map. Each table of the subtree is returned exactly once, children first; each
        mapped frame is freed exactly once when pfree is set; the rest of memory is untouched. */
    method DeepFreeMap(table: nat, level: nat, pfree: bool, ghost t: Node)
      requires |buffer| <= BUFFER_SIZE
      requires t.addr == table && Holds(mem, t, level) && Distinct(Tables(t, level))
      modifies this`mem, this`buffer, this`freedTables, this`freedFrames
      ensures |buffer| <= BUFFER_SIZE && AgreeOff(old(mem), mem, Tables(t, level))
      ensures Returned(old(buffer), old(freedTables), Tables(t, level), buffer, freedTables)
      ensures old(buffer) <= buffer && Blanked(mem, buffer[|old(buffer)|..])
      ensures Blanked(old(mem), old(buffer)) && (forall a :: a in old(buffer) ==> a !in Tables(t, level)) ==> Blanked(mem, buffer)
      ensures freedFrames == old(freedFrames) + if pfree then Frames(t, level) else []
      decreases level
    {
      hide Holds, HoldsFrom, TablesOf, FramesOf, Returned, AgreeOff, Distinct, Blanked;
      NothingReturned(buffer, freedTables);
      NothingBlanked(mem, buffer);
      Untouched(mem, []);
      if level == 0 {
        if pfree {
          freedFrames := freedFrames + [table];
        }
        AllBlanked(mem, buffer, mem, buffer, []);
        return;
      }
      ghost var all := TablesOf(t.kids, level - 1);
      UnfoldRoot(mem, t, level);
      Untouched(mem, all + [table]);
      if level != 1 || pfree {
        FreeChildren(table, level, pfree, t);
      } else {
        NoTables(t.kids);
      }
      ghost var b1, f1, m1 := buffer, freedTables, mem;
      NotAmong(all, table);
      FreePageTable(table);
      ReturnedJoin(old(buffer), old(freedTables), all, b1, f1, [table], buffer, freedTables);
      ReturnedAmong(old(buffer), old(freedTables), all, b1, f1);
      BlankedJoin(old(buffer), m1, b1, mem, buffer, [table]);
      assert (all + [table])[|all|] == table;
      AgreeStep(old(mem), m1, mem, [table], all + [table]);
      AllBlanked(old(mem), old(buffer), mem, buffer, Tables(t, level));
    }

    /** The loop of deep_free_map over the 512 entries of one table. */
    method FreeChildren(table: nat, level: nat, pfree: bool, ghost t: Node)
      requires |buffer| <= BUFFER_SIZE && level > 0 && (level != 1 || pfree)
      requires t.addr == table && Holds(mem, t, level) && Distinct(Tables(t, level))
      modifies this`mem, this`buffer, this`freedTables, this`freedFrames
      ensures |buffer| <= BUFFER_SIZE && AgreeOff(old(mem), mem, Tables(t, level))
      ensures Returned(old(buffer), old(freedTables), TablesOf(t.kids, level - 1), buffer, freedTables)
      ensures old(buffer) <= buffer && Blanked(mem, buffer[|old(buffer)|..])
      ensures freedFrames == old(freedFrames) + if pfree then FramesOf(t.kids, level - 1) else []
      ensures table in mem && |mem[table]| == 512 && Cleared(mem[table], 512)
      decreases level, 2
    {
      hide Holds, HoldsFrom, Tables, TablesOf, Frames, FramesOf, Returned, AgreeOff, Distinct, ExtractPointer, Blanked, Present, Cleared;
      ghost var all := TablesOf(t.kids, level - 1);
      UnfoldRoot(mem, t, level);
      NotAmong(all, table);
      ghost var rest, done: seq<nat>, frames: seq<nat> := t.kids, [], [];
      NothingReturned(buffer, freedTables);
      Untouched(mem, all + [table]);
      NothingBlanked(mem, buffer);
      NoneCleared(mem[table]);
      assert [] + all == all;
      var i: nat := 0;
      ghost var below: nat := level - 1;
      while i < 512
        invariant 0 <= i <= 512 && |buffer| <= BUFFER_SIZE
        invariant table in mem && |mem[table]| == 512 && Cleared(mem[table], i)
        invariant HoldsFrom(mem, mem[table], i, rest, below)
        invariant all == done + TablesOf(rest, below)
        invariant pfree ==> FramesOf(t.kids, below) == frames + FramesOf(rest, below)
        invariant AgreeOff(old(mem), mem, all + [table])
        invariant Returned(old(buffer), old(freedTables), done, buffer, freedTables)
        invariant freedFrames == old(freedFrames) + if pfree then frames else []
        invariant old(buffer) <= buffer && Blanked(mem, buffer[|old(buffer)|..])
      {
        Unfold(mem, mem[table], i, rest, below);
        if Present(mem[table][i]) {
          ghost var m1, b1, f1 := mem, buffer, freedTables;
          ghost var own, tail := Tables(rest[0], below), TablesOf(rest[1..], below);
          SplitDistinct(done, own, tail, table);
          ReleaseEntry(table, i, level, pfree, rest);
          ReturnedJoin(old(buffer), old(freedTables), done, b1, f1, own, buffer, freedTables);
          BlankedNext(old(buffer), old(freedTables), done, m1, b1, f1, mem, buffer, own, table);
          Within(done, own, tail, table);
          AgreeStep(old(mem), m1, mem, own + [table], all + [table]);
          Assoc(done, own, tail);
          done := done + own;
          if pfree {
            Assoc(frames, Frames(rest[0], below), FramesOf(rest[1..], below));
            Assoc(old(freedFrames), frames, Frames(rest[0], below));
            frames := frames + Frames(rest[0], below);
          }
          rest := rest[1..];
          ClearedMore(m1[table], mem[table], i);
          assert HoldsFrom(mem, mem[table], i + 1, rest, below);
        } else {
          ClearedMore(mem[table], mem[table], i);
          assert HoldsFrom(mem, mem[table], i + 1, rest, below);
        }
        i := i + 1;
      }
      Unfold(mem, mem[table], i, rest, below);
      assert done == all;
      assert frames + [] == frames;
    }

    /** Releases what one present entry points to, then clears the entry. */
    method ReleaseEntry(table: nat, i: nat, level: nat, pfree: bool, ghost rest: seq<Node>)
      requires |buffer| <= BUFFER_SIZE && level > 0 && (level != 1 || pfree) && rest != []
      requires table in mem && |mem[table]| == 512 && i < 512 && Present(mem[table][i])
      requires HoldsFrom(mem, mem[table], i, rest, level - 1)
      requires var own, tail := Tables(rest[0], level - 1), TablesOf(rest[1..], level - 1);
               Distinct(own) && table !in own && table !in tail && forall x :: x in own ==> x !in tail
      modifies this`mem, this`buffer, this`freedTables, this`freedFrames
      ensures |buffer| <= BUFFER_SIZE && table in mem && mem[table] == old(mem)[table][i := 0]
      ensures HoldsFrom(mem, mem[table], i + 1, rest[1..], level - 1)
      ensures AgreeOff(old(mem), mem, Tables(rest[0], level - 1) + [table])
      ensures Returned(old(buffer), old(freedTables), Tables(rest[0], level - 1), buffer, freedTables)
      ensures old(buffer) <= buffer && Blanked(mem, buffer[|old(buffer)|..])
      ensures freedFrames == old(freedFrames) + if pfree then Frames(rest[0], level - 1) else []
      decreases level, 1
    {
      hide Holds, HoldsFrom, Tables, TablesOf, Frames, FramesOf, Returned, Distinct, AgreeOff, ExtractPointer, Blanked;
      ghost var own, tail := Tables(rest[0], level - 1), TablesOf(rest[1..], level - 1);
      Unfold(mem, mem[table], i, rest, level - 1);
      var child := ExtractPointer(mem[table][i]);
      FreeChild(child, level, pfree, rest[0]);
      ClearEntry(old(mem), mem, table, i, rest[1..], level - 1, own, tail);
      var row: seq<nat> := mem[table][i := 0];
      AgreeWrite(old(mem), mem, own, table, row);
      ReturnedAmong(old(buffer), old(freedTables), own, buffer, freedTables);
      BlankedApart(mem, buffer[|old(buffer)|..], table, row);
      mem := mem[table := row];
    }

    /** One present entry: a frame is freed on the spot, a table recursively. */
    method FreeChild(child: nat, level: nat, pfree: bool, ghost kid: Node)
      requires |buffer| <= BUFFER_SIZE && level > 0 && (level != 1 || pfree)
      requires kid.addr == child && Holds(mem, kid, level - 1) && Distinct(Tables(kid, level - 1))
      modifies this`mem, this`buffer, this`freedTables, this`freedFrames
      ensures |buffer| <= BUFFER_SIZE && AgreeOff(old(mem), mem, Tables(kid, level - 1))
      ensures Returned(old(buffer), old(freedTables), Tables(kid, level - 1), buffer, freedTables)
      ensures old(buffer) <= buffer && Blanked(mem, buffer[|old(buffer)|..])
      ensures freedFrames == old(freedFrames) + if pfree then Frames(kid, level - 1) else []
      decreases level, 0
    {
      if level == 1 {
        NothingReturned(buffer, freedTables);
        NothingBlanked(mem, buffer);
        freedFrames := freedFrames + [child];
      } else {
        DeepFreeMap(child, level - 1, pfree, kid);
      }
    }
  }

  lemma Untouched(mem: Memory, pages: seq<nat>)
    ensures AgreeOff(mem, mem, pages)
  {}

  lemma AgreeStep(m0: Memory, m1: Memory, m2: Memory, own: seq<nat>, pages: seq<nat>)
    requires AgreeOff(m0, m1, pages) && AgreeOff(m1, m2, own) && forall x :: x in own ==> x in pages
    ensures AgreeOff(m0, m2, pages)
  {}

  lemma AgreeWrite(m1: Memory, m2: Memory, own: seq<nat>, table: nat, row: seq<nat>)
    requires AgreeOff(m1, m2, own) && table in m2
    ensures AgreeOff(m1, m2[table := row], own + [table])
  {}

  lemma Within(done: seq<nat>, own: seq<nat>, tail: seq<nat>, a: nat)
    ensures forall x :: x in own + [a] ==> x in done + (own + tail) + [a]
  {}

  lemma Assoc(done: seq<nat>, own: seq<nat>, tail: seq<nat>)
    ensures done + (own + tail) == done + own + tail
  {}

  lemma UnfoldRoot(mem: Memory, t: Node, level: nat)
    requires Holds(mem, t, level) && level > 0
    ensures t.addr in mem && |mem[t.addr]| == 512 && HoldsFrom(mem, mem[t.addr], 0, t.kids, level - 1)
    ensures Tables(t, level) == TablesOf(t.kids, level - 1) + [t.addr]
  {}

  /** One unfolding of the definitions at entry i. */
  lemma Unfold(mem: Memory, entries: seq<nat>, i: nat, kids: seq<Node>, level: nat)
    requires i <= |entries| && HoldsFrom(mem, entries, i, kids, level)
    ensures i == |entries| ==> kids == [] && TablesOf(kids, level) == [] && FramesOf(kids, level) == []
    ensures i < |entries| && !Present(entries[i]) ==> HoldsFrom(mem, entries, i + 1, kids, level)
    ensures i < |entries| && Present(entries[i]) ==>
              && kids != [] && kids[0].addr == ExtractPointer(entries[i]) && Holds(mem, kids[0], level)
              && HoldsFrom(mem, entries, i + 1, kids[1..], level)
              && TablesOf(kids, level) == Tables(kids[0], level) + TablesOf(kids[1..], level)
              && FramesOf(kids, level) == Frames(kids[0], level) + FramesOf(kids[1..], level)
  {}

  /** `pages` were returned in order: to the buffer while it had room, then to the allocator. */
  ghost predicate Returned(b0: seq<nat>, f0: seq<nat>, pages: seq<nat>, b: seq<nat>, f: seq<nat>) {
    |b0| <= BUFFER_SIZE &&
    var room := if BUFFER_SIZE - |b0| < |pages| then BUFFER_SIZE - |b0| else |pages|;
    b == b0 + pages[..room] && f == f0 + pages[room..]
  }

  lemma NothingReturned(b: seq<nat>, f: seq<nat>)
    requires |b| <= BUFFER_SIZE
    ensures Returned(b, f, [], b, f)
  {}

  lemma ReturnedJoin(b0: seq<nat>, f0: seq<nat>, p: seq<nat>, b1: seq<nat>, f1: seq<nat>, q: seq<nat>, b2: seq<nat>, f2: seq<nat>)
    requires Returned(b0, f0, p, b1, f1) && Returned(b1, f1, q, b2, f2)
    ensures Returned(b0, f0, p + q, b2, f2)
  {
    var n := if BUFFER_SIZE - |b0| < |p| then BUFFER_SIZE - |b0| else |p|;
    var m := if BUFFER_SIZE - |b1| < |q| then BUFFER_SIZE - |b1| else |q|;
    if n < |p| {
      assert q[..m] == [] && q[m..] == q;
      assert (p + q)[..n] == p[..n] && (p + q)[n..] == p[n..] + q;
    } else {
      assert p[..n] == p && p[n..] == [];
      assert (p + q)[..n + m] == p + q[..m] && (p + q)[n + m..] == q[m..];
    }
  }

  /** The first n entries of a table are not present. */
  ghost predicate Cleared(row: seq<nat>, n: nat) {
    n <= |row| && forall j :: 0 <= j < n ==> !Present(row[j])
  }

  lemma NoneCleared(row: seq<nat>)
    ensures Cleared(row, 0)
  {}

  lemma ClearedMore(was: seq<nat>, row: seq<nat>, i: nat)
    requires Cleared(was, i) && i < |was| && (row == was[i := 0] || (row == was && !Present(was[i])))
    ensures Cleared(row, i + 1)
  {
    assert !Present(0);
  }

  lemma NothingBlanked(mem: Memory, b: seq<nat>)
    ensures Blanked(mem, b[|b|..])
  {}

  /** What reached the buffer is among what was returned. */
  lemma ReturnedAmong(b0: seq<nat>, f0: seq<nat>, pages: seq<nat>, b: seq<nat>, f: seq<nat>)
    requires Returned(b0, f0, pages, b, f)
    ensures b0 <= b && forall a :: a in b[|b0|..] ==> a in pages
  {}

  /** Pages blanked earlier stay so while only other pages are written. */
  lemma BlankedJoin(b0: seq<nat>, m1: Memory, b1: seq<nat>, m2: Memory, b2: seq<nat>, written: seq<nat>)
    requires b0 <= b1 <= b2 && Blanked(m1, b1[|b0|..]) && Blanked(m2, b2[|b1|..]) && AgreeOff(m1, m2, written)
    requires forall a :: a in b1[|b0|..] ==> a !in written
    ensures Blanked(m2, b2[|b0|..])
  {
    assert b2[|b0|..] == b1[|b0|..] + b2[|b1|..];
  }

  lemma BlankedNext(b0: seq<nat>, f0: seq<nat>, done: seq<nat>, m1: Memory, b1: seq<nat>, f1: seq<nat>,
                    m2: Memory, b2: seq<nat>, own: seq<nat>, table: nat)
    requires Returned(b0, f0, done, b1, f1) && b0 <= b1 <= b2 && Blanked(m1, b1[|b0|..]) && Blanked(m2, b2[|b1|..])
    requires AgreeOff(m1, m2, own + [table]) && table !in done && forall x :: x in done ==> x !in own
    ensures b0 <= b2 && Blanked(m2, b2[|b0|..])
  {
    hide Returned, AgreeOff, Blanked;
    ReturnedAmong(b0, f0, done, b1, f1);
    BlankedJoin(b0, m1, b1, m2, b2, own + [table]);
  }

  lemma BlankedApart(mem: Memory, pages: seq<nat>, table: nat, row: seq<nat>)
    requires Blanked(mem, pages) && table !in pages
    ensures Blanked(mem[table := row], pages)
  {}

  lemma AllBlanked(m0: Memory, b0: seq<nat>, m: Memory, b: seq<nat>, written: seq<nat>)
    requires AgreeOff(m0, m, written) && b0 <= b && Blanked(m, b[|b0|..])
    ensures Blanked(m0, b0) && (forall a :: a in b0 ==> a !in written) ==> Blanked(m, b)
  {
    assert b == b0 + b[|b0|..];
  }

  lemma {:induction false} NoTables(kids: seq<Node>)
    ensures TablesOf(kids, 0) == []
  {
    if kids != [] {
      NoTables(kids[1..]);
    }
  }

  lemma NotAmong(s: seq<nat>, a: nat)
    requires Distinct(s + [a])
    ensures a !in s && Distinct(s)
  {
    assert (s + [a])[|s|] == a;
    forall k | 0 <= k < |s| ensures s[k] != a {
      assert (s + [a])[k] == s[k];
    }
    forall i, j | 0 <= i < j < |s| ensures s[i] != s[j] {
      assert (s + [a])[i] == s[i] && (s + [a])[j] == s[j];
    }
  }

  /** Distinctness of a concatenation, piece by piece. */
  lemma SplitDistinct(done: seq<nat>, own: seq<nat>, tail: seq<nat>, a: nat)
    requires Distinct(done + (own + tail)) && a !in done + (own + tail)
    ensures Distinct(own) && a !in own && a !in tail && forall x :: x in own ==> x !in tail
    ensures a !in done && forall x :: x in done ==> x !in own
  {
    var s, n := done + (own + tail), |done|;
    assert forall k :: 0 <= k < |own| ==> s[n + k] == own[k];
    assert forall k :: 0 <= k < |tail| ==> s[n + |own| + k] == tail[k];
    forall i, j | 0 <= i < j < |own| ensures own[i] != own[j] {
      assert s[n + i] != s[n + j];
    }
    forall i, j | 0 <= i < |own| && 0 <= j < |tail| ensures own[i] != tail[j] {
      assert s[n + i] != s[n + |own| + j];
    }
    forall i, j | 0 <= i < |done| && 0 <= j < |own| ensures done[i] != own[j] {
      assert s[i] != s[n + j];
    }
    forall i | 0 <= i < |done| ensures done[i] != a {
      assert s[i] == done[i] && s[i] in s;
    }
  }

  /** After one child was released, clearing its entry leaves the remaining children in place. */
  lemma ClearEntry(m1: Memory, m2: Memory, table: nat, i: nat, kids: seq<Node>, level: nat, own: seq<nat>, tail: seq<nat>)
    requires table in m1 && |m1[table]| == 512 && i < 512 && AgreeOff(m1, m2, own)
    requires table !in own && table !in tail && forall x :: x in own ==> x !in tail
    requires tail == TablesOf(kids, level) && HoldsFrom(m1, m1[table], i + 1, kids, level)
    ensures table in m2 && m2[table] == m1[table]
    ensures var row: seq<nat> := m2[table][i := 0]; HoldsFrom(m2[table := row], row, i + 1, kids, level)
  {
    var row: seq<nat> := m2[table][i := 0];
    assert m1[table][i + 1..] == row[i + 1..];
    HoldsFromAgree(m1, m2[table := row], m1[table], row, i + 1, kids, level);
  }

  // ---- what the page-table tree looks like from here --------------------------------------

  /** The subtree under a structure of the given level. */
  ghost function NodeAt(mem: Memory, addr: nat, level: nat): (t: Node)
    ensures t.addr == addr
    decreases level, 0, 0
  {
    if level == 0 || addr !in mem then Node(addr, []) else Node(addr, KidsFrom(mem, mem[addr], 0, level - 1))
  }

  ghost function KidsFrom(mem: Memory, entries: seq<nat>, i: nat, level: nat): seq<Node>
    requires i <= |entries|
    decreases level, 1, |entries| - i
  {
    if i == |entries| then []
    else if Present(entries[i]) then [NodeAt(mem, ExtractPointer(entries[i]), level)] + KidsFrom(mem, entries, i + 1, level)
    else KidsFrom(mem, entries, i + 1, level)
  }

  /** A table of the tree at the depth that belongs to the level. */
  ghost predicate TableOf(mem: Memory, root: nat, role: map<nat, seq<nat>>, t: nat, level: nat) {
    Tree(mem, root, role) && 1 <= level <= 4 && t in role && |role[t]| == 4 - level
  }

  lemma ChildOf(mem: Memory, root: nat, role: map<nat, seq<nat>>, t: nat, level: nat, i: nat)
    requires TableOf(mem, root, role, t, level) && i < 512
    ensures t in mem && |mem[t]| == 512
    ensures level > 1 && Present(mem[t][i]) ==>
      TableOf(mem, root, role, ExtractPointer(mem[t][i]), level - 1) && role[ExtractPointer(mem[t][i])] == role[t] + [i]
  {
    if level > 1 && Present(mem[t][i]) {
      assert role[ExtractPointer(mem[t][i])] == role[t] + [i];
      assert |role[t] + [i]| == |role[t]| + 1;
    }
  }

  /** The tree that mapping and unmapping keep is one that deep_free_map accepts. */
  lemma {:induction false} TreeHolds(mem: Memory, root: nat, role: map<nat, seq<nat>>, t: nat, level: nat)
    requires TableOf(mem, root, role, t, level)
    ensures Holds(mem, NodeAt(mem, t, level), level)
    decreases level, 0, 0
  {
    ChildOf(mem, root, role, t, level, 0);
    KidsHold(mem, root, role, t, level, 0);
  }

  lemma {:induction false} KidsHold(mem: Memory, root: nat, role: map<nat, seq<nat>>, t: nat, level: nat, i: nat)
    requires TableOf(mem, root, role, t, level) && i <= 512 && t in mem && |mem[t]| == 512
    ensures HoldsFrom(mem, mem[t], i, KidsFrom(mem, mem[t], i, level - 1), level - 1)
    decreases level - 1, 1, 512 - i
  {
    hide Tree, ExtractPointer;
    if i < 512 {
      KidsHold(mem, root, role, t, level, i + 1);
      ChildOf(mem, root, role, t, level, i);
      if Present(mem[t][i]) {
        var child := ExtractPointer(mem[t][i]);
        if level > 1 {
          TreeHolds(mem, root, role, child, level - 1);
        }
        var kids := KidsFrom(mem, mem[t], i, level - 1);
        assert kids[0] == NodeAt(mem, child, level - 1) && kids[1..] == KidsFrom(mem, mem[t], i + 1, level - 1);
      }
    }
  }

  /** Every table below t has a role that begins with t's. */
  ghost predicate Under(role: map<nat, seq<nat>>, path: seq<nat>, tables: seq<nat>) {
    forall a :: a in tables ==> a in role && path <= role[a]
  }

  /** Every table below entry i or a later one of a table with this path. */
  ghost predicate UnderFrom(role: map<nat, seq<nat>>, path: seq<nat>, i: nat, tables: seq<nat>) {
    forall a :: a in tables ==> a in role && path < role[a] && role[a][|path|] >= i
  }

  lemma {:induction false} TreeTables(mem: Memory, root: nat, role: map<nat, seq<nat>>, t: nat, level: nat)
    requires TableOf(mem, root, role, t, level)
    ensures Distinct(Tables(NodeAt(mem, t, level), level)) && Under(role, role[t], Tables(NodeAt(mem, t, level), level))
    decreases level, 0, 0
  {
    ChildOf(mem, root, role, t, level, 0);
    KidsTables(mem, root, role, t, level, 0);
    hide Tree;
    var below := TablesOf(KidsFrom(mem, mem[t], 0, level - 1), level - 1);
    assert t !in below;
    JoinDistinct(below, [t]);
  }

  lemma {:induction false} KidsTables(mem: Memory, root: nat, role: map<nat, seq<nat>>, t: nat, level: nat, i: nat)
    requires TableOf(mem, root, role, t, level) && i <= 512 && t in mem && |mem[t]| == 512
    ensures
      var tables := TablesOf(KidsFrom(mem, mem[t], i, level - 1), level - 1);
      Distinct(tables) && UnderFrom(role, role[t], i, tables)
    decreases level - 1, 1, 512 - i
  {
    hide Tree, ExtractPointer, Distinct;
    if level == 1 {
      NoTables(KidsFrom(mem, mem[t], i, 0));
      NoneDistinct();
    } else if i == 512 {
      NoneDistinct();
    } else {
      KidsTables(mem, root, role, t, level, i + 1);
      ChildOf(mem, root, role, t, level, i);
      if Present(mem[t][i]) {
        var child := ExtractPointer(mem[t][i]);
        TreeTables(mem, root, role, child, level - 1);
        var kids, rest := KidsFrom(mem, mem[t], i, level - 1), KidsFrom(mem, mem[t], i + 1, level - 1);
        assert kids[0] == NodeAt(mem, child, level - 1) && kids[1..] == rest;
        var own, later := Tables(kids[0], level - 1), TablesOf(rest, level - 1);
        Siblings(role, role[t], i, own, later);
        JoinDistinct(own, later);
      }
    }
  }

  /** The tables below entry i and those below later entries. */
  lemma Siblings(role: map<nat, seq<nat>>, path: seq<nat>, i: nat, own: seq<nat>, later: seq<nat>)
    requires Under(role, path + [i], own) && UnderFrom(role, path, i + 1, later)
    ensures UnderFrom(role, path, i, own + later) && forall a :: a in own ==> a !in later
  {
    forall a | a in own ensures a in role && path < role[a] && role[a][|path|] == i {
      assert (path + [i])[|path|] == i && path < path + [i];
    }
  }

  lemma JoinDistinct(a: seq<nat>, b: seq<nat>)
    requires Distinct(a) && Distinct(b) && forall x :: x in a ==> x !in b
    ensures Distinct(a + b)
  {
    var s := a + b;
    forall i, j | 0 <= i < j < |s| ensures s[i] != s[j] {
      assert s[i] in a || s[i] == b[i - |a|];
      assert s[j] in b || s[j] == a[j];
    }
  }

  lemma NoneDistinct()
    ensures Distinct<nat>([])
  {}

  /** So freeing any table of the tree, and all below it, meets deep_free_map's demands. */
  lemma TreeCanBeFreed(mem: Memory, root: nat, role: map<nat, seq<nat>>, t: nat, level: nat)
    requires TableOf(mem, root, role, t, level)
    ensures
      var node := NodeAt(mem, t, level);
      node.addr == t && Holds(mem, node, level) && Distinct(Tables(node, level))
  {
    TreeHolds(mem, root, role, t, level);
    TreeTables(mem, root, role, t, level);
  }
}
