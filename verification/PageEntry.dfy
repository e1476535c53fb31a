/**
 Page-table entries and index extraction: 64-bit words as naturals, with the shifts, masks
 and bitwise or that paging.c applies to them.
 */
module PageEntry {
  import opened Common
  import opened Division

  const ADDRESS_LIMIT: nat := 0x10_0000_0000_0000   // 2^52
  const FRAMES: nat := 0x100_0000_0000              // 2^40 frames below it
  const PAGES: nat := 0x10_0000_0000                // 2^36 pages of 48-bit virtual space

  const PRESENT_ENTRY: nat := 1
  const PL_RW: nat := 2
  const PL_US: nat := 4

  /** Bitwise or. */
  function Or(a: nat, b: nat): nat {
    if a == 0 && b == 0 then 0
    else 2 * Or(a / 2, b / 2) + if a % 2 == 1 || b % 2 == 1 then 1 else 0
  }

  function Pow2(n: nat): (p: nat)
    ensures p > 0
  {
    if n == 0 then 1 else 2 * Pow2(n - 1)
  }

  lemma {:induction false} OrZero(a: nat)
    ensures Or(a, 0) == a && Or(0, a) == a
  {
    if a > 0 {
      OrZero(a / 2);
    }
  }

  /** Shifting and masking in two steps. */
  lemma DivMod(a: nat, m: nat, n: nat, mn: nat)
    requires m > 0 && n > 0 && mn == m * n && mn > 0
    ensures (a / m) / n == a / mn
    ensures (a % mn) / m == (a / m) % n && (a % mn) % m == a % m
  {
    var x, s := a / m, a % m;
    TwoDigits(a, m, n, mn, x, s, x / n, x % n);
  }

  lemma TwoDigits(a: nat, m: nat, n: nat, mn: nat, x: nat, s: nat, q: nat, r: nat)
    requires m > 0 && n > 0 && mn == m * n && mn > 0
    requires a == m * x + s && s < m && x == n * q + r && r < n
    ensures a / mn == q && a % mn == m * r + s
    ensures (m * r + s) / m == r && (m * r + s) % m == s
  {
    Distribute(m, n, q, r);
    Below(m, n, r, s);
    Unique(a, mn, q, m * r + s);
    Unique(m * r + s, m, r, s);
  }

  lemma Distribute(m: nat, n: nat, q: nat, r: nat)
    ensures m * (n * q + r) == (m * n) * q + m * r
  {}

  lemma Below(m: nat, n: nat, r: nat, s: nat)
    requires r < n && s < m
    ensures m * r + s < m * n
  {
    assert m * (r + 1) <= m * n;
  }

  /** An or can be taken separately above and below any bit position. */
  lemma {:induction false} OrSplit(x: nat, r: nat, y: nat, s: nat, n: nat)
    requires r < Pow2(n) && s < Pow2(n)
    ensures Or(Pow2(n) * x + r, Pow2(n) * y + s) == Pow2(n) * Or(x, y) + Or(r, s)
  {
    hide Or, Pow2;
    Pow2Step(n);
    if n == 0 {
      OrZero(0);
    } else {
      var p := Pow2(n - 1);
      var px, py, po := p * x, p * y, p * Or(x, y);
      OrSplit(x, r / 2, y, s / 2, n - 1);
      Double(p, x);
      Double(p, y);
      Double(p, Or(x, y));
      OrStep(2 * px + r, 2 * py + s);
      OrStep(r, s);
      assert (2 * px + r) / 2 == px + r / 2 && (2 * py + s) / 2 == py + s / 2;
    }
  }

  lemma Pow2Step(n: nat)
    ensures Pow2(n) == if n == 0 then 1 else 2 * Pow2(n - 1)
  {}

  lemma Double(p: nat, x: nat)
    ensures (2 * p) * x == 2 * (p * x)
  {}

  lemma OrStep(a: nat, b: nat)
    ensures Or(a, b) == 2 * Or(a / 2, b / 2) + if a % 2 == 1 || b % 2 == 1 then 1 else 0
  {}

  lemma Powers()
    ensures Pow2(12) == PAGE && Pow2(40) == FRAMES
  {
    assert Pow2(6) == 64 by { assert Pow2(3) == 8; }
    assert Pow2(12) == 4096 by { assert Pow2(9) == 512; }
    assert Pow2(20) == 0x10_0000 by { assert Pow2(16) == 0x1_0000; }
    assert Pow2(24) == 0x100_0000;
    assert Pow2(28) == 0x1000_0000;
    assert Pow2(32) == 0x1_0000_0000;
    assert Pow2(36) == 0x10_0000_0000;
  }

  predicate Aligned(p: nat) { p % PAGE == 0 && p < ADDRESS_LIMIT }

  /** Flags keep clear of the address field, bits 12 to 51. */
  predicate FlagsOk(flags: nat) { (flags / PAGE) % FRAMES == 0 }

  predicate Present(e: nat) { e % 2 == 1 }

  function CreateEntry(p: nat, flags: nat): nat { Or(flags, p) }

  /** The mask 0x000ffffffffff000. */
  function ExtractPointer(e: nat): nat { ((e / PAGE) % FRAMES) * PAGE }

  lemma {:induction false} OrParity(a: nat, b: nat)
    ensures Or(a, b) % 2 == if a % 2 == 1 || b % 2 == 1 then 1 else 0
  {}

  lemma OrBelow(a: nat, b: nat)
    requires b % PAGE == 0 && a < PAGE
    ensures Or(a, b) == a + b
  {
    Powers();
    OrSplit(0, a, b / PAGE, 0, 12);
    OrZero(b / PAGE);
    OrZero(a);
  }

  /** The address field holds p, and every other bit, low or high, is that of flags. */
  ghost predicate EntryIs(e: nat, p: nat, flags: nat) {
    ExtractPointer(e) == p && e % PAGE == flags % PAGE && e / ADDRESS_LIMIT == flags / ADDRESS_LIMIT
  }

  /** That says every bit of an entry. */
  lemma EntryUnique(e: nat, e': nat, p: nat, flags: nat)
    requires EntryIs(e, p, flags) && EntryIs(e', p, flags)
    ensures e == e'
  {
    DivMod(e, PAGE, FRAMES, ADDRESS_LIMIT);
    DivMod(e', PAGE, FRAMES, ADDRESS_LIMIT);
  }

  /** An aligned address survives the round trip through an entry, and so does every flag. */
  lemma EntryRoundTrip(p: nat, flags: nat)
    requires Aligned(p) && FlagsOk(flags)
    ensures EntryIs(CreateEntry(p, flags), p, flags)
    ensures Present(CreateEntry(p, flags)) <==> Present(flags)
  {
    hide Or, Pow2;
    Powers();
    var f, q := flags / PAGE, p / PAGE;
    var hi := f / FRAMES;
    OrSplit(f, flags % PAGE, q, 0, 12);
    OrZero(flags % PAGE);
    OrSplit(hi, 0, 0, q, 40);
    OrZero(hi);
    OrZero(q);
    assert Or(f, q) == FRAMES * hi + q;
    Unique(Or(flags, p), PAGE, FRAMES * hi + q, flags % PAGE);
    Unique(FRAMES * hi + q, FRAMES, hi, q);
    DivMod(flags, PAGE, FRAMES, ADDRESS_LIMIT);
    DivMod(Or(flags, p), PAGE, FRAMES, ADDRESS_LIMIT);
    OrParity(flags, p);
  }

  // ---- virtual addresses ---------------------------------------------------------

  function PtOffset(virt: nat): nat { (virt / 0x1000) % 512 }
  function PdOffset(virt: nat): nat { (virt / 0x20_0000) % 512 }
  function PdptOffset(virt: nat): nat { (virt / 0x4000_0000) % 512 }
  function Pml4Offset(virt: nat): nat { (virt / 0x80_0000_0000) % 512 }

  /** The virtual page of an address: bits 12 to 47, the rest being sign extension. */
  function Vpn(virt: nat): nat { (virt / PAGE) % PAGES }

  /** The three table indices on the way to a page's entry, outermost first. */
  function Path(v: nat): (path: seq<nat>)
    ensures |path| == 3
  {
    [(v / 512 / 512 / 512) % 512, (v / 512 / 512) % 512, (v / 512) % 512]
  }

  lemma OffsetsArePath(virt: nat)
    ensures Path(Vpn(virt)) == [Pml4Offset(virt), PdptOffset(virt), PdOffset(virt)]
    ensures Vpn(virt) % 512 == PtOffset(virt)
  {
    var x := virt / PAGE;
    DivMod(virt, PAGE, 512, 0x20_0000);
    DivMod(virt, PAGE, 0x4_0000, 0x4000_0000);
    DivMod(virt, PAGE, 0x800_0000, 0x80_0000_0000);
    DivMod(x, 512, 0x800_0000, PAGES);
    DivMod(x / 512, 512, 0x4_0000, 0x800_0000);
    DivMod(x / 512 / 512, 512, 512, 0x4_0000);
    DivMod(x, 512, 512, 0x4_0000);
    DivMod(x, 0x4_0000, 512, 0x800_0000);
  }

  /** Two pages with the same four indices are the same page. */
  lemma PathInjective(v: nat, w: nat)
    requires v < PAGES && w < PAGES && Path(v) == Path(w) && v % 512 == w % 512
    ensures v == w
  {
    assert Path(v)[0] == Path(w)[0] && Path(v)[1] == Path(w)[1] && Path(v)[2] == Path(w)[2];
    assert v / 512 / 512 / 512 == w / 512 / 512 / 512;
    assert v / 512 / 512 == w / 512 / 512;
    assert v / 512 == w / 512;
  }
}
