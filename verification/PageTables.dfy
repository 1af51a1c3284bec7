/** Four-level page tables as values: the processor's walk, what makes a set of table frames a tree, and how
    single writes change the translation.

    A page is named by its `Path`, the four 9-bit indices of its address.  The masks of the source
    are written with division: `e & 1` is `e % 2`, and `phys_mask(e)` is `FrameOf(e) * 4096`. */
module PageTables {
  import opened Machine

  type Path = p: seq<nat> | |p| == 4 && forall i :: 0 <= i < 4 ==> p[i] < 512
    witness [0, 0, 0, 0]

  function PathOf(v: Word): Path {
    [v / 0x80_0000_0000 % 512, v / 0x4000_0000 % 512, v / 0x20_0000 % 512, v / 0x1000 % 512]
  }

  /** Two addresses have the same path exactly when they agree in bits 12 to 47. */
  lemma SamePath(v: Word, w: Word)
    ensures PathOf(v) == PathOf(w) <==> v / 0x1000 % 0x10_0000_0000 == w / 0x1000 % 0x10_0000_0000
  {
    PathNumber(v);
    PathNumber(w);
    if v / 0x1000 % 0x10_0000_0000 == w / 0x1000 % 0x10_0000_0000 {
      DigitsUnique(PathOf(v), PathOf(w));
    }
  }

  function Number(p: Path): nat { ((p[0] * 512 + p[1]) * 512 + p[2]) * 512 + p[3] }

  lemma Shifts(v: Word)
    ensures v / 0x20_0000 == v / 0x1000 / 512
    ensures v / 0x4000_0000 == v / 0x20_0000 / 512
    ensures v / 0x80_0000_0000 == v / 0x4000_0000 / 512
  {
  }

  /** A number modulo a power of 512, one digit split off. */
  lemma LastDigit4(a: nat)
    ensures a % 0x10_0000_0000 == a / 512 % 0x800_0000 * 512 + a % 512
  {
  }

  lemma LastDigit3(a: nat)
    ensures a % 0x800_0000 == a / 512 % 0x4_0000 * 512 + a % 512
  {
  }

  lemma LastDigit2(a: nat)
    ensures a % 0x4_0000 == a / 512 % 512 * 512 + a % 512
  {
  }

  lemma PathNumber(v: Word)
    ensures v / 0x1000 % 0x10_0000_0000 == Number(PathOf(v))
  {
    Shifts(v);
    LastDigit4(v / 0x1000);
    LastDigit3(v / 0x20_0000);
    LastDigit2(v / 0x4000_0000);
  }

  lemma Digit(x: int, y: int, a: int, b: int)
    requires x * 512 + a == y * 512 + b && 0 <= a < 512 && 0 <= b < 512
    ensures x == y && a == b
  {
  }

  lemma DigitsUnique(p: Path, q: Path)
    requires Number(p) == Number(q)
    ensures p == q
  {
    Digit((p[0] * 512 + p[1]) * 512 + p[2], (q[0] * 512 + q[1]) * 512 + q[2], p[3], q[3]);
    Digit(p[0] * 512 + p[1], q[0] * 512 + q[1], p[2], q[2]);
    Digit(p[0], q[0], p[1], q[1]);
    assert p == [p[0], p[1], p[2], p[3]] && q == [q[0], q[1], q[2], q[3]];
  }

  // ---------------------------------------------------------------------------------------------
  // Entries and the walk
  // ---------------------------------------------------------------------------------------------

  predicate Present(e: Word) { e % 2 == 1 }

  predicate Huge(e: Word) { e / 128 % 2 == 1 }

  /** Bits 12 to 51 of an entry: the frame it points to. */
  function FrameOf(e: Word): nat { e / 0x1000 % MAX_FRAMES }

  lemma FrameOfAddress(f: nat)
    requires f < MAX_FRAMES
    ensures f * PAGE_SIZE < TWO64 && FrameOf(f * PAGE_SIZE) == f
  {
  }

  /** At depth `k` (0 for the root) the entry points to a further table. */
  predicate Descends(e: Word, k: nat) { Present(e) && (k == 0 || !Huge(e)) }

  /** Bits 12 to 20 of an entry: no part of the address of a 2 MiB page. */
  function LowBits(e: Word): nat { FrameOf(e) % 512 }

  /** The base of the 4 KiB page at path `p` inside the huge page of entry `e` at depth 1 or 2, whose
      address are bits 30 to 51 or 21 to 51 of the entry. */
  function HugeBase(e: Word, k: nat, p: Path): nat {
    if k == 1 then e / 0x4000_0000 % 0x40_0000 * 0x4000_0000 + p[2] * 0x20_0000 + p[3] * PAGE_SIZE
    else (FrameOf(e) - LowBits(e)) * PAGE_SIZE + p[3] * PAGE_SIZE
  }

  /** The physical base of the page at path `p`, as the processor finds it walking from table `f` at
      depth `k`. */
  function Walk(mem: Memory, f: nat, k: nat, p: Path): Option<nat>
    requires k < 4
    decreases 4 - k
  {
    var e := Entry(mem, f, p[k]);
    if !Present(e) then None
    else if k == 3 then Some(FrameOf(e) * PAGE_SIZE)
    else if k > 0 && Huge(e) then Some(HugeBase(e, k, p))
    else Walk(mem, FrameOf(e), k + 1, p)
  }

  /** How far above that the kernel's own walk puts the page: it takes bits 12 to 20 of a 2 MiB entry
      for a part of the address. */
  function Skew(mem: Memory, f: nat, k: nat, p: Path): nat
    requires k < 4
    decreases 4 - k
  {
    var e := Entry(mem, f, p[k]);
    if !Present(e) || k == 3 then 0
    else if k > 0 && Huge(e) then (if k == 2 then LowBits(e) * PAGE_SIZE else 0)
    else Skew(mem, FrameOf(e), k + 1, p)
  }

  /** The table a walk along `p` has reached after `k` steps from the root, if it gets there. */
  function Reach(mem: Memory, root: nat, k: nat, p: Path): Option<nat>
    requires k < 4
  {
    if k == 0 then Some(root)
    else match Reach(mem, root, k - 1, p)
         case None => None
         case Some(f) =>
           var e := Entry(mem, f, p[k - 1]);
           if Descends(e, k - 1) then Some(FrameOf(e)) else None
  }

  /** The three steps to a last-level table, spelled out. */
  lemma ReachSteps(mem: Memory, root: nat, p: Path)
    ensures var e0 := Entry(mem, root, p[0]);
            var e1 := Entry(mem, FrameOf(e0), p[1]);
            var e2 := Entry(mem, FrameOf(e1), p[2]);
            Reach(mem, root, 3, p) ==
            if Descends(e0, 0) && Descends(e1, 1) && Descends(e2, 2) then Some(FrameOf(e2)) else None
  {
    assert Reach(mem, root, 1, p) == if Descends(Entry(mem, root, p[0]), 0) then Some(FrameOf(Entry(mem, root, p[0]))) else None;
    assert Reach(mem, root, 2, p).None? ==> Reach(mem, root, 3, p).None?;
  }

  function Translate(mem: Memory, root: nat, v: Word): Option<nat> {
    match Walk(mem, root, 0, PathOf(v))
    case None => None
    case Some(base) => Some(base + v % PAGE_SIZE)
  }

  /** The processor's walk, bit by bit: bits 39 to 47, 30 to 38, 21 to 29 and 12 to 20 of the address choose the
      entries; bit 0 of an entry says that it is present, bit 7 of the second and third that it maps a huge
      page, and the address of what it points to are bits 12 to 51, 30 to 51 or 21 to 51. */
  lemma TranslateSpelled(mem: Memory, root: nat, v: Word)
    ensures var e4 := Entry(mem, root, v / 0x80_0000_0000 % 512);
            var e3 := Entry(mem, e4 / 0x1000 % 0x100_0000_0000, v / 0x4000_0000 % 512);
            var e2 := Entry(mem, e3 / 0x1000 % 0x100_0000_0000, v / 0x20_0000 % 512);
            var e1 := Entry(mem, e2 / 0x1000 % 0x100_0000_0000, v / 0x1000 % 512);
            Translate(mem, root, v) ==
            if e4 % 2 == 0 || e3 % 2 == 0 then None
            else if e3 / 128 % 2 == 1 then Some(e3 / 0x4000_0000 % 0x40_0000 * 0x4000_0000 + v % 0x4000_0000)
            else if e2 % 2 == 0 then None
            else if e2 / 128 % 2 == 1 then Some(e2 / 0x20_0000 % 0x8000_0000 * 0x20_0000 + v % 0x20_0000)
            else if e1 % 2 == 0 then None
            else Some(e1 / 0x1000 % 0x100_0000_0000 * 0x1000 + v % 0x1000)
  {
    var p := PathOf(v);
    OffsetSplits(v);
    var e3 := Entry(mem, FrameOf(Entry(mem, root, p[0])), p[1]);
    HugeSpelled(Entry(mem, FrameOf(e3), p[2]));
    var e4 := Entry(mem, root, p[0]);
    var e2 := Entry(mem, FrameOf(e3), p[2]);
    assert Walk(mem, root, 0, p) == if !Present(e4) then None else Walk(mem, FrameOf(e4), 1, p);
    assert Walk(mem, FrameOf(e4), 1, p) ==
           if !Present(e3) then None else if Huge(e3) then Some(HugeBase(e3, 1, p)) else Walk(mem, FrameOf(e3), 2, p);
    assert Walk(mem, FrameOf(e3), 2, p) ==
           if !Present(e2) then None else if Huge(e2) then Some(HugeBase(e2, 2, p)) else Walk(mem, FrameOf(e2), 3, p);
  }

  lemma HugeSpelled(e: Word)
    ensures (FrameOf(e) - LowBits(e)) * PAGE_SIZE == e / 0x20_0000 % 0x8000_0000 * 0x20_0000
  {
    var a := e / 0x1000;
    assert a / 512 == e / 0x20_0000;
    LastBits(a);
  }

  /** Bits 9 to 39 of a number. */
  lemma LastBits(a: nat)
    ensures a % MAX_FRAMES - a % MAX_FRAMES % 512 == a / 512 % 0x8000_0000 * 512
  {
    var q, r := a / 512, a % 512;
    var u, w := q / 0x8000_0000, q % 0x8000_0000;
    assert a == MAX_FRAMES * u + (512 * w + r);
  }

  /** The low 30 and the low 21 bits of an address, by its path. */
  lemma OffsetSplits(v: Word)
    ensures v % 0x4000_0000 == PathOf(v)[2] * 0x20_0000 + PathOf(v)[3] * PAGE_SIZE + v % PAGE_SIZE
    ensures v % 0x20_0000 == PathOf(v)[3] * PAGE_SIZE + v % PAGE_SIZE
  {
    var a := v / 0x1000;
    assert v / 0x20_0000 == a / 512;
  }

  /** The base of a page as the kernel's own walk gives it. */
  function KernelWalk(mem: Memory, root: nat, p: Path): Option<nat> {
    match Walk(mem, root, 0, p)
    case None => None
    case Some(base) => Some(base + Skew(mem, root, 0, p))
  }

  /** The 2 MiB entry met on the way to a page, or 0 if there is none. */
  function HugeEntry(mem: Memory, root: nat, p: Path): Word {
    match Reach(mem, root, 2, p)
    case None => 0
    case Some(f) =>
      var e := Entry(mem, f, p[2]);
      if Present(e) && Huge(e) then e else 0
  }

  /** The kernel's walk is off exactly by the low bits of a 2 MiB entry. */
  lemma SkewIsLowBits(mem: Memory, root: nat, p: Path)
    ensures Skew(mem, root, 0, p) == LowBits(HugeEntry(mem, root, p)) * PAGE_SIZE
  {
    if Reach(mem, root, 2, p).Some? {
      WalkVia(mem, root, 2, p);
    } else {
      var e0 := Entry(mem, root, p[0]);
      assert Reach(mem, root, 1, p) == if Descends(e0, 0) then Some(FrameOf(e0)) else None;
    }
  }

  /** Three tables and a 2 MiB page at 0x200000 whose entry has bit 12 set, which chooses a memory
      type. */
  function PatMemory(): Memory {
    [ZeroPage()[0 := 0x1003], ZeroPage()[0 := 0x2003], ZeroPage()[0 := 0x20_1083]]
  }

  /** There the kernel's walk is 4 KiB too high. */
  lemma PatMisread()
    ensures Translate(PatMemory(), 0, 0) == Some(0x20_0000)
    ensures KernelWalk(PatMemory(), 0, PathOf(0)) == Some(0x20_1000)
  {
    var mem := PatMemory();
    var p := PathOf(0);
    assert Entry(mem, 0, 0) == 0x1003 && Entry(mem, 1, 0) == 0x2003 && Entry(mem, 2, 0) == 0x20_1083;
    assert Walk(mem, 2, 2, p) == Some(0x20_0000) && Skew(mem, 2, 2, p) == 0x1000;
    assert Walk(mem, 1, 1, p) == Walk(mem, 2, 2, p) && Skew(mem, 1, 1, p) == Skew(mem, 2, 2, p);
  }

  /** Once a walk has reached a table, the translation is the rest of the walk. */
  lemma {:induction false} WalkVia(mem: Memory, root: nat, k: nat, p: Path)
    requires k < 4 && Reach(mem, root, k, p).Some?
    ensures Walk(mem, root, 0, p) == Walk(mem, Reach(mem, root, k, p).value, k, p)
    ensures Skew(mem, root, 0, p) == Skew(mem, Reach(mem, root, k, p).value, k, p)
    decreases k
  {
    if k > 0 {
      WalkVia(mem, root, k - 1, p);
    }
  }

  /** A walk that does not get as far as depth `k` ends without the tables below. */
  lemma {:induction false} ReachPrefix(mem: Memory, root: nat, k: nat, p: Path, q: Path)
    requires k < 4 && p[..k] == q[..k]
    ensures Reach(mem, root, k, p) == Reach(mem, root, k, q)
    decreases k
  {
    if k > 0 {
      assert p[..k - 1] == p[..k][..k - 1] && q[..k - 1] == q[..k][..k - 1];
      assert p[k - 1] == p[..k][k - 1] && q[k - 1] == q[..k][k - 1];
      ReachPrefix(mem, root, k - 1, p, q);
    }
  }

  // ---------------------------------------------------------------------------------------------
  // Trees of tables
  // ---------------------------------------------------------------------------------------------

  type Tables = map<nat, seq<nat>>

  ghost predicate EntryOk(mem: Memory, tables: Tables, f: nat, i: nat)
    requires f in tables
  {
    |tables[f]| < 3 && Descends(Entry(mem, f, i), |tables[f]|) ==>
      var c := FrameOf(Entry(mem, f, i));
      c in tables && tables[c] == tables[f] + [i]
  }

  /** `tables` names every table frame by the indices that lead to it; each entry that points to a
      table points to the one named by its own place.  So no two entries share a table. */
  ghost predicate Tree(mem: Memory, root: nat, tables: Tables) {
    && root in tables && tables[root] == []
    && (forall f :: f in tables ==> f < |mem| && |tables[f]| <= 3)
    && (forall f, i :: f in tables && 0 <= i < 512 ==> EntryOk(mem, tables, f, i))
  }

  lemma {:induction false} ReachNames(mem: Memory, root: nat, tables: Tables, k: nat, p: Path)
    requires Tree(mem, root, tables)
    requires k < 4 && Reach(mem, root, k, p).Some?
    ensures Reach(mem, root, k, p).value in tables
    ensures tables[Reach(mem, root, k, p).value] == p[..k]
    decreases k
  {
    if k > 0 {
      ReachNames(mem, root, tables, k - 1, p);
      var f := Reach(mem, root, k - 1, p).value;
      assert EntryOk(mem, tables, f, p[k - 1]);
      assert p[..k] == p[..k - 1] + [p[k - 1]];
    }
  }

  /** Whether entry `i` of table `t` lies on the path `p`. */
  ghost predicate OnPath(tables: Tables, t: nat, i: nat, p: Path)
    requires t in tables
  {
    |tables[t]| < 4 && p[..|tables[t]|] == tables[t] && p[|tables[t]|] == i
  }

  /** `mem'` differs from `mem`, within the tables, at most in entry `i` of table `t`. */
  ghost predicate SameButEntry(mem: Memory, mem': Memory, tables: Tables, t: nat, i: nat) {
    forall f, j :: f in tables && 0 <= j < 512 && !(f == t && j == i) ==> Entry(mem', f, j) == Entry(mem, f, j)
  }

  ghost predicate SameTables(mem: Memory, mem': Memory, tables: Tables) {
    forall f, j :: f in tables && 0 <= j < 512 ==> Entry(mem', f, j) == Entry(mem, f, j)
  }

  /** A changed entry is not read by walks along other paths. */
  lemma {:induction false} WalkOffPath(mem: Memory, mem': Memory, root: nat, tables: Tables, t: nat, i: nat,
                                       f: nat, k: nat, p: Path)
    requires Tree(mem, root, tables) && t in tables
    requires SameButEntry(mem, mem', tables, t, i)
    requires k < 4 && f in tables && tables[f] == p[..k]
    requires !OnPath(tables, t, i, p)
    ensures Walk(mem', f, k, p) == Walk(mem, f, k, p) && Skew(mem', f, k, p) == Skew(mem, f, k, p)
    decreases 4 - k
  {
    var e := Entry(mem, f, p[k]);
    assert Entry(mem', f, p[k]) == e;
    if k < 3 && Descends(e, k) {
      assert EntryOk(mem, tables, f, p[k]);
      assert p[..k + 1] == p[..k] + [p[k]];
      WalkOffPath(mem, mem', root, tables, t, i, FrameOf(e), k + 1, p);
    }
  }

  /** Nor is it read before the walk reaches its table. */
  lemma {:induction false} ReachBefore(mem: Memory, mem': Memory, root: nat, tables: Tables, t: nat, i: nat,
                                       k: nat, p: Path)
    requires Tree(mem, root, tables) && t in tables
    requires SameButEntry(mem, mem', tables, t, i)
    requires k < 4 && (k <= |tables[t]| || !OnPath(tables, t, i, p))
    ensures Reach(mem', root, k, p) == Reach(mem, root, k, p)
    decreases k
  {
    if k > 0 {
      ReachBefore(mem, mem', root, tables, t, i, k - 1, p);
      if Reach(mem, root, k - 1, p).Some? {
        ReachNames(mem, root, tables, k - 1, p);
      }
    }
  }

  /** Two memories translate every page alike, for the processor and for the kernel. */
  ghost predicate SameTranslation(mem: Memory, mem': Memory, root: nat) {
    && (forall p: Path :: Walk(mem', root, 0, p) == Walk(mem, root, 0, p))
    && (forall p: Path :: Skew(mem', root, 0, p) == Skew(mem, root, 0, p))
  }

  /** Writes outside the tables change no translation. */
  lemma OutsideTables(mem: Memory, mem': Memory, root: nat, tables: Tables)
    requires Tree(mem, root, tables) && |mem| <= |mem'|
    requires SameTables(mem, mem', tables)
    ensures Tree(mem', root, tables) && SameTranslation(mem, mem', root)
    ensures forall k, p: Path :: 0 <= k < 4 ==> Reach(mem', root, k, p) == Reach(mem, root, k, p)
  {
    forall p: Path
      ensures Walk(mem', root, 0, p) == Walk(mem, root, 0, p)
      ensures Skew(mem', root, 0, p) == Skew(mem, root, 0, p)
    {
      WalkSame(mem, mem', root, tables, root, 0, p);
    }
    forall k, p: Path | 0 <= k < 4
      ensures Reach(mem', root, k, p) == Reach(mem, root, k, p)
    {
      ReachBefore(mem, mem', root, tables, root, 512, k, p);
    }
    forall f, i | f in tables && 0 <= i < 512
      ensures EntryOk(mem', tables, f, i)
    {
      assert EntryOk(mem, tables, f, i);
    }
  }

  lemma WalkSame(mem: Memory, mem': Memory, root: nat, tables: Tables, f: nat, k: nat, p: Path)
    requires Tree(mem, root, tables) && SameTables(mem, mem', tables)
    requires k < 4 && f in tables && tables[f] == p[..k]
    ensures Walk(mem', f, k, p) == Walk(mem, f, k, p) && Skew(mem', f, k, p) == Skew(mem, f, k, p)
  {
    assert !OnPath(tables, root, 512, p);
    WalkOffPath(mem, mem', root, tables, root, 512, f, k, p);
  }

  // ---------------------------------------------------------------------------------------------
  // Linking an empty table
  // ---------------------------------------------------------------------------------------------

  /** The entry that links frame `c`: present and writable, not huge. */
  function LinkTo(c: nat): (e: Word)
    requires c < MAX_FRAMES
    ensures Present(e) && !Huge(e) && FrameOf(e) == c
  {
    c * PAGE_SIZE + 3
  }

  /** `mem'` is `mem` with frame `c` cleared and linked from entry `i` of table `f`. */
  ghost predicate Linked(mem: Memory, mem': Memory, f: nat, i: nat, c: nat) {
    && |mem'| == |mem|
    && (forall j :: 0 <= j < 512 ==> Entry(mem', c, j) == 0)
    && (c < MAX_FRAMES && Entry(mem', f, i) == LinkTo(c))
    && (forall g, j :: g != c && !(g == f && j == i) ==> Entry(mem', g, j) == Entry(mem, g, j))
  }

  /** Linking an empty table in place of an absent entry keeps the tree and every translation. */
  lemma LinkKeepsTranslation(mem: Memory, mem': Memory, root: nat, tables: Tables, f: nat, k: nat, c: nat, p: Path)
    requires Tree(mem, root, tables)
    requires k < 3 && Reach(mem, root, k, p) == Some(f)
    requires !Present(Entry(mem, f, p[k]))
    requires c !in tables && c < |mem|
    requires Linked(mem, mem', f, p[k], c)
    ensures Tree(mem', root, tables[c := p[..k + 1]])
    ensures SameTranslation(mem, mem', root)
    ensures Reach(mem', root, k + 1, p) == Some(c)
  {
    ReachNames(mem, root, tables, k, p);
    LinkKeepsTree(mem, mem', root, tables, f, k, c, p);
    ReachBefore(mem, mem', root, tables, f, p[k], k, p);
    forall q: Path
      ensures Walk(mem', root, 0, q) == Walk(mem, root, 0, q)
      ensures Skew(mem', root, 0, q) == Skew(mem, root, 0, q)
    {
      if OnPath(tables, f, p[k], q) {
        ReachPrefix(mem, root, k, p, q);
        ReachBefore(mem, mem', root, tables, f, p[k], k, q);
        WalkVia(mem, root, k, q);
        WalkVia(mem', root, k, q);
        assert Entry(mem', c, q[k + 1]) == 0;
      } else {
        WalkOffPath(mem, mem', root, tables, f, p[k], root, 0, q);
      }
    }
  }

  lemma LinkKeepsTree(mem: Memory, mem': Memory, root: nat, tables: Tables, f: nat, k: nat, c: nat, p: Path)
    requires Tree(mem, root, tables)
    requires k < 3 && f in tables && tables[f] == p[..k]
    requires c !in tables && c < |mem|
    requires Linked(mem, mem', f, p[k], c)
    ensures Tree(mem', root, tables[c := p[..k + 1]])
  {
    var tables' := tables[c := p[..k + 1]];
    assert p[..k + 1] == p[..k] + [p[k]];
    forall g, i | g in tables' && 0 <= i < 512
      ensures EntryOk(mem', tables', g, i)
    {
      if g != c && !(g == f && i == p[k]) {
        assert EntryOk(mem, tables, g, i);
        assert Entry(mem', g, i) == Entry(mem, g, i);
      }
    }
  }

  // ---------------------------------------------------------------------------------------------
  // Writing a leaf
  // ---------------------------------------------------------------------------------------------

  /** Bitwise or. */
  function Or(a: nat, b: nat): nat {
    if a == 0 then b
    else if b == 0 then a
    else (if a % 2 == 1 || b % 2 == 1 then 1 else 0) + 2 * Or(a / 2, b / 2)
  }

  /** `x` with `k` zero bits behind it. */
  function Shift(x: nat, k: nat): nat { if k == 0 then x else 2 * Shift(x, k - 1) }

  lemma OrStep(a: nat, b: nat)
    ensures Or(a, b) == (if a % 2 == 1 || b % 2 == 1 then 1 else 0) + 2 * Or(a / 2, b / 2)
  {
  }

  lemma {:induction false} OrBound(a: nat, b: nat, k: nat)
    requires a < Shift(1, k) && b < Shift(1, k)
    ensures Or(a, b) < Shift(1, k)
    decreases k
  {
    if k > 0 {
      OrBound(a / 2, b / 2, k - 1);
      OrStep(a, b);
    }
  }

  /** One bit more below `p + y / 2` and `q + w / 2`. */
  lemma OrLift(p: nat, q: nat, y: nat, w: nat, m: nat)
    requires Or(p + y / 2, q + w / 2) == m + Or(y / 2, w / 2)
    ensures Or(2 * p + y, 2 * q + w) == 2 * m + Or(y, w)
  {
    assert (2 * p + y) / 2 == p + y / 2 && (2 * p + y) % 2 == y % 2;
    assert (2 * q + w) / 2 == q + w / 2 && (2 * q + w) % 2 == w % 2;
    OrStep(2 * p + y, 2 * q + w);
    OrStep(y, w);
  }

  /** The bits from `k` on and those below it are combined apart. */
  lemma {:induction false} OrParts(k: nat, x: nat, y: nat, z: nat, w: nat)
    requires y < Shift(1, k) && w < Shift(1, k)
    ensures Or(Shift(x, k) + y, Shift(z, k) + w) == Shift(Or(x, z), k) + Or(y, w)
    decreases k
  {
    if k > 0 {
      OrParts(k - 1, x, y / 2, z, w / 2);
      OrLift(Shift(x, k - 1), Shift(z, k - 1), y, w, Shift(Or(x, z), k - 1));
    }
  }

  lemma {:induction false} ShiftTwice(x: nat, a: nat, b: nat)
    ensures Shift(x, a + b) == Shift(Shift(x, a), b)
    decreases b
  {
    if b > 0 {
      ShiftTwice(x, a, b - 1);
    }
  }

  lemma Shift4(x: nat)
    ensures Shift(x, 4) == 16 * x
  {
    assert Shift(x, 1) == 2 * x;
    assert Shift(x, 2) == 4 * x;
    assert Shift(x, 3) == 8 * x;
  }

  lemma Shift12(x: nat)
    ensures Shift(x, 12) == 4096 * x
  {
    Shift4(x);
    ShiftTwice(x, 4, 4);
    Shift4(16 * x);
    ShiftTwice(x, 8, 4);
    Shift4(256 * x);
  }

  lemma Shift40(x: nat)
    ensures Shift(x, 40) == MAX_FRAMES * x
  {
    Shift12(x);
    ShiftTwice(x, 12, 12);
    Shift12(4096 * x);
    ShiftTwice(x, 24, 12);
    Shift12(4096 * (4096 * x));
    ShiftTwice(x, 36, 4);
    Shift4(4096 * (4096 * (4096 * x)));
  }

  /** The last-level entry for a physical page: its address without the low 12 bits, and flags. */
  function LeafEntry(phys: Word, flags: Word): (e: Word)
    ensures FrameOf(e) == Or(FrameOf(phys), FrameOf(flags))
    ensures FrameOf(flags) == 0 ==> FrameOf(e) == FrameOf(phys)
    ensures Present(e) <==> Present(flags)
  {
    LeafParts(phys, flags);
    Or(phys - phys % PAGE_SIZE, flags)
  }

  /** With flags below a page the entry is the page's address with the flags in its low bits. */
  lemma LeafSpelled(phys: Word, flags: Word)
    requires flags < 4096
    ensures LeafEntry(phys, flags) == phys - phys % 4096 + flags
  {
    LeafSplit(phys, flags);
    assert flags / 0x1000 == 0 && flags % 0x1000 == flags;
    assert phys == phys / 0x1000 * 0x1000 + phys % 0x1000;
  }

  lemma LeafParts(phys: Word, flags: Word)
    ensures var e := Or(phys - phys % PAGE_SIZE, flags);
            && 0 <= e < TWO64
            && e / 0x1000 % MAX_FRAMES == Or(FrameOf(phys), FrameOf(flags))
            && (e % 2 == 1 <==> flags % 2 == 1)
  {
    var high, pages, low := phys / 0x1000, flags / 0x1000, flags % 0x1000;
    LeafSplit(phys, flags);
    LeafFits(high, pages);
    OrFrames(high, pages);
    Compose(Or(phys - phys % PAGE_SIZE, flags), Or(high, pages), low);
  }

  lemma LeafSplit(phys: Word, flags: Word)
    ensures Or(phys - phys % PAGE_SIZE, flags) == Or(phys / 0x1000, flags / 0x1000) * 4096 + flags % 0x1000
  {
    Shift12(1);
    Shift12(phys / 0x1000);
    Shift12(flags / 0x1000);
    Shift12(Or(phys / 0x1000, flags / 0x1000));
    OrParts(12, phys / 0x1000, 0, flags / 0x1000, flags % 0x1000);
  }

  lemma LeafFits(x: nat, z: nat)
    requires x < 0x10_0000_0000_0000 && z < 0x10_0000_0000_0000
    ensures Or(x, z) < 0x10_0000_0000_0000
  {
    Shift40(1);
    ShiftTwice(1, 40, 12);
    Shift12(MAX_FRAMES);
    OrBound(x, z, 52);
  }

  lemma Compose(e: nat, pages: nat, low: nat)
    requires e == pages * 4096 + low && low < 4096 && pages < 0x10_0000_0000_0000
    ensures e < TWO64 && e / 0x1000 == pages && e % 2 == low % 2
  {
  }

  lemma OrFrames(x: nat, z: nat)
    ensures Or(x, z) % MAX_FRAMES == Or(x % MAX_FRAMES, z % MAX_FRAMES)
  {
    OrSplit(x / MAX_FRAMES, x % MAX_FRAMES, z / MAX_FRAMES, z % MAX_FRAMES);
    assert x == MAX_FRAMES * (x / MAX_FRAMES) + x % MAX_FRAMES;
    assert z == MAX_FRAMES * (z / MAX_FRAMES) + z % MAX_FRAMES;
  }

  lemma OrSplit(a: nat, b: nat, c: nat, d: nat)
    requires b < MAX_FRAMES && d < MAX_FRAMES
    ensures Or(MAX_FRAMES * a + b, MAX_FRAMES * c + d) % MAX_FRAMES == Or(b, d)
  {
    Shift40(1);
    Shift40(a);
    Shift40(c);
    Shift40(Or(a, c));
    OrParts(40, a, b, c, d);
    OrBound(b, d, 40);
    Remainder(Or(a, c), Or(b, d));
  }

  lemma Remainder(q: nat, r: nat)
    requires r < MAX_FRAMES
    ensures (q * MAX_FRAMES + r) % MAX_FRAMES == r
  {
  }

  /** A write to the last-level entry of page `p` changes the translation of that page only. */
  lemma LeafWrite(mem: Memory, mem': Memory, root: nat, tables: Tables, t: nat, p: Path)
    requires Tree(mem, root, tables) && |mem'| == |mem|
    requires Reach(mem, root, 3, p) == Some(t)
    requires SameButEntry(mem, mem', tables, t, p[3])
    ensures Tree(mem', root, tables)
    ensures Walk(mem', root, 0, p) ==
            if Present(Entry(mem', t, p[3])) then Some(FrameOf(Entry(mem', t, p[3])) * PAGE_SIZE) else None
    ensures forall q: Path :: q != p ==> Walk(mem', root, 0, q) == Walk(mem, root, 0, q)
    ensures forall q: Path :: Reach(mem', root, 3, q) == Reach(mem, root, 3, q)
  {
    ReachNames(mem, root, tables, 3, p);
    forall q: Path
      ensures Reach(mem', root, 3, q) == Reach(mem, root, 3, q)
    {
      ReachBefore(mem, mem', root, tables, t, p[3], 3, q);
    }
    WalkVia(mem', root, 3, p);
    forall q: Path | q != p
      ensures Walk(mem', root, 0, q) == Walk(mem, root, 0, q)
    {
      assert p == p[..3] + [p[3]] && q == q[..3] + [q[3]];
      WalkOffPath(mem, mem', root, tables, t, p[3], root, 0, q);
    }
    forall f, i | f in tables && 0 <= i < 512
      ensures EntryOk(mem', tables, f, i)
    {
      assert EntryOk(mem, tables, f, i);
    }
  }

  // ---------------------------------------------------------------------------------------------
  // What mapping a page needs
  // ---------------------------------------------------------------------------------------------

  /** How many new tables it takes to map the page at `p`, from table `f` at depth `k` on; -1 if
      the way is blocked by a huge-page bit or by a table at frame 0, which the source takes for a
      failed allocation. */
  function Cost(mem: Memory, f: nat, k: nat, p: Path): int
    requires k <= 3
    decreases 3 - k
  {
    if k == 3 then 0
    else
      var e := Entry(mem, f, p[k]);
      if k > 0 && Huge(e) then -1
      else if !Present(e) then 3 - k
      else if FrameOf(e) == 0 then -1
      else Cost(mem, FrameOf(e), k + 1, p)
  }

  /** That number, level by level: blocked by a huge-page bit below the root or a link to frame 0, otherwise the levels
      from the first entry that is not present on. */
  lemma CostSpelled(mem: Memory, root: nat, p: Path)
    ensures var e4 := Entry(mem, root, p[0]);
            var e3 := Entry(mem, e4 / 0x1000 % 0x100_0000_0000, p[1]);
            var e2 := Entry(mem, e3 / 0x1000 % 0x100_0000_0000, p[2]);
            Cost(mem, root, 0, p) ==
            if e4 % 2 == 0 then 3
            else if e4 / 0x1000 % 0x100_0000_0000 == 0 || e3 / 128 % 2 == 1 then -1
            else if e3 % 2 == 0 then 2
            else if e3 / 0x1000 % 0x100_0000_0000 == 0 || e2 / 128 % 2 == 1 then -1
            else if e2 % 2 == 0 then 1
            else if e2 / 0x1000 % 0x100_0000_0000 == 0 then -1
            else 0
  {
    var e4 := Entry(mem, root, p[0]);
    var e3 := Entry(mem, FrameOf(e4), p[1]);
    var e2 := Entry(mem, FrameOf(e3), p[2]);
    assert Present(e4) && FrameOf(e4) != 0 ==> Cost(mem, root, 0, p) == Cost(mem, FrameOf(e4), 1, p);
    assert !Huge(e3) && Present(e3) && FrameOf(e3) != 0 ==> Cost(mem, FrameOf(e4), 1, p) == Cost(mem, FrameOf(e3), 2, p);
    assert Cost(mem, FrameOf(e2), 3, p) == 0;
  }

  /** The walk along `p` gets to depth `k` through tables none of which is at frame 0. */
  predicate Clear(mem: Memory, root: nat, k: nat, p: Path)
    requires k < 4
  {
    Reach(mem, root, k, p).Some? && (k > 0 ==> Reach(mem, root, k, p).value != 0 && Clear(mem, root, k - 1, p))
  }

  /** Along such a walk nothing has been spent yet. */
  lemma {:induction false} ClearCost(mem: Memory, root: nat, k: nat, p: Path)
    requires k < 4 && Clear(mem, root, k, p)
    ensures Cost(mem, root, 0, p) == Cost(mem, Reach(mem, root, k, p).value, k, p)
    decreases k
  {
    if k > 0 {
      ClearCost(mem, root, k - 1, p);
    }
  }

  lemma {:induction false} ClearKept(mem: Memory, mem': Memory, root: nat, tables: Tables, t: nat, i: nat,
                                     k: nat, p: Path)
    requires Tree(mem, root, tables) && t in tables
    requires SameButEntry(mem, mem', tables, t, i)
    requires k < 4 && k <= |tables[t]|
    requires Clear(mem, root, k, p)
    ensures Clear(mem', root, k, p)
    decreases k
  {
    ReachBefore(mem, mem', root, tables, t, i, k, p);
    if k > 0 {
      ClearKept(mem, mem', root, tables, t, i, k - 1, p);
    }
  }

  /** The cost of a page depends on the first three indices only. */
  lemma {:induction false} CostPrefix(mem: Memory, f: nat, k: nat, p: Path, q: Path)
    requires k <= 3 && p[..3] == q[..3]
    ensures Cost(mem, f, k, p) == Cost(mem, f, k, q)
    decreases 3 - k
  {
    if k < 3 {
      assert p[k] == p[..3][k] && q[k] == q[..3][k];
      CostPrefix(mem, FrameOf(Entry(mem, f, p[k])), k + 1, p, q);
    }
  }

  lemma {:induction false} CostAtMost3(mem: Memory, f: nat, k: nat, p: Path)
    requires k <= 3
    ensures Cost(mem, f, k, p) <= 3 - k
    decreases 3 - k
  {
    if k < 3 {
      CostAtMost3(mem, FrameOf(Entry(mem, f, p[k])), k + 1, p);
    }
  }

  lemma EmptyTableCost(mem: Memory, c: nat, k: nat, p: Path)
    requires k <= 3
    requires forall j :: 0 <= j < 512 ==> Entry(mem, c, j) == 0
    ensures Cost(mem, c, k, p) == 3 - k
  {
  }
}
