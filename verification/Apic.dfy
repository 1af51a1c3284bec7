/** The mapping of the local APIC's page: a private pool of three table frames taken from the kernel
    image, and the split of a 2 MiB page that lies in the way. */
module Apic {
  import opened Machine
  import opened Frames
  import opened PageTables
  import opened KernelMemory

  const APIC_VIRT: Word := 0xFFFFFFFFFEE00000

  /** The `i`-th of the 512 small entries that replace the 2 MiB entry `e`. */
  function SplitEntry(e: Word, i: nat): Word
    requires i < 512
  {
    e - e % 0x20_0000 + i * PAGE_SIZE + 0x23
  }

  lemma SplitEntryFrame(e: Word, i: nat)
    requires i < 512
    ensures Present(SplitEntry(e, i))
    ensures FrameOf(SplitEntry(e, i)) == FrameOf(e) - FrameOf(e) % 512 + i
  {
    var h, r := e / 0x20_0000, e % 0x20_0000;
    assert e / 0x1000 == 512 * h + r / 0x1000;
    assert SplitEntry(e, i) / 0x1000 == 512 * h + i;
    LowFrameBits(h, r / 0x1000);
    LowFrameBits(h, i);
  }

  lemma LowFrameBits(h: nat, x: nat)
    requires x < 512
    ensures (512 * h + x) % MAX_FRAMES == 512 * (h % 0x8000_0000) + x
  {
    var q, r := h / 0x8000_0000, h % 0x8000_0000;
    assert 512 * h + x == MAX_FRAMES * q + (512 * r + x);
  }

  /** `mem'` is `mem` with frame `c` filled with the small entries of `e`, and linked from entry `i`
      of table `f`. */
  ghost predicate SplitWritten(mem: Memory, mem': Memory, f: nat, i: nat, c: nat, e: Word) {
    && |mem'| == |mem|
    && (forall j :: 0 <= j < 512 ==> Entry(mem', c, j) == SplitEntry(e, j))
    && (c < MAX_FRAMES && Entry(mem', f, i) == LinkTo(c))
    && (forall g, j :: g != c && !(g == f && j == i) ==> Entry(mem', g, j) == Entry(mem, g, j))
  }

  lemma SplitBase(e: Word, q: Path)
    ensures Present(SplitEntry(e, q[3]))
    ensures FrameOf(SplitEntry(e, q[3])) * PAGE_SIZE == HugeBase(e, 2, q)
  {
    SplitEntryFrame(e, q[3]);
    var a, r := FrameOf(e), LowBits(e);
    assert (a - r + q[3]) * PAGE_SIZE == (a - r) * PAGE_SIZE + q[3] * PAGE_SIZE;
  }

  /** Every page of the region lies where it lay, whatever bits 12 to 20 of the entry are. */
  lemma SplitInside(mem: Memory, mem': Memory, root: nat, tables: Tables, f: nat, c: nat, p: Path, q: Path)
    requires Tree(mem, root, tables) && Reach(mem, root, 2, p) == Some(f)
    requires Present(Entry(mem, f, p[2])) && Huge(Entry(mem, f, p[2]))
    requires c !in tables && SplitWritten(mem, mem', f, p[2], c, Entry(mem, f, p[2]))
    requires q[..3] == p[..3]
    ensures Walk(mem', root, 0, q) == Walk(mem, root, 0, q) == Some(HugeBase(Entry(mem, f, p[2]), 2, q))
    ensures Skew(mem', root, 0, q) == 0
    ensures Reach(mem', root, 3, q) == Some(c)
  {
    var e := Entry(mem, f, p[2]);
    ReachNames(mem, root, tables, 2, p);
    assert q[..2] == q[..3][..2] && p[..2] == p[..3][..2];
    assert q[2] == q[..3][2] && p[2] == p[..3][2];
    ReachPrefix(mem, root, 2, p, q);
    ReachBefore(mem, mem', root, tables, f, p[2], 2, q);
    WalkVia(mem, root, 2, q);
    WalkVia(mem', root, 2, q);
    SplitBase(e, q);
  }

  /** Every translation outside the region stays. */
  lemma SplitOutside(mem: Memory, mem': Memory, root: nat, tables: Tables, f: nat, c: nat, p: Path, q: Path)
    requires Tree(mem, root, tables) && Reach(mem, root, 2, p) == Some(f)
    requires c !in tables && SplitWritten(mem, mem', f, p[2], c, Entry(mem, f, p[2]))
    requires q[..3] != p[..3]
    ensures Walk(mem', root, 0, q) == Walk(mem, root, 0, q) && Skew(mem', root, 0, q) == Skew(mem, root, 0, q)
  {
    ReachNames(mem, root, tables, 2, p);
    assert p[..3] == p[..2] + [p[2]] && q[..3] == q[..2] + [q[2]];
    WalkOffPath(mem, mem', root, tables, f, p[2], root, 0, q);
  }

  lemma SplitTree(mem: Memory, mem': Memory, root: nat, tables: Tables, f: nat, c: nat, p: Path)
    requires Tree(mem, root, tables) && f in tables && tables[f] == p[..2]
    requires c !in tables && c < |mem|
    requires SplitWritten(mem, mem', f, p[2], c, Entry(mem, f, p[2]))
    ensures Tree(mem', root, tables[c := p[..3]])
  {
    var tables' := tables[c := p[..3]];
    assert p[..3] == p[..2] + [p[2]];
    forall g, i | g in tables' && 0 <= i < 512
      ensures EntryOk(mem', tables', g, i)
    {
      if g != c && !(g == f && i == p[2]) {
        assert EntryOk(mem, tables, g, i);
        assert Entry(mem', g, i) == Entry(mem, g, i);
      }
    }
  }

  /** The split changes no page's translation by the processor.  Inside the region of `p` the kernel's
      own walk agrees with it now, and outside it is what it was. */
  ghost predicate SplitResult(mem: Memory, mem': Memory, root: nat, p: Path) {
    && (forall q: Path :: Walk(mem', root, 0, q) == Walk(mem, root, 0, q))
    && (forall q: Path :: Skew(mem', root, 0, q) == if q[..3] == p[..3] then 0 else Skew(mem, root, 0, q))
  }

  /** Every page but `p` is translated as before. */
  ghost predicate OnlyPageChanged(mem: Memory, mem': Memory, root: nat, p: Path) {
    forall q: Path :: q != p ==> Walk(mem', root, 0, q) == Walk(mem, root, 0, q)
  }

  lemma SplitTranslation(mem: Memory, mem': Memory, root: nat, tables: Tables, f: nat, c: nat, p: Path)
    requires Tree(mem, root, tables) && Reach(mem, root, 2, p) == Some(f)
    requires Present(Entry(mem, f, p[2])) && Huge(Entry(mem, f, p[2]))
    requires c !in tables && c < |mem|
    requires SplitWritten(mem, mem', f, p[2], c, Entry(mem, f, p[2]))
    ensures Tree(mem', root, tables[c := p[..3]])
    ensures Reach(mem', root, 3, p) == Some(c)
    ensures SplitResult(mem, mem', root, p)
  {
    ReachNames(mem, root, tables, 2, p);
    SplitTree(mem, mem', root, tables, f, c, p);
    SplitInside(mem, mem', root, tables, f, c, p, p);
    forall q: Path
      ensures Walk(mem', root, 0, q) == Walk(mem, root, 0, q)
      ensures Skew(mem', root, 0, q) == if q[..3] == p[..3] then 0 else Skew(mem, root, 0, q)
    {
      if q[..3] == p[..3] {
        SplitInside(mem, mem', root, tables, f, c, p, q);
      } else {
        SplitOutside(mem, mem', root, tables, f, c, p, q);
      }
    }
  }

  /** The kernel's own walk, unlike the processor's, gives another address for a page of the region
      after the split exactly if the 2 MiB entry had a bit from 12 to 20 set. */
  lemma SplitMovesKernelWalkIff(mem: Memory, mem': Memory, root: nat, p: Path, q: Path)
    requires SplitResult(mem, mem', root, p) && q[..3] == p[..3]
    ensures KernelWalk(mem', root, q) == Walk(mem, root, 0, q)
    ensures Walk(mem, root, 0, q).Some? ==>
              (KernelWalk(mem', root, q) == KernelWalk(mem, root, q) <==> LowBits(HugeEntry(mem, root, p)) == 0)
  {
    assert p[..2] == p[..3][..2] && q[..2] == q[..3][..2] && p[2] == p[..3][2] && q[2] == q[..3][2];
    ReachPrefix(mem, root, 2, p, q);
    SkewIsLowBits(mem, root, q);
  }

  /** What the kernel's own translation of a page-aligned address gives: 0 if there is none. */
  function PageBase(mem: Memory, root: nat, p: Path): nat {
    match KernelWalk(mem, root, p)
    case None => 0
    case Some(base) => base
  }

  /** How many tables of the pool it takes to reach the last level along `p`, from table `f` at depth
      `k` on; -1 if a 1 GiB page is in the way. */
  function Need(mem: Memory, f: nat, k: nat, p: Path): int
    requires k <= 3
    decreases 3 - k
  {
    if k == 3 then 0
    else
      var e := Entry(mem, f, p[k]);
      if !Present(e) then 3 - k
      else if k > 0 && Huge(e) then (if k == 1 then -1 else 1)
      else Need(mem, FrameOf(e), k + 1, p)
  }

  /** That number, level by level: blocked by a 1 GiB page only, one table to split a 2 MiB page, otherwise the levels
      from the first entry that is not present on. */
  lemma NeedSpelled(mem: Memory, root: nat, p: Path)
    ensures var e4 := Entry(mem, root, p[0]);
            var e3 := Entry(mem, e4 / 0x1000 % 0x100_0000_0000, p[1]);
            var e2 := Entry(mem, e3 / 0x1000 % 0x100_0000_0000, p[2]);
            Need(mem, root, 0, p) ==
            if e4 % 2 == 0 then 3
            else if e3 % 2 == 0 then 2
            else if e3 / 128 % 2 == 1 then -1
            else if e2 % 2 == 0 || e2 / 128 % 2 == 1 then 1
            else 0
  {
    var e4 := Entry(mem, root, p[0]);
    var e3 := Entry(mem, FrameOf(e4), p[1]);
    var e2 := Entry(mem, FrameOf(e3), p[2]);
    assert Present(e4) ==> Need(mem, root, 0, p) == Need(mem, FrameOf(e4), 1, p);
    assert Present(e3) && !Huge(e3) ==> Need(mem, FrameOf(e4), 1, p) == Need(mem, FrameOf(e3), 2, p);
    assert Need(mem, FrameOf(e2), 3, p) == 0;
  }

  lemma EmptyTableNeed(mem: Memory, t: nat, k: nat, p: Path)
    requires k <= 3
    requires forall j :: 0 <= j < 512 ==> Entry(mem, t, j) == 0
    ensures Need(mem, t, k, p) == 3 - k
  {
    if k < 3 {
      assert Entry(mem, t, p[k]) == 0;
    }
  }

  lemma ApicLeaf(apicPhys: Word)
    requires apicPhys % PAGE_SIZE == 0 && apicPhys / PAGE_SIZE < MAX_FRAMES
    ensures var e := LeafEntry(apicPhys, 0x23);
            Present(e) && FrameOf(e) * PAGE_SIZE == apicPhys && e == apicPhys + 0x23
  {
    LeafSpelled(apicPhys, 0x23);
    NoFrame(FrameOf(apicPhys));
    FrameOfAddress(apicPhys / PAGE_SIZE);
  }

  class Setup {
    const m: Manager
    const poolVirt: Word
    var poolIdx: int
    /** The frames under the three pages of the pool; 0 for a page that is not mapped. */
    ghost const frames: seq<nat>

    constructor (manager: Manager, pool: Word, ghost poolFrames: seq<nat>)
      ensures m == manager && poolVirt == pool && poolIdx == 0 && frames == poolFrames
    {
      m, poolVirt, poolIdx := manager, pool, 0;
      frames := poolFrames;
    }

    ghost predicate Unused(f: nat)
      reads m
    {
      f < |m.mem| && f !in m.free && f !in m.tables && f !in m.held
    }

    predicate Aligned() {
      poolVirt % PAGE_SIZE == 0 && poolVirt + 3 * PAGE_SIZE <= TWO64
    }

    function PoolPage(i: nat): (v: Word)
      requires Aligned() && i < 3
      ensures v % PAGE_SIZE == 0
    {
      poolVirt + i * PAGE_SIZE
    }

    ghost predicate PoolMapped(mem: Memory)
      requires Aligned() && |frames| == 3
    {
      forall i :: 0 <= i < 3 ==> PageBase(mem, m.root, PathOf(PoolPage(i))) == frames[i] * PAGE_SIZE
    }

    /** The pages of the pool that are left lie, where they are mapped, on frames nobody else uses,
        and no two on the same one. */
    ghost predicate PoolReady()
      reads this, m
    {
      && 0 <= poolIdx <= 3 && Aligned() && |frames| == 3
      && PoolMapped(m.mem)
      && (forall i :: poolIdx <= i < 3 && frames[i] != 0 ==> Unused(frames[i]))
      && (forall i, j :: 0 <= i < j < 3 && frames[i] != 0 ==> frames[i] != frames[j])
    }

    /** The next `n` pages of the pool are there and mapped. */
    ghost predicate Stocked(idx: int, n: int) {
      0 <= idx && idx + n <= 3 && forall i :: idx <= i < idx + n && i < |frames| ==> frames[i] != 0
    }

    lemma StockedSplit(idx: int, a: nat, b: nat)
      requires |frames| == 3
      ensures Stocked(idx, a + b) <==> Stocked(idx, a) && Stocked(idx + a, b)
    {
    }

    method PoolAlloc() returns (frame: nat)
      requires m.Valid() && PoolReady()
      modifies this`poolIdx
      ensures PoolReady()
      ensures frame != 0 <==> Stocked(old(poolIdx), 1)
      ensures frame != 0 ==> poolIdx == old(poolIdx) + 1
      ensures frame != 0 ==> Unused(frame) && forall i :: poolIdx <= i < 3 ==> frames[i] != frame
    {
      if poolIdx >= 3 {
        return 0;
      }
      var virt := PoolPage(poolIdx);
      var phys := m.VirtToPhys(virt);
      frame := phys / PAGE_SIZE;
      assert frame == frames[poolIdx];
      poolIdx := poolIdx + 1;
    }

    /** One level of the way to the APIC page, where the entry is not that of a huge page. */
    method Level(f: nat, k: nat, p: Path) returns (table: nat, ok: bool)
      requires m.Valid() && PoolReady() && k < 3
      requires Reach(m.mem, m.root, k, p) == Some(f)
      requires Present(Entry(m.mem, f, p[k])) && k > 0 ==> !Huge(Entry(m.mem, f, p[k]))
      modifies this`poolIdx, m`mem, m`tables
      ensures m.Valid() && PoolReady() && |m.mem| == |old(m.mem)|
      ensures SameTranslation(old(m.mem), m.mem, m.root)
      ensures Present(Entry(old(m.mem), f, p[k])) ==> ok && m.mem == old(m.mem)
      ensures ok <==> Present(Entry(old(m.mem), f, p[k])) || Stocked(old(poolIdx), 1)
      ensures ok ==> poolIdx == old(poolIdx) + if Present(Entry(old(m.mem), f, p[k])) then 0 else 1
      ensures ok ==> Need(old(m.mem), f, k, p) == poolIdx - old(poolIdx) + Need(m.mem, table, k + 1, p)
      ensures ok ==> Reach(m.mem, m.root, k + 1, p) == Some(table)
    {
      var e := Entry(m.mem, f, p[k]);
      if Present(e) {
        return FrameOf(e), true;
      }
      table := PoolAlloc();
      if table == 0 {
        return 0, false;
      }
      m.LinkFrame(f, p[k], table, k, p);
      EmptyTableNeed(m.mem, table, k + 1, p);
      ok := true;
    }

    /** The 512 small entries, and the entry that now points to them. */
    method Split(f: nat, i: nat, c: nat, e: Word)
      requires f < |m.mem| && i < 512 && c < |m.mem| <= MAX_FRAMES && c != f
      modifies m`mem
      ensures SplitWritten(old(m.mem), m.mem, f, i, c, e)
      ensures forall j :: 0 <= j < 512 ==> Entry(m.mem, c, j) == e - e % 0x20_0000 + j * 0x1000 + 0x23
      ensures Entry(m.mem, f, i) == c * 0x1000 + 3
    {
      var j := 0;
      while j < 512
        invariant 0 <= j <= 512 && |m.mem| == |old(m.mem)|
        invariant forall g, n :: Entry(m.mem, g, n) ==
                    if g == c && 0 <= n < j then SplitEntry(e, n) else Entry(old(m.mem), g, n)
      {
        m.mem := SetEntry(m.mem, c, j, SplitEntry(e, j));
        j := j + 1;
      }
      m.mem := SetEntry(m.mem, f, i, LinkTo(c));
    }

    /** The split of the 2 MiB entry at depth 2 of the path. */
    method SplitHuge(f: nat, p: Path) returns (table: nat, ok: bool)
      requires m.Valid() && PoolReady()
      requires Reach(m.mem, m.root, 2, p) == Some(f)
      requires Present(Entry(m.mem, f, p[2])) && Huge(Entry(m.mem, f, p[2]))
      modifies this`poolIdx, m`mem, m`tables
      ensures ok <==> Stocked(old(poolIdx), 1)
      ensures !ok ==> m.Valid() && m.mem == old(m.mem)
      ensures ok ==> m.ValidTables() && Reach(m.mem, m.root, 3, p) == Some(table)
      ensures ok ==> SplitResult(old(m.mem), m.mem, m.root, p)
    {
      var e := Entry(m.mem, f, p[2]);
      table := PoolAlloc();
      if table == 0 {
        return 0, false;
      }
      ghost var before, tables := m.mem, m.tables;
      ReachNames(before, m.root, tables, 2, p);
      Split(f, p[2], table, e);
      SplitTranslation(before, m.mem, m.root, tables, f, table, p);
      m.tables := tables[table := p[..3]];
      FreeListFrame(before, m.mem, m.freeHead, m.free);
      ok := true;
    }

    /** The last-level write, and the flush of the whole translation cache. */
    method Finish(t: nat, p: Path, apicPhys: Word)
      requires m.ValidTables() && Reach(m.mem, m.root, 3, p) == Some(t)
      requires apicPhys % PAGE_SIZE == 0 && apicPhys / PAGE_SIZE < MAX_FRAMES
      modifies m`mem, m`tlb
      ensures m.Valid()
      ensures Walk(m.mem, m.root, 0, p) == Some(apicPhys) && LeafIs(m.mem, m.root, p, apicPhys + 0x23)
      ensures OnlyPageChanged(old(m.mem), m.mem, m.root, p)
    {
      ApicLeaf(apicPhys);
      ghost var before := m.mem;
      ReachNames(before, m.root, m.tables, 3, p);
      m.mem := SetEntry(m.mem, t, p[3], LeafEntry(apicPhys, 0x23));
      m.tlb := map[];
      LeafWrite(before, m.mem, m.root, m.tables, t, p);
      FreeListFrame(before, m.mem, m.freeHead, m.free);
    }

    /** `apic_init` for the APIC at physical address `apicPhys`; `ok` is false where the source gives
        up: exactly if a 1 GiB page is in the way or the pool does not have the pages it takes. */
    method Init(apicPhys: Word) returns (ok: bool)
      requires m.Valid() && PoolReady()
      requires apicPhys % PAGE_SIZE == 0 && apicPhys / PAGE_SIZE < MAX_FRAMES
      modifies this`poolIdx, m`mem, m`tables, m`tlb
      ensures m.Valid()
      ensures var n := Need(old(m.mem), m.root, 0, PathOf(APIC_VIRT)); ok <==> n >= 0 && Stocked(old(poolIdx), n)
      ensures !ok ==> SameTranslation(old(m.mem), m.mem, m.root)
      ensures ok ==> Translate(m.mem, m.root, 0xFFFF_FFFF_FEE0_0000) == Some(apicPhys)
      ensures ok ==> LeafIs(m.mem, m.root, PathOf(0xFFFF_FFFF_FEE0_0000), apicPhys + 0x23)
      ensures ok ==> OnlyPageChanged(old(m.mem), m.mem, m.root, PathOf(0xFFFF_FFFF_FEE0_0000))
    {
      var p := PathOf(APIC_VIRT);
      ghost var idx := poolIdx;
      var pd, reached := ReachDirectory(p);
      if !reached {
        return false;
      }
      StockedSplit(idx, poolIdx - idx, Need(m.mem, pd, 2, p));
      ok := MapFromDirectory(pd, p, apicPhys);
    }

    /** The first two levels. */
    method ReachDirectory(p: Path) returns (pd: nat, ok: bool)
      requires m.Valid() && PoolReady()
      modifies this`poolIdx, m`mem, m`tables
      ensures m.Valid() && PoolReady() && SameTranslation(old(m.mem), m.mem, m.root)
      ensures ok ==> Reach(m.mem, m.root, 2, p) == Some(pd)
      ensures ok ==> Need(old(m.mem), m.root, 0, p) == poolIdx - old(poolIdx) + Need(m.mem, pd, 2, p)
      ensures ok ==> old(poolIdx) <= poolIdx && Stocked(old(poolIdx), poolIdx - old(poolIdx))
      ensures !ok ==> var n := Need(old(m.mem), m.root, 0, p); n < 0 || !Stocked(old(poolIdx), n)
    {
      ghost var idx := poolIdx;
      var pdpt, linked := Level(m.root, 0, p);
      StockedSplit(idx, 0, 1);
      StockedSplit(idx, 1, 1);
      StockedSplit(idx, 1, 2);
      StockedSplit(idx + 1, 1, 1);
      if !linked {
        return 0, false;
      }
      var pdpte := Entry(m.mem, pdpt, p[1]);
      if Present(pdpte) && Huge(pdpte) {
        return 0, false;
      }
      pd, ok := Level(pdpt, 1, p);
    }

    /** The third level, with the split if there is a 2 MiB page, and the last-level write. */
    method MapFromDirectory(pd: nat, p: Path, apicPhys: Word) returns (ok: bool)
      requires m.Valid() && PoolReady() && Reach(m.mem, m.root, 2, p) == Some(pd)
      requires apicPhys % PAGE_SIZE == 0 && apicPhys / PAGE_SIZE < MAX_FRAMES
      modifies this`poolIdx, m`mem, m`tables, m`tlb
      ensures m.Valid()
      ensures Need(old(m.mem), pd, 2, p) in {0, 1}
      ensures ok <==> Stocked(old(poolIdx), Need(old(m.mem), pd, 2, p))
      ensures !ok ==> SameTranslation(old(m.mem), m.mem, m.root)
      ensures ok ==> Walk(m.mem, m.root, 0, p) == Some(apicPhys) && LeafIs(m.mem, m.root, p, apicPhys + 0x23)
      ensures ok ==> OnlyPageChanged(old(m.mem), m.mem, m.root, p)
    {
      var pde := Entry(m.mem, pd, p[2]);
      var pt: nat;
      if Present(pde) && Huge(pde) {
        pt, ok := SplitHuge(pd, p);
        if ok {
          Finish(pt, p, apicPhys);
        }
      } else {
        pt, ok := Level(pd, 2, p);
        if ok {
          Finish(pt, p, apicPhys);
        }
      }
    }
  }
}
