/** The kernel's physical memory in motion: the frame allocator, the page mapper and a translation
    cache, all working on the same frames.

    The ghost fields say who owns each frame: it is free, it is a page table, or it was handed out.
    `Valid` keeps the three apart, the free list intact, the tables a tree, and every cached
    translation equal to the walk. */
module KernelMemory {
  import opened Machine
  import opened Frames
  import opened PageTables

  /** The page behind the heap's `i`-th 4 KiB. */
  function HeapPage(i: int): Word
    requires 0 <= i < HEAP_PAGES
  {
    HEAP_VIRT + i * PAGE_SIZE
  }

  lemma HeapPath(i: int)
    requires 0 <= i < HEAP_PAGES
    ensures PathOf(HeapPage(i)) == [511, 510, 8, i]
  {
    var v := HeapPage(i);
    assert v / 0x80_0000_0000 == 0x1FFFFFF;
    assert v / 0x4000_0000 == 0x3FFFFFFFE;
    assert v / 0x20_0000 == 0x7FFFFFFFC08;
    assert v / 0x1000 == 0xFFFFFFFF81000 + i;
  }

  /** How many tables the heap's first page needs. */
  function HeapCost(mem: Memory, root: nat): int { Cost(mem, root, 0, PathOf(HEAP_VIRT)) }

  /** The frame behind the heap's `i`-th page, when the tables take `c` frames after the first. */
  function HeapFrame(free: seq<nat>, c: int, i: int): nat {
    var k := if i == 0 then 0 else c + i;
    if 0 <= k < |free| then free[k] else 0
  }

  /** Different pages of the heap get different frames. */
  lemma HeapFramesDistinct(free: seq<nat>, c: int, i: int, j: int)
    requires Distinct(free) && 0 <= c && |free| >= HEAP_PAGES + c
    requires 0 <= i < j < HEAP_PAGES
    ensures HeapFrame(free, c, i) != HeapFrame(free, c, j)
  {
  }

  /** The state of the list after `i` rounds of the mapping loop: `all` were free before, and the
      first page needed `c` tables. */
  ghost predicate HeapProgress(mem: Memory, root: nat, free: seq<nat>, all: seq<nat>, c: int, i: nat) {
    if i == 0 then free == all && HeapCost(mem, root) == c
    else if c < 0 then i <= |all| && free == all[i..] && HeapCost(mem, root) == c
    else if |all| > c then c + i <= |all| && free == all[c + i..] && HeapCost(mem, root) == 0
    else i == 1 && free == [] && all != []
  }

  /** One round: a frame is taken, then the cost of the page, as far as there are frames. */
  lemma HeapProgressNext(mem: Memory, mem': Memory, root: nat, free: seq<nat>, free': seq<nat>, all: seq<nat>, c: int, i: nat)
    requires HeapProgress(mem, root, free, all, c, i) && free != []
    requires var n := HeapCost(mem, root);
             && free' == free[1..][if n < 0 then 0 else Min(n, |free| - 1)..]
             && (0 <= n <= |free| - 1 ==> HeapCost(mem', root) == 0)
             && (n < 0 ==> mem' == mem)
    ensures HeapProgress(mem', root, free', all, c, i + 1)
    ensures 0 <= c < |all| ==> 0 <= HeapCost(mem, root) <= |free| - 1 && free[0] == HeapFrame(all, c, i)
  {
  }

  /** All pages of the heap share their tables. */
  lemma SameHeapTable(mem: Memory, root: nat, i: nat)
    requires i < HEAP_PAGES
    ensures PathOf(HeapPage(i))[..3] == PathOf(HEAP_VIRT)[..3]
    ensures Cost(mem, root, 0, PathOf(HeapPage(i))) == HeapCost(mem, root)
  {
    HeapPath(i);
    HeapPath(0);
    CostPrefix(mem, root, 0, PathOf(HEAP_VIRT), PathOf(HeapPage(i)));
  }

  /** No page but the 256 of the heap is translated differently. */
  ghost predicate OnlyHeapChanged(mem: Memory, mem': Memory, root: nat) {
    forall q: Path :: q[..3] != PathOf(HEAP_VIRT)[..3] || q[3] >= HEAP_PAGES ==>
      Walk(mem', root, 0, q) == Walk(mem, root, 0, q)
  }

  lemma NoFrame(f: nat)
    ensures Or(f, FrameOf(0x23)) == f && Present(0x23)
  {
  }

  lemma HeapPageChanged(mem: Memory, mem': Memory, root: nat, i: nat)
    requires i < HEAP_PAGES
    requires forall q: Path :: q != PathOf(HeapPage(i)) ==> Walk(mem', root, 0, q) == Walk(mem, root, 0, q)
    ensures OnlyHeapChanged(mem, mem', root)
  {
    HeapPath(i);
    HeapPath(0);
    forall q: Path | q[..3] != PathOf(HEAP_VIRT)[..3] || q[3] >= HEAP_PAGES
      ensures q != PathOf(HeapPage(i))
    {
      assert PathOf(HeapPage(i))[..3] == PathOf(HEAP_VIRT)[..3];
    }
  }

  ghost predicate HeapMapped(mem: Memory, root: nat, held: set<nat>, all: seq<nat>, c: int, i: int)
    requires 0 <= i <= HEAP_PAGES
  {
    forall j :: 0 <= j < i ==>
      HeapFrame(all, c, j) in held && Walk(mem, root, 0, PathOf(HeapPage(j))) == Some(HeapFrame(all, c, j) * PAGE_SIZE)
  }

  lemma HeapMappedNext(mem: Memory, mem': Memory, root: nat, held: set<nat>, held': set<nat>, all: seq<nat>, c: int, i: int)
    requires 0 <= i < HEAP_PAGES && 0 <= c
    requires HeapMapped(mem, root, held, all, c, i) && held <= held'
    requires HeapFrame(all, c, i) in held'
    requires Walk(mem', root, 0, PathOf(HeapPage(i))) == Some(HeapFrame(all, c, i) * PAGE_SIZE)
    requires forall q: Path :: q != PathOf(HeapPage(i)) ==> Walk(mem', root, 0, q) == Walk(mem, root, 0, q)
    ensures HeapMapped(mem', root, held', all, c, i + 1)
  {
    HeapPath(i);
    forall j | 0 <= j < i
      ensures PathOf(HeapPage(j)) != PathOf(HeapPage(i))
    {
      HeapPath(j);
      assert PathOf(HeapPage(j))[3] == j;
    }
  }

  function Max(a: int, b: int): int { if a < b then b else a }

  /** Every cached translation is what the tables say. */
  ghost predicate CacheAgrees(mem: Memory, root: nat, tlb: map<Path, nat>) {
    forall p: Path :: p in tlb ==> Walk(mem, root, 0, p) == Some(tlb[p])
  }

  /** Some frames of the list went into tables on the way to the page at `p`, and it needs that
      many fewer now. */
  ghost predicate Spent(mem: Memory, free: seq<nat>, mem': Memory, free': seq<nat>, root: nat, p: Path) {
    var d := |free| - |free'|;
    && 0 <= d && free' == free[d..]
    && Cost(mem', root, 0, p) == Cost(mem, root, 0, p) - d
    && (d > 0 ==> Cost(mem', root, 0, p) >= 0)
  }

  /** The page cannot be mapped from here: the way is blocked, or frames are missing. */
  ghost predicate Stuck(mem: Memory, free: seq<nat>, root: nat, p: Path) {
    var c := Cost(mem, root, 0, p);
    c < 0 || (free == [] && c > 0)
  }

  lemma SpentTwice(m0: Memory, f0: seq<nat>, m1: Memory, f1: seq<nat>, m2: Memory, f2: seq<nat>, root: nat, p: Path)
    requires Spent(m0, f0, m1, f1, root, p) && Spent(m1, f1, m2, f2, root, p)
    ensures Spent(m0, f0, m2, f2, root, p)
  {
  }

  /** How many frames have been spent once the page is reached or given up. */
  lemma SpentInAll(mem: Memory, free: seq<nat>, mem': Memory, free': seq<nat>, root: nat, p: Path)
    requires Spent(mem, free, mem', free', root, p)
    ensures var c := Cost(mem, root, 0, p);
            && (Cost(mem', root, 0, p) == 0 ==> 0 <= c <= |free| && free' == free[c..])
            && (Stuck(mem', free', root, p) ==>
                  !(0 <= c <= |free|) && free' == free[if c < 0 then 0 else Min(c, |free|)..])
  {
  }

  /** Frame `f` is the stack of a task that starts at `entry`: clear, but for the five words an interrupt
      return needs. */
  ghost predicate StackWords(mem: Memory, f: nat, entry: Word, top: int) {
    && (forall j :: 0 <= j < 507 ==> Entry(mem, f, j) == 0)
    && Entry(mem, f, 507) == entry && Entry(mem, f, 508) == 0x08 && Entry(mem, f, 509) == 0x202
    && Entry(mem, f, 510) == top && Entry(mem, f, 511) == 0x10
  }

  /** The last-level entry of the page is `e`. */
  ghost predicate LeafIs(mem: Memory, root: nat, p: Path, e: int) {
    Reach(mem, root, 3, p).Some? && Entry(mem, Reach(mem, root, 3, p).value, p[3]) == e
  }

  /** These frames hold what they held. */
  ghost predicate SameFrames(mem: Memory, mem': Memory, fs: set<nat>) {
    forall f, j :: f in fs ==> Entry(mem', f, j) == Entry(mem, f, j)
  }

  class Manager {
    var mem: Memory
    var freeHead: Word
    var freeCount: int
    const root: nat
    var tlb: map<Path, nat>
    ghost var free: seq<nat>
    ghost var tables: Tables
    ghost var held: set<nat>

    ghost predicate Valid()
      reads this
    {
      ValidTables() && CacheAgrees(mem, root, tlb)
    }

    /** The invariant without the cache, for the time between a write and its invalidation. */
    ghost predicate ValidTables()
      reads this
    {
      && |mem| <= MAX_FRAMES
      && FreeList(mem, freeHead, free)
      && freeCount == |free|
      && Tree(mem, root, tables)
      && (forall f :: f in free ==> f !in tables && f !in held)
      && (forall f :: f in held ==> 0 < f < |mem| && f !in tables)
    }

    /** All frames somebody owns. */
    ghost function Pool(): set<nat>
      reads this`free, this`tables, this`held
    {
      SetOf(free) + tables.Keys + held
    }

    /** The three kinds of frames add up: nothing is counted twice. */
    lemma PoolSize()
      requires Valid()
      ensures |Pool()| == freeCount + |tables.Keys| + |held|
    {
      FreeListBounds(mem, freeHead, free);
      SetOfDistinct(free);
      var listed := SetOf(free);
      assert listed !! tables.Keys && (listed + tables.Keys) !! held;
    }

    /** The machine as the boot loader leaves it: its page tables, an empty frame list, nothing
        cached. */
    constructor (memory: Memory, cr3: nat, ghost bootTables: Tables)
      requires |memory| <= MAX_FRAMES && Tree(memory, cr3, bootTables)
      ensures Valid() && mem == memory && root == cr3 && tables == bootTables
      ensures free == [] && held == {} && tlb == map[]
    {
      mem, root, tlb := memory, cr3, map[];
      freeHead, freeCount := 0, 0;
      free, tables, held := [], bootTables, {};
    }

    // --- pmm.c ---------------------------------------------------------------------------------

    method PmmInit(regions: seq<Region>, kstart: Word, kend: Word)
      requires Valid() && free == []
      requires BootMap(regions, |mem|)
      requires forall f :: f in AllFrames(regions, kstart, kend) ==> f !in tables && f !in held
      modifies this`mem, this`freeHead, this`freeCount, this`free
      ensures Valid()
      ensures free == Pushed(AllFrames(regions, kstart, kend))
      ensures freeCount == |AllFrames(regions, kstart, kend)|
      ensures SameTranslation(old(mem), mem, root)
    {
      ghost var before := mem;
      var i := 0;
      while i < |regions|
        invariant 0 <= i <= |regions|
        invariant Valid() && |mem| == |before|
        invariant free == Pushed(AllFrames(regions[..i], kstart, kend))
        invariant SameTables(before, mem, tables)
      {
        ghost var done := AllFrames(regions[..i], kstart, kend);
        NextRegion(regions, kstart, kend, i, |mem|);
        PushRegion(regions[i], kstart, kend, done);
        i := i + 1;
      }
      assert regions[..i] == regions;
      PushedMembers(AllFrames(regions, kstart, kend));
      OutsideTables(before, mem, root, tables);
    }

    /** The inner loop of `pmm_init`, for one region. */
    method PushRegion(r: Region, kstart: Word, kend: Word, ghost done: seq<nat>)
      requires Valid() && free == Pushed(done)
      requires Distinct(done + RegionFrames(r, kstart, kend))
      requires forall f :: f in RegionFrames(r, kstart, kend) ==> 0 < f < |mem| && f !in tables && f !in held
      modifies this`mem, this`freeHead, this`freeCount, this`free
      ensures Valid() && |mem| == |old(mem)|
      ensures free == Pushed(done + RegionFrames(r, kstart, kend))
      ensures SameTables(old(mem), mem, tables)
    {
      ghost var mine := RegionFrames(r, kstart, kend);
      assert done + mine[..0] == done;
      var start := Clip(r.base, Top(r), kstart, kend);
      if !r.usable || start >= Top(r) {
        return;
      }
      var page: int := PageUp(start);
      ghost var j := 0;
      while page < PageDown(Top(r))
        invariant page == PageUp(start) + j * PAGE_SIZE && 0 <= j <= |mine|
        invariant Valid() && |mem| == |old(mem)|
        invariant free == Pushed(done + mine[..j])
        invariant SameTables(old(mem), mem, tables)
        decreases PageDown(Top(r)) - page
      {
        assert mine[j] * PAGE_SIZE == page;
        PushFrame(page, done, mine, j);
        j := j + 1;
        page := page + PAGE_SIZE;
      }
      assert mine[..j] == mine;
    }

    /** The next frame of a region. */
    method PushFrame(page: Word, ghost done: seq<nat>, ghost mine: seq<nat>, ghost j: nat)
      requires Valid() && j < |mine| && page == mine[j] * PAGE_SIZE
      requires Distinct(done + mine) && free == Pushed(done + mine[..j])
      requires forall f :: f in mine ==> 0 < f < |mem| && f !in tables && f !in held
      modifies this`mem, this`freeHead, this`freeCount, this`free
      ensures Valid() && |mem| == |old(mem)|
      ensures free == Pushed(done + mine[..j + 1])
      ensures SameTables(old(mem), mem, tables)
    {
      NextFrame(done, mine, j);
      assert mine[j] in mine;
      FrameOfAddress(mine[j]);
      Push(page);
    }

    /** The push of a frame that nobody owns, as `pmm_init` and `pmm_free` write it. */
    method Push(page: Word)
      requires Valid()
      requires page % PAGE_SIZE == 0 && 0 < page / PAGE_SIZE < |mem|
      requires var f := page / PAGE_SIZE; f !in free && f !in tables && f !in held
      modifies this`mem, this`freeHead, this`freeCount, this`free
      ensures Valid()
      ensures free == [page / PAGE_SIZE] + old(free)
      ensures |mem| == |old(mem)| && SameTables(old(mem), mem, tables)
      ensures SameTranslation(old(mem), mem, root)
      ensures SameFrames(old(mem), mem, old(held))
    {
      var f := page / PAGE_SIZE;
      PushKeepsList(mem, freeHead, free, f);
      ghost var before := mem;
      mem := SetEntry(mem, f, 0, freeHead);
      freeHead := page;
      freeCount := freeCount + 1;
      free := [f] + free;
      OutsideTables(before, mem, root, tables);
    }

    /** `pmm_alloc`.  The caller says whether the frame is for its own use or for a table. */
    method PmmAlloc(ghost handOut: bool) returns (page: Word)
      requires Valid()
      modifies this`freeHead, this`freeCount, this`free, this`held
      ensures Valid()
      ensures page == 0 <==> old(free) == []
      ensures page == 0 ==> free == old(free) && held == old(held)
      ensures page != 0 ==>
                && page == old(free)[0] * PAGE_SIZE && 0 < page / PAGE_SIZE < |mem|
                && free == old(free)[1..]
                && page / PAGE_SIZE !in free && page / PAGE_SIZE !in tables && page / PAGE_SIZE !in old(held)
                && held == old(held) + (if handOut then {page / PAGE_SIZE} else {})
      ensures page == 0 || handOut ==> Pool() == old(Pool())
      ensures page != 0 && !handOut ==> old(Pool()) == Pool() + {page / PAGE_SIZE}
    {
      if freeHead == 0 {
        return 0;
      }
      page := freeHead;
      ghost var f := free[0];
      assert f in free;
      freeHead := Entry(mem, page / PAGE_SIZE, 0);
      freeCount := freeCount - 1;
      free := free[1..];
      if handOut {
        held := held + {f};
      }
      assert old(SetOf(free)) == {f} + SetOf(free);
    }

    /** `pmm_free` of a frame that was handed out; address 0 is ignored. */
    method PmmFree(page: Word)
      requires Valid()
      requires page % PAGE_SIZE == 0 && (page != 0 ==> page / PAGE_SIZE in held)
      modifies this`mem, this`freeHead, this`freeCount, this`free, this`held
      ensures Valid() && Pool() == old(Pool()) && |mem| == |old(mem)|
      ensures page == 0 ==> free == old(free) && held == old(held)
      ensures page != 0 ==> free == [page / PAGE_SIZE] + old(free) && held == old(held) - {page / PAGE_SIZE}
      ensures SameTranslation(old(mem), mem, root)
      ensures SameFrames(old(mem), mem, held)
    {
      if page == 0 {
        return;
      }
      held := held - {page / PAGE_SIZE};
      Push(page);
    }

    // --- vmm.c ---------------------------------------------------------------------------------

    /** One level of the way down from the table `f` at depth `k` of the path `p`: the huge-page
        test, which the source leaves out at the root, and `ensure_table`.  Tables are named by
        frame number, so 0 is the address the source tests for. */
    method Descend(f: nat, k: nat, p: Path) returns (table: nat)
      requires Valid() && k < 3
      requires Clear(mem, root, k, p) && Reach(mem, root, k, p) == Some(f)
      modifies this`mem, this`freeHead, this`freeCount, this`free, this`tables, this`held
      ensures Valid() && Pool() == old(Pool()) && held == old(held) && |mem| == |old(mem)|
      ensures SameTranslation(old(mem), mem, root)
      ensures SameFrames(old(mem), mem, old(held))
      ensures Spent(old(mem), old(free), mem, free, root, p)
      ensures |free| == |old(free)| ==> mem == old(mem)
      ensures table == 0 ==> Stuck(mem, free, root, p)
      ensures table != 0 ==> Clear(mem, root, k + 1, p) && Reach(mem, root, k + 1, p) == Some(table)
    {
      ClearCost(mem, root, k, p);
      if k > 0 && Huge(Entry(mem, f, p[k])) {
        return 0;
      }
      table := EnsureTable(f, p[k], k, p);
    }

    method EnsureTable(f: nat, i: nat, ghost k: nat, ghost p: Path) returns (table: nat)
      requires Valid() && k < 3 && i == p[k]
      requires Clear(mem, root, k, p) && Reach(mem, root, k, p) == Some(f)
      requires k > 0 ==> !Huge(Entry(mem, f, i))
      modifies this`mem, this`freeHead, this`freeCount, this`free, this`tables, this`held
      ensures Valid() && Pool() == old(Pool()) && held == old(held) && |mem| == |old(mem)|
      ensures SameTranslation(old(mem), mem, root)
      ensures SameFrames(old(mem), mem, old(held))
      ensures Spent(old(mem), old(free), mem, free, root, p)
      ensures |free| == |old(free)| ==> mem == old(mem)
      ensures table == 0 ==> Stuck(mem, free, root, p)
      ensures table != 0 ==> Clear(mem, root, k + 1, p) && Reach(mem, root, k + 1, p) == Some(table)
    {
      var e := Entry(mem, f, i);
      ClearCost(mem, root, k, p);
      if Present(e) {
        return FrameOf(e);
      }
      table := NewTable(f, i, k, p);
    }

    /** Its second half, for an absent entry: allocate, clear and link. */
    method NewTable(f: nat, i: nat, ghost k: nat, ghost p: Path) returns (table: nat)
      requires Valid() && k < 3 && i == p[k]
      requires Clear(mem, root, k, p) && Reach(mem, root, k, p) == Some(f)
      requires !Present(Entry(mem, f, i)) && (k > 0 ==> !Huge(Entry(mem, f, i)))
      modifies this`mem, this`freeHead, this`freeCount, this`free, this`tables, this`held
      ensures Valid() && Pool() == old(Pool()) && held == old(held) && |mem| == |old(mem)|
      ensures SameTranslation(old(mem), mem, root)
      ensures SameFrames(old(mem), mem, old(held))
      ensures Spent(old(mem), old(free), mem, free, root, p)
      ensures |free| == |old(free)| ==> mem == old(mem)
      ensures table == 0 ==> Stuck(mem, free, root, p)
      ensures table != 0 ==> Clear(mem, root, k + 1, p) && Reach(mem, root, k + 1, p) == Some(table)
      ensures table == 0 <==> old(free) == []
      ensures table != 0 ==> table == old(free)[0] && free == old(free)[1..] && Entry(mem, f, i) == table * 4096 + 3
      ensures table != 0 ==> forall j :: 0 <= j < 512 ==> Entry(mem, table, j) == 0
    {
      ClearCost(mem, root, k, p);
      var page := PmmAlloc(false);
      if page == 0 {
        return 0;
      }
      table := page / PAGE_SIZE;
      LinkTable(f, i, table, k, p);
    }

    /** The link, seen from the cost of the page. */
    method LinkTable(f: nat, i: nat, c: nat, ghost k: nat, ghost p: Path)
      requires Valid() && k < 3 && i == p[k]
      requires Clear(mem, root, k, p) && Reach(mem, root, k, p) == Some(f)
      requires !Present(Entry(mem, f, i)) && (k > 0 ==> !Huge(Entry(mem, f, i)))
      requires 0 < c < |mem| && c !in free && c !in tables && c !in held
      modifies this`mem, this`tables
      ensures Valid() && |mem| == |old(mem)|
      ensures Pool() == old(Pool()) + {c}
      ensures SameTranslation(old(mem), mem, root)
      ensures SameFrames(old(mem), mem, old(held))
      ensures Clear(mem, root, k + 1, p) && Reach(mem, root, k + 1, p) == Some(c)
      ensures Cost(old(mem), root, 0, p) == 3 - k && Cost(mem, root, 0, p) == 2 - k && Entry(mem, f, i) == c * 4096 + 3
      ensures forall j :: 0 <= j < 512 ==> Entry(mem, c, j) == 0
    {
      ghost var before, was := mem, tables;
      ReachNames(mem, root, tables, k, p);
      ClearCost(mem, root, k, p);
      LinkFrame(f, i, c, k, p);
      ClearKept(before, mem, root, was, f, i, k, p);
      EmptyTableCost(mem, c, k + 1, p);
      ClearCost(mem, root, k + 1, p);
    }

    /** Clear a frame and link it as a table in place of an absent entry. */
    method LinkFrame(f: nat, i: nat, c: nat, ghost k: nat, ghost p: Path)
      requires Valid() && k < 3 && i == p[k]
      requires Reach(mem, root, k, p) == Some(f) && !Present(Entry(mem, f, i))
      requires 0 < c < |mem| && c !in free && c !in tables && c !in held
      modifies this`mem, this`tables
      ensures Valid() && |mem| == |old(mem)|
      ensures tables == old(tables)[c := p[..k + 1]] && Entry(mem, f, i) == c * 4096 + 3
      ensures SameTranslation(old(mem), mem, root)
      ensures SameFrames(old(mem), mem, old(held))
      ensures Reach(mem, root, k + 1, p) == Some(c)
      ensures SameButEntry(old(mem), mem, old(tables), f, i)
      ensures forall j :: 0 <= j < 512 ==> Entry(mem, c, j) == 0
    {
      ghost var before := mem;
      ReachNames(mem, root, tables, k, p);
      ClearFrame(c);
      mem := SetEntry(mem, f, i, LinkTo(c));
      LinkKeepsTranslation(before, mem, root, tables, f, k, c, p);
      FreeListFrame(before, mem, freeHead, free);
      tables := tables[c := p[..k + 1]];
    }

    /** The loop that zeroes a frame. */
    method ClearFrame(f: nat)
      requires f < |mem|
      modifies this`mem
      ensures |mem| == |old(mem)|
      ensures forall g, j :: Entry(mem, g, j) == if g == f then 0 else Entry(old(mem), g, j)
    {
      var i := 0;
      while i < 512
        invariant 0 <= i <= 512 && |mem| == |old(mem)|
        invariant forall g, j :: Entry(mem, g, j) == if g == f && j < i then 0 else Entry(old(mem), g, j)
      {
        mem := SetEntry(mem, f, i, 0);
        i := i + 1;
      }
    }

    /** Maps the page of `virt` to the physical page that `phys` and whatever page bits `flags` has name;
        flags have none in all calls. */
    method MapPage(virt: Word, phys: Word, flags: Word) returns (ghost done: bool)
      requires Valid()
      modifies this`mem, this`freeHead, this`freeCount, this`free, this`tables, this`held, this`tlb
      ensures Valid() && Pool() == old(Pool()) && held == old(held) && |mem| == |old(mem)|
      ensures SameFrames(old(mem), mem, old(held))
      ensures var p, c := PathOf(virt), Cost(old(mem), root, 0, PathOf(virt));
              && (done <==> 0 <= c <= |old(free)|)
              && free == old(free)[if c < 0 then 0 else Min(c, |old(free)|)..]
              && (done ==> Walk(mem, root, 0, p) ==
                           if Present(flags) then Some(Or(FrameOf(phys), FrameOf(flags)) * PAGE_SIZE) else None)
              && (done ==> forall q: Path :: q != p ==> Walk(mem, root, 0, q) == Walk(old(mem), root, 0, q))
              && (done ==> Cost(mem, root, 0, p) == 0)
              && (done ==> LeafIs(mem, root, p, LeafEntry(phys, flags)))
              && (!done ==> SameTranslation(old(mem), mem, root))
              && (c < 0 ==> mem == old(mem))
    {
      var p := PathOf(virt);
      var pt := ReachTable(root, 0, p);
      SpentInAll(old(mem), old(free), mem, free, root, p);
      done := pt != 0;
      if pt != 0 {
        ClearCost(mem, root, 3, p);
        SetLeaf(p, pt, LeafEntry(phys, flags));
      }
    }

    /** The way down to the last-level table from the table `f` at depth `k`, making missing tables;
        0 if there is none. */
    method ReachTable(f: nat, k: nat, p: Path) returns (pt: nat)
      requires Valid() && k <= 3
      requires Clear(mem, root, k, p) && Reach(mem, root, k, p) == Some(f)
      modifies this`mem, this`freeHead, this`freeCount, this`free, this`tables, this`held
      ensures Valid() && Pool() == old(Pool()) && held == old(held) && |mem| == |old(mem)|
      ensures SameTranslation(old(mem), mem, root)
      ensures SameFrames(old(mem), mem, old(held))
      ensures Spent(old(mem), old(free), mem, free, root, p)
      ensures |free| == |old(free)| ==> mem == old(mem)
      ensures pt == 0 && (k == 3 ==> f != 0) ==> Stuck(mem, free, root, p)
      ensures pt != 0 ==> Clear(mem, root, 3, p) && Reach(mem, root, 3, p) == Some(pt)
      decreases 3 - k
    {
      if k == 3 {
        return f;
      }
      var table := Descend(f, k, p);
      ghost var m1, f1 := mem, free;
      if table == 0 {
        return 0;
      }
      pt := ReachTable(table, k + 1, p);
      SpentTwice(old(mem), old(free), m1, f1, mem, free, root, p);
    }

    /** The write of a last-level entry and the invalidation that follows it. */
    method SetLeaf(p: Path, t: nat, e: Word)
      requires Valid() && Reach(mem, root, 3, p) == Some(t)
      modifies this`mem, this`tlb
      ensures Valid() && |mem| == |old(mem)|
      ensures SameFrames(old(mem), mem, old(held))
      ensures Walk(mem, root, 0, p) == if Present(e) then Some(FrameOf(e) * PAGE_SIZE) else None
      ensures forall q: Path :: q != p ==> Walk(mem, root, 0, q) == Walk(old(mem), root, 0, q)
      ensures Clear(old(mem), root, 3, p) ==> Cost(mem, root, 0, p) == 0
      ensures LeafIs(mem, root, p, e)
    {
      ghost var before := mem;
      ReachNames(mem, root, tables, 3, p);
      mem := SetEntry(mem, t, p[3], e);
      tlb := tlb - {p};
      LeafWrite(before, mem, root, tables, t, p);
      FreeListFrame(before, mem, freeHead, free);
      if Clear(before, root, 3, p) {
        ClearKept(before, mem, root, tables, t, p[3], 3, p);
        ClearCost(mem, root, 3, p);
      }
    }

    method UnmapPage(virt: Word)
      requires Valid()
      modifies this`mem, this`tlb
      ensures Valid() && |mem| == |old(mem)|
      ensures SameFrames(old(mem), mem, old(held))
      ensures Reach(old(mem), root, 3, PathOf(virt)).Some? ==>
                Walk(mem, root, 0, PathOf(virt)) == None && LeafIs(mem, root, PathOf(virt), 0)
      ensures Reach(old(mem), root, 3, PathOf(virt)).None? ==> mem == old(mem)
      ensures forall q: Path :: q != PathOf(virt) ==> Walk(mem, root, 0, q) == Walk(old(mem), root, 0, q)
    {
      var p := PathOf(virt);
      var p4e := Entry(mem, root, p[0]);
      ReachSteps(mem, root, p);
      if !Present(p4e) {
        return;
      }
      var p3e := Entry(mem, FrameOf(p4e), p[1]);
      if !Present(p3e) || Huge(p3e) {
        return;
      }
      var p2e := Entry(mem, FrameOf(p3e), p[2]);
      if !Present(p2e) || Huge(p2e) {
        return;
      }
      SetLeaf(p, FrameOf(p2e), 0);
    }

    /** The kernel's own walk, 0 for an address that is not mapped.  It gives what the processor uses
        exactly if a 2 MiB entry met on the way has bits 12 to 20 clear, and is off by them if not. */
    method VirtToPhys(virt: Word) returns (phys: nat)
      ensures var p := PathOf(virt);
              match Translate(mem, root, virt)
              case None => phys == 0
              case Some(a) =>
                && phys == a + LowBits(HugeEntry(mem, root, p)) * PAGE_SIZE == a + Skew(mem, root, 0, p)
                && (phys == a <==> LowBits(HugeEntry(mem, root, p)) == 0)
    {
      var p := PathOf(virt);
      OffsetSplits(virt);
      SkewIsLowBits(mem, root, p);
      var p4e := Entry(mem, root, p[0]);
      if !Present(p4e) {
        return 0;
      }
      var p3e := Entry(mem, FrameOf(p4e), p[1]);
      if !Present(p3e) {
        return 0;
      }
      if Huge(p3e) {
        return p3e / 0x4000_0000 % 0x40_0000 * 0x4000_0000 + virt % 0x4000_0000;
      }
      var p2e := Entry(mem, FrameOf(p3e), p[2]);
      if !Present(p2e) {
        return 0;
      }
      if Huge(p2e) {
        return FrameOf(p2e) * PAGE_SIZE + virt % 0x20_0000;
      }
      var p1e := Entry(mem, FrameOf(p2e), p[3]);
      if !Present(p1e) {
        return 0;
      }
      return FrameOf(p1e) * PAGE_SIZE + virt % 0x1000;
    }

    // --- heap.c and scheduler.c ----------------------------------------------------------------

    /** The mapping loop of `heap_init`.  `ready` says that the loop ran to its end, after which the
        source formats the heap. */
    method HeapInit() returns (ready: bool)
      requires Valid()
      modifies this`mem, this`freeHead, this`freeCount, this`free, this`tables, this`held, this`tlb
      ensures Valid() && Pool() == old(Pool()) && |mem| == |old(mem)| && old(held) <= held
      ensures SameFrames(old(mem), mem, old(held))
      ensures ready <==> |old(free)| >= HEAP_PAGES + Max(HeapCost(old(mem), root), 0)
      ensures ready && HeapCost(old(mem), root) >= 0 ==>
                HeapMapped(mem, root, held, old(free), HeapCost(old(mem), root), HEAP_PAGES)
      ensures HeapCost(old(mem), root) < 0 ==> mem == old(mem)
      ensures OnlyHeapChanged(old(mem), mem, root)
    {
      ghost var c, all := HeapCost(mem, root), free;
      var i := 0;
      while i < HEAP_PAGES
        invariant 0 <= i <= HEAP_PAGES
        invariant Valid() && Pool() == old(Pool()) && |mem| == |old(mem)| && old(held) <= held
        invariant HeapProgress(mem, root, free, all, c, i)
        invariant c < 0 ==> mem == old(mem)
        invariant 0 <= c < |all| ==> HeapMapped(mem, root, held, all, c, i)
        invariant OnlyHeapChanged(old(mem), mem, root)
        invariant SameFrames(old(mem), mem, old(held))
      {
        var ok := MapHeapPage(i, c, all);
        if !ok {
          return false;
        }
        i := i + 1;
      }
      return true;
    }

    /** One round: allocate a frame and map it. */
    method MapHeapPage(i: nat, ghost c: int, ghost all: seq<nat>) returns (ok: bool)
      requires Valid() && i < HEAP_PAGES
      requires HeapProgress(mem, root, free, all, c, i)
      requires 0 <= c < |all| ==> HeapMapped(mem, root, held, all, c, i)
      modifies this`mem, this`freeHead, this`freeCount, this`free, this`tables, this`held, this`tlb
      ensures Valid() && Pool() == old(Pool()) && |mem| == |old(mem)| && old(held) <= held
      ensures SameFrames(old(mem), mem, old(held))
      ensures ok <==> old(free) != []
      ensures !ok ==> mem == old(mem) && free == old(free)
      ensures ok ==> HeapProgress(mem, root, free, all, c, i + 1)
      ensures ok && 0 <= c < |all| ==> LeafIs(mem, root, PathOf(HeapPage(i)), HeapFrame(all, c, i) * 4096 + 0x23)
      ensures ok && 0 <= c < |all| ==> HeapMapped(mem, root, held, all, c, i + 1)
      ensures c < 0 ==> mem == old(mem)
      ensures OnlyHeapChanged(old(mem), mem, root)
    {
      var phys := PmmAlloc(true);
      if phys == 0 {
        return false;
      }
      ghost var before, f, rest, had := mem, phys / PAGE_SIZE, free, old(held);
      SameHeapTable(mem, root, i);
      NoFrame(f);
      ghost var done := MapPage(HeapPage(i), phys, 0x23);
      SameHeapTable(mem, root, i);
      FrameOfAddress(f);
      LeafSpelled(phys, 0x23);
      assert done ==> Walk(mem, root, 0, PathOf(HeapPage(i))) == Some(f * PAGE_SIZE);
      HeapPageChanged(before, mem, root, i);
      HeapProgressNext(before, mem, root, old(free), free, all, c, i);
      if 0 <= c < |all| {
        HeapMappedNext(before, mem, root, had, held, all, c, i);
      }
      return true;
    }

    /** The owner of a frame writes a word there. */
    method WriteOwned(page: Word, i: int, w: Word)
      requires Valid() && page / PAGE_SIZE in held && 0 <= i < 512
      modifies this`mem
      ensures Valid() && |mem| == |old(mem)| && SameTranslation(old(mem), mem, root)
      ensures forall g, j :: Entry(mem, g, j) == if g == page / PAGE_SIZE && j == i then w else Entry(old(mem), g, j)
    {
      ghost var before := mem;
      mem := SetEntry(mem, page / PAGE_SIZE, i, w);
      FreeListFrame(before, mem, freeHead, free);
      OutsideTables(before, mem, root, tables);
    }

    /** The stack frame of a new task: allocated, cleared, and ended by the five words an interrupt
        return needs.  `hhdm` is where physical memory is mapped. */
    method TaskStack(hhdm: Word, entry: Word) returns (page: Word)
      requires Valid() && hhdm + |mem| * PAGE_SIZE < TWO64
      modifies this`mem, this`freeHead, this`freeCount, this`free, this`held
      ensures Valid() && Pool() == old(Pool()) && |mem| == |old(mem)| && old(held) <= held
      ensures SameFrames(old(mem), mem, old(held))
      ensures page == 0 <==> old(free) == []
      ensures page == 0 ==> mem == old(mem) && free == old(free)
      ensures SameTranslation(old(mem), mem, root)
      ensures page != 0 ==>
                var f := page / PAGE_SIZE;
                && f == old(free)[0] && f in held && page == f * PAGE_SIZE && free == old(free)[1..]
                && StackWords(mem, f, entry, hhdm + page + PAGE_SIZE)
                && (forall j :: 0 <= j < 507 ==> Entry(mem, f, j) == 0)
                && Entry(mem, f, 507) == entry && Entry(mem, f, 508) == 8 && Entry(mem, f, 509) == 0x202
                && Entry(mem, f, 510) == hhdm + page + 4096 && Entry(mem, f, 511) == 16
                && forall g, j :: g != f ==> Entry(mem, g, j) == Entry(old(mem), g, j)
    {
      page := PmmAlloc(true);
      if page == 0 {
        return;
      }
      var f := page / PAGE_SIZE;
      ghost var before := mem;
      ClearFrame(f);
      mem := SetEntry(mem, f, 511, 0x10);
      mem := SetEntry(mem, f, 510, hhdm + page + PAGE_SIZE);
      mem := SetEntry(mem, f, 509, 0x202);
      mem := SetEntry(mem, f, 508, 0x08);
      mem := SetEntry(mem, f, 507, entry);
      FreeListFrame(before, mem, freeHead, free);
      OutsideTables(before, mem, root, tables);
    }

    // --- the translation cache -----------------------------------------------------------------

    /** At any time the processor may cache a translation that is present. */
    method CacheFill(p: Path)
      requires Valid()
      modifies this`tlb
      ensures Valid()
      ensures tlb == match Walk(mem, root, 0, p) case None => old(tlb) case Some(base) => old(tlb)[p := base]
    {
      match Walk(mem, root, 0, p)
      case None =>
      case Some(base) => tlb := tlb[p := base];
    }

    /** What an access translates to, cached or not: always what the tables say. */
    method Access(virt: Word) returns (phys: Option<nat>)
      requires Valid()
      ensures phys == Translate(mem, root, virt)
    {
      var p := PathOf(virt);
      if p in tlb {
        phys := Some(tlb[p] + virt % PAGE_SIZE);
      } else {
        phys := Translate(mem, root, virt);
      }
    }
  }

  /** With 259 free frames and no obstacle the heap is mapped completely, on 256 different frames. */
  lemma EnoughFramesForHeap(mem: Memory, root: nat, free: seq<nat>)
    requires Distinct(free) && |free| >= HEAP_PAGES + 3
    ensures |free| >= HEAP_PAGES + Max(HeapCost(mem, root), 0)
    ensures HeapCost(mem, root) >= 0 ==>
              forall i, j :: 0 <= i < j < HEAP_PAGES ==>
                HeapFrame(free, HeapCost(mem, root), i) != HeapFrame(free, HeapCost(mem, root), j)
  {
    CostAtMost3(mem, root, 0, PathOf(HEAP_VIRT));
    if HeapCost(mem, root) >= 0 {
      forall i, j | 0 <= i < j < HEAP_PAGES
        ensures HeapFrame(free, HeapCost(mem, root), i) != HeapFrame(free, HeapCost(mem, root), j)
      {
        HeapFramesDistinct(free, HeapCost(mem, root), i, j);
      }
    }
  }

  /** Page tables in which a 1 GiB page, that of the lowest physical memory, covers the heap's addresses. */
  function BlockedMemory(): Memory { [ZeroPage()[511 := 0x1003], ZeroPage()[510 := 0x83]] }

  /** There 256 free frames make `heap_init` ready; but it maps none of them, and the heap it goes on to
      format is the physical memory at 16 MiB. */
  lemma BlockedHeapIsReady()
    ensures HeapCost(BlockedMemory(), 0) == -1
    ensures Walk(BlockedMemory(), 0, 0, PathOf(HEAP_VIRT)) == Some(0x100_0000)
  {
    var mem, p := BlockedMemory(), PathOf(HEAP_VIRT);
    HeapPath(0);
    assert p == [511, 510, 8, 0];
    assert Entry(mem, 0, 511) == 0x1003 && Entry(mem, 1, 510) == 0x83;
    assert Cost(mem, 1, 1, p) == -1 && Walk(mem, 1, 1, p) == Some(0x100_0000);
  }

  datatype Request =
    | AllocFrame
    | FreeFrame(page: Word)
    | WriteFrame(page: Word, i: int, w: Word)
    | MapOne(virt: Word, phys: Word, flags: Word)
    | UnmapOne(virt: Word)
    | InitHeap
    | NewStack(hhdm: Word, entry: Word)
    | FillCache(path: Path)

  /** The frames handed out and not freed since, and what their owners have written there. */
  type Notes = map<Word, map<int, Word>>

  /** The notes after a request; `page` is what an allocation returned. */
  function Noted(notes: Notes, r: Request, page: Word): Notes {
    match r
    case AllocFrame => if page == 0 then notes else notes[page := map[]]
    case FreeFrame(p) => notes - {p}
    case WriteFrame(p, i, w) =>
      if p in notes && 0 <= i < 512 then
        var words: map<int, Word> := notes[p][i := w];
        notes[p := words]
      else notes
    case _ => notes
  }

  function NotesOf(requests: seq<Request>, pages: seq<Word>): Notes
    requires |requests| == |pages|
    decreases |requests|
  {
    if requests == [] then map[]
    else
      var n := |requests| - 1;
      Noted(NotesOf(requests[..n], pages[..n]), requests[n], pages[n])
  }

  /** Every noted frame is its owner's, and every noted word is there. */
  ghost predicate Kept(mem: Memory, held: set<nat>, notes: Notes) {
    && (forall page :: page in notes ==> page % PAGE_SIZE == 0 && page / PAGE_SIZE in held)
    && (forall page, i :: page in notes && i in notes[page] ==> Entry(mem, page / PAGE_SIZE, i) == notes[page][i])
  }

  lemma StillKept(mem: Memory, held: set<nat>, mem': Memory, held': set<nat>, notes: Notes)
    requires Kept(mem, held, notes) && held <= held' && SameFrames(mem, mem', held)
    ensures Kept(mem', held', notes)
  {
  }

  /** One request, where only frames handed out before and not freed since are freed or written. */
  method ServeOne(m: Manager, r: Request, notes: Notes) returns (page: Word)
    requires m.Valid() && Kept(m.mem, m.held, notes)
    requires r.NewStack? ==> r.hhdm + |m.mem| * PAGE_SIZE < TWO64
    modifies m
    ensures m.Valid() && m.Pool() == old(m.Pool()) && |m.mem| == |old(m.mem)|
    ensures Kept(m.mem, m.held, Noted(notes, r, page))
    ensures r.AllocFrame? ==> (page == 0 <==> old(m.free) == []) && page !in notes
  {
    if r.AllocFrame? || r.FreeFrame? || r.WriteFrame? {
      page := ServeOwner(m, r, notes);
    } else {
      ghost var was, held := m.mem, m.held;
      ServeMapper(m, r);
      page := 0;
      StillKept(was, held, m.mem, m.held, notes);
    }
  }

  /** The requests about frames. */
  method ServeOwner(m: Manager, r: Request, notes: Notes) returns (page: Word)
    requires m.Valid() && Kept(m.mem, m.held, notes)
    requires r.AllocFrame? || r.FreeFrame? || r.WriteFrame?
    modifies m
    ensures m.Valid() && m.Pool() == old(m.Pool()) && |m.mem| == |old(m.mem)|
    ensures Kept(m.mem, m.held, Noted(notes, r, page))
    ensures r.AllocFrame? ==> (page == 0 <==> old(m.free) == []) && page !in notes
  {
    page := 0;
    match r {
      case AllocFrame =>
        page := m.PmmAlloc(true);
      case FreeFrame(p) =>
        if p in notes {
          FreedAlone(notes, p);
          m.PmmFree(p);
        } else {
          assert notes - {p} == notes;
        }
      case WriteFrame(p, i, w) =>
        if p in notes && 0 <= i < 512 {
          m.WriteOwned(p, i, w);
        }
      case _ =>
    }
  }

  /** The requests about pages, which take frames of their own. */
  method ServeMapper(m: Manager, r: Request)
    requires m.Valid() && !r.AllocFrame? && !r.FreeFrame? && !r.WriteFrame?
    requires r.NewStack? ==> r.hhdm + |m.mem| * PAGE_SIZE < TWO64
    modifies m
    ensures m.Valid() && m.Pool() == old(m.Pool()) && |m.mem| == |old(m.mem)|
    ensures old(m.held) <= m.held && SameFrames(old(m.mem), m.mem, old(m.held))
  {
    match r {
      case MapOne(virt, phys, flags) =>
        ghost var done := m.MapPage(virt, phys, flags);
      case UnmapOne(virt) =>
        m.UnmapPage(virt);
      case InitHeap =>
        var ready := m.HeapInit();
      case NewStack(hhdm, entry) =>
        var stack := m.TaskStack(hhdm, entry);
      case FillCache(path) =>
        m.CacheFill(path);
      case _ =>
    }
  }

  /** No two pages are in one frame. */
  lemma FreedAlone(notes: Notes, p: Word)
    requires forall page :: page in notes ==> page % PAGE_SIZE == 0
    requires p in notes
    ensures forall page :: page in notes - {p} ==> page / PAGE_SIZE != p / PAGE_SIZE
  {
  }

  /** Any sequence of requests: in every state the three kinds of frames stay apart, none is lost or gained,
      the cache agrees with the tables, and whoever was handed a frame finds in it, until it is freed, what he
      last wrote there. */
  method Serve(m: Manager, requests: seq<Request>) returns (pages: seq<Word>)
    requires m.Valid()
    requires forall r :: r in requests && r.NewStack? ==> r.hhdm + |m.mem| * PAGE_SIZE < TWO64
    modifies m
    ensures m.Valid() && m.Pool() == old(m.Pool()) && |pages| == |requests|
    ensures Kept(m.mem, m.held, NotesOf(requests, pages))
  {
    pages := [];
    var notes: Notes := map[];
    var i := 0;
    assert requests[..0] == [];
    ghost var pool, size := m.Pool(), |m.mem|;
    while i < |requests|
      invariant 0 <= i <= |requests| && |pages| == i
      invariant Serving(m, pool, size, requests[..i], pages, notes)
    {
      assert requests[i] in requests && requests[..i + 1] == requests[..i] + [requests[i]];
      var page;
      page, notes := ServeNext(m, pool, size, requests[..i], pages, notes, requests[i]);
      pages := pages + [page];
      i := i + 1;
    }
    assert requests[..i] == requests;
  }

  ghost predicate Serving(m: Manager, pool: set<nat>, size: nat, requests: seq<Request>, pages: seq<Word>, notes: Notes)
    reads m
  {
    && m.Valid() && m.Pool() == pool && |m.mem| == size
    && |pages| == |requests| && notes == NotesOf(requests, pages) && Kept(m.mem, m.held, notes)
  }

  method ServeNext(m: Manager, ghost pool: set<nat>, ghost size: nat, ghost requests: seq<Request>,
                   ghost pages: seq<Word>, notes: Notes, r: Request)
    returns (page: Word, notes': Notes)
    requires Serving(m, pool, size, requests, pages, notes)
    requires r.NewStack? ==> r.hhdm + |m.mem| * PAGE_SIZE < TWO64
    modifies m
    ensures Serving(m, pool, size, requests + [r], pages + [page], notes')
  {
    page := ServeOne(m, r, notes);
    notes' := Noted(notes, r, page);
    assert (requests + [r])[..|requests|] == requests && (pages + [page])[..|pages|] == pages;
  }

  lemma HeadIsFresh(fs: seq<nat>)
    requires fs != [] && Distinct(fs)
    ensures fs[0] !in fs[1..] && Distinct(fs[1..])
  {
    forall x | x in fs[1..]
      ensures x != fs[0]
    {
      var i :| 0 <= i < |fs[1..]| && fs[1..][i] == x;
      assert fs[0] != fs[i + 1];
    }
    assert forall i :: 0 <= i < |fs[1..]| ==> fs[1..][i] == fs[i + 1];
  }

  function SetOf(fs: seq<nat>): (s: set<nat>)
    ensures forall f :: f in s <==> f in fs
  {
    if fs == [] then {} else
      assert fs == [fs[0]] + fs[1..];
      {fs[0]} + SetOf(fs[1..])
  }

  lemma {:induction false} SetOfDistinct(fs: seq<nat>)
    requires Distinct(fs)
    ensures |SetOf(fs)| == |fs|
    decreases |fs|
  {
    if fs != [] {
      HeadIsFresh(fs);
      SetOfDistinct(fs[1..]);
    }
  }

  lemma {:induction false} AllFramesPrefix(rs: seq<Region>, kstart: Word, kend: Word, n: nat)
    requires n <= |rs|
    ensures forall f :: f in AllFrames(rs[..n], kstart, kend) ==> f in AllFrames(rs, kstart, kend)
    decreases |rs|
  {
    if n < |rs| {
      AllFramesPrefix(rs[..|rs| - 1], kstart, kend, n);
      assert rs[..|rs| - 1][..n] == rs[..n];
    } else {
      assert rs[..n] == rs;
    }
  }

  lemma FramesOfPrefix(rs: seq<Region>, kstart: Word, kend: Word, n: nat, frames: int)
    requires BootMap(rs, frames) && frames <= MAX_FRAMES && n <= |rs|
    ensures Distinct(AllFrames(rs[..n], kstart, kend))
    ensures forall f :: f in AllFrames(rs[..n], kstart, kend) ==>
              0 < f < frames && f in AllFrames(rs, kstart, kend)
  {
    assert BootMap(rs[..n], frames);
    AllFramesDistinct(rs[..n], kstart, kend, frames);
    AllFramesPrefix(rs, kstart, kend, n);
    forall f | f in AllFrames(rs[..n], kstart, kend)
      ensures 0 < f < frames
    {
      AllFramesExist(rs[..n], kstart, kend, frames, f);
    }
  }

  lemma NextRegion(rs: seq<Region>, kstart: Word, kend: Word, i: nat, frames: int)
    requires BootMap(rs, frames) && frames <= MAX_FRAMES && i < |rs|
    ensures AllFrames(rs[..i + 1], kstart, kend) == AllFrames(rs[..i], kstart, kend) + RegionFrames(rs[i], kstart, kend)
    ensures Distinct(AllFrames(rs[..i + 1], kstart, kend))
    ensures forall f :: f in RegionFrames(rs[i], kstart, kend) ==>
              0 < f < frames && f in AllFrames(rs, kstart, kend)
  {
    assert rs[..i + 1][..i] == rs[..i];
    FramesOfPrefix(rs, kstart, kend, i + 1, frames);
    PartOf(AllFrames(rs[..i], kstart, kend), RegionFrames(rs[i], kstart, kend));
  }

  lemma PartOf(xs: seq<nat>, ys: seq<nat>)
    ensures forall y :: y in ys ==> y in xs + ys
  {
  }

  lemma NextFrame(done: seq<nat>, mine: seq<nat>, j: nat)
    requires j < |mine| && Distinct(done + mine)
    ensures Pushed(done + mine[..j + 1]) == [mine[j]] + Pushed(done + mine[..j])
    ensures mine[j] !in Pushed(done + mine[..j])
    ensures mine[j] in done + mine
  {
    var s := done + mine[..j];
    PushedMembers(s);
    assert (done + mine[..j + 1])[..|s|] == s;
    assert forall i :: 0 <= i < |s| ==> s[i] == (done + mine)[i];
    assert (done + mine)[|s|] == mine[j];
  }
}
