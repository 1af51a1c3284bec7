/** The memory the heap works on is physical memory, seen through the pages that were mapped for it: the heap's
    store of words by virtual address, and the frames, stay one and the same. */
module HeapPages {
  import opened Machine
  import opened Frames
  import opened PageTables
  import opened KernelMemory
  import Heap

  /** The addresses of the heap's words. */
  predicate InHeap(a: int) { HEAP_VIRT <= a < HEAP_VIRT + HEAP_PAGES * PAGE_SIZE && a % 8 == 0 }

  function PageNo(a: int): int { (a - HEAP_VIRT) / PAGE_SIZE }

  function SlotNo(a: int): int { a % PAGE_SIZE / 8 }

  lemma HeapAddress(a: int)
    requires InHeap(a)
    ensures 0 <= PageNo(a) < HEAP_PAGES && 0 <= SlotNo(a) < 512 && 0 <= a < TWO64
    ensures a == HeapPage(PageNo(a)) + 8 * SlotNo(a)
    ensures PathOf(a) == PathOf(HeapPage(PageNo(a)))
  {
    var i, o := PageNo(a), a % PAGE_SIZE;
    assert HEAP_VIRT % PAGE_SIZE == 0;
    assert a == HeapPage(i) + o;
    SamePage(HeapPage(i) / PAGE_SIZE, o);
  }

  /** Addresses in one page take one path. */
  lemma SamePage(n: nat, o: nat)
    requires o < PAGE_SIZE && n * PAGE_SIZE + o < TWO64
    ensures PathOf(n * PAGE_SIZE + o) == PathOf(n * PAGE_SIZE)
  {
    assert (n * PAGE_SIZE + o) / 0x1000 == n;
    SamePath(n * PAGE_SIZE + o, n * PAGE_SIZE);
  }

  /** The frames behind the heap, as `heap_init` leaves them. */
  ghost predicate Mapped(m: Manager, all: seq<nat>, c: nat)
    reads m
  {
    && m.Valid() && Distinct(all) && |all| >= HEAP_PAGES + c
    && HeapMapped(m.mem, m.root, m.held, all, c, HEAP_PAGES)
  }

  /** The store has, for every word of the heap, what is in memory behind its address. */
  ghost predicate Shows(store: Heap.Store, mem: Memory, all: seq<nat>, c: nat) {
    forall a :: InHeap(a) ==> a in store && store[a] == Behind(mem, all, c, a)
  }

  /** The word in memory behind an address of the heap. */
  ghost function Behind(mem: Memory, all: seq<nat>, c: nat, a: int): Word {
    Entry(mem, HeapFrame(all, c, PageNo(a)), SlotNo(a))
  }

  /** Where the processor goes for a word of the heap. */
  lemma BehindAddress(m: Manager, all: seq<nat>, c: nat, a: Word)
    requires Mapped(m, all, c) && InHeap(a)
    ensures var f := HeapFrame(all, c, PageNo(a));
            f in m.held && Translate(m.mem, m.root, a) == Some(f * PAGE_SIZE + 8 * SlotNo(a))
  {
    HeapAddress(a);
  }

  /** Two words of the heap are two words of memory. */
  lemma BehindDistinct(all: seq<nat>, c: nat, a: int, b: int)
    requires Distinct(all) && |all| >= HEAP_PAGES + c && InHeap(a) && InHeap(b) && a != b
    ensures HeapFrame(all, c, PageNo(a)) != HeapFrame(all, c, PageNo(b)) || SlotNo(a) != SlotNo(b)
  {
    HeapAddress(a);
    HeapAddress(b);
    if PageNo(a) < PageNo(b) {
      HeapFramesDistinct(all, c, PageNo(a), PageNo(b));
    } else if PageNo(b) < PageNo(a) {
      HeapFramesDistinct(all, c, PageNo(b), PageNo(a));
    }
  }

  /** A store to the heap, by way of the translation cache or the tables, changes that word of the store and no
      other. */
  method StoreWord(m: Manager, a: Word, v: Word, ghost all: seq<nat>, ghost c: nat, ghost store: Heap.Store)
    requires Mapped(m, all, c) && InHeap(a) && Shows(store, m.mem, all, c)
    modifies m`mem
    ensures Mapped(m, all, c) && Shows(store[a := v], m.mem, all, c)
  {
    ghost var was := m.mem;
    BehindAddress(m, all, c, a);
    HeapAddress(a);
    var phys := m.Access(a);
    SlotOfAddress(HeapFrame(all, c, PageNo(a)), SlotNo(a));
    m.WriteOwned(phys.value / PAGE_SIZE * PAGE_SIZE, phys.value % PAGE_SIZE / 8, v);
    forall b | InHeap(b) && b != a
      ensures Behind(m.mem, all, c, b) == Behind(was, all, c, b)
    {
      BehindDistinct(all, c, a, b);
    }
  }

  lemma SlotOfAddress(f: nat, j: nat)
    requires j < 512
    ensures (f * PAGE_SIZE + 8 * j) / PAGE_SIZE == f && (f * PAGE_SIZE + 8 * j) % PAGE_SIZE / 8 == j
    ensures (f * PAGE_SIZE + 8 * j) % PAGE_SIZE == 8 * j
  {
  }

  /** And a load gives the word that is there. */
  method LoadWord(m: Manager, a: Word, ghost all: seq<nat>, ghost c: nat) returns (v: Word)
    requires Mapped(m, all, c) && InHeap(a)
    ensures v == Behind(m.mem, all, c, a)
  {
    BehindAddress(m, all, c, a);
    HeapAddress(a);
    var phys := m.Access(a);
    SlotOfAddress(HeapFrame(all, c, PageNo(a)), SlotNo(a));
    return Entry(m.mem, phys.value / PAGE_SIZE, phys.value % PAGE_SIZE / 8);
  }

  /** The heap's memory, word by word. */
  method LoadHeap(m: Manager, ghost all: seq<nat>, ghost c: nat) returns (store: Heap.Store)
    requires Mapped(m, all, c)
    ensures Shows(store, m.mem, all, c)
  {
    store := map[];
    var i := 0;
    while i < HEAP_WORDS
      invariant 0 <= i <= HEAP_WORDS
      invariant ShowsBelow(store, m.mem, all, c, i)
    {
      WordInHeap(i);
      var v := LoadWord(m, HeapWord(i), all, c);
      ShowsNext(store, m.mem, all, c, i);
      store := store[HeapWord(i) := v];
      i := i + 1;
    }
    AllShown(store, m.mem, all, c);
  }

  const HEAP_WORDS: int := 131072

  /** The address of the heap's `i`-th word. */
  function HeapWord(i: int): int { HEAP_VIRT + 8 * i }

  lemma WordInHeap(i: int)
    requires 0 <= i < HEAP_WORDS
    ensures InHeap(HeapWord(i)) && 0 <= HeapWord(i) < TWO64
  {
    assert HEAP_VIRT == 8 * (HEAP_VIRT / 8);
    assert (8 * (HEAP_VIRT / 8 + i)) % 8 == 0;
  }

  /** The store has the first `n` words of the heap. */
  ghost predicate ShowsBelow(store: Heap.Store, mem: Memory, all: seq<nat>, c: nat, n: int) {
    forall i :: 0 <= i < n ==> HeapWord(i) in store && store[HeapWord(i)] == Behind(mem, all, c, HeapWord(i))
  }

  lemma ShowsNext(store: Heap.Store, mem: Memory, all: seq<nat>, c: nat, n: nat)
    requires ShowsBelow(store, mem, all, c, n)
    ensures ShowsBelow(store[HeapWord(n) := Behind(mem, all, c, HeapWord(n))], mem, all, c, n + 1)
  {
  }

  lemma AllShown(store: Heap.Store, mem: Memory, all: seq<nat>, c: nat)
    requires ShowsBelow(store, mem, all, c, HEAP_WORDS)
    ensures Shows(store, mem, all, c)
  {
    forall a | InHeap(a)
      ensures a in store && store[a] == Behind(mem, all, c, a)
    {
      var i := (a - HEAP_VIRT) / 8;
      assert a == HeapWord(i);
    }
  }

  /** `heap_init` as a whole.  With enough frames, and no 1 GiB page in the way, there is an allocator in the
      end whose memory is what the pages of the heap hold. */
  method InitHeap(m: Manager) returns (heap: Heap.Allocator?)
    requires m.Valid() && HeapCost(m.mem, m.root) >= 0
    modifies m
    ensures m.Valid() && m.Pool() == old(m.Pool())
    ensures heap != null <==> |old(m.free)| >= HEAP_PAGES + HeapCost(old(m.mem), m.root)
    ensures heap != null ==>
              && fresh(heap) && heap.Valid() && heap.blocks == Heap.Fresh
              && Mapped(m, old(m.free), HeapCost(old(m.mem), m.root))
              && Shows(heap.mem, m.mem, old(m.free), HeapCost(old(m.mem), m.root))
  {
    ghost var all, c: nat := m.free, HeapCost(m.mem, m.root);
    FreeListBounds(m.mem, m.freeHead, m.free);
    var ready := m.HeapInit();
    if !ready {
      return null;
    }
    var store := LoadHeap(m, all, c);
    heap := new Heap.Allocator(store);
    heap.Format();
    WriteHeader(m, all, c, store);
  }

  /** The three words of the first header. */
  method WriteHeader(m: Manager, ghost all: seq<nat>, ghost c: nat, ghost store: Heap.Store)
    requires Mapped(m, all, c) && Shows(store, m.mem, all, c)
    modifies m`mem
    ensures Mapped(m, all, c) && m.Pool() == old(m.Pool())
    ensures Shows(store[Heap.BASE := HEAP_PAGES * PAGE_SIZE - Heap.HEADER][Heap.BASE + 8 := 0][Heap.BASE + 16 := 1],
                  m.mem, all, c)
  {
    StoreWord(m, Heap.BASE, HEAP_PAGES * PAGE_SIZE - Heap.HEADER, all, c, store);
    ghost var store1 := store[Heap.BASE := HEAP_PAGES * PAGE_SIZE - Heap.HEADER];
    StoreWord(m, Heap.BASE + 8, 0, all, c, store1);
    StoreWord(m, Heap.BASE + 16, 1, all, c, store1[Heap.BASE + 8 := 0]);
  }
}
