/** The heap as its users see it, over whole runs: what they were given, and what they put there. */
module HeapClient {
  import opened Machine
  import opened Heap

  /** An allocation that has not been freed: where it is, how much was asked for, and what its owner has
      stored in it. */
  datatype Grant = Grant(ptr: int, asked: Word, stored: map<int, Word>)

  datatype Request = Malloc(size: Word) | Free(i: nat) | Store(i: nat, offset: nat, v: Word)

  /** The largest request whose rounding does not wrap. */
  const MAX_REQUEST: int := TWO64 - 8

  /** Grants are named by their place in the ledger; a program stores only what lies within the bytes it
      asked for. */
  predicate Possible(ledger: seq<Grant>, r: Request) {
    match r
    case Malloc(_) => true
    case Free(i) => i < |ledger|
    case Store(i, offset, _) => i < |ledger| && ledger[i].asked <= MAX_REQUEST && offset % 8 == 0 && offset < ledger[i].asked
  }

  /** The ledger after a request; `ptr` is what an allocation returned. */
  function Entered(ledger: seq<Grant>, r: Request, ptr: int): seq<Grant> {
    if !Possible(ledger, r) then ledger
    else match r
      case Malloc(size) => if ptr == 0 then ledger else ledger + [Grant(ptr, size, map[])]
      case Free(i) => ledger[..i] + ledger[i + 1..]
      case Store(i, offset, v) =>
        ledger[i := ledger[i].(stored := ledger[i].stored[ledger[i].ptr + offset := v])]
  }

  function Ledger(requests: seq<Request>, ptrs: seq<int>): seq<Grant>
    requires |requests| == |ptrs|
    decreases |requests|
  {
    if requests == [] then []
    else
      var n := |requests| - 1;
      Entered(Ledger(requests[..n], ptrs[..n]), requests[n], ptrs[n])
  }

  /** What an allocation returns. */
  function Given(bs: seq<Block>, size: Word): int {
    var k := FirstFit(bs, RoundUp8(size));
    if size == 0 || k == |bs| then 0 else bs[k].addr + HEADER
  }

  /** The place in the list of the block behind a pointer. */
  function Behind(bs: seq<Block>, ptr: int): (k: nat)
    ensures k <= |bs|
    ensures k < |bs| ==> bs[k].addr + HEADER == ptr
    ensures forall j :: 0 <= j < k ==> bs[j].addr + HEADER != ptr
  {
    if bs == [] || bs[0].addr + HEADER == ptr then 0 else Behind(bs[1..], ptr) + 1
  }

  function BlocksAfter(bs: seq<Block>, ledger: seq<Grant>, r: Request): seq<Block> {
    if !Possible(ledger, r) then bs
    else match r
      case Malloc(size) => AfterMalloc(bs, size)
      case Free(i) =>
        var k := Behind(bs, ledger[i].ptr);
        if k < |bs| then AfterFree(bs, k) else bs
      case Store(_, _, _) => bs
  }

  /** A heap and what its users hold. */
  datatype Holdings = Holdings(blocks: seq<Block>, ledger: seq<Grant>)

  /** The heap, from the blocks `bs` and with nothing outstanding, after the requests. */
  function Course(bs: seq<Block>, requests: seq<Request>): Holdings
    decreases |requests|
  {
    if requests == [] then Holdings(bs, [])
    else
      var h, r := Course(bs, requests[..|requests| - 1]), requests[|requests| - 1];
      var ptr := if r.Malloc? then Given(h.blocks, r.size) else 0;
      Holdings(BlocksAfter(h.blocks, h.ledger, r), Entered(h.ledger, r, ptr))
  }

  /** No block is there for the request. */
  ghost predicate NoRoom(bs: seq<Block>, size: Word) {
    size == 0 || forall b :: b in bs && b.free ==> b.size < RoundUp8(size)
  }

  /** Block `b` is behind the grant: it starts there, is large enough, and holds what was stored. */
  ghost predicate Backs(mem: Heap.Store, b: Block, g: Grant) {
    && b.addr + HEADER == g.ptr
    && (g.asked <= MAX_REQUEST ==> b.size >= g.asked)
    && (forall a :: a in g.stored ==> b.addr + HEADER <= a < b.Limit() && a in mem && mem[a] == g.stored[a])
  }

  ghost predicate Backed(mem: Heap.Store, live: seq<Block>, ledger: seq<Grant>) {
    && (forall g :: g in ledger ==> exists b :: b in live && Backs(mem, b, g))
    && (forall i, j :: 0 <= i < j < |ledger| ==> ledger[i].ptr != ledger[j].ptr)
  }

  /** Blocks that start at the same place are the same, and others share no byte. */
  lemma BlocksApart(bs: seq<Block>, b: Block, c: Block)
    requires Tiled(bs) && b in bs && c in bs
    ensures b == c || b.Limit() <= c.addr || c.Limit() <= b.addr
    ensures b.addr == c.addr ==> b == c
  {
    var i :| 0 <= i < |bs| && bs[i] == b;
    var j :| 0 <= j < |bs| && bs[j] == c;
    TileBounds(bs, BASE, END);
    if i < j {
      BlocksDisjoint(bs, i, j);
    } else if j < i {
      BlocksDisjoint(bs, j, i);
    }
  }

  /** Grants keep their blocks when these stay live and keep their payloads. */
  lemma StillBacked(was: Heap.Store, mem: Heap.Store, live: seq<Block>, live': seq<Block>, ledger: seq<Grant>)
    requires Backed(was, live, ledger)
    requires forall g, b :: g in ledger && b in live && Backs(was, b, g) ==> b in live' && Spares(was, mem, [b])
    ensures Backed(mem, live', ledger)
  {
    forall g | g in ledger
      ensures exists b :: b in live' && Backs(mem, b, g)
    {
      var b :| b in live && Backs(was, b, g);
      assert b in [b];
      assert Backs(mem, b, g);
    }
  }

  // ---------------------------------------------------------------------------------------------
  // One request
  // ---------------------------------------------------------------------------------------------

  /** An allocation keeps all live blocks and adds one, where a free block was. */
  lemma MallocLive(bs: seq<Block>, size: Word)
    requires Tiled(bs) && size != 0 && FirstFit(bs, RoundUp8(size)) < |bs|
    ensures var k, bs' := FirstFit(bs, RoundUp8(size)), AfterMalloc(bs, size);
            && k < |bs'| && bs'[k] in Live(bs')
            && (forall b :: b in Live(bs) ==> b in Live(bs') && b.addr != bs'[k].addr)
  {
    var need, k := RoundUp8(size), FirstFit(bs, RoundUp8(size));
    var xs, ys := bs[..k], bs[k + 1..];
    assert bs == xs + ([bs[k]] + ys);
    CarveAddsOneLive(xs, bs[k], ys, need);
    LiveIsPart(bs);
    forall b | b in Live(bs)
      ensures b.addr != bs[k].addr
    {
      BlocksApart(bs, b, bs[k]);
    }
  }

  method DoMalloc(a: Allocator, size: Word, ledger: seq<Grant>) returns (ptr: int)
    requires a.Valid() && Backed(a.mem, Live(a.blocks), ledger)
    modifies a
    ensures a.Valid() && Backed(a.mem, Live(a.blocks), Entered(ledger, Request.Malloc(size), ptr))
    ensures ptr == 0 <==> NoRoom(old(a.blocks), size)
    ensures ptr == Given(old(a.blocks), size) && a.blocks == AfterMalloc(old(a.blocks), size)
  {
    ghost var bs, was := a.blocks, a.mem;
    ptr := a.KMalloc(size);
    if ptr == 0 {
      assert a.blocks == bs by { NothingTaken(bs, size, a.head); }
      SparesEach(was, a.mem, Live(bs));
      StillBacked(was, a.mem, Live(bs), Live(bs), ledger);
    } else {
      MallocLive(bs, size);
      MallocBacked(was, a.mem, bs, size, ledger, ptr);
    }
  }

  lemma NothingTaken(bs: seq<Block>, size: Word, head: int)
    requires bs == [] || NoRoom(bs, size)
    ensures AfterMalloc(bs, size) == bs
  {
  }

  lemma SparesEach(was: Heap.Store, mem: Heap.Store, live: seq<Block>)
    requires Spares(was, mem, live)
    ensures forall b :: b in live ==> Spares(was, mem, [b])
  {
  }

  lemma {:induction false} MallocBacked(was: Heap.Store, mem: Heap.Store, bs: seq<Block>, size: Word, ledger: seq<Grant>, ptr: int)
    requires Tiled(bs) && size != 0 && FirstFit(bs, RoundUp8(size)) < |bs|
    requires Backed(was, Live(bs), ledger) && Spares(was, mem, Live(bs))
    requires var k, bs' := FirstFit(bs, RoundUp8(size)), AfterMalloc(bs, size);
             IsLive(bs', k, ptr) && bs'[k].size >= RoundUp8(size)
    ensures Backed(mem, Live(AfterMalloc(bs, size)), ledger + [Grant(ptr, size, map[])])
  {
    var k, bs' := FirstFit(bs, RoundUp8(size)), AfterMalloc(bs, size);
    var g := Grant(ptr, size, map[]);
    MallocLive(bs, size);
    RoundUp8Exact(size);
    SparesEach(was, mem, Live(bs));
    StillBacked(was, mem, Live(bs), Live(bs'), ledger);
    assert Backs(mem, bs'[k], g);
    forall i | 0 <= i < |ledger|
      ensures ledger[i].ptr != ptr
    {
      assert ledger[i] in ledger;
      var b :| b in Live(bs) && Backs(was, b, ledger[i]);
    }
  }

  method DoFree(a: Allocator, i: nat, ledger: seq<Grant>)
    requires a.Valid() && Backed(a.mem, Live(a.blocks), ledger) && i < |ledger|
    modifies a
    ensures a.Valid() && Backed(a.mem, Live(a.blocks), Entered(ledger, Request.Free(i), 0))
    ensures a.blocks == BlocksAfter(old(a.blocks), ledger, Request.Free(i))
  {
    ghost var bs, was := a.blocks, a.mem;
    LiveAt(bs, was, ledger, i);
    a.KFree(ledger[i].ptr);
    FreeBacked(was, a.mem, bs, a.blocks, ledger, i);
    forall k | IsLive(bs, k, ledger[i].ptr)
      ensures Behind(bs, ledger[i].ptr) == k
    {
      OneBehind(bs, k);
    }
  }

  /** No two blocks are behind one pointer. */
  lemma OneBehind(bs: seq<Block>, k: nat)
    requires Tiled(bs) && k < |bs|
    ensures Behind(bs, bs[k].addr + HEADER) == k
  {
    var j := Behind(bs, bs[k].addr + HEADER);
    TileBounds(bs, BASE, END);
    if j < k {
      BlocksDisjoint(bs, j, k);
    }
  }

  lemma LiveAt(bs: seq<Block>, mem: Heap.Store, ledger: seq<Grant>, i: nat)
    requires bs != [] ==> Tiled(bs)
    requires Backed(mem, Live(bs), ledger) && i < |ledger|
    ensures Tiled(bs) && ledger[i].ptr != 0 && exists k :: IsLive(bs, k, ledger[i].ptr)
  {
    assert ledger[i] in ledger;
    var b :| b in Live(bs) && Backs(mem, b, ledger[i]);
    LiveIsPart(bs);
    var k :| 0 <= k < |bs| && bs[k] == b;
    assert IsLive(bs, k, ledger[i].ptr);
    TileBounds(bs, BASE, END);
  }

  lemma FreeBacked(was: Heap.Store, mem: Heap.Store, bs: seq<Block>, bs': seq<Block>, ledger: seq<Grant>, i: nat)
    requires Tiled(bs) && Backed(was, Live(bs), ledger) && i < |ledger|
    requires exists k :: IsLive(bs, k, ledger[i].ptr) && bs' == AfterFree(bs, k)
    requires Spares(was, mem, Live(bs'))
    ensures Backed(mem, Live(bs'), ledger[..i] + ledger[i + 1..])
  {
    var k :| IsLive(bs, k, ledger[i].ptr) && bs' == AfterFree(bs, k);
    var rest := ledger[..i] + ledger[i + 1..];
    assert bs == bs[..k] + ([bs[k]] + bs[k + 1..]);
    FreeRemovesOneLive(bs[..k], bs[k], bs[k + 1..]);
    SparesEach(was, mem, Live(bs'));
    Remaining(ledger, i);
    forall g, b | g in rest && b in Live(bs) && Backs(was, b, g)
      ensures b in Live(bs')
    {
      assert b != bs[k];
    }
    assert Backed(was, Live(bs), rest);
    StillBacked(was, mem, Live(bs), Live(bs'), rest);
  }

  /** What remains of a ledger are other grants. */
  lemma Remaining(ledger: seq<Grant>, i: nat)
    requires i < |ledger|
    requires forall j, k :: 0 <= j < k < |ledger| ==> ledger[j].ptr != ledger[k].ptr
    ensures var rest := ledger[..i] + ledger[i + 1..];
            && (forall g :: g in rest ==> g in ledger && g.ptr != ledger[i].ptr)
            && (forall j, k :: 0 <= j < k < |rest| ==> rest[j].ptr != rest[k].ptr)
  {
    var rest := ledger[..i] + ledger[i + 1..];
    forall j | 0 <= j < |rest|
      ensures rest[j] == if j < i then ledger[j] else ledger[j + 1]
    {
    }
  }

  method DoStore(a: Allocator, i: nat, offset: nat, v: Word, ledger: seq<Grant>)
    requires a.Valid() && Backed(a.mem, Live(a.blocks), ledger) && Possible(ledger, Request.Store(i, offset, v))
    modifies a
    ensures a.Valid() && Backed(a.mem, Live(a.blocks), Entered(ledger, Request.Store(i, offset, v), 0))
    ensures a.blocks == old(a.blocks)
  {
    ghost var bs, was, at := a.blocks, a.mem, ledger[i].ptr + offset;
    InsideGrant(bs, was, ledger, i, offset);
    a.Store(ledger[i].ptr + offset, v);
    StoreBacked(was, bs, ledger, i, offset, v);
  }

  lemma InsideGrant(bs: seq<Block>, mem: Heap.Store, ledger: seq<Grant>, i: nat, offset: nat)
    requires bs != [] ==> Tiled(bs)
    requires Backed(mem, Live(bs), ledger) && i < |ledger|
    requires ledger[i].asked <= MAX_REQUEST && offset % 8 == 0 && offset < ledger[i].asked
    ensures var at := ledger[i].ptr + offset;
            at % 8 == 0 && exists b :: b in Live(bs) && b.addr + HEADER <= at < b.Limit()
  {
    assert ledger[i] in ledger;
    var b :| b in Live(bs) && Backs(mem, b, ledger[i]);
    LiveIsPart(bs);
    TileBounds(bs, BASE, END);
  }

  lemma StoreBacked(was: Heap.Store, bs: seq<Block>, ledger: seq<Grant>, i: nat, offset: nat, v: Word)
    requires Tiled(bs) && Backed(was, Live(bs), ledger) && i < |ledger|
    requires ledger[i].asked <= MAX_REQUEST && offset % 8 == 0 && offset < ledger[i].asked
    ensures var at := ledger[i].ptr + offset;
            Backed(was[at := v], Live(bs), ledger[i := ledger[i].(stored := ledger[i].stored[at := v])])
  {
    var at := ledger[i].ptr + offset;
    var mem, g' := was[at := v], ledger[i].(stored := ledger[i].stored[at := v]);
    assert ledger[i] in ledger;
    var b :| b in Live(bs) && Backs(was, b, ledger[i]);
    LiveIsPart(bs);
    assert Backs(mem, b, g');
    var ledger' := ledger[i := g'];
    forall g | g in ledger'
      ensures exists c :: c in Live(bs) && Backs(mem, c, g)
    {
      if g != g' {
        var j :| 0 <= j < |ledger| && ledger[j] == g && j != i;
        assert ledger[j] in ledger;
        var c :| c in Live(bs) && Backs(was, c, g);
        assert c.addr != b.addr by {
          assert ledger[j].ptr != ledger[i].ptr;
        }
        BlocksApart(bs, b, c);
        assert Backs(mem, c, g);
      }
    }
  }

  // ---------------------------------------------------------------------------------------------
  // What is granted
  // ---------------------------------------------------------------------------------------------

  /** The first allocation from a fresh heap is granted exactly if its rounded size is at most that of the one
      block there is. */
  method AllocateFirst(memory: Heap.Store, size: Word) returns (a: Allocator, ptr: int)
    requires Mapped(memory)
    ensures fresh(a) && a.Valid()
    ensures ptr != 0 <==> size != 0 && RoundUp8(size) <= 256 * 4096 - 24
  {
    a := new Allocator(memory);
    a.Format();
    assert Fresh[0] in a.blocks && forall b :: b in a.blocks ==> b == Fresh[0];
    ptr := a.KMalloc(size);
  }

  /** A block that is freed can be had again, in its whole size. */
  method FreeThenAllocate(a: Allocator, ptr: int, ghost k: nat, size: Word) returns (again: int)
    requires a.Valid() && k < |a.blocks| && !a.blocks[k].free && a.blocks[k].addr + 24 == ptr && ptr != 0
    requires 0 < size <= a.blocks[k].size
    modifies a
    ensures a.Valid() && again != 0
  {
    ghost var bs := a.blocks;
    assert IsLive(bs, k, ptr);
    a.KFree(ptr);
    OneBehind(bs, k);
    forall j | IsLive(bs, j, ptr)
      ensures j == k
    {
      OneBehind(bs, j);
    }
    FreedHasRoom(bs, k, size);
    again := a.KMalloc(size);
  }

  lemma FreedHasRoom(bs: seq<Block>, k: nat, size: Word)
    requires Tiled(bs) && k < |bs| && size <= bs[k].size
    ensures exists b :: b in AfterFree(bs, k) && b.free && b.size >= RoundUp8(size)
  {
    TileBounds(bs, BASE, END);
    RoundUp8Exact(size);
    SizeIsRounded(bs, k);
    var freed := Release(bs, k);
    assert freed[k] in freed;
    ReleaseTiles(bs, k);
    CoalesceKeepsRoom(freed, BASE, END, freed[k]);
  }

  lemma SizeIsRounded(bs: seq<Block>, k: nat)
    requires Tiled(bs) && k < |bs|
    ensures bs[k].size % 8 == 0 && 0 <= bs[k].size < TWO64 - 8
  {
    TilesAt(bs, k, BASE, END);
    TileBounds(bs, BASE, END);
  }

  /** Coalescing takes no room away. */
  lemma {:induction false} CoalesceKeepsRoom(bs: seq<Block>, from: int, to: int, b: Block)
    requires Tiles(bs, from, to) && b in bs && b.free
    ensures exists c :: c in Coalesce(bs) && c.free && c.size >= b.size
    decreases |bs|
  {
    TileBounds(bs, from, to);
    if |bs| >= 2 {
      if bs[0].free && bs[1].free {
        if b in bs[2..] {
          assert Tiles(bs[1..], bs[0].Limit(), to);
          CoalesceKeepsRoom(bs[2..], bs[1].Limit(), to, b);
        } else {
          assert bs == [bs[0], bs[1]] + bs[2..];
          assert Coalesce(bs)[0] in Coalesce(bs);
        }
      } else if b == bs[0] {
        assert Coalesce(bs)[0] in Coalesce(bs);
      } else {
        assert bs == [bs[0]] + bs[1..];
        CoalesceKeepsRoom(bs[1..], bs[0].Limit(), to, b);
      }
    }
  }

  // ---------------------------------------------------------------------------------------------
  // Whole runs
  // ---------------------------------------------------------------------------------------------

  method Step(a: Allocator, r: Request, ledger: seq<Grant>) returns (ptr: int)
    requires a.Valid() && Backed(a.mem, Live(a.blocks), ledger)
    modifies a
    ensures a.Valid() && Backed(a.mem, Live(a.blocks), Entered(ledger, r, ptr))
    ensures a.blocks == BlocksAfter(old(a.blocks), ledger, r)
    ensures ptr == if r.Malloc? then Given(old(a.blocks), r.size) else 0
    ensures r.Malloc? ==> (ptr == 0 <==> NoRoom(old(a.blocks), r.size))
  {
    ptr := 0;
    if !Possible(ledger, r) {
      return;
    }
    match r {
      case Malloc(size) => ptr := DoMalloc(a, size, ledger);
      case Free(i) => DoFree(a, i, ledger);
      case Store(i, offset, v) => DoStore(a, i, offset, v, ledger);
    }
  }

  /** Over any run of allocations, frees and stores: every allocation that is outstanding has a block of its
      own, at least as large as it asked for, and holds every word its owner last stored in it; and an
      allocation is refused exactly if no block is there for it at that point of the run. */
  method Execute(a: Allocator, requests: seq<Request>) returns (ptrs: seq<int>)
    requires a.Valid()
    modifies a
    ensures a.Valid() && |ptrs| == |requests|
    ensures Backed(a.mem, Live(a.blocks), Ledger(requests, ptrs))
    ensures Holdings(a.blocks, Ledger(requests, ptrs)) == Course(old(a.blocks), requests)
    ensures forall j :: 0 <= j < |requests| ==> RightlyServed(old(a.blocks), requests, j, ptrs[j])
  {
    ptrs := [];
    ghost var bs := a.blocks;
    var ledger: seq<Grant> := [];
    var i := 0;
    assert requests[..0] == [];
    while i < |requests|
      invariant 0 <= i <= |requests| && |ptrs| == i
      invariant Served(a, bs, requests[..i], ptrs, ledger)
      invariant forall j :: 0 <= j < i ==> RightlyServed(bs, requests, j, ptrs[j])
    {
      var ptr;
      ptr, ledger := Next(a, bs, requests, i, ptrs, ledger);
      ptrs := ptrs + [ptr];
      i := i + 1;
    }
    assert requests[..i] == requests;
  }

  ghost predicate Served(a: Allocator, bs: seq<Block>, requests: seq<Request>, ptrs: seq<int>, ledger: seq<Grant>)
    reads a
  {
    && a.Valid() && |ptrs| == |requests| && Backed(a.mem, Live(a.blocks), ledger)
    && ledger == Ledger(requests, ptrs) && Holdings(a.blocks, ledger) == Course(bs, requests)
  }

  method Next(a: Allocator, ghost bs: seq<Block>, requests: seq<Request>, i: nat, ghost ptrs: seq<int>, ledger: seq<Grant>)
    returns (ptr: int, ledger': seq<Grant>)
    requires i < |requests| && Served(a, bs, requests[..i], ptrs, ledger)
    modifies a
    ensures Served(a, bs, requests[..i + 1], ptrs + [ptr], ledger')
    ensures RightlyServed(bs, requests, i, ptr)
  {
    assert requests[..i + 1] == requests[..i] + [requests[i]];
    ptr, ledger' := Round(a, bs, requests[..i], ptrs, requests[i], ledger);
  }

  method Round(a: Allocator, ghost bs: seq<Block>, ghost requests: seq<Request>, ghost ptrs: seq<int>,
               r: Request, ledger: seq<Grant>)
    returns (ptr: int, ledger': seq<Grant>)
    requires Served(a, bs, requests, ptrs, ledger)
    modifies a
    ensures Served(a, bs, requests + [r], ptrs + [ptr], ledger')
    ensures r.Malloc? ==> (ptr == 0 <==> NoRoom(Course(bs, requests).blocks, r.size))
  {
    ptr := Step(a, r, ledger);
    ledger' := Entered(ledger, r, ptr);
    ServedNext(bs, requests, ptrs, r, ptr);
  }

  /** An allocation that returned null met a heap without room, and no other did. */
  ghost predicate RightlyServed(bs: seq<Block>, requests: seq<Request>, j: nat, ptr: int)
    requires j < |requests|
  {
    requests[j].Malloc? ==> (ptr == 0 <==> NoRoom(Course(bs, requests[..j]).blocks, requests[j].size))
  }

  lemma ServedNext(bs: seq<Block>, requests: seq<Request>, ptrs: seq<int>, r: Request, ptr: int)
    requires |ptrs| == |requests|
    ensures Ledger(requests + [r], ptrs + [ptr]) == Entered(Ledger(requests, ptrs), r, ptr)
    ensures var h := Course(bs, requests);
            Course(bs, requests + [r]) ==
            Holdings(BlocksAfter(h.blocks, h.ledger, r), Entered(h.ledger, r, if r.Malloc? then Given(h.blocks, r.size) else 0))
  {
    assert (requests + [r])[..|requests|] == requests && (ptrs + [ptr])[..|ptrs|] == ptrs;
  }
}
