/** The kernel heap: a first-fit allocator whose block headers live in the memory they manage.

    `Allocator.mem` is the memory behind the heap's virtual range, one 64-bit word per 8-aligned
    address.  The header of the block at address `a` is three words: the payload size at `a`, the
    address of the next header (0 at the end) at `a + 8`, and the free flag at `a + 16`.
    Everything the source promises is stated about the list of blocks those words describe. */
module Heap {
  import opened Machine

  const HEADER: int := 24
  const BASE: int := HEAP_VIRT
  const END: int := BASE + HEAP_PAGES * PAGE_SIZE

  /** The memory behind the heap, word by word. */
  type Store = map<int, Word>

  datatype Block = Block(addr: int, size: int, free: bool) {
    function Limit(): int { addr + HEADER + size }
  }

  // ---------------------------------------------------------------------------------------------
  // What a list of blocks must look like
  // ---------------------------------------------------------------------------------------------

  /** The blocks tile [from, to): no gap, no overlap, and every size is a multiple of 8. */
  ghost predicate Tiles(bs: seq<Block>, from: int, to: int) {
    if bs == [] then from == to
    else
      && bs[0].addr == from
      && bs[0].size >= 0
      && bs[0].size % 8 == 0
      && Tiles(bs[1..], bs[0].Limit(), to)
  }

  ghost predicate Tiled(bs: seq<Block>) { Tiles(bs, BASE, END) }

  function First(bs: seq<Block>, link: int): int {
    if bs == [] then link else bs[0].addr
  }

  lemma {:induction false} TilesConcat(xs: seq<Block>, ys: seq<Block>, from: int, to: int)
    ensures Tiles(xs, from, First(ys, to)) && Tiles(ys, First(ys, to), to) <==> Tiles(xs + ys, from, to)
    decreases |xs|
  {
    if xs == [] {
      assert xs + ys == ys;
    } else {
      assert (xs + ys)[1..] == xs[1..] + ys;
      TilesConcat(xs[1..], ys, xs[0].Limit(), to);
    }
  }

  /** The tiling, seen from block `k`. */
  lemma TilesAt(bs: seq<Block>, k: nat, from: int, to: int)
    requires k < |bs|
    ensures Tiles(bs, from, to) <==>
            && Tiles(bs[..k], from, bs[k].addr)
            && bs[k].size >= 0
            && bs[k].size % 8 == 0
            && Tiles(bs[k + 1..], bs[k].Limit(), to)
  {
    assert bs == bs[..k] + bs[k..];
    assert bs[k..][1..] == bs[k + 1..];
    TilesConcat(bs[..k], bs[k..], from, to);
  }

  /** Every block lies inside the tiled range, on an 8-byte boundary if the range starts on one. */
  lemma {:induction false} TileBounds(bs: seq<Block>, from: int, to: int)
    requires Tiles(bs, from, to)
    ensures from <= to
    ensures forall b :: b in bs ==> from <= b.addr && b.size >= 0 && b.Limit() <= to
    ensures from % 8 == 0 ==> forall b :: b in bs ==> b.addr % 8 == 0
    decreases |bs|
  {
    if bs != [] {
      TileBounds(bs[1..], bs[0].Limit(), to);
      assert forall b :: b in bs <==> b == bs[0] || b in bs[1..];
    }
  }

  /** Blocks earlier in the list end before later ones begin, so payloads never meet another
      payload or a header. */
  lemma BlocksDisjoint(bs: seq<Block>, i: nat, j: nat)
    requires Tiled(bs)
    requires i < j < |bs|
    ensures bs[i].Limit() <= bs[j].addr
  {
    TilesAt(bs, i, BASE, END);
    TileBounds(bs[i + 1..], bs[i].Limit(), END);
    assert bs[j] == bs[i + 1..][j - i - 1];
  }

  // ---------------------------------------------------------------------------------------------
  // How memory holds a list
  // ---------------------------------------------------------------------------------------------

  ghost predicate Mapped(mem: Store) {
    forall a :: BASE <= a < END && a % 8 == 0 ==> a in mem
  }

  ghost predicate HeaderIs(mem: Store, b: Block, link: int) {
    && b.addr in mem && b.addr + 8 in mem && b.addr + 16 in mem
    && mem[b.addr] == b.size
    && mem[b.addr + 8] == link
    && (mem[b.addr + 16] != 0 <==> b.free)
  }

  /** Each header holds its block's size, flag and the address of the next; the last one `link`. */
  ghost predicate Linked(mem: Store, bs: seq<Block>, link: int) {
    bs != [] ==> HeaderIs(mem, bs[0], First(bs[1..], link)) && Linked(mem, bs[1..], link)
  }

  lemma {:induction false} LinkedConcat(mem: Store, xs: seq<Block>, ys: seq<Block>, link: int)
    ensures Linked(mem, xs + ys, link) <==> Linked(mem, xs, First(ys, link)) && Linked(mem, ys, link)
    decreases |xs|
  {
    if xs == [] {
      assert xs + ys == ys;
    } else {
      assert (xs + ys)[1..] == xs[1..] + ys;
      LinkedConcat(mem, xs[1..], ys, link);
    }
  }

  lemma LinkedAt(mem: Store, bs: seq<Block>, k: nat, link: int)
    requires k < |bs|
    ensures Linked(mem, bs, link) <==>
            && Linked(mem, bs[..k], bs[k].addr)
            && HeaderIs(mem, bs[k], First(bs[k + 1..], link))
            && Linked(mem, bs[k + 1..], link)
  {
    assert bs == bs[..k] + bs[k..];
    assert bs[k..][1..] == bs[k + 1..];
    LinkedConcat(mem, bs[..k], bs[k..], link);
  }

  /** Store that agrees on [from, to) holds the same list there. */
  lemma {:induction false} LinkedFrame(was: Store, mem: Store, bs: seq<Block>, from: int, to: int, link: int)
    requires Linked(was, bs, link)
    requires Tiles(bs, from, to)
    requires forall a :: from <= a < to && a in was ==> a in mem && mem[a] == was[a]
    ensures Linked(mem, bs, link)
    decreases |bs|
  {
    if bs != [] {
      TileBounds(bs[1..], bs[0].Limit(), to);
      LinkedFrame(was, mem, bs[1..], bs[0].Limit(), to, link);
    }
  }

  ghost predicate Represents(mem: Store, bs: seq<Block>) {
    bs != [] && Tiled(bs) && Mapped(mem) && Linked(mem, bs, 0)
  }

  // ---------------------------------------------------------------------------------------------
  // First fit and split
  // ---------------------------------------------------------------------------------------------

  /** The request size after rounding in 64-bit arithmetic. */
  function RoundUp8(size: Word): (r: Word)
    ensures r % 8 == 0
  {
    var s := (size + 7) % TWO64;
    s - s % 8
  }

  /** Rounding never loses bytes, except for the seven sizes whose rounding wraps to zero. */
  lemma RoundUp8Exact(size: Word)
    ensures size <= RoundUp8(size) < size + 8 <==> size <= TWO64 - 8
    ensures size > TWO64 - 8 ==> RoundUp8(size) == 0
  {
    if size > TWO64 - 8 {
      assert (size + 7) % TWO64 == size + 7 - TWO64;
    } else {
      assert (size + 7) % TWO64 == size + 7;
    }
  }

  predicate Fits(b: Block, need: int) { b.free && b.size >= need }

  /** What an allocation of `need` bytes is: block `k` is the first that is free and has at least that size.  It
      becomes a live block of exactly that size, with the rest as a free block behind its header, if more
      than 16 bytes would be left for that one; otherwise it is handed out whole. */
  ghost predicate Granted(bs: seq<Block>, bs': seq<Block>, need: int, ptr: int, k: int) {
    && 0 <= k < |bs| && bs[k].free && bs[k].size >= need
    && (forall j :: 0 <= j < k && bs[j].free ==> bs[j].size < need)
    && ptr == bs[k].addr + 24
    && bs' == bs[..k]
              + (if bs[k].size - need - 24 > 16
                 then [Block(bs[k].addr, need, false), Block(bs[k].addr + 24 + need, bs[k].size - need - 24, true)]
                 else [Block(bs[k].addr, bs[k].size, false)])
              + bs[k + 1..]
  }

  /** The index of the first block that fits, or the length of the list. */
  function FirstFit(bs: seq<Block>, need: int): (k: nat)
    ensures k <= |bs|
    ensures k < |bs| ==> Fits(bs[k], need)
    ensures forall j :: 0 <= j < k ==> !Fits(bs[j], need)
  {
    if bs == [] then 0
    else if Fits(bs[0], need) then 0
    else
      var k := FirstFit(bs[1..], need);
      assert forall j :: 1 <= j < k + 1 ==> bs[j] == bs[1..][j - 1];
      k + 1
  }

  predicate Splits(b: Block, need: int) { b.size > need + HEADER + 16 }

  /** What becomes of a free block that is handed out for `need` bytes. */
  function Cut(b: Block, need: int): seq<Block> {
    if Splits(b, need) then
      [Block(b.addr, need, false), Block(b.addr + HEADER + need, b.size - need - HEADER, true)]
    else
      [b.(free := false)]
  }

  function Carve(bs: seq<Block>, k: nat, need: int): seq<Block>
    requires k < |bs|
  {
    bs[..k] + (Cut(bs[k], need) + bs[k + 1..])
  }

  function AfterMalloc(bs: seq<Block>, size: Word): seq<Block> {
    var need := RoundUp8(size);
    var k := FirstFit(bs, need);
    if size == 0 || k == |bs| then bs else Carve(bs, k, need)
  }

  /** There is no fit exactly if all free blocks are smaller. */
  lemma NullIff(bs: seq<Block>, need: int)
    ensures FirstFit(bs, need) == |bs| <==> forall b :: b in bs && b.free ==> b.size < need
  {
    var k := FirstFit(bs, need);
    if k < |bs| {
      assert bs[k] in bs;
    }
  }

  lemma GrantedFirst(bs: seq<Block>, need: int)
    requires FirstFit(bs, need) < |bs|
    ensures var k := FirstFit(bs, need);
            Granted(bs, Carve(bs, k, need), need, bs[k].addr + 24, k)
  {
    var k := FirstFit(bs, need);
    CarveSpelled(bs, k, need);
    forall j | 0 <= j < k && bs[j].free
      ensures bs[j].size < need
    {
      assert !Fits(bs[j], need);
    }
  }

  lemma HandedLive(bs: seq<Block>, k: nat, need: int)
    requires k < |bs| && Fits(bs[k], need)
    ensures var bs' := Carve(bs, k, need);
            IsLive(bs', k, bs[k].addr + HEADER) && bs'[k].size >= need
  {
    assert Carve(bs, k, need)[k] == Cut(bs[k], need)[0];
  }

  lemma CarveSpelled(bs: seq<Block>, k: nat, need: int)
    requires k < |bs| && bs[k].free
    ensures Carve(bs, k, need) ==
            bs[..k]
            + (if bs[k].size - need - 24 > 16
               then [Block(bs[k].addr, need, false), Block(bs[k].addr + 24 + need, bs[k].size - need - 24, true)]
               else [Block(bs[k].addr, bs[k].size, false)])
            + bs[k + 1..]
  {
    Associative(bs[..k], Cut(bs[k], need), bs[k + 1..]);
  }

  lemma Associative(xs: seq<Block>, ys: seq<Block>, zs: seq<Block>)
    ensures xs + (ys + zs) == xs + ys + zs
  {
  }

  lemma CutTiles(b: Block, need: int, ys: seq<Block>, to: int)
    requires Fits(b, need) && 0 <= need && need % 8 == 0 && b.size % 8 == 0
    requires Tiles(ys, b.Limit(), to)
    ensures Tiles(Cut(b, need) + ys, b.addr, to)
  {
    var cs := Cut(b, need) + ys;
    if Splits(b, need) {
      assert cs[1..][1..] == ys;
      assert Tiles(cs[1..], b.addr + HEADER + need, to);
    } else {
      assert cs[1..] == ys;
    }
  }

  lemma CarveTiles(bs: seq<Block>, k: nat, need: int)
    requires Tiled(bs)
    requires k < |bs| && Fits(bs[k], need)
    requires 0 <= need && need % 8 == 0
    ensures Tiled(Carve(bs, k, need))
  {
    TilesAt(bs, k, BASE, END);
    CutTiles(bs[k], need, bs[k + 1..], END);
    TilesConcat(bs[..k], Cut(bs[k], need) + bs[k + 1..], BASE, END);
  }

  /** The block handed out is large enough for the request exactly when its rounding did not
      wrap. */
  lemma PayloadHoldsRequest(bs: seq<Block>, size: Word)
    requires Tiled(bs) && size != 0
    requires FirstFit(bs, RoundUp8(size)) < |bs|
    ensures var k := FirstFit(bs, RoundUp8(size));
            k < |AfterMalloc(bs, size)| && (AfterMalloc(bs, size)[k].size >= size <==> size <= TWO64 - 8)
  {
    var k := FirstFit(bs, RoundUp8(size));
    TileBounds(bs, BASE, END);
    assert bs[k] in bs;
    RoundUp8Exact(size);
    assert AfterMalloc(bs, size)[k] == Cut(bs[k], RoundUp8(size))[0];
  }

  // ---------------------------------------------------------------------------------------------
  // Free and the coalescing pass
  // ---------------------------------------------------------------------------------------------

  function Merge(a: Block, b: Block): Block {
    Block(a.addr, a.size + HEADER + b.size, a.free)
  }

  /** One left-to-right pass that moves on after every merge. */
  function Coalesce(bs: seq<Block>): seq<Block> {
    if |bs| < 2 then bs
    else if bs[0].free && bs[1].free then [Merge(bs[0], bs[1])] + Coalesce(bs[2..])
    else [bs[0]] + Coalesce(bs[1..])
  }

  predicate IsLive(bs: seq<Block>, k: int, ptr: int) {
    0 <= k < |bs| && !bs[k].free && bs[k].addr + HEADER == ptr
  }

  function Release(bs: seq<Block>, k: nat): seq<Block>
    requires k < |bs|
  {
    bs[..k] + ([bs[k].(free := true)] + bs[k + 1..])
  }

  function AfterFree(bs: seq<Block>, k: nat): seq<Block>
    requires k < |bs|
  {
    Coalesce(Release(bs, k))
  }

  lemma ReleaseTiles(bs: seq<Block>, k: nat)
    requires k < |bs| && Tiled(bs)
    ensures Tiled(Release(bs, k))
  {
    var freed := [bs[k].(free := true)] + bs[k + 1..];
    TilesAt(bs, k, BASE, END);
    assert freed[1..] == bs[k + 1..];
    TilesConcat(bs[..k], freed, BASE, END);
  }

  /** The pass never breaks the tiling. */
  lemma {:induction false} CoalesceTiles(bs: seq<Block>, from: int, to: int)
    requires Tiles(bs, from, to)
    ensures Tiles(Coalesce(bs), from, to)
    decreases |bs|
  {
    if |bs| >= 2 {
      if bs[0].free && bs[1].free {
        assert bs[1..][1..] == bs[2..];
        CoalesceTiles(bs[2..], bs[1].Limit(), to);
        assert Coalesce(bs)[1..] == Coalesce(bs[2..]);
      } else {
        CoalesceTiles(bs[1..], bs[0].Limit(), to);
        assert Coalesce(bs)[1..] == Coalesce(bs[1..]);
      }
    }
  }

  // ---------------------------------------------------------------------------------------------
  // The coalescing bound
  // ---------------------------------------------------------------------------------------------

  function One(p: bool): nat { if p then 1 else 0 }

  /** How many neighbouring pairs of free blocks the list has. */
  function FreePairs(bs: seq<Block>): nat {
    if |bs| < 2 then 0 else One(bs[0].free && bs[1].free) + FreePairs(bs[1..])
  }

  /** One pass at least halves the number of neighbouring free pairs. */
  lemma {:induction false} CoalesceHalvesPairs(bs: seq<Block>)
    ensures 2 * FreePairs(Coalesce(bs)) <= FreePairs(bs)
    ensures |bs| > 0 ==> |Coalesce(bs)| > 0 && Coalesce(bs)[0].free == bs[0].free
    decreases |bs|
  {
    if |bs| >= 2 {
      if bs[0].free && bs[1].free {
        CoalesceHalvesPairs(bs[2..]);
        assert Coalesce(bs)[1..] == Coalesce(bs[2..]);
        assert bs[1..][1..] == bs[2..];
        assert |bs| > 2 ==> Coalesce(bs[2..])[0].free == bs[2].free;
      } else {
        CoalesceHalvesPairs(bs[1..]);
        assert Coalesce(bs)[1..] == Coalesce(bs[1..]);
      }
    }
  }

  /** Somewhere in the list three free blocks follow each other. */
  predicate FreeTriple(bs: seq<Block>) {
    |bs| >= 3 && ((bs[0].free && bs[1].free && bs[2].free) || FreeTriple(bs[1..]))
  }

  /** A pass leaves neighbouring free blocks behind exactly when it met three in a row. */
  lemma {:induction false} PairSurvivesIffTriple(bs: seq<Block>)
    ensures FreePairs(Coalesce(bs)) > 0 <==> FreeTriple(bs)
    decreases |bs|
  {
    if |bs| >= 2 {
      if bs[0].free && bs[1].free {
        assert bs[1..][1..] == bs[2..];
        PairSurvivesIffTriple(bs[2..]);
        CoalesceHalvesPairs(bs[2..]);
        assert Coalesce(bs)[1..] == Coalesce(bs[2..]);
      } else {
        PairSurvivesIffTriple(bs[1..]);
        CoalesceHalvesPairs(bs[1..]);
        assert Coalesce(bs)[1..] == Coalesce(bs[1..]);
      }
    }
  }

  lemma {:induction false} TripleHasTwoPairs(bs: seq<Block>)
    requires FreeTriple(bs)
    ensures FreePairs(bs) >= 2
    decreases |bs|
  {
    if FreeTriple(bs[1..]) {
      TripleHasTwoPairs(bs[1..]);
    } else {
      assert bs[1..][1..] == bs[2..];
    }
  }

  lemma {:induction false} FreePairsConcat(xs: seq<Block>, ys: seq<Block>)
    ensures FreePairs(xs + ys) ==
            FreePairs(xs) + FreePairs(ys)
            + One(|xs| > 0 && |ys| > 0 && xs[|xs| - 1].free && ys[0].free)
    decreases |xs|
  {
    if xs == [] {
      assert xs + ys == ys;
    } else {
      FreePairsConcat(xs[1..], ys);
      assert (xs + ys)[1..] == xs[1..] + ys;
    }
  }

  /** Replacing block `b` by `b'` changes only the pairs the two form with their neighbours. */
  lemma PairsAround(xs: seq<Block>, b: Block, ys: seq<Block>)
    ensures FreePairs(xs + ([b] + ys)) ==
            FreePairs(xs) + FreePairs(ys)
            + One(|ys| > 0 && b.free && ys[0].free)
            + One(|xs| > 0 && xs[|xs| - 1].free && b.free)
  {
    FreePairsConcat([b], ys);
    FreePairsConcat(xs, [b] + ys);
  }

  lemma SplitAt(bs: seq<Block>, k: nat)
    requires k < |bs|
    ensures bs == bs[..k] + ([bs[k]] + bs[k + 1..])
  {
  }

  /** Freeing one block adds at most two neighbouring pairs, and the pass then halves them. */
  lemma FreeKeepsOnePair(bs: seq<Block>, k: nat)
    requires k < |bs| && !bs[k].free
    requires FreePairs(bs) <= 1
    ensures FreePairs(AfterFree(bs, k)) <= 1
  {
    SplitAt(bs, k);
    PairsAround(bs[..k], bs[k], bs[k + 1..]);
    PairsAround(bs[..k], bs[k].(free := true), bs[k + 1..]);
    CoalesceHalvesPairs(Release(bs, k));
  }

  /** Handing out a block never adds a neighbouring pair. */
  lemma CutKeepsPairs(xs: seq<Block>, b: Block, ys: seq<Block>, need: int)
    requires b.free
    ensures FreePairs(xs + (Cut(b, need) + ys)) <= FreePairs(xs + ([b] + ys))
  {
    PairsAround(xs, b, ys);
    if Splits(b, need) {
      var spare := [Cut(b, need)[1]] + ys;
      assert Cut(b, need) + ys == [Cut(b, need)[0]] + spare;
      PairsAround([], spare[0], ys);
      assert [] + spare == spare;
      PairsAround(xs, Cut(b, need)[0], spare);
    } else {
      PairsAround(xs, Cut(b, need)[0], ys);
    }
  }

  // ---------------------------------------------------------------------------------------------
  // Conservation of live allocations
  // ---------------------------------------------------------------------------------------------

  /** The blocks in use, in address order. */
  function Live(bs: seq<Block>): seq<Block> {
    if bs == [] then [] else (if bs[0].free then [] else [bs[0]]) + Live(bs[1..])
  }

  lemma {:induction false} LiveConcat(xs: seq<Block>, ys: seq<Block>)
    ensures Live(xs + ys) == Live(xs) + Live(ys)
    decreases |xs|
  {
    if xs == [] {
      assert xs + ys == ys;
    } else {
      LiveConcat(xs[1..], ys);
      assert (xs + ys)[1..] == xs[1..] + ys;
      var head := if xs[0].free then [] else [xs[0]];
      assert head + (Live(xs[1..]) + Live(ys)) == (head + Live(xs[1..])) + Live(ys);
    }
  }

  /** Coalescing moves, drops and resizes no live block. */
  lemma {:induction false} CoalesceKeepsLive(bs: seq<Block>)
    ensures Live(Coalesce(bs)) == Live(bs)
    decreases |bs|
  {
    if |bs| >= 2 {
      if bs[0].free && bs[1].free {
        CoalesceKeepsLive(bs[2..]);
        assert Coalesce(bs)[1..] == Coalesce(bs[2..]);
        assert bs[1..][1..] == bs[2..];
      } else {
        CoalesceKeepsLive(bs[1..]);
        assert Coalesce(bs)[1..] == Coalesce(bs[1..]);
      }
    }
  }

  lemma {:induction false} LiveIsPart(bs: seq<Block>)
    ensures forall b :: b in Live(bs) ==> b in bs && !b.free
    decreases |bs|
  {
    if bs != [] {
      LiveIsPart(bs[1..]);
    }
  }

  /** The payloads of the given live blocks hold in `mem` what they held in `was`. */
  ghost predicate Spares(was: Store, mem: Store, live: seq<Block>) {
    forall b, a :: b in live && a in was && b.addr + HEADER <= a < b.Limit() ==> a in mem && mem[a] == was[a]
  }

  lemma SparesTransitive(m0: Store, m1: Store, m2: Store, live: seq<Block>)
    requires Spares(m0, m1, live) && Spares(m1, m2, live)
    ensures Spares(m0, m2, live)
  {
  }

  lemma LiveAround(xs: seq<Block>, b: Block, ys: seq<Block>)
    ensures Live(xs + ([b] + ys)) == Live(xs) + ((if b.free then [] else [b]) + Live(ys))
  {
    LiveConcat(xs, [b] + ys);
    assert ([b] + ys)[1..] == ys;
  }

  /** `kfree` removes exactly the freed block from the live ones. */
  lemma FreeRemovesOneLive(xs: seq<Block>, b: Block, ys: seq<Block>)
    requires !b.free
    ensures Live(xs + ([b] + ys)) == Live(xs) + ([b] + Live(ys))
    ensures Live(AfterFree(xs + ([b] + ys), |xs|)) == Live(xs) + Live(ys)
  {
    var bs := xs + ([b] + ys);
    assert bs[..|xs|] == xs && bs[|xs|] == b && bs[|xs| + 1..] == ys;
    LiveAround(xs, b, ys);
    LiveAround(xs, b.(free := true), ys);
    assert [] + Live(ys) == Live(ys);
    CoalesceKeepsLive(Release(bs, |xs|));
  }

  lemma LiveCut(xs: seq<Block>, b: Block, ys: seq<Block>, need: int)
    ensures Live(xs + (Cut(b, need) + ys)) == Live(xs) + ([Cut(b, need)[0]] + Live(ys))
  {
    if Splits(b, need) {
      var used, spare := Cut(b, need)[0], Cut(b, need)[1];
      assert Cut(b, need) + ys == [used] + ([spare] + ys);
      LiveAround(xs, used, [spare] + ys);
      assert Live([spare] + ys) == Live(ys) by {
        assert ([spare] + ys)[1..] == ys;
      }
    } else {
      LiveAround(xs, Cut(b, need)[0], ys);
    }
  }

  /** `kmalloc` adds exactly the block it hands out. */
  lemma CarveAddsOneLive(xs: seq<Block>, b: Block, ys: seq<Block>, need: int)
    requires b.free
    ensures Live(xs + ([b] + ys)) == Live(xs) + Live(ys)
    ensures Live(Carve(xs + ([b] + ys), |xs|, need)) == Live(xs) + ([Cut(b, need)[0]] + Live(ys))
  {
    var bs := xs + ([b] + ys);
    assert bs[..|xs|] == xs && bs[|xs|] == b && bs[|xs| + 1..] == ys;
    LiveAround(xs, b, ys);
    assert [] + Live(ys) == Live(ys);
    LiveCut(xs, b, ys, need);
  }

  // ---------------------------------------------------------------------------------------------
  // Whole runs
  // ---------------------------------------------------------------------------------------------

  datatype Op = Malloc(size: Word) | Free(block: nat)

  const Fresh: seq<Block> := [Block(BASE, HEAP_PAGES * PAGE_SIZE - HEADER, true)]

  /** A run frees live blocks only, named here by their position in the list. */
  predicate Legal(bs: seq<Block>, op: Op) {
    op.Free? ==> op.block < |bs| && !bs[op.block].free
  }

  function Step(bs: seq<Block>, op: Op): seq<Block>
    requires Legal(bs, op)
  {
    match op
    case Malloc(size) => AfterMalloc(bs, size)
    case Free(k) => AfterFree(bs, k)
  }

  predicate LegalRun(bs: seq<Block>, ops: seq<Op>)
    decreases |ops|
  {
    ops == [] || (Legal(bs, ops[0]) && LegalRun(Step(bs, ops[0]), ops[1..]))
  }

  function Run(bs: seq<Block>, ops: seq<Op>): seq<Block>
    requires LegalRun(bs, ops)
    decreases |ops|
  {
    if ops == [] then bs else Run(Step(bs, ops[0]), ops[1..])
  }

  ghost predicate Invariant(bs: seq<Block>) {
    Tiled(bs) && FreePairs(bs) <= 1
  }

  lemma StepInvariant(bs: seq<Block>, op: Op)
    requires Invariant(bs) && Legal(bs, op)
    ensures Invariant(Step(bs, op))
  {
    match op {
      case Malloc(size) =>
        var need := RoundUp8(size);
        var k := FirstFit(bs, need);
        if size != 0 && k < |bs| {
          CarveTiles(bs, k, need);
          SplitAt(bs, k);
          CutKeepsPairs(bs[..k], bs[k], bs[k + 1..], need);
        }
      case Free(k) =>
        ReleaseTiles(bs, k);
        CoalesceTiles(Release(bs, k), BASE, END);
        FreeKeepsOnePair(bs, k);
    }
  }

  /** In every state any legal run reaches, the heap is tiled and has at most one neighbouring
      pair of free blocks. */
  lemma {:induction false} RunInvariant(bs: seq<Block>, ops: seq<Op>)
    requires Invariant(bs) && LegalRun(bs, ops)
    ensures Invariant(Run(bs, ops))
    decreases |ops|
  {
    if ops != [] {
      StepInvariant(bs, ops[0]);
      RunInvariant(Step(bs, ops[0]), ops[1..]);
    }
  }

  lemma AllFree(bs: seq<Block>)
    requires Live(bs) == [] && bs != []
    ensures bs[0].free && Live(bs[1..]) == []
  {
    assert |Live(bs)| >= |Live(bs[1..])|;
  }

  /** No reachable heap has three free blocks in a row, so once everything is freed at most two
      blocks are left. */
  lemma ReachableHeap(ops: seq<Op>)
    requires LegalRun(Fresh, ops)
    ensures Tiled(Run(Fresh, ops))
    ensures FreePairs(Run(Fresh, ops)) <= 1
    ensures !FreeTriple(Run(Fresh, ops))
    ensures Live(Run(Fresh, ops)) == [] ==> |Run(Fresh, ops)| <= 2
  {
    assert Invariant(Fresh) by {
      assert Fresh[1..] == [] && Tiles([], END, END);
      assert Fresh[0].Limit() == END;
    }
    RunInvariant(Fresh, ops);
    var bs := Run(Fresh, ops);
    if FreeTriple(bs) {
      TripleHasTwoPairs(bs);
    }
    if Live(bs) == [] && |bs| > 2 {
      AllFree(bs);
      AllFree(bs[1..]);
      AllFree(bs[1..][1..]);
    }
  }

  /** Full coalescing is not an invariant: after two allocations and two frees, two free
      neighbours remain. */
  lemma AdjacentFreeBlocksReachable()
    ensures var ops := [Malloc(8), Malloc(8), Free(0), Free(1)];
            LegalRun(Fresh, ops) && FreePairs(Run(Fresh, ops)) == 1
  {
    var total := 256 * 0x1000 - HEADER;
    var a := Block(BASE, 8, false);
    var b := Block(BASE + 32, 8, false);
    var rest := Block(BASE + 64, total - 64, true);
    var fa, fb := a.(free := true), b.(free := true);
    var s1 := [a, Block(BASE + 32, total - 32, true)];
    var s2, s3, s4 := [a, b, rest], [fa, b, rest], [Block(BASE, 40, true), rest];
    assert RoundUp8(8) == 8;
    assert FirstFit(Fresh, 8) == 0;
    assert Step(Fresh, Malloc(8)) == s1;
    assert FirstFit(s1, 8) == 1;
    assert Step(s1, Malloc(8)) == s2;
    assert Step(s2, Free(0)) == s3 by {
      assert Release(s2, 0) == s3;
      assert [b, rest][1..] == [rest];
      assert Coalesce([b, rest]) == [b, rest];
      assert s3[1..] == [b, rest];
      assert Coalesce(s3) == [fa] + [b, rest];
    }
    assert Step(s3, Free(1)) == s4 by {
      assert Release(s3, 1) == [fa, fb, rest];
      assert [fa, fb, rest][2..] == [rest];
      assert Coalesce([fa, fb, rest]) == [Merge(fa, fb)] + [rest];
    }
    var o1: seq<Op>, o2: seq<Op>, o3: seq<Op> := [Free(1)], [Free(0), Free(1)], [Malloc(8), Free(0), Free(1)];
    assert o1[1..] == [] && LegalRun(s4, []) && Run(s4, []) == s4;
    assert LegalRun(s3, o1) && Run(s3, o1) == s4;
    assert o2[1..] == o1 && LegalRun(s2, o2) && Run(s2, o2) == s4;
    assert o3[1..] == o2 && LegalRun(s1, o3) && Run(s1, o3) == s4;
    assert [Malloc(8), Malloc(8), Free(0), Free(1)][1..] == o3;
    assert s4[1..] == [rest];
  }

  /** The largest request of all is granted on a fresh heap, with a block of no bytes. */
  lemma LargestRequestGetsNothing()
    ensures var bs := AfterMalloc(Fresh, TWO64 - 1);
            FirstFit(Fresh, RoundUp8(TWO64 - 1)) == 0 && !bs[0].free && bs[0].size == 0
  {
    RoundUp8Exact(TWO64 - 1);
    assert Fits(Fresh[0], 0);
  }

  // ---------------------------------------------------------------------------------------------
  // The allocator itself
  // ---------------------------------------------------------------------------------------------

  /** Replacing block `k` by `mid` in memory: if `mem` links `mid` in the place of the block and
      agrees with `was` outside it, it represents the new list and spares every live payload. */
  lemma ReplaceRepresents(was: Store, mem: Store, bs: seq<Block>, k: nat, n: nat, mid: seq<Block>)
    requires Represents(was, bs)
    requires k < k + n <= |bs| && mid != []
    requires var lo, hi := bs[k].addr, First(bs[k + n..], END);
             && Tiles(mid, lo, hi)
             && Linked(mem, mid, First(bs[k + n..], 0))
             && forall a :: a in was ==> a in mem && (a < lo || hi <= a ==> mem[a] == was[a])
    ensures Represents(mem, bs[..k] + (mid + bs[k + n..]))
    ensures Spares(was, mem, Live(bs[..k]) + Live(bs[k + n..]))
  {
    var xs, old_, ys := bs[..k], bs[k..k + n], bs[k + n..];
    var lo, hi := bs[k].addr, First(ys, END);
    assert bs == xs + bs[k..] && bs[k..] == old_ + ys;
    TilesConcat(xs, bs[k..], BASE, END);
    TilesConcat(old_, ys, lo, END);
    LinkedConcat(was, xs, bs[k..], 0);
    LinkedConcat(was, old_, ys, 0);
    LinkedFrame(was, mem, xs, BASE, lo, lo);
    LinkedFrame(was, mem, ys, hi, END, 0);
    TilesConcat(mid, ys, lo, END);
    TilesConcat(xs, mid + ys, BASE, END);
    LinkedConcat(mem, mid, ys, 0);
    LinkedConcat(mem, xs, mid + ys, 0);
    TileBounds(xs, BASE, lo);
    TileBounds(ys, hi, END);
    LiveIsPart(xs);
    LiveIsPart(ys);
  }

  /** The header writes of `kmalloc`, in order: the spare block's header if the block is split,
      then the block's own. */
  ghost predicate MallocWrites(was: Store, mem: Store, b: Block, need: Word, link: int) {
    var newb := b.addr + HEADER + need;
    if Splits(b, need) then
      && 0 <= newb < TWO64 && 0 <= b.size - need - HEADER < TWO64 && 0 <= link < TWO64
      && mem == was[newb := b.size - need - HEADER][newb + 8 := link][newb + 16 := 1]
                   [b.addr := need][b.addr + 8 := newb][b.addr + 16 := 0]
    else
      mem == was[b.addr + 16 := 0]
  }

  lemma CutLinked(was: Store, mem: Store, b: Block, need: Word, link: int)
    requires b.size >= need
    requires HeaderIs(was, b, link) && MallocWrites(was, mem, b, need, link)
    ensures Linked(mem, Cut(b, need), link)
    ensures forall a :: a in was ==> a in mem && (a < b.addr || b.Limit() <= a ==> mem[a] == was[a])
  {
    var cut := Cut(b, need);
    if Splits(b, need) {
      assert cut[1..][1..] == [];
      assert Linked(mem, cut[1..], link);
    } else {
      assert cut[1..] == [];
    }
  }

  lemma MallocRepresents(was: Store, mem: Store, bs: seq<Block>, k: nat, need: Word)
    requires Represents(was, bs)
    requires k < |bs| && Fits(bs[k], need) && need % 8 == 0
    requires MallocWrites(was, mem, bs[k], need, First(bs[k + 1..], 0))
    ensures Represents(mem, Carve(bs, k, need))
    ensures Spares(was, mem, Live(bs))
  {
    var b := bs[k];
    LinkedAt(was, bs, k, 0);
    TilesAt(bs, k, BASE, END);
    CutLinked(was, mem, b, need, First(bs[k + 1..], 0));
    CutTiles(b, need, [], b.Limit());
    assert Cut(b, need) + [] == Cut(b, need);
    assert First(bs[k + 1..], END) == b.Limit();
    ReplaceRepresents(was, mem, bs, k, 1, Cut(b, need));
    SplitAt(bs, k);
    LiveAround(bs[..k], b, bs[k + 1..]);
    assert [] + Live(bs[k + 1..]) == Live(bs[k + 1..]);
  }

  lemma StoreRepresents(was: Store, bs: seq<Block>, k: nat, at: int, v: Word)
    requires Represents(was, bs) && k < |bs| && bs[k].addr + HEADER <= at < bs[k].Limit()
    ensures Represents(was[at := v], bs) && BASE <= at < END
  {
    BlockInside(bs, k);
    LinkedAt(was, bs, k, 0);
    TilesAt(bs, k, BASE, END);
    Around(bs, k);
    ReplaceRepresents(was, was[at := v], bs, k, 1, [bs[k]]);
  }

  lemma BlockInside(bs: seq<Block>, k: nat)
    requires Tiled(bs) && k < |bs|
    ensures BASE <= bs[k].addr && bs[k].Limit() <= END
  {
    TileBounds(bs, BASE, END);
    assert bs[k] in bs;
  }

  lemma Around(bs: seq<Block>, k: nat)
    requires k < |bs|
    ensures bs == bs[..k] + ([bs[k]] + bs[k + 1..]) && bs[k..k + 1] == [bs[k]]
  {
  }

  lemma ReleaseRepresents(was: Store, mem: Store, bs: seq<Block>, k: nat)
    requires Represents(was, bs)
    requires k < |bs|
    requires mem == was[bs[k].addr + 16 := 1]
    ensures Represents(mem, Release(bs, k))
    ensures Spares(was, mem, Live(Release(bs, k)))
  {
    var mid := [bs[k].(free := true)];
    LinkedAt(was, bs, k, 0);
    TilesAt(bs, k, BASE, END);
    assert mid[1..] == [];
    ReplaceRepresents(was, mem, bs, k, 1, mid);
    LiveAround(bs[..k], mid[0], bs[k + 1..]);
    assert [] + Live(bs[k + 1..]) == Live(bs[k + 1..]);
  }

  /** Two neighbours merged still fit the heap. */
  lemma MergedSize(bs: seq<Block>, i: nat)
    requires Tiled(bs) && i + 1 < |bs|
    ensures 0 <= bs[i].size + HEADER + bs[i + 1].size < TWO64
    ensures BASE <= bs[i].addr && bs[i].Limit() == bs[i + 1].addr
  {
    TileBounds(bs, BASE, END);
    assert bs[i] in bs && bs[i + 1] in bs;
    TilesAt(bs, i, BASE, END);
  }

  /** The two header writes of a merge describe the merged list. */
  lemma MergeRepresents(was: Store, mem: Store, bs: seq<Block>, i: nat)
    requires Represents(was, bs)
    requires i + 1 < |bs| && bs[i].free && bs[i + 1].free
    requires HeaderIs(mem, Merge(bs[i], bs[i + 1]), First(bs[i + 2..], 0))
    requires forall a :: a in was ==> a in mem && (a < bs[i].addr || bs[i].addr + 16 <= a ==> mem[a] == was[a])
    ensures var cs := bs[..i] + ([Merge(bs[i], bs[i + 1])] + bs[i + 2..]);
            && Represents(mem, cs)
            && Live(cs) == Live(bs)
            && Spares(was, mem, Live(cs))
  {
    var m := Merge(bs[i], bs[i + 1]);
    var xs, ys := bs[..i], bs[i + 2..];
    TilesAt(bs, i, BASE, END);
    TilesAt(bs, i + 1, BASE, END);
    assert bs[i + 1..][1..] == ys;
    assert [m][1..] == [];
    assert m.Limit() == First(ys, END);
    ReplaceRepresents(was, mem, bs, i, 2, [m]);
    SplitAt(bs, i);
    assert bs[i + 1..] == [bs[i + 1]] + ys;
    LiveAround(xs, bs[i], bs[i + 1..]);
    LiveAround([], bs[i + 1], ys);
    assert [] + bs[i + 1..] == bs[i + 1..];
    LiveAround(xs, m, ys);
    assert [] + Live(ys) == Live(ys);
  }

  /** One iteration of the pass, merging or not, leaves its final result the same. */
  lemma CoalesceAdvances(bs: seq<Block>, cs: seq<Block>, i: nat)
    requires i + 1 < |bs|
    requires cs == if bs[i].free && bs[i + 1].free
                   then bs[..i] + ([Merge(bs[i], bs[i + 1])] + bs[i + 2..]) else bs
    ensures cs[..i + 1] + Coalesce(cs[i + 1..]) == bs[..i] + Coalesce(bs[i..])
  {
    if bs[i].free && bs[i + 1].free {
      assert cs[i + 1..] == bs[i..][2..];
    } else {
      assert cs[i + 1..] == bs[i..][1..];
    }
  }

  lemma CoalesceEnds(bs: seq<Block>, i: nat)
    requires |bs| - 1 <= i <= |bs|
    ensures bs[..i] + Coalesce(bs[i..]) == bs
  {
    assert bs[..i] + bs[i..] == bs;
  }

  /** A loop cursor: `b` is the address of block `i`, or 0 past the last block. */
  ghost predicate Cursor(mem: Store, bs: seq<Block>, i: nat, b: int) {
    && i <= |bs|
    && (b == 0 <==> i == |bs|)
    && (i < |bs| ==> b == bs[i].addr && HeaderIs(mem, bs[i], First(bs[i + 1..], 0)))
  }

  lemma CursorAt(mem: Store, bs: seq<Block>, i: nat)
    requires Represents(mem, bs) && i <= |bs|
    ensures Cursor(mem, bs, i, if i < |bs| then bs[i].addr else 0)
  {
    TileBounds(bs, BASE, END);
    if i < |bs| {
      LinkedAt(mem, bs, i, 0);
    }
  }

  lemma CursorNext(mem: Store, bs: seq<Block>, i: nat, b: int)
    requires Represents(mem, bs) && Cursor(mem, bs, i, b) && b != 0
    ensures Cursor(mem, bs, i + 1, mem[b + 8])
    ensures mem[b + 8] != 0 <==> i + 1 < |bs|
    ensures mem[b + 8] != 0 ==> HeaderIs(mem, bs[i + 1], First(bs[i + 2..], 0))
  {
    CursorAt(mem, bs, i + 1);
  }

  class Allocator {
    var mem: Store
    var head: int
    ghost var blocks: seq<Block>

    ghost predicate Valid()
      reads this
    {
      if head == 0 then blocks == [] else head == BASE && Represents(mem, blocks)
    }

    constructor (memory: Store)
      ensures Valid() && head == 0 && mem == memory
    {
      mem := memory;
      head := 0;
      blocks := [];
    }

    /** The tail of `heap_init`, once the pages behind the heap are mapped. */
    method Format()
      requires Mapped(mem)
      modifies this
      ensures Valid() && head == BASE
      ensures blocks == Fresh
      ensures mem == old(mem)[BASE := HEAP_PAGES * PAGE_SIZE - HEADER][BASE + 8 := 0][BASE + 16 := 1]
    {
      head := BASE;
      mem := mem[BASE := HEAP_PAGES * PAGE_SIZE - HEADER][BASE + 8 := 0][BASE + 16 := 1];
      blocks := Fresh;
    }

    method KMalloc(size: Word) returns (ptr: int)
      requires Valid()
      modifies this
      ensures Valid() && head == old(head)
      ensures blocks == old(AfterMalloc(blocks, size))
      ensures head == 0 || size == 0 ==> ptr == 0
      ensures head != 0 && size != 0 ==>
                (ptr == 0 <==> forall b :: b in old(blocks) && b.free ==> b.size < RoundUp8(size))
      ensures ptr != 0 ==> exists k :: Granted(old(blocks), blocks, RoundUp8(size), ptr, k)
      ensures ptr != 0 ==>
                var k := FirstFit(old(blocks), RoundUp8(size));
                IsLive(blocks, k, ptr) && blocks[k].size >= RoundUp8(size)
      ensures Spares(old(mem), mem, Live(old(blocks)))
    {
      if head == 0 || size == 0 {
        return 0;
      }
      var need := RoundUp8(size);
      NullIff(blocks, need);
      var cur := FindFit(need);
      if cur == 0 {
        return 0;
      }
      GrantedFirst(blocks, need);
      HandOut(cur, need, FirstFit(blocks, need));
      return cur + HEADER;
    }

    /** The tail of `kmalloc`: the block is split if it is large, and marked. */
    method HandOut(cur: int, need: Word, ghost k: nat)
      requires Valid() && head != 0 && need % 8 == 0 && k < |blocks| && cur == blocks[k].addr && Fits(blocks[k], need)
      requires HeaderIs(mem, blocks[k], First(blocks[k + 1..], 0)) && BASE <= cur && cur + HEADER + mem[cur] <= END
      modifies this`mem, this`blocks
      ensures Valid() && blocks == Carve(old(blocks), k, need)
      ensures IsLive(blocks, k, cur + HEADER) && blocks[k].size >= need
      ensures Spares(old(mem), mem, Live(old(blocks)))
    {
      ghost var bs, was := blocks, mem;
      WriteHeaders(cur, need, bs[k], First(bs[k + 1..], 0));
      blocks := Carve(bs, k, need);
      MallocRepresents(was, mem, bs, k, need);
      HandedLive(bs, k, need);
    }

    /** The header writes of that. */
    method WriteHeaders(cur: int, need: Word, ghost b: Block, ghost link: int)
      requires HeaderIs(mem, b, link) && cur == b.addr && need % 8 == 0 && Fits(b, need)
      requires BASE <= cur && cur + HEADER + mem[cur] <= END
      modifies this`mem
      ensures MallocWrites(old(mem), mem, b, need, link)
    {
      if mem[cur] > need + HEADER + 16 {
        var newb := cur + HEADER + need;
        mem := mem[newb := mem[cur] - need - HEADER];
        mem := mem[newb + 8 := mem[cur + 8]];
        mem := mem[newb + 16 := 1];
        mem := mem[cur := need];
        mem := mem[cur + 8 := newb];
      }
      mem := mem[cur + 16 := 0];
    }

    /** A program stores a word in a block it was given: no header and no other payload changes. */
    method Store(at: int, v: Word)
      requires Valid() && at % 8 == 0 && exists b :: b in Live(blocks) && b.addr + HEADER <= at < b.Limit()
      modifies this`mem
      ensures Valid() && BASE <= at < END && mem == old(mem)[at := v]
      ensures forall b :: b in Live(blocks) && !(b.addr + HEADER <= at < b.Limit()) ==> Spares(old(mem), mem, [b])
    {
      ghost var b :| b in Live(blocks) && b.addr + HEADER <= at < b.Limit();
      LiveIsPart(blocks);
      ghost var k :| 0 <= k < |blocks| && blocks[k] == b;
      StoreRepresents(mem, blocks, k, at, v);
      mem := mem[at := v];
    }

    /** The search loop of `kmalloc`. */
    method FindFit(need: Word) returns (cur: int)
      requires Valid() && head != 0
      ensures Cursor(mem, blocks, FirstFit(blocks, need), cur)
      ensures cur != 0 ==> BASE <= cur && cur + HEADER + mem[cur] <= END
    {
      cur := head;
      ghost var k := 0;
      CursorAt(mem, blocks, 0);
      while cur != 0 && !(mem[cur + 16] != 0 && mem[cur] >= need)
        invariant Cursor(mem, blocks, k, cur)
        invariant forall j :: 0 <= j < k ==> !Fits(blocks[j], need)
        decreases |blocks| - k
      {
        CursorNext(mem, blocks, k, cur);
        cur := mem[cur + 8];
        k := k + 1;
      }
      TileBounds(blocks, BASE, END);
    }

    method KFree(ptr: int)
      requires Valid()
      requires ptr != 0 ==> exists k :: IsLive(blocks, k, ptr)
      modifies this
      ensures Valid() && head == old(head)
      ensures ptr == 0 ==> blocks == old(blocks) && mem == old(mem)
      ensures ptr != 0 ==> exists k :: IsLive(old(blocks), k, ptr) && blocks == AfterFree(old(blocks), k)
      ensures Spares(old(mem), mem, Live(blocks))
    {
      if ptr == 0 {
        return;
      }
      ghost var k :| IsLive(blocks, k, ptr);
      var block := ptr - HEADER;
      ghost var was, bs := mem, blocks;
      LinkedAt(mem, bs, k, 0);
      mem := mem[block + 16 := 1];
      blocks := Release(bs, k);
      ReleaseRepresents(was, mem, bs, k);
      ghost var marked := mem;
      CoalescePass();
      SparesTransitive(was, marked, mem, Live(blocks));
    }

    /** The loop of `kfree`. */
    method CoalescePass()
      requires Valid() && head != 0
      modifies this`mem, this`blocks
      ensures Valid()
      ensures blocks == Coalesce(old(blocks))
      ensures Live(blocks) == Live(old(blocks))
      ensures Spares(old(mem), mem, Live(blocks))
    {
      var b := head;
      ghost var i := 0;
      ghost var was, bs := mem, blocks;
      PassStarts();
      while b != 0 && mem[b + 8] != 0
        invariant Passing(was, bs, b, i)
        decreases |blocks| - i
      {
        b := CoalesceNext(b, i, was, bs);
        i := i + 1;
      }
      PassEnds(was, bs, b, i);
    }

    lemma PassStarts()
      requires Valid() && head != 0
      ensures Passing(mem, blocks, head, 0)
    {
      CursorAt(mem, blocks, 0);
      assert blocks[0..] == blocks;
    }

    lemma PassEnds(was: Store, bs: seq<Block>, b: int, i: nat)
      requires Passing(was, bs, b, i) && (b != 0 ==> mem[b + 8] == 0)
      ensures blocks == Coalesce(bs)
    {
      if b != 0 {
        CursorNext(mem, blocks, i, b);
      }
      CoalesceEnds(blocks, i);
    }

    /** The pass has come to the header `b` of block `i`, and gone over what is before it. */
    ghost predicate Passing(was: Store, bs: seq<Block>, b: int, i: nat)
      reads this
    {
      && Represents(mem, blocks) && Cursor(mem, blocks, i, b)
      && blocks[..i] + Coalesce(blocks[i..]) == Coalesce(bs)
      && Live(blocks) == Live(bs)
      && Spares(was, mem, Live(blocks))
    }

    method CoalesceNext(b: int, ghost i: nat, ghost was: Store, ghost bs: seq<Block>) returns (next: int)
      requires Passing(was, bs, b, i) && b != 0 && mem[b + 8] != 0
      modifies this`mem, this`blocks
      ensures |blocks| <= |old(blocks)| && Passing(was, bs, next, i + 1)
    {
      ghost var before := mem;
      next := CoalesceStep(b, i);
      SparesTransitive(was, before, mem, Live(blocks));
    }

    /** The body of that loop. */
    method CoalesceStep(b: int, ghost i: nat) returns (next: int)
      requires Represents(mem, blocks) && Cursor(mem, blocks, i, b) && b != 0 && mem[b + 8] != 0
      modifies this`mem, this`blocks
      ensures Represents(mem, blocks) && |blocks| <= |old(blocks)|
      ensures Cursor(mem, blocks, i + 1, next)
      ensures blocks[..i + 1] + Coalesce(blocks[i + 1..]) == old(blocks)[..i] + Coalesce(old(blocks)[i..])
      ensures Live(blocks) == Live(old(blocks))
      ensures Spares(old(mem), mem, Live(blocks))
    {
      ghost var bs := blocks;
      CursorNext(mem, blocks, i, b);
      next := mem[b + 8];
      if mem[b + 16] != 0 && mem[next + 16] != 0 {
        Absorb(b, i);
      }
      CoalesceAdvances(bs, blocks, i);
      CursorNext(mem, blocks, i, b);
      next := mem[b + 8];
    }

    /** A merge: block `b` takes over its free successor. */
    method Absorb(b: int, ghost i: nat)
      requires Represents(mem, blocks)
      requires i + 1 < |blocks| && b == blocks[i].addr && blocks[i].free && blocks[i + 1].free
      modifies this`mem, this`blocks
      ensures Represents(mem, blocks)
      ensures blocks == old(blocks)[..i] + ([Merge(old(blocks)[i], old(blocks)[i + 1])] + old(blocks)[i + 2..])
      ensures Cursor(mem, blocks, i, b)
      ensures Live(blocks) == Live(old(blocks))
      ensures Spares(old(mem), mem, Live(blocks))
    {
      ghost var bs, before := blocks, mem;
      LinkedAt(mem, bs, i, 0);
      LinkedAt(mem, bs, i + 1, 0);
      MergedSize(bs, i);
      var next: int := mem[b + 8];
      mem := mem[b := mem[b] + HEADER + mem[next]];
      mem := mem[b + 8 := mem[next + 8]];
      blocks := bs[..i] + ([Merge(bs[i], bs[i + 1])] + bs[i + 2..]);
      MergeRepresents(before, mem, bs, i);
      CursorAt(mem, blocks, i);
    }
  }
}
