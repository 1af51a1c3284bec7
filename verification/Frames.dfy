/** The physical frame allocator as a value: a free list threaded through the free frames, and the
    boot-time scan of the memory map that fills it. */
module Frames {
  import opened Machine

  /** The list that starts at address `head` runs through exactly the frames `free`, in order: each
      one's first word is the address of the next, and 0 ends it.  No frame occurs twice. */
  ghost predicate FreeList(mem: Memory, head: int, free: seq<nat>)
    decreases |free|
  {
    if free == [] then head == 0
    else
      && 0 < free[0] < |mem|
      && head == free[0] * PAGE_SIZE
      && free[0] !in free[1..]
      && FreeList(mem, Entry(mem, free[0], 0), free[1..])
  }

  /** Memory that agrees on the first word of every free frame holds the same list. */
  lemma {:induction false} FreeListFrame(mem: Memory, mem': Memory, head: int, free: seq<nat>)
    requires FreeList(mem, head, free) && |mem'| == |mem|
    requires forall f :: f in free ==> Entry(mem', f, 0) == Entry(mem, f, 0)
    ensures FreeList(mem', head, free)
    decreases |free|
  {
    if free != [] {
      FreeListFrame(mem, mem', Entry(mem, free[0], 0), free[1..]);
    }
  }

  /** The words of memory determine the list: there is only one for each head. */
  lemma {:induction false} FreeListUnique(mem: Memory, head: int, free: seq<nat>, free': seq<nat>)
    requires FreeList(mem, head, free) && FreeList(mem, head, free')
    ensures free == free'
    decreases |free|
  {
    if free != [] {
      FreeListUnique(mem, Entry(mem, free[0], 0), free[1..], free'[1..]);
      assert free == [free[0]] + free[1..] && free' == [free'[0]] + free'[1..];
    }
  }

  lemma PushKeepsList(mem: Memory, head: Word, free: seq<nat>, p: nat)
    requires FreeList(mem, head, free)
    requires 0 < p < |mem| && p !in free
    ensures FreeList(SetEntry(mem, p, 0, head), p * PAGE_SIZE, [p] + free)
  {
    FreeListFrame(mem, SetEntry(mem, p, 0, head), head, free);
    assert ([p] + free)[1..] == free;
  }

  /** All listed frames exist, and none is frame 0. */
  lemma {:induction false} FreeListBounds(mem: Memory, head: int, free: seq<nat>)
    requires FreeList(mem, head, free)
    ensures forall f :: f in free ==> 0 < f < |mem|
    ensures Distinct(free)
    decreases |free|
  {
    if free != [] {
      FreeListBounds(mem, Entry(mem, free[0], 0), free[1..]);
      DistinctConcat([free[0]], free[1..]);
      assert free == [free[0]] + free[1..];
    }
  }

  // ---------------------------------------------------------------------------------------------
  // The memory map
  // ---------------------------------------------------------------------------------------------

  datatype Region = Region(base: Word, length: Word, usable: bool)

  function PageDown(a: Word): Word { a - a % PAGE_SIZE }

  function PageUp(a: Word): Word { PageDown((a + 0xFFF) % TWO64) }

  function Top(r: Region): Word { (r.base + r.length) % TWO64 }

  /** Where the scan of a usable region starts, given the kernel image's range. */
  function Clip(base: Word, top: Word, kstart: Word, kend: Word): Word {
    if base < kend && top > kstart then
      var b := if base < kstart then kend else base;
      if top > kend then (if b > kstart then b else kend) else b
    else base
  }

  /** The frames `first`, `first + 1`, ... up to but not including `end`. */
  function FramesBetween(first: int, end: int): (r: seq<nat>)
    requires 0 <= first
    ensures |r| == if first < end then end - first else 0
    ensures forall f :: f in r <==> first <= f < end
    ensures forall i :: 0 <= i < |r| ==> r[i] == first + i
  {
    if first < end then
      var r := seq(end - first, i requires 0 <= i => first + i);
      assert forall f :: first <= f < end ==> f in r by {
        forall f | first <= f < end
          ensures f in r
        {
          assert r[f - first] == f;
        }
      }
      r
    else []
  }

  /** The frames one region contributes, in the order they are pushed. */
  function RegionFrames(r: Region, kstart: Word, kend: Word): seq<nat> {
    var start := Clip(r.base, Top(r), kstart, kend);
    if !r.usable || start >= Top(r) then []
    else FramesBetween(PageUp(start) / PAGE_SIZE, Top(r) / PAGE_SIZE)
  }

  function AllFrames(rs: seq<Region>, kstart: Word, kend: Word): seq<nat> {
    if rs == [] then []
    else AllFrames(rs[..|rs| - 1], kstart, kend) + RegionFrames(rs[|rs| - 1], kstart, kend)
  }

  /** The list after pushing the given frames one by one. */
  function Pushed(fs: seq<nat>): seq<nat> {
    if fs == [] then [] else [fs[|fs| - 1]] + Pushed(fs[..|fs| - 1])
  }

  lemma {:induction false} PushedMembers(fs: seq<nat>)
    ensures |Pushed(fs)| == |fs|
    ensures forall f :: f in Pushed(fs) <==> f in fs
    decreases |fs|
  {
    if fs != [] {
      PushedMembers(fs[..|fs| - 1]);
      assert fs == fs[..|fs| - 1] + [fs[|fs| - 1]];
    }
  }

  /** What the boot loader promises of its memory map: usable regions lie in memory, do not overlap
      and do not offer the page at address 0. */
  ghost predicate BootMap(rs: seq<Region>, frames: int) {
    && (forall i :: 0 <= i < |rs| && rs[i].usable ==>
          rs[i].base + rs[i].length <= frames * PAGE_SIZE && (rs[i].base > 0 || rs[i].length < PAGE_SIZE))
    && (forall i, j :: 0 <= i < j < |rs| && rs[i].usable && rs[j].usable ==>
          rs[i].base + rs[i].length <= rs[j].base || rs[j].base + rs[j].length <= rs[i].base)
  }

  /** A frame a region contributes lies wholly inside the region. */
  lemma RegionFramesInside(r: Region, kstart: Word, kend: Word, f: nat)
    requires r.base + r.length <= MAX_FRAMES * PAGE_SIZE
    requires f in RegionFrames(r, kstart, kend)
    ensures r.usable
    ensures r.base <= f * PAGE_SIZE && (f + 1) * PAGE_SIZE <= r.base + r.length
  {
  }

  lemma {:induction false} FindRegion(rs: seq<Region>, kstart: Word, kend: Word, f: nat) returns (i: nat)
    requires f in AllFrames(rs, kstart, kend)
    ensures i < |rs| && f in RegionFrames(rs[i], kstart, kend)
    decreases |rs|
  {
    i := |rs| - 1;
    if f !in RegionFrames(rs[i], kstart, kend) {
      i := FindRegion(rs[..i], kstart, kend, f);
    }
  }

  /** The frames of a boot map exist, and frame 0 is not among them. */
  lemma AllFramesExist(rs: seq<Region>, kstart: Word, kend: Word, frames: int, f: nat)
    requires BootMap(rs, frames) && frames <= MAX_FRAMES
    requires f in AllFrames(rs, kstart, kend)
    ensures 0 < f < frames
  {
    var i := FindRegion(rs, kstart, kend, f);
    assert rs[i].usable;
    RegionFramesInside(rs[i], kstart, kend, f);
  }

  ghost predicate Distinct(fs: seq<nat>) {
    forall i, j :: 0 <= i < j < |fs| ==> fs[i] != fs[j]
  }

  lemma DistinctConcat(xs: seq<nat>, ys: seq<nat>)
    requires Distinct(xs) && Distinct(ys)
    requires forall y :: y in ys ==> y !in xs
    ensures Distinct(xs + ys)
  {
    forall i, j | 0 <= i < j < |xs + ys|
      ensures (xs + ys)[i] != (xs + ys)[j]
    {
      if i < |xs| <= j {
        assert ys[j - |xs|] in ys && xs[i] in xs;
      }
    }
  }

  /** The frames of a boot map are distinct. */
  lemma {:induction false} AllFramesDistinct(rs: seq<Region>, kstart: Word, kend: Word, frames: int)
    requires BootMap(rs, frames) && frames <= MAX_FRAMES
    ensures Distinct(AllFrames(rs, kstart, kend))
    decreases |rs|
  {
    if rs != [] {
      var n := |rs| - 1;
      var front, last := AllFrames(rs[..n], kstart, kend), RegionFrames(rs[n], kstart, kend);
      assert BootMap(rs[..n], frames);
      AllFramesDistinct(rs[..n], kstart, kend, frames);
      forall f | f in last
        ensures f !in front
      {
        RegionFramesInside(rs[n], kstart, kend, f);
        if f in front {
          var i := FindRegion(rs[..n], kstart, kend, f);
          assert rs[i].usable;
          RegionFramesInside(rs[i], kstart, kend, f);
        }
      }
      DistinctConcat(front, last);
    }
  }

  // ---------------------------------------------------------------------------------------------
  // The kernel's range
  // ---------------------------------------------------------------------------------------------

  /** Where the kernel is linked: a virtual address, above every physical one. */
  const KERNEL_START: Word := 0xFFFF_FFFF_8000_0000

  /** The linked kernel never meets a region, so the clip changes nothing: a region offers all its
      whole pages, none of which lies in the kernel's range. */
  lemma KernelRangeNeverMet(r: Region, kend: Word)
    requires r.base + r.length <= MAX_FRAMES * PAGE_SIZE
    ensures Clip(r.base, Top(r), KERNEL_START, kend) == r.base
    ensures forall f: nat :: f in RegionFrames(r, KERNEL_START, kend) <==>
              r.usable && r.base <= f * PAGE_SIZE && (f + 1) * PAGE_SIZE <= r.base + r.length
    ensures forall f: nat :: f in RegionFrames(r, KERNEL_START, kend) ==> f * PAGE_SIZE < KERNEL_START
  {
    forall f: nat
      ensures f in RegionFrames(r, KERNEL_START, kend) <==>
              r.usable && r.base <= f * PAGE_SIZE && (f + 1) * PAGE_SIZE <= r.base + r.length
    {
      WholePage(r.base, r.length, f);
    }
  }

  lemma WholePage(base: Word, length: Word, f: nat)
    requires base + length <= MAX_FRAMES * PAGE_SIZE
    ensures PageUp(base) / PAGE_SIZE <= f < (base + length) / PAGE_SIZE <==>
            base <= f * PAGE_SIZE && (f + 1) * PAGE_SIZE <= base + length
  {
  }

  /** What a region offers for any range of the kernel: its whole pages, from the end of the kernel on if it meets the
      kernel and begins below it, or begins with it and goes beyond; and from its own start in all other
      cases, even if that is inside the kernel. */
  lemma ClipSpelled(r: Region, kstart: Word, kend: Word, f: nat)
    requires r.base + r.length <= MAX_FRAMES * PAGE_SIZE
    ensures var top := r.base + r.length;
            var meets := r.base < kend && top > kstart;
            var start := if meets && (r.base < kstart || (r.base == kstart && top > kend)) then kend else r.base;
            f in RegionFrames(r, kstart, kend) <==> r.usable && start <= f * 4096 && (f + 1) * 4096 <= top
  {
    var start := Clip(r.base, Top(r), kstart, kend);
    if start < Top(r) {
      WholePage(start, Top(r) - start, f);
    }
  }

  /** So the boot-time list holds exactly the whole pages of the usable regions. */
  lemma {:induction false} LinkedKernelFrames(rs: seq<Region>, kend: Word, f: nat)
    requires forall r :: r in rs ==> r.base + r.length <= MAX_FRAMES * PAGE_SIZE
    ensures f in AllFrames(rs, KERNEL_START, kend) <==>
            exists r :: r in rs && r.usable && r.base <= f * PAGE_SIZE && (f + 1) * PAGE_SIZE <= r.base + r.length
    decreases |rs|
  {
    if rs != [] {
      var n := |rs| - 1;
      assert rs == rs[..n] + [rs[n]];
      LinkedKernelFrames(rs[..n], kend, f);
      KernelRangeNeverMet(rs[n], kend);
    }
  }
}
