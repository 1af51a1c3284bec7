/** A medium in blocks, as values: which bytes of a range can be accessed, what the device looks like
    through its one-block cache, and what reads, writes, failures and the uninstall make of that.

    A fixed set of blocks can be read and written; everything else fails.  What the `k`-th failing read
    leaves in the cache buffer is arbitrary: `left(k, j)` stands for its byte `j`. */
module Medium {
  import opened Machine
  import opened UndoLog

  const NOTHING_CACHED: Word := TWO64 - 1

  type Leftover = (nat, nat) -> Byte

  /** The block a byte lies in, and where a block starts: `x / blockSize` and `block * blockSize`,
      by counting, so that proofs do not meet products of variables. */
  function BlockOf(blockSize: nat, x: nat): nat
    requires blockSize > 0
  {
    if x < blockSize then 0 else BlockOf(blockSize, x - blockSize) + 1
  }

  function BlockStart(blockSize: nat, block: nat): nat {
    if block == 0 then 0 else BlockStart(blockSize, block - 1) + blockSize
  }

  lemma {:induction false} BlockStartIsProduct(blockSize: nat, block: nat)
    ensures BlockStart(blockSize, block) == block * blockSize
    decreases block
  {
    if block > 0 {
      BlockStartIsProduct(blockSize, block - 1);
    }
  }

  lemma {:induction false} BlockOfIsQuotient(blockSize: nat, x: nat)
    requires blockSize in {512, 2048, 4096}
    ensures BlockOf(blockSize, x) == x / blockSize
    ensures x == BlockStart(blockSize, BlockOf(blockSize, x)) + x % blockSize
    decreases x
  {
    if x >= blockSize {
      BlockOfIsQuotient(blockSize, x - blockSize);
      StepDown(blockSize, x);
    }
  }

  lemma StepDown(blockSize: nat, x: nat)
    requires blockSize in {512, 2048, 4096} && x >= blockSize
    ensures (x - blockSize) / blockSize == x / blockSize - 1
    ensures (x - blockSize) % blockSize == x % blockSize
  {
    if blockSize == 512 {
      assert (x - 512) / 512 == x / 512 - 1;
    } else if blockSize == 2048 {
      assert (x - 2048) / 2048 == x / 2048 - 1;
    } else {
      assert (x - 4096) / 4096 == x / 4096 - 1;
    }
  }

  /** A medium as one guess of the block size sees it. */
  ghost predicate Blocks(blockSize: nat, readable: set<nat>, size: nat) {
    && blockSize in {512, 2048, 4096}
    && size <= TWO64 / 2
    && (forall b :: b in readable ==> BlockStart(blockSize, b) + blockSize <= size && b < NOTHING_CACHED)
  }

  /** Every byte of the range lies in a readable block. */
  predicate InReadable(blockSize: nat, readable: set<nat>, loc: nat, n: nat)
    requires blockSize > 0
  {
    n == 0 || (InReadable(blockSize, readable, loc, n - 1) && BlockOf(blockSize, loc + n - 1) in readable)
  }

  lemma {:induction false} ReadableAt(blockSize: nat, readable: set<nat>, loc: nat, n: nat, x: nat)
    requires blockSize > 0 && InReadable(blockSize, readable, loc, n) && loc <= x < loc + n
    ensures BlockOf(blockSize, x) in readable
    decreases n
  {
    if x < loc + n - 1 {
      ReadableAt(blockSize, readable, loc, n - 1, x);
    }
  }

  lemma {:induction false} ReadableBlock(blockSize: nat, readable: set<nat>, loc: nat, n: nat)
    requires blockSize > 0
    requires forall x :: loc <= x < loc + n ==> BlockOf(blockSize, x) in readable
    ensures InReadable(blockSize, readable, loc, n)
    decreases n
  {
    if n > 0 {
      ReadableBlock(blockSize, readable, loc, n - 1);
    }
  }

  lemma {:induction false} ReadableJoin(blockSize: nat, readable: set<nat>, loc: nat, p: nat, n: nat)
    requires blockSize > 0
    ensures InReadable(blockSize, readable, loc, p + n) <==>
            InReadable(blockSize, readable, loc, p) && InReadable(blockSize, readable, loc + p, n)
    decreases n
  {
    if n > 0 {
      ReadableJoin(blockSize, readable, loc, p, n - 1);
      assert loc + p + n - 1 == loc + (p + n) - 1;
    }
  }

  lemma ReadablePart(blockSize: nat, readable: set<nat>, loc: nat, n: nat, at: nat, m: nat)
    requires blockSize > 0 && InReadable(blockSize, readable, loc, n) && loc <= at && at + m <= loc + n
    ensures InReadable(blockSize, readable, at, m)
  {
    ReadableJoin(blockSize, readable, loc, at - loc, loc + n - at);
    ReadableJoin(blockSize, readable, at, m, loc + n - at - m);
  }

  /** That is, for every byte the block number, its position divided by the block size, is one of those. */
  lemma ReadableIff(blockSize: nat, readable: set<nat>, loc: nat, n: nat)
    requires blockSize in {512, 2048, 4096}
    ensures InReadable(blockSize, readable, loc, n) <==> forall x :: loc <= x < loc + n ==> x / blockSize in readable
  {
    forall x: nat
      ensures BlockOf(blockSize, x) == x / blockSize
    {
      BlockOfIsQuotient(blockSize, x);
    }
    if InReadable(blockSize, readable, loc, n) {
      forall x | loc <= x < loc + n
        ensures x / blockSize in readable
      {
        ReadableAt(blockSize, readable, loc, n, x);
      }
    }
    if forall x :: loc <= x < loc + n ==> x / blockSize in readable {
      ReadableBlock(blockSize, readable, loc, n);
    }
  }

  /** How many bytes of the range come before the first that lies in no readable block. */
  function Prefix(blockSize: nat, readable: set<nat>, loc: nat, n: nat): (p: nat)
    requires blockSize > 0
    ensures p <= n
    ensures p > 0 ==> BlockOf(blockSize, loc + p - 1) in readable
  {
    if n == 0 then 0
    else
      var p := Prefix(blockSize, readable, loc, n - 1);
      if p == n - 1 && BlockOf(blockSize, loc + p) in readable then n else p
  }

  /** The block the cache names after an access to the range, complete or cut off by a failure: the last
      one it reached. */
  function Named(blockSize: nat, readable: set<nat>, cached: nat, loc: nat, n: nat): (block: nat)
    requires blockSize > 0
    ensures block == cached || block in readable
  {
    var p := Prefix(blockSize, readable, loc, n);
    if p == 0 then cached else BlockOf(blockSize, loc + p - 1)
  }

  lemma {:induction false} PrefixAtEnd(blockSize: nat, readable: set<nat>, loc: nat, n: nat)
    requires blockSize > 0 && InReadable(blockSize, readable, loc, n)
    ensures Prefix(blockSize, readable, loc, n) == n
    decreases n
  {
    if n > 0 {
      PrefixAtEnd(blockSize, readable, loc, n - 1);
    }
  }

  lemma {:induction false} PrefixAtFailure(blockSize: nat, readable: set<nat>, loc: nat, p: nat, n: nat)
    requires blockSize > 0 && InReadable(blockSize, readable, loc, p)
    requires p < n && BlockOf(blockSize, loc + p) !in readable
    ensures Prefix(blockSize, readable, loc, n) == p && !InReadable(blockSize, readable, loc, n)
    decreases n
  {
    if p == n - 1 {
      PrefixAtEnd(blockSize, readable, loc, p);
    } else {
      PrefixAtFailure(blockSize, readable, loc, p, n - 1);
    }
  }

  /** The prefix is the whole range exactly if all of it can be accessed. */
  lemma {:induction false} PrefixIsAll(blockSize: nat, readable: set<nat>, loc: nat, n: nat)
    requires blockSize > 0
    ensures Prefix(blockSize, readable, loc, n) == n <==> InReadable(blockSize, readable, loc, n)
    ensures InReadable(blockSize, readable, loc, Prefix(blockSize, readable, loc, n))
    decreases n
  {
    if n > 0 {
      PrefixIsAll(blockSize, readable, loc, n - 1);
    }
  }

  /** All bytes of the prefix can be accessed, and the one behind it cannot, unless that is the whole range. */
  lemma {:induction false} PrefixSpelled(blockSize: nat, readable: set<nat>, loc: nat, n: nat)
    requires blockSize in {512, 2048, 4096}
    ensures var p := Prefix(blockSize, readable, loc, n);
            && p <= n && (forall x :: loc <= x < loc + p ==> x / blockSize in readable)
            && (p < n ==> (loc + p) / blockSize !in readable)
    decreases n
  {
    if n > 0 {
      PrefixSpelled(blockSize, readable, loc, n - 1);
      BlockOfIsQuotient(blockSize, loc + n - 1);
    }
  }

  /** What can be written back of a log entry; nothing at all stands at 0. */
  function CutEntry(blockSize: nat, readable: set<nat>, e: LogEntry): LogEntry
    requires blockSize > 0
  {
    var p := Prefix(blockSize, readable, e.loc, |e.data|);
    LogEntry(if p == 0 then 0 else e.loc, e.data[..p])
  }

  function CutLog(blockSize: nat, readable: set<nat>, log: seq<LogEntry>): (r: seq<LogEntry>)
    requires blockSize > 0
    ensures |r| == |log| && forall i :: 0 <= i < |log| ==> r[i] == CutEntry(blockSize, readable, log[i])
  {
    seq(|log|, i requires 0 <= i < |log| => CutEntry(blockSize, readable, log[i]))
  }

  /** The block under whose number a cut off entry leaves a spoiled buffer. */
  function StaleAfter(blockSize: nat, readable: set<nat>, e: LogEntry): nat
    requires blockSize > 0
  {
    Named(blockSize, readable, NOTHING_CACHED, e.loc, |e.data|)
  }

  function Last(log: seq<LogEntry>): LogEntry
    requires log != []
  {
    log[|log| - 1]
  }

  lemma CutAppend(blockSize: nat, readable: set<nat>, log: seq<LogEntry>, e: LogEntry)
    requires blockSize > 0
    ensures CutLog(blockSize, readable, log + [e]) == CutLog(blockSize, readable, log) + [CutEntry(blockSize, readable, e)]
  {
  }

  /** Where nothing is cut off of what covers byte `x`, that byte is restored as if nothing were cut off
      at all: it becomes what the last such entry has for it. */
  lemma {:induction false} OthersRestored(blockSize: nat, readable: set<nat>, log: seq<LogEntry>, img: Image, x: int)
    requires blockSize > 0 && 0 <= x < |img| && AllFit(CutLog(blockSize, readable, log), |img|)
    requires forall e :: e in log && Covers(e, x) ==> InReadable(blockSize, readable, e.loc, |e.data|)
    ensures Apply(CutLog(blockSize, readable, log), img)[x] ==
            match Latest(log, x) case None => img[x] case Some(v) => v
    decreases |log|
  {
    if log != [] {
      var n := |log| - 1;
      var front, last := log[..n], log[n];
      var cut, c := CutLog(blockSize, readable, front), CutEntry(blockSize, readable, last);
      assert log == front + [last];
      CutAppend(blockSize, readable, front, last);
      OthersRestored(blockSize, readable, front, img, x);
      ApplyAppend(cut, c, img);
      OneRestored(blockSize, readable, last, Apply(cut, img), x);
    }
  }

  lemma OneRestored(blockSize: nat, readable: set<nat>, e: LogEntry, img: Image, x: int)
    requires blockSize > 0 && 0 <= x < |img| && UndoLog.Fits(CutEntry(blockSize, readable, e), |img|)
    requires Covers(e, x) ==> InReadable(blockSize, readable, e.loc, |e.data|)
    ensures var c := CutEntry(blockSize, readable, e);
            Patch(img, c.loc, c.data)[x] == if Covers(e, x) then e.data[x - e.loc] else img[x]
  {
    PrefixIsAll(blockSize, readable, e.loc, |e.data|);
  }

  // ---------------------------------------------------------------------------------------------
  // What the device looks like
  // ---------------------------------------------------------------------------------------------

  /** The bytes the device stands for; what it would show with the cached block, right or wrong, over
      them; the block the cache names; and how many block reads have failed. */
  datatype Picture = Picture(view: Image, shown: Image, cached: nat, fails: nat)

  ghost predicate Seen(blockSize: nat, readable: set<nat>, s: Picture) {
    && Blocks(blockSize, readable, |s.view|) && |s.shown| == |s.view|
    && (s.cached == NOTHING_CACHED || s.cached in readable)
  }

  /** Only the cached block may be shown wrong. */
  ghost predicate WrongOnlyCached(blockSize: nat, s: Picture)
    requires |s.shown| == |s.view|
  {
    forall x :: 0 <= x < |s.view| && s.shown[x] != s.view[x] ==>
      s.cached != NOTHING_CACHED && InBlock(blockSize, s.cached, x)
  }

  /** The byte lies in the block. */
  predicate InBlock(blockSize: nat, block: nat, x: int) {
    BlockStart(blockSize, block) <= x < BlockStart(blockSize, block) + blockSize
  }

  lemma {:induction false} InBlockIff(blockSize: nat, block: nat, x: nat)
    requires blockSize > 0
    ensures InBlock(blockSize, block, x) <==> BlockOf(blockSize, x) == block
    decreases block
  {
    if block > 0 && x >= blockSize {
      InBlockIff(blockSize, block - 1, x - blockSize);
    }
  }

  /** A failed read leaves its residue where the cached block is. */
  function Spoil(img: Image, blockSize: nat, block: nat, left: Leftover, k: nat): (r: Image)
    ensures |r| == |img|
  {
    if block == NOTHING_CACHED then img
    else seq(|img|, x requires 0 <= x < |img| =>
               if InBlock(blockSize, block, x) then left(k, x - BlockStart(blockSize, block)) else img[x])
  }

  /** The cache after the block was asked for and could be had. */
  function Fetched(s: Picture, block: nat): Picture {
    if block == s.cached then s else Picture(s.view, s.view, block, s.fails)
  }

  /** The cache after a block was asked for and could not be had. */
  function Failed(blockSize: nat, left: Leftover, s: Picture): Picture {
    Picture(s.view, Spoil(s.view, blockSize, s.cached, left, s.fails), s.cached, s.fails + 1)
  }

  /** What an access that begins at `pos` finds there: the device, or what the cache holds, right or
      wrong, if it begins in the block the cache names. */
  function Base(blockSize: nat, s: Picture, pos: nat): Image
    requires blockSize > 0
  {
    Fetched(s, BlockOf(blockSize, pos)).shown
  }

  /** After `n` bytes of a read. */
  function ReadSoFar(blockSize: nat, s: Picture, loc: nat, n: nat): Picture
    requires blockSize > 0
  {
    if n == 0 then s
    else
      var block := BlockOf(blockSize, loc + n - 1);
      Picture(s.view, if block == BlockOf(blockSize, loc) then Base(blockSize, s, loc) else s.view, block, s.fails)
  }

  /** After a whole read, complete or cut off at the first byte it cannot have. */
  function AfterRead(blockSize: nat, readable: set<nat>, left: Leftover, s: Picture, loc: nat, n: nat): Picture
    requires blockSize > 0
  {
    var reached := ReadSoFar(blockSize, s, loc, Prefix(blockSize, readable, loc, n));
    if InReadable(blockSize, readable, loc, n) then reached else Failed(blockSize, left, reached)
  }

  /** What a read that succeeds returns. */
  function BytesRead(blockSize: nat, s: Picture, loc: nat, n: nat): Image
    requires blockSize > 0 && |s.shown| == |s.view| && (n > 0 ==> loc + n <= |s.view|)
  {
    if n == 0 then [] else Base(blockSize, s, loc)[loc..loc + n]
  }

  /** After `p` bytes of a write. */
  ghost function WrittenSoFar(blockSize: nat, s: Picture, loc: nat, data: Image, p: nat): Picture
    requires blockSize > 0 && |s.shown| == |s.view| && p <= |data| && (p > 0 ==> loc + p <= |s.view|)
  {
    if p == 0 then s
    else
      var img := Patch(Base(blockSize, s, loc), loc, data[..p]);
      Picture(img, img, BlockOf(blockSize, loc + p - 1), s.fails)
  }

  /** After a whole write, complete or cut off at the first byte it cannot have. */
  ghost function AfterWrite(blockSize: nat, readable: set<nat>, left: Leftover, s: Picture, loc: nat, data: Image): (r: Picture)
    requires Seen(blockSize, readable, s)
    ensures Seen(blockSize, readable, r) && |r.view| == |s.view|
  {
    PrefixFits(blockSize, readable, |s.view|, loc, |data|);
    var reached := WrittenSoFar(blockSize, s, loc, data, Prefix(blockSize, readable, loc, |data|));
    if InReadable(blockSize, readable, loc, |data|) then reached else Failed(blockSize, left, reached)
  }

  lemma PrefixFits(blockSize: nat, readable: set<nat>, size: nat, loc: nat, n: nat)
    requires Blocks(blockSize, readable, size)
    ensures var p := Prefix(blockSize, readable, loc, n);
            p > 0 ==> loc + p <= size
  {
    var p := Prefix(blockSize, readable, loc, n);
    if p > 0 {
      LastByte(blockSize, readable, size, loc + p - 1);
    }
  }

  lemma RangeFits(blockSize: nat, readable: set<nat>, size: nat, loc: nat, n: nat)
    requires Blocks(blockSize, readable, size) && InReadable(blockSize, readable, loc, n)
    ensures n > 0 ==> loc + n <= size
  {
    if n > 0 {
      LastByte(blockSize, readable, size, loc + n - 1);
    }
  }

  /** A chunk of a read, from one block, joins the bytes read so far. */
  lemma ChunkRead(blockSize: nat, s: Picture, loc: nat, bytes: Image, chunk: Image)
    requires blockSize > 0 && |s.shown| == |s.view| && WrongOnlyCached(blockSize, s)
    requires chunk != [] && loc + |bytes| + |chunk| <= |s.view|
    requires BlockOf(blockSize, loc + |bytes| + |chunk| - 1) == BlockOf(blockSize, loc + |bytes|)
    requires bytes == BytesRead(blockSize, s, loc, |bytes|)
    requires var found := Fetched(ReadSoFar(blockSize, s, loc, |bytes|), BlockOf(blockSize, loc + |bytes|)).shown;
             |found| == |s.view| && chunk == found[loc + |bytes|..loc + |bytes| + |chunk|]
    ensures Fetched(ReadSoFar(blockSize, s, loc, |bytes|), BlockOf(blockSize, loc + |bytes|)) ==
            ReadSoFar(blockSize, s, loc, |bytes + chunk|)
    ensures bytes + chunk == BytesRead(blockSize, s, loc, |bytes + chunk|)
  {
    ChunkShown(blockSize, s, loc, |bytes|, |chunk|);
    MoreRead(blockSize, s, loc, bytes, chunk);
  }

  lemma ChunkShown(blockSize: nat, s: Picture, loc: nat, n: nat, m: nat)
    requires blockSize > 0 && |s.shown| == |s.view| && WrongOnlyCached(blockSize, s)
    requires m > 0 && loc + n + m <= |s.view|
    requires BlockOf(blockSize, loc + n + m - 1) == BlockOf(blockSize, loc + n)
    ensures var fetched := Fetched(ReadSoFar(blockSize, s, loc, n), BlockOf(blockSize, loc + n));
            && fetched == ReadSoFar(blockSize, s, loc, n + m)
            && fetched.shown[loc + n..loc + n + m] == Base(blockSize, s, loc)[loc + n..loc + n + m]
  {
    if n > 0 {
      BlocksAscend(blockSize, loc, loc + n - 1);
      BlocksAscend(blockSize, loc + n - 1, loc + n);
      if BlockOf(blockSize, loc + n) != BlockOf(blockSize, loc) {
        OutsideRight(blockSize, s, loc, loc + n, m);
      }
    }
  }

  /** Bytes of another block than that at `loc` are right. */
  lemma OutsideRight(blockSize: nat, s: Picture, loc: nat, pos: nat, m: nat)
    requires blockSize > 0 && |s.shown| == |s.view| && WrongOnlyCached(blockSize, s)
    requires m > 0 && pos + m <= |s.view|
    requires BlockOf(blockSize, pos + m - 1) == BlockOf(blockSize, pos) != BlockOf(blockSize, loc)
    ensures Base(blockSize, s, loc)[pos..pos + m] == s.view[pos..pos + m]
  {
    forall x | pos <= x < pos + m
      ensures Base(blockSize, s, loc)[x] == s.view[x]
    {
      BlocksAscend(blockSize, pos, x);
      BlocksAscend(blockSize, x, pos + m - 1);
      if s.shown[x] != s.view[x] {
        InBlockIff(blockSize, s.cached, x);
      }
    }
  }

  lemma ReadSeen(blockSize: nat, readable: set<nat>, left: Leftover, s: Picture, loc: nat, n: nat)
    requires Seen(blockSize, readable, s)
    ensures var r := AfterRead(blockSize, readable, left, s, loc, n);
            Seen(blockSize, readable, r) && |r.view| == |s.view|
  {
  }

  /** A read that begins with the right bytes leaves the cache right. */
  lemma WholeRead(blockSize: nat, readable: set<nat>, left: Leftover, s: Picture, loc: nat, n: nat)
    requires blockSize > 0 && InReadable(blockSize, readable, loc, n) && n > 0
    ensures var r := AfterRead(blockSize, readable, left, s, loc, n);
            && r.view == s.view && r.fails == s.fails && r.cached == Named(blockSize, readable, s.cached, loc, n)
            && (Base(blockSize, s, loc) == s.view ==> r.shown == r.view)
  {
    PrefixAtEnd(blockSize, readable, loc, n);
  }

  /** A whole write leaves the cache right. */
  lemma WholeWrite(blockSize: nat, readable: set<nat>, left: Leftover, s: Picture, loc: nat, data: Image)
    requires Seen(blockSize, readable, s) && InReadable(blockSize, readable, loc, |data|) && data != []
    ensures var r := AfterWrite(blockSize, readable, left, s, loc, data);
            && r.shown == r.view && r.fails == s.fails && r.cached == Named(blockSize, readable, s.cached, loc, |data|)
            && loc + |data| <= |s.view| && r.view == Patch(Base(blockSize, s, loc), loc, data)
  {
    PrefixAtEnd(blockSize, readable, loc, |data|);
    PrefixFits(blockSize, readable, |s.view|, loc, |data|);
    assert data[..|data|] == data;
  }

  /** A read that was cut off, and one that was not. */
  lemma ReadDone(blockSize: nat, readable: set<nat>, left: Leftover, s: Picture, loc: nat, p: nat, n: nat)
    requires blockSize > 0 && p <= n && InReadable(blockSize, readable, loc, p)
    requires p < n ==> BlockOf(blockSize, loc + p) !in readable
    ensures InReadable(blockSize, readable, loc, n) <==> p == n
    ensures AfterRead(blockSize, readable, left, s, loc, n) ==
            var reached := ReadSoFar(blockSize, s, loc, p); if p == n then reached else Failed(blockSize, left, reached)
  {
    if p == n {
      PrefixAtEnd(blockSize, readable, loc, n);
    } else {
      PrefixAtFailure(blockSize, readable, loc, p, n);
    }
  }

  /** And a write. */
  lemma WriteDone(blockSize: nat, readable: set<nat>, left: Leftover, s: Picture, loc: nat, data: Image, p: nat)
    requires Seen(blockSize, readable, s) && p <= |data| && InReadable(blockSize, readable, loc, p)
    requires p < |data| ==> BlockOf(blockSize, loc + p) !in readable
    ensures p > 0 ==> loc + p <= |s.view|
    ensures InReadable(blockSize, readable, loc, |data|) <==> p == |data|
    ensures AfterWrite(blockSize, readable, left, s, loc, data) ==
            var reached := WrittenSoFar(blockSize, s, loc, data, p);
            if p == |data| then reached else Failed(blockSize, left, reached)
  {
    RangeFits(blockSize, readable, |s.view|, loc, p);
    if p == |data| {
      PrefixAtEnd(blockSize, readable, loc, p);
    } else {
      PrefixAtFailure(blockSize, readable, loc, p, |data|);
    }
  }

  /** A chunk joins the bytes read so far. */
  lemma MoreRead(blockSize: nat, s: Picture, loc: nat, bytes: Image, chunk: Image)
    requires blockSize > 0 && |s.shown| == |s.view| && loc + |bytes| + |chunk| <= |s.view| && chunk != []
    requires bytes == BytesRead(blockSize, s, loc, |bytes|)
    requires chunk == Base(blockSize, s, loc)[loc + |bytes|..loc + |bytes| + |chunk|]
    ensures bytes + chunk == BytesRead(blockSize, s, loc, |bytes + chunk|)
  {
  }

  /** The cached block, once bytes have been put there: it is dirty, and what is shown is what counts. */
  function Stored(s: Picture, pos: nat, bytes: Image): Picture
    requires pos + |bytes| <= |s.shown|
  {
    var img := Patch(s.shown, pos, bytes);
    Picture(img, img, s.cached, s.fails)
  }

  /** A chunk of a write to the block at `loc + p`. */
  lemma ChunkWritten(blockSize: nat, s: Picture, loc: nat, data: Image, p: nat, n: nat)
    requires blockSize > 0 && |s.shown| == |s.view| && n > 0 && p + n <= |data| && loc + p + n <= |s.view|
    requires BlockOf(blockSize, loc + p + n - 1) == BlockOf(blockSize, loc + p)
    ensures Stored(Fetched(WrittenSoFar(blockSize, s, loc, data, p), BlockOf(blockSize, loc + p)), loc + p, data[p..][..n]) ==
            WrittenSoFar(blockSize, s, loc, data, p + n)
  {
  }

  /** The byte a failed read leaves for byte `x` of the block the cache names. */
  lemma SpoilAt(img: Image, blockSize: nat, block: nat, left: Leftover, k: nat, x: nat)
    requires blockSize in {512, 2048, 4096} && x < |img| && block != NOTHING_CACHED
    ensures Spoil(img, blockSize, block, left, k)[x] ==
            if BlockOf(blockSize, x) == block then left(k, x % blockSize) else img[x]
  {
    InBlockIff(blockSize, block, x);
    BlockOfIsQuotient(blockSize, x);
  }

  // ---------------------------------------------------------------------------------------------
  // A read after a failed one
  // ---------------------------------------------------------------------------------------------

  /** What a read returns that comes right after one that failed. */
  function ReadAfterFailed(blockSize: nat, readable: set<nat>, left: Leftover, s: Picture,
                           bad: nat, m: nat, loc: nat, n: nat): Image
    requires blockSize > 0 && |s.shown| == |s.view| && loc + n <= |s.view|
    requires !InReadable(blockSize, readable, bad, m)
  {
    BytesRead(blockSize, AfterRead(blockSize, readable, left, s, bad, m), loc, n)
  }

  /** That is right whatever the medium left in the buffer exactly if the read does not begin in the last
      block the failed one reached, or, if that reached none, the block the cache named before. */
  lemma RightForEveryMediumIff(blockSize: nat, readable: set<nat>, s: Picture, bad: nat, m: nat, loc: Word, n: nat)
    requires Seen(blockSize, readable, s) && !InReadable(blockSize, readable, bad, m)
    requires n > 0 && loc + n <= |s.view|
    ensures (forall left: Leftover :: ReadAfterFailed(blockSize, readable, left, s, bad, m, loc, n) == s.view[loc..loc + n]) <==>
            BlockOf(blockSize, loc) != Named(blockSize, readable, s.cached, bad, m)
  {
    forall left: Leftover | BlockOf(blockSize, loc) != Named(blockSize, readable, s.cached, bad, m)
      ensures ReadAfterFailed(blockSize, readable, left, s, bad, m, loc, n) == s.view[loc..loc + n]
    {
      FailedRead(blockSize, readable, left, s, bad, m);
    }
    if BlockOf(blockSize, loc) == Named(blockSize, readable, s.cached, bad, m) {
      var left := WrongAfterFailed(blockSize, readable, s, bad, m, loc, n);
    }
  }

  lemma WrongAfterFailed(blockSize: nat, readable: set<nat>, s: Picture, bad: nat, m: nat, loc: Word, n: nat)
    returns (left: Leftover)
    requires Seen(blockSize, readable, s) && !InReadable(blockSize, readable, bad, m)
    requires n > 0 && loc + n <= |s.view| && BlockOf(blockSize, loc) == Named(blockSize, readable, s.cached, bad, m)
    ensures ReadAfterFailed(blockSize, readable, left, s, bad, m, loc, n) != s.view[loc..loc + n]
  {
    var other: Byte := if s.view[loc] == 0 then 1 else 0;
    left := (_, _) => other;
    FirstByteAfterFailed(blockSize, readable, left, s, bad, m, loc, n);
    assert ReadAfterFailed(blockSize, readable, left, s, bad, m, loc, n)[0] != s.view[loc..loc + n][0];
  }

  lemma FirstByteAfterFailed(blockSize: nat, readable: set<nat>, left: Leftover, s: Picture,
                             bad: nat, m: nat, loc: Word, n: nat)
    requires Seen(blockSize, readable, s) && !InReadable(blockSize, readable, bad, m)
    requires n > 0 && loc + n <= |s.view| && BlockOf(blockSize, loc) == Named(blockSize, readable, s.cached, bad, m)
    ensures ReadAfterFailed(blockSize, readable, left, s, bad, m, loc, n)[0] == left(s.fails, loc % blockSize)
  {
    var block := BlockOf(blockSize, loc);
    NotTheMarker(blockSize, loc);
    FailedRead(blockSize, readable, left, s, bad, m);
    var spoiled := Spoil(s.view, blockSize, block, left, s.fails);
    SpoilAt(s.view, blockSize, block, left, s.fails, loc);
    assert ReadAfterFailed(blockSize, readable, left, s, bad, m, loc, n) == spoiled[loc..loc + n];
  }

  lemma FailedRead(blockSize: nat, readable: set<nat>, left: Leftover, s: Picture, loc: nat, n: nat)
    requires blockSize > 0 && !InReadable(blockSize, readable, loc, n)
    ensures var block := Named(blockSize, readable, s.cached, loc, n);
            AfterRead(blockSize, readable, left, s, loc, n) ==
            Picture(s.view, Spoil(s.view, blockSize, block, left, s.fails), block, s.fails + 1)
  {
  }

  // ---------------------------------------------------------------------------------------------
  // Writing a log back
  // ---------------------------------------------------------------------------------------------

  /** The cache given up. */
  function Forgotten(s: Picture): Picture {
    Picture(s.view, s.view, NOTHING_CACHED, s.fails)
  }

  /** One entry written back, with one retry after a fresh start of the cache. */
  ghost function UndoOne(blockSize: nat, readable: set<nat>, left: Leftover, s: Picture, e: LogEntry): (r: Picture)
    requires Seen(blockSize, readable, s)
    ensures Seen(blockSize, readable, r) && |r.view| == |s.view|
  {
    var once := AfterWrite(blockSize, readable, left, s, e.loc, e.data);
    if InReadable(blockSize, readable, e.loc, |e.data|) then once
    else AfterWrite(blockSize, readable, left, Forgotten(once), e.loc, e.data)
  }

  ghost function UndoAll(blockSize: nat, readable: set<nat>, left: Leftover, s: Picture, log: seq<LogEntry>): (r: Picture)
    requires Seen(blockSize, readable, s)
    ensures Seen(blockSize, readable, r) && |r.view| == |s.view|
    decreases |log|
  {
    if log == [] then s
    else UndoOne(blockSize, readable, left, UndoAll(blockSize, readable, left, s, log[..|log| - 1]), Last(log))
  }

  /** How many entries cannot be written back completely. */
  function CutOffs(blockSize: nat, readable: set<nat>, log: seq<LogEntry>): nat
    requires blockSize > 0
    decreases |log|
  {
    if log == [] then 0
    else CutOffs(blockSize, readable, log[..|log| - 1]) +
         (if InReadable(blockSize, readable, Last(log).loc, |Last(log).data|) then 0 else 1)
  }

  /** The next entry begins in the block that the last one, cut off, leaves spoiled. */
  predicate SpoilsNext(blockSize: nat, readable: set<nat>, log: seq<LogEntry>, next: LogEntry)
    requires blockSize > 0
  {
    && log != [] && !InReadable(blockSize, readable, Last(log).loc, |Last(log).data|)
    && BlockOf(blockSize, next.loc) == StaleAfter(blockSize, readable, Last(log))
  }

  /** The entry that puts residue into byte `x`, if the byte still has it in the end. */
  function Damage(blockSize: nat, readable: set<nat>, log: seq<LogEntry>, x: nat): (r: Option<nat>)
    requires blockSize > 0
    ensures r.Some? ==> 0 < r.value < |log|
    decreases |log|
  {
    if log == [] then None
    else
      var n := |log| - 1;
      if Covers(CutEntry(blockSize, readable, log[n]), x) then None
      else if SpoilsNext(blockSize, readable, log[..n], log[n]) && BlockOf(blockSize, x) == BlockOf(blockSize, log[n].loc)
      then Some(n)
      else Damage(blockSize, readable, log[..n], x)
  }

  /** What the medium left for byte `x` of its block, at the second failure of the last entry. */
  function Residue(blockSize: nat, readable: set<nat>, left: Leftover, fails: nat, log: seq<LogEntry>, x: nat): Byte
    requires blockSize > 0
  {
    var n := fails + 2 * CutOffs(blockSize, readable, log);
    left(if n == 0 then 0 else n - 1, x % blockSize)
  }

  lemma CutFits(blockSize: nat, readable: set<nat>, log: seq<LogEntry>, size: nat)
    requires Blocks(blockSize, readable, size)
    ensures AllFit(CutLog(blockSize, readable, log), size)
  {
    forall i | 0 <= i < |log|
      ensures UndoLog.Fits(CutEntry(blockSize, readable, log[i]), size)
    {
      PrefixFits(blockSize, readable, size, log[i].loc, |log[i].data|);
    }
  }

  lemma UndoOneShape(blockSize: nat, readable: set<nat>, left: Leftover, s: Picture, e: LogEntry)
    requires Seen(blockSize, readable, s) && |e.data| > 0
    ensures var r := UndoOne(blockSize, readable, left, s, e);
            && UndoneBytes(blockSize, readable, s, e, r.view)
            && AfterEntry(blockSize, readable, left, s.fails, e, r)
  {
    EntryWritten(blockSize, readable, left, s, e);
    var once := AfterWrite(blockSize, readable, left, s, e.loc, e.data);
    EntryWritten(blockSize, readable, left, Forgotten(once), e);
  }

  /** One attempt to write an entry. */
  lemma EntryWritten(blockSize: nat, readable: set<nat>, left: Leftover, s: Picture, e: LogEntry)
    requires Seen(blockSize, readable, s) && |e.data| > 0
    ensures var r, p := AfterWrite(blockSize, readable, left, s, e.loc, e.data), Prefix(blockSize, readable, e.loc, |e.data|);
            && UndoneBytes(blockSize, readable, s, e, r.view) && r.cached == Named(blockSize, readable, s.cached, e.loc, |e.data|)
            && if InReadable(blockSize, readable, e.loc, |e.data|) then r.shown == r.view && r.fails == s.fails
               else r.shown == Spoil(r.view, blockSize, r.cached, left, s.fails) && r.fails == s.fails + 1
  {
    PrefixIsAll(blockSize, readable, e.loc, |e.data|);
    PrefixFits(blockSize, readable, |s.view|, e.loc, |e.data|);
  }

  /** The bytes after an entry was written back onto what its first access found. */
  ghost predicate UndoneBytes(blockSize: nat, readable: set<nat>, s: Picture, e: LogEntry, view: Image)
    requires blockSize > 0
  {
    var c := CutEntry(blockSize, readable, e);
    && |view| == |s.view| == |s.shown| && UndoLog.Fits(c, |view|)
    && view == (if c.data == [] then s.view else Patch(Base(blockSize, s, e.loc), c.loc, c.data))
  }

  /** The cache after an entry was written back: right, or, if the entry was cut off, full of the residue
      of the second of two failures. */
  ghost predicate AfterEntry(blockSize: nat, readable: set<nat>, left: Leftover, fails: nat, e: LogEntry, r: Picture)
    requires blockSize > 0
  {
    if InReadable(blockSize, readable, e.loc, |e.data|) then r.shown == r.view && r.fails == fails
    else
      && r.cached == StaleAfter(blockSize, readable, e) && r.fails == fails + 2
      && r.shown == Spoil(r.view, blockSize, r.cached, left, fails + 1)
  }

  /** The cache after a whole log was written back. */
  lemma {:induction false} UndoAllShape(blockSize: nat, readable: set<nat>, left: Leftover, s: Picture, log: seq<LogEntry>)
    requires Seen(blockSize, readable, s) && s == Forgotten(s) && forall e :: e in log ==> |e.data| > 0
    ensures var r := UndoAll(blockSize, readable, left, s, log);
            var n := CutOffs(blockSize, readable, log);
            && r.fails == s.fails + 2 * n
            && (log == [] || InReadable(blockSize, readable, Last(log).loc, |Last(log).data|) ==> r.shown == r.view)
            && (log != [] && !InReadable(blockSize, readable, Last(log).loc, |Last(log).data|) ==>
                  && r.cached == StaleAfter(blockSize, readable, Last(log)) && n > 0
                  && r.shown == Spoil(r.view, blockSize, r.cached, left, r.fails - 1))
    decreases |log|
  {
    if log != [] {
      var front, e := log[..|log| - 1], Last(log);
      assert e in log;
      UndoAllShape(blockSize, readable, left, s, front);
      UndoOneShape(blockSize, readable, left, UndoAll(blockSize, readable, left, s, front), e);
    }
  }

  /** What the next entry finds where it begins, if it does not begin in a spoiled block. */
  lemma BaseRight(blockSize: nat, readable: set<nat>, left: Leftover, s: Picture, log: seq<LogEntry>, e: LogEntry)
    requires Seen(blockSize, readable, s) && s == Forgotten(s) && forall e :: e in log ==> |e.data| > 0
    requires !SpoilsNext(blockSize, readable, log, e)
    ensures var r := UndoAll(blockSize, readable, left, s, log);
            Base(blockSize, r, e.loc) == r.view
  {
    UndoAllShape(blockSize, readable, left, s, log);
  }

  /** And if it does. */
  lemma BaseWrong(blockSize: nat, readable: set<nat>, left: Leftover, s: Picture, log: seq<LogEntry>, e: LogEntry, x: nat)
    requires Seen(blockSize, readable, s) && s == Forgotten(s) && forall e :: e in log ==> |e.data| > 0
    requires x < |s.view| && SpoilsNext(blockSize, readable, log, e)
    ensures var r := UndoAll(blockSize, readable, left, s, log);
            Base(blockSize, r, e.loc)[x] ==
            if BlockOf(blockSize, x) == BlockOf(blockSize, e.loc) then Residue(blockSize, readable, left, s.fails, log, x)
            else r.view[x]
  {
    UndoAllShape(blockSize, readable, left, s, log);
    SpoiledBase(blockSize, left, UndoAll(blockSize, readable, left, s, log), e.loc, x);
  }

  lemma SpoiledBase(blockSize: nat, left: Leftover, s: Picture, loc: Word, x: nat)
    requires blockSize in {512, 2048, 4096} && x < |s.view| && BlockOf(blockSize, loc) == s.cached && s.fails > 0
    requires s.shown == Spoil(s.view, blockSize, s.cached, left, s.fails - 1)
    ensures Base(blockSize, s, loc)[x] ==
            if BlockOf(blockSize, x) == BlockOf(blockSize, loc) then left(s.fails - 1, x % blockSize) else s.view[x]
  {
    NotTheMarker(blockSize, loc);
    SpoilAt(s.view, blockSize, s.cached, left, s.fails - 1, x);
  }

  /** The uninstall, byte by byte: a byte has its residue in the end if it lies in a block from which an entry
      picked up residue and neither that nor a later entry covers it; otherwise it is what the replay of
      the log, as far as it can be written, makes it. */
  lemma {:induction false} UninstalledByte(blockSize: nat, readable: set<nat>, left: Leftover, s: Picture,
                                           log: seq<LogEntry>, x: nat)
    requires Seen(blockSize, readable, s) && s == Forgotten(s) && forall e :: e in log ==> |e.data| > 0
    requires x < |s.view|
    ensures AllFit(CutLog(blockSize, readable, log), |s.view|)
    ensures UndoAll(blockSize, readable, left, s, log).view[x] == Outcome(blockSize, readable, left, s, log, x)
    decreases |log|
  {
    CutFits(blockSize, readable, log, |s.view|);
    if log != [] {
      var n := |log| - 1;
      var front, e := log[..n], log[n];
      assert log == front + [e] && e in log;
      UninstalledByte(blockSize, readable, left, s, front, x);
      UndoOneByte(blockSize, readable, left, s, front, e, x);
      OutcomeNext(blockSize, readable, left, s, front, e, x);
    }
  }

  /** The byte the uninstall leaves. */
  ghost function Outcome(blockSize: nat, readable: set<nat>, left: Leftover, s: Picture, log: seq<LogEntry>, x: nat): Byte
    requires Seen(blockSize, readable, s) && x < |s.view| && AllFit(CutLog(blockSize, readable, log), |s.view|)
  {
    match Damage(blockSize, readable, log, x)
    case None => Apply(CutLog(blockSize, readable, log), s.view)[x]
    case Some(i) => Residue(blockSize, readable, left, s.fails, log[..i], x)
  }

  lemma OutcomeNext(blockSize: nat, readable: set<nat>, left: Leftover, s: Picture, log: seq<LogEntry>, e: LogEntry, x: nat)
    requires Seen(blockSize, readable, s) && x < |s.view| && AllFit(CutLog(blockSize, readable, log + [e]), |s.view|)
    ensures AllFit(CutLog(blockSize, readable, log), |s.view|)
    ensures Outcome(blockSize, readable, left, s, log + [e], x) ==
            if Covers(CutEntry(blockSize, readable, e), x) then e.data[x - e.loc]
            else if SpoilsNext(blockSize, readable, log, e) && BlockOf(blockSize, x) == BlockOf(blockSize, e.loc)
            then Residue(blockSize, readable, left, s.fails, log, x)
            else Outcome(blockSize, readable, left, s, log, x)
  {
    CutFits(blockSize, readable, log, |s.view|);
    DamageNext(blockSize, readable, log, e, x);
    ReplayNext(blockSize, readable, log, e, s.view, x);
    var i := Damage(blockSize, readable, log + [e], x);
    if i.Some? {
      assert (log + [e])[..i.value] == log[..i.value];
    }
  }

  lemma ReplayNext(blockSize: nat, readable: set<nat>, log: seq<LogEntry>, e: LogEntry, img: Image, x: nat)
    requires blockSize > 0 && x < |img|
    requires AllFit(CutLog(blockSize, readable, log), |img|) && AllFit(CutLog(blockSize, readable, log + [e]), |img|)
    ensures Apply(CutLog(blockSize, readable, log + [e]), img)[x] ==
            if Covers(CutEntry(blockSize, readable, e), x) then e.data[x - e.loc]
            else Apply(CutLog(blockSize, readable, log), img)[x]
  {
    CutAppend(blockSize, readable, log, e);
    ApplyAppend(CutLog(blockSize, readable, log), CutEntry(blockSize, readable, e), img);
  }

  lemma DamageNext(blockSize: nat, readable: set<nat>, log: seq<LogEntry>, e: LogEntry, x: nat)
    requires blockSize > 0
    ensures Damage(blockSize, readable, log + [e], x) ==
            if Covers(CutEntry(blockSize, readable, e), x) then None
            else if SpoilsNext(blockSize, readable, log, e) && BlockOf(blockSize, x) == BlockOf(blockSize, e.loc) then Some(|log|)
            else Damage(blockSize, readable, log, x)
  {
    assert (log + [e])[..|log|] == log;
  }

  lemma UndoOneByte(blockSize: nat, readable: set<nat>, left: Leftover, s: Picture, log: seq<LogEntry>, e: LogEntry, x: nat)
    requires Seen(blockSize, readable, s) && s == Forgotten(s) && forall e :: e in log ==> |e.data| > 0
    requires x < |s.view| && |e.data| > 0
    ensures var r := UndoAll(blockSize, readable, left, s, log);
            UndoOne(blockSize, readable, left, r, e).view[x] ==
            (if Covers(CutEntry(blockSize, readable, e), x) then e.data[x - e.loc]
             else if SpoilsNext(blockSize, readable, log, e) && BlockOf(blockSize, x) == BlockOf(blockSize, e.loc)
             then Residue(blockSize, readable, left, s.fails, log, x)
             else r.view[x])
  {
    var r := UndoAll(blockSize, readable, left, s, log);
    UndoOneShape(blockSize, readable, left, r, e);
    UndoneByte(blockSize, readable, r, e, UndoOne(blockSize, readable, left, r, e).view, x);
    if SpoilsNext(blockSize, readable, log, e) {
      BaseWrong(blockSize, readable, left, s, log, e, x);
      SpoiledIsReadable(blockSize, readable, log, e);
    } else {
      BaseRight(blockSize, readable, left, s, log, e);
    }
  }

  lemma UndoneByte(blockSize: nat, readable: set<nat>, s: Picture, e: LogEntry, view: Image, x: nat)
    requires blockSize > 0 && x < |s.view| && UndoneBytes(blockSize, readable, s, e, view)
    ensures view[x] ==
            if Covers(CutEntry(blockSize, readable, e), x) then e.data[x - e.loc]
            else if CutEntry(blockSize, readable, e).data == [] then s.view[x]
            else Base(blockSize, s, e.loc)[x]
  {
  }

  /** What begins in a spoiled block can be written at least in part. */
  lemma SpoiledIsReadable(blockSize: nat, readable: set<nat>, log: seq<LogEntry>, e: LogEntry)
    requires blockSize in {512, 2048, 4096} && |e.data| > 0 && SpoilsNext(blockSize, readable, log, e)
    ensures CutEntry(blockSize, readable, e).data != []
  {
    NotTheMarker(blockSize, e.loc);
    if Prefix(blockSize, readable, e.loc, |e.data|) == 0 {
      PrefixIsZero(blockSize, readable, e.loc, |e.data|);
    }
  }

  lemma {:induction false} PrefixIsZero(blockSize: nat, readable: set<nat>, loc: nat, n: nat)
    requires blockSize > 0 && n > 0 && Prefix(blockSize, readable, loc, n) == 0
    ensures BlockOf(blockSize, loc) !in readable
    decreases n
  {
    if n > 1 {
      PrefixIsZero(blockSize, readable, loc, n - 1);
    }
  }

  // ---------------------------------------------------------------------------------------------
  // When the uninstall is right
  // ---------------------------------------------------------------------------------------------

  /** A byte keeps residue exactly if it lies in a block some entry found spoiled, and neither that nor a
      later entry covers it. */
  lemma {:induction false} DamagedIff(blockSize: nat, readable: set<nat>, log: seq<LogEntry>, x: nat)
    requires blockSize > 0
    ensures Damage(blockSize, readable, log, x).Some? <==>
            exists i :: 0 <= i < |log| && DamagedFrom(blockSize, readable, log, i, x)
    decreases |log|
  {
    if log != [] {
      var n := |log| - 1;
      var front := log[..n];
      DamagedIff(blockSize, readable, front, x);
      forall i | 0 <= i < n
        ensures DamagedFrom(blockSize, readable, log, i, x) <==>
                DamagedFrom(blockSize, readable, front, i, x) && !Covers(CutEntry(blockSize, readable, log[n]), x)
      {
        DamagedFromFront(blockSize, readable, log, i, x);
      }
      assert DamagedFrom(blockSize, readable, log, n, x) <==>
             SpoilsNext(blockSize, readable, front, log[n]) && BlockOf(blockSize, x) == BlockOf(blockSize, log[n].loc)
             && !Covers(CutEntry(blockSize, readable, log[n]), x);
    }
  }

  lemma DamagedFromFront(blockSize: nat, readable: set<nat>, log: seq<LogEntry>, i: nat, x: nat)
    requires blockSize > 0 && i < |log| - 1
    ensures var front, e := log[..|log| - 1], log[|log| - 1];
            DamagedFrom(blockSize, readable, log, i, x) <==>
            DamagedFrom(blockSize, readable, front, i, x) && !Covers(CutEntry(blockSize, readable, e), x)
  {
    var front := log[..|log| - 1];
    assert front[..i] == log[..i] && front[i] == log[i];
    assert forall k :: i <= k < |front| ==> front[k] == log[k];
  }

  ghost predicate DamagedFrom(blockSize: nat, readable: set<nat>, log: seq<LogEntry>, i: nat, x: nat)
    requires blockSize > 0 && i < |log|
  {
    && SpoilsNext(blockSize, readable, log[..i], log[i]) && BlockOf(blockSize, x) == BlockOf(blockSize, log[i].loc)
    && forall k :: i <= k < |log| ==> !Covers(CutEntry(blockSize, readable, log[k]), x)
  }

  /** Whatever the medium leaves in the buffer, the uninstall replays the log, as far as it can be written,
      exactly if no byte keeps residue. */
  lemma UninstallRightIff(blockSize: nat, readable: set<nat>, s: Picture, log: seq<LogEntry>)
    requires Seen(blockSize, readable, s) && s == Forgotten(s) && forall e :: e in log ==> |e.data| > 0
    ensures AllFit(CutLog(blockSize, readable, log), |s.view|)
    ensures (forall left: Leftover :: UndoAll(blockSize, readable, left, s, log).view == Apply(CutLog(blockSize, readable, log), s.view)) <==>
            (forall x :: 0 <= x < |s.view| ==> Damage(blockSize, readable, log, x) == None)
  {
    CutFits(blockSize, readable, log, |s.view|);
    var right := Apply(CutLog(blockSize, readable, log), s.view);
    if forall x :: 0 <= x < |s.view| ==> Damage(blockSize, readable, log, x) == None {
      forall left: Leftover
        ensures UndoAll(blockSize, readable, left, s, log).view == right
      {
        UninstallRight(blockSize, readable, left, s, log);
      }
    } else {
      var x :| 0 <= x < |s.view| && Damage(blockSize, readable, log, x) != None;
      var left := UninstallWrong(blockSize, readable, s, log, x);
    }
  }

  lemma UninstallWrong(blockSize: nat, readable: set<nat>, s: Picture, log: seq<LogEntry>, x: nat) returns (left: Leftover)
    requires Seen(blockSize, readable, s) && s == Forgotten(s) && forall e :: e in log ==> |e.data| > 0
    requires x < |s.view| && Damage(blockSize, readable, log, x) != None
    ensures AllFit(CutLog(blockSize, readable, log), |s.view|)
    ensures UndoAll(blockSize, readable, left, s, log).view[x] != Apply(CutLog(blockSize, readable, log), s.view)[x]
  {
    CutFits(blockSize, readable, log, |s.view|);
    var right := Apply(CutLog(blockSize, readable, log), s.view)[x];
    var other: Byte := if right == 0 then 1 else 0;
    left := (_, _) => other;
    UninstalledByte(blockSize, readable, left, s, log, x);
  }

  lemma UninstallRight(blockSize: nat, readable: set<nat>, left: Leftover, s: Picture, log: seq<LogEntry>)
    requires Seen(blockSize, readable, s) && s == Forgotten(s) && forall e :: e in log ==> |e.data| > 0
    requires forall x :: 0 <= x < |s.view| ==> Damage(blockSize, readable, log, x) == None
    ensures AllFit(CutLog(blockSize, readable, log), |s.view|)
    ensures UndoAll(blockSize, readable, left, s, log).view == Apply(CutLog(blockSize, readable, log), s.view)
  {
    CutFits(blockSize, readable, log, |s.view|);
    forall x | 0 <= x < |s.view|
      ensures UndoAll(blockSize, readable, left, s, log).view[x] == Apply(CutLog(blockSize, readable, log), s.view)[x]
    {
      UninstalledByte(blockSize, readable, left, s, log, x);
    }
  }

  /** With every entry accessible nothing is cut off, and nothing keeps residue. */
  lemma {:induction false} NothingCut(blockSize: nat, readable: set<nat>, log: seq<LogEntry>, x: nat)
    requires blockSize > 0 && forall e :: e in log ==> InReadable(blockSize, readable, e.loc, |e.data|)
    ensures Damage(blockSize, readable, log, x) == None
    decreases |log|
  {
    if log != [] {
      assert log[|log| - 1] in log;
      assert |log| > 1 ==> log[|log| - 2] in log;
      NothingCut(blockSize, readable, log[..|log| - 1], x);
    }
  }

  /** On a medium of two blocks, the second not accessible, an entry that runs into the second and then one
      in the first put residue into byte 5, which no entry covers. */
  lemma ResidueKept(left: Leftover)
    ensures var s := Picture(seq(1024, _ => 0), seq(1024, _ => 0), NOTHING_CACHED, 0);
            var log := [LogEntry(511, [1, 1]), LogEntry(0, [2])];
            && Seen(512, {0}, s) && (forall e :: e in log ==> !Covers(e, 5))
            && UndoAll(512, {0}, left, s, log).view[5] == left(1, 5)
  {
    var s := Picture(seq(1024, _ => 0), seq(1024, _ => 0), NOTHING_CACHED, 0);
    var e1, e2 := LogEntry(511, [1, 1]), LogEntry(0, [2]);
    ResidueFrom(e1, e2);
    UninstalledByte(512, {0}, left, s, [e1, e2], 5);
  }

  lemma ResidueFrom(e1: LogEntry, e2: LogEntry)
    requires e1 == LogEntry(511, [1, 1]) && e2 == LogEntry(0, [2])
    ensures Damage(512, {0}, [e1, e2], 5) == Some(1)
    ensures [e1, e2][..1] == [e1] && CutOffs(512, {0}, [e1]) == 1
  {
    TwoBlocks(511, 2);
    TwoBlocks(0, 1);
    assert [e1, e2] == [e1] + [e2];
    DamageNext(512, {0}, [e1], e2, 5);
    assert [e1][..0] == [];
  }

  /** Of two blocks of 512 bytes only the first can be accessed. */
  lemma {:induction false} TwoBlocks(loc: nat, n: nat)
    requires loc + n <= 1024
    ensures Prefix(512, {0}, loc, n) == if loc + n <= 512 then n else if loc < 512 then 512 - loc else 0
    ensures InReadable(512, {0}, loc, n) <==> n == 0 || loc + n <= 512
    decreases n
  {
    if n > 0 {
      TwoBlocks(loc, n - 1);
      BlockOfIsQuotient(512, loc + n - 1);
    }
  }

  /** Writing into a patched block is writing into the image. */
  lemma PatchNested(img: Image, at: nat, block: Image, offset: nat, bytes: Image)
    requires at + |block| <= |img| && offset + |bytes| <= |block|
    ensures Patch(img, at, Patch(block, offset, bytes)) == Patch(Patch(img, at, block), at + offset, bytes)
  {
  }

  /** If a write begins with the right bytes, those outside its range are old ones. */
  ghost predicate MixedIfRight(blockSize: nat, s: Picture, disk0: Image, disk: Image, loc: nat, n: nat)
    requires blockSize > 0
  {
    Base(blockSize, s, loc) == s.view ==> MixedOutside(disk0, s.view, disk, loc, n)
  }

  /** Writing back what was written so far keeps it so. */
  lemma MixedStep(blockSize: nat, s: Picture, disk0: Image, disk: Image, disk': Image, loc: nat, data: Image, p: nat)
    requires blockSize > 0 && |s.shown| == |s.view| && p <= |data| && (p > 0 ==> loc + p <= |s.view|)
    requires MixedIfRight(blockSize, s, disk0, disk, loc, |data|)
    requires disk' == disk || disk' == WrittenSoFar(blockSize, s, loc, data, p).view
    ensures MixedIfRight(blockSize, s, disk0, disk', loc, |data|)
  {
  }

  /** A byte of a readable block exists. */
  lemma LastByte(blockSize: nat, readable: set<nat>, size: nat, x: nat)
    requires Blocks(blockSize, readable, size) && BlockOf(blockSize, x) in readable
    ensures x < size
  {
    BlockOfIsQuotient(blockSize, x);
  }

  lemma {:induction false} ApplyAppend(log: seq<LogEntry>, e: LogEntry, img: Image)
    requires AllFit(log, |img|) && UndoLog.Fits(e, |img|)
    ensures AllFit(log + [e], |img|)
    ensures Apply(log + [e], img) == Patch(Apply(log, img), e.loc, e.data)
    decreases |log|
  {
    if log == [] {
      assert log + [e] == [e];
      assert [e][1..] == [];
    } else {
      assert log[0] in log;
      ApplyAppend(log[1..], e, Patch(img, log[0].loc, log[0].data));
      assert (log + [e])[1..] == log[1..] + [e];
    }
  }

  /** The marker for an empty cache is no block of any position. */
  lemma Position(blockSize: nat, pos: Word)
    requires blockSize in {512, 2048, 4096}
    ensures pos / blockSize < NOTHING_CACHED
  {
  }

  lemma NotTheMarker(blockSize: nat, pos: Word)
    requires blockSize in {512, 2048, 4096}
    ensures BlockOf(blockSize, pos) < NOTHING_CACHED
  {
    BlockOfIsQuotient(blockSize, pos);
    Position(blockSize, pos);
  }

  lemma {:induction false} BlocksAscend(blockSize: nat, x: nat, y: nat)
    requires blockSize > 0 && x <= y
    ensures BlockOf(blockSize, x) <= BlockOf(blockSize, y)
    decreases y
  {
    if x >= blockSize {
      BlocksAscend(blockSize, x - blockSize, y - blockSize);
    }
  }

  /** What a block has from a position on lies in that block, and so can be accessed if the block can. */
  lemma OneBlock(blockSize: nat, readable: set<nat>, size: nat, pos: nat, offset: nat, n: nat)
    requires Blocks(blockSize, readable, size) && BlockOf(blockSize, pos) in readable
    requires BlockStart(blockSize, BlockOf(blockSize, pos)) + offset == pos && 0 < n && offset + n <= blockSize
    ensures InReadable(blockSize, readable, pos, n) && pos + n <= size
    ensures BlockOf(blockSize, pos + n - 1) == BlockOf(blockSize, pos)
  {
    forall x | pos <= x < pos + n
      ensures BlockOf(blockSize, x) == BlockOf(blockSize, pos)
    {
      InBlockIff(blockSize, BlockOf(blockSize, pos), x);
    }
    ReadableBlock(blockSize, readable, pos, n);
  }
}
