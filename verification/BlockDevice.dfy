/** The installer's view of the disk: a one-block write-back cache, reads and writes of any byte
    range through it, the log every write feeds, and the uninstall that replays it.

    What a failing read leaves in the cache buffer is arbitrary: the constant `residue` stands for it. */
module BlockDevice {
  import opened Machine
  import opened UndoLog
  import opened Medium
  import opened Runs

  datatype CacheState = Clean | Dirty

  class Device {
    var disk: Image
    const blockSize: nat
    const readable: set<nat>
    const residue: Leftover
    var failures: nat
    const cache: array<Byte>
    var cacheState: CacheState
    var cachedBlock: Word
    const log: array<LogEntry>
    const logReversed: array<LogEntry>
    var logCount: nat
    var uninstalling: bool

    constructor (image: Image, size: nat, blocks: set<nat>, leftover: Leftover)
      requires Blocks(size, blocks, |image|) && 0 in blocks
      ensures Valid() && Coherent() && fresh(cache) && fresh(log) && fresh(logReversed)
      ensures disk == image && blockSize == size && readable == blocks && residue == leftover
      ensures View() == image && Log() == [] && !uninstalling && failures == 0
    {
      disk, blockSize, readable, residue, failures := image, size, blocks, leftover, 0;
      cache := new Byte[size](i requires 0 <= i < |image| => image[i]);
      cacheState, cachedBlock := Clean, 0;
      log := new LogEntry[LOG_MAX](_ => LogEntry(0, []));
      logReversed := new LogEntry[LOG_MAX](_ => LogEntry(0, []));
      logCount, uninstalling := 0, false;
      new;
      assert cache[..] == image[..size];
    }

    ghost predicate Valid()
      reads this
    {
      && Blocks(blockSize, readable, |disk|)
      && cache.Length == blockSize
      && log.Length == LOG_MAX && logReversed.Length == LOG_MAX && log != logReversed
      && logCount <= LOG_MAX
      && (cachedBlock == NOTHING_CACHED || cachedBlock in readable)
      && (cacheState == Dirty ==> cachedBlock != NOTHING_CACHED)
    }

    /** The bytes the device stands for: the disk, with a dirty cached block over it. */
    ghost function View(): (v: Image)
      requires Valid()
      reads this, cache
      ensures |v| == |disk|
    {
      if cacheState == Clean then disk else Shown()
    }

    /** The disk with the cached block over it, dirty or not. */
    ghost function Shown(): (v: Image)
      requires Valid()
      reads this, cache
      ensures |v| == |disk|
    {
      if cachedBlock == NOTHING_CACHED then disk else Patch(disk, BlockStart(blockSize, cachedBlock), cache[..])
    }

    /** The device as values. */
    ghost function Pic(): (s: Picture)
      requires Valid()
      reads this, cache
      ensures Seen(blockSize, readable, s)
    {
      Picture(View(), Shown(), cachedBlock, failures)
    }

    /** The cached block is right. */
    ghost predicate Coherent()
      requires Valid()
      reads this, cache
    {
      Shown() == View()
    }

    /** What starts at `pos` can rely on the cache: it is right, or names another block. */
    ghost predicate Settled(pos: nat)
      requires Valid()
      reads this, cache
    {
      Base(blockSize, Pic(), pos) == View()
    }

    lemma CachedElsewhereRight()
      requires Valid()
      ensures WrongOnlyCached(blockSize, Pic())
    {
    }

    ghost function Log(): seq<LogEntry>
      requires Valid()
      reads this, log
    {
      log[..logCount]
    }

    ghost predicate CanAccess(loc: nat, n: nat)
      requires blockSize > 0
    {
      InReadable(blockSize, readable, loc, n)
    }

    method FlushCache() returns (ok: bool)
      requires Valid()
      modifies this`disk, this`cacheState
      ensures Valid() && ok && cacheState == Clean
      ensures disk == old(View()) && Pic() == old(Pic())
    {
      if cacheState == Clean {
        return true;
      }
      if cachedBlock !in readable {
        return false;
      }
      BlockStartIsProduct(blockSize, cachedBlock);
      disk := Patch(disk, cachedBlock * blockSize, cache[..]);
      cacheState := Clean;
      return true;
    }

    /** No byte changes, whatever happens; but a read that fails leaves its residue in the buffer, under
        the number of the block that was there. */
    method CacheBlock(block: Word) returns (ok: bool)
      requires Valid() && block != NOTHING_CACHED
      modifies this`disk, this`cacheState, this`cachedBlock, this`failures, cache
      ensures Valid()
      ensures ok <==> block in readable
      ensures Pic() == if ok then Fetched(old(Pic()), block) else Failed(blockSize, residue, old(Pic()))
      ensures disk == old(disk) || disk == old(View())
    {
      if cachedBlock == block {
        return true;
      }
      if cacheState == Dirty {
        ok := FlushCache();
        if !ok {
          return false;
        }
      }
      if block !in readable {
        Spoil();
        SpoilShows(failures - 1);
        return false;
      }
      BlockStartIsProduct(blockSize, block);
      Fill(block * blockSize);
      cachedBlock := block;
      return true;
    }

    /** What the residue in the buffer makes of the image. */
    lemma SpoilShows(k: nat)
      requires Valid() && Spoiled(k) && cacheState == Clean
      ensures Shown() == Medium.Spoil(disk, blockSize, cachedBlock, residue, k)
    {
    }

    /** A block read that succeeds. */
    method Fill(at: nat)
      requires cache.Length == blockSize && at + blockSize <= |disk|
      modifies cache
      ensures cache[..] == disk[at..at + blockSize]
    {
      var i := 0;
      while i < blockSize
        invariant 0 <= i <= blockSize
        invariant forall j :: 0 <= j < i ==> cache[j] == disk[at + j]
      {
        cache[i] := disk[at + i];
        i := i + 1;
      }
    }

    /** The cache buffer holds what the `k`-th failing read left there. */
    ghost predicate Spoiled(k: nat)
      reads this, cache
    {
      cache.Length == blockSize && forall j :: 0 <= j < blockSize ==> cache[j] == residue(k, j)
    }

    /** A block read that fails: the buffer may hold anything. */
    method Spoil()
      requires cache.Length == blockSize
      modifies this`failures, cache
      ensures failures == old(failures) + 1 && Spoiled(old(failures))
    {
      var i := 0;
      while i < blockSize
        invariant 0 <= i <= blockSize
        invariant failures == old(failures)
        invariant forall j :: 0 <= j < i ==> cache[j] == residue(failures, j)
      {
        cache[i] := residue(failures, i);
        i := i + 1;
      }
      failures := failures + 1;
    }

    /** `_device_read`: `count` bytes from `loc` on, block by block. */
    method Read(loc: Word, count: nat) returns (ok: bool, buffer: Image)
      requires Valid()
      modifies this`disk, this`cacheState, this`cachedBlock, this`failures, cache
      ensures Valid() && Pic() == AfterRead(blockSize, readable, residue, old(Pic()), loc, count)
      ensures ok <==> CanAccess(loc, count)
      ensures ok ==> (count > 0 ==> loc + count <= |disk|) && buffer == BytesRead(blockSize, old(Pic()), loc, count)
      ensures disk == old(disk) || disk == old(View())
    {
      ghost var was, disk0 := Pic(), disk;
      CachedElsewhereRight();
      buffer := [];
      var progress := 0;
      while progress < count
        invariant 0 <= progress <= count && |buffer| == progress
        invariant ReadState(was, disk0, loc, buffer)
      {
        var pos := (loc + progress) % TWO64;
        assert pos == loc + progress;
        var fits;
        fits, buffer := ReadRound(was, disk0, loc, buffer, count - progress, pos);
        if !fits {
          ReadDone(blockSize, readable, residue, was, loc, progress, count);
          return false, buffer;
        }
        progress := |buffer|;
      }
      ReadDone(blockSize, readable, residue, was, loc, count, count);
      return true, buffer;
    }

    /** The state of the read loop with these bytes read. */
    ghost predicate ReadState(was: Picture, disk0: Image, loc: nat, bytes: Image)
      reads this, cache
    {
      && Valid() && CanAccess(loc, |bytes|)
      && |was.view| == |was.shown| == |disk| && (disk == disk0 || disk == was.view)
      && WrongOnlyCached(blockSize, was)
      && Pic() == ReadSoFar(blockSize, was, loc, |bytes|)
      && (|bytes| > 0 ==> loc + |bytes| <= |disk|)
      && bytes == BytesRead(blockSize, was, loc, |bytes|)
    }

    method ReadRound(ghost was: Picture, ghost disk0: Image, loc: Word, bytes: Image, want: nat, pos: Word)
      returns (ok: bool, more: Image)
      requires want > 0 && pos == loc + |bytes| && ReadState(was, disk0, loc, bytes)
      modifies this`disk, this`cacheState, this`cachedBlock, this`failures, cache
      ensures Valid() && (disk == disk0 || disk == was.view)
      ensures ok <==> BlockOf(blockSize, pos) in readable
      ensures ok ==> |bytes| < |more| <= |bytes| + want && ReadState(was, disk0, loc, more)
      ensures !ok ==> Pic() == Failed(blockSize, residue, old(Pic()))
    {
      var chunk;
      ok, chunk := ReadChunk(pos, want);
      more := bytes + chunk;
      if ok {
        ReadGoesOn(was, disk0, loc, bytes, chunk);
      }
    }

    lemma ReadGoesOn(was: Picture, disk0: Image, loc: nat, bytes: Image, chunk: Image)
      requires Valid() && |was.view| == |was.shown| == |disk| && (disk == disk0 || disk == was.view)
      requires WrongOnlyCached(blockSize, was)
      requires chunk != [] && CanAccess(loc + |bytes|, |chunk|) && loc + |bytes| + |chunk| <= |disk|
      requires CanAccess(loc, |bytes|) && bytes == BytesRead(blockSize, was, loc, |bytes|)
      requires BlockOf(blockSize, loc + |bytes| + |chunk| - 1) == BlockOf(blockSize, loc + |bytes|)
      requires Pic() == Fetched(ReadSoFar(blockSize, was, loc, |bytes|), BlockOf(blockSize, loc + |bytes|))
      requires chunk == Shown()[loc + |bytes|..loc + |bytes| + |chunk|]
      ensures ReadState(was, disk0, loc, bytes + chunk)
    {
      ReadableJoin(blockSize, readable, loc, |bytes|, |chunk|);
      ChunkRead(blockSize, was, loc, bytes, chunk);
    }

    /** Brings the block of a position into the cache. */
    method CachePosition(pos: Word) returns (ok: bool, offset: nat)
      requires Valid()
      modifies this`disk, this`cacheState, this`cachedBlock, this`failures, cache
      ensures Valid()
      ensures ok <==> BlockOf(blockSize, pos) in readable
      ensures Pic() == if ok then Fetched(old(Pic()), BlockOf(blockSize, pos)) else Failed(blockSize, residue, old(Pic()))
      ensures ok ==>
                && cachedBlock in readable && cachedBlock != NOTHING_CACHED
                && offset < blockSize && BlockStart(blockSize, cachedBlock) + offset == pos
      ensures disk == old(disk) || disk == old(View())
    {
      BlockOfIsQuotient(blockSize, pos);
      Position(blockSize, pos);
      offset := pos % blockSize;
      ok := CacheBlock(pos / blockSize);
    }

    /** One round of the read loop: what the block at `pos` has of the bytes still wanted. */
    method ReadChunk(pos: Word, want: nat) returns (ok: bool, chunk: Image)
      requires Valid() && want > 0
      modifies this`disk, this`cacheState, this`cachedBlock, this`failures, cache
      ensures Valid()
      ensures ok <==> BlockOf(blockSize, pos) in readable
      ensures Pic() == if ok then Fetched(old(Pic()), BlockOf(blockSize, pos)) else Failed(blockSize, residue, old(Pic()))
      ensures ok ==>
                && 0 < |chunk| <= want && CanAccess(pos, |chunk|) && pos + |chunk| <= |disk|
                && BlockOf(blockSize, pos + |chunk| - 1) == BlockOf(blockSize, pos)
                && chunk == Shown()[pos..pos + |chunk|]
      ensures disk == old(disk) || disk == old(View())
    {
      var offset;
      ok, offset := CachePosition(pos);
      if !ok {
        return false, [];
      }
      var n := if want > blockSize - offset then blockSize - offset else want;
      OneBlock(blockSize, readable, |disk|, pos, offset, n);
      CachedBytes(pos, offset, n);
      chunk := cache[offset..offset + n];
    }

    /** The cached block is what is shown. */
    lemma CachedBytes(pos: nat, offset: nat, n: nat)
      requires Valid() && cachedBlock in readable && cachedBlock != NOTHING_CACHED
      requires offset + n <= blockSize && BlockStart(blockSize, cachedBlock) + offset == pos
      ensures pos + n <= |disk| && Shown()[pos..pos + n] == cache[offset..offset + n]
    {
    }

    /** One round of the write loop: as much of `bytes` as the block at `pos` takes. */
    method WriteChunk(pos: Word, bytes: Image) returns (ok: bool, n: nat)
      requires Valid() && |bytes| > 0
      modifies this`disk, this`cacheState, this`cachedBlock, this`failures, cache
      ensures Valid()
      ensures ok <==> BlockOf(blockSize, pos) in readable
      ensures ok ==> 0 < n <= |bytes| && CanAccess(pos, n) && pos + n <= |disk|
      ensures ok ==>
                && BlockOf(blockSize, pos + n - 1) == BlockOf(blockSize, pos) && |old(Shown())| == |disk|
                && Pic() == Stored(Fetched(old(Pic()), BlockOf(blockSize, pos)), pos, bytes[..n])
      ensures !ok ==> Pic() == Failed(blockSize, residue, old(Pic()))
      ensures disk == old(disk) || disk == old(View())
    {
      var offset;
      ok, offset := CachePosition(pos);
      if !ok {
        return false, 0;
      }
      n := if |bytes| > blockSize - offset then blockSize - offset else |bytes|;
      OneBlock(blockSize, readable, |disk|, pos, offset, n);
      StoreCached(pos, offset, bytes[..n]);
    }

    /** The copy into the cache and the dirty mark. */
    method StoreCached(pos: nat, offset: nat, bytes: Image)
      requires Valid() && cachedBlock in readable && cachedBlock != NOTHING_CACHED
      requires offset + |bytes| <= blockSize && BlockStart(blockSize, cachedBlock) + offset == pos
      modifies this`cacheState, cache
      ensures Valid() && pos + |bytes| <= |disk| && Pic() == Stored(old(Pic()), pos, bytes)
    {
      PatchNested(disk, BlockStart(blockSize, cachedBlock), cache[..], offset, bytes);
      CopyIn(offset, bytes);
      cacheState := Dirty;
    }

    /** The bytes a write will replace go to the first free place in the log. */
    method SaveOld(loc: Word, count: nat) returns (ok: bool)
      requires Valid() && count > 0
      modifies this`disk, this`cacheState, this`cachedBlock, this`failures, cache, log
      ensures Valid() && Log() == old(Log())
      ensures ok <==> logCount < LOG_MAX && CanAccess(loc, count)
      ensures disk == old(disk) || disk == old(View())
      ensures Pic() == if logCount < LOG_MAX then AfterRead(blockSize, readable, residue, old(Pic()), loc, count) else old(Pic())
      ensures ok ==>
                && loc + count <= |disk|
                && log[..logCount + 1] == Log() + [LogEntry(loc, BytesRead(blockSize, old(Pic()), loc, count))]
    {
      if logCount >= LOG_MAX {
        return false;
      }
      var saved, bytes := Read(loc, count);
      if !saved {
        return false;
      }
      log[logCount] := LogEntry(loc, bytes);
      return true;
    }

    /** `_device_write`: log the old bytes unless uninstalling, then write block by block.  Callers
        pass at least one byte. */
    method Write(loc: Word, data: Image) returns (ok: bool)
      requires Valid() && |data| > 0
      modifies this`disk, this`cacheState, this`cachedBlock, this`failures, this`logCount, cache, log
      ensures Valid() && |disk| == |old(disk)|
      ensures ok <==> (uninstalling || old(logCount) < LOG_MAX) && CanAccess(loc, |data|)
      ensures ok ==> loc + |data| <= |disk|
      ensures Pic() == if ok || uninstalling
                       then AfterWrite(blockSize, readable, residue, LogRead(old(logCount), old(Pic()), loc, |data|), loc, data)
                       else LogRead(old(logCount), old(Pic()), loc, |data|)
      ensures Log() == old(Log()) +
              (if ok && !uninstalling then [LogEntry(loc, BytesRead(blockSize, old(Pic()), loc, |data|))] else [])
      ensures old(Settled(loc)) || (!ok && !uninstalling) ==>
                MixedOutside(old(disk), old(View()), disk, loc, if ok || uninstalling then |data| else 0)
    {
      if !uninstalling {
        ok := SaveOld(loc, |data|);
        if !ok {
          return false;
        }
      }
      ok := WriteBlocks(loc, data);
      if !uninstalling {
        logCount := logCount + 1;
      }
    }

    /** The device when a write starts its loop: the old bytes have been read, unless nothing is logged. */
    ghost function LogRead(count: nat, s: Picture, loc: nat, n: nat): (r: Picture)
      requires Seen(blockSize, readable, s)
      reads this
      ensures Seen(blockSize, readable, r) && |r.view| == |s.view|
    {
      ReadSeen(blockSize, readable, residue, s, loc, n);
      if uninstalling || count >= LOG_MAX then s else AfterRead(blockSize, readable, residue, s, loc, n)
    }

    /** The write loop.  Where it fails, what came before is written. */
    method WriteBlocks(loc: Word, data: Image) returns (ok: bool)
      requires Valid() && |data| > 0
      modifies this`disk, this`cacheState, this`cachedBlock, this`failures, cache
      ensures BlocksWritten(old(Pic()), old(disk), loc, data, ok)
    {
      ghost var was, disk0 := Pic(), disk;
      var progress := 0;
      while progress < |data|
        invariant 0 <= progress <= |data|
        invariant WriteState(was, disk0, loc, data, progress)
      {
        var pos := (loc + progress) % TWO64;
        assert pos == loc + progress;
        var fits, n := WriteRound(was, disk0, loc, data, progress, pos);
        if !fits {
          return false;
        }
        progress := progress + n;
      }
      WriteEnds(was, disk0, loc, data);
      return true;
    }

    /** The device after the write loop. */
    ghost predicate BlocksWritten(was: Picture, disk0: Image, loc: nat, data: Image, ok: bool)
      reads this, cache
    {
      && Valid() && |was.view| == |disk| == |disk0| && Seen(blockSize, readable, was)
      && (ok <==> CanAccess(loc, |data|))
      && (ok ==> loc + |data| <= |disk|)
      && Pic() == AfterWrite(blockSize, readable, residue, was, loc, data)
      && MixedIfRight(blockSize, was, disk0, disk, loc, |data|)
    }

    lemma WriteEnds(was: Picture, disk0: Image, loc: nat, data: Image)
      requires data != [] && WriteState(was, disk0, loc, data, |data|)
      ensures BlocksWritten(was, disk0, loc, data, true)
    {
      WriteDone(blockSize, readable, residue, was, loc, data, |data|);
    }

    /** The state of the write loop after `p` bytes. */
    ghost predicate WriteState(was: Picture, disk0: Image, loc: nat, data: Image, p: nat)
      requires p <= |data|
      reads this, cache
    {
      && Valid() && CanAccess(loc, p)
      && Seen(blockSize, readable, was) && |was.view| == |disk| == |disk0|
      && (p > 0 ==> loc + p <= |disk|)
      && Pic() == WrittenSoFar(blockSize, was, loc, data, p)
      && MixedIfRight(blockSize, was, disk0, disk, loc, |data|)
    }

    method WriteRound(ghost was: Picture, ghost disk0: Image, loc: Word, data: Image, p: nat, pos: Word)
      returns (ok: bool, n: nat)
      requires p < |data| && pos == loc + p && WriteState(was, disk0, loc, data, p)
      modifies this`disk, this`cacheState, this`cachedBlock, this`failures, cache
      ensures Valid() && |disk| == |disk0|
      ensures ok <==> BlockOf(blockSize, pos) in readable
      ensures ok ==> 0 < n <= |data| - p && WriteState(was, disk0, loc, data, p + n)
      ensures !ok ==> BlocksWritten(was, disk0, loc, data, false)
    {
      ghost var before, reached := disk, Pic();
      ok, n := WriteChunk(pos, data[p..]);
      MixedStep(blockSize, was, disk0, before, disk, loc, data, p);
      if ok {
        WriteGoesOn(was, reached, disk0, loc, data, p, pos, n);
      } else {
        WriteFails(was, reached, disk0, loc, data, p);
      }
    }

    lemma WriteGoesOn(was: Picture, reached: Picture, disk0: Image, loc: nat, data: Image, p: nat, pos: nat, n: nat)
      requires Valid() && Seen(blockSize, readable, was) && |was.view| == |disk| == |disk0|
      requires pos == loc + p && 0 < n && p + n <= |data| && pos + n <= |disk|
      requires CanAccess(loc, p) && CanAccess(pos, n)
      requires BlockOf(blockSize, pos + n - 1) == BlockOf(blockSize, pos)
      requires reached == WrittenSoFar(blockSize, was, loc, data, p)
      requires Pic() == Stored(Fetched(reached, BlockOf(blockSize, pos)), pos, data[p..][..n])
      requires MixedIfRight(blockSize, was, disk0, disk, loc, |data|)
      ensures WriteState(was, disk0, loc, data, p + n)
    {
      ReadableJoin(blockSize, readable, loc, p, n);
      ChunkWritten(blockSize, was, loc, data, p, n);
    }

    lemma WriteFails(was: Picture, reached: Picture, disk0: Image, loc: nat, data: Image, p: nat)
      requires Valid() && Seen(blockSize, readable, was) && |was.view| == |disk| == |disk0|
      requires p < |data| && CanAccess(loc, p) && BlockOf(blockSize, loc + p) !in readable && (p > 0 ==> loc + p <= |disk|)
      requires reached == WrittenSoFar(blockSize, was, loc, data, p) && Pic() == Failed(blockSize, residue, reached)
      requires MixedIfRight(blockSize, was, disk0, disk, loc, |data|)
      ensures BlocksWritten(was, disk0, loc, data, false)
    {
      WriteDone(blockSize, readable, residue, was, loc, data, p);
    }

    /** Turns the log around, through the second table. */
    method ReverseLog()
      requires Valid()
      modifies log, logReversed
      ensures Log() == Reverse(old(Log()))
    {
      ghost var before := Log();
      FillReversed();
      CopyReversed();
      assert Log() == Reverse(before);
    }

    /** The copy back. */
    method CopyReversed()
      requires Valid()
      modifies log
      ensures forall k :: 0 <= k < logCount ==> log[k] == logReversed[k]
    {
      var i := 0;
      while i < logCount
        invariant 0 <= i <= logCount
        invariant forall k :: 0 <= k < i ==> log[k] == logReversed[k]
      {
        log[i] := logReversed[i];
        i := i + 1;
      }
    }

    /** The first loop: the second index counts down, and wraps when the log is empty. */
    method FillReversed()
      requires Valid()
      modifies logReversed
      ensures forall k :: 0 <= k < logCount ==> logReversed[k] == log[logCount - 1 - k]
    {
      var i := 0;
      var j: Word := (logCount - 1) % TWO64;
      while i < logCount
        invariant 0 <= i <= logCount
        invariant j == (logCount - 1 - i) % TWO64
        invariant forall k :: logCount - i <= k < logCount ==> logReversed[k] == log[logCount - 1 - k]
      {
        assert j == logCount - 1 - i;
        logReversed[j] := log[i];
        i := i + 1;
        j := (j - 1) % TWO64;
      }
    }

    ghost predicate Accessible(entries: seq<LogEntry>)
      requires blockSize > 0
    {
      forall e :: e in entries ==> |e.data| > 0 && CanAccess(e.loc, |e.data|)
    }

    lemma AccessibleFits(e: LogEntry)
      requires Valid() && |e.data| > 0 && CanAccess(e.loc, |e.data|)
      ensures UndoLog.Fits(e, |disk|)
    {
      var last := e.loc + |e.data| - 1;
      ReadableAt(blockSize, readable, e.loc, |e.data|, last);
      LastByte(blockSize, readable, |disk|, last);
    }

    /** `uninstall`: forget the cached block, dirty or not, and write the logged bytes back, as far as they
        can be written, each entry onto what its first access finds. */
    method Uninstall() returns (restored: bool)
      requires Valid()
      requires forall e :: e in Log() ==> |e.data| > 0
      modifies this`disk, this`cacheState, this`cachedBlock, this`failures, this`logCount, this`uninstalling, cache, log
      ensures Valid() && uninstalling && |disk| == |old(disk)| && View() == disk
      ensures Log() == old(Log())
      ensures restored <==> Accessible(Log())
      ensures disk == Uninstalled(Log(), old(disk), old(failures))
      ensures restored ==> AllFit(Log(), |disk|) && disk == Apply(Log(), old(disk))
    {
      ghost var entries, disk0, was := Log(), disk, Picture(disk, disk, NOTHING_CACHED, failures);
      uninstalling := true;
      cacheState := Clean;
      cachedBlock := NOTHING_CACHED;
      restored := UndoEntries(entries, was);
      var flushed := FlushCache();
      if restored {
        Restored(entries, disk0, was.fails);
      }
    }

    /** The loop over the entries. */
    method UndoEntries(ghost entries: seq<LogEntry>, ghost was: Picture) returns (restored: bool)
      requires UndoneSoFar(entries, was, 0, true)
      modifies this`disk, this`cacheState, this`cachedBlock, this`failures, this`logCount, cache, log
      ensures Valid() && uninstalling && Log() == entries && (restored <==> Accessible(entries))
      ensures Seen(blockSize, readable, was) && Pic() == UndoAll(blockSize, readable, residue, was, entries)
    {
      restored := true;
      var i := 0;
      while i < logCount
        invariant 0 <= i <= logCount
        invariant UndoneSoFar(entries, was, i, restored)
      {
        var written := UndoNext(i, entries, was, restored);
        if !written {
          restored := false;
        }
        i := i + 1;
      }
      UndoneAll(entries, was, i, restored);
    }

    lemma UndoneAll(entries: seq<LogEntry>, was: Picture, i: nat, restored: bool)
      requires UndoneSoFar(entries, was, i, restored) && i == logCount
      ensures Valid() && uninstalling && Log() == entries && (restored <==> Accessible(entries))
      ensures Seen(blockSize, readable, was) && Pic() == UndoAll(blockSize, readable, residue, was, entries)
    {
      assert entries[..|entries|] == entries;
    }

    /** The first `i` entries have been written back, all of them completely or not. */
    ghost predicate UndoneSoFar(entries: seq<LogEntry>, was: Picture, i: nat, restored: bool)
      reads this, cache, log
    {
      && Valid() && uninstalling && Log() == entries && i <= logCount && Seen(blockSize, readable, was)
      && (forall e :: e in entries ==> |e.data| > 0)
      && (restored <==> Accessible(entries[..i]))
      && Pic() == UndoAll(blockSize, readable, residue, was, entries[..i])
    }

    method UndoNext(i: nat, ghost entries: seq<LogEntry>, ghost was: Picture, ghost restored: bool) returns (ok: bool)
      requires i < logCount && UndoneSoFar(entries, was, i, restored)
      modifies this`disk, this`cacheState, this`cachedBlock, this`failures, this`logCount, cache, log
      ensures logCount == old(logCount) && UndoneSoFar(entries, was, i + 1, restored && ok)
    {
      assert entries[..i + 1] == entries[..i] + [entries[i]] && entries[..i + 1][..i] == entries[..i];
      assert log[i] == entries[i] && entries[i] in entries;
      ok := WriteBack(i);
    }

    /** The disk after a log was written back onto `image`. */
    ghost function Uninstalled(entries: seq<LogEntry>, image: Image, fails: nat): Image
      requires Valid() && |image| == |disk|
      reads this
    {
      UndoAll(blockSize, readable, residue, Picture(image, image, NOTHING_CACHED, fails), entries).view
    }

    /** One entry written back, with one retry after a fresh start of the cache. */
    method WriteBack(i: nat) returns (ok: bool)
      requires Valid() && uninstalling && i < logCount && |log[i].data| > 0
      modifies this`disk, this`cacheState, this`cachedBlock, this`failures, this`logCount, cache, log
      ensures Valid() && Log() == old(Log())
      ensures ok <==> CanAccess(Log()[i].loc, |Log()[i].data|)
      ensures Pic() == UndoOne(blockSize, readable, residue, old(Pic()), Log()[i])
    {
      ghost var e, was := log[i], Pic();
      ok := Attempt(i);
      var retry := false;
      while !ok
        invariant Valid() && Log() == old(Log()) && uninstalling
        invariant ok <==> CanAccess(e.loc, |e.data|)
        invariant Pic() == if retry then UndoOne(blockSize, readable, residue, was, e)
                           else AfterWrite(blockSize, readable, residue, was, e.loc, e.data)
        decreases if retry then 0 else 1
      {
        if retry {
          break;
        }
        var flushed := FlushCache();
        cacheState := Clean;
        cachedBlock := NOTHING_CACHED;
        retry := true;
        ok := Attempt(i);
      }
    }

    method Attempt(i: nat) returns (ok: bool)
      requires Valid() && uninstalling && i < logCount && |log[i].data| > 0
      modifies this`disk, this`cacheState, this`cachedBlock, this`failures, this`logCount, cache, log
      ensures Valid() && Log() == old(Log())
      ensures ok <==> CanAccess(Log()[i].loc, |Log()[i].data|)
      ensures Pic() == AfterWrite(blockSize, readable, residue, old(Pic()), Log()[i].loc, Log()[i].data)
    {
      assert log[i] == Log()[i];
      ok := Write(log[i].loc, log[i].data);
    }

    /** With every entry accessible the whole log is replayed. */
    lemma Restored(entries: seq<LogEntry>, image: Image, fails: nat)
      requires Valid() && |image| == |disk| && Accessible(entries)
      ensures AllFit(entries, |disk|) && Uninstalled(entries, image, fails) == Apply(entries, image)
    {
      CutNothing(entries);
      forall x | 0 <= x < |image|
        ensures Damage(blockSize, readable, entries, x) == None
      {
        NothingCut(blockSize, readable, entries, x);
      }
      UninstallRight(blockSize, readable, residue, Picture(image, image, NOTHING_CACHED, fails), entries);
    }

    /** With every entry accessible nothing is cut off. */
    lemma CutNothing(entries: seq<LogEntry>)
      requires Valid() && Accessible(entries)
      ensures CutLog(blockSize, readable, entries) == entries
      ensures AllFit(entries, |disk|)
    {
      forall i | 0 <= i < |entries|
        ensures CutEntry(blockSize, readable, entries[i]) == entries[i] && UndoLog.Fits(entries[i], |disk|)
      {
        assert entries[i] in entries;
        PrefixIsAll(blockSize, readable, entries[i].loc, |entries[i].data|);
        AccessibleFits(entries[i]);
      }
    }

    /** Copies `bytes` into the cached block. */
    method CopyIn(offset: nat, bytes: Image)
      requires offset + |bytes| <= cache.Length
      modifies cache
      ensures cache[..] == Patch(old(cache[..]), offset, bytes)
    {
      var i := 0;
      while i < |bytes|
        invariant 0 <= i <= |bytes|
        invariant forall j :: 0 <= j < cache.Length ==>
                    cache[j] == if offset <= j < offset + i then bytes[j - offset] else old(cache[j])
      {
        cache[offset + i] := bytes[i];
        i := i + 1;
      }
    }
  }

  // ---------------------------------------------------------------------------------------------
  // Finding the block size
  // ---------------------------------------------------------------------------------------------

  /** What can be read of a medium under each guess of the block size. */
  type Media = map<nat, set<nat>>

  ghost predicate MediaOk(media: Media, image: Image) {
    forall g :: g in media ==> Blocks(g, media[g], |image|)
  }

  /** `device_init`: the first guess under which block 0 can be read; that block is then cached. */
  method DeviceInit(image: Image, media: Media, leftover: Leftover) returns (d: Device?)
    requires MediaOk(media, image)
    ensures d == null <==> forall g :: g in [512, 2048, 4096] ==> g !in media || 0 !in media[g]
    ensures d != null ==>
              && fresh(d) && fresh(d.cache) && fresh(d.log) && fresh(d.logReversed)
              && d.Valid() && d.Coherent() && d.View() == d.disk == image && d.Log() == [] && !d.uninstalling
              && d.blockSize in media && d.readable == media[d.blockSize]
              && forall g :: g in [512, 2048, 4096] && g < d.blockSize ==> g !in media || 0 !in media[g]
  {
    var guesses := [512, 2048, 4096];
    var i := 0;
    while i < |guesses|
      invariant 0 <= i <= |guesses|
      invariant forall k :: 0 <= k < i ==> guesses[k] !in media || 0 !in media[guesses[k]]
    {
      if guesses[i] in media && 0 in media[guesses[i]] {
        d := new Device(image, guesses[i], media[guesses[i]], leftover);
        return;
      }
      i := i + 1;
    }
    return null;
  }

  // ---------------------------------------------------------------------------------------------
  // Whole runs
  // ---------------------------------------------------------------------------------------------

  /** What is left when an operation has failed: the log still restores the disk. */
  ghost predicate Restorable(d: Device, orig: Image)
    reads d, d.log
  {
    d.Valid() && !d.uninstalling && |d.disk| == |orig| && d.Accessible(d.Log()) && Recoverable(orig, d.Log(), d.disk)
  }

  /** The device is the flat array after the operations `ops`, as far as its bytes go, its log has the bytes
      their writes replaced, and can restore the disk. */
  ghost predicate Ongoing(d: Device, orig: Image, ops: seq<Op>, outs: seq<Image>)
    reads d, d.cache, d.log
  {
    && Restorable(d, orig) && Recoverable(orig, d.Log(), d.View())
    && IsFlat(Trace(d.Pic(), d.Log(), outs), orig, ops)
  }

  ghost predicate InSession(d: Device, orig: Image, ops: seq<Op>, outs: seq<Image>)
    reads d, d.cache, d.log
  {
    Ongoing(d, orig, ops, outs) && d.Coherent()
  }

  /** The operation, if it can be done, does not begin in a block the cache is wrong about. */
  ghost predicate BeginsRight(d: Device, op: Op)
    requires d.Valid()
    reads d, d.cache, d.log
  {
    Length(op) > 0 && Succeeds(d.blockSize, d.readable, |d.Log()|, op) ==> d.Settled(Start(op))
  }

  /** One operation, which may fail. */
  method Do(d: Device, op: Op) returns (ok: bool, out: seq<Image>)
    requires d.Valid() && !d.uninstalling && (op.WriteOp? ==> |op.data| > 0)
    modifies d, d.cache, d.log
    ensures Done(d, op, ok, out, old(d.disk), Trace(old(d.Pic()), old(d.Log()), []), old(BeginsRight(d, op)))
  {
    match op {
      case ReadOp(loc, count) =>
        ok, out := DoRead(d, loc, count);
      case WriteOp(loc, data) =>
        ok, out := DoWrite(d, loc, data);
      case FlushOp =>
        ok := d.FlushCache();
        out := [];
    }
  }

  ghost predicate Done(d: Device, op: Op, ok: bool, out: seq<Image>, disk: Image, was: Trace, right: bool)
    requires op.WriteOp? ==> |op.data| > 0
    reads d, d.cache, d.log
  {
    && d.Valid() && !d.uninstalling && |d.disk| == |disk| && Seen(d.blockSize, d.readable, was.pic)
    && (ok <==> Succeeds(d.blockSize, d.readable, |was.log|, op))
    && Trace(d.Pic(), d.Log(), out) == Next(d.blockSize, d.readable, d.residue, was, op)
    && (right ==> MixedOutside(disk, was.pic.view, d.disk, Start(op), if ok && op.WriteOp? then Length(op) else 0))
  }

  method DoRead(d: Device, loc: Word, count: nat) returns (ok: bool, out: seq<Image>)
    requires d.Valid() && !d.uninstalling
    modifies d, d.cache
    ensures Done(d, ReadOp(loc, count), ok, out, old(d.disk), Trace(old(d.Pic()), old(d.Log()), []), true)
  {
    var buffer;
    ok, buffer := d.Read(loc, count);
    out := if ok then [buffer] else [];
  }

  method DoWrite(d: Device, loc: Word, data: Image) returns (ok: bool, out: seq<Image>)
    requires d.Valid() && !d.uninstalling && |data| > 0
    modifies d, d.cache, d.log
    ensures Done(d, WriteOp(loc, data), ok, out, old(d.disk), Trace(old(d.Pic()), old(d.Log()), []),
                 old(BeginsRight(d, WriteOp(loc, data))))
  {
    ghost var log := d.Log();
    ok := d.Write(loc, data);
    out := [];
    assert log + [] == log;
  }

  /** One operation of a run.  It succeeds unless bytes cannot be accessed or the log is full for a write;
      what fails changes nothing; and if it begins right, the device goes on as a flat array. */
  method SessionStep(d: Device, op: Op, ghost right: bool, ghost orig: Image, ghost ops: seq<Op>, ghost outs: seq<Image>)
    returns (ok: bool, out: seq<Image>)
    requires d.Valid() && !d.uninstalling && (op.WriteOp? ==> |op.data| > 0)
    requires right ==> Ongoing(d, orig, ops, outs) && BeginsRight(d, op)
    modifies d, d.cache, d.log
    ensures d.Valid() && !d.uninstalling && |d.disk| == |old(d.disk)|
    ensures ok <==> Succeeds(d.blockSize, d.readable, |old(d.Log())|, op)
    ensures Trace(d.Pic(), d.Log(), outs + out) ==
            Next(d.blockSize, d.readable, d.residue, Trace(old(d.Pic()), old(d.Log()), outs), op)
    ensures right ==> Ongoing(d, orig, if ok then ops + [op] else ops, outs + out)
  {
    ghost var was, disk := Trace(d.Pic(), d.Log(), outs), d.disk;
    ok, out := Do(d, op);
    OutputsAppend(d.blockSize, d.readable, d.residue, was, op);
    if right {
      NextFlat(d.blockSize, d.readable, d.residue, was, orig, ops, op);
      StillRecoverable(d, orig, was, disk, ops, op, ok, outs + out);
    }
  }

  lemma OutputsAppend(blockSize: nat, readable: set<nat>, left: Leftover, t: Trace, op: Op)
    requires Seen(blockSize, readable, t.pic) && (op.WriteOp? ==> |op.data| > 0)
    ensures var bare := Next(blockSize, readable, left, t.(outs := []), op);
            Next(blockSize, readable, left, t, op) == bare.(outs := t.outs + bare.outs)
  {
    assert t.outs + [] == t.outs;
  }

  /** The log can still restore what is on the disk, and what counts, after the operation. */
  lemma StillRecoverable(d: Device, orig: Image, was: Trace, disk: Image, ops: seq<Op>, op: Op, ok: bool, outs: seq<Image>)
    requires d.Valid() && !d.uninstalling && |d.disk| == |orig|
    requires d.Accessible(was.log) && Recoverable(orig, was.log, disk) && Recoverable(orig, was.log, was.pic.view)
    requires ok ==> OpAccessible(d.blockSize, d.readable, op) && (op.WriteOp? ==> |op.data| > 0)
    requires IsFlat(was, orig, ops)
    requires IsFlat(Trace(d.Pic(), d.Log(), outs), orig, if ok then ops + [op] else ops)
    requires MixedOutside(disk, was.pic.view, d.disk, Start(op), if ok && op.WriteOp? then Length(op) else 0)
    ensures Restorable(d, orig) && Recoverable(orig, d.Log(), d.View())
  {
    var view, n := was.pic.view, if ok && op.WriteOp? then Length(op) else 0;
    NewLog(d, orig, was, ops, op, ok, outs);
    WriteRecoverable(orig, was.log, d.Log(), disk, view, d.disk, Start(op), n);
    WriteRecoverable(orig, was.log, d.Log(), view, view, d.View(), Start(op), n);
  }

  /** The log after the operation, and what counts. */
  lemma NewLog(d: Device, orig: Image, was: Trace, ops: seq<Op>, op: Op, ok: bool, outs: seq<Image>)
    requires d.Valid() && |d.disk| == |orig| == |was.pic.view| && d.Accessible(was.log)
    requires ok ==> OpAccessible(d.blockSize, d.readable, op) && (op.WriteOp? ==> |op.data| > 0)
    requires IsFlat(was, orig, ops)
    requires IsFlat(Trace(d.Pic(), d.Log(), outs), orig, if ok then ops + [op] else ops)
    ensures d.Accessible(d.Log())
    ensures var n := if ok && op.WriteOp? then Length(op) else 0;
            && (n > 0 ==> Start(op) + n <= |orig|)
            && d.Log() == (if n > 0 then was.log + [LogEntry(Start(op), was.pic.view[Start(op)..Start(op) + n])] else was.log)
            && MixedOutside(was.pic.view, was.pic.view, d.View(), Start(op), n)
  {
    if ok {
      AccessibleOpFits(d.blockSize, d.readable, |orig|, op);
      FlatNext(orig, ops, op);
    }
  }

  lemma WriteRecoverable(orig: Image, log: seq<LogEntry>, log': seq<LogEntry>, disk: Image, view: Image, disk': Image,
                         loc: Word, n: nat)
    requires Recoverable(orig, log, disk) && Recoverable(orig, log, view)
    requires n > 0 ==> loc + n <= |orig|
    requires log' == if n > 0 then log + [LogEntry(loc, view[loc..loc + n])] else log
    requires MixedOutside(disk, view, disk', loc, n)
    ensures Recoverable(orig, log', disk')
  {
    if n > 0 {
      WriteKeepsRecoverable(orig, log, disk, view, disk', loc, n);
    } else {
      MixedKeepsRecoverable(orig, log, disk, view, disk');
    }
  }

  /** Runs the operations through the device until one fails, which it does for bytes that cannot
      be accessed or for a full log only.  While they succeed, the device is a flat array of bytes;
      and after the run, failed or not, the log can restore the disk. */
  method Session(d: Device, ops: seq<Op>) returns (ok: bool, outs: seq<Image>, ghost n: nat)
    requires d.Valid() && d.Coherent() && d.View() == d.disk && d.Log() == [] && !d.uninstalling
    requires WellFormed(ops)
    modifies d, d.cache, d.log
    ensures n <= |ops| && (ok <==> n == |ops|)
    ensures Reached(d, old(d.disk), ops, n, outs)
    ensures !ok ==> !OpAccessible(d.blockSize, d.readable, ops[n]) || (ops[n].WriteOp? && |d.Log()| == LOG_MAX)
    ensures ok ==> InSession(d, old(d.disk), ops, outs)
  {
    outs := [];
    var i := 0;
    ghost var orig := d.disk;
    assert ops[..0] == [];
    while i < |ops|
      invariant 0 <= i <= |ops|
      invariant Reached(d, orig, ops, i, outs) && d.Coherent()
    {
      assert ops[i] in ops;
      var done;
      done, outs := SessionNext(d, orig, ops, i, outs);
      if !done {
        return false, outs, i;
      }
      i := i + 1;
    }
    assert ops[..i] == ops;
    return true, outs, i;
  }

  /** The first `n` operations have succeeded. */
  ghost predicate Reached(d: Device, orig: Image, ops: seq<Op>, n: nat, outs: seq<Image>)
    requires n <= |ops|
    reads d, d.cache, d.log
  {
    && Ongoing(d, orig, ops[..n], outs)
    && (forall i :: 0 <= i < n ==> OpAccessible(d.blockSize, d.readable, ops[i]))
  }

  method SessionNext(d: Device, ghost orig: Image, ops: seq<Op>, i: nat, outs: seq<Image>)
    returns (ok: bool, outs': seq<Image>)
    requires i < |ops| && Reached(d, orig, ops, i, outs) && d.Coherent() && (ops[i].WriteOp? ==> |ops[i].data| > 0)
    modifies d, d.cache, d.log
    ensures Reached(d, orig, ops, if ok then i + 1 else i, outs')
    ensures ok ==> d.Coherent()
    ensures !ok ==> !OpAccessible(d.blockSize, d.readable, ops[i]) || (ops[i].WriteOp? && |d.Log()| == LOG_MAX)
  {
    assert ops[..i + 1] == ops[..i] + [ops[i]];
    ok, outs' := SessionRound(d, orig, ops[..i], ops[i], outs);
  }

  method SessionRound(d: Device, ghost orig: Image, ghost ops: seq<Op>, op: Op, outs: seq<Image>)
    returns (ok: bool, outs': seq<Image>)
    requires InSession(d, orig, ops, outs) && (op.WriteOp? ==> |op.data| > 0)
    modifies d, d.cache, d.log
    ensures Ongoing(d, orig, if ok then ops + [op] else ops, outs')
    ensures ok ==> d.Coherent() && OpAccessible(d.blockSize, d.readable, op)
    ensures !ok ==> !OpAccessible(d.blockSize, d.readable, op) || (op.WriteOp? && |d.Log()| == LOG_MAX)
  {
    ghost var was := Trace(d.Pic(), d.Log(), outs);
    var out;
    ok, out := SessionStep(d, op, true, orig, ops, outs);
    outs' := outs + out;
    NextPosed(d.blockSize, d.readable, d.residue, Pose(was.pic.cached, true), was, op);
  }

  /** A read that fails, and then one that does not.  No byte of the device is lost; but what the second read
      finds in the block the first left under its number is what that left in the buffer. */
  method ReadAfterFailure(d: Device, bad: Word, m: nat, loc: Word, count: nat)
    returns (failed: bool, ok: bool, bytes: Image)
    requires d.Valid() && !d.CanAccess(bad, m) && count > 0 && d.CanAccess(loc, count)
    modifies d, d.cache
    ensures d.Valid() && d.View() == old(d.View())
    ensures failed && ok && loc + count <= |d.View()|
    ensures bytes == ReadAfterFailed(d.blockSize, d.readable, d.residue, old(d.Pic()), bad, m, loc, count)
    ensures BlockOf(d.blockSize, loc) != Named(d.blockSize, d.readable, old(d.cachedBlock), bad, m) ==>
              bytes == d.View()[loc..loc + count]
  {
    ghost var was := d.Pic();
    FailedRead(d.blockSize, d.readable, d.residue, was, bad, m);
    var nothing;
    ok, nothing := d.Read(bad, m);
    failed := !ok;
    ok, bytes := d.Read(loc, count);
  }

  /** The way back from a run that failed: the log reversed, and uninstalled. */
  method Rollback(d: Device, ghost orig: Image)
    requires Restorable(d, orig)
    modifies d, d.cache, d.log, d.logReversed
    ensures d.disk == orig
  {
    ghost var log := d.Log();
    d.ReverseLog();
    RecoverableRestores(orig, log, d.disk);
    var restored := d.Uninstall();
  }

  /** Rollback: any run, cut off by its first failure or complete, flushed or not, followed by the
      reversal of the log and the uninstall, leaves every byte of the disk as it was. */
  method SessionUndone(d: Device, ops: seq<Op>)
    requires d.Valid() && d.Coherent() && d.View() == d.disk && d.Log() == [] && !d.uninstalling
    requires forall op :: op in ops && op.WriteOp? ==> |op.data| > 0
    modifies d, d.cache, d.log, d.logReversed
    ensures d.disk == old(d.disk)
  {
    ghost var orig := d.disk;
    var ok, outs, n := Session(d, ops);
    Rollback(d, orig);
  }

  // ---------------------------------------------------------------------------------------------
  // Runs that go on after failures
  // ---------------------------------------------------------------------------------------------

  /** A whole run, failures and all: what the device, its log and the reads become.  If the run is careful,
      exactly the operations that can be done are done, as on a flat array of bytes, and the log can restore
      the disk. */
  method Persist(d: Device, ops: seq<Op>) returns (outs: seq<Image>)
    requires d.Valid() && d.Coherent() && d.View() == d.disk && d.Log() == [] && !d.uninstalling
    requires WellFormed(ops)
    modifies d, d.cache, d.log
    ensures d.Valid() && !d.uninstalling && d.Accessible(d.Log())
    ensures Trace(d.Pic(), d.Log(), outs) ==
            Course(d.blockSize, d.readable, d.residue, Trace(old(d.Pic()), [], []), ops)
    ensures Careful(d.blockSize, d.readable, old(d.cachedBlock), ops) ==>
              Ongoing(d, old(d.disk), Possible(d.blockSize, d.readable, ops), outs)
  {
    outs := [];
    ghost var orig, was := d.disk, Trace(d.Pic(), [], []);
    var i := 0;
    assert ops[..0] == [];
    while i < |ops|
      invariant 0 <= i <= |ops|
      invariant Persisted(d, orig, was, ops[..i], outs)
    {
      assert ops[i] in ops;
      outs := PersistNext(d, orig, was, ops, i, outs);
      i := i + 1;
    }
    assert ops[..i] == ops;
  }

  /** The device after these operations. */
  ghost predicate Persisted(d: Device, orig: Image, was: Trace, ops: seq<Op>, outs: seq<Image>)
    reads d, d.cache, d.log
  {
    && d.Valid() && !d.uninstalling && WellFormed(ops) && d.Accessible(d.Log())
    && Seen(d.blockSize, d.readable, was.pic) && Fresh(was)
    && Trace(d.Pic(), d.Log(), outs) == Course(d.blockSize, d.readable, d.residue, was, ops)
    && (Careful(d.blockSize, d.readable, was.pic.cached, ops) ==>
          Ongoing(d, orig, Possible(d.blockSize, d.readable, ops), outs))
  }

  method PersistNext(d: Device, ghost orig: Image, ghost was: Trace, ops: seq<Op>, i: nat, outs: seq<Image>)
    returns (outs': seq<Image>)
    requires i < |ops| && Persisted(d, orig, was, ops[..i], outs) && (ops[i].WriteOp? ==> |ops[i].data| > 0)
    modifies d, d.cache, d.log
    ensures Persisted(d, orig, was, ops[..i + 1], outs')
  {
    assert ops[..i + 1] == ops[..i] + [ops[i]];
    outs' := PersistRound(d, orig, was, ops[..i], ops[i], outs);
  }

  method PersistRound(d: Device, ghost orig: Image, ghost was: Trace, ghost ops: seq<Op>, op: Op, outs: seq<Image>)
    returns (outs': seq<Image>)
    requires Persisted(d, orig, was, ops, outs) && (op.WriteOp? ==> |op.data| > 0)
    modifies d, d.cache, d.log
    ensures Persisted(d, orig, was, ops + [op], outs')
  {
    CourseNext(d.blockSize, d.readable, d.residue, was, ops, op);
    CourseLog(d.blockSize, d.readable, d.residue, was, ops);
    ghost var careful := Careful(d.blockSize, d.readable, was.pic.cached, ops + [op]);
    CarefulStep(d.blockSize, d.readable, d.residue, was, ops, op);
    AccessibleNext(d, Trace(d.Pic(), d.Log(), outs), op);
    var ok, out := SessionStep(d, op, careful, orig, Possible(d.blockSize, d.readable, ops), outs);
    outs' := outs + out;
  }

  /** The next operation of a careful run begins right. */
  lemma CarefulStep(blockSize: nat, readable: set<nat>, left: Leftover, t: Trace, ops: seq<Op>, op: Op)
    requires Seen(blockSize, readable, t.pic) && Fresh(t) && WellFormed(ops)
    ensures Careful(blockSize, readable, t.pic.cached, ops + [op]) ==>
              var t' := Course(blockSize, readable, left, t, ops);
              && Careful(blockSize, readable, t.pic.cached, ops)
              && (Length(op) > 0 && Succeeds(blockSize, readable, |t'.log|, op) ==>
                    Base(blockSize, t'.pic, Start(op)) == t'.pic.view)
  {
    assert (ops + [op])[..|ops|] == ops && (ops + [op])[|ops|] == op;
    if Careful(blockSize, readable, t.pic.cached, ops + [op]) {
      CoursePosed(blockSize, readable, left, t, ops);
      CourseLog(blockSize, readable, left, t, ops);
    }
  }

  lemma AccessibleNext(d: Device, t: Trace, op: Op)
    requires d.Valid() && Seen(d.blockSize, d.readable, t.pic) && (op.WriteOp? ==> |op.data| > 0)
    requires d.Accessible(t.log)
    ensures d.Accessible(Next(d.blockSize, d.readable, d.residue, t, op).log)
  {
    if OpAccessible(d.blockSize, d.readable, op) {
      AccessibleOpFits(d.blockSize, d.readable, |t.pic.view|, op);
    }
  }

  /** Rollback of such a run.  If it is careful, the disk is what it was, however many operations failed. */
  method PersistUndone(d: Device, ops: seq<Op>) returns (restored: bool)
    requires d.Valid() && d.Coherent() && d.View() == d.disk && d.Log() == [] && !d.uninstalling
    requires WellFormed(ops)
    modifies d, d.cache, d.log, d.logReversed
    ensures restored
    ensures Careful(d.blockSize, d.readable, old(d.cachedBlock), ops) ==> d.disk == old(d.disk)
  {
    ghost var orig, careful := d.disk, Careful(d.blockSize, d.readable, d.cachedBlock, ops);
    var outs := Persist(d, ops);
    ghost var log := d.Log();
    d.ReverseLog();
    if careful {
      RecoverableRestores(orig, log, d.disk);
    }
    restored := d.Uninstall();
  }
}
