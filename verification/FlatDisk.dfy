/** The disk as the installer's logic sees it: a flat array of bytes, part of which can be accessed.
    It keeps the trace of what was asked of it, so that the same trace can be run on the cached
    device. */
module FlatDisk {
  import opened Machine
  import opened UndoLog
  import opened Medium
  import opened Runs
  import opened BlockDevice

  /** `done` are operations that succeed one after the other from `orig`, with this outcome. */
  ghost predicate Traced(orig: Image, blockSize: nat, readable: set<nat>, done: seq<Op>,
                         image: Image, outs: seq<Image>, writes: nat)
    requires blockSize > 0
  {
    && OpsFit(done, |orig|)
    && (forall op :: op in done ==> OpAccessible(blockSize, readable, op) && (op.WriteOp? ==> |op.data| > 0))
    && FlatRun(orig, done) == (image, outs)
    && Writes(done) == writes
  }

  class Disk {
    var image: Image
    const blockSize: nat
    const readable: set<nat>
    const orig: Image
    var done: seq<Op>
    var outs: seq<Image>
    var writes: nat
    /** The operation that failed, if one did; nothing is asked after that. */
    var failed: Option<Op>

    constructor (img: Image, size: nat, blocks: set<nat>)
      requires Blocks(size, blocks, |img|)
      ensures Valid() && failed == None && image == orig == img
      ensures blockSize == size && readable == blocks && writes == 0
    {
      image, blockSize, readable, orig := img, size, blocks, img;
      done, outs, writes, failed := [], [], 0, None;
    }

    ghost predicate Valid()
      reads this
    {
      && Blocks(blockSize, readable, |image|) && |image| == |orig|
      && Traced(orig, blockSize, readable, done, image, outs, writes)
      && (failed.Some? ==>
            && !OpAccessible(blockSize, readable, failed.value)
            && (failed.value.WriteOp? ==> |failed.value.data| > 0))
    }

    /** Every byte of the disk can be accessed. */
    ghost predicate Whole() {
      blockSize > 0 && InReadable(blockSize, readable, 0, |orig|)
    }

    /** Nothing has failed yet. */
    ghost predicate Running()
      reads this
    {
      Valid() && failed == None
    }

    method Read(loc: Word, n: nat) returns (ok: bool, bytes: Image)
      requires Running() && n > 0
      modifies this`done, this`outs, this`failed
      ensures Valid() && (ok <==> failed == None)
      ensures ok <==> InReadable(blockSize, readable, loc, n)
      ensures Whole() && loc + n <= |orig| ==> ok
      ensures ok ==> loc + n <= |image| <= TWO64 / 2 && bytes == image[loc..loc + n]
      ensures ok ==> |image| >= 512
    {
      var op := ReadOp(loc, n);
      if Whole() && loc + n <= |orig| {
        ReadablePart(blockSize, readable, 0, |orig|, loc, n);
      }
      ok := InReadable(blockSize, readable, loc, n);
      if !ok {
        failed := Some(op);
        return false, [];
      }
      Inside(blockSize, readable, |image|, loc, n);
      bytes := image[loc..loc + n];
      TraceNext(orig, blockSize, readable, done, image, outs, writes, op);
      done := done + [op];
      outs := outs + [bytes];
    }

    method Write(loc: Word, data: Image) returns (ok: bool)
      requires Running() && |data| > 0
      modifies this`image, this`done, this`writes, this`failed
      ensures Valid() && (ok <==> failed == None)
      ensures ok <==> InReadable(blockSize, readable, loc, |data|)
      ensures Whole() && loc + |data| <= |orig| ==> ok
      ensures ok ==> loc + |data| <= |image| == |old(image)| && image == Patch(old(image), loc, data)
      ensures ok ==> 512 <= |image| <= TWO64 / 2
      ensures ok ==> writes == old(writes) + 1
      ensures !ok ==> image == old(image) && writes == old(writes)
    {
      var op := WriteOp(loc, data);
      if Whole() && loc + |data| <= |orig| {
        ReadablePart(blockSize, readable, 0, |orig|, loc, |data|);
      }
      ok := InReadable(blockSize, readable, loc, |data|);
      if !ok {
        failed := Some(op);
        return false;
      }
      Inside(blockSize, readable, |image|, loc, |data|);
      TraceNext(orig, blockSize, readable, done, image, outs, writes, op);
      done := done + [op];
      image := Patch(image, loc, data);
      writes := writes + 1;
    }
  }

  lemma Inside(blockSize: nat, readable: set<nat>, size: nat, loc: nat, n: nat)
    requires Blocks(blockSize, readable, size) && n > 0 && InReadable(blockSize, readable, loc, n)
    ensures loc + n <= size && size >= 512
  {
    ReadableAt(blockSize, readable, loc, n, loc + n - 1);
    LastByte(blockSize, readable, size, loc + n - 1);
  }

  lemma TraceNext(orig: Image, blockSize: nat, readable: set<nat>, done: seq<Op>,
                  image: Image, outs: seq<Image>, writes: nat, op: Op)
    requires blockSize > 0 && Traced(orig, blockSize, readable, done, image, outs, writes)
    requires OpAccessible(blockSize, readable, op) && OpFits(op, |image|) && (op.WriteOp? ==> |op.data| > 0)
    ensures |image| == |orig|
    ensures op.ReadOp? && op.count > 0 ==>
              Traced(orig, blockSize, readable, done + [op], image, outs + [image[op.loc..op.loc + op.count]], writes)
    ensures op.WriteOp? ==>
              Traced(orig, blockSize, readable, done + [op], Patch(image, op.at, op.data), outs, writes + 1)
  {
    assert (done + [op])[..|done|] == done;
  }

  // ---------------------------------------------------------------------------------------------
  // The trace on the cached device
  // ---------------------------------------------------------------------------------------------

  /** All operations that were asked, with the failed one last. */
  function Asked(f: Disk): seq<Op>
    reads f
  {
    f.done + (if f.failed.Some? then [f.failed.value] else [])
  }

  /** The cached device, asked the same from the same start, answers every read the same and fails
      where the flat disk failed; if nothing failed, it holds the same bytes.  It is not stopped by
      its log, as long as that has room. */
  method Replay(f: Disk, d: Device) returns (ok: bool, outs: seq<Image>)
    requires f.Valid() && f.writes <= LOG_MAX
    requires d.Valid() && d.Coherent() && d.View() == d.disk && d.Log() == [] && !d.uninstalling
    requires d.disk == f.orig && d.blockSize == f.blockSize && d.readable == f.readable
    modifies d, d.cache, d.log
    ensures ok <==> f.failed == None
    ensures outs == f.outs
    ensures Restorable(d, f.orig) && |d.Log()| == f.writes
    ensures ok ==> InSession(d, f.orig, f.done, outs) && d.View() == f.image
  {
    ghost var ops := Asked(f);
    assert ops[..|f.done|] == f.done;
    assert f.failed == None ==> ops == f.done;
    ghost var n;
    ok, outs, n := Session(d, Asked(f));
    StopsAt(d, f, ops, n);
    assert ops[..n] == f.done;
  }

  lemma StopsAt(d: Device, f: Disk, ops: seq<Op>, n: nat)
    requires f.Valid() && ops == Asked(f) && n <= |ops| && d.Valid()
    requires d.blockSize == f.blockSize && d.readable == f.readable && f.writes <= LOG_MAX
    requires forall i :: 0 <= i < n ==> OpAccessible(d.blockSize, d.readable, ops[i])
    requires n < |ops| ==> !OpAccessible(d.blockSize, d.readable, ops[n]) || (ops[n].WriteOp? && |d.Log()| == LOG_MAX)
    requires |d.Log()| == Writes(ops[..n])
    ensures n == |f.done|
  {
    assert f.failed.Some? ==> ops[|f.done|] == f.failed.value;
    if n < |f.done| {
      assert ops[n] == f.done[n] && f.done[n] in f.done;
      assert ops[..n] == f.done[..n];
      assert ops[..n + 1][..n] == ops[..n] && f.done[..n + 1] == ops[..n + 1];
      WritesMonotone(f.done, n + 1);
    }
  }
}
