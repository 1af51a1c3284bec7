/** Byte images, writes to them, and the log of overwritten bytes that undoes a sequence of writes. */
module UndoLog {
  import opened Machine

  type Byte = b: int | 0 <= b < 256
  type Image = seq<Byte>

  /** A logged write: where it went and the bytes it replaced there. */
  datatype LogEntry = LogEntry(loc: Word, data: Image)

  predicate Fits(e: LogEntry, size: int) { e.loc + |e.data| <= size }

  predicate Covers(e: LogEntry, x: int) { e.loc <= x < e.loc + |e.data| }

  /** `img` with the bytes from `loc` on replaced by `data`. */
  function Patch(img: Image, loc: nat, data: Image): (r: Image)
    requires loc + |data| <= |img|
    ensures |r| == |img|
    ensures forall x :: 0 <= x < |img| ==> r[x] == if loc <= x < loc + |data| then data[x - loc] else img[x]
  {
    seq(|img|, x requires 0 <= x < |img| => if loc <= x < loc + |data| then data[x - loc] else img[x])
  }

  lemma SliceOfSlice(img: Image, at: nat, n: nat, lo: nat, hi: nat)
    requires lo <= hi <= n && at + n <= |img|
    ensures img[at..at + n][lo..hi] == img[at + lo..at + hi]
  {
    var whole := img[at..at + n];
    forall x | lo <= x < hi
      ensures whole[x] == img[at + x]
    {
    }
    assert whole[lo..hi] == img[at + lo..at + hi];
  }

  /** Putting the old bytes back undoes a write. */
  lemma PatchBack(img: Image, loc: nat, data: Image)
    requires loc + |data| <= |img|
    ensures Patch(Patch(img, loc, data), loc, img[loc..loc + |data|]) == img
  {
  }

  ghost predicate AllFit(log: seq<LogEntry>, size: int) {
    forall e :: e in log ==> Fits(e, size)
  }

  /** Replaying entries in order. */
  function Apply(log: seq<LogEntry>, img: Image): (r: Image)
    requires AllFit(log, |img|)
    ensures |r| == |img|
    decreases |log|
  {
    if log == [] then img
    else
      assert log[0] in log;
      Apply(log[1..], Patch(img, log[0].loc, log[0].data))
  }

  function Reverse(log: seq<LogEntry>): (r: seq<LogEntry>)
    ensures |r| == |log|
    ensures forall i :: 0 <= i < |log| ==> r[i] == log[|log| - 1 - i]
    ensures forall e :: e in r <==> e in log
    decreases |log|
  {
    if log == [] then []
    else
      assert log == log[..|log| - 1] + [log[|log| - 1]];
      [log[|log| - 1]] + Reverse(log[..|log| - 1])
  }

  /** The value the earliest entry that covers byte `x` has for it. */
  function Earliest(log: seq<LogEntry>, x: int): Option<Byte>
    decreases |log|
  {
    if log == [] then None
    else if Covers(log[0], x) then Some(log[0].data[x - log[0].loc])
    else Earliest(log[1..], x)
  }

  /** The value the last entry that covers byte `x` has for it. */
  function Latest(log: seq<LogEntry>, x: int): Option<Byte>
    decreases |log|
  {
    if log == [] then None
    else
      var last := log[|log| - 1];
      if Covers(last, x) then Some(last.data[x - last.loc]) else Latest(log[..|log| - 1], x)
  }

  lemma {:induction false} EarliestAppend(log: seq<LogEntry>, e: LogEntry, x: int)
    ensures Earliest(log + [e], x) ==
            if Earliest(log, x).Some? then Earliest(log, x)
            else if Covers(e, x) then Some(e.data[x - e.loc]) else None
    decreases |log|
  {
    if log == [] {
      assert log + [e] == [e];
    } else {
      EarliestAppend(log[1..], e, x);
      assert (log + [e])[1..] == log[1..] + [e];
    }
  }

  /** Replaying the reversed log leaves, in each byte, the earliest logged value, and untouched
      bytes as they were: later entries for the same byte are overwritten. */
  lemma {:induction false} ReplayGivesEarliest(log: seq<LogEntry>, img: Image, x: int)
    requires AllFit(log, |img|) && 0 <= x < |img|
    ensures Apply(Reverse(log), img)[x] ==
            match Earliest(log, x) case None => img[x] case Some(v) => v
    decreases |log|
  {
    if log != [] {
      var n := |log| - 1;
      var last := log[n];
      assert last in log;
      assert log == log[..n] + [last];
      ReplayGivesEarliest(log[..n], Patch(img, last.loc, last.data), x);
      EarliestAppend(log[..n], last, x);
      assert Reverse(log)[1..] == Reverse(log[..n]);
    }
  }

  /** Every byte of `img` is either what it was in `orig`, or the log knows what it was. */
  ghost predicate Recoverable(orig: Image, log: seq<LogEntry>, img: Image) {
    && |img| == |orig|
    && AllFit(log, |orig|)
    && (forall x :: 0 <= x < |orig| ==>
          match Earliest(log, x) case None => img[x] == orig[x] case Some(v) => v == orig[x])
  }

  /** From a recoverable image the reversed log restores the original, whatever else happened. */
  lemma RecoverableRestores(orig: Image, log: seq<LogEntry>, img: Image)
    requires Recoverable(orig, log, img)
    ensures Apply(Reverse(log), img) == orig
  {
    forall x | 0 <= x < |orig|
      ensures Apply(Reverse(log), img)[x] == orig[x]
    {
      ReplayGivesEarliest(log, img, x);
    }
  }

  /** And only from a recoverable image. */
  lemma RestoresOnlyRecoverable(orig: Image, log: seq<LogEntry>, img: Image)
    requires |img| == |orig| && AllFit(log, |orig|)
    requires Apply(Reverse(log), img) == orig
    ensures Recoverable(orig, log, img)
  {
    forall x | 0 <= x < |orig|
      ensures match Earliest(log, x) case None => img[x] == orig[x] case Some(v) => v == orig[x]
    {
      ReplayGivesEarliest(log, img, x);
    }
  }

  /** `img'` has, outside [loc, loc + n), in every byte what one of two earlier images had. */
  ghost predicate MixedOutside(img: Image, view: Image, img': Image, loc: nat, n: nat) {
    && |img'| == |img| == |view|
    && (forall x :: 0 <= x < |img| && !(loc <= x < loc + n) ==> img'[x] == img[x] || img'[x] == view[x])
  }

  lemma MixedKeepsRecoverable(orig: Image, log: seq<LogEntry>, disk: Image, view: Image, disk': Image)
    requires Recoverable(orig, log, disk) && Recoverable(orig, log, view)
    requires exists loc :: MixedOutside(disk, view, disk', loc, 0)
    ensures Recoverable(orig, log, disk')
  {
  }

  /** Logging the old bytes before a write keeps both the logical image and the disk below it
      recoverable, however the two are mixed by write-back. */
  lemma WriteKeepsRecoverable(orig: Image, log: seq<LogEntry>, disk: Image, view: Image, disk': Image,
                              loc: Word, n: nat)
    requires Recoverable(orig, log, disk) && Recoverable(orig, log, view)
    requires loc + n <= |orig|
    requires MixedOutside(disk, view, disk', loc, n)
    ensures Recoverable(orig, log + [LogEntry(loc, view[loc..loc + n])], disk')
  {
    var e := LogEntry(loc, view[loc..loc + n]);
    forall x | 0 <= x < |orig|
      ensures match Earliest(log + [e], x) case None => disk'[x] == orig[x] case Some(v) => v == orig[x]
    {
      EarliestAppend(log, e, x);
    }
  }
}
