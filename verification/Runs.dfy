/** Whole runs of reads, writes and flushes, as values: what a flat array of bytes makes of them, and what
    the device with its cache and its log does. */
module Runs {
  import opened Machine
  import opened UndoLog
  import opened Medium

  const LOG_MAX: int := 256

  datatype Op = ReadOp(loc: Word, count: nat) | WriteOp(at: Word, data: Image) | FlushOp

  /** What a flat array of bytes makes of a run: the image in the end and the bytes each read
      returns. */
  function FlatRun(img: Image, ops: seq<Op>): (r: (Image, seq<Image>))
    requires OpsFit(ops, |img|)
    ensures |r.0| == |img|
    decreases |ops|
  {
    if ops == [] then (img, [])
    else
      assert ops == ops[..|ops| - 1] + [ops[|ops| - 1]];
      assert OpFits(ops[|ops| - 1], |img|) by { assert ops[|ops| - 1] in ops; }
      var (before, outs) := FlatRun(img, ops[..|ops| - 1]);
      FlatStep(before, outs, ops[|ops| - 1])
  }

  /** One operation on a flat array that held `before`. */
  function FlatStep(before: Image, outs: seq<Image>, op: Op): (r: (Image, seq<Image>))
    requires OpFits(op, |before|)
    ensures |r.0| == |before|
  {
    match op
    case ReadOp(loc, n) => (before, outs + [Under(before, op)])
    case WriteOp(loc, data) => (Patch(before, loc, data), outs)
    case FlushOp => (before, outs)
  }

  /** What the operation finds there. */
  function Under(before: Image, op: Op): Image
    requires OpFits(op, |before|)
  {
    if Length(op) == 0 then [] else before[Start(op)..Start(op) + Length(op)]
  }

  /** The bytes a run replaces, write by write. */
  function FlatLog(img: Image, ops: seq<Op>): (log: seq<LogEntry>)
    requires OpsFit(ops, |img|)
    ensures |log| == Writes(ops)
    decreases |ops|
  {
    if ops == [] then []
    else
      assert ops == ops[..|ops| - 1] + [ops[|ops| - 1]];
      assert OpFits(ops[|ops| - 1], |img|) by { assert ops[|ops| - 1] in ops; }
      var front := ops[..|ops| - 1];
      FlatLog(img, front) + Logged(FlatRun(img, front).0, ops[|ops| - 1])
  }

  /** The entry for a write. */
  function Logged(before: Image, op: Op): (r: seq<LogEntry>)
    requires OpFits(op, |before|)
    ensures |r| == if op.WriteOp? then 1 else 0
  {
    if op.WriteOp? then [LogEntry(op.at, Under(before, op))] else []
  }

  predicate OpFits(op: Op, size: int) {
    match op
    case ReadOp(loc, n) => n == 0 || loc + n <= size
    case WriteOp(loc, data) => |data| > 0 && loc + |data| <= size
    case FlushOp => true
  }

  /** How many of the operations are writes. */
  function Writes(ops: seq<Op>): nat
    decreases |ops|
  {
    if ops == [] then 0 else Writes(ops[..|ops| - 1]) + (if ops[|ops| - 1].WriteOp? then 1 else 0)
  }

  lemma {:induction false} WritesMonotone(ops: seq<Op>, n: nat)
    requires n <= |ops|
    ensures Writes(ops[..n]) <= Writes(ops)
    decreases |ops|
  {
    if n < |ops| {
      WritesMonotone(ops[..|ops| - 1], n);
      assert ops[..|ops| - 1][..n] == ops[..n];
    } else {
      assert ops[..n] == ops;
    }
  }

  /** All bytes the operation needs can be read and written. */
  predicate OpAccessible(blockSize: nat, readable: set<nat>, op: Op)
    requires blockSize > 0
  {
    InReadable(blockSize, readable, Start(op), Length(op))
  }

  ghost predicate OpsFit(ops: seq<Op>, size: int) {
    forall op :: op in ops ==> OpFits(op, size)
  }

  /** Nobody writes no bytes. */
  ghost predicate WellFormed(ops: seq<Op>) {
    forall op :: op in ops && op.WriteOp? ==> |op.data| > 0
  }

  /** Where an operation starts, and how many bytes it takes. */
  function Start(op: Op): Word { match op case ReadOp(loc, _) => loc case WriteOp(loc, _) => loc case FlushOp => 0 }

  function Length(op: Op): nat { match op case ReadOp(_, n) => n case WriteOp(_, data) => |data| case FlushOp => 0 }

  lemma AccessibleOpFits(blockSize: nat, readable: set<nat>, size: nat, op: Op)
    requires Blocks(blockSize, readable, size) && OpAccessible(blockSize, readable, op)
    requires op.WriteOp? ==> |op.data| > 0
    ensures OpFits(op, size) && (Length(op) > 0 ==> Start(op) + Length(op) <= size)
  {
    RangeFits(blockSize, readable, size, Start(op), Length(op));
  }

  lemma FlatNext(img: Image, ops: seq<Op>, op: Op)
    requires OpsFit(ops, |img|) && OpFits(op, |img|)
    ensures OpsFit(ops + [op], |img|)
    ensures FlatRun(img, ops + [op]) == FlatStep(FlatRun(img, ops).0, FlatRun(img, ops).1, op)
    ensures FlatLog(img, ops + [op]) == FlatLog(img, ops) + Logged(FlatRun(img, ops).0, op)
  {
    var longer := ops + [op];
    assert OpsFit(longer, |img|);
    assert longer[..|longer| - 1] == ops && longer[|longer| - 1] == op;
  }

  // ---------------------------------------------------------------------------------------------
  // The device
  // ---------------------------------------------------------------------------------------------

  /** The device, its log, and what the reads have returned so far. */
  datatype Trace = Trace(pic: Picture, log: seq<LogEntry>, outs: seq<Image>)

  /** It stops at nothing but inaccessible bytes, and, for a write, a full log. */
  predicate Succeeds(blockSize: nat, readable: set<nat>, logged: nat, op: Op)
    requires blockSize > 0
  {
    OpAccessible(blockSize, readable, op) && (op.WriteOp? ==> logged < LOG_MAX)
  }

  /** One operation, which may fail. */
  ghost function Next(blockSize: nat, readable: set<nat>, left: Leftover, t: Trace, op: Op): (t': Trace)
    requires Seen(blockSize, readable, t.pic) && (op.WriteOp? ==> |op.data| > 0)
    ensures Seen(blockSize, readable, t'.pic) && |t'.pic.view| == |t.pic.view|
  {
    if Length(op) == 0 || (op.WriteOp? && |t.log| >= LOG_MAX) then
      t.(outs := t.outs + if op.ReadOp? then [[]] else [])
    else
      ReadSeen(blockSize, readable, left, t.pic, Start(op), Length(op));
      var read := AfterRead(blockSize, readable, left, t.pic, Start(op), Length(op));
      if !OpAccessible(blockSize, readable, op) then t.(pic := read)
      else
        AccessibleOpFits(blockSize, readable, |t.pic.view|, op);
        var bytes := BytesRead(blockSize, t.pic, Start(op), Length(op));
        if op.ReadOp? then Trace(read, t.log, t.outs + [bytes])
        else
          Trace(AfterWrite(blockSize, readable, left, read, op.at, op.data), t.log + [LogEntry(op.at, bytes)], t.outs)
  }

  ghost function Course(blockSize: nat, readable: set<nat>, left: Leftover, t: Trace, ops: seq<Op>): (t': Trace)
    requires Seen(blockSize, readable, t.pic) && WellFormed(ops)
    ensures Seen(blockSize, readable, t'.pic) && |t'.pic.view| == |t.pic.view|
    decreases |ops|
  {
    if ops == [] then t
    else
      assert ops[|ops| - 1] in ops;
      Next(blockSize, readable, left, Course(blockSize, readable, left, t, ops[..|ops| - 1]), ops[|ops| - 1])
  }

  /** The operations of a run that can be done: their bytes can be accessed, and the log has room. */
  function Possible(blockSize: nat, readable: set<nat>, ops: seq<Op>): (r: seq<Op>)
    requires blockSize > 0
    decreases |ops|
  {
    if ops == [] then []
    else
      var front := Possible(blockSize, readable, ops[..|ops| - 1]);
      if Succeeds(blockSize, readable, Writes(front), ops[|ops| - 1]) then front + [ops[|ops| - 1]] else front
  }

  /** What a run leaves: the block the cache names, and whether nothing has failed since it was filled. */
  datatype Pose = Pose(cached: nat, sound: bool)

  function PoseAfter(blockSize: nat, readable: set<nat>, cached: nat, ops: seq<Op>): Pose
    requires blockSize > 0
    decreases |ops|
  {
    if ops == [] then Pose(cached, true)
    else
      var front, op := ops[..|ops| - 1], ops[|ops| - 1];
      PoseNext(blockSize, readable, PoseAfter(blockSize, readable, cached, front),
               Writes(Possible(blockSize, readable, front)), op)
  }

  function PoseNext(blockSize: nat, readable: set<nat>, p: Pose, logged: nat, op: Op): Pose
    requires blockSize > 0
  {
    if Length(op) == 0 || (op.WriteOp? && logged >= LOG_MAX) then p
    else Pose(Named(blockSize, readable, p.cached, Start(op), Length(op)), OpAccessible(blockSize, readable, op))
  }

  /** The operation can be done and begins in a block about which a failure has left the cache wrong. */
  predicate BeginsWrong(blockSize: nat, readable: set<nat>, p: Pose, logged: nat, op: Op)
    requires blockSize > 0
  {
    && Length(op) > 0 && !p.sound && BlockOf(blockSize, Start(op)) == p.cached
    && Succeeds(blockSize, readable, logged, op)
  }

  /** A run in which no operation that can be done begins in the block the cache names after a failure. */
  predicate Careful(blockSize: nat, readable: set<nat>, cached: nat, ops: seq<Op>)
    requires blockSize > 0
    decreases |ops|
  {
    ops == [] ||
    (var front := ops[..|ops| - 1];
     && Careful(blockSize, readable, cached, front)
     && !BeginsWrong(blockSize, readable, PoseAfter(blockSize, readable, cached, front),
                     Writes(Possible(blockSize, readable, front)), ops[|ops| - 1]))
  }

  /** The cache is right, or holds the residue of the last failure. */
  ghost predicate Posed(blockSize: nat, left: Leftover, p: Pose, s: Picture) {
    && s.cached == p.cached
    && (if p.sound then s.shown == s.view
        else s.fails > 0 && s.shown == Spoil(s.view, blockSize, s.cached, left, s.fails - 1))
  }

  lemma NextPosed(blockSize: nat, readable: set<nat>, left: Leftover, p: Pose, t: Trace, op: Op)
    requires Seen(blockSize, readable, t.pic) && (op.WriteOp? ==> |op.data| > 0)
    requires Posed(blockSize, left, p, t.pic) && !BeginsWrong(blockSize, readable, p, |t.log|, op)
    ensures Posed(blockSize, left, PoseNext(blockSize, readable, p, |t.log|, op), Next(blockSize, readable, left, t, op).pic)
  {
    if Length(op) > 0 {
      if OpAccessible(blockSize, readable, op) {
        WholeRead(blockSize, readable, left, t.pic, Start(op), Length(op));
        if op.WriteOp? {
          var read := AfterRead(blockSize, readable, left, t.pic, op.at, |op.data|);
          WholeWrite(blockSize, readable, left, read, op.at, op.data);
        }
      } else {
        FailedRead(blockSize, readable, left, t.pic, Start(op), Length(op));
      }
    }
  }

  lemma LogGrows(blockSize: nat, readable: set<nat>, left: Leftover, t: Trace, op: Op)
    requires Seen(blockSize, readable, t.pic) && (op.WriteOp? ==> |op.data| > 0)
    ensures |Next(blockSize, readable, left, t, op).log| ==
            |t.log| + if op.WriteOp? && Succeeds(blockSize, readable, |t.log|, op) then 1 else 0
    ensures |Next(blockSize, readable, left, t, op).outs| ==
            |t.outs| + if op.ReadOp? && Succeeds(blockSize, readable, |t.log|, op) then 1 else 0
  {
  }

  lemma PossibleWrites(blockSize: nat, readable: set<nat>, ops: seq<Op>)
    requires blockSize > 0 && ops != []
    ensures var front, op := Possible(blockSize, readable, ops[..|ops| - 1]), ops[|ops| - 1];
            Writes(Possible(blockSize, readable, ops)) ==
            Writes(front) + if op.WriteOp? && Succeeds(blockSize, readable, Writes(front), op) then 1 else 0
  {
    var front, op := Possible(blockSize, readable, ops[..|ops| - 1]), ops[|ops| - 1];
    assert (front + [op])[..|front|] == front;
  }

  lemma {:induction false} CourseLog(blockSize: nat, readable: set<nat>, left: Leftover, t: Trace, ops: seq<Op>)
    requires Seen(blockSize, readable, t.pic) && t.log == [] && WellFormed(ops)
    ensures |Course(blockSize, readable, left, t, ops).log| == Writes(Possible(blockSize, readable, ops))
    decreases |ops|
  {
    if ops != [] {
      var front, op := ops[..|ops| - 1], ops[|ops| - 1];
      assert op in ops;
      CourseLog(blockSize, readable, left, t, front);
      LogGrows(blockSize, readable, left, Course(blockSize, readable, left, t, front), op);
      PossibleWrites(blockSize, readable, ops);
    }
  }

  /** In a careful run the cache is wrong after failures only, and then about the block it names. */
  lemma {:induction false} CoursePosed(blockSize: nat, readable: set<nat>, left: Leftover, t: Trace, ops: seq<Op>)
    requires Seen(blockSize, readable, t.pic) && t.pic.shown == t.pic.view && t.log == [] && WellFormed(ops)
    requires Careful(blockSize, readable, t.pic.cached, ops)
    ensures Posed(blockSize, left, PoseAfter(blockSize, readable, t.pic.cached, ops),
                  Course(blockSize, readable, left, t, ops).pic)
    decreases |ops|
  {
    if ops != [] {
      var front, op := ops[..|ops| - 1], ops[|ops| - 1];
      assert op in ops;
      CoursePosed(blockSize, readable, left, t, front);
      CourseLog(blockSize, readable, left, t, front);
      NextPosed(blockSize, readable, left, PoseAfter(blockSize, readable, t.pic.cached, front),
                Course(blockSize, readable, left, t, front), op);
    }
  }

  // ---------------------------------------------------------------------------------------------
  // When the device is a flat array
  // ---------------------------------------------------------------------------------------------

  /** The device after the operations `ops` of a flat array, none of which failed. */
  ghost predicate IsFlat(t: Trace, img: Image, ops: seq<Op>) {
    && OpsFit(ops, |img|)
    && t.pic.view == FlatRun(img, ops).0 && t.outs == FlatRun(img, ops).1 && t.log == FlatLog(img, ops)
  }

  lemma NextFlat(blockSize: nat, readable: set<nat>, left: Leftover, t: Trace, img: Image, ops: seq<Op>, op: Op)
    requires Seen(blockSize, readable, t.pic) && (op.WriteOp? ==> |op.data| > 0)
    requires IsFlat(t, img, ops)
    requires Length(op) > 0 && Succeeds(blockSize, readable, |t.log|, op) ==>
               Base(blockSize, t.pic, Start(op)) == t.pic.view
    ensures IsFlat(Next(blockSize, readable, left, t, op), img,
                   if Succeeds(blockSize, readable, |t.log|, op) then ops + [op] else ops)
  {
    if Succeeds(blockSize, readable, |t.log|, op) {
      AccessibleOpFits(blockSize, readable, |t.pic.view|, op);
      FlatNext(img, ops, op);
      if Length(op) > 0 {
        WholeRead(blockSize, readable, left, t.pic, Start(op), Length(op));
        if op.WriteOp? {
          var read := AfterRead(blockSize, readable, left, t.pic, op.at, |op.data|);
          WholeWrite(blockSize, readable, left, read, op.at, op.data);
        }
      }
    } else if !OpAccessible(blockSize, readable, op) {
      FailedRead(blockSize, readable, left, t.pic, Start(op), Length(op));
    }
  }

  /** What the device is in a careful run, whatever the medium leaves in the buffer. */
  lemma {:induction false} CarefulIsFlat(blockSize: nat, readable: set<nat>, left: Leftover, t: Trace, ops: seq<Op>)
    requires Seen(blockSize, readable, t.pic) && Fresh(t) && WellFormed(ops)
    requires Careful(blockSize, readable, t.pic.cached, ops)
    ensures IsFlat(Course(blockSize, readable, left, t, ops), t.pic.view, Possible(blockSize, readable, ops))
    decreases |ops|
  {
    if ops != [] {
      var front, op := ops[..|ops| - 1], ops[|ops| - 1];
      assert op in ops;
      CarefulIsFlat(blockSize, readable, left, t, front);
      CoursePosed(blockSize, readable, left, t, front);
      CourseLog(blockSize, readable, left, t, front);
      NextFlat(blockSize, readable, left, Course(blockSize, readable, left, t, front), t.pic.view,
               Possible(blockSize, readable, front), op);
    }
  }

  ghost predicate Fresh(t: Trace) {
    t.pic.shown == t.pic.view && t.log == [] && t.outs == []
  }

  lemma {:induction false} PossibleFits(blockSize: nat, readable: set<nat>, size: nat, ops: seq<Op>)
    requires Blocks(blockSize, readable, size) && WellFormed(ops)
    ensures OpsFit(Possible(blockSize, readable, ops), size)
    decreases |ops|
  {
    if ops != [] {
      var front, op := ops[..|ops| - 1], ops[|ops| - 1];
      assert op in ops;
      PossibleFits(blockSize, readable, size, front);
      if OpAccessible(blockSize, readable, op) {
        AccessibleOpFits(blockSize, readable, size, op);
      }
    }
  }

  /** The reads returned, and the log has, what a flat array of bytes would have given. */
  ghost predicate Faithful(blockSize: nat, readable: set<nat>, left: Leftover, t: Trace, ops: seq<Op>)
    requires Seen(blockSize, readable, t.pic) && WellFormed(ops)
  {
    PossibleFits(blockSize, readable, |t.pic.view|, ops);
    var t', flat := Course(blockSize, readable, left, t, ops), Possible(blockSize, readable, ops);
    t'.outs == FlatRun(t.pic.view, flat).1 && t'.log == FlatLog(t.pic.view, flat)
  }

  lemma CarefulIsFaithful(blockSize: nat, readable: set<nat>, left: Leftover, t: Trace, ops: seq<Op>)
    requires Seen(blockSize, readable, t.pic) && Fresh(t) && WellFormed(ops)
    requires Careful(blockSize, readable, t.pic.cached, ops)
    ensures Faithful(blockSize, readable, left, t, ops)
  {
    PossibleFits(blockSize, readable, |t.pic.view|, ops);
    CarefulIsFlat(blockSize, readable, left, t, ops);
  }

  /** One more operation mends nothing. */
  lemma FaithfulFront(blockSize: nat, readable: set<nat>, left: Leftover, t: Trace, ops: seq<Op>)
    requires Seen(blockSize, readable, t.pic) && Fresh(t) && WellFormed(ops) && ops != []
    requires Faithful(blockSize, readable, left, t, ops)
    ensures Faithful(blockSize, readable, left, t, ops[..|ops| - 1])
  {
    var img, front, op := t.pic.view, ops[..|ops| - 1], ops[|ops| - 1];
    assert op in ops;
    var mid, flat := Course(blockSize, readable, left, t, front), Possible(blockSize, readable, front);
    PossibleFits(blockSize, readable, |img|, front);
    CourseLog(blockSize, readable, left, t, front);
    CourseOuts(blockSize, readable, left, t, front);
    if Succeeds(blockSize, readable, |mid.log|, op) {
      AccessibleOpFits(blockSize, readable, |img|, op);
      FlatNext(img, flat, op);
    }
    Appended(blockSize, readable, left, mid, op);
  }

  /** The log and the outputs only grow. */
  lemma Appended(blockSize: nat, readable: set<nat>, left: Leftover, t: Trace, op: Op)
    requires Seen(blockSize, readable, t.pic) && (op.WriteOp? ==> |op.data| > 0)
    ensures var t' := Next(blockSize, readable, left, t, op);
            |t.log| <= |t'.log| && t'.log[..|t.log|] == t.log && |t.outs| <= |t'.outs| && t'.outs[..|t.outs|] == t.outs
  {
  }

  lemma {:induction false} CourseOuts(blockSize: nat, readable: set<nat>, left: Leftover, t: Trace, ops: seq<Op>)
    requires Seen(blockSize, readable, t.pic) && Fresh(t) && WellFormed(ops)
    ensures OpsFit(Possible(blockSize, readable, ops), |t.pic.view|)
    ensures |Course(blockSize, readable, left, t, ops).outs| == |FlatRun(t.pic.view, Possible(blockSize, readable, ops)).1|
    decreases |ops|
  {
    PossibleFits(blockSize, readable, |t.pic.view|, ops);
    if ops != [] {
      var front, op := ops[..|ops| - 1], ops[|ops| - 1];
      assert op in ops;
      CourseOuts(blockSize, readable, left, t, front);
      CourseLog(blockSize, readable, left, t, front);
      var mid := Course(blockSize, readable, left, t, front);
      LogGrows(blockSize, readable, left, mid, op);
      if Succeeds(blockSize, readable, |mid.log|, op) {
        AccessibleOpFits(blockSize, readable, |t.pic.view|, op);
        FlatNext(t.pic.view, Possible(blockSize, readable, front), op);
      }
    }
  }

  /** For a run that is not careful there is a medium on which it goes wrong. */
  lemma {:induction false} CarelessGoesWrong(blockSize: nat, readable: set<nat>, t: Trace, ops: seq<Op>) returns (left: Leftover)
    requires Seen(blockSize, readable, t.pic) && Fresh(t) && WellFormed(ops)
    requires !Careful(blockSize, readable, t.pic.cached, ops)
    ensures !Faithful(blockSize, readable, left, t, ops)
    decreases |ops|
  {
    var front, op := ops[..|ops| - 1], ops[|ops| - 1];
    assert op in ops;
    if !Careful(blockSize, readable, t.pic.cached, front) {
      left := CarelessGoesWrong(blockSize, readable, t, front);
      if Faithful(blockSize, readable, left, t, ops) {
        FaithfulFront(blockSize, readable, left, t, ops);
      }
    } else {
      PossibleFits(blockSize, readable, |t.pic.view|, front);
      AccessibleOpFits(blockSize, readable, |t.pic.view|, op);
      var right := FlatRun(t.pic.view, Possible(blockSize, readable, front)).0[Start(op)];
      var other: Byte := if right == 0 then 1 else 0;
      left := (_, _) => other;
      FirstWrong(blockSize, readable, left, t, front, op);
    }
  }

  /** The operation that begins in the wrong block returns, or logs, what the medium left there. */
  lemma FirstWrong(blockSize: nat, readable: set<nat>, left: Leftover, t: Trace, front: seq<Op>, op: Op)
    requires Seen(blockSize, readable, t.pic) && Fresh(t) && WellFormed(front + [op])
    requires Careful(blockSize, readable, t.pic.cached, front)
    requires BeginsWrong(blockSize, readable, PoseAfter(blockSize, readable, t.pic.cached, front),
                         Writes(Possible(blockSize, readable, front)), op)
    requires OpsFit(Possible(blockSize, readable, front), |t.pic.view|) && Start(op) < |t.pic.view|
    requires forall i, j :: left(i, j) != FlatRun(t.pic.view, Possible(blockSize, readable, front)).0[Start(op)]
    ensures !Faithful(blockSize, readable, left, t, front + [op])
  {
    var img, flat := t.pic.view, Possible(blockSize, readable, front);
    CourseNext(blockSize, readable, left, t, front, op);
    var mid := Course(blockSize, readable, left, t, front);
    CarefulIsFlat(blockSize, readable, left, t, front);
    CoursePosed(blockSize, readable, left, t, front);
    CourseLog(blockSize, readable, left, t, front);
    AccessibleOpFits(blockSize, readable, |img|, op);
    WrongByte(blockSize, readable, left, PoseAfter(blockSize, readable, t.pic.cached, front), mid, op);
    OtherBytes(blockSize, readable, left, mid, img, flat, op);
  }

  lemma CourseNext(blockSize: nat, readable: set<nat>, left: Leftover, t: Trace, front: seq<Op>, op: Op)
    requires Seen(blockSize, readable, t.pic) && WellFormed(front + [op])
    ensures WellFormed(front) && (op.WriteOp? ==> |op.data| > 0)
    ensures Course(blockSize, readable, left, t, front + [op]) ==
            Next(blockSize, readable, left, Course(blockSize, readable, left, t, front), op)
    ensures Possible(blockSize, readable, front + [op]) ==
            var possible := Possible(blockSize, readable, front);
            if Succeeds(blockSize, readable, Writes(possible), op) then possible + [op] else possible
  {
    var ops := front + [op];
    assert ops[..|ops| - 1] == front && ops[|ops| - 1] == op;
    assert op in ops && forall o :: o in front ==> o in ops;
  }

  lemma WrongByte(blockSize: nat, readable: set<nat>, left: Leftover, p: Pose, t: Trace, op: Op)
    requires Seen(blockSize, readable, t.pic) && Start(op) < |t.pic.view|
    requires Posed(blockSize, left, p, t.pic) && BeginsWrong(blockSize, readable, p, |t.log|, op)
    ensures Base(blockSize, t.pic, Start(op))[Start(op)] == left(t.pic.fails - 1, Start(op) % blockSize)
  {
    SpoiledBase(blockSize, left, t.pic, Start(op), Start(op));
  }

  lemma OtherBytes(blockSize: nat, readable: set<nat>, left: Leftover, t: Trace, img: Image, flat: seq<Op>, op: Op)
    requires Seen(blockSize, readable, t.pic) && IsFlat(t, img, flat) && OpFits(op, |img|)
    requires Length(op) > 0 && Succeeds(blockSize, readable, |t.log|, op)
    requires Base(blockSize, t.pic, Start(op))[Start(op)] != t.pic.view[Start(op)]
    ensures OpsFit(flat + [op], |img|)
    ensures var t' := Next(blockSize, readable, left, t, op);
            !(t'.outs == FlatRun(img, flat + [op]).1 && t'.log == FlatLog(img, flat + [op]))
  {
    FlatNext(img, flat, op);
    AccessibleOpFits(blockSize, readable, |t.pic.view|, op);
    var bytes, found := BytesRead(blockSize, t.pic, Start(op), Length(op)), Under(t.pic.view, op);
    assert bytes[0] != found[0];
    var t' := Next(blockSize, readable, left, t, op);
    if op.ReadOp? {
      assert t'.outs[|t.outs|] == bytes;
      assert FlatRun(img, flat + [op]).1[|t.outs|] == found;
    } else {
      assert t'.log[|t.log|].data == bytes;
      assert FlatLog(img, flat + [op])[|t.log|].data == found;
    }
  }

  /** Whatever the medium leaves in the buffer, the reads return and the log gets what they would with a flat
      array, exactly if the run is careful. */
  lemma FaithfulIffCareful(blockSize: nat, readable: set<nat>, t: Trace, ops: seq<Op>)
    requires Seen(blockSize, readable, t.pic) && Fresh(t) && WellFormed(ops)
    ensures (forall left: Leftover :: Faithful(blockSize, readable, left, t, ops)) <==>
            Careful(blockSize, readable, t.pic.cached, ops)
  {
    if Careful(blockSize, readable, t.pic.cached, ops) {
      forall left: Leftover
        ensures Faithful(blockSize, readable, left, t, ops)
      {
        CarefulIsFaithful(blockSize, readable, left, t, ops);
      }
    } else {
      var left := CarelessGoesWrong(blockSize, readable, t, ops);
    }
  }

  /** A run that is not careful, and cannot be undone: after the read fails, the write logs the residue as what
      it replaces, and puts it into byte 5, which nobody wrote, too. */
  lemma CarelessNotUndone(left: Leftover)
    ensures var img: Image := seq(1024, _ => 0);
            var t := Trace(Picture(img, img, 0, 0), [], []);
            var t' := Course(512, {0}, left, t, [ReadOp(512, 1), WriteOp(0, [1])]);
            && AllFit(t'.log, 1024) && |t'.pic.view| == 1024
            && Apply(Reverse(t'.log), t'.pic.view)[0] == left(0, 0)
            && Apply(Reverse(t'.log), t'.pic.view)[5] == left(0, 5)
  {
    var img: Image := seq(1024, _ => 0);
    var t := Trace(Picture(img, img, 0, 0), [], []);
    TwoBlocks(512, 1);
    TwoBlocks(0, 1);
    assert [ReadOp(512, 1), WriteOp(0, [1])] == [ReadOp(512, 1)] + [WriteOp(0, [1])];
    CourseNext(512, {0}, left, t, [ReadOp(512, 1)], WriteOp(0, [1]));
    assert [ReadOp(512, 1)] == [] + [ReadOp(512, 1)];
    CourseNext(512, {0}, left, t, [], ReadOp(512, 1));
    var mid := Next(512, {0}, left, t, ReadOp(512, 1));
    FailedRead(512, {0}, left, t.pic, 512, 1);
    assert mid.pic == Picture(img, Spoil(img, 512, 0, left, 0), 0, 1);
    var e := LogEntry(0, [left(0, 0)]);
    var end := Next(512, {0}, left, mid, WriteOp(0, [1]));
    assert BytesRead(512, mid.pic, 0, 1) == [left(0, 0)];
    assert end.log == [] + [e];
    ReplayGivesEarliest([e], end.pic.view, 0);
    ReplayGivesEarliest([e], end.pic.view, 5);
    WholeWrite(512, {0}, left, AfterRead(512, {0}, left, mid.pic, 0, 1), 0, [1]);
  }
}
