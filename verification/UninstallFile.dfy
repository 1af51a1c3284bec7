/** The file that carries the undo log from an install to a later uninstall. */
module UninstallFile {
  import opened Machine
  import opened UndoLog
  import opened Medium
  import opened Runs
  import opened BlockDevice
  import opened LittleEndian

  // ---------------------------------------------------------------------------------------------
  // The format
  // ---------------------------------------------------------------------------------------------

  function EncodeEntry(e: LogEntry): Image {
    LeBytes(e.loc, 8) + (LeBytes(|e.data|, 8) + e.data)
  }

  function EncodeEntries(log: seq<LogEntry>): Image
    decreases |log|
  {
    if log == [] then [] else EncodeEntry(log[0]) + EncodeEntries(log[1..])
  }

  /** The number of entries, then each entry's place, length and bytes. */
  function Encode(log: seq<LogEntry>): Image {
    LeBytes(|log|, 8) + EncodeEntries(log)
  }

  /** One entry from the front of `bytes`, and what follows it.  Reading no bytes counts as a failed
      read. */
  function DecodeEntry(bytes: Image): Option<(LogEntry, Image)> {
    if |bytes| < 16 then None
    else
      var loc, count := LeValue(bytes[..8]), LeValue(bytes[8..16]);
      WordsFit(bytes);
      if count == 0 || |bytes| < 16 + count then None
      else Some((LogEntry(loc, bytes[16..16 + count]), bytes[16 + count..]))
  }

  lemma WordsFit(bytes: Image)
    requires |bytes| >= 16
    ensures LeValue(bytes[..8]) < TWO64 && LeValue(bytes[8..16]) < TWO64
  {
    Power256Of8();
    LeValueBounds(bytes[..8]);
    LeValueBounds(bytes[8..16]);
  }

  function DecodeEntries(bytes: Image, n: nat): Option<seq<LogEntry>>
    decreases n
  {
    if n == 0 then Some([])
    else
      match DecodeEntry(bytes)
      case None => None
      case Some((e, rest)) =>
        match DecodeEntries(rest, n - 1)
        case None => None
        case Some(log) => Some([e] + log)
  }

  function Decode(file: Image): Option<seq<LogEntry>> {
    if |file| < 8 then None
    else
      var n := LeValue(file[..8]);
      if n > LOG_MAX then None else DecodeEntries(file[8..], n)
  }

  /** What the writer needs: entries that are not empty, and lengths that fit a word. */
  ghost predicate Storable(log: seq<LogEntry>) {
    |log| <= LOG_MAX && forall e :: e in log ==> 0 < |e.data| < TWO64
  }

  lemma DecodeEncodedEntry(e: LogEntry, rest: Image)
    requires 0 < |e.data| < TWO64
    ensures DecodeEntry(EncodeEntry(e) + rest) == Some((e, rest))
  {
    var bytes := EncodeEntry(e) + rest;
    Power256Of8();
    LeRoundTrip(e.loc, 8);
    LeRoundTrip(|e.data|, 8);
    assert bytes[..8] == LeBytes(e.loc, 8);
    assert bytes[8..16] == LeBytes(|e.data|, 8);
    assert bytes[16..16 + |e.data|] == e.data;
    assert bytes[16 + |e.data|..] == rest;
  }

  lemma {:induction false} DecodeEncodedEntries(log: seq<LogEntry>, rest: Image)
    requires forall e :: e in log ==> 0 < |e.data| < TWO64
    ensures DecodeEntries(EncodeEntries(log) + rest, |log|) == Some(log)
    decreases |log|
  {
    if log != [] {
      var tail := EncodeEntries(log[1..]) + rest;
      assert log[0] in log;
      assert EncodeEntries(log) + rest == EncodeEntry(log[0]) + tail;
      DecodeEncodedEntry(log[0], tail);
      DecodeEncodedEntries(log[1..], rest);
      assert [log[0]] + log[1..] == log;
    }
  }

  /** Loading a stored log gives the same entries in the same order, whatever follows in the file. */
  lemma RoundTrip(log: seq<LogEntry>, rest: Image)
    requires Storable(log)
    ensures Decode(Encode(log) + rest) == Some(log)
  {
    Power256Of8();
    LeRoundTrip(|log|, 8);
    var body := EncodeEntries(log) + rest;
    var file := LeBytes(|log|, 8) + body;
    assert Encode(log) + rest == file;
    assert file[..8] == LeBytes(|log|, 8) && file[8..] == body;
    DecodeEncodedEntries(log, rest);
  }

  lemma DecodedEntryReencodes(bytes: Image)
    requires DecodeEntry(bytes).Some?
    ensures var (e, rest) := DecodeEntry(bytes).value;
            0 < |e.data| < TWO64 && EncodeEntry(e) + rest == bytes
  {
    var (e, rest) := DecodeEntry(bytes).value;
    WordsFit(bytes);
    LeValueBounds(bytes[..8]);
    LeValueBounds(bytes[8..16]);
    Pieces(bytes, |e.data|);
  }

  lemma Pieces(bytes: Image, n: nat)
    requires 16 + n <= |bytes|
    ensures (bytes[..8] + (bytes[8..16] + bytes[16..16 + n])) + bytes[16 + n..] == bytes
  {
  }

  lemma {:induction false} DecodedEntriesReencode(bytes: Image, n: nat)
    requires DecodeEntries(bytes, n).Some?
    ensures var log := DecodeEntries(bytes, n).value;
            && |log| == n
            && (forall e :: e in log ==> 0 < |e.data| < TWO64)
            && EncodeEntries(log) <= bytes
    decreases n
  {
    if n > 0 {
      var (e, rest) := DecodeEntry(bytes).value;
      DecodedEntryReencodes(bytes);
      DecodedEntriesReencode(rest, n - 1);
      var log := DecodeEntries(rest, n - 1).value;
      assert ([e] + log)[1..] == log;
      assert EncodeEntries([e] + log) == EncodeEntry(e) + EncodeEntries(log);
    }
  }

  /** A file that loads is the encoding of what it loads, perhaps followed by more. */
  lemma DecodedReencodes(file: Image)
    requires Decode(file).Some?
    ensures Storable(Decode(file).value)
    ensures Encode(Decode(file).value) <= file
  {
    LeValueBounds(file[..8]);
    DecodedEntriesReencode(file[8..], LeValue(file[..8]));
    assert file == file[..8] + file[8..];
  }

  /** A file loads as a log exactly if it begins with the encoding of that, and that has at most 256 entries, none
      of them empty. */
  lemma LoadsIff(file: Image, log: seq<LogEntry>)
    ensures Decode(file) == Some(log) <==>
            |log| <= 256 && (forall e :: e in log ==> 0 < |e.data| < TWO64) && Encode(log) <= file
  {
    if Decode(file) == Some(log) {
      DecodedReencodes(file);
    }
    if |log| <= 256 && (forall e :: e in log ==> 0 < |e.data| < TWO64) && Encode(log) <= file {
      RoundTrip(log, file[|Encode(log)|..]);
      assert Encode(log) + file[|Encode(log)|..] == file;
    }
  }

  /** Where entry `i` starts in the file: behind the count, and 16 bytes and its data for each before it. */
  function Place(log: seq<LogEntry>, i: nat): nat
    requires i <= |log|
  {
    if i == 0 then 8 else Place(log, i - 1) + 16 + |log[i - 1].data|
  }

  lemma {:induction false} PlaceIsLength(log: seq<LogEntry>, i: nat)
    requires i <= |log|
    ensures Place(log, i) == 8 + |EncodeEntries(log[..i])|
    decreases i
  {
    if i > 0 {
      PlaceIsLength(log, i - 1);
      EncodeNext(log, i - 1);
    }
  }

  lemma {:induction false} EncodeCut(log: seq<LogEntry>, i: nat)
    requires i <= |log|
    ensures EncodeEntries(log) == EncodeEntries(log[..i]) + EncodeEntries(log[i..])
    decreases |log| - i
  {
    if i == |log| {
      assert log[..i] == log;
    } else {
      EncodeCut(log, i + 1);
      EncodeNext(log, i);
      assert log[i..][0] == log[i] && log[i..][1..] == log[i + 1..];
      Join(EncodeEntries(log[..i]), EncodeEntry(log[i]), EncodeEntries(log[i + 1..]));
    }
  }

  /** The layout of the file: the number of entries in 8 bytes; then for each entry its place in 8 bytes, its length
      in 8 bytes, and its bytes. */
  lemma StoredLayout(log: seq<LogEntry>, i: nat)
    requires i < |log|
    ensures var file, at, n := Encode(log), Place(log, i), |log[i].data|;
            && at + 16 + n <= |file|
            && file[..8] == LeBytes(|log|, 8)
            && file[at..at + 8] == LeBytes(log[i].loc, 8)
            && file[at + 8..at + 16] == LeBytes(n, 8)
            && file[at + 16..at + 16 + n] == log[i].data
  {
    var e := log[i];
    EntryInFile(log, i);
    Fields(Encode(log), Place(log, i), LeBytes(e.loc, 8), LeBytes(|e.data|, 8), e.data);
  }

  lemma EntryInFile(log: seq<LogEntry>, i: nat)
    requires i < |log|
    ensures var at, entry := Place(log, i), EncodeEntry(log[i]);
            at + |entry| <= |Encode(log)| && Encode(log)[at..at + |entry|] == entry
  {
    PlaceIsLength(log, i);
    EncodeNext(log, i);
    EncodeCut(log, i + 1);
    Middle(Encode(log), LeBytes(|log|, 8), EncodeEntries(log[..i]), EncodeEntry(log[i]), EncodeEntries(log[i + 1..]));
  }

  lemma Middle(file: Image, a: Image, b: Image, c: Image, d: Image)
    requires file == a + ((b + c) + d)
    ensures |a| + |b| + |c| <= |file| && file[|a| + |b|..|a| + |b| + |c|] == c
  {
  }

  lemma Fields(file: Image, at: nat, a: Image, b: Image, c: Image)
    requires at + |a + (b + c)| <= |file| && file[at..at + |a + (b + c)|] == a + (b + c) && |a| == |b| == 8
    ensures at + 16 + |c| <= |file| && file[at..at + 8] == a && file[at + 8..at + 16] == b && file[at + 16..at + 16 + |c|] == c
  {
    var entry := a + (b + c);
    assert entry[0..8] == a && entry[8..16] == b && entry[16..16 + |c|] == c;
    SliceOfSlice(file, at, |entry|, 0, 8);
    SliceOfSlice(file, at, |entry|, 8, 16);
    SliceOfSlice(file, at, |entry|, 16, 16 + |c|);
  }

  // ---------------------------------------------------------------------------------------------
  // Storing and loading
  // ---------------------------------------------------------------------------------------------

  lemma {:induction false} EncodeAppend(log: seq<LogEntry>, e: LogEntry)
    ensures EncodeEntries(log + [e]) == EncodeEntries(log) + EncodeEntry(e)
    decreases |log|
  {
    if log == [] {
      assert log + [e] == [e] && [e][1..] == [];
    } else {
      EncodeAppend(log[1..], e);
      assert (log + [e])[1..] == log[1..] + [e];
      Join(EncodeEntry(log[0]), EncodeEntries(log[1..]), EncodeEntry(e));
    }
  }

  /** `store_uninstall_data`: fails on an empty entry, because writing no bytes counts as a failed
      write. */
  method Store(d: Device) returns (ok: bool, file: Image)
    requires d.Valid()
    ensures ok <==> forall e :: e in d.Log() ==> |e.data| > 0
    ensures ok ==> file == Encode(d.Log())
  {
    ghost var log := d.Log();
    file := LeBytes(d.logCount, 8);
    var i := 0;
    while i < d.logCount
      invariant 0 <= i <= d.logCount == |log|
      invariant file == LeBytes(|log|, 8) + EncodeEntries(log[..i])
      invariant forall k :: 0 <= k < i ==> |log[k].data| > 0
    {
      var e := d.log[i];
      assert e == log[i];
      EncodeNext(log, i);
      ghost var before := file;
      file := file + LeBytes(e.loc, 8);
      file := file + LeBytes(|e.data|, 8);
      if |e.data| == 0 {
        assert e in log;
        return false, file;
      }
      file := file + e.data;
      ThreeWrites(before, LeBytes(e.loc, 8), LeBytes(|e.data|, 8), e.data);
      Join(LeBytes(|log|, 8), EncodeEntries(log[..i]), EncodeEntry(e));
      i := i + 1;
    }
    assert log[..i] == log;
    return true, file;
  }

  lemma EncodeNext(log: seq<LogEntry>, i: nat)
    requires i < |log|
    ensures EncodeEntries(log[..i + 1]) == EncodeEntries(log[..i]) + EncodeEntry(log[i])
  {
    assert log[..i + 1] == log[..i] + [log[i]];
    EncodeAppend(log[..i], log[i]);
  }

  lemma ThreeWrites(file: Image, a: Image, b: Image, c: Image)
    ensures file + a + b + c == file + (a + (b + c))
  {
  }

  lemma Join(a: Image, b: Image, c: Image)
    ensures a + b + c == a + (b + c)
  {
  }

  /** Loading: `got` has been read, `left` entries remain to be read from `rest`. */
  ghost predicate Loading(file: Image, got: seq<LogEntry>, rest: Image, left: nat) {
    match DecodeEntries(rest, left)
    case None => Decode(file) == None
    case Some(log) => Decode(file) == Some(got + log)
  }

  lemma LoadingNext(file: Image, got: seq<LogEntry>, rest: Image, left: nat)
    requires left > 0 && Loading(file, got, rest, left)
    ensures DecodeEntry(rest).None? ==> Decode(file) == None
    ensures DecodeEntry(rest).Some? ==>
              Loading(file, got + [DecodeEntry(rest).value.0], DecodeEntry(rest).value.1, left - 1)
  {
    if DecodeEntry(rest).Some? {
      var (e, rest') := DecodeEntry(rest).value;
      if DecodeEntries(rest', left - 1).Some? {
        assert got + ([e] + DecodeEntries(rest', left - 1).value) == got + [e] + DecodeEntries(rest', left - 1).value;
      }
    }
  }

  /** One entry read: its place, its length, its bytes. */
  method LoadEntry(bytes: Image) returns (r: Option<(LogEntry, Image)>)
    ensures r == DecodeEntry(bytes)
  {
    if |bytes| < 16 {
      return None;
    }
    var loc, count := LeValue(bytes[..8]), LeValue(bytes[8..16]);
    WordsFit(bytes);
    if count == 0 || |bytes| < 16 + count {
      return None;
    }
    return Some((LogEntry(loc, bytes[16..16 + count]), bytes[16 + count..]));
  }

  /** `load_uninstall_data`. */
  method Load(d: Device, file: Image) returns (ok: bool)
    requires d.Valid()
    modifies d`logCount, d.log
    ensures d.Valid()
    ensures ok <==> Decode(file).Some?
    ensures ok ==> d.Log() == Decode(file).value
  {
    if |file| < 8 {
      return false;
    }
    var n := LeValue(file[..8]);
    if n > LOG_MAX {
      return false;
    }
    d.logCount := n;
    var rest := file[8..];
    assert Loading(file, [], rest, n) by {
      if DecodeEntries(rest, n).Some? {
        assert [] + DecodeEntries(rest, n).value == DecodeEntries(rest, n).value;
      }
    }
    var i := 0;
    assert d.log[..0] == [];
    while i < n
      invariant 0 <= i <= n == d.logCount && d.Valid()
      invariant Loading(file, d.log[..i], rest, n - i)
    {
      ghost var got := d.log[..i];
      LoadingNext(file, got, rest, n - i);
      var r := LoadEntry(rest);
      match r {
        case None =>
          return false;
        case Some((e, rest')) =>
          d.log[i] := e;
          assert d.log[..i + 1] == got + [e];
          rest := rest';
      }
      i := i + 1;
    }
    return true;
  }

  // ---------------------------------------------------------------------------------------------
  // Uninstalling in another process
  // ---------------------------------------------------------------------------------------------

  /** The file, loaded, is a log that can be written back and turns `img` into `orig`. */
  ghost predicate Undoes(blockSize: nat, readable: set<nat>, img: Image, file: Image, orig: Image)
    requires blockSize > 0
  {
    && Decode(file).Some?
    && var log := Decode(file).value;
       && (forall e :: e in log ==> |e.data| > 0 && InReadable(blockSize, readable, e.loc, |e.data|))
       && AllFit(log, |img|) && Apply(log, img) == orig
  }

  /** `--uninstall` with a file from an earlier install. */
  method UninstallFrom(image: Image, blockSize: nat, readable: set<nat>, leftover: Leftover,
                       file: Image, ghost orig: Image) returns (restored: bool, image': Image)
    requires Blocks(blockSize, readable, |image|) && 0 in readable
    requires Undoes(blockSize, readable, image, file, orig)
    ensures restored && image' == orig
  {
    var d := new Device(image, blockSize, readable, leftover);
    var loaded := Load(d, file);
    assert d.Accessible(d.Log());
    restored := d.Uninstall();
    return restored, d.disk;
  }

  /** The log of a finished run, reversed and stored, undoes the run. */
  method StoreLog(d: Device, ghost log: seq<LogEntry>, ghost orig: Image) returns (file: Image)
    requires d.Valid() && d.Accessible(log) && d.Log() == Reverse(log) && Recoverable(orig, log, d.disk)
    ensures Undoes(d.blockSize, d.readable, d.disk, file, orig)
    ensures Decode(file) == Some(Reverse(log))
  {
    var stored;
    stored, file := Store(d);
    assert stored;
    FileOfLog(d, log);
    assert file + [] == file;
    RecoverableRestores(orig, log, d.disk);
  }

  lemma FileOfLog(d: Device, log: seq<LogEntry>)
    requires d.Valid() && d.Accessible(log) && d.Log() == Reverse(log)
    ensures Storable(d.Log())
    ensures Decode(Encode(d.Log()) + []) == Some(d.Log())
  {
    forall e | e in log
      ensures |e.data| < TWO64
    {
      d.AccessibleFits(e);
    }
    RoundTrip(d.Log(), []);
  }

  /** Ends a run that succeeded: the cache is written out, the log reversed and stored. */
  method Finish(d: Device, ghost orig: Image) returns (file: Image)
    requires Restorable(d, orig) && d.Coherent() && Recoverable(orig, d.Log(), d.View())
    modifies d`disk, d`cacheState, d.log, d.logReversed
    ensures d.disk == old(d.View())
    ensures Undoes(d.blockSize, d.readable, d.disk, file, orig) && |Decode(file).value| == |old(d.Log())|
  {
    ghost var log := d.Log();
    var flushed := d.FlushCache();
    d.ReverseLog();
    file := StoreLog(d, log, orig);
  }

  /** Uninstall in a later process: any run that succeeded, and then another process that loads the
      file and uninstalls on the untouched result.  The disk is what it was before the run. */
  method UninstallLater(d: Device, ops: seq<Op>, leftover: Leftover) returns (ok: bool, image: Image)
    requires d.Valid() && d.Coherent() && d.View() == d.disk && d.Log() == [] && !d.uninstalling
    requires 0 in d.readable
    requires forall op :: op in ops && op.WriteOp? ==> |op.data| > 0
    modifies d, d.cache, d.log, d.logReversed
    ensures (forall op :: op in ops ==> OpAccessible(d.blockSize, d.readable, op)) && Writes(ops) <= LOG_MAX ==> ok
    ensures ok ==> image == old(d.disk)
  {
    ghost var orig := d.disk;
    var outs;
    ghost var n;
    ok, outs, n := Session(d, ops);
    if !ok {
      WritesMonotone(ops, n + 1);
      assert ops[..n + 1][..n] == ops[..n] && ops[n] in ops;
      return false, [];
    }
    var file := Finish(d, orig);
    ok, image := UninstallFrom(d.disk, d.blockSize, d.readable, leftover, file, orig);
  }
}
