/** Finding the GUID partition table, and turning that of an ISOHYBRID image into a legacy one. */
module Conversion {
  import opened Machine
  import opened UndoLog
  import opened LittleEndian
  import opened Medium
  import opened FlatDisk
  import opened Volume
  import opened InstallerSteps

  // ---------------------------------------------------------------------------------------------
  // Probing
  // ---------------------------------------------------------------------------------------------

  predicate GptAt(img: Image, at: nat) {
    at + GPT_HEADER_SIZE <= |img| && IsGpt(img[at..at + GPT_HEADER_SIZE])
  }

  function HeaderAt(img: Image, at: nat): GptHeader
    requires GptAt(img, at)
  {
    HeaderOf(img[at..at + GPT_HEADER_SIZE])
  }

  /** The size of a logical block, told by where the header of the partition table is; 0 if there is
      no such table. */
  function LogicalBlock(img: Image): (lb: nat)
    ensures lb in {0, 512, 4096}
    ensures lb > 0 ==> GptAt(img, lb)
    ensures lb == 512 <==> GptAt(img, 512)
    ensures lb == 4096 <==> !GptAt(img, 512) && GptAt(img, 4096)
  {
    if GptAt(img, 512) then 512 else if GptAt(img, 4096) then 4096 else 0
  }

  method ProbeGpt(f: Disk) returns (err: bool, lb: nat, header: Option<GptHeader>)
    requires f.Running()
    modifies f`done, f`outs, f`failed
    ensures f.Valid() && (err <==> f.failed.Some?)
    ensures f.Whole() && 4096 + GPT_HEADER_SIZE <= |f.orig| ==> !err
    ensures !err ==> lb == LogicalBlock(f.image)
    ensures !err ==> header == if lb == 0 then None else Some(HeaderAt(f.image, lb))
  {
    var guesses := [512, 4096];
    lb, header := 0, None;
    var i := 0;
    while i < |guesses|
      invariant 0 <= i <= |guesses| && f.Running()
      invariant lb == 0 && header == None
      invariant forall k :: 0 <= k < i ==> !GptAt(f.image, guesses[k])
    {
      var read, bytes := f.Read(guesses[i], GPT_HEADER_SIZE);
      if !read {
        return true, 0, None;
      }
      if IsGpt(bytes) {
        assert guesses[0] == 512 && guesses[1] == 4096;
        return false, guesses[i], Some(HeaderOf(bytes));
      }
      i := i + 1;
    }
    assert guesses[0] == 512 && guesses[1] == 4096;
    return false, 0, None;
  }

  /** What the installer asks of a partition table before it goes on: entries of at least the
      standard size, and a second header where the first says it is. */
  predicate Sound(img: Image, lb: nat, header: GptHeader) {
    && header.entrySize >= GPT_ENTRY_SIZE
    && lb * header.alternateLba < TWO64
    && GptAt(img, lb * header.alternateLba)
  }

  method CheckSecondary(f: Disk, lb: nat, header: GptHeader) returns (fail: bool)
    requires f.Running() && lb < TWO64
    modifies f`done, f`outs, f`failed
    ensures f.Valid() && (f.failed.Some? ==> fail)
    ensures f.failed == None || f.Whole() ==> (fail <==> !Sound(f.image, lb, header))
  {
    if header.entrySize < GPT_ENTRY_SIZE {
      return true;
    }
    OverflowChecksExact(lb, header.alternateLba);
    var (loc, overflow) := MulOverflow(lb, header.alternateLba);
    if overflow {
      return true;
    }
    var read, bytes := f.Read(loc, GPT_HEADER_SIZE);
    return !read || !IsGpt(bytes);
  }

  // ---------------------------------------------------------------------------------------------
  // Gathering the partitions
  // ---------------------------------------------------------------------------------------------

  /** "CD001", where an ISO 9660 image has it. */
  const ISO: Image := [0x43, 0x44, 0x30, 0x30, 0x31]
  const ISO_AT: int := 32769

  ghost predicate AllConvertible(es: seq<GptEntry>)
    requires forall e :: e in es ==> |e.typeGuid| == 16
  {
    forall e :: e in es ==> Convertible(e)
  }

  /** The table can be converted: all entries can be addressed, at most four are in use, and each
      of those has a legacy type and fits 32-bit numbers. */
  ghost predicate CanConvert(img: Image, base: nat, size: nat, n: nat) {
    && EntriesInside(img, base, size, n)
    && |UsedEntries(img, base, size, n)| <= 4
    && AllConvertible(UsedEntries(img, base, size, n))
  }

  function Parts(es: seq<GptEntry>): (ps: seq<Part>)
    requires forall e :: e in es ==> |e.typeGuid| == 16 && Convertible(e)
    ensures |ps| == |es| && forall i :: 0 <= i < |es| ==> ps[i] == PartOf(es[i])
  {
    seq(|es|, i requires 0 <= i < |es| => PartOf(es[i]))
  }

  /** More entries make a table no easier to convert. */
  lemma {:induction false} CanConvertPrefix(img: Image, base: nat, size: nat, k: nat, n: nat)
    requires k <= n && CanConvert(img, base, size, n)
    ensures CanConvert(img, base, size, k)
    decreases n
  {
    if k < n {
      var used := UsedEntries(img, base, size, n - 1);
      assert used <= UsedEntries(img, base, size, n);
      CanConvertPrefix(img, base, size, k, n - 1);
    }
  }

  lemma UsedNext(img: Image, base: nat, size: nat, i: nat)
    requires EntriesInside(img, base, size, i) && base + i * size + GPT_ENTRY_SIZE <= |img|
    ensures EntriesInside(img, base, size, i + 1)
    ensures UsedEntries(img, base, size, i + 1) ==
            UsedEntries(img, base, size, i) + (var e := EntryAt(img, base + i * size); if e.unused then [] else [e])
  {
    assert i + 1 - 1 == i;
  }

  lemma OneMore(used: seq<GptEntry>, e: GptEntry)
    requires (forall x :: x in used ==> |x.typeGuid| == 16) && |e.typeGuid| == 16
    ensures AllConvertible(used + [e]) <==> AllConvertible(used) && Convertible(e)
    ensures AllConvertible(used + [e]) ==> Parts(used + [e]) == Parts(used) + [PartOf(e)]
  {
    assert e in used + [e];
    assert forall x :: x in used + [e] ==> x in used || x == e;
    assert forall x :: x in used ==> x in used + [e];
  }

  /** The step from `i` to `i + 1` entries. */
  lemma GatherStep(img: Image, base: nat, size: nat, i: nat)
    requires CanConvert(img, base, size, i) && base + i * size + GPT_ENTRY_SIZE <= |img|
    ensures var e := EntryAt(img, base + i * size);
            var used := UsedEntries(img, base, size, i);
            && EntriesInside(img, base, size, i + 1)
            && UsedEntries(img, base, size, i + 1) == used + (if e.unused then [] else [e])
            && (CanConvert(img, base, size, i + 1) <==> e.unused || (|used| < 4 && Convertible(e)))
            && (CanConvert(img, base, size, i + 1) && !e.unused ==> Parts(used + [e]) == Parts(used) + [PartOf(e)])
  {
    UsedNext(img, base, size, i);
    var e := EntryAt(img, base + i * size);
    var used := UsedEntries(img, base, size, i);
    OneMore(used, e);
    assert used + [] == used;
  }

  /** An entry in use must be convertible and find room among four. */
  predicate CanContinue(e: GptEntry, gathered: nat)
    requires |e.typeGuid| == 16
  {
    e.unused || (gathered < 4 && Convertible(e))
  }

  lemma NotPrefix(img: Image, base: nat, size: nat, k: nat, n: nat)
    requires k <= n && !CanConvert(img, base, size, k)
    ensures !CanConvert(img, base, size, n)
  {
    if CanConvert(img, base, size, n) {
      CanConvertPrefix(img, base, size, k, n);
    }
  }

  /** The offset of an entry does not wrap; if its place does, the table is not in the image. */
  lemma EntryOffset(img: Image, base: Word, size: nat, i: nat)
    requires i < LIMIT32 && size < LIMIT32
    ensures 0 <= i * size < TWO64
    ensures AddOverflow(base, i * size).1 <==> base + i * size >= TWO64
    ensures !AddOverflow(base, i * size).1 ==> AddOverflow(base, i * size).0 == base + i * size
    ensures base + i * size + GPT_ENTRY_SIZE > |img| ==> !CanConvert(img, base, size, i + 1)
  {
    MulMonotone(i, LIMIT32, size);
    assert LIMIT32 * size <= LIMIT32 * LIMIT32;
  }

  /** One more entry, with `parts` gathered from those before. */
  method GatherOne(f: Disk, base: Word, header: GptHeader, i: nat, parts: seq<Part>)
    returns (err: bool, ok: bool, more: seq<Part>)
    requires f.Running() && i < header.entryCount < LIMIT32 && header.entrySize < LIMIT32
    requires CanConvert(f.image, base, header.entrySize, i)
    requires parts == Parts(UsedEntries(f.image, base, header.entrySize, i))
    modifies f`done, f`outs, f`failed
    ensures f.Valid() && (err <==> f.failed.Some?)
    ensures f.Whole() && base + i * header.entrySize + GPT_ENTRY_SIZE <= |f.orig| ==> !err
    ensures !err ==> (ok <==> CanConvert(f.image, base, header.entrySize, i + 1))
    ensures !err && ok ==> more == Parts(UsedEntries(f.image, base, header.entrySize, i + 1))
  {
    var size := header.entrySize;
    EntryOffset(f.image, base, size, i);
    var entryOffset: Word := i * size;
    var (loc, overflow) := AddOverflow(base, entryOffset);
    if overflow {
      return false, false, [];
    }
    var read, bytes := f.Read(loc, GPT_ENTRY_SIZE);
    if !read {
      return true, false, [];
    }
    var e := EntryOf(bytes);
    GatherStep(f.image, base, size, i);
    if !CanContinue(e, |parts|) {
      return false, false, [];
    }
    return false, true, if e.unused then parts else parts + [PartOf(e)];
  }

  lemma {:induction false} EntryInside(img: Image, base: nat, size: nat, i: nat, n: nat)
    requires i < n
    ensures EntriesInside(img, base, size, n) ==> base + i * size + GPT_ENTRY_SIZE <= |img|
    decreases n
  {
    if i < n - 1 {
      EntryInside(img, base, size, i, n - 1);
    }
  }

  /** Gathers what is to be converted.  Unless a read fails, it succeeds exactly for a table that can
      be converted, and then has its used entries in order. */
  method Gather(f: Disk, base: Word, header: GptHeader) returns (err: bool, ok: bool, parts: seq<Part>)
    requires f.Running() && header.entryCount < LIMIT32 && header.entrySize < LIMIT32
    modifies f`done, f`outs, f`failed
    ensures f.Valid() && (err <==> f.failed.Some?)
    ensures f.Whole() && EntriesInside(f.image, base, header.entrySize, header.entryCount) ==> !err
    ensures !err ==> (ok <==> CanConvert(f.image, base, header.entrySize, header.entryCount))
    ensures !err && ok ==> parts == Parts(UsedEntries(f.image, base, header.entrySize, header.entryCount))
  {
    ghost var img := f.image;
    parts := [];
    var i := 0;
    while i < header.entryCount
      invariant 0 <= i <= header.entryCount && f.Running()
      invariant CanConvert(img, base, header.entrySize, i)
      invariant parts == Parts(UsedEntries(img, base, header.entrySize, i))
    {
      EntryInside(img, base, header.entrySize, i, header.entryCount);
      err, ok, parts := GatherOne(f, base, header, i, parts);
      if err || !ok {
        if !err {
          NotPrefix(img, base, header.entrySize, i + 1, header.entryCount);
        }
        return;
      }
      i := i + 1;
    }
    return false, true, parts;
  }

  // ---------------------------------------------------------------------------------------------
  // Wiping the old tables
  // ---------------------------------------------------------------------------------------------

  /** The bytes in [lo, hi) are zero, the others are what they were. */
  ghost predicate Zeroed(img: Image, img': Image, lo: int, hi: int) {
    && |img'| == |img|
    && (forall x :: 0 <= x < |img| ==> img'[x] == if lo <= x < hi then 0 else img[x])
  }

  /** Block `i` of a disk with logical blocks of `lb` bytes starts at `i * lb`. */
  lemma BlockAt(lb: nat, i: nat)
    ensures BlockStart(lb, i) == i * lb == lb * i
    ensures BlockStart(lb, i + 1) == BlockStart(lb, i) + lb
  {
    BlockStartIsProduct(lb, i);
  }

  method NukePrimary(f: Disk, lb: nat) returns (err: bool)
    requires f.Running() && lb in {512, 4096}
    modifies f
    ensures f.Valid() && (err <==> f.failed.Some?) && f.writes <= old(f.writes) + 34
    ensures f.Whole() && 34 * lb <= |f.orig| ==> !err
    ensures !err ==> Zeroed(old(f.image), f.image, 0, 34 * lb) && 34 * lb <= |f.image|
  {
    var i := 0;
    while i < 34
      invariant 0 <= i <= 34 && f.Running() && f.writes <= old(f.writes) + i
      invariant Zeroed(old(f.image), f.image, 0, BlockStart(lb, i)) && BlockStart(lb, i) <= |f.image|
    {
      BlockAt(lb, i);
      var written := f.Write(i * lb, Zeros(lb));
      if !written {
        return true;
      }
      i := i + 1;
    }
    BlockAt(lb, 34);
    return false;
  }

  /** The 33 blocks that end with the second header; a place that cannot be addressed is an error. */
  method NukeSecondary(f: Disk, lb: nat, altLba: Word) returns (fail: bool)
    requires f.Running() && lb in {512, 4096} && altLba >= 32
    modifies f
    ensures f.Valid() && (f.failed.Some? ==> fail) && f.writes <= old(f.writes) + 33
    ensures fail && f.failed == None ==> lb * altLba >= TWO64
    ensures f.Whole() && (altLba + 1) * lb <= |f.orig| ==> f.failed == None
    ensures !fail ==> Zeroed(old(f.image), f.image, (altLba - 32) * lb, (altLba + 1) * lb)
  {
    ghost var first := BlockStart(lb, altLba - 32);
    BlockAt(lb, altLba - 32);
    var i := 0;
    while i < 33
      invariant 0 <= i <= 33 && f.Running() && f.writes <= old(f.writes) + i
      invariant BlockStart(lb, altLba - 32 + i) >= first
      invariant Zeroed(old(f.image), f.image, first, BlockStart(lb, altLba - 32 + i))
    {
      fail := NukeBlock(f, lb, altLba, altLba - 32 + i);
      if fail {
        return;
      }
      i := i + 1;
    }
    BlockAt(lb, altLba + 1);
    return false;
  }

  /** One of these blocks. */
  method NukeBlock(f: Disk, lb: nat, altLba: Word, block: Word) returns (fail: bool)
    requires f.Running() && lb in {512, 4096} && block <= altLba
    modifies f
    ensures f.Valid() && (f.failed.Some? ==> fail) && f.writes <= old(f.writes) + 1
    ensures fail && f.failed == None ==> lb * altLba >= TWO64
    ensures f.Whole() && (altLba + 1) * lb <= |f.orig| ==> f.failed == None
    ensures BlockStart(lb, block + 1) == BlockStart(lb, block) + lb
    ensures !fail ==> Zeroed(old(f.image), f.image, BlockStart(lb, block), BlockStart(lb, block + 1))
  {
    OverflowChecksExact(block, lb);
    BlockAt(lb, block);
    MulMonotone(block, altLba, lb);
    assert altLba * lb == lb * altLba;
    var (loc, overflow) := MulOverflow(block, lb);
    if overflow {
      return true;
    }
    var written := f.Write(loc, Zeros(lb));
    return !written;
  }

  // ---------------------------------------------------------------------------------------------
  // Writing the new table
  // ---------------------------------------------------------------------------------------------

  /** The disk identifier, byte by byte; the bytes come from outside. */
  method WriteId(f: Disk, id: Image) returns (err: bool)
    requires f.Running() && |id| == 4
    modifies f
    ensures f.Valid() && (err <==> f.failed.Some?) && f.writes <= old(f.writes) + 4
    ensures f.Whole() && 512 <= |f.orig| ==> !err
    ensures !err ==> 444 <= |f.image| && f.image == Patch(old(f.image), 440, id)
  {
    var i := 0;
    while i < 4
      invariant 0 <= i <= 4 && f.Running() && f.writes <= old(f.writes) + i
      invariant i > 0 ==> 440 + i <= |f.image| && f.image == Patch(old(f.image), 440, id[..i])
      invariant i == 0 ==> f.image == old(f.image)
    {
      var written := f.Write(440 + i, [id[i]]);
      if !written {
        return true;
      }
      i := i + 1;
    }
    assert id[..4] == id;
    return false;
  }

  /** Two writes next to each other are one. */
  lemma Adjacent(img: Image, at: nat, a: Image, b: Image)
    requires at + |a| + |b| <= |img|
    ensures Patch(Patch(img, at, a), at + |a|, b) == Patch(img, at, a + b)
    ensures Patch(Patch(img, at + |a|, b), at, a) == Patch(img, at, a + b)
  {
  }

  /** Writes to separate places can be swapped. */
  lemma Swap(img: Image, at: nat, a: Image, bt: nat, b: Image)
    requires at + |a| <= bt && bt + |b| <= |img|
    ensures Patch(Patch(img, bt, b), at, a) == Patch(Patch(img, at, a), bt, b)
  {
  }

  /** The fields of an entry, in the order in which they are written. */
  lemma EntryFields(img: Image, at: nat, kind: Image, start: Image, count: Image, first: Image, last: Image)
    requires at + 16 <= |img| && |kind| == 1 && |start| == |count| == 4 && |first| == |last| == 3
    ensures Patch(Patch(Patch(Patch(Patch(img, at + 4, kind), at + 8, start), at + 12, count), at + 1, first), at + 5, last)
            == Patch(img, at, [img[at]] + first + kind + last + start + count)
  {
    Adjacent(Patch(img, at + 4, kind), at + 8, start, count);
    Swap(Patch(img, at + 4, kind), at + 1, first, at + 8, start + count);
    Adjacent(img, at + 1, first, kind);
    Swap(Patch(img, at + 1, first + kind), at + 5, last, at + 8, start + count);
    Adjacent(img, at + 1, first + kind, last);
    Adjacent(img, at + 1, first + kind + last, start + count);
    Adjacent(img, at, [img[at]], first + kind + last + (start + count));
    assert Patch(img, at, [img[at]]) == img;
    assert [img[at]] + (first + kind + last + (start + count)) == [img[at]] + first + kind + last + start + count;
  }

  /** One slot gets its entry; its status byte stays. */
  method WriteEntry(f: Disk, k: nat, p: Part) returns (err: bool)
    requires f.Running() && k < 4 && PartOk(p)
    modifies f
    ensures f.Valid() && (err <==> f.failed.Some?) && f.writes <= old(f.writes) + 5
    ensures f.Whole() && 512 <= |f.orig| ==> !err
    ensures !err ==> |old(f.image)| >= 512
    ensures !err ==> f.image == Patch(old(f.image), Slot(k), EntryBytes(old(f.image)[Slot(k)], p))
  {
    ghost var img := f.image;
    err := WriteNumbers(f, k, p);
    if err { return; }
    ghost var numbers := f.image;
    var written := f.Write(Slot(k) + 1, Chs.Encode(p.start));
    if !written { return true; }
    written := f.Write(Slot(k) + 5, Chs.Encode(p.end));
    if !written { return true; }
    FieldsWritten(img, numbers, f.image, k, p);
    return false;
  }

  lemma FieldsWritten(img: Image, numbers: Image, img': Image, k: nat, p: Part)
    requires |img| >= 512 && k < 4 && PartOk(p)
    requires numbers == Patch(Patch(Patch(img, Slot(k) + 4, [p.kind]), Slot(k) + 8, LeBytes(p.start, 4)),
                              Slot(k) + 12, LeBytes(p.count, 4))
    requires img' == Patch(Patch(numbers, Slot(k) + 1, Chs.Encode(p.start)), Slot(k) + 5, Chs.Encode(p.end))
    ensures img' == Patch(img, Slot(k), EntryBytes(img[Slot(k)], p))
  {
    EntryFields(img, Slot(k), [p.kind], LeBytes(p.start, 4), LeBytes(p.count, 4), Chs.Encode(p.start), Chs.Encode(p.end));
  }

  /** The first three of its fields. */
  method WriteNumbers(f: Disk, k: nat, p: Part) returns (err: bool)
    requires f.Running() && k < 4 && PartOk(p)
    modifies f
    ensures f.Valid() && (err <==> f.failed.Some?) && f.writes <= old(f.writes) + 3
    ensures f.Whole() && 512 <= |f.orig| ==> !err
    ensures !err ==> |old(f.image)| >= 512
    ensures !err ==> f.image == Patch(Patch(Patch(old(f.image), Slot(k) + 4, [p.kind]), Slot(k) + 8, LeBytes(p.start, 4)),
                                      Slot(k) + 12, LeBytes(p.count, 4))
  {
    var written := f.Write(Slot(k) + 4, [p.kind]);
    if !written { return true; }
    written := f.Write(Slot(k) + 8, LeBytes(p.start, 4));
    if !written { return true; }
    written := f.Write(Slot(k) + 12, LeBytes(p.count, 4));
    return !written;
  }

  /** What slot `k` holds: an entry, or nothing but its status. */
  function SlotBytes(status: Byte, parts: seq<Part>, k: nat): (bs: Image)
    requires forall p :: p in parts ==> PartOk(p)
    ensures |bs| == 16 && bs[0] == status
  {
    if k < |parts| then EntryBytes(status, parts[k]) else [status] + Zeros(15)
  }

  /** The legacy table holds these partitions, in this order; `status` is that of the first slot,
      the others are not active. */
  ghost predicate TableOf(img: Image, status: Byte, parts: seq<Part>) {
    && |img| >= 512
    && (forall p :: p in parts ==> PartOk(p))
    && (forall k :: 0 <= k < 4 ==>
          img[Slot(k)..Slot(k) + 16] == SlotBytes(if k == 0 then status else 0, parts, k))
  }

  /** The legacy type of a partition whose type GUID has these sixteen bytes, read as two words: EFI system, Microsoft
      basic data, or HFS. */
  predicate KindIs(guid: Image, kind: Byte)
    requires |guid| == 16
  {
    var low, high := WordAt(guid, 0), WordAt(guid, 8);
    || (kind == 0xef && low == 0x11d2_f81f_c12a_7328 && high == 0x3bc9_3ec9_a000_4bba)
    || (kind == 0x07 && low == 0x4433_b9e5_ebd0_a0a2 && high == 0xc799_26b7_b668_c087)
    || (kind == 0xaf && low == 0x11aa_0000_4846_5300 && high == 0xacec_4365_3000_11aa)
  }

  lemma KindSpelled(e: GptEntry)
    requires |e.typeGuid| == 16 && Convertible(e)
    ensures KindIs(e.typeGuid, PartOf(e).kind)
  {
  }

  /** What slot `k` of the table says of the partition there, field by field: its status, the cylinder-head-sector
      addresses of its first and its last sector, capped, its type, its first sector and its number of
      sectors.  A slot that is not used is zero but for the status. */
  ghost predicate SlotIs(img: Image, k: nat, status: Byte, start: int, end: int, kind: Byte)
    requires |img| >= 512 && k < 4
  {
    && img[446 + 16 * k] == status && img[450 + 16 * k] == kind
    && HalfAt(img, 454 + 16 * k) == start && HalfAt(img, 458 + 16 * k) == end + 1 - start
    && Chs.Decode(img[447 + 16 * k..450 + 16 * k]) == Min(start, 63 * 255 * 1024 - 1)
    && Chs.Decode(img[451 + 16 * k..454 + 16 * k]) == Min(end, 63 * 255 * 1024 - 1)
  }

  lemma SlotSpelled(img: Image, status: Byte, parts: seq<Part>, k: nat, e: GptEntry)
    requires TableOf(img, status, parts) && k < 4 && k < |parts|
    requires |e.typeGuid| == 16 && Convertible(e) && parts[k] == PartOf(e)
    ensures SlotIs(img, k, if k == 0 then status else 0, e.startLba, e.endLba, parts[k].kind)
    ensures KindIs(e.typeGuid, img[450 + 16 * k])
  {
    var p, st: Byte := parts[k], if k == 0 then status else 0;
    KindSpelled(e);
    NothingTruncated(e);
    Chs.Saturates(p.start);
    Chs.Saturates(p.end);
    EntryPieces(st, p);
    SlotPieces(img, Slot(k), EntryBytes(st, p));
  }

  lemma SlotPieces(img: Image, at: nat, bs: Image)
    requires |bs| == 16 && at + 16 <= |img| && img[at..at + 16] == bs
    ensures img[at] == bs[0] && img[at + 4] == bs[4]
    ensures img[at + 1..at + 4] == bs[1..4] && img[at + 5..at + 8] == bs[5..8]
    ensures img[at + 8..at + 12] == bs[8..12] && img[at + 12..at + 16] == bs[12..16]
  {
    SliceOfSlice(img, at, 16, 1, 4);
    SliceOfSlice(img, at, 16, 5, 8);
    SliceOfSlice(img, at, 16, 8, 12);
    SliceOfSlice(img, at, 16, 12, 16);
    assert img[at..at + 16][0] == img[at] && img[at..at + 16][4] == img[at + 4];
  }

  lemma EntryPieces(status: Byte, p: Part)
    requires PartOk(p)
    ensures var bs := EntryBytes(status, p);
            && bs[0] == status && bs[1..4] == Chs.Encode(p.start) && bs[4] == p.kind && bs[5..8] == Chs.Encode(p.end)
            && bs[8..12] == LeBytes(p.start, 4) && bs[12..16] == LeBytes(p.count, 4)
  {
  }

  lemma SlotUnused(img: Image, status: Byte, parts: seq<Part>, k: nat)
    requires TableOf(img, status, parts) && |parts| <= k < 4
    ensures img[446 + 16 * k] == if k == 0 then status else 0
    ensures forall x :: 447 + 16 * k <= x < 462 + 16 * k ==> img[x] == 0
  {
    var st: Byte := if k == 0 then status else 0;
    var slot := img[Slot(k)..Slot(k) + 16];
    assert slot == [st] + Zeros(15);
    forall x | 446 + 16 * k <= x < 462 + 16 * k
      ensures img[x] == ([st] + Zeros(15))[x - Slot(k)]
    {
      assert slot[x - Slot(k)] == img[x];
    }
  }

  /** The table says of the used entries, in their order and for the first as active, what they say themselves, and
      has nothing else. */
  ghost predicate TableSays(img: Image, used: seq<GptEntry>)
    requires forall e :: e in used ==> |e.typeGuid| == 16
  {
    && |img| >= 512 && |used| <= 4
    && (forall k :: 0 <= k < |used| ==>
          && SlotIs(img, k, if k == 0 then 0x80 else 0, used[k].startLba, used[k].endLba, img[450 + 16 * k])
          && KindIs(used[k].typeGuid, img[450 + 16 * k]))
    && (used == [] ==> img[446] == 0x80)
    && (forall x :: 446 < x < 510 && 446 + 16 * |used| <= x ==> img[x] == 0)
  }

  lemma TableSpelled(img: Image, parts: seq<Part>, used: seq<GptEntry>)
    requires (forall e :: e in used ==> |e.typeGuid| == 16 && Convertible(e)) && |used| <= 4
    requires parts == Parts(used) && TableOf(img, 0x80, parts)
    ensures TableSays(img, used)
  {
    forall k | 0 <= k < |used|
      ensures SlotIs(img, k, if k == 0 then 0x80 else 0, used[k].startLba, used[k].endLba, img[450 + 16 * k])
      ensures KindIs(used[k].typeGuid, img[450 + 16 * k])
    {
      assert used[k] in used;
      SlotSpelled(img, 0x80, parts, k, used[k]);
    }
    if used == [] {
      SlotUnused(img, 0x80, parts, 0);
    }
    forall x | 446 < x < 510 && 446 + 16 * |used| <= x
      ensures img[x] == 0
    {
      SlotUnused(img, 0x80, parts, (x - 446) / 16);
    }
  }

  /** The first `n` slots hold these entries, and the other bytes are those of `img`, where the table
      is empty. */
  ghost predicate TableSoFar(img: Image, img': Image, parts: seq<Part>, n: nat)
    requires forall p :: p in parts ==> PartOk(p)
  {
    && |img'| == |img|
    && (forall x :: 0 <= x < |img| && !(446 <= x < Slot(n)) ==> img'[x] == img[x])
    && (n > 0 ==> |img| >= 512)
    && (forall k :: 0 <= k < n && k < 4 && |img| >= 512 ==> img'[Slot(k)..Slot(k) + 16] == SlotBytes(0, parts, k))
  }

  lemma TableStep(img: Image, before: Image, img': Image, parts: seq<Part>, n: nat)
    requires forall p :: p in parts ==> PartOk(p)
    requires n < |parts| <= 4 && |img| >= 512 && TableSoFar(img, before, parts, n)
    requires img[Slot(n)] == 0 && img' == Patch(before, Slot(n), EntryBytes(before[Slot(n)], parts[n]))
    ensures TableSoFar(img, img', parts, n + 1)
  {
    forall k | 0 <= k < n
      ensures img'[Slot(k)..Slot(k) + 16] == SlotBytes(0, parts, k)
    {
      assert img'[Slot(k)..Slot(k) + 16] == before[Slot(k)..Slot(k) + 16];
    }
    assert img'[Slot(n)..Slot(n) + 16] == EntryBytes(before[Slot(n)], parts[n]);
  }

  lemma TableComplete(img: Image, img': Image, parts: seq<Part>)
    requires forall p :: p in parts ==> PartOk(p)
    requires |parts| <= 4 && |img| >= 512 && TableSoFar(img, img', parts, |parts|)
    requires forall x :: 446 <= x < 510 ==> img[x] == 0
    ensures TableOf(img', 0, parts)
  {
    forall k | |parts| <= k < 4
      ensures img'[Slot(k)..Slot(k) + 16] == SlotBytes(0, parts, k)
    {
    }
  }

  /** The entries, slot by slot, into an empty table. */
  method WriteTable(f: Disk, parts: seq<Part>) returns (err: bool)
    requires f.Running() && |parts| <= 4 && forall p :: p in parts ==> PartOk(p)
    requires |f.image| >= 512 && forall x :: 446 <= x < 510 ==> f.image[x] == 0
    modifies f
    ensures f.Valid() && (err <==> f.failed.Some?) && f.writes <= old(f.writes) + 20
    ensures f.Whole() && 512 <= |f.orig| ==> !err
    ensures !err ==> SameOutside(old(f.image), f.image, 446, 510) && TableOf(f.image, 0, parts)
  {
    ghost var img := f.image;
    var i := 0;
    while i < |parts|
      invariant 0 <= i <= |parts| && f.Running() && f.writes <= old(f.writes) + 5 * i
      invariant TableSoFar(img, f.image, parts, i)
    {
      ghost var before := f.image;
      err := WriteEntry(f, i, parts[i]);
      if err {
        return;
      }
      TableStep(img, before, f.image, parts, i);
      i := i + 1;
    }
    TableComplete(img, f.image, parts);
    return false;
  }

  // ---------------------------------------------------------------------------------------------
  // The whole conversion
  // ---------------------------------------------------------------------------------------------

  /** Bytes the conversion wipes: the first 34 blocks, and 33 at the second header. */
  predicate WipedByte(lb: nat, altLba: Word, x: int) {
    x < 34 * lb || (altLba >= 32 && (altLba - 32) * lb <= x < (altLba + 1) * lb)
  }

  /** All those blocks exist. */
  predicate WipesInside(lb: nat, altLba: Word, size: nat) {
    34 * lb <= size && (altLba + 1) * lb <= size
  }

  /** The image after a conversion, byte by byte. */
  ghost predicate Converted(img: Image, img': Image, lb: nat, altLba: Word, id: Image, status: Byte, parts: seq<Part>) {
    && |img'| == |img| && 34 * lb <= |img| && |id| == 4
    && TableOf(img', status, parts)
    && img'[440..444] == id
    && (forall x :: 0 <= x < |img| && !(440 <= x < 444) && !(446 <= x < 510) ==>
          img'[x] == if WipedByte(lb, altLba, x) then 0 else img[x])
  }

  lemma ConvertedFrom(img: Image, wiped: Image, named: Image, img': Image, lb: nat, altLba: Word, id: Image, parts: seq<Part>)
    requires |img| == |wiped| && 34 * lb <= |img| && |img| >= 512 && |id| == 4
    requires forall x :: 0 <= x < |img| ==> wiped[x] == if WipedByte(lb, altLba, x) then 0 else img[x]
    requires named == Patch(wiped, 440, id)
    requires SameOutside(named, img', 446, 510) && TableOf(img', 0, parts)
    ensures Converted(img, img', lb, altLba, id, 0, parts)
  {
  }

  lemma WipedFrom(img: Image, primary: Image, wiped: Image, lb: nat, altLba: Word)
    requires Zeroed(img, primary, 0, 34 * lb)
    requires if altLba < 32 then wiped == primary else Zeroed(primary, wiped, (altLba - 32) * lb, (altLba + 1) * lb)
    ensures |wiped| == |img|
    ensures forall x :: 0 <= x < |img| ==> wiped[x] == if WipedByte(lb, altLba, x) then 0 else img[x]
  {
  }

  /** Wipes both tables. */
  method Nuke(f: Disk, lb: nat, altLba: Word) returns (fail: bool)
    requires f.Running() && lb in {512, 4096}
    modifies f
    ensures f.Valid() && (f.failed.Some? ==> fail) && f.writes <= old(f.writes) + 67
    ensures fail && f.failed == None ==> lb * altLba >= TWO64
    ensures f.Whole() && WipesInside(lb, altLba, |f.orig|) ==> f.failed == None
    ensures !fail ==> |f.image| == |old(f.image)| && 34 * lb <= |f.image|
    ensures !fail ==> forall x :: 0 <= x < |f.image| ==>
                        f.image[x] == if WipedByte(lb, altLba, x) then 0 else old(f.image)[x]
  {
    ghost var img := f.image;
    fail := NukePrimary(f, lb);
    if fail {
      return;
    }
    ghost var primary := f.image;
    if altLba >= 32 {
      fail := NukeSecondary(f, lb, altLba);
      if fail {
        return;
      }
    }
    WipedFrom(img, primary, f.image, lb, altLba);
    return false;
  }

  /** The conversion proper, once it is known to be possible. */
  method Convert(f: Disk, lb: nat, altLba: Word, id: Image, parts: seq<Part>) returns (fail: bool)
    requires f.Running() && lb in {512, 4096} && |id| == 4
    requires |parts| <= 4 && forall p :: p in parts ==> PartOk(p)
    modifies f
    ensures f.Valid() && (f.failed.Some? ==> fail) && f.writes <= old(f.writes) + 91
    ensures fail && f.failed == None ==> lb * altLba >= TWO64
    ensures f.Whole() && WipesInside(lb, altLba, |f.orig|) ==> f.failed == None
    ensures !fail ==> Converted(old(f.image), f.image, lb, altLba, id, 0, parts)
  {
    ghost var img := f.image;
    fail := Nuke(f, lb, altLba);
    if fail {
      return;
    }
    ghost var wiped := f.image;
    fail := WriteId(f, id);
    if fail {
      return;
    }
    ghost var named := f.image;
    fail := WriteTable(f, parts);
    if fail {
      return;
    }
    ConvertedFrom(img, wiped, named, f.image, lb, altLba, id, parts);
    return false;
  }

  /** The disk is an ISO image whose partition table can be converted. */
  ghost predicate ShouldConvert(img: Image, lb: nat, header: GptHeader) {
    && Has(img, ISO_AT, ISO)
    && TableBase(lb, header) < TWO64
    && CanConvert(img, TableBase(lb, header), header.entrySize, header.entryCount)
  }

  /** Nothing that the decision, and then the conversion, needs lies behind the end of the disk. */
  ghost predicate ConversionInside(img: Image, lb: nat, header: GptHeader) {
    && ISO_AT + |ISO| <= |img|
    && (Has(img, ISO_AT, ISO) && TableBase(lb, header) < TWO64 ==>
          EntriesInside(img, TableBase(lb, header), header.entrySize, header.entryCount))
    && (ShouldConvert(img, lb, header) ==> WipesInside(lb, header.alternateLba, |img|))
  }

  function PartsOf(img: Image, lb: nat, header: GptHeader): seq<Part>
    requires ShouldConvert(img, lb, header)
  {
    Parts(UsedEntries(img, TableBase(lb, header), header.entrySize, header.entryCount))
  }

  lemma PartsFit(img: Image, lb: nat, header: GptHeader)
    requires ShouldConvert(img, lb, header)
    ensures |PartsOf(img, lb, header)| <= 4 && forall p :: p in PartsOf(img, lb, header) ==> PartOk(p)
  {
    var used := UsedEntries(img, TableBase(lb, header), header.entrySize, header.entryCount);
    forall i | 0 <= i < |used|
      ensures PartOk(PartsOf(img, lb, header)[i])
    {
      assert used[i] in used;
    }
  }

  /** Decides on the conversion; nothing is written. */
  method Consider(f: Disk, lb: nat, header: GptHeader) returns (err: bool, ok: bool, parts: seq<Part>)
    requires f.Running() && lb in {512, 4096}
    requires header.entryCount < LIMIT32 && header.entrySize < LIMIT32
    modifies f`done, f`outs, f`failed
    ensures f.Valid() && (err <==> f.failed.Some?)
    ensures f.Whole() && ConversionInside(f.image, lb, header) ==> !err
    ensures !err ==> (ok <==> ShouldConvert(f.image, lb, header))
    ensures !err && ok ==> parts == PartsOf(f.image, lb, header)
  {
    var read, signature := f.Read(ISO_AT, 5);
    if !read {
      return true, false, [];
    }
    if signature != ISO {
      return false, false, [];
    }
    OverflowChecksExact(header.entryLba, lb);
    assert TableBase(lb, header) == header.entryLba * lb;
    var (base, overflow) := MulOverflow(header.entryLba, lb);
    if overflow {
      return false, false, [];
    }
    err, ok, parts := Gather(f, base, header);
  }

  /** The conversion step: all or nothing.  Unless it fails, it converts exactly a disk it should, and
      does not touch any other. */
  method ConvertIfIso(f: Disk, lb: nat, header: GptHeader, id: Image)
    returns (fail: bool, converted: bool, parts: seq<Part>)
    requires f.Running() && lb in {512, 4096} && |id| == 4
    requires header.entryCount < LIMIT32 && header.entrySize < LIMIT32
    modifies f
    ensures f.Valid() && (f.failed.Some? ==> fail) && f.writes <= old(f.writes) + 91
    ensures fail && f.failed == None ==> lb * header.alternateLba >= TWO64
    ensures f.Whole() && ConversionInside(old(f.image), lb, header) ==> f.failed == None
    ensures !fail ==> (converted <==> ShouldConvert(old(f.image), lb, header))
    ensures !fail && converted ==>
              && parts == PartsOf(old(f.image), lb, header)
              && Converted(old(f.image), f.image, lb, header.alternateLba, id, 0, parts)
    ensures !fail && !converted ==> f.image == old(f.image) && f.writes == old(f.writes)
  {
    fail, converted, parts := Consider(f, lb, header);
    if fail || !converted {
      return;
    }
    PartsFit(f.image, lb, header);
    fail := Convert(f, lb, header.alternateLba, id, parts);
  }

  /** The ISO 9660 descriptor that made the disk be converted is still there afterwards exactly if the blocks have
      512 bytes and the second header is not in one of the blocks 64 to 96. */
  lemma IsoSurvivesIff(img: Image, img': Image, lb: nat, altLba: Word, id: Image, status: Byte, parts: seq<Part>)
    requires lb in {512, 4096} && Converted(img, img', lb, altLba, id, status, parts) && Has(img, ISO_AT, ISO)
    ensures Has(img', ISO_AT, ISO) <==> lb == 512 && !(64 <= altLba <= 96)
  {
    forall x | ISO_AT <= x < ISO_AT + |ISO|
      ensures WipedByte(lb, altLba, x) <==> !(lb == 512 && !(64 <= altLba <= 96))
    {
    }
    assert img[ISO_AT..ISO_AT + |ISO|] == ISO;
    if lb == 512 && !(64 <= altLba <= 96) {
      assert img'[ISO_AT..ISO_AT + |ISO|] == img[ISO_AT..ISO_AT + |ISO|];
    } else {
      assert img'[ISO_AT..ISO_AT + |ISO|][0] == 0;
    }
  }

  // ---------------------------------------------------------------------------------------------
  // The converted disk under the checks of a legacy disk
  // ---------------------------------------------------------------------------------------------

  lemma StartField(status: Byte, p: Part)
    requires PartOk(p)
    ensures EntryBytes(status, p)[4] == p.kind && EntryBytes(status, p)[8..12] == LeBytes(p.start, 4)
  {
    var front := [status] + Chs.Encode(p.start) + [p.kind] + Chs.Encode(p.end);
    assert EntryBytes(status, p) == front + LeBytes(p.start, 4) + LeBytes(p.count, 4);
    assert |front| == 8;
  }

  /** The bytes of a table entry that the checks look at. */
  lemma EntryChecked(img: Image, status: Byte, parts: seq<Part>, k: nat)
    requires TableOf(img, status, parts) && k < 4
    ensures img[Slot(k)] == if k == 0 then status else 0
    ensures StartsHighEnough(img, k) <==> (k < |parts| && parts[k].kind != 0 ==> parts[k].start >= 63)
  {
    var bs := SlotBytes(if k == 0 then status else 0, parts, k);
    var slot := img[Slot(k)..Slot(k) + 16];
    assert slot == bs;
    assert img[Slot(k)] == slot[0] && img[Slot(k) + 4] == slot[4];
    if k < |parts| {
      StartField(bs[0], parts[k]);
      SliceOfSlice(img, Slot(k), 16, 8, 12);
      Power256Of4();
      LeRoundTrip(parts[k].start, 4);
    }
  }

  /** A converted disk has a sane table without an active partition, and no file system in its first
      bytes; so the checks only depend on where the partitions start, and mark the first slot. */
  lemma ConvertedIsSane(img: Image, img': Image, lb: nat, altLba: Word, id: Image, parts: seq<Part>)
    requires lb >= 512 && |parts| <= 4 && Converted(img, img', lb, altLba, id, 0, parts)
    ensures AllStatusOk(img') && !AnyActive(img') && !Recognised(img', 0)
    ensures AllHighEnough(img') <==> forall p :: p in parts && p.kind != 0 ==> p.start >= 63
  {
    forall k | 0 <= k < 4
      ensures img'[Slot(k)] == 0
      ensures StartsHighEnough(img', k) <==> (k < |parts| && parts[k].kind != 0 ==> parts[k].start >= 63)
    {
      EntryChecked(img', 0, parts, k);
    }
    NothingInZeros(img', 3, NTFS);
    NothingInZeros(img', 54, FAT);
    NothingInZeros(img', 82, FAT);
    NothingInZeros(img', 3, FAT32);
    NothingInZeros(img', 1080, EXT);
  }

  lemma NothingInZeros(img: Image, at: nat, text: Image)
    requires at < |img| ==> img[at] == 0
    requires |text| > 0 && text[0] != 0
    ensures !Has(img, at, text)
  {
    if at + |text| <= |img| {
      assert img[at..at + |text|][0] == img[at];
    }
  }

  /** Marking the first slot active. */
  lemma ConvertedActive(img: Image, img': Image, lb: nat, altLba: Word, id: Image, parts: seq<Part>)
    requires |parts| <= 4 && Converted(img, img', lb, altLba, id, 0, parts)
    ensures Converted(img, Patch(img', 446, [0x80]), lb, altLba, id, 0x80, parts)
  {
    var active := Patch(img', 446, [0x80]);
    forall k | 0 <= k < 4
      ensures active[Slot(k)..Slot(k) + 16] == SlotBytes(if k == 0 then 0x80 else 0, parts, k)
    {
      assert img'[Slot(k)..Slot(k) + 16] == SlotBytes(0, parts, k);
      ActiveSlot(img', parts, k);
    }
    assert active[440..444] == img'[440..444];
  }

  lemma ActiveSlot(img: Image, parts: seq<Part>, k: nat)
    requires k < 4 && |img| >= 512 && forall p :: p in parts ==> PartOk(p)
    requires img[Slot(k)..Slot(k) + 16] == SlotBytes(0, parts, k)
    ensures Patch(img, 446, [0x80])[Slot(k)..Slot(k) + 16] == SlotBytes(if k == 0 then 0x80 else 0, parts, k)
  {
    var active := Patch(img, 446, [0x80]);
    if k == 0 {
      assert active[446..462] == [0x80] + img[446..462][1..];
      assert SlotBytes(0x80, parts, 0) == [0x80] + SlotBytes(0, parts, 0)[1..];
    } else {
      assert active[Slot(k)..Slot(k) + 16] == img[Slot(k)..Slot(k) + 16];
    }
  }
}
