/** Where the boot code goes on a disk with a GUID partition table: the choice of the partition, and
    what the partition must be like. */
module Placement {
  import opened Machine
  import opened UndoLog
  import opened FlatDisk
  import opened Volume
  import opened InstallerSteps

  // ---------------------------------------------------------------------------------------------
  // The choice of a partition
  // ---------------------------------------------------------------------------------------------

  /** The partition index on the command line: none, one that is no number, or a 32-bit number. */
  datatype Choice = Auto | BadFormat | Index(n: nat)

  /** Entry `i` of the table lies in the image, which makes its place a 64-bit number. */
  predicate Inside(img: Image, base: nat, size: nat, i: nat) { base + i * size + GPT_ENTRY_SIZE <= |img| }

  /** None of the first `n` entries is a BIOS boot partition. */
  predicate NoBoot(img: Image, base: nat, size: nat, n: nat) {
    n == 0
    || (NoBoot(img, base, size, n - 1) && Inside(img, base, size, n - 1)
        && EntryAt(img, base + (n - 1) * size).typeGuid != BIOS_BOOT_TYPE)
  }

  /** Entry `i` is the one the installer is asked for: the first BIOS boot partition, or the one with
      the given number, which must be in use and, unless forced, of that type. */
  ghost predicate ChosenIn(img: Image, base: nat, size: nat, count: nat, choice: Choice, force: bool, i: nat) {
    && i < count && Inside(img, base, size, i)
    && var e := EntryAt(img, base + i * size);
       match choice
       case Auto => NoBoot(img, base, size, i) && e.typeGuid == BIOS_BOOT_TYPE
       case BadFormat => false
       case Index(n) => i == n - 1 && !e.unused && (force || e.typeGuid == BIOS_BOOT_TYPE)
  }

  method ReadEntry(f: Disk, base: Word, header: GptHeader, i: nat) returns (fail: bool, e: GptEntry)
    requires f.Running() && header.entrySize < LIMIT32 && i < LIMIT32
    modifies f`done, f`outs, f`failed
    ensures f.Valid() && (f.failed.Some? ==> fail)
    ensures f.failed == None ==> (!fail <==> base + i * header.entrySize < TWO64)
    ensures fail && (f.failed == None || f.Whole()) ==> !Inside(f.image, base, header.entrySize, i)
    ensures !fail ==> Inside(f.image, base, header.entrySize, i) && e == EntryAt(f.image, base + i * header.entrySize)
  {
    var size := header.entrySize;
    e := GptEntry(Zeros(16), true, 0, 0);
    MulMonotone(i, LIMIT32, size);
    assert LIMIT32 * size <= LIMIT32 * LIMIT32;
    var entryOffset: Word := i * size;
    OverflowChecksExact(base, entryOffset);
    var (loc, overflow) := AddOverflow(base, entryOffset);
    if overflow {
      return true, e;
    }
    var read, bytes := f.Read(loc, GPT_ENTRY_SIZE);
    if !read {
      return true, e;
    }
    return false, EntryOf(bytes);
  }

  /** Looks for the first BIOS boot partition. */
  method Autodetect(f: Disk, base: Word, header: GptHeader, ghost force: bool) returns (fail: bool, i: nat, e: GptEntry)
    requires f.Running() && header.entrySize < LIMIT32 && header.entryCount < LIMIT32
    modifies f`done, f`outs, f`failed
    ensures f.Valid() && (f.failed.Some? ==> fail)
    ensures !fail ==>
              && ChosenIn(f.image, base, header.entrySize, header.entryCount, Auto, force, i)
              && e == EntryAt(f.image, base + i * header.entrySize)
    ensures fail && (f.failed == None || f.Whole()) ==>
              forall j: nat :: !ChosenIn(f.image, base, header.entrySize, header.entryCount, Auto, force, j)
  {
    var size := header.entrySize;
    var number := 0;
    e := GptEntry(Zeros(16), true, 0, 0);
    while number < header.entryCount
      invariant 0 <= number <= header.entryCount && f.Running()
      invariant NoBoot(f.image, base, size, number)
    {
      i := number;
      fail, e := ReadEntry(f, base, header, i);
      if fail {
        if f.failed == None || f.Whole() {
          NoneBeyond(f.image, base, size, header.entryCount, number, force);
        }
        return;
      }
      if e.typeGuid == BIOS_BOOT_TYPE {
        return false, number, e;
      }
      number := number + 1;
    }
    NoneBeyond(f.image, base, size, header.entryCount, number, force);
    return true, 0, e;
  }

  lemma {:induction false} NoBootBelow(img: Image, base: nat, size: nat, i: nat, n: nat)
    requires i < n && NoBoot(img, base, size, n)
    ensures Inside(img, base, size, i) && EntryAt(img, base + i * size).typeGuid != BIOS_BOOT_TYPE
    decreases n
  {
    if i < n - 1 {
      NoBootBelow(img, base, size, i, n - 1);
    }
  }

  /** The search can stop at an entry that is not there. */
  lemma NoneBeyond(img: Image, base: nat, size: nat, count: nat, n: nat, force: bool)
    requires NoBoot(img, base, size, n) && (n == count || !Inside(img, base, size, n))
    ensures forall j: nat :: !ChosenIn(img, base, size, count, Auto, force, j)
  {
    forall j: nat
      ensures !ChosenIn(img, base, size, count, Auto, force, j)
    {
      NotChosen(img, base, size, count, n, j, force);
    }
  }

  lemma NotChosen(img: Image, base: nat, size: nat, count: nat, n: nat, j: nat, force: bool)
    requires NoBoot(img, base, size, n) && (n == count || !Inside(img, base, size, n))
    ensures !ChosenIn(img, base, size, count, Auto, force, j)
  {
    if j < n {
      NoBootBelow(img, base, size, j, n);
    } else if n < j && NoBoot(img, base, size, j) {
      NoBootBelow(img, base, size, n, j);
    }
  }

  /** The partition with the given number: the number is first decremented, and wraps. */
  method PickNumbered(f: Disk, base: Word, header: GptHeader, n: nat, force: bool)
    returns (fail: bool, i: nat, e: GptEntry)
    requires f.Running() && header.entrySize < LIMIT32 && header.entryCount < LIMIT32 && n < LIMIT32
    modifies f`done, f`outs, f`failed
    ensures f.Valid() && (f.failed.Some? ==> fail)
    ensures !fail ==>
              && ChosenIn(f.image, base, header.entrySize, header.entryCount, Index(n), force, i)
              && e == EntryAt(f.image, base + i * header.entrySize)
    ensures fail && (f.failed == None || f.Whole()) ==>
              forall j: nat :: !ChosenIn(f.image, base, header.entrySize, header.entryCount, Index(n), force, j)
  {
    var number := (n - 1) % LIMIT32;
    i := number;
    e := GptEntry(Zeros(16), true, 0, 0);
    assert n > 0 ==> number == n - 1;
    if number >= header.entryCount {
      return true, i, e;
    }
    fail, e := ReadEntry(f, base, header, number);
    if fail {
      return;
    }
    if e.unused || (!force && e.typeGuid != BIOS_BOOT_TYPE) {
      return true, i, e;
    }
  }

  method ChooseIn(f: Disk, base: Word, header: GptHeader, choice: Choice, force: bool)
    returns (fail: bool, i: nat, e: GptEntry)
    requires f.Running() && (choice.Index? ==> choice.n < LIMIT32)
    requires header.entrySize < LIMIT32 && header.entryCount < LIMIT32
    modifies f`done, f`outs, f`failed
    ensures f.Valid() && (f.failed.Some? ==> fail)
    ensures !fail ==>
              && ChosenIn(f.image, base, header.entrySize, header.entryCount, choice, force, i)
              && e == EntryAt(f.image, base + i * header.entrySize)
    ensures fail && (f.failed == None || f.Whole()) ==>
              forall j: nat :: !ChosenIn(f.image, base, header.entrySize, header.entryCount, choice, force, j)
  {
    match choice {
      case Auto => fail, i, e := Autodetect(f, base, header, force);
      case BadFormat => fail, i, e := true, 0, GptEntry(Zeros(16), true, 0, 0);
      case Index(n) => fail, i, e := PickNumbered(f, base, header, n, force);
    }
  }

  /** The partition the installer is asked for is number `i`, counted from 0. */
  ghost predicate Chosen(img: Image, lb: nat, header: GptHeader, choice: Choice, force: bool, i: nat) {
    && TableBase(lb, header) < TWO64
    && ChosenIn(img, TableBase(lb, header), header.entrySize, header.entryCount, choice, force, i)
  }

  function EntryNo(img: Image, lb: nat, header: GptHeader, i: nat): GptEntry
    requires Inside(img, TableBase(lb, header), header.entrySize, i)
  {
    EntryAt(img, TableBase(lb, header) + i * header.entrySize)
  }

  /** Finds the partition that is asked for; unless a read fails, it fails only if there is none. */
  method ChoosePartition(f: Disk, lb: nat, header: GptHeader, choice: Choice, force: bool)
    returns (fail: bool, i: nat, e: GptEntry)
    requires f.Running() && lb in {512, 4096} && (choice.Index? ==> choice.n < LIMIT32)
    requires header.entrySize < LIMIT32 && header.entryCount < LIMIT32
    modifies f`done, f`outs, f`failed
    ensures f.Valid() && (f.failed.Some? ==> fail)
    ensures !fail ==> Chosen(f.image, lb, header, choice, force, i) && e == EntryNo(f.image, lb, header, i)
    ensures fail && (f.failed == None || f.Whole()) ==> forall j: nat :: !Chosen(f.image, lb, header, choice, force, j)
  {
    OverflowChecksExact(header.entryLba, lb);
    assert TableBase(lb, header) == header.entryLba * lb;
    var (base, overflow) := MulOverflow(header.entryLba, lb);
    if overflow {
      return true, 0, GptEntry(Zeros(16), true, 0, 0);
    }
    fail, i, e := ChooseIn(f, base, header, choice, force);
  }

  lemma FirstOnly(img: Image, base: nat, size: nat, count: nat, force: bool, i: nat, j: nat)
    requires i < j && ChosenIn(img, base, size, count, Auto, force, i)
    ensures !ChosenIn(img, base, size, count, Auto, force, j)
  {
    if NoBoot(img, base, size, j) {
      NoBootBelow(img, base, size, i, j);
    }
  }

  lemma ChosenInUnique(img: Image, base: nat, size: nat, count: nat, choice: Choice, force: bool, i: nat, j: nat)
    ensures ChosenIn(img, base, size, count, choice, force, i) && ChosenIn(img, base, size, count, choice, force, j) ==>
              i == j
  {
    if choice.Auto? && ChosenIn(img, base, size, count, choice, force, i) {
      if i < j {
        FirstOnly(img, base, size, count, force, i, j);
      } else if j < i && ChosenIn(img, base, size, count, choice, force, j) {
        FirstOnly(img, base, size, count, force, j, i);
      }
    }
  }

  /** There is only one such partition. */
  lemma ChosenUnique(img: Image, lb: nat, header: GptHeader, choice: Choice, force: bool, i: nat, j: nat)
    requires Chosen(img, lb, header, choice, force, i) && Chosen(img, lb, header, choice, force, j)
    ensures i == j
  {
    ChosenInUnique(img, TableBase(lb, header), header.entrySize, header.entryCount, choice, force, i, j);
  }

  // ---------------------------------------------------------------------------------------------
  // The place inside the partition
  // ---------------------------------------------------------------------------------------------

  const MIN_PARTITION: int := 32768

  /** The bytes of the partition: where they start, and how many there are. */
  function PartStart(lb: nat, e: GptEntry): nat { lb * e.startLba }

  function PartLength(lb: nat, e: GptEntry): int { lb * (e.endLba + 1 - e.startLba) }

  /** The partition has at least 32 KiB, and both numbers fit 64 bits. */
  predicate BigEnough(lb: nat, e: GptEntry) {
    && e.startLba <= e.endLba
    && MIN_PARTITION <= PartLength(lb, e) < TWO64
    && PartStart(lb, e) < TWO64
  }

  /** The number of blocks in 64-bit arithmetic, where a partition of all 2^64 blocks has none. */
  function BlockCount(e: GptEntry): Word { (e.endLba - e.startLba + 1) % TWO64 }

  lemma LengthExact(lb: nat, e: GptEntry)
    requires lb in {512, 4096} && e.startLba <= e.endLba
    ensures var (size, tooBig) := MulOverflow(BlockCount(e), lb);
            !tooBig && size >= MIN_PARTITION <==> MIN_PARTITION <= PartLength(lb, e) < TWO64
  {
    var blocks := BlockCount(e);
    OverflowChecksExact(blocks, lb);
    assert blocks * lb == lb * blocks;
    if e.endLba + 1 - e.startLba < TWO64 {
      assert blocks == e.endLba + 1 - e.startLba;
    } else {
      assert blocks == 0;
    }
  }

  lemma StartExact(lb: nat, e: GptEntry)
    requires lb in {512, 4096}
    ensures var (start, tooFar) := MulOverflow(e.startLba, lb);
            && (!tooFar <==> PartStart(lb, e) < TWO64)
            && (!tooFar ==> start == PartStart(lb, e) && start % 512 == 0)
  {
    OverflowChecksExact(e.startLba, lb);
    assert e.startLba * lb == lb * e.startLba;
  }

  /** The bounds, computed with words that wrap. */
  method Bounds(lb: nat, e: GptEntry) returns (fail: bool, loc: Word)
    requires lb in {512, 4096}
    ensures !fail <==> BigEnough(lb, e)
    ensures !fail ==> loc == PartStart(lb, e) && loc % 512 == 0
  {
    if e.endLba < e.startLba {
      return true, 0;
    }
    LengthExact(lb, e);
    var (size, tooBig) := MulOverflow(BlockCount(e), lb);
    if tooBig || size < MIN_PARTITION {
      return true, 0;
    }
    StartExact(lb, e);
    var (start, tooFar) := MulOverflow(e.startLba, lb);
    return tooFar, start;
  }

  /** The partition is accepted exactly if it is big enough and holds no file system the installer
      recognises, or with `force`, which wipes what identifies one. */
  method PlaceStage2(f: Disk, lb: nat, e: GptEntry, force: bool) returns (fail: bool, loc: Word)
    requires f.Running() && lb in {512, 4096}
    modifies f
    ensures f.Valid() && (f.failed.Some? ==> fail) && f.writes <= old(f.writes) + 5
    ensures f.failed == None || (f.Whole() && PartStart(lb, e) + MIN_PARTITION <= |f.orig|) ==>
              (!fail <==> BigEnough(lb, e) && (force || !Recognised(old(f.image), PartStart(lb, e))))
    ensures !fail ==>
              && BigEnough(lb, e) && loc == PartStart(lb, e) && loc % 512 == 0
              && f.image == Cleansed(old(f.image), loc)
              && f.writes == old(f.writes) + Found(old(f.image), loc, CHECK_COUNT)
  {
    fail, loc := Bounds(lb, e);
    if fail {
      return;
    }
    ghost var img := f.image;
    var err, valid := ValidateOrForce(f, loc, force);
    if !Recognised(img, loc) {
      CleansedIsClean(img, loc);
      PassedAll(img, loc);
      NoneFound(img, loc, CHECK_COUNT);
    }
    return err || !valid, loc;
  }
}
