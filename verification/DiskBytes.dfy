/** What the installer makes of a disk, said of the bytes that are on it: which disks it accepts, and which
    partitions it sees. */
module DiskBytes {
  import opened Machine
  import opened UndoLog
  import opened LittleEndian
  import opened Volume
  import opened InstallerSteps
  import opened Conversion
  import opened Placement
  import opened Installer

  // ---------------------------------------------------------------------------------------------
  // Bytes
  // ---------------------------------------------------------------------------------------------

  /** There are 96 bytes at `at`, and the first of them are "EFI PART". */
  predicate Signed(img: Image, at: int) {
    0 <= at && at + 96 <= |img| && img[at..at + 8] == [0x45, 0x46, 0x49, 0x20, 0x50, 0x41, 0x52, 0x54]
  }

  /** The bytes at `at` look like a file system: "NTFS" or "FAT32" at 3, "FAT" at 54 or 82, or 53 ef at 1080. */
  predicate LooksFormatted(img: Image, at: nat) {
    || (at + 7 <= |img| && img[at + 3..at + 7] == [0x4e, 0x54, 0x46, 0x53])
    || (at + 57 <= |img| && img[at + 54..at + 57] == [0x46, 0x41, 0x54])
    || (at + 85 <= |img| && img[at + 82..at + 85] == [0x46, 0x41, 0x54])
    || (at + 8 <= |img| && img[at + 3..at + 8] == [0x46, 0x41, 0x54, 0x33, 0x32])
    || (at + 1082 <= |img| && img[at + 1080..at + 1082] == [0x53, 0xef])
  }

  lemma FormattedSpelled(img: Image, at: nat)
    ensures Recognised(img, at) <==> LooksFormatted(img, at)
  {
  }

  /** What forced checks wipe: the bytes of each signature they find, and two more behind "FAT". */
  predicate Wiped(img: Image, at: nat, x: nat) {
    || (at + 7 <= |img| && img[at + 3..at + 7] == [0x4e, 0x54, 0x46, 0x53] && at + 3 <= x < at + 7)
    || (at + 57 <= |img| && img[at + 54..at + 57] == [0x46, 0x41, 0x54] && at + 54 <= x < at + 59)
    || (at + 85 <= |img| && img[at + 82..at + 85] == [0x46, 0x41, 0x54] && at + 82 <= x < at + 87)
    || (at + 8 <= |img| && img[at + 3..at + 8] == [0x46, 0x41, 0x54, 0x33, 0x32] && at + 3 <= x < at + 8)
    || (at + 1082 <= |img| && img[at + 1080..at + 1082] == [0x53, 0xef] && at + 1080 <= x < at + 1082)
  }

  lemma CleansedSpelled(img: Image, at: nat, x: nat)
    requires x < |img|
    ensures Cleansed(img, at)[x] == if Wiped(img, at, x) then 0 else img[x]
  {
    ChecksSpelled(img, at);
    assert WipedBy(img, at, CHECK_COUNT, x) <==>
           || (Finds(img, at, 0) && InWipe(at, 0, x)) || (Finds(img, at, 1) && InWipe(at, 1, x))
           || (Finds(img, at, 2) && InWipe(at, 2, x)) || (Finds(img, at, 3) && InWipe(at, 3, x))
           || (Finds(img, at, 4) && InWipe(at, 4, x));
  }

  lemma ChecksSpelled(img: Image, at: nat)
    ensures Finds(img, at, 0) <==> at + 7 <= |img| && img[at + 3..at + 7] == [0x4e, 0x54, 0x46, 0x53]
    ensures Finds(img, at, 1) <==> at + 57 <= |img| && img[at + 54..at + 57] == [0x46, 0x41, 0x54]
    ensures Finds(img, at, 2) <==> at + 85 <= |img| && img[at + 82..at + 85] == [0x46, 0x41, 0x54]
    ensures Finds(img, at, 3) <==> at + 8 <= |img| && img[at + 3..at + 8] == [0x46, 0x41, 0x54, 0x33, 0x32]
    ensures Finds(img, at, 4) <==> at + 1082 <= |img| && img[at + 1080..at + 1082] == [0x53, 0xef]
  {
  }

  lemma FieldAt(img: Image, at: nat, n: nat, lo: nat)
    requires at + n <= |img|
    ensures lo + 8 <= n ==> WordAt(img[at..at + n], lo) == WordAt(img, at + lo)
    ensures lo + 4 <= n ==> HalfAt(img[at..at + n], lo) == HalfAt(img, at + lo)
  {
    if lo + 8 <= n {
      SliceOfSlice(img, at, n, lo, lo + 8);
    }
    if lo + 4 <= n {
      SliceOfSlice(img, at, n, lo, lo + 4);
    }
  }

  /** The header at `at`: the second header's block, the table's block, the number of entries and their size. */
  lemma HeaderSpelled(img: Image, at: nat)
    ensures GptAt(img, at) <==> Signed(img, at)
    ensures Signed(img, at) ==>
              HeaderAt(img, at) ==
              GptHeader(WordAt(img, at + 32), WordAt(img, at + 72), HalfAt(img, at + 80), HalfAt(img, at + 84))
  {
    if at + 96 <= |img| {
      assert img[at..at + 96][..8] == img[at..at + 8];
      FieldAt(img, at, 96, 32);
      FieldAt(img, at, 96, 72);
      FieldAt(img, at, 96, 80);
      FieldAt(img, at, 96, 84);
    }
  }

  /** The entry at `at` is in use: one of the bytes of its own GUID is not zero. */
  ghost predicate InUse(img: Image, at: nat) {
    at + 32 <= |img| && exists x :: at + 16 <= x < at + 32 && img[x] != 0
  }

  lemma EntrySpelled(img: Image, at: nat)
    requires at + 128 <= |img|
    ensures var e := EntryAt(img, at);
            && e.typeGuid == img[at..at + 16]
            && e.startLba == WordAt(img, at + 32) && e.endLba == WordAt(img, at + 40)
            && (e.unused <==> !InUse(img, at))
  {
    var bytes := img[at..at + 128];
    SliceOfSlice(img, at, 128, 0, 16);
    assert bytes[..16] == bytes[0..16];
    FieldAt(img, at, 128, 16);
    FieldAt(img, at, 128, 24);
    FieldAt(img, at, 128, 32);
    FieldAt(img, at, 128, 40);
    ZeroIff(img[at + 16..at + 24]);
    ZeroIff(img[at + 24..at + 32]);
    assert forall x :: at + 16 <= x < at + 24 ==> img[x] == img[at + 16..at + 24][x - at - 16];
    assert forall x :: at + 24 <= x < at + 32 ==> img[x] == img[at + 24..at + 32][x - at - 24];
  }

  lemma {:induction false} ZeroIff(bytes: Image)
    ensures LeValue(bytes) == 0 <==> forall i :: 0 <= i < |bytes| ==> bytes[i] == 0
    decreases |bytes|
  {
    if bytes != [] {
      ZeroIff(bytes[1..]);
      assert forall i :: 1 <= i < |bytes| ==> bytes[i] == bytes[1..][i - 1];
    }
  }

  // ---------------------------------------------------------------------------------------------
  // The partition table
  // ---------------------------------------------------------------------------------------------

  /** The disk has a partition table, and blocks of `lb` bytes. */
  predicate HasTable(img: Image, lb: nat) {
    (lb == 512 && Signed(img, 512)) || (lb == 4096 && !Signed(img, 512) && Signed(img, 4096))
  }

  lemma TableSpelledAt(img: Image, lb: nat)
    ensures HasTable(img, lb) <==> lb > 0 && LogicalBlock(img) == lb
    ensures LogicalBlock(img) == 0 <==> !Signed(img, 512) && !Signed(img, 4096)
  {
    HeaderSpelled(img, 512);
    HeaderSpelled(img, 4096);
  }

  function TableAt(img: Image, lb: nat): nat
    requires Signed(img, lb)
  {
    lb * WordAt(img, lb + 72)
  }

  function Count(img: Image, lb: nat): nat
    requires Signed(img, lb)
  {
    HalfAt(img, lb + 80)
  }

  /** Where entry `i`, counted from 0, starts. */
  function PlaceOf(img: Image, lb: nat, i: nat): nat
    requires Signed(img, lb)
  {
    TableAt(img, lb) + Times(i, HalfAt(img, lb + 84))
  }

  /** The product, by counting. */
  function Times(i: nat, size: nat): nat {
    if i == 0 then 0 else Times(i - 1, size) + size
  }

  lemma {:induction false} TimesIsProduct(i: nat, size: nat)
    ensures Times(i, size) == i * size
    decreases i
  {
    if i > 0 {
      TimesIsProduct(i - 1, size);
    }
  }

  /** Entries of at least 128 bytes, and a second header where the first says it is. */
  predicate HeadersOk(img: Image, lb: nat)
    requires Signed(img, lb)
  {
    HalfAt(img, lb + 84) >= 128 && lb * WordAt(img, lb + 32) < TWO64 && Signed(img, lb * WordAt(img, lb + 32))
  }

  /** The partition of the entry at `at` has at least 32 KiB, its size and place fit 64 bits, and it does not look
      formatted unless that is to be ignored. */
  predicate TakesStage2(img: Image, lb: nat, at: nat, force: bool)
    requires at + 128 <= |img|
  {
    var first, last := WordAt(img, at + 32), WordAt(img, at + 40);
    && first <= last && 32768 <= lb * (last + 1 - first) < TWO64 && lb * first < TWO64
    && (force || !LooksFormatted(img, lb * first))
  }

  /** "Hah!IdontNeedEFI". */
  predicate IsBiosBoot(img: Image, at: nat)
    requires at + 128 <= |img|
  {
    img[at..at + 16] == [0x48, 0x61, 0x68, 0x21, 0x49, 0x64, 0x6f, 0x6e, 0x74, 0x4e, 0x65, 0x65, 0x64, 0x45, 0x46, 0x49]
  }

  /** Partition `n`, counted from 1, can be installed to: it is there and in use, it has the right type unless that is
      to be ignored, and it takes the second stage. */
  ghost predicate NumberedFits(img: Image, lb: nat, n: nat, force: bool)
    requires Signed(img, lb)
  {
    && HeadersOk(img, lb) && 1 <= n <= Count(img, lb) && TableAt(img, lb) < TWO64
    && var at := PlaceOf(img, lb, n - 1);
       && at + 128 <= |img| && InUse(img, at)
       && (force || IsBiosBoot(img, at))
       && TakesStage2(img, lb, at, force)
  }

  /** The first `n` entries lie in the image, and none has the right type. */
  ghost predicate NoneBefore(img: Image, lb: nat, n: nat)
    requires Signed(img, lb)
  {
    forall j: nat :: j < n ==> PlaceOf(img, lb, j) + 128 <= |img| && !IsBiosBoot(img, PlaceOf(img, lb, j))
  }

  lemma NoneBeforeNext(img: Image, lb: nat, n: nat)
    requires Signed(img, lb)
    ensures NoneBefore(img, lb, n + 1) <==>
            NoneBefore(img, lb, n) && PlaceOf(img, lb, n) + 128 <= |img| && !IsBiosBoot(img, PlaceOf(img, lb, n))
  {
  }

  /** The entries lie in the image, and entry `i` is the first of the right type, and takes the second stage. */
  ghost predicate DetectedFits(img: Image, lb: nat, i: nat, force: bool)
    requires Signed(img, lb)
  {
    && HeadersOk(img, lb) && i < Count(img, lb) && TableAt(img, lb) < TWO64
    && NoneBefore(img, lb, i)
    && PlaceOf(img, lb, i) + 128 <= |img| && IsBiosBoot(img, PlaceOf(img, lb, i))
    && TakesStage2(img, lb, PlaceOf(img, lb, i), force)
  }

  lemma SoundSpelled(img: Image, lb: nat)
    requires Signed(img, lb)
    ensures GptAt(img, lb) && (Sound(img, lb, HeaderAt(img, lb)) <==> HeadersOk(img, lb))
  {
    HeaderSpelled(img, lb);
    HeaderSpelled(img, lb * WordAt(img, lb + 32));
  }

  lemma EntryNoSpelled(img: Image, lb: nat, i: nat, force: bool)
    requires Signed(img, lb)
    ensures GptAt(img, lb)
    ensures var header, at := HeaderAt(img, lb), PlaceOf(img, lb, i);
            && TableBase(lb, header) == TableAt(img, lb) && header.entryCount == Count(img, lb)
            && (Inside(img, TableBase(lb, header), header.entrySize, i) <==> at + 128 <= |img|)
            && (at + 128 <= |img| ==> EntryIs(img, lb, EntryNo(img, lb, header, i), at, force))
  {
    HeaderSpelled(img, lb);
    TimesIsProduct(i, HalfAt(img, lb + 84));
    var at := PlaceOf(img, lb, i);
    if at + 128 <= |img| {
      EntrySpelled(img, at);
      TakesSpelled(img, lb, EntryNo(img, lb, HeaderAt(img, lb), i), at, force);
    }
  }

  /** What matters of an entry, by its bytes. */
  ghost predicate EntryIs(img: Image, lb: nat, e: GptEntry, at: nat, force: bool)
    requires at + 128 <= |img|
  {
    && (e.typeGuid == BIOS_BOOT_TYPE <==> IsBiosBoot(img, at)) && (e.unused <==> !InUse(img, at))
    && PartStart(lb, e) == lb * WordAt(img, at + 32)
    && (BigEnough(lb, e) && (force || !Recognised(img, PartStart(lb, e))) <==> TakesStage2(img, lb, at, force))
  }

  lemma TakesSpelled(img: Image, lb: nat, e: GptEntry, at: nat, force: bool)
    requires at + 128 <= |img| && e.startLba == WordAt(img, at + 32) && e.endLba == WordAt(img, at + 40)
    ensures BigEnough(lb, e) && (force || !Recognised(img, PartStart(lb, e))) <==> TakesStage2(img, lb, at, force)
  {
    FormattedSpelled(img, lb * WordAt(img, at + 32));
  }

  lemma {:induction false} NoBootSpelled(img: Image, lb: nat, n: nat)
    requires Signed(img, lb)
    ensures GptAt(img, lb)
    ensures var header := HeaderAt(img, lb);
            NoBoot(img, TableBase(lb, header), header.entrySize, n) <==> NoneBefore(img, lb, n)
    decreases n
  {
    HeaderSpelled(img, lb);
    if n > 0 {
      NoBootSpelled(img, lb, n - 1);
      NoneBeforeNext(img, lb, n - 1);
      EntryNoSpelled(img, lb, n - 1, false);
    }
  }

  /** What a number asks for: that entry, in use, and of the right type unless that is to be ignored. */
  lemma IndexChosen(img: Image, base: nat, size: nat, count: nat, n: nat, force: bool, i: nat)
    ensures ChosenIn(img, base, size, count, Index(n), force, i) <==>
            && i < count && Inside(img, base, size, i) && i == n - 1
            && !EntryAt(img, base + i * size).unused
            && (force || EntryAt(img, base + i * size).typeGuid == BIOS_BOOT_TYPE)
  {
  }

  /** The usable partition for a number. */
  lemma NumberedUsable(img: Image, lb: nat, cfg: Config, n: nat, i: nat)
    requires Signed(img, lb) && cfg.choice == Index(n)
    ensures GptAt(img, lb)
    ensures HeadersOk(img, lb) ==>
              (Usable(img, lb, HeaderAt(img, lb), cfg, i) <==> i == n - 1 && NumberedFits(img, lb, n, cfg.force))
  {
    HeaderSpelled(img, lb);
    IndexChosen(img, TableAt(img, lb), HalfAt(img, lb + 84), Count(img, lb), n, cfg.force, i);
    if i == n - 1 {
      EntryUsable(img, lb, cfg, n);
    }
  }

  lemma EntryUsable(img: Image, lb: nat, cfg: Config, n: nat)
    requires Signed(img, lb) && GptAt(img, lb) && cfg.choice == Index(n) && n > 0
    ensures HeadersOk(img, lb) ==> (Usable(img, lb, HeaderAt(img, lb), cfg, n - 1) <==> NumberedFits(img, lb, n, cfg.force))
  {
    HeaderSpelled(img, lb);
    IndexChosen(img, TableAt(img, lb), HalfAt(img, lb + 84), Count(img, lb), n, cfg.force, n - 1);
    EntryNoSpelled(img, lb, n - 1, cfg.force);
  }

  /** And without one. */
  lemma DetectedUsable(img: Image, lb: nat, cfg: Config, i: nat)
    requires Signed(img, lb) && cfg.choice == Auto
    ensures GptAt(img, lb)
    ensures HeadersOk(img, lb) ==>
              (Usable(img, lb, HeaderAt(img, lb), cfg, i) <==> DetectedFits(img, lb, i, cfg.force))
  {
    HeaderSpelled(img, lb);
    EntryNoSpelled(img, lb, i, cfg.force);
    NoBootSpelled(img, lb, i);
  }

  // ---------------------------------------------------------------------------------------------
  // The table of an ISOHYBRID image
  // ---------------------------------------------------------------------------------------------

  /** How many of the first `n` entries are in use. */
  ghost function UsedBefore(img: Image, lb: nat, n: nat): nat
    requires Signed(img, lb)
  {
    if n == 0 then 0 else UsedBefore(img, lb, n - 1) + if InUse(img, PlaceOf(img, lb, n - 1)) then 1 else 0
  }

  /** The entry's sectors and their number fit 32 bits, and its type has a legacy counterpart. */
  predicate EntryConverts(img: Image, at: nat)
    requires at + 128 <= |img|
  {
    var first, last := WordAt(img, at + 32), WordAt(img, at + 40);
    && first < 0x1_0000_0000 && last < 0x1_0000_0000 && 0 <= last + 1 - first < 0x1_0000_0000
    && (KindIs(img[at..at + 16], 0xef) || KindIs(img[at..at + 16], 0x07) || KindIs(img[at..at + 16], 0xaf))
  }

  /** An ISO 9660 image whose table can be converted: at most four entries are in use, and each of those converts. */
  ghost predicate IsoTable(img: Image, lb: nat)
    requires Signed(img, lb)
  {
    && 32774 <= |img| && img[32769..32774] == [0x43, 0x44, 0x30, 0x30, 0x31]
    && TableAt(img, lb) < TWO64 && UsedBefore(img, lb, Count(img, lb)) <= 4
    && AllThere(img, lb, Count(img, lb)) && AllConvert(img, lb, Count(img, lb))
  }

  lemma ConvertsSpelled(img: Image, at: nat)
    requires at + 128 <= |img|
    ensures Convertible(EntryAt(img, at)) <==> EntryConverts(img, at)
  {
    var e := EntryAt(img, at);
    EntrySpelled(img, at);
  }

  /** The first `n` entries lie in the image. */
  ghost predicate AllThere(img: Image, lb: nat, n: nat)
    requires Signed(img, lb)
  {
    forall i: nat :: i < n ==> PlaceOf(img, lb, i) + 128 <= |img|
  }

  lemma AllThereNext(img: Image, lb: nat, n: nat)
    requires Signed(img, lb)
    ensures AllThere(img, lb, n + 1) <==> AllThere(img, lb, n) && PlaceOf(img, lb, n) + 128 <= |img|
  {
  }

  lemma {:induction false} InsideSpelled(img: Image, lb: nat, n: nat)
    requires Signed(img, lb)
    ensures GptAt(img, lb)
    ensures var header := HeaderAt(img, lb);
            EntriesInside(img, TableBase(lb, header), header.entrySize, n) <==> AllThere(img, lb, n)
    decreases n
  {
    HeaderSpelled(img, lb);
    if n > 0 {
      InsideSpelled(img, lb, n - 1);
      AllThereNext(img, lb, n - 1);
      EntryNoSpelled(img, lb, n - 1, false);
    }
  }

  /** The entries in use among the first `n`. */
  ghost function UsedOf(img: Image, lb: nat, n: nat): (used: seq<GptEntry>)
    requires Signed(img, lb) && AllThere(img, lb, n)
    ensures forall e :: e in used ==> |e.typeGuid| == 16
  {
    InsideSpelled(img, lb, n);
    UsedEntries(img, TableBase(lb, HeaderAt(img, lb)), HeaderAt(img, lb).entrySize, n)
  }

  lemma UsedOfNext(img: Image, lb: nat, n: nat)
    requires Signed(img, lb) && AllThere(img, lb, n + 1)
    ensures AllThere(img, lb, n)
    ensures var e := EntryAt(img, PlaceOf(img, lb, n));
            UsedOf(img, lb, n + 1) == UsedOf(img, lb, n) + if e.unused then [] else [e]
  {
    AllThereNext(img, lb, n);
    HeaderSpelled(img, lb);
    InsideSpelled(img, lb, n);
    TimesIsProduct(n, HalfAt(img, lb + 84));
    UsedNext(img, TableBase(lb, HeaderAt(img, lb)), HeaderAt(img, lb).entrySize, n);
  }

  /** They are those in use, in their order. */
  lemma {:induction false} UsedSpelled(img: Image, lb: nat, n: nat)
    requires Signed(img, lb) && AllThere(img, lb, n)
    ensures UsedAre(img, lb, UsedOf(img, lb, n), n)
    decreases n
  {
    if n > 0 {
      AllThereNext(img, lb, n - 1);
      UsedSpelled(img, lb, n - 1);
      UsedOfStep(img, lb, n - 1, n);
    }
  }

  lemma UsedOfStep(img: Image, lb: nat, n: nat, next: nat)
    requires next == n + 1
    requires Signed(img, lb) && AllThere(img, lb, n) && AllThere(img, lb, next) && UsedAre(img, lb, UsedOf(img, lb, n), n)
    ensures UsedAre(img, lb, UsedOf(img, lb, next), next)
  {
    UsedOfNext(img, lb, n);
    UsedStep(img, lb, UsedOf(img, lb, n), UsedOf(img, lb, n + 1), n);
  }

  lemma UsedStep(img: Image, lb: nat, used: seq<GptEntry>, more: seq<GptEntry>, n: nat)
    requires Signed(img, lb) && AllThere(img, lb, n + 1) && AllThere(img, lb, n)
    requires (forall e :: e in used ==> |e.typeGuid| == 16) && (forall e :: e in more ==> |e.typeGuid| == 16)
    requires UsedAre(img, lb, used, n)
    requires var e := EntryAt(img, PlaceOf(img, lb, n));
             more == used + if e.unused then [] else [e]
    ensures UsedAre(img, lb, more, n + 1)
  {
    EntrySpelled(img, PlaceOf(img, lb, n));
    assert used + [] == used;
    IndexStep(img, lb, used, more, n);
    ConvertStep(img, lb, used, more, n);
  }

  /** Each entry in use has its place among the used ones. */
  ghost predicate IndexOk(img: Image, lb: nat, used: seq<GptEntry>, n: nat)
    requires Signed(img, lb) && AllThere(img, lb, n)
  {
    forall i: nat :: i < n ==> Indexed(img, lb, used, i)
  }

  ghost predicate Indexed(img: Image, lb: nat, used: seq<GptEntry>, i: nat)
    requires Signed(img, lb)
  {
    var at := PlaceOf(img, lb, i);
    at + 128 <= |img| && InUse(img, at) ==>
      UsedBefore(img, lb, i) < |used| && used[UsedBefore(img, lb, i)] == EntryAt(img, at)
  }

  lemma IndexStep(img: Image, lb: nat, used: seq<GptEntry>, more: seq<GptEntry>, n: nat)
    requires Signed(img, lb) && AllThere(img, lb, n + 1) && AllThere(img, lb, n)
    requires |used| == UsedBefore(img, lb, n) && IndexOk(img, lb, used, n) && used <= more
    requires InUse(img, PlaceOf(img, lb, n)) ==> more == used + [EntryAt(img, PlaceOf(img, lb, n))]
    ensures IndexOk(img, lb, more, n + 1)
  {
    forall i: nat | i < n + 1
      ensures Indexed(img, lb, more, i)
    {
      if i < n {
        assert Indexed(img, lb, used, i);
      }
    }
  }

  lemma ConvertStep(img: Image, lb: nat, used: seq<GptEntry>, more: seq<GptEntry>, n: nat)
    requires Signed(img, lb) && AllThere(img, lb, n + 1) && AllThere(img, lb, n)
    requires (forall e :: e in used ==> |e.typeGuid| == 16) && (forall e :: e in more ==> |e.typeGuid| == 16)
    requires AllConvertible(used) <==> AllConvert(img, lb, n)
    requires var e := EntryAt(img, PlaceOf(img, lb, n));
             more == used + if e.unused then [] else [e]
    ensures AllConvertible(more) <==> AllConvert(img, lb, n + 1)
  {
    var e := EntryAt(img, PlaceOf(img, lb, n));
    EntrySpelled(img, PlaceOf(img, lb, n));
    ConvertsSpelled(img, PlaceOf(img, lb, n));
    OneMore(used, e);
    assert used + [] == used;
    AllConvertNext(img, lb, n);
  }

  lemma AllConvertNext(img: Image, lb: nat, n: nat)
    requires Signed(img, lb) && AllThere(img, lb, n + 1)
    ensures AllThere(img, lb, n)
    ensures AllConvert(img, lb, n + 1) <==>
            AllConvert(img, lb, n) && (InUse(img, PlaceOf(img, lb, n)) ==> EntryConverts(img, PlaceOf(img, lb, n)))
  {
  }

  ghost predicate AllConvert(img: Image, lb: nat, n: nat)
    requires Signed(img, lb) && AllThere(img, lb, n)
  {
    forall i: nat :: i < n && InUse(img, PlaceOf(img, lb, i)) ==> EntryConverts(img, PlaceOf(img, lb, i))
  }

  ghost predicate UsedAre(img: Image, lb: nat, used: seq<GptEntry>, n: nat)
    requires Signed(img, lb) && forall e :: e in used ==> |e.typeGuid| == 16
    requires AllThere(img, lb, n)
  {
    && |used| == UsedBefore(img, lb, n)
    && IndexOk(img, lb, used, n)
    && (AllConvertible(used) <==> AllConvert(img, lb, n))
  }

  lemma IsoSpelled(img: Image, lb: nat)
    requires Signed(img, lb)
    ensures GptAt(img, lb) && (ShouldConvert(img, lb, HeaderAt(img, lb)) <==> IsoTable(img, lb))
  {
    var n := Count(img, lb);
    HeaderSpelled(img, lb);
    InsideSpelled(img, lb, n);
    if AllThere(img, lb, n) {
      UsedSpelled(img, lb, n);
    }
  }
}
