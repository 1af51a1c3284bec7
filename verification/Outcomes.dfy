/** The installer from outside: for each way to install, which disks it accepts and what the disk holds in the end,
    said of the bytes on it. */
module Outcomes {
  import opened Machine
  import opened UndoLog
  import opened LittleEndian
  import opened BlockDevice
  import opened Volume
  import opened InstallerSteps
  import opened Conversion
  import opened Placement
  import opened Installer
  import opened DiskBytes

  /** What every run needs of its arguments and of the device. */
  ghost predicate Ready(d: Device, boot: Image, id: Image)
    reads d, d.cache, d.log
  {
    && d.Valid() && d.Coherent() && d.View() == d.disk && d.Log() == [] && !d.uninstalling
    && |id| == 4 && |boot| == 22647
  }

  // ---------------------------------------------------------------------------------------------
  // Without a GUID partition table
  // ---------------------------------------------------------------------------------------------

  /** No used partition starts below sector 63; and, unless that is to be ignored, all status bytes are 00 or 80 and
      the disk does not look formatted. */
  ghost predicate LegacyFits(img: Image, force: bool) {
    && |img| >= 512
    && (forall k :: 0 <= k < 4 ==> HighEnough(img, k))
    && (force || (!LooksFormatted(img, 0) && forall k :: 0 <= k < 4 ==> Sane(img, k)))
  }

  /** Slot `k` is not used, or its partition starts at sector 63 or later. */
  predicate HighEnough(img: Image, k: nat)
    requires |img| >= 512 && k < 4
  {
    img[450 + 16 * k] == 0 || HalfAt(img, 454 + 16 * k) >= 63
  }

  predicate Sane(img: Image, k: nat)
    requires |img| >= 512 && k < 4
  {
    img[446 + 16 * k] == 0 || img[446 + 16 * k] == 0x80
  }

  /** The byte of slot `k` that says whether its partition is active: only its high bit stays, unless it is one of the
      two sane values; and the first is set if none is. */
  function StatusAfter(img: Image, k: nat): Byte
    requires |img| >= 512 && k < 4
  {
    if k == 0 && img[446] < 0x80 && img[462] < 0x80 && img[478] < 0x80 && img[494] < 0x80 then 0x80
    else if img[446 + 16 * k] >= 0x80 then 0x80
    else 0
  }

  /** The disk after an install to a legacy disk. */
  ghost predicate LegacyImage(img: Image, img': Image, boot: Image)
    requires |img| >= 512 && |boot| == 22647
  {
    && |img'| == |img|
    && img'[420..428] == [0, 2, 0, 0, 0, 0, 0, 0]
    && (forall k :: 0 <= k < 4 ==> img'[446 + 16 * k] == StatusAfter(img, k))
    && (forall x :: 0 <= x < |img| && !(420 <= x < 428) && x !in {446, 462, 478, 494} ==>
          img'[x] == if 218 <= x < 224 || 440 <= x < 510 || x >= 22647 then img[x] else boot[x])
  }

  lemma LegacySpelled(img: Image, cfg: Config)
    requires !Signed(img, 512) && !Signed(img, 4096)
    ensures LogicalBlock(img) == 0 && (Acceptable(img, cfg) <==> LegacyFits(img, cfg.force))
  {
    TableSpelledAt(img, 512);
    FormattedSpelled(img, 0);
    if |img| >= 512 {
      forall k | 0 <= k < 4
        ensures StartsHighEnough(img, k) <==> HighEnough(img, k)
        ensures StatusOk(img, k) <==> Sane(img, k)
      {
      }
    }
  }

  /** The bytes of the prepared disk that no wipe of a signature can reach. */
  lemma LegacyPreparedAt(img: Image, x: nat)
    requires 512 <= |img| && x < |img| && (87 <= x < 1080 || 1082 <= x)
    ensures LegacyPrepared(img)[x] ==
            if x == 446 && !AnyActive(img) then 0x80
            else if StatusByte(x, 4) then RepairedStatus(img[x])
            else img[x]
  {
    LegacyPreparedTable(img);
    CleansedFrame(Repaired(img), 0, CHECK_COUNT);
  }

  lemma StatusSpelled(img: Image, k: nat)
    requires |img| >= 512 && k < 4
    ensures LegacyPrepared(img)[446 + 16 * k] == StatusAfter(img, k)
  {
    LegacyPreparedAt(img, 446 + 16 * k);
    StatusAt(k);
    AnySpelled(img);
  }

  lemma StatusAt(k: nat)
    requires k < 4
    ensures StatusByte(446 + 16 * k, 4)
  {
  }

  lemma LegacyElsewhere(img: Image, x: nat)
    requires 512 <= |img| && x < |img| && (87 <= x < 1080 || 1082 <= x) && x !in {446, 462, 478, 494}
    ensures LegacyPrepared(img)[x] == img[x]
  {
    LegacyPreparedAt(img, x);
    if StatusByte(x, 4) {
      StatusOnlyAt(x);
    }
  }

  lemma StatusOnlyAt(x: nat)
    requires StatusByte(x, 4)
    ensures x in {446, 462, 478, 494}
  {
  }

  lemma AnySpelled(img: Image)
    requires |img| >= 512
    ensures AnyActive(img) <==> img[446] >= 0x80 || img[462] >= 0x80 || img[478] >= 0x80 || img[494] >= 0x80
  {
    assert Active(img, 0) <==> img[446] >= 0x80;
    assert Active(img, 1) <==> img[462] >= 0x80;
    assert Active(img, 2) <==> img[478] >= 0x80;
    assert Active(img, 3) <==> img[494] >= 0x80;
  }

  lemma Location512()
    ensures LeBytes(512, 8) == [0, 2, 0, 0, 0, 0, 0, 0]
  {
    assert LeBytes(0, 6) == [0, 0, 0, 0, 0, 0];
    assert LeBytes(2, 7) == [2] + LeBytes(0, 6);
    assert LeBytes(512, 8) == [0] + LeBytes(2, 7);
  }

  /** What the final writes put around the partition table. */
  lemma StagesSpelled(img: Image, img': Image, boot: Image, loc: Word, x: nat)
    requires Installed(img, img', boot, loc) && x < |img| && !(420 <= x < 428)
    ensures img'[420..428] == LeBytes(loc, 8)
    ensures img'[x] == FinalByte(img, boot, loc, x)
  {
    StagesInPlace(img, img', boot, loc);
  }

  lemma LegacyOutcome(img: Image, prepared: Image, img': Image, cfg: Config, boot: Image, id: Image, loc: Word)
    requires Prepared(img, prepared, cfg, id, Legacy, loc) && Installed(prepared, img', boot, loc)
    ensures LegacyImage(img, img', boot)
  {
    Location512();
    StagesSpelled(prepared, img', boot, loc, 0);
    forall k | 0 <= k < 4
      ensures img'[446 + 16 * k] == StatusAfter(img, k)
    {
      StatusSpelled(img, k);
      StagesSpelled(prepared, img', boot, loc, 446 + 16 * k);
    }
    forall x | 0 <= x < |img| && !(420 <= x < 428) && x !in {446, 462, 478, 494}
      ensures img'[x] == if 218 <= x < 224 || 440 <= x < 510 || x >= 22647 then img[x] else boot[x]
    {
      StagesSpelled(prepared, img', boot, loc, x);
      if 218 <= x < 224 || 440 <= x < 510 || x >= 22647 {
        LegacyElsewhere(img, x);
      }
    }
  }

  /** An install to a disk without a GUID partition table. */
  method InstallLegacy(d: Device, cfg: Config, boot: Image, id: Image) returns (ok: bool)
    requires Ready(d, boot, id) && (cfg.choice.Index? ==> cfg.choice.n < 0x1_0000_0000)
    requires !Signed(d.disk, 512) && !Signed(d.disk, 4096)
    modifies d, d.cache, d.log, d.logReversed
    ensures ok ==> LegacyFits(old(d.disk), cfg.force) && LegacyImage(old(d.disk), d.disk, boot)
    ensures !ok ==> d.disk == old(d.disk)
    ensures d.CanAccess(0, |old(d.disk)|) && 32768 <= |old(d.disk)| ==> (ok <==> LegacyFits(old(d.disk), cfg.force))
  {
    ghost var img := d.disk;
    LegacySpelled(img, cfg);
    var file, target, loc;
    ghost var prepared;
    ok, file, target, loc, prepared := Install(d, cfg, boot, id);
    if ok {
      LegacyOutcome(img, prepared, d.disk, cfg, boot, id, loc);
    }
  }

  // ---------------------------------------------------------------------------------------------
  // To a partition
  // ---------------------------------------------------------------------------------------------

  /** The disk after an install to a partition that starts at `loc`: the boot sector with that place in it, the
      second stage there, and everything else as it was. */
  ghost predicate PartitionImage(img: Image, img': Image, boot: Image, loc: Word)
    requires |boot| == 22647
  {
    && |img'| == |img| && 512 <= |img| && loc + 22135 <= |img|
    && img'[420..428] == LeBytes(loc, 8)
    && (forall x :: 0 <= x < |img| && !(420 <= x < 428) ==> img'[x] == FinalByte(img, boot, loc, x))
  }

  /** Byte `x`: kept in the first sector if it belongs to the timestamp, the identifier or the table; otherwise that of
      the second stage, of the boot sector, or of the disk. */
  function FinalByte(img: Image, boot: Image, loc: nat, x: nat): Byte
    requires |boot| == 22647 && x < |img|
  {
    if 218 <= x < 224 || 440 <= x < 510 then img[x]
    else if loc <= x < loc + 22135 then boot[512 + x - loc]
    else if x < 512 then boot[x]
    else img[x]
  }

  lemma PartitionOutcome(img: Image, prepared: Image, img': Image, cfg: Config, boot: Image, id: Image, i: nat, loc: Word)
    requires Prepared(img, prepared, cfg, id, Partition(i), loc) && Installed(prepared, img', boot, loc)
    ensures PartitionImage(img, img', boot, loc)
  {
    StagesSpelled(prepared, img', boot, loc, 0);
    forall x | 0 <= x < |img| && !(420 <= x < 428)
      ensures img'[x] == FinalByte(img, boot, loc, x)
    {
      StagesSpelled(prepared, img', boot, loc, x);
      WipedSpelled(img, loc, x);
    }
  }

  /** A wipe of signatures meets neither what is kept of the first sector nor anything outside the second stage. */
  lemma WipedSpelled(img: Image, loc: nat, x: nat)
    requires loc % 512 == 0 && x < |img|
    ensures 218 <= x < 224 || 440 <= x < 510 || !(loc <= x < loc + 22135) ==> Cleansed(img, loc)[x] == img[x]
  {
    CleansedFrame(img, loc, CHECK_COUNT);
  }

  /** The disk is not one that is converted first. */
  ghost predicate StaysGpt(img: Image, lb: nat, convert: bool)
    requires Signed(img, lb)
  {
    !(convert && IsoTable(img, lb))
  }

  lemma WillConvertSpelled(img: Image, lb: nat, cfg: Config)
    requires HasTable(img, lb)
    ensures LogicalBlock(img) == lb && (WillConvert(img, cfg) <==> !StaysGpt(img, lb, cfg.convert))
  {
    TableSpelledAt(img, lb);
    IsoSpelled(img, lb);
  }

  /** Nothing that an install to a partition which starts at block `first` needs lies behind the end of the disk. */
  ghost predicate HasRoom(img: Image, lb: nat, convert: bool, first: nat)
    requires Signed(img, lb)
  {
    && 32774 <= |img| && lb * first + 32768 <= |img|
    && (convert && img[32769..32774] == [0x43, 0x44, 0x30, 0x30, 0x31] ==> AllThere(img, lb, Count(img, lb)))
  }

  lemma RoomySpelled(img: Image, lb: nat, cfg: Config, first: nat)
    requires HasTable(img, lb) && StaysGpt(img, lb, cfg.convert) && HasRoom(img, lb, cfg.convert, first) && GptAt(img, lb)
    requires forall i: nat :: Usable(img, lb, HeaderAt(img, lb), cfg, i) ==>
               PartStart(lb, EntryNo(img, lb, HeaderAt(img, lb), i)) == lb * first
    ensures Roomy(img, cfg)
  {
    WillConvertSpelled(img, lb, cfg);
    IsoSpelled(img, lb);
    InsideSpelled(img, lb, Count(img, lb));
    HeaderSpelled(img, lb);
  }

  /** The second stage went to where the partition of entry `i` starts; and unless that was to be ignored, the first
      sixteen bytes of the entry are "Hah!IdontNeedEFI". */
  ghost predicate InstalledTo(img: Image, img': Image, lb: nat, i: nat, force: bool, boot: Image)
    requires Signed(img, lb) && |boot| == 22647
  {
    var at := PlaceOf(img, lb, i);
    && at + 128 <= |img| && lb * WordAt(img, at + 32) < TWO64
    && (force || img[at..at + 16] ==
        [0x48, 0x61, 0x68, 0x21, 0x49, 0x64, 0x6f, 0x6e, 0x74, 0x4e, 0x65, 0x65, 0x64, 0x45, 0x46, 0x49])
    && PartitionImage(img, img', boot, lb * WordAt(img, at + 32))
  }

  /** An install to the partition with number `n`.  It succeeds only on one that is in use, and without force only on
      one of the type for BIOS boot code; if the disk works and has room, exactly on one that fits. */
  method InstallNumbered(d: Device, lb: nat, n: nat, force: bool, convert: bool, boot: Image, id: Image) returns (ok: bool)
    requires Ready(d, boot, id) && n < 0x1_0000_0000
    requires HasTable(d.disk, lb) && StaysGpt(d.disk, lb, convert)
    modifies d, d.cache, d.log, d.logReversed
    ensures ok ==> NumberedFits(old(d.disk), lb, n, force) && InstalledTo(old(d.disk), d.disk, lb, n - 1, force, boot)
    ensures !ok ==> d.disk == old(d.disk)
    ensures NumberedFits(old(d.disk), lb, n, force) && d.CanAccess(0, |old(d.disk)|) ==>
              HasRoom(old(d.disk), lb, convert, WordAt(old(d.disk), PlaceOf(old(d.disk), lb, n - 1) + 32)) ==> ok
  {
    ghost var img := d.disk;
    ghost var fits := NumberedFits(img, lb, n, force);
    ghost var room := fits && HasRoom(img, lb, convert, WordAt(img, PlaceOf(img, lb, n - 1) + 32));
    ok := InstallIndex(d, lb, Config(force, convert, Index(n)), n, boot, id, fits, room);
  }

  method InstallIndex(d: Device, lb: nat, cfg: Config, n: nat, boot: Image, id: Image, ghost fits: bool, ghost room: bool)
    returns (ok: bool)
    requires Ready(d, boot, id) && n < 0x1_0000_0000 && cfg.choice == Index(n)
    requires HasTable(d.disk, lb) && StaysGpt(d.disk, lb, cfg.convert)
    requires fits == NumberedFits(d.disk, lb, n, cfg.force)
    requires room ==> fits && HasRoom(d.disk, lb, cfg.convert, WordAt(d.disk, PlaceOf(d.disk, lb, n - 1) + 32))
    modifies d, d.cache, d.log, d.logReversed
    ensures ok ==> fits && InstalledTo(old(d.disk), d.disk, lb, n - 1, cfg.force, boot)
    ensures !ok ==> d.disk == old(d.disk)
    ensures room && d.CanAccess(0, |old(d.disk)|) ==> ok
  {
    ghost var img := d.disk;
    NumberedAcceptable(img, lb, cfg, n);
    if room {
      NumberedRoomy(img, lb, cfg, n);
    }
    var file, target, loc;
    ghost var prepared;
    ok, file, target, loc, prepared := Install(d, cfg, boot, id);
    if ok {
      NumberedOutcome(img, prepared, d.disk, lb, cfg, n, boot, id, target, loc);
    }
  }

  lemma NumberedOutcome(img: Image, prepared: Image, img': Image, lb: nat, cfg: Config, n: nat, boot: Image, id: Image,
                        target: Target, loc: Word)
    requires HasTable(img, lb) && StaysGpt(img, lb, cfg.convert) && cfg.choice == Index(n)
    requires Prepared(img, prepared, cfg, id, target, loc) && Installed(prepared, img', boot, loc)
    requires NumberedFits(img, lb, n, cfg.force)
    ensures InstalledTo(img, img', lb, n - 1, cfg.force, boot)
  {
    NumberedPrepared(img, prepared, lb, cfg, n, id, target, loc);
    PartitionOutcome(img, prepared, img', cfg, boot, id, target.number, loc);
  }

  lemma NumberedAcceptable(img: Image, lb: nat, cfg: Config, n: nat)
    requires HasTable(img, lb) && StaysGpt(img, lb, cfg.convert) && cfg.choice == Index(n)
    ensures Acceptable(img, cfg) <==> NumberedFits(img, lb, n, cfg.force)
  {
    WillConvertSpelled(img, lb, cfg);
    SoundSpelled(img, lb);
    NumberedOnly(img, lb, cfg, n);
    if NumberedFits(img, lb, n, cfg.force) {
      assert Usable(img, lb, HeaderAt(img, lb), cfg, n - 1);
    }
  }

  lemma NumberedOnly(img: Image, lb: nat, cfg: Config, n: nat)
    requires Signed(img, lb) && cfg.choice == Index(n)
    ensures GptAt(img, lb)
    ensures HeadersOk(img, lb) ==>
              forall i: nat :: Usable(img, lb, HeaderAt(img, lb), cfg, i) <==> i == n - 1 && NumberedFits(img, lb, n, cfg.force)
  {
    HeaderSpelled(img, lb);
    forall i: nat
      ensures HeadersOk(img, lb) ==>
                (Usable(img, lb, HeaderAt(img, lb), cfg, i) <==> i == n - 1 && NumberedFits(img, lb, n, cfg.force))
    {
      NumberedUsable(img, lb, cfg, n, i);
    }
  }

  lemma NumberedRoomy(img: Image, lb: nat, cfg: Config, n: nat)
    requires HasTable(img, lb) && StaysGpt(img, lb, cfg.convert) && cfg.choice == Index(n)
    requires NumberedFits(img, lb, n, cfg.force)
    requires HasRoom(img, lb, cfg.convert, WordAt(img, PlaceOf(img, lb, n - 1) + 32))
    ensures Roomy(img, cfg)
  {
    HeaderSpelled(img, lb);
    forall i: nat | Usable(img, lb, HeaderAt(img, lb), cfg, i)
      ensures PartStart(lb, EntryNo(img, lb, HeaderAt(img, lb), i)) == lb * WordAt(img, PlaceOf(img, lb, n - 1) + 32)
    {
      NumberedStart(img, lb, cfg, n, i);
    }
    RoomySpelled(img, lb, cfg, WordAt(img, PlaceOf(img, lb, n - 1) + 32));
  }

  lemma NumberedStart(img: Image, lb: nat, cfg: Config, n: nat, i: nat)
    requires Signed(img, lb) && GptAt(img, lb) && cfg.choice == Index(n) && NumberedFits(img, lb, n, cfg.force)
    requires Usable(img, lb, HeaderAt(img, lb), cfg, i)
    ensures PartStart(lb, EntryNo(img, lb, HeaderAt(img, lb), i)) == lb * WordAt(img, PlaceOf(img, lb, n - 1) + 32)
  {
    NumberedUsable(img, lb, cfg, n, i);
    EntryNoSpelled(img, lb, i, cfg.force);
  }

  lemma NumberedPrepared(img: Image, prepared: Image, lb: nat, cfg: Config, n: nat, id: Image, target: Target, loc: Word)
    requires HasTable(img, lb) && StaysGpt(img, lb, cfg.convert) && cfg.choice == Index(n)
    requires Prepared(img, prepared, cfg, id, target, loc) && NumberedFits(img, lb, n, cfg.force)
    ensures target.Partition? && loc == lb * WordAt(img, PlaceOf(img, lb, n - 1) + 32)
  {
    WillConvertSpelled(img, lb, cfg);
    HeaderSpelled(img, lb);
    if target.Partition? {
      NumberedStart(img, lb, cfg, n, target.number);
    }
  }

  /** A partition that fits but for its type is installed to with force, and refused without it. */
  method ForceDecides(d: Device, lb: nat, n: nat, force: bool, convert: bool, boot: Image, id: Image) returns (ok: bool)
    requires Ready(d, boot, id) && n < 0x1_0000_0000 && d.CanAccess(0, |d.disk|)
    requires HasTable(d.disk, lb) && StaysGpt(d.disk, lb, convert) && NumberedFits(d.disk, lb, n, true)
    requires HasRoom(d.disk, lb, convert, WordAt(d.disk, PlaceOf(d.disk, lb, n - 1) + 32))
    requires !IsBiosBoot(d.disk, PlaceOf(d.disk, lb, n - 1))
    modifies d, d.cache, d.log, d.logReversed
    ensures ok <==> force
    ensures !force ==> d.disk == old(d.disk)
  {
    ok := InstallNumbered(d, lb, n, force, convert, boot, id);
  }

  /** An install to a partition the installer is to find: it goes to the first of the type for BIOS boot code. */
  method InstallDetected(d: Device, lb: nat, force: bool, convert: bool, boot: Image, id: Image)
    returns (ok: bool, ghost i: nat)
    requires Ready(d, boot, id)
    requires HasTable(d.disk, lb) && StaysGpt(d.disk, lb, convert)
    modifies d, d.cache, d.log, d.logReversed
    ensures ok ==> DetectedFits(old(d.disk), lb, i, force) && InstalledTo(old(d.disk), d.disk, lb, i, false, boot)
    ensures !ok ==> d.disk == old(d.disk)
    ensures !ok && d.CanAccess(0, |old(d.disk)|) ==>
              forall j: nat :: DetectedFits(old(d.disk), lb, j, force) ==>
                !HasRoom(old(d.disk), lb, convert, WordAt(old(d.disk), PlaceOf(old(d.disk), lb, j) + 32))
  {
    ghost var img := d.disk;
    var cfg := Config(force, convert, Auto);
    DetectedAcceptable(img, lb, cfg);
    forall j: nat | DetectedFits(img, lb, j, force) && HasRoom(img, lb, convert, WordAt(img, PlaceOf(img, lb, j) + 32))
      ensures Roomy(img, cfg)
    {
      DetectedRoomy(img, lb, cfg, j);
    }
    var file, target, loc;
    ghost var prepared;
    ok, file, target, loc, prepared := Install(d, cfg, boot, id);
    i := 0;
    if ok {
      i := DetectedOutcome(img, prepared, d.disk, lb, cfg, boot, id, target, loc);
    }
  }

  lemma DetectedAcceptable(img: Image, lb: nat, cfg: Config)
    requires HasTable(img, lb) && StaysGpt(img, lb, cfg.convert) && cfg.choice == Auto
    ensures Acceptable(img, cfg) <==> exists i: nat :: DetectedFits(img, lb, i, cfg.force)
  {
    WillConvertSpelled(img, lb, cfg);
    SoundSpelled(img, lb);
    if HeadersOk(img, lb) {
      forall i: nat
        ensures Usable(img, lb, HeaderAt(img, lb), cfg, i) <==> DetectedFits(img, lb, i, cfg.force)
      {
        DetectedUsable(img, lb, cfg, i);
      }
    }
  }

  lemma DetectedStart(img: Image, lb: nat, cfg: Config, i: nat)
    requires Signed(img, lb) && GptAt(img, lb) && cfg.choice == Auto && HeadersOk(img, lb)
    requires Usable(img, lb, HeaderAt(img, lb), cfg, i)
    ensures DetectedFits(img, lb, i, cfg.force)
    ensures PartStart(lb, EntryNo(img, lb, HeaderAt(img, lb), i)) == lb * WordAt(img, PlaceOf(img, lb, i) + 32)
  {
    DetectedUsable(img, lb, cfg, i);
    EntryNoSpelled(img, lb, i, cfg.force);
  }

  lemma DetectedSame(img: Image, lb: nat, cfg: Config, i: nat, j: nat)
    requires Signed(img, lb) && GptAt(img, lb) && cfg.choice == Auto && HeadersOk(img, lb)
    requires Usable(img, lb, HeaderAt(img, lb), cfg, i) && Usable(img, lb, HeaderAt(img, lb), cfg, j)
    requires PlaceOf(img, lb, j) + 128 <= |img|
    ensures PartStart(lb, EntryNo(img, lb, HeaderAt(img, lb), i)) == lb * WordAt(img, PlaceOf(img, lb, j) + 32)
  {
    ChosenUnique(img, lb, HeaderAt(img, lb), cfg.choice, cfg.force, i, j);
    DetectedStart(img, lb, cfg, j);
    assert i == j;
  }

  lemma DetectedRoomy(img: Image, lb: nat, cfg: Config, j: nat)
    requires HasTable(img, lb) && StaysGpt(img, lb, cfg.convert) && cfg.choice == Auto
    requires DetectedFits(img, lb, j, cfg.force) && HasRoom(img, lb, cfg.convert, WordAt(img, PlaceOf(img, lb, j) + 32))
    ensures Roomy(img, cfg)
  {
    HeaderSpelled(img, lb);
    DetectedUsable(img, lb, cfg, j);
    forall i: nat | Usable(img, lb, HeaderAt(img, lb), cfg, i)
      ensures PartStart(lb, EntryNo(img, lb, HeaderAt(img, lb), i)) == lb * WordAt(img, PlaceOf(img, lb, j) + 32)
    {
      DetectedSame(img, lb, cfg, i, j);
    }
    RoomySpelled(img, lb, cfg, WordAt(img, PlaceOf(img, lb, j) + 32));
  }

  lemma DetectedOutcome(img: Image, prepared: Image, img': Image, lb: nat, cfg: Config, boot: Image, id: Image,
                        target: Target, loc: Word) returns (i: nat)
    requires HasTable(img, lb) && StaysGpt(img, lb, cfg.convert) && cfg.choice == Auto && Acceptable(img, cfg)
    requires Prepared(img, prepared, cfg, id, target, loc) && Installed(prepared, img', boot, loc)
    ensures DetectedFits(img, lb, i, cfg.force) && InstalledTo(img, img', lb, i, false, boot)
  {
    WillConvertSpelled(img, lb, cfg);
    SoundSpelled(img, lb);
    i := target.number;
    DetectedStart(img, lb, cfg, i);
    PartitionOutcome(img, prepared, img', cfg, boot, id, i, loc);
  }

  // ---------------------------------------------------------------------------------------------
  // With a conversion
  // ---------------------------------------------------------------------------------------------

  /** No partition in use starts below sector 63. */
  ghost predicate AllHigh(img: Image, lb: nat)
    requires Signed(img, lb) && AllThere(img, lb, Count(img, lb))
  {
    forall i: nat :: i < Count(img, lb) ==> High(img, lb, i)
  }

  ghost predicate High(img: Image, lb: nat, i: nat)
    requires Signed(img, lb)
  {
    var at := PlaceOf(img, lb, i);
    at + 128 <= |img| && InUse(img, at) ==> WordAt(img, at + 32) >= 63
  }

  /** The table after the conversion: the entries in use, in their order, one slot each, the first slot active; and
      nothing else. */
  ghost predicate ConvertedTable(img: Image, img': Image, lb: nat)
    requires Signed(img, lb) && IsoTable(img, lb) && |img'| >= 512
  {
    && (forall i: nat :: i < Count(img, lb) && InUse(img, PlaceOf(img, lb, i)) ==>
          SlotOfEntry(img, img', PlaceOf(img, lb, i), UsedBefore(img, lb, i)))
    && (UsedBefore(img, lb, Count(img, lb)) == 0 ==> img'[446] == 0x80)
    && (forall x :: 446 < x < 510 && 446 + 16 * UsedBefore(img, lb, Count(img, lb)) <= x ==> img'[x] == 0)
  }

  /** Slot `k` has what the entry at `at` says. */
  ghost predicate SlotOfEntry(img: Image, img': Image, at: nat, k: nat)
    requires at + 128 <= |img| && |img'| >= 512
  {
    && k < 4
    && SlotIs(img', k, if k == 0 then 0x80 else 0, WordAt(img, at + 32), WordAt(img, at + 40), img'[450 + 16 * k])
    && KindIs(img[at..at + 16], img'[450 + 16 * k])
  }

  /** The disk after an install with a conversion. */
  ghost predicate ConvertedImage(img: Image, img': Image, lb: nat, boot: Image, id: Image)
    requires Signed(img, lb) && IsoTable(img, lb) && |boot| == 22647 && |id| == 4
  {
    && |img'| == |img|
    && ConvertedTable(img, img', lb)
    && img'[440..444] == id && img'[420..428] == [0, 2, 0, 0, 0, 0, 0, 0]
    && (forall x :: 0 <= x < |img| && !(420 <= x < 428) && !(440 <= x < 444) && !(446 <= x < 510) ==>
          img'[x] == ConvertedByte(img, lb, boot, x))
  }

  lemma ConvertedOutcome(img: Image, prepared: Image, img': Image, lb: nat, cfg: Config, boot: Image, id: Image,
                         parts: seq<Part>, loc: Word)
    requires HasTable(img, lb) && IsoTable(img, lb)
    requires Prepared(img, prepared, cfg, id, FromGpt(parts), loc) && Installed(prepared, img', boot, loc)
    ensures ConvertedImage(img, img', lb, boot, id)
  {
    TableSpelledAt(img, lb);
    HeaderSpelled(img, lb);
    ConversionComplete(img, prepared, img', cfg, boot, id, parts, loc);
    ConvertedSlots(img, img', lb);
    Location512();
    StagesSpelled(prepared, img', boot, loc, 0);
    forall x | 0 <= x < |img| && !(420 <= x < 428) && !(440 <= x < 444) && !(446 <= x < 510)
      ensures img'[x] == ConvertedByte(img, lb, boot, x)
    {
      StagesSpelled(prepared, img', boot, loc, x);
    }
  }

  function ConvertedByte(img: Image, lb: nat, boot: Image, x: nat): Byte
    requires Signed(img, lb) && |boot| == 22647 && x < |img|
  {
    var alt := WordAt(img, lb + 32);
    if 218 <= x < 224 || 444 <= x < 446 then 0
    else if x < 22647 then boot[x]
    else if x < 34 * lb || (alt >= 32 && (alt - 32) * lb <= x < (alt + 1) * lb) then 0
    else img[x]
  }

  lemma ConvertedSlots(img: Image, img': Image, lb: nat)
    requires Signed(img, lb) && IsoTable(img, lb) && |img'| >= 512 && TableSays(img', UsedOf(img, lb, Count(img, lb)))
    ensures ConvertedTable(img, img', lb)
  {
    UsedSpelled(img, lb, Count(img, lb));
    forall i: nat | i < Count(img, lb) && InUse(img, PlaceOf(img, lb, i))
      ensures SlotOfEntry(img, img', PlaceOf(img, lb, i), UsedBefore(img, lb, i))
    {
      assert Indexed(img, lb, UsedOf(img, lb, Count(img, lb)), i);
      EntrySpelled(img, PlaceOf(img, lb, i));
    }
  }

  /** The blocks that are wiped, the first 34 and those up to the second header, are all there. */
  predicate WipesFit(img: Image, lb: nat)
    requires Signed(img, lb)
  {
    34 * lb <= |img| && (WordAt(img, lb + 32) + 1) * lb <= |img|
  }

  /** An install with a conversion. */
  method InstallConverted(d: Device, lb: nat, cfg: Config, boot: Image, id: Image) returns (ok: bool)
    requires Ready(d, boot, id) && (cfg.choice.Index? ==> cfg.choice.n < 0x1_0000_0000)
    requires HasTable(d.disk, lb) && cfg.convert && IsoTable(d.disk, lb)
    modifies d, d.cache, d.log, d.logReversed
    ensures ok ==> HeadersOk(old(d.disk), lb) && AllHigh(old(d.disk), lb) && ConvertedImage(old(d.disk), d.disk, lb, boot, id)
    ensures !ok ==> d.disk == old(d.disk)
    ensures d.CanAccess(0, |old(d.disk)|) && WipesFit(old(d.disk), lb) ==>
              (ok <==> HeadersOk(old(d.disk), lb) && AllHigh(old(d.disk), lb))
  {
    ghost var img := d.disk;
    ConvertedAcceptable(img, lb, cfg);
    if WipesFit(img, lb) {
      ConvertedRoomy(img, lb, cfg);
    }
    var file, target, loc;
    ghost var prepared;
    ok, file, target, loc, prepared := Install(d, cfg, boot, id);
    if ok {
      ConvertedOutcome(img, prepared, d.disk, lb, cfg, boot, id, target.parts, loc);
    }
  }

  lemma ConvertedAcceptable(img: Image, lb: nat, cfg: Config)
    requires HasTable(img, lb) && cfg.convert && IsoTable(img, lb)
    ensures LogicalBlock(img) == lb && WillConvert(img, cfg)
    ensures Acceptable(img, cfg) <==> HeadersOk(img, lb) && AllHigh(img, lb)
  {
    WillConvertSpelled(img, lb, cfg);
    SoundSpelled(img, lb);
    IsoSpelled(img, lb);
    HighSpelled(img, lb);
  }

  lemma ConvertedRoomy(img: Image, lb: nat, cfg: Config)
    requires HasTable(img, lb) && cfg.convert && IsoTable(img, lb)
    requires WipesFit(img, lb)
    ensures Roomy(img, cfg)
  {
    WillConvertSpelled(img, lb, cfg);
    HeaderSpelled(img, lb);
    InsideSpelled(img, lb, Count(img, lb));
  }

  lemma HighSpelled(img: Image, lb: nat)
    requires Signed(img, lb) && IsoTable(img, lb) && GptAt(img, lb) && ShouldConvert(img, lb, HeaderAt(img, lb))
    ensures (forall p :: p in PartsOf(img, lb, HeaderAt(img, lb)) ==> p.start >= 63) <==> AllHigh(img, lb)
  {
    HeaderSpelled(img, lb);
    var n := Count(img, lb);
    var used := UsedOf(img, lb, n);
    var parts := PartsOf(img, lb, HeaderAt(img, lb));
    assert |parts| == |used| && forall k :: 0 <= k < |used| ==> parts[k].start == used[k].startLba;
    UsedHigh(img, lb);
    assert (forall p :: p in parts ==> p.start >= 63) <==> (forall k :: 0 <= k < |parts| ==> parts[k].start >= 63);
  }

  lemma UsedHigh(img: Image, lb: nat)
    requires Signed(img, lb) && AllThere(img, lb, Count(img, lb))
    ensures (forall k :: 0 <= k < |UsedOf(img, lb, Count(img, lb))| ==> UsedOf(img, lb, Count(img, lb))[k].startLba >= 63) <==>
            AllHigh(img, lb)
  {
    var n := Count(img, lb);
    var used := UsedOf(img, lb, n);
    UsedSpelled(img, lb, n);
    if AllHigh(img, lb) {
      forall k | 0 <= k < |used|
        ensures used[k].startLba >= 63
      {
        var i := UsedSome(img, lb, n, k);
        assert Indexed(img, lb, used, i) && High(img, lb, i);
        EntrySpelled(img, PlaceOf(img, lb, i));
      }
    }
    if forall k :: 0 <= k < |used| ==> used[k].startLba >= 63 {
      forall i: nat | i < n
        ensures High(img, lb, i)
      {
        assert Indexed(img, lb, used, i);
        if InUse(img, PlaceOf(img, lb, i)) {
          EntrySpelled(img, PlaceOf(img, lb, i));
        }
      }
    }
  }

  /** Each place among the used entries belongs to an entry in use. */
  lemma {:induction false} UsedSome(img: Image, lb: nat, n: nat, k: nat) returns (i: nat)
    requires Signed(img, lb) && k < UsedBefore(img, lb, n)
    ensures i < n && InUse(img, PlaceOf(img, lb, i)) && UsedBefore(img, lb, i) == k
    decreases n
  {
    if k < UsedBefore(img, lb, n - 1) {
      i := UsedSome(img, lb, n - 1, k);
    } else {
      i := n - 1;
    }
  }
}
