/** The BIOS installer: what the disk holds in the end, and that a run which fails leaves no trace. */
module Installer {
  import opened Machine
  import opened UndoLog
  import opened LittleEndian
  import opened BlockDevice
  import opened FlatDisk
  import opened Volume
  import opened InstallerSteps
  import opened Conversion
  import opened Placement
  import opened UninstallFile

  const IMAGE_SIZE: int := 22647

  // ---------------------------------------------------------------------------------------------
  // The final writes
  // ---------------------------------------------------------------------------------------------

  /** Bytes of sector 0 that stay as they were: the timestamp, and the identifier and the table. */
  predicate KeptByte(x: int) { 218 <= x < 224 || 440 <= x < 510 }

  predicate LocationByte(x: int) { 420 <= x < 428 }

  /** What byte `x` becomes when the stages are installed, with the second at `loc`. */
  function InstalledByte(img: Image, boot: Image, loc: Word, x: nat): Byte
    requires |boot| == IMAGE_SIZE && x < |img|
  {
    if KeptByte(x) then img[x]
    else if LocationByte(x) then LeBytes(loc, 8)[x - 420]
    else if loc <= x < loc + IMAGE_SIZE - 512 then boot[512 + x - loc]
    else if x < 512 then boot[x]
    else img[x]
  }

  ghost predicate Installed(img: Image, img': Image, boot: Image, loc: Word) {
    && |boot| == IMAGE_SIZE
    && |img'| == |img| && 512 <= |img| && loc + IMAGE_SIZE - 512 <= |img|
    && (forall x :: 0 <= x < |img| ==> img'[x] == InstalledByte(img, boot, loc, x))
  }

  lemma StagesMerge(img: Image, boot: Image, loc: Word)
    requires |boot| == IMAGE_SIZE && 512 <= |img| && loc + IMAGE_SIZE - 512 <= |img|
    ensures var stage1 := Patch(img, 0, boot[..512]);
            var stage2 := Patch(stage1, loc, boot[512..]);
            var located := Patch(stage2, 420, LeBytes(loc, 8));
            var stamped := Patch(located, 218, img[218..224]);
            Installed(img, Patch(stamped, 440, img[440..510]), boot, loc)
  {
  }

  /** Writes both stages, tells the first where the second is, and puts back what must stay. */
  method WriteStages(f: Disk, boot: Image, loc: Word) returns (err: bool)
    requires f.Running() && |boot| == IMAGE_SIZE
    modifies f
    ensures f.Valid() && (err <==> f.failed.Some?) && f.writes <= old(f.writes) + 5
    ensures f.Whole() && 512 <= |f.orig| && loc + IMAGE_SIZE - 512 <= |f.orig| ==> !err
    ensures !err ==> Installed(old(f.image), f.image, boot, loc)
  {
    var read, timestamp := f.Read(218, 6);
    if !read { return true; }
    var table;
    read, table := f.Read(440, 70);
    if !read { return true; }
    var written := f.Write(0, boot[..512]);
    if !written { return true; }
    written := f.Write(loc, boot[512..]);
    if !written { return true; }
    written := f.Write(0x1a4, LeBytes(loc, 8));
    if !written { return true; }
    written := f.Write(218, timestamp);
    if !written { return true; }
    written := f.Write(440, table);
    if !written { return true; }
    StagesMerge(old(f.image), boot, loc);
    return false;
  }

  /** Sector 0 is the boot sector, but for the location and what is kept. */
  ghost predicate SectorIsBoot(img': Image, boot: Image)
    requires |img'| >= 512 && |boot| == IMAGE_SIZE
  {
    forall x :: 0 <= x < 512 && !KeptByte(x) && !LocationByte(x) ==> img'[x] == boot[x]
  }

  /** Where the stages end up.  The second is intact wherever it does not reach into sector 0, and
      what is kept is what it was. */
  lemma StagesInPlace(img: Image, img': Image, boot: Image, loc: Word)
    requires Installed(img, img', boot, loc)
    ensures loc >= 512 ==> img'[loc..loc + IMAGE_SIZE - 512] == boot[512..]
    ensures img'[420..428] == LeBytes(loc, 8) && WordAt(img', 420) == loc
    ensures img'[218..224] == img[218..224] && img'[440..510] == img[440..510]
  {
    var location := LeBytes(loc, 8);
    forall x | 0 <= x < 8
      ensures img'[420 + x] == location[x]
    {
      assert LocationByte(420 + x) && !KeptByte(420 + x);
    }
    assert img'[420..428] == location;
    Power256Of8();
    LeRoundTrip(loc, 8);
    forall x | KeptByte(x)
      ensures img'[x] == img[x]
    {
    }
  }

  /** Sector 0 is the boot sector if the second stage is behind it; if that is at the start of the
      disk, as a partition that starts at block 0 makes it, only if the two begin alike. */
  lemma BootSectorIntactIff(img: Image, img': Image, boot: Image, loc: Word)
    requires Installed(img, img', boot, loc) && loc % 512 == 0
    ensures SectorIsBoot(img', boot) <==>
              loc >= 512 || forall x :: 0 <= x < 512 && !KeptByte(x) && !LocationByte(x) ==> boot[512 + x] == boot[x]
  {
    if loc < 512 {
      assert loc == 0;
      forall x | 0 <= x < 512 && !KeptByte(x) && !LocationByte(x)
        ensures img'[x] == boot[512 + x]
      {
      }
    }
  }

  // ---------------------------------------------------------------------------------------------
  // What the installer accepts, and how it prepares the disk
  // ---------------------------------------------------------------------------------------------

  datatype Config = Config(force: bool, convert: bool, choice: Choice)

  /** The three ways to install: to a legacy disk, to a disk converted from GPT, or to a partition of
      a GPT disk. */
  datatype Target = Legacy | FromGpt(parts: seq<Part>) | Partition(number: nat)

  ghost predicate WillConvert(img: Image, cfg: Config)
    requires LogicalBlock(img) > 0
  {
    cfg.convert && ShouldConvert(img, LogicalBlock(img), HeaderAt(img, LogicalBlock(img)))
  }

  /** Partition `i` is the one asked for, and can take the second stage. */
  ghost predicate Usable(img: Image, lb: nat, header: GptHeader, cfg: Config, i: nat) {
    && Chosen(img, lb, header, cfg.choice, cfg.force, i)
    && var e := EntryNo(img, lb, header, i);
       BigEnough(lb, e) && (cfg.force || !Recognised(img, PartStart(lb, e)))
  }

  /** The disks the installer accepts, as far as their contents go. */
  ghost predicate Acceptable(img: Image, cfg: Config) {
    var lb := LogicalBlock(img);
    if lb == 0 then
      |img| >= 512 && AllHighEnough(img) && (cfg.force || (AllStatusOk(img) && !Recognised(img, 0)))
    else
      var header := HeaderAt(img, lb);
      && Sound(img, lb, header)
      && if WillConvert(img, cfg) then forall p :: p in PartsOf(img, lb, header) ==> p.start >= 63
         else exists i: nat :: Usable(img, lb, header, cfg, i)
  }

  /** Nothing the installer needs lies behind the end of the disk. */
  ghost predicate Roomy(img: Image, cfg: Config) {
    && MIN_PARTITION <= |img|
    && var lb := LogicalBlock(img);
       lb > 0 ==>
         var header := HeaderAt(img, lb);
         && (cfg.convert ==> ConversionInside(img, lb, header))
         && (!WillConvert(img, cfg) ==>
               forall i: nat :: Usable(img, lb, header, cfg, i) ==>
                 PartStart(lb, EntryNo(img, lb, header, i)) + MIN_PARTITION <= |img|)
  }

  /** The disk just before the final writes, and where the second stage will go. */
  ghost predicate Prepared(img: Image, img': Image, cfg: Config, id: Image, target: Target, loc: Word) {
    var lb := LogicalBlock(img);
    match target
    case Legacy =>
      lb == 0 && loc == 512 && |img| >= 512 && AllHighEnough(img) && img' == LegacyPrepared(img)
    case FromGpt(parts) =>
      && lb > 0 && loc == 512 && WillConvert(img, cfg)
      && var header := HeaderAt(img, lb);
         parts == PartsOf(img, lb, header) && Converted(img, img', lb, header.alternateLba, id, 0x80, parts)
    case Partition(i) =>
      && lb > 0 && !WillConvert(img, cfg)
      && var header := HeaderAt(img, lb);
         && Usable(img, lb, header, cfg, i)
         && loc == PartStart(lb, EntryNo(img, lb, header, i)) && loc % 512 == 0
         && img' == Cleansed(img, loc)
  }

  method PrepareLegacy(f: Disk, cfg: Config, id: Image) returns (fail: bool)
    requires f.Running() && LogicalBlock(f.image) == 0
    modifies f
    ensures f.Valid() && (f.failed.Some? ==> fail) && f.writes <= old(f.writes) + 10
    ensures f.failed == None || (f.Whole() && Roomy(old(f.image), cfg)) ==> (!fail <==> Acceptable(old(f.image), cfg))
    ensures !fail ==> Prepared(old(f.image), f.image, cfg, id, Legacy, 512)
  {
    var mbr;
    fail, mbr := MbrChecks(f, cfg.force);
    fail := fail || !mbr;
  }

  lemma KindsUsed(img: Image, lb: nat, header: GptHeader)
    requires ShouldConvert(img, lb, header)
    ensures forall p :: p in PartsOf(img, lb, header) ==> p.kind != 0
  {
    var used := UsedEntries(img, TableBase(lb, header), header.entrySize, header.entryCount);
    forall i | 0 <= i < |used|
      ensures PartsOf(img, lb, header)[i].kind != 0
    {
      assert used[i] in used;
    }
  }

  /** The checks of a legacy disk, on one that was converted a moment ago. */
  method PrepareConverted(f: Disk, cfg: Config, id: Image, ghost orig: Image, lb: nat, header: GptHeader, parts: seq<Part>)
    returns (fail: bool)
    requires f.Running() && lb == LogicalBlock(orig) > 0 && header == HeaderAt(orig, lb)
    requires Sound(orig, lb, header) && WillConvert(orig, cfg) && parts == PartsOf(orig, lb, header)
    requires Converted(orig, f.image, lb, header.alternateLba, id, 0, parts)
    modifies f
    ensures f.Valid() && (f.failed.Some? ==> fail) && f.writes <= old(f.writes) + 10
    ensures f.failed == None || f.Whole() ==> (!fail <==> Acceptable(orig, cfg))
    ensures !fail ==> Prepared(orig, f.image, cfg, id, FromGpt(parts), 512)
  {
    PartsFit(orig, lb, header);
    KindsUsed(orig, lb, header);
    ConvertedIsSane(orig, f.image, lb, header.alternateLba, id, parts);
    ConvertedActive(orig, f.image, lb, header.alternateLba, id, parts);
    LegacyPreparedSane(f.image);
    var mbr;
    fail, mbr := MbrChecks(f, cfg.force);
    fail := fail || !mbr;
  }

  method PreparePartition(f: Disk, cfg: Config, id: Image, lb: nat, header: GptHeader)
    returns (fail: bool, i: nat, loc: Word)
    requires f.Running() && lb == LogicalBlock(f.image) > 0 && header == HeaderAt(f.image, lb)
    requires Sound(f.image, lb, header) && !WillConvert(f.image, cfg)
    requires cfg.choice.Index? ==> cfg.choice.n < LIMIT32
    modifies f
    ensures f.Valid() && (f.failed.Some? ==> fail) && f.writes <= old(f.writes) + 5
    ensures f.failed == None || (f.Whole() && Roomy(old(f.image), cfg)) ==> (!fail <==> Acceptable(old(f.image), cfg))
    ensures !fail ==> Prepared(old(f.image), f.image, cfg, id, Partition(i), loc)
  {
    ghost var img := f.image;
    var e;
    fail, i, e := ChoosePartition(f, lb, header, cfg.choice, cfg.force);
    if fail {
      return fail, i, 0;
    }
    fail, loc := PlaceStage2(f, lb, e, cfg.force);
    OnlyUsable(img, lb, header, cfg, i);
  }

  /** If the partition asked for is not usable, none is. */
  lemma OnlyUsable(img: Image, lb: nat, header: GptHeader, cfg: Config, i: nat)
    requires Chosen(img, lb, header, cfg.choice, cfg.force, i)
    ensures (exists j: nat :: Usable(img, lb, header, cfg, j)) <==> Usable(img, lb, header, cfg, i)
  {
    forall j: nat | Usable(img, lb, header, cfg, j)
      ensures j == i
    {
      ChosenUnique(img, lb, header, cfg.choice, cfg.force, i, j);
    }
  }

  method PrepareGpt(f: Disk, cfg: Config, id: Image, lb: nat, header: GptHeader)
    returns (fail: bool, target: Target, loc: Word)
    requires f.Running() && lb == LogicalBlock(f.image) > 0 && header == HeaderAt(f.image, lb)
    requires |id| == 4 && (cfg.choice.Index? ==> cfg.choice.n < LIMIT32)
    modifies f
    ensures f.Valid() && (f.failed.Some? ==> fail) && f.writes <= old(f.writes) + 101
    ensures f.failed == None || (f.Whole() && Roomy(old(f.image), cfg)) ==> (!fail <==> Acceptable(old(f.image), cfg))
    ensures !fail ==> Prepared(old(f.image), f.image, cfg, id, target, loc)
  {
    ghost var img := f.image;
    target, loc := Legacy, 512;
    fail := CheckSecondary(f, lb, header);
    if fail {
      return;
    }
    if cfg.convert {
      var converted, parts;
      fail, converted, parts := ConvertIfIso(f, lb, header, id);
      if fail {
        return;
      }
      if converted {
        fail := PrepareConverted(f, cfg, id, img, lb, header, parts);
        return fail, FromGpt(parts), 512;
      }
    }
    var i;
    fail, i, loc := PreparePartition(f, cfg, id, lb, header);
    target := Partition(i);
  }

  /** Everything up to the final writes.  As long as the disk can be read and written it succeeds
      exactly on an acceptable disk. */
  method Prepare(f: Disk, cfg: Config, id: Image) returns (fail: bool, target: Target, loc: Word)
    requires f.Running() && |id| == 4 && (cfg.choice.Index? ==> cfg.choice.n < LIMIT32)
    modifies f
    ensures f.Valid() && (f.failed.Some? ==> fail) && f.writes <= old(f.writes) + 101
    ensures f.failed == None || (f.Whole() && Roomy(old(f.image), cfg)) ==> (!fail <==> Acceptable(old(f.image), cfg))
    ensures !fail ==> Prepared(old(f.image), f.image, cfg, id, target, loc)
  {
    target, loc := Legacy, 512;
    var lb, header;
    fail, lb, header := ProbeGpt(f);
    if fail {
      return;
    }
    if lb == 0 {
      fail := PrepareLegacy(f, cfg, id);
    } else {
      fail, target, loc := PrepareGpt(f, cfg, id, lb, header.value);
    }
  }

  lemma StagesFit(img: Image, prepared: Image, cfg: Config, id: Image, target: Target, loc: Word)
    requires Roomy(img, cfg) && Prepared(img, prepared, cfg, id, target, loc)
    ensures 512 <= |img| && loc + IMAGE_SIZE - 512 <= |img|
  {
  }

  /** The whole run on the flat disk, with never more than 106 writes:
      34 + 33 + 4 + 20 + 4 + 5 + 1 + 5. */
  method Run(f: Disk, cfg: Config, boot: Image, id: Image)
    returns (ok: bool, target: Target, loc: Word, ghost prepared: Image)
    requires f.Running() && |id| == 4 && |boot| == IMAGE_SIZE && (cfg.choice.Index? ==> cfg.choice.n < LIMIT32)
    modifies f
    ensures f.Valid() && f.writes <= old(f.writes) + 106
    ensures f.Whole() && Roomy(old(f.image), cfg) ==> (ok <==> Acceptable(old(f.image), cfg))
    ensures ok <==> f.failed == None && Acceptable(old(f.image), cfg)
    ensures ok ==> Prepared(old(f.image), prepared, cfg, id, target, loc) && Installed(prepared, f.image, boot, loc)
  {
    var fail;
    fail, target, loc := Prepare(f, cfg, id);
    prepared := f.image;
    if fail {
      return false, target, loc, prepared;
    }
    ghost var img := old(f.image);
    if Roomy(img, cfg) {
      StagesFit(img, prepared, cfg, id, target, loc);
    }
    var err := WriteStages(f, boot, loc);
    return !err, target, loc, prepared;
  }

  // ---------------------------------------------------------------------------------------------
  // What a successful run changes
  // ---------------------------------------------------------------------------------------------

  /** On a legacy disk nothing from byte 22647 on changes, and so no byte of a partition in use. */
  lemma LegacyConfined(img: Image, prepared: Image, img': Image, cfg: Config, boot: Image, id: Image, loc: Word)
    requires Prepared(img, prepared, cfg, id, Legacy, loc) && Installed(prepared, img', boot, loc)
    ensures SameOutside(img, img', 0, IMAGE_SIZE)
    ensures forall k, x :: 0 <= k < 4 && img[Slot(k) + 4] != 0 && HalfAt(img, Slot(k) + 8) * 512 <= x < |img| ==>
              img'[x] == img[x]
  {
    LegacyPreparedTable(img);
    forall k, x | 0 <= k < 4 && img[Slot(k) + 4] != 0 && HalfAt(img, Slot(k) + 8) * 512 <= x < |img|
      ensures img'[x] == img[x]
    {
      assert StartsHighEnough(img, k);
    }
  }

  /** On a GPT disk nothing changes but the first 512 bytes and the chosen partition. */
  lemma PartitionConfined(img: Image, prepared: Image, img': Image, cfg: Config, boot: Image, id: Image,
                          i: nat, loc: Word, x: nat)
    requires Prepared(img, prepared, cfg, id, Partition(i), loc) && Installed(prepared, img', boot, loc)
    requires 512 <= x < |img|
    ensures var e := EntryNo(img, LogicalBlock(img), HeaderAt(img, LogicalBlock(img)), i);
            img'[x] != img[x] ==> loc == PartStart(LogicalBlock(img), e) <= x < loc + PartLength(LogicalBlock(img), e)
  {
    CleansedFrame(img, loc, CHECK_COUNT);
  }

  /** Bytes behind the first sector and outside the chosen partition are what they were. */
  lemma StretchKept(img: Image, prepared: Image, img': Image, cfg: Config, boot: Image, id: Image,
                    i: nat, loc: Word, lo: nat, hi: nat)
    requires Prepared(img, prepared, cfg, id, Partition(i), loc) && Installed(prepared, img', boot, loc)
    requires 512 <= lo <= hi <= |img|
    requires var e := EntryNo(img, LogicalBlock(img), HeaderAt(img, LogicalBlock(img)), i);
             hi <= loc || loc + PartLength(LogicalBlock(img), e) <= lo
    ensures img'[lo..hi] == img[lo..hi]
  {
    forall x | lo <= x < hi
      ensures img'[x] == img[x]
    {
      PartitionConfined(img, prepared, img', cfg, boot, id, i, loc, x);
    }
  }

  /** If the chosen partition starts behind the header, the disk has the same header after the install. */
  lemma HeaderSurvives(img: Image, prepared: Image, img': Image, cfg: Config, boot: Image, id: Image, i: nat, loc: Word)
    requires Prepared(img, prepared, cfg, id, Partition(i), loc) && Installed(prepared, img', boot, loc)
    requires LogicalBlock(img) + GPT_HEADER_SIZE <= loc
    ensures var lb := LogicalBlock(img);
            LogicalBlock(img') == lb && HeaderAt(img', lb) == HeaderAt(img, lb)
  {
    var lb := LogicalBlock(img);
    StretchKept(img, prepared, img', cfg, boot, id, i, loc, 512, 512 + GPT_HEADER_SIZE);
    StretchKept(img, prepared, img', cfg, boot, id, i, loc, lb, lb + GPT_HEADER_SIZE);
  }

  /** And it has all entries that lie behind the first sector and outside the partition. */
  lemma EntrySurvives(img: Image, prepared: Image, img': Image, cfg: Config, boot: Image, id: Image, i: nat, loc: Word, j: nat)
    requires Prepared(img, prepared, cfg, id, Partition(i), loc) && Installed(prepared, img', boot, loc)
    requires var lb := LogicalBlock(img);
             var header := HeaderAt(img, lb);
             var at := TableBase(lb, header) + j * header.entrySize;
             && 512 <= at && Placement.Inside(img, TableBase(lb, header), header.entrySize, j)
             && (at + GPT_ENTRY_SIZE <= loc || loc + PartLength(lb, EntryNo(img, lb, header, i)) <= at)
    ensures var lb := LogicalBlock(img);
            var header := HeaderAt(img, lb);
            Placement.Inside(img', TableBase(lb, header), header.entrySize, j)
            && EntryNo(img', lb, header, j) == EntryNo(img, lb, header, j)
  {
    var header := HeaderAt(img, LogicalBlock(img));
    var at := TableBase(LogicalBlock(img), header) + j * header.entrySize;
    StretchKept(img, prepared, img', cfg, boot, id, i, loc, at, at + GPT_ENTRY_SIZE);
  }

  /** If the second stage goes over the header, there is one left only if the stage happens to have one there. */
  lemma HeaderOverwritten(img: Image, prepared: Image, img': Image, cfg: Config, boot: Image, id: Image, i: nat, loc: Word)
    requires Prepared(img, prepared, cfg, id, Partition(i), loc) && Installed(prepared, img', boot, loc)
    requires var lb := LogicalBlock(img);
             loc <= lb && lb + GPT_HEADER_SIZE <= loc + IMAGE_SIZE - 512
    ensures var lb := LogicalBlock(img);
            GptAt(img', lb) <==> IsGpt(boot[512 + lb - loc..512 + lb - loc + GPT_HEADER_SIZE])
  {
    var lb := LogicalBlock(img);
    assert img'[lb..lb + GPT_HEADER_SIZE] == boot[512 + lb - loc..512 + lb - loc + GPT_HEADER_SIZE];
  }

  /** If the chosen partition starts at block 0, the second stage is where the first belongs, and the disk has no
      boot sector in the end unless both begin alike. */
  lemma BootSectorLost(img: Image, prepared: Image, img': Image, cfg: Config, boot: Image, id: Image, i: nat, loc: Word)
    requires Prepared(img, prepared, cfg, id, Partition(i), loc) && Installed(prepared, img', boot, loc)
    requires EntryNo(img, LogicalBlock(img), HeaderAt(img, LogicalBlock(img)), i).startLba == 0
    ensures loc == 0
    ensures SectorIsBoot(img', boot) <==>
              forall x :: 0 <= x < 512 && !KeptByte(x) && !LocationByte(x) ==> boot[512 + x] == boot[x]
  {
    BootSectorIntactIff(prepared, img', boot, loc);
  }

  /** A conversion is complete: the legacy table in the end holds the used GPT entries in their order,
      at most four, the first slot marked active, and no other entry.  Beyond the second stage only
      the two wiped tables changed. */
  lemma ConversionComplete(img: Image, prepared: Image, img': Image, cfg: Config, boot: Image, id: Image,
                           parts: seq<Part>, loc: Word)
    requires Prepared(img, prepared, cfg, id, FromGpt(parts), loc) && Installed(prepared, img', boot, loc)
    ensures var header := HeaderAt(img, LogicalBlock(img));
            && TableOf(img', 0x80, parts) && |parts| <= 4
            && TableSays(img', UsedEntries(img, TableBase(LogicalBlock(img), header), header.entrySize, header.entryCount))
            && (var used := UsedEntries(img, TableBase(LogicalBlock(img), header), header.entrySize, header.entryCount);
                |parts| == |used| && forall k :: 0 <= k < |used| ==> Convertible(used[k]) && parts[k] == PartOf(used[k]))
            && img'[440..444] == id
            && (forall x :: IMAGE_SIZE <= x < |img| && img'[x] != img[x] ==>
                  WipedByte(LogicalBlock(img), header.alternateLba, x))
  {
    var header := HeaderAt(img, LogicalBlock(img));
    var used := UsedEntries(img, TableBase(LogicalBlock(img), header), header.entrySize, header.entryCount);
    forall k | 0 <= k < |used|
      ensures Convertible(used[k])
    {
      assert used[k] in used;
    }
    forall k | 0 <= k < 4
      ensures img'[Slot(k)..Slot(k) + 16] == SlotBytes(if k == 0 then 0x80 else 0, parts, k)
    {
      Kept(prepared, img', boot, loc, Slot(k), 16);
    }
    Kept(prepared, img', boot, loc, 440, 4);
    TableSpelled(img', parts, used);
  }

  /** After an install with a conversion the ISO 9660 descriptor is still there exactly if the blocks have 512 bytes
      and the second header is not in one of the blocks 64 to 96. */
  lemma IsoSurvivesInstallIff(img: Image, prepared: Image, img': Image, cfg: Config, boot: Image, id: Image,
                              parts: seq<Part>, loc: Word)
    requires Prepared(img, prepared, cfg, id, FromGpt(parts), loc) && Installed(prepared, img', boot, loc)
    ensures var lb := LogicalBlock(img);
            Has(img', ISO_AT, ISO) <==> lb == 512 && !(64 <= HeaderAt(img, lb).alternateLba <= 96)
  {
    var lb := LogicalBlock(img);
    IsoSurvivesIff(img, prepared, lb, HeaderAt(img, lb).alternateLba, id, 0x80, parts);
    SameText(prepared, img', ISO_AT, ISO);
  }

  lemma Kept(prepared: Image, img': Image, boot: Image, loc: Word, at: nat, n: nat)
    requires Installed(prepared, img', boot, loc) && 440 <= at && at + n <= 510
    ensures img'[at..at + n] == prepared[at..at + n]
  {
    forall x | at <= x < at + n
      ensures img'[x] == prepared[x]
    {
      assert KeptByte(x);
    }
  }

  // ---------------------------------------------------------------------------------------------
  // The run on the device
  // ---------------------------------------------------------------------------------------------

  /** The outcome of a successful run. */
  ghost predicate Done(img: Image, img': Image, cfg: Config, boot: Image, id: Image,
                       target: Target, loc: Word, prepared: Image)
  {
    Prepared(img, prepared, cfg, id, target, loc) && Installed(prepared, img', boot, loc)
  }

  /** `bios_install`.  The operations the run asks of the flat disk go to the cached device, which
      answers alike; then the cache is flushed and the log turned around.  After a success the log is
      stored, and undoes the run when it is loaded later; after a failure it is replayed at once, and
      no byte of the disk is different. */
  method Install(d: Device, cfg: Config, boot: Image, id: Image)
    returns (ok: bool, file: Image, target: Target, loc: Word, ghost prepared: Image)
    requires d.Valid() && d.Coherent() && d.View() == d.disk && d.Log() == [] && !d.uninstalling
    requires |id| == 4 && |boot| == IMAGE_SIZE && (cfg.choice.Index? ==> cfg.choice.n < LIMIT32)
    modifies d, d.cache, d.log, d.logReversed
    ensures ok ==> Acceptable(old(d.disk), cfg)
    ensures d.CanAccess(0, |old(d.disk)|) && Roomy(old(d.disk), cfg) ==> (ok <==> Acceptable(old(d.disk), cfg))
    ensures ok ==> Done(old(d.disk), d.disk, cfg, boot, id, target, loc, prepared)
    ensures ok ==> Undoes(d.blockSize, d.readable, d.disk, file, old(d.disk)) && |Decode(file).value| <= 106
    ensures !ok ==> d.disk == old(d.disk)
  {
    ghost var orig := d.disk;
    file := [];
    var f := new Disk(d.disk, d.blockSize, d.readable);
    ok, target, loc, prepared := Run(f, cfg, boot, id);
    var replayed, outs := Replay(f, d);
    if ok {
      file := Finish(d, orig);
    } else {
      Rollback(d, orig);
    }
  }

  /** An install, and `--uninstall` in a later process on what it left: the disk is the one there was
      before. */
  method InstallThenUninstall(d: Device, cfg: Config, boot: Image, id: Image, leftover: (nat, nat) -> Byte)
    returns (ok: bool, image: Image)
    requires d.Valid() && d.Coherent() && d.View() == d.disk && d.Log() == [] && !d.uninstalling
    requires 0 in d.readable
    requires |id| == 4 && |boot| == IMAGE_SIZE && (cfg.choice.Index? ==> cfg.choice.n < LIMIT32)
    modifies d, d.cache, d.log, d.logReversed
    ensures d.CanAccess(0, |old(d.disk)|) && Roomy(old(d.disk), cfg) ==> (ok <==> Acceptable(old(d.disk), cfg))
    ensures image == old(d.disk)
  {
    ghost var orig := d.disk;
    var file, target, loc;
    ghost var prepared;
    ok, file, target, loc, prepared := Install(d, cfg, boot, id);
    if !ok {
      return false, d.disk;
    }
    ok, image := UninstallFrom(d.disk, d.blockSize, d.readable, leftover, file, orig);
  }
}
