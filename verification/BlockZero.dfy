/** A disk on which the installer overwrites its own boot sector: it has a GUID partition table whose BIOS boot
    partition starts at block 0. */
module BlockZero {
  import opened Machine
  import opened UndoLog
  import opened LittleEndian
  import opened BlockDevice
  import opened Volume
  import opened Conversion
  import opened Placement
  import opened Installer

  const DISK_SIZE: int := 65536

  /** Two headers, at blocks 1 and 2, and at block 3 a table of one entry, for the blocks 0 to 127. */
  function DiskByte(x: nat): Byte {
    if 512 <= x < 520 then GPT_SIGNATURE[x - 512]
    else if 1024 <= x < 1032 then GPT_SIGNATURE[x - 1024]
    else if x == 544 then 2
    else if x == 584 then 3
    else if x == 592 then 1
    else if x == 596 then 128
    else if 1536 <= x < 1552 then BIOS_BOOT_TYPE[x - 1536]
    else if x == 1552 then 1
    else if x == 1576 then 127
    else 0
  }

  function TheDisk(): (img: Image)
    ensures |img| == DISK_SIZE && forall x :: 0 <= x < DISK_SIZE ==> img[x] == DiskByte(x)
  {
    seq(DISK_SIZE, x requires 0 <= x < DISK_SIZE => DiskByte(x))
  }

  lemma {:induction false} ZeroValue(bytes: Image)
    requires forall i :: 0 <= i < |bytes| ==> bytes[i] == 0
    ensures LeValue(bytes) == 0
    decreases |bytes|
  {
    if bytes != [] {
      ZeroValue(bytes[1..]);
    }
  }

  /** A number of which only the first byte is not zero. */
  lemma SmallValue(bytes: Image)
    requires |bytes| > 0 && forall i :: 1 <= i < |bytes| ==> bytes[i] == 0
    ensures LeValue(bytes) == bytes[0]
  {
    ZeroValue(bytes[1..]);
  }

  lemma WordIs(bytes: Image, at: nat, n: nat)
    requires at + n <= |bytes| && n > 0 && forall i :: at < i < at + n ==> bytes[i] == 0
    ensures LeValue(bytes[at..at + n]) == bytes[at]
  {
    SmallValue(bytes[at..at + n]);
  }

  lemma Headers()
    ensures var img := TheDisk();
            GptAt(img, 512) && GptAt(img, 1024) && HeaderAt(img, 512) == GptHeader(2, 3, 1, 128)
  {
    var img := TheDisk();
    var first, second := img[512..512 + GPT_HEADER_SIZE], img[1024..1024 + GPT_HEADER_SIZE];
    forall i | 0 <= i < GPT_HEADER_SIZE
      ensures first[i] == DiskByte(512 + i) && second[i] == DiskByte(1024 + i)
    {
    }
    assert first[..8] == GPT_SIGNATURE && second[..8] == GPT_SIGNATURE;
    WordIs(first, 32, 8);
    WordIs(first, 72, 8);
    WordIs(first, 80, 4);
    WordIs(first, 84, 4);
  }

  lemma Entry()
    ensures var e := EntryAt(TheDisk(), 1536);
            e.typeGuid == BIOS_BOOT_TYPE && !e.unused && e.startLba == 0 && e.endLba == 127
  {
    var bytes := TheDisk()[1536..1536 + GPT_ENTRY_SIZE];
    forall i | 0 <= i < GPT_ENTRY_SIZE
      ensures bytes[i] == DiskByte(1536 + i)
    {
    }
    assert bytes[..16] == BIOS_BOOT_TYPE;
    WordIs(bytes, 16, 8);
    WordIs(bytes, 32, 8);
    WordIs(bytes, 40, 8);
  }

  /** The installer asked to find the partition by itself, or asked for the first. */
  predicate Plain(cfg: Config) { cfg.choice in {Auto, Index(1)} }

  lemma TheChoice(cfg: Config)
    requires Plain(cfg)
    ensures var img := TheDisk();
            && LogicalBlock(img) == 512 && Sound(img, 512, HeaderAt(img, 512)) && !WillConvert(img, cfg)
            && Usable(img, 512, HeaderAt(img, 512), cfg, 0)
            && PartStart(512, EntryNo(img, 512, HeaderAt(img, 512), 0)) == 0
  {
    var img := TheDisk();
    Headers();
    Entry();
    NothingInZeros(img, ISO_AT, ISO);
    NothingInZeros(img, 3, NTFS);
    NothingInZeros(img, 54, FAT);
    NothingInZeros(img, 82, FAT);
    NothingInZeros(img, 3, FAT32);
    NothingInZeros(img, 1080, EXT);
    assert TableBase(512, HeaderAt(img, 512)) == 1536;
  }

  /** The installer accepts the disk, and all it needs is there. */
  lemma Accepted(cfg: Config)
    requires Plain(cfg)
    ensures Acceptable(TheDisk(), cfg) && Roomy(TheDisk(), cfg)
  {
    var img := TheDisk();
    TheChoice(cfg);
    NothingInZeros(img, ISO_AT, ISO);
    forall i: nat | Usable(img, 512, HeaderAt(img, 512), cfg, i)
      ensures i == 0
    {
      ChosenUnique(img, 512, HeaderAt(img, 512), cfg.choice, cfg.force, i, 0);
    }
  }

  /** And it puts the second stage at the start of the disk. */
  lemma GoesToZero(prepared: Image, cfg: Config, id: Image, target: Target, loc: Word)
    requires Plain(cfg) && Prepared(TheDisk(), prepared, cfg, id, target, loc)
    ensures target == Partition(0) && loc == 0
  {
    var img := TheDisk();
    TheChoice(cfg);
    if target.Partition? {
      ChosenUnique(img, 512, HeaderAt(img, 512), cfg.choice, cfg.force, target.number, 0);
    }
  }

  /** Every install on this disk succeeds, and leaves no boot sector unless both stages begin alike. */
  method InstallAtZero(d: Device, cfg: Config, boot: Image, id: Image) returns (ok: bool, file: Image)
    requires d.Valid() && d.Coherent() && d.View() == d.disk && d.Log() == [] && !d.uninstalling
    requires d.disk == TheDisk() && d.CanAccess(0, DISK_SIZE)
    requires Plain(cfg) && |id| == 4 && |boot| == IMAGE_SIZE
    modifies d, d.cache, d.log, d.logReversed
    ensures ok && |d.disk| == DISK_SIZE
    ensures SectorIsBoot(d.disk, boot) <==>
              forall x :: 0 <= x < 512 && !KeptByte(x) && !LocationByte(x) ==> boot[512 + x] == boot[x]
  {
    Accepted(cfg);
    var target, loc;
    ghost var prepared;
    ok, file, target, loc, prepared := Install(d, cfg, boot, id);
    GoesToZero(prepared, cfg, id, target, loc);
    BootSectorIntactIff(prepared, d.disk, boot, loc);
  }
}
