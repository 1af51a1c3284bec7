/** What the installer knows of a disk's layout: the GUID partition table (sections 5.3.2 and 5.3.3
    of the UEFI Specification), the legacy partition table, and the signatures of file systems. */
module Volume {
  import opened Machine
  import opened UndoLog
  import opened LittleEndian
  import Chs

  // ---------------------------------------------------------------------------------------------
  // Checked arithmetic
  // ---------------------------------------------------------------------------------------------

  /** `mul_u64_overflow`: the wrapped product, and whether it wrapped. */
  function MulOverflow(a: Word, b: Word): (Word, bool) {
    (a * b % TWO64, a != 0 && b > (TWO64 - 1) / a)
  }

  /** `add_u64_overflow`. */
  function AddOverflow(a: Word, b: Word): (Word, bool) {
    ((a + b) % TWO64, a > TWO64 - 1 - b)
  }

  /** The checks are exact: they report an overflow exactly when the product or sum does not fit. */
  lemma OverflowChecksExact(a: Word, b: Word)
    ensures MulOverflow(a, b).1 <==> a * b >= TWO64
    ensures !MulOverflow(a, b).1 ==> MulOverflow(a, b).0 == a * b
    ensures AddOverflow(a, b).1 <==> a + b >= TWO64
    ensures !AddOverflow(a, b).1 ==> AddOverflow(a, b).0 == a + b
  {
    if a > 0 {
      var q := (TWO64 - 1) / a;
      assert q * a <= TWO64 - 1 < (q + 1) * a by {
        DivBounds(TWO64 - 1, a);
      }
      if b <= q {
        MulMonotone(b, q, a);
      } else {
        MulMonotone(q + 1, b, a);
      }
      assert a * b == b * a;
    }
  }

  lemma DivBounds(x: nat, a: nat)
    requires a > 0
    ensures x / a * a <= x < (x / a + 1) * a
  {
  }

  lemma MulMonotone(x: nat, y: nat, a: nat)
    requires x <= y
    ensures x * a <= y * a
  {
  }

  // ---------------------------------------------------------------------------------------------
  // The GUID partition table
  // ---------------------------------------------------------------------------------------------

  const GPT_SIGNATURE: Image := [0x45, 0x46, 0x49, 0x20, 0x50, 0x41, 0x52, 0x54]
  const GPT_HEADER_SIZE: int := 96
  const GPT_ENTRY_SIZE: int := 128

  datatype GptHeader = GptHeader(alternateLba: Word, entryLba: Word, entryCount: nat, entrySize: nat)

  predicate IsGpt(bytes: Image)
    requires |bytes| == GPT_HEADER_SIZE
  {
    bytes[..8] == GPT_SIGNATURE
  }

  function HeaderOf(bytes: Image): GptHeader
    requires |bytes| == GPT_HEADER_SIZE
  {
    GptHeader(WordAt(bytes, 32), WordAt(bytes, 72), HalfAt(bytes, 80), HalfAt(bytes, 84))
  }

  /** Where the table of entries starts, on a disk with blocks of `lb` bytes. */
  function TableBase(lb: nat, header: GptHeader): nat { lb * header.entryLba }

  datatype GptEntry = GptEntry(typeGuid: Image, unused: bool, startLba: Word, endLba: Word)

  function EntryOf(bytes: Image): (e: GptEntry)
    requires |bytes| == GPT_ENTRY_SIZE
    ensures |e.typeGuid| == 16
  {
    GptEntry(bytes[..16], WordAt(bytes, 16) == 0 && WordAt(bytes, 24) == 0, WordAt(bytes, 32), WordAt(bytes, 40))
  }

  /** The entry that starts at byte `at` of an image. */
  function EntryAt(img: Image, at: nat): (e: GptEntry)
    requires at + GPT_ENTRY_SIZE <= |img|
    ensures |e.typeGuid| == 16
  {
    EntryOf(img[at..at + GPT_ENTRY_SIZE])
  }

  /** The first `n` entries of the table lie in the image. */
  predicate EntriesInside(img: Image, base: nat, size: nat, n: nat) {
    n == 0 || (EntriesInside(img, base, size, n - 1) && base + (n - 1) * size + GPT_ENTRY_SIZE <= |img|)
  }

  /** The entries in use among the first `n`, in order. */
  function UsedEntries(img: Image, base: nat, size: nat, n: nat): (es: seq<GptEntry>)
    requires EntriesInside(img, base, size, n)
    ensures forall e :: e in es ==> |e.typeGuid| == 16
  {
    if n == 0 then []
    else
      var e := EntryAt(img, base + (n - 1) * size);
      UsedEntries(img, base, size, n - 1) + (if e.unused then [] else [e])
  }

  /** "Hah!IdontNeedEFI". */
  const BIOS_BOOT_TYPE: Image :=
    [0x48, 0x61, 0x68, 0x21, 0x49, 0x64, 0x6f, 0x6e, 0x74, 0x4e, 0x65, 0x65, 0x64, 0x45, 0x46, 0x49]

  // ---------------------------------------------------------------------------------------------
  // Conversion of a partition to a legacy table entry
  // ---------------------------------------------------------------------------------------------

  const LIMIT32: int := 0x1_0000_0000

  /** `gpt2mbr_type`, by the two halves of the type GUID; -1 if the type has no counterpart. */
  function MbrType(typeGuid: Image): (t: int)
    requires |typeGuid| == 16
    ensures -1 <= t < 256
  {
    var a, b := WordAt(typeGuid, 0), WordAt(typeGuid, 8);
    if a == 0x11d2f81fc12a7328 && b == 0x3bc93ec9a0004bba then 0xef
    else if a == 0x4433b9e5ebd0a0a2 && b == 0xc79926b7b668c087 then 0x07
    else if a == 0x11aa000048465300 && b == 0xacec4365300011aa then 0xaf
    else -1
  }

  /** The number of sectors of a partition, in 64-bit arithmetic. */
  function SectorCount(e: GptEntry): Word { (e.endLba - e.startLba + 1) % TWO64 }

  predicate Convertible(e: GptEntry)
    requires |e.typeGuid| == 16
  {
    e.startLba < LIMIT32 && e.endLba < LIMIT32 && SectorCount(e) < LIMIT32 && MbrType(e.typeGuid) != -1
  }

  /** A partition as the legacy table records it. */
  datatype Part = Part(start: nat, end: nat, count: nat, kind: Byte)

  function PartOf(e: GptEntry): Part
    requires |e.typeGuid| == 16 && Convertible(e)
  {
    Part(e.startLba, e.endLba, SectorCount(e), MbrType(e.typeGuid))
  }

  /** No start, and no count, is cut short: a partition that is not empty keeps its size. */
  lemma NothingTruncated(e: GptEntry)
    requires |e.typeGuid| == 16 && Convertible(e)
    ensures PartOf(e).start == e.startLba
    ensures e.endLba + 1 >= e.startLba && PartOf(e).count == e.endLba + 1 - e.startLba
    ensures LeValue(LeBytes(PartOf(e).start, 4)) == e.startLba
    ensures LeValue(LeBytes(PartOf(e).count, 4)) == e.endLba + 1 - e.startLba
  {
    Power256Of4();
    LeRoundTrip(PartOf(e).start, 4);
    LeRoundTrip(PartOf(e).count, 4);
  }

  predicate PartOk(p: Part) { p.start < LIMIT32 && p.end < LIMIT32 && p.count < LIMIT32 }

  /** The sixteen bytes of a legacy table entry: status, first address, type, last address, start
      and length. */
  function EntryBytes(status: Byte, p: Part): (bs: Image)
    requires PartOk(p)
    ensures |bs| == 16
  {
    [status] + Chs.Encode(p.start) + [p.kind] + Chs.Encode(p.end) + LeBytes(p.start, 4) + LeBytes(p.count, 4)
  }

  /** Where the entry of slot `k` starts in sector 0. */
  function Slot(k: nat): nat { 446 + 16 * k }

  /** A slot in use starts at sector 63 or later. */
  predicate StartsHighEnough(img: Image, k: nat)
    requires k < 4 && |img| >= 512
  {
    img[Slot(k) + 4] != 0 ==> HalfAt(img, Slot(k) + 8) >= 63
  }

  // ---------------------------------------------------------------------------------------------
  // File system signatures
  // ---------------------------------------------------------------------------------------------

  const NTFS: Image := [0x4e, 0x54, 0x46, 0x53]
  const FAT: Image := [0x46, 0x41, 0x54]
  const FAT32: Image := [0x46, 0x41, 0x54, 0x33, 0x32]
  const EXT: Image := [0x53, 0xef]

  predicate Has(img: Image, at: nat, text: Image) {
    at + |text| <= |img| && img[at..at + |text|] == text
  }

  /** A file system signature the installer knows is found relative to `offset`. */
  predicate Recognised(img: Image, offset: nat) {
    || Has(img, offset + 3, NTFS)
    || Has(img, offset + 54, FAT)
    || Has(img, offset + 82, FAT)
    || Has(img, offset + 3, FAT32)
    || Has(img, offset + 1080, EXT)
  }

  function Zeros(n: nat): (z: Image)
    ensures |z| == n && forall i :: 0 <= i < n ==> z[i] == 0
  {
    seq(n, _ => 0)
  }
}
