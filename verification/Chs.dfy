/** Cylinder-head-sector addresses of the legacy partition table, with 255 heads of 63 sectors. */
module Chs {
  import opened Machine
  import opened UndoLog

  const LIMIT: int := 63 * 255 * 1024

  /** `lba2chs`: the three bytes of the partition table entry.  Addresses past the limit get one
      standard value. */
  function Encode(lba: Word): (chs: Image)
    ensures |chs| == 3
  {
    var cylinder := lba / (255 * 63);
    if lba > LIMIT || cylinder >= 1024 then [0xfe, 0xff, 0xff]
    else
      var head, sector := lba / 63 % 255, lba % 63 + 1;
      [head, cylinder / 256 % 4 * 64 + sector % 64, cylinder % 256]
  }

  /** The address three such bytes mean: the head, then the sector in the low six bits of the second
      byte, whose high two bits are the cylinder's. */
  function Decode(chs: Image): int
    requires |chs| == 3
  {
    var head: int, second: int, third: int := chs[0], chs[1], chs[2];
    var sector, cylinder := second % 64, second / 64 * 256 + third;
    (cylinder * 255 + head) * 63 + sector - 1
  }

  lemma Geometry(lba: Word)
    requires lba < LIMIT
    ensures lba == (lba / (255 * 63) * 255 + lba / 63 % 255) * 63 + lba % 63
    ensures lba / (255 * 63) < 1024
  {
    var track := lba / 63;
    assert lba / (255 * 63) == track / 255;
  }

  /** Decoding gives the address back, capped at the largest one the three bytes can express. */
  lemma Saturates(lba: Word)
    ensures Decode(Encode(lba)) == Min(lba, LIMIT - 1)
  {
    if lba < LIMIT {
      Geometry(lba);
      var c := lba / (255 * 63);
      assert c / 256 % 4 == c / 256;
      var chs := Encode(lba);
      assert chs[1] % 64 == lba % 63 + 1 && chs[1] / 64 == c / 256;
    } else {
      assert lba / (255 * 63) >= 1024;
    }
  }

  /** The three bytes: the head; the sector, with bits 8 and 9 of the cylinder above it; and the rest of the
      cylinder.  Addresses that do not fit give fe ff ff. */
  lemma EncodeSpelled(lba: Word)
    ensures var chs := Encode(lba);
            if lba < 63 * 255 * 1024 then
              && chs[0] == lba / 63 % 255
              && chs[1] % 64 == lba % 63 + 1 && chs[1] / 64 == lba / 16065 / 256
              && chs[2] == lba / 16065 % 256
            else chs == [0xfe, 0xff, 0xff]
  {
    if lba < LIMIT {
      Geometry(lba);
    } else {
      assert lba / (255 * 63) >= 1024;
    }
  }

  /** No three bytes with a sector number of a head below 255 mean a larger address than the cap. */
  lemma CapIsLargest(chs: Image)
    requires |chs| == 3 && chs[0] < 255
    ensures Decode(chs) <= LIMIT - 1
    ensures Decode(chs) == LIMIT - 1 <==> chs == [0xfe, 0xff, 0xff]
  {
    assert chs[1] / 64 <= 3 && chs[1] % 64 <= 63;
    assert chs == [chs[0], chs[1], chs[2]];
  }

  /** The encoding keeps the order, and tells apart all addresses below the cap. */
  lemma Monotone(a: Word, b: Word)
    ensures a <= b ==> Decode(Encode(a)) <= Decode(Encode(b))
    ensures a < LIMIT && b < LIMIT && Encode(a) == Encode(b) ==> a == b
  {
    Saturates(a);
    Saturates(b);
  }
}
