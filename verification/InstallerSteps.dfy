/** The steps of the BIOS installer on the flat disk: what each changes, and where it may write. */
module InstallerSteps {
  import opened Machine
  import opened UndoLog
  import opened LittleEndian
  import opened FlatDisk
  import opened Volume

  /** The images agree outside [lo, hi). */
  ghost predicate SameOutside(img: Image, img': Image, lo: int, hi: int) {
    |img'| == |img| && forall x :: 0 <= x < |img| && !(lo <= x < hi) ==> img'[x] == img[x]
  }

  // ---------------------------------------------------------------------------------------------
  // validate_or_force
  // ---------------------------------------------------------------------------------------------

  /** A check of `validate_or_force`: where it looks, for what, and how much it wipes. */
  datatype Check = Check(at: nat, text: Image, wipe: nat)

  const CHECK_COUNT: int := 5

  function CheckNo(k: nat): Check
    requires k < CHECK_COUNT
  {
    if k == 0 then Check(3, NTFS, 4)
    else if k == 1 then Check(54, FAT, 5)
    else if k == 2 then Check(82, FAT, 5)
    else if k == 3 then Check(3, FAT32, 5)
    else Check(1080, EXT, 2)
  }

  lemma ChecksOk(k: nat)
    requires k < CHECK_COUNT
    ensures var c := CheckNo(k);
            && c.wipe >= |c.text| > 0
            && (if c.at < 1080 then 3 <= c.at && c.at + c.wipe <= 87 else c.at + c.wipe <= 1082)
            && forall i :: 0 <= i < |c.text| ==> c.text[i] != 0
    ensures CheckNo(0).at == 3 && |CheckNo(0).text| == 4
  {
    assert |NTFS| == 4 && |FAT| == 3 && |FAT32| == 5 && |EXT| == 2;
  }

  /** Check `j` finds its text. */
  predicate Finds(img: Image, offset: nat, j: nat)
    requires j < CHECK_COUNT
  {
    Has(img, offset + CheckNo(j).at, CheckNo(j).text)
  }

  /** The first `k` checks find nothing at `offset`. */
  ghost predicate Passed(img: Image, offset: nat, k: nat)
    requires k <= CHECK_COUNT
  {
    forall j :: 0 <= j < k ==> !Finds(img, offset, j)
  }

  lemma PassedAll(img: Image, offset: nat)
    ensures Passed(img, offset, CHECK_COUNT) <==> !Recognised(img, offset)
  {
    assert CheckNo(0).text == NTFS && CheckNo(1).text == FAT && CheckNo(2).text == FAT;
    assert CheckNo(3).text == FAT32 && CheckNo(4).text == EXT;
    assert Finds(img, offset, 0) == Has(img, offset + 3, NTFS) && Finds(img, offset, 3) == Has(img, offset + 3, FAT32);
    assert Finds(img, offset, 1) == Has(img, offset + 54, FAT) && Finds(img, offset, 2) == Has(img, offset + 82, FAT);
    assert Finds(img, offset, 4) == Has(img, offset + 1080, EXT);
  }

  lemma FoundIsRecognised(img: Image, offset: nat, k: nat)
    requires k < CHECK_COUNT
    ensures Finds(img, offset, k) ==> Recognised(img, offset)
  {
    PassedAll(img, offset);
  }

  /** One check: reads, and with `force` wipes what it finds.  `clean` says that the text is not
      there now. */
  method CheckSignature(f: Disk, loc: Word, text: Image, wipe: nat, force: bool) returns (err: bool, clean: bool)
    requires f.Running() && wipe >= |text| > 0 && forall i :: 0 <= i < |text| ==> text[i] != 0
    modifies f
    ensures f.Valid() && (err <==> f.failed.Some?)
    ensures f.writes == old(f.writes) + if !err && force && Has(old(f.image), loc, text) then 1 else 0
    ensures f.Whole() && loc + wipe <= |f.orig| ==> !err
    ensures !err ==> loc + |text| <= |f.image| <= TWO64 / 2
    ensures !err ==> (clean <==> force || !Has(old(f.image), loc, text))
    ensures !err && clean ==> !Has(f.image, loc, text)
    ensures err || !force || !Has(old(f.image), loc, text) ==> f.image == old(f.image)
    ensures !err && force && Has(old(f.image), loc, text) ==>
              loc + wipe <= |old(f.image)| && f.image == Patch(old(f.image), loc, Zeros(wipe))
  {
    var read, bytes := f.Read(loc, |text|);
    if !read {
      return true, false;
    }
    if bytes != text {
      return false, true;
    }
    if !force {
      return false, false;
    }
    var written := f.Write(loc, Zeros(wipe));
    if written {
      assert f.image[loc..loc + |text|][0] == 0 && text[0] != 0;
    }
    return !written, true;
  }

  /** What the wipes can reach. */
  ghost predicate WipedOnly(img: Image, img': Image, offset: nat) {
    && |img'| == |img|
    && (forall x :: 0 <= x < |img| && !(offset + 3 <= x < offset + 87) && !(offset + 1080 <= x < offset + 1082) ==>
          img'[x] == img[x])
  }

  predicate InWipe(offset: nat, j: nat, x: int)
    requires j < CHECK_COUNT
  {
    offset + CheckNo(j).at <= x < offset + CheckNo(j).at + CheckNo(j).wipe
  }

  /** Byte `x` belongs to what one of the first `k` checks finds in `img` and wipes. */
  predicate WipedBy(img: Image, offset: nat, k: nat, x: int)
    requires k <= CHECK_COUNT
  {
    exists j :: 0 <= j < k && Finds(img, offset, j) && InWipe(offset, j, x)
  }

  /** The image with everything wiped that the first `k` checks find in it. */
  function CleansedBy(img: Image, offset: nat, k: nat): (r: Image)
    requires k <= CHECK_COUNT
    ensures |r| == |img|
    ensures forall x :: 0 <= x < |img| ==> r[x] == if WipedBy(img, offset, k, x) then 0 else img[x]
  {
    seq(|img|, x requires 0 <= x < |img| => if WipedBy(img, offset, k, x) then 0 else img[x])
  }

  function Cleansed(img: Image, offset: nat): (r: Image)
    ensures |r| == |img|
  {
    CleansedBy(img, offset, CHECK_COUNT)
  }

  /** How many of the first `k` checks find something. */
  function Found(img: Image, offset: nat, k: nat): (n: nat)
    requires k <= CHECK_COUNT
    ensures n <= k
  {
    if k == 0 then 0 else Found(img, offset, k - 1) + if Finds(img, offset, k - 1) then 1 else 0
  }

  lemma CleansedFrame(img: Image, offset: nat, k: nat)
    requires k <= CHECK_COUNT
    ensures WipedOnly(img, CleansedBy(img, offset, k), offset)
  {
    forall j, x: int | 0 <= j < CHECK_COUNT && InWipe(offset, j, x)
      ensures offset + 3 <= x < offset + 87 || offset + 1080 <= x < offset + 1082
    {
      ChecksOk(j);
    }
  }

  /** Two checks never both find something where the first wipes what the second looks at. */
  lemma FindsApart(img: Image, offset: nat, j: nat, k: nat, x: nat)
    requires j < k < CHECK_COUNT && Finds(img, offset, j) && Finds(img, offset, k)
    requires offset + CheckNo(k).at <= x < offset + CheckNo(k).at + |CheckNo(k).text|
    ensures !InWipe(offset, j, x)
  {
    ChecksOk(j);
    ChecksOk(k);
    NotBoth(img, offset);
    assert (j == 0 && k == 3) || CheckNo(j).at + CheckNo(j).wipe <= CheckNo(k).at || CheckNo(k).at + |CheckNo(k).text| <= CheckNo(j).at;
  }

  lemma NotBoth(img: Image, offset: nat)
    ensures !Finds(img, offset, 0) || !Finds(img, offset, 3)
  {
    var at := offset + 3;
    if at + 5 <= |img| {
      assert img[at..at + 4][0] == img[at] && img[at..at + 5][0] == img[at];
    }
  }

  /** Earlier wipes neither hide nor create what a later check looks for. */
  lemma FindsStays(img: Image, offset: nat, k: nat)
    requires k < CHECK_COUNT
    ensures Finds(CleansedBy(img, offset, k), offset, k) <==> Finds(img, offset, k)
  {
    var img', at, text := CleansedBy(img, offset, k), offset + CheckNo(k).at, CheckNo(k).text;
    ChecksOk(k);
    if Finds(img, offset, k) {
      forall i | 0 <= i < |text|
        ensures img'[at + i] == text[i]
      {
        assert img[at..at + |text|][i] == img[at + i];
        forall j | 0 <= j < k && Finds(img, offset, j)
          ensures !InWipe(offset, j, at + i)
        {
          FindsApart(img, offset, j, k, at + i);
        }
      }
    } else if Finds(img', offset, k) {
      NoneCreated(img, offset, k, k);
    }
  }

  /** Wipes create nothing that a check looks for. */
  lemma NoneCreated(img: Image, offset: nat, n: nat, k: nat)
    requires n <= CHECK_COUNT && k < CHECK_COUNT
    ensures Finds(CleansedBy(img, offset, n), offset, k) ==> Finds(img, offset, k)
  {
    var img', at, text := CleansedBy(img, offset, n), offset + CheckNo(k).at, CheckNo(k).text;
    ChecksOk(k);
    if Finds(img', offset, k) {
      forall i | 0 <= i < |text|
        ensures img[at + i] == text[i]
      {
        assert img'[at..at + |text|][i] == img'[at + i];
      }
    }
  }

  /** Wiping what check `k` finds, or nothing, is one step. */
  lemma CleanseNext(img: Image, offset: nat, k: nat)
    requires k < CHECK_COUNT
    ensures var c, at := CheckNo(k), offset + CheckNo(k).at;
            CleansedBy(img, offset, k + 1) ==
            if Finds(img, offset, k) && at + c.wipe <= |img| then Patch(CleansedBy(img, offset, k), at, Zeros(c.wipe))
            else if Finds(img, offset, k) then CleansedBy(img, offset, k + 1)
            else CleansedBy(img, offset, k)
  {
    forall x: int
      ensures WipedBy(img, offset, k + 1, x) <==>
              WipedBy(img, offset, k, x) || (Finds(img, offset, k) && InWipe(offset, k, x))
    {
    }
  }

  /** Afterwards there is nothing left to find. */
  lemma CleansedIsClean(img: Image, offset: nat)
    ensures !Recognised(Cleansed(img, offset), offset)
    ensures !Recognised(img, offset) ==> Cleansed(img, offset) == img
  {
    var img' := Cleansed(img, offset);
    forall k | 0 <= k < CHECK_COUNT
      ensures !Finds(img', offset, k)
    {
      ChecksOk(k);
      NoneCreated(img, offset, CHECK_COUNT, k);
      var at := offset + CheckNo(k).at;
      if Finds(img, offset, k) {
        assert InWipe(offset, k, at) && WipedBy(img, offset, CHECK_COUNT, at);
        assert img'[at..at + |CheckNo(k).text|][0] == img'[at];
      }
    }
    assert Passed(img', offset, CHECK_COUNT);
    PassedAll(img', offset);
    PassedAll(img, offset);
  }

  /** The first `k` checks are done. */
  ghost predicate Validating(orig: Image, img: Image, offset: nat, k: nat, force: bool)
    requires k <= CHECK_COUNT
  {
    if force then img == CleansedBy(orig, offset, k) else img == orig && Passed(orig, offset, k)
  }

  lemma ValidatingFrame(orig: Image, img: Image, offset: nat, k: nat, force: bool)
    requires k <= CHECK_COUNT && Validating(orig, img, offset, k, force)
    ensures WipedOnly(orig, img, offset)
  {
    CleansedFrame(orig, offset, k);
  }

  lemma Validated(orig: Image, img: Image, offset: nat, force: bool)
    requires Validating(orig, img, offset, CHECK_COUNT, force)
    ensures !Recognised(img, offset)
    ensures img == if force then Cleansed(orig, offset) else orig
  {
    CleansedIsClean(orig, offset);
    PassedAll(orig, offset);
  }

  lemma FindsSame(orig: Image, before: Image, offset: nat, k: nat, force: bool)
    requires k < CHECK_COUNT && Validating(orig, before, offset, k, force)
    ensures Finds(before, offset, k) <==> Finds(orig, offset, k)
  {
    FindsStays(orig, offset, k);
  }

  /** A check that is clean takes the state one check further. */
  lemma CheckDone(orig: Image, before: Image, img: Image, offset: nat, k: nat, force: bool)
    requires k < CHECK_COUNT && Validating(orig, before, offset, k, force)
    requires Finds(orig, offset, k) ==> force
    requires var c, at := CheckNo(k), offset + CheckNo(k).at;
             if Finds(orig, offset, k) then at + c.wipe <= |before| && img == Patch(before, at, Zeros(c.wipe))
             else img == before
    ensures Validating(orig, img, offset, k + 1, force)
  {
    CleanseNext(orig, offset, k);
  }

  /** The first check is too close to a sector boundary to wrap; the others follow a successful read. */
  lemma CheckPlace(offset: Word, i: nat)
    requires offset % 512 == 0 && i < CHECK_COUNT && (i > 0 ==> offset <= TWO64 / 2)
    ensures (offset + CheckNo(i).at) % TWO64 == offset + CheckNo(i).at
  {
    ChecksOk(i);
    assert i == 0 ==> offset + 3 < TWO64;
  }

  /** Check number `i` at a sector boundary, where no address wraps. */
  method CheckNumber(f: Disk, offset: Word, i: nat, force: bool, ghost orig: Image) returns (err: bool, clean: bool)
    requires f.Running() && offset % 512 == 0 && i < CHECK_COUNT && Validating(orig, f.image, offset, i, force)
    requires i > 0 ==> offset + 7 <= |f.image|
    modifies f
    ensures f.Valid() && (err <==> f.failed.Some?)
    ensures f.writes == old(f.writes) + if !err && force && Finds(orig, offset, i) then 1 else 0
    ensures f.Whole() && offset + 1082 <= |f.orig| ==> !err
    ensures err ==> f.image == old(f.image)
    ensures !err && clean ==> Validating(orig, f.image, offset, i + 1, force) && offset + 7 <= |f.image|
    ensures !err && !clean ==> !force && f.image == orig && Finds(orig, offset, i)
  {
    ghost var before := f.image;
    ChecksOk(i);
    CheckPlace(offset, i);
    FindsSame(orig, before, offset, i, force);
    var c := CheckNo(i);
    var loc := (offset + c.at) % TWO64;
    err, clean := CheckSignature(f, loc, c.text, c.wipe, force);
    if !err && clean {
      CheckDone(orig, before, f.image, offset, i, force);
    }
  }

  /** And what it says of the whole. */
  method CheckNext(f: Disk, offset: Word, i: nat, force: bool, ghost orig: Image) returns (err: bool, clean: bool)
    requires f.Running() && offset % 512 == 0 && i < CHECK_COUNT && Validating(orig, f.image, offset, i, force)
    requires i > 0 ==> offset + 7 <= |f.image|
    modifies f
    ensures f.Valid() && (err <==> f.failed.Some?)
    ensures f.writes == old(f.writes) + if !err && force && Finds(orig, offset, i) then 1 else 0
    ensures f.Whole() && offset + 1082 <= |f.orig| ==> !err
    ensures err ==> WipedOnly(orig, f.image, offset) && (!force ==> f.image == orig)
    ensures !err && clean ==> Validating(orig, f.image, offset, i + 1, force) && offset + 7 <= |f.image|
    ensures !err && !clean ==> !force && f.image == orig && WipedOnly(orig, orig, offset) && Recognised(orig, offset)
  {
    ValidatingFrame(orig, f.image, offset, i, force);
    FoundIsRecognised(orig, offset, i);
    err, clean := CheckNumber(f, offset, i, force, orig);
  }

  /** `validate_or_force` at a sector boundary: without `force` it changes nothing and says whether
      no signature is recognised; with `force` it wipes exactly what it recognises, with one write
      each, and nothing is left to recognise. */
  method ValidateOrForce(f: Disk, offset: Word, force: bool) returns (err: bool, valid: bool)
    requires f.Running() && offset % 512 == 0
    modifies f
    ensures f.Valid() && (err <==> f.failed.Some?)
    ensures f.writes <= old(f.writes) + 5
    ensures f.Whole() && offset + 1082 <= |f.orig| ==> !err
    ensures WipedOnly(old(f.image), f.image, offset) && (!force ==> f.image == old(f.image))
    ensures !err ==> (valid <==> force || !Recognised(old(f.image), offset))
    ensures !err && force ==> f.image == Cleansed(old(f.image), offset)
    ensures !err ==> f.writes == old(f.writes) + if force then Found(old(f.image), offset, CHECK_COUNT) else 0
    ensures !err && valid ==> !Recognised(f.image, offset)
  {
    ghost var orig := f.image;
    var i := 0;
    while i < CHECK_COUNT
      invariant 0 <= i <= CHECK_COUNT
      invariant f.Running() && f.writes == old(f.writes) + if force then Found(orig, offset, i) else 0
      invariant i > 0 ==> offset + 7 <= |f.image|
      invariant Validating(orig, f.image, offset, i, force)
    {
      var failed, clean := CheckNext(f, offset, i, force, orig);
      if failed {
        return true, false;
      }
      if !clean {
        return false, false;
      }
      i := i + 1;
    }
    ValidatingFrame(orig, f.image, offset, i, force);
    Validated(orig, f.image, offset, force);
    return false, true;
  }

  // ---------------------------------------------------------------------------------------------
  // The checks of the legacy partition table
  // ---------------------------------------------------------------------------------------------

  predicate StatusOk(img: Image, k: nat)
    requires k < 4 && |img| >= 512
  {
    img[Slot(k)] == 0 || img[Slot(k)] == 0x80
  }

  predicate Active(img: Image, k: nat)
    requires k < 4 && |img| >= 512
  {
    img[Slot(k)] >= 0x80
  }

  /** Where the status byte of one of the first `k` slots is. */
  predicate StatusByte(x: int, k: nat) { 446 <= x < Slot(k) && (x - 446) % 16 == 0 }

  /** A status byte as `force` leaves it: a good one as it is, of any other the high bit. */
  function RepairedStatus(b: Byte): Byte { if b == 0 || b == 0x80 then b else b / 0x80 * 0x80 }

  /** The image with the status bytes of the first `k` slots repaired. */
  function RepairedBy(img: Image, k: nat): (r: Image)
    ensures |r| == |img|
    ensures forall x :: 0 <= x < |img| ==> r[x] == if StatusByte(x, k) then RepairedStatus(img[x]) else img[x]
  {
    seq(|img|, x requires 0 <= x < |img| => if StatusByte(x, k) then RepairedStatus(img[x]) else img[x])
  }

  function Repaired(img: Image): (r: Image)
    ensures |r| == |img|
  {
    RepairedBy(img, 4)
  }

  /** How many of the first `k` slots need the repair. */
  function BadStatuses(img: Image, k: nat): (n: nat)
    requires k <= 4 && (k > 0 ==> |img| >= 512)
    ensures n <= k
  {
    if k == 0 then 0 else BadStatuses(img, k - 1) + if StatusOk(img, k - 1) then 0 else 1
  }

  lemma RepairNext(img: Image, k: nat)
    requires k < 4 && |img| >= 512
    ensures RepairedBy(img, k + 1) == Patch(RepairedBy(img, k), Slot(k), [RepairedStatus(img[Slot(k)])])
    ensures RepairedBy(img, k)[Slot(k)] == img[Slot(k)]
  {
    assert !StatusByte(Slot(k), k);
    forall x | 0 <= x < |img|
      ensures StatusByte(x, k + 1) <==> StatusByte(x, k) || x == Slot(k)
    {
    }
  }

  /** A slot whose bytes behind the status are the same starts as high as before. */
  lemma SameStart(img: Image, img': Image, k: nat)
    requires |img| == |img'| && |img| >= 512 && k < 4
    requires forall x :: Slot(k) < x < Slot(k) + 16 ==> img'[x] == img[x]
    ensures StartsHighEnough(img', k) <==> StartsHighEnough(img, k)
  {
    var at := Slot(k) + 8;
    forall x | at <= x < at + 4
      ensures img'[x] == img[x]
    {
    }
    assert img'[at..at + 4] == img[at..at + 4];
  }

  /** Whether a slot that is in use starts below sector 63. */
  method CheckStart(f: Disk, k: nat) returns (err: bool, tooLow: bool)
    requires f.Running() && k < 4
    modifies f`done, f`outs, f`failed
    ensures f.Valid() && (err <==> f.failed.Some?)
    ensures f.Whole() && 512 <= |f.orig| ==> !err
    ensures !err ==> |f.image| >= 512 && (tooLow <==> !StartsHighEnough(f.image, k))
  {
    var read, hint := f.Read(Slot(k) + 4, 1);
    if !read {
      return true, false;
    }
    if hint[0] == 0 {
      return false, false;
    }
    read, hint := f.Read(Slot(k) + 8, 4);
    return !read, read && LeValue(hint) < 63;
  }

  /** One slot: its status byte must be 0 or 0x80 or is made so with `force`; if it is in use it
      must not start below sector 63. */
  method CheckSlot(f: Disk, k: nat, force: bool) returns (err: bool, tooLow: bool, good: bool, active: bool)
    requires f.Running() && k < 4
    modifies f
    ensures f.Valid() && (err <==> f.failed.Some?)
    ensures f.Whole() && 512 <= |f.orig| ==> !err
    ensures !err ==> |f.image| >= 512
    ensures |f.image| == |old(f.image)| && (|f.image| < 512 || !force ==> f.image == old(f.image))
    ensures |f.image| >= 512 ==>
              f.image in {old(f.image), Patch(old(f.image), Slot(k), [RepairedStatus(old(f.image)[Slot(k)])])}
    ensures !err && force ==> f.image == Patch(old(f.image), Slot(k), [RepairedStatus(old(f.image)[Slot(k)])])
    ensures f.writes <= old(f.writes) + 1
    ensures !err ==> f.writes == old(f.writes) + if force && !StatusOk(old(f.image), k) then 1 else 0
    ensures !err ==>
              && (tooLow <==> !StartsHighEnough(old(f.image), k))
              && (good <==> force || StatusOk(old(f.image), k))
              && (active <==> Active(old(f.image), k))
  {
    err, tooLow, good, active := true, false, true, false;
    var read, hint := f.Read(Slot(k), 1);
    if !read {
      return;
    }
    var status := hint[0];
    assert status == old(f.image)[Slot(k)];
    if status != 0 && status != 0x80 {
      if !force {
        good := false;
      } else {
        status := status / 0x80 * 0x80;
        var written := f.Write(Slot(k), [status]);
        if !written {
          return;
        }
      }
    }
    active := status >= 0x80;
    SameStart(old(f.image), f.image, k);
    err, tooLow := CheckStart(f, k);
  }

  ghost predicate AllHighEnough(img: Image)
    requires |img| >= 512
  {
    forall k :: 0 <= k < 4 ==> StartsHighEnough(img, k)
  }

  ghost predicate AllStatusOk(img: Image)
    requires |img| >= 512
  {
    forall k :: 0 <= k < 4 ==> StatusOk(img, k)
  }

  ghost predicate AnyActive(img: Image)
    requires |img| >= 512
  {
    exists k :: 0 <= k < 4 && Active(img, k)
  }

  /** Nothing changed but status bytes, and those as the repair does. */
  ghost predicate OnlyRepairs(img: Image, img': Image) {
    && |img'| == |img|
    && (forall x :: 0 <= x < |img| && img'[x] != img[x] ==> StatusByte(x, 4) && img'[x] == RepairedStatus(img[x]))
  }

  /** The four slots, which the source checks one after the other.  It stops at the first that
      starts too low. */
  method CheckTable(f: Disk, force: bool) returns (abort: bool, mbr: bool, anyActive: bool)
    requires f.Running()
    modifies f
    ensures f.Valid() && f.writes <= old(f.writes) + 4
    ensures OnlyRepairs(old(f.image), f.image) && (!force ==> f.image == old(f.image))
    ensures f.failed.Some? ==> abort
    ensures f.Whole() && 512 <= |f.orig| ==> f.failed == None
    ensures !abort ==>
              && |f.image| >= 512
              && f.image == (if force then Repaired(old(f.image)) else old(f.image))
              && f.writes == old(f.writes) + (if force then BadStatuses(old(f.image), 4) else 0)
              && AllHighEnough(old(f.image))
              && (mbr <==> force || AllStatusOk(old(f.image)))
              && (anyActive <==> AnyActive(old(f.image)))
    ensures abort && f.failed == None ==> |old(f.image)| >= 512 && !AllHighEnough(old(f.image))
  {
    ghost var orig, writes := f.image, f.writes;
    mbr, anyActive := true, false;
    var k := 0;
    while k < 4
      invariant 0 <= k <= 4
      invariant f.Running() && SlotsDone(orig, f.image, f.writes - writes, k, force, mbr, anyActive)
    {
      ghost var before, w := f.image, f.writes;
      var err, tooLow, good, active := CheckSlot(f, k, force);
      SlotTouched(orig, before, f.image, k, force);
      if err {
        return true, false, false;
      }
      SlotDone(orig, before, f.image, w - writes, f.writes - writes, k, force, mbr, anyActive, good, active, tooLow);
      if tooLow {
        return true, false, false;
      }
      mbr := mbr && good;
      anyActive := anyActive || active;
      k := k + 1;
    }
    TableDone(orig, f.image, f.writes - writes, force, mbr, anyActive);
    return false, mbr, anyActive;
  }

  lemma TableDone(orig: Image, img: Image, n: int, force: bool, mbr: bool, anyActive: bool)
    requires SlotsDone(orig, img, n, 4, force, mbr, anyActive)
    ensures |img| == |orig| >= 512 && img == if force then Repaired(orig) else orig
    ensures n == if force then BadStatuses(orig, 4) else 0
    ensures AllHighEnough(orig) && OnlyRepairs(orig, img)
    ensures (mbr <==> force || AllStatusOk(orig)) && (anyActive <==> AnyActive(orig))
  {
    RepairsOnly(orig, 4);
  }

  /** After `k` slots, and `n` writes. */
  ghost predicate SlotsDone(orig: Image, img: Image, n: int, k: nat, force: bool, mbr: bool, anyActive: bool)
    requires k <= 4
  {
    && img == (if force then RepairedBy(orig, k) else orig)
    && (k > 0 ==>
          && |orig| >= 512
          && (mbr <==> force || forall j :: 0 <= j < k ==> StatusOk(orig, j))
          && (anyActive <==> exists j :: 0 <= j < k && Active(orig, j))
          && (forall j :: 0 <= j < k ==> StartsHighEnough(orig, j)))
    && (k == 0 ==> mbr && !anyActive && n == 0)
    && 0 <= n <= k
    && (k > 0 ==> n == if force then BadStatuses(orig, k) else 0)
  }

  lemma StatusSoFar(img: Image, k: nat)
    requires k < 4 && |img| >= 512
    ensures (forall j :: 0 <= j < k + 1 ==> StatusOk(img, j)) <==>
            (forall j :: 0 <= j < k ==> StatusOk(img, j)) && StatusOk(img, k)
    ensures (exists j :: 0 <= j < k + 1 && Active(img, j)) <==>
            (exists j :: 0 <= j < k && Active(img, j)) || Active(img, k)
  {
  }

  /** Whatever happens at slot `k`, only status bytes change. */
  lemma SlotTouched(orig: Image, before: Image, img: Image, k: nat, force: bool)
    requires k < 4 && before == if force then RepairedBy(orig, k) else orig
    requires |img| == |before| && (|img| < 512 || !force ==> img == before)
    requires |img| >= 512 ==> img in {before, Patch(before, Slot(k), [RepairedStatus(before[Slot(k)])])}
    ensures OnlyRepairs(orig, img) && (!force ==> img == orig)
  {
    RepairsOnly(orig, k);
    if |img| >= 512 {
      RepairNext(orig, k);
      RepairsOnly(orig, k + 1);
    }
  }

  lemma RepairsOnly(img: Image, k: nat)
    requires k <= 4
    ensures OnlyRepairs(img, RepairedBy(img, k))
  {
    forall x | 0 <= x < |img| && StatusByte(x, k)
      ensures StatusByte(x, 4)
    {
    }
  }

  lemma SlotDone(orig: Image, before: Image, img: Image, m: int, n: int, k: nat, force: bool, mbr: bool, anyActive: bool,
                 good: bool, active: bool, tooLow: bool)
    requires k < 4 && SlotsDone(orig, before, m, k, force, mbr, anyActive)
    requires |orig| >= 512
    requires img == if force then Patch(before, Slot(k), [RepairedStatus(before[Slot(k)])]) else before
    requires n == m + if force && !StatusOk(before, k) then 1 else 0
    requires tooLow <==> !StartsHighEnough(before, k)
    requires good <==> force || StatusOk(before, k)
    requires active <==> Active(before, k)
    ensures !tooLow ==> SlotsDone(orig, img, n, k + 1, force, mbr && good, anyActive || active)
    ensures tooLow ==> !AllHighEnough(orig)
  {
    RepairNext(orig, k);
    assert before[Slot(k)] == orig[Slot(k)];
    assert StatusOk(before, k) == StatusOk(orig, k) && Active(before, k) == Active(orig, k);
    SlotBehind(orig, k);
    SameStart(orig, before, k);
    StatusSoFar(orig, k);
  }

  lemma SlotBehind(img: Image, k: nat)
    requires k < 4 && |img| >= 512
    ensures forall x, n :: Slot(k) < x < Slot(k) + 16 ==> !StatusByte(x, n)
  {
  }

  /** The table keeps its starts and its use when only bytes outside it change. */
  lemma SameTable(img: Image, img': Image)
    requires |img| == |img'| && |img| >= 512 && forall x :: 446 <= x < 510 ==> img'[x] == img[x]
    ensures AllHighEnough(img') <==> AllHighEnough(img)
    ensures AllStatusOk(img') <==> AllStatusOk(img)
    ensures AnyActive(img') <==> AnyActive(img)
  {
    forall k | 0 <= k < 4
      ensures StartsHighEnough(img', k) <==> StartsHighEnough(img, k)
      ensures StatusOk(img', k) <==> StatusOk(img, k)
      ensures Active(img', k) <==> Active(img, k)
    {
      SameStart(img, img', k);
    }
  }

  /** The signatures lie outside the table, so that changes there neither show nor hide any. */
  lemma SameSignatures(img: Image, img': Image)
    requires |img| == |img'| && forall x :: 0 <= x < |img| && !(446 <= x < 510) ==> img'[x] == img[x]
    ensures forall j :: 0 <= j < CHECK_COUNT ==> Finds(img', 0, j) == Finds(img, 0, j)
    ensures Recognised(img', 0) <==> Recognised(img, 0)
    ensures Found(img', 0, CHECK_COUNT) == Found(img, 0, CHECK_COUNT)
  {
    forall j | 0 <= j < CHECK_COUNT
      ensures Finds(img', 0, j) == Finds(img, 0, j)
    {
      ChecksOk(j);
      SameText(img, img', CheckNo(j).at, CheckNo(j).text);
    }
    PassedAll(img, 0);
    PassedAll(img', 0);
    SameFound(img, img', CHECK_COUNT);
  }

  lemma {:induction false} SameFound(img: Image, img': Image, k: nat)
    requires k <= CHECK_COUNT
    requires forall j :: 0 <= j < k ==> Finds(img', 0, j) == Finds(img, 0, j)
    ensures Found(img', 0, k) == Found(img, 0, k)
    decreases k
  {
    if k > 0 {
      SameFound(img, img', k - 1);
    }
  }

  /** A repaired table is sane, and as active, as high and as much in use as before. */
  lemma RepairedTable(img: Image)
    requires |img| >= 512
    ensures AllStatusOk(Repaired(img))
    ensures AnyActive(Repaired(img)) <==> AnyActive(img)
    ensures AllHighEnough(Repaired(img)) <==> AllHighEnough(img)
    ensures AllStatusOk(img) ==> Repaired(img) == img && BadStatuses(img, 4) == 0
    ensures Recognised(Repaired(img), 0) <==> Recognised(img, 0)
    ensures Found(Repaired(img), 0, CHECK_COUNT) == Found(img, 0, CHECK_COUNT)
  {
    forall k | 0 <= k < 4
      ensures StatusOk(Repaired(img), k)
      ensures Active(Repaired(img), k) <==> Active(img, k)
      ensures StartsHighEnough(Repaired(img), k) <==> StartsHighEnough(img, k)
    {
      RepairedSlot(img, k);
    }
    RepairsOnly(img, 4);
    SameSignatures(img, Repaired(img));
    if AllStatusOk(img) {
      NoneBad(img, 4);
      NothingToRepair(img);
    }
  }

  lemma RepairedSlot(img: Image, k: nat)
    requires |img| >= 512 && k < 4
    ensures StatusOk(Repaired(img), k)
    ensures Active(Repaired(img), k) <==> Active(img, k)
    ensures StartsHighEnough(Repaired(img), k) <==> StartsHighEnough(img, k)
  {
    assert StatusByte(Slot(k), 4);
    SlotBehind(img, k);
    SameStart(img, Repaired(img), k);
  }

  lemma NothingToRepair(img: Image)
    requires |img| >= 512 && AllStatusOk(img)
    ensures Repaired(img) == img
  {
    forall x | 0 <= x < |img| && StatusByte(x, 4)
      ensures RepairedStatus(img[x]) == img[x]
    {
      var k := (x - 446) / 16;
      assert x == Slot(k) && StatusOk(img, k);
    }
  }

  lemma {:induction false} NoneBad(img: Image, k: nat)
    requires |img| >= 512 && k <= 4 && AllStatusOk(img)
    ensures BadStatuses(img, k) == 0
    decreases k
  {
    if k > 0 {
      NoneBad(img, k - 1);
    }
  }

  /** The first slot marked active, unless one is. */
  ghost function Marked(img: Image): (r: Image)
    requires |img| >= 512
    ensures |r| == |img|
  {
    if AnyActive(img) then img else Patch(img, 446, [0x80])
  }

  lemma MarkedTable(img: Image)
    requires |img| >= 512
    ensures AnyActive(Marked(img))
    ensures AllStatusOk(img) ==> AllStatusOk(Marked(img))
    ensures AllHighEnough(Marked(img)) <==> AllHighEnough(img)
    ensures Recognised(Marked(img), 0) <==> Recognised(img, 0)
  {
    var img' := Marked(img);
    forall k | 0 <= k < 4
      ensures StartsHighEnough(img', k) <==> StartsHighEnough(img, k)
      ensures StatusOk(img, k) ==> StatusOk(img', k)
    {
      SameStart(img, img', k);
    }
    assert AnyActive(img) || Active(img', 0);
    SameSignatures(img, img');
  }

  lemma SameText(img: Image, img': Image, at: nat, text: Image)
    requires |img| == |img'| && forall x :: at <= x < at + |text| && x < |img| ==> img'[x] == img[x]
    ensures Has(img', at, text) <==> Has(img, at, text)
  {
    if at + |text| <= |img| {
      assert img'[at..at + |text|] == img[at..at + |text|];
    }
  }

  /** What the sanity checks make of a legacy disk they accept: bad status bytes repaired, recognised
      file systems wiped, and a partition active.  Without `force` the first two change nothing. */
  ghost function LegacyPrepared(img: Image): (r: Image)
    requires |img| >= 512
    ensures |r| == |img|
  {
    Marked(Cleansed(Repaired(img), 0))
  }

  /** How many writes that takes. */
  ghost function LegacyWrites(img: Image): nat
    requires |img| >= 512
  {
    BadStatuses(img, 4) + Found(img, 0, CHECK_COUNT) + if AnyActive(img) then 0 else 1
  }

  lemma LegacyPreparedTable(img: Image)
    requires |img| >= 512
    ensures AllStatusOk(LegacyPrepared(img)) && AnyActive(LegacyPrepared(img)) && !Recognised(LegacyPrepared(img), 0)
    ensures AllHighEnough(LegacyPrepared(img)) <==> AllHighEnough(img)
    ensures AnyActive(Cleansed(Repaired(img), 0)) <==> AnyActive(img)
    ensures SameOutside(img, LegacyPrepared(img), 0, 1082)
  {
    var repaired := Repaired(img);
    RepairedTable(img);
    CleansedFrame(repaired, 0, CHECK_COUNT);
    CleansedIsClean(repaired, 0);
    SameTable(repaired, Cleansed(repaired, 0));
    MarkedTable(Cleansed(repaired, 0));
  }

  /** On a sane disk without a file system only the mark may be missing. */
  lemma LegacyPreparedSane(img: Image)
    requires |img| >= 512 && AllStatusOk(img) && !Recognised(img, 0)
    ensures LegacyPrepared(img) == Marked(img)
    ensures LegacyWrites(img) == if AnyActive(img) then 0 else 1
  {
    RepairedTable(img);
    CleansedIsClean(img, 0);
    PassedAll(img, 0);
    NoneFound(img, 0, CHECK_COUNT);
  }

  lemma {:induction false} NoneFound(img: Image, offset: nat, k: nat)
    requires k <= CHECK_COUNT && Passed(img, offset, k)
    ensures Found(img, offset, k) == 0
    decreases k
  {
    if k > 0 {
      NoneFound(img, offset, k - 1);
    }
  }

  /** What the sanity checks of a legacy disk find, leave behind and write. */
  ghost predicate LegacyChecked(img: Image, img': Image, writes: int, force: bool, mbr: bool) {
    && |img| >= 512 && AllHighEnough(img)
    && (mbr <==> force || (AllStatusOk(img) && !Recognised(img, 0)))
    && img' == (if mbr then LegacyPrepared(img) else img)
    && writes == (if mbr then LegacyWrites(img) else 0)
  }

  /** The checks of a legacy disk.  They fail on a partition that starts below sector 63; the disk
      is accepted if the table looks sane and no file system is recognised, or with `force`, which
      makes both so.  A table with no active partition gets its first one marked. */
  method MbrChecks(f: Disk, force: bool) returns (fail: bool, mbr: bool)
    requires f.Running()
    modifies f
    ensures f.Valid() && f.writes <= old(f.writes) + 10
    ensures SameOutside(old(f.image), f.image, 0, 1082)
    ensures f.failed.Some? ==> fail
    ensures f.Whole() && 1082 <= |f.orig| ==> f.failed == None
    ensures !fail ==> LegacyChecked(old(f.image), f.image, f.writes - old(f.writes), force, mbr)
    ensures fail && f.failed == None ==> |old(f.image)| >= 512 && !AllHighEnough(old(f.image))
  {
    ghost var orig, writes := f.image, f.writes;
    var anyActive;
    fail, mbr, anyActive := CheckTable(f, force);
    if fail {
      return true, false;
    }
    RepairedTable(orig);
    LegacyPreparedTable(orig);
    if !mbr {
      return false, false;
    }
    var err;
    err, mbr := ValidateOrForce(f, 0, force);
    if err {
      return true, false;
    }
    if !mbr {
      return false, false;
    }
    Unforced(orig, force);
    if !anyActive {
      var written := f.Write(446, [0x80]);
      if !written {
        return true, false;
      }
    }
    return false, true;
  }

  /** What an accepted disk is before the mark, forced or not. */
  lemma Unforced(img: Image, force: bool)
    requires |img| >= 512 && (force || (AllStatusOk(img) && !Recognised(img, 0)))
    ensures Cleansed(Repaired(img), 0) == if force then Cleansed(Repaired(img), 0) else img
    ensures !force ==> BadStatuses(img, 4) == 0 && Found(img, 0, CHECK_COUNT) == 0
    ensures Found(Repaired(img), 0, CHECK_COUNT) == Found(img, 0, CHECK_COUNT)
  {
    RepairedTable(img);
    if !force {
      CleansedIsClean(img, 0);
      PassedAll(img, 0);
      NoneFound(img, 0, CHECK_COUNT);
    }
  }
}
