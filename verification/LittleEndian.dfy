/** Numbers as bytes, least significant first. */
module LittleEndian {
  import opened Machine
  import opened UndoLog

  /** The low `n` bytes of a number, least significant first. */
  function LeBytes(w: nat, n: nat): (bs: Image)
    ensures |bs| == n
  {
    if n == 0 then [] else [w % 256] + LeBytes(w / 256, n - 1)
  }

  function LeValue(bs: Image): nat {
    if bs == [] then 0 else bs[0] + 256 * LeValue(bs[1..])
  }

  function Power256(n: nat): (p: nat)
    ensures p > 0
  {
    if n == 0 then 1 else 256 * Power256(n - 1)
  }

  lemma {:induction false} LeRoundTrip(w: nat, n: nat)
    requires w < Power256(n)
    ensures LeValue(LeBytes(w, n)) == w
    decreases n
  {
    if n > 0 {
      LeRoundTrip(w / 256, n - 1);
      assert LeBytes(w, n)[1..] == LeBytes(w / 256, n - 1);
    }
  }

  lemma {:induction false} LeValueBounds(bs: Image)
    ensures LeValue(bs) < Power256(|bs|)
    ensures LeBytes(LeValue(bs), |bs|) == bs
    decreases |bs|
  {
    if bs != [] {
      LeValueBounds(bs[1..]);
      assert LeValue(bs) % 256 == bs[0] && LeValue(bs) / 256 == LeValue(bs[1..]);
      assert bs == [bs[0]] + bs[1..];
    }
  }

  lemma Power256Of8()
    ensures Power256(8) == TWO64
  {
    assert Power256(4) == 0x1_0000_0000;
    assert Power256(8) == 256 * 256 * 256 * 256 * Power256(4);
  }

  lemma Power256Of4()
    ensures Power256(4) == 0x1_0000_0000
  {
  }

  /** The 64-bit and the 32-bit number at a place in `bytes`. */
  function WordAt(bytes: Image, at: nat): Word
    requires at + 8 <= |bytes|
  {
    Power256Of8();
    LeValueBounds(bytes[at..at + 8]);
    LeValue(bytes[at..at + 8])
  }

  function HalfAt(bytes: Image, at: nat): (h: nat)
    requires at + 4 <= |bytes|
    ensures h < 0x1_0000_0000
  {
    Power256Of4();
    LeValueBounds(bytes[at..at + 4]);
    LeValue(bytes[at..at + 4])
  }

  /** The number four bytes stand for, the first being the least significant. */
  function Four(a: int, b: int, c: int, d: int): int { a + 0x100 * b + 0x1_0000 * c + 0x100_0000 * d }

  lemma HalfSpelled(bytes: Image, at: nat)
    requires at + 4 <= |bytes|
    ensures HalfAt(bytes, at) == Four(bytes[at], bytes[at + 1], bytes[at + 2], bytes[at + 3])
  {
    FourSpelled(bytes[at..at + 4]);
  }

  lemma FourSpelled(bs: Image)
    requires |bs| == 4
    ensures LeValue(bs) == Four(bs[0], bs[1], bs[2], bs[3])
  {
    var b1, b2, b3 := bs[1..], bs[2..], bs[3..];
    assert b1[1..] == b2 && b2[1..] == b3 && b3[1..] == [];
    assert LeValue(b3) == bs[3];
    assert LeValue(b2) == bs[2] + 256 * LeValue(b3);
    assert LeValue(b1) == bs[1] + 256 * LeValue(b2);
  }

  lemma WordSpelled(bytes: Image, at: nat)
    requires at + 8 <= |bytes|
    ensures WordAt(bytes, at) == HalfAt(bytes, at) + 0x1_0000_0000 * HalfAt(bytes, at + 4)
  {
    var low, high := bytes[at..at + 4], bytes[at + 4..at + 8];
    assert bytes[at..at + 8] == low + high;
    Concat(low, high);
    Power256Of4();
  }

  lemma {:induction false} Concat(low: Image, high: Image)
    ensures LeValue(low + high) == LeValue(low) + Power256(|low|) * LeValue(high)
    decreases |low|
  {
    if low == [] {
      assert low + high == high;
    } else {
      assert (low + high)[1..] == low[1..] + high;
      Concat(low[1..], high);
      var p, v := Power256(|low| - 1), LeValue(high);
      Scale(p, v);
      assert LeValue(low + high) == low[0] + 256 * (LeValue(low[1..]) + p * v);
    }
  }

  lemma Scale(p: nat, v: nat)
    ensures 256 * (p * v) == (256 * p) * v
  {
  }
}
