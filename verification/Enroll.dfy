/** Enrolling a configuration checksum: the search for a 26-byte marker in the loader's file, and the
    128 bytes behind it. */
module Enroll {
  import opened Machine

  const MARKER: seq<char> := "++CONFIG_B2SUM_SIGNATURE++"
  const MARKER_SIZE: int := 26
  const SUM_SIZE: int := 128
  const MIN_SIZE: int := MARKER_SIZE + SUM_SIZE

  lemma MarkerLength()
    ensures |MARKER| == MARKER_SIZE
  {
  }

  /** The text starts at `s`, and its last byte is early enough for the search to look at it. */
  ghost predicate TextAt(file: string, text: string, s: int)
    requires |text| == MARKER_SIZE
  {
    && 0 <= s && s + MARKER_SIZE - 1 <= |file| - MIN_SIZE
    && file[s..s + MARKER_SIZE] == text
  }

  ghost predicate NoTextBefore(file: string, text: string, s: int)
    requires |text| == MARKER_SIZE
  {
    forall t :: 0 <= t < s ==> !TextAt(file, text, t)
  }

  ghost predicate MarkerAt(file: string, s: int) {
    MarkerLength();
    TextAt(file, MARKER, s)
  }

  ghost predicate FirstMarkerAt(file: string, s: int) {
    MarkerAt(file, s) && forall t :: 0 <= t < s ==> !MarkerAt(file, t)
  }

  /** The search loop: on a mismatch the index steps back to just behind the start of the failed
      match.  It ends, and finds the leftmost occurrence; -1 stands for none. */
  method Search(file: string, text: string) returns (sum: int)
    requires |file| >= MIN_SIZE && |text| == MARKER_SIZE
    ensures sum == -1 || sum >= MARKER_SIZE
    ensures sum >= 0 ==> TextAt(file, text, sum - MARKER_SIZE) && NoTextBefore(file, text, sum - MARKER_SIZE)
    ensures sum < 0 ==> forall t :: !TextAt(file, text, t)
  {
    var i, checked := 0, 0;
    while i < |file| - MIN_SIZE + 1
      invariant 0 <= checked < MARKER_SIZE && checked <= i <= |file| - MIN_SIZE + 1
      invariant file[i - checked..i] == text[..checked]
      invariant NoTextBefore(file, text, i - checked)
      decreases |file| - (i - checked), MARKER_SIZE - checked
    {
      if file[i] != text[checked] {
        MismatchRulesOut(file, text, i - checked, checked);
        if checked > 0 {
          i := i - checked;
          checked := 0;
        }
        i := i + 1;
        continue;
      }
      assert file[i - checked..i + 1] == file[i - checked..i] + [file[i]];
      assert text[..checked + 1] == text[..checked] + [text[checked]];
      checked := checked + 1;
      if checked == MARKER_SIZE {
        return i + 1;
      }
      i := i + 1;
    }
    return -1;
  }

  lemma MismatchRulesOut(file: string, text: string, s: int, k: nat)
    requires |text| == MARKER_SIZE && k < MARKER_SIZE && 0 <= s && s + k < |file|
    requires file[s + k] != text[k]
    ensures !TextAt(file, text, s)
  {
    if s + MARKER_SIZE <= |file| {
      assert file[s..s + MARKER_SIZE][k] == file[s + k];
    }
  }

  /** The file after a search that gave `sum`: the 128 bytes there replaced. */
  function Replaced(file: string, sum: nat, hash: string): (r: string)
    requires sum + |hash| <= |file|
    ensures |r| == |file|
  {
    file[..sum] + hash + file[sum + |hash|..]
  }

  predicate HexDigit(c: char) { '0' <= c <= '9' || 'a' <= c <= 'f' || 'A' <= c <= 'F' }

  function Zeros(n: nat): (r: string)
    ensures |r| == n && forall i :: 0 <= i < n ==> r[i] == '0'
  {
    seq(n, _ => '0')
  }

  /** What enrolling does to a file that has the marker: the 128 bytes behind the first one become
      the hash, which for a reset is all zeros. */
  ghost predicate Enrolled(file: string, hash: string, result: string) {
    |hash| == SUM_SIZE &&
    exists s :: FirstMarkerAt(file, s) && result == Replaced(file, s + MARKER_SIZE, hash)
  }

  /** The 26 bytes at `s` are the marker, and 153 more follow it. */
  ghost predicate Seen(file: string, s: int) {
    0 <= s && s + 26 + 153 <= |file| && file[s..s + 26] == "++CONFIG_B2SUM_SIGNATURE++"
  }

  lemma SeenIsMarkerAt(file: string, s: int)
    ensures Seen(file, s) <==> MarkerAt(file, s)
  {
    MarkerLength();
  }

  /** Only a file of the smallest size has room for the marker and what must follow. */
  lemma MarkerNeedsRoom(file: string, s: int)
    requires MarkerAt(file, s)
    ensures |file| >= MIN_SIZE
  {
    MarkerLength();
  }

  /** What stands behind the first marker is the checksum, or 128 zeros for a reset, and every other byte is
      what it was. */
  lemma EnrolledBytes(file: string, hash: Option<string>, result: string, s: int)
    requires hash.Some? ==> |hash.value| == SUM_SIZE
    requires Enrolled(file, if hash.Some? then hash.value else Zeros(SUM_SIZE), result)
    requires Seen(file, s) && forall t :: 0 <= t < s ==> !Seen(file, t)
    ensures |result| == |file| && s + 154 <= |file|
    ensures result[s + 26..s + 154] == if hash.Some? then hash.value else seq(128, _ => '0')
    ensures result[..s + 26] == file[..s + 26] && result[s + 154..] == file[s + 154..]
  {
    forall t
      ensures Seen(file, t) <==> MarkerAt(file, t)
    {
      SeenIsMarkerAt(file, t);
    }
    var h := if hash.Some? then hash.value else Zeros(SUM_SIZE);
    var first :| FirstMarkerAt(file, first) && result == Replaced(file, first + MARKER_SIZE, h);
    SameFirst(file, first, s);
    assert result == file[..s + 26] + h + file[s + 154..];
  }

  /** `enroll_config` on the bytes of the file: `None` resets.  It succeeds exactly for a checksum of 128 hexadecimal
      digits, or a reset, and a file in which a marker is seen; then it changes the 128 bytes behind the
      first one, and no other. */
  method EnrollConfig(file: string, hash: Option<string>) returns (ok: bool, result: string)
    ensures ok <==> && (hash.Some? ==>
                          && |hash.value| == 128
                          && forall c :: c in hash.value ==> '0' <= c <= '9' || 'a' <= c <= 'f' || 'A' <= c <= 'F')
                    && exists s :: Seen(file, s)
    ensures !ok ==> result == file
    ensures ok ==> Enrolled(file, if hash.Some? then hash.value else Zeros(SUM_SIZE), result)
    ensures ok ==> forall s :: Seen(file, s) && (forall t :: 0 <= t < s ==> !Seen(file, t)) ==>
                     && |result| == |file|
                     && result[s + 26..s + 154] == (if hash.Some? then hash.value else seq(128, _ => '0'))
                     && result[..s + 26] == file[..s + 26] && result[s + 154..] == file[s + 154..]
  {
    ok, result := EnrollBytes(file, hash);
    forall s
      ensures Seen(file, s) <==> MarkerAt(file, s)
    {
      SeenIsMarkerAt(file, s);
    }
    if exists s :: MarkerAt(file, s) {
      var s := FirstMarker(file);
      MarkerNeedsRoom(file, s);
    }
    if ok {
      forall s | Seen(file, s) && (forall t :: 0 <= t < s ==> !Seen(file, t))
        ensures |result| == |file|
        ensures result[s + 26..s + 154] == (if hash.Some? then hash.value else seq(128, _ => '0'))
        ensures result[..s + 26] == file[..s + 26] && result[s + 154..] == file[s + 154..]
      {
        EnrolledBytes(file, hash, result, s);
      }
    }
  }

  method EnrollBytes(file: string, hash: Option<string>) returns (ok: bool, result: string)
    ensures ok <==> && (hash.Some? ==> |hash.value| == SUM_SIZE && forall c :: c in hash.value ==> HexDigit(c))
                    && |file| >= MIN_SIZE && exists s :: MarkerAt(file, s)
    ensures !ok ==> result == file
    ensures ok ==> Enrolled(file, if hash.Some? then hash.value else Zeros(SUM_SIZE), result)
  {
    result := file;
    if hash.Some? {
      if |hash.value| != SUM_SIZE {
        return false, file;
      }
      var i := 0;
      while i < SUM_SIZE
        invariant 0 <= i <= SUM_SIZE
        invariant forall j :: 0 <= j < i ==> HexDigit(hash.value[j])
      {
        if !HexDigit(hash.value[i]) {
          assert hash.value[i] in hash.value;
          return false, file;
        }
        i := i + 1;
      }
    }
    if |file| < MIN_SIZE {
      return false, file;
    }
    MarkerLength();
    var sum := Search(file, MARKER);
    if sum < 0 {
      assert forall t :: !MarkerAt(file, t);
      return false, file;
    }
    result := Replaced(file, sum, if hash.Some? then hash.value else Zeros(SUM_SIZE));
    assert FirstMarkerAt(file, sum - MARKER_SIZE);
    return true, result;
  }

  /** The bytes in front of the checksum decide where the marker is; the checksum itself cannot
      create an earlier one. */
  lemma MarkerStays(file: string, s: int, hash: string)
    requires FirstMarkerAt(file, s) && |hash| == SUM_SIZE
    ensures FirstMarkerAt(Replaced(file, s + MARKER_SIZE, hash), s)
  {
    var r := Replaced(file, s + MARKER_SIZE, hash);
    forall t | 0 <= t <= s
      ensures MarkerAt(r, t) <==> MarkerAt(file, t)
    {
      assert r[t..t + MARKER_SIZE] == file[t..t + MARKER_SIZE];
    }
  }

  lemma ReplacedTwice(file: string, sum: nat, h1: string, h2: string)
    requires |h1| == |h2| && sum + |h1| <= |file|
    ensures Replaced(Replaced(file, sum, h1), sum, h2) == Replaced(file, sum, h2)
  {
  }

  lemma SameFirst(file: string, s: int, t: int)
    requires FirstMarkerAt(file, s) && FirstMarkerAt(file, t)
    ensures s == t
  {
  }

  lemma SameEnrolment(file: string, h: string, r: string, r': string)
    requires Enrolled(file, h, r) && Enrolled(file, h, r')
    ensures r == r'
  {
    var s :| FirstMarkerAt(file, s) && r == Replaced(file, s + MARKER_SIZE, h);
    var t :| FirstMarkerAt(file, t) && r' == Replaced(file, t + MARKER_SIZE, h);
    SameFirst(file, s, t);
  }

  /** Of two successive enrolments or resets the second alone decides the file. */
  lemma LastOneDecides(file: string, h1: string, h2: string, r1: string, r2: string)
    requires |h1| == SUM_SIZE && Enrolled(file, h1, r1) && Enrolled(r1, h2, r2)
    ensures Enrolled(file, h2, r2)
  {
    var s :| FirstMarkerAt(file, s) && r1 == Replaced(file, s + MARKER_SIZE, h1);
    MarkerStays(file, s, h1);
    SameEnrolment(r1, h2, r2, Replaced(r1, s + MARKER_SIZE, h2));
    ReplacedTwice(file, s + MARKER_SIZE, h1, h2);
  }

  /** A run of enrolments: the last one decides, however many came before. */
  ghost predicate EnrolledAll(file: string, hashes: seq<string>, result: string)
    decreases |hashes|
  {
    if hashes == [] then result == file
    else
      var front, last := hashes[..|hashes| - 1], hashes[|hashes| - 1];
      exists mid :: EnrolledAll(file, front, mid) && Enrolled(mid, last, result)
  }

  lemma {:induction false} LastOfManyDecides(file: string, hashes: seq<string>, result: string)
    requires hashes != [] && EnrolledAll(file, hashes, result)
    ensures Enrolled(file, hashes[|hashes| - 1], result)
    decreases |hashes|
  {
    var front, last := hashes[..|hashes| - 1], hashes[|hashes| - 1];
    var mid :| EnrolledAll(file, front, mid) && Enrolled(mid, last, result);
    if front != [] {
      LastOfManyDecides(file, front, mid);
      LastOneDecides(file, front[|front| - 1], last, mid, result);
    }
  }

  /** If the marker is there at all, there is a first one. */
  lemma FirstMarker(file: string) returns (s: int)
    requires exists s :: MarkerAt(file, s)
    ensures FirstMarkerAt(file, s)
  {
    s :| MarkerAt(file, s);
    while exists t :: 0 <= t < s && MarkerAt(file, t)
      invariant MarkerAt(file, s)
      decreases s
    {
      var t :| 0 <= t < s && MarkerAt(file, t);
      s := t;
    }
  }

  /** A file with the marker has exactly one enrolment of a checksum, and that can be enrolled again. */
  lemma OneEnrolment(file: string, hash: string) returns (r: string)
    requires |hash| == SUM_SIZE && exists s :: MarkerAt(file, s)
    ensures Enrolled(file, hash, r)
    ensures forall r' :: Enrolled(file, hash, r') ==> r' == r
    ensures exists s :: MarkerAt(r, s)
  {
    var s := FirstMarker(file);
    r := Replaced(file, s + MARKER_SIZE, hash);
    MarkerStays(file, s, hash);
    assert MarkerAt(r, s);
    forall r' | Enrolled(file, hash, r')
      ensures r' == r
    {
      SameEnrolment(file, hash, r', r);
    }
  }

  /** The search sees a marker exactly if 153 bytes follow it, 25 more than the checksum needs. */
  lemma SeenIff(file: string, s: int)
    requires 0 <= s && s + MARKER_SIZE <= |file| && file[s..s + MARKER_SIZE] == MARKER
    ensures MarkerAt(file, s) <==> |file| - (s + MARKER_SIZE) >= SUM_SIZE + MARKER_SIZE - 1
  {
    MarkerLength();
  }

  /** So it misses the marker of a file that ends with the checksum. */
  lemma MarkerMissed()
    ensures var file := MARKER + Zeros(SUM_SIZE);
            |file| == MIN_SIZE && file[..MARKER_SIZE] == MARKER && forall s :: !MarkerAt(file, s)
  {
    MarkerLength();
  }
}
