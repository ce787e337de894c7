/** How paths become map keys. Both maps format a key as "<length> <last character> <path>";
    the path map passes one byte less than the text it formatted, so the last byte of the
    path takes part in the key only through its printed code. */
module PathKeys {
  import opened CStrings

  /** `%d` of a plain char: the byte as a signed 8-bit number. */
  function CharCode(b: Byte): int {
    if b < 128 then b else b - 256
  }

  function FormatKey(n: nat, code: int, s: Bytes): Bytes {
    Digits(n) + [SPACE] + SignedDigits(code) + [SPACE] + s
  }

  /** The buffer `set_value` hands to the map; its ksize is one less than its length. */
  function PathKey(path: Bytes): (key: Bytes)
    requires path != []
    ensures |key| > |path|
  {
    FormatKey(|path| - 1, CharCode(path[|path| - 1]), path)
  }

  /** The bytes of that buffer that are compared. */
  function PathId(path: Bytes): Bytes
    requires path != []
  {
    Prefix(PathKey(path), |PathKey(path)| - 1)
  }

  /** The buffer `set_value_lr` hands to the map, all of it compared. */
  function LruKey(key: Bytes): Bytes
    requires key != []
  {
    FormatKey(|key|, CharCode(key[|key| - 1]), key)
  }

  lemma FormatInjective(n: nat, c: int, s: Bytes, m: nat, d: int, t: Bytes)
    requires FormatKey(n, c, s) == FormatKey(m, d, t)
    ensures n == m && c == d && s == t
  {
    var x, y := SignedDigits(c) + [SPACE] + s, SignedDigits(d) + [SPACE] + t;
    assert FormatKey(n, c, s) == Digits(n) + [SPACE] + x;
    assert FormatKey(m, d, t) == Digits(m) + [SPACE] + y;
    NoBlank(n);
    NoBlank(m);
    SplitAtBlank(Digits(n), x, Digits(m), y);
    DigitsDenote(n);
    DigitsDenote(m);
    NoBlankSigned(c);
    NoBlankSigned(d);
    SplitAtBlank(SignedDigits(c), s, SignedDigits(d), t);
    SignedDigitsInjective(c, d);
  }

  lemma NoBlank(n: nat)
    ensures SPACE !in Digits(n)
  {
    forall i | 0 <= i < |Digits(n)|
      ensures Digits(n)[i] != SPACE
    {
      assert IsDigit(Digits(n)[i]);
    }
  }

  lemma NoBlankSigned(i: int)
    ensures SPACE !in SignedDigits(i)
  {
    forall k | 0 <= k < |SignedDigits(i)|
      ensures SignedDigits(i)[k] != SPACE
    {
      assert !IsSpace(SignedDigits(i)[k]);
    }
  }

  lemma PathIdShape(path: Bytes)
    requires path != []
    ensures PathId(path) == FormatKey(|path| - 1, CharCode(path[|path| - 1]), path[..|path| - 1])
  {
    var n := |path| - 1;
    assert path == path[..n] + [path[n]];
  }

  /** Cutting the last byte off the compared key loses nothing. */
  lemma PathIdInjective(p: Bytes, q: Bytes)
    requires p != [] && q != []
    ensures PathId(p) == PathId(q) <==> p == q
  {
    if PathId(p) == PathId(q) {
      PathIdShape(p);
      PathIdShape(q);
      var n, m := |p| - 1, |q| - 1;
      FormatInjective(n, CharCode(p[n]), p[..n], m, CharCode(q[m]), q[..m]);
      assert p == p[..n] + [p[n]] && q == q[..m] + [q[m]];
    }
  }

  lemma LruKeyInjective(p: Bytes, q: Bytes)
    requires p != [] && q != []
    ensures LruKey(p) == LruKey(q) <==> p == q
  {
    if LruKey(p) == LruKey(q) {
      FormatInjective(|p|, CharCode(p[|p| - 1]), p, |q|, CharCode(q[|q| - 1]), q);
    }
  }

  /** Scanning a stored buffer yields the path's first word. */
  lemma ScanKeyReadsPath(path: Bytes)
    requires path != []
    ensures ScanKey(PathKey(path)) == ScanWord(path)
  {
    var n, c := |path| - 1, CharCode(path[|path| - 1]);
    var tail := [SPACE] + path;
    var rest := [SPACE] + SignedDigits(c) + tail;
    assert PathKey(path) == SignedDigits(n) + rest;
    ScanIntPast(n, rest);
    var r := SignedDigits(c) + tail;
    assert rest[1..] == r;
    assert !IsSpace(r[0]) by {
      assert r[0] == SignedDigits(c)[0];
    }
    assert SkipSpaces(rest) == r;
    ScanIntPast(c, tail);
    assert tail[1..] == path;
    assert SkipSpaces(tail) == SkipSpaces(path);
    SkipSpacesShrinks(path);
  }

  /** So it yields the path itself exactly when the path has no white space. */
  lemma ScanRoundTrip(path: Bytes)
    requires path != []
    ensures ScanKey(PathKey(path)) == Some(path) <==> !HasSpace(path)
  {
    ScanKeyReadsPath(path);
    ScanWordIsWhole(path);
  }

  /** The test of `remove_entry_`: the path itself, or something below it. */
  predicate Under(q: Bytes, path: Bytes) {
    path <= q && (|q| == |path| || q[|path|] == SLASH)
  }

  /** The same test on what the scanner makes of a stored buffer. */
  predicate ScannedUnder(key: Bytes, path: Bytes) {
    var w := ScanKey(key);
    w.Some? && Under(w.value, path)
  }

  /** So a removal of `path` takes `q` along: its first word is `path` or lies below it. */
  predicate WordUnder(q: Bytes, path: Bytes) {
    var w := ScanWord(q);
    w.Some? && Under(w.value, path)
  }

  lemma ScannedIsWordUnder(q: Bytes, path: Bytes)
    requires q != []
    ensures ScannedUnder(PathKey(q), path) == WordUnder(q, path)
    ensures !HasSpace(q) ==> WordUnder(q, path) == Under(q, path)
  {
    ScanKeyReadsPath(q);
    ScanWordIsWhole(q);
  }

  lemma UnderTransitive(a: Bytes, b: Bytes, c: Bytes)
    requires Under(a, b) && Under(b, c)
    ensures Under(a, c)
  {
  }

  /** What takes a directory along takes everything under it along, white space or not. */
  lemma WordUnderInherited(child: Bytes, dir: Bytes, path: Bytes)
    requires dir + [SLASH] <= child
    requires WordUnder(dir, path)
    ensures WordUnder(child, path)
  {
    var t := child[|dir|..];
    assert child == dir + t && t[0] == SLASH;
    ScanWordAppend(dir, t);
    assert Word(t)[0] == SLASH;
    if ScanWord(child).value != ScanWord(dir).value {
      UnderTransitive(ScanWord(child).value, ScanWord(dir).value, path);
    }
  }

  /** A stored path is treated rightly by every removal iff it has no white space; one
      that has some is already missed when it is removed by its own name. */
  lemma RemovalRightIffNoSpace(q: Bytes)
    requires q != []
    ensures (forall path :: ScannedUnder(PathKey(q), path) <==> q == path || path + [47] <= q)
            <==> forall i :: 0 <= i < |q| ==> q[i] !in {9, 10, 11, 12, 13, 32}
  {
    HasSpaceExactly(q);
    forall path
      ensures ScannedUnder(PathKey(q), path) == WordUnder(q, path)
      ensures !HasSpace(q) ==> (WordUnder(q, path) <==> q == path || path + [47] <= q)
    {
      ScannedIsWordUnder(q, path);
      UnderExactly(q, path);
    }
    if HasSpace(q) {
      ScanWordIsWhole(q);
      SkipSpacesShrinks(q);
      WordIsWhole(SkipSpaces(q));
      assert Under(q, q) && !ScannedUnder(PathKey(q), q);
    }
  }

  // ---------- the same in bytes ----------

  /** The buffers of the two maps, byte for byte, and how much of each is compared. */
  lemma KeysExactly(path: Bytes)
    requires path != []
    ensures var last: int := path[|path| - 1];
            var code := if last < 128 then last else last - 256;
            && PathKey(path) == Digits(|path| - 1) + [32] + SignedDigits(code) + [32] + path
            && PathId(path) == Digits(|path| - 1) + [32] + SignedDigits(code) + [32] + path[..|path| - 1]
            && LruKey(path) == Digits(|path|) + [32] + SignedDigits(code) + [32] + path
  {
    PathIdShape(path);
  }

  /** A path is under another iff it is that path, or that path and a slash begin it. */
  lemma UnderExactly(q: Bytes, path: Bytes)
    ensures Under(q, path) <==> q == path || path + [47] <= q
  {
    if Under(q, path) && q != path {
      assert q[..|path| + 1] == path + [47];
    }
  }

  /** Which stored paths a removal takes. */
  lemma RemovalExactly(q: Bytes, path: Bytes)
    requires q != []
    ensures ScannedUnder(PathKey(q), path) <==> WordUnder(q, path)
    ensures WordUnder(q, path) <==> exists w :: ScanWord(q) == Some(w) && (w == path || path + [47] <= w)
    ensures (forall i :: 0 <= i < |q| ==> q[i] !in {9, 10, 11, 12, 13, 32}) ==>
              (WordUnder(q, path) <==> q == path || path + [47] <= q)
  {
    ScannedIsWordUnder(q, path);
    UnderExactly(q, path);
    HasSpaceExactly(q);
    if ScanWord(q).Some? {
      UnderExactly(ScanWord(q).value, path);
    }
  }
}
