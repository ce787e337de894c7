/** Byte strings as the C sources handle them, and the two library routines the map
    keys go through: the decimal part of `sprintf` and the scanner `sscanf`. */
module CStrings {

  datatype Option<+T> = None | Some(value: T)

  type Byte = b: int | 0 <= b < 256
  type Bytes = seq<Byte>

  const SPACE: Byte := 32
  const PLUS: Byte := 43
  const MINUS: Byte := 45
  const SLASH: Byte := 47
  const ZERO: Byte := 48

  /** The part of a buffer a caller names by passing a size with the pointer. */
  function Prefix(s: Bytes, n: nat): Bytes {
    if n <= |s| then s[..n] else s
  }

  predicate IsSpace(b: Byte) {
    b == SPACE || 9 <= b <= 13
  }

  predicate IsDigit(b: Byte) {
    ZERO <= b < ZERO + 10
  }

  predicate HasSpace(s: Bytes) {
    exists i :: 0 <= i < |s| && IsSpace(s[i])
  }

  // ---------- printing ----------

  /** `%ld` of a non-negative number. */
  function Digits(n: nat): (r: Bytes)
    ensures |r| > 0
    ensures forall i :: 0 <= i < |r| ==> IsDigit(r[i])
  {
    if n < 10 then [ZERO + n] else Digits(n / 10) + [ZERO + n % 10]
  }

  /** `%d` of any integer. */
  function SignedDigits(i: int): (r: Bytes)
    ensures |r| > 0
    ensures forall k :: 0 <= k < |r| ==> !IsSpace(r[k])
  {
    if i < 0 then [MINUS] + Digits(-i) else Digits(i)
  }

  /** The number a string of digits denotes. */
  function Denotes(s: Bytes): int {
    if s == [] then 0 else 10 * Denotes(s[..|s| - 1]) + (s[|s| - 1] - ZERO)
  }

  lemma {:induction false} DigitsDenote(n: nat)
    ensures Denotes(Digits(n)) == n
  {
    if n < 10 {
      assert Digits(n)[..0] == [];
    } else {
      DigitsDenote(n / 10);
      assert Digits(n)[..|Digits(n)| - 1] == Digits(n / 10);
    }
  }

  lemma LeadingSign(i: int)
    ensures SignedDigits(i)[0] == MINUS <==> i < 0
  {
    if i >= 0 {
      assert IsDigit(Digits(i)[0]);
    }
  }

  lemma SignedDigitsInjective(i: int, j: int)
    requires SignedDigits(i) == SignedDigits(j)
    ensures i == j
  {
    var a, b := if i < 0 then -i else i, if j < 0 then -j else j;
    DigitsDenote(a);
    DigitsDenote(b);
    LeadingSign(i);
    LeadingSign(j);
    if i < 0 {
      assert Digits(a) == SignedDigits(i)[1..] == SignedDigits(j)[1..] == Digits(b);
    }
  }

  /** Two strings split at their first blank agree piece by piece. */
  lemma SplitAtBlank(a: Bytes, x: Bytes, b: Bytes, y: Bytes)
    requires a + [SPACE] + x == b + [SPACE] + y
    requires SPACE !in a && SPACE !in b
    ensures a == b && x == y
  {
    var s := a + [SPACE] + x;
    assert s[|a|] == SPACE && s[|b|] == SPACE;
    if |a| < |b| {
      assert false;
    }
    if |b| < |a| {
      assert false;
    }
    assert a == s[..|a|] == b;
    assert x == s[|a| + 1..] == y;
  }

  // ---------- scanning ----------

  /** What `sscanf` leaves unread after a blank in its format. */
  function SkipSpaces(s: Bytes): Bytes {
    if s != [] && IsSpace(s[0]) then SkipSpaces(s[1..]) else s
  }

  function SkipDigits(s: Bytes): Bytes {
    if s != [] && IsDigit(s[0]) then SkipDigits(s[1..]) else s
  }

  /** What `%d` leaves unread, or None when it does not match. */
  function ScanInt(s: Bytes): Option<Bytes> {
    var t := SkipSpaces(s);
    var u := if t != [] && (t[0] == MINUS || t[0] == PLUS) then t[1..] else t;
    if u != [] && IsDigit(u[0]) then Some(SkipDigits(u)) else None
  }

  /** The characters before the first white space. */
  function Word(s: Bytes): Bytes {
    if s == [] || IsSpace(s[0]) then [] else [s[0]] + Word(s[1..])
  }

  /** What `%s` stores, or None when it does not match. */
  function ScanWord(s: Bytes): Option<Bytes> {
    var w := Word(SkipSpaces(s));
    if w == [] then None else Some(w)
  }

  /** What `sscanf(s, "%d %d %s", ...)` stores in its last argument. */
  function ScanKey(s: Bytes): Option<Bytes> {
    match ScanInt(s)
    case None => None
    case Some(r) =>
      match ScanInt(SkipSpaces(r))
      case None => None
      case Some(t) => ScanWord(SkipSpaces(t))
  }

  lemma {:induction false} SkipDigitsPast(d: Bytes, rest: Bytes)
    requires forall i :: 0 <= i < |d| ==> IsDigit(d[i])
    requires rest == [] || !IsDigit(rest[0])
    ensures SkipDigits(d + rest) == rest
  {
    if d == [] {
      assert d + rest == rest;
    } else {
      assert (d + rest)[1..] == d[1..] + rest;
      SkipDigitsPast(d[1..], rest);
    }
  }

  lemma ScanIntPast(i: int, rest: Bytes)
    requires rest == [] || !IsDigit(rest[0])
    ensures ScanInt(SignedDigits(i) + rest) == Some(rest)
  {
    var d := Digits(if i < 0 then -i else i);
    var s := SignedDigits(i) + rest;
    assert IsDigit(d[0]) && (d + rest)[0] == d[0];
    hide Digits, SkipDigits;
    SkipDigitsPast(d, rest);
    if i < 0 {
      assert s[0] == MINUS && s[1..] == d + rest;
    } else {
      assert s == d + rest;
    }
    assert SkipSpaces(s) == s;
  }

  /** `%s` returns exactly the white-space-free, non-empty strings unchanged. */
  lemma {:induction false} WordIsWhole(s: Bytes)
    ensures Word(s) == s <==> !HasSpace(s)
    ensures |Word(s)| <= |s|
  {
    if s == [] {
    } else if IsSpace(s[0]) {
      assert HasSpace(s);
    } else {
      WordIsWhole(s[1..]);
      assert s == [s[0]] + s[1..];
      if Word(s) == s {
        assert Word(s[1..]) == Word(s)[1..] == s[1..];
      }
      SpaceInTail(s);
    }
  }

  lemma {:induction false} SkipSpacesShrinks(s: Bytes)
    ensures |SkipSpaces(s)| <= |s|
    ensures |SkipSpaces(s)| == |s| ==> SkipSpaces(s) == s
    ensures SkipSpaces(SkipSpaces(s)) == SkipSpaces(s)
  {
    if s != [] && IsSpace(s[0]) {
      SkipSpacesShrinks(s[1..]);
    }
  }

  lemma ScanWordIsWhole(s: Bytes)
    requires s != []
    ensures ScanWord(s) == Some(s) <==> !HasSpace(s)
  {
    SkipSpacesShrinks(s);
    WordIsWhole(SkipSpaces(s));
    WordIsWhole(s);
  }

  lemma {:induction false} SkipSpacesAppend(s: Bytes, t: Bytes)
    requires SkipSpaces(s) != []
    ensures SkipSpaces(s + t) == SkipSpaces(s) + t
  {
    if IsSpace(s[0]) {
      assert (s + t)[1..] == s[1..] + t;
      SkipSpacesAppend(s[1..], t);
    }
  }

  lemma {:induction false} WordAppend(s: Bytes, t: Bytes)
    ensures Word(s + t) == if HasSpace(s) then Word(s) else s + Word(t)
  {
    if s == [] {
      assert s + t == t;
      assert s + Word(t) == Word(t);
    } else if IsSpace(s[0]) {
      assert HasSpace(s);
    } else {
      WordAppend(s[1..], t);
      SpaceInTail(s);
      assert s == [s[0]] + s[1..];
      hide Word, HasSpace, IsSpace;
      WordAppendStep(s[0], s[1..], t);
    }
  }

  lemma WordAppendStep(b: Byte, s: Bytes, t: Bytes)
    requires !IsSpace(b)
    requires Word(s + t) == if HasSpace(s) then Word(s) else s + Word(t)
    ensures Word([b] + s + t) == if HasSpace(s) then Word([b] + s) else [b] + s + Word(t)
  {
    WordStep(b, s);
    WordStep(b, s + t);
    hide Word, HasSpace, IsSpace;
    Regroup([b], s, t);
    Regroup([b], s, Word(t));
  }

  lemma Regroup(a: Bytes, b: Bytes, c: Bytes)
    ensures a + (b + c) == a + b + c
  {
  }

  lemma WordStep(b: Byte, s: Bytes)
    requires !IsSpace(b)
    ensures Word([b] + s) == [b] + Word(s)
  {
    assert ([b] + s)[1..] == s;
  }

  lemma SpaceInTail(s: Bytes)
    requires s != [] && !IsSpace(s[0])
    ensures HasSpace(s) <==> HasSpace(s[1..])
  {
    if HasSpace(s) {
      var i :| 0 <= i < |s| && IsSpace(s[i]);
      assert IsSpace(s[1..][i - 1]);
    }
    if HasSpace(s[1..]) {
      var i :| 0 <= i < |s[1..]| && IsSpace(s[1..][i]);
      assert IsSpace(s[i + 1]);
    }
  }

  /** A string that goes on has the same first word, or one that goes on too. */
  lemma ScanWordAppend(s: Bytes, t: Bytes)
    requires ScanWord(s).Some?
    ensures ScanWord(s + t).Some?
    ensures ScanWord(s + t).value == ScanWord(s).value || ScanWord(s + t).value == ScanWord(s).value + Word(t)
  {
    var w := SkipSpaces(s);
    SkipSpacesAppend(s, t);
    WordAppend(w, t);
    WordIsWhole(w);
  }

  /** Anything but a blank string has a first word. */
  lemma {:induction false} SomeWord(s: Bytes, i: nat)
    requires i < |s| && !IsSpace(s[i])
    ensures ScanWord(s).Some?
  {
    if IsSpace(s[0]) {
      SomeWord(s[1..], i - 1);
    }
  }

  // ---------- the same in bytes ----------

  /** The decimal text of n is its only text of digits without a leading zero. */
  lemma DigitsExactly(n: nat, d: Bytes)
    ensures Digits(n) == d <==>
              && d != [] && (forall i :: 0 <= i < |d| ==> 48 <= d[i] <= 57)
              && (|d| > 1 ==> d[0] != 48) && Denotes(d) == n
  {
    DigitsDenote(n);
    NoLeadingZero(n);
    if d != [] && (forall i :: 0 <= i < |d| ==> 48 <= d[i] <= 57) && (|d| > 1 ==> d[0] != 48) {
      DigitsOf(d);
    }
  }

  lemma {:induction false} DigitsOf(d: Bytes)
    requires d != [] && (forall i :: 0 <= i < |d| ==> 48 <= d[i] <= 57) && (|d| > 1 ==> d[0] != 48)
    ensures Denotes(d) >= 0 && Digits(Denotes(d)) == d
  {
    var pre, last := d[..|d| - 1], d[|d| - 1] - 48;
    assert d == pre + [48 + last];
    if pre != [] {
      DenotesPositive(pre);
      DigitsOf(pre);
    }
  }

  lemma {:induction false} NoLeadingZero(n: nat)
    ensures |Digits(n)| > 1 ==> Digits(n)[0] != 48
    ensures n > 0 ==> Digits(n)[0] != 48
  {
    if n >= 10 {
      NoLeadingZero(n / 10);
    }
  }

  lemma {:induction false} DenotesPositive(d: Bytes)
    requires d != [] && d[0] != 48 && forall i :: 0 <= i < |d| ==> 48 <= d[i] <= 57
    ensures Denotes(d) > 0
  {
    if |d| > 1 {
      DenotesPositive(d[..|d| - 1]);
    } else {
      assert d[..0] == [];
    }
  }

  /** White space is a blank or one of the bytes 9 to 13. */
  lemma HasSpaceExactly(s: Bytes)
    ensures HasSpace(s) <==> exists i :: 0 <= i < |s| && s[i] in {9, 10, 11, 12, 13, 32}
  {
    if i :| 0 <= i < |s| && s[i] in {9, 10, 11, 12, 13, 32} {
      assert IsSpace(s[i]);
    }
  }

  lemma SignedDigitsExactly(i: int)
    ensures SignedDigits(i) == if i < 0 then [45] + Digits(-i) else Digits(i)
  {
  }

  /** White space up to `i`, at most one sign up to `j`, and all digits there are up to `k`. */
  ghost predicate IntAt(s: Bytes, i: nat, j: nat, k: nat) {
    && i <= j < k <= |s|
    && (forall x :: 0 <= x < i ==> s[x] in {9, 10, 11, 12, 13, 32})
    && (j == i || (j == i + 1 && (s[i] == 43 || s[i] == 45)))
    && (forall x :: j <= x < k ==> 48 <= s[x] <= 57)
    && (k < |s| ==> !(48 <= s[k] <= 57))
  }

  /** `%d` leaves unread what comes after such a text. */
  lemma ScanIntExactly(s: Bytes, r: Bytes)
    ensures ScanInt(s) == Some(r) <==> exists i: nat, j: nat, k: nat :: IntAt(s, i, j, k) && r == s[k..]
  {
    hide ScanInt;
    if ScanInt(s) == Some(r) {
      var i, j, k := ScanIntAt(s);
    }
    if i: nat, j: nat, k: nat :| IntAt(s, i, j, k) && r == s[k..] {
      ScanIntIs(s, i, j, k);
    }
  }

  lemma ScanIntAt(s: Bytes) returns (i: nat, j: nat, k: nat)
    requires ScanInt(s).Some?
    ensures IntAt(s, i, j, k) && ScanInt(s) == Some(s[k..])
  {
    i := SkipSpacesAt(s);
    j := if s[i] == MINUS || s[i] == PLUS then i + 1 else i;
    var n := SkipDigitsAt(s[j..]);
    k := j + n;
    assert s[i..][j - i..] == s[j..] && s[j..][n..] == s[k..];
    forall x | j <= x < k
      ensures IsDigit(s[x])
    {
      assert s[x] == s[j..][x - j];
    }
    assert k < |s| ==> s[k] == s[j..][n];
  }

  lemma ScanIntIs(s: Bytes, i: nat, j: nat, k: nat)
    requires IntAt(s, i, j, k)
    ensures ScanInt(s) == Some(s[k..])
  {
    var t, u := s[i..], s[j..];
    SkipSpacesIs(s, i);
    SkipDigitsIs(u, k - j);
    assert t[0] == s[i] && u[0] == s[j];
    hide IntAt;
    assert u == if j == i then t else t[1..];
    assert u[k - j..] == s[k..];
  }

  lemma {:induction false} SkipDigitsIs(s: Bytes, k: nat)
    requires k <= |s| && (forall x :: 0 <= x < k ==> IsDigit(s[x])) && (k < |s| ==> !IsDigit(s[k]))
    ensures SkipDigits(s) == s[k..]
  {
    if k > 0 {
      SkipDigitsIs(s[1..], k - 1);
    }
  }

  lemma {:induction false} SkipDigitsAt(s: Bytes) returns (k: nat)
    ensures k <= |s| && (forall x :: 0 <= x < k ==> IsDigit(s[x])) && (k < |s| ==> !IsDigit(s[k]))
    ensures SkipDigits(s) == s[k..]
  {
    if s != [] && IsDigit(s[0]) {
      k := SkipDigitsAt(s[1..]);
      k := k + 1;
    } else {
      k := 0;
    }
  }

  /** The first longest run of bytes that are not white space goes from `i` to `j`. */
  ghost predicate WordSpan(s: Bytes, i: nat, j: nat) {
    && i < j <= |s|
    && (forall k :: 0 <= k < i ==> s[k] in {9, 10, 11, 12, 13, 32})
    && (forall k :: i <= k < j ==> s[k] !in {9, 10, 11, 12, 13, 32})
    && (j < |s| ==> s[j] in {9, 10, 11, 12, 13, 32})
  }

  /** That is what `%s` stores. */
  lemma ScanWordExactly(s: Bytes, w: Bytes)
    ensures ScanWord(s) == Some(w) <==> exists i: nat, j: nat :: WordSpan(s, i, j) && w == s[i..j]
  {
    hide ScanWord;
    if ScanWord(s) == Some(w) {
      var i, j := ScanWordAt(s);
    }
    if i: nat, j: nat :| WordSpan(s, i, j) && w == s[i..j] {
      ScanWordIs(s, i, j);
    }
  }

  lemma ScanWordAt(s: Bytes) returns (i: nat, j: nat)
    requires ScanWord(s).Some?
    ensures WordSpan(s, i, j) && ScanWord(s) == Some(s[i..j])
  {
    i := SkipSpacesAt(s);
    var t := s[i..];
    var n := WordAt(t);
    j := i + n;
    assert t[..n] == s[i..j];
    forall k | i <= k < j
      ensures s[k] !in {9, 10, 11, 12, 13, 32}
    {
      assert s[k] == t[k - i];
    }
    assert j < |s| ==> s[j] == t[n];
  }

  lemma ScanWordIs(s: Bytes, i: nat, j: nat)
    requires WordSpan(s, i, j)
    ensures ScanWord(s) == Some(s[i..j])
  {
    SkipSpacesIs(s, i);
    WordIs(s[i..], j - i);
    assert s[i..][..j - i] == s[i..j];
  }

  lemma {:induction false} SkipSpacesIs(s: Bytes, i: nat)
    requires i <= |s| && (forall k :: 0 <= k < i ==> IsSpace(s[k])) && (i < |s| ==> !IsSpace(s[i]))
    ensures SkipSpaces(s) == s[i..]
  {
    if i > 0 {
      SkipSpacesIs(s[1..], i - 1);
    }
  }

  lemma {:induction false} SkipSpacesAt(s: Bytes) returns (i: nat)
    ensures i <= |s| && (forall k :: 0 <= k < i ==> IsSpace(s[k])) && (i < |s| ==> !IsSpace(s[i]))
    ensures SkipSpaces(s) == s[i..]
  {
    if s != [] && IsSpace(s[0]) {
      i := SkipSpacesAt(s[1..]);
      i := i + 1;
    } else {
      i := 0;
    }
  }

  lemma {:induction false} WordIs(s: Bytes, j: nat)
    requires j <= |s| && (forall k :: 0 <= k < j ==> !IsSpace(s[k])) && (j < |s| ==> IsSpace(s[j]))
    ensures Word(s) == s[..j]
  {
    if j > 0 {
      WordIs(s[1..], j - 1);
      assert [s[0]] + s[1..][..j - 1] == s[..j];
    }
  }

  lemma {:induction false} WordAt(s: Bytes) returns (j: nat)
    ensures j <= |s| && (forall k :: 0 <= k < j ==> !IsSpace(s[k])) && (j < |s| ==> IsSpace(s[j]))
    ensures Word(s) == s[..j]
  {
    if s == [] || IsSpace(s[0]) {
      j := 0;
    } else {
      var n := WordAt(s[1..]);
      j := n + 1;
      assert [s[0]] + s[1..][..n] == s[..j];
      forall k | 0 <= k < j
        ensures !IsSpace(s[k])
      {
        assert k > 0 ==> s[k] == s[1..][k - 1];
      }
      assert j < |s| ==> s[j] == s[1..][n];
    }
  }
}
