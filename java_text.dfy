/**
 * The parts of `java.lang.String` and `java.util.List` the core relies on:
 * `trim`, the `\d` character class, `compareTo` (lexicographic order) and the
 * `hashCode` formulas with 32-bit wrap-around.
 */
module JavaText {

  /** `String.trim` removes every leading and trailing char at or below U+0020. */
  predicate IsTrimmable(c: char) {
    c <= ' '
  }

  /** The regex class `\d` without UNICODE_CHARACTER_CLASS: ASCII 0-9. */
  predicate IsAsciiDigit(c: char) {
    '0' <= c <= '9'
  }

  /** A whole-string match of `\d{1,}`. */
  predicate IsDigitString(s: string) {
    |s| >= 1 && forall i :: 0 <= i < |s| ==> IsAsciiDigit(s[i])
  }

  /** True when no char of `s` is trimmable, so `trim` leaves it alone. */
  predicate HasNoTrimmable(s: string) {
    forall i :: 0 <= i < |s| ==> !IsTrimmable(s[i])
  }

  /** Index of the first non-trimmable char at or after `lo` (or `|s|`). */
  function TrimFrom(s: string, lo: nat): (n: nat)
    requires lo <= |s|
    ensures lo <= n <= |s|
    ensures forall k :: lo <= k < n ==> IsTrimmable(s[k])
    ensures n < |s| ==> !IsTrimmable(s[n])
    decreases |s| - lo
  {
    if lo < |s| && IsTrimmable(s[lo]) then TrimFrom(s, lo + 1) else lo
  }

  /** Index just past the last non-trimmable char in `s[lo..hi]` (or `lo`). */
  function TrimTo(s: string, lo: nat, hi: nat): (n: nat)
    requires lo <= hi <= |s|
    ensures lo <= n <= hi
    ensures forall k :: n <= k < hi ==> IsTrimmable(s[k])
    ensures n > lo ==> !IsTrimmable(s[n - 1])
    decreases hi
  {
    if lo < hi && IsTrimmable(s[hi - 1]) then TrimTo(s, lo, hi - 1) else hi
  }

  /** Where the trimmed string starts in `s`. */
  function TrimStartIndex(s: string): nat
    ensures TrimStartIndex(s) <= |s|
  {
    TrimFrom(s, 0)
  }

  /**
   * `String.trim`: the infix of `s` left after dropping the trimmable chars
   * at both ends; the result starts and ends with a non-trimmable char.
   */
  function Trim(s: string): (r: string)
    ensures var i := TrimStartIndex(s);
      && i + |r| <= |s|
      && r == s[i..i + |r|]
      && (forall k :: 0 <= k < i ==> IsTrimmable(s[k]))
      && (forall k :: i + |r| <= k < |s| ==> IsTrimmable(s[k]))
    ensures r == [] || (!IsTrimmable(r[0]) && !IsTrimmable(r[|r| - 1]))
    ensures HasNoTrimmable(s) ==> r == s
  {
    var lo := TrimFrom(s, 0);
    var hi := TrimTo(s, lo, |s|);
    assert hi > lo ==> s[lo..hi][0] == s[lo];
    assert hi > lo ==> s[lo..hi][hi - lo - 1] == s[hi - 1];
    assert HasNoTrimmable(s) ==> lo == 0 && hi == |s| by {
      if HasNoTrimmable(s) && |s| > 0 {
        assert !IsTrimmable(s[0]);
        assert !IsTrimmable(s[|s| - 1]);
      }
    }
    s[lo..hi]
  }

  lemma TrimIdempotent(s: string)
    ensures Trim(Trim(s)) == Trim(s)
  {
    var r := Trim(s);
    if r != [] {
      assert TrimFrom(r, 0) == 0;
      assert TrimTo(r, 0, |r|) == |r|;
    }
  }

  /**
   * `trim` is determined by where the kept infix starts and ends: any split of
   * `s` into trimmable padding around an infix that starts and ends with a
   * non-trimmable char (or is empty) is the one `trim` finds.
   */
  lemma TrimCharacterized(s: string, i: nat, j: nat)
    requires i <= j <= |s|
    requires forall k :: 0 <= k < i ==> IsTrimmable(s[k])
    requires forall k :: j <= k < |s| ==> IsTrimmable(s[k])
    requires i == j || (!IsTrimmable(s[i]) && !IsTrimmable(s[j - 1]))
    ensures Trim(s) == s[i..j]
  {
    var r := Trim(s);
    var n := TrimStartIndex(s);
    if i < j {
      assert n == i;
      assert r[|r| - 1] == s[n + |r| - 1];
    }
  }

  /** A trimmable char added in front makes no difference to `trim`. */
  lemma TrimIgnoresLeadingPad(s: string, c: char)
    requires IsTrimmable(c)
    ensures Trim([c] + s) == Trim(s)
  {
    var r, n := Trim(s), TrimStartIndex(s);
    var t := [c] + s;
    assert t[1..] == s;
    forall k | 0 <= k < n + 1 ensures IsTrimmable(t[k]) {
      if k > 0 { assert t[k] == s[k - 1]; }
    }
    forall k | n + 1 + |r| <= k < |t| ensures IsTrimmable(t[k]) {
      assert t[k] == s[k - 1];
    }
    assert t[n + 1..n + 1 + |r|] == s[n..n + |r|];
    TrimCharacterized(t, n + 1, n + 1 + |r|);
  }

  /** A trimmable char added at the end makes no difference to `trim`. */
  lemma TrimIgnoresTrailingPad(s: string, c: char)
    requires IsTrimmable(c)
    ensures Trim(s + [c]) == Trim(s)
  {
    var r, n := Trim(s), TrimStartIndex(s);
    var t := s + [c];
    assert forall k :: 0 <= k < |s| ==> t[k] == s[k];
    assert r != [] ==> r[0] == s[n] && r[|r| - 1] == s[n + |r| - 1];
    TrimCharacterized(t, n, n + |r|);
    assert t[n..n + |r|] == s[n..n + |r|];
  }

  /** A digit string has no trimmable char, so trimming it is the identity. */
  lemma TrimDigitString(s: string)
    requires IsDigitString(s)
    ensures Trim(s) == s
  {
    assert HasNoTrimmable(s) by {
      forall i | 0 <= i < |s| ensures !IsTrimmable(s[i]) {
        assert IsAsciiDigit(s[i]);
      }
    }
  }

  /** The value of a string of ASCII digits, as `Integer.parseInt` reads it (without its 32-bit range check). */
  function DecimalValue(s: string): nat
    requires forall i :: 0 <= i < |s| ==> IsAsciiDigit(s[i])
  {
    if s == [] then 0
    else
      assert IsAsciiDigit(s[|s| - 1]);
      10 * DecimalValue(s[..|s| - 1]) + (s[|s| - 1] as int - '0' as int)
  }

  /**
   * `String.compareTo(a, b) < 0`: at the first index where the two differ the
   * char of `a` is smaller, or `a` is a proper prefix of `b`.
   */
  predicate LexLess(a: string, b: string)
    decreases |a|
  {
    if a == [] then b != []
    else b != [] && (a[0] < b[0] || (a[0] == b[0] && LexLess(a[1..], b[1..])))
  }

  lemma {:induction false} LexLessIrreflexive(a: string)
    ensures !LexLess(a, a)
    decreases |a|
  {
    if a != [] {
      LexLessIrreflexive(a[1..]);
    }
  }

  lemma {:induction false} LexLessTransitive(a: string, b: string, c: string)
    requires LexLess(a, b) && LexLess(b, c)
    ensures LexLess(a, c)
    decreases |a|
  {
    if a != [] && a[0] == b[0] && b[0] == c[0] {
      LexLessTransitive(a[1..], b[1..], c[1..]);
    }
  }

  /** Any two different strings are ordered one way or the other. */
  lemma {:induction false} LexLessTotal(a: string, b: string)
    ensures a == b || LexLess(a, b) || LexLess(b, a)
    decreases |a|
  {
    if a != [] && b != [] && a[0] == b[0] {
      LexLessTotal(a[1..], b[1..]);
      if a[1..] == b[1..] {
        assert a == [a[0]] + a[1..] && b == [b[0]] + b[1..];
      }
    }
  }

  lemma {:induction false} LexLessAsymmetric(a: string, b: string)
    requires LexLess(a, b)
    ensures !LexLess(b, a)
  {
    if LexLess(b, a) {
      LexLessTransitive(a, b, a);
      LexLessIrreflexive(a);
    }
  }

  /** Java's `int`. */
  newtype int32 = x: int | -0x8000_0000 <= x < 0x8000_0000

  /** Java's silent two's-complement wrap-around of an `int` result. */
  function WrapInt32(x: int): (r: int32)
    ensures (r as int - x) % 0x1_0000_0000 == 0
  {
    ((x + 0x8000_0000) % 0x1_0000_0000 - 0x8000_0000) as int32
  }

  /** `String.hashCode`: h = 31 * h + c over the chars, in `int` arithmetic. */
  function StringHash(s: string): int32
  {
    if s == [] then 0
    else WrapInt32(31 * StringHash(s[..|s| - 1]) as int + s[|s| - 1] as int)
  }

  /** `List.hashCode`: h = 31 * h + hash(e), starting from 1. */
  function ListHash<T>(xs: seq<T>, hash: T -> int32): int32
  {
    if xs == [] then 1
    else WrapInt32(31 * ListHash(xs[..|xs| - 1], hash) as int + hash(xs[|xs| - 1]) as int)
  }
}
