/**
 * Strings and byte strings as the Go services use them: prefix, suffix and
 * substring tests from package `strings`, `strconv.Itoa` for the naturals
 * the pipeline formats, and `strings.TrimSpace` with `unicode.IsSpace`.
 */
module Text {

  /** One octet of a Go `[]byte` or of the bytes behind a Go `string`. */
  type byte = b: int | 0 <= b < 256

  type Bytes = seq<byte>

  /** `strings.HasPrefix(s, p)`. */
  predicate HasPrefix(s: string, p: string)
  {
    |p| <= |s| && s[..|p|] == p
  }

  /** `strings.HasSuffix(s, p)`. */
  predicate HasSuffix(s: string, p: string)
  {
    |p| <= |s| && s[|s| - |p|..] == p
  }

  /** `strings.Contains(s, sub)`: `sub` occurs at some position of `s`. */
  predicate IsSubstring(sub: string, s: string)
    decreases |s|
  {
    HasPrefix(s, sub) || (|s| > 0 && IsSubstring(sub, s[1..]))
  }

  /** `strings.TrimPrefix(s, p)`: `s` without `p` when `s` starts with `p`, else `s` itself. */
  function TrimPrefix(s: string, p: string): (r: string)
    ensures HasPrefix(s, p) ==> p + r == s
    ensures !HasPrefix(s, p) ==> r == s
  {
    if HasPrefix(s, p) then s[|p|..] else s
  }

  /** The ASCII decimal digit for `d`. */
  function Digit(d: nat): char
    requires d < 10
  {
    ('0' as int + d) as char
  }

  /** Every character of `s` is an ASCII decimal digit. */
  predicate IsDigits(s: string)
  {
    forall k :: 0 <= k < |s| ==> '0' <= s[k] <= '9'
  }

  /** The number a string of decimal digits spells, most significant digit first. */
  function DecimalValue(s: string): nat
    requires IsDigits(s)
    decreases |s|
  {
    if s == [] then 0
    else DecimalValue(s[..|s| - 1]) * 10 + (s[|s| - 1] as int - '0' as int)
  }

  /** `strconv.Itoa(n)` for the non-negative integers the pipeline formats. */
  function NatToString(n: nat): (r: string)
    ensures |r| >= 1 && IsDigits(r)
    ensures DecimalValue(r) == n
    ensures |r| > 1 ==> r[0] != '0'
    ensures n < 10 <==> |r| == 1
  {
    if n < 10 then [Digit(n)]
    else
      var front := NatToString(n / 10);
      var r := front + [Digit(n % 10)];
      assert r[..|r| - 1] == front;
      r
  }

  /** Every canonical decimal spelling, without leading zeros, is what `strconv.Itoa` prints for its value. */
  lemma {:induction false} NatToStringOfDecimal(s: string)
    requires |s| >= 1 && IsDigits(s) && (|s| > 1 ==> s[0] != '0')
    ensures NatToString(DecimalValue(s)) == s
    decreases |s|
  {
    if |s| > 1 {
      var front := s[..|s| - 1];
      assert IsDigits(front);
      DecimalPositive(front);
      NatToStringOfDecimal(front);
      var v := DecimalValue(s);
      assert v / 10 == DecimalValue(front) && v % 10 == s[|s| - 1] as int - '0' as int;
      assert s == front + [s[|s| - 1]];
    }
  }

  /** A digit string that starts with a non-zero digit spells a positive number. */
  lemma {:induction false} DecimalPositive(s: string)
    requires |s| >= 1 && IsDigits(s) && s[0] != '0'
    ensures DecimalValue(s) > 0
    decreases |s|
  {
    if |s| > 1 {
      var front := s[..|s| - 1];
      assert front[0] == s[0] && IsDigits(front);
      DecimalPositive(front);
    }
  }

  /** Distinct naturals have distinct decimal spellings. */
  lemma NatToStringInjective(a: nat, b: nat)
    requires NatToString(a) == NatToString(b)
    ensures a == b
  {
  }

  /** `unicode.IsSpace`: the Latin-1 spaces and the rest of Unicode's White_Space property. */
  predicate IsSpace(c: char)
  {
    c == '\t' || c == '\n' || c == '\U{000B}' || c == '\U{000C}' || c == '\r' || c == ' '
    || c == '\U{0085}' || c == '\U{00A0}' || c == '\U{1680}'
    || ('\U{2000}' <= c <= '\U{200A}') || c == '\U{2028}' || c == '\U{2029}'
    || c == '\U{202F}' || c == '\U{205F}' || c == '\U{3000}'
  }

  /** `strings.TrimLeftFunc(s, unicode.IsSpace)`. */
  function TrimLeftSpace(s: string): (r: string)
    ensures |r| <= |s| && r == s[|s| - |r|..]
    ensures forall k :: 0 <= k < |s| - |r| ==> IsSpace(s[k])
    ensures r == [] || !IsSpace(r[0])
  {
    if s != [] && IsSpace(s[0]) then TrimLeftSpace(s[1..]) else s
  }

  /** `strings.TrimRightFunc(s, unicode.IsSpace)`. */
  function TrimRightSpace(s: string): (r: string)
    ensures |r| <= |s| && r == s[..|r|]
    ensures forall k :: |r| <= k < |s| ==> IsSpace(s[k])
    ensures r == [] || !IsSpace(r[|r| - 1])
  {
    if s != [] && IsSpace(s[|s| - 1]) then TrimRightSpace(s[..|s| - 1]) else s
  }

  /** `r` is `s` from position `i` on, with only white space around it in `s`. */
  ghost predicate IsTrimOf(r: string, s: string, i: int)
  {
    && 0 <= i <= |s| - |r|
    && r == s[i..i + |r|]
    && (forall k :: 0 <= k < i ==> IsSpace(s[k]))
    && (forall k :: i + |r| <= k < |s| ==> IsSpace(s[k]))
  }

  /** `r` is `s` with its leading and trailing white space cut off, and no more. */
  ghost predicate IsTrimmed(r: string, s: string)
  {
    && (exists i :: IsTrimOf(r, s, i))
    && (r == [] || (!IsSpace(r[0]) && !IsSpace(r[|r| - 1])))
  }

  /**
   * `strings.TrimSpace(s)`: the part of `s` between its leading and its
   * trailing run of white space, which begins and ends with a non-space.
   */
  function TrimSpace(s: string): (r: string)
    ensures IsTrimmed(r, s)
  {
    var left := TrimLeftSpace(s);
    var r := TrimRightSpace(left);
    TrimOfParts(s, left, r);
    r
  }

  /** There is only one such trim: whatever is trimmed as `strings.TrimSpace` promises is its result. */
  lemma TrimmedIsTrimSpace(t: string, s: string)
    requires IsTrimmed(t, s)
    ensures t == TrimSpace(s)
  {
    var r := TrimSpace(s);
    if forall k :: 0 <= k < |s| ==> IsSpace(s[k]) {
      TrimSpaceAllSpace(s);
      var i :| IsTrimOf(t, s, i);
      NoTrimOfSpaces(t, s, i);
    } else {
      var m :| 0 <= m < |s| && !IsSpace(s[m]);
      TrimUnique(t, r, s, m);
    }
  }

  /** Where `s` has a non-space at `m`, two trims of `s` are the same. */
  lemma TrimUnique(t: string, r: string, s: string, m: int)
    requires IsTrimmed(t, s) && IsTrimmed(r, s)
    requires 0 <= m < |s| && !IsSpace(s[m])
    ensures t == r
  {
    var i :| IsTrimOf(t, s, i);
    var j :| IsTrimOf(r, s, j);
    TrimCoversNonSpace(t, s, i, m);
    TrimCoversNonSpace(r, s, j, m);
    TrimEdges(t, s, i);
    TrimEdges(r, s, j);
    FirstNonSpace(s, i, j);
    LastNonSpace(s, i + |t|, j + |r|);
  }

  /** Two positions that both hold the first non-space of `s` are the same. */
  lemma FirstNonSpace(s: string, i: int, j: int)
    requires 0 <= i < |s| && 0 <= j < |s| && !IsSpace(s[i]) && !IsSpace(s[j])
    requires forall k :: 0 <= k < i ==> IsSpace(s[k])
    requires forall k :: 0 <= k < j ==> IsSpace(s[k])
    ensures i == j
  {
  }

  /** Two ends that both follow the last non-space of `s` are the same. */
  lemma LastNonSpace(s: string, e: int, f: int)
    requires 0 < e <= |s| && 0 < f <= |s| && !IsSpace(s[e - 1]) && !IsSpace(s[f - 1])
    requires forall k :: e <= k < |s| ==> IsSpace(s[k])
    requires forall k :: f <= k < |s| ==> IsSpace(s[k])
    ensures e == f
  {
  }

  /** White space alone trims to nothing. */
  lemma NoTrimOfSpaces(t: string, s: string, i: int)
    requires IsTrimOf(t, s, i) && (t == [] || !IsSpace(t[0]))
    requires forall k :: 0 <= k < |s| ==> IsSpace(s[k])
    ensures t == []
  {
  }

  /** A trim keeps every character that is not white space. */
  lemma TrimCoversNonSpace(t: string, s: string, i: int, m: int)
    requires IsTrimOf(t, s, i) && 0 <= m < |s| && !IsSpace(s[m])
    ensures i <= m < i + |t|
  {
  }

  /** A trim that begins and ends with a non-space sits between the first and the last non-space of `s`. */
  lemma TrimEdges(t: string, s: string, i: int)
    requires IsTrimOf(t, s, i) && t != [] && !IsSpace(t[0]) && !IsSpace(t[|t| - 1])
    ensures !IsSpace(s[i]) && !IsSpace(s[i + |t| - 1])
  {
    assert s[i] == t[0] && s[i + |t| - 1] == t[|t| - 1];
  }

  /** Trimming the left and then the right of `s` leaves a trim of `s`. */
  lemma TrimOfParts(s: string, left: string, r: string)
    requires |left| <= |s| && left == s[|s| - |left|..]
    requires forall k :: 0 <= k < |s| - |left| ==> IsSpace(s[k])
    requires left == [] || !IsSpace(left[0])
    requires |r| <= |left| && r == left[..|r|]
    requires forall k :: |r| <= k < |left| ==> IsSpace(left[k])
    requires r == [] || !IsSpace(r[|r| - 1])
    ensures IsTrimmed(r, s)
  {
    var i := |s| - |left|;
    assert forall k :: i + |r| <= k < |s| ==> s[k] == left[k - i];
    assert IsTrimOf(r, s, i);
    if r != [] {
      assert r[0] == left[0];
    }
  }

  /** A string made only of white space trims to the empty string. */
  lemma {:induction false} TrimSpaceAllSpace(s: string)
    requires forall k :: 0 <= k < |s| ==> IsSpace(s[k])
    ensures TrimSpace(s) == []
  {
    if s != [] {
      TrimSpaceAllSpace(s[1..]);
    }
  }
}
