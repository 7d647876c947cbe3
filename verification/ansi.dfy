/**
 * `cleanANSI` of auto-push: `regexp.MustCompile("\x1B\[[0-9;]*[a-zA-Z]").ReplaceAllString(input, "")`,
 * written as the scanner the regular expression amounts to. At each position,
 * ESC `[` followed by the longest run of digits and semicolons and then an
 * ASCII letter is dropped and scanning resumes after the letter; any other
 * byte is kept. Every byte of the pattern is ASCII, which never occurs
 * inside a multi-byte UTF-8 sequence, so scanning bytes matches Go scanning runes.
 */
module Ansi {
  import opened Text

  const Esc: byte := 0x1B
  const LeftBracket: byte := 0x5B  // '['

  /** `[0-9;]`. */
  predicate IsParam(b: byte)
  {
    (0x30 <= b <= 0x39) || b == 0x3B
  }

  /** `[a-zA-Z]`. */
  predicate IsLetter(b: byte)
  {
    (0x41 <= b <= 0x5A) || (0x61 <= b <= 0x7A)
  }

  /** `t` is a word of the regular expression's language. */
  ghost predicate IsAnsiSequence(t: Bytes)
  {
    && |t| >= 3
    && t[0] == Esc && t[1] == LeftBracket
    && (forall k :: 2 <= k < |t| - 1 ==> IsParam(t[k]))
    && IsLetter(t[|t| - 1])
  }

  /** Length of the longest run of `[0-9;]` at the start of `s`. */
  function ParamRun(s: Bytes): (n: nat)
    ensures n <= |s|
    ensures forall k :: 0 <= k < n ==> IsParam(s[k])
    ensures n < |s| ==> !IsParam(s[n])
  {
    if s != [] && IsParam(s[0]) then 1 + ParamRun(s[1..]) else 0
  }

  /** Length of the escape sequence that starts `s`, or 0 when none does. */
  function MatchLength(s: Bytes): (n: nat)
    ensures n <= |s|
  {
    if |s| >= 2 && s[0] == Esc && s[1] == LeftBracket then
      var k := 2 + ParamRun(s[2..]);
      if k < |s| && IsLetter(s[k]) then k + 1 else 0
    else 0
  }

  /** `cleanANSI(s)`. */
  function CleanAnsi(s: Bytes): (r: Bytes)
    ensures |r| <= |s|
    decreases |s|
  {
    if s == [] then []
    else
      var n := MatchLength(s);
      if n > 0 then CleanAnsi(s[n..]) else [s[0]] + CleanAnsi(s[1..])
  }

  /** The scanner only skips words of the pattern's language. */
  lemma MatchLengthSound(s: Bytes)
    requires MatchLength(s) > 0
    ensures IsAnsiSequence(s[..MatchLength(s)])
  {
    var k := 2 + ParamRun(s[2..]);
    assert forall j :: 2 <= j < k ==> s[j] == s[2..][j - 2];
  }

  /**
   * And it skips the one such word that starts the input: `[0-9;]*` can only
   * stop where a letter follows, and letters are not in `[0-9;]`, so the match
   * starting at a position is unique (greedy and leftmost-first agree).
   */
  lemma MatchLengthComplete(s: Bytes, n: nat)
    requires n <= |s| && IsAnsiSequence(s[..n])
    ensures MatchLength(s) == n
  {
    var t, u := s[..n], s[2..];
    assert forall j :: 0 <= j < n - 3 ==> u[j] == t[j + 2];
    RunCovers(u, n - 3);
    assert u[n - 3] == t[n - 1];
    assert !IsParam(u[n - 3]);
  }

  /** The longest run is at least as long as any run of parameters. */
  lemma {:induction false} RunCovers(s: Bytes, m: nat)
    requires m <= |s| && forall k :: 0 <= k < m ==> IsParam(s[k])
    ensures ParamRun(s) >= m
  {
    if m > 0 {
      RunCovers(s[1..], m - 1);
    }
  }

  /** An escape sequence at the front is dropped entirely. */
  lemma DropsLeadingSequence(m: Bytes, v: Bytes)
    requires IsAnsiSequence(m)
    ensures CleanAnsi(m + v) == CleanAnsi(v)
  {
    assert (m + v)[..|m|] == m;
    MatchLengthComplete(m + v, |m|);
    assert (m + v)[|m|..] == v;
  }

  /** A byte that starts no escape sequence is kept. */
  lemma KeepsUnmatchedByte(c: byte, v: Bytes)
    requires forall n :: 0 < n <= |v| + 1 ==> !IsAnsiSequence(([c] + v)[..n])
    ensures CleanAnsi([c] + v) == [c] + CleanAnsi(v)
  {
    var s := [c] + v;
    if MatchLength(s) > 0 {
      MatchLengthSound(s);
      assert false;
    }
    assert s[1..] == v;
  }

  /** One step of the scanner over a byte that starts no escape sequence. */
  lemma KeepStep(s: Bytes)
    requires s != [] && MatchLength(s) == 0
    ensures CleanAnsi(s) == [s[0]] + CleanAnsi(s[1..])
  {
  }

  /** A prefix without ESC passes through unchanged. */
  lemma {:induction false} NoEscPrefixKept(p: Bytes, v: Bytes)
    requires forall k :: 0 <= k < |p| ==> p[k] != Esc
    ensures CleanAnsi(p + v) == p + CleanAnsi(v)
    decreases |p|
  {
    if p == [] {
      assert p + v == v;
    } else {
      var s := p + v;
      HeadAndTail(p, v);
      KeepStep(s);
      assert forall k :: 0 <= k < |p| - 1 ==> p[1..][k] == p[k + 1];
      NoEscPrefixKept(p[1..], v);
      HeadAndTail(p, CleanAnsi(v));
    }
  }

  /** `p + x` is the first byte of `p` followed by the rest of `p` and `x`. */
  lemma HeadAndTail(p: Bytes, x: Bytes)
    requires p != []
    ensures (p + x)[0] == p[0] && (p + x)[1..] == p[1..] + x
    ensures [p[0]] + (p[1..] + x) == p + x
  {
    assert p == [p[0]] + p[1..];
  }

  /** Input without ESC is returned unchanged. */
  lemma NoEscUnchanged(s: Bytes)
    requires forall k :: 0 <= k < |s| ==> s[k] != Esc
    ensures CleanAnsi(s) == s
  {
    NoEscPrefixKept(s, []);
    assert s + [] == s;
  }

  /** The run of parameters ahead of a byte outside `[0-9;]` is exactly that run. */
  lemma ParamRunExact(params: Bytes, rest: Bytes)
    requires forall k :: 0 <= k < |params| ==> IsParam(params[k])
    requires rest == [] || !IsParam(rest[0])
    ensures ParamRun(params + rest) == |params|
  {
    var u := params + rest;
    assert forall k :: 0 <= k < |params| ==> u[k] == params[k];
    RunCovers(u, |params|);
    if rest != [] {
      assert u[|params|] == rest[0];
    }
  }

  /**
   * ESC `[` and a maximal run of parameters that no letter closes is kept
   * verbatim; scanning goes on with what follows the run.
   */
  lemma {:induction false} UnterminatedKept(params: Bytes, rest: Bytes)
    requires forall k :: 0 <= k < |params| ==> IsParam(params[k])
    requires rest == [] || (!IsParam(rest[0]) && !IsLetter(rest[0]))
    ensures CleanAnsi([Esc, LeftBracket] + params + rest) == [Esc, LeftBracket] + params + CleanAnsi(rest)
  {
    var tail := [LeftBracket] + params;
    var s := [Esc, LeftBracket] + params + rest;
    UnterminatedNoMatch(params, rest);
    KeepStep(s);
    BracketTail(params, rest);
    NoEscPrefixKept(tail, rest);
    Regroup(params, CleanAnsi(rest));
  }

  /** After the ESC come `[` and the parameters, none of them an ESC, then the rest. */
  lemma BracketTail(params: Bytes, rest: Bytes)
    requires forall k :: 0 <= k < |params| ==> IsParam(params[k])
    ensures var s := [Esc, LeftBracket] + params + rest;
            s[0] == Esc && s[1..] == [LeftBracket] + params + rest
    ensures forall k :: 0 <= k < |[LeftBracket] + params| ==> ([LeftBracket] + params)[k] != Esc
  {
    var tail := [LeftBracket] + params;
    forall k | 0 <= k < |tail| ensures tail[k] != Esc {
      if k > 0 {
        assert tail[k] == params[k - 1];
      }
    }
  }

  /** `[ESC] + ([`[`] + p + x)` and `[ESC, `[`] + p + x` are the same bytes. */
  lemma Regroup(p: Bytes, x: Bytes)
    ensures [Esc] + ([LeftBracket] + p + x) == [Esc, LeftBracket] + p + x
  {
    assert [Esc, LeftBracket] == [Esc] + [LeftBracket];
  }

  /** No escape sequence starts at an ESC `[` whose parameter run no letter closes. */
  lemma UnterminatedNoMatch(params: Bytes, rest: Bytes)
    requires forall k :: 0 <= k < |params| ==> IsParam(params[k])
    requires rest == [] || (!IsParam(rest[0]) && !IsLetter(rest[0]))
    ensures MatchLength([Esc, LeftBracket] + params + rest) == 0
  {
    var s := [Esc, LeftBracket] + params + rest;
    assert s[2..] == params + rest;
    ParamRunExact(params, rest);
    if rest != [] {
      assert s[2 + |params|] == rest[0];
    }
  }

  /** `t` is `s` with some bytes removed, order kept. */
  ghost predicate IsSubsequence(t: Bytes, s: Bytes)
    decreases |s|
  {
    t == [] || (s != [] && ((t[0] == s[0] && IsSubsequence(t[1..], s[1..])) || IsSubsequence(t, s[1..])))
  }

  /** Dropping any number of leading bytes of `s` keeps a subsequence of `s`. */
  lemma {:induction false} SubsequenceOfSuffix(t: Bytes, s: Bytes, n: nat)
    requires n <= |s| && IsSubsequence(t, s[n..])
    ensures IsSubsequence(t, s)
    decreases n
  {
    if n > 0 {
      assert s[1..][n - 1..] == s[n..];
      SubsequenceOfSuffix(t, s[1..], n - 1);
    }
  }

  /** The output keeps input bytes in their order and adds nothing. */
  lemma {:induction false} CleanAnsiSubsequence(s: Bytes)
    ensures IsSubsequence(CleanAnsi(s), s)
    decreases |s|
  {
    if s != [] {
      var n := MatchLength(s);
      if n > 0 {
        CleanAnsiSubsequence(s[n..]);
        SubsequenceOfSuffix(CleanAnsi(s), s, n);
      } else {
        CleanAnsiSubsequence(s[1..]);
        var r := CleanAnsi(s);
        assert r[0] == s[0] && r[1..] == CleanAnsi(s[1..]);
      }
    }
  }
}
