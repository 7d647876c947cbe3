/**
 * Base64 with the standard alphabet and `=` padding of section 4 of
 * RFC 4648, decoded the way Go's `base64.StdEncoding.DecodeString` does:
 * carriage returns and line feeds anywhere in the input are skipped, every
 * other byte must belong to the alphabet or be padding, the input must end
 * on a whole 4-character quantum, padding may only close the last quantum
 * (`xx==` or `xxx=`), and the unused low bits of a padded quantum are
 * ignored (the encoding is not in strict mode).
 */
module Base64 {
  import opened Wrappers
  import opened Text

  const Pad: byte := 61  // '='
  const CR: byte := 13
  const LF: byte := 10

  /** The 6-bit value of an alphabet byte: `A`-`Z`, `a`-`z`, `0`-`9`, `+`, `/`. */
  function DecodeChar(b: byte): (r: Option<int>)
    ensures r.Some? ==> 0 <= r.value < 64
    ensures r.Some? ==> b != Pad && b != CR && b != LF
  {
    if 65 <= b <= 90 then Some(b - 65)
    else if 97 <= b <= 122 then Some(b - 71)
    else if 48 <= b <= 57 then Some(b + 4)
    else if b == 43 then Some(62)
    else if b == 47 then Some(63)
    else None
  }

  predicate IsAlphabet(b: byte)
  {
    DecodeChar(b).Some?
  }

  /** The alphabet byte that stands for the 6-bit value `v`. */
  function EncodeChar(v: int): (r: byte)
    requires 0 <= v < 64
    ensures DecodeChar(r) == Some(v)
  {
    if v < 26 then v + 65
    else if v < 52 then v + 71
    else if v < 62 then v - 4
    else if v == 62 then 43
    else 47
  }

  /** The input with every CR and LF removed, which is what Go's decoder reads. */
  function StripNewlines(s: Bytes): (r: Bytes)
    ensures |r| <= |s|
    ensures forall k :: 0 <= k < |r| ==> r[k] != CR && r[k] != LF
  {
    if s == [] then []
    else if s[0] == CR || s[0] == LF then StripNewlines(s[1..])
    else [s[0]] + StripNewlines(s[1..])
  }

  /** First decoded byte of a quantum: the 6 bits of `c0` and the top 2 of `c1`. */
  function Byte0(c0: int, c1: int): (r: byte)
    requires 0 <= c0 < 64 && 0 <= c1 < 64
  {
    c0 * 4 + c1 / 16
  }

  /** Second decoded byte: the low 4 bits of `c1` and the top 4 of `c2`. */
  function Byte1(c1: int, c2: int): (r: byte)
    requires 0 <= c1 < 64 && 0 <= c2 < 64
  {
    (c1 % 16) * 16 + c2 / 4
  }

  /** Third decoded byte: the low 2 bits of `c2` and the 6 bits of `c3`. */
  function Byte2(c2: int, c3: int): (r: byte)
    requires 0 <= c2 < 64 && 0 <= c3 < 64
  {
    (c2 % 4) * 64 + c3
  }

  /** Decodes input that holds no CR or LF, one 4-byte quantum at a time. */
  function DecodeQuanta(s: Bytes): Option<Bytes>
    decreases |s|
  {
    if |s| == 0 then Some([])
    else if |s| < 4 then None
    else
      var d0, d1, d2, d3 := DecodeChar(s[0]), DecodeChar(s[1]), DecodeChar(s[2]), DecodeChar(s[3]);
      if d0.Some? && d1.Some? && d2.Some? && d3.Some? then
        match DecodeQuanta(s[4..])
        case None => None
        case Some(rest) =>
          Some([Byte0(d0.value, d1.value), Byte1(d1.value, d2.value), Byte2(d2.value, d3.value)] + rest)
      else if |s| == 4 && d0.Some? && d1.Some? && s[2] == Pad && s[3] == Pad then
        Some([Byte0(d0.value, d1.value)])
      else if |s| == 4 && d0.Some? && d1.Some? && d2.Some? && s[3] == Pad then
        Some([Byte0(d0.value, d1.value), Byte1(d1.value, d2.value)])
      else None
  }

  /** `base64.StdEncoding.DecodeString`: `None` stands for Go's `CorruptInputError`. */
  function Decode(s: Bytes): Option<Bytes>
  {
    DecodeQuanta(StripNewlines(s))
  }

  /** One quantum of standard padded encoding: 1 to 3 bytes become 4 characters. */
  function EncodeQuantum(b: Bytes): (r: Bytes)
    requires 1 <= |b| <= 3
    ensures |r| == 4
    ensures forall k :: 0 <= k < 4 ==> r[k] != CR && r[k] != LF
  {
    var b1 := if |b| > 1 then b[1] else 0;
    var b2 := if |b| > 2 then b[2] else 0;
    [EncodeChar(b[0] / 4),
     EncodeChar((b[0] % 4) * 16 + b1 / 16),
     if |b| > 1 then EncodeChar((b1 % 16) * 4 + b2 / 64) else Pad,
     if |b| > 2 then EncodeChar(b2 % 64) else Pad]
  }

  /** Standard padded encoding, 3 bytes to 4 alphabet characters. */
  function Encode(b: Bytes): (r: Bytes)
    ensures forall k :: 0 <= k < |r| ==> r[k] != CR && r[k] != LF
    decreases |b|
  {
    if |b| == 0 then []
    else
      var n := if |b| < 3 then |b| else 3;
      EncodeQuantum(b[..n]) + Encode(b[n..])
  }

  /** Removing line breaks from input that has none changes nothing. */
  lemma {:induction false} StripNewlinesNoOp(s: Bytes)
    requires forall k :: 0 <= k < |s| ==> s[k] != CR && s[k] != LF
    ensures StripNewlines(s) == s
  {
    if s != [] {
      StripNewlinesNoOp(s[1..]);
    }
  }

  /** Line breaks are removed piecewise: stripping a concatenation strips each part. */
  lemma {:induction false} StripNewlinesAppend(a: Bytes, b: Bytes)
    ensures StripNewlines(a + b) == StripNewlines(a) + StripNewlines(b)
    decreases |a|
  {
    if a != [] {
      assert (a + b)[1..] == a[1..] + b;
      StripNewlinesAppend(a[1..], b);
    } else {
      assert a + b == b;
    }
  }

  /** A single byte is dropped exactly when it is CR or LF, and kept otherwise. */
  lemma StripNewlinesByte(c: byte)
    ensures c == CR || c == LF <==> StripNewlines([c]) == []
    ensures c != CR && c != LF <==> StripNewlines([c]) == [c]
  {
    assert [c][1..] == [];
  }

  /** Every byte of the input that is not a line break is kept, and nothing else appears. */
  lemma {:induction false} StripNewlinesMembers(s: Bytes)
    ensures forall x :: x in StripNewlines(s) <==> x in s && x != CR && x != LF
    decreases |s|
  {
    if s != [] {
      StripNewlinesMembers(s[1..]);
      assert s == [s[0]] + s[1..];
    }
  }

  /** The decoder ignores a CR or LF wherever it stands in the input. */
  lemma DecodeSkipsLineBreak(a: Bytes, c: byte, b: Bytes)
    requires c == CR || c == LF
    ensures Decode(a + [c] + b) == Decode(a + b)
  {
    StripNewlinesAppend(a + [c], b);
    StripNewlinesAppend(a, [c]);
    StripNewlinesAppend(a, b);
    StripNewlinesByte(c);
    assert StripNewlines(a + [c]) == StripNewlines(a);
  }

  /** The three bytes of a quantum survive encoding and decoding. */
  lemma TripleRoundTrip(b0: byte, b1: byte, b2: byte)
    ensures Byte0(b0 / 4, (b0 % 4) * 16 + b1 / 16) == b0
    ensures Byte1((b0 % 4) * 16 + b1 / 16, (b1 % 16) * 4 + b2 / 64) == b1
    ensures Byte2((b1 % 16) * 4 + b2 / 64, b2 % 64) == b2
  {
    var c1 := (b0 % 4) * 16 + b1 / 16;
    var c2 := (b1 % 16) * 4 + b2 / 64;
    assert c1 / 16 == b0 % 4 && c1 % 16 == b1 / 16;
    assert c2 / 4 == b1 % 16 && c2 % 4 == b2 / 64;
  }

  /** A full quantum decodes to its three bytes, ahead of whatever follows it. */
  lemma FullQuantum(b: Bytes, rest: Bytes)
    requires |b| == 3 && DecodeQuanta(rest).Some?
    ensures DecodeQuanta(EncodeQuantum(b) + rest) == Some(b + DecodeQuanta(rest).value)
  {
    var q := EncodeQuantum(b);
    var s := q + rest;
    assert s[4..] == rest;
    var c1 := (b[0] % 4) * 16 + b[1] / 16;
    var c2 := (b[1] % 16) * 4 + b[2] / 64;
    assert DecodeChar(s[0]) == Some(b[0] / 4);
    assert DecodeChar(s[1]) == Some(c1);
    assert DecodeChar(s[2]) == Some(c2);
    assert DecodeChar(s[3]) == Some(b[2] % 64);
    TripleRoundTrip(b[0], b[1], b[2]);
    assert [b[0], b[1], b[2]] == b;
  }

  /** A padded quantum, which can only come last, decodes to its one or two bytes. */
  lemma PaddedQuantum(b: Bytes)
    requires 1 <= |b| <= 2
    ensures DecodeQuanta(EncodeQuantum(b)) == Some(b)
  {
    if |b| == 1 {
      OneBytePadded(b[0]);
      assert [b[0]] == b;
    } else {
      TwoBytesPadded(b[0], b[1]);
      assert [b[0], b[1]] == b;
    }
  }

  /** `xx==` decodes to its one byte. */
  lemma OneBytePadded(b0: byte)
    ensures DecodeQuanta(EncodeQuantum([b0])) == Some([b0])
  {
    var c0, c1 := b0 / 4, (b0 % 4) * 16;
    var q := EncodeQuantum([b0]);
    assert q == [EncodeChar(c0), EncodeChar(c1), Pad, Pad];
    assert DecodeChar(q[0]) == Some(c0) && DecodeChar(q[1]) == Some(c1);
    assert DecodeChar(q[2]).None?;
    assert Byte0(c0, c1) == b0;
  }

  /** `xxx=` decodes to its two bytes. */
  lemma TwoBytesPadded(b0: byte, b1: byte)
    ensures DecodeQuanta(EncodeQuantum([b0, b1])) == Some([b0, b1])
  {
    var q := EncodeQuantum([b0, b1]);
    TripleRoundTrip(b0, b1, 0);
    assert DecodeChar(q[0]) == Some(b0 / 4);
    assert DecodeChar(q[1]) == Some((b0 % 4) * 16 + b1 / 16);
    assert DecodeChar(q[2]) == Some((b1 % 16) * 4);
    assert q[3] == Pad && DecodeChar(q[3]).None?;
  }

  /** Decoding undoes encoding: every byte string survives the round trip. */
  lemma {:induction false} DecodeEncode(b: Bytes)
    ensures Decode(Encode(b)) == Some(b)
    decreases |b|
  {
    var e := Encode(b);
    StripNewlinesNoOp(e);
    if |b| > 0 {
      var n := if |b| < 3 then |b| else 3;
      var rest := Encode(b[n..]);
      assert e == EncodeQuantum(b[..n]) + rest;
      if n == 3 {
        DecodeEncode(b[3..]);
        StripNewlinesNoOp(rest);
        FullQuantum(b[..3], rest);
        assert b == b[..3] + b[3..];
      } else {
        assert rest == [] && e == EncodeQuantum(b);
        PaddedQuantum(b);
      }
    }
  }

  /** Whatever decodes was a whole number of quanta once line breaks are removed. */
  lemma {:induction false} DecodedLength(s: Bytes)
    requires DecodeQuanta(s).Some?
    ensures |s| % 4 == 0
    ensures |DecodeQuanta(s).value| <= 3 * (|s| / 4)
    ensures |DecodeQuanta(s).value| >= |s| / 4
    decreases |s|
  {
    if |s| > 4 {
      var rest := s[4..];
      assert DecodeChar(s[0]).Some? && DecodeChar(s[1]).Some? && DecodeChar(s[2]).Some? && DecodeChar(s[3]).Some?;
      assert DecodeQuanta(rest).Some?;
      DecodedLength(rest);
      assert |DecodeQuanta(s).value| == 3 + |DecodeQuanta(rest).value|;
      assert |s| / 4 == 1 + |rest| / 4;
    }
  }
}
