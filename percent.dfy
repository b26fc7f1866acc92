/** Percent-decoding as Python's `urllib.parse.unquote` does it with its
    defaults (UTF-8, errors replaced): every maximal run of ASCII characters
    has its `%XX` escapes (section 2.1 of RFC 3986) turned into octets, the
    octets are decoded as UTF-8 with each maximal invalid subpart replaced by
    U+FFFD, and characters outside ASCII pass through. The partner is the
    encoder of section 2.1, which keeps the unreserved characters of section
    2.3 and writes every other octet of the UTF-8 encoding as `%XX`. */
module Percent {
  type Byte = x: int | 0 <= x < 256

  const Replacement: char := '\U{FFFD}'

  predicate IsAscii(c: char) {
    c as int < 128
  }

  predicate AllAscii(s: string) {
    forall i :: 0 <= i < |s| ==> IsAscii(s[i])
  }

  predicate IsHexDigit(c: char) {
    ('0' <= c <= '9') || ('a' <= c <= 'f') || ('A' <= c <= 'F')
  }

  function HexValue(c: char): (v: nat)
    requires IsHexDigit(c)
    ensures v < 16
  {
    if '0' <= c <= '9' then c as int - '0' as int
    else if 'a' <= c <= 'f' then c as int - 'a' as int + 10
    else c as int - 'A' as int + 10
  }

  /** The upper-case hex digit of a value below 16. */
  function HexDigit(v: nat): (c: char)
    requires v < 16
    ensures IsHexDigit(c) && HexValue(c) == v && IsAscii(c) && c != '%'
  {
    if v < 10 then ('0' as int + v) as char else ('A' as int + v - 10) as char
  }

  // ----- `unquote_to_bytes` -----

  /** The octets of an ASCII run: `%` followed by two hex digits is one
      octet, anything else (a lone `%` included) is its own code. */
  function PercentBytes(s: string): seq<Byte>
    requires AllAscii(s)
    decreases |s|
  {
    if |s| == 0 then []
    else if s[0] == '%' && |s| >= 3 && IsHexDigit(s[1]) && IsHexDigit(s[2]) then
      [HexValue(s[1]) * 16 + HexValue(s[2])] + PercentBytes(s[3..])
    else
      [s[0] as int] + PercentBytes(s[1..])
  }

  // ----- UTF-8 decoding with replacement -----

  predicate IsContinuation(b: Byte) {
    0x80 <= b <= 0xBF
  }

  /** The length of the well-formed sequence a lead byte starts, 0 for a
      byte that starts none. */
  function SequenceLength(b0: Byte): nat {
    if b0 < 0x80 then 1
    else if 0xC2 <= b0 <= 0xDF then 2
    else if 0xE0 <= b0 <= 0xEF then 3
    else if 0xF0 <= b0 <= 0xF4 then 4
    else 0
  }

  /** The second byte's range after a lead byte (Table 3-7 of the Unicode
      Standard): it excludes overlong forms, surrogates and code points
      beyond U+10FFFF. */
  predicate SecondInRange(b0: Byte, b1: Byte) {
    if b0 == 0xE0 then 0xA0 <= b1 <= 0xBF
    else if b0 == 0xED then 0x80 <= b1 <= 0x9F
    else if b0 == 0xF0 then 0x90 <= b1 <= 0xBF
    else if b0 == 0xF4 then 0x80 <= b1 <= 0x8F
    else IsContinuation(b1)
  }

  /** How many bytes of `bs` form a well-formed prefix of the sequence its
      first byte starts. */
  function ValidPrefix(bs: seq<Byte>): (k: nat)
    requires |bs| > 0 && SequenceLength(bs[0]) >= 2
    ensures 1 <= k <= SequenceLength(bs[0]) && k <= |bs|
  {
    var n := SequenceLength(bs[0]);
    if |bs| < 2 || !SecondInRange(bs[0], bs[1]) then 1
    else if n == 2 || |bs| < 3 || !IsContinuation(bs[2]) then 2
    else if n == 3 || |bs| < 4 || !IsContinuation(bs[3]) then 3
    else 4
  }

  /** One decoded character and the number of bytes it consumed. */
  datatype Step = Step(c: char, len: nat)

  function DecodeStep(bs: seq<Byte>): (st: Step)
    requires |bs| > 0
    ensures 1 <= st.len <= |bs|
  {
    var b0 := bs[0];
    var n := SequenceLength(b0);
    if n == 0 then Step(Replacement, 1)
    else if n == 1 then Step(b0 as char, 1)
    else
      var k := ValidPrefix(bs);
      if k < n then Step(Replacement, k)
      else if n == 2 then Step(((b0 as int - 0xC0) * 64 + (bs[1] as int - 0x80)) as char, 2)
      else if n == 3 then
        Step(((b0 as int - 0xE0) * 4096 + (bs[1] as int - 0x80) * 64 + (bs[2] as int - 0x80)) as char, 3)
      else
        Step(((b0 as int - 0xF0) * 262144 + (bs[1] as int - 0x80) * 4096
              + (bs[2] as int - 0x80) * 64 + (bs[3] as int - 0x80)) as char, 4)
  }

  /** `bytes.decode("utf-8", "replace")`. */
  function Utf8Decode(bs: seq<Byte>): string
    decreases |bs|
  {
    if |bs| == 0 then []
    else
      var st := DecodeStep(bs);
      [st.c] + Utf8Decode(bs[st.len..])
  }

  // ----- `unquote` -----

  /** The length of the maximal ASCII prefix of `s`. */
  function AsciiRun(s: string): (n: nat)
    ensures n <= |s| && AllAscii(s[..n])
    ensures n == |s| || !IsAscii(s[n])
    decreases |s|
  {
    if |s| == 0 || !IsAscii(s[0]) then 0
    else
      var m := AsciiRun(s[1..]);
      assert s[..1 + m] == [s[0]] + s[1..][..m];
      1 + m
  }

  /** Decodes each maximal ASCII run and keeps the other characters. */
  function UnquoteRuns(s: string): string
    decreases |s|
  {
    if |s| == 0 then []
    else if !IsAscii(s[0]) then [s[0]] + UnquoteRuns(s[1..])
    else
      var n := AsciiRun(s);
      Utf8Decode(PercentBytes(s[..n])) + UnquoteRuns(s[n..])
  }

  /** `urllib.parse.unquote(s)`; a string without `%` is returned as is. */
  function Unquote(s: string): string {
    if '%' !in s then s else UnquoteRuns(s)
  }

  // ----- The encoder -----

  /** The unreserved characters of section 2.3 of RFC 3986. */
  predicate IsUnreserved(b: Byte) {
    || ('A' as int <= b <= 'Z' as int) || ('a' as int <= b <= 'z' as int) || ('0' as int <= b <= '9' as int)
    || b == '-' as int || b == '.' as int || b == '_' as int || b == '~' as int
  }

  /** The UTF-8 encoding of one character. */
  function Utf8Char(c: char): (r: seq<Byte>)
    ensures 1 <= |r| <= 4
  {
    var n := c as int;
    if n < 0x80 then [n]
    else if n < 0x800 then TwoByteForm(n); [0xC0 + n / 64, 0x80 + n % 64]
    else if n < 0x10000 then ThreeByteForm(n); [0xE0 + n / 4096, 0x80 + (n / 64) % 64, 0x80 + n % 64]
    else FourByteForm(n); [0xF0 + n / 262144, 0x80 + (n / 4096) % 64, 0x80 + (n / 64) % 64, 0x80 + n % 64]
  }

  function Utf8Encode(s: string): seq<Byte>
    decreases |s|
  {
    if |s| == 0 then [] else Utf8Char(s[0]) + Utf8Encode(s[1..])
  }

  function EncodeByte(b: Byte): (r: string)
    ensures AllAscii(r)
  {
    if IsUnreserved(b) then [b as char] else ['%', HexDigit(b / 16), HexDigit(b % 16)]
  }

  function EncodeBytes(bs: seq<Byte>): (r: string)
    ensures AllAscii(r)
    decreases |bs|
  {
    if |bs| == 0 then [] else EncodeByte(bs[0]) + EncodeBytes(bs[1..])
  }

  /** Percent-encoding of a string: its UTF-8 octets, unreserved ones kept. */
  function PercentEncode(s: string): (r: string)
    ensures AllAscii(r)
  {
    EncodeBytes(Utf8Encode(s))
  }

  // ----- Round trips -----

  /** An encoded octet decodes back to itself, whatever follows. */
  lemma PercentBytesOfByte(b: Byte, rest: string)
    requires AllAscii(rest)
    ensures AllAscii(EncodeByte(b) + rest)
    ensures PercentBytes(EncodeByte(b) + rest) == [b] + PercentBytes(rest)
  {
    var s := EncodeByte(b) + rest;
    if IsUnreserved(b) {
      assert s[0] == b as char && s[1..] == rest;
    } else {
      assert s[0] == '%' && s[1] == HexDigit(b / 16) && s[2] == HexDigit(b % 16) && s[3..] == rest;
    }
  }

  lemma {:induction false} PercentBytesOfEncoded(bs: seq<Byte>)
    ensures PercentBytes(EncodeBytes(bs)) == bs
    decreases |bs|
  {
    if |bs| > 0 {
      PercentBytesOfEncoded(bs[1..]);
      PercentBytesOfByte(bs[0], EncodeBytes(bs[1..]));
    }
  }

  lemma TwoByteForm(n: int)
    requires 0x80 <= n < 0x800
    ensures 0xC2 <= 0xC0 + n / 64 <= 0xDF && 0 <= n % 64 < 64
    ensures (n / 64) * 64 + n % 64 == n
  {
  }

  lemma ThreeByteForm(n: int)
    requires 0x800 <= n < 0x10000
    ensures 0xE0 <= 0xE0 + n / 4096 <= 0xEF && 0 <= (n / 64) % 64 < 64 && 0 <= n % 64 < 64
    ensures n / 4096 == 0 ==> (n / 64) % 64 >= 0x20
    ensures n / 4096 == 0xD && n < 0xD800 ==> (n / 64) % 64 <= 0x1F
    ensures (n / 4096) * 4096 + ((n / 64) % 64) * 64 + n % 64 == n
  {
  }

  lemma FourByteForm(n: int)
    requires 0x10000 <= n < 0x110000
    ensures 0xF0 <= 0xF0 + n / 262144 <= 0xF4
    ensures 0 <= (n / 4096) % 64 < 64 && 0 <= (n / 64) % 64 < 64 && 0 <= n % 64 < 64
    ensures n / 262144 == 0 ==> (n / 4096) % 64 >= 0x10
    ensures n / 262144 == 4 ==> (n / 4096) % 64 <= 0x0F
    ensures (n / 262144) * 262144 + ((n / 4096) % 64) * 4096 + ((n / 64) % 64) * 64 + n % 64 == n
  {
    var m := n / 4096;
    assert n == m * 4096 + n % 4096;
    assert m == (m / 64) * 64 + m % 64 && m / 64 == n / 262144;
    assert n % 4096 == ((n / 64) % 64) * 64 + n % 64;
  }

  /** The encoding of a character decodes back to it in one step. */
  lemma DecodeEncodedChar(c: char, rest: seq<Byte>)
    ensures DecodeStep(Utf8Char(c) + rest) == Step(c, |Utf8Char(c)|)
  {
    var n := c as int;
    var bs := Utf8Char(c) + rest;
    if n < 0x80 {
    } else if n < 0x800 {
      TwoByteForm(n);
      assert bs[0] == 0xC0 + n / 64 && bs[1] == 0x80 + n % 64;
    } else if n < 0x10000 {
      ThreeByteForm(n);
      assert bs[0] == 0xE0 + n / 4096 && bs[1] == 0x80 + (n / 64) % 64 && bs[2] == 0x80 + n % 64;
      assert n < 0xD800 || n >= 0xE000;
    } else {
      FourByteForm(n);
      assert bs[0] == 0xF0 + n / 262144 && bs[1] == 0x80 + (n / 4096) % 64;
      assert bs[2] == 0x80 + (n / 64) % 64 && bs[3] == 0x80 + n % 64;
    }
  }

  /** UTF-8 decoding undoes UTF-8 encoding. */
  lemma {:induction false} Utf8RoundTrip(s: string)
    ensures Utf8Decode(Utf8Encode(s)) == s
    decreases |s|
  {
    if |s| > 0 {
      var bs := Utf8Encode(s);
      DecodeEncodedChar(s[0], Utf8Encode(s[1..]));
      assert bs[|Utf8Char(s[0])|..] == Utf8Encode(s[1..]);
      Utf8RoundTrip(s[1..]);
    }
  }

  /** Without a `%`, the encoding is the string itself: every character was
      unreserved ASCII. */
  lemma {:induction false} EncodeWithoutPercent(s: string)
    requires '%' !in PercentEncode(s)
    ensures PercentEncode(s) == s
    decreases |s|
  {
    if |s| > 0 {
      var head := EncodeBytes(Utf8Char(s[0]));
      EncodeBytesAppend(Utf8Char(s[0]), Utf8Encode(s[1..]));
      assert PercentEncode(s) == head + PercentEncode(s[1..]);
      assert '%' !in head && '%' !in PercentEncode(s[1..]) by {
        assert forall x :: x in head ==> x in PercentEncode(s);
        assert forall x :: x in PercentEncode(s[1..]) ==> x in PercentEncode(s);
      }
      EncodeWithoutPercent(s[1..]);
      CharWithoutPercent(s[0]);
      assert s == [s[0]] + s[1..];
    }
  }

  /** A character whose encoding has no `%` is encoded as itself. */
  lemma CharWithoutPercent(c: char)
    requires '%' !in EncodeBytes(Utf8Char(c))
    ensures EncodeBytes(Utf8Char(c)) == [c]
  {
    var bs := Utf8Char(c);
    var b := bs[0];
    assert bs == [b] + bs[1..];
    assert EncodeBytes(bs) == EncodeByte(b) + EncodeBytes(bs[1..]);
    assert EncodeByte(b)[0] in EncodeBytes(bs);
    assert IsUnreserved(b);
  }

  lemma {:induction false} EncodeBytesAppend(a: seq<Byte>, b: seq<Byte>)
    ensures EncodeBytes(a + b) == EncodeBytes(a) + EncodeBytes(b)
    decreases |a|
  {
    if |a| > 0 {
      assert (a + b)[0] == a[0] && (a + b)[1..] == a[1..] + b;
      EncodeBytesAppend(a[1..], b);
    } else {
      assert a + b == b;
    }
  }

  /** Decoding an all-ASCII string: one run that is the whole string. */
  lemma UnquoteAscii(s: string)
    requires |s| > 0 && AllAscii(s)
    ensures UnquoteRuns(s) == Utf8Decode(PercentBytes(s))
  {
    assert IsAscii(s[0]);
    var n := AsciiRun(s);
    assert n == |s|;
    assert s[..n] == s && s[n..] == [];
  }

  /** `unquote` undoes percent-encoding. */
  lemma UnquoteRoundTrip(s: string)
    ensures Unquote(PercentEncode(s)) == s
  {
    var e := PercentEncode(s);
    if '%' !in e {
      EncodeWithoutPercent(s);
    } else {
      UnquoteAscii(e);
      PercentBytesOfEncoded(Utf8Encode(s));
      Utf8RoundTrip(s);
    }
  }

  /** A truncated three-byte sequence becomes a single replacement
      character, not one per byte: the maximal-subpart rule. */
  lemma TruncatedSequenceReplaced()
    ensures Unquote("%E2%82") == [Replacement]
  {
    var s := "%E2%82";
    assert AsciiRun(s) == 6;
    assert s[..6] == s && s[6..] == [];
    assert PercentBytes(s[3..]) == [0x82];
    assert PercentBytes(s) == [0xE2, 0x82];
    assert DecodeStep([0xE2, 0x82]) == Step(Replacement, 2);
  }
}
