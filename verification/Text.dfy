/** Text codecs: decimal numbers, lowercase hex, base64 (RFC 4648 section 4) and UTF-8 validity. */
module Text {
  import opened Basics

  // ----- decimal -----

  predicate IsDigit(c: char) {
    '0' <= c <= '9'
  }

  function DigitChar(d: nat): (c: char)
    requires d < 10
    ensures IsDigit(c) && DigitValue(c) == d
  {
    ('0' as int + d) as char
  }

  function DigitValue(c: char): nat
    requires IsDigit(c)
  {
    c as int - '0' as int
  }

  function Decimal(n: nat): (s: bytes)
    ensures s != [] && forall c | c in s :: IsDigit(c)
  {
    if n < 10 then [DigitChar(n)] else Decimal(n / 10) + [DigitChar(n % 10)]
  }

  /** Consumes the leading digits of `s`, continuing the number `acc`. */
  function ReadDigits(acc: nat, s: bytes): (r: (nat, bytes))
    ensures |r.1| <= |s|
    decreases |s|
  {
    if s == [] || !IsDigit(s[0]) then (acc, s)
    else ReadDigits(acc * 10 + DigitValue(s[0]), s[1..])
  }

  lemma {:induction false} ReadDecimal(n: nat, rest: bytes)
    ensures ReadDigits(0, Decimal(n) + rest) == ReadDigits(n, rest)
  {
    if n < 10 {
      assert ([DigitChar(n)] + rest)[1..] == rest;
    } else {
      var last := [DigitChar(n % 10)];
      assert Decimal(n) + rest == Decimal(n / 10) + (last + rest);
      ReadDecimal(n / 10, last + rest);
      assert (last + rest)[1..] == rest;
      assert n / 10 * 10 + n % 10 == n;
    }
  }

  /** Printed numbers never start with a spare zero. */
  lemma {:induction false} DecimalLeadingDigit(n: nat)
    ensures Decimal(n)[0] == '0' <==> n == 0
    ensures n == 0 ==> Decimal(n) == "0"
  {
    if n >= 10 {
      DecimalLeadingDigit(n / 10);
      assert Decimal(n)[0] == Decimal(n / 10)[0];
    }
  }

  lemma DecimalInjective(m: nat, n: nat)
    requires Decimal(m) == Decimal(n)
    ensures m == n
  {
    ReadDecimal(m, []);
    ReadDecimal(n, []);
  }

  // ----- lowercase hex -----

  predicate IsHexDigit(c: char) {
    '0' <= c <= '9' || 'a' <= c <= 'f'
  }

  function HexDigit(d: nat): (c: char)
    requires d < 16
    ensures IsHexDigit(c) && HexValue(c) == d
  {
    if d < 10 then ('0' as int + d) as char else ('a' as int + d - 10) as char
  }

  function HexValue(c: char): (d: nat)
    requires IsHexDigit(c)
    ensures d < 16
  {
    if c <= '9' then c as int - '0' as int else c as int - 'a' as int + 10
  }

  function HexEncode(b: bytes): (s: bytes)
    requires IsBytes(b)
    ensures |s| == 2 * |b|
  {
    if b == [] then []
    else [HexDigit(b[0] as int / 16), HexDigit(b[0] as int % 16)] + HexEncode(b[1..])
  }

  lemma {:induction false} HexEncodeDigits(b: bytes)
    requires IsBytes(b)
    ensures forall i | 0 <= i < |HexEncode(b)| :: IsHexDigit(HexEncode(b)[i])
  {
    if b != [] { HexEncodeDigits(b[1..]); }
  }

  function HexDecode(s: bytes): (b: bytes)
    requires |s| % 2 == 0 && forall i | 0 <= i < |s| :: IsHexDigit(s[i])
    ensures |b| == |s| / 2 && IsBytes(b)
  {
    if s == [] then []
    else [(HexValue(s[0]) * 16 + HexValue(s[1])) as char] + HexDecode(s[2..])
  }

  lemma {:induction false} HexRoundTrip(b: bytes)
    requires IsBytes(b)
    ensures forall i | 0 <= i < |HexEncode(b)| :: IsHexDigit(HexEncode(b)[i])
    ensures HexDecode(HexEncode(b)) == b
  {
    if b != [] {
      var s := HexEncode(b);
      assert s[2..] == HexEncode(b[1..]);
      HexEncodeDigits(b);
      HexRoundTrip(b[1..]);
    }
  }

  // ----- base64 -----

  function SextetChar(i: nat): (c: char)
    requires i < 64
    ensures c != '=' && c as int < 128
  {
    if i < 26 then ('A' as int + i) as char
    else if i < 52 then ('a' as int + i - 26) as char
    else if i < 62 then ('0' as int + i - 52) as char
    else if i == 62 then '+'
    else '/'
  }

  function SextetValue(c: char): (r: Option<nat>)
    ensures r.Some? ==> r.value < 64 && SextetChar(r.value) == c
  {
    if 'A' <= c <= 'Z' then Some(c as int - 'A' as int)
    else if 'a' <= c <= 'z' then Some(c as int - 'a' as int + 26)
    else if '0' <= c <= '9' then Some(c as int - '0' as int + 52)
    else if c == '+' then Some(62)
    else if c == '/' then Some(63)
    else None
  }

  lemma SextetRoundTrip(i: nat)
    requires i < 64
    ensures SextetValue(SextetChar(i)) == Some(i)
  {
  }

  /** The four sextets of three bytes. */
  function EncodeBlock(x: nat, y: nat, z: nat): (s: bytes)
    requires x < 256 && y < 256 && z < 256
    ensures |s| == 4 && forall i | 0 <= i < 4 :: s[i] != '='
  {
    [SextetChar(x / 4), SextetChar(x % 4 * 16 + y / 16), SextetChar(y % 16 * 4 + z / 64), SextetChar(z % 64)]
  }

  /** The three bytes of four sextets. */
  function DecodeBlock(s: bytes): (r: Option<(nat, nat, nat)>)
    requires |s| == 4
    ensures r.Some? ==> r.value.0 < 256 && r.value.1 < 256 && r.value.2 < 256
  {
    var i :- SextetValue(s[0]);
    var j :- SextetValue(s[1]);
    var k :- SextetValue(s[2]);
    var l :- SextetValue(s[3]);
    Some((i * 4 + j / 16, j % 16 * 16 + k / 4, k % 4 * 64 + l))
  }

  lemma SplitBits(x: nat, y: nat, z: nat)
    requires x < 256 && y < 256 && z < 256
    ensures x / 4 < 64 && x % 4 * 16 + y / 16 < 64 && y % 16 * 4 + z / 64 < 64
    ensures x / 4 * 4 + (x % 4 * 16 + y / 16) / 16 == x
    ensures (x % 4 * 16 + y / 16) % 16 * 16 + (y % 16 * 4 + z / 64) / 4 == y
    ensures (y % 16 * 4 + z / 64) % 4 * 64 + z % 64 == z
  {
  }

  lemma BlockRoundTrip(x: nat, y: nat, z: nat)
    requires x < 256 && y < 256 && z < 256
    ensures DecodeBlock(EncodeBlock(x, y, z)) == Some((x, y, z))
  {
    SplitBits(x, y, z);
    SextetRoundTrip(x / 4);
    SextetRoundTrip(x % 4 * 16 + y / 16);
    SextetRoundTrip(y % 16 * 4 + z / 64);
    SextetRoundTrip(z % 64);
  }

  lemma BlockCanonical(s: bytes)
    requires |s| == 4 && DecodeBlock(s).Some?
    ensures var (x, y, z) := DecodeBlock(s).value; EncodeBlock(x, y, z) == s
  {
    var i, j := SextetValue(s[0]).value, SextetValue(s[1]).value;
    var k, l := SextetValue(s[2]).value, SextetValue(s[3]).value;
    var (x, y, z) := DecodeBlock(s).value;
    assert x / 4 == i && x % 4 * 16 + y / 16 == j && y % 16 * 4 + z / 64 == k && z % 64 == l;
  }

  function Base64Unpadded(b: bytes): (s: bytes)
    requires IsBytes(b)
    ensures |s| % 4 == if |b| % 3 == 0 then 0 else |b| % 3 + 1
    ensures forall i | 0 <= i < |s| :: s[i] != '='
  {
    if |b| == 0 then []
    else if |b| == 1 then EncodeBlock(b[0] as int, 0, 0)[..2]
    else if |b| == 2 then EncodeBlock(b[0] as int, b[1] as int, 0)[..3]
    else EncodeBlock(b[0] as int, b[1] as int, b[2] as int) + Base64Unpadded(b[3..])
  }

  /** Encoding with the trailing `=` padding of the standard alphabet. */
  function Base64(b: bytes): (s: bytes)
    requires IsBytes(b)
    ensures |s| % 4 == 0
  {
    Base64Unpadded(b) + (if |b| % 3 == 1 then "==" else if |b| % 3 == 2 then "=" else "")
  }

  /** Unpadded decoding; the bits that do not fill a byte must be zero. */
  function DecodeUnpadded(s: bytes): (r: Option<bytes>)
    ensures r.Some? ==> IsBytes(r.value)
  {
    if |s| == 0 then Some([])
    else if |s| == 1 then None
    else if |s| == 2 then
      var (x, y, z) :- DecodeBlock(s + "AA");
      if y == 0 then Some([x as char]) else None
    else if |s| == 3 then
      var (x, y, z) :- DecodeBlock(s + "A");
      if z == 0 then Some([x as char, y as char]) else None
    else
      var (x, y, z) :- DecodeBlock(s[..4]);
      var rest :- DecodeUnpadded(s[4..]);
      Some([x as char, y as char, z as char] + rest)
  }

  /** Decoding that insists on canonical padding. */
  function DecodePadded(s: bytes): Option<bytes>
  {
    if |s| % 4 != 0 then None
    else if |s| > 0 && s[|s| - 2..] == "==" then DecodeUnpadded(s[..|s| - 2])
    else if |s| > 0 && s[|s| - 1] == '=' then DecodeUnpadded(s[..|s| - 1])
    else DecodeUnpadded(s)
  }

  lemma OneByte(b: bytes)
    requires IsBytes(b) && |b| == 1
    ensures DecodeUnpadded(Base64Unpadded(b)) == Some(b)
  {
    var x := b[0] as int;
    BlockRoundTrip(x, 0, 0);
    BlockTail(x, 0);
    DecodeTwo(EncodeBlock(x, 0, 0), Base64Unpadded(b), x, b);
  }

  lemma BlockTail(x: nat, y: nat)
    requires x < 256 && y < 256
    ensures EncodeBlock(x, y, 0)[3] == 'A' && (y == 0 ==> EncodeBlock(x, y, 0)[2] == 'A')
  {
  }

  lemma DecodeTwo(s: bytes, t: bytes, x: nat, b: bytes)
    requires |s| == 4 && t == s[..2] && s[2] == 'A' && s[3] == 'A' && DecodeBlock(s) == Some((x, 0, 0)) && x < 256
    requires b == [x as char]
    ensures DecodeUnpadded(t) == Some(b)
  {
    assert t + "AA" == s;
  }

  lemma TwoBytes(b: bytes)
    requires IsBytes(b) && |b| == 2
    ensures DecodeUnpadded(Base64Unpadded(b)) == Some(b)
  {
    var x, y := b[0] as int, b[1] as int;
    BlockRoundTrip(x, y, 0);
    BlockTail(x, y);
    DecodeThree(EncodeBlock(x, y, 0), Base64Unpadded(b), x, y, b);
  }

  lemma DecodeThree(s: bytes, t: bytes, x: nat, y: nat, b: bytes)
    requires |s| == 4 && t == s[..3] && s[3] == 'A' && DecodeBlock(s) == Some((x, y, 0)) && x < 256 && y < 256
    requires b == [x as char, y as char]
    ensures DecodeUnpadded(t) == Some(b)
  {
    assert t + "A" == s;
  }

  lemma DecodeBlockAnd(s: bytes, u: bytes, x: nat, y: nat, z: nat, rest: bytes)
    requires |s| == 4 && DecodeBlock(s) == Some((x, y, z)) && DecodeUnpadded(u) == Some(rest)
    requires x < 256 && y < 256 && z < 256
    ensures DecodeUnpadded(s + u) == Some([x as char, y as char, z as char] + rest)
  {
    assert (s + u)[..4] == s && (s + u)[4..] == u;
  }

  lemma BlockFirst(b: bytes, u: bytes)
    requires IsBytes(b) && |b| >= 3 && DecodeUnpadded(u) == Some(b[3..])
    ensures DecodeUnpadded(EncodeBlock(b[0] as int, b[1] as int, b[2] as int) + u) == Some(b)
  {
    var x, y, z := b[0] as int, b[1] as int, b[2] as int;
    BlockRoundTrip(x, y, z);
    DecodeBlockAnd(EncodeBlock(x, y, z), u, x, y, z, b[3..]);
    assert b == [b[0], b[1], b[2]] + b[3..];
  }

  lemma {:induction false} UnpaddedDecodesEncoded(b: bytes)
    requires IsBytes(b)
    ensures DecodeUnpadded(Base64Unpadded(b)) == Some(b)
  {
    if |b| == 1 {
      OneByte(b);
    } else if |b| == 2 {
      TwoBytes(b);
    } else if |b| >= 3 {
      UnpaddedDecodesEncoded(b[3..]);
      BlockFirst(b, Base64Unpadded(b[3..]));
    }
  }

  lemma {:induction false} UnpaddedEncodesDecoded(s: bytes)
    requires DecodeUnpadded(s).Some?
    ensures Base64Unpadded(DecodeUnpadded(s).value) == s
  {
    if |s| == 2 {
      BlockCanonical(s + "AA");
    } else if |s| == 3 {
      BlockCanonical(s + "A");
    } else if |s| >= 4 {
      BlockCanonical(s[..4]);
      UnpaddedEncodesDecoded(s[4..]);
      assert DecodeUnpadded(s).value[3..] == DecodeUnpadded(s[4..]).value;
    }
  }

  /** Unpadded decoding is exactly the inverse of unpadded encoding. */
  lemma UnpaddedExact(s: bytes, b: bytes)
    ensures DecodeUnpadded(s) == Some(b) <==> IsBytes(b) && s == Base64Unpadded(b)
  {
    if DecodeUnpadded(s) == Some(b) { UnpaddedEncodesDecoded(s); }
    if IsBytes(b) { UnpaddedDecodesEncoded(b); }
  }

  /** Padded decoding is exactly the inverse of padded encoding. */
  lemma PaddedExact(s: bytes, b: bytes)
    ensures DecodePadded(s) == Some(b) <==> IsBytes(b) && s == Base64(b)
  {
    if IsBytes(b) && s == Base64(b) { PaddedDecodes(s, b); }
    if DecodePadded(s) == Some(b) { PaddedShape(s, b); }
  }

  lemma PaddedDecodes(s: bytes, b: bytes)
    requires IsBytes(b) && s == Base64(b)
    ensures DecodePadded(s) == Some(b)
  {
    var u := Base64Unpadded(b);
    UnpaddedDecodesEncoded(b);
    if |b| % 3 == 1 {
      assert s[|s| - 2..] == "==" && s[..|s| - 2] == u;
    } else if |b| % 3 == 2 {
      assert s[|s| - 2..][0] == u[|u| - 1];
      assert s[..|s| - 1] == u;
    } else if s != [] {
      assert s == u;
      assert s[|s| - 2..][1] == s[|s| - 1];
    }
  }

  lemma PaddedShape(s: bytes, b: bytes)
    requires DecodePadded(s) == Some(b)
    ensures IsBytes(b) && s == Base64(b)
  {
    var n := if s == [] then 0 else if s[|s| - 2..] == "==" then 2 else if s[|s| - 1] == '=' then 1 else 0;
    var u := s[..|s| - n];
    assert s == u + "=="[..n];
    assert DecodeUnpadded(u) == Some(b) by { assert n == 0 ==> u == s; }
    UnpaddedEncodesDecoded(u);
    PaddingLength(b, n);
  }

  lemma PaddingLength(b: bytes, n: nat)
    requires IsBytes(b) && n < 3 && (|Base64Unpadded(b)| + n) % 4 == 0
    ensures Base64(b) == Base64Unpadded(b) + "=="[..n]
  {
    PaddingCount(|Base64Unpadded(b)|, |b|, n);
    assert "=="[..2] == "==" && "=="[..1] == "=" && "=="[..0] == "";
  }

  lemma PaddingCount(u: nat, b: nat, n: nat)
    requires n < 3 && (u + n) % 4 == 0 && u % 4 == if b % 3 == 0 then 0 else b % 3 + 1
    ensures n == if b % 3 == 1 then 2 else if b % 3 == 2 then 1 else 0
  {
    assert (u % 4 + n) % 4 == 0;
  }

  // ----- UTF-8 -----

  predicate Between(c: char, lo: int, hi: int) {
    lo <= c as int <= hi
  }

  /** Well-formed UTF-8: the check behind every Rust `String`. */
  predicate ValidUtf8(b: bytes)
  {
    if b == [] then true
    else if Between(b[0], 0, 0x7F) then ValidUtf8(b[1..])
    else if Between(b[0], 0xC2, 0xDF) then
      |b| >= 2 && Between(b[1], 0x80, 0xBF) && ValidUtf8(b[2..])
    else if Between(b[0], 0xE0, 0xEF) then
      && |b| >= 3
      && Between(b[1], if b[0] as int == 0xE0 then 0xA0 else 0x80, if b[0] as int == 0xED then 0x9F else 0xBF)
      && Between(b[2], 0x80, 0xBF)
      && ValidUtf8(b[3..])
    else if Between(b[0], 0xF0, 0xF4) then
      && |b| >= 4
      && Between(b[1], if b[0] as int == 0xF0 then 0x90 else 0x80, if b[0] as int == 0xF4 then 0x8F else 0xBF)
      && Between(b[2], 0x80, 0xBF) && Between(b[3], 0x80, 0xBF)
      && ValidUtf8(b[4..])
    else false
  }

  ghost predicate Ascii(b: bytes) {
    forall i | 0 <= i < |b| :: b[i] as int < 128
  }

  lemma {:induction false} AsciiIsUtf8(b: bytes)
    requires Ascii(b)
    ensures ValidUtf8(b)
  {
    if b != [] {
      AsciiIsUtf8(b[1..]);
    }
  }

  /** The UTF-8 form of a code point, as `String::push` appends it. */
  function EncodeUtf8(code: nat): bytes
    requires code < 0x110000
  {
    if code < 0x80 then [code as char]
    else if code < 0x800 then [(0xC0 + code / 64) as char, (0x80 + code % 64) as char]
    else if code < 0x10000 then
      [(0xE0 + code / 4096) as char, (0x80 + code / 64 % 64) as char, (0x80 + code % 64) as char]
    else
      [(0xF0 + code / 262144) as char, (0x80 + code / 4096 % 64) as char,
       (0x80 + code / 64 % 64) as char, (0x80 + code % 64) as char]
  }
}
