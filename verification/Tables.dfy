/** The fixed tables and codecs, pinned by value and by the vectors of their standards. */
module Tables {
  import opened Basics
  import opened Text
  import opened Json
  import opened Timestamps
  import opened Files

  // ----- byte order -----

  /** The byte strings part after `k` bytes, where the first ends or has the smaller byte. */
  ghost predicate PartsAt(a: bytes, b: bytes, k: nat) {
    && k <= |a| && k < |b| && a[..k] == b[..k] && (k == |a| || a[k] < b[k])
  }

  lemma {:induction false} LessParts(a: bytes, b: bytes) returns (k: nat)
    requires Less(a, b)
    ensures PartsAt(a, b, k)
  {
    if a == [] || a[0] != b[0] {
      k := 0;
    } else {
      var l := LessParts(a[1..], b[1..]);
      k := l + 1;
      assert a[..k] == [a[0]] + a[1..][..l] && b[..k] == [b[0]] + b[1..][..l];
    }
  }

  lemma {:induction false} PartsLess(a: bytes, b: bytes, k: nat)
    requires PartsAt(a, b, k)
    ensures Less(a, b)
  {
    if k > 0 {
      assert a[0] == a[..k][0] == b[..k][0] == b[0];
      assert a[1..][..k - 1] == a[..k][1..] && b[1..][..k - 1] == b[..k][1..];
      PartsLess(a[1..], b[1..], k - 1);
    }
  }

  /** Keys are ordered by their bytes. */
  lemma LessExact(a: bytes, b: bytes)
    ensures Less(a, b) <==> exists k :: PartsAt(a, b, k)
  {
    if Less(a, b) { var k := LessParts(a, b); }
    forall k | PartsAt(a, b, k) ensures Less(a, b) { PartsLess(a, b, k); }
  }

  // ----- UTF-8, RFC 3629 section 3 -----

  ghost predicate Continuation(c: char) {
    0x80 <= c as int <= 0xBF
  }

  /** The bytes are the shortest form of a Unicode scalar value. */
  ghost predicate Scalar(b: bytes, code: nat) {
    && !(0xD800 <= code <= 0xDFFF)
    && (|b| == 1 ==> code <= 0x7F && code == b[0] as int)
    && (|b| == 2 ==> 0x80 <= code <= 0x7FF && Continuation(b[1]) && code == (b[0] as int - 0xC0) * 64 + (b[1] as int - 0x80))
    && (|b| == 3 ==>
          && 0x800 <= code <= 0xFFFF && Continuation(b[1]) && Continuation(b[2])
          && code == (b[0] as int - 0xE0) * 4096 + (b[1] as int - 0x80) * 64 + (b[2] as int - 0x80))
    && (|b| == 4 ==>
          && 0x10000 <= code <= 0x10FFFF && Continuation(b[1]) && Continuation(b[2]) && Continuation(b[3])
          && code == (b[0] as int - 0xF0) * 262144 + (b[1] as int - 0x80) * 4096 + (b[2] as int - 0x80) * 64
                     + (b[3] as int - 0x80))
    && 1 <= |b| <= 4
  }

  ghost function Joined(units: seq<bytes>): bytes {
    if units == [] then [] else units[0] + Joined(units[1..])
  }

  ghost predicate IsScalar(u: bytes) {
    exists code: nat :: Scalar(u, code)
  }

  ghost predicate Scalars(units: seq<bytes>) {
    forall i | 0 <= i < |units| :: IsScalar(units[i])
  }

  /** What is appended for a code point is its shortest form. */
  lemma EncodeUtf8Exact(code: nat)
    requires code < 0x110000 && !(0xD800 <= code <= 0xDFFF)
    ensures Scalar(EncodeUtf8(code), code)
  {
    SixBits(code);
    SixBits(code / 64);
  }

  lemma SixBits(n: nat)
    ensures n == n / 64 * 64 + n % 64 && n % 64 < 64 && n / 64 / 64 == n / 4096 && n / 4096 / 64 == n / 262144
  {
  }

  lemma {:induction false} ValidSplits(b: bytes) returns (units: seq<bytes>)
    requires ValidUtf8(b)
    ensures Scalars(units) && Joined(units) == b
  {
    if b == [] {
      units := [];
    } else {
      var n, code := FirstScalar(b);
      var rest := ValidSplits(b[n..]);
      assert IsScalar(b[..n]);
      units := [b[..n]] + rest;
      assert units[1..] == rest && b == b[..n] + b[n..];
    }
  }

  lemma FirstScalar(b: bytes) returns (n: nat, code: nat)
    requires b != [] && ValidUtf8(b)
    ensures 1 <= n <= |b| && Scalar(b[..n], code) && ValidUtf8(b[n..])
  {
    var x := b[0] as int;
    if x <= 0x7F {
      n, code := 1, x;
    } else if x <= 0xDF {
      n, code := 2, (x - 0xC0) * 64 + (b[1] as int - 0x80);
    } else if x <= 0xEF {
      n, code := 3, (x - 0xE0) * 4096 + (b[1] as int - 0x80) * 64 + (b[2] as int - 0x80);
    } else {
      n, code := 4, (x - 0xF0) * 262144 + (b[1] as int - 0x80) * 4096 + (b[2] as int - 0x80) * 64 + (b[3] as int - 0x80);
    }
  }

  lemma ScalarValid(u: bytes, code: nat, rest: bytes)
    requires Scalar(u, code) && ValidUtf8(rest)
    ensures ValidUtf8(u + rest)
  {
    var b := u + rest;
    assert b[|u|..] == rest;
    if |u| == 1 { assert b[1..] == rest; }
    if |u| == 2 { assert b[2..] == rest; }
    if |u| == 3 { assert b[3..] == rest; }
    if |u| == 4 { assert b[4..] == rest; }
  }

  lemma {:induction false} JoinedValid(units: seq<bytes>)
    requires Scalars(units)
    ensures ValidUtf8(Joined(units))
  {
    if units != [] {
      assert forall i | 0 <= i < |units| - 1 :: units[1..][i] == units[i + 1];
      JoinedValid(units[1..]);
      var code: nat :| Scalar(units[0], code);
      ScalarValid(units[0], code, Joined(units[1..]));
    }
  }

  /** Text is valid exactly when it is a sequence of scalar values, each in its shortest form. */
  lemma Utf8Exact(b: bytes)
    ensures ValidUtf8(b) <==> exists units :: Scalars(units) && Joined(units) == b
  {
    if ValidUtf8(b) { var units := ValidSplits(b); }
    forall units | Scalars(units) && Joined(units) == b ensures ValidUtf8(b) { JoinedValid(units); }
  }

  // ----- JSON, RFC 8259 sections 2 and 7 -----

  lemma SpaceExact(c: char)
    ensures IsSpace(c) <==> c as int in {0x20, 0x09, 0x0A, 0x0D}
  {
  }

  /** The two-character escapes: what may follow the backslash, and what it stands for. */
  lemma EscapesExact(c: char, d: char)
    ensures SimpleEscape(c) == Some(d) <==>
            (c as int, d as int) in {(0x22, 0x22), (0x5C, 0x5C), (0x2F, 0x2F), (0x62, 0x08), (0x66, 0x0C), (0x6E, 0x0A),
                                     (0x72, 0x0D), (0x74, 0x09)}
  {
  }

  /** Hex digits of either case. */
  lemma HexDigitsExact(c: char, v: nat)
    ensures AnyHexValue(c) == Some(v) <==>
            || (v <= 9 && c as int == 0x30 + v) || (10 <= v <= 15 && (c as int == 0x41 + v - 10 || c as int == 0x61 + v - 10))
  {
  }

  /** Two surrogates make the code point above the first plane that RFC 2781 section 2.2 says. */
  lemma SurrogatesExact(high: nat, low: nat)
    ensures HighSurrogate(high) <==> 0xD800 <= high <= 0xDBFF
    ensures LowSurrogate(low) <==> 0xDC00 <= low <= 0xDFFF
    ensures HighSurrogate(high) && LowSurrogate(low) ==>
              JoinSurrogates(high, low) == (high % 0x400) * 0x400 + low % 0x400 + 0x10000
  {
  }

  lemma IntegersExact(n: int)
    ensures WellFormed(Int(n)) <==> -9223372036854775808 <= n <= 18446744073709551615
  {
  }

  // ----- codecs -----

  /** The vectors of RFC 4648 section 10. */
  lemma Base64Vectors()
    ensures Base64("") == "" && Base64("f") == "Zg==" && Base64("fo") == "Zm8=" && Base64("foo") == "Zm9v"
  {
    assert EncodeBlock('f' as int, 'o' as int, 'o' as int) == "Zm9v";
    assert "foo"[3..] == "";
  }

  lemma Base64LongVectors()
    ensures Base64("foob") == "Zm9vYg==" && Base64("fooba") == "Zm9vYmE=" && Base64("foobar") == "Zm9vYmFy"
  {
    assert EncodeBlock('f' as int, 'o' as int, 'o' as int) == "Zm9v";
    assert EncodeBlock('b' as int, 'a' as int, 'r' as int) == "YmFy";
    assert "foob"[3..] == "b" && "fooba"[3..] == "ba" && "foobar"[3..] == "bar";
    assert Base64Unpadded("b") == "Yg" && Base64Unpadded("ba") == "YmE" && Base64Unpadded("bar") == "YmFy" + "";
  }

  /** The standard alphabet: upper case, lower case, digits, plus and slash. */
  lemma SextetsExact(i: nat)
    requires i < 64
    ensures SextetChar(i) as int ==
            if i < 26 then 0x41 + i else if i < 52 then 0x61 + i - 26 else if i < 62 then 0x30 + i - 52
            else if i == 62 then 0x2B else 0x2F
  {
  }

  /** Each byte is two hex digits, lowercase, the high one first. */
  lemma {:induction false} HexExact(b: bytes, i: nat)
    requires IsBytes(b) && i < |b|
    ensures HexEncode(b)[2 * i] == "0123456789abcdef"[b[i] as int / 16]
    ensures HexEncode(b)[2 * i + 1] == "0123456789abcdef"[b[i] as int % 16]
  {
    if i == 0 {
      HexDigitExact(b[0] as int / 16);
      HexDigitExact(b[0] as int % 16);
    } else {
      HexExact(b[1..], i - 1);
      assert HexEncode(b)[2..] == HexEncode(b[1..]);
    }
  }

  lemma HexDigitExact(d: nat)
    requires d < 16
    ensures HexDigit(d) == "0123456789abcdef"[d]
  {
  }

  /** Decimal digits, the highest first. */
  lemma DecimalExact(n: nat)
    ensures n < 10 ==> Decimal(n) == ["0123456789"[n]]
    ensures n >= 10 ==> Decimal(n) == Decimal(n / 10) + ["0123456789"[n % 10]]
  {
    assert forall d: nat | d < 10 :: DigitChar(d) == "0123456789"[d];
  }

  // ----- names -----

  lemma NamesExact(out: Path, id: bytes, n: nat)
    ensures Sibling(out.dir, id, n) == Path(out.dir, id + "-" + Decimal(n) + ".json")
    ensures SigPath(out) == Path(out.dir, out.name + ".sig")
  {
  }

  // ----- days -----

  /** The Unix epoch, and two century years, one of them leap. */
  lemma DayVectors()
    ensures ValidDate(Date(1970, 1, 1)) && DayNumber(Date(1970, 1, 1)) == 719528
    ensures !ValidDate(Date(1900, 2, 29)) && ValidDate(Date(2000, 2, 29))
  {
  }
}
