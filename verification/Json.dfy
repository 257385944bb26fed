/**
 JSON trees, the compact printer behind `serde_json::to_vec`, and the reader behind
 `serde_json::from_slice` (RFC 8259 sections 2 to 7). Numbers are integers in the i64/u64 range.
 */
module Json {
  import opened Basics
  import opened Text

  datatype Json =
    | Null
    | Bool(b: bool)
    | Int(n: int)
    | Str(s: bytes)
    | Arr(items: seq<Json>)
    | Obj(members: seq<Member>)

  // A tree as read keeps document order and repeated keys; a `serde_json::Value` is the
  // special case in which every object has strictly ascending keys.
  datatype Member = Member(key: bytes, value: Json)

  const I64_MIN := -0x8000_0000_0000_0000
  const U64_MAX := 0xFFFF_FFFF_FFFF_FFFF

  function Keys(ms: seq<Member>): (ks: seq<bytes>)
    ensures |ks| == |ms| && forall i | 0 <= i < |ms| :: ks[i] == ms[i].key
  {
    seq(|ms|, i requires 0 <= i < |ms| => ms[i].key)
  }

  /** What Rust's types guarantee of every tree: UTF-8 strings and integers that fit. */
  predicate WellFormed(j: Json) {
    match j
    case Int(n) => I64_MIN <= n <= U64_MAX
    case Str(s) => ValidUtf8(s)
    case Arr(items) => forall i | 0 <= i < |items| :: WellFormed(items[i])
    case Obj(ms) => forall i | 0 <= i < |ms| :: ValidUtf8(ms[i].key) && WellFormed(ms[i].value)
    case _ => true
  }

  predicate WellFormedMembers(ms: seq<Member>) {
    forall i | 0 <= i < |ms| :: ValidUtf8(ms[i].key) && WellFormed(ms[i].value)
  }

  /** No object at any depth repeats a key. */
  predicate NoDuplicates(j: Json) {
    match j
    case Arr(items) => forall i | 0 <= i < |items| :: NoDuplicates(items[i])
    case Obj(ms) => Distinct(Keys(ms)) && forall i | 0 <= i < |ms| :: NoDuplicates(ms[i].value)
    case _ => true
  }

  /** Every object at every depth lists its keys in strictly ascending byte order. */
  ghost predicate Ordered(j: Json) {
    match j
    case Arr(items) => forall i | 0 <= i < |items| :: Ordered(items[i])
    case Obj(ms) => Ascending(Keys(ms)) && forall i | 0 <= i < |ms| :: Ordered(ms[i].value)
    case _ => true
  }

  // ----- printer -----

  const CONTROL_ESCAPES: map<char, char> :=
    map[8 as char := 'b', 9 as char := 't', 10 as char := 'n', 12 as char := 'f', 13 as char := 'r']

  /** The pinned escape set: two-character forms, lowercase `\u00xx` for other controls, nothing else. */
  function EscapeChar(c: char): (e: bytes)
    ensures e != []
  {
    if c == '"' then "\\\""
    else if c == '\\' then "\\\\"
    else if c in CONTROL_ESCAPES then ['\\', CONTROL_ESCAPES[c]]
    else if c < ' ' then "\\u00" + [HexDigit(c as int / 16), HexDigit(c as int % 16)]
    else [c]
  }

  function Escape(s: bytes): bytes {
    if s == [] then [] else EscapeChar(s[0]) + Escape(s[1..])
  }

  function PrintString(s: bytes): bytes {
    "\"" + Escape(s) + "\""
  }

  function PrintInt(n: int): bytes {
    if n < 0 then "-" + Decimal(-n) else Decimal(n)
  }

  function Print(j: Json): bytes
    decreases j
  {
    match j
    case Null => "null"
    case Bool(b) => if b then "true" else "false"
    case Int(n) => PrintInt(n)
    case Str(s) => PrintString(s)
    case Arr(items) => "[" + PrintItems(items, true)
    case Obj(ms) => "{" + PrintMembers(ms, true)
  }

  function PrintItems(items: seq<Json>, first: bool): bytes
    decreases items
  {
    if items == [] then "]"
    else (if first then "" else ",") + (Print(items[0]) + PrintItems(items[1..], false))
  }

  function PrintMembers(ms: seq<Member>, first: bool): bytes
    decreases ms
  {
    if ms == [] then "}"
    else
      (if first then "" else ",")
      + (PrintString(ms[0].key) + (":" + (Print(ms[0].value) + PrintMembers(ms[1..], false))))
  }

  // ----- reader: each function consumes a prefix and returns what is left -----

  predicate IsSpace(c: char) {
    c == ' ' || c == '\t' || c == '\n' || c == '\r'
  }

  function SkipSpace(s: bytes): (r: bytes)
    ensures |r| <= |s|
    ensures r != [] ==> !IsSpace(r[0])
  {
    if s != [] && IsSpace(s[0]) then SkipSpace(s[1..]) else s
  }

  function AnyHexValue(c: char): (r: Option<nat>)
    ensures r.Some? ==> r.value < 16
  {
    if '0' <= c <= '9' then Some(c as int - '0' as int)
    else if 'a' <= c <= 'f' then Some(c as int - 'a' as int + 10)
    else if 'A' <= c <= 'F' then Some(c as int - 'A' as int + 10)
    else None
  }

  /** Four hex digits of either case. */
  function HexQuad(s: bytes): (r: Option<nat>)
    ensures r.Some? ==> |s| >= 4 && r.value < 0x10000
  {
    if |s| < 4 then None
    else
      var a :- AnyHexValue(s[0]);
      var b :- AnyHexValue(s[1]);
      var c :- AnyHexValue(s[2]);
      var d :- AnyHexValue(s[3]);
      Some(a * 4096 + b * 256 + c * 16 + d)
  }

  predicate HighSurrogate(code: nat) { 0xD800 <= code < 0xDC00 }
  predicate LowSurrogate(code: nat) { 0xDC00 <= code < 0xE000 }

  function JoinSurrogates(high: nat, low: nat): (code: nat)
    requires HighSurrogate(high) && LowSurrogate(low)
    ensures code < 0x110000
  {
    0x10000 + (high - 0xD800) * 0x400 + (low - 0xDC00)
  }

  function SimpleEscape(c: char): Option<char> {
    if c == '"' || c == '\\' || c == '/' then Some(c)
    else if c == 'b' then Some(8 as char)
    else if c == 't' then Some(9 as char)
    else if c == 'n' then Some(10 as char)
    else if c == 'f' then Some(12 as char)
    else if c == 'r' then Some(13 as char)
    else None
  }

  /** The part of an escape after the backslash: its bytes, and the rest. */
  function ReadEscape(s: bytes): (r: Option<(bytes, bytes)>)
    ensures r.Some? ==> |r.value.1| < |s|
  {
    if s == [] then None
    else if s[0] == 'u' then
      var code :- HexQuad(s[1..]);
      if LowSurrogate(code) then None
      else if HighSurrogate(code) then
        if |s| < 11 || s[5] != '\\' || s[6] != 'u' then None
        else
          var low :- HexQuad(s[7..]);
          if LowSurrogate(low) then Some((EncodeUtf8(JoinSurrogates(code, low)), s[11..])) else None
      else Some((EncodeUtf8(code), s[5..]))
    else
      var c :- SimpleEscape(s[0]);
      Some(([c], s[1..]))
  }

  /** The characters up to the closing quote, unescaped. */
  function ReadChars(s: bytes): (r: Option<(bytes, bytes)>)
    ensures r.Some? ==> |r.value.1| < |s|
    decreases |s|
  {
    if s == [] || s[0] < ' ' then None
    else if s[0] == '"' then Some(([], s[1..]))
    else if s[0] == '\\' then
      var (c, afterEscape) :- ReadEscape(s[1..]);
      var (cs, rest) :- ReadChars(afterEscape);
      Some((c + cs, rest))
    else
      var (cs, rest) :- ReadChars(s[1..]);
      Some(([s[0]] + cs, rest))
  }

  /** A string after its opening quote; the bytes must form valid UTF-8. */
  function ReadString(s: bytes): (r: Option<(bytes, bytes)>)
    ensures r.Some? ==> |r.value.1| < |s| && ValidUtf8(r.value.0)
  {
    var (cs, rest) :- ReadChars(s);
    if ValidUtf8(cs) then Some((cs, rest)) else None
  }

  /** Digits without spare zeros, not continued by a fraction or an exponent. */
  function ReadNat(s: bytes): (r: Option<(nat, bytes)>)
    ensures r.Some? ==> |r.value.1| < |s|
  {
    if s == [] || !IsDigit(s[0]) then None
    else
      var (n, rest) := if s[0] == '0' then (0, s[1..]) else ReadDigits(DigitValue(s[0]), s[1..]);
      if rest != [] && (IsDigit(rest[0]) || rest[0] in ".eE") then None else Some((n, rest))
  }

  function ReadInt(s: bytes): (r: Option<(int, bytes)>)
    ensures r.Some? ==> |r.value.1| < |s| && I64_MIN <= r.value.0 <= U64_MAX
  {
    if s != [] && s[0] == '-' then
      var (n, rest) :- ReadNat(s[1..]);
      if 0 < n <= -I64_MIN then Some((-(n as int), rest)) else None
    else
      var (n, rest) :- ReadNat(s);
      if n <= U64_MAX then Some((n, rest)) else None
  }

  predicate StartsWith(s: bytes, prefix: bytes) {
    |prefix| <= |s| && s[..|prefix|] == prefix
  }

  function ReadValue(s: bytes): (r: Option<(Json, bytes)>)
    ensures r.Some? ==> |r.value.1| < |s|
    decreases |s|, 0
  {
    var t := SkipSpace(s);
    if t == [] then None
    else if t[0] == 'n' then if StartsWith(t, "null") then Some((Null, t[4..])) else None
    else if t[0] == 't' then if StartsWith(t, "true") then Some((Bool(true), t[4..])) else None
    else if t[0] == 'f' then if StartsWith(t, "false") then Some((Bool(false), t[5..])) else None
    else if t[0] == '"' then
      var (cs, rest) :- ReadString(t[1..]);
      Some((Str(cs), rest))
    else if t[0] == '[' then
      var (items, rest) :- ReadItems(t[1..], true);
      Some((Arr(items), rest))
    else if t[0] == '{' then
      var (ms, rest) :- ReadMembers(t[1..], true);
      Some((Obj(ms), rest))
    else
      var (n, rest) :- ReadInt(t);
      Some((Int(n), rest))
  }

  /** What stands before the next element of a sequence: nothing the first time, then a comma. */
  function ReadComma(t: bytes, first: bool): (r: Option<bytes>)
    ensures r.Some? ==> |r.value| <= |t|
  {
    if first then Some(t) else if t != [] && t[0] == ',' then Some(t[1..]) else None
  }

  /** Array elements after the opening bracket, or after an element unless `first`. */
  function ReadItems(s: bytes, first: bool): (r: Option<(seq<Json>, bytes)>)
    ensures r.Some? ==> |r.value.1| < |s|
    decreases |s|, 1
  {
    var t := SkipSpace(s);
    if t != [] && t[0] == ']' then Some(([], t[1..]))
    else
      var u :- ReadComma(t, first);
      var (item, afterItem) :- ReadValue(u);
      var (items, rest) :- ReadItems(afterItem, false);
      Some(([item] + items, rest))
  }

  /** A key with its opening quote and its colon. */
  function ReadKey(s: bytes): (r: Option<(bytes, bytes)>)
    ensures r.Some? ==> |r.value.1| < |s| && ValidUtf8(r.value.0)
  {
    var t := SkipSpace(s);
    if t == [] || t[0] != '"' then None
    else
      var (key, afterKey) :- ReadString(t[1..]);
      var u := SkipSpace(afterKey);
      if u == [] || u[0] != ':' then None else Some((key, u[1..]))
  }

  function ReadMembers(s: bytes, first: bool): (r: Option<(seq<Member>, bytes)>)
    ensures r.Some? ==> |r.value.1| < |s|
    decreases |s|, 1
  {
    var t := SkipSpace(s);
    if t != [] && t[0] == '}' then Some(([], t[1..]))
    else
      var u :- ReadComma(t, first);
      var (key, afterKey) :- ReadKey(u);
      var (value, afterValue) :- ReadValue(afterKey);
      var (ms, rest) :- ReadMembers(afterValue, false);
      Some(([Member(key, value)] + ms, rest))
  }

  /** A whole document: one value and nothing but white space after it. */
  function Read(s: bytes): Option<Json> {
    var (j, rest) :- ReadValue(s);
    if SkipSpace(rest) == [] then Some(j) else None
  }

  // ----- every tree that was read is well formed -----

  lemma {:induction false} ReadValueWellFormed(s: bytes)
    requires ReadValue(s).Some?
    ensures WellFormed(ReadValue(s).value.0)
    decreases |s|, 0
  {
    var t := SkipSpace(s);
    if t[0] == '[' {
      ReadItemsWellFormed(t[1..], true);
    } else if t[0] == '{' {
      ReadMembersWellFormed(t[1..], true);
    }
  }

  lemma {:induction false} ReadItemsWellFormed(s: bytes, first: bool)
    requires ReadItems(s, first).Some?
    ensures WellFormed(Arr(ReadItems(s, first).value.0))
    decreases |s|, 1
  {
    var t := SkipSpace(s);
    if t == [] || t[0] != ']' {
      var u := ReadComma(t, first).value;
      ReadValueWellFormed(u);
      ReadItemsWellFormed(ReadValue(u).value.1, false);
    }
  }

  lemma {:induction false} ReadMembersWellFormed(s: bytes, first: bool)
    requires ReadMembers(s, first).Some?
    ensures WellFormedMembers(ReadMembers(s, first).value.0)
    decreases |s|, 1
  {
    var t := SkipSpace(s);
    if t == [] || t[0] != '}' {
      var u := ReadComma(t, first).value;
      var afterKey := ReadKey(u).value.1;
      ReadValueWellFormed(afterKey);
      ReadMembersWellFormed(ReadValue(afterKey).value.1, false);
    }
  }

  lemma ReadWellFormed(s: bytes)
    requires Read(s).Some?
    ensures WellFormed(Read(s).value)
  {
    ReadValueWellFormed(s);
  }
}
