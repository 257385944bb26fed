/**
 The JSON grammar of RFC 8259 as concrete syntax trees: every spelling of a value, with its white
 space and its choice of escapes. The reader accepts exactly these spellings, and the compact
 printer produces one of them, so reading undoes printing.
 */
module Grammar {
  import opened Basics
  import opened Text
  import opened Json

  /** One spelling of a character or escape inside a string. */
  datatype Glyph =
    | Plain(c: char)
    | Simple(escape: char)
    | Unicode(hex: bytes)
    | Surrogates(highHex: bytes, lowHex: bytes)

  datatype Syntax =
    | Atom(j: Json)
    | Quoted(glyphs: seq<Glyph>)
    | Bracket(items: seq<Item>, end: bytes)
    | Brace(fields: seq<Field>, end: bytes)

  // `sep` is the white space before the comma, `pre` what follows it.
  datatype Item = Item(sep: bytes, pre: bytes, value: Syntax)
  datatype Field = Field(sep: bytes, pre: bytes, key: seq<Glyph>, post: bytes, gap: bytes, value: Syntax)

  ghost predicate Space(s: bytes) {
    forall i | 0 <= i < |s| :: IsSpace(s[i])
  }

  // ----- strings -----

  ghost predicate ValidGlyph(g: Glyph) {
    match g
    case Plain(c) => c >= ' ' && c != '"' && c != '\\'
    case Simple(e) => SimpleEscape(e).Some?
    case Unicode(h) => |h| == 4 && HexQuad(h).Some? && !(0xD800 <= HexQuad(h).value < 0xE000)
    case Surrogates(h, l) =>
      && |h| == 4 && HexQuad(h).Some? && HighSurrogate(HexQuad(h).value)
      && |l| == 4 && HexQuad(l).Some? && LowSurrogate(HexQuad(l).value)
  }

  ghost predicate ValidGlyphs(gs: seq<Glyph>) {
    forall i | 0 <= i < |gs| :: ValidGlyph(gs[i])
  }

  ghost function GlyphText(g: Glyph): bytes {
    match g
    case Plain(c) => [c]
    case Simple(e) => ['\\', e]
    case Unicode(h) => "\\u" + h
    case Surrogates(h, l) => "\\u" + (h + ("\\u" + l))
  }

  ghost function GlyphMeaning(g: Glyph): bytes
    requires ValidGlyph(g)
  {
    match g
    case Plain(c) => [c]
    case Simple(e) => [SimpleEscape(e).value]
    case Unicode(h) => EncodeUtf8(HexQuad(h).value)
    case Surrogates(h, l) => EncodeUtf8(JoinSurrogates(HexQuad(h).value, HexQuad(l).value))
  }

  ghost function Spell(gs: seq<Glyph>): bytes {
    if gs == [] then [] else GlyphText(gs[0]) + Spell(gs[1..])
  }

  ghost function Spoken(gs: seq<Glyph>): bytes
    requires ValidGlyphs(gs)
  {
    if gs == [] then [] else GlyphMeaning(gs[0]) + Spoken(gs[1..])
  }

  lemma HexQuadPrefix(h: bytes, rest: bytes)
    requires |h| == 4
    ensures HexQuad(h + rest) == HexQuad(h)
  {
  }

  lemma ReadSurrogates(s: bytes, h: bytes, l: bytes, rest: bytes)
    requires ValidGlyph(Surrogates(h, l)) && s == "u" + (h + ("\\u" + (l + rest)))
    ensures ReadEscape(s) == Some((GlyphMeaning(Surrogates(h, l)), rest))
  {
    var t := "\\u" + (l + rest);
    HexQuadPrefix(h, t);
    HexQuadPrefix(l, rest);
    assert s[1..] == h + t;
    assert s[5..] == t;
    assert s[5] == t[0] && s[6] == t[1] && s[7..] == t[2..] == l + rest && s[11..] == rest;
  }

  lemma ReadUnicode(h: bytes, rest: bytes)
    requires ValidGlyph(Unicode(h))
    ensures ReadEscape("u" + (h + rest)) == Some((GlyphMeaning(Unicode(h)), rest))
  {
    var s := "u" + (h + rest);
    HexQuadPrefix(h, rest);
    assert s[1..] == h + rest && s[5..] == rest;
  }

  lemma ReadGlyph(g: Glyph, rest: bytes)
    requires ValidGlyph(g) && !g.Plain?
    ensures GlyphText(g)[0] == '\\'
    ensures ReadEscape((GlyphText(g) + rest)[1..]) == Some((GlyphMeaning(g), rest))
  {
    match g
    case Simple(e) => assert (GlyphText(g) + rest)[1..] == [e] + rest;
    case Unicode(h) =>
      ReadUnicode(h, rest);
      AfterBackslash("u", h, rest);
    case Surrogates(h, l) =>
      SurrogatesTail(h, l, rest);
      ReadSurrogates((GlyphText(g) + rest)[1..], h, l, rest);
  }

  lemma SurrogatesTail(h: bytes, l: bytes, rest: bytes)
    ensures (GlyphText(Surrogates(h, l)) + rest)[1..] == "u" + (h + ("\\u" + (l + rest)))
  {
  }

  lemma AfterBackslash(u: bytes, tail: bytes, rest: bytes)
    requires u == "u"
    ensures ("\\u" + tail + rest)[1..] == u + (tail + rest)
  {
  }

  lemma {:induction false} ReadSpelled(gs: seq<Glyph>, rest: bytes)
    requires ValidGlyphs(gs)
    ensures ReadChars(Spell(gs) + "\"" + rest) == Some((Spoken(gs), rest))
  {
    var s := Spell(gs) + "\"" + rest;
    if gs == [] {
      assert s == "\"" + rest;
    } else {
      var g, after := gs[0], Spell(gs[1..]) + "\"" + rest;
      assert s == GlyphText(g) + after;
      ReadSpelled(gs[1..], rest);
      if g.Plain? {
        assert s[1..] == after;
      } else {
        ReadGlyph(g, after);
        assert s[0] == GlyphText(g)[0];
      }
    }
  }

  lemma {:induction false} SpellRead(s: bytes) returns (gs: seq<Glyph>)
    requires ReadChars(s).Some?
    ensures ValidGlyphs(gs) && Spoken(gs) == ReadChars(s).value.0
    ensures s == Spell(gs) + ("\"" + ReadChars(s).value.1)
    decreases |s|
  {
    if s[0] == '"' {
      gs := [];
    } else {
      var g, after := SpellOne(s);
      var tail := SpellRead(after);
      gs := [g] + tail;
      SpellCons(g, tail, "\"" + ReadChars(s).value.1);
      assert gs[1..] == tail;
    }
  }

  lemma SpellCons(g: Glyph, tail: seq<Glyph>, end: bytes)
    ensures Spell([g] + tail) + end == GlyphText(g) + (Spell(tail) + end)
  {
    assert ([g] + tail)[1..] == tail;
    assert GlyphText(g) + (Spell(tail) + end) == GlyphText(g) + Spell(tail) + end;
  }

  lemma SpellOne(s: bytes) returns (g: Glyph, after: bytes)
    requires ReadChars(s).Some? && s[0] != '"'
    ensures ValidGlyph(g) && s == GlyphText(g) + after && |after| < |s| && ReadChars(after).Some?
    ensures ReadChars(s).value == (GlyphMeaning(g) + ReadChars(after).value.0, ReadChars(after).value.1)
  {
    if s[0] == '\\' {
      after := ReadEscape(s[1..]).value.1;
      g := SpellEscape(s[1..]);
      assert s == "\\" + s[1..];
    } else {
      g, after := Plain(s[0]), s[1..];
    }
  }

  lemma SpellEscape(s: bytes) returns (g: Glyph)
    requires ReadEscape(s).Some?
    ensures ValidGlyph(g) && GlyphMeaning(g) == ReadEscape(s).value.0
    ensures "\\" + s == GlyphText(g) + ReadEscape(s).value.1
  {
    if s[0] != 'u' {
      g := Simple(s[0]);
    } else if HighSurrogate(HexQuad(s[1..]).value) {
      g := SpellSurrogates(s);
    } else {
      var h := s[1..][..4];
      HexQuadPrefix(h, s[5..]);
      assert s[1..] == h + s[5..];
      g := Unicode(h);
    }
  }

  lemma SpellSurrogates(s: bytes) returns (g: Glyph)
    requires ReadEscape(s).Some? && s[0] == 'u' && HighSurrogate(HexQuad(s[1..]).value)
    ensures ValidGlyph(g) && GlyphMeaning(g) == ReadEscape(s).value.0
    ensures "\\" + s == GlyphText(g) + ReadEscape(s).value.1
  {
    var h, l, rest := s[1..5], s[7..11], s[11..];
    assert s[1..] == h + s[5..];
    HexQuadPrefix(h, s[5..]);
    assert s[7..] == l + rest;
    HexQuadPrefix(l, rest);
    g := Surrogates(h, l);
    SurrogatesSplit(s, h, l, rest);
  }

  lemma SurrogatesSplit(s: bytes, h: bytes, l: bytes, rest: bytes)
    requires |s| >= 11 && s[0] == 'u' && s[5] == '\\' && s[6] == 'u' && h == s[1..5] && l == s[7..11] && rest == s[11..]
    ensures "\\" + s == GlyphText(Surrogates(h, l)) + rest
  {
  }

  // ----- values -----

  ghost predicate IsAtom(j: Json) {
    j.Null? || j.Bool? || (j.Int? && I64_MIN <= j.n <= U64_MAX)
  }

  ghost predicate Valid(c: Syntax)
    decreases c
  {
    match c
    case Atom(j) => IsAtom(j)
    case Quoted(gs) => ValidGlyphs(gs) && ValidUtf8(Spoken(gs))
    case Bracket(items, end) => Space(end) && ValidItems(items, true)
    case Brace(fields, end) => Space(end) && ValidFields(fields, true)
  }

  ghost predicate ValidItems(items: seq<Item>, first: bool)
    decreases items
  {
    items == [] || (
      && Space(items[0].sep) && Space(items[0].pre) && (first ==> items[0].sep == [])
      && Valid(items[0].value) && ValidItems(items[1..], false))
  }

  ghost predicate ValidFields(fields: seq<Field>, first: bool)
    decreases fields
  {
    fields == [] || (
      && Space(fields[0].sep) && Space(fields[0].pre) && (first ==> fields[0].sep == [])
      && Space(fields[0].post) && Space(fields[0].gap)
      && ValidGlyphs(fields[0].key) && ValidUtf8(Spoken(fields[0].key))
      && Valid(fields[0].value) && ValidFields(fields[1..], false))
  }

  /** The bytes a syntax tree stands for. */
  ghost function Spelling(c: Syntax): bytes
    decreases c
  {
    match c
    case Atom(j) => if IsAtom(j) then Print(j) else []
    case Quoted(gs) => "\"" + Spell(gs) + "\""
    case Bracket(items, end) => "[" + ItemsSpelling(items, end, true)
    case Brace(fields, end) => "{" + FieldsSpelling(fields, end, true)
  }

  ghost function ItemsSpelling(items: seq<Item>, end: bytes, first: bool): bytes
    decreases items
  {
    if items == [] then end + "]"
    else
      items[0].sep + (if first then "" else ",")
      + (items[0].pre + (Spelling(items[0].value) + ItemsSpelling(items[1..], end, false)))
  }

  ghost function FieldsSpelling(fields: seq<Field>, end: bytes, first: bool): bytes
    decreases fields
  {
    if fields == [] then end + "}"
    else
      var f := fields[0];
      f.sep + (if first then "" else ",")
      + (f.pre + ("\"" + Spell(f.key) + "\"" + (f.post + (":"
      + (f.gap + (Spelling(f.value) + FieldsSpelling(fields[1..], end, false)))))))
  }

  /** The tree a syntax tree denotes. */
  ghost function Meaning(c: Syntax): Json
    requires Valid(c)
    decreases c
  {
    match c
    case Atom(j) => j
    case Quoted(gs) => Str(Spoken(gs))
    case Bracket(items, _) => Arr(ItemsMeaning(items, true))
    case Brace(fields, _) => Obj(FieldsMeaning(fields, true))
  }

  ghost function ItemsMeaning(items: seq<Item>, first: bool): seq<Json>
    requires ValidItems(items, first)
    decreases items
  {
    if items == [] then [] else [Meaning(items[0].value)] + ItemsMeaning(items[1..], false)
  }

  ghost function FieldsMeaning(fields: seq<Field>, first: bool): seq<Member>
    requires ValidFields(fields, first)
    decreases fields
  {
    if fields == [] then []
    else [Member(Spoken(fields[0].key), Meaning(fields[0].value))] + FieldsMeaning(fields[1..], false)
  }

  // ----- the reader accepts every spelling -----

  /** What may follow a number: nothing that would continue it. */
  ghost predicate Delimited(rest: bytes) {
    rest == [] || !(IsDigit(rest[0]) || rest[0] in ".eE")
  }

  lemma {:induction false} SkipSpaces(pre: bytes, s: bytes)
    requires Space(pre) && (s != [] ==> !IsSpace(s[0]))
    ensures SkipSpace(pre + s) == s
  {
    if pre == [] {
      assert pre + s == s;
    } else {
      assert (pre + s)[1..] == pre[1..] + s;
      SkipSpaces(pre[1..], s);
    }
  }

  lemma ReadPrintedNat(n: nat, rest: bytes)
    requires Delimited(rest)
    ensures IsDigit(Decimal(n)[0]) && ReadNat(Decimal(n) + rest) == Some((n, rest))
  {
    var s := Decimal(n) + rest;
    DecimalLeadingDigit(n);
    ReadDecimal(n, rest);
    assert s[0] == Decimal(n)[0] && Decimal(n)[0] in Decimal(n);
    if n == 0 {
      assert s[1..] == rest;
    } else {
      assert ReadDigits(0, s) == ReadDigits(DigitValue(s[0]), s[1..]);
    }
  }

  lemma ReadPrintedInt(n: int, rest: bytes)
    requires Delimited(rest) && I64_MIN <= n <= U64_MAX
    ensures ReadInt(PrintInt(n) + rest) == Some((n, rest))
    ensures PrintInt(n)[0] == '-' || IsDigit(PrintInt(n)[0])
  {
    if n < 0 {
      var m: nat := -n;
      ReadPrintedNat(m, rest);
      assert (PrintInt(n) + rest)[1..] == Decimal(m) + rest;
    } else {
      ReadPrintedNat(n, rest);
      assert (PrintInt(n) + rest)[0] == Decimal(n)[0];
    }
  }

  lemma ReadAtom(j: Json, rest: bytes)
    requires IsAtom(j) && Delimited(rest)
    ensures Print(j) != [] && !IsSpace(Print(j)[0]) && Print(j)[0] !in "]},"
    ensures ReadValue(Print(j) + rest) == Some((j, rest))
  {
    var s := Print(j) + rest;
    if j.Int? {
      ReadPrintedInt(j.n, rest);
      assert s[0] == PrintInt(j.n)[0];
      assert SkipSpace(s) == s;
    } else {
      assert s[..|Print(j)|] == Print(j) && s[|Print(j)|..] == rest;
      assert SkipSpace(s) == s;
    }
  }

  ghost predicate OpensValue(s: bytes) {
    s != [] && !IsSpace(s[0]) && s[0] !in "]},"
  }

  lemma SpellingOpens(c: Syntax)
    requires Valid(c)
    ensures OpensValue(Spelling(c))
  {
    if c.Atom? { ReadAtom(c.j, []); }
  }

  // One step of each reader, with the recursive results given.

  lemma ReadItemsStep(s: bytes, first: bool, u: bytes, item: Json, after: bytes, items: seq<Json>, rest: bytes)
    requires SkipSpace(s) == [] || SkipSpace(s)[0] != ']'
    requires ReadComma(SkipSpace(s), first) == Some(u) && ReadValue(u) == Some((item, after))
    requires ReadItems(after, false) == Some((items, rest))
    ensures ReadItems(s, first) == Some(([item] + items, rest))
  {
  }

  lemma ReadMembersStep(s: bytes, first: bool, u: bytes, key: bytes, v: bytes, value: Json, after: bytes,
                        ms: seq<Member>, rest: bytes)
    requires SkipSpace(s) == [] || SkipSpace(s)[0] != '}'
    requires ReadComma(SkipSpace(s), first) == Some(u) && ReadKey(u) == Some((key, v))
    requires ReadValue(v) == Some((value, after)) && ReadMembers(after, false) == Some((ms, rest))
    ensures ReadMembers(s, first) == Some(([Member(key, value)] + ms, rest))
  {
  }

  lemma ReadBracketStep(s: bytes, rest: bytes, items: seq<Json>)
    requires ReadItems(s + rest, true) == Some((items, rest))
    ensures ReadValue("[" + s + rest) == Some((Arr(items), rest))
  {
    assert ("[" + s + rest)[1..] == s + rest;
  }

  lemma ReadBraceStep(s: bytes, rest: bytes, ms: seq<Member>)
    requires ReadMembers(s + rest, true) == Some((ms, rest))
    ensures ReadValue("{" + s + rest) == Some((Obj(ms), rest))
  {
    assert ("{" + s + rest)[1..] == s + rest;
  }

  lemma ReadQuoteStep(s: bytes, rest: bytes, cs: bytes)
    requires ReadString(s + "\"" + rest) == Some((cs, rest))
    ensures ReadValue("\"" + s + "\"" + rest) == Some((Str(cs), rest))
  {
    assert ("\"" + s + "\"" + rest)[1..] == s + "\"" + rest;
  }

  lemma ReadValueSkips(pre: bytes, s: bytes)
    requires Space(pre) && (s != [] ==> !IsSpace(s[0]))
    ensures ReadValue(pre + s) == ReadValue(s)
  {
    SkipSpaces(pre, s);
    SkipSpaces([], s);
    assert [] + s == s;
  }

  /** Completeness: whatever the spelling, reading it gives what it denotes. */
  lemma {:induction false} ReadSpelling(c: Syntax, rest: bytes)
    requires Valid(c) && Delimited(rest)
    ensures ReadValue(Spelling(c) + rest) == Some((Meaning(c), rest))
    decreases c
  {
    match c
    case Atom(j) =>
      ReadAtom(j, rest);
    case Quoted(gs) =>
      ReadSpelled(gs, rest);
      ReadQuoteStep(Spell(gs), rest, Spoken(gs));
    case Bracket(items, end) =>
      ReadSpelledItems(items, end, true, rest);
      ReadBracketStep(ItemsSpelling(items, end, true), rest, ItemsMeaning(items, true));
    case Brace(fields, end) =>
      ReadSpelledFields(fields, end, true, rest);
      ReadBraceStep(FieldsSpelling(fields, end, true), rest, FieldsMeaning(fields, true));
  }

  /** What follows an element cannot continue a number. */
  lemma ItemsDelimited(items: seq<Item>, end: bytes, rest: bytes)
    requires Space(end) && ValidItems(items, false)
    ensures Delimited(ItemsSpelling(items, end, false) + rest)
  {
  }

  lemma FieldsDelimited(fields: seq<Field>, end: bytes, rest: bytes)
    requires Space(end) && ValidFields(fields, false)
    ensures Delimited(FieldsSpelling(fields, end, false) + rest)
  {
  }

  /** The comma and the white space around it. */
  lemma ReadSeparator(sep: bytes, pre: bytes, body: bytes, first: bool, close: char)
    requires Space(sep) && Space(pre) && (first ==> sep == [])
    requires body != [] && !IsSpace(body[0]) && body[0] != close && close != ','
    ensures var s := sep + (if first then "" else ",") + (pre + body);
            && SkipSpace(s) != [] && SkipSpace(s)[0] != close
            && ReadComma(SkipSpace(s), first) == Some(if first then body else pre + body)
  {
    if first {
      SkipSpaces(pre, body);
      assert sep + "" + (pre + body) == pre + body;
    } else {
      SkipSpaces(sep, "," + (pre + body));
      assert sep + "," + (pre + body) == sep + ("," + (pre + body));
      assert ("," + (pre + body))[1..] == pre + body;
    }
  }

  lemma {:induction false} ReadSpelledItems(items: seq<Item>, end: bytes, first: bool, rest: bytes)
    requires Space(end) && ValidItems(items, first)
    ensures ReadItems(ItemsSpelling(items, end, first) + rest, first) == Some((ItemsMeaning(items, first), rest))
    decreases items
  {
    var s := ItemsSpelling(items, end, first) + rest;
    if items == [] {
      assert s == end + ("]" + rest);
      SkipSpaces(end, "]" + rest);
      assert ("]" + rest)[1..] == rest;
    } else {
      var x := items[0];
      var tail := ItemsSpelling(items[1..], end, false) + rest;
      var body := Spelling(x.value) + tail;
      SpellingOpens(x.value);
      ItemsDelimited(items[1..], end, rest);
      ReadSpelling(x.value, tail);
      ReadSpelledItems(items[1..], end, false, rest);
      ReadSeparator(x.sep, x.pre, body, first, ']');
      ReadValueSkips(x.pre, body);
      ItemsSplit(items, end, first, rest);
      ReadItemsStep(s, first, if first then body else x.pre + body, Meaning(x.value), tail,
                    ItemsMeaning(items[1..], false), rest);
    }
  }

  lemma ItemsSplit(items: seq<Item>, end: bytes, first: bool, rest: bytes)
    requires items != []
    ensures ItemsSpelling(items, end, first) + rest ==
            items[0].sep + (if first then "" else ",")
            + (items[0].pre + (Spelling(items[0].value) + (ItemsSpelling(items[1..], end, false) + rest)))
  {
  }

  lemma {:induction false} ReadSpelledFields(fields: seq<Field>, end: bytes, first: bool, rest: bytes)
    requires Space(end) && ValidFields(fields, first)
    ensures ReadMembers(FieldsSpelling(fields, end, first) + rest, first) == Some((FieldsMeaning(fields, first), rest))
    decreases fields
  {
    var s := FieldsSpelling(fields, end, first) + rest;
    if fields == [] {
      assert s == end + ("}" + rest);
      SkipSpaces(end, "}" + rest);
      assert ("}" + rest)[1..] == rest;
    } else {
      var f := fields[0];
      var tail := FieldsSpelling(fields[1..], end, false) + rest;
      var body := f.gap + (Spelling(f.value) + tail);
      var keyed := "\"" + Spell(f.key) + "\"" + (f.post + (":" + body));
      SpellingOpens(f.value);
      FieldsDelimited(fields[1..], end, rest);
      ReadSpelling(f.value, tail);
      ReadValueSkips(f.gap, Spelling(f.value) + tail);
      ReadSpelledFields(fields[1..], end, false, rest);
      ReadSpelledKey(f.pre, f.key, f.post, body);
      ReadSpelledKey([], f.key, f.post, body);
      assert [] + keyed == keyed;
      ReadSeparator(f.sep, f.pre, keyed, first, '}');
      FieldsSplit(fields, end, first, rest);
      ReadMembersStep(s, first, if first then keyed else f.pre + keyed, Spoken(f.key), body,
                      Meaning(f.value), tail, FieldsMeaning(fields[1..], false), rest);
    }
  }

  lemma FieldsSplit(fields: seq<Field>, end: bytes, first: bool, rest: bytes)
    requires fields != []
    ensures var f := fields[0];
            FieldsSpelling(fields, end, first) + rest ==
            f.sep + (if first then "" else ",")
            + (f.pre + ("\"" + Spell(f.key) + "\"" + (f.post + (":"
            + (f.gap + (Spelling(f.value) + (FieldsSpelling(fields[1..], end, false) + rest)))))))
  {
    var f := fields[0];
    var tail := FieldsSpelling(fields[1..], end, false);
    var v := Spelling(f.value);
    assert v + tail + rest == v + (tail + rest);
    assert f.gap + (v + tail) + rest == f.gap + (v + (tail + rest));
    var a := f.gap + (v + tail);
    assert ":" + a + rest == ":" + (a + rest);
    assert f.post + (":" + a) + rest == f.post + (":" + (a + rest));
    var k := "\"" + Spell(f.key) + "\"";
    var b := f.post + (":" + a);
    assert k + b + rest == k + (b + rest);
    assert f.pre + (k + b) + rest == f.pre + (k + (b + rest));
  }

  lemma ReadSpelledKey(pre: bytes, key: seq<Glyph>, post: bytes, body: bytes)
    requires Space(pre) && Space(post) && ValidGlyphs(key) && ValidUtf8(Spoken(key))
    ensures ReadKey(pre + ("\"" + Spell(key) + "\"" + (post + (":" + body)))) == Some((Spoken(key), body))
  {
    var after := post + (":" + body);
    var u := Spell(key) + "\"" + after;
    QuoteFirst(Spell(key), after);
    SkipSpaces(pre, "\"" + u);
    ReadSpelled(key, after);
    SkipSpaces(post, ":" + body);
    ReadKeyStep(pre + ("\"" + u), u, Spoken(key), after, body);
  }

  lemma QuoteFirst(s: bytes, after: bytes)
    ensures "\"" + s + "\"" + after == "\"" + (s + "\"" + after)
  {
  }

  lemma ReadKeyStep(s: bytes, u: bytes, key: bytes, after: bytes, body: bytes)
    requires SkipSpace(s) == "\"" + u && ReadString(u) == Some((key, after)) && SkipSpace(after) == ":" + body
    ensures ReadKey(s) == Some((key, body))
  {
    assert ("\"" + u)[1..] == u;
    assert (":" + body)[1..] == body;
  }

  // ----- the reader accepts nothing else -----

  lemma {:induction false} SplitSpace(s: bytes) returns (pre: bytes)
    ensures Space(pre) && s == pre + SkipSpace(s)
  {
    if s != [] && IsSpace(s[0]) {
      var tail := SplitSpace(s[1..]);
      pre := [s[0]] + tail;
    } else {
      pre := [];
    }
  }

  lemma {:induction false} DigitsRead(acc: nat, s: bytes)
    requires acc > 0
    ensures Decimal(acc) + s == Decimal(ReadDigits(acc, s).0) + ReadDigits(acc, s).1
    decreases |s|
  {
    if s != [] && IsDigit(s[0]) {
      var next := acc * 10 + DigitValue(s[0]);
      assert next / 10 == acc && next % 10 == DigitValue(s[0]);
      assert Decimal(next) == Decimal(acc) + [s[0]];
      DigitsRead(next, s[1..]);
      assert Decimal(acc) + s == Decimal(next) + s[1..];
    }
  }

  lemma NatRead(s: bytes)
    requires ReadNat(s).Some?
    ensures s == Decimal(ReadNat(s).value.0) + ReadNat(s).value.1
  {
    if s[0] == '0' {
      assert Decimal(0) == "0";
    } else {
      var d := DigitValue(s[0]);
      DigitsRead(d, s[1..]);
      assert Decimal(d) == [s[0]];
      assert s == Decimal(d) + s[1..];
    }
  }

  lemma IntRead(s: bytes)
    requires ReadInt(s).Some?
    ensures s == PrintInt(ReadInt(s).value.0) + ReadInt(s).value.1
  {
    if s[0] == '-' {
      NatRead(s[1..]);
      assert s == "-" + s[1..];
    } else {
      NatRead(s);
    }
  }

  /** Soundness: whatever is read is a spelling of the tree it was read as. */
  lemma {:induction false} SpellValue(s: bytes) returns (pre: bytes, c: Syntax)
    requires ReadValue(s).Some?
    ensures Space(pre) && Valid(c) && Meaning(c) == ReadValue(s).value.0
    ensures s == pre + (Spelling(c) + ReadValue(s).value.1)
    decreases |s|, 0
  {
    pre := SplitSpace(s);
    var t := SkipSpace(s);
    if t[0] == '"' {
      c := SpellQuoted(t[1..]);
    } else if t[0] == '[' {
      c := SpellBracket(t[1..]);
    } else if t[0] == '{' {
      c := SpellBrace(t[1..]);
    } else {
      c := SpellAtom(s);
    }
    assert t == [t[0]] + t[1..];
  }

  lemma {:induction false} SpellBracket(u: bytes) returns (c: Syntax)
    requires ReadItems(u, true).Some?
    ensures Valid(c) && Meaning(c) == Arr(ReadItems(u, true).value.0)
    ensures "[" + u == Spelling(c) + ReadItems(u, true).value.1
    decreases |u|, 2
  {
    var items, end := SpellItems(u, true);
    c := Bracket(items, end);
  }

  lemma {:induction false} SpellBrace(u: bytes) returns (c: Syntax)
    requires ReadMembers(u, true).Some?
    ensures Valid(c) && Meaning(c) == Obj(ReadMembers(u, true).value.0)
    ensures "{" + u == Spelling(c) + ReadMembers(u, true).value.1
    decreases |u|, 2
  {
    var fields, end := SpellFields(u, true);
    c := Brace(fields, end);
  }

  lemma SpellAtom(s: bytes) returns (c: Syntax)
    requires ReadValue(s).Some? && SkipSpace(s)[0] !in "\"[{"
    ensures Valid(c) && Meaning(c) == ReadValue(s).value.0
    ensures SkipSpace(s) == Spelling(c) + ReadValue(s).value.1
  {
    var t := SkipSpace(s);
    c := Atom(ReadValue(s).value.0);
    if t[0] !in "ntf" {
      IntRead(t);
    }
  }

  lemma SpellQuoted(u: bytes) returns (c: Syntax)
    requires ReadString(u).Some?
    ensures Valid(c) && Meaning(c) == Str(ReadString(u).value.0)
    ensures "\"" + u == Spelling(c) + ReadString(u).value.1
  {
    var gs := SpellRead(u);
    c := Quoted(gs);
  }

  lemma {:induction false} SpellItems(s: bytes, first: bool) returns (items: seq<Item>, end: bytes)
    requires ReadItems(s, first).Some?
    ensures Space(end) && ValidItems(items, first) && ItemsMeaning(items, first) == ReadItems(s, first).value.0
    ensures s == ItemsSpelling(items, end, first) + ReadItems(s, first).value.1
    decreases |s|, 1
  {
    var sep := SplitSpace(s);
    var t := SkipSpace(s);
    if t[0] == ']' {
      items, end := [], sep;
    } else {
      var u := ReadComma(t, first).value;
      var pre, c := SpellValue(u);
      var after := ReadValue(u).value.1;
      var tail;
      tail, end := SpellItems(after, false);
      var x := if first then Item([], sep + pre, c) else Item(sep, pre, c);
      items := [x] + tail;
      JoinItem(x, tail, end, first, ReadItems(after, false).value.1);
      JoinSeparator(s, sep, pre, Spelling(c) + after, first, ']');
    }
  }

  lemma JoinItem(x: Item, tail: seq<Item>, end: bytes, first: bool, rest: bytes)
    requires Space(x.sep) && Space(x.pre) && (first ==> x.sep == []) && Valid(x.value) && ValidItems(tail, false)
    ensures ValidItems([x] + tail, first)
    ensures ItemsMeaning([x] + tail, first) == [Meaning(x.value)] + ItemsMeaning(tail, false)
    ensures ItemsSpelling([x] + tail, end, first) + rest ==
            x.sep + (if first then "" else ",") + (x.pre + (Spelling(x.value) + (ItemsSpelling(tail, end, false) + rest)))
  {
    assert ([x] + tail)[1..] == tail;
    ItemsSplit([x] + tail, end, first, rest);
  }

  lemma JoinSeparator(s: bytes, sep: bytes, pre: bytes, body: bytes, first: bool, close: char)
    requires s == sep + SkipSpace(s) && SkipSpace(s) != [] && SkipSpace(s)[0] != close
    requires ReadComma(SkipSpace(s), first) == Some(pre + body)
    ensures s == if first then [] + "" + ((sep + pre) + body) else sep + "," + (pre + body)
  {
    var t := SkipSpace(s);
    if first {
      assert sep + (pre + body) == (sep + pre) + body;
    } else {
      assert t == "," + t[1..];
    }
  }

  lemma {:induction false} SpellFields(s: bytes, first: bool) returns (fields: seq<Field>, end: bytes)
    requires ReadMembers(s, first).Some?
    ensures Space(end) && ValidFields(fields, first) && FieldsMeaning(fields, first) == ReadMembers(s, first).value.0
    ensures s == FieldsSpelling(fields, end, first) + ReadMembers(s, first).value.1
    decreases |s|, 1
  {
    var sep := SplitSpace(s);
    var t := SkipSpace(s);
    if t[0] == '}' {
      fields, end := [], sep;
    } else {
      var u := ReadComma(t, first).value;
      var (key, v) := ReadKey(u).value;
      var pre, gs, post := SpellKey(u);
      var gap, c := SpellValue(v);
      var after := ReadValue(v).value.1;
      var tail;
      tail, end := SpellFields(after, false);
      var f := if first then Field([], sep + pre, gs, post, gap, c) else Field(sep, pre, gs, post, gap, c);
      fields := [f] + tail;
      JoinField(f, tail, end, first, ReadMembers(after, false).value.1);
      JoinSeparator(s, sep, pre, "\"" + Spell(gs) + "\"" + (post + (":" + v)), first, '}');
    }
  }

  lemma JoinField(f: Field, tail: seq<Field>, end: bytes, first: bool, rest: bytes)
    requires Space(f.sep) && Space(f.pre) && (first ==> f.sep == []) && Space(f.post) && Space(f.gap)
    requires ValidGlyphs(f.key) && ValidUtf8(Spoken(f.key)) && Valid(f.value) && ValidFields(tail, false)
    ensures ValidFields([f] + tail, first)
    ensures FieldsMeaning([f] + tail, first) == [Member(Spoken(f.key), Meaning(f.value))] + FieldsMeaning(tail, false)
    ensures FieldsSpelling([f] + tail, end, first) + rest ==
            f.sep + (if first then "" else ",")
            + (f.pre + ("\"" + Spell(f.key) + "\"" + (f.post + (":"
            + (f.gap + (Spelling(f.value) + (FieldsSpelling(tail, end, false) + rest)))))))
  {
    assert ([f] + tail)[1..] == tail;
    FieldsSplit([f] + tail, end, first, rest);
  }

  lemma SpellKey(u: bytes) returns (pre: bytes, gs: seq<Glyph>, post: bytes)
    requires ReadKey(u).Some?
    ensures Space(pre) && Space(post) && ValidGlyphs(gs) && Spoken(gs) == ReadKey(u).value.0
    ensures u == pre + ("\"" + Spell(gs) + "\"" + (post + (":" + ReadKey(u).value.1)))
  {
    pre := SplitSpace(u);
    var t := SkipSpace(u);
    var afterKey := ReadString(t[1..]).value.1;
    gs := SpellRead(t[1..]);
    post := SplitSpace(afterKey);
    var v := ReadKey(u).value.1;
    assert SkipSpace(afterKey) == ":" + v;
    KeyLayout(u, pre, t, Spell(gs), afterKey, post, v);
  }

  lemma KeyLayout(u: bytes, pre: bytes, t: bytes, body: bytes, afterKey: bytes, post: bytes, v: bytes)
    requires u == pre + t && t != [] && t[0] == '"' && t[1..] == body + ("\"" + afterKey) && afterKey == post + (":" + v)
    ensures u == pre + ("\"" + body + "\"" + (post + (":" + v)))
  {
    assert t == "\"" + t[1..];
    assert t == "\"" + body + "\"" + afterKey;
  }

  /** The document `s` is some spelling of `j` with white space around it. */
  ghost predicate Spells(s: bytes, pre: bytes, c: Syntax, post: bytes, j: Json) {
    && s == pre + (Spelling(c) + post) && Space(pre) && Space(post)
    && Valid(c) && Meaning(c) == j
  }

  /** The reader accepts exactly the documents of the grammar, each as the one tree it denotes. */
  lemma ReadExact(s: bytes, j: Json)
    ensures Read(s) == Some(j) <==> exists pre, c, post :: Spells(s, pre, c, post, j)
  {
    if Read(s) == Some(j) {
      var pre, c := SpellValue(s);
      var rest := ReadValue(s).value.1;
      var post := SplitSpace(rest);
      assert Spells(s, pre, c, rest, j);
    }
    forall pre, c, post | Spells(s, pre, c, post, j) ensures Read(s) == Some(j) {
      SpellingOpens(c);
      ReadSpelling(c, post);
      ReadValueSkips(pre, Spelling(c) + post);
      SkipSpaces(post, []);
      assert post + [] == post;
    }
  }

  // ----- the compact printer writes one of the spellings -----

  ghost function CanonicalGlyph(c: char): Glyph {
    if c == '"' || c == '\\' then Simple(c)
    else if c in CONTROL_ESCAPES then Simple(CONTROL_ESCAPES[c])
    else if c < ' ' then Unicode("00" + [HexDigit(c as int / 16), HexDigit(c as int % 16)])
    else Plain(c)
  }

  lemma CanonicalGlyphValid(c: char)
    ensures ValidGlyph(CanonicalGlyph(c))
    ensures GlyphMeaning(CanonicalGlyph(c)) == [c] && GlyphText(CanonicalGlyph(c)) == EscapeChar(c)
  {
    if c < ' ' && c !in CONTROL_ESCAPES {
      var h := "00" + [HexDigit(c as int / 16), HexDigit(c as int % 16)];
      assert HexQuad(h) == Some(c as int);
    }
  }

  ghost function CanonicalGlyphs(s: bytes): seq<Glyph> {
    if s == [] then [] else [CanonicalGlyph(s[0])] + CanonicalGlyphs(s[1..])
  }

  lemma {:induction false} CanonicalGlyphsValid(s: bytes)
    ensures ValidGlyphs(CanonicalGlyphs(s))
    ensures Spoken(CanonicalGlyphs(s)) == s && Spell(CanonicalGlyphs(s)) == Escape(s)
  {
    if s != [] {
      CanonicalGlyphValid(s[0]);
      CanonicalGlyphsValid(s[1..]);
      assert CanonicalGlyphs(s)[1..] == CanonicalGlyphs(s[1..]);
    }
  }

  ghost function Canonical(j: Json): Syntax
    decreases j
  {
    match j
    case Str(s) => Quoted(CanonicalGlyphs(s))
    case Arr(items) => Bracket(CanonicalItems(items), [])
    case Obj(ms) => Brace(CanonicalFields(ms), [])
    case _ => Atom(j)
  }

  ghost function CanonicalItems(items: seq<Json>): seq<Item>
    decreases items
  {
    if items == [] then [] else [Item([], [], Canonical(items[0]))] + CanonicalItems(items[1..])
  }

  ghost function CanonicalFields(ms: seq<Member>): seq<Field>
    decreases ms
  {
    if ms == [] then []
    else [Field([], [], CanonicalGlyphs(ms[0].key), [], [], Canonical(ms[0].value))] + CanonicalFields(ms[1..])
  }

  lemma {:induction false} CanonicalPrints(j: Json)
    requires WellFormed(j)
    ensures Valid(Canonical(j)) && Meaning(Canonical(j)) == j && Spelling(Canonical(j)) == Print(j)
    decreases j
  {
    match j
    case Str(s) => CanonicalGlyphsValid(s);
    case Arr(items) => CanonicalItemsPrint(items, true);
    case Obj(ms) => CanonicalFieldsPrint(ms, true);
    case _ =>
  }

  lemma CompactItem(c: Syntax, tail: seq<Item>, first: bool)
    requires Valid(c) && ValidItems(tail, false)
    ensures ValidItems([Item([], [], c)] + tail, first)
    ensures ItemsMeaning([Item([], [], c)] + tail, first) == [Meaning(c)] + ItemsMeaning(tail, false)
    ensures ItemsSpelling([Item([], [], c)] + tail, [], first) ==
            (if first then "" else ",") + (Spelling(c) + ItemsSpelling(tail, [], false))
  {
    assert ([Item([], [], c)] + tail)[1..] == tail;
    assert forall x: bytes :: [] + x == x;
  }

  lemma CompactField(key: seq<Glyph>, c: Syntax, tail: seq<Field>, first: bool)
    requires ValidGlyphs(key) && ValidUtf8(Spoken(key)) && Valid(c) && ValidFields(tail, false)
    ensures ValidFields([Field([], [], key, [], [], c)] + tail, first)
    ensures FieldsMeaning([Field([], [], key, [], [], c)] + tail, first) ==
            [Member(Spoken(key), Meaning(c))] + FieldsMeaning(tail, false)
    ensures FieldsSpelling([Field([], [], key, [], [], c)] + tail, [], first) ==
            (if first then "" else ",")
            + ("\"" + Spell(key) + "\"" + (":" + (Spelling(c) + FieldsSpelling(tail, [], false))))
  {
    assert ([Field([], [], key, [], [], c)] + tail)[1..] == tail;
    DropEmpties(if first then "" else ",", "\"" + Spell(key) + "\"", Spelling(c) + FieldsSpelling(tail, [], false));
  }

  lemma DropEmpties(comma: bytes, key: bytes, rest: bytes)
    ensures [] + comma + ([] + (key + ([] + (":" + ([] + rest))))) == comma + (key + (":" + rest))
  {
  }

  lemma {:induction false} CanonicalItemsPrint(items: seq<Json>, first: bool)
    requires forall i | 0 <= i < |items| :: WellFormed(items[i])
    ensures ValidItems(CanonicalItems(items), first) && ItemsMeaning(CanonicalItems(items), first) == items
    ensures ItemsSpelling(CanonicalItems(items), [], first) == PrintItems(items, first)
    decreases items
  {
    if items != [] {
      CanonicalPrints(items[0]);
      CanonicalItemsPrint(items[1..], false);
      CompactItem(Canonical(items[0]), CanonicalItems(items[1..]), first);
    }
  }

  lemma {:induction false} CanonicalFieldsPrint(ms: seq<Member>, first: bool)
    requires WellFormedMembers(ms)
    ensures ValidFields(CanonicalFields(ms), first) && FieldsMeaning(CanonicalFields(ms), first) == ms
    ensures FieldsSpelling(CanonicalFields(ms), [], first) == PrintMembers(ms, first)
    decreases ms
  {
    if ms != [] {
      CanonicalGlyphsValid(ms[0].key);
      CanonicalPrints(ms[0].value);
      CanonicalFieldsPrint(ms[1..], false);
      CompactField(CanonicalGlyphs(ms[0].key), Canonical(ms[0].value), CanonicalFields(ms[1..]), first);
    }
  }

  /** Reading undoes printing, for every well-formed tree. */
  lemma ReadPrinted(j: Json)
    requires WellFormed(j)
    ensures Read(Print(j)) == Some(j)
  {
    CanonicalPrints(j);
    var c := Canonical(j);
    assert Spelling(c) == [] + (Spelling(c) + []);
    assert Spells(Spelling(c), [], c, [], j);
    ReadExact(Spelling(c), j);
  }

  /** Different well-formed trees print differently. */
  lemma PrintInjective(i: Json, j: Json)
    requires WellFormed(i) && WellFormed(j) && Print(i) == Print(j)
    ensures i == j
  {
    ReadPrinted(i);
    ReadPrinted(j);
  }
}
