/** Operator keys and deterministic document signing. */
module Signing {
  import opened Basics
  import opened Text
  import opened Json
  import opened Objects
  import opened Canonical

  /**
   SHA-256, Ed25519 and the URI rules as given functions. The laws ask only that outputs have
   their fixed size and that a signature made with a key verifies under its public key. Nothing
   says that digests never collide: theorems that need it name the byte strings concerned.
   */
  datatype Primitives = Primitives(
    hash: bytes -> bytes,
    publicKey: bytes -> bytes,
    sign: (bytes, bytes) -> bytes,
    verify: (bytes, bytes, bytes) -> bool,
    validUri: bytes -> bool)

  ghost predicate Sized(b: bytes, n: nat) {
    |b| == n && IsBytes(b)
  }

  ghost predicate Lawful(c: Primitives) {
    && (forall m :: Sized(c.hash(m), 32))
    && (forall k :: Sized(c.publicKey(k), 32))
    && (forall k, m :: Sized(c.sign(k, m), 64))
    && (forall k, m :: c.verify(c.publicKey(k), m, c.sign(k, m)))
  }

  type Platform = c: Primitives | Lawful(c) witness Primitives(
    _ => seq(32, _ => 'x'), _ => seq(32, _ => 'x'), (_, _) => seq(64, _ => 'x'), (_, _, _) => true, _ => true)

  function StripPrefix(s: bytes, prefix: bytes): (r: Option<bytes>)
    ensures r.Some? <==> StartsWith(s, prefix)
    ensures r.Some? ==> s == prefix + r.value
  {
    if StartsWith(s, prefix) then Some(s[|prefix|..]) else None
  }

  predicate LowerHex64(s: bytes) {
    |s| == 64 && forall i | 0 <= i < |s| :: IsHexDigit(s[i])
  }

  // ----- digests -----

  const DIGEST_PREFIX: bytes := "sha256:"

  /** `sha256:<64 lowercase hex>`. */
  function Digest(c: Platform, b: bytes): bytes {
    assert Sized(c.hash(b), 32);
    DIGEST_PREFIX + HexEncode(c.hash(b))
  }

  lemma DigestValid(c: Platform, b: bytes)
    ensures ValidDigest(Digest(c, b))
  {
    assert Sized(c.hash(b), 32);
    var d := Digest(c, b);
    assert StartsWith(d, DIGEST_PREFIX) && d[|DIGEST_PREFIX|..] == HexEncode(c.hash(b));
    HexEncodeDigits(c.hash(b));
  }

  predicate ValidDigest(value: bytes) {
    var hex := StripPrefix(value, DIGEST_PREFIX);
    hex.Some? && LowerHex64(hex.value)
  }

  // ----- operator keys -----

  const KEY_PREFIX: bytes := "onym:key:"

  function OperatorId(publicKey: bytes): bytes
    requires IsBytes(publicKey)
  {
    KEY_PREFIX + HexEncode(publicKey)
  }

  function ParseOperatorKey(value: bytes): (r: Option<bytes>)
    ensures r.Some? ==> Sized(r.value, 32)
  {
    var hex :- StripPrefix(value, KEY_PREFIX);
    if LowerHex64(hex) then Some(HexDecode(hex)) else None
  }

  lemma {:induction false} HexEncodeDecoded(s: bytes)
    requires |s| % 2 == 0 && forall i | 0 <= i < |s| :: IsHexDigit(s[i])
    ensures HexEncode(HexDecode(s)) == s
  {
    if s != [] {
      HexEncodeDecoded(s[2..]);
      var b := HexDecode(s);
      assert b[1..] == HexDecode(s[2..]);
      HexDigitOfValue(s[0]);
      HexDigitOfValue(s[1]);
      assert b[0] as int / 16 == HexValue(s[0]) && b[0] as int % 16 == HexValue(s[1]);
    }
  }

  lemma HexDigitOfValue(c: char)
    requires IsHexDigit(c)
    ensures HexDigit(HexValue(c)) == c
  {
  }

  /** Operator ids and 32-byte public keys are in one-to-one correspondence. */
  lemma OperatorIdExact(value: bytes, key: bytes)
    ensures ParseOperatorKey(value) == Some(key) <==> Sized(key, 32) && value == OperatorId(key)
  {
    if Sized(key, 32) && value == OperatorId(key) {
      assert StripPrefix(value, KEY_PREFIX).value == HexEncode(key);
      HexRoundTrip(key);
    }
    if ParseOperatorKey(value) == Some(key) {
      HexEncodeDecoded(StripPrefix(value, KEY_PREFIX).value);
    }
  }

  // ----- signatures -----

  function Sign(c: Platform, key: bytes, message: bytes): bytes {
    assert Sized(c.sign(key, message), 64);
    Base64(c.sign(key, message))
  }

  /** The 64 signature bytes, padded or unpadded on read. */
  function DecodeSignature(text: bytes): Option<bytes> {
    var padded := DecodePadded(text);
    var raw :- if padded.Some? then padded else DecodeUnpadded(text);
    if |raw| == 64 then Some(raw) else None
  }

  function Verifies(c: Platform, publicKey: bytes, message: bytes, signature: bytes): bool {
    var raw := DecodeSignature(signature);
    raw.Some? && c.verify(publicKey, message, raw.value)
  }

  lemma SignaturePadding(raw: bytes)
    requires Sized(raw, 64)
    ensures Base64(raw) == Base64Unpadded(raw) + "=="
    ensures DecodePadded(Base64Unpadded(raw)) == None
  {
    assert |Base64Unpadded(raw)| % 4 == 2;
  }

  /** Exactly two texts decode to a given signature: its padded and its unpadded encoding. */
  lemma SignatureSpellings(text: bytes, raw: bytes)
    ensures DecodeSignature(text) == Some(raw) <==>
            Sized(raw, 64) && (text == Base64(raw) || text == Base64Unpadded(raw))
  {
    PaddedExact(text, raw);
    UnpaddedExact(text, raw);
    if Sized(raw, 64) {
      SignaturePadding(raw);
    }
    if DecodePadded(text).Some? {
      PaddedExact(text, DecodePadded(text).value);
    }
  }

  lemma SignedVerifies(c: Platform, key: bytes, message: bytes)
    ensures Verifies(c, c.publicKey(key), message, Sign(c, key, message))
  {
    assert Sized(c.sign(key, message), 64);
    SignatureSpellings(Sign(c, key, message), c.sign(key, message));
  }

  lemma SignIsText(c: Platform, key: bytes, message: bytes)
    ensures ValidUtf8(Sign(c, key, message))
  {
    var raw := c.sign(key, message);
    assert Sized(raw, 64);
    Base64Ascii(raw);
    AsciiIsUtf8(Sign(c, key, message));
  }

  lemma {:induction false} Base64Ascii(b: bytes)
    requires IsBytes(b)
    ensures Ascii(Base64Unpadded(b)) && Ascii(Base64(b))
  {
    if |b| >= 3 {
      Base64Ascii(b[3..]);
    }
  }

  // ----- documents -----

  /** Drop any signature, sign the canonical bytes, embed the new signature, print. */
  function SignDocument(c: Platform, raw: bytes, key: bytes): Option<bytes> {
    var message :- SigningBytes(raw);
    var signature := Sign(c, key, message);
    var j :- Read(message);
    match Normal(j)
    case Obj(ms) => Some(Print(Obj(Insert(ms, SIGNATURE, Str(signature)))))
    case _ => None
  }

  /** The signer: computes the signing bytes, reads them back, inserts the signature into the tree, prints. */
  method SignInto(c: Platform, raw: bytes, key: bytes) returns (r: Option<bytes>)
    ensures r == SignDocument(c, raw, key)
  {
    var message := ComputeCanonicalBytes(raw, [SIGNATURE]);
    if message.None? { return None; }
    var signature := Sign(c, key, message.value);
    var value := Read(message.value);
    if value.None? || !Normal(value.value).Obj? { return None; }
    var fields := Normal(value.value).members;
    fields := Insert(fields, SIGNATURE, Str(signature));
    r := Some(Print(Obj(fields)));
  }

  /** The tree that signing publishes. */
  ghost function SignedTree(c: Platform, raw: bytes, key: bytes): Json
    requires SigningBytes(raw).Some?
  {
    var content := Signed(raw).value;
    Obj(Insert(content.members, SIGNATURE, Str(Sign(c, key, Print(content)))))
  }

  /** Signing succeeds on every document that has signing bytes, and publishes the signed tree. */
  lemma SignDocumentPrints(c: Platform, raw: bytes, key: bytes)
    requires SigningBytes(raw).Some?
    ensures SignDocument(c, raw, key) == Some(Print(SignedTree(c, raw, key)))
    ensures Value(SignedTree(c, raw, key))
  {
    var content := Signed(raw).value;
    ContentValue(raw, [SIGNATURE]);
    PrintedStrict(content);
    ValuesObject(content.members);
    SignIsText(c, key, Print(content));
    AsciiIsUtf8(SIGNATURE);
    InsertValues(content.members, SIGNATURE, Str(Sign(c, key, Print(content))));
    ValuesObject(SignedTree(c, raw, key).members);
  }

  lemma {:induction false} RemoveInserted(ms: seq<Member>, key: bytes, value: Json)
    requires AscendingKeys(ms) && Lookup(ms, key) == None
    ensures Remove(Insert(ms, key, value), key) == ms
  {
    InsertAscending(ms, key, value);
    var ns := Insert(ms, key, value);
    RemoveMembers(ns, key);
    forall q ensures Lookup(Remove(ns, key), q) == Lookup(ms, q) {
      RemoveLookup(ns, key, q);
      InsertLookup(ms, key, value, q);
    }
    SameLookups(Remove(ns, key), ms);
  }

  lemma ContentUnsigned(raw: bytes)
    requires SigningBytes(raw).Some?
    ensures Lookup(Signed(raw).value.members, SIGNATURE) == None
  {
    TopLevelAscending(raw);
    RemovedOnly(TopLevel(raw), SIGNATURE);
  }

  /** The signed document: canonical already, same signed content, and its signature in place. */
  lemma SignDocumentKeepsContent(c: Platform, raw: bytes, key: bytes)
    requires SigningBytes(raw).Some?
    ensures SignDocument(c, raw, key).Some?
    ensures var out := SignDocument(c, raw, key).value;
            && StrictRead(out) == Some(SignedTree(c, raw, key))
            && CanonicalBytes(out, []) == Some(out)
            && Signed(out) == Signed(raw) && SigningBytes(out) == SigningBytes(raw)
  {
    SignDocumentPrints(c, raw, key);
    var tree := SignedTree(c, raw, key);
    PrintedStrict(tree);
    var content := Signed(raw).value;
    ContentValue(raw, [SIGNATURE]);
    ContentUnsigned(raw);
    ValuesObject(content.members);
    RemoveInserted(content.members, SIGNATURE, Str(Sign(c, key, Print(content))));
    assert RemoveAll(tree.members, [SIGNATURE]) == RemoveAll(Remove(tree.members, SIGNATURE), []);
  }

  /** Signing depends only on signed content and key, and signing twice changes nothing. */
  lemma SignDocumentFixedPoint(c: Platform, a: bytes, b: bytes, key: bytes)
    requires SigningBytes(a).Some? && SigningBytes(a) == SigningBytes(b)
    ensures SignDocument(c, a, key).Some? && SignDocument(c, a, key) == SignDocument(c, b, key)
    ensures SignDocument(c, SignDocument(c, a, key).value, key) == SignDocument(c, a, key)
  {
    SignDocumentKeepsContent(c, a, key);
    SameMessage(c, a, b, key);
    SameMessage(c, SignDocument(c, a, key).value, a, key);
  }

  lemma SameMessage(c: Platform, a: bytes, b: bytes, key: bytes)
    requires SigningBytes(a) == SigningBytes(b)
    ensures SignDocument(c, a, key) == SignDocument(c, b, key)
  {
  }

  /** The signature embedded in a document: what `detached_signature` copies out. */
  function DetachedSignature(document: bytes): Option<bytes> {
    var j :- Read(document);
    match Normal(j)
    case Obj(ms) =>
      var v :- Lookup(ms, SIGNATURE);
      if v.Str? then Some(v.s) else None
    case _ => None
  }

  /** A published document carries a signature that verifies under the key named by the operator id. */
  lemma PublishedVerifies(c: Platform, raw: bytes, key: bytes)
    requires SigningBytes(raw).Some?
    ensures IsBytes(c.publicKey(key))
    ensures SignDocument(c, raw, key).Some?
    ensures var out := SignDocument(c, raw, key).value;
            var signature := DetachedSignature(out);
            var publicKey := ParseOperatorKey(OperatorId(c.publicKey(key)));
            && signature.Some? && publicKey.Some? && SigningBytes(out).Some?
            && signature.value == Sign(c, key, SigningBytes(raw).value)
            && Verifies(c, publicKey.value, SigningBytes(out).value, signature.value)
  {
    assert Sized(c.publicKey(key), 32);
    SignDocumentPrints(c, raw, key);
    SignDocumentKeepsContent(c, raw, key);
    var content := Signed(raw).value;
    var tree := SignedTree(c, raw, key);
    PrintedStrict(tree);
    InsertLookup(content.members, SIGNATURE, Str(Sign(c, key, Print(content))), SIGNATURE);
    OperatorIdExact(OperatorId(c.publicKey(key)), c.publicKey(key));
    SignedVerifies(c, key, Print(content));
  }
}
