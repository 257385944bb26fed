/** The field rules in full, and exactly which entries and descriptors verifiers keep. */
module Rules {
  import opened Basics
  import opened Text
  import opened Json
  import opened Canonical
  import opened Signing
  import opened Timestamps
  import opened Documents
  import opened Verify
  import opened Wire

  // ----- texts -----

  predicate LowerDigitHyphen(c: char) {
    'a' <= c <= 'z' || '0' <= c <= '9' || c == '-'
  }

  /** `[a-z0-9-]{1,64}`. */
  predicate Tokenlike(s: bytes) {
    1 <= |s| <= 64 && forall i | 0 <= i < |s| :: LowerDigitHyphen(s[i])
  }

  ghost predicate ComponentForm(s: bytes) {
    exists token :: s == "onym:component:" + token && Tokenlike(token)
  }

  predicate DigestForm(s: bytes) {
    |s| == 71 && s[..7] == "sha256:" && forall i | 7 <= i < 71 :: '0' <= s[i] <= '9' || 'a' <= s[i] <= 'f'
  }

  /** A seat type of a descriptor: the wildcard, or `[a-z0-9.-]{1,64}`. */
  predicate SeatTypeForm(s: bytes) {
    s == "*" || (1 <= |s| <= 64 && forall i | 0 <= i < |s| :: LowerDigitHyphen(s[i]) || s[i] == '.')
  }

  lemma CatalogIdExact(s: bytes)
    ensures ValidCatalogId(s) <==> Tokenlike(s)
  {
  }

  lemma ComponentIdExact(s: bytes)
    ensures ValidComponentId(s) <==> ComponentForm(s)
  {
    if ComponentForm(s) {
      var token :| s == "onym:component:" + token && Tokenlike(token);
      assert s[..15] == "onym:component:" && s[15..] == token;
    }
    if ValidComponentId(s) { assert s == "onym:component:" + s[15..] && Tokenlike(s[15..]); }
  }

  lemma DigestFormExact(s: bytes)
    ensures ValidDigest(s) <==> DigestForm(s)
  {
    if |s| >= 7 && s[..7] == "sha256:" {
      assert forall i | 7 <= i < |s| :: s[i] == s[7..][i - 7];
      assert forall i | 0 <= i < |s| - 7 :: s[7..][i] == s[i + 7];
    }
  }

  lemma SeatTypeExact(s: bytes)
    ensures ValidSeatTypeMember(s) <==> SeatTypeForm(s)
  {
  }

  // ----- signatures -----

  /** The 64 bytes are written padded or unpadded. */
  ghost predicate SignatureForm(text: bytes, bits: bytes) {
    Sized(bits, 64) && (text == Base64(bits) || text == Base64Unpadded(bits))
  }

  /** The operator's key verifies the signature over the signing bytes. */
  ghost predicate SignedUnder(c: Platform, raw: bytes, operator: bytes, signature: Option<bytes>, key: bytes, bits: bytes) {
    && Sized(key, 32) && operator == "onym:key:" + HexEncode(key)
    && signature.Some? && SignatureForm(signature.value, bits)
    && SigningBytes(raw).Some? && c.verify(key, SigningBytes(raw).value, bits)
  }

  ghost predicate Signs(c: Platform, raw: bytes, operator: bytes, signature: Option<bytes>) {
    exists key, bits :: SignedUnder(c, raw, operator, signature, key, bits)
  }

  lemma OperatorExact(operator: bytes)
    ensures ParseOperatorKey(operator).Some? <==> exists key :: Sized(key, 32) && operator == "onym:key:" + HexEncode(key)
  {
    if ParseOperatorKey(operator).Some? { OperatorIdExact(operator, ParseOperatorKey(operator).value); }
    forall key | Sized(key, 32) && operator == "onym:key:" + HexEncode(key) ensures ParseOperatorKey(operator).Some? {
      OperatorIdExact(operator, key);
    }
  }

  /** A document is signed by its operator exactly when some key and 64 bytes say so. */
  lemma SignedExact(c: Platform, raw: bytes, operator: bytes, signature: Option<bytes>)
    ensures SignedBy(c, raw, operator, signature) <==> Signs(c, raw, operator, signature)
  {
    if SignedBy(c, raw, operator, signature) {
      var key, bits := ParseOperatorKey(operator).value, DecodeSignature(signature.value).value;
      OperatorIdExact(operator, key);
      SignatureSpellings(signature.value, bits);
      assert SignedUnder(c, raw, operator, signature, key, bits);
    }
    if Signs(c, raw, operator, signature) {
      var key, bits :| SignedUnder(c, raw, operator, signature, key, bits);
      OperatorIdExact(operator, key);
      SignatureSpellings(signature.value, bits);
    }
  }

  // ----- entries -----

  ghost predicate StatusForm(c: Platform, status: Option<EntryStatus>) {
    status.Some? ==>
      && (status.value.state == "warning" || status.value.state == "review")
      && (status.value.uri.Some? ==> c.validUri(status.value.uri.value))
  }

  predicate RelationshipForm(s: bytes) {
    || s == "none" || s == "catalog-subscriber" || s == "listing-fee" || s == "sponsored-placement"
    || s == "common-owner" || s == "catalog-sponsor" || s == "other-disclosed"
  }

  predicate PlacementForm(s: bytes) {
    s == "policy-ranked" || s == "sponsored"
  }

  /** The rules that builder and verifier share. */
  ghost predicate SharedRules(c: Platform, e: CatalogEntry) {
    && ComponentForm(e.componentId) && c.validUri(e.manifest.uri) && DigestForm(e.manifest.digest)
    && (exists key :: Sized(key, 32) && e.operator == "onym:key:" + HexEncode(key))
    && RelationshipForm(e.relationship) && PlacementForm(e.placement) && e.evidence == [] && StatusForm(c, e.status)
  }

  /** The rules that only the verifier makes. */
  ghost predicate RenderRules(e: CatalogEntry) {
    && e.seatType != [] && ParseTimestamp(e.listedAt).Some?
    && (e.reviewedAt.Some? ==> ParseTimestamp(e.reviewedAt.value).Some?)
  }

  lemma WordsExact(s: bytes)
    ensures s in RELATIONSHIPS <==> RelationshipForm(s)
    ensures s in PLACEMENTS <==> PlacementForm(s)
    ensures s in STATUS_STATES <==> s == "warning" || s == "review"
  {
    assert RELATIONSHIPS[0] == "none" && RELATIONSHIPS[1] == "catalog-subscriber" && RELATIONSHIPS[2] == "listing-fee";
    assert RELATIONSHIPS[3] == "sponsored-placement" && RELATIONSHIPS[4] == "common-owner";
    assert RELATIONSHIPS[5] == "catalog-sponsor" && RELATIONSHIPS[6] == "other-disclosed" && |RELATIONSHIPS| == 7;
    assert PLACEMENTS[0] == "policy-ranked" && PLACEMENTS[1] == "sponsored" && |PLACEMENTS| == 2;
    assert STATUS_STATES[0] == "warning" && STATUS_STATES[1] == "review" && |STATUS_STATES| == 2;
  }

  lemma StatusFormExact(c: Platform, status: Option<EntryStatus>)
    ensures ValidStatus(c, status) <==> StatusForm(c, status)
  {
    if status.Some? { WordsExact(status.value.state); }
  }

  lemma EntryRulesExact(c: Platform, e: CatalogEntry)
    ensures SharedRules(c, e) <==>
            && ValidComponentId(e.componentId) && c.validUri(e.manifest.uri) && ValidDigest(e.manifest.digest)
            && ParseOperatorKey(e.operator).Some? && e.relationship in RELATIONSHIPS && e.placement in PLACEMENTS
            && e.evidence == [] && ValidStatus(c, e.status)
  {
    ComponentIdExact(e.componentId);
    DigestFormExact(e.manifest.digest);
    OperatorExact(e.operator);
    WordsExact(e.relationship);
    WordsExact(e.placement);
    StatusFormExact(c, e.status);
  }

  /** The entries that verifiers keep: those on the wire as a record that meets every rule. */
  ghost predicate Listable(c: Platform, j: Json, e: CatalogEntry) {
    EntryWire(j, e) && SharedRules(c, e) && RenderRules(e)
  }

  lemma DecodedUnderRules(c: Platform, j: Json, e: CatalogEntry)
    ensures DecodeEntry(c, j) == Some(e) <==>
            && DecodeEntryShape(j) == Some(e) && RenderRules(e)
            && ValidComponentId(e.componentId) && c.validUri(e.manifest.uri) && ValidDigest(e.manifest.digest)
            && ParseOperatorKey(e.operator).Some? && e.relationship in RELATIONSHIPS && e.placement in PLACEMENTS
            && e.evidence == [] && ValidStatus(c, e.status)
  {
  }

  lemma ListableExact(c: Platform, j: Json, e: CatalogEntry)
    ensures DecodeEntry(c, j) == Some(e) <==> Listable(c, j, e)
  {
    DecodedUnderRules(c, j, e);
    EntryExact(j, e);
    EntryRulesExact(c, e);
  }

  // ----- descriptors -----

  /** At least one seat type, and the wildcard only alone. */
  ghost predicate SeatTypeForms(seatTypes: seq<bytes>) {
    && seatTypes != [] && (forall i | 0 <= i < |seatTypes| :: SeatTypeForm(seatTypes[i]))
    && (forall i | 0 <= i < |seatTypes| && seatTypes[i] == "*" :: |seatTypes| == 1)
  }

  /** The descriptors that decode, of whatever audience. */
  ghost predicate Declarable(c: Platform, j: Json, d: CatalogDescriptor) {
    && DescriptorWire(j, d) && Tokenlike(d.catalogId) && c.validUri(d.snapshot) && DigestForm(d.policy)
    && c.validUri(d.policyUri) && SeatTypeForms(d.seatTypes)
  }

  lemma SeatTypesExact(seatTypes: seq<bytes>)
    ensures SeatTypeForms(seatTypes) <==>
            && (forall i | 0 <= i < |seatTypes| :: ValidSeatTypeMember(seatTypes[i]))
            && seatTypes != [] && ("*" in seatTypes ==> |seatTypes| == 1)
  {
    forall i | 0 <= i < |seatTypes| ensures ValidSeatTypeMember(seatTypes[i]) <==> SeatTypeForm(seatTypes[i]) {
      SeatTypeExact(seatTypes[i]);
    }
  }

  lemma DescriptorUnderRules(c: Platform, j: Json, d: CatalogDescriptor)
    ensures DecodeDescriptor(c, j) == Some(d) <==>
            && DecodeDescriptorShape(j) == Some(d) && ValidCatalogId(d.catalogId) && c.validUri(d.snapshot)
            && ValidDigest(d.policy) && c.validUri(d.policyUri)
            && (forall i | 0 <= i < |d.seatTypes| :: ValidSeatTypeMember(d.seatTypes[i]))
            && d.seatTypes != [] && ("*" in d.seatTypes ==> |d.seatTypes| == 1)
  {
  }

  lemma DeclarableExact(c: Platform, j: Json, d: CatalogDescriptor)
    ensures DecodeDescriptor(c, j) == Some(d) <==> Declarable(c, j, d)
  {
    DescriptorUnderRules(c, j, d);
    DescriptorExact(j, d);
    CatalogIdExact(d.catalogId);
    DigestFormExact(d.policy);
    SeatTypesExact(d.seatTypes);
  }
}
