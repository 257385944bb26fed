/** The documents as they appear on the wire: which key, or which position of an array, holds which field. */
module Wire {
  import opened Basics
  import opened Json
  import opened Objects
  import opened Documents

  /** What a record holds under a key; an array lists its fields in the order of declaration. */
  function Held(j: Json, key: bytes, at: nat): Option<Json> {
    match j
    case Obj(ms) => Lookup(ms, key)
    case Arr(items) => if at < |items| then Some(items[at]) else None
    case _ => None
  }

  /** An object that has no other keys and none of them twice, or an array of exactly so many items. */
  ghost predicate Shaped(j: Json, keys: set<bytes>, n: nat) {
    || (j.Obj? && Distinct(Keys(j.members)) && forall i | 0 <= i < |j.members| :: j.members[i].key in keys)
    || (j.Arr? && |j.items| == n)
  }

  /** An optional text is absent or null, or the text. */
  ghost predicate OptionalText(v: Option<Json>, text: Option<bytes>) {
    match text
    case Some(s) => v == Some(Str(s))
    case None => v == None || v == Some(Null)
  }

  ghost predicate TextList(v: Option<Json>, texts: seq<bytes>) {
    && v.Some? && v.value.Arr? && |v.value.items| == |texts|
    && forall i | 0 <= i < |texts| :: v.value.items[i] == Str(texts[i])
  }

  /** A list of values of any kind, each read as an ordered map at every depth. */
  ghost predicate ValueList(v: Option<Json>, values: seq<Json>) {
    v.Some? && v.value.Arr? && values == NormalItems(v.value.items)
  }

  // ----- the six records -----

  ghost predicate SnapshotWire(j: Json, s: CatalogSnapshot) {
    && Shaped(j, {"version", "implementationProfileId", "catalogId", "providerId", "sequence", "previousDigest",
                  "policyDigest", "generatedAt", "expiresAt", "entries", "signature"}, 11)
    && SnapshotSlots(j, s)
  }

  ghost predicate SnapshotTexts(j: Json, s: CatalogSnapshot) {
    && Held(j, "implementationProfileId", 1) == Some(Str(s.profile))
    && Held(j, "catalogId", 2) == Some(Str(s.catalogId))
    && Held(j, "providerId", 3) == Some(Str(s.providerId))
    && OptionalText(Held(j, "previousDigest", 5), s.previousDigest)
    && Held(j, "policyDigest", 6) == Some(Str(s.policyDigest))
    && Held(j, "generatedAt", 7) == Some(Str(s.generatedAt))
    && Held(j, "expiresAt", 8) == Some(Str(s.expiresAt))
    && OptionalText(Held(j, "signature", 10), s.signature)
  }

  ghost predicate SnapshotSlots(j: Json, s: CatalogSnapshot) {
    && SnapshotTexts(j, s)
    && Held(j, "version", 0) == Some(Int(s.version)) && s.version <= 0xFFFF_FFFF
    && Held(j, "sequence", 4) == Some(Int(s.sequence as int))
    && ValueList(Held(j, "entries", 9), s.entries)
  }

  ghost predicate ManifestWire(j: Json, m: ProviderManifest) {
    && Shaped(j, {"version", "implementationProfileId", "providerId", "operator", "seat", "catalogs", "capabilities",
                  "privacyProfile", "privacyProfileUri", "offers", "validUntil", "signature"}, 12)
    && ManifestSlots(j, m)
  }

  ghost predicate ManifestTexts(j: Json, m: ProviderManifest) {
    && Held(j, "implementationProfileId", 1) == Some(Str(m.profile))
    && Held(j, "providerId", 2) == Some(Str(m.providerId))
    && Held(j, "operator", 3) == Some(Str(m.operator))
    && Held(j, "seat", 4) == Some(Str(m.seat))
    && Held(j, "privacyProfile", 7) == Some(Str(m.privacyProfile))
    && Held(j, "privacyProfileUri", 8) == Some(Str(m.privacyProfileUri))
    && Held(j, "validUntil", 10) == Some(Str(m.validUntil))
    && OptionalText(Held(j, "signature", 11), m.signature)
  }

  ghost predicate ManifestSlots(j: Json, m: ProviderManifest) {
    && ManifestTexts(j, m)
    && Held(j, "version", 0) == Some(Int(m.version)) && m.version <= 0xFFFF_FFFF
    && ValueList(Held(j, "catalogs", 5), m.catalogs)
    && TextList(Held(j, "capabilities", 6), m.capabilities)
    && ValueList(Held(j, "offers", 9), m.offers)
  }

  ghost predicate DescriptorWire(j: Json, d: CatalogDescriptor) {
    && Shaped(j, {"catalogId", "snapshot", "audience", "seatTypes", "policy", "policyUri"}, 6)
    && DescriptorSlots(j, d)
  }

  ghost predicate DescriptorSlots(j: Json, d: CatalogDescriptor) {
    && Held(j, "catalogId", 0) == Some(Str(d.catalogId))
    && Held(j, "snapshot", 1) == Some(Str(d.snapshot))
    && Held(j, "audience", 2) == Some(Str(d.audience))
    && TextList(Held(j, "seatTypes", 3), d.seatTypes)
    && Held(j, "policy", 4) == Some(Str(d.policy))
    && Held(j, "policyUri", 5) == Some(Str(d.policyUri))
  }

  ghost predicate ReferenceWire(j: Json, m: ManifestRef) {
    && Shaped(j, {"uri", "digest"}, 2)
    && Held(j, "uri", 0) == Some(Str(m.uri)) && Held(j, "digest", 1) == Some(Str(m.digest))
  }

  ghost predicate StatusWire(v: Option<Json>, status: Option<EntryStatus>) {
    match status
    case None => v == None || v == Some(Null)
    case Some(s) =>
      && v.Some? && Shaped(v.value, {"state", "uri"}, 2)
      && Held(v.value, "state", 0) == Some(Str(s.state)) && OptionalText(Held(v.value, "uri", 1), s.uri)
  }

  ghost predicate EntryWire(j: Json, e: CatalogEntry) {
    && Shaped(j, {"componentId", "seatType", "manifest", "operator", "profiles", "evidence", "listedAt", "reviewedAt",
                  "relationship", "placement", "status"}, 11)
    && EntrySlots(j, e)
    && Held(j, "manifest", 2).Some? && ReferenceWire(Held(j, "manifest", 2).value, e.manifest)
  }

  ghost predicate EntryTexts(j: Json, e: CatalogEntry) {
    && Held(j, "componentId", 0) == Some(Str(e.componentId))
    && Held(j, "seatType", 1) == Some(Str(e.seatType))
    && Held(j, "operator", 3) == Some(Str(e.operator))
    && Held(j, "listedAt", 6) == Some(Str(e.listedAt))
    && OptionalText(Held(j, "reviewedAt", 7), e.reviewedAt)
    && Held(j, "relationship", 8) == Some(Str(e.relationship))
    && Held(j, "placement", 9) == Some(Str(e.placement))
  }

  /** All fields of an entry but its manifest reference. */
  ghost predicate EntrySlots(j: Json, e: CatalogEntry) {
    && EntryTexts(j, e)
    && (if Held(j, "profiles", 4) == None then e.profiles == [] else TextList(Held(j, "profiles", 4), e.profiles))
    && (if Held(j, "evidence", 5) == None then e.evidence == [] else ValueList(Held(j, "evidence", 5), e.evidence))
    && StatusWire(Held(j, "status", 10), e.status)
  }

  // ----- slots are fields -----

  ghost predicate SlotsAre(j: Json, names: seq<bytes>, f: seq<Option<Json>>) {
    |f| == |names| && forall i | 0 <= i < |names| :: f[i] == Held(j, names[i], i)
  }

  lemma FieldsHeld(names: seq<bytes>, j: Json)
    ensures Fields(names, j).Some? ==> SlotsAre(j, names, Fields(names, j).value)
  {
  }

  lemma FieldsExact(names: seq<bytes>, keys: set<bytes>, j: Json)
    requires forall q :: q in names <==> q in keys
    ensures Fields(names, j).Some? <==> Shaped(j, keys, |names|)
    ensures Fields(names, j).Some? ==> SlotsAre(j, names, Fields(names, j).value)
  {
  }

  lemma NamedSlot(j: Json, names: seq<bytes>, f: seq<Option<Json>>, i: nat, key: bytes)
    requires SlotsAre(j, names, f) && i < |names| && names[i] == key
    ensures f[i] == Held(j, key, i)
  {
  }

  lemma OptionalTextExact(v: Option<Json>, text: Option<bytes>)
    ensures AsOptionalText(v) == Some(text) <==> OptionalText(v, text)
  {
  }

  lemma {:induction false} TextsExact(items: seq<Json>, texts: seq<bytes>)
    ensures Texts(items) == Some(texts) <==> |items| == |texts| && forall i | 0 <= i < |texts| :: items[i] == Str(texts[i])
  {
    if items == [] {
    } else if texts == [] {
    } else {
      TextsExact(items[1..], texts[1..]);
      if |items| == |texts| && forall i | 0 <= i < |texts| :: items[i] == Str(texts[i]) {
        assert forall i | 0 <= i < |texts| - 1 :: items[1..][i] == Str(texts[1..][i]);
        assert texts == [texts[0]] + texts[1..];
      }
      if Texts(items) == Some(texts) {
        assert texts[1..] == Texts(items[1..]).value;
        forall i | 0 <= i < |texts| ensures items[i] == Str(texts[i]) {
          if i > 0 { assert items[1..][i - 1] == Str(texts[1..][i - 1]); }
        }
      }
    }
  }

  lemma TextListExact(v: Option<Json>, texts: seq<bytes>)
    ensures AsTexts(v) == Some(texts) <==> TextList(v, texts)
  {
    if v.Some? && v.value.Arr? { TextsExact(v.value.items, texts); }
  }

  lemma ValueListExact(v: Option<Json>, values: seq<Json>)
    ensures AsValues(v) == Some(values) <==> ValueList(v, values)
  {
  }

  // ----- decoding is exactly reading off the wire -----

  lemma ReferenceExact(v: Option<Json>, m: ManifestRef)
    ensures DecodeManifestRef(v) == Some(m) <==> v.Some? && ReferenceWire(v.value, m)
  {
    if v.Some? { FieldsExact(MANIFEST_REF_FIELDS, {"uri", "digest"}, v.value); }
  }

  lemma StatusExact(v: Option<Json>, status: Option<EntryStatus>)
    ensures DecodeStatus(v) == Some(status) <==> StatusWire(v, status)
  {
    if v.Some? {
      FieldsExact(STATUS_FIELDS, {"state", "uri"}, v.value);
      if status.Some? { OptionalTextExact(Held(v.value, "uri", 1), status.value.uri); }
    }
  }

  ghost predicate SnapshotTextParts(f: seq<Option<Json>>, s: CatalogSnapshot)
    requires |f| == 11
  {
    && AsText(f[1]) == Some(s.profile) && AsText(f[2]) == Some(s.catalogId) && AsText(f[3]) == Some(s.providerId)
    && AsOptionalText(f[5]) == Some(s.previousDigest) && AsText(f[6]) == Some(s.policyDigest)
    && AsText(f[7]) == Some(s.generatedAt) && AsText(f[8]) == Some(s.expiresAt)
    && AsOptionalText(f[10]) == Some(s.signature)
  }

  lemma SnapshotParts(f: seq<Option<Json>>, s: CatalogSnapshot)
    requires |f| == 11
    ensures SnapshotOf(f) == Some(s) <==>
            && SnapshotTextParts(f, s) && AsNumber(f[0], 0xFFFF_FFFF) == Some(s.version)
            && AsNumber(f[4], U64_LIMIT) == Some(s.sequence as nat) && AsValues(f[9]) == Some(s.entries)
  {
  }

  lemma SnapshotTextsExact(j: Json, f: seq<Option<Json>>, s: CatalogSnapshot)
    requires |f| == 11
    requires f[1] == Held(j, "implementationProfileId", 1) && f[2] == Held(j, "catalogId", 2)
    requires f[3] == Held(j, "providerId", 3) && f[5] == Held(j, "previousDigest", 5)
    requires f[6] == Held(j, "policyDigest", 6) && f[7] == Held(j, "generatedAt", 7)
    requires f[8] == Held(j, "expiresAt", 8) && f[10] == Held(j, "signature", 10)
    ensures SnapshotTextParts(f, s) <==> SnapshotTexts(j, s)
  {
    OptionalTextExact(f[5], s.previousDigest);
    OptionalTextExact(f[10], s.signature);
  }

  lemma NumberExact(v: Option<Json>, limit: nat, n: nat)
    ensures AsNumber(v, limit) == Some(n) <==> v == Some(Int(n)) && n <= limit
  {
  }

  /** A snapshot decodes to `s` exactly when each field of `s` is under its own key. */
  lemma SnapshotExact(j: Json, s: CatalogSnapshot)
    ensures DecodeSnapshotShape(j) == Some(s) <==> SnapshotWire(j, s)
  {
    var keys := {"version", "implementationProfileId", "catalogId", "providerId", "sequence", "previousDigest",
                 "policyDigest", "generatedAt", "expiresAt", "entries", "signature"};
    FieldsExact(SNAPSHOT_FIELDS, keys, j);
    if Fields(SNAPSHOT_FIELDS, j).Some? {
      SnapshotSlotsExact(j, Fields(SNAPSHOT_FIELDS, j).value, s);
    }
  }

  lemma SnapshotFirst(j: Json, f: seq<Option<Json>>)
    requires SlotsAre(j, SNAPSHOT_FIELDS, f)
    ensures |f| == 11
    ensures f[0] == Held(j, "version", 0) && f[1] == Held(j, "implementationProfileId", 1)
    ensures f[2] == Held(j, "catalogId", 2) && f[3] == Held(j, "providerId", 3)
    ensures f[4] == Held(j, "sequence", 4)
  {
    NamedSlot(j, SNAPSHOT_FIELDS, f, 0, "version");
    NamedSlot(j, SNAPSHOT_FIELDS, f, 1, "implementationProfileId");
    NamedSlot(j, SNAPSHOT_FIELDS, f, 2, "catalogId");
    NamedSlot(j, SNAPSHOT_FIELDS, f, 3, "providerId");
    NamedSlot(j, SNAPSHOT_FIELDS, f, 4, "sequence");
  }

  lemma SnapshotLast(j: Json, f: seq<Option<Json>>)
    requires SlotsAre(j, SNAPSHOT_FIELDS, f)
    ensures |f| == 11
    ensures f[5] == Held(j, "previousDigest", 5) && f[6] == Held(j, "policyDigest", 6)
    ensures f[7] == Held(j, "generatedAt", 7) && f[8] == Held(j, "expiresAt", 8)
    ensures f[9] == Held(j, "entries", 9) && f[10] == Held(j, "signature", 10)
  {
    NamedSlot(j, SNAPSHOT_FIELDS, f, 5, "previousDigest");
    NamedSlot(j, SNAPSHOT_FIELDS, f, 6, "policyDigest");
    NamedSlot(j, SNAPSHOT_FIELDS, f, 7, "generatedAt");
    NamedSlot(j, SNAPSHOT_FIELDS, f, 8, "expiresAt");
    NamedSlot(j, SNAPSHOT_FIELDS, f, 9, "entries");
    NamedSlot(j, SNAPSHOT_FIELDS, f, 10, "signature");
  }

  lemma SnapshotSlotsExact(j: Json, f: seq<Option<Json>>, s: CatalogSnapshot)
    requires SlotsAre(j, SNAPSHOT_FIELDS, f)
    ensures |f| == 11 && (SnapshotOf(f) == Some(s) <==> SnapshotSlots(j, s))
  {
    SnapshotFirst(j, f);
    SnapshotLast(j, f);
    SnapshotParts(f, s);
    SnapshotTextsExact(j, f, s);
    NumberExact(f[0], 0xFFFF_FFFF, s.version);
    NumberExact(f[4], U64_LIMIT, s.sequence as nat);
    ValueListExact(f[9], s.entries);
  }

  ghost predicate ManifestTextParts(f: seq<Option<Json>>, m: ProviderManifest)
    requires |f| == 12
  {
    && AsText(f[1]) == Some(m.profile) && AsText(f[2]) == Some(m.providerId) && AsText(f[3]) == Some(m.operator)
    && AsText(f[4]) == Some(m.seat) && AsText(f[7]) == Some(m.privacyProfile)
    && AsText(f[8]) == Some(m.privacyProfileUri) && AsText(f[10]) == Some(m.validUntil)
    && AsOptionalText(f[11]) == Some(m.signature)
  }

  lemma ManifestParts(f: seq<Option<Json>>, m: ProviderManifest)
    requires |f| == 12
    ensures ManifestOf(f) == Some(m) <==>
            && ManifestTextParts(f, m) && AsNumber(f[0], 0xFFFF_FFFF) == Some(m.version)
            && AsValues(f[5]) == Some(m.catalogs) && AsTexts(f[6]) == Some(m.capabilities)
            && AsValues(f[9]) == Some(m.offers)
  {
  }

  lemma ManifestTextsExact(j: Json, f: seq<Option<Json>>, m: ProviderManifest)
    requires |f| == 12
    requires f[1] == Held(j, "implementationProfileId", 1) && f[2] == Held(j, "providerId", 2)
    requires f[3] == Held(j, "operator", 3) && f[4] == Held(j, "seat", 4)
    requires f[7] == Held(j, "privacyProfile", 7) && f[8] == Held(j, "privacyProfileUri", 8)
    requires f[10] == Held(j, "validUntil", 10) && f[11] == Held(j, "signature", 11)
    ensures ManifestTextParts(f, m) <==> ManifestTexts(j, m)
  {
    OptionalTextExact(f[11], m.signature);
  }

  /** A manifest decodes to `m` exactly when each field of `m` is under its own key. */
  lemma ManifestExact(j: Json, m: ProviderManifest)
    ensures DecodeManifestShape(j) == Some(m) <==> ManifestWire(j, m)
  {
    var keys := {"version", "implementationProfileId", "providerId", "operator", "seat", "catalogs", "capabilities",
                 "privacyProfile", "privacyProfileUri", "offers", "validUntil", "signature"};
    FieldsExact(MANIFEST_FIELDS, keys, j);
    if Fields(MANIFEST_FIELDS, j).Some? {
      ManifestSlotsExact(j, Fields(MANIFEST_FIELDS, j).value, m);
    }
  }

  lemma ManifestFirst(j: Json, f: seq<Option<Json>>)
    requires SlotsAre(j, MANIFEST_FIELDS, f)
    ensures |f| == 12
    ensures f[0] == Held(j, "version", 0) && f[1] == Held(j, "implementationProfileId", 1)
    ensures f[2] == Held(j, "providerId", 2) && f[3] == Held(j, "operator", 3)
    ensures f[4] == Held(j, "seat", 4) && f[5] == Held(j, "catalogs", 5)
  {
    NamedSlot(j, MANIFEST_FIELDS, f, 0, "version");
    NamedSlot(j, MANIFEST_FIELDS, f, 1, "implementationProfileId");
    NamedSlot(j, MANIFEST_FIELDS, f, 2, "providerId");
    NamedSlot(j, MANIFEST_FIELDS, f, 3, "operator");
    NamedSlot(j, MANIFEST_FIELDS, f, 4, "seat");
    NamedSlot(j, MANIFEST_FIELDS, f, 5, "catalogs");
  }

  lemma ManifestLast(j: Json, f: seq<Option<Json>>)
    requires SlotsAre(j, MANIFEST_FIELDS, f)
    ensures |f| == 12
    ensures f[6] == Held(j, "capabilities", 6) && f[7] == Held(j, "privacyProfile", 7)
    ensures f[8] == Held(j, "privacyProfileUri", 8) && f[9] == Held(j, "offers", 9)
    ensures f[10] == Held(j, "validUntil", 10) && f[11] == Held(j, "signature", 11)
  {
    NamedSlot(j, MANIFEST_FIELDS, f, 6, "capabilities");
    NamedSlot(j, MANIFEST_FIELDS, f, 7, "privacyProfile");
    NamedSlot(j, MANIFEST_FIELDS, f, 8, "privacyProfileUri");
    NamedSlot(j, MANIFEST_FIELDS, f, 9, "offers");
    NamedSlot(j, MANIFEST_FIELDS, f, 10, "validUntil");
    NamedSlot(j, MANIFEST_FIELDS, f, 11, "signature");
  }

  lemma ManifestSlotsExact(j: Json, f: seq<Option<Json>>, m: ProviderManifest)
    requires SlotsAre(j, MANIFEST_FIELDS, f)
    ensures |f| == 12 && (ManifestOf(f) == Some(m) <==> ManifestSlots(j, m))
  {
    ManifestFirst(j, f);
    ManifestLast(j, f);
    ManifestParts(f, m);
    ManifestTextsExact(j, f, m);
    NumberExact(f[0], 0xFFFF_FFFF, m.version);
    ValueListExact(f[5], m.catalogs);
    TextListExact(f[6], m.capabilities);
    ValueListExact(f[9], m.offers);
  }

  lemma DescriptorAt(j: Json, f: seq<Option<Json>>)
    requires SlotsAre(j, DESCRIPTOR_FIELDS, f)
    ensures |f| == 6
    ensures f[0] == Held(j, "catalogId", 0) && f[1] == Held(j, "snapshot", 1)
    ensures f[2] == Held(j, "audience", 2) && f[3] == Held(j, "seatTypes", 3)
    ensures f[4] == Held(j, "policy", 4) && f[5] == Held(j, "policyUri", 5)
  {
    NamedSlot(j, DESCRIPTOR_FIELDS, f, 0, "catalogId");
    NamedSlot(j, DESCRIPTOR_FIELDS, f, 1, "snapshot");
    NamedSlot(j, DESCRIPTOR_FIELDS, f, 2, "audience");
    NamedSlot(j, DESCRIPTOR_FIELDS, f, 3, "seatTypes");
    NamedSlot(j, DESCRIPTOR_FIELDS, f, 4, "policy");
    NamedSlot(j, DESCRIPTOR_FIELDS, f, 5, "policyUri");
  }

  lemma DescriptorParts(f: seq<Option<Json>>, d: CatalogDescriptor)
    requires |f| == 6
    ensures DescriptorOf(f) == Some(d) <==>
            && AsText(f[0]) == Some(d.catalogId) && AsText(f[1]) == Some(d.snapshot) && AsText(f[2]) == Some(d.audience)
            && AsTexts(f[3]) == Some(d.seatTypes) && AsText(f[4]) == Some(d.policy) && AsText(f[5]) == Some(d.policyUri)
  {
  }

  lemma DescriptorSlotsExact(j: Json, f: seq<Option<Json>>, d: CatalogDescriptor)
    requires SlotsAre(j, DESCRIPTOR_FIELDS, f)
    ensures |f| == 6 && (DescriptorOf(f) == Some(d) <==> DescriptorSlots(j, d))
  {
    DescriptorAt(j, f);
    DescriptorParts(f, d);
    TextListExact(f[3], d.seatTypes);
  }

  /** A descriptor decodes to `d` exactly when each field of `d` is under its own key. */
  lemma DescriptorExact(j: Json, d: CatalogDescriptor)
    ensures DecodeDescriptorShape(j) == Some(d) <==> DescriptorWire(j, d)
  {
    FieldsExact(DESCRIPTOR_FIELDS, {"catalogId", "snapshot", "audience", "seatTypes", "policy", "policyUri"}, j);
    if Fields(DESCRIPTOR_FIELDS, j).Some? {
      DescriptorSlotsExact(j, Fields(DESCRIPTOR_FIELDS, j).value, d);
    }
  }

  lemma EntryParts(f: seq<Option<Json>>, e: CatalogEntry)
    requires |f| == 11
    ensures EntryOf(f) == Some(e) <==>
            && TextParts(f, e) && DecodeManifestRef(f[2]) == Some(e.manifest) && DecodeStatus(f[10]) == Some(e.status)
            && (if f[4].None? then e.profiles == [] else AsTexts(f[4]) == Some(e.profiles))
            && (if f[5].None? then e.evidence == [] else AsValues(f[5]) == Some(e.evidence))
  {
  }

  ghost predicate TextParts(f: seq<Option<Json>>, e: CatalogEntry)
    requires |f| == 11
  {
    && AsText(f[0]) == Some(e.componentId) && AsText(f[1]) == Some(e.seatType) && AsText(f[3]) == Some(e.operator)
    && AsText(f[6]) == Some(e.listedAt) && AsOptionalText(f[7]) == Some(e.reviewedAt)
    && AsText(f[8]) == Some(e.relationship) && AsText(f[9]) == Some(e.placement)
  }

  lemma TextPartsExact(j: Json, f: seq<Option<Json>>, e: CatalogEntry)
    requires |f| == 11
    requires f[0] == Held(j, "componentId", 0) && f[1] == Held(j, "seatType", 1)
    requires f[3] == Held(j, "operator", 3) && f[6] == Held(j, "listedAt", 6)
    requires f[7] == Held(j, "reviewedAt", 7) && f[8] == Held(j, "relationship", 8)
    requires f[9] == Held(j, "placement", 9)
    ensures TextParts(f, e) <==> EntryTexts(j, e)
  {
    OptionalTextExact(f[7], e.reviewedAt);
  }

  /** An entry decodes to `e` exactly when each field of `e` is under its own key. */
  lemma EntryExact(j: Json, e: CatalogEntry)
    ensures DecodeEntryShape(j) == Some(e) <==> EntryWire(j, e)
  {
    var keys := {"componentId", "seatType", "manifest", "operator", "profiles", "evidence", "listedAt", "reviewedAt",
                 "relationship", "placement", "status"};
    FieldsExact(ENTRY_FIELDS, keys, j);
    if Fields(ENTRY_FIELDS, j).Some? {
      EntrySlotsExact(j, Fields(ENTRY_FIELDS, j).value, e);
    }
  }

  lemma EntryFirst(j: Json, f: seq<Option<Json>>)
    requires SlotsAre(j, ENTRY_FIELDS, f)
    ensures |f| == 11
    ensures f[0] == Held(j, "componentId", 0) && f[1] == Held(j, "seatType", 1)
    ensures f[2] == Held(j, "manifest", 2) && f[3] == Held(j, "operator", 3)
    ensures f[4] == Held(j, "profiles", 4)
  {
    NamedSlot(j, ENTRY_FIELDS, f, 0, "componentId");
    NamedSlot(j, ENTRY_FIELDS, f, 1, "seatType");
    NamedSlot(j, ENTRY_FIELDS, f, 2, "manifest");
    NamedSlot(j, ENTRY_FIELDS, f, 3, "operator");
    NamedSlot(j, ENTRY_FIELDS, f, 4, "profiles");
  }

  lemma EntryLast(j: Json, f: seq<Option<Json>>)
    requires SlotsAre(j, ENTRY_FIELDS, f)
    ensures |f| == 11
    ensures f[5] == Held(j, "evidence", 5) && f[6] == Held(j, "listedAt", 6)
    ensures f[7] == Held(j, "reviewedAt", 7) && f[8] == Held(j, "relationship", 8)
    ensures f[9] == Held(j, "placement", 9) && f[10] == Held(j, "status", 10)
  {
    NamedSlot(j, ENTRY_FIELDS, f, 5, "evidence");
    NamedSlot(j, ENTRY_FIELDS, f, 6, "listedAt");
    NamedSlot(j, ENTRY_FIELDS, f, 7, "reviewedAt");
    NamedSlot(j, ENTRY_FIELDS, f, 8, "relationship");
    NamedSlot(j, ENTRY_FIELDS, f, 9, "placement");
    NamedSlot(j, ENTRY_FIELDS, f, 10, "status");
  }

  lemma EntrySlotsExact(j: Json, f: seq<Option<Json>>, e: CatalogEntry)
    requires SlotsAre(j, ENTRY_FIELDS, f)
    ensures |f| == 11
    ensures EntryOf(f) == Some(e) <==>
            EntrySlots(j, e) && Held(j, "manifest", 2).Some? && ReferenceWire(Held(j, "manifest", 2).value, e.manifest)
  {
    EntryFirst(j, f);
    EntryLast(j, f);
    EntryParts(f, e);
    TextPartsExact(j, f, e);
    ReferenceExact(f[2], e.manifest);
    TextListExact(f[4], e.profiles);
    ValueListExact(f[5], e.evidence);
    StatusExact(f[10], e.status);
  }
}
