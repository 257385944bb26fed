/** Document shapes, their strict decoding and encoding, and the field rules. */
module Documents {
  import opened Basics
  import opened Text
  import opened Json
  import opened Objects

  newtype u64 = n: int | 0 <= n < 0x1_0000_0000_0000_0000

  const U64_LIMIT := 0xFFFF_FFFF_FFFF_FFFF

  const PROFILE: bytes := "onym:discovery-implementation:" + "static-ed25519-v1"
  const MAX_MANIFEST_BYTES := 65536
  const MAX_SNAPSHOT_BYTES := 1048576
  const MAX_DESTINATION_BYTES := 262144
  const MAX_ENTRIES := 512
  const MAX_EXPIRY_DAYS := 90
  const CLOCK_SKEW := 600_000_000_000

  datatype ProviderManifest = ProviderManifest(
    version: nat, profile: bytes, providerId: bytes, operator: bytes, seat: bytes, catalogs: seq<Json>,
    capabilities: seq<bytes>, privacyProfile: bytes, privacyProfileUri: bytes, offers: seq<Json>,
    validUntil: bytes, signature: Option<bytes>)

  datatype CatalogDescriptor = CatalogDescriptor(
    catalogId: bytes, snapshot: bytes, audience: bytes, seatTypes: seq<bytes>, policy: bytes, policyUri: bytes)

  datatype CatalogSnapshot = CatalogSnapshot(
    version: nat, profile: bytes, catalogId: bytes, providerId: bytes, sequence: u64,
    previousDigest: Option<bytes>, policyDigest: bytes, generatedAt: bytes, expiresAt: bytes,
    entries: seq<Json>, signature: Option<bytes>)

  datatype CatalogEntry = CatalogEntry(
    componentId: bytes, seatType: bytes, manifest: ManifestRef, operator: bytes, profiles: seq<bytes>,
    evidence: seq<Json>, listedAt: bytes, reviewedAt: Option<bytes>, relationship: bytes, placement: bytes,
    status: Option<EntryStatus>)

  datatype ManifestRef = ManifestRef(uri: bytes, digest: bytes)
  datatype EntryStatus = EntryStatus(state: bytes, uri: Option<bytes>)

  // ----- records as JSON: unknown and repeated keys are refused, absent fields are reported -----

  /** The fields of a record, in declaration order; an array lists them positionally. */
  function Fields(names: seq<bytes>, j: Json): (r: Option<seq<Option<Json>>>)
    ensures r.Some? ==> |r.value| == |names|
  {
    match j
    case Obj(ms) =>
      if Distinct(Keys(ms)) && forall i | 0 <= i < |ms| :: ms[i].key in names then
        Some(seq(|names|, i requires 0 <= i < |names| => Lookup(ms, names[i])))
      else None
    case Arr(items) =>
      if |items| == |names| then Some(seq(|items|, i requires 0 <= i < |items| => Some(items[i]))) else None
    case _ => None
  }

  /** A record written out; absent fields are skipped. */
  function Record(names: seq<bytes>, values: seq<Option<Json>>): Json
    requires |names| == |values|
  {
    Obj(PutFields([], names, values))
  }

  function PutFields(acc: seq<Member>, names: seq<bytes>, values: seq<Option<Json>>): seq<Member>
    requires |names| == |values|
    decreases |names|
  {
    if names == [] then acc
    else
      PutFields(match values[0] case Some(v) => Insert(acc, names[0], v) case None => acc, names[1..], values[1..])
  }

  lemma {:induction false} PutFieldsOthers(acc: seq<Member>, names: seq<bytes>, values: seq<Option<Json>>, q: bytes)
    requires |names| == |values| && q !in names
    ensures Lookup(PutFields(acc, names, values), q) == Lookup(acc, q)
    decreases |names|
  {
    if names != [] {
      var next := match values[0] case Some(v) => Insert(acc, names[0], v) case None => acc;
      PutFieldsOthers(next, names[1..], values[1..], q);
      if values[0].Some? { InsertLookup(acc, names[0], values[0].value, q); }
    }
  }

  lemma {:induction false} PutFieldsLookup(acc: seq<Member>, names: seq<bytes>, values: seq<Option<Json>>, i: nat)
    requires |names| == |values| && Distinct(names) && i < |names| && Lookup(acc, names[i]) == None
    ensures Lookup(PutFields(acc, names, values), names[i]) == values[i]
    decreases |names|
  {
    var next := match values[0] case Some(v) => Insert(acc, names[0], v) case None => acc;
    if values[0].Some? { InsertLookup(acc, names[0], values[0].value, names[i]); }
    if i == 0 {
      PutFieldsOthers(next, names[1..], values[1..], names[0]);
    } else {
      PutFieldsLookup(next, names[1..], values[1..], i - 1);
    }
  }

  lemma {:induction false} PutFieldsValues(acc: seq<Member>, names: seq<bytes>, values: seq<Option<Json>>)
    requires |names| == |values| && Values(acc)
    requires forall i | 0 <= i < |names| :: ValidUtf8(names[i]) && (values[i].Some? ==> Value(values[i].value))
    ensures Values(PutFields(acc, names, values))
    decreases |names|
  {
    if names != [] {
      if values[0].Some? { InsertValues(acc, names[0], values[0].value); }
      var next := match values[0] case Some(v) => Insert(acc, names[0], v) case None => acc;
      PutFieldsValues(next, names[1..], values[1..]);
    }
  }

  lemma RecordValue(names: seq<bytes>, values: seq<Option<Json>>)
    requires |names| == |values|
    requires forall i | 0 <= i < |names| :: Ascii(names[i]) && (values[i].Some? ==> Value(values[i].value))
    ensures Value(Record(names, values))
  {
    forall i | 0 <= i < |names| ensures ValidUtf8(names[i]) { AsciiIsUtf8(names[i]); }
    PutFieldsValues([], names, values);
    ValuesObject(PutFields([], names, values));
  }

  lemma FieldsOfMembers(names: seq<bytes>, ms: seq<Member>, values: seq<Option<Json>>)
    requires |names| == |values| && AscendingKeys(ms)
    requires forall q :: Lookup(ms, q).Some? ==> q in names
    requires forall i | 0 <= i < |names| :: Lookup(ms, names[i]) == values[i]
    ensures Fields(names, Obj(ms)) == Some(values)
  {
    AscendingDistinct(ms);
    forall i | 0 <= i < |ms| ensures ms[i].key in names {
      MemberLookup(ms, i);
    }
    var r := Fields(names, Obj(ms));
    assert r.Some? && |r.value| == |values|;
    assert forall i | 0 <= i < |names| :: r.value[i] == values[i];
    assert r.value == values;
  }

  /** Decoding undoes encoding for every record with distinct field names. */
  lemma FieldsOfRecord(names: seq<bytes>, values: seq<Option<Json>>)
    requires |names| == |values| && Distinct(names)
    requires forall i | 0 <= i < |names| :: Ascii(names[i]) && (values[i].Some? ==> Value(values[i].value))
    ensures Fields(names, Record(names, values)) == Some(values)
  {
    RecordValue(names, values);
    var ms := PutFields([], names, values);
    ValuesObject(ms);
    forall q | Lookup(ms, q).Some? ensures q in names {
      if q !in names { PutFieldsOthers([], names, values, q); }
    }
    forall i | 0 <= i < |names| ensures Lookup(ms, names[i]) == values[i] {
      PutFieldsLookup([], names, values, i);
    }
    FieldsOfMembers(names, ms, values);
  }

  // ----- typed fields -----

  function AsText(v: Option<Json>): Option<bytes> {
    match v case Some(Str(s)) => Some(s) case _ => None
  }

  /** An optional text: absent or null is none. */
  function AsOptionalText(v: Option<Json>): Option<Option<bytes>> {
    match v
    case None => Some(None)
    case Some(Null) => Some(None)
    case Some(Str(s)) => Some(Some(s))
    case _ => None
  }

  function AsNumber(v: Option<Json>, limit: nat): (r: Option<nat>)
    ensures r.Some? ==> r.value <= limit
  {
    match v
    case Some(Int(n)) => if 0 <= n <= limit then Some(n) else None
    case _ => None
  }

  function AsValues(v: Option<Json>): Option<seq<Json>> {
    match v case Some(Arr(items)) => Some(NormalItems(items)) case _ => None
  }

  function Texts(items: seq<Json>): Option<seq<bytes>> {
    if items == [] then Some([])
    else if !items[0].Str? then None
    else
      var rest :- Texts(items[1..]);
      Some([items[0].s] + rest)
  }

  function AsTexts(v: Option<Json>): Option<seq<bytes>> {
    match v case Some(Arr(items)) => Texts(items) case _ => None
  }

  function Optional(v: Option<bytes>): Option<Json> {
    match v case Some(s) => Some(Str(s)) case None => None
  }

  function FromTexts(ts: seq<bytes>): (r: seq<Json>)
    ensures |r| == |ts| && forall i | 0 <= i < |ts| :: r[i] == Str(ts[i])
  {
    seq(|ts|, i requires 0 <= i < |ts| => Str(ts[i]))
  }

  lemma {:induction false} TextsRoundTrip(ts: seq<bytes>)
    ensures Texts(FromTexts(ts)) == Some(ts)
  {
    if ts != [] {
      assert FromTexts(ts)[1..] == FromTexts(ts[1..]);
      TextsRoundTrip(ts[1..]);
      assert ts == [ts[0]] + ts[1..];
    }
  }

  // ----- the records -----

  const MANIFEST_REF_FIELDS: seq<bytes> := ["uri", "digest"]
  const STATUS_FIELDS: seq<bytes> := ["state", "uri"]
  const ENTRY_FIELDS: seq<bytes> := [
    "componentId", "seatType", "manifest", "operator", "profiles", "evidence", "listedAt", "reviewedAt",
    "relationship", "placement", "status"]
  const SNAPSHOT_FIELDS: seq<bytes> := [
    "version", "implementationProfileId", "catalogId", "providerId", "sequence", "previousDigest",
    "policyDigest", "generatedAt", "expiresAt", "entries", "signature"]
  const DESCRIPTOR_FIELDS: seq<bytes> := ["catalogId", "snapshot", "audience", "seatTypes", "policy", "policyUri"]
  const MANIFEST_FIELDS: seq<bytes> := [
    "version", "implementationProfileId", "providerId", "operator", "seat", "catalogs", "capabilities",
    "privacyProfile", "privacyProfileUri", "offers", "validUntil", "signature"]

  function DecodeManifestRef(v: Option<Json>): Option<ManifestRef> {
    var j :- v;
    var f :- Fields(MANIFEST_REF_FIELDS, j);
    var uri :- AsText(f[0]);
    var digest :- AsText(f[1]);
    Some(ManifestRef(uri, digest))
  }

  function DecodeStatus(v: Option<Json>): Option<Option<EntryStatus>> {
    match v
    case None => Some(None)
    case Some(Null) => Some(None)
    case Some(j) =>
      var f :- Fields(STATUS_FIELDS, j);
      var state :- AsText(f[0]);
      var uri :- AsOptionalText(f[1]);
      Some(Some(EntryStatus(state, uri)))
  }

  function DecodeEntryShape(j: Json): Option<CatalogEntry> {
    var f :- Fields(ENTRY_FIELDS, j);
    EntryOf(f)
  }

  function EntryOf(f: seq<Option<Json>>): Option<CatalogEntry>
    requires |f| == 11
  {
    var manifest :- DecodeManifestRef(f[2]);
    var status :- DecodeStatus(f[10]);
    EntryWith(f, manifest, status)
  }

  function EntryWith(f: seq<Option<Json>>, manifest: ManifestRef, status: Option<EntryStatus>): Option<CatalogEntry>
    requires |f| == 11
  {
    var componentId :- AsText(f[0]);
    var seatType :- AsText(f[1]);
    var operator :- AsText(f[3]);
    var profiles :- if f[4].None? then Some([]) else AsTexts(f[4]);
    var evidence :- if f[5].None? then Some([]) else AsValues(f[5]);
    var listedAt :- AsText(f[6]);
    var reviewedAt :- AsOptionalText(f[7]);
    var relationship :- AsText(f[8]);
    var placement :- AsText(f[9]);
    Some(CatalogEntry(componentId, seatType, manifest, operator, profiles, evidence, listedAt, reviewedAt,
                      relationship, placement, status))
  }

  function DecodeSnapshotShape(j: Json): Option<CatalogSnapshot> {
    var f :- Fields(SNAPSHOT_FIELDS, j);
    SnapshotOf(f)
  }

  function SnapshotOf(f: seq<Option<Json>>): Option<CatalogSnapshot>
    requires |f| == 11
  {
    var version :- AsNumber(f[0], 0xFFFF_FFFF);
    var profile :- AsText(f[1]);
    var catalogId :- AsText(f[2]);
    var providerId :- AsText(f[3]);
    var sequence :- AsNumber(f[4], U64_LIMIT);
    var previousDigest :- AsOptionalText(f[5]);
    var policyDigest :- AsText(f[6]);
    var generatedAt :- AsText(f[7]);
    var expiresAt :- AsText(f[8]);
    var entries :- AsValues(f[9]);
    var signature :- AsOptionalText(f[10]);
    Some(CatalogSnapshot(version, profile, catalogId, providerId, sequence as u64, previousDigest, policyDigest,
                         generatedAt, expiresAt, entries, signature))
  }

  function DecodeDescriptorShape(j: Json): Option<CatalogDescriptor> {
    var f :- Fields(DESCRIPTOR_FIELDS, j);
    DescriptorOf(f)
  }

  function DescriptorOf(f: seq<Option<Json>>): Option<CatalogDescriptor>
    requires |f| == 6
  {
    var catalogId :- AsText(f[0]);
    var snapshot :- AsText(f[1]);
    var audience :- AsText(f[2]);
    var seatTypes :- AsTexts(f[3]);
    var policy :- AsText(f[4]);
    var policyUri :- AsText(f[5]);
    Some(CatalogDescriptor(catalogId, snapshot, audience, seatTypes, policy, policyUri))
  }

  function DecodeManifestShape(j: Json): Option<ProviderManifest> {
    var f :- Fields(MANIFEST_FIELDS, j);
    ManifestOf(f)
  }

  function ManifestOf(f: seq<Option<Json>>): Option<ProviderManifest>
    requires |f| == 12
  {
    var version :- AsNumber(f[0], 0xFFFF_FFFF);
    var profile :- AsText(f[1]);
    var providerId :- AsText(f[2]);
    var operator :- AsText(f[3]);
    var seat :- AsText(f[4]);
    var catalogs :- AsValues(f[5]);
    var capabilities :- AsTexts(f[6]);
    var privacyProfile :- AsText(f[7]);
    var privacyProfileUri :- AsText(f[8]);
    var offers :- AsValues(f[9]);
    var validUntil :- AsText(f[10]);
    var signature :- AsOptionalText(f[11]);
    Some(ProviderManifest(version, profile, providerId, operator, seat, catalogs, capabilities, privacyProfile,
                          privacyProfileUri, offers, validUntil, signature))
  }

  // ----- encoding -----

  function EncodeManifestRef(m: ManifestRef): Json {
    Record(MANIFEST_REF_FIELDS, [Some(Str(m.uri)), Some(Str(m.digest))])
  }

  function EncodeStatus(s: EntryStatus): Json {
    Record(STATUS_FIELDS, [Some(Str(s.state)), Optional(s.uri)])
  }

  function EntryValues(e: CatalogEntry, manifest: Json, status: Option<Json>): (r: seq<Option<Json>>)
    ensures |r| == 11
  {
    [Some(Str(e.componentId)), Some(Str(e.seatType)), Some(manifest), Some(Str(e.operator)),
     Some(Arr(FromTexts(e.profiles))), Some(Arr(e.evidence)), Some(Str(e.listedAt)), Optional(e.reviewedAt),
     Some(Str(e.relationship)), Some(Str(e.placement)), status]
  }

  function EncodeOptionalStatus(s: Option<EntryStatus>): Option<Json> {
    match s case Some(status) => Some(EncodeStatus(status)) case None => None
  }

  function EncodeEntry(e: CatalogEntry): Json {
    Record(ENTRY_FIELDS, EntryValues(e, EncodeManifestRef(e.manifest), EncodeOptionalStatus(e.status)))
  }

  function SnapshotValues(s: CatalogSnapshot): (r: seq<Option<Json>>)
    ensures |r| == 11
  {
    [Some(Int(s.version)), Some(Str(s.profile)), Some(Str(s.catalogId)), Some(Str(s.providerId)),
     Some(Int(s.sequence as int)), Optional(s.previousDigest), Some(Str(s.policyDigest)), Some(Str(s.generatedAt)),
     Some(Str(s.expiresAt)), Some(Arr(s.entries)), Optional(s.signature)]
  }

  function EncodeSnapshot(s: CatalogSnapshot): Json {
    Record(SNAPSHOT_FIELDS, SnapshotValues(s))
  }

  ghost predicate FieldNames(names: seq<bytes>) {
    Distinct(names) && forall i | 0 <= i < |names| :: Ascii(names[i])
  }

  lemma SnapshotFieldNames()
    ensures FieldNames(SNAPSHOT_FIELDS)
  {
    var n := SNAPSHOT_FIELDS;
    assert |n[0]| == 7 && |n[1]| == 23 && |n[2]| == 9 && |n[3]| == 10 && |n[4]| == 8 && |n[5]| == 14;
    assert |n[6]| == 12 && |n[7]| == 11 && |n[8]| == 9 && |n[9]| == 7 && |n[10]| == 9;
    assert n[0][0] != n[9][0] && n[2][0] != n[8][0] && n[2][0] != n[10][0] && n[8][0] != n[10][0];
    SnapshotFieldsAscii();
  }

  lemma SnapshotFieldsAscii()
    ensures forall i | 0 <= i < |SNAPSHOT_FIELDS| :: Ascii(SNAPSHOT_FIELDS[i])
  {
  }

  lemma EntryFieldsAscii()
    ensures forall i | 0 <= i < |ENTRY_FIELDS| :: Ascii(ENTRY_FIELDS[i])
  {
  }

  lemma EntryFieldNames()
    ensures FieldNames(ENTRY_FIELDS)
  {
    EntryFieldsAscii();
  }

  lemma PartFieldNames()
    ensures FieldNames(STATUS_FIELDS) && FieldNames(MANIFEST_REF_FIELDS)
  {
  }

  // ----- decoding undoes encoding -----

  ghost predicate Text8(v: Option<bytes>) {
    v.Some? ==> ValidUtf8(v.value)
  }

  /** What Rust's `String` and `Value` guarantee of a typed entry. */
  ghost predicate EntryText(e: CatalogEntry) {
    && ValidUtf8(e.componentId) && ValidUtf8(e.seatType) && ValidUtf8(e.manifest.uri) && ValidUtf8(e.manifest.digest)
    && ValidUtf8(e.operator) && (forall i | 0 <= i < |e.profiles| :: ValidUtf8(e.profiles[i]))
    && Value(Arr(e.evidence)) && ValidUtf8(e.listedAt) && Text8(e.reviewedAt)
    && ValidUtf8(e.relationship) && ValidUtf8(e.placement)
    && (e.status.Some? ==> ValidUtf8(e.status.value.state) && Text8(e.status.value.uri))
  }

  ghost predicate GoodValues(v: seq<Option<Json>>) {
    forall i | 0 <= i < |v| :: v[i].Some? ==> Value(v[i].value)
  }

  lemma RecordRoundTrip(names: seq<bytes>, v: seq<Option<Json>>) returns (j: Json)
    requires FieldNames(names) && |names| == |v| && GoodValues(v)
    ensures j == Record(names, v) && j.Obj? && Value(j) && Fields(names, j) == Some(v)
  {
    j := Record(names, v);
    RecordValue(names, v);
    FieldsOfRecord(names, v);
  }

  lemma ManifestRefRoundTrip(m: ManifestRef)
    requires ValidUtf8(m.uri) && ValidUtf8(m.digest)
    ensures Value(EncodeManifestRef(m)) && DecodeManifestRef(Some(EncodeManifestRef(m))) == Some(m)
  {
    PartFieldNames();
    var j := RecordRoundTrip(MANIFEST_REF_FIELDS, [Some(Str(m.uri)), Some(Str(m.digest))]);
  }

  lemma StatusRoundTrip(s: EntryStatus)
    requires ValidUtf8(s.state) && Text8(s.uri)
    ensures Value(EncodeStatus(s)) && DecodeStatus(Some(EncodeStatus(s))) == Some(Some(s))
  {
    PartFieldNames();
    var j := RecordRoundTrip(STATUS_FIELDS, [Some(Str(s.state)), Optional(s.uri)]);
    StatusOf(s, j);
  }

  lemma StatusOf(s: EntryStatus, j: Json)
    requires j.Obj? && Fields(STATUS_FIELDS, j) == Some([Some(Str(s.state)), Optional(s.uri)])
    ensures DecodeStatus(Some(j)) == Some(Some(s))
  {
  }

  lemma TextsValue(texts: seq<bytes>)
    requires forall i | 0 <= i < |texts| :: ValidUtf8(texts[i])
    ensures Value(Arr(FromTexts(texts)))
  {
    var items := FromTexts(texts);
    assert forall i | 0 <= i < |items| :: Ordered(items[i]) && WellFormed(items[i]);
  }

  lemma EntryValuesGood(e: CatalogEntry, m: Json, st: Option<Json>)
    requires EntryText(e) && Value(m) && (st.Some? ==> Value(st.value))
    ensures GoodValues(EntryValues(e, m, st))
  {
    TextsValue(e.profiles);
  }

  lemma ItemsRoundTrip(items: seq<Json>)
    requires Value(Arr(items))
    ensures AsValues(Some(Arr(items))) == Some(items)
  {
    NormalOfOrdered(Arr(items));
  }

  lemma EntryOfValues(e: CatalogEntry, m: Json, st: Option<Json>)
    requires EntryText(e) && DecodeManifestRef(Some(m)) == Some(e.manifest) && DecodeStatus(st) == Some(e.status)
    ensures EntryOf(EntryValues(e, m, st)) == Some(e)
  {
    TextsRoundTrip(e.profiles);
    ItemsRoundTrip(e.evidence);
    EntryOfFields(e, m, st);
  }

  lemma EntryOfFields(e: CatalogEntry, m: Json, st: Option<Json>)
    requires Texts(FromTexts(e.profiles)) == Some(e.profiles) && AsValues(Some(Arr(e.evidence))) == Some(e.evidence)
    requires DecodeManifestRef(Some(m)) == Some(e.manifest) && DecodeStatus(st) == Some(e.status)
    ensures EntryOf(EntryValues(e, m, st)) == Some(e)
  {
    EntryWithFields(e, m, st);
  }

  lemma EntryWithFields(e: CatalogEntry, m: Json, st: Option<Json>)
    requires Texts(FromTexts(e.profiles)) == Some(e.profiles) && AsValues(Some(Arr(e.evidence))) == Some(e.evidence)
    ensures EntryWith(EntryValues(e, m, st), e.manifest, e.status) == Some(e)
  {
    var f := EntryValues(e, m, st);
    assert AsTexts(f[4]) == Some(e.profiles) && AsValues(f[5]) == Some(e.evidence);
    assert AsOptionalText(f[7]) == Some(e.reviewedAt);
  }

  /** Encoding a typed entry and decoding it again gives the entry back. */
  lemma EntryRoundTrip(e: CatalogEntry)
    requires EntryText(e)
    ensures Value(EncodeEntry(e)) && DecodeEntryShape(EncodeEntry(e)) == Some(e)
  {
    EntryFieldNames();
    ManifestRefRoundTrip(e.manifest);
    if e.status.Some? { StatusRoundTrip(e.status.value); }
    EntryRoundTripWith(e, EncodeManifestRef(e.manifest), EncodeOptionalStatus(e.status));
  }

  lemma EntryRoundTripWith(e: CatalogEntry, m: Json, st: Option<Json>)
    requires EntryText(e) && FieldNames(ENTRY_FIELDS) && Value(m) && (st.Some? ==> Value(st.value))
    requires DecodeManifestRef(Some(m)) == Some(e.manifest) && DecodeStatus(st) == Some(e.status)
    ensures var j := Record(ENTRY_FIELDS, EntryValues(e, m, st)); Value(j) && DecodeEntryShape(j) == Some(e)
  {
    EntryValuesGood(e, m, st);
    var j := RecordRoundTrip(ENTRY_FIELDS, EntryValues(e, m, st));
    EntryOfValues(e, m, st);
  }

  ghost predicate SnapshotText(s: CatalogSnapshot) {
    && s.version <= 0xFFFF_FFFF && ValidUtf8(s.profile) && ValidUtf8(s.catalogId) && ValidUtf8(s.providerId)
    && Text8(s.previousDigest) && ValidUtf8(s.policyDigest) && ValidUtf8(s.generatedAt) && ValidUtf8(s.expiresAt)
    && Value(Arr(s.entries)) && Text8(s.signature)
  }

  lemma SnapshotOfValues(s: CatalogSnapshot)
    requires s.version <= 0xFFFF_FFFF && AsValues(Some(Arr(s.entries))) == Some(s.entries)
    ensures SnapshotOf(SnapshotValues(s)) == Some(s)
  {
    var f := SnapshotValues(s);
    assert AsNumber(f[4], U64_LIMIT) == Some(s.sequence as int);
    assert AsOptionalText(f[5]) == Some(s.previousDigest) && AsOptionalText(f[10]) == Some(s.signature);
    assert AsValues(f[9]) == Some(s.entries);
  }

  lemma SnapshotValuesGood(s: CatalogSnapshot)
    requires SnapshotText(s)
    ensures GoodValues(SnapshotValues(s))
  {
  }

  lemma SnapshotRoundTrip(s: CatalogSnapshot)
    requires SnapshotText(s)
    ensures Value(EncodeSnapshot(s)) && DecodeSnapshotShape(EncodeSnapshot(s)) == Some(s)
  {
    SnapshotFieldNames();
    ItemsRoundTrip(s.entries);
    SnapshotOfValues(s);
    SnapshotValuesGood(s);
    var j := RecordRoundTrip(SNAPSHOT_FIELDS, SnapshotValues(s));
  }

  // ----- one reading: the typed decode of the raw tree agrees with that of the decoded tree -----

  lemma NormalKeys(ms: seq<Member>, q: bytes)
    requires Distinct(Keys(ms))
    ensures Lookup(InsertAll([], ms), q) == match Lookup(ms, q) case Some(v) => Some(Normal(v)) case None => None
  {
    InsertAllLookup([], ms, q);
  }

  /** The fields of a document without repeated keys are those of its decoded tree. */
  lemma FieldsOneReading(names: seq<bytes>, j: Json)
    requires NoDuplicates(j) && Fields(names, j).Some?
    ensures Fields(names, Normal(j)).Some?
    ensures forall i | 0 <= i < |names| ::
              Fields(names, Normal(j)).value[i] ==
              match Fields(names, j).value[i] case Some(v) => Some(Normal(v)) case None => None
  {
    if j.Obj? {
      var ms, ns := j.members, InsertAll([], j.members);
      InsertAllAscending([], ms);
      AscendingDistinct(ns);
      forall i | 0 <= i < |ns| ensures ns[i].key in names {
        MemberLookup(ns, i);
        NormalKeys(ms, ns[i].key);
        var v := Lookup(ms, ns[i].key).value;
        assert Member(ns[i].key, v) in ms;
      }
      forall i | 0 <= i < |names|
        ensures Lookup(ns, names[i]) == match Lookup(ms, names[i]) case Some(v) => Some(Normal(v)) case None => None
      {
        NormalKeys(ms, names[i]);
      }
    }
  }
}
