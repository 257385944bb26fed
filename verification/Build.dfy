/** The snapshot builder: resolves entries, chains onto the previous bytes, signs. */
module Build {
  import opened Basics
  import opened Text
  import opened Json
  import opened Objects
  import opened Canonical
  import opened Signing
  import opened Timestamps
  import opened Documents
  import opened Lossy
  import opened Verify

  datatype SnapshotConfig = SnapshotConfig(
    catalogId: bytes, providerId: bytes, policyDigest: bytes, expiryDays: nat, entries: seq<Json>)

  datatype BuiltSnapshot = BuiltSnapshot(raw: bytes, sequence: u64, digest: bytes)

  // The files next to the config, by relative path.
  type Disk = bytes -> Option<bytes>

  const MANIFEST_FILE: bytes := "manifestFile"
  const MANIFEST: bytes := "manifest"
  const DIGEST: bytes := "digest"

  // ----- entries -----

  /** Set the digest inside the entry's manifest reference, which is created when absent. */
  function PinDigest(ms: seq<Member>, digest: bytes): Result<seq<Member>, Error> {
    match Lookup(ms, MANIFEST)
    case None => Ok(Insert(ms, MANIFEST, Obj(Insert([], DIGEST, Str(digest)))))
    case Some(Obj(ns)) => Ok(Insert(ms, MANIFEST, Obj(Insert(ns, DIGEST, Str(digest)))))
    case _ => Err(Malformed)
  }

  /** Replace `manifestFile` by the digest of the bytes it names. */
  function PinManifest(c: Platform, disk: Disk, ms: seq<Member>): Result<seq<Member>, Error> {
    var rest := Remove(ms, MANIFEST_FILE);
    match Lookup(ms, MANIFEST_FILE)
    case Some(Str(path)) =>
      (match disk(path)
       case None => Err(Io)
       case Some(manifest) =>
         if |manifest| > MAX_DESTINATION_BYTES then Err(Malformed) else PinDigest(rest, Digest(c, manifest)))
    case _ => Ok(rest)
  }

  /** The builder's checks on a typed entry. */
  predicate Publishable(c: Platform, e: CatalogEntry) {
    && ValidComponentId(e.componentId) && c.validUri(e.manifest.uri) && ValidDigest(e.manifest.digest)
    && ParseOperatorKey(e.operator).Some? && e.relationship in RELATIONSHIPS && e.placement in PLACEMENTS
    && e.evidence == [] && ValidStatus(c, e.status)
  }

  function ResolveTyped(c: Platform, disk: Disk, raw: Json): Result<CatalogEntry, Error> {
    if !raw.Obj? then Err(Malformed)
    else
      var ms :- PinManifest(c, disk, raw.members);
      match DecodeEntryShape(Obj(ms))
      case None => Err(Malformed)
      case Some(e) => if Publishable(c, e) then Ok(e) else Err(Malformed)
  }

  function ResolveEntry(c: Platform, disk: Disk, raw: Json): Result<Json, Error> {
    var e :- ResolveTyped(c, disk, raw);
    Ok(EncodeEntry(e))
  }

  /** Takes `manifestFile` out of the entry's fields and pins the digest of the file it names. */
  method Pin(c: Platform, disk: Disk, entry: seq<Member>) returns (r: Result<seq<Member>, Error>)
    ensures r == PinManifest(c, disk, entry)
  {
    var fields := Remove(entry, MANIFEST_FILE);
    var file := Lookup(entry, MANIFEST_FILE);
    if file.None? || !file.value.Str? { return Ok(fields); }
    var manifest := disk(file.value.s);
    if manifest.None? { return Err(Io); }
    if |manifest.value| > MAX_DESTINATION_BYTES { return Err(Malformed); }
    var reference := Lookup(fields, MANIFEST);
    if reference.Some? && !reference.value.Obj? { return Err(Malformed); }
    var members := if reference.Some? then reference.value.members else [];
    members := Insert(members, DIGEST, Str(Digest(c, manifest.value)));
    fields := Insert(fields, MANIFEST, Obj(members));
    r := Ok(fields);
  }

  /** The builder's work on one entry: pins the manifest, decodes and checks the entry, writes it out again. */
  method Resolve(c: Platform, disk: Disk, raw: Json) returns (r: Result<Json, Error>)
    ensures r == ResolveEntry(c, disk, raw)
    ensures Value(raw) && r.Ok? ==>
              ResolveTyped(c, disk, raw).Ok? && FromConfig(c, disk, raw.members, ResolveTyped(c, disk, raw).value)
  {
    if Value(raw) && ResolveTyped(c, disk, raw).Ok? { ResolvedFromConfig(c, disk, raw, ResolveTyped(c, disk, raw).value); }
    if !raw.Obj? { return Err(Malformed); }
    var fields := Pin(c, disk, raw.members);
    if fields.Err? { return Err(fields.error); }
    var e := DecodeEntryShape(Obj(fields.value));
    if e.None? || !Publishable(c, e.value) { return Err(Malformed); }
    r := Ok(EncodeEntry(e.value));
  }

  function ResolvedEntries(c: Platform, disk: Disk, values: seq<Json>): (rs: seq<Result<Json, Error>>)
    ensures |rs| == |values| && forall i | 0 <= i < |values| :: rs[i] == ResolveEntry(c, disk, values[i])
  {
    seq(|values|, i requires 0 <= i < |values| => ResolveEntry(c, disk, values[i]))
  }

  // ----- snapshots -----

  /** `sequence + 1` on 64 bits, as the release build computes it. */
  function NextSequence(n: u64): u64 {
    if n == 0xFFFF_FFFF_FFFF_FFFF then 0 else n + 1
  }

  function Chain(c: Platform, config: SnapshotConfig, previous: Option<bytes>): Result<(u64, Option<bytes>), Error> {
    match previous
    case None => Ok((1, None))
    case Some(raw) =>
      var j := StrictRead(raw);
      if j.None? || DecodeSnapshotShape(j.value).None? then Err(Malformed)
      else
        var s := DecodeSnapshotShape(j.value).value;
        if s.catalogId != config.catalogId then Err(Malformed)
        else Ok((NextSequence(s.sequence), Some(Digest(c, raw))))
  }

  predicate ValidConfig(config: SnapshotConfig) {
    && ValidCatalogId(config.catalogId) && ValidComponentId(config.providerId) && ValidDigest(config.policyDigest)
    && 1 <= config.expiryDays <= MAX_EXPIRY_DAYS
  }

  function ExpiresAt(config: SnapshotConfig, generatedAt: Instant): Instant {
    generatedAt + config.expiryDays * DAY
  }

  /** The unsigned snapshot, stamped with its generation and expiry times. */
  function Stamp(config: SnapshotConfig, chain: (u64, Option<bytes>), generatedAt: Instant, expiresAt: Instant,
                 entries: seq<Json>): Result<CatalogSnapshot, Error>
  {
    match (FormatTimestamp(generatedAt), FormatTimestamp(expiresAt))
    case (Some(generated), Some(expires)) =>
      Ok(CatalogSnapshot(1, PROFILE, config.catalogId, config.providerId, chain.0, chain.1, config.policyDigest,
                         generated, expires, entries, None))
    case _ => Err(Panic)
  }

  function Publish(c: Platform, draft: CatalogSnapshot, key: bytes): Result<BuiltSnapshot, Error> {
    match SignDocument(c, Print(EncodeSnapshot(draft)), key)
    case None => Err(Malformed)
    case Some(raw) => Ok(BuiltSnapshot(raw, draft.sequence, Digest(c, raw)))
  }

  /** Stamp and sign what has been checked and resolved. */
  function Finish(c: Platform, config: SnapshotConfig, chain: (u64, Option<bytes>), generatedAt: Instant,
                  expiresAt: Instant, entries: seq<Json>, key: bytes): Result<BuiltSnapshot, Error>
  {
    var draft :- Stamp(config, chain, generatedAt, expiresAt, entries);
    Publish(c, draft, key)
  }

  function SnapshotFor(c: Platform, config: SnapshotConfig, previous: Option<bytes>, generatedAt: Instant, key: bytes,
                       disk: Disk): Result<BuiltSnapshot, Error>
  {
    if !ValidConfig(config) then Err(Malformed)
    else
      var chain :- Chain(c, config, previous);
      var entries :- Collect(ResolvedEntries(c, disk, config.entries), |config.entries|);
      Finish(c, config, chain, generatedAt, ExpiresAt(config, generatedAt), entries, key)
  }

  method BuildSnapshot(c: Platform, config: SnapshotConfig, previous: Option<bytes>, generatedAt: Instant, key: bytes,
                       disk: Disk) returns (r: Result<BuiltSnapshot, Error>)
    ensures r == SnapshotFor(c, config, previous, generatedAt, key, disk)
  {
    if !ValidConfig(config) { return Err(Malformed); }
    var chain := Chain(c, config, previous);
    if chain.Err? { return Err(chain.error); }
    var entries := ResolveAll(c, disk, config.entries);
    if entries.Err? { return Err(entries.error); }
    var expiresAt := ExpiresAt(config, generatedAt);
    r := Finish(c, config, chain.value, generatedAt, expiresAt, entries.value, key);
  }

  /** The entry loop: stops at the first entry that does not resolve. */
  method ResolveAll(c: Platform, disk: Disk, values: seq<Json>) returns (r: Result<seq<Json>, Error>)
    ensures r == Collect(ResolvedEntries(c, disk, values), |values|)
  {
    ghost var rs := ResolvedEntries(c, disk, values);
    var entries: seq<Json> := [];
    for i := 0 to |values|
      invariant Collect(rs, i) == Ok(entries)
    {
      var e := Resolve(c, disk, values[i]);
      assert rs[i] == e;
      if e.Err? {
        CollectStops(rs, i, |values|);
        return Err(e.error);
      }
      entries := entries + [e.value];
    }
    r := Ok(entries);
  }

  // ----- what was built reads back as drafted -----

  lemma LookupValue(ms: seq<Member>, q: bytes)
    requires Values(ms) && Lookup(ms, q).Some?
    ensures Value(Lookup(ms, q).value)
  {
    assert Member(q, Lookup(ms, q).value) in ms;
  }

  lemma FieldsValues(names: seq<bytes>, j: Json)
    requires Value(j) && Fields(names, j).Some?
    ensures GoodValues(Fields(names, j).value)
  {
    if j.Obj? {
      ValuesObject(j.members);
      forall i | 0 <= i < |names| && Lookup(j.members, names[i]).Some? ensures Value(Lookup(j.members, names[i]).value) {
        LookupValue(j.members, names[i]);
      }
    }
  }

  lemma {:induction false} TextsGood(items: seq<Json>)
    requires WellFormed(Arr(items)) && Texts(items).Some?
    ensures forall i | 0 <= i < |Texts(items).value| :: ValidUtf8(Texts(items).value[i])
  {
    if items != [] {
      assert WellFormed(Arr(items[1..]));
      TextsGood(items[1..]);
    }
  }

  lemma ManifestRefText(j: Json)
    requires Value(j) && DecodeManifestRef(Some(j)).Some?
    ensures var m := DecodeManifestRef(Some(j)).value; ValidUtf8(m.uri) && ValidUtf8(m.digest)
  {
    FieldsValues(MANIFEST_REF_FIELDS, j);
    var f := Fields(MANIFEST_REF_FIELDS, j).value;
    assert Value(f[0].value) && Value(f[1].value);
  }

  lemma StatusText(j: Json)
    requires Value(j) && DecodeStatus(Some(j)).Some?
    ensures var s := DecodeStatus(Some(j)).value;
            s.Some? ==> ValidUtf8(s.value.state) && (s.value.uri.Some? ==> ValidUtf8(s.value.uri.value))
  {
    if !j.Null? {
      FieldsValues(STATUS_FIELDS, j);
      var f := Fields(STATUS_FIELDS, j).value;
      assert Value(f[0].value) && (f[1].Some? ==> Value(f[1].value));
    }
  }

  /** Every text of a decoded entry is text of the tree it came from. */
  lemma DecodedEntryText(j: Json)
    requires Value(j) && DecodeEntryShape(j).Some?
    ensures EntryText(DecodeEntryShape(j).value)
  {
    FieldsValues(ENTRY_FIELDS, j);
    EntryOfText(Fields(ENTRY_FIELDS, j).value);
  }

  lemma EntryParts(f: seq<Option<Json>>, e: CatalogEntry)
    requires |f| == 11 && EntryOf(f) == Some(e)
    ensures f[0] == Some(Str(e.componentId)) && f[1] == Some(Str(e.seatType)) && f[3] == Some(Str(e.operator))
    ensures f[6] == Some(Str(e.listedAt)) && f[8] == Some(Str(e.relationship)) && f[9] == Some(Str(e.placement))
    ensures AsOptionalText(f[7]) == Some(e.reviewedAt) && DecodeStatus(f[10]) == Some(e.status)
    ensures f[2].Some? && DecodeManifestRef(f[2]) == Some(e.manifest)
    ensures if f[4].None? then e.profiles == [] else AsTexts(f[4]) == Some(e.profiles)
    ensures if f[5].None? then e.evidence == [] else AsValues(f[5]) == Some(e.evidence)
  {
  }

  lemma EntryOfText(f: seq<Option<Json>>)
    requires |f| == 11 && GoodValues(f) && EntryOf(f).Some?
    ensures EntryText(EntryOf(f).value)
  {
    EntryParts(f, EntryOf(f).value);
    EntryTextOf(f, EntryOf(f).value);
  }

  lemma EntryTextOf(f: seq<Option<Json>>, e: CatalogEntry)
    requires |f| == 11 && GoodValues(f)
    requires f[0] == Some(Str(e.componentId)) && f[1] == Some(Str(e.seatType)) && f[3] == Some(Str(e.operator))
    requires f[6] == Some(Str(e.listedAt)) && f[8] == Some(Str(e.relationship)) && f[9] == Some(Str(e.placement))
    requires AsOptionalText(f[7]) == Some(e.reviewedAt) && DecodeStatus(f[10]) == Some(e.status)
    requires f[2].Some? && DecodeManifestRef(f[2]) == Some(e.manifest)
    requires if f[4].None? then e.profiles == [] else AsTexts(f[4]) == Some(e.profiles)
    requires if f[5].None? then e.evidence == [] else AsValues(f[5]) == Some(e.evidence)
    ensures EntryText(e)
  {
    PlainTexts(f, e);
    ManifestRefText(f[2].value);
    if f[10].Some? { StatusText(f[10].value); }
    if f[4].Some? { TextsGood(f[4].value.items); }
    EvidenceValue(f[5], e.evidence);
  }

  lemma PlainTexts(f: seq<Option<Json>>, e: CatalogEntry)
    requires |f| == 11 && GoodValues(f)
    requires f[0] == Some(Str(e.componentId)) && f[1] == Some(Str(e.seatType)) && f[3] == Some(Str(e.operator))
    requires f[6] == Some(Str(e.listedAt)) && f[8] == Some(Str(e.relationship)) && f[9] == Some(Str(e.placement))
    requires AsOptionalText(f[7]) == Some(e.reviewedAt)
    ensures ValidUtf8(e.componentId) && ValidUtf8(e.seatType) && ValidUtf8(e.operator)
    ensures ValidUtf8(e.listedAt) && ValidUtf8(e.relationship) && ValidUtf8(e.placement) && Text8(e.reviewedAt)
  {
    assert Value(f[0].value) && Value(f[1].value) && Value(f[3].value) && Value(f[6].value);
    assert Value(f[8].value) && Value(f[9].value) && (f[7].Some? ==> Value(f[7].value));
  }

  lemma EvidenceValue(v: Option<Json>, evidence: seq<Json>)
    requires v.Some? ==> Value(v.value)
    requires if v.None? then evidence == [] else AsValues(v) == Some(evidence)
    ensures Value(Arr(evidence))
  {
    if v.Some? { NormalOfOrdered(v.value); }
  }

  lemma DigestText(c: Platform, b: bytes)
    ensures ValidUtf8(Digest(c, b))
  {
    DigestValid(c, b);
    ValidDigestText(Digest(c, b));
  }

  lemma ValidDigestText(d: bytes)
    requires ValidDigest(d)
    ensures ValidUtf8(d)
  {
    assert Ascii(DIGEST_PREFIX);
    AsciiIsUtf8(d);
  }

  lemma InsertNested(ms: seq<Member>, outer: bytes, ns: seq<Member>, inner: bytes, d: bytes)
    requires Values(ms) && Values(ns) && ValidUtf8(outer) && ValidUtf8(inner) && ValidUtf8(d)
    ensures Values(Insert(ms, outer, Obj(Insert(ns, inner, Str(d)))))
  {
    InsertValues(ns, inner, Str(d));
    ValuesObject(Insert(ns, inner, Str(d)));
    InsertValues(ms, outer, Obj(Insert(ns, inner, Str(d))));
  }

  lemma PinShape(ms: seq<Member>, d: bytes) returns (ns: seq<Member>)
    requires PinDigest(ms, d).Ok?
    ensures PinDigest(ms, d).value == Insert(ms, MANIFEST, Obj(Insert(ns, DIGEST, Str(d))))
    ensures ns == [] || Lookup(ms, MANIFEST) == Some(Obj(ns))
  {
    ns := if Lookup(ms, MANIFEST).Some? then Lookup(ms, MANIFEST).value.members else [];
  }

  lemma NestedValues(ms: seq<Member>, q: bytes, ns: seq<Member>)
    requires Values(ms) && (ns == [] || Lookup(ms, q) == Some(Obj(ns)))
    ensures Values(ns)
  {
    if ns != [] {
      LookupValue(ms, q);
      ValuesObject(ns);
    }
  }

  lemma PinKeysText()
    ensures ValidUtf8(DIGEST) && ValidUtf8(MANIFEST)
  {
    AsciiIsUtf8(DIGEST);
    AsciiIsUtf8(MANIFEST);
  }

  lemma PinnedDigestValues(ms: seq<Member>, d: bytes)
    requires Values(ms) && ValidUtf8(d) && PinDigest(ms, d).Ok?
    ensures Values(PinDigest(ms, d).value)
  {
    PinKeysText();
    var ns := PinShape(ms, d);
    NestedValues(ms, MANIFEST, ns);
    InsertNested(ms, MANIFEST, ns, DIGEST, d);
    assert PinDigest(ms, d).value == Insert(ms, MANIFEST, Obj(Insert(ns, DIGEST, Str(d))));
  }

  lemma PinCases(c: Platform, disk: Disk, ms: seq<Member>) returns (pinned: bool, manifest: bytes)
    requires PinManifest(c, disk, ms).Ok?
    ensures PinManifest(c, disk, ms) ==
            if pinned then PinDigest(Remove(ms, MANIFEST_FILE), Digest(c, manifest)) else Ok(Remove(ms, MANIFEST_FILE))
  {
    var file := Lookup(ms, MANIFEST_FILE);
    pinned := file.Some? && file.value.Str?;
    manifest := if pinned then disk(file.value.s).value else [];
  }

  lemma PinnedValues(c: Platform, disk: Disk, ms: seq<Member>)
    requires Values(ms) && PinManifest(c, disk, ms).Ok?
    ensures Values(PinManifest(c, disk, ms).value)
  {
    RemoveMembers(ms, MANIFEST_FILE);
    var pinned, manifest := PinCases(c, disk, ms);
    if pinned {
      DigestText(c, manifest);
      PinnedDigestValues(Remove(ms, MANIFEST_FILE), Digest(c, manifest));
    }
  }

  lemma ResolvedText(c: Platform, disk: Disk, raw: Json)
    requires Value(raw) && ResolveTyped(c, disk, raw).Ok?
    ensures EntryText(ResolveTyped(c, disk, raw).value) && Publishable(c, ResolveTyped(c, disk, raw).value)
  {
    ValuesObject(raw.members);
    PinnedValues(c, disk, raw.members);
    ValuesObject(PinManifest(c, disk, raw.members).value);
    DecodedEntryText(Obj(PinManifest(c, disk, raw.members).value));
  }

  /** The two checks a verifier makes on an entry that the builder does not. */
  predicate Renderable(e: CatalogEntry) {
    && e.seatType != [] && ParseTimestamp(e.listedAt).Some?
    && (e.reviewedAt.Some? ==> ParseTimestamp(e.reviewedAt.value).Some?)
  }

  /** Resolving what was resolved changes nothing. */
  lemma ResolveFixedPoint(c: Platform, disk: Disk, e: CatalogEntry)
    requires EntryText(e) && Publishable(c, e)
    ensures ResolveEntry(c, disk, EncodeEntry(e)) == Ok(EncodeEntry(e))
  {
    EntryRoundTrip(e);
    ResolveDecoded(c, disk, EncodeEntry(e), e);
  }

  lemma ResolveDecoded(c: Platform, disk: Disk, j: Json, e: CatalogEntry)
    requires j.Obj? && DecodeEntryShape(j) == Some(e) && Publishable(c, e)
    ensures ResolveTyped(c, disk, j) == Ok(e)
  {
    NoManifestFile(j.members);
    RemoveAbsent(j.members, MANIFEST_FILE);
  }

  lemma NoManifestFile(ms: seq<Member>)
    requires Fields(ENTRY_FIELDS, Obj(ms)).Some?
    ensures Lookup(ms, MANIFEST_FILE).None?
  {
    assert MANIFEST_FILE !in ENTRY_FIELDS;
  }

  lemma {:induction false} RemoveAbsent(ms: seq<Member>, q: bytes)
    requires Lookup(ms, q).None?
    ensures Remove(ms, q) == ms
  {
    if ms != [] { RemoveAbsent(ms[1..], q); }
  }

  // ----- where a resolved entry comes from -----

  const URI: bytes := "uri"

  /** The entry's own fields as the config writes them, in the order of the record. */
  function ConfigFields(ms: seq<Member>): (f: seq<Option<Json>>)
    ensures |f| == 11 && forall i | 0 <= i < 11 :: f[i] == Lookup(ms, ENTRY_FIELDS[i])
  {
    seq(11, i requires 0 <= i < 11 => Lookup(ms, ENTRY_FIELDS[i]))
  }

  /** The entry is as the config writes it, but that its digest is the one of these bytes. */
  ghost predicate PinnedTo(c: Platform, manifest: bytes, ms: seq<Member>, e: CatalogEntry) {
    var reference := Lookup(ms, MANIFEST);
    && e.manifest.digest == Digest(c, manifest)
    && reference.Some? && reference.value.Obj? && Lookup(reference.value.members, URI) == Some(Str(e.manifest.uri))
    && EntryOf(ConfigFields(ms)[2 := Some(EncodeManifestRef(e.manifest))]) == Some(e)
  }

  /**
   The typed entry is the one that the config writes. When the config names a manifest file, the pinned digest is
   that of the bytes of that file, whatever digest the config itself gives, and everything else is as written.
   */
  ghost predicate FromConfig(c: Platform, disk: Disk, ms: seq<Member>, e: CatalogEntry) {
    match Lookup(ms, MANIFEST_FILE)
    case Some(Str(path)) =>
      disk(path).Some? && |disk(path).value| <= MAX_DESTINATION_BYTES && PinnedTo(c, disk(path).value, ms, e)
    case _ => EntryOf(ConfigFields(ms)) == Some(e)
  }

  lemma FieldsAre(ms: seq<Member>, f: seq<Option<Json>>)
    requires Fields(ENTRY_FIELDS, Obj(ms)) == Some(f)
    ensures f == ConfigFields(ms)
  {
  }

  lemma EntryNames()
    ensures ENTRY_FIELDS[2] == MANIFEST && MANIFEST_FILE !in ENTRY_FIELDS
    ensures forall i | 0 <= i < 11 && i != 2 :: ENTRY_FIELDS[i] != MANIFEST
  {
    EntryFieldNames();
  }

  lemma RemovedFields(ms: seq<Member>)
    requires AscendingKeys(ms)
    ensures ConfigFields(Remove(ms, MANIFEST_FILE)) == ConfigFields(ms)
  {
    EntryNames();
    forall i | 0 <= i < 11 ensures Lookup(Remove(ms, MANIFEST_FILE), ENTRY_FIELDS[i]) == Lookup(ms, ENTRY_FIELDS[i]) {
      RemoveLookup(ms, MANIFEST_FILE, ENTRY_FIELDS[i]);
    }
  }

  lemma InsertedFields(ms: seq<Member>, v: Json)
    ensures ConfigFields(Insert(ms, MANIFEST, v)) == ConfigFields(ms)[2 := Some(v)]
  {
    EntryNames();
    forall i | 0 <= i < 11
      ensures Lookup(Insert(ms, MANIFEST, v), ENTRY_FIELDS[i]) == ConfigFields(ms)[2 := Some(v)][i]
    {
      InsertLookup(ms, MANIFEST, v, ENTRY_FIELDS[i]);
    }
  }

  lemma PinnedReference(ns: seq<Member>, d: bytes, m: ManifestRef)
    requires DecodeManifestRef(Some(Obj(Insert(ns, DIGEST, Str(d))))) == Some(m)
    ensures m.digest == d && Lookup(ns, URI) == Some(Str(m.uri))
  {
    var f := Fields(MANIFEST_REF_FIELDS, Obj(Insert(ns, DIGEST, Str(d)))).value;
    assert MANIFEST_REF_FIELDS[0] == URI && MANIFEST_REF_FIELDS[1] == DIGEST && URI != DIGEST;
    InsertLookup(ns, DIGEST, Str(d), DIGEST);
    InsertLookup(ns, DIGEST, Str(d), URI);
    assert f[0] == Lookup(ns, URI) && f[1] == Some(Str(d));
  }

  lemma SameButReference(f: seq<Option<Json>>, g: seq<Option<Json>>, m: ManifestRef, status: Option<EntryStatus>)
    requires |f| == |g| == 11 && forall i | 0 <= i < 11 && i != 2 :: f[i] == g[i]
    ensures EntryWith(f, m, status) == EntryWith(g, m, status)
  {
  }

  lemma EntrySplit(f: seq<Option<Json>>, e: CatalogEntry)
    requires |f| == 11 && EntryOf(f) == Some(e)
    ensures DecodeManifestRef(f[2]) == Some(e.manifest) && DecodeStatus(f[10]) == Some(e.status)
    ensures EntryWith(f, e.manifest, e.status) == Some(e)
  {
  }

  lemma EntryJoin(f: seq<Option<Json>>, e: CatalogEntry)
    requires |f| == 11 && DecodeManifestRef(f[2]) == Some(e.manifest) && DecodeStatus(f[10]) == Some(e.status)
    requires EntryWith(f, e.manifest, e.status) == Some(e)
    ensures EntryOf(f) == Some(e)
  {
  }

  lemma ReplacedReference(f: seq<Option<Json>>, v: Json, g: seq<Option<Json>>, e: CatalogEntry)
    requires |f| == 11 && EntryOf(f) == Some(e) && DecodeManifestRef(Some(v)) == Some(e.manifest) && g == f[2 := Some(v)]
    ensures EntryOf(g) == Some(e)
  {
    EntrySplit(f, e);
    SameButReference(f, g, e.manifest, e.status);
    EntryJoin(g, e);
  }

  lemma ReferenceFromConfig(ms: seq<Member>, ns: seq<Member>, v: Json)
    requires AscendingKeys(ms) && (ns == [] || Lookup(Remove(ms, MANIFEST_FILE), MANIFEST) == Some(Obj(ns)))
    requires Lookup(ns, URI) == Some(v)
    ensures Lookup(ms, MANIFEST) == Some(Obj(ns))
  {
    RemoveLookup(ms, MANIFEST_FILE, MANIFEST);
  }

  lemma ReferenceRewritten(g: seq<Option<Json>>, v: Json, e: CatalogEntry)
    requires |g| == 11 && EntryOf(g[2 := Some(v)]) == Some(e) && EntryText(e)
    ensures DecodeManifestRef(Some(v)) == Some(e.manifest)
    ensures EntryOf(g[2 := Some(EncodeManifestRef(e.manifest))]) == Some(e)
  {
    var f, w := g[2 := Some(v)], EncodeManifestRef(e.manifest);
    EntrySplit(f, e);
    ManifestRefRoundTrip(e.manifest);
    ReplacedReference(f, w, g[2 := Some(w)], e);
  }

  lemma PinnedFields(ms: seq<Member>, v: Json, fields: seq<Member>, e: CatalogEntry)
    requires AscendingKeys(ms) && fields == Insert(Remove(ms, MANIFEST_FILE), MANIFEST, v)
    requires DecodeEntryShape(Obj(fields)) == Some(e)
    ensures EntryOf(ConfigFields(ms)[2 := Some(v)]) == Some(e)
  {
    FieldsAre(fields, Fields(ENTRY_FIELDS, Obj(fields)).value);
    InsertedFields(Remove(ms, MANIFEST_FILE), v);
    RemovedFields(ms);
  }

  lemma PinnedFromConfig(c: Platform, ms: seq<Member>, manifest: bytes, d: bytes, fields: seq<Member>, e: CatalogEntry)
    requires AscendingKeys(ms) && d == Digest(c, manifest) && PinDigest(Remove(ms, MANIFEST_FILE), d) == Ok(fields)
    requires DecodeEntryShape(Obj(fields)) == Some(e) && EntryText(e)
    ensures PinnedTo(c, manifest, ms, e)
  {
    var ns := PinShape(Remove(ms, MANIFEST_FILE), d);
    var v := Obj(Insert(ns, DIGEST, Str(d)));
    PinnedFields(ms, v, fields, e);
    ReferenceRewritten(ConfigFields(ms), v, e);
    PinnedReference(ns, d, e.manifest);
    ReferenceFromConfig(ms, ns, Str(e.manifest.uri));
  }

  lemma UnpinnedFromConfig(ms: seq<Member>, fields: seq<Member>, e: CatalogEntry)
    requires AscendingKeys(ms) && fields == Remove(ms, MANIFEST_FILE) && DecodeEntryShape(Obj(fields)) == Some(e)
    ensures EntryOf(ConfigFields(ms)) == Some(e)
  {
    RemovedFields(ms);
    FieldsAre(fields, Fields(ENTRY_FIELDS, Obj(fields)).value);
  }

  lemma ResolvedSteps(c: Platform, disk: Disk, raw: Json, e: CatalogEntry) returns (fields: seq<Member>)
    requires ResolveTyped(c, disk, raw) == Ok(e)
    ensures raw.Obj? && PinManifest(c, disk, raw.members) == Ok(fields) && DecodeEntryShape(Obj(fields)) == Some(e)
  {
    fields := PinManifest(c, disk, raw.members).value;
  }

  lemma PinningSteps(c: Platform, disk: Disk, ms: seq<Member>, fields: seq<Member>)
    requires PinManifest(c, disk, ms) == Ok(fields)
    ensures match Lookup(ms, MANIFEST_FILE)
            case Some(Str(path)) =>
              && disk(path).Some? && |disk(path).value| <= MAX_DESTINATION_BYTES
              && PinDigest(Remove(ms, MANIFEST_FILE), Digest(c, disk(path).value)) == Ok(fields)
            case _ => fields == Remove(ms, MANIFEST_FILE)
  {
  }

  /** Every resolved entry is the one that the config writes, with the digest of the file it names. */
  lemma ResolvedFromConfig(c: Platform, disk: Disk, raw: Json, e: CatalogEntry)
    requires Value(raw) && ResolveTyped(c, disk, raw) == Ok(e)
    ensures FromConfig(c, disk, raw.members, e)
  {
    ResolvedText(c, disk, raw);
    var fields := ResolvedSteps(c, disk, raw, e);
    ValuesObject(raw.members);
    PinnedOrNot(c, disk, raw.members, fields, e);
  }

  lemma PinnedOrNot(c: Platform, disk: Disk, ms: seq<Member>, fields: seq<Member>, e: CatalogEntry)
    requires AscendingKeys(ms) && PinManifest(c, disk, ms) == Ok(fields)
    requires DecodeEntryShape(Obj(fields)) == Some(e) && EntryText(e)
    ensures FromConfig(c, disk, ms, e)
  {
    PinningSteps(c, disk, ms, fields);
    var file := Lookup(ms, MANIFEST_FILE);
    if file.Some? && file.value.Str? {
      var manifest := disk(file.value.s).value;
      PinnedFromConfig(c, ms, manifest, Digest(c, manifest), fields, e);
    } else {
      UnpinnedFromConfig(ms, fields, e);
    }
  }

  // ----- which entries verifiers keep -----

  const SEAT_TYPE: bytes := "seatType"
  const LISTED_AT: bytes := "listedAt"
  const REVIEWED_AT: bytes := "reviewedAt"

  predicate DateText(v: Option<bytes>) {
    v.Some? && ParseTimestamp(v.value).Some?
  }

  /** A seat type that is not empty, and dates that parse, the second of them only if there is one. */
  predicate RenderableParts(seatType: Option<Json>, listedAt: Option<Json>, reviewedAt: Option<Json>) {
    && AsText(seatType).Some? && AsText(seatType).value != [] && DateText(AsText(listedAt))
    && (reviewedAt.None? || reviewedAt.value.Null? || DateText(AsText(reviewedAt)))
  }

  /** The entry as the config writes it has them. */
  predicate RenderableFields(ms: seq<Member>) {
    RenderableParts(Lookup(ms, SEAT_TYPE), Lookup(ms, LISTED_AT), Lookup(ms, REVIEWED_AT))
  }

  lemma WrittenText(f: seq<Option<Json>>, v: Option<Json>, e: CatalogEntry)
    requires |f| == 11 && EntryOf(f[2 := v]) == Some(e)
    ensures f[1] == Some(Str(e.seatType)) && f[6] == Some(Str(e.listedAt)) && AsOptionalText(f[7]) == Some(e.reviewedAt)
  {
    EntryParts(f[2 := v], e);
  }

  lemma WrittenTexts(c: Platform, disk: Disk, ms: seq<Member>, e: CatalogEntry)
    requires FromConfig(c, disk, ms, e)
    ensures Lookup(ms, SEAT_TYPE) == Some(Str(e.seatType)) && Lookup(ms, LISTED_AT) == Some(Str(e.listedAt))
    ensures AsOptionalText(Lookup(ms, REVIEWED_AT)) == Some(e.reviewedAt)
  {
    var f := ConfigFields(ms);
    assert ENTRY_FIELDS[1] == SEAT_TYPE && ENTRY_FIELDS[6] == LISTED_AT && ENTRY_FIELDS[7] == REVIEWED_AT;
    var file := Lookup(ms, MANIFEST_FILE);
    if file.Some? && file.value.Str? {
      WrittenText(f, Some(EncodeManifestRef(e.manifest)), e);
    } else {
      assert f[2 := f[2]] == f;
      WrittenText(f, f[2], e);
    }
  }

  lemma RenderableTexts(e: CatalogEntry, seatType: Option<Json>, listedAt: Option<Json>, reviewedAt: Option<Json>)
    requires seatType == Some(Str(e.seatType)) && listedAt == Some(Str(e.listedAt))
    requires AsOptionalText(reviewedAt) == Some(e.reviewedAt)
    ensures Renderable(e) <==> RenderableParts(seatType, listedAt, reviewedAt)
  {
  }

  lemma RenderableExact(c: Platform, disk: Disk, ms: seq<Member>, e: CatalogEntry)
    requires FromConfig(c, disk, ms, e)
    ensures Renderable(e) <==> RenderableFields(ms)
  {
    WrittenTexts(c, disk, ms, e);
    RenderableTexts(e, Lookup(ms, SEAT_TYPE), Lookup(ms, LISTED_AT), Lookup(ms, REVIEWED_AT));
  }

  lemma EncodedKept(c: Platform, e: CatalogEntry)
    requires EntryText(e) && Publishable(c, e)
    ensures Value(EncodeEntry(e)) && DecodeEntryShape(EncodeEntry(e)) == Some(e)
    ensures DecodeEntry(c, EncodeEntry(e)) == if Renderable(e) then Some(e) else None
  {
    EntryRoundTrip(e);
  }

  /**
   What the builder emits for an entry decodes to the same typed entry, and a verifier keeps it exactly when the
   config gives it a seat type that is not empty and dates that parse.
   */
  lemma ResolvedSurvives(c: Platform, disk: Disk, raw: Json)
    requires Value(raw) && ResolveEntry(c, disk, raw).Ok?
    ensures var e, v := ResolveTyped(c, disk, raw).value, ResolveEntry(c, disk, raw).value;
            && raw.Obj? && (Renderable(e) <==> RenderableFields(raw.members))
            && Value(v) && DecodeEntryShape(v) == Some(e)
            && DecodeEntry(c, v) == if RenderableFields(raw.members) then Some(e) else None
  {
    var e := ResolveTyped(c, disk, raw).value;
    ResolvedText(c, disk, raw);
    EncodedKept(c, e);
    ResolvedFromConfig(c, disk, raw, e);
    RenderableExact(c, disk, raw.members, e);
  }
}
