/** What a verifier sees of a snapshot that the builder published. */
module Published {
  import opened Basics
  import opened Text
  import opened Json
  import opened Objects
  import opened Canonical
  import opened Signing
  import opened Timestamps
  import opened Documents
  import opened Lossy
  import opened Verify
  import opened Build

  // ----- the draft is well-formed text -----

  /** `s` is how an instant is written: text that reads back to its whole second. */
  ghost predicate TimeText(t: Instant, s: bytes) {
    ValidUtf8(s) && ParseTimestamp(s) == Some(t - t % SECOND)
  }

  lemma FormatText(t: Instant, s: bytes)
    requires FormatTimestamp(t) == Some(s)
    ensures TimeText(t, s)
  {
    FormattedAscii(t, s);
    AsciiIsUtf8(s);
    ParseFormatted(t, s);
  }

  lemma TokenText(prefix: bytes, token: bytes)
    requires Ascii(prefix) && Token(token)
    ensures ValidUtf8(prefix + token)
  {
    AsciiIsUtf8(prefix + token);
  }

  lemma ConfigText(config: SnapshotConfig)
    requires ValidConfig(config)
    ensures ValidUtf8(config.catalogId) && ValidUtf8(config.providerId) && ValidUtf8(config.policyDigest)
  {
    TokenText([], config.catalogId);
    assert [] + config.catalogId == config.catalogId;
    assert Ascii(COMPONENT_PREFIX);
    TokenText(COMPONENT_PREFIX, StripPrefix(config.providerId, COMPONENT_PREFIX).value);
    ValidDigestText(config.policyDigest);
  }

  lemma ItemValue(items: seq<Json>, i: nat)
    requires Value(Arr(items)) && i < |items|
    ensures Value(items[i])
  {
  }

  lemma ItemsValue(items: seq<Json>)
    requires forall i | 0 <= i < |items| :: Value(items[i])
    ensures Value(Arr(items))
  {
  }

  lemma ResolvedValues(c: Platform, disk: Disk, values: seq<Json>, items: seq<Json>)
    requires Value(Arr(values)) && Collect(ResolvedEntries(c, disk, values), |values|) == Ok(items)
    ensures Value(Arr(items))
  {
    var rs := ResolvedEntries(c, disk, values);
    CollectExact(rs, |values|);
    forall i | 0 <= i < |items| ensures Value(items[i]) {
      ItemValue(values, i);
      ResolvedItem(c, disk, values[i], rs[i], items[i]);
    }
    ItemsValue(items);
  }

  lemma ResolvedItem(c: Platform, disk: Disk, raw: Json, r: Result<Json, Error>, v: Json)
    requires Value(raw) && r == ResolveEntry(c, disk, raw) && r == Ok(v)
    ensures Value(v)
  {
    ResolvedSurvives(c, disk, raw);
  }

  lemma ProfileAscii()
    ensures Ascii(PROFILE)
  {
    assert Ascii("onym:discovery-implementation:");
    assert Ascii("static-ed25519-v1");
  }

  lemma ProfileText()
    ensures ValidUtf8(PROFILE)
  {
    ProfileAscii();
    var p := PROFILE;
    AsciiIsUtf8(p);
  }

  /** The steps of a successful draft. */
  ghost predicate Drafted(c: Platform, config: SnapshotConfig, previous: Option<bytes>, generatedAt: Instant, disk: Disk,
                          d: CatalogSnapshot)
  {
    && ValidConfig(config) && d.version == 1 && d.profile == PROFILE
    && d.catalogId == config.catalogId && d.providerId == config.providerId && d.policyDigest == config.policyDigest
    && Chain(c, config, previous) == Ok((d.sequence, d.previousDigest))
    && TimeText(generatedAt, d.generatedAt) && TimeText(ExpiresAt(config, generatedAt), d.expiresAt)
    && Collect(ResolvedEntries(c, disk, config.entries), |config.entries|) == Ok(d.entries)
  }

  lemma DraftSteps(c: Platform, config: SnapshotConfig, previous: Option<bytes>, generatedAt: Instant, key: bytes,
                   disk: Disk) returns (d: CatalogSnapshot)
    requires SnapshotFor(c, config, previous, generatedAt, key, disk).Ok?
    ensures Drafted(c, config, previous, generatedAt, disk, d) && d.signature == None
    ensures SnapshotFor(c, config, previous, generatedAt, key, disk) == Publish(c, d, key)
  {
    var chain := Chain(c, config, previous).value;
    var entries := Collect(ResolvedEntries(c, disk, config.entries), |config.entries|).value;
    d := FinishSteps(c, config, chain, generatedAt, ExpiresAt(config, generatedAt), entries, key);
  }

  lemma FinishSteps(c: Platform, config: SnapshotConfig, chain: (u64, Option<bytes>), t: Instant, u: Instant,
                    entries: seq<Json>, key: bytes) returns (d: CatalogSnapshot)
    requires Finish(c, config, chain, t, u, entries, key).Ok?
    ensures Finish(c, config, chain, t, u, entries, key) == Publish(c, d, key) && d.signature == None
    ensures d.version == 1 && d.profile == PROFILE && (d.sequence, d.previousDigest) == chain && d.entries == entries
    ensures d.catalogId == config.catalogId && d.providerId == config.providerId && d.policyDigest == config.policyDigest
    ensures TimeText(t, d.generatedAt) && TimeText(u, d.expiresAt)
  {
    d := StampSteps(config, chain, t, u, entries);
  }

  lemma StampSteps(config: SnapshotConfig, chain: (u64, Option<bytes>), t: Instant, u: Instant, entries: seq<Json>)
    returns (d: CatalogSnapshot)
    requires Stamp(config, chain, t, u, entries).Ok?
    ensures Stamp(config, chain, t, u, entries) == Ok(d) && d.signature == None
    ensures d.version == 1 && d.profile == PROFILE && (d.sequence, d.previousDigest) == chain && d.entries == entries
    ensures d.catalogId == config.catalogId && d.providerId == config.providerId && d.policyDigest == config.policyDigest
    ensures TimeText(t, d.generatedAt) && TimeText(u, d.expiresAt)
  {
    d := Stamp(config, chain, t, u, entries).value;
    FormatText(t, d.generatedAt);
    FormatText(u, d.expiresAt);
  }

  lemma ChainText(c: Platform, config: SnapshotConfig, previous: Option<bytes>, n: u64, link: Option<bytes>)
    requires Chain(c, config, previous) == Ok((n, link))
    ensures Text8(link)
  {
    if previous.Some? { DigestText(c, previous.value); }
  }

  lemma DraftText(c: Platform, config: SnapshotConfig, previous: Option<bytes>, generatedAt: Instant, disk: Disk,
                  d: CatalogSnapshot)
    requires Value(Arr(config.entries)) && Drafted(c, config, previous, generatedAt, disk, d) && d.signature == None
    ensures SnapshotText(d)
  {
    var n, link := d.sequence, d.previousDigest;
    DraftParts(c, config, previous, disk, n, link, d.entries);
    TextOf(config, d);
  }

  lemma DraftParts(c: Platform, config: SnapshotConfig, previous: Option<bytes>, disk: Disk, n: u64,
                   link: Option<bytes>, entries: seq<Json>)
    requires ValidConfig(config) && Value(Arr(config.entries)) && Chain(c, config, previous) == Ok((n, link))
    requires Collect(ResolvedEntries(c, disk, config.entries), |config.entries|) == Ok(entries)
    ensures ValidUtf8(config.catalogId) && ValidUtf8(config.providerId) && ValidUtf8(config.policyDigest)
    ensures ValidUtf8(PROFILE) && Text8(link) && Value(Arr(entries))
  {
    ConfigText(config);
    ProfileText();
    ResolvedValues(c, disk, config.entries, entries);
    ChainText(c, config, previous, n, link);
  }

  lemma TextOf(config: SnapshotConfig, d: CatalogSnapshot)
    requires ValidUtf8(config.catalogId) && ValidUtf8(config.providerId) && ValidUtf8(config.policyDigest)
    requires d.version == 1 && ValidUtf8(d.profile) && d.signature == None
    requires d.catalogId == config.catalogId && d.providerId == config.providerId && d.policyDigest == config.policyDigest
    requires ValidUtf8(d.generatedAt) && ValidUtf8(d.expiresAt) && Text8(d.previousDigest) && Value(Arr(d.entries))
    ensures SnapshotText(d)
  {
  }

  // ----- the published bytes decode to the signed draft -----

  lemma SignedFields(s: CatalogSnapshot, ms: seq<Member>, signature: bytes)
    requires SnapshotText(s) && s.signature == None && FieldNames(SNAPSHOT_FIELDS)
    requires AscendingKeys(ms) && Fields(SNAPSHOT_FIELDS, Obj(ms)) == Some(SnapshotValues(s))
    ensures DecodeSnapshotShape(Obj(Insert(ms, SIGNATURE, Str(signature)))) == Some(s.(signature := Some(signature)))
    ensures Fields(SNAPSHOT_FIELDS, Obj(Insert(ms, SIGNATURE, Str(signature)))) ==
            Some(SnapshotValues(s.(signature := Some(signature))))
  {
    var signed := s.(signature := Some(signature));
    var ns := Insert(ms, SIGNATURE, Str(signature));
    InsertAscending(ms, SIGNATURE, Str(signature));
    forall q ensures Lookup(ns, q) == if q == SIGNATURE then Some(Str(signature)) else Lookup(ms, q) {
      InsertLookup(ms, SIGNATURE, Str(signature), q);
    }
    SignedLookups(s, ms, ns, signature);
    FieldsOfMembers(SNAPSHOT_FIELDS, ns, SnapshotValues(signed));
    ItemsRoundTrip(s.entries);
    SnapshotOfValues(signed);
  }

  lemma SignedLookups(s: CatalogSnapshot, ms: seq<Member>, ns: seq<Member>, signature: bytes)
    requires s.signature == None && FieldNames(SNAPSHOT_FIELDS)
    requires Fields(SNAPSHOT_FIELDS, Obj(ms)) == Some(SnapshotValues(s))
    requires forall q :: Lookup(ns, q) == if q == SIGNATURE then Some(Str(signature)) else Lookup(ms, q)
    ensures forall q :: Lookup(ns, q).Some? ==> q in SNAPSHOT_FIELDS
    ensures forall i | 0 <= i < |SNAPSHOT_FIELDS| ::
              Lookup(ns, SNAPSHOT_FIELDS[i]) == SnapshotValues(s.(signature := Some(signature)))[i]
  {
    var names := SNAPSHOT_FIELDS;
    assert names[10] == SIGNATURE;
    forall i | 0 <= i < |names| ensures Lookup(ns, names[i]) == SnapshotValues(s.(signature := Some(signature)))[i] {
      assert Lookup(ms, names[i]) == SnapshotValues(s)[i];
    }
    forall q | Lookup(ns, q).Some? ensures q in names {
      if q != SIGNATURE {
        var m := Member(q, Lookup(ms, q).value);
        assert m in ms;
      }
    }
  }

  /** The signature that publishing a draft embeds. */
  function DraftSignature(c: Platform, draft: CatalogSnapshot, key: bytes): bytes {
    Sign(c, key, Print(EncodeSnapshot(draft)))
  }

  lemma UnsignedContent(draft: CatalogSnapshot)
    requires SnapshotText(draft) && draft.signature == None
    ensures Value(EncodeSnapshot(draft)) && Signed(Print(EncodeSnapshot(draft))) == Some(EncodeSnapshot(draft))
    ensures Fields(SNAPSHOT_FIELDS, EncodeSnapshot(draft)) == Some(SnapshotValues(draft))
    ensures FieldNames(SNAPSHOT_FIELDS)
  {
    SnapshotFieldNames();
    SnapshotValuesGood(draft);
    var j := RecordRoundTrip(SNAPSHOT_FIELDS, SnapshotValues(draft));
    PrintedStrict(j);
    UnsignedRemoval(draft, j.members);
  }

  lemma UnsignedRemoval(draft: CatalogSnapshot, ms: seq<Member>)
    requires draft.signature == None && Fields(SNAPSHOT_FIELDS, Obj(ms)) == Some(SnapshotValues(draft))
    ensures RemoveAll(ms, [SIGNATURE]) == ms
  {
    var names := SNAPSHOT_FIELDS;
    assert names[10] == SIGNATURE;
    assert Lookup(ms, names[10]) == SnapshotValues(draft)[10];
    RemoveAbsent(ms, SIGNATURE);
    assert RemoveAll(ms, [SIGNATURE]) == RemoveAll(Remove(ms, SIGNATURE), []);
  }

  /** Publishing a draft always succeeds; the bytes read back as the draft with its signature, which verifies. */
  lemma PublishedReadsBack(c: Platform, draft: CatalogSnapshot, key: bytes)
    requires SnapshotText(draft) && draft.signature == None
    ensures IsBytes(c.publicKey(key)) && Publish(c, draft, key).Ok?
    ensures var b := Publish(c, draft, key).value;
            var signature := Some(DraftSignature(c, draft, key));
            && b.sequence == draft.sequence && b.digest == Digest(c, b.raw)
            && StrictRead(b.raw).Some? && Typed(b.raw) == Some(draft.(signature := signature))
            && SignedBy(c, b.raw, OperatorId(c.publicKey(key)), signature)
            && Read(b.raw).value.Obj?
            && Fields(SNAPSHOT_FIELDS, Read(b.raw).value) == Some(SnapshotValues(draft.(signature := signature)))
  {
    assert Sized(c.publicKey(key), 32);
    var j := EncodeSnapshot(draft);
    UnsignedContent(draft);
    SignDocumentPrints(c, Print(j), key);
    SignDocumentKeepsContent(c, Print(j), key);
    PublishedVerifies(c, Print(j), key);
    ValuesObject(j.members);
    SignedFields(draft, j.members, DraftSignature(c, draft, key));
  }

  // ----- builds -----

  /** What the types of the builder's inputs guarantee: config entries are decoded JSON values. */
  ghost predicate GoodConfig(config: SnapshotConfig) {
    Value(Arr(config.entries))
  }

  /** The typed form of a snapshot that was built. */
  lemma BuiltReadsBack(c: Platform, config: SnapshotConfig, previous: Option<bytes>, generatedAt: Instant, key: bytes,
                       disk: Disk) returns (s: CatalogSnapshot)
    requires GoodConfig(config) && SnapshotFor(c, config, previous, generatedAt, key, disk).Ok?
    ensures IsBytes(c.publicKey(key)) && Drafted(c, config, previous, generatedAt, disk, s)
    ensures var b := SnapshotFor(c, config, previous, generatedAt, key, disk).value;
            && StrictRead(b.raw).Some? && Typed(b.raw) == Some(s)
            && b.sequence == s.sequence && b.digest == Digest(c, b.raw)
            && SignedBy(c, b.raw, OperatorId(c.publicKey(key)), s.signature)
  {
    var draft := DraftSteps(c, config, previous, generatedAt, key, disk);
    DraftText(c, config, previous, generatedAt, disk, draft);
    PublishedReadsBack(c, draft, key);
    s := draft.(signature := Some(DraftSignature(c, draft, key)));
  }

  /** What was built is an object with exactly the fields of its typed form, the signature over all the others. */
  lemma BuiltFields(c: Platform, config: SnapshotConfig, previous: Option<bytes>, generatedAt: Instant, key: bytes,
                    disk: Disk) returns (s: CatalogSnapshot)
    requires GoodConfig(config) && SnapshotFor(c, config, previous, generatedAt, key, disk).Ok?
    ensures Drafted(c, config, previous, generatedAt, disk, s)
    ensures var raw := SnapshotFor(c, config, previous, generatedAt, key, disk).value.raw;
            && Typed(raw) == Some(s) && Read(raw).Some? && Read(raw).value.Obj?
            && SigningBytes(raw).Some? && s.signature == Some(Sign(c, key, SigningBytes(raw).value))
            && Fields(SNAPSHOT_FIELDS, Read(raw).value) == Some(SnapshotValues(s))
  {
    var draft := DraftSteps(c, config, previous, generatedAt, key, disk);
    DraftText(c, config, previous, generatedAt, disk, draft);
    PublishedReadsBack(c, draft, key);
    DraftSigned(c, draft, key);
    s := draft.(signature := Some(DraftSignature(c, draft, key)));
  }

  lemma DraftSigned(c: Platform, draft: CatalogSnapshot, key: bytes)
    requires SnapshotText(draft) && draft.signature == None && Publish(c, draft, key).Ok?
    ensures SigningBytes(Publish(c, draft, key).value.raw) == Some(Print(EncodeSnapshot(draft)))
  {
    UnsignedContent(draft);
    SignDocumentKeepsContent(c, Print(EncodeSnapshot(draft)), key);
  }

  lemma {:induction false} CollectOk<T, E>(rs: seq<Result<T, E>>, n: nat)
    requires n <= |rs|
    ensures Collect(rs, n).Ok? <==> forall i | 0 <= i < n :: rs[i].Ok?
  {
    if n > 0 { CollectOk(rs, n - 1); }
  }

  /** Both times can be written: the build neither starts before year 0000 nor expires after year 9999. */
  ghost predicate Writable(t: Instant, u: Instant) {
    0 <= t < DAY_LIMIT * DAY && 0 <= u < DAY_LIMIT * DAY
  }

  /**
   When a build succeeds: exactly when the config is valid, the previous bytes (if any) read as a snapshot of
   the same catalog, every entry resolves, and both times can be written. Signing never fails.
   */
  lemma BuildSucceeds(c: Platform, config: SnapshotConfig, previous: Option<bytes>, generatedAt: Instant, key: bytes,
                      disk: Disk)
    requires GoodConfig(config)
    ensures SnapshotFor(c, config, previous, generatedAt, key, disk).Ok? <==>
            && ValidConfig(config) && Chain(c, config, previous).Ok?
            && (forall i | 0 <= i < |config.entries| :: ResolvedEntries(c, disk, config.entries)[i].Ok?)
            && Writable(generatedAt, ExpiresAt(config, generatedAt))
  {
    var rs, n := ResolvedEntries(c, disk, config.entries), |config.entries|;
    CollectOk(rs, n);
    if ValidConfig(config) && Chain(c, config, previous).Ok? && Collect(rs, n).Ok? {
      FinishSucceeds(c, config, previous, Chain(c, config, previous).value, generatedAt, ExpiresAt(config, generatedAt),
                     disk, Collect(rs, n).value, key);
    }
  }

  lemma FinishSucceeds(c: Platform, config: SnapshotConfig, previous: Option<bytes>, chain: (u64, Option<bytes>),
                       t: Instant, u: Instant, disk: Disk, entries: seq<Json>, key: bytes)
    requires ValidConfig(config) && GoodConfig(config) && Chain(c, config, previous) == Ok(chain) && u == ExpiresAt(config, t)
    requires Collect(ResolvedEntries(c, disk, config.entries), |config.entries|) == Ok(entries)
    ensures Finish(c, config, chain, t, u, entries, key).Ok? <==> Writable(t, u)
  {
    if Stamp(config, chain, t, u, entries).Ok? {
      var d := StampSteps(config, chain, t, u, entries);
      DraftPublishes(c, config, previous, t, disk, d, key);
    }
    StampExact(config, chain, t, u, entries);
  }

  lemma DraftPublishes(c: Platform, config: SnapshotConfig, previous: Option<bytes>, t: Instant, disk: Disk,
                       d: CatalogSnapshot, key: bytes)
    requires GoodConfig(config) && Drafted(c, config, previous, t, disk, d) && d.signature == None
    ensures Publish(c, d, key).Ok?
  {
    DraftText(c, config, previous, t, disk, d);
    PublishedReadsBack(c, d, key);
  }

  lemma StampExact(config: SnapshotConfig, chain: (u64, Option<bytes>), t: Instant, u: Instant, entries: seq<Json>)
    ensures Stamp(config, chain, t, u, entries).Ok? <==> Writable(t, u)
  {
  }

  /**
   The freshness window of a built snapshot is exactly its `expiryDays` days from the whole second of its
   generation, and the freshness checks pass exactly from ten minutes before it opens to ten minutes
   after it closes.
   */
  lemma BuiltFreshness(s: CatalogSnapshot, days: nat, t: Instant, u: Instant, from: Instant, until: Instant, now: Instant)
    requires 1 <= days <= MAX_EXPIRY_DAYS && u == t + days * DAY && from == t - t % SECOND && until == from + days * DAY
    requires TimeText(t, s.generatedAt) && TimeText(u, s.expiresAt)
    ensures ParseTimestamp(s.generatedAt) == Some(from) && ParseTimestamp(s.expiresAt) == Some(until)
    ensures CheckFreshness(s, now) == None <==> from - CLOCK_SKEW <= now <= until + CLOCK_SKEW
  {
    SameSecond(t, days, u, from, until);
    Window(s, from, days, until, now);
  }

  lemma Window(s: CatalogSnapshot, from: Instant, days: nat, until: Instant, now: Instant)
    requires 1 <= days <= MAX_EXPIRY_DAYS && until == from + days * DAY
    requires ParseTimestamp(s.generatedAt) == Some(from) && ParseTimestamp(s.expiresAt) == Some(until)
    ensures CheckFreshness(s, now) == None <==> from - CLOCK_SKEW <= now <= until + CLOCK_SKEW
  {
  }

  lemma SameSecond(t: Instant, days: nat, u: Instant, from: Instant, until: Instant)
    requires u == t + days * DAY && from == t - t % SECOND && until == from + days * DAY
    ensures until == u - u % SECOND
  {
    var q, r := t / SECOND, t % SECOND;
    assert u == (q + days * 86400) * SECOND + r;
  }

  /**
   A built snapshot obeys the chain rules exactly when it starts a chain, or continues one whose sequence
   is neither the reserved 0 nor the last 64-bit number, after which the release build wraps to 0.
   */
  lemma BuiltChainShape(c: Platform, config: SnapshotConfig, previous: Option<bytes>, generatedAt: Instant, key: bytes,
                        disk: Disk)
    requires GoodConfig(config) && SnapshotFor(c, config, previous, generatedAt, key, disk).Ok?
    ensures var b := SnapshotFor(c, config, previous, generatedAt, key, disk).value;
            Typed(b.raw).Some? &&
            (ChainShape(Typed(b.raw).value) <==>
             previous.None? || (Typed(previous.value).Some?
                                && 0 < Typed(previous.value).value.sequence < 0xFFFF_FFFF_FFFF_FFFF))
  {
    var s := BuiltReadsBack(c, config, previous, generatedAt, key, disk);
    ChainShapeExact(c, config, previous, s);
  }

  lemma ChainShapeExact(c: Platform, config: SnapshotConfig, previous: Option<bytes>, s: CatalogSnapshot)
    requires Chain(c, config, previous) == Ok((s.sequence, s.previousDigest))
    ensures ChainShape(s) <==>
            previous.None? || (Typed(previous.value).Some?
                               && 0 < Typed(previous.value).value.sequence < 0xFFFF_FFFF_FFFF_FFFF)
  {
    if previous.Some? { DigestValid(c, previous.value); }
  }
}
