/** When a verifier accepts what the builder published, and what it keeps of it. */
module Accepted {
  import opened Basics
  import Text
  import opened Json
  import opened Objects
  import opened Signing
  import opened Timestamps
  import opened Documents
  import opened Lossy
  import opened Verify
  import opened Build
  import opened Published

  /** One build: everything that goes into a snapshot. */
  datatype Order = Order(config: SnapshotConfig, previous: Option<bytes>, at: Instant, key: bytes, disk: Disk)

  ghost predicate Builds(c: Platform, o: Order, raw: bytes) {
    && GoodConfig(o.config)
    && SnapshotFor(c, o.config, o.previous, o.at, o.key, o.disk).Ok?
    && SnapshotFor(c, o.config, o.previous, o.at, o.key, o.disk).value.raw == raw
  }

  /** The manifest declares the catalog, under the builder's identity, with the policy of the config. */
  ghost predicate Declares(c: Platform, m: VerifiedManifest, o: Order) {
    && IsBytes(c.publicKey(o.key))
    && m.manifest.providerId == o.config.providerId && m.manifest.operator == OperatorId(c.publicKey(o.key))
    && DeclaredAs(m.catalogs, o.config.catalogId, o.config.policyDigest)
  }

  /** The clock is inside the window, ten minutes of skew allowed at both ends. */
  ghost predicate InWindow(o: Order, now: Instant) {
    Opens(o) - CLOCK_SKEW <= now <= Closes(o) + CLOCK_SKEW
  }

  ghost predicate SameCatalog(retained: Option<Retained>, o: Order) {
    retained.Some? ==> retained.value.providerId == o.config.providerId && retained.value.catalogId == o.config.catalogId
  }

  /** What a verifier makes of an entry: what the builder resolved it to, if that can be rendered. */
  function ListedEntry(c: Platform, disk: Disk, value: Json): Option<CatalogEntry> {
    match ResolveTyped(c, disk, value)
    case Ok(e) => if Renderable(e) then Some(e) else None
    case Err(_) => None
  }

  function ListedEntries(c: Platform, disk: Disk, values: seq<Json>): (ds: seq<Option<CatalogEntry>>)
    ensures |ds| == |values| && forall i | 0 <= i < |values| :: ds[i] == ListedEntry(c, disk, values[i])
  {
    seq(|values|, i requires 0 <= i < |values| => ListedEntry(c, disk, values[i]))
  }

  function Listed(c: Platform, o: Order): seq<Option<CatalogEntry>> {
    ListedEntries(c, o.disk, o.config.entries)
  }

  // ----- head and admission -----

  lemma BuiltHead(c: Platform, o: Order, raw: bytes, m: VerifiedManifest) returns (s: CatalogSnapshot)
    requires Builds(c, o, raw) && Declares(c, m, o) && |raw| <= MAX_SNAPSHOT_BYTES
    ensures SnapshotHead(c, raw, m) == Ok(s) && Typed(raw) == Some(s)
    ensures Drafted(c, o.config, o.previous, o.at, o.disk, s)
  {
    s := BuiltReadsBack(c, o.config, o.previous, o.at, o.key, o.disk);
  }

  /** The whole second of the generation time, which is what the snapshot carries. */
  function Opens(o: Order): Instant {
    o.at - o.at % SECOND
  }

  function Closes(o: Order): Instant {
    Opens(o) + o.config.expiryDays * DAY
  }

  lemma DraftedFresh(c: Platform, o: Order, s: CatalogSnapshot, now: Instant)
    requires Drafted(c, o.config, o.previous, o.at, o.disk, s)
    ensures ParseTimestamp(s.generatedAt) == Some(Opens(o)) && ParseTimestamp(s.expiresAt) == Some(Closes(o))
    ensures CheckFreshness(s, now) == None <==> InWindow(o, now)
  {
    BuiltFreshness(s, o.config.expiryDays, o.at, ExpiresAt(o.config, o.at), Opens(o), Closes(o), now);
  }

  /**
   The window of a build. The times in the published bytes parse to the whole second of the generation time and
   to exactly `expiryDays` days later, and the freshness checks pass exactly from ten minutes before the one to
   ten minutes after the other.
   */
  lemma BuiltWindow(c: Platform, o: Order, raw: bytes, now: Instant)
    requires Builds(c, o, raw)
    ensures Typed(raw).Some? && 1 <= o.config.expiryDays <= MAX_EXPIRY_DAYS
    ensures var s := Typed(raw).value;
            && ParseTimestamp(s.generatedAt) == Some(Opens(o)) && ParseTimestamp(s.expiresAt) == Some(Closes(o))
            && (CheckFreshness(s, now) == None <==> Opens(o) - CLOCK_SKEW <= now <= Closes(o) + CLOCK_SKEW)
  {
    var s := BuiltReadsBack(c, o.config, o.previous, o.at, o.key, o.disk);
    DraftedFresh(c, o, s, now);
  }

  lemma AdmitBuilt(s: CatalogSnapshot, digest: bytes, policy: bytes, retained: Option<Retained>, outcome: ChainOutcome)
    requires s.policyDigest == policy && ValidDigest(policy) && ChainShape(s) && CheckRetained(s, retained) == None
    requires CompareChain(s, digest, retained) == Ok(outcome)
    ensures AdmitAgainst(s, digest, policy, retained) == Ok(Admission(s, digest, outcome, false))
  {
  }

  lemma BuiltAdmitted(c: Platform, o: Order, raw: bytes, m: VerifiedManifest, retained: Option<Retained>, now: Instant,
                      outcome: ChainOutcome) returns (s: CatalogSnapshot)
    requires Builds(c, o, raw) && Declares(c, m, o) && |raw| <= MAX_SNAPSHOT_BYTES
    requires InWindow(o, now) && SameCatalog(retained, o)
    requires Typed(raw).Some? && ChainShape(Typed(raw).value)
    requires CompareChain(Typed(raw).value, Digest(c, raw), retained) == Ok(outcome)
    ensures Typed(raw) == Some(s) && Drafted(c, o.config, o.previous, o.at, o.disk, s)
    ensures Admit(c, raw, m, retained, now) == Ok(Admission(s, Digest(c, raw), outcome, false))
  {
    s := BuiltHead(c, o, raw, m);
    DraftedFresh(c, o, s, now);
    DraftedIdentity(c, o, s, retained);
    AdmitBuilt(s, Digest(c, raw), o.config.policyDigest, retained, outcome);
    Admits(c, raw, m, retained, now, s, o.config.policyDigest);
  }

  lemma DraftedIdentity(c: Platform, o: Order, s: CatalogSnapshot, retained: Option<Retained>)
    requires Drafted(c, o.config, o.previous, o.at, o.disk, s) && SameCatalog(retained, o)
    ensures CheckRetained(s, retained) == None && s.policyDigest == o.config.policyDigest
    ensures s.catalogId == o.config.catalogId && ValidDigest(o.config.policyDigest)
  {
  }

  lemma Admits(c: Platform, raw: bytes, m: VerifiedManifest, retained: Option<Retained>, now: Instant,
               s: CatalogSnapshot, policy: bytes)
    requires SnapshotHead(c, raw, m) == Ok(s) && CheckFreshness(s, now) == None
    requires DeclaredAs(m.catalogs, s.catalogId, policy)
    ensures Admit(c, raw, m, retained, now) == AdmitAgainst(s, Digest(c, raw), policy, retained)
  {
    FoundPolicy(m.catalogs, s.catalogId, policy);
  }

  // ----- entries -----

  lemma BuiltEntries(c: Platform, o: Order, s: CatalogSnapshot)
    requires GoodConfig(o.config) && Drafted(c, o.config, o.previous, o.at, o.disk, s)
    ensures DecodedEntries(c, s.entries) == Listed(c, o)
  {
    var values := o.config.entries;
    EntriesDecode(c, o.disk, values, ResolvedEntries(c, o.disk, values), s.entries);
  }

  lemma EntriesDecode(c: Platform, disk: Disk, values: seq<Json>, rs: seq<Result<Json, Error>>, entries: seq<Json>)
    requires Value(Arr(values)) && rs == ResolvedEntries(c, disk, values) && Collect(rs, |values|) == Ok(entries)
    ensures DecodedEntries(c, entries) == ListedEntries(c, disk, values)
  {
    CollectExact(rs, |values|);
    forall i | 0 <= i < |values| ensures DecodeEntry(c, entries[i]) == ListedEntry(c, disk, values[i]) {
      BuiltEntry(c, disk, values, i, rs[i], entries[i]);
    }
  }

  lemma BuiltEntry(c: Platform, disk: Disk, values: seq<Json>, i: nat, r: Result<Json, Error>, v: Json)
    requires Value(Arr(values)) && i < |values| && r == ResolveEntry(c, disk, values[i]) && r == Ok(v)
    ensures DecodeEntry(c, v) == ListedEntry(c, disk, values[i])
  {
    ItemValue(values, i);
    ResolvedSurvives(c, disk, values[i]);
  }

  /** No two entries that decoded share a component id. */
  ghost predicate DistinctDecoded(ds: seq<Option<CatalogEntry>>) {
    forall i, j | 0 <= i < j < |ds| && ds[i].Some? && ds[j].Some? ::
      ds[i].value.componentId != ds[j].value.componentId
  }

  lemma KeptDistinct(ds: seq<Option<CatalogEntry>>)
    ensures Distinct(ComponentIds(Kept(ds, |ds|))) <==> DistinctDecoded(ds)
  {
    var kept, at := Kept(ds, |ds|), Indexes(ds, |ds|, true);
    KeptExact(ds, |ds|);
    IndexesExact(ds, |ds|, true);
    if DistinctDecoded(ds) {
      forall i, j | 0 <= i < j < |kept| ensures ComponentIds(kept)[i] != ComponentIds(kept)[j] {
        assert at[i] < at[j];
      }
    }
    if Distinct(ComponentIds(kept)) {
      forall i, j | 0 <= i < j < |ds| && ds[i].Some? && ds[j].Some?
        ensures ds[i].value.componentId != ds[j].value.componentId
      {
        DecodedApart(ds, kept, at, i, j);
      }
    }
  }

  lemma DecodedApart(ds: seq<Option<CatalogEntry>>, kept: seq<CatalogEntry>, at: seq<nat>, i: nat, j: nat)
    requires |at| == |kept| && Increasing(at) && i < j < |ds| && ds[i].Some? && ds[j].Some? && i in at && j in at
    requires forall k | 0 <= k < |at| :: at[k] < |ds| && ds[at[k]] == Some(kept[k])
    requires Distinct(ComponentIds(kept))
    ensures ds[i].value.componentId != ds[j].value.componentId
  {
    var k :| 0 <= k < |at| && at[k] == i;
    var l :| 0 <= l < |at| && at[l] == j;
    assert ComponentIds(kept)[k] == ds[i].value.componentId && ComponentIds(kept)[l] == ds[j].value.componentId;
    if k < l { assert ComponentIds(kept)[k] != ComponentIds(kept)[l]; }
  }

  /** When an admitted snapshot is accepted, and as what. */
  lemma AcceptExact(a: Admission, ds: seq<Option<CatalogEntry>>)
    ensures Accept(a, ds).Ok? <==> |ds| <= MAX_ENTRIES && DistinctDecoded(ds)
    ensures Accept(a, ds).Ok? ==>
              Accept(a, ds).value ==
              VerifiedSnapshot(a.snapshot, Kept(ds, |ds|), Indexes(ds, |ds|, false), a.digest, a.outcome, a.transition)
  {
    KeptDistinct(ds);
  }

  lemma AdmittedVerdict(c: Platform, raw: bytes, m: VerifiedManifest, retained: Option<Retained>, now: Instant, a: Admission)
    requires Admit(c, raw, m, retained, now) == Ok(a)
    ensures SnapshotVerdict(c, raw, m, retained, now) == Accept(a, DecodedEntries(c, a.snapshot.entries))
  {
  }

  lemma FreshVerdict(c: Platform, o: Order, raw: bytes, m: VerifiedManifest, retained: Option<Retained>, now: Instant,
                     outcome: ChainOutcome) returns (a: Admission)
    requires Builds(c, o, raw) && Declares(c, m, o) && |raw| <= MAX_SNAPSHOT_BYTES && SameCatalog(retained, o)
    requires Typed(raw).Some? && ChainShape(Typed(raw).value) && InWindow(o, now)
    requires CompareChain(Typed(raw).value, Digest(c, raw), retained) == Ok(outcome)
    ensures a == Admission(Typed(raw).value, Digest(c, raw), outcome, false)
    ensures SnapshotVerdict(c, raw, m, retained, now) == Accept(a, Listed(c, o))
  {
    var s := BuiltAdmitted(c, o, raw, m, retained, now, outcome);
    BuiltEntries(c, o, s);
    a := Admission(s, Digest(c, raw), outcome, false);
    AdmittedVerdict(c, raw, m, retained, now, a);
  }

  lemma StaleVerdict(c: Platform, o: Order, raw: bytes, m: VerifiedManifest, retained: Option<Retained>, now: Instant)
    requires Builds(c, o, raw) && Declares(c, m, o) && |raw| <= MAX_SNAPSHOT_BYTES && !InWindow(o, now)
    ensures SnapshotVerdict(c, raw, m, retained, now).Err?
  {
    var s := BuiltHead(c, o, raw, m);
    DraftedFresh(c, o, s, now);
    StaleRefused(c, raw, m, retained, now, s);
  }

  lemma StaleRefused(c: Platform, raw: bytes, m: VerifiedManifest, retained: Option<Retained>, now: Instant,
                     s: CatalogSnapshot)
    requires SnapshotHead(c, raw, m) == Ok(s) && CheckFreshness(s, now).Some?
    ensures SnapshotVerdict(c, raw, m, retained, now).Err?
  {
  }

  /** What was retained allows the snapshot: its catalog, the chain rules, and a comparison without accusation. */
  ghost predicate Continuable(c: Platform, o: Order, raw: bytes, retained: Option<Retained>) {
    && SameCatalog(retained, o) && Typed(raw).Some? && ChainShape(Typed(raw).value)
    && CompareChain(Typed(raw).value, Digest(c, raw), retained).Ok?
  }

  lemma AdmittedContinuable(s: CatalogSnapshot, digest: bytes, m: VerifiedManifest, retained: Option<Retained>, now: Instant)
    requires AdmitSigned(s, digest, m, retained, now).Ok?
    ensures CheckRetained(s, retained) == None && ChainShape(s) && CompareChain(s, digest, retained).Ok?
  {
  }

  lemma VerdictBounds(c: Platform, raw: bytes, m: VerifiedManifest, retained: Option<Retained>, now: Instant)
    requires SnapshotVerdict(c, raw, m, retained, now).Ok?
    ensures |raw| <= MAX_SNAPSHOT_BYTES && SnapshotHead(c, raw, m).Ok?
    ensures AdmitSigned(SnapshotHead(c, raw, m).value, Digest(c, raw), m, retained, now).Ok?
  {
  }

  lemma AcceptedContinuable(c: Platform, o: Order, raw: bytes, m: VerifiedManifest, retained: Option<Retained>,
                            now: Instant)
    requires Builds(c, o, raw) && Declares(c, m, o) && SnapshotVerdict(c, raw, m, retained, now).Ok?
    ensures |raw| <= MAX_SNAPSHOT_BYTES && Continuable(c, o, raw, retained)
  {
    VerdictBounds(c, raw, m, retained, now);
    var s := BuiltHead(c, o, raw, m);
    AdmittedContinuable(s, Digest(c, raw), m, retained, now);
    RetainedCatalog(c, o, s, retained);
  }

  lemma RetainedCatalog(c: Platform, o: Order, s: CatalogSnapshot, retained: Option<Retained>)
    requires Drafted(c, o.config, o.previous, o.at, o.disk, s) && CheckRetained(s, retained) == None
    ensures SameCatalog(retained, o)
  {
  }

  /**
   When a built snapshot that the manifest declares is accepted: exactly when it is within the size bound, what
   was retained allows it, the clock is in its window, it has at most 512 entries, and no two of its renderable
   entries share a component. The verdict reports the outcome of the comparison and no policy transition, keeps
   exactly the renderable entries, in order, as the builder resolved them, and skips exactly the others.
   */
  lemma BuiltAccepted(c: Platform, o: Order, raw: bytes, m: VerifiedManifest, retained: Option<Retained>, now: Instant)
    requires Builds(c, o, raw) && Declares(c, m, o)
    ensures var ds := Listed(c, o);
            && (SnapshotVerdict(c, raw, m, retained, now).Ok? <==>
                && |raw| <= MAX_SNAPSHOT_BYTES && Continuable(c, o, raw, retained) && InWindow(o, now)
                && |ds| <= MAX_ENTRIES && DistinctDecoded(ds))
            && (SnapshotVerdict(c, raw, m, retained, now).Ok? ==>
                  SnapshotVerdict(c, raw, m, retained, now).value ==
                  VerifiedSnapshot(Typed(raw).value, Kept(ds, |ds|), Indexes(ds, |ds|, false), Digest(c, raw),
                                   CompareChain(Typed(raw).value, Digest(c, raw), retained).value, false))
  {
    if SnapshotVerdict(c, raw, m, retained, now).Ok? { AcceptedContinuable(c, o, raw, m, retained, now); }
    if |raw| <= MAX_SNAPSHOT_BYTES && Continuable(c, o, raw, retained) {
      if InWindow(o, now) {
        var outcome := CompareChain(Typed(raw).value, Digest(c, raw), retained).value;
        var a := FreshVerdict(c, o, raw, m, retained, now, outcome);
        AcceptExact(a, Listed(c, o));
      } else {
        StaleVerdict(c, o, raw, m, retained, now);
      }
    }
  }

  // ----- the builder publishes entries that verifiers skip -----

  const BARE_ID: bytes := COMPONENT_PREFIX + "a"
  const NO_RELATIONSHIP: bytes := "none"
  const SPONSORED: bytes := "sponsored"

  /** An entry without a seat type and without a date. */
  function Bare(uri: bytes, digest: bytes, operator: bytes): CatalogEntry {
    CatalogEntry(BARE_ID, [], ManifestRef(uri, digest), operator, [], [], [], None, NO_RELATIONSHIP, SPONSORED, None)
  }

  /**
   The builder resolves an entry that every verifier then skips: it checks neither the seat type nor the
   dates. `ResolvedSurvives` gives the exact condition under which what it emits is kept.
   */
  lemma BuilderEmitsSkippedEntry(c: Platform, disk: Disk, uri: bytes, key: bytes)
    requires c.validUri(uri) && Text.ValidUtf8(uri) && Sized(key, 32)
    ensures var j := EncodeEntry(Bare(uri, Digest(c, []), OperatorId(key)));
            ResolveEntry(c, disk, j) == Ok(j) && DecodeEntry(c, j) == None
  {
    DigestText(c, []);
    DigestValid(c, []);
    KeyText(key);
    OperatorIdExact(OperatorId(key), key);
    BareSkipped(c, disk, Bare(uri, Digest(c, []), OperatorId(key)));
  }

  lemma BareSkipped(c: Platform, disk: Disk, e: CatalogEntry)
    requires e == Bare(e.manifest.uri, e.manifest.digest, e.operator)
    requires c.validUri(e.manifest.uri) && Text.ValidUtf8(e.manifest.uri)
    requires ValidDigest(e.manifest.digest) && Text.ValidUtf8(e.manifest.digest)
    requires ParseOperatorKey(e.operator).Some? && Text.ValidUtf8(e.operator)
    ensures ResolveEntry(c, disk, EncodeEntry(e)) == Ok(EncodeEntry(e)) && DecodeEntry(c, EncodeEntry(e)) == None
  {
    BarePublishable(c, e.manifest.uri, e.manifest.digest, e.operator);
    ResolveFixedPoint(c, disk, e);
    EntryRoundTrip(e);
  }

  lemma PlainText(e: CatalogEntry)
    requires e.seatType == [] && e.profiles == [] && e.evidence == [] && e.listedAt == [] && e.reviewedAt == None
    requires Text.ValidUtf8(e.componentId) && Text.ValidUtf8(e.manifest.uri) && Text.ValidUtf8(e.manifest.digest)
    requires Text.ValidUtf8(e.operator) && Text.ValidUtf8(e.relationship) && Text.ValidUtf8(e.placement) && e.status == None
    ensures EntryText(e)
  {
  }

  lemma BarePublishable(c: Platform, uri: bytes, digest: bytes, operator: bytes)
    requires c.validUri(uri) && Text.ValidUtf8(uri) && ValidDigest(digest) && Text.ValidUtf8(digest)
    requires ParseOperatorKey(operator).Some? && Text.ValidUtf8(operator)
    ensures EntryText(Bare(uri, digest, operator)) && Publishable(c, Bare(uri, digest, operator))
  {
    BareId();
    BareWords();
    PlainText(Bare(uri, digest, operator));
  }

  lemma BareId()
    ensures ValidComponentId(BARE_ID) && Text.ValidUtf8(BARE_ID)
  {
    Text.AsciiIsUtf8(BARE_ID);
    Prefixed(COMPONENT_PREFIX, "a");
  }

  lemma Prefixed(prefix: bytes, token: bytes)
    ensures StripPrefix(prefix + token, prefix) == Some(token)
  {
    assert (prefix + token)[|prefix|..] == token;
  }

  lemma BareWords()
    ensures Text.ValidUtf8(NO_RELATIONSHIP) && Text.ValidUtf8(SPONSORED)
    ensures NO_RELATIONSHIP in RELATIONSHIPS && SPONSORED in PLACEMENTS
  {
    Text.AsciiIsUtf8(NO_RELATIONSHIP);
    Text.AsciiIsUtf8(SPONSORED);
    assert RELATIONSHIPS[0] == NO_RELATIONSHIP && PLACEMENTS[1] == SPONSORED;
  }

  lemma KeyText(key: bytes)
    requires IsBytes(key)
    ensures Text.ValidUtf8(OperatorId(key))
  {
    Text.HexEncodeDigits(key);
    assert Text.Ascii(KEY_PREFIX) && Text.Ascii(Text.HexEncode(key));
    Text.AsciiIsUtf8(OperatorId(key));
  }
}
