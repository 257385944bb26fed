/** Verification of provider manifests, snapshots and detached signatures. */
module Verify {
  import opened Basics
  import opened Lossy
  import opened Text
  import opened Json
  import opened Objects
  import opened Canonical
  import opened Signing
  import opened Timestamps
  import opened Documents

  datatype Error =
    | ProviderManifestInvalid(fault: Fault)
    | SnapshotInvalid(fault: Fault)
    | SnapshotExpired
    | Malformed
    | Io
    | Panic

  datatype Fault =
    | Structure | WrongProvider | BadSignature | NotFresh | Expired | UndeclaredCatalog | AudienceSkipped
    | OtherProvider | OtherCatalog | PolicyMismatch | Rollback | Fork | InconsistentJump
    | TooManyEntries | DuplicateId | NothingDecodable | DetachedMismatch

  /** The faults that accuse the provider of rewriting its history. */
  predicate Accusation(e: Error) {
    e.SnapshotInvalid? && (e.fault.Rollback? || e.fault.Fork? || e.fault.InconsistentJump?)
  }

  // ----- field rules -----

  predicate TokenChar(c: char) {
    'a' <= c <= 'z' || '0' <= c <= '9' || c == '-'
  }

  /** `[a-z0-9-]{1,64}`. */
  predicate Token(s: bytes) {
    1 <= |s| <= 64 && forall i | 0 <= i < |s| :: TokenChar(s[i])
  }

  predicate ValidCatalogId(value: bytes) {
    Token(value)
  }

  const COMPONENT_PREFIX: bytes := "onym:component:"

  predicate ValidComponentId(value: bytes) {
    var token := StripPrefix(value, COMPONENT_PREFIX);
    token.Some? && Token(token.value)
  }

  predicate ValidSeatTypeMember(value: bytes) {
    value == "*" || (1 <= |value| <= 64 && forall i | 0 <= i < |value| :: TokenChar(value[i]) || value[i] == '.')
  }

  const RELATIONSHIPS: seq<bytes> := [
    "none", "catalog-subscriber", "listing-fee", "sponsored-placement", "common-owner", "catalog-sponsor",
    "other-disclosed"]
  const PLACEMENTS: seq<bytes> := ["policy-ranked", "sponsored"]
  const STATUS_STATES: seq<bytes> := ["warning", "review"]

  predicate ValidStatus(c: Platform, status: Option<EntryStatus>) {
    status.Some? ==>
      status.value.state in STATUS_STATES && (status.value.uri.Some? ==> c.validUri(status.value.uri.value))
  }

  // ----- lossy decoding of entries -----

  function DecodeEntry(c: Platform, j: Json): Option<CatalogEntry> {
    var e :- DecodeEntryShape(j);
    if && ValidComponentId(e.componentId)
       && e.seatType != []
       && c.validUri(e.manifest.uri)
       && ValidDigest(e.manifest.digest)
       && ParseOperatorKey(e.operator).Some?
       && ParseTimestamp(e.listedAt).Some?
       && (e.reviewedAt.Some? ==> ParseTimestamp(e.reviewedAt.value).Some?)
       && e.relationship in RELATIONSHIPS
       && e.placement in PLACEMENTS
       && e.evidence == []
       && ValidStatus(c, e.status)
    then Some(e) else None
  }

  function DecodedEntries(c: Platform, values: seq<Json>): (ds: seq<Option<CatalogEntry>>)
    ensures |ds| == |values| && forall i | 0 <= i < |values| :: ds[i] == DecodeEntry(c, values[i])
  {
    seq(|values|, i requires 0 <= i < |values| => DecodeEntry(c, values[i]))
  }

  function ComponentIds(entries: seq<CatalogEntry>): (ids: seq<bytes>)
    ensures |ids| == |entries| && forall i | 0 <= i < |ids| :: ids[i] == entries[i].componentId
  {
    seq(|entries|, i requires 0 <= i < |entries| => entries[i].componentId)
  }

  // ----- lossy decoding of catalog descriptors -----

  function DecodeDescriptor(c: Platform, j: Json): Option<CatalogDescriptor> {
    var d :- DecodeDescriptorShape(j);
    if && ValidCatalogId(d.catalogId)
       && c.validUri(d.snapshot)
       && ValidDigest(d.policy)
       && c.validUri(d.policyUri)
       && (forall i | 0 <= i < |d.seatTypes| :: ValidSeatTypeMember(d.seatTypes[i]))
       && d.seatTypes != []
       && ("*" in d.seatTypes ==> |d.seatTypes| == 1)
    then Some(d) else None
  }

  function DecodedDescriptors(c: Platform, values: seq<Json>): (ds: seq<Option<CatalogDescriptor>>)
    ensures |ds| == |values| && forall i | 0 <= i < |values| :: ds[i] == DecodeDescriptor(c, values[i])
  {
    seq(|values|, i requires 0 <= i < |values| => DecodeDescriptor(c, values[i]))
  }

  /** The descriptors whose audience is, or is not, exactly `public`. */
  function WithAudience(ds: seq<Option<CatalogDescriptor>>, public: bool): (r: seq<Option<CatalogDescriptor>>)
    ensures |r| == |ds|
    ensures forall i | 0 <= i < |ds| ::
              r[i] == if ds[i].Some? && (ds[i].value.audience == "public") == public then ds[i] else None
  {
    seq(|ds|, i requires 0 <= i < |ds| =>
      if ds[i].Some? && (ds[i].value.audience == "public") == public then ds[i] else None)
  }

  function CatalogIds(ds: seq<CatalogDescriptor>): (ids: seq<bytes>)
    ensures |ids| == |ds| && forall i | 0 <= i < |ids| :: ids[i] == ds[i].catalogId
  {
    seq(|ds|, i requires 0 <= i < |ds| => ds[i].catalogId)
  }

  /** Every descriptor that decoded among the first `n`, of either audience, has its own catalog id. */
  ghost predicate UniqueCatalogs(ds: seq<Option<CatalogDescriptor>>, n: nat)
    requires n <= |ds|
  {
    forall i, j | 0 <= i < j < n && ds[i].Some? && ds[j].Some? :: ds[i].value.catalogId != ds[j].value.catalogId
  }

  /** Public, skipped for audience, skipped as undecodable: every index is exactly one of these. */
  lemma DescriptorsPartitioned(ds: seq<Option<CatalogDescriptor>>, i: nat)
    requires i < |ds|
    ensures ds[i].Some? <==> i in Indexes(WithAudience(ds, true), |ds|, true) || i in Indexes(WithAudience(ds, false), |ds|, true)
    ensures ds[i].None? <==> i in Indexes(ds, |ds|, false)
    ensures !(i in Indexes(WithAudience(ds, true), |ds|, true) && i in Indexes(WithAudience(ds, false), |ds|, true))
  {
    IndexesExact(ds, |ds|, false);
    IndexesExact(WithAudience(ds, true), |ds|, true);
    IndexesExact(WithAudience(ds, false), |ds|, true);
  }

  // ----- provider manifests -----

  datatype VerifiedManifest = VerifiedManifest(
    manifest: ProviderManifest, catalogs: seq<CatalogDescriptor>, skipped: seq<nat>, audienceSkipped: seq<nat>,
    audienceSkippedIds: seq<bytes>)

  /** Do the exact bytes carry a signature by this operator over their signing bytes? */
  predicate SignedBy(c: Platform, raw: bytes, operator: bytes, signature: Option<bytes>) {
    var key := ParseOperatorKey(operator);
    var message := SigningBytes(raw);
    key.Some? && signature.Some? && message.Some? && Verifies(c, key.value, message.value, signature.value)
  }

  /** Everything checked before the descriptors are looked at. */
  function ManifestHead(c: Platform, raw: bytes, now: Instant): Result<ProviderManifest, Error> {
    if |raw| > MAX_MANIFEST_BYTES then Err(ProviderManifestInvalid(Structure))
    else
      var j := Read(raw);
      if j.None? || DecodeManifestShape(j.value).None? then Err(ProviderManifestInvalid(Structure))
      else
        var m := DecodeManifestShape(j.value).value;
        if || m.version != 1 || m.profile != PROFILE || m.seat != "discovery"
           || !ValidComponentId(m.providerId) || ParseOperatorKey(m.operator).None?
        then Err(ProviderManifestInvalid(Structure))
        else if !SignedBy(c, raw, m.operator, m.signature) then Err(ProviderManifestInvalid(BadSignature))
        else
          match ParseTimestamp(m.validUntil)
          case None => Err(ProviderManifestInvalid(Structure))
          case Some(until) => if until <= now then Err(ProviderManifestInvalid(Expired)) else Ok(m)
  }

  /** Two descriptors decoded to one catalog id, or none decoded, or a privacy field is malformed. */
  ghost function ManifestFault(c: Platform, m: ProviderManifest): Option<Fault> {
    var ds := DecodedDescriptors(c, m.catalogs);
    if !UniqueCatalogs(ds, |ds|) then Some(DuplicateId)
    else if forall i | 0 <= i < |ds| :: ds[i].None? then Some(NothingDecodable)
    else if !c.validUri(m.privacyProfileUri) || !ValidDigest(m.privacyProfile) then Some(Structure)
    else None
  }

  ghost function ManifestVerdict(c: Platform, raw: bytes, now: Instant): Result<VerifiedManifest, Error> {
    var m :- ManifestHead(c, raw, now);
    match ManifestFault(c, m)
    case Some(f) => Err(ProviderManifestInvalid(f))
    case None =>
      var ds := DecodedDescriptors(c, m.catalogs);
      Ok(VerifiedManifest(m, Kept(WithAudience(ds, true), |ds|), Indexes(ds, |ds|, false),
                          Indexes(WithAudience(ds, false), |ds|, true),
                          CatalogIds(Kept(WithAudience(ds, false), |ds|))))
  }

  /** The catalog ids of the descriptors that decode among the first `n`. */
  ghost function IdSet(ds: seq<Option<CatalogDescriptor>>, n: nat): set<bytes>
    requires n <= |ds|
  {
    if n == 0 then {}
    else if ds[n - 1].Some? then IdSet(ds, n - 1) + {ds[n - 1].value.catalogId}
    else IdSet(ds, n - 1)
  }

  lemma {:induction false} IdSetExact(ds: seq<Option<CatalogDescriptor>>, n: nat)
    requires n <= |ds|
    ensures forall i | 0 <= i < n && ds[i].Some? :: ds[i].value.catalogId in IdSet(ds, n)
    ensures forall id | id in IdSet(ds, n) :: exists i :: 0 <= i < n && ds[i].Some? && ds[i].value.catalogId == id
  {
    if n > 0 { IdSetExact(ds, n - 1); }
  }

  /** None of the first `n` repeats the catalog id of an earlier one. */
  ghost predicate AllNew(ds: seq<Option<CatalogDescriptor>>, n: nat)
    requires n <= |ds|
  {
    n == 0 || (AllNew(ds, n - 1) && (ds[n - 1].Some? ==> ds[n - 1].value.catalogId !in IdSet(ds, n - 1)))
  }

  lemma {:induction false} AllNewExact(ds: seq<Option<CatalogDescriptor>>, n: nat)
    requires n <= |ds|
    ensures AllNew(ds, n) <==> UniqueCatalogs(ds, n)
  {
    if n > 0 {
      AllNewExact(ds, n - 1);
      IdSetExact(ds, n - 1);
    }
  }

  lemma {:induction false} Repeated(ds: seq<Option<CatalogDescriptor>>, n: nat, m: nat)
    requires n <= m <= |ds| && !AllNew(ds, n)
    ensures !AllNew(ds, m)
  {
    if n < m { Repeated(ds, n, m - 1); }
  }

  lemma IdSetEmpty(ds: seq<Option<CatalogDescriptor>>)
    ensures IdSet(ds, |ds|) == {} <==> forall i | 0 <= i < |ds| :: ds[i].None?
  {
    IdSetExact(ds, |ds|);
  }

  /** What the loop has gathered from the first `n` descriptors. */
  ghost predicate Sorted(ds: seq<Option<CatalogDescriptor>>, n: nat, catalogs: seq<CatalogDescriptor>, skipped: seq<nat>,
                         audienceSkipped: seq<nat>, audienceSkippedIds: seq<bytes>, ids: set<bytes>)
    requires n <= |ds|
  {
    && catalogs == Kept(WithAudience(ds, true), n) && skipped == Indexes(ds, n, false)
    && audienceSkipped == Indexes(WithAudience(ds, false), n, true)
    && audienceSkippedIds == CatalogIds(Kept(WithAudience(ds, false), n)) && ids == IdSet(ds, n)
  }

  lemma SortSkipped(ds: seq<Option<CatalogDescriptor>>, i: nat, catalogs: seq<CatalogDescriptor>, skipped: seq<nat>,
                    audienceSkipped: seq<nat>, audienceSkippedIds: seq<bytes>, ids: set<bytes>)
    requires i < |ds| && ds[i] == None && Sorted(ds, i, catalogs, skipped, audienceSkipped, audienceSkippedIds, ids)
    ensures Sorted(ds, i + 1, catalogs, skipped + [i], audienceSkipped, audienceSkippedIds, ids)
  {
  }

  lemma SortPublic(ds: seq<Option<CatalogDescriptor>>, i: nat, d: CatalogDescriptor, catalogs: seq<CatalogDescriptor>,
                   skipped: seq<nat>, audienceSkipped: seq<nat>, audienceSkippedIds: seq<bytes>, ids: set<bytes>)
    requires i < |ds| && ds[i] == Some(d) && d.audience == "public"
    requires Sorted(ds, i, catalogs, skipped, audienceSkipped, audienceSkippedIds, ids)
    ensures Sorted(ds, i + 1, catalogs + [d], skipped, audienceSkipped, audienceSkippedIds, ids + {d.catalogId})
  {
  }

  lemma SortOther(ds: seq<Option<CatalogDescriptor>>, i: nat, d: CatalogDescriptor, catalogs: seq<CatalogDescriptor>,
                  skipped: seq<nat>, audienceSkipped: seq<nat>, audienceSkippedIds: seq<bytes>, ids: set<bytes>)
    requires i < |ds| && ds[i] == Some(d) && d.audience != "public"
    requires Sorted(ds, i, catalogs, skipped, audienceSkipped, audienceSkippedIds, ids)
    ensures Sorted(ds, i + 1, catalogs, skipped, audienceSkipped + [i], audienceSkippedIds + [d.catalogId],
                   ids + {d.catalogId})
  {
    var others := WithAudience(ds, false);
    assert Kept(others, i + 1) == Kept(others, i) + [d];
    assert CatalogIds(Kept(others, i) + [d]) == CatalogIds(Kept(others, i)) + [d.catalogId];
  }

  /** The descriptor loop: sorts the descriptors, or finds a repeated catalog id. */
  method SortDescriptors(c: Platform, values: seq<Json>)
    returns (unique: bool, catalogs: seq<CatalogDescriptor>, skipped: seq<nat>, audienceSkipped: seq<nat>,
             audienceSkippedIds: seq<bytes>, decodedIds: set<bytes>)
    ensures var ds := DecodedDescriptors(c, values);
            && (unique <==> AllNew(ds, |ds|))
            && (unique ==> Sorted(ds, |ds|, catalogs, skipped, audienceSkipped, audienceSkippedIds, decodedIds))
  {
    unique, catalogs, skipped, audienceSkipped, audienceSkippedIds, decodedIds := true, [], [], [], [], {};
    ghost var ds := DecodedDescriptors(c, values);
    for i := 0 to |values|
      invariant unique && AllNew(ds, i)
      invariant Sorted(ds, i, catalogs, skipped, audienceSkipped, audienceSkippedIds, decodedIds)
    {
      var decoded := DecodeDescriptor(c, values[i]);
      assert ds[i] == decoded;
      match decoded
      case Some(d) =>
        if d.catalogId in decodedIds {
          Repeated(ds, i + 1, |ds|);
          unique := false;
          return;
        }
        if d.audience != "public" {
          SortOther(ds, i, d, catalogs, skipped, audienceSkipped, audienceSkippedIds, decodedIds);
          audienceSkipped := audienceSkipped + [i];
          audienceSkippedIds := audienceSkippedIds + [d.catalogId];
        } else {
          SortPublic(ds, i, d, catalogs, skipped, audienceSkipped, audienceSkippedIds, decodedIds);
          catalogs := catalogs + [d];
        }
        decodedIds := decodedIds + {d.catalogId};
      case None =>
        SortSkipped(ds, i, catalogs, skipped, audienceSkipped, audienceSkippedIds, decodedIds);
        skipped := skipped + [i];
    }
  }

  method VerifyManifest(c: Platform, raw: bytes, now: Instant) returns (r: Result<VerifiedManifest, Error>)
    ensures r == ManifestVerdict(c, raw, now)
  {
    var head := ManifestHead(c, raw, now);
    if head.Err? { return Err(head.error); }
    var m := head.value;
    var unique, catalogs, skipped, audienceSkipped, audienceSkippedIds, decodedIds := SortDescriptors(c, m.catalogs);
    ghost var ds := DecodedDescriptors(c, m.catalogs);
    AllNewExact(ds, |ds|);
    IdSetEmpty(ds);
    if !unique { return Err(ProviderManifestInvalid(DuplicateId)); }
    if decodedIds == {} { return Err(ProviderManifestInvalid(NothingDecodable)); }
    if !c.validUri(m.privacyProfileUri) || !ValidDigest(m.privacyProfile) {
      return Err(ProviderManifestInvalid(Structure));
    }
    r := Ok(VerifiedManifest(m, catalogs, skipped, audienceSkipped, audienceSkippedIds));
  }

  /** A place in `ds` for each descriptor kept with a given audience, in increasing order. */
  ghost predicate Placed(ds: seq<Option<CatalogDescriptor>>, public: bool, kept: seq<CatalogDescriptor>, at: seq<nat>) {
    && |at| == |kept| && Increasing(at)
    && forall k | 0 <= k < |at| ::
         at[k] < |ds| && ds[at[k]] == Some(kept[k]) && (kept[k].audience == "public") == public
  }

  lemma KeptPlaced(ds: seq<Option<CatalogDescriptor>>, public: bool) returns (at: seq<nat>)
    ensures Placed(ds, public, Kept(WithAudience(ds, public), |ds|), at)
  {
    var w := WithAudience(ds, public);
    at := Indexes(w, |ds|, true);
    KeptExact(w, |ds|);
    IndexesExact(w, |ds|, true);
  }

  /**
   A verified manifest names each catalog once, over the public and the audience-skipped descriptors
   together, and has decoded at least one of them.
   */
  lemma VerifiedManifestCatalogs(c: Platform, raw: bytes, now: Instant)
    requires ManifestVerdict(c, raw, now).Ok?
    ensures var v := ManifestVerdict(c, raw, now).value;
            && Distinct(CatalogIds(v.catalogs) + v.audienceSkippedIds)
            && |v.catalogs| + |v.audienceSkipped| > 0
            && |v.audienceSkipped| == |v.audienceSkippedIds|
            && |v.catalogs| + |v.audienceSkipped| + |v.skipped| == |v.manifest.catalogs|
  {
    var v := ManifestVerdict(c, raw, now).value;
    SortedCatalogs(DecodedDescriptors(c, v.manifest.catalogs));
  }

  lemma SortedCatalogs(ds: seq<Option<CatalogDescriptor>>)
    requires UniqueCatalogs(ds, |ds|) && !forall i | 0 <= i < |ds| :: ds[i].None?
    ensures var public, others := Kept(WithAudience(ds, true), |ds|), Kept(WithAudience(ds, false), |ds|);
            && Distinct(CatalogIds(public) + CatalogIds(others))
            && |public| + |Indexes(WithAudience(ds, false), |ds|, true)| > 0
            && |Indexes(WithAudience(ds, false), |ds|, true)| == |CatalogIds(others)|
            && |public| + |Indexes(WithAudience(ds, false), |ds|, true)| + |Indexes(ds, |ds|, false)| == |ds|
  {
    VerifiedCatalogsDistinct(ds);
    DescriptorCounts(ds, |ds|);
    KeptExact(WithAudience(ds, false), |ds|);
    KeptExact(WithAudience(ds, true), |ds|);
    var i :| 0 <= i < |ds| && ds[i].Some?;
    DescriptorsPartitioned(ds, i);
  }

  lemma VerifiedCatalogsDistinct(ds: seq<Option<CatalogDescriptor>>)
    requires UniqueCatalogs(ds, |ds|)
    ensures Distinct(CatalogIds(Kept(WithAudience(ds, true), |ds|)) + CatalogIds(Kept(WithAudience(ds, false), |ds|)))
  {
    var a, b := Kept(WithAudience(ds, true), |ds|), Kept(WithAudience(ds, false), |ds|);
    var at := KeptPlaced(ds, true);
    var bt := KeptPlaced(ds, false);
    PlacedDistinct(ds, a, b, at, bt);
  }

  lemma PlacedDistinct(ds: seq<Option<CatalogDescriptor>>, a: seq<CatalogDescriptor>, b: seq<CatalogDescriptor>,
                       at: seq<nat>, bt: seq<nat>)
    requires UniqueCatalogs(ds, |ds|) && Placed(ds, true, a, at) && Placed(ds, false, b, bt)
    ensures Distinct(CatalogIds(a) + CatalogIds(b))
  {
    var ids, places := CatalogIds(a) + CatalogIds(b), at + bt;
    forall i, j | 0 <= i < j < |ids| ensures ids[i] != ids[j] {
      assert places[i] != places[j];
      assert ds[places[i]].Some? && ds[places[j]].Some?;
      assert ids[i] == ds[places[i]].value.catalogId && ids[j] == ds[places[j]].value.catalogId;
    }
  }

  lemma {:induction false} DescriptorCounts(ds: seq<Option<CatalogDescriptor>>, n: nat)
    requires n <= |ds|
    ensures |Kept(WithAudience(ds, true), n)| + |Indexes(WithAudience(ds, false), n, true)| + |Indexes(ds, n, false)| == n
  {
    if n > 0 { DescriptorCounts(ds, n - 1); }
  }

  // ----- retained state and the four-case comparison -----

  datatype Retained = Retained(
    providerId: bytes, catalogId: bytes, sequence: u64, digest: bytes, previousPolicy: Option<bytes>)

  datatype ChainOutcome = FirstAcceptance | Successor | NoOpRefresh | ForwardJump(missed: u64)

  datatype VerifiedSnapshot = VerifiedSnapshot(
    snapshot: CatalogSnapshot, entries: seq<CatalogEntry>, skipped: seq<nat>, digest: bytes,
    outcome: ChainOutcome, policyTransition: bool)

  /** Retained state from the bytes of a previously accepted snapshot. */
  function FromSnapshotBytes(c: Platform, raw: bytes, previousPolicy: Option<bytes>): Option<Retained> {
    var j :- StrictRead(raw);
    var s :- DecodeSnapshotShape(j);
    Some(Retained(s.providerId, s.catalogId, s.sequence, Digest(c, raw), previousPolicy))
  }

  /** What to retain after accepting `v`: the grace survives only while it is still cited. */
  function AfterAcceptance(previous: Option<Retained>, v: VerifiedSnapshot): Retained {
    Retained(v.snapshot.providerId, v.snapshot.catalogId, v.snapshot.sequence, v.digest,
             if v.policyTransition && previous.Some? then previous.value.previousPolicy else None)
  }

  /** The typed snapshot that raw bytes decode to. */
  function Typed(raw: bytes): Option<CatalogSnapshot> {
    var j :- Read(raw);
    DecodeSnapshotShape(j)
  }

  /** Schema, identity and signature: all that is checked before any claim about the provider. */
  function SnapshotHead(c: Platform, raw: bytes, m: VerifiedManifest): Result<CatalogSnapshot, Error> {
    if |raw| > MAX_SNAPSHOT_BYTES || Typed(raw).None? then Err(SnapshotInvalid(Structure))
    else
      var s := Typed(raw).value;
      if s.version != 1 || s.profile != PROFILE then Err(SnapshotInvalid(Structure))
      else if s.providerId != m.manifest.providerId then Err(SnapshotInvalid(WrongProvider))
      else if !SignedBy(c, raw, m.manifest.operator, s.signature) then Err(SnapshotInvalid(BadSignature))
      else Ok(s)
  }

  function CheckFreshness(s: CatalogSnapshot, now: Instant): Option<Error> {
    match (ParseTimestamp(s.generatedAt), ParseTimestamp(s.expiresAt))
    case (Some(generated), Some(expires)) =>
      if expires <= generated || expires - generated > MAX_EXPIRY_DAYS * DAY || generated > now + CLOCK_SKEW then
        Some(SnapshotInvalid(NotFresh))
      else if expires + CLOCK_SKEW < now then Some(SnapshotExpired)
      else None
    case _ => Some(SnapshotInvalid(Structure))
  }

  function FindCatalog(catalogs: seq<CatalogDescriptor>, id: bytes): Option<CatalogDescriptor> {
    if catalogs == [] then None
    else if catalogs[0].catalogId == id then Some(catalogs[0])
    else FindCatalog(catalogs[1..], id)
  }

  /** The first descriptor for this catalog. */
  ghost predicate FirstWith(catalogs: seq<CatalogDescriptor>, id: bytes, i: nat) {
    i < |catalogs| && catalogs[i].catalogId == id && forall k | 0 <= k < i :: catalogs[k].catalogId != id
  }

  /** The catalog is declared, by its first descriptor with this policy. */
  ghost predicate DeclaredAs(catalogs: seq<CatalogDescriptor>, id: bytes, policy: bytes) {
    exists i: nat :: FirstWith(catalogs, id, i) && catalogs[i].policy == policy
  }

  lemma {:induction false} FindCatalogExact(catalogs: seq<CatalogDescriptor>, id: bytes)
    ensures match FindCatalog(catalogs, id)
            case Some(d) => exists i: nat :: FirstWith(catalogs, id, i) && catalogs[i] == d
            case None => forall i | 0 <= i < |catalogs| :: catalogs[i].catalogId != id
  {
    if catalogs == [] {
    } else if catalogs[0].catalogId == id {
      assert FirstWith(catalogs, id, 0);
    } else {
      FindCatalogExact(catalogs[1..], id);
      if FindCatalog(catalogs[1..], id).Some? {
        var i: nat :| FirstWith(catalogs[1..], id, i) && catalogs[1..][i] == FindCatalog(catalogs[1..], id).value;
        assert catalogs[i + 1] == catalogs[1..][i];
        forall k | 0 <= k < i + 1 ensures catalogs[k].catalogId != id {
          if k > 0 { assert catalogs[k] == catalogs[1..][k - 1]; }
        }
        assert FirstWith(catalogs, id, i + 1);
      } else {
        forall k | 0 <= k < |catalogs| ensures catalogs[k].catalogId != id {
          if k > 0 { assert catalogs[k] == catalogs[1..][k - 1]; }
        }
      }
    }
  }

  lemma FirstUnique(catalogs: seq<CatalogDescriptor>, id: bytes, i: nat, k: nat)
    requires FirstWith(catalogs, id, i) && FirstWith(catalogs, id, k)
    ensures i == k
  {
  }

  lemma FoundPolicy(catalogs: seq<CatalogDescriptor>, id: bytes, policy: bytes)
    ensures DeclaredAs(catalogs, id, policy) <==>
            FindCatalog(catalogs, id).Some? && FindCatalog(catalogs, id).value.policy == policy
  {
    FindCatalogExact(catalogs, id);
    if FindCatalog(catalogs, id).Some? {
      var i: nat :| FirstWith(catalogs, id, i) && catalogs[i] == FindCatalog(catalogs, id).value;
      forall k: nat | FirstWith(catalogs, id, k) ensures k == i { FirstUnique(catalogs, id, i, k); }
    }
  }

  function CheckRetained(s: CatalogSnapshot, retained: Option<Retained>): Option<Error> {
    if retained.None? then None
    else if retained.value.providerId != s.providerId then Some(SnapshotInvalid(OtherProvider))
    else if retained.value.catalogId != s.catalogId then Some(SnapshotInvalid(OtherCatalog))
    else None
  }

  /** The snapshot cites the current policy, or (a transition) the one retained from before. */
  function CheckPolicy(s: CatalogSnapshot, current: bytes, retained: Option<Retained>): Result<bool, Error> {
    if !ValidDigest(s.policyDigest) then Err(SnapshotInvalid(Structure))
    else if s.policyDigest == current then Ok(false)
    else if retained.Some? && retained.value.previousPolicy == Some(s.policyDigest) then Ok(true)
    else Err(SnapshotInvalid(PolicyMismatch))
  }

  predicate ChainShape(s: CatalogSnapshot) {
    s.sequence != 0
    && (if s.sequence == 1 then s.previousDigest.None?
        else s.previousDigest.Some? && ValidDigest(s.previousDigest.value))
  }

  /** The comparison against the retained acceptance; 64-bit arithmetic never overflows in it. */
  function CompareChain(s: CatalogSnapshot, digest: bytes, retained: Option<Retained>): Result<ChainOutcome, Error> {
    if retained.None? then Ok(FirstAcceptance)
    else
      var r := retained.value;
      if s.sequence < r.sequence then Err(SnapshotInvalid(Rollback))
      else if s.sequence == r.sequence then
        if digest == r.digest then Ok(NoOpRefresh) else Err(SnapshotInvalid(Fork))
      else if s.sequence == r.sequence + 1 then
        if s.previousDigest != Some(r.digest) then Err(SnapshotInvalid(Fork)) else Ok(Successor)
      else if s.previousDigest == Some(r.digest) then Err(SnapshotInvalid(InconsistentJump))
      else Ok(ForwardJump(s.sequence - r.sequence - 1))
  }

  datatype Admission = Admission(snapshot: CatalogSnapshot, digest: bytes, outcome: ChainOutcome, transition: bool)

  /** The checks against what the client retained. */
  function AdmitAgainst(s: CatalogSnapshot, digest: bytes, policy: bytes, retained: Option<Retained>)
    : Result<Admission, Error>
  {
    var foreign := CheckRetained(s, retained);
    if foreign.Some? then Err(foreign.value)
    else
      var transition :- CheckPolicy(s, policy, retained);
      if !ChainShape(s) then Err(SnapshotInvalid(Structure))
      else
        var outcome :- CompareChain(s, digest, retained);
        Ok(Admission(s, digest, outcome, transition))
  }

  /** The checks on a signed snapshot: freshness, the catalog it belongs to, the retained state. */
  function AdmitSigned(s: CatalogSnapshot, digest: bytes, m: VerifiedManifest, retained: Option<Retained>, now: Instant)
    : Result<Admission, Error>
  {
    var stale := CheckFreshness(s, now);
    if stale.Some? then Err(stale.value)
    else
      var d := FindCatalog(m.catalogs, s.catalogId);
      if d.None? then
        Err(SnapshotInvalid(if s.catalogId in m.audienceSkippedIds then AudienceSkipped else UndeclaredCatalog))
      else AdmitAgainst(s, digest, d.value.policy, retained)
  }

  /** Everything checked before the entries are looked at. */
  function Admit(c: Platform, raw: bytes, m: VerifiedManifest, retained: Option<Retained>, now: Instant)
    : Result<Admission, Error>
  {
    var s :- SnapshotHead(c, raw, m);
    AdmitSigned(s, Digest(c, raw), m, retained, now)
  }

  /** What is accepted of an admitted snapshot, given how each of its entries decodes. */
  function Accept(a: Admission, ds: seq<Option<CatalogEntry>>): Result<VerifiedSnapshot, Error> {
    if |ds| > MAX_ENTRIES then Err(SnapshotInvalid(TooManyEntries))
    else
      var entries := Kept(ds, |ds|);
      if !Distinct(ComponentIds(entries)) then Err(SnapshotInvalid(DuplicateId))
      else
        Ok(VerifiedSnapshot(a.snapshot, entries, Indexes(ds, |ds|, false), a.digest, a.outcome, a.transition))
  }

  function SnapshotVerdict(c: Platform, raw: bytes, m: VerifiedManifest, retained: Option<Retained>, now: Instant)
    : Result<VerifiedSnapshot, Error>
  {
    var a :- Admit(c, raw, m, retained, now);
    Accept(a, DecodedEntries(c, a.snapshot.entries))
  }

  /** The lossy entry loop. */
  method DecodeEntries(c: Platform, values: seq<Json>) returns (entries: seq<CatalogEntry>, skipped: seq<nat>)
    ensures entries == Kept(DecodedEntries(c, values), |values|)
    ensures skipped == Indexes(DecodedEntries(c, values), |values|, false)
  {
    entries, skipped := [], [];
    ghost var ds := DecodedEntries(c, values);
    for i := 0 to |values|
      invariant entries == Kept(ds, i) && skipped == Indexes(ds, i, false)
    {
      var d := DecodeEntry(c, values[i]);
      assert ds[i] == d;
      match d
      case Some(e) => entries := entries + [e];
      case None => skipped := skipped + [i];
    }
  }

  /** The duplicate loop over the entries that survived. */
  method UniqueComponents(entries: seq<CatalogEntry>) returns (unique: bool)
    ensures unique <==> Distinct(ComponentIds(entries))
  {
    var seen: set<bytes> := {};
    ghost var ids := ComponentIds(entries);
    for i := 0 to |entries|
      invariant forall j, k | 0 <= j < k < i :: ids[j] != ids[k]
      invariant forall id :: id in seen <==> exists k :: 0 <= k < i && ids[k] == id
    {
      if entries[i].componentId in seen { return false; }
      seen := seen + {entries[i].componentId};
    }
    return true;
  }

  method VerifySnapshot(c: Platform, raw: bytes, m: VerifiedManifest, retained: Option<Retained>, now: Instant)
    returns (r: Result<VerifiedSnapshot, Error>)
    ensures r == SnapshotVerdict(c, raw, m, retained, now)
  {
    var admission := Admit(c, raw, m, retained, now);
    if admission.Err? { return Err(admission.error); }
    var a := admission.value;
    if |a.snapshot.entries| > MAX_ENTRIES { return Err(SnapshotInvalid(TooManyEntries)); }
    var entries, skipped := DecodeEntries(c, a.snapshot.entries);
    var unique := UniqueComponents(entries);
    if !unique { return Err(SnapshotInvalid(DuplicateId)); }
    r := Ok(VerifiedSnapshot(a.snapshot, entries, skipped, a.digest, a.outcome, a.transition));
  }

  /** Claims about what the provider published are only made of bytes whose content carries its signature. */
  lemma AccusationsAreSigned(c: Platform, raw: bytes, m: VerifiedManifest, retained: Option<Retained>, now: Instant)
    requires SnapshotVerdict(c, raw, m, retained, now).Err?
    requires var e := SnapshotVerdict(c, raw, m, retained, now).error;
             Accusation(e) || e.SnapshotExpired? || (e.SnapshotInvalid? && e.fault.NotFresh?)
    ensures Typed(raw).Some? && SignedBy(c, raw, m.manifest.operator, Typed(raw).value.signature)
  {
  }

  /** What bytes that the operator did not sign can come to: never a claim about what it published. */
  lemma UnsignedSnapshot(c: Platform, raw: bytes, m: VerifiedManifest, retained: Option<Retained>, now: Instant)
    requires Typed(raw).Some? ==> !SignedBy(c, raw, m.manifest.operator, Typed(raw).value.signature)
    ensures var verdict := SnapshotVerdict(c, raw, m, retained, now);
            && verdict.Err? && verdict.error.SnapshotInvalid?
            && (verdict.error.fault.Structure? || verdict.error.fault.WrongProvider? || verdict.error.fault.BadSignature?)
  {
    assert SnapshotHead(c, raw, m).Err?;
  }

  /** The same for manifests: no expiry, repeated id or empty catalog list is diagnosed in unsigned bytes. */
  lemma UnsignedManifest(c: Platform, raw: bytes, now: Instant)
    requires Read(raw).Some? && DecodeManifestShape(Read(raw).value).Some? ==>
               var m := DecodeManifestShape(Read(raw).value).value; !SignedBy(c, raw, m.operator, m.signature)
    ensures var verdict := ManifestVerdict(c, raw, now);
            && verdict.Err? && verdict.error.ProviderManifestInvalid?
            && (verdict.error.fault.Structure? || verdict.error.fault.BadSignature?)
  {
    assert ManifestHead(c, raw, now).Err?;
  }

  /** An accepted snapshot has one reading: it repeats no key, so its typed decoding agrees with its tree. */
  lemma AcceptedOneReading(c: Platform, raw: bytes, m: VerifiedManifest, retained: Option<Retained>, now: Instant)
    requires SnapshotVerdict(c, raw, m, retained, now).Ok?
    ensures var j := Read(raw).value;
            && NoDuplicates(j) && NormalFirst(j) == Normal(j)
            && DecodeSnapshotShape(Normal(j)) == DecodeSnapshotShape(j)
            && FromSnapshotBytes(c, raw, None).Some?
  {
    var j := Read(raw).value;
    OneReading(j);
    SnapshotOneReading(j);
  }

  /** A verified manifest has one reading: it repeats no key, so its typed decoding agrees with its tree. */
  lemma ManifestOneReading(c: Platform, raw: bytes, now: Instant)
    requires ManifestVerdict(c, raw, now).Ok?
    ensures Read(raw).Some?
    ensures var j := Read(raw).value;
            && NoDuplicates(j) && NormalFirst(j) == Normal(j)
            && DecodeManifestShape(Normal(j)) == DecodeManifestShape(j) == Some(ManifestVerdict(c, raw, now).value.manifest)
  {
    HeadOneReading(c, raw, now);
    var j := Read(raw).value;
    OneReading(j);
    ManifestFieldsOneReading(j);
  }

  lemma HeadOneReading(c: Platform, raw: bytes, now: Instant)
    requires ManifestHead(c, raw, now).Ok?
    ensures Read(raw).Some? && NoDuplicates(Read(raw).value)
    ensures DecodeManifestShape(Read(raw).value) == Some(ManifestHead(c, raw, now).value)
  {
  }

  lemma ManifestFieldsOneReading(j: Json)
    requires NoDuplicates(j) && DecodeManifestShape(j).Some?
    ensures DecodeManifestShape(Normal(j)) == DecodeManifestShape(j)
  {
    FieldsOneReading(MANIFEST_FIELDS, j);
    var f, g := Fields(MANIFEST_FIELDS, j).value, Fields(MANIFEST_FIELDS, Normal(j)).value;
    forall i | 0 <= i < 12 ensures g[i] == match f[i] case Some(v) => Some(Normal(v)) case None => None {}
    SameManifestFields(f, g);
  }

  lemma SameManifestFields(f: seq<Option<Json>>, g: seq<Option<Json>>)
    requires |f| == 12 && |g| == 12
    requires forall i | 0 <= i < 12 :: g[i] == match f[i] case Some(v) => Some(Normal(v)) case None => None
    requires ManifestOf(f).Some?
    ensures ManifestOf(g) == ManifestOf(f)
  {
    NormalIdempotent(Arr(f[5].value.items));
    NormalIdempotent(Arr(f[9].value.items));
    assert AsValues(g[5]) == AsValues(f[5]) && AsValues(g[9]) == AsValues(f[9]);
    TextsNormal(f[6].value.items);
    assert AsTexts(g[6]) == AsTexts(f[6]);
  }

  lemma {:induction false} TextsNormal(items: seq<Json>)
    requires Texts(items).Some?
    ensures NormalItems(items) == items
  {
    if items != [] { TextsNormal(items[1..]); }
  }

  lemma NormalIdempotent(j: Json)
    ensures Normal(Normal(j)) == Normal(j)
  {
    NormalOrdered(j);
    NormalOfOrdered(Normal(j));
  }

  lemma {:induction false} NormalOrdered(j: Json)
    ensures Ordered(Normal(j))
    decreases j
  {
    match j
    case Arr(items) => forall i | 0 <= i < |items| ensures Ordered(Normal(items[i])) { NormalOrdered(items[i]); }
    case Obj(ms) =>
      InsertAllOrdered([], ms);
      AscendingDistinct(InsertAll([], ms));
    case _ =>
  }

  lemma {:induction false} InsertAllOrdered(acc: seq<Member>, ms: seq<Member>)
    requires AscendingKeys(acc) && forall m | m in acc :: Ordered(m.value)
    ensures AscendingKeys(InsertAll(acc, ms)) && forall i | 0 <= i < |InsertAll(acc, ms)| :: Ordered(InsertAll(acc, ms)[i].value)
    decreases ms
  {
    if ms != [] {
      NormalOrdered(ms[0].value);
      InsertAscending(acc, ms[0].key, Normal(ms[0].value));
      InsertMembers(acc, ms[0].key, Normal(ms[0].value));
      InsertAllOrdered(Insert(acc, ms[0].key, Normal(ms[0].value)), ms[1..]);
    } else {
      assert forall i | 0 <= i < |acc| :: acc[i] in acc;
    }
  }

  lemma SnapshotOneReading(j: Json)
    requires NoDuplicates(j) && DecodeSnapshotShape(j).Some?
    ensures DecodeSnapshotShape(Normal(j)) == DecodeSnapshotShape(j)
  {
    FieldsOneReading(SNAPSHOT_FIELDS, j);
    var f, g := Fields(SNAPSHOT_FIELDS, j).value, Fields(SNAPSHOT_FIELDS, Normal(j)).value;
    forall i | 0 <= i < 11 ensures g[i] == match f[i] case Some(v) => Some(Normal(v)) case None => None {}
    SameSnapshotFields(f, g);
  }

  lemma SameSnapshotFields(f: seq<Option<Json>>, g: seq<Option<Json>>)
    requires |f| == 11 && |g| == 11
    requires forall i | 0 <= i < 11 :: g[i] == match f[i] case Some(v) => Some(Normal(v)) case None => None
    requires SnapshotOf(f).Some?
    ensures SnapshotOf(g) == SnapshotOf(f)
  {
    var items := f[9].value.items;
    NormalIdempotent(Arr(items));
    assert AsValues(g[9]) == AsValues(f[9]);
  }

  // ----- detached signatures -----

  function TrimLineEndings(s: bytes): (r: bytes)
    ensures |r| <= |s|
  {
    if s != [] && (s[|s| - 1] == '\r' || s[|s| - 1] == '\n') then TrimLineEndings(s[..|s| - 1]) else s
  }

  /** The signature file agrees with the embedded signature after base64 decoding. */
  function VerifyDetachedSig(document: bytes, file: bytes, snapshot: bool): Option<Error> {
    var fault := if snapshot then SnapshotInvalid(DetachedMismatch) else ProviderManifestInvalid(DetachedMismatch);
    if StrictRead(document).None? || !ValidUtf8(file) then Some(fault)
    else
      var embedded := DetachedSignature(document);
      if embedded.None? then Some(fault)
      else
        var a := DecodeSignature(embedded.value);
        var b := DecodeSignature(TrimLineEndings(file));
        if a.Some? && b.Some? && a == b then None else Some(fault)
  }

  predicate LineEndings(s: bytes) {
    forall i | 0 <= i < |s| :: s[i] == '\r' || s[i] == '\n'
  }

  lemma {:induction false} TrimAppended(s: bytes, tail: bytes)
    requires LineEndings(tail) && (s != [] ==> s[|s| - 1] != '\r' && s[|s| - 1] != '\n')
    ensures TrimLineEndings(s + tail) == s
    decreases |tail|
  {
    if tail == [] {
      assert s + tail == s;
    } else {
      var t := s + tail;
      assert t[..|t| - 1] == s + tail[..|tail| - 1];
      TrimAppended(s, tail[..|tail| - 1]);
    }
  }

  lemma {:induction false} TrimSplits(file: bytes)
    ensures exists tail :: LineEndings(tail) && file == TrimLineEndings(file) + tail
  {
    if file != [] && (file[|file| - 1] == '\r' || file[|file| - 1] == '\n') {
      TrimSplits(file[..|file| - 1]);
      var tail :| LineEndings(tail) && file[..|file| - 1] == TrimLineEndings(file[..|file| - 1]) + tail;
      assert LineEndings(tail + [file[|file| - 1]]);
      assert file == TrimLineEndings(file) + (tail + [file[|file| - 1]]);
    } else {
      assert LineEndings([]);
      assert file == TrimLineEndings(file) + [];
    }
  }

  /** The signature file published beside a signed document agrees with it, whatever line endings follow. */
  lemma PublishedSigAgrees(c: Platform, raw: bytes, key: bytes, tail: bytes, snapshot: bool)
    requires SigningBytes(raw).Some? && LineEndings(tail)
    ensures SignDocument(c, raw, key).Some? && DetachedSignature(SignDocument(c, raw, key).value).Some?
    ensures var out := SignDocument(c, raw, key).value;
            VerifyDetachedSig(out, DetachedSignature(out).value + tail, snapshot) == None
  {
    PublishedVerifies(c, raw, key);
    SignDocumentKeepsContent(c, raw, key);
    var signature := c.sign(key, SigningBytes(raw).value);
    assert Sized(signature, 64);
    SignatureFileText(signature, tail);
    SignatureSpellings(Base64(signature), signature);
    DetachedSpellings(SignDocument(c, raw, key).value, Base64(signature) + tail, snapshot, signature);
  }

  lemma SignatureFileText(signature: bytes, tail: bytes)
    requires Sized(signature, 64) && LineEndings(tail)
    ensures TrimLineEndings(Base64(signature) + tail) == Base64(signature) && ValidUtf8(Base64(signature) + tail)
  {
    var text := Base64(signature);
    SignaturePadding(signature);
    Base64Ascii(signature);
    assert text[|text| - 1] == '=';
    TrimAppended(text, tail);
    AsciiIsUtf8(text + tail);
  }

  /** Exactly the padded and the unpadded text of the embedded signature agree with a document. */
  lemma DetachedSpellings(document: bytes, file: bytes, snapshot: bool, embedded: bytes)
    requires StrictRead(document).Some? && DetachedSignature(document).Some?
    requires DecodeSignature(DetachedSignature(document).value) == Some(embedded)
    ensures VerifyDetachedSig(document, file, snapshot) == None <==>
            && ValidUtf8(file) && IsBytes(embedded)
            && TrimLineEndings(file) in {Base64(embedded), Base64Unpadded(embedded)}
  {
    SignatureSpellings(DetachedSignature(document).value, embedded);
    SignatureSpellings(TrimLineEndings(file), embedded);
  }

  /** The document repeats no key, and has these 64 bytes, in either spelling, as its top-level `signature`. */
  ghost predicate Embeds(document: bytes, text: bytes, bits: bytes) {
    && Read(document).Some? && NoDuplicates(Read(document).value) && Read(document).value.Obj?
    && Lookup(Read(document).value.members, "signature") == Some(Str(text))
    && Sized(bits, 64) && (text == Base64(bits) || text == Base64Unpadded(bits))
  }

  /** The file is UTF-8: the same 64 bytes, in either spelling, and then only line endings. */
  ghost predicate Carries(file: bytes, text: bytes, tail: bytes, bits: bytes) {
    && ValidUtf8(file) && file == text + tail && LineEndings(tail)
    && Sized(bits, 64) && (text == Base64(bits) || text == Base64Unpadded(bits))
  }

  lemma DetachedText(document: bytes, text: bytes)
    requires StrictRead(document).Some?
    ensures DetachedSignature(document) == Some(text) <==>
            Read(document).value.Obj? && Lookup(Read(document).value.members, "signature") == Some(Str(text))
  {
    var j := Read(document).value;
    if j.Obj? { InsertAllLookup([], j.members, SIGNATURE); }
  }

  lemma HeldText(file: bytes, text: bytes, tail: bytes, bits: bytes)
    requires Carries(file, text, tail, bits)
    ensures TrimLineEndings(file) == text && DecodeSignature(text) == Some(bits)
  {
    SignatureSpellings(text, bits);
    SignaturePadding(bits);
    Base64Ends(bits);
    TrimAppended(text, tail);
  }

  lemma {:induction false} Base64Ends(b: bytes)
    requires IsBytes(b) && b != []
    ensures Base64Unpadded(b) != [] && Base64Unpadded(b)[|Base64Unpadded(b)| - 1] != '\r'
    ensures Base64Unpadded(b)[|Base64Unpadded(b)| - 1] != '\n'
  {
    if |b| > 3 { Base64Ends(b[3..]); }
  }

  /**
   Exactly when a signature file agrees with a document, for all documents and files: when some 64 bytes are both
   the signature that the document embeds and what the file holds. In every other case the fault is a mismatch, of
   the snapshot or of the manifest as the caller says.
   */
  lemma DetachedExact(document: bytes, file: bytes, snapshot: bool)
    ensures VerifyDetachedSig(document, file, snapshot) == None <==>
            exists embedded, text, tail, bits :: Embeds(document, embedded, bits) && Carries(file, text, tail, bits)
    ensures VerifyDetachedSig(document, file, snapshot) != None ==>
              VerifyDetachedSig(document, file, snapshot) ==
              Some(if snapshot then SnapshotInvalid(DetachedMismatch) else ProviderManifestInvalid(DetachedMismatch))
  {
    if VerifyDetachedSig(document, file, snapshot) == None { DetachedCarries(document, file, snapshot); }
    forall embedded, text, tail, bits | Embeds(document, embedded, bits) && Carries(file, text, tail, bits)
      ensures VerifyDetachedSig(document, file, snapshot) == None
    {
      DetachedText(document, embedded);
      SignatureSpellings(embedded, bits);
      HeldText(file, text, tail, bits);
    }
  }

  lemma DetachedCarries(document: bytes, file: bytes, snapshot: bool)
    requires VerifyDetachedSig(document, file, snapshot) == None
    ensures exists embedded, text, tail, bits :: Embeds(document, embedded, bits) && Carries(file, text, tail, bits)
  {
    var embedded, text := DetachedSignature(document).value, TrimLineEndings(file);
    var bits := DecodeSignature(embedded).value;
    DetachedText(document, embedded);
    SignatureSpellings(embedded, bits);
    SignatureSpellings(text, bits);
    TrimSplits(file);
    var tail :| LineEndings(tail) && file == text + tail;
    assert Embeds(document, embedded, bits) && Carries(file, text, tail, bits);
  }
}
