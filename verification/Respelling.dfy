/** Other spellings of a signed snapshot: the signature covers the content, the comparison the exact bytes. */
module Respelling {
  import opened Basics
  import opened Json
  import opened Objects
  import opened Grammar
  import opened Canonical
  import opened Signing
  import opened Timestamps
  import opened Documents
  import opened Verify
  import opened Protocol
  import opened Accepted
  import opened Walk

  /** Other bytes with the same signed content, and with a signature by the operator that verifies. */
  ghost predicate Respells(c: Platform, raw: bytes, other: bytes, operator: bytes) {
    && SigningBytes(raw).Some? && SigningBytes(other) == SigningBytes(raw)
    && Typed(other).Some? && SignedBy(c, other, operator, Typed(other).value.signature)
  }

  // ----- the same signed content types alike -----

  lemma MemberFields(raw: bytes, s: CatalogSnapshot) returns (f: seq<Option<Json>>)
    requires SigningBytes(raw).Some? && Typed(raw) == Some(s)
    ensures |f| == 11 && SnapshotOf(f) == Some(s)
    ensures forall i | 0 <= i < 11 :: f[i] == Lookup(TopLevel(raw), SNAPSHOT_FIELDS[i])
  {
    var j := Read(raw).value;
    SnapshotOneReading(j);
    f := Fields(SNAPSHOT_FIELDS, Normal(j)).value;
  }

  lemma OnlySignature(f: seq<Option<Json>>, g: seq<Option<Json>>, s: CatalogSnapshot, t: CatalogSnapshot)
    requires |f| == 11 && |g| == 11 && SnapshotOf(f) == Some(s) && SnapshotOf(g) == Some(t)
    requires forall i | 0 <= i < 10 :: f[i] == g[i]
    ensures t == s.(signature := t.signature)
  {
  }

  lemma SnapshotNames()
    ensures forall i | 0 <= i < 10 :: SNAPSHOT_FIELDS[i] != SIGNATURE
  {
    SnapshotFieldNames();
    assert SNAPSHOT_FIELDS[10] == SIGNATURE;
  }

  /** Two snapshots with the same signing bytes are the same but for the text of the signature. */
  lemma SameTyped(raw: bytes, other: bytes, s: CatalogSnapshot, t: CatalogSnapshot)
    requires SigningBytes(raw).Some? && SigningBytes(other) == SigningBytes(raw)
    requires Typed(raw) == Some(s) && Typed(other) == Some(t)
    ensures t == s.(signature := t.signature)
  {
    SigningBytesCharacteriseMembers(raw, other);
    SnapshotNames();
    var f := MemberFields(raw, s);
    var g := MemberFields(other, t);
    OnlySignature(f, g, s, t);
  }

  // ----- what a client makes of it -----

  lemma SameHead(c: Platform, raw: bytes, other: bytes, m: VerifiedManifest, s: CatalogSnapshot) returns (t: CatalogSnapshot)
    requires SnapshotHead(c, raw, m) == Ok(s) && Respells(c, raw, other, m.manifest.operator) && |other| <= MAX_SNAPSHOT_BYTES
    ensures SnapshotHead(c, other, m) == Ok(t) && Typed(other) == Some(t) && t == s.(signature := t.signature)
  {
    t := Typed(other).value;
    SameTyped(raw, other, s, t);
  }

  /** Against what was retained on accepting `s`, the same snapshot is a refresh or a fork, by its digest alone. */
  lemma Readmitted(s: CatalogSnapshot, t: CatalogSnapshot, digest: bytes, other: bytes, policy: bytes,
                   retained: Option<Retained>, a: Admission, after: Retained)
    requires AdmitAgainst(s, digest, policy, retained) == Ok(a) && t == s.(signature := t.signature)
    requires after == Retained(s.providerId, s.catalogId, s.sequence, digest,
                               if a.transition && retained.Some? then retained.value.previousPolicy else None)
    ensures AdmitAgainst(t, other, policy, Some(after)) ==
            if other == digest then Ok(Admission(t, other, NoOpRefresh, a.transition)) else Err(SnapshotInvalid(Fork))
  {
  }

  lemma ReadmittedSigned(s: CatalogSnapshot, t: CatalogSnapshot, digest: bytes, other: bytes, m: VerifiedManifest,
                         retained: Option<Retained>, now: Instant, later: Instant, a: Admission, after: Retained)
    requires AdmitSigned(s, digest, m, retained, now) == Ok(a) && t == s.(signature := t.signature)
    requires CheckFreshness(s, later) == None
    requires after == Retained(s.providerId, s.catalogId, s.sequence, digest,
                               if a.transition && retained.Some? then retained.value.previousPolicy else None)
    ensures AdmitSigned(t, other, m, Some(after), later) ==
            if other == digest then Ok(Admission(t, other, NoOpRefresh, a.transition)) else Err(SnapshotInvalid(Fork))
  {
    Readmitted(s, t, digest, other, FindCatalog(m.catalogs, s.catalogId).value.policy, retained, a, after);
  }

  lemma AcceptedAdmission(a: Admission, ds: seq<Option<CatalogEntry>>, v: VerifiedSnapshot)
    requires Accept(a, ds) == Ok(v)
    ensures a == Admission(v.snapshot, v.digest, v.outcome, v.policyTransition)
  {
  }

  lemma AdmittedSnapshot(s: CatalogSnapshot, digest: bytes, m: VerifiedManifest, retained: Option<Retained>, now: Instant,
                         a: Admission)
    requires AdmitSigned(s, digest, m, retained, now) == Ok(a)
    ensures a.snapshot == s && a.digest == digest
  {
  }

  lemma AdmissionSteps(c: Platform, raw: bytes, m: VerifiedManifest, retained: Option<Retained>, now: Instant, a: Admission)
    requires Admit(c, raw, m, retained, now) == Ok(a)
    ensures SnapshotHead(c, raw, m) == Ok(a.snapshot) && a.digest == Digest(c, raw)
    ensures AdmitSigned(a.snapshot, Digest(c, raw), m, retained, now) == Ok(a)
  {
    var s := SnapshotHead(c, raw, m).value;
    AdmittedSnapshot(s, Digest(c, raw), m, retained, now, a);
  }

  lemma VerdictAdmission(c: Platform, raw: bytes, m: VerifiedManifest, retained: Option<Retained>, now: Instant,
                         v: VerifiedSnapshot) returns (a: Admission)
    requires SnapshotVerdict(c, raw, m, retained, now) == Ok(v)
    ensures Admit(c, raw, m, retained, now) == Ok(a) && Accept(a, DecodedEntries(c, a.snapshot.entries)) == Ok(v)
  {
    a := Admit(c, raw, m, retained, now).value;
  }

  lemma VerdictSteps(c: Platform, raw: bytes, m: VerifiedManifest, retained: Option<Retained>, now: Instant,
                     v: VerifiedSnapshot) returns (a: Admission)
    requires SnapshotVerdict(c, raw, m, retained, now) == Ok(v)
    ensures SnapshotHead(c, raw, m) == Ok(v.snapshot) && a == Admission(v.snapshot, Digest(c, raw), v.outcome, v.policyTransition)
    ensures AdmitSigned(v.snapshot, Digest(c, raw), m, retained, now) == Ok(a)
    ensures Accept(a, DecodedEntries(c, v.snapshot.entries)) == Ok(v) && v.digest == Digest(c, raw)
  {
    a := VerdictAdmission(c, raw, m, retained, now, v);
    AdmissionSteps(c, raw, m, retained, now, a);
    AcceptedAdmission(a, DecodedEntries(c, a.snapshot.entries), v);
  }

  lemma AcceptedAlike(a: Admission, b: Admission, ds: seq<Option<CatalogEntry>>, v: VerifiedSnapshot)
    requires Accept(a, ds) == Ok(v)
    ensures Accept(b, ds) == Ok(v.(snapshot := b.snapshot, digest := b.digest, outcome := b.outcome,
                                   policyTransition := b.transition))
  {
  }

  lemma VerdictOf(c: Platform, raw: bytes, m: VerifiedManifest, retained: Option<Retained>, now: Instant,
                  s: CatalogSnapshot, r: Result<Admission, Error>)
    requires SnapshotHead(c, raw, m) == Ok(s) && AdmitSigned(s, Digest(c, raw), m, retained, now) == r
    ensures SnapshotVerdict(c, raw, m, retained, now) ==
            match r case Ok(a) => Accept(a, DecodedEntries(c, a.snapshot.entries)) case Err(e) => Err(e)
  {
  }

  lemma RespelledAdmission(c: Platform, raw: bytes, other: bytes, m: VerifiedManifest, retained: Option<Retained>,
                           now: Instant, later: Instant, v: VerifiedSnapshot, a: Admission, after: Retained)
    returns (t: CatalogSnapshot)
    requires SnapshotHead(c, raw, m) == Ok(v.snapshot) && v.digest == Digest(c, raw)
    requires AdmitSigned(v.snapshot, Digest(c, raw), m, retained, now) == Ok(a) && CheckFreshness(v.snapshot, later) == None
    requires Respells(c, raw, other, m.manifest.operator) && |other| <= MAX_SNAPSHOT_BYTES
    requires a.transition == v.policyTransition && after == AfterAcceptance(retained, v)
    ensures SnapshotHead(c, other, m) == Ok(t) && Typed(other) == Some(t) && t == v.snapshot.(signature := t.signature)
    ensures AdmitSigned(t, Digest(c, other), m, Some(after), later) ==
            if Digest(c, other) == Digest(c, raw) then Ok(Admission(t, Digest(c, other), NoOpRefresh, a.transition))
            else Err(SnapshotInvalid(Fork))
  {
    t := SameHead(c, raw, other, m, v.snapshot);
    ReadmittedSigned(v.snapshot, t, Digest(c, raw), Digest(c, other), m, retained, now, later, a, after);
  }

  /**
   What a client that accepted `raw` makes of any other spelling of it, at any clock at which it is fresh. The
   signature verifies, so everything up to the comparison passes; and the comparison is by the digest of the exact
   bytes: a refresh that changes nothing if that is the digest retained, and otherwise a fork.
   */
  lemma RespelledVerdict(c: Platform, raw: bytes, other: bytes, m: VerifiedManifest, retained: Option<Retained>,
                         now: Instant, later: Instant, v: VerifiedSnapshot)
    requires SnapshotVerdict(c, raw, m, retained, now) == Ok(v) && CheckFreshness(v.snapshot, later) == None
    requires Respells(c, raw, other, m.manifest.operator) && |other| <= MAX_SNAPSHOT_BYTES
    ensures SnapshotVerdict(c, other, m, Some(AfterAcceptance(retained, v)), later) ==
            if Digest(c, other) == Digest(c, raw) then Ok(v.(snapshot := Typed(other).value, outcome := NoOpRefresh))
            else Err(SnapshotInvalid(Fork))
  {
    var a := VerdictSteps(c, raw, m, retained, now, v);
    var after := AfterAcceptance(retained, v);
    var t := RespelledAdmission(c, raw, other, m, retained, now, later, v, a, after);
    VerdictOf(c, other, m, Some(after), later, t, AdmitSigned(t, Digest(c, other), m, Some(after), later));
    AcceptedAlike(a, Admission(t, Digest(c, other), NoOpRefresh, a.transition), DecodedEntries(c, t.entries), v);
  }

  /** So, collisions apart, the operator's own content is an accusation of it exactly when the bytes differ. */
  lemma RespellingAccuses(c: Platform, raw: bytes, other: bytes, m: VerifiedManifest, retained: Option<Retained>,
                          now: Instant, later: Instant, v: VerifiedSnapshot)
    requires SnapshotVerdict(c, raw, m, retained, now) == Ok(v) && CheckFreshness(v.snapshot, later) == None
    requires Respells(c, raw, other, m.manifest.operator) && |other| <= MAX_SNAPSHOT_BYTES
    requires Digest(c, other) == Digest(c, raw) ==> other == raw
    ensures var verdict := SnapshotVerdict(c, other, m, Some(AfterAcceptance(retained, v)), later);
            && (verdict.Ok? <==> other == raw) && (verdict.Ok? ==> verdict.value.outcome == NoOpRefresh)
            && (verdict == Err(SnapshotInvalid(Fork)) <==> other != raw)
  {
    RespelledVerdict(c, raw, other, m, retained, now, later, v);
  }

  // ----- one such spelling of every document -----

  lemma SpaceAfter(raw: bytes, pre: bytes, x: Syntax, post: bytes, j: Json)
    requires Spells(raw, pre, x, post, j)
    ensures Spells(raw + " ", pre, x, post + " ", j)
  {
    assert raw + " " == pre + (Spelling(x) + (post + " "));
  }

  /** White space after a document changes nothing of what it reads as. */
  lemma SpacedReads(raw: bytes)
    requires Read(raw).Some?
    ensures Read(raw + " ") == Read(raw)
  {
    var j := Read(raw).value;
    ReadExact(raw, j);
    var pre, x, post :| Spells(raw, pre, x, post, j);
    SpaceAfter(raw, pre, x, post, j);
    ReadExact(raw + " ", j);
  }

  lemma SpacedRespells(c: Platform, raw: bytes, operator: bytes)
    requires Typed(raw).Some? && SignedBy(c, raw, operator, Typed(raw).value.signature)
    ensures Respells(c, raw, raw + " ", operator)
  {
    SpacedReads(raw);
  }

  /**
   One space after the published bytes turns a refresh into a fork: the operator's signature still verifies over
   the content, and the client accuses the operator of bytes that it never published.
   */
  lemma SpacedForks(c: Platform, raw: bytes, m: VerifiedManifest, retained: Option<Retained>, now: Instant,
                    v: VerifiedSnapshot)
    requires SnapshotVerdict(c, raw, m, retained, now) == Ok(v) && |raw| < MAX_SNAPSHOT_BYTES
    requires Digest(c, raw + " ") != Digest(c, raw)
    ensures SnapshotVerdict(c, raw + " ", m, Some(AfterAcceptance(retained, v)), now) == Err(SnapshotInvalid(Fork))
  {
    var a := VerdictSteps(c, raw, m, retained, now, v);
    SpacedRespells(c, raw, m.manifest.operator);
    RespelledVerdict(c, raw, raw + " ", m, retained, now, now, v);
  }

  /**
   So the promise to an honest publisher is about its exact bytes: a client that accepts publication n of an honest
   chain, and is then served it again with one space after it, reports a fork.
   */
  lemma HonestForked(c: Platform, orders: seq<Order>, h: seq<bytes>, m: VerifiedManifest, retained: Option<Retained>,
                     held: Option<nat>, now: Instant, n: nat) returns (v: VerifiedSnapshot)
    requires Posts(c, orders, h) && |h| <= U64_LIMIT && CollisionFree(c, h) && OneCatalog(c, m, orders) && n < |h|
    requires RetainsIf(c, orders, h, retained, held) && (held.Some? ==> held.value <= n)
    requires InWindow(orders[n], now) && Bounded(c, orders[n], h[n])
    requires |h[n]| < MAX_SNAPSHOT_BYTES && Digest(c, h[n] + " ") != Digest(c, h[n])
    ensures SnapshotVerdict(c, h[n], m, retained, now) == Ok(v)
    ensures SnapshotVerdict(c, h[n] + " ", m, Some(AfterAcceptance(retained, v)), now) == Err(SnapshotInvalid(Fork))
  {
    v := ServedAccepted(c, orders, h, m, retained, held, now, n);
    SpacedForks(c, h[n], m, retained, now, v);
  }
}
