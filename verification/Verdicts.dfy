/** When snapshots and manifests are accepted, as what, and which fault is reported otherwise: rule by rule. */
module Verdicts {
  import opened Basics
  import opened Lossy
  import opened Text
  import opened Json
  import opened Signing
  import opened Timestamps
  import opened Documents
  import opened Verify
  import opened ChainLogs
  import opened Accepted
  import opened Wire
  import opened Rules

  // ----- snapshots: the rules -----

  /** A snapshot document: within a mebibyte, with every field in its place, of version 1 and of the one profile. */
  ghost predicate SnapshotFormed(raw: bytes, s: CatalogSnapshot) {
    && |raw| <= 1048576 && Read(raw).Some? && SnapshotWire(Read(raw).value, s)
    && s.version == 1 && s.profile == "onym:discovery-implementation:static-ed25519-v1"
  }

  /** A window of at most ninety days, opened at most ten minutes from now. */
  ghost predicate Opened(from: Instant, until: Instant, now: Instant) {
    from < until <= from + 90 * 86_400_000_000_000 && from <= now + 600_000_000_000
  }

  ghost function TimesFault(s: CatalogSnapshot, now: Instant): Option<Error> {
    match (ParseTimestamp(s.generatedAt), ParseTimestamp(s.expiresAt))
    case (Some(from), Some(until)) =>
      if !Opened(from, until, now) then Some(SnapshotInvalid(NotFresh))
      else if now > until + 600_000_000_000 then Some(SnapshotExpired)
      else None
    case _ => Some(SnapshotInvalid(Structure))
  }

  ghost predicate Declared(m: VerifiedManifest, s: CatalogSnapshot) {
    exists i :: 0 <= i < |m.catalogs| && m.catalogs[i].catalogId == s.catalogId
  }

  ghost predicate CitesCurrent(m: VerifiedManifest, s: CatalogSnapshot) {
    DeclaredAs(m.catalogs, s.catalogId, s.policyDigest)
  }

  ghost predicate CitesRetained(retained: Option<Retained>, s: CatalogSnapshot) {
    retained.Some? && retained.value.previousPolicy == Some(s.policyDigest)
  }

  /** Sequence 1 starts a chain, any later one carries a digest; there is no sequence 0. */
  ghost predicate ChainRules(s: CatalogSnapshot) {
    || (s.sequence as int == 1 && s.previousDigest == None)
    || (s.sequence as int > 1 && s.previousDigest.Some? && DigestForm(s.previousDigest.value))
  }

  /** The first rule that fails once the signature has verified and before the entries are looked at. */
  ghost function AdmissionFault(s: CatalogSnapshot, digest: bytes, m: VerifiedManifest, retained: Option<Retained>,
                                now: Instant): Option<Error>
  {
    if TimesFault(s, now).Some? then TimesFault(s, now)
    else if !Declared(m, s) then
      Some(SnapshotInvalid(if s.catalogId in m.audienceSkippedIds then AudienceSkipped else UndeclaredCatalog))
    else if retained.Some? && retained.value.providerId != s.providerId then Some(SnapshotInvalid(OtherProvider))
    else if retained.Some? && retained.value.catalogId != s.catalogId then Some(SnapshotInvalid(OtherCatalog))
    else if !DigestForm(s.policyDigest) then Some(SnapshotInvalid(Structure))
    else if !CitesCurrent(m, s) && !CitesRetained(retained, s) then Some(SnapshotInvalid(PolicyMismatch))
    else if !ChainRules(s) then Some(SnapshotInvalid(Structure))
    else if Accused(s, digest, retained, SnapshotInvalid(Rollback)) then Some(SnapshotInvalid(Rollback))
    else if Accused(s, digest, retained, SnapshotInvalid(Fork)) then Some(SnapshotInvalid(Fork))
    else if Accused(s, digest, retained, SnapshotInvalid(InconsistentJump)) then Some(SnapshotInvalid(InconsistentJump))
    else None
  }

  /** What an admission says: the outcome that is the case, and a transition when the policy cited is not the current. */
  ghost predicate AdmittedAs(s: CatalogSnapshot, digest: bytes, m: VerifiedManifest, retained: Option<Retained>, a: Admission) {
    && a.snapshot == s && a.digest == digest && Justified(s, digest, retained, a.outcome)
    && (a.transition <==> !CitesCurrent(m, s))
  }

  // ----- snapshots: the checks meet them -----

  lemma SnapshotTyped(raw: bytes, s: CatalogSnapshot)
    ensures Typed(raw) == Some(s) <==> Read(raw).Some? && SnapshotWire(Read(raw).value, s)
  {
    if Read(raw).Some? { SnapshotExact(Read(raw).value, s); }
  }

  lemma ProfileLiteral()
    ensures PROFILE == "onym:discovery-implementation:static-ed25519-v1"
  {
  }

  lemma HeadExact(c: Platform, raw: bytes, m: VerifiedManifest, s: CatalogSnapshot)
    requires SnapshotFormed(raw, s)
    ensures SnapshotHead(c, raw, m) ==
            if s.providerId != m.manifest.providerId then Err(SnapshotInvalid(WrongProvider))
            else if !Signs(c, raw, m.manifest.operator, s.signature) then Err(SnapshotInvalid(BadSignature))
            else Ok(s)
  {
    SnapshotTyped(raw, s);
    ProfileLiteral();
    SignedExact(c, raw, m.manifest.operator, s.signature);
  }

  lemma HeadUnformed(c: Platform, raw: bytes, m: VerifiedManifest)
    requires forall s :: !SnapshotFormed(raw, s)
    ensures SnapshotHead(c, raw, m) == Err(SnapshotInvalid(Structure))
  {
    ProfileLiteral();
    if Typed(raw).Some? {
      SnapshotTyped(raw, Typed(raw).value);
      assert !SnapshotFormed(raw, Typed(raw).value);
    }
  }

  lemma TimesExact(s: CatalogSnapshot, now: Instant)
    ensures CheckFreshness(s, now) == TimesFault(s, now)
  {
  }

  lemma DeclaredExact(m: VerifiedManifest, s: CatalogSnapshot)
    ensures FindCatalog(m.catalogs, s.catalogId).Some? <==> Declared(m, s)
    ensures Declared(m, s) ==>
              (FindCatalog(m.catalogs, s.catalogId).value.policy == s.policyDigest <==> CitesCurrent(m, s))
  {
    FindCatalogExact(m.catalogs, s.catalogId);
    FoundPolicy(m.catalogs, s.catalogId, s.policyDigest);
  }

  lemma PolicyExact(s: CatalogSnapshot, policy: bytes, m: VerifiedManifest, retained: Option<Retained>)
    requires policy == s.policyDigest <==> CitesCurrent(m, s)
    ensures CheckPolicy(s, policy, retained) ==
            if !DigestForm(s.policyDigest) then Err(SnapshotInvalid(Structure))
            else if !CitesCurrent(m, s) && !CitesRetained(retained, s) then Err(SnapshotInvalid(PolicyMismatch))
            else Ok(!CitesCurrent(m, s))
  {
    DigestFormExact(s.policyDigest);
  }

  lemma ChainRulesExact(s: CatalogSnapshot)
    ensures ChainShape(s) <==> ChainRules(s)
  {
    if s.previousDigest.Some? { DigestFormExact(s.previousDigest.value); }
  }

  lemma RetainedExact(s: CatalogSnapshot, retained: Option<Retained>)
    ensures CheckRetained(s, retained) ==
            if retained.Some? && retained.value.providerId != s.providerId then Some(SnapshotInvalid(OtherProvider))
            else if retained.Some? && retained.value.catalogId != s.catalogId then Some(SnapshotInvalid(OtherCatalog))
            else None
  {
  }

  lemma ComparisonExact(s: CatalogSnapshot, digest: bytes, retained: Option<Retained>)
    ensures match CompareChain(s, digest, retained)
            case Ok(o) => Justified(s, digest, retained, o) && forall e :: !Accused(s, digest, retained, e)
            case Err(e) => Accused(s, digest, retained, e) && forall e' | Accused(s, digest, retained, e') :: e' == e
  {
    match CompareChain(s, digest, retained)
    case Ok(o) =>
      forall e ensures !Accused(s, digest, retained, e) { FourCases(s, digest, retained, o, e); }
      FourCases(s, digest, retained, o, Malformed);
    case Err(e) =>
      FourCases(s, digest, retained, FirstAcceptance, e);
      forall e' | Accused(s, digest, retained, e') ensures e' == e { FourCases(s, digest, retained, FirstAcceptance, e'); }
  }

  lemma AgainstExact(s: CatalogSnapshot, digest: bytes, policy: bytes, m: VerifiedManifest, retained: Option<Retained>,
                     now: Instant)
    requires TimesFault(s, now) == None && Declared(m, s) && (policy == s.policyDigest <==> CitesCurrent(m, s))
    ensures match AdmitAgainst(s, digest, policy, retained)
            case Ok(a) => AdmissionFault(s, digest, m, retained, now) == None && AdmittedAs(s, digest, m, retained, a)
            case Err(e) => AdmissionFault(s, digest, m, retained, now) == Some(e)
  {
    RetainedExact(s, retained);
    PolicyExact(s, policy, m, retained);
    ChainRulesExact(s);
    ComparisonExact(s, digest, retained);
  }

  lemma AdmissionExact(s: CatalogSnapshot, digest: bytes, m: VerifiedManifest, retained: Option<Retained>, now: Instant)
    ensures match AdmitSigned(s, digest, m, retained, now)
            case Ok(a) => AdmissionFault(s, digest, m, retained, now) == None && AdmittedAs(s, digest, m, retained, a)
            case Err(e) => AdmissionFault(s, digest, m, retained, now) == Some(e)
  {
    TimesExact(s, now);
    DeclaredExact(m, s);
    if TimesFault(s, now) == None && Declared(m, s) {
      AgainstExact(s, digest, FindCatalog(m.catalogs, s.catalogId).value.policy, m, retained, now);
    }
  }

  // ----- snapshots: entries and verdict -----

  /** No two entries that are kept share a component. */
  ghost predicate DistinctListed(c: Platform, values: seq<Json>) {
    forall i, j, d, e | 0 <= i < j < |values| && Listable(c, values[i], d) && Listable(c, values[j], e) ::
      d.componentId != e.componentId
  }

  /** The entries are those that meet the rules, in order; the skipped indexes are all the others, in order. */
  ghost predicate ListedAt(c: Platform, values: seq<Json>, entries: seq<CatalogEntry>, skipped: seq<nat>, at: seq<nat>) {
    && |at| == |entries| && Increasing(at) && Increasing(skipped)
    && (forall k | 0 <= k < |at| :: at[k] < |values| && Listable(c, values[at[k]], entries[k]))
    && (forall i: nat :: i in at <==> i < |values| && SomeListable(c, values[i]))
    && (forall i: nat :: i in skipped <==> i < |values| && !SomeListable(c, values[i]))
  }

  ghost predicate ListsExactly(c: Platform, values: seq<Json>, entries: seq<CatalogEntry>, skipped: seq<nat>) {
    exists at :: ListedAt(c, values, entries, skipped, at)
  }

  ghost predicate SomeListable(c: Platform, value: Json) {
    exists e :: Listable(c, value, e)
  }

  lemma DecodedListable(c: Platform, values: seq<Json>, i: nat)
    requires i < |values|
    ensures DecodedEntries(c, values)[i].Some? <==> SomeListable(c, values[i])
    ensures forall e :: DecodedEntries(c, values)[i] == Some(e) <==> Listable(c, values[i], e)
  {
    forall e ensures DecodedEntries(c, values)[i] == Some(e) <==> Listable(c, values[i], e) {
      ListableExact(c, values[i], e);
    }
  }

  lemma PlacedListed(c: Platform, values: seq<Json>, ds: seq<Option<CatalogEntry>>, entries: seq<CatalogEntry>,
                     skipped: seq<nat>, at: seq<nat>)
    requires |ds| == |values| && Places(ds, entries, skipped, at)
    requires forall i | 0 <= i < |ds| :: ds[i].Some? <==> SomeListable(c, values[i])
    requires forall i | 0 <= i < |ds| && ds[i].Some? :: Listable(c, values[i], ds[i].value)
    ensures ListedAt(c, values, entries, skipped, at)
  {
  }

  lemma KeptListed(c: Platform, values: seq<Json>) returns (at: seq<nat>)
    ensures var ds := DecodedEntries(c, values);
            ListedAt(c, values, Kept(ds, |ds|), Indexes(ds, |ds|, false), at)
  {
    var ds := DecodedEntries(c, values);
    at := Indexes(ds, |ds|, true);
    KeptPlaces(ds);
    forall i | 0 <= i < |values| ensures ds[i].Some? <==> SomeListable(c, values[i]) {
      DecodedListable(c, values, i);
    }
    forall i | 0 <= i < |values| && ds[i].Some? ensures Listable(c, values[i], ds[i].value) {
      DecodedListable(c, values, i);
    }
    PlacedListed(c, values, ds, Kept(ds, |ds|), Indexes(ds, |ds|, false), at);
  }

  lemma DistinctExact(c: Platform, values: seq<Json>)
    ensures DistinctDecoded(DecodedEntries(c, values)) <==> DistinctListed(c, values)
  {
    var ds := DecodedEntries(c, values);
    forall i | 0 <= i < |values| ensures forall e :: ds[i] == Some(e) <==> Listable(c, values[i], e) {
      DecodedListable(c, values, i);
    }
    if DistinctListed(c, values) {
      forall i, j | 0 <= i < j < |ds| && ds[i].Some? && ds[j].Some?
        ensures ds[i].value.componentId != ds[j].value.componentId
      {
        assert Listable(c, values[i], ds[i].value) && Listable(c, values[j], ds[j].value);
      }
    }
  }

  /** The first rule that fails, in the order in which a verifier reports them. */
  ghost function SnapshotFault(c: Platform, raw: bytes, s: CatalogSnapshot, m: VerifiedManifest,
                               retained: Option<Retained>, now: Instant): Option<Error>
  {
    var digest := "sha256:" + HexEncode(Hash(c, raw));
    if s.providerId != m.manifest.providerId then Some(SnapshotInvalid(WrongProvider))
    else if !Signs(c, raw, m.manifest.operator, s.signature) then Some(SnapshotInvalid(BadSignature))
    else if AdmissionFault(s, digest, m, retained, now).Some? then AdmissionFault(s, digest, m, retained, now)
    else if |s.entries| > 512 then Some(SnapshotInvalid(TooManyEntries))
    else if !DistinctListed(c, s.entries) then Some(SnapshotInvalid(DuplicateId))
    else None
  }

  function Hash(c: Platform, raw: bytes): (h: bytes)
    ensures IsBytes(h)
  {
    assert Sized(c.hash(raw), 32);
    c.hash(raw)
  }

  lemma DigestLiteral(c: Platform, raw: bytes)
    ensures Digest(c, raw) == "sha256:" + HexEncode(Hash(c, raw))
  {
  }

  /** What an acceptance says. */
  ghost predicate AcceptedAs(c: Platform, raw: bytes, s: CatalogSnapshot, m: VerifiedManifest, retained: Option<Retained>,
                             v: VerifiedSnapshot)
  {
    && v.snapshot == s && v.digest == "sha256:" + HexEncode(Hash(c, raw))
    && Justified(s, v.digest, retained, v.outcome) && (v.policyTransition <==> !CitesCurrent(m, s))
    && ListsExactly(c, s.entries, v.entries, v.skipped)
  }

  lemma AcceptError(a: Admission, ds: seq<Option<CatalogEntry>>)
    requires Accept(a, ds).Err?
    ensures Accept(a, ds).error == SnapshotInvalid(if |ds| > 512 then TooManyEntries else DuplicateId)
  {
  }

  /** What is kept of an admitted snapshot, or which fault of its entries is reported. */
  ghost predicate AcceptIs(c: Platform, a: Admission, r: Result<VerifiedSnapshot, Error>) {
    match r
    case Ok(v) =>
      && |a.snapshot.entries| <= 512 && DistinctListed(c, a.snapshot.entries)
      && v == VerifiedSnapshot(a.snapshot, v.entries, v.skipped, a.digest, a.outcome, a.transition)
      && ListsExactly(c, a.snapshot.entries, v.entries, v.skipped)
    case Err(e) =>
      && e == SnapshotInvalid(if |a.snapshot.entries| > 512 then TooManyEntries else DuplicateId)
      && (|a.snapshot.entries| > 512 || !DistinctListed(c, a.snapshot.entries))
  }

  lemma AcceptedEntries(c: Platform, a: Admission)
    ensures AcceptIs(c, a, Accept(a, DecodedEntries(c, a.snapshot.entries)))
  {
    var ds := DecodedEntries(c, a.snapshot.entries);
    DistinctExact(c, a.snapshot.entries);
    AcceptExact(a, ds);
    if Accept(a, ds).Ok? { var at := KeptListed(c, a.snapshot.entries); } else { AcceptError(a, ds); }
  }

  lemma AfterHead(c: Platform, raw: bytes, s: CatalogSnapshot, m: VerifiedManifest, retained: Option<Retained>, now: Instant)
    requires SnapshotHead(c, raw, m) == Ok(s)
    ensures SnapshotVerdict(c, raw, m, retained, now) ==
            match AdmitSigned(s, Digest(c, raw), m, retained, now)
            case Ok(a) => Accept(a, DecodedEntries(c, a.snapshot.entries))
            case Err(e) => Err(e)
  {
  }

  lemma HeadFault(c: Platform, raw: bytes, m: VerifiedManifest, retained: Option<Retained>, now: Instant, e: Error)
    requires SnapshotHead(c, raw, m) == Err(e)
    ensures SnapshotVerdict(c, raw, m, retained, now) == Err(e)
  {
  }

  lemma SignedVerdict(c: Platform, raw: bytes, s: CatalogSnapshot, m: VerifiedManifest, retained: Option<Retained>,
                      now: Instant, digest: bytes)
    requires SnapshotHead(c, raw, m) == Ok(s) && digest == Digest(c, raw)
    ensures match SnapshotVerdict(c, raw, m, retained, now)
            case Ok(v) =>
              && AdmissionFault(s, digest, m, retained, now) == None && |s.entries| <= 512 && DistinctListed(c, s.entries)
              && v.snapshot == s && v.digest == digest && Justified(s, digest, retained, v.outcome)
              && (v.policyTransition <==> !CitesCurrent(m, s))
              && ListsExactly(c, s.entries, v.entries, v.skipped)
            case Err(e) =>
              if AdmissionFault(s, digest, m, retained, now).Some? then AdmissionFault(s, digest, m, retained, now) == Some(e)
              else
                && e == SnapshotInvalid(if |s.entries| > 512 then TooManyEntries else DuplicateId)
                && (|s.entries| > 512 || !DistinctListed(c, s.entries))
  {
    AfterHead(c, raw, s, m, retained, now);
    AdmissionExact(s, digest, m, retained, now);
    var admitted := AdmitSigned(s, digest, m, retained, now);
    if admitted.Ok? { AcceptedEntries(c, admitted.value); }
  }

  ghost predicate VerdictIs(c: Platform, raw: bytes, s: CatalogSnapshot, m: VerifiedManifest, retained: Option<Retained>,
                            now: Instant, verdict: Result<VerifiedSnapshot, Error>)
  {
    match verdict
    case Ok(v) => SnapshotFault(c, raw, s, m, retained, now) == None && AcceptedAs(c, raw, s, m, retained, v)
    case Err(e) => SnapshotFault(c, raw, s, m, retained, now) == Some(e)
  }

  lemma FormedVerdict(c: Platform, raw: bytes, s: CatalogSnapshot, m: VerifiedManifest, retained: Option<Retained>,
                      now: Instant)
    requires SnapshotFormed(raw, s)
    ensures VerdictIs(c, raw, s, m, retained, now, SnapshotVerdict(c, raw, m, retained, now))
  {
    HeadExact(c, raw, m, s);
    DigestLiteral(c, raw);
    var head := SnapshotHead(c, raw, m);
    if head.Ok? {
      SignedVerdict(c, raw, s, m, retained, now, Digest(c, raw));
    } else {
      HeadFault(c, raw, m, retained, now, head.error);
    }
  }

  /**
   The verdict on a snapshot, in full. Bytes that are no snapshot document of the profile have a fault of structure.
   Otherwise the verdict is the first rule that fails; and when none does, the snapshot is accepted with exactly
   the entries that meet the rules, the outcome that is the case, and a policy transition exactly when the policy
   it cites is not the current one.
   */
  lemma VerdictExact(c: Platform, raw: bytes, m: VerifiedManifest, retained: Option<Retained>, now: Instant)
    ensures (forall s :: !SnapshotFormed(raw, s)) ==>
              SnapshotVerdict(c, raw, m, retained, now) == Err(SnapshotInvalid(Structure))
    ensures forall s | SnapshotFormed(raw, s) ::
              VerdictIs(c, raw, s, m, retained, now, SnapshotVerdict(c, raw, m, retained, now))
  {
    if forall s :: !SnapshotFormed(raw, s) {
      HeadUnformed(c, raw, m);
      HeadFault(c, raw, m, retained, now, SnapshotInvalid(Structure));
    }
    forall s | SnapshotFormed(raw, s)
      ensures VerdictIs(c, raw, s, m, retained, now, SnapshotVerdict(c, raw, m, retained, now))
    {
      FormedVerdict(c, raw, s, m, retained, now);
    }
  }

  // ----- what is retained -----

  lemma Declares(m: VerifiedManifest, s: CatalogSnapshot) returns (i: nat)
    requires Declared(m, s)
    ensures FirstWith(m.catalogs, s.catalogId, i) && (CitesCurrent(m, s) <==> m.catalogs[i].policy == s.policyDigest)
  {
    FindCatalogExact(m.catalogs, s.catalogId);
    var j: nat :| FirstWith(m.catalogs, s.catalogId, j);
    i := j;
    forall k: nat | FirstWith(m.catalogs, s.catalogId, k) ensures k == i { FirstUnique(m.catalogs, s.catalogId, i, k); }
  }

  /**
   An accepted snapshot is of a catalog that the manifest declares. What is retained after it are its identity, its
   sequence and the digest of its bytes; and the grace stays open, for the one policy cited, exactly when that is
   not the current policy of the catalog but the one retained before.
   */
  lemma AcceptanceRetains(c: Platform, raw: bytes, m: VerifiedManifest, retained: Option<Retained>, now: Instant,
                          v: VerifiedSnapshot) returns (i: nat)
    requires SnapshotVerdict(c, raw, m, retained, now) == Ok(v)
    ensures FirstWith(m.catalogs, v.snapshot.catalogId, i)
    ensures var s := v.snapshot;
            && (m.catalogs[i].policy != s.policyDigest ==> retained.Some? && retained.value.previousPolicy == Some(s.policyDigest))
            && AfterAcceptance(retained, v) ==
               Retained(s.providerId, s.catalogId, s.sequence, "sha256:" + HexEncode(Hash(c, raw)),
                        if m.catalogs[i].policy == s.policyDigest then None else Some(s.policyDigest))
  {
    VerdictExact(c, raw, m, retained, now);
    var s: CatalogSnapshot :| SnapshotFormed(raw, s);
    assert VerdictIs(c, raw, s, m, retained, now, Ok(v));
    i := RetainedGrace(c, raw, s, m, retained, now, v);
  }

  lemma Cited(c: Platform, raw: bytes, s: CatalogSnapshot, m: VerifiedManifest, retained: Option<Retained>, now: Instant)
    requires SnapshotFault(c, raw, s, m, retained, now) == None
    ensures Declared(m, s) && (CitesCurrent(m, s) || CitesRetained(retained, s))
  {
    var digest := "sha256:" + HexEncode(Hash(c, raw));
    assert AdmissionFault(s, digest, m, retained, now) == None;
  }

  lemma GraceAfter(s: CatalogSnapshot, digest: bytes, retained: Option<Retained>, v: VerifiedSnapshot, current: bool)
    requires v.snapshot == s && v.digest == digest && (v.policyTransition <==> !current)
    requires current || CitesRetained(retained, s)
    ensures AfterAcceptance(retained, v) ==
            Retained(s.providerId, s.catalogId, s.sequence, digest, if current then None else Some(s.policyDigest))
  {
  }

  lemma RetainedGrace(c: Platform, raw: bytes, s: CatalogSnapshot, m: VerifiedManifest, retained: Option<Retained>,
                      now: Instant, v: VerifiedSnapshot) returns (i: nat)
    requires SnapshotFault(c, raw, s, m, retained, now) == None && AcceptedAs(c, raw, s, m, retained, v)
    ensures FirstWith(m.catalogs, s.catalogId, i) && v.snapshot == s
    ensures m.catalogs[i].policy != s.policyDigest ==> retained.Some? && retained.value.previousPolicy == Some(s.policyDigest)
    ensures AfterAcceptance(retained, v) ==
            Retained(s.providerId, s.catalogId, s.sequence, "sha256:" + HexEncode(Hash(c, raw)),
                     if m.catalogs[i].policy == s.policyDigest then None else Some(s.policyDigest))
  {
    Cited(c, raw, s, m, retained, now);
    i := Declares(m, s);
    GraceAfter(s, v.digest, retained, v, CitesCurrent(m, s));
  }

  /** State is derived from exactly the snapshot documents that repeat no key, whatever else is wrong with them. */
  lemma RetainedStateExact(c: Platform, raw: bytes, policy: Option<bytes>, s: CatalogSnapshot)
    ensures FromSnapshotBytes(c, raw, policy).Some? <==>
            Read(raw).Some? && NoDuplicates(Read(raw).value) && exists t :: SnapshotWire(Read(raw).value, t)
    ensures FromSnapshotBytes(c, raw, policy).Some? && SnapshotWire(Read(raw).value, s) ==>
              FromSnapshotBytes(c, raw, policy) ==
              Some(Retained(s.providerId, s.catalogId, s.sequence, "sha256:" + HexEncode(Hash(c, raw)), policy))
  {
    DigestLiteral(c, raw);
    if Read(raw).Some? {
      var j := Read(raw).value;
      SnapshotExact(j, s);
      if DecodeSnapshotShape(j).Some? { SnapshotExact(j, DecodeSnapshotShape(j).value); }
      forall t | SnapshotWire(j, t) ensures DecodeSnapshotShape(j) == Some(t) { SnapshotExact(j, t); }
    }
  }

  // ----- manifests -----

  /** A manifest document: within 64 KiB, with every field in its place, and of the profile, for the discovery seat. */
  ghost predicate ManifestFormed(raw: bytes, m: ProviderManifest) {
    && |raw| <= 65536 && Read(raw).Some? && ManifestWire(Read(raw).value, m)
    && m.version == 1 && m.profile == "onym:discovery-implementation:static-ed25519-v1" && m.seat == "discovery"
    && ComponentForm(m.providerId) && exists key :: Sized(key, 32) && m.operator == "onym:key:" + HexEncode(key)
  }

  ghost predicate SomeDeclarable(c: Platform, value: Json) {
    exists d :: Declarable(c, value, d)
  }

  /** No two descriptors that decode, of whatever audience, name one catalog. */
  ghost predicate DistinctDeclared(c: Platform, values: seq<Json>) {
    forall i, j, d, e | 0 <= i < j < |values| && Declarable(c, values[i], d) && Declarable(c, values[j], e) ::
      d.catalogId != e.catalogId
  }

  ghost function ContentFault(c: Platform, m: ProviderManifest): Option<Fault> {
    if !DistinctDeclared(c, m.catalogs) then Some(DuplicateId)
    else if forall i | 0 <= i < |m.catalogs| :: !SomeDeclarable(c, m.catalogs[i]) then Some(NothingDecodable)
    else if !c.validUri(m.privacyProfileUri) || !DigestForm(m.privacyProfile) then Some(Structure)
    else None
  }

  /** The first rule that fails before the content is looked at. */
  ghost function OpeningFault(c: Platform, raw: bytes, m: ProviderManifest, now: Instant): Option<Fault> {
    if !Signs(c, raw, m.operator, m.signature) then Some(BadSignature)
    else
      match ParseTimestamp(m.validUntil)
      case None => Some(Structure)
      case Some(until) => if until <= now then Some(Expired) else None
  }

  ghost predicate SomeWith(c: Platform, value: Json, public: bool) {
    exists d :: Declarable(c, value, d) && (d.audience == "public") == public
  }

  /** The descriptors of one class that decode, in order, and where each of them is. */
  ghost predicate ClassAt(c: Platform, values: seq<Json>, public: bool, kept: seq<CatalogDescriptor>, at: seq<nat>) {
    && |at| == |kept| && Increasing(at)
    && (forall k | 0 <= k < |at| ::
          at[k] < |values| && Declarable(c, values[at[k]], kept[k]) && (kept[k].audience == "public") == public)
    && (forall i: nat :: i in at <==> i < |values| && SomeWith(c, values[i], public))
  }

  ghost predicate SkippedAt(c: Platform, values: seq<Json>, skipped: seq<nat>) {
    Increasing(skipped) && forall i: nat :: i in skipped <==> i < |values| && !SomeDeclarable(c, values[i])
  }

  /** What an accepted manifest lists: the public catalogs, the places and ids of the others, the places of the rest. */
  ghost predicate SortedInto(c: Platform, m: ProviderManifest, v: VerifiedManifest) {
    && v.manifest == m && SkippedAt(c, m.catalogs, v.skipped)
    && (exists at :: ClassAt(c, m.catalogs, true, v.catalogs, at))
    && exists others :: ClassAt(c, m.catalogs, false, others, v.audienceSkipped) && v.audienceSkippedIds == CatalogIds(others)
  }

  lemma ManifestHeadUnformed(c: Platform, raw: bytes, now: Instant)
    requires forall m :: !ManifestFormed(raw, m)
    ensures ManifestHead(c, raw, now) == Err(ProviderManifestInvalid(Structure))
  {
    ProfileLiteral();
    if Read(raw).Some? && DecodeManifestShape(Read(raw).value).Some? {
      var m := DecodeManifestShape(Read(raw).value).value;
      ManifestExact(Read(raw).value, m);
      ComponentIdExact(m.providerId);
      OperatorExact(m.operator);
      assert !ManifestFormed(raw, m);
    }
  }

  lemma ManifestTyped(raw: bytes, m: ProviderManifest)
    requires ManifestFormed(raw, m)
    ensures |raw| <= MAX_MANIFEST_BYTES && Read(raw).Some? && DecodeManifestShape(Read(raw).value) == Some(m)
    ensures m.version == 1 && m.profile == PROFILE && m.seat == "discovery"
    ensures ValidComponentId(m.providerId) && ParseOperatorKey(m.operator).Some?
  {
    ProfileLiteral();
    ManifestExact(Read(raw).value, m);
    ComponentIdExact(m.providerId);
    OperatorExact(m.operator);
  }

  lemma ManifestHeadExact(c: Platform, raw: bytes, now: Instant, m: ProviderManifest)
    requires |raw| <= MAX_MANIFEST_BYTES && Read(raw).Some? && DecodeManifestShape(Read(raw).value) == Some(m)
    requires m.version == 1 && m.profile == PROFILE && m.seat == "discovery"
    requires ValidComponentId(m.providerId) && ParseOperatorKey(m.operator).Some?
    ensures ManifestHead(c, raw, now) ==
            match OpeningFault(c, raw, m, now) case Some(f) => Err(ProviderManifestInvalid(f)) case None => Ok(m)
  {
    SignedExact(c, raw, m.operator, m.signature);
  }

  lemma DescriptorDecoded(c: Platform, values: seq<Json>, i: nat)
    requires i < |values|
    ensures DecodedDescriptors(c, values)[i].Some? <==> SomeDeclarable(c, values[i])
    ensures forall d :: DecodedDescriptors(c, values)[i] == Some(d) <==> Declarable(c, values[i], d)
  {
    forall d ensures DecodedDescriptors(c, values)[i] == Some(d) <==> Declarable(c, values[i], d) {
      DeclarableExact(c, values[i], d);
    }
  }

  lemma DistinctDeclaredExact(c: Platform, values: seq<Json>)
    ensures var ds := DecodedDescriptors(c, values); UniqueCatalogs(ds, |ds|) <==> DistinctDeclared(c, values)
  {
    var ds := DecodedDescriptors(c, values);
    forall i | 0 <= i < |values| ensures forall d :: ds[i] == Some(d) <==> Declarable(c, values[i], d) {
      DescriptorDecoded(c, values, i);
    }
    if DistinctDeclared(c, values) {
      forall i, j | 0 <= i < j < |ds| && ds[i].Some? && ds[j].Some? ensures ds[i].value.catalogId != ds[j].value.catalogId {
        assert Declarable(c, values[i], ds[i].value) && Declarable(c, values[j], ds[j].value);
      }
    }
  }

  lemma ContentFaultExact(c: Platform, m: ProviderManifest)
    ensures ManifestFault(c, m) == ContentFault(c, m)
  {
    var ds := DecodedDescriptors(c, m.catalogs);
    DistinctDeclaredExact(c, m.catalogs);
    DigestFormExact(m.privacyProfile);
    forall i | 0 <= i < |m.catalogs| ensures ds[i].Some? <==> SomeDeclarable(c, m.catalogs[i]) {
      DescriptorDecoded(c, m.catalogs, i);
    }
  }

  lemma ClassDecoded(c: Platform, values: seq<Json>, public: bool, i: nat)
    requires i < |values|
    ensures var w := WithAudience(DecodedDescriptors(c, values), public);
            && (w[i].Some? <==> SomeWith(c, values[i], public))
            && (w[i].Some? ==> Declarable(c, values[i], w[i].value) && (w[i].value.audience == "public") == public)
  {
    DescriptorDecoded(c, values, i);
  }

  lemma PlacedClass(c: Platform, values: seq<Json>, public: bool, w: seq<Option<CatalogDescriptor>>,
                    kept: seq<CatalogDescriptor>, skipped: seq<nat>, at: seq<nat>)
    requires |w| == |values| && Places(w, kept, skipped, at)
    requires forall i | 0 <= i < |w| :: w[i].Some? <==> SomeWith(c, values[i], public)
    requires forall i | 0 <= i < |w| && w[i].Some? ::
               Declarable(c, values[i], w[i].value) && (w[i].value.audience == "public") == public
    ensures ClassAt(c, values, public, kept, at)
  {
  }

  lemma KeptClass(c: Platform, values: seq<Json>, public: bool)
    ensures var w := WithAudience(DecodedDescriptors(c, values), public);
            ClassAt(c, values, public, Kept(w, |w|), Indexes(w, |w|, true))
  {
    var w := WithAudience(DecodedDescriptors(c, values), public);
    KeptPlaces(w);
    forall i | 0 <= i < |w| ensures w[i].Some? <==> SomeWith(c, values[i], public) { ClassDecoded(c, values, public, i); }
    forall i | 0 <= i < |w| && w[i].Some?
      ensures Declarable(c, values[i], w[i].value) && (w[i].value.audience == "public") == public
    {
      ClassDecoded(c, values, public, i);
    }
    PlacedClass(c, values, public, w, Kept(w, |w|), Indexes(w, |w|, false), Indexes(w, |w|, true));
  }

  lemma SkippedExact(c: Platform, values: seq<Json>)
    ensures var ds := DecodedDescriptors(c, values); SkippedAt(c, values, Indexes(ds, |ds|, false))
  {
    var ds := DecodedDescriptors(c, values);
    IndexesExact(ds, |ds|, false);
    forall i | 0 <= i < |values| ensures ds[i].Some? <==> SomeDeclarable(c, values[i]) { DescriptorDecoded(c, values, i); }
  }

  /** What the content of a manifest comes to, once its head has passed. */
  ghost predicate ContentIs(c: Platform, m: ProviderManifest, verdict: Result<VerifiedManifest, Error>) {
    match verdict
    case Ok(v) => ContentFault(c, m) == None && SortedInto(c, m, v)
    case Err(e) => ContentFault(c, m).Some? && e == ProviderManifestInvalid(ContentFault(c, m).value)
  }

  lemma HeadVerdict(c: Platform, raw: bytes, now: Instant, m: ProviderManifest)
    requires ManifestHead(c, raw, now) == Ok(m)
    ensures ContentIs(c, m, ManifestVerdict(c, raw, now))
  {
    ContentFaultExact(c, m);
    KeptClass(c, m.catalogs, true);
    KeptClass(c, m.catalogs, false);
    SkippedExact(c, m.catalogs);
  }

  ghost predicate ManifestVerdictIs(c: Platform, raw: bytes, m: ProviderManifest, now: Instant,
                                    verdict: Result<VerifiedManifest, Error>)
  {
    match OpeningFault(c, raw, m, now)
    case Some(f) => verdict == Err(ProviderManifestInvalid(f))
    case None => ContentIs(c, m, verdict)
  }

  lemma FormedManifest(c: Platform, raw: bytes, m: ProviderManifest, now: Instant)
    requires ManifestFormed(raw, m)
    ensures ManifestVerdictIs(c, raw, m, now, ManifestVerdict(c, raw, now))
  {
    ManifestTyped(raw, m);
    ManifestHeadExact(c, raw, now, m);
    if ManifestHead(c, raw, now).Ok? { HeadVerdict(c, raw, now, m); }
  }

  /**
   The verdict on a manifest, in full. Bytes that are no manifest document of the profile have a fault of structure.
   Otherwise the verdict is the first rule that fails; and when none does, the manifest is accepted, with its
   descriptors sorted into public, skipped for audience, and undecodable.
   */
  lemma ManifestVerdictExact(c: Platform, raw: bytes, now: Instant)
    ensures (forall m :: !ManifestFormed(raw, m)) ==>
              ManifestVerdict(c, raw, now) == Err(ProviderManifestInvalid(Structure))
    ensures forall m | ManifestFormed(raw, m) :: ManifestVerdictIs(c, raw, m, now, ManifestVerdict(c, raw, now))
  {
    if forall m :: !ManifestFormed(raw, m) { ManifestHeadUnformed(c, raw, now); }
    forall m | ManifestFormed(raw, m) ensures ManifestVerdictIs(c, raw, m, now, ManifestVerdict(c, raw, now)) {
      FormedManifest(c, raw, m, now);
    }
  }
}
