/** An honest publisher and a client: publications and refreshes in any order. */
module Protocol {
  import opened Basics
  import opened Canonical
  import opened Signing
  import opened Timestamps
  import opened Documents
  import opened Verify
  import opened Build
  import opened Published
  import opened ChainLogs
  import opened ClientRuns

  // ----- what an honest publisher has published -----

  /** The bytes `raw` are a snapshot of this sequence, linked to the previous bytes. */
  ghost predicate Continues(c: Platform, raw: bytes, sequence: nat, previous: Option<bytes>) {
    && StrictRead(raw).Some? && Typed(raw).Some?
    && Typed(raw).value.sequence as int == sequence
    && Typed(raw).value.previousDigest == (match previous case None => None case Some(p) => Some(Digest(c, p)))
  }

  /** Publication `i` carries sequence `i + 1` and the digest of publication `i - 1`. */
  ghost predicate Link(c: Platform, h: seq<bytes>, i: nat)
    requires i < |h|
  {
    Continues(c, h[i], i + 1, if i == 0 then None else Some(h[i - 1]))
  }

  ghost predicate Chained(c: Platform, h: seq<bytes>) {
    forall i {:trigger Link(c, h, i)} | 0 <= i < |h| :: Link(c, h, i)
  }

  ghost predicate CollisionFree(c: Platform, h: seq<bytes>) {
    forall i, j {:trigger Digest(c, h[i]), Digest(c, h[j])}
      | 0 <= i < |h| && 0 <= j < |h| && Digest(c, h[i]) == Digest(c, h[j]) :: h[i] == h[j]
  }

  /** The client retains publication `i`. */
  ghost predicate Holds(c: Platform, h: seq<bytes>, r: Retained, i: nat) {
    i < |h| && r.sequence as int == i + 1 && r.digest == Digest(c, h[i])
  }

  function Latest(h: seq<bytes>): Option<bytes> {
    if h == [] then None else Some(h[|h| - 1])
  }

  /** Building on the latest publication extends the chain. */
  lemma PublishExtends(c: Platform, h: seq<bytes>, config: SnapshotConfig, at: Instant, key: bytes, disk: Disk,
                       b: BuiltSnapshot)
    requires Chained(c, h) && |h| < U64_LIMIT && GoodConfig(config)
    requires SnapshotFor(c, config, Latest(h), at, key, disk) == Ok(b)
    ensures Chained(c, h + [b.raw])
  {
    var s := BuiltLink(c, config, Latest(h), at, key, disk, b);
    if h != [] { assert Link(c, h, |h| - 1); }
    NextLink(c, h, config, s, b.raw);
    ExtendChained(c, h, b.raw);
  }

  lemma BuiltLink(c: Platform, config: SnapshotConfig, previous: Option<bytes>, at: Instant, key: bytes, disk: Disk,
                  b: BuiltSnapshot) returns (s: CatalogSnapshot)
    requires GoodConfig(config) && SnapshotFor(c, config, previous, at, key, disk) == Ok(b)
    ensures StrictRead(b.raw).Some? && Typed(b.raw) == Some(s)
    ensures Chain(c, config, previous) == Ok((s.sequence, s.previousDigest))
  {
    s := BuiltReadsBack(c, config, previous, at, key, disk);
  }

  lemma ExtendChained(c: Platform, h: seq<bytes>, raw: bytes)
    requires Chained(c, h) && Link(c, h + [raw], |h|)
    ensures Chained(c, h + [raw])
  {
    forall i {:trigger Link(c, h + [raw], i)} | 0 <= i < |h| + 1 ensures Link(c, h + [raw], i) {
      if i < |h| { LinkPrefix(c, h, [raw], i); }
    }
  }

  lemma LinkPrefix(c: Platform, h: seq<bytes>, tail: seq<bytes>, i: nat)
    requires i < |h| && Chained(c, h)
    ensures Link(c, h + tail, i)
  {
    assert Link(c, h, i);
    SameContinues(c, h[i], (h + tail)[i], i + 1, if i == 0 then None else Some(h[i - 1]),
                  if i == 0 then None else Some((h + tail)[i - 1]));
  }

  lemma SameContinues(c: Platform, raw: bytes, raw': bytes, n: nat, p: Option<bytes>, p': Option<bytes>)
    requires Continues(c, raw, n, p) && raw == raw' && p == p'
    ensures Continues(c, raw', n, p')
  {
  }

  lemma NextLink(c: Platform, h: seq<bytes>, config: SnapshotConfig, s: CatalogSnapshot, raw: bytes)
    requires h != [] ==> Link(c, h, |h| - 1)
    requires |h| < U64_LIMIT && Chain(c, config, Latest(h)) == Ok((s.sequence, s.previousDigest))
    requires StrictRead(raw).Some? && Typed(raw) == Some(s)
    ensures Link(c, h + [raw], |h|)
  {
  }

  // ----- the client's comparison against an honest chain -----

  /** The outcome owed to a client that retains publication `held` and is served publication `served`. */
  function Owed(held: Option<nat>, served: nat): ChainOutcome
    requires held.Some? ==> held.value <= served && served < U64_LIMIT
  {
    match held
    case None => FirstAcceptance
    case Some(i) =>
      if i == served then NoOpRefresh
      else if i + 1 == served then Successor
      else ForwardJump((served - i - 1) as u64)
  }

  ghost predicate HoldsIf(c: Platform, h: seq<bytes>, retained: Option<Retained>, held: Option<nat>) {
    match held
    case None => retained.None?
    case Some(i) => retained.Some? && Holds(c, h, retained.value, i)
  }

  /** A publication that is not the immediate predecessor never has the digest that a snapshot links to. */
  lemma NoShortcut(c: Platform, h: seq<bytes>, i: nat, n: nat)
    requires Chained(c, h) && CollisionFree(c, h) && i + 1 < n < |h|
    ensures Digest(c, h[n - 1]) != Digest(c, h[i])
  {
    assert Link(c, h, i) && Link(c, h, n - 1);
  }

  /** The comparison of any publication with any earlier one finds the outcome owed, and never an accusation. */
  lemma HonestComparison(c: Platform, h: seq<bytes>, n: nat, retained: Option<Retained>, held: Option<nat>)
    requires Chained(c, h) && CollisionFree(c, h) && |h| <= U64_LIMIT && n < |h|
    requires HoldsIf(c, h, retained, held) && (held.Some? ==> held.value <= n)
    ensures Typed(h[n]).Some? && ChainShape(Typed(h[n]).value)
    ensures CompareChain(Typed(h[n]).value, Digest(c, h[n]), retained) == Ok(Owed(held, n))
  {
    assert Link(c, h, n);
    var s := Typed(h[n]).value;
    if n > 0 { DigestValid(c, h[n - 1]); }
    HonestOutcome(c, h, n, s, retained, held);
    FourCases(s, Digest(c, h[n]), retained, Owed(held, n), Malformed);
  }

  lemma HonestOutcome(c: Platform, h: seq<bytes>, n: nat, s: CatalogSnapshot, retained: Option<Retained>, held: Option<nat>)
    requires Chained(c, h) && CollisionFree(c, h) && |h| <= U64_LIMIT && n < |h|
    requires s.sequence as int == n + 1 && s.previousDigest == (if n == 0 then None else Some(Digest(c, h[n - 1])))
    requires HoldsIf(c, h, retained, held) && (held.Some? ==> held.value <= n)
    ensures Justified(s, Digest(c, h[n]), retained, Owed(held, n))
  {
    if held.Some? && held.value + 1 < n { NoShortcut(c, h, held.value, n); }
  }

  // ----- the two-party system -----

  datatype Event =
    | Publish(config: SnapshotConfig, key: bytes, at: Instant)
    | Refresh(manifest: VerifiedManifest, now: Instant)

  // What one refresh came to: the publication retained before it, the one served, the verdict.
  datatype Attempt = Attempt(held: Option<nat>, served: nat, verdict: Result<VerifiedSnapshot, Error>)

  datatype System = System(history: seq<bytes>, retained: Option<Retained>, held: Option<nat>, attempts: seq<Attempt>)

  const INITIAL := System([], None, None, [])

  /** Publishing chains onto the latest publication; a refresh is served the latest publication. */
  function Step(c: Platform, disk: Disk, sys: System, e: Event): System {
    match e
    case Publish(config, key, at) =>
      (match SnapshotFor(c, config, Latest(sys.history), at, key, disk)
       case Ok(b) => sys.(history := sys.history + [b.raw])
       case Err(_) => sys)
    case Refresh(manifest, now) =>
      if sys.history == [] then sys
      else
        var n := |sys.history| - 1;
        Attempted(sys, n, SnapshotVerdict(c, sys.history[n], manifest, sys.retained, now))
  }

  /** After a refresh that was served publication `n`. */
  function Attempted(sys: System, n: nat, verdict: Result<VerifiedSnapshot, Error>): System {
    var attempts := sys.attempts + [Attempt(sys.held, n, verdict)];
    match verdict
    case Ok(v) => System(sys.history, Some(AfterAcceptance(sys.retained, v)), Some(n), attempts)
    case Err(_) => sys.(attempts := attempts)
  }

  function After(c: Platform, disk: Disk, events: seq<Event>): System {
    if events == [] then INITIAL
    else Step(c, disk, After(c, disk, events[..|events| - 1]), events[|events| - 1])
  }

  /** Never an accusation; and when accepted, exactly the outcome owed, with the exact number missed. */
  ghost predicate Fair(a: Attempt) {
    && (a.held.Some? ==> a.held.value <= a.served) && a.served < U64_LIMIT
    && match a.verdict
       case Ok(v) => v.outcome == Owed(a.held, a.served)
       case Err(e) => !Accusation(e)
  }

  ghost predicate Invariant(c: Platform, sys: System) {
    && Chained(c, sys.history) && HoldsIf(c, sys.history, sys.retained, sys.held)
    && (forall i | 0 <= i < |sys.attempts| :: Fair(sys.attempts[i]))
  }

  ghost predicate GoodEvents(events: seq<Event>) {
    forall i | 0 <= i < |events| && events[i].Publish? :: GoodConfig(events[i].config)
  }

  /** What a verdict says about the comparison, when it is an acceptance or an accusation. */
  lemma VerdictCompares(c: Platform, raw: bytes, m: VerifiedManifest, retained: Option<Retained>, now: Instant)
    ensures var verdict := SnapshotVerdict(c, raw, m, retained, now);
            && (verdict.Ok? ==>
                  && verdict.value.digest == Digest(c, raw) && Typed(raw) == Some(verdict.value.snapshot)
                  && CompareChain(verdict.value.snapshot, Digest(c, raw), retained) == Ok(verdict.value.outcome))
            && (verdict.Err? && Accusation(verdict.error) ==>
                  Typed(raw).Some? && CompareChain(Typed(raw).value, Digest(c, raw), retained) == Err(verdict.error))
  {
    var verdict := SnapshotVerdict(c, raw, m, retained, now);
    if verdict.Ok? {
      VerdictFollows(c, raw, m, retained, now, verdict.value);
      FourCases(verdict.value.snapshot, Digest(c, raw), retained, verdict.value.outcome, Malformed);
    } else if Accusation(verdict.error) {
      AccusationCompares(c, raw, m, retained, now, verdict.error);
    }
  }

  lemma AccusationCompares(c: Platform, raw: bytes, m: VerifiedManifest, retained: Option<Retained>, now: Instant, e: Error)
    requires Admit(c, raw, m, retained, now) == Err(e) && Accusation(e)
    ensures Typed(raw).Some? && CompareChain(Typed(raw).value, Digest(c, raw), retained) == Err(e)
  {
    var s := HeadTyped(c, raw, m, e);
    AccusationSource(s, Digest(c, raw), m, retained, now, e);
  }

  lemma HeadTyped(c: Platform, raw: bytes, m: VerifiedManifest, e: Error) returns (s: CatalogSnapshot)
    requires SnapshotHead(c, raw, m).Err? ==> SnapshotHead(c, raw, m).error == e
    requires Accusation(e)
    ensures SnapshotHead(c, raw, m) == Ok(s) && Typed(raw) == Some(s)
  {
    s := SnapshotHead(c, raw, m).value;
  }

  lemma AccusationSource(s: CatalogSnapshot, digest: bytes, m: VerifiedManifest, retained: Option<Retained>, now: Instant,
                         e: Error)
    requires AdmitSigned(s, digest, m, retained, now) == Err(e) && Accusation(e)
    ensures CompareChain(s, digest, retained) == Err(e)
  {
    var policy := FindCatalog(m.catalogs, s.catalogId).value.policy;
    AdmittedAccuses(s, digest, policy, retained, e);
    FourCases(s, digest, retained, FirstAcceptance, e);
  }

  /** A client refreshing from an honest chain, whatever its manifest and its clock, is treated fairly. */
  lemma HonestRefresh(c: Platform, h: seq<bytes>, m: VerifiedManifest, retained: Option<Retained>, held: Option<nat>,
                      now: Instant, n: nat, verdict: Result<VerifiedSnapshot, Error>)
    requires Chained(c, h) && CollisionFree(c, h) && |h| <= U64_LIMIT && n < |h|
    requires HoldsIf(c, h, retained, held) && (held.Some? ==> held.value <= n)
    requires verdict == SnapshotVerdict(c, h[n], m, retained, now)
    ensures Fair(Attempt(held, n, verdict))
    ensures verdict.Ok? ==> Holds(c, h, AfterAcceptance(retained, verdict.value), n)
  {
    VerdictCompares(c, h[n], m, retained, now);
    HonestComparison(c, h, n, retained, held);
    assert Link(c, h, n);
  }

  // ----- every run of the system -----

  lemma {:induction false} HistoryBounded(c: Platform, disk: Disk, events: seq<Event>)
    ensures |After(c, disk, events).history| <= |events|
  {
    if events != [] { HistoryBounded(c, disk, events[..|events| - 1]); }
  }

  lemma StepGrows(c: Platform, disk: Disk, sys: System, e: Event)
    ensures sys.history <= Step(c, disk, sys, e).history
  {
  }

  lemma PrefixCollisionFree(c: Platform, g: seq<bytes>, h: seq<bytes>)
    requires g <= h && CollisionFree(c, h)
    ensures CollisionFree(c, g)
  {
    forall i, j | 0 <= i < |g| && 0 <= j < |g| && Digest(c, g[i]) == Digest(c, g[j]) ensures g[i] == g[j] {
      assert g[i] == h[i] && g[j] == h[j];
    }
  }

  lemma HoldsPrefix(c: Platform, h: seq<bytes>, raw: bytes, retained: Option<Retained>, held: Option<nat>)
    requires HoldsIf(c, h, retained, held)
    ensures HoldsIf(c, h + [raw], retained, held)
  {
    if held.Some? { assert (h + [raw])[held.value] == h[held.value]; }
  }

  lemma StepInvariant(c: Platform, disk: Disk, sys: System, e: Event)
    requires Invariant(c, sys) && |sys.history| < U64_LIMIT && CollisionFree(c, sys.history)
    requires e.Publish? ==> GoodConfig(e.config)
    ensures Invariant(c, Step(c, disk, sys, e))
  {
    match e
    case Publish(config, key, at) => PublishInvariant(c, disk, sys, config, key, at);
    case Refresh(manifest, now) => RefreshInvariant(c, disk, sys, manifest, now);
  }

  lemma PublishInvariant(c: Platform, disk: Disk, sys: System, config: SnapshotConfig, key: bytes, at: Instant)
    requires Invariant(c, sys) && |sys.history| < U64_LIMIT && GoodConfig(config)
    ensures Invariant(c, Step(c, disk, sys, Publish(config, key, at)))
  {
    var h := sys.history;
    var r := SnapshotFor(c, config, Latest(h), at, key, disk);
    if r.Ok? {
      PublishExtends(c, h, config, at, key, disk, r.value);
      HoldsPrefix(c, h, r.value.raw, sys.retained, sys.held);
    }
  }

  lemma RefreshInvariant(c: Platform, disk: Disk, sys: System, manifest: VerifiedManifest, now: Instant)
    requires Invariant(c, sys) && |sys.history| < U64_LIMIT && CollisionFree(c, sys.history)
    ensures Invariant(c, Step(c, disk, sys, Refresh(manifest, now)))
  {
    var h := sys.history;
    if h != [] {
      AttemptInvariant(c, sys, manifest, now, |h| - 1, SnapshotVerdict(c, h[|h| - 1], manifest, sys.retained, now));
    }
  }

  lemma AttemptInvariant(c: Platform, sys: System, manifest: VerifiedManifest, now: Instant, n: nat,
                         verdict: Result<VerifiedSnapshot, Error>)
    requires Invariant(c, sys) && |sys.history| < U64_LIMIT && CollisionFree(c, sys.history) && n + 1 == |sys.history|
    requires verdict == SnapshotVerdict(c, sys.history[n], manifest, sys.retained, now)
    ensures Invariant(c, Attempted(sys, n, verdict))
  {
    HonestRefresh(c, sys.history, manifest, sys.retained, sys.held, now, n, verdict);
  }

  lemma {:induction false} RunInvariant(c: Platform, disk: Disk, events: seq<Event>)
    requires GoodEvents(events) && |events| <= U64_LIMIT && CollisionFree(c, After(c, disk, events).history)
    ensures Invariant(c, After(c, disk, events))
  {
    if events != [] {
      var n := |events| - 1;
      var before := After(c, disk, events[..n]);
      HistoryBounded(c, disk, events[..n]);
      StepGrows(c, disk, before, events[n]);
      PrefixCollisionFree(c, before.history, After(c, disk, events).history);
      assert GoodEvents(events[..n]);
      RunInvariant(c, disk, events[..n]);
      StepInvariant(c, disk, before, events[n]);
    }
  }

  /**
   An honest publisher is never accused. For every interleaving of publications, each chained on the latest,
   with refreshes under any manifests and at any clocks: no refresh ends in a rollback, a fork or an
   inconsistent jump, and every accepted refresh reports exactly the outcome owed, with the exact number of
   publications it missed. The publications are assumed fewer than the 64-bit sequences, and their digests
   free of collisions.
   */
  lemma HonestPublisherNeverAccused(c: Platform, disk: Disk, events: seq<Event>, k: nat)
    requires GoodEvents(events) && |events| <= U64_LIMIT && CollisionFree(c, After(c, disk, events).history)
    requires k < |After(c, disk, events).attempts|
    ensures Fair(After(c, disk, events).attempts[k])
  {
    RunInvariant(c, disk, events);
  }
}
